/** One polling cycle as its ordered list of requests, and the capability matrix
    that cycles hand on. */
module PollCycle {
  import opened Common

  datatype Step = Status | Information | Signal | Network | CurrentPlmn | Traffic | Month
                | CellInfo | SecCell | NbrCell | CellLock | DataSwitch | LogInfo

  datatype Cap = SmsCap | SignalCap | TrafficCap | CellularCap | CellInfoCap | RebootCap
               | CarrierAggCap | NeighborCap | LockCap | LogCap | DataSwitchCap

  /** The matrix, as the set of entries that are true. */
  type Caps = set<Cap>

  const ALL_ON: Caps := {SmsCap, SignalCap, TrafficCap, CellularCap, CellInfoCap, RebootCap,
                         CarrierAggCap, NeighborCap, LockCap, LogCap, DataSwitchCap}

  /** connection is the ConnectionStatus field, which only monitoring/status carries. */
  datatype Reply = Ok(connection: Option<int>) | Err(kind: ErrKind)

  datatype Request = Request(step: Step, reply: Reply)

  datatype Snapshot = Snapshot(online: bool, hasError: bool, caps: Caps)

  const STEPS: seq<Step> := [Status, Information, Signal, Network, CurrentPlmn, Traffic, Month,
                             CellInfo, SecCell, NbrCell, CellLock, DataSwitch, LogInfo]

  const CONNECTED := 901

  /** The entry pollOnce tests before a request. */
  function GateOf(step: Step): Option<Cap> {
    match step
    case Status => None
    case Information => None
    case Signal => Some(SignalCap)
    case Network => Some(CellularCap)
    case CurrentPlmn => Some(CellularCap)
    case Traffic => Some(TrafficCap)
    case Month => Some(TrafficCap)
    case CellInfo => Some(CellInfoCap)
    case SecCell => Some(CarrierAggCap)
    case NbrCell => Some(NeighborCap)
    case CellLock => Some(LockCap)
    case DataSwitch => Some(DataSwitchCap)
    case LogInfo => Some(LogCap)
  }

  predicate Gate(caps: Caps, step: Step) {
    GateOf(step).Some? ==> GateOf(step).value in caps
  }

  /** The call sites that drop an Unsupported error before handlePollErr sees it. */
  predicate DropsUnsupported(step: Step) {
    step !in {Status, Information, Signal, Network, CurrentPlmn, Traffic}
  }

  /** The entries disableCap clears for a step name. */
  function Disabled(step: Step): set<Cap> {
    match step
    case Signal => {SignalCap}
    case Traffic => {TrafficCap}
    case Month => {TrafficCap}
    case Network => {CellularCap}
    case CurrentPlmn => {CellularCap}
    case CellInfo => {CellInfoCap}
    case SecCell => {CarrierAggCap}
    case NbrCell => {NeighborCap}
    case CellLock => {LockCap}
    case DataSwitch => {DataSwitchCap}
    case LogInfo => {LogCap}
    case _ => {}
  }

  function HandlePollErr(snap: Snapshot, step: Step, kind: ErrKind): Snapshot {
    match kind
    case KindUnsupported => snap.(caps := snap.caps - Disabled(step))
    case KindPermanent => snap.(online := false)
    case _ => snap.(hasError := true)
  }

  /** What the reply to an issued request does to the snapshot. */
  function Absorb(snap: Snapshot, step: Step, reply: Reply): Snapshot {
    match reply
    case Ok(connection) =>
      if step.Status? && connection.Some? then snap.(online := connection.value == CONNECTED) else snap
    case Err(kind) =>
      if DropsUnsupported(step) && kind.KindUnsupported? then snap else HandlePollErr(snap, step, kind)
  }

  /** The snapshot after the first n steps, and the requests issued so far. */
  function After(caps: Caps, replies: Step -> Reply, n: nat): (Snapshot, seq<Request>)
    requires n <= |STEPS|
  {
    if n == 0 then (Snapshot(true, false, caps), [])
    else
      var (snap, reqs) := After(caps, replies, n - 1);
      var step := STEPS[n - 1];
      if Gate(snap.caps, step) then (Absorb(snap, step, replies(step)), reqs + [Request(step, replies(step))])
      else (snap, reqs)
  }

  datatype Cycle = ConnectFailed | Connected(replies: Step -> Reply)

  function CycleCaps(caps: Caps, c: Cycle): Caps {
    if c.ConnectFailed? then caps else After(caps, c.replies, |STEPS|).0.caps
  }

  function CycleRequests(caps: Caps, c: Cycle): seq<Request> {
    if c.ConnectFailed? then [] else After(caps, c.replies, |STEPS|).1
  }

  function RunCaps(caps: Caps, cs: seq<Cycle>): Caps {
    if cs == [] then caps else CycleCaps(RunCaps(caps, cs[..|cs| - 1]), cs[|cs| - 1])
  }

  /** Every request of a run, in order. */
  function RunRequests(caps: Caps, cs: seq<Cycle>): seq<Request> {
    if cs == [] then []
    else
      var before := cs[..|cs| - 1];
      RunRequests(caps, before) + CycleRequests(RunCaps(caps, before), cs[|cs| - 1])
  }

  // ---- what the matrix remembers ----

  predicate Refused(r: Request) {
    r.reply == Err(KindUnsupported)
  }

  ghost predicate SawRefused(trace: seq<Request>, steps: set<Step>) {
    exists i :: 0 <= i < |trace| && trace[i].step in steps && Refused(trace[i])
  }

  ghost function Cleared(trace: seq<Request>): set<Cap> {
    (if SawRefused(trace, {Signal}) then {SignalCap} else {})
    + (if SawRefused(trace, {Network, CurrentPlmn}) then {CellularCap} else {})
    + (if SawRefused(trace, {Traffic}) then {TrafficCap} else {})
  }

  /** The matrix is determined by the refusals seen: three entries follow the
      requests that can clear them, and the other eight never change. */
  ghost predicate Reflects(caps: Caps, trace: seq<Request>) {
    caps == ALL_ON - Cleared(trace)
  }

  /** A refusal of a rules out any later request of b. */
  predicate Silences(a: Step, b: Step) {
    match a
    case Signal => b.Signal?
    case Network => b.Network? || b.CurrentPlmn?
    case CurrentPlmn => b.Network? || b.CurrentPlmn?
    case Traffic => b.Traffic? || b.Month?
    case _ => false
  }

  ghost predicate NeverAgain(trace: seq<Request>) {
    forall i, j :: 0 <= i < j < |trace| && Refused(trace[i]) ==> !Silences(trace[i].step, trace[j].step)
  }

  lemma SawRefusedSnoc(trace: seq<Request>, r: Request, steps: set<Step>)
    ensures SawRefused(trace + [r], steps) <==> SawRefused(trace, steps) || (r.step in steps && Refused(r))
  {
    var t := trace + [r];
    if SawRefused(trace, steps) {
      var i :| 0 <= i < |trace| && trace[i].step in steps && Refused(trace[i]);
      assert t[i] == trace[i];
    }
    if r.step in steps && Refused(r) { assert t[|trace|] == r; }
  }

  /** One issued request keeps the matrix and the trace in step. */
  lemma ReflectsSnoc(snap: Snapshot, trace: seq<Request>, step: Step, reply: Reply)
    requires Reflects(snap.caps, trace) && NeverAgain(trace) && Gate(snap.caps, step)
    ensures Reflects(Absorb(snap, step, reply).caps, trace + [Request(step, reply)])
    ensures NeverAgain(trace + [Request(step, reply)])
  {
    var r := Request(step, reply);
    SawRefusedSnoc(trace, r, {Signal});
    SawRefusedSnoc(trace, r, {Network, CurrentPlmn});
    SawRefusedSnoc(trace, r, {Traffic});
    forall i | 0 <= i < |trace| && Refused(trace[i]) ensures !Silences(trace[i].step, step) {
      assert trace[i].step == Signal ==> SawRefused(trace, {Signal});
      assert trace[i].step in {Network, CurrentPlmn} ==> SawRefused(trace, {Network, CurrentPlmn});
      assert trace[i].step == Traffic ==> SawRefused(trace, {Traffic});
    }
    hide SawRefused;
  }

  lemma {:induction false} ReflectsAfter(caps: Caps, trace: seq<Request>, replies: Step -> Reply, n: nat)
    requires n <= |STEPS| && Reflects(caps, trace) && NeverAgain(trace)
    ensures Reflects(After(caps, replies, n).0.caps, trace + After(caps, replies, n).1)
    ensures NeverAgain(trace + After(caps, replies, n).1)
    decreases n
  {
    if n == 0 {
      assert trace + [] == trace;
    } else {
      ReflectsAfter(caps, trace, replies, n - 1);
      var (snap, reqs) := After(caps, replies, n - 1);
      var step := STEPS[n - 1];
      hide Reflects, NeverAgain, Absorb;
      if Gate(snap.caps, step) {
        ReflectsSnoc(snap, trace + reqs, step, replies(step));
        assert trace + (reqs + [Request(step, replies(step))]) == trace + reqs + [Request(step, replies(step))];
      }
    }
  }

  /** Over any run of cycles and failed connects: the matrix is exactly what the
      refusals seen so far say, and a refused endpoint is never asked again. */
  lemma {:induction false} CapabilityTrace(cs: seq<Cycle>)
    ensures Reflects(RunCaps(ALL_ON, cs), RunRequests(ALL_ON, cs))
    ensures NeverAgain(RunRequests(ALL_ON, cs))
    decreases |cs|
  {
    if cs != [] {
      var before, c := cs[..|cs| - 1], cs[|cs| - 1];
      CapabilityTrace(before);
      hide Reflects, NeverAgain;
      var caps, trace := RunCaps(ALL_ON, before), RunRequests(ALL_ON, before);
      if c.Connected? {
        ReflectsAfter(caps, trace, c.replies, |STEPS|);
      } else {
        assert trace + [] == trace;
      }
    }
  }

  lemma {:induction false} AfterOnlyClears(caps: Caps, replies: Step -> Reply, n: nat)
    requires n <= |STEPS|
    ensures After(caps, replies, n).0.caps <= caps
    decreases n
  {
    if n > 0 { AfterOnlyClears(caps, replies, n - 1); }
  }

  /** From any starting matrix, entries only go from true to false. */
  lemma {:induction false} CapsOnlyClear(caps: Caps, cs: seq<Cycle>, k: nat)
    requires k <= |cs|
    ensures RunCaps(caps, cs) <= RunCaps(caps, cs[..k])
    decreases |cs|
  {
    if k == |cs| {
      assert cs[..k] == cs;
    } else {
      var before, c := cs[..|cs| - 1], cs[|cs| - 1];
      CapsOnlyClear(caps, before, k);
      assert before[..k] == cs[..k];
      if c.Connected? { AfterOnlyClears(RunCaps(caps, before), c.replies, |STEPS|); }
    }
  }

  // ---- which requests a cycle sends ----

  function Index(step: Step): (i: nat)
    ensures i < |STEPS| && STEPS[i] == step
  {
    match step
    case Status => 0
    case Information => 1
    case Signal => 2
    case Network => 3
    case CurrentPlmn => 4
    case Traffic => 5
    case Month => 6
    case CellInfo => 7
    case SecCell => 8
    case NbrCell => 9
    case CellLock => 10
    case DataSwitch => 11
    case LogInfo => 12
  }

  lemma IndexOf(k: nat)
    requires k < |STEPS|
    ensures Index(STEPS[k]) == k
  {
  }

  ghost predicate Asks(reqs: seq<Request>, step: Step) {
    exists i :: 0 <= i < |reqs| && reqs[i].step == step
  }

  lemma AsksSnoc(reqs: seq<Request>, r: Request, step: Step)
    ensures Asks(reqs + [r], step) <==> Asks(reqs, step) || r.step == step
  {
    if i :| 0 <= i < |reqs| && reqs[i].step == step { assert (reqs + [r])[i].step == step; }
    if r.step == step { assert (reqs + [r])[|reqs|].step == step; }
  }

  lemma {:induction false} AsksByGate(caps: Caps, replies: Step -> Reply, n: nat, step: Step)
    requires n <= |STEPS|
    ensures Asks(After(caps, replies, n).1, step)
       <==> Index(step) < n && Gate(After(caps, replies, Index(step)).0.caps, step)
    decreases n
  {
    if n > 0 {
      AsksByGate(caps, replies, n - 1, step);
      IndexOf(n - 1);
      var (snap, reqs) := After(caps, replies, n - 1);
      var s := STEPS[n - 1];
      AsksSnoc(reqs, Request(s, replies(s)), step);
      hide Asks, Gate, Absorb, Index;
    }
  }

  /** The requests of a run and of the next cycle up to a step. */
  function TraceBefore(cs: seq<Cycle>, replies: Step -> Reply, step: Step): seq<Request> {
    RunRequests(ALL_ON, cs) + After(RunCaps(ALL_ON, cs), replies, Index(step)).1
  }

  ghost predicate Silenced(trace: seq<Request>, step: Step) {
    exists i :: 0 <= i < |trace| && Refused(trace[i]) && Silences(trace[i].step, step)
  }

  lemma SawRefusedSilences(trace: seq<Request>, steps: set<Step>, step: Step)
    requires forall a: Step :: a in steps <==> Silences(a, step)
    ensures SawRefused(trace, steps) <==> Silenced(trace, step)
  {
  }

  lemma GateReflects(caps: Caps, trace: seq<Request>, step: Step)
    requires Reflects(caps, trace)
    ensures Gate(caps, step) <==> !Silenced(trace, step)
  {
    match step
    case Signal => SawRefusedSilences(trace, {Signal}, step);
    case Network => SawRefusedSilences(trace, {Network, CurrentPlmn}, step);
    case CurrentPlmn => SawRefusedSilences(trace, {Network, CurrentPlmn}, step);
    case Traffic => SawRefusedSilences(trace, {Traffic}, step);
    case Month => SawRefusedSilences(trace, {Traffic}, step);
    case _ =>
  }

  /** A connected cycle after any run asks for a step exactly when no earlier refusal
      in the run or in the cycle silences it. */
  lemma AskedExact(cs: seq<Cycle>, c: Cycle, step: Step)
    requires c.Connected?
    ensures Asks(CycleRequests(RunCaps(ALL_ON, cs), c), step) <==> !Silenced(TraceBefore(cs, c.replies, step), step)
  {
    CapabilityTrace(cs);
    var caps, trace := RunCaps(ALL_ON, cs), RunRequests(ALL_ON, cs);
    ReflectsAfter(caps, trace, c.replies, Index(step));
    GateReflects(After(caps, c.replies, Index(step)).0.caps, TraceBefore(cs, c.replies, step), step);
    AsksByGate(caps, c.replies, |STEPS|, step);
    hide Reflects, NeverAgain, Silenced, Asks, Gate, RunCaps, RunRequests;
  }

  /** Nothing silences these eight: contrary to the documented "not supported is cached
      and never asked again", every connected cycle asks them, however often they refuse. */
  lemma RefusalForgotten(cs: seq<Cycle>, c: Cycle, step: Step)
    requires c.Connected?
    requires step in {Status, Information, CellInfo, SecCell, NbrCell, CellLock, DataSwitch, LogInfo}
    ensures Asks(CycleRequests(RunCaps(ALL_ON, cs), c), step)
  {
    AskedExact(cs, c, step);
  }

  /** Requests of some of the first n steps, in their order, none twice. */
  ghost predicate InOrder(reqs: seq<Request>, replies: Step -> Reply, n: nat) {
    && (forall i, j :: 0 <= i < j < |reqs| ==> Index(reqs[i].step) < Index(reqs[j].step))
    && (forall i :: 0 <= i < |reqs| ==> Index(reqs[i].step) < n && reqs[i].reply == replies(reqs[i].step))
  }

  lemma InOrderMore(reqs: seq<Request>, replies: Step -> Reply, n: nat)
    requires n < |STEPS| && InOrder(reqs, replies, n)
    ensures InOrder(reqs, replies, n + 1)
    ensures InOrder(reqs + [Request(STEPS[n], replies(STEPS[n]))], replies, n + 1)
  {
    IndexOf(n);
    hide Index;
  }

  lemma RequestsMore(caps: Caps, replies: Step -> Reply, n: nat)
    requires n < |STEPS|
    ensures var before, after := After(caps, replies, n).1, After(caps, replies, n + 1).1;
            after == before || after == before + [Request(STEPS[n], replies(STEPS[n]))]
  {
    hide Gate, Absorb;
  }

  lemma NoRequests(caps: Caps, replies: Step -> Reply)
    ensures InOrder(After(caps, replies, 0).1, replies, 0)
  {
  }

  /** The requests of a cycle go out one by one in the order of STEPS, none twice. */
  lemma {:induction false} CycleInOrder(caps: Caps, replies: Step -> Reply, n: nat)
    requires n <= |STEPS|
    ensures InOrder(After(caps, replies, n).1, replies, n)
    decreases n
  {
    hide *;
    if n == 0 {
      NoRequests(caps, replies);
    } else {
      CycleInOrder(caps, replies, n - 1);
      RequestsMore(caps, replies, n - 1);
      InOrderMore(After(caps, replies, n - 1).1, replies, n - 1);
    }
  }

  // ---- which refusals are remembered ----

  ghost predicate NotAskedAgain(trace: seq<Request>, step: Step) {
    forall i, j :: 0 <= i < j < |trace| && trace[i].step == step && Refused(trace[i]) ==> trace[j].step != step
  }

  /** One step is refused, the others answer. */
  function RefuseOnly(step: Step): Step -> Reply {
    (s: Step) => if s == step then Err(KindUnsupported) else Ok(None)
  }

  predicate Remembered(step: Step) {
    step in {Signal, Network, CurrentPlmn, Traffic}
  }

  lemma ForgottenStep(step: Step, s: Step)
    requires !Remembered(step)
    ensures Gate(ALL_ON, s)
    ensures forall snap: Snapshot :: snap.caps == ALL_ON ==> Absorb(snap, s, RefuseOnly(step)(s)).caps == ALL_ON
  {
  }

  lemma {:induction false} ForgottenAfter(step: Step, n: nat)
    requires n <= |STEPS| && !Remembered(step)
    ensures After(ALL_ON, RefuseOnly(step), n).0.caps == ALL_ON
    ensures |After(ALL_ON, RefuseOnly(step), n).1| == n
    ensures forall k :: 0 <= k < n ==>
      After(ALL_ON, RefuseOnly(step), n).1[k] == Request(STEPS[k], RefuseOnly(step)(STEPS[k]))
    decreases n
  {
    if n > 0 {
      ForgottenAfter(step, n - 1);
      ForgottenStep(step, STEPS[n - 1]);
      hide Absorb, Gate, RefuseOnly;
    }
  }

  lemma TwoCycles(c: Cycle)
    requires c.Connected? && CycleCaps(ALL_ON, c) == ALL_ON
    ensures RunRequests(ALL_ON, [c, c]) == CycleRequests(ALL_ON, c) + CycleRequests(ALL_ON, c)
  {
    hide CycleCaps, CycleRequests;
    assert [c, c][..1] == [c] && [c][..0] == [];
    assert RunRequests(ALL_ON, [c]) == [] + CycleRequests(ALL_ON, c) && RunCaps(ALL_ON, [c]) == ALL_ON;
  }

  /** Two cycles in which the same step is refused, and asked both times. */
  lemma AskedTwice(step: Step)
    requires !Remembered(step)
    ensures var c := Connected(RefuseOnly(step));
            !NotAskedAgain(RunRequests(ALL_ON, [c, c]), step)
  {
    var c := Connected(RefuseOnly(step));
    var once := After(ALL_ON, RefuseOnly(step), |STEPS|).1;
    ForgottenAfter(step, |STEPS|);
    hide After;
    TwoCycles(c);
    var trace := RunRequests(ALL_ON, [c, c]);
    var k, n := Index(step), |once|;
    assert STEPS[k] == step && once[k] == Request(step, Err(KindUnsupported));
    hide RunRequests, Index;
    assert trace[k] == once[k] && trace[n + k] == once[k];
    assert k < n + k && trace[k].step == step && Refused(trace[k]) && trace[n + k].step == step;
  }

  /** In every run a refused endpoint is left alone for good, exactly for four of the
      thirteen; each of the other nine is asked again in some run. */
  lemma RememberedExact(step: Step)
    ensures (forall cs :: NotAskedAgain(RunRequests(ALL_ON, cs), step)) <==> Remembered(step)
  {
    if Remembered(step) {
      forall cs ensures NotAskedAgain(RunRequests(ALL_ON, cs), step) {
        CapabilityTrace(cs);
        assert Silences(step, step);
      }
    } else {
      AskedTwice(step);
    }
  }

  // ---- the flags of a snapshot ----

  predicate Transient(r: Request) {
    r.reply.Err? && !r.reply.kind.KindUnsupported? && !r.reply.kind.KindPermanent?
  }

  ghost predicate OnlineSoFar(reqs: seq<Request>) {
    forall i :: 0 <= i < |reqs| ==>
      && reqs[i].reply != Err(KindPermanent)
      && (reqs[i].step.Status? && reqs[i].reply.Ok? && reqs[i].reply.connection.Some? ==>
            reqs[i].reply.connection.value == 901)
  }

  /** A snapshot is online exactly when the CPE did not report another connection
      state and no issued request met a permanent error; it has the error flag
      exactly when some issued request failed in a way worth retrying. */
  lemma {:induction false} SnapshotFlags(caps: Caps, replies: Step -> Reply, n: nat)
    requires n <= |STEPS|
    ensures var (snap, reqs) := After(caps, replies, n);
            && (snap.online <==> OnlineSoFar(reqs))
            && (snap.hasError <==> exists i :: 0 <= i < |reqs| && Transient(reqs[i]))
            && (n == 0 ==> reqs == []) && (n > 0 ==> reqs != [] && reqs[0].step.Status?)
            && (forall i :: 1 <= i < |reqs| ==> !reqs[i].step.Status?)
    decreases n
  {
    if n > 0 {
      SnapshotFlags(caps, replies, n - 1);
      var (snap, reqs) := After(caps, replies, n - 1);
      var step := STEPS[n - 1];
      var (snap', reqs') := After(caps, replies, n);
      if Gate(snap.caps, step) {
        var r := Request(step, replies(step));
        assert reqs' == reqs + [r];
        if snap.hasError {
          var i :| 0 <= i < |reqs| && Transient(reqs[i]);
          assert Transient(reqs'[i]);
        }
        if Transient(r) { assert Transient(reqs'[|reqs|]); }
        assert OnlineSoFar(reqs') <==> OnlineSoFar(reqs) && OnlineSoFar([r]) by {
          if OnlineSoFar(reqs') {
            assert forall i :: 0 <= i < |reqs| ==> reqs'[i] == reqs[i];
            assert reqs'[|reqs|] == r;
          }
          if OnlineSoFar(reqs) && OnlineSoFar([r]) {
            assert [r][0] == r;
          }
        }
        if OnlineSoFar([r]) { assert [r][0] == r; }
      }
    }
  }

  // ---- the object ----

  class Poller {
    var last: Snapshot

    constructor ()
      ensures last == Snapshot(false, false, ALL_ON)
    {
      last := Snapshot(false, false, ALL_ON);
    }

    /** One `if gate { request; on error … }` block. */
    method Block(snap: Snapshot, reqs: seq<Request>, n: nat, replies: Step -> Reply, ghost caps: Caps)
      returns (snap': Snapshot, reqs': seq<Request>)
      requires n < |STEPS| && (snap, reqs) == After(caps, replies, n)
      ensures (snap', reqs') == After(caps, replies, n + 1)
    {
      snap', reqs' := snap, reqs;
      var step := STEPS[n];
      if !Gate(snap.caps, step) {
        return;
      }
      var reply := replies(step);
      reqs' := reqs + [Request(step, reply)];
      if reply.Ok? {
        if step == Status && reply.connection.Some? {
          snap' := snap.(online := reply.connection.value == 901);
        }
      } else if !DropsUnsupported(step) || reply.kind != KindUnsupported {
        snap' := HandlePollErr(snap, step, reply.kind);
      }
    }

    /** pollOnce; a failed Lease only marks the last snapshot. */
    method PollOnce(c: Cycle) returns (reqs: seq<Request>)
      modifies this
      ensures reqs == CycleRequests(old(last.caps), c) && last.caps == CycleCaps(old(last.caps), c)
      ensures c.ConnectFailed? ==> !last.online && last.hasError
      ensures c.Connected? ==> last == After(old(last.caps), c.replies, |STEPS|).0
    {
      reqs := [];
      if c.ConnectFailed? {
        last := last.(online := false, hasError := true);
        return;
      }
      var snap := Snapshot(true, false, last.caps);
      snap, reqs := Block(snap, reqs, 0, c.replies, last.caps);   // monitoring/status
      snap, reqs := Block(snap, reqs, 1, c.replies, last.caps);   // device/information
      snap, reqs := Block(snap, reqs, 2, c.replies, last.caps);   // device/signal
      snap, reqs := Block(snap, reqs, 3, c.replies, last.caps);   // net/network
      snap, reqs := Block(snap, reqs, 4, c.replies, last.caps);   // net/current-plmn
      snap, reqs := Block(snap, reqs, 5, c.replies, last.caps);   // monitoring/traffic-statistics
      snap, reqs := Block(snap, reqs, 6, c.replies, last.caps);   // monitoring/month_statistics
      snap, reqs := Block(snap, reqs, 7, c.replies, last.caps);   // net/cell-info
      snap, reqs := Block(snap, reqs, 8, c.replies, last.caps);   // device/seccellinfo
      snap, reqs := Block(snap, reqs, 9, c.replies, last.caps);   // device/nbrcellinfo
      snap, reqs := Block(snap, reqs, 10, c.replies, last.caps);  // ntwk/celllock
      snap, reqs := Block(snap, reqs, 11, c.replies, last.caps);  // dialup/mobile-dataswitch
      snap, reqs := Block(snap, reqs, 12, c.replies, last.caps);  // log/loginfo
      last := snap;
    }
  }
}
