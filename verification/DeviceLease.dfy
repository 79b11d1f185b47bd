/** The two-lock connection protocol of a Device, at the granularity of its
    critical sections.  A `CallId` names one call of Lease, Relogin or Close in
    progress; any number of them interleave.  The dial runs with `mu` released,
    so it is a step of its own. */
module DeviceLease {
  import opened Common

  type CallId = nat
  type ConnId = nat

  datatype Failure = DeviceClosed | DialFailed

  datatype Outcome = Released | Failed(why: Failure) | CloseReturned

  /** Where a call stands. */
  datatype Pc =
    | AwaitLease(relogin: bool)      // blocked in leaseMu.Lock
    | Resetting                      // Relogin, before resetConn's critical section
    | Discarding(stale: ConnId)        // took the old connection out, has not closed it yet
    | Checking                       // before connect's read section
    | Dialling                       // NewConnection in progress
    | Dialled(brandNew: ConnId)         // before connect's write section
    | Leased(conn: ConnId)           // the caller works with this connection
    | Failing(why: Failure)          // about to unlock leaseMu
    | CloseCalled                    // Close, before its critical section
    | CloseDiscarding(stale: ConnId)   // Close took the connection out, has not closed it yet
    | Finished(outcome: Outcome)

  /** Fields guarded by the two mutexes, the calls in progress, and the history
      of the SDK: connections are numbered as they are dialled, and every
      conn.Close() is counted. */
  datatype System = System(
    conn: Option<ConnId>,
    client: Option<ConnId>,          // the connection the SDK client is built over
    online: bool,
    closed: bool,
    leaseMu: Option<CallId>,
    calls: map<CallId, Pc>,
    dialled: nat,
    closes: multiset<ConnId>)

  datatype Event =
    | CallLease(t: CallId)
    | CallRelogin(t: CallId)
    | CallClose(t: CallId)
    | Lock(t: CallId)                // leaseMu.Lock succeeds
    | DialReturns(t: CallId, ok: bool)
    | Step(t: CallId)                // the call's next critical section
    | SetOnline(b: bool)

  const Init := System(None, None, false, false, None, map[], 0, multiset{})

  predicate InLease(pc: Pc) {
    pc.Resetting? || pc.Discarding? || pc.Checking? || pc.Dialling? || pc.Dialled? || pc.Leased? || pc.Failing?
  }

  /** The connection that only this call still refers to and must dispose of. */
  function Hand(pc: Pc): Option<ConnId> {
    match pc
    case Discarding(c) => Some(c)
    case CloseDiscarding(c) => Some(c)
    case Dialled(c) => Some(c)
    case _ => None
  }

  predicate At(s: System, t: CallId, pc: Pc) {
    t in s.calls && s.calls[t] == pc
  }

  function Goto(s: System, t: CallId, pc: Pc): System {
    s.(calls := s.calls[t := pc])
  }

  function CloseConn(s: System, c: ConnId): System {
    s.(closes := s.closes + multiset{c})
  }

  // ---- one atomic step ----

  function ResetSection(s: System, t: CallId): System {
    var s' := s.(conn := None, client := None, online := false);
    if s.conn.Some? then Goto(s', t, Discarding(s.conn.value)) else Goto(s', t, Checking)
  }

  function CheckSection(s: System, t: CallId): System {
    if s.client.Some? && s.conn.Some? && !s.closed then Goto(s, t, Leased(s.client.value))
    else if s.closed then Goto(s, t, Failing(DeviceClosed))
    else Goto(s, t, Dialling)
  }

  function DialSection(s: System, t: CallId, ok: bool): System {
    if ok then Goto(s.(dialled := s.dialled + 1), t, Dialled(s.dialled)) else Goto(s, t, Failing(DialFailed))
  }

  function InstallSection(s: System, t: CallId, c: ConnId): System {
    if s.closed then Goto(CloseConn(s, c), t, Failing(DeviceClosed))
    else Goto(s.(conn := Some(c), client := Some(c), online := true), t, Leased(c))
  }

  function UnlockSection(s: System, t: CallId, outcome: Outcome): System {
    Goto(s.(leaseMu := None), t, Finished(outcome))
  }

  function CloseSection(s: System, t: CallId): System {
    if s.closed then Goto(s, t, Finished(CloseReturned))
    else
      var s' := s.(closed := true, conn := None, client := None, online := false);
      if s.conn.Some? then Goto(s', t, CloseDiscarding(s.conn.value)) else Goto(s', t, Finished(CloseReturned))
  }

  function StepOf(s: System, t: CallId): System
    requires t in s.calls
  {
    match s.calls[t]
    case Resetting => ResetSection(s, t)
    case Discarding(c) => Goto(CloseConn(s, c), t, Checking)
    case Checking => CheckSection(s, t)
    case Dialled(c) => InstallSection(s, t, c)
    case Leased(_) => UnlockSection(s, t, Released)
    case Failing(why) => UnlockSection(s, t, Failed(why))
    case CloseCalled => CloseSection(s, t)
    case CloseDiscarding(c) => Goto(CloseConn(s, c), t, Finished(CloseReturned))
    case _ => s
  }

  /** One step of the system; an event that is not enabled changes nothing. */
  function Next(s: System, ev: Event): System {
    match ev
    case CallLease(t) => if t in s.calls then s else Goto(s, t, AwaitLease(false))
    case CallRelogin(t) => if t in s.calls then s else Goto(s, t, AwaitLease(true))
    case CallClose(t) => if t in s.calls then s else Goto(s, t, CloseCalled)
    case Lock(t) =>
      if t in s.calls && s.calls[t].AwaitLease? && s.leaseMu.None? then
        Goto(s.(leaseMu := Some(t)), t, if s.calls[t].relogin then Resetting else Checking)
      else s
    case DialReturns(t, ok) => if At(s, t, Dialling) then DialSection(s, t, ok) else s
    case Step(t) => if t in s.calls then StepOf(s, t) else s
    case SetOnline(b) => s.(online := b)
  }

  function Run(s: System, evs: seq<Event>): System
    decreases |evs|
  {
    if evs == [] then s else Run(Next(s, evs[0]), evs[1..])
  }

  // ---- what every step keeps ----

  ghost predicate LeaseExclusive(s: System) {
    && (s.leaseMu.Some? ==> s.leaseMu.value in s.calls)
    && forall t :: t in s.calls ==> (InLease(s.calls[t]) <==> s.leaseMu == Some(t))
  }

  ghost predicate FieldsAgree(s: System) {
    && s.client == s.conn
    && (s.closed ==> s.conn.None?)
    && (s.conn.Some? ==> s.conn.value < s.dialled && s.closes[s.conn.value] == 0)
    && forall c :: c in s.closes ==> c < s.dialled
  }

  ghost predicate HeldBy(s: System, c: ConnId, t: CallId) {
    t in s.calls && Hand(s.calls[t]) == Some(c)
  }

  /** A connection in a call's hands is live, is not installed, and is in no
      other call's hands; and every connection is somewhere. */
  ghost predicate HandsAccount(s: System) {
    && (forall c: ConnId, t :: HeldBy(s, c, t) ==> c < s.dialled && s.closes[c] == 0 && s.conn != Some(c))
    && (forall c: ConnId, t, u :: HeldBy(s, c, t) && HeldBy(s, c, u) ==> t == u)
    && (forall c: ConnId :: c < s.dialled ==> s.conn == Some(c) || s.closes[c] == 1 || exists t :: HeldBy(s, c, t))
  }

  ghost predicate CallsConsistent(s: System) {
    forall t :: t in s.calls ==>
      && (s.calls[t].Dialling? || s.calls[t].Dialled? ==> s.conn.None?)
      && (s.calls[t].Leased? ==> s.calls[t].conn < s.dialled && (s.closed || s.conn == Some(s.calls[t].conn)))
      && (s.calls[t].CloseDiscarding? ==> s.closed)
  }

  /** The fields and the calls' positions; nothing about who holds what. */
  ghost predicate Rest(s: System) {
    LeaseExclusive(s) && FieldsAgree(s) && CallsConsistent(s)
  }

  ghost predicate Inv(s: System) {
    Rest(s) && HandsAccount(s)
  }

  lemma HeldAfter(s: System, s': System, t: CallId, pc: Pc)
    requires s'.calls == s.calls[t := pc]
    ensures forall c: ConnId, u :: HeldBy(s', c, u) <==> if u == t then Hand(pc) == Some(c) else HeldBy(s, c, u)
  {
  }

  /** Call t, with nothing in its hands before or after, moves; the connections stay where they are. */
  lemma HandsMove(s: System, s': System, t: CallId, pc: Pc)
    requires HandsAccount(s)
    requires s'.calls == s.calls[t := pc] && s'.conn == s.conn && s'.closes == s.closes && s'.dialled == s.dialled
    requires t in s.calls ==> Hand(s.calls[t]).None?
    requires Hand(pc).None?
    ensures HandsAccount(s')
  {
    HeldAfter(s, s', t, pc);
    assert forall c: ConnId :: !HeldBy(s, c, t);
    hide HeldBy, Hand;
    forall c: ConnId | c < s'.dialled
      ensures s'.conn == Some(c) || s'.closes[c] == 1 || exists u :: HeldBy(s', c, u)
    {
      if u :| HeldBy(s, c, u) { assert HeldBy(s', c, u); }
    }
  }

  /** Call t takes the installed connection out of the fields. */
  lemma HandsTake(s: System, s': System, t: CallId, c: ConnId, pc: Pc)
    requires HandsAccount(s) && s.conn == Some(c) && c < s.dialled && s.closes[c] == 0
    requires s'.calls == s.calls[t := pc] && s'.conn.None? && s'.closes == s.closes && s'.dialled == s.dialled
    requires t in s.calls && Hand(s.calls[t]).None?
    requires Hand(pc) == Some(c)
    ensures HandsAccount(s')
  {
    HeldAfter(s, s', t, pc);
    assert forall d: ConnId :: !HeldBy(s, d, t);
    hide HeldBy, Hand;
    forall d: ConnId | d < s'.dialled
      ensures s'.conn == Some(d) || s'.closes[d] == 1 || exists u :: HeldBy(s', d, u)
    {
      if d == c {
        assert HeldBy(s', d, t);
      } else if u :| HeldBy(s, d, u) {
        assert HeldBy(s', d, u);
      }
    }
  }

  /** Call t closes the connection in its hands. */
  lemma HandsDispose(s: System, s': System, t: CallId, c: ConnId, pc: Pc)
    requires HandsAccount(s) && HeldBy(s, c, t)
    requires s' == Goto(CloseConn(s, c), t, pc)
    requires Hand(pc).None?
    ensures HandsAccount(s')
    ensures c < s.dialled && s.conn != Some(c)
  {
    HeldAfter(s, s', t, pc);
    assert forall d: ConnId :: HeldBy(s, d, t) ==> d == c;
    assert forall d: ConnId :: s'.closes[d] == if d == c then s.closes[d] + 1 else s.closes[d];
    hide HeldBy, Hand;
    forall d: ConnId | d < s'.dialled
      ensures s'.conn == Some(d) || s'.closes[d] == 1 || exists u :: HeldBy(s', d, u)
    {
      if d != c {
        if u :| HeldBy(s, d, u) { assert HeldBy(s', d, u); }
      }
    }
  }

  lemma HandsDialled(s: System, t: CallId)
    requires HandsAccount(s) && FieldsAgree(s) && At(s, t, Dialling)
    ensures HandsAccount(DialSection(s, t, true))
  {
    var s' := DialSection(s, t, true);
    assert s.closes[s.dialled] == 0;
    HeldAfter(s, s', t, Dialled(s.dialled));
    assert forall d: ConnId :: !HeldBy(s, d, t);
    assert HeldBy(s', s.dialled, t);
    hide HeldBy, Hand;
    forall c: ConnId | c < s'.dialled
      ensures s'.conn == Some(c) || s'.closes[c] == 1 || exists u :: HeldBy(s', c, u)
    {
      if c < s.dialled {
        if u :| HeldBy(s, c, u) { assert HeldBy(s', c, u); }
      }
    }
  }

  /** The slot is empty, so the connection in t's hands becomes the installed one. */
  lemma HandsInstall(s: System, t: CallId, c: ConnId)
    requires HandsAccount(s) && At(s, t, Dialled(c)) && !s.closed && s.conn.None?
    ensures HandsAccount(InstallSection(s, t, c))
    ensures c < s.dialled && s.closes[c] == 0
  {
    var s' := InstallSection(s, t, c);
    HeldAfter(s, s', t, Leased(c));
    assert HeldBy(s, c, t) && forall d: ConnId :: HeldBy(s, d, t) ==> d == c;
    hide HeldBy, Hand;
    forall d: ConnId | d < s'.dialled
      ensures s'.conn == Some(d) || s'.closes[d] == 1 || exists u :: HeldBy(s', d, u)
    {
      if d != c {
        if u :| HeldBy(s, d, u) { assert HeldBy(s', d, u); }
      }
    }
  }

  lemma RestMove(s: System, s': System, t: CallId, pc: Pc)
    requires Rest(s)
    requires s' == Goto(s, t, pc)
    requires s.leaseMu == Some(t) <==> InLease(pc)
    requires pc.Dialling? || pc.Dialled? ==> s.conn.None?
    requires pc.Leased? ==> s.conn == Some(pc.conn)
    requires pc.CloseDiscarding? ==> s.closed
    ensures Rest(s')
  {
  }

  lemma RestEmpty(s: System, s': System, t: CallId, pc: Pc, closed: bool)
    requires Rest(s) && t in s.calls
    requires s' == Goto(s.(conn := None, client := None, online := false, closed := closed), t, pc)
    requires s.closed ==> closed
    requires s.leaseMu == Some(t) <==> InLease(pc)
    requires s.leaseMu == Some(t) || closed
    requires !pc.Leased? && (pc.CloseDiscarding? ==> closed)
    ensures Rest(s')
  {
  }

  lemma RestDispose(s: System, c: ConnId)
    requires Rest(s) && c < s.dialled && s.conn != Some(c)
    ensures Rest(CloseConn(s, c))
  {
  }

  lemma RestDialled(s: System, t: CallId)
    requires Rest(s) && At(s, t, Dialling)
    ensures Rest(DialSection(s, t, true))
  {
  }

  lemma RestInstall(s: System, t: CallId, c: ConnId)
    requires Rest(s) && At(s, t, Dialled(c)) && !s.closed && c < s.dialled && s.closes[c] == 0
    ensures Rest(InstallSection(s, t, c))
  {
  }

  lemma RestUnlock(s: System, t: CallId, outcome: Outcome)
    requires Rest(s) && t in s.calls && InLease(s.calls[t])
    ensures Rest(UnlockSection(s, t, outcome))
  {
  }

  lemma RestLock(s: System, t: CallId)
    requires Rest(s) && t in s.calls && s.calls[t].AwaitLease? && s.leaseMu.None?
    ensures Rest(Next(s, Lock(t)))
  {
  }

  /** What the invariant says about the call that is about to move. */
  lemma CallFacts(s: System, t: CallId)
    requires Inv(s) && t in s.calls
    ensures InLease(s.calls[t]) <==> s.leaseMu == Some(t)
    ensures s.client == s.conn && (s.closed ==> s.conn.None?)
    ensures s.conn.Some? ==> s.conn.value < s.dialled && s.closes[s.conn.value] == 0
    ensures s.calls[t].Dialling? || s.calls[t].Dialled? ==> s.conn.None?
  {
  }

  lemma FieldsKnown(s: System)
    requires Inv(s)
    ensures FieldsAgree(s)
  {
  }

  lemma FieldFacts(s: System)
    requires Inv(s)
    ensures s.client == s.conn && (s.closed ==> s.conn.None?)
    ensures s.leaseMu.Some? ==> s.leaseMu.value in s.calls
  {
  }

  lemma InvMove(s: System, t: CallId, pc: Pc)
    requires Inv(s) && t in s.calls && Hand(s.calls[t]).None? && Hand(pc).None?
    requires InLease(s.calls[t]) <==> InLease(pc)
    requires pc.Dialling? ==> s.conn.None?
    requires pc.Leased? ==> s.conn == Some(pc.conn)
    ensures Inv(Goto(s, t, pc))
  {
    CallFacts(s, t);
    hide Rest, HandsAccount;
    RestMove(s, Goto(s, t, pc), t, pc);
    HandsMove(s, Goto(s, t, pc), t, pc);
  }

  lemma InvTakeOut(s: System, s': System, t: CallId, pc: Pc, closed: bool)
    requires Inv(s) && t in s.calls && Hand(s.calls[t]).None?
    requires s' == Goto(s.(conn := None, client := None, online := false, closed := closed), t, pc)
    requires InLease(s.calls[t]) <==> InLease(pc)
    requires if InLease(pc) then closed == s.closed else closed
    requires pc.Discarding? || pc.CloseDiscarding? || pc.Checking? || pc.Finished?
    requires Hand(pc) == s.conn
    ensures Inv(s')
  {
    CallFacts(s, t);
    hide Rest, HandsAccount;
    RestEmpty(s, s', t, pc, closed);
    if s.conn.Some? {
      HandsTake(s, s', t, s.conn.value, pc);
    } else {
      HandsMove(s, s', t, pc);
    }
  }

  lemma InvDispose(s: System, t: CallId, c: ConnId, pc: Pc)
    requires Inv(s) && HeldBy(s, c, t)
    requires InLease(s.calls[t]) <==> InLease(pc)
    requires pc.Checking? || pc.Failing? || pc.Finished?
    ensures Inv(Goto(CloseConn(s, c), t, pc))
  {
    CallFacts(s, t);
    hide Rest, HandsAccount;
    HandsDispose(s, Goto(CloseConn(s, c), t, pc), t, c, pc);
    RestDispose(s, c);
    RestMove(CloseConn(s, c), Goto(CloseConn(s, c), t, pc), t, pc);
  }

  lemma InvInstall(s: System, t: CallId, c: ConnId)
    requires Inv(s) && At(s, t, Dialled(c)) && !s.closed
    ensures Inv(InstallSection(s, t, c))
  {
    CallFacts(s, t);
    hide Rest, HandsAccount;
    HandsInstall(s, t, c);
    RestInstall(s, t, c);
  }

  lemma InvUnlock(s: System, t: CallId, outcome: Outcome)
    requires Inv(s) && t in s.calls && (s.calls[t].Leased? || s.calls[t].Failing?)
    ensures Inv(UnlockSection(s, t, outcome))
  {
    hide Rest, HandsAccount;
    RestUnlock(s, t, outcome);
    HandsMove(s, UnlockSection(s, t, outcome), t, Finished(outcome));
  }

  lemma InvStep(s: System, t: CallId)
    requires Inv(s) && t in s.calls
    ensures Inv(StepOf(s, t))
  {
    CallFacts(s, t);
    hide Inv;
    match s.calls[t]
    case Resetting => InvTakeOut(s, StepOf(s, t), t, StepOf(s, t).calls[t], s.closed);
    case Discarding(c) => InvDispose(s, t, c, Checking);
    case Checking => InvMove(s, t, StepOf(s, t).calls[t]);
    case Dialled(c) => if s.closed { InvDispose(s, t, c, Failing(DeviceClosed)); } else { InvInstall(s, t, c); }
    case Leased(_) => InvUnlock(s, t, Released);
    case Failing(why) => InvUnlock(s, t, Failed(why));
    case CloseCalled =>
      if s.closed {
        InvMove(s, t, Finished(CloseReturned));
      } else {
        InvTakeOut(s, StepOf(s, t), t, StepOf(s, t).calls[t], true);
      }
    case CloseDiscarding(c) => InvDispose(s, t, c, Finished(CloseReturned));
    case _ =>
  }

  lemma InvStart(s: System, t: CallId, pc: Pc)
    requires Inv(s) && t !in s.calls && (pc.AwaitLease? || pc.CloseCalled?)
    ensures Inv(Goto(s, t, pc))
  {
    FieldFacts(s);
    hide Rest, HandsAccount;
    RestMove(s, Goto(s, t, pc), t, pc);
    HandsMove(s, Goto(s, t, pc), t, pc);
  }

  lemma InvOnline(s: System, b: bool)
    requires Inv(s)
    ensures Inv(s.(online := b))
  {
    var s' := s.(online := b);
    assert forall c: ConnId, u :: HeldBy(s', c, u) <==> HeldBy(s, c, u);
    hide HeldBy;
    forall c: ConnId | c < s'.dialled
      ensures s'.conn == Some(c) || s'.closes[c] == 1 || exists u :: HeldBy(s', c, u)
    {
      if u :| HeldBy(s, c, u) { assert HeldBy(s', c, u); }
    }
  }

  lemma InvNext(s: System, ev: Event)
    requires Inv(s)
    ensures Inv(Next(s, ev))
  {
    hide Rest, HandsAccount, StepOf;
    var s' := Next(s, ev);
    match ev
    case Step(t) => if t in s.calls { InvStep(s, t); }
    case SetOnline(b) => InvOnline(s, b);
    case Lock(t) =>
      if s' != s {
        RestLock(s, t);
        HandsMove(s, s', t, s'.calls[t]);
      }
    case DialReturns(t, ok) =>
      if At(s, t, Dialling) {
        CallFacts(s, t);
        if ok {
          HandsDialled(s, t) by { FieldsKnown(s); }
          RestDialled(s, t);
        } else {
          RestMove(s, s', t, Failing(DialFailed));
          HandsMove(s, s', t, Failing(DialFailed));
        }
      }
    case CallLease(t) => if t !in s.calls { InvStart(s, t, AwaitLease(false)); }
    case CallRelogin(t) => if t !in s.calls { InvStart(s, t, AwaitLease(true)); }
    case CallClose(t) => if t !in s.calls { InvStart(s, t, CloseCalled); }
  }

  lemma {:induction false} InvRun(s: System, evs: seq<Event>)
    requires Inv(s)
    ensures Inv(Run(s, evs))
    decreases |evs|
  {
    if evs != [] {
      InvNext(s, evs[0]);
      InvRun(Next(s, evs[0]), evs[1..]);
    }
  }

  ghost predicate Reachable(s: System) {
    exists evs: seq<Event> :: s == Run(Init, evs)
  }

  lemma ReachableInv(s: System)
    requires Reachable(s)
    ensures Inv(s)
  {
    var evs: seq<Event> :| s == Run(Init, evs);
    assert Inv(Init);
    InvRun(Init, evs);
  }

  // ---- accounting ----

  ghost function HoldersOf(s: System, c: ConnId): set<CallId> {
    set t | t in s.calls && HeldBy(s, c, t)
  }

  /** Each connection ever dialled is in exactly one place: installed, in the
      hands of exactly one call, or closed exactly once. */
  lemma ConnectionAccounting(s: System, c: ConnId)
    requires Reachable(s) && c < s.dialled
    ensures (if s.conn == Some(c) then 1 else 0) + |HoldersOf(s, c)| + s.closes[c] == 1
  {
    ReachableInv(s);
    if t: CallId :| HeldBy(s, c, t) {
      assert HoldersOf(s, c) == {t};
    } else {
      assert HoldersOf(s, c) == {};
    }
  }

  /** Two calls are never inside the lease together, whether dialling or leased. */
  lemma AtMostOneInLease(s: System, t: CallId, u: CallId)
    requires Reachable(s) && t in s.calls && u in s.calls
    requires InLease(s.calls[t]) && InLease(s.calls[u])
    ensures t == u
  {
    ReachableInv(s);
  }

  /** Whatever step installs a connection finds the slot empty. */
  lemma InstallNeverOverwrites(s: System, ev: Event)
    requires Reachable(s)
    ensures Next(s, ev).conn.Some? && Next(s, ev).conn != s.conn ==> s.conn.None? && !s.closed
  {
    ReachableInv(s);
  }

  /** A connection someone works with is closed only after Close has run, and
      only by the Close call that took it out. */
  lemma LeasedClosedOnlyByClose(s: System, ev: Event, t: CallId)
    requires Reachable(s) && t in s.calls && s.calls[t].Leased?
    ensures !s.closed ==> s.conn == Some(s.calls[t].conn) && s.closes[s.calls[t].conn] == 0
    ensures var c := s.calls[t].conn;
            Next(s, ev).closes[c] > s.closes[c] ==> ev.Step? && At(s, ev.t, CloseDiscarding(c)) && s.closed
  {
    ReachableInv(s);
    var c := s.calls[t].conn;
    if Next(s, ev).closes[c] > s.closes[c] {
      assert ev.Step? && Hand(s.calls[ev.t]) == Some(c);
    }
  }

  // ---- Close is absorbing ----

  lemma ClosedStep(s: System, ev: Event)
    requires Inv(s) && s.closed
    ensures Next(s, ev).closed && s.conn.None? && s.client.None?
  {
  }

  /** After Close's critical section no connection is ever installed again. */
  lemma {:induction false} ClosedForever(s: System, evs: seq<Event>)
    requires Inv(s) && s.closed
    ensures Run(s, evs).closed && Run(s, evs).conn.None? && Run(s, evs).client.None?
    decreases |evs|
  {
    if evs == [] {
      ClosedStep(s, SetOnline(false));
    } else {
      InvNext(s, evs[0]);
      ClosedStep(s, evs[0]);
      hide Rest, HandsAccount, Next;
      ClosedForever(Next(s, evs[0]), evs[1..]);
    }
  }

  /** A Lease or Relogin that has not passed connect's check by the time of
      Close: it can only end with the closed error. */
  predicate BoundToFail(pc: Pc) {
    pc.AwaitLease? || pc.Resetting? || pc.Discarding? || pc.Checking?
    || pc == Failing(DeviceClosed) || pc == Finished(Failed(DeviceClosed))
  }

  lemma BoundToFailStep(s: System, ev: Event, t: CallId)
    requires Inv(s) && s.closed && ev != CallClose(t)
    requires t in s.calls ==> BoundToFail(s.calls[t])
    ensures t in Next(s, ev).calls ==> BoundToFail(Next(s, ev).calls[t])
  {
    FieldFacts(s);
    hide Rest, HandsAccount;
    if ev.SetOnline? {
    } else if ev.t != t {
      if t in s.calls { OthersDoNotMove(s, ev, t); }
      hide StepOf;
    }
  }

  lemma {:induction false} LeaseAfterCloseFails(s: System, evs: seq<Event>, t: CallId)
    requires Inv(s) && s.closed
    requires t in s.calls ==> BoundToFail(s.calls[t])
    requires forall i :: 0 <= i < |evs| ==> evs[i] != CallClose(t)
    ensures t in Run(s, evs).calls ==> BoundToFail(Run(s, evs).calls[t])
    decreases |evs|
  {
    if evs != [] {
      InvNext(s, evs[0]);
      ClosedStep(s, evs[0]);
      BoundToFailStep(s, evs[0], t);
      hide Rest, HandsAccount, Next, BoundToFail;
      LeaseAfterCloseFails(Next(s, evs[0]), evs[1..], t);
    }
  }

  /** A dial that Close overtook disposes of its own connection and reports the closed error. */
  lemma DialOvertakenByClose(s: System, t: CallId, c: ConnId)
    requires Reachable(s) && s.closed && At(s, t, Dialled(c))
    ensures var s' := Next(s, Step(t));
            s'.conn.None? && s'.closes[c] == 1 && At(s', t, Failing(DeviceClosed))
            && At(Next(s', Step(t)), t, Finished(Failed(DeviceClosed))) && Next(s', Step(t)).leaseMu.None?
  {
    ReachableInv(s);
    assert HeldBy(s, c, t);
  }

  // ---- what the errors tell ----

  /** The closed error is only ever reported by a closed device, a failed dial only by
      a call whose own dial is among the failed ones. */
  ghost predicate Honest(s: System, failed: set<CallId>) {
    forall t :: t in s.calls ==> HonestPc(s.calls[t], s.closed, t in failed)
  }

  /** The calls whose dial is reported as failed in a run. */
  function FailedDials(evs: seq<Event>): set<CallId> {
    set i | 0 <= i < |evs| && evs[i].DialReturns? && !evs[i].ok :: evs[i].t
  }

  ghost predicate HonestPc(pc: Pc, closed: bool, failed: bool) {
    && (pc == Failing(DeviceClosed) || pc == Finished(Failed(DeviceClosed)) ==> closed)
    && (pc == Failing(DialFailed) || pc == Finished(Failed(DialFailed)) ==> failed)
  }

  lemma HonestStep(s: System, t: CallId, failed: bool)
    requires t in s.calls && HonestPc(s.calls[t], s.closed, failed)
    ensures HonestPc(StepOf(s, t).calls[t], s.closed, failed)
  {
  }

  lemma HonestOwn(s: System, ev: Event, failed: bool)
    requires !ev.SetOnline? && (ev.t in s.calls ==> HonestPc(s.calls[ev.t], s.closed, failed))
    requires ev.DialReturns? && !ev.ok ==> failed
    ensures ev.t in Next(s, ev).calls ==> HonestPc(Next(s, ev).calls[ev.t], s.closed, failed)
  {
    if ev.Step? && ev.t in s.calls { HonestStep(s, ev.t, failed); }
    hide StepOf;
  }

  lemma StaysClosed(s: System, ev: Event)
    ensures s.closed ==> Next(s, ev).closed
    ensures ev.SetOnline? ==> Next(s, ev).calls == s.calls
    ensures !ev.SetOnline? ==> Next(s, ev).calls.Keys <= s.calls.Keys + {ev.t}
  {
  }

  lemma HonestNext(s: System, ev: Event, failed: set<CallId>)
    requires Honest(s, failed)
    ensures Honest(Next(s, ev), failed + FailedDials([ev]))
  {
    var s' := Next(s, ev);
    var failed' := failed + FailedDials([ev]);
    if ev.DialReturns? && !ev.ok { assert [ev][0].t in FailedDials([ev]); }
    StaysClosed(s, ev);
    hide FailedDials, Next;
    forall t | t in s'.calls ensures HonestPc(s'.calls[t], s'.closed, t in failed') {
      if !ev.SetOnline? {
        if ev.t == t {
          HonestOwn(s, ev, t in failed');
        } else {
          OthersDoNotMove(s, ev, t);
        }
      }
    }
  }

  lemma FailedDialsCons(evs: seq<Event>)
    requires evs != []
    ensures FailedDials(evs) == FailedDials([evs[0]]) + FailedDials(evs[1..])
  {
    assert evs == [evs[0]] + evs[1..];
  }

  lemma {:induction false} HonestRun(s: System, evs: seq<Event>, failed: set<CallId>)
    requires Honest(s, failed)
    ensures Honest(Run(s, evs), failed + FailedDials(evs))
    decreases |evs|
  {
    if evs == [] {
      assert failed + FailedDials(evs) == failed;
    } else {
      HonestNext(s, evs[0], failed);
      FailedDialsCons(evs);
      hide Honest, FailedDials, Next;
      HonestRun(Next(s, evs[0]), evs[1..], failed + FailedDials([evs[0]]));
      assert failed + FailedDials(evs) == failed + FailedDials([evs[0]]) + FailedDials(evs[1..]);
    }
  }

  /** In every run: who ends with the closed error met a closed device, and who ends with
      a dial error had its own dial fail. */
  lemma ErrorsAreTrue(evs: seq<Event>, t: CallId)
    ensures At(Run(Init, evs), t, Finished(Failed(DeviceClosed))) ==> Run(Init, evs).closed
    ensures At(Run(Init, evs), t, Finished(Failed(DialFailed))) ==> DialReturns(t, false) in evs
  {
    HonestRun(Init, evs, {});
    hide Run;
  }

  /** And the other way round: a failed dial ends its call with the dial error, as a call
      that finds the device closed at its check ends with the closed error. */
  lemma ErrorsAreTold(s: System, t: CallId)
    ensures At(s, t, Dialling) ==>
      At(Next(Next(s, DialReturns(t, false)), Step(t)), t, Finished(Failed(DialFailed)))
    ensures At(s, t, Checking) && s.closed ==> At(Next(Next(s, Step(t)), Step(t)), t, Finished(Failed(DeviceClosed)))
  {
  }

  // ---- the lease always comes back ----

  /** What the holder of the lease still has to do, if every dial it makes fails. */
  function Remaining(pc: Pc): nat {
    match pc
    case Resetting => 5
    case Discarding(_) => 4
    case Checking => 3
    case Dialling => 2
    case Dialled(_) => 2
    case Leased(_) => 1
    case Failing(_) => 1
    case _ => 0
  }

  function OwnEvent(pc: Pc, t: CallId): Event {
    if pc.Dialling? then DialReturns(t, false) else Step(t)
  }

  lemma NextDial(s: System, t: CallId)
    requires At(s, t, Dialling)
    ensures Next(s, DialReturns(t, false)) == DialSection(s, t, false)
  {
  }

  lemma NextStep(s: System, t: CallId)
    requires t in s.calls
    ensures Next(s, Step(t)) == StepOf(s, t)
  {
  }

  lemma HolderOwnStep(s: System, t: CallId)
    requires t in s.calls && s.leaseMu == Some(t) && InLease(s.calls[t]) && !s.calls[t].Dialling?
    ensures var s' := StepOf(s, t);
            t in s'.calls && Remaining(s'.calls[t]) < Remaining(s.calls[t]) <= 5
            && (if s'.leaseMu.None? then s'.calls[t].Finished? else s'.leaseMu == Some(t))
  {
  }

  lemma HolderDial(s: System, t: CallId)
    requires t in s.calls && s.leaseMu == Some(t) && s.calls[t].Dialling?
    ensures var s' := DialSection(s, t, false);
            t in s'.calls && Remaining(s'.calls[t]) < Remaining(s.calls[t]) <= 5 && s'.leaseMu == Some(t)
  {
  }

  lemma HolderStep(s: System, t: CallId)
    requires Inv(s) && s.leaseMu == Some(t)
    ensures t in s.calls
    ensures var s' := Next(s, OwnEvent(s.calls[t], t));
            t in s'.calls && Remaining(s'.calls[t]) < Remaining(s.calls[t]) <= 5
            && (if s'.leaseMu.None? then s'.calls[t].Finished? else s'.leaseMu == Some(t))
  {
    FieldFacts(s);
    CallFacts(s, t);
    assert OwnEvent(s.calls[t], t) == if s.calls[t].Dialling? then DialReturns(t, false) else Step(t);
    hide Inv, Next, StepOf, DialSection, Remaining;
    if s.calls[t].Dialling? {
      NextDial(s, t) by { assert At(s, t, Dialling); }
      HolderDial(s, t);
    } else {
      NextStep(s, t);
      HolderOwnStep(s, t);
    }
  }

  /** In every reachable state the holder needs no one else: at most five of its
      own steps free leaseMu. */
  lemma {:induction false} HolderFreesLease(s: System, t: CallId) returns (evs: seq<Event>)
    requires Inv(s) && s.leaseMu == Some(t)
    ensures t in s.calls && |evs| <= Remaining(s.calls[t]) <= 5
    ensures forall i :: 0 <= i < |evs| ==> evs[i] == Step(t) || evs[i] == DialReturns(t, false)
    ensures Run(s, evs).leaseMu.None? && t in Run(s, evs).calls && Run(s, evs).calls[t].Finished?
    decreases if t in s.calls then Remaining(s.calls[t]) else 6
  {
    HolderStep(s, t);
    var ev := OwnEvent(s.calls[t], t);
    InvNext(s, ev);
    hide Rest, HandsAccount, Next, Remaining;
    var s' := Next(s, ev);
    if s'.leaseMu.None? {
      evs := [ev];
      assert Run(s, evs) == Run(s', []);
    } else {
      var rest := HolderFreesLease(s', t);
      evs := [ev] + rest;
      assert evs[1..] == rest;
    }
  }

  /** Steps of other calls never move a call. */
  lemma OthersDoNotMove(s: System, ev: Event, t: CallId)
    requires t in s.calls && !ev.SetOnline? && ev.t != t
    ensures t in Next(s, ev).calls && Next(s, ev).calls[t] == s.calls[t]
  {
  }

  // ---- Relogin and Close do what they are for ----

  /** Where a Relogin stands, when d connections had been dialled as it entered the lease. */
  ghost predicate OnlyFresh(s: System, t: CallId, d: nat) {
    && t in s.calls
    && d <= s.dialled
    && match s.calls[t]
       case Discarding(_) => s.conn.None?
       case Checking => s.conn.None?
       case Dialled(c) => d <= c
       case Leased(c) => d <= c
       case AwaitLease(_) => false
       case _ => true
  }

  /** Outside the lease no call can install a connection. */
  lemma OthersDoNotInstall(s: System, ev: Event, t: CallId)
    requires Inv(s) && s.leaseMu == Some(t) && !ev.SetOnline? && ev.t != t
    ensures Next(s, ev).conn == s.conn || Next(s, ev).conn.None?
    ensures Next(s, ev).dialled >= s.dialled
  {
    if ev.t in s.calls { CallFacts(s, ev.t); }
    hide Inv;
  }

  lemma OnlyFreshStep(s: System, ev: Event, t: CallId, d: nat)
    requires Inv(s) && OnlyFresh(s, t, d)
    ensures OnlyFresh(Next(s, ev), t, d)
  {
    CallFacts(s, t);
    if ev.SetOnline? {
      hide Inv;
    } else if ev.t != t {
      OthersDoNotMove(s, ev, t);
      if InLease(s.calls[t]) {
        OthersDoNotInstall(s, ev, t);
        hide Inv, Next;
      } else {
        DialledGrows(s, ev);
        hide Inv, Next;
      }
    } else {
      hide Inv;
    }
  }

  lemma DialledGrows(s: System, ev: Event)
    ensures Next(s, ev).dialled >= s.dialled
  {
  }

  /** Relogin never hands out a connection that existed when it took the lease. */
  lemma {:induction false} ReloginIsFresh(s: System, evs: seq<Event>, t: CallId, d: nat)
    requires Inv(s) && OnlyFresh(s, t, d)
    ensures t in Run(s, evs).calls
    ensures Run(s, evs).calls[t].Leased? ==> Run(s, evs).calls[t].conn >= d
    decreases |evs|
  {
    if evs != [] {
      InvNext(s, evs[0]);
      OnlyFreshStep(s, evs[0], t, d);
      hide Rest, HandsAccount, Next, OnlyFresh;
      ReloginIsFresh(Next(s, evs[0]), evs[1..], t, d);
    }
  }

  /** Close takes effect in its own critical section, and at most one more of its
      own steps closes the connection it found, exactly once. */
  lemma CloseDisposes(s: System, t: CallId)
    requires Reachable(s) && At(s, t, CloseCalled) && !s.closed
    ensures var s' := Next(s, Step(t));
            s'.closed && !s'.online && s'.conn.None? && s'.client.None?
            && (s.conn.None? ==> At(s', t, Finished(CloseReturned)) && s'.closes == s.closes)
            && (s.conn.Some? ==> At(Next(s', Step(t)), t, Finished(CloseReturned))
                                 && Next(s', Step(t)).closes[s.conn.value] == 1)
  {
    ReachableInv(s);
  }

  // ---- the online flag ----

  /** What a step does to the online flag of a closed device: a health report
      sets it, resetConn clears it, and nothing else touches it. */
  function OnlineWrite(s: System, ev: Event): Option<bool> {
    if ev.SetOnline? then Some(ev.b)
    else if ev.Step? && At(s, ev.t, Resetting) then Some(false)
    else None
  }

  function LastOnlineWrite(s: System, evs: seq<Event>): Option<bool>
    decreases |evs|
  {
    if evs == [] then None
    else
      var later := LastOnlineWrite(Next(s, evs[0]), evs[1..]);
      if later.Some? then later else OnlineWrite(s, evs[0])
  }

  lemma OnlineStep(s: System, ev: Event)
    requires Inv(s) && s.closed
    ensures Next(s, ev).online == (match OnlineWrite(s, ev) case Some(b) => b case None => s.online)
  {
    FieldFacts(s);
    hide Rest, HandsAccount;
  }

  /** The online flag after any step: a report decides it, installing a connection sets
      it, taking the connection out clears it, and nothing else touches it. */
  lemma OnlineExact(s: System, ev: Event)
    requires Inv(s)
    ensures var s' := Next(s, ev);
            if ev.SetOnline? then s'.online == ev.b
            else if s.conn.None? && s'.conn.Some? then s'.online
            else if s'.closed && !s.closed then !s'.online
            else if ev.Step? && At(s, ev.t, Resetting) then !s'.online
            else s'.online == s.online
  {
    FieldFacts(s);
    if ev.Step? && ev.t in s.calls { CallFacts(s, ev.t); }
    hide Rest, HandsAccount;
  }

  /** `closed` does not imply offline: after Close the flag is exactly the last
      report that came in, so a late SetOnline(true) leaves a closed device online. */
  lemma {:induction false} OnlineAfterClose(s: System, evs: seq<Event>)
    requires Inv(s) && s.closed
    ensures Run(s, evs).online == (match LastOnlineWrite(s, evs) case Some(b) => b case None => s.online)
    decreases |evs|
  {
    if evs != [] {
      InvNext(s, evs[0]);
      ClosedStep(s, evs[0]);
      OnlineStep(s, evs[0]);
      hide Rest, HandsAccount, Next, OnlineWrite;
      OnlineAfterClose(Next(s, evs[0]), evs[1..]);
    }
  }

  lemma ClosedYetOnline() returns (s: System)
    ensures Reachable(s) && s.closed && s.online
  {
    var evs := [CallClose(0), Step(0), SetOnline(true)];
    var s1 := Next(Init, evs[0]);
    var s2 := Next(s1, evs[1]);
    s := Next(s2, evs[2]);
    assert evs[1..][1..][1..] == [];
    assert Run(Init, evs) == Run(s1, evs[1..]) == Run(s2, evs[1..][1..]) == Run(s, evs[1..][1..][1..]) == s;
  }

  // ---- the object ----

  /** The Device with its fields; every method is one critical section (or the
      dial), run by call t.  View is the state the protocol above talks about. */
  class Device {
    var conn: Option<ConnId>
    var client: Option<ConnId>
    var online: bool
    var closed: bool
    var leaseMu: Option<CallId>
    var calls: map<CallId, Pc>
    var dialled: nat
    var closes: multiset<ConnId>

    function View(): System
      reads this
    {
      System(conn, client, online, closed, leaseMu, calls, dialled, closes)
    }

    constructor ()
      ensures View() == Init
    {
      conn, client, online, closed := None, None, false, false;
      leaseMu, calls, dialled, closes := None, map[], 0, multiset{};
    }

    method LockLease(t: CallId)
      requires t in calls && calls[t].AwaitLease? && leaseMu.None?
      modifies this
      ensures View() == Next(old(View()), Lock(t))
    {
      leaseMu := Some(t);
      if calls[t].relogin {
        calls := calls[t := Resetting];
      } else {
        calls := calls[t := Checking];
      }
    }

    /** resetConn, up to the end of its critical section. */
    method ResetConn(t: CallId)
      requires t in calls && calls[t].Resetting?
      modifies this
      ensures View() == Next(old(View()), Step(t))
    {
      var taken := conn;
      conn := None;
      client := None;
      online := false;
      if taken.Some? {
        calls := calls[t := Discarding(taken.value)];
      } else {
        calls := calls[t := Checking];
      }
    }

    /** conn.Close() on a connection taken out by resetConn or by Close. */
    method CloseTaken(t: CallId)
      requires t in calls && (calls[t].Discarding? || calls[t].CloseDiscarding?)
      modifies this
      ensures View() == Next(old(View()), Step(t))
    {
      closes := closes + multiset{calls[t].stale};
      if calls[t].Discarding? {
        calls := calls[t := Checking];
      } else {
        calls := calls[t := Finished(CloseReturned)];
      }
    }

    /** connect's read section. */
    method ConnectCheck(t: CallId)
      requires t in calls && calls[t].Checking?
      modifies this
      ensures View() == Next(old(View()), Step(t))
    {
      if client != None && conn != None && !closed {
        calls := calls[t := Leased(client.value)];
        return;
      }
      if closed {
        calls := calls[t := Failing(DeviceClosed)];
      } else {
        calls := calls[t := Dialling];
      }
    }

    method DialReturn(t: CallId, ok: bool)
      requires t in calls && calls[t].Dialling?
      modifies this
      ensures View() == Next(old(View()), DialReturns(t, ok))
    {
      if !ok {
        calls := calls[t := Failing(DialFailed)];
        return;
      }
      calls := calls[t := Dialled(dialled)];
      dialled := dialled + 1;
    }

    /** connect's write section. */
    method ConnectInstall(t: CallId)
      requires t in calls && calls[t].Dialled?
      modifies this
      ensures View() == Next(old(View()), Step(t))
    {
      var c := calls[t].brandNew;
      if closed {
        closes := closes + multiset{c};
        calls := calls[t := Failing(DeviceClosed)];
        return;
      }
      conn := Some(c);
      client := Some(c);
      online := true;
      calls := calls[t := Leased(c)];
    }

    /** The release function, or the unlock on the error path. */
    method UnlockLease(t: CallId)
      requires t in calls && (calls[t].Leased? || calls[t].Failing?)
      modifies this
      ensures View() == Next(old(View()), Step(t))
    {
      leaseMu := None;
      if calls[t].Leased? {
        calls := calls[t := Finished(Released)];
      } else {
        calls := calls[t := Finished(Failed(calls[t].why))];
      }
    }

    /** Close, up to the end of its critical section. */
    method Close(t: CallId)
      requires t in calls && calls[t].CloseCalled?
      modifies this
      ensures View() == Next(old(View()), Step(t))
    {
      if closed {
        calls := calls[t := Finished(CloseReturned)];
        return;
      }
      closed := true;
      var taken := conn;
      conn := None;
      client := None;
      online := false;
      if taken != None {
        calls := calls[t := CloseDiscarding(taken.value)];
      } else {
        calls := calls[t := Finished(CloseReturned)];
      }
    }

    method ReportOnline(b: bool)
      modifies this
      ensures View() == Next(old(View()), SetOnline(b))
    {
      online := b;
    }
  }
}
