/** The two-way SMS mirror: sync rounds, mark-read and delete handlers, new
    arrivals and actions on the phone interleave.  A `CallId` names one round or
    one handler call in progress.  Every lease belongs to a Device object; a
    configured device normally has one object, and two after a reload replaced it. */
module SmsMirror {
  import opened Common
  import opened SmsTable

  type CallId = nat
  type DeviceObj = nat

  datatype Answer = SyncEnded | Deleted(cpe: int) | ReadMarked(id: nat, cpe: int) | Refused

  datatype Pc =
    | SyncStarted
    | Fetching(obj: DeviceObj)
    | Inserting(obj: DeviceObj, todo: seq<Sms>)
    | DeleteLoaded(id: nat, cpe: int)                      // row loaded, lease not yet held
    | DeleteLeased(obj: DeviceObj, id: nat, cpe: int)
    | DeleteErased(obj: DeviceObj, id: nat, cpe: int)      // gone from the CPE, local row next
    | ReadLoaded(id: nat, cpe: int)
    | ReadLeased(obj: DeviceObj, id: nat, cpe: int)
    | ReadWritten(obj: DeviceObj, id: nat, cpe: int)
    | Finished(answer: Answer)

  /** inbox is what the CPE holds, issued every index it has ever given out. */
  datatype System = System(dev: string, inbox: map<int, Sms>, issued: set<int>, table: Table,
                           leases: map<DeviceObj, CallId>, calls: map<CallId, Pc>)

  /** ok is the answer a request gives; effective tells whether a failed one took effect anyway. */
  datatype Event =
    | Arrive(m: Sms)
    | PhoneDeletes(cpe: int)
    | PhoneSetsStatus(cpe: int, status: int)
    | StartSync(t: CallId)
    | StartDelete(t: CallId, id: nat)
    | StartRead(t: CallId, id: nat)
    | Acquire(t: CallId, obj: DeviceObj)
    | LeaseFails(t: CallId)
    | FetchOk(t: CallId, msgs: seq<Sms>)
    | FetchFails(t: CallId)
    | InsertNext(t: CallId, fault: Fault)
    | CpeAnswers(t: CallId, ok: bool, effective: bool)
    | LocalAnswers(t: CallId, ok: bool, effective: bool)

  function Init(dev: string): System {
    System(dev, map[], {}, Table([], 1), map[], map[])
  }

  predicate Waiting(pc: Pc) {
    pc.SyncStarted? || pc.DeleteLoaded? || pc.ReadLoaded?
  }

  predicate InLease(pc: Pc) {
    !Waiting(pc) && !pc.Finished?
  }

  function Goto(s: System, t: CallId, pc: Pc): System {
    s.(calls := s.calls[t := pc])
  }

  function Finish(s: System, t: CallId, obj: DeviceObj, answer: Answer): System {
    Goto(s.(leases := s.leases - {obj}), t, Finished(answer))
  }

  function Leased(pc: Pc, obj: DeviceObj): Pc
    requires Waiting(pc)
  {
    match pc
    case SyncStarted => Fetching(obj)
    case DeleteLoaded(id, k) => DeleteLeased(obj, id, k)
    case ReadLoaded(id, k) => ReadLeased(obj, id, k)
  }

  function Load(s: System, t: CallId, id: nat, delete: bool): System {
    match Get(s.table.rows, s.dev, id)
    case None => Goto(s, t, Finished(Refused))
    case Some(r) => Goto(s, t, if delete then DeleteLoaded(id, r.cpe) else ReadLoaded(id, r.cpe))
  }

  function Erase(s: System, cpe: int): System {
    s.(inbox := s.inbox - {cpe})
  }

  function SetStatus(s: System, cpe: int, status: int): System {
    if cpe in s.inbox then s.(inbox := s.inbox[cpe := s.inbox[cpe].(status := status)]) else s
  }

  function WithRows(s: System, rows: seq<Row>): System {
    s.(table := s.table.(rows := rows))
  }

  /** The CPE request of a handler: DeleteSms or SetRead. */
  function CpeStep(s: System, t: CallId, ok: bool, effective: bool): System
    requires t in s.calls
  {
    match s.calls[t]
    case DeleteLeased(obj, id, k) =>
      var s' := if ok || effective then Erase(s, k) else s;
      if ok then Goto(s', t, DeleteErased(obj, id, k)) else Finish(s', t, obj, Refused)
    case ReadLeased(obj, id, k) =>
      var s' := if ok || effective then SetStatus(s, k, 1) else s;
      if ok then Goto(s', t, ReadWritten(obj, id, k)) else Finish(s', t, obj, Refused)
    case _ => s
  }

  /** The local statement of a handler: DeleteSmsLocal or MarkSmsRead. */
  function LocalStep(s: System, t: CallId, ok: bool, effective: bool): System
    requires t in s.calls
  {
    match s.calls[t]
    case DeleteErased(obj, id, k) =>
      var s' := if ok || effective then WithRows(s, DeleteLocal(s.table.rows, s.dev, id)) else s;
      Finish(s', t, obj, if ok then Deleted(k) else Refused)
    case ReadWritten(obj, id, k) =>
      var s' := if ok || effective then WithRows(s, MarkRead(s.table.rows, s.dev, id)) else s;
      Finish(s', t, obj, if ok then ReadMarked(id, k) else Refused)
    case _ => s
  }

  function InsertStep(s: System, t: CallId, fault: Fault): System
    requires t in s.calls
  {
    match s.calls[t]
    case Inserting(obj, todo) =>
      if todo == [] then Finish(s, t, obj, SyncEnded)
      else Goto(s.(table := Insert(s.table, s.dev, todo[0], fault).0), t, Inserting(obj, todo[1..]))
    case _ => s
  }

  predicate InInbox(s: System, msgs: seq<Sms>) {
    forall i :: 0 <= i < |msgs| ==> msgs[i].cpe in s.inbox && s.inbox[msgs[i].cpe] == msgs[i]
  }

  /** One step; an event that is not enabled changes nothing. */
  function Next(s: System, ev: Event): System {
    match ev
    case Arrive(m) => if m.cpe in s.issued then s else s.(inbox := s.inbox[m.cpe := m], issued := s.issued + {m.cpe})
    case PhoneDeletes(k) => Erase(s, k)
    case PhoneSetsStatus(k, status) => SetStatus(s, k, status)
    case StartSync(t) => if t in s.calls then s else Goto(s, t, SyncStarted)
    case StartDelete(t, id) => if t in s.calls then s else Load(s, t, id, true)
    case StartRead(t, id) => if t in s.calls then s else Load(s, t, id, false)
    case Acquire(t, obj) =>
      if t in s.calls && Waiting(s.calls[t]) && obj !in s.leases then
        Goto(s.(leases := s.leases[obj := t]), t, Leased(s.calls[t], obj))
      else s
    case LeaseFails(t) => if t in s.calls && Waiting(s.calls[t]) then Goto(s, t, Finished(Refused)) else s
    case FetchOk(t, msgs) =>
      if t in s.calls && s.calls[t].Fetching? && InInbox(s, msgs) then
        Goto(s, t, Inserting(s.calls[t].obj, msgs))
      else s
    case FetchFails(t) => if t in s.calls && s.calls[t].Fetching? then Finish(s, t, s.calls[t].obj, SyncEnded) else s
    case InsertNext(t, fault) => if t in s.calls then InsertStep(s, t, fault) else s
    case CpeAnswers(t, ok, effective) => if t in s.calls then CpeStep(s, t, ok, effective) else s
    case LocalAnswers(t, ok, effective) => if t in s.calls then LocalStep(s, t, ok, effective) else s
  }

  /** The events that at most move their call and take or free a lease. */
  predicate OnlyMoves(ev: Event) {
    ev.StartSync? || ev.StartDelete? || ev.StartRead? || ev.Acquire? || ev.LeaseFails? || ev.FetchFails?
  }

  function Run(s: System, evs: seq<Event>): System
    decreases |evs|
  {
    if evs == [] then s else Run(Next(s, evs[0]), evs[1..])
  }

  predicate Uses(ev: Event, objs: set<DeviceObj>) {
    ev.Acquire? ==> ev.obj in objs
  }

  // ---- the property ----

  ghost predicate Stored(s: System, k: int) {
    exists r :: r in s.table.rows && Is(r, s.dev, k)
  }

  /** A message whose delete was answered with success is not in the table. */
  ghost predicate NoPullBack(s: System) {
    forall t :: t in s.calls && s.calls[t].Finished? && s.calls[t].answer.Deleted? ==>
      !Stored(s, s.calls[t].answer.cpe)
  }

  // ---- the invariant, for one Device object ----

  ghost predicate Queued(s: System, t: CallId, k: int) {
    t in s.calls && s.calls[t].Inserting? && exists i :: 0 <= i < |s.calls[t].todo| && s.calls[t].todo[i].cpe == k
  }

  /** No copy of k is left that a sync round could still store. */
  ghost predicate Gone(s: System, k: int) {
    k in s.issued && k !in s.inbox && forall t :: !Queued(s, t, k)
  }

  /** k's one and only local row is id: no other row carries k, and once it is gone k stays out. */
  ghost predicate Bound(s: System, id: nat, k: int) {
    && id < s.table.nextId
    && k in s.issued
    && (forall r :: r in s.table.rows ==> (Is(r, s.dev, k) <==> r.id == id && r.dev == s.dev))
    && (Stored(s, k) || Gone(s, k))
  }

  ghost predicate LeaseExclusive(s: System, o: DeviceObj) {
    && s.leases.Keys <= {o}
    && (o in s.leases ==> s.leases[o] in s.calls)
    && (forall t :: t in s.calls ==> (InLease(s.calls[t]) <==> o in s.leases && s.leases[o] == t))
    && (forall t :: t in s.calls && InLease(s.calls[t]) ==> s.calls[t].obj == o)
  }

  ghost predicate Indexed(s: System) {
    && TableOk(s.table)
    && (forall k :: k in s.inbox ==> k in s.issued && s.inbox[k].cpe == k)
    && (forall r :: r in s.table.rows && r.dev == s.dev ==> r.cpe in s.issued)
    && (forall t, k :: Queued(s, t, k) ==> k in s.issued)
  }

  ghost predicate CallOk(s: System, pc: Pc) {
    match pc
    case DeleteLoaded(id, k) => Bound(s, id, k)
    case DeleteLeased(_, id, k) => Bound(s, id, k)
    case DeleteErased(_, id, k) => Bound(s, id, k) && Gone(s, k)
    case ReadLoaded(id, k) => Bound(s, id, k)
    case ReadLeased(_, id, k) => Bound(s, id, k)
    case ReadWritten(_, id, k) => Bound(s, id, k)
    case Finished(answer) => answer.Deleted? ==> Gone(s, answer.cpe) && !Stored(s, answer.cpe)
    case _ => true
  }

  ghost predicate CallsOk(s: System) {
    forall t :: t in s.calls ==> CallOk(s, s.calls[t])
  }

  ghost predicate Inv(s: System, o: DeviceObj) {
    LeaseExclusive(s, o) && Indexed(s) && CallsOk(s)
  }

  // ---- how a step treats indices that are bound or gone ----

  ghost predicate Persists(s: System, s': System) {
    && s'.dev == s.dev
    && s.issued <= s'.issued
    && (forall k :: Gone(s, k) ==> Gone(s', k))
    && (forall id, k :: Bound(s, id, k) ==> Bound(s', id, k))
    && (forall k :: Gone(s, k) && !Stored(s, k) ==> !Stored(s', k))
  }

  /** A step that leaves the table alone and puts nothing new into the inbox or a queue. */
  lemma PersistsQuiet(s: System, s': System)
    requires s'.dev == s.dev && s'.issued == s.issued && s'.table == s.table && s'.inbox.Keys <= s.inbox.Keys
    requires forall t, k :: Queued(s', t, k) ==> Queued(s, t, k)
    ensures Persists(s, s')
  {
    assert forall k :: Stored(s', k) <==> Stored(s, k);
    hide Queued, Stored;
  }

  /** A new message has an index no one has seen. */
  lemma PersistsArrive(s: System, m: Sms)
    requires m.cpe !in s.issued
    ensures Persists(s, Next(s, Arrive(m)))
  {
    var s' := Next(s, Arrive(m));
    assert forall k :: Stored(s', k) <==> Stored(s, k);
    assert forall t, k :: Queued(s', t, k) <==> Queued(s, t, k);
    hide Queued, Stored;
  }

  /** A fetch queues only what the inbox holds. */
  lemma PersistsFetch(s: System, t: CallId, msgs: seq<Sms>)
    requires t in s.calls && s.calls[t].Fetching? && InInbox(s, msgs)
    ensures Persists(s, Next(s, FetchOk(t, msgs)))
  {
    var s' := Next(s, FetchOk(t, msgs));
    assert forall k :: Stored(s', k) <==> Stored(s, k);
    forall u, k | Queued(s', u, k) ensures Queued(s, u, k) || k in s.inbox {
      if u == t {
        var i :| 0 <= i < |msgs| && msgs[i].cpe == k;
      }
    }
    hide Queued, Stored;
  }

  /** Rewriting status and readLocal moves no index. */
  lemma PersistsSameKeys(s: System, rows: seq<Row>)
    requires |rows| == |s.table.rows|
    requires forall i :: 0 <= i < |rows| ==>
      rows[i].id == s.table.rows[i].id && rows[i].dev == s.table.rows[i].dev && rows[i].cpe == s.table.rows[i].cpe
    ensures Persists(s, WithRows(s, rows))
  {
    var s' := WithRows(s, rows);
    forall k ensures Stored(s', k) <==> Stored(s, k) {
      if Stored(s, k) {
        var r :| r in s.table.rows && Is(r, s.dev, k);
        var i :| 0 <= i < |rows| && s.table.rows[i] == r;
        assert rows[i] in rows && Is(rows[i], s.dev, k);
      }
      if Stored(s', k) {
        var r :| r in rows && Is(r, s.dev, k);
        var i :| 0 <= i < |rows| && rows[i] == r;
        assert s.table.rows[i] in s.table.rows && Is(s.table.rows[i], s.dev, k);
      }
    }
    assert forall t, k :: Queued(s', t, k) <==> Queued(s, t, k);
    forall id, k | Bound(s, id, k) ensures Bound(s', id, k) {
      forall r | r in rows ensures Is(r, s.dev, k) <==> r.id == id && r.dev == s.dev {
        var i :| 0 <= i < |rows| && rows[i] == r;
        assert s.table.rows[i] in s.table.rows;
      }
      hide Queued, Stored;
    }
  }

  /** A queued message is not gone, so it can get a row only if it never had one. */
  lemma PersistsAppend(s: System, t: CallId, m: Sms)
    requires Queued(s, t, m.cpe) && !Stored(s, m.cpe) && m.cpe in s.issued
    ensures Persists(s, s.(table := Table(s.table.rows + [NewRow(s.table.nextId, s.dev, m)], s.table.nextId + 1)))
  {
    var n := NewRow(s.table.nextId, s.dev, m);
    var s' := s.(table := Table(s.table.rows + [n], s.table.nextId + 1));
    assert !Gone(s, m.cpe);
    assert forall u, k :: Queued(s', u, k) <==> Queued(s, u, k);
    assert forall r :: r in s'.table.rows <==> r in s.table.rows || r == n;
    forall k | k != m.cpe ensures Stored(s', k) <==> Stored(s, k) {
    }
    hide Queued, Stored;
  }

  /** Only a row whose message is gone from the CPE is deleted. */
  lemma PersistsDelete(s: System, id: nat, k: int)
    requires Bound(s, id, k) && Gone(s, k)
    ensures Persists(s, WithRows(s, DeleteLocal(s.table.rows, s.dev, id)))
    ensures !Stored(WithRows(s, DeleteLocal(s.table.rows, s.dev, id)), k)
  {
    var s' := WithRows(s, DeleteLocal(s.table.rows, s.dev, id));
    DeleteLocalRows(s.table.rows, s.dev, id);
    assert forall u, j :: Queued(s', u, j) <==> Queued(s, u, j);
    assert forall j :: Stored(s', j) ==> Stored(s, j);
    forall j | j != k && Stored(s, j) ensures Stored(s', j) {
      var r :| r in s.table.rows && Is(r, s.dev, j);
      assert r in s'.table.rows;
    }
    hide Queued;
  }

  lemma PersistsTrans(a: System, b: System, c: System)
    requires Persists(a, b) && Persists(b, c)
    ensures Persists(a, c)
  {
    hide Gone, Bound, Stored;
  }

  // ---- every step persists ----

  lemma StoredHasKey(s: System, k: int)
    ensures Stored(s, k) <==> HasKey(s.table.rows, s.dev, k)
  {
    if Stored(s, k) {
      var r :| r in s.table.rows && Is(r, s.dev, k);
      var i :| 0 <= i < |s.table.rows| && s.table.rows[i] == r;
      assert Is(s.table.rows[i], s.dev, k);
    }
    if HasKey(s.table.rows, s.dev, k) {
      var i :| 0 <= i < |s.table.rows| && Is(s.table.rows[i], s.dev, k);
      assert s.table.rows[i] in s.table.rows;
    }
  }

  /** Ending a call, or moving it anywhere but into a queue, is quiet. */
  lemma PersistsGoto(s: System, s': System, t: CallId, pc: Pc)
    requires s'.dev == s.dev && s'.issued == s.issued && s'.table == s.table && s'.inbox.Keys <= s.inbox.Keys
    requires s'.calls == s.calls[t := pc] && !pc.Inserting?
    ensures Persists(s, s')
  {
    PersistsQuiet(s, s');
  }

  lemma PersistsStoreRow(s: System, t: CallId, m: Sms, fault: Fault)
    requires Queued(s, t, m.cpe) && m.cpe in s.issued
    ensures Persists(s, s.(table := Insert(s.table, s.dev, m, fault).0))
  {
    var rows1 := UpdateStatus(s.table.rows, s.dev, m.cpe, m.status);
    var s1 := WithRows(s, rows1);
    PersistsSameKeys(s, rows1);
    PersistsSameKeys(s, s.table.rows);
    assert WithRows(s, s.table.rows) == s;
    var s2 := s1.(table := InsertOrIgnore(s1.table, s.dev, m));
    StoredHasKey(s1, m.cpe);
    assert Queued(s1, t, m.cpe);
    assert Persists(s1, s2) by {
      if HasKey(s1.table.rows, s.dev, m.cpe) {
        PersistsSameKeys(s1, s1.table.rows);
      } else {
        PersistsAppend(s1, t, m);
      }
    }
    PersistsTrans(s, s1, s2);
    hide Persists, Queued, UpdateStatus, HasKey;
  }

  lemma PersistsInsert(s: System, t: CallId, fault: Fault)
    requires Indexed(s) && t in s.calls
    ensures Persists(s, InsertStep(s, t, fault))
  {
    match s.calls[t]
    case Inserting(obj, todo) =>
      if todo == [] {
        PersistsGoto(s, InsertStep(s, t, fault), t, Finished(SyncEnded));
      } else {
        assert Queued(s, t, todo[0].cpe);
        PersistsStoreRow(s, t, todo[0], fault);
        var s1 := s.(table := Insert(s.table, s.dev, todo[0], fault).0);
        var s2 := Goto(s1, t, Inserting(obj, todo[1..]));
        forall u, k | Queued(s2, u, k) ensures Queued(s1, u, k) {
          if u == t {
            var i :| 0 <= i < |todo[1..]| && todo[1..][i].cpe == k;
            assert todo[i + 1].cpe == k;
          }
        }
        PersistsQuiet(s1, s2);
        PersistsTrans(s, s1, s2);
      }
    case _ => PersistsQuiet(s, s);
  }

  lemma PersistsLocal(s: System, t: CallId, ok: bool, effective: bool)
    requires t in s.calls && CallOk(s, s.calls[t])
    ensures Persists(s, LocalStep(s, t, ok, effective))
    ensures s.calls[t].DeleteErased? && ok ==> !Stored(LocalStep(s, t, ok, effective), s.calls[t].cpe)
  {
    var s' := LocalStep(s, t, ok, effective);
    match s.calls[t]
    case DeleteErased(obj, id, k) =>
      if ok || effective {
        var s1 := WithRows(s, DeleteLocal(s.table.rows, s.dev, id));
        PersistsDelete(s, id, k);
        PersistsGoto(s1, s', t, s'.calls[t]);
        PersistsTrans(s, s1, s');
        assert Stored(s', k) <==> Stored(s1, k);
      } else {
        PersistsGoto(s, s', t, s'.calls[t]);
      }
    case ReadWritten(obj, id, k) =>
      var s1 := WithRows(s, MarkRead(s.table.rows, s.dev, id));
      PersistsSameKeys(s, s1.table.rows);
      if ok || effective {
        PersistsGoto(s1, s', t, s'.calls[t]);
        PersistsTrans(s, s1, s');
      } else {
        PersistsGoto(s, s', t, s'.calls[t]);
      }
    case _ => PersistsQuiet(s, s);
  }

  lemma PersistsCpe(s: System, t: CallId, ok: bool, effective: bool)
    requires t in s.calls
    ensures Persists(s, CpeStep(s, t, ok, effective))
  {
    var s' := CpeStep(s, t, ok, effective);
    hide Persists;
    if s.calls[t].DeleteLeased? || s.calls[t].ReadLeased? {
      PersistsGoto(s, s', t, s'.calls[t]);
    } else {
      PersistsQuiet(s, s');
    }
  }

  lemma PersistsMoves(s: System, ev: Event)
    requires OnlyMoves(ev)
    ensures Persists(s, Next(s, ev))
  {
    var s' := Next(s, ev);
    hide Persists, Get;
    if s' == s { PersistsQuiet(s, s'); } else { PersistsGoto(s, s', ev.t, s'.calls[ev.t]); }
  }

  lemma PersistsNext(s: System, ev: Event)
    requires Indexed(s) && CallsOk(s)
    ensures Persists(s, Next(s, ev))
  {
    var s' := Next(s, ev);
    hide Persists, CallOk, CallsOk, Indexed, InsertStep, LocalStep, CpeStep, Load;
    if s' == s {
      PersistsQuiet(s, s');
    } else {
      match ev
      case Arrive(m) => PersistsArrive(s, m);
      case FetchOk(t, msgs) => PersistsFetch(s, t, msgs);
      case InsertNext(t, fault) => PersistsInsert(s, t, fault);
      case CpeAnswers(t, ok, effective) => PersistsCpe(s, t, ok, effective);
      case LocalAnswers(t, ok, effective) =>
        CallOkHere(s, t);
        PersistsLocal(s, t, ok, effective);
      case PhoneDeletes(_) => PersistsQuietInbox(s, s');
      case PhoneSetsStatus(_, _) => PersistsQuietInbox(s, s');
      case _ => PersistsMoves(s, ev);
    }
  }

  lemma CallOkHere(s: System, t: CallId)
    requires CallsOk(s) && t in s.calls
    ensures CallOk(s, s.calls[t])
  {
    hide CallOk;
  }

  lemma PersistsQuietInbox(s: System, s': System)
    requires s' == s.(inbox := s'.inbox) && s'.inbox.Keys <= s.inbox.Keys
    ensures Persists(s, s')
  {
    PersistsQuiet(s, s');
  }

  // ---- the invariant is kept ----

  lemma CallOkPersists(s: System, s': System, pc: Pc)
    requires Persists(s, s') && CallOk(s, pc)
    ensures CallOk(s', pc)
  {
    hide Bound, Gone, Stored;
  }

  lemma CallsOkMove(s: System, s': System, t: CallId)
    requires Persists(s, s') && CallsOk(s)
    requires forall u :: u in s'.calls && u != t ==> u in s.calls && s'.calls[u] == s.calls[u]
    requires t in s'.calls ==> CallOk(s', s'.calls[t])
    ensures CallsOk(s')
  {
    forall u | u in s'.calls ensures CallOk(s', s'.calls[u]) {
      if u != t {
        assert CallOk(s, s.calls[u]);
        CallOkPersists(s, s', s.calls[u]);
      }
    }
  }

  /** A row that is there binds its id to its index. */
  lemma LoadBinds(s: System, id: nat)
    requires Indexed(s)
    ensures var r := Get(s.table.rows, s.dev, id); r.Some? ==> Bound(s, id, r.value.cpe)
  {
    GetRow(s.table.rows, s.dev, id);
    var g := Get(s.table.rows, s.dev, id);
    if g.Some? {
      var r := g.value;
      assert Is(r, s.dev, r.cpe);
      forall q | q in s.table.rows ensures Is(q, s.dev, r.cpe) <==> q.id == id && q.dev == s.dev {
        var i :| 0 <= i < |s.table.rows| && s.table.rows[i] == r;
        var j :| 0 <= j < |s.table.rows| && s.table.rows[j] == q;
        if i < j { assert !Is(q, r.dev, r.cpe); } else if j < i { assert !Is(r, q.dev, q.cpe); }
      }
    }
  }

  /** With the single lease in a deleter's hands no queue exists, so what the CPE deleted is gone. */
  lemma EraseMakesGone(s: System, o: DeviceObj, t: CallId, id: nat, k: int)
    requires Inv(s, o) && t in s.calls && s.calls[t] == DeleteLeased(o, id, k)
    ensures Gone(Goto(Erase(s, k), t, DeleteErased(o, id, k)), k)
  {
    var s' := Goto(Erase(s, k), t, DeleteErased(o, id, k));
    assert Bound(s, id, k) by { assert CallOk(s, s.calls[t]); }
    assert k in s.issued;
    forall u ensures !Queued(s', u, k) {
      if u in s.calls && u != t { assert !InLease(s.calls[u]); }
    }
  }

  lemma LeaseMoves(s: System, o: DeviceObj, s': System, t: CallId)
    requires LeaseExclusive(s, o)
    requires s'.calls.Keys == s.calls.Keys + {t} && forall u :: u in s.calls && u != t ==> s'.calls[u] == s.calls[u]
    requires s'.leases == s.leases
    requires t in s.calls ==> (InLease(s'.calls[t]) <==> InLease(s.calls[t]))
    requires t !in s.calls ==> !InLease(s'.calls[t])
    requires InLease(s'.calls[t]) ==> s'.calls[t].obj == s.calls[t].obj
    ensures LeaseExclusive(s', o)
  {
  }

  lemma LeaseFinish(s: System, o: DeviceObj, s': System, t: CallId, answer: Answer)
    requires LeaseExclusive(s, o) && t in s.calls && InLease(s.calls[t])
    requires s'.calls == s.calls[t := Finished(answer)] && s'.leases == s.leases - {s.calls[t].obj}
    ensures LeaseExclusive(s', o)
  {
  }

  lemma LeaseAcquire(s: System, o: DeviceObj, t: CallId)
    requires LeaseExclusive(s, o) && t in s.calls && Waiting(s.calls[t]) && o !in s.leases
    ensures LeaseExclusive(Next(s, Acquire(t, o)), o)
  {
  }

  lemma LeaseRequests(s: System, o: DeviceObj, t: CallId, ok: bool, effective: bool)
    requires LeaseExclusive(s, o) && t in s.calls
    ensures LeaseExclusive(CpeStep(s, t, ok, effective), o)
    ensures LeaseExclusive(LocalStep(s, t, ok, effective), o)
  {
    var s1, s2 := CpeStep(s, t, ok, effective), LocalStep(s, t, ok, effective);
    hide LeaseExclusive, MarkRead, DeleteLocal;
    match s.calls[t]
    case DeleteLeased(_, _, _) => if ok { LeaseMoves(s, o, s1, t); } else { LeaseFinish(s, o, s1, t, Refused); }
    case ReadLeased(_, _, _) => if ok { LeaseMoves(s, o, s1, t); } else { LeaseFinish(s, o, s1, t, Refused); }
    case DeleteErased(_, _, _) => LeaseFinish(s, o, s2, t, s2.calls[t].answer);
    case ReadWritten(_, _, _) => LeaseFinish(s, o, s2, t, s2.calls[t].answer);
    case _ =>
  }

  lemma LeaseInsert(s: System, o: DeviceObj, t: CallId, fault: Fault)
    requires LeaseExclusive(s, o) && t in s.calls
    ensures LeaseExclusive(InsertStep(s, t, fault), o)
  {
    var s' := InsertStep(s, t, fault);
    hide LeaseExclusive, Insert;
    match s.calls[t]
    case Inserting(_, todo) => if todo == [] { LeaseFinish(s, o, s', t, SyncEnded); } else { LeaseMoves(s, o, s', t); }
    case _ =>
  }

  lemma LeaseSame(s: System, o: DeviceObj, s': System)
    requires LeaseExclusive(s, o) && s'.calls == s.calls && s'.leases == s.leases
    ensures LeaseExclusive(s', o)
  {
  }

  lemma LeaseMovesOnly(s: System, o: DeviceObj, ev: Event)
    requires LeaseExclusive(s, o) && Uses(ev, {o}) && OnlyMoves(ev)
    ensures LeaseExclusive(Next(s, ev), o)
  {
    var s' := Next(s, ev);
    hide LeaseExclusive, Get;
    if s' != s {
      if ev.Acquire? {
        LeaseAcquire(s, o, ev.t);
      } else if ev.FetchFails? {
        LeaseFinish(s, o, s', ev.t, SyncEnded);
      } else {
        LeaseMoves(s, o, s', ev.t);
      }
    }
  }

  lemma LeaseNext(s: System, o: DeviceObj, ev: Event)
    requires LeaseExclusive(s, o) && Uses(ev, {o})
    ensures LeaseExclusive(Next(s, ev), o)
  {
    var s' := Next(s, ev);
    hide LeaseExclusive, InsertStep, CpeStep, LocalStep, Load;
    if s' != s {
      match ev
      case InsertNext(t, fault) => LeaseInsert(s, o, t, fault);
      case CpeAnswers(t, ok, effective) => LeaseRequests(s, o, t, ok, effective);
      case LocalAnswers(t, ok, effective) => LeaseRequests(s, o, t, ok, effective);
      case FetchOk(t, _) => LeaseMoves(s, o, s', t);
      case Arrive(_) => LeaseSame(s, o, s');
      case PhoneDeletes(_) => LeaseSame(s, o, s');
      case PhoneSetsStatus(_, _) => LeaseSame(s, o, s');
      case _ => LeaseMovesOnly(s, o, ev);
    }
  }

  lemma QueuedAfter(s: System, s': System, t: CallId)
    requires s'.calls.Keys <= s.calls.Keys + {t}
    requires forall u :: u in s'.calls && u != t ==> u in s.calls && s'.calls[u] == s.calls[u]
    requires t in s'.calls && s'.calls[t].Inserting? ==>
               t in s.calls && s.calls[t].Inserting?
               && forall m :: m in s'.calls[t].todo ==> m in s.calls[t].todo
    ensures forall u, k :: Queued(s', u, k) ==> Queued(s, u, k)
  {
    forall u, k | Queued(s', u, k) ensures Queued(s, u, k) {
      if u == t {
        var i :| 0 <= i < |s'.calls[t].todo| && s'.calls[t].todo[i].cpe == k;
        assert s'.calls[t].todo[i] in s.calls[t].todo;
      }
    }
  }

  /** Steps that leave the table alone. */
  lemma IndexedSameTable(s: System, s': System)
    requires Indexed(s) && s'.table == s.table && s'.dev == s.dev && s.issued <= s'.issued
    requires forall k :: k in s'.inbox ==> k in s'.issued && s'.inbox[k].cpe == k
    requires forall t, k :: Queued(s', t, k) ==> Queued(s, t, k) || k in s.inbox
    ensures Indexed(s')
  {
    hide TableOk, Queued;
  }

  lemma IndexedRows(s: System, s': System)
    requires Indexed(s) && s'.dev == s.dev && s'.issued == s.issued && s'.inbox == s.inbox
    requires TableOk(s'.table)
    requires forall r :: r in s'.table.rows && r.dev == s.dev ==> r.cpe in s.issued
    requires forall t, k :: Queued(s', t, k) ==> Queued(s, t, k)
    ensures Indexed(s')
  {
    hide TableOk, Queued;
  }

  /** One Insert only refreshes rows or adds the message's own. */
  lemma InsertCpes(t: Table, dev: string, m: Sms, fault: Fault)
    ensures forall r :: r in Insert(t, dev, m, fault).0.rows && r.dev == dev ==>
              r.cpe == m.cpe || exists q :: q in t.rows && q.dev == dev && q.cpe == r.cpe
  {
    var rows1 := UpdateStatus(t.rows, dev, m.cpe, m.status);
    var t' := Insert(t, dev, m, fault).0;
    forall r | r in t'.rows && r.dev == dev && r.cpe != m.cpe
      ensures exists q :: q in t.rows && q.dev == dev && q.cpe == r.cpe
    {
      if r in rows1 {
        var i :| 0 <= i < |rows1| && rows1[i] == r;
        assert t.rows[i] in t.rows;
      }
    }
  }

  lemma IndexedInsert(s: System, t: CallId, fault: Fault)
    requires Indexed(s) && t in s.calls
    ensures Indexed(InsertStep(s, t, fault))
  {
    var s' := InsertStep(s, t, fault);
    QueuedAfter(s, s', t);
    if s.calls[t].Inserting? && s.calls[t].todo != [] {
      var m := s.calls[t].todo[0];
      assert Queued(s, t, m.cpe);
      assert m.cpe in s.issued;
      InsertOk(s.table, s.dev, m, fault);
      InsertCpes(s.table, s.dev, m, fault);
      hide Insert, TableOk, Queued;
      IndexedRows(s, s');
    } else {
      hide TableOk, Queued;
      IndexedRows(s, s');
    }
  }

  lemma IndexedDelete(s: System, s': System, id: nat)
    requires Indexed(s) && s'.dev == s.dev && s'.issued == s.issued && s'.inbox == s.inbox
    requires s'.table == s.table.(rows := DeleteLocal(s.table.rows, s.dev, id))
    requires forall t, k :: Queued(s', t, k) ==> Queued(s, t, k)
    ensures Indexed(s')
  {
    DeleteLocalOk(s.table, s.dev, id);
    DeleteLocalRows(s.table.rows, s.dev, id);
    hide TableOk, Queued, DeleteLocal;
    IndexedRows(s, s');
  }

  lemma IndexedRead(s: System, s': System, id: nat)
    requires Indexed(s) && s'.dev == s.dev && s'.issued == s.issued && s'.inbox == s.inbox
    requires s'.table == s.table.(rows := MarkRead(s.table.rows, s.dev, id))
    requires forall t, k :: Queued(s', t, k) ==> Queued(s, t, k)
    ensures Indexed(s')
  {
    MarkReadOk(s.table, s.dev, id);
    var rows1 := MarkRead(s.table.rows, s.dev, id);
    forall r | r in rows1 && r.dev == s.dev ensures r.cpe in s.issued {
      var i :| 0 <= i < |rows1| && rows1[i] == r;
      assert s.table.rows[i] in s.table.rows;
    }
    hide TableOk, Queued, MarkRead;
    IndexedRows(s, s');
  }

  lemma IndexedLocal(s: System, t: CallId, ok: bool, effective: bool)
    requires Indexed(s) && t in s.calls
    ensures Indexed(LocalStep(s, t, ok, effective))
  {
    var s' := LocalStep(s, t, ok, effective);
    QueuedAfter(s, s', t);
    hide TableOk, Queued, MarkRead, DeleteLocal;
    if (ok || effective) && s.calls[t].DeleteErased? {
      IndexedDelete(s, s', s.calls[t].id);
    } else if (ok || effective) && s.calls[t].ReadWritten? {
      IndexedRead(s, s', s.calls[t].id);
    } else {
      IndexedSameTable(s, s');
    }
  }

  lemma IndexedGoto(s: System, s': System, t: CallId)
    requires Indexed(s) && s' == s.(calls := s'.calls, leases := s'.leases, inbox := s'.inbox)
    requires s'.inbox.Keys <= s.inbox.Keys && forall k :: k in s'.inbox ==> s'.inbox[k].cpe == k
    requires s'.calls.Keys <= s.calls.Keys + {t}
    requires forall u :: u in s'.calls && u != t ==> u in s.calls && s'.calls[u] == s.calls[u]
    requires t in s'.calls && s'.calls[t].Inserting? ==> t in s.calls && s'.calls[t] == s.calls[t]
    ensures Indexed(s')
  {
    QueuedAfter(s, s', t);
    hide TableOk, Queued;
    IndexedSameTable(s, s');
  }

  lemma IndexedFetch(s: System, t: CallId, msgs: seq<Sms>)
    requires Indexed(s)
    ensures Indexed(Next(s, FetchOk(t, msgs)))
  {
    var s' := Next(s, FetchOk(t, msgs));
    forall u, k | Queued(s', u, k) ensures Queued(s, u, k) || k in s.inbox {
      if u == t && s' != s {
        var i :| 0 <= i < |msgs| && msgs[i].cpe == k;
      }
    }
    hide TableOk, Queued;
    IndexedSameTable(s, s');
  }

  lemma IndexedArrive(s: System, m: Sms)
    requires Indexed(s) && m.cpe !in s.issued
    ensures Indexed(Next(s, Arrive(m)))
  {
    var s' := Next(s, Arrive(m));
    QueuedAfter(s, s', 0);
    hide TableOk, Queued;
    IndexedSameTable(s, s');
  }

  lemma IndexedCpe(s: System, t: CallId, ok: bool, effective: bool)
    requires Indexed(s) && t in s.calls
    ensures Indexed(CpeStep(s, t, ok, effective))
  {
    var s' := CpeStep(s, t, ok, effective);
    InboxNamed(s);
    hide Indexed;
    if s.calls[t].DeleteLeased? || s.calls[t].ReadLeased? {
      IndexedGoto(s, s', t);
    }
  }

  lemma InboxNamed(s: System)
    requires Indexed(s)
    ensures forall k :: k in s.inbox ==> s.inbox[k].cpe == k
  {
  }

  lemma IndexedMoves(s: System, ev: Event)
    requires Indexed(s) && OnlyMoves(ev)
    ensures Indexed(Next(s, ev))
  {
    var s' := Next(s, ev);
    InboxNamed(s);
    hide Indexed, Get;
    if s' != s { IndexedGoto(s, s', ev.t); }
  }

  lemma IndexedNext(s: System, ev: Event)
    requires Indexed(s)
    ensures Indexed(Next(s, ev))
  {
    var s' := Next(s, ev);
    InboxNamed(s);
    hide Indexed, InsertStep, LocalStep, CpeStep, Load;
    if s' != s {
      match ev
      case InsertNext(t, fault) => IndexedInsert(s, t, fault);
      case LocalAnswers(t, ok, effective) => IndexedLocal(s, t, ok, effective);
      case CpeAnswers(t, ok, effective) => IndexedCpe(s, t, ok, effective);
      case FetchOk(t, msgs) => IndexedFetch(s, t, msgs);
      case Arrive(m) => IndexedArrive(s, m);
      case PhoneDeletes(_) => IndexedGoto(s, s', 0);
      case PhoneSetsStatus(_, _) => IndexedGoto(s, s', 0);
      case _ => IndexedMoves(s, ev);
    }
  }

  /** A step moves the call it names and no other. */
  lemma MovesOne(s: System, ev: Event)
    requires !ev.Arrive? && !ev.PhoneDeletes? && !ev.PhoneSetsStatus?
    ensures forall u :: u in Next(s, ev).calls && u != ev.t ==> u in s.calls && Next(s, ev).calls[u] == s.calls[u]
  {
    hide Insert, MarkRead, DeleteLocal;
  }

  lemma CallsOkNext(s: System, o: DeviceObj, ev: Event)
    requires Inv(s, o)
    ensures CallsOk(Next(s, ev))
  {
    var s' := Next(s, ev);
    PersistsNext(s, ev);
    hide Persists, LeaseExclusive, Indexed, CallsOk, CallOk, InsertStep, LocalStep, CpeStep;
    if ev.Arrive? || ev.PhoneDeletes? || ev.PhoneSetsStatus? {
      CallsOkSame(s, s');
    } else {
      MovesOne(s, ev);
      hide Next;
      if ev.t in s'.calls { CallOkNext(s, o, ev, ev.t); }
      CallsOkMove(s, s', ev.t);
    }
  }

  lemma CallsOkSame(s: System, s': System)
    requires Persists(s, s') && CallsOk(s) && s'.calls == s.calls
    ensures CallsOk(s')
  {
    forall u | u in s'.calls ensures CallOk(s', s'.calls[u]) {
      CallOkPersists(s, s', s.calls[u]);
    }
  }

  /** What two steps of a deleter rest on. */
  lemma DeleterNext(s: System, o: DeviceObj, t: CallId, ok: bool, effective: bool)
    requires Inv(s, o) && t in s.calls
    ensures s.calls[t].DeleteLeased? && ok ==> Gone(CpeStep(s, t, ok, effective), s.calls[t].cpe)
    ensures s.calls[t].DeleteErased? ==> Gone(s, s.calls[t].cpe)
    ensures s.calls[t].DeleteErased? && ok ==> !Stored(LocalStep(s, t, ok, effective), s.calls[t].cpe)
  {
    assert CallOk(s, s.calls[t]);
    if s.calls[t].DeleteLeased? && ok {
      EraseMakesGone(s, o, t, s.calls[t].id, s.calls[t].cpe);
    } else if s.calls[t].DeleteErased? {
      PersistsLocal(s, t, ok, effective);
    }
  }

  lemma GonePersists(s: System, s': System, k: int)
    requires Persists(s, s') && Gone(s, k)
    ensures Gone(s', k)
  {
    hide Gone;
  }

  /** The call that moves ends up where it may stand. */
  lemma CallOkNext(s: System, o: DeviceObj, ev: Event, t: CallId)
    requires Inv(s, o) && Persists(s, Next(s, ev))
    requires !ev.Arrive? && !ev.PhoneDeletes? && !ev.PhoneSetsStatus? && t == ev.t
    requires t in Next(s, ev).calls
    ensures CallOk(Next(s, ev), Next(s, ev).calls[t])
  {
    var s' := Next(s, ev);
    hide Persists, LeaseExclusive, Indexed, CallsOk, Bound, Gone, Stored, Insert, MarkRead, DeleteLocal;
    if t in s.calls {
      CallOkHere(s, t);
      CallOkPersists(s, s', s.calls[t]);
      match ev
      case CpeAnswers(_, ok, effective) => DeleterNext(s, o, t, ok, effective);
      case LocalAnswers(_, ok, effective) =>
        DeleterNext(s, o, t, ok, effective);
        if s.calls[t].DeleteErased? { GonePersists(s, s', s.calls[t].cpe); }
      case _ =>
    } else {
      LoadedOk(s, s', ev, t);
    }
  }

  lemma LoadedCall(s: System, ev: Event)
    requires ev.StartDelete? || ev.StartRead?
    requires ev.t !in s.calls
    ensures var pc := Next(s, ev).calls[ev.t];
            match Get(s.table.rows, s.dev, ev.id)
            case None => pc == Finished(Refused)
            case Some(r) => pc == (if ev.StartDelete? then DeleteLoaded(ev.id, r.cpe) else ReadLoaded(ev.id, r.cpe))
  {
    hide Get;
  }

  lemma LoadedOk(s: System, s': System, ev: Event, t: CallId)
    requires Indexed(s) && s' == Next(s, ev) && Persists(s, s')
    requires t !in s.calls && (ev.StartSync? || ev.StartDelete? || ev.StartRead?) && t == ev.t
    ensures CallOk(s', s'.calls[t])
  {
    if !ev.StartSync? {
      LoadBinds(s, ev.id);
      LoadedCall(s, ev);
      hide Bound, Gone, Stored, Get, Indexed, Next;
      var g := Get(s.table.rows, s.dev, ev.id);
      if g.Some? { assert Bound(s', ev.id, g.value.cpe); }
    }
  }

  lemma InvNext(s: System, o: DeviceObj, ev: Event)
    requires Inv(s, o) && Uses(ev, {o})
    ensures Inv(Next(s, ev), o)
  {
    LeaseNext(s, o, ev);
    IndexedNext(s, ev);
    CallsOkNext(s, o, ev);
    hide LeaseExclusive, Indexed, CallsOk;
  }

  // ---- whole runs ----

  lemma InvInit(dev: string, o: DeviceObj)
    ensures Inv(Init(dev), o)
  {
  }

  predicate AllUse(evs: seq<Event>, objs: set<DeviceObj>) {
    forall i :: 0 <= i < |evs| ==> Uses(evs[i], objs)
  }

  lemma {:induction false} RunInv(s: System, o: DeviceObj, evs: seq<Event>)
    requires Inv(s, o) && AllUse(evs, {o})
    ensures Inv(Run(s, evs), o) && Persists(s, Run(s, evs))
    decreases |evs|
  {
    if evs == [] {
      PersistsQuiet(s, s);
    } else {
      assert Uses(evs[0], {o}) && AllUse(evs[1..], {o});
      InvNext(s, o, evs[0]);
      PersistsNext(s, evs[0]);
      hide Inv, Persists, Next, Uses;
      RunInv(Next(s, evs[0]), o, evs[1..]);
      PersistsTrans(s, Next(s, evs[0]), Run(s, evs));
    }
  }

  lemma InvMeansNoPullBack(s: System, o: DeviceObj)
    requires Inv(s, o)
    ensures NoPullBack(s)
  {
    forall t | t in s.calls && s.calls[t].Finished? && s.calls[t].answer.Deleted?
      ensures !Stored(s, s.calls[t].answer.cpe)
    {
      assert CallOk(s, s.calls[t]);
    }
  }

  lemma {:induction false} RunConcat(s: System, a: seq<Event>, b: seq<Event>)
    ensures Run(s, a + b) == Run(Run(s, a), b)
    decreases |a|
  {
    if a == [] {
      assert a + b == b;
    } else {
      assert (a + b)[1..] == a[1..] + b;
      hide Next;
      RunConcat(Next(s, a[0]), a[1..], b);
    }
  }

  lemma Run3(s: System, a: Event, b: Event, c: Event)
    ensures Run(s, [a, b, c]) == Next(Next(Next(s, a), b), c)
  {
    hide Next;
    assert [a, b, c][1..] == [b, c] && [b, c][1..] == [c] && [c][1..] == [];
    assert Run(Next(s, a), [b, c]) == Run(Next(Next(s, a), b), [c]);
  }

  const FIRST := Sms(5, "10086", "hi", 0, 1)

  function Stage1(dev: string, a: DeviceObj): System {
    System(dev, map[5 := FIRST], {5}, Table([], 1), map[a := 0], map[0 := Fetching(a)])
  }

  function Stage2(dev: string): System {
    System(dev, map[5 := FIRST], {5}, Table([NewRow(1, dev, FIRST)], 2), map[], map[0 := Finished(SyncEnded)])
  }

  function Stage3(dev: string, a: DeviceObj): System {
    Stage2(dev).(leases := map[a := 1], calls := map[0 := Finished(SyncEnded), 1 := Inserting(a, [FIRST])])
  }

  function Stage4(dev: string, a: DeviceObj, b: DeviceObj): System {
    Stage3(dev, a).(inbox := map[], leases := map[a := 1, b := 2],
                    calls := map[0 := Finished(SyncEnded), 1 := Inserting(a, [FIRST]), 2 := DeleteErased(b, 1, 5)])
  }

  lemma ToStage1(dev: string, a: DeviceObj)
    ensures Run(Init(dev), [Arrive(FIRST), StartSync(0), Acquire(0, a)]) == Stage1(dev, a)
  {
    var x := Next(Next(Next(Init(dev), Arrive(FIRST)), StartSync(0)), Acquire(0, a));
    assert x.inbox == map[5 := FIRST] && x.issued == {5} && x.leases == map[a := 0] && x.calls == map[0 := Fetching(a)];
    Run3(Init(dev), Arrive(FIRST), StartSync(0), Acquire(0, a));
  }

  lemma ToStage2(dev: string, a: DeviceObj)
    ensures Run(Stage1(dev, a), [FetchOk(0, [FIRST]), InsertNext(0, NoFault), InsertNext(0, NoFault)]) == Stage2(dev)
  {
    var x1 := Next(Stage1(dev, a), FetchOk(0, [FIRST]));
    assert InInbox(Stage1(dev, a), [FIRST]);
    assert UpdateStatus([], dev, 5, 0) == [];
    var x2 := Next(x1, InsertNext(0, NoFault));
    assert x2.table == Table([NewRow(1, dev, FIRST)], 2) && x2.calls[0] == Inserting(a, []);
    var x3 := Next(x2, InsertNext(0, NoFault));
    assert x3.leases == map[] && x3.calls == map[0 := Finished(SyncEnded)];
    Run3(Stage1(dev, a), FetchOk(0, [FIRST]), InsertNext(0, NoFault), InsertNext(0, NoFault));
  }

  lemma ToStage3(dev: string, a: DeviceObj)
    ensures Run(Stage2(dev), [StartSync(1), Acquire(1, a), FetchOk(1, [FIRST])]) == Stage3(dev, a)
  {
    var x2 := Next(Next(Stage2(dev), StartSync(1)), Acquire(1, a));
    assert InInbox(x2, [FIRST]);
    var x3 := Next(x2, FetchOk(1, [FIRST]));
    assert x3.leases == map[a := 1] && x3.calls == map[0 := Finished(SyncEnded), 1 := Inserting(a, [FIRST])];
    Run3(Stage2(dev), StartSync(1), Acquire(1, a), FetchOk(1, [FIRST]));
  }

  lemma DeleteLoads(dev: string, a: DeviceObj)
    ensures var s := Stage3(dev, a);
            Next(s, StartDelete(2, 1)) == s.(calls := s.calls[2 := DeleteLoaded(1, 5)])
  {
    assert Get([NewRow(1, dev, FIRST)], dev, 1) == Some(NewRow(1, dev, FIRST));
  }

  lemma DeleteErases(dev: string, a: DeviceObj, b: DeviceObj)
    requires a != b
    ensures var s := Stage3(dev, a);
            Next(Next(s.(calls := s.calls[2 := DeleteLoaded(1, 5)]), Acquire(2, b)), CpeAnswers(2, true, true))
              == Stage4(dev, a, b)
  {
    var s := Stage3(dev, a);
    var x := Next(Next(s.(calls := s.calls[2 := DeleteLoaded(1, 5)]), Acquire(2, b)), CpeAnswers(2, true, true));
    assert x.inbox == map[] && x.leases == map[a := 1, b := 2] && x.calls == Stage4(dev, a, b).calls;
  }

  lemma ToStage4(dev: string, a: DeviceObj, b: DeviceObj)
    requires a != b
    ensures Run(Stage3(dev, a), [StartDelete(2, 1), Acquire(2, b), CpeAnswers(2, true, true)]) == Stage4(dev, a, b)
  {
    DeleteLoads(dev, a);
    DeleteErases(dev, a, b);
    hide Next, Run, Stage3, Stage4;
    Run3(Stage3(dev, a), StartDelete(2, 1), Acquire(2, b), CpeAnswers(2, true, true));
  }

  function Stage5(dev: string, a: DeviceObj): System {
    Stage3(dev, a).(inbox := map[], leases := map[a := 1], table := Table([], 2),
                    calls := map[0 := Finished(SyncEnded), 1 := Inserting(a, [FIRST]), 2 := Finished(Deleted(5))])
  }

  lemma ToStage5(dev: string, a: DeviceObj, b: DeviceObj)
    requires a != b
    ensures Next(Stage4(dev, a, b), LocalAnswers(2, true, true)) == Stage5(dev, a)
  {
    var n := NewRow(1, dev, FIRST);
    assert DeleteLocal([n], dev, 1) == DeleteLocal([n][1..], dev, 1) == [];
    var x1 := Next(Stage4(dev, a, b), LocalAnswers(2, true, true));
    assert x1.leases == map[a := 1] && x1.calls == Stage5(dev, a).calls;
  }

  lemma StoredAgain(dev: string, a: DeviceObj)
    ensures !NoPullBack(Next(Stage5(dev, a), InsertNext(1, NoFault)))
  {
    assert UpdateStatus([], dev, 5, 0) == [];
    var x := Next(Stage5(dev, a), InsertNext(1, NoFault));
    assert x.table.rows == [NewRow(2, dev, FIRST)];
    assert x.table.rows[0] in x.table.rows && Is(x.table.rows[0], dev, 5);
    assert x.calls[2] == Finished(Deleted(5)) && Stored(x, 5);
  }

  lemma PhoneActionPullsNothing(s: System, k: int)
    requires !NoPullBack(s)
    ensures !NoPullBack(Next(s, PhoneDeletes(k)))
  {
    var s' := Next(s, PhoneDeletes(k));
    assert forall j :: Stored(s', j) <==> Stored(s, j);
    hide Stored;
  }

  lemma ToPullBack(dev: string, a: DeviceObj, b: DeviceObj)
    requires a != b
    ensures !NoPullBack(Run(Stage4(dev, a, b), [LocalAnswers(2, true, true), InsertNext(1, NoFault), PhoneDeletes(5)]))
  {
    ToStage5(dev, a, b);
    StoredAgain(dev, a);
    hide Next, NoPullBack, Stage4, Stage5;
    PhoneActionPullsNothing(Next(Stage5(dev, a), InsertNext(1, NoFault)), 5);
    Run3(Stage4(dev, a, b), LocalAnswers(2, true, true), InsertNext(1, NoFault), PhoneDeletes(5));
  }

  /** Two Device objects for the same CPE: a round holding one lease has fetched,
      a delete holding the other runs to success, and the round stores the message again. */
  lemma TwoObjectsPullBack(dev: string, a: DeviceObj, b: DeviceObj) returns (evs: seq<Event>)
    requires a != b
    ensures AllUse(evs, {a, b}) && !NoPullBack(Run(Init(dev), evs))
  {
    var e0 := ToStage3Run(dev, a);
    AllUseMore(e0, {a}, {a, b});
    ToStage4(dev, a, b);
    ToPullBack(dev, a, b);
    hide Next, NoPullBack, Stage3, Stage4, Run;
    var e4 := [StartDelete(2, 1), Acquire(2, b), CpeAnswers(2, true, true)];
    var e5 := [LocalAnswers(2, true, true), InsertNext(1, NoFault), PhoneDeletes(5)];
    RunConcat(Init(dev), e0, e4);
    RunConcat(Init(dev), e0 + e4, e5);
    evs := e0 + e4 + e5;
  }

  /** Deleted messages stay away in every run exactly when at most one Device
      object hands out leases for the CPE. */
  lemma NoPullBackExact(dev: string, objs: set<DeviceObj>)
    ensures (forall evs: seq<Event> :: AllUse(evs, objs) ==> NoPullBack(Run(Init(dev), evs))) <==> |objs| <= 1
  {
    if a, b :| a in objs && b in objs && a != b {
      assert |objs - {a} - {b}| == |objs| - 2;
      var evs := TwoObjectsPullBack(dev, a, b);
      assert forall i :: 0 <= i < |evs| ==> Uses(evs[i], {a, b}) ==> Uses(evs[i], objs);
      assert AllUse(evs, objs);
    } else {
      var o: DeviceObj := 0;
      if objs != {} {
        o :| o in objs;
        assert objs == {o};
      }
      forall evs: seq<Event> | AllUse(evs, objs) ensures NoPullBack(Run(Init(dev), evs)) {
        assert forall i :: 0 <= i < |evs| ==> Uses(evs[i], objs);
        InvInit(dev, o);
        RunInv(Init(dev), o, evs);
        InvMeansNoPullBack(Run(Init(dev), evs), o);
      }
    }
  }

  /** A message gets one local row ever: whatever happens later, a row that
      carries its index is the row it was first stored in. */
  lemma OneRowForLife(s: System, o: DeviceObj, evs: seq<Event>, r: Row, q: Row)
    requires Inv(s, o) && AllUse(evs, {o})
    requires r in s.table.rows && r.dev == s.dev
    requires q in Run(s, evs).table.rows && Is(q, s.dev, r.cpe)
    ensures q.id == r.id
  {
    GetRow(s.table.rows, s.dev, r.id);
    LoadBinds(s, r.id);
    var g := Get(s.table.rows, s.dev, r.id).value;
    assert Is(g, s.dev, g.cpe);
    assert g == r by {
      var i :| 0 <= i < |s.table.rows| && s.table.rows[i] == r;
      var j :| 0 <= j < |s.table.rows| && s.table.rows[j] == g;
    }
    RunInv(s, o, evs);
    assert Bound(Run(s, evs), r.id, r.cpe);
  }

  // ---- read marks ----

  ghost predicate ReadKept(s: System, id: nat) {
    id < s.table.nextId && forall r :: r in s.table.rows && r.id == id ==> r.readLocal
  }

  lemma ReadKeptInsert(t: Table, dev: string, m: Sms, fault: Fault, id: nat)
    requires id < t.nextId && forall r :: r in t.rows && r.id == id ==> r.readLocal
    ensures var t' := Insert(t, dev, m, fault).0;
            id < t'.nextId && forall r :: r in t'.rows && r.id == id ==> r.readLocal
  {
    var rows1 := UpdateStatus(t.rows, dev, m.cpe, m.status);
    forall r | r in rows1 && r.id == id ensures r.readLocal {
      var i :| 0 <= i < |rows1| && rows1[i] == r;
      assert t.rows[i] in t.rows;
    }
  }

  lemma ReadKeptNext(s: System, ev: Event, id: nat)
    requires ReadKept(s, id)
    ensures ReadKept(Next(s, ev), id)
  {
    match ev
    case InsertNext(t, fault) =>
      if t in s.calls && s.calls[t].Inserting? && s.calls[t].todo != [] {
        ReadKeptInsert(s.table, s.dev, s.calls[t].todo[0], fault, id);
        hide Insert;
      }
    case LocalAnswers(t, ok, effective) =>
      if t in s.calls && s.calls[t].DeleteErased? {
        DeleteLocalRows(s.table.rows, s.dev, s.calls[t].id);
      } else if t in s.calls && s.calls[t].ReadWritten? {
        var rows1 := MarkRead(s.table.rows, s.dev, s.calls[t].id);
        forall r | r in rows1 && r.id == id ensures r.readLocal {
          var i :| 0 <= i < |rows1| && rows1[i] == r;
          assert s.table.rows[i] in s.table.rows;
        }
      }
    case _ =>
  }

  lemma {:induction false} ReadKeptRun(s: System, evs: seq<Event>, id: nat)
    requires ReadKept(s, id)
    ensures ReadKept(Run(s, evs), id)
    decreases |evs|
  {
    if evs != [] {
      ReadKeptNext(s, evs[0], id);
      hide Next, ReadKept;
      ReadKeptRun(Next(s, evs[0]), evs[1..], id);
    }
  }

  lemma ReadKeptStart(s: System, r: Row)
    requires TableOk(s.table) && r in s.table.rows && r.readLocal
    ensures ReadKept(s, r.id)
  {
    var i :| 0 <= i < |s.table.rows| && s.table.rows[i] == r;
    forall x | x in s.table.rows && x.id == r.id ensures x.readLocal {
      var j :| 0 <= j < |s.table.rows| && s.table.rows[j] == x;
    }
  }

  /** A row once marked read stays so in every run, whatever objects hand out leases. */
  lemma RowStaysRead(s: System, evs: seq<Event>, r: Row)
    requires TableOk(s.table) && r in s.table.rows && r.readLocal
    ensures forall q :: q in Run(s, evs).table.rows && q.id == r.id ==> q.readLocal && !Unread(q)
  {
    ReadKeptStart(s, r);
    ReadKeptRun(s, evs, r.id);
    hide Run, TableOk;
  }

  /** With one Device object a message once marked read is never unread again,
      whatever status the CPE keeps reporting. */
  lemma ReadIsSticky(s: System, o: DeviceObj, evs: seq<Event>, r: Row, q: Row)
    requires Inv(s, o) && AllUse(evs, {o})
    requires r in s.table.rows && r.dev == s.dev && r.readLocal
    requires q in Run(s, evs).table.rows && Is(q, s.dev, r.cpe)
    ensures q.readLocal && !Unread(q)
  {
    assert TableOk(s.table);
    hide Inv, Run, TableOk;
    OneRowForLife(s, o, evs, r, q);
    RowStaysRead(s, evs, r);
  }

  // ---- messages, and how many objects hand out leases ----

  /** From s to s' every message keeps the row it had. */
  ghost predicate KeepsRows(s: System, s': System) {
    forall r, q :: r in s.table.rows && r.dev == s.dev && q in s'.table.rows && Is(q, s.dev, r.cpe) ==> q.id == r.id
  }

  /** From s to s' no message that was marked read becomes unread. */
  ghost predicate KeepsRead(s: System, s': System) {
    forall r, q ::
      r in s.table.rows && r.dev == s.dev && r.readLocal && q in s'.table.rows && Is(q, s.dev, r.cpe) ==> !Unread(q)
  }

  lemma OneObjectKeeps(dev: string, o: DeviceObj, e1: seq<Event>, e2: seq<Event>)
    requires AllUse(e1, {o}) && AllUse(e2, {o})
    ensures var s := Run(Init(dev), e1);
            KeepsRows(s, Run(s, e2)) && KeepsRead(s, Run(s, e2))
  {
    var s := Run(Init(dev), e1);
    var s' := Run(s, e2);
    InvInit(dev, o);
    RunInv(Init(dev), o, e1);
    hide Inv, Run, AllUse;
    forall r, q | r in s.table.rows && r.dev == s.dev && q in s'.table.rows && Is(q, s.dev, r.cpe)
      ensures q.id == r.id && (r.readLocal ==> !Unread(q))
    {
      OneRowForLife(s, o, e2, r, q);
      if r.readLocal { ReadIsSticky(s, o, e2, r, q); }
    }
  }

  /** After Stage3 a handler with the other lease has marked the message read. */
  function StageRead(dev: string, a: DeviceObj): System {
    var calls := map[0 := Finished(SyncEnded), 1 := Inserting(a, [FIRST]), 3 := Finished(ReadMarked(1, 5))];
    Stage3(dev, a).(inbox := map[5 := FIRST.(status := 1)], calls := calls,
                    table := Table([NewRow(1, dev, FIRST).(readLocal := true, status := 1)], 2))
  }

  lemma ReadLoads(dev: string, a: DeviceObj)
    ensures var s := Stage3(dev, a);
            Next(s, StartRead(3, 1)) == s.(calls := s.calls[3 := ReadLoaded(1, 5)])
  {
    assert Get([NewRow(1, dev, FIRST)], dev, 1) == Some(NewRow(1, dev, FIRST));
  }

  lemma ReadWrites(dev: string, a: DeviceObj, b: DeviceObj)
    requires a != b
    ensures var s := Stage3(dev, a);
            Next(Next(s.(calls := s.calls[3 := ReadLoaded(1, 5)]), Acquire(3, b)), CpeAnswers(3, true, true)) ==
              s.(inbox := map[5 := FIRST.(status := 1)], leases := map[a := 1, b := 3],
                 calls := s.calls[3 := ReadWritten(b, 1, 5)])
  {
    var s := Stage3(dev, a);
    var x := Next(Next(s.(calls := s.calls[3 := ReadLoaded(1, 5)]), Acquire(3, b)), CpeAnswers(3, true, true));
    assert x.inbox == map[5 := FIRST.(status := 1)] && x.leases == map[a := 1, b := 3];
    assert x.calls == s.calls[3 := ReadWritten(b, 1, 5)];
  }

  lemma ReadEnds(dev: string, a: DeviceObj, b: DeviceObj)
    requires a != b
    ensures var s := Stage3(dev, a);
            Next(s.(inbox := map[5 := FIRST.(status := 1)], leases := map[a := 1, b := 3],
                    calls := s.calls[3 := ReadWritten(b, 1, 5)]), LocalAnswers(3, true, true)) == StageRead(dev, a)
  {
    var s := Stage3(dev, a);
    var n := NewRow(1, dev, FIRST);
    assert MarkRead([n], dev, 1) == [n.(readLocal := true, status := 1)];
    var x := Next(s.(inbox := map[5 := FIRST.(status := 1)], leases := map[a := 1, b := 3],
                     calls := s.calls[3 := ReadWritten(b, 1, 5)]), LocalAnswers(3, true, true));
    assert x.leases == map[a := 1] && x.calls == StageRead(dev, a).calls;
  }

  lemma Run1(s: System, a: Event)
    ensures Run(s, [a]) == Next(s, a)
  {
    assert [a][1..] == [];
    hide Next;
  }

  lemma ToStageRead(dev: string, a: DeviceObj, b: DeviceObj)
    requires a != b
    ensures Run(Run(Stage3(dev, a), [StartRead(3, 1), Acquire(3, b), CpeAnswers(3, true, true)]),
                [LocalAnswers(3, true, true)]) == StageRead(dev, a)
  {
    ReadLoads(dev, a);
    ReadWrites(dev, a, b);
    ReadEnds(dev, a, b);
    hide Next, Run, Stage3, StageRead;
    Run3(Stage3(dev, a), StartRead(3, 1), Acquire(3, b), CpeAnswers(3, true, true));
    Run1(Run(Stage3(dev, a), [StartRead(3, 1), Acquire(3, b), CpeAnswers(3, true, true)]), LocalAnswers(3, true, true));
  }

  /** And then deleted it, while the round still holds the copy it fetched. */
  function StageGone(dev: string, a: DeviceObj): System {
    StageRead(dev, a).(inbox := map[], table := Table([], 2),
                       calls := StageRead(dev, a).calls[2 := Finished(Deleted(5))])
  }

  lemma DeleteReadLoads(dev: string, a: DeviceObj)
    ensures var s := StageRead(dev, a);
            Next(s, StartDelete(2, 1)) == s.(calls := s.calls[2 := DeleteLoaded(1, 5)])
  {
    var n := NewRow(1, dev, FIRST).(readLocal := true, status := 1);
    assert Get([n], dev, 1) == Some(n);
  }

  lemma DeleteReadErases(dev: string, a: DeviceObj, b: DeviceObj)
    requires a != b
    ensures var s := StageRead(dev, a);
            Next(Next(s.(calls := s.calls[2 := DeleteLoaded(1, 5)]), Acquire(2, b)), CpeAnswers(2, true, true)) ==
              s.(inbox := map[], leases := map[a := 1, b := 2], calls := s.calls[2 := DeleteErased(b, 1, 5)])
  {
    var s := StageRead(dev, a);
    var x := Next(Next(s.(calls := s.calls[2 := DeleteLoaded(1, 5)]), Acquire(2, b)), CpeAnswers(2, true, true));
    assert x.inbox == map[] && x.leases == map[a := 1, b := 2];
    assert x.calls == s.calls[2 := DeleteErased(b, 1, 5)];
  }

  lemma DeleteReadEnds(dev: string, a: DeviceObj, b: DeviceObj)
    requires a != b
    ensures var s := StageRead(dev, a);
            Next(s.(inbox := map[], leases := map[a := 1, b := 2], calls := s.calls[2 := DeleteErased(b, 1, 5)]),
                 LocalAnswers(2, true, true)) == StageGone(dev, a)
  {
    var s := StageRead(dev, a);
    var n := NewRow(1, dev, FIRST).(readLocal := true, status := 1);
    assert DeleteLocal([n], dev, 1) == DeleteLocal([n][1..], dev, 1) == [];
    var x := Next(s.(inbox := map[], leases := map[a := 1, b := 2], calls := s.calls[2 := DeleteErased(b, 1, 5)]),
                  LocalAnswers(2, true, true));
    assert x.leases == map[a := 1] && x.calls == StageGone(dev, a).calls;
  }

  lemma ToStageGone(dev: string, a: DeviceObj, b: DeviceObj)
    requires a != b
    ensures Run(Run(StageRead(dev, a), [StartDelete(2, 1), Acquire(2, b), CpeAnswers(2, true, true)]),
                [LocalAnswers(2, true, true)]) == StageGone(dev, a)
  {
    DeleteReadLoads(dev, a);
    DeleteReadErases(dev, a, b);
    DeleteReadEnds(dev, a, b);
    hide Next, Run, StageRead, StageGone;
    Run3(StageRead(dev, a), StartDelete(2, 1), Acquire(2, b), CpeAnswers(2, true, true));
    Run1(Run(StageRead(dev, a), [StartDelete(2, 1), Acquire(2, b), CpeAnswers(2, true, true)]),
         LocalAnswers(2, true, true));
  }

  lemma UnreadAgain(dev: string, a: DeviceObj)
    ensures Next(StageGone(dev, a), InsertNext(1, NoFault)).table.rows == [NewRow(2, dev, FIRST)]
    ensures Next(StageGone(dev, a), InsertNext(1, NoFault)).dev == dev
  {
    assert UpdateStatus([], dev, 5, 0) == [];
  }

  lemma LosesRead(dev: string, a: DeviceObj, s': System)
    requires s'.table.rows == [NewRow(2, dev, FIRST)]
    ensures !KeepsRows(StageRead(dev, a), s') && !KeepsRead(StageRead(dev, a), s')
  {
    var s := StageRead(dev, a);
    var r, q := NewRow(1, dev, FIRST).(readLocal := true, status := 1), NewRow(2, dev, FIRST);
    assert s.table.rows[0] == r && s'.table.rows[0] == q;
    assert r in s.table.rows && q in s'.table.rows && Is(q, s.dev, r.cpe) && Unread(q) && q.id != r.id;
  }

  lemma ToStage3Run(dev: string, a: DeviceObj) returns (evs: seq<Event>)
    ensures AllUse(evs, {a}) && Run(Init(dev), evs) == Stage3(dev, a)
  {
    ToStage1(dev, a);
    ToStage2(dev, a);
    ToStage3(dev, a);
    hide Next, Stage1, Stage2, Stage3, Run;
    var e1 := [Arrive(FIRST), StartSync(0), Acquire(0, a)];
    var e2 := [FetchOk(0, [FIRST]), InsertNext(0, NoFault), InsertNext(0, NoFault)];
    var e3 := [StartSync(1), Acquire(1, a), FetchOk(1, [FIRST])];
    RunConcat(Init(dev), e1, e2);
    RunConcat(Init(dev), e1 + e2, e3);
    evs := e1 + e2 + e3;
  }

  /** Two Device objects for the same CPE: a message that was marked read is deleted, and
      the round stores it again, in another row and unread. */
  lemma TwoObjectsLoseRead(dev: string, a: DeviceObj, b: DeviceObj) returns (e1: seq<Event>, e2: seq<Event>)
    requires a != b
    ensures AllUse(e1, {a, b}) && AllUse(e2, {a, b})
    ensures var s := Run(Init(dev), e1);
            !KeepsRows(s, Run(s, e2)) && !KeepsRead(s, Run(s, e2))
  {
    var e0 := ToStage3Run(dev, a);
    AllUseMore(e0, {a}, {a, b});
    ToStageRead(dev, a, b);
    ToStageGone(dev, a, b);
    UnreadAgain(dev, a);
    LosesRead(dev, a, Next(StageGone(dev, a), InsertNext(1, NoFault)));
    hide Next, Run, Stage3, StageRead, StageGone, KeepsRows, KeepsRead;
    var r1, r2 := [StartRead(3, 1), Acquire(3, b), CpeAnswers(3, true, true)], [LocalAnswers(3, true, true)];
    var d1, d2 := [StartDelete(2, 1), Acquire(2, b), CpeAnswers(2, true, true)], [LocalAnswers(2, true, true)];
    var d3 := [InsertNext(1, NoFault)];
    RunConcat(Init(dev), e0, r1);
    RunConcat(Init(dev), e0 + r1, r2);
    RunConcat(StageRead(dev, a), d1, d2);
    RunConcat(StageRead(dev, a), d1 + d2, d3);
    Run1(StageGone(dev, a), InsertNext(1, NoFault));
    e1, e2 := e0 + r1 + r2, d1 + d2 + d3;
  }

  lemma AtMostOne(objs: set<DeviceObj>) returns (o: DeviceObj)
    requires |objs| <= 1
    ensures objs <= {o}
  {
    o := 0;
    if objs != {} {
      o :| o in objs;
      assert |objs - {o}| == 0;
    }
  }

  lemma AllUseMore(evs: seq<Event>, objs: set<DeviceObj>, more: set<DeviceObj>)
    requires AllUse(evs, objs) && objs <= more
    ensures AllUse(evs, more)
  {
    forall i | 0 <= i < |evs| ensures Uses(evs[i], more) { assert Uses(evs[i], objs); }
  }

  /** In every run a message keeps its one row exactly when at most one Device object
      hands out leases; and on the same condition one marked read is never unread again. */
  lemma MessagesKeptExact(dev: string, objs: set<DeviceObj>)
    ensures (forall e1, e2 | AllUse(e1, objs) && AllUse(e2, objs) ::
               KeepsRows(Run(Init(dev), e1), Run(Run(Init(dev), e1), e2))) <==> |objs| <= 1
    ensures (forall e1, e2 | AllUse(e1, objs) && AllUse(e2, objs) ::
               KeepsRead(Run(Init(dev), e1), Run(Run(Init(dev), e1), e2))) <==> |objs| <= 1
  {
    hide Init, Run, AllUse, KeepsRows, KeepsRead;
    if |objs| <= 1 {
      var o := AtMostOne(objs);
      forall e1, e2 | AllUse(e1, objs) && AllUse(e2, objs)
        ensures KeepsRows(Run(Init(dev), e1), Run(Run(Init(dev), e1), e2))
        ensures KeepsRead(Run(Init(dev), e1), Run(Run(Init(dev), e1), e2))
      {
        AllUseMore(e1, objs, {o});
        AllUseMore(e2, objs, {o});
        OneObjectKeeps(dev, o, e1, e2);
      }
    } else {
      var a, b := TwoOf(objs);
      var e1, e2 := TwoObjectsLoseRead(dev, a, b);
      AllUseMore(e1, {a, b}, objs);
      AllUseMore(e2, {a, b}, objs);
    }
  }

  lemma TwoOf(objs: set<DeviceObj>) returns (a: DeviceObj, b: DeviceObj)
    requires |objs| > 1
    ensures a in objs && b in objs && a != b
  {
    a :| a in objs;
    assert |objs - {a}| > 0;
    b :| b in objs - {a};
  }

  /** What a successful mark-read means: the message's row is read, or it has no
      row because the CPE no longer has the message either. */
  lemma MarkReadMeans(s: System, o: DeviceObj, t: CallId)
    requires Inv(s, o) && t in s.calls && s.calls[t].ReadWritten?
    ensures var s' := Next(s, LocalAnswers(t, true, true));
            var k := s.calls[t].cpe;
            && s'.calls[t] == Finished(ReadMarked(s.calls[t].id, k))
            && (forall r :: r in s'.table.rows && Is(r, s.dev, k) ==> r.readLocal && r.status == 1)
            && (Stored(s', k) || Gone(s', k))
  {
    var s' := Next(s, LocalAnswers(t, true, true));
    var id, k := s.calls[t].id, s.calls[t].cpe;
    CallOkHere(s, t);
    assert Bound(s, id, k);
    PersistsNext(s, LocalAnswers(t, true, true));
    assert Bound(s', id, k);
    var rows1 := MarkRead(s.table.rows, s.dev, id);
    forall r | r in rows1 && Is(r, s.dev, k) ensures r.readLocal && r.status == 1 {
      var i :| 0 <= i < |rows1| && rows1[i] == r;
      assert s.table.rows[i] in s.table.rows && Is(s.table.rows[i], s.dev, k);
    }
  }
}
