/** What a failure-free round makes of an earlier round in which some inserts failed. */
module SmsRecovery {
  import opened SmsTable
  import opened SmsSync

  predicate SameBody(a: Sms, b: Sms) {
    a.phone == b.phone && a.content == b.content && a.receivedAt == b.receivedAt
  }

  /** Messages that share an index the table does not know yet also share their body. */
  ghost predicate Consistent(t: Table, dev: string, msgs: seq<Sms>) {
    forall i, j ::
      0 <= i < |msgs| && 0 <= j < |msgs| && msgs[i].cpe == msgs[j].cpe && msgs[i].cpe !in Known(t.rows, dev)
      ==> SameBody(msgs[i], msgs[j])
  }

  function Messages(ds: seq<Delivery>): (msgs: seq<Sms>)
    ensures |msgs| == |ds|
  {
    seq(|ds|, i requires 0 <= i < |ds| => ds[i].m)
  }

  /** A table up to the local ids. */
  function Bodies(t: Table): set<Row> {
    set r | r in t.rows :: r.(id := 0)
  }

  ghost predicate FromMessage(r: Row, m: Sms, dev: string) {
    r.dev == dev && !r.readLocal && r.cpe == m.cpe
    && r.phone == m.phone && r.content == m.content && r.receivedAt == m.receivedAt
  }

  ghost predicate FreshFrom(r: Row, t: Table, dev: string, msgs: seq<Sms>) {
    r.cpe !in Known(t.rows, dev) && exists m :: m in msgs && FromMessage(r, m, dev)
  }

  /** What u, grown from t by storing messages among msgs, can look like. */
  ghost predicate Grown(t: Table, dev: string, msgs: seq<Sms>, u: Table) {
    && |t.rows| <= |u.rows|
    && (forall i :: 0 <= i < |t.rows| ==> u.rows[i] == t.rows[i].(status := u.rows[i].status))
    && (forall i :: 0 <= i < |t.rows| && (t.rows[i].dev != dev || t.rows[i].cpe !in Cpes(msgs)) ==>
          u.rows[i] == t.rows[i])
    && (forall i :: |t.rows| <= i < |u.rows| ==> FreshFrom(u.rows[i], t, dev, msgs))
  }

  lemma GrownKnows(t: Table, dev: string, msgs: seq<Sms>, u: Table)
    requires Grown(t, dev, msgs, u)
    ensures Known(t.rows, dev) <= Known(u.rows, dev) <= Known(t.rows, dev) + Cpes(msgs)
  {
    forall k | k in Known(t.rows, dev) ensures k in Known(u.rows, dev) {
      var r :| r in t.rows && r.dev == dev && r.cpe == k;
      var i :| 0 <= i < |t.rows| && t.rows[i] == r;
      assert u.rows[i] in u.rows;
    }
    forall k | k in Known(u.rows, dev) ensures k in Known(t.rows, dev) + Cpes(msgs) {
      var r :| r in u.rows && r.dev == dev && r.cpe == k;
      var i :| 0 <= i < |u.rows| && u.rows[i] == r;
      if i < |t.rows| { assert t.rows[i] in t.rows; }
    }
  }

  lemma GrownInsert(t: Table, dev: string, msgs: seq<Sms>, u: Table, m: Sms, fault: Fault)
    requires Grown(t, dev, msgs, u) && m in msgs
    ensures Grown(t, dev, msgs, Insert(u, dev, m, fault).0)
  {
    var u1 := u.(rows := UpdateStatus(u.rows, dev, m.cpe, m.status));
    GrownUpdate(t, dev, msgs, u, m);
    GrownKnows(t, dev, msgs, u1);
    KnownHasKey(u1.rows, dev, m.cpe);
    var n := NewRow(u1.nextId, dev, m);
    if m.cpe !in Known(u1.rows, dev) {
      assert FromMessage(n, m, dev);
      assert FreshFrom(n, t, dev, msgs);
    }
    hide FreshFrom, UpdateStatus, HasKey;
  }

  lemma GrownUpdate(t: Table, dev: string, msgs: seq<Sms>, u: Table, m: Sms)
    requires Grown(t, dev, msgs, u) && m in msgs
    ensures Grown(t, dev, msgs, u.(rows := UpdateStatus(u.rows, dev, m.cpe, m.status)))
  {
    var rows1 := UpdateStatus(u.rows, dev, m.cpe, m.status);
    forall i | |t.rows| <= i < |u.rows| ensures FreshFrom(rows1[i], t, dev, msgs) {
      assert FreshFrom(u.rows[i], t, dev, msgs);
      var m' :| m' in msgs && FromMessage(u.rows[i], m', dev);
      assert FromMessage(rows1[i], m', dev);
    }
  }

  lemma {:induction false} GrownStoreAll(t: Table, dev: string, msgs: seq<Sms>, u: Table, ds: seq<Delivery>)
    requires Grown(t, dev, msgs, u) && forall i :: 0 <= i < |ds| ==> ds[i].m in msgs
    ensures Grown(t, dev, msgs, StoreAll(u, dev, ds))
    decreases |ds|
  {
    if ds != [] {
      GrownInsert(t, dev, msgs, u, ds[0].m, ds[0].fault);
      hide Grown, Insert;
      GrownStoreAll(t, dev, msgs, Insert(u, dev, ds[0].m, ds[0].fault).0, ds[1..]);
    }
  }

  ghost predicate StatusCurrent(u: Table, dev: string, msgs: seq<Sms>) {
    forall r :: r in u.rows && r.dev == dev ==> r.status == LastStatus(msgs, r.cpe, r.status)
  }

  /** Two tables grown from t that agree on the known indices and hold current
      statuses: every row of one has its counterpart in the other. */
  lemma BodiesWithin(t: Table, dev: string, msgs: seq<Sms>, a: Table, b: Table)
    requires Grown(t, dev, msgs, a) && Grown(t, dev, msgs, b) && Consistent(t, dev, msgs)
    requires StatusCurrent(a, dev, msgs) && StatusCurrent(b, dev, msgs)
    requires Known(a.rows, dev) == Known(b.rows, dev)
    ensures Bodies(a) <= Bodies(b)
  {
    forall r | r in a.rows ensures r.(id := 0) in Bodies(b) {
      var i :| 0 <= i < |a.rows| && a.rows[i] == r;
      if i < |t.rows| { OldRowTwin(t, dev, msgs, a, b, i); } else { NewRowTwin(t, dev, msgs, a, b, i); }
    }
  }

  lemma OldRowTwin(t: Table, dev: string, msgs: seq<Sms>, a: Table, b: Table, i: nat)
    requires Grown(t, dev, msgs, a) && Grown(t, dev, msgs, b)
    requires StatusCurrent(a, dev, msgs) && StatusCurrent(b, dev, msgs)
    requires i < |t.rows|
    ensures i < |a.rows| && a.rows[i].(id := 0) in Bodies(b)
  {
    assert a.rows[i] in a.rows && b.rows[i] in b.rows;
    var r := a.rows[i];
    hide Reported, LastStatus;
    ReportedCpes(msgs, r.cpe);
    LastStatusReported(msgs, r.cpe, r.status, b.rows[i].status);
    assert r.(id := 0) == b.rows[i].(id := 0);
  }

  lemma NewRowTwin(t: Table, dev: string, msgs: seq<Sms>, a: Table, b: Table, i: nat)
    requires Grown(t, dev, msgs, a) && Grown(t, dev, msgs, b) && Consistent(t, dev, msgs)
    requires StatusCurrent(a, dev, msgs) && StatusCurrent(b, dev, msgs)
    requires Known(a.rows, dev) == Known(b.rows, dev)
    requires |t.rows| <= i < |a.rows|
    ensures a.rows[i].(id := 0) in Bodies(b)
  {
    var r := a.rows[i];
    assert FreshFrom(r, t, dev, msgs) && r in a.rows && r.cpe in Known(a.rows, dev);
    var q :| q in b.rows && q.dev == dev && q.cpe == r.cpe;
    var j :| 0 <= j < |b.rows| && b.rows[j] == q;
    assert forall x :: 0 <= x < |t.rows| ==> t.rows[x] in t.rows;
    hide Reported, LastStatus, Consistent;
    FreshTwins(t, dev, msgs, r, q);
    ReportedCpes(msgs, r.cpe);
    LastStatusReported(msgs, r.cpe, r.status, q.status);
    assert r.(id := 0) == q.(id := 0);
  }

  lemma FreshTwins(t: Table, dev: string, msgs: seq<Sms>, r: Row, q: Row)
    requires Consistent(t, dev, msgs) && FreshFrom(r, t, dev, msgs) && FreshFrom(q, t, dev, msgs) && r.cpe == q.cpe
    ensures q == r.(id := q.id, status := q.status)
    ensures r.cpe in Cpes(msgs)
  {
    var m :| m in msgs && FromMessage(r, m, dev);
    var n :| n in msgs && FromMessage(q, n, dev);
    var i :| 0 <= i < |msgs| && msgs[i] == m;
    var j :| 0 <= j < |msgs| && msgs[j] == n;
    assert SameBody(msgs[i], msgs[j]);
  }

  lemma CleanIsCurrent(u: Table, dev: string, msgs: seq<Sms>)
    ensures var v := StoreAll(u, dev, Clean(msgs));
            StatusCurrent(v, dev, msgs) && Known(v.rows, dev) == Known(u.rows, dev) + Cpes(msgs)
  {
    StoreAllMirrors(u, dev, msgs);
    MirroredKnown(u, dev, msgs);
    forall r | r in Mirrored(u, dev, msgs).rows && r.dev == dev ensures r.status == LastStatus(msgs, r.cpe, r.status) {
      MirroredStatus(u, dev, msgs, r);
    }
  }

  /** The state a failing round and a clean one leave together equals, but for
      local ids, what the clean one alone would have left. */
  ghost predicate Recovers(t: Table, dev: string, ds: seq<Delivery>) {
    Bodies(StoreAll(StoreAll(t, dev, ds), dev, Clean(Messages(ds)))) == Bodies(StoreAll(t, dev, Clean(Messages(ds))))
  }

  lemma ConsistentRecovers(t: Table, dev: string, ds: seq<Delivery>)
    requires Consistent(t, dev, Messages(ds))
    ensures Recovers(t, dev, ds)
  {
    var msgs := Messages(ds);
    forall i | 0 <= i < |ds| ensures ds[i].m in msgs {
      assert msgs[i] in msgs;
    }
    var faulty := StoreAll(t, dev, ds);
    assert Grown(t, dev, msgs, t);
    GrownStoreAll(t, dev, msgs, t, ds);
    GrownStoreAll(t, dev, msgs, t, Clean(msgs));
    GrownStoreAll(t, dev, msgs, faulty, Clean(msgs));
    GrownKnows(t, dev, msgs, faulty);
    CleanIsCurrent(t, dev, msgs);
    CleanIsCurrent(faulty, dev, msgs);
    var a, b := StoreAll(t, dev, Clean(msgs)), StoreAll(faulty, dev, Clean(msgs));
    hide Grown, Consistent, StatusCurrent, StoreAll, Known, Cpes;
    BodiesWithin(t, dev, msgs, a, b);
    BodiesWithin(t, dev, msgs, b, a);
  }

  // ---- and only then ----

  /** A round in which only the message at x is stored. */
  function Only(msgs: seq<Sms>, x: int): (ds: seq<Delivery>)
    ensures |ds| == |msgs| && Messages(ds) == msgs
  {
    var ds := seq(|msgs|, i requires 0 <= i < |msgs| => Delivery(msgs[i], if i == x then NoFault else UpdateFails));
    assert Messages(ds) == msgs;
    ds
  }

  lemma {:induction false} OnlyStores(t: Table, dev: string, msgs: seq<Sms>, x: int)
    ensures StoreAll(t, dev, Only(msgs, x)) == if 0 <= x < |msgs| then Insert(t, dev, msgs[x], NoFault).0 else t
    decreases |msgs|
  {
    if msgs != [] {
      assert Only(msgs, x)[1..] == Only(msgs[1..], x - 1);
      var t1 := if x == 0 then Insert(t, dev, msgs[0], NoFault).0 else t;
      assert StoreAll(t, dev, Only(msgs, x)) == StoreAll(t1, dev, Only(msgs[1..], x - 1));
      OnlyStores(t1, dev, msgs[1..], x - 1);
    }
  }

  /** If only msgs[x] got through, its body is there for good. */
  lemma OnlyStays(t: Table, dev: string, msgs: seq<Sms>, x: int)
    requires 0 <= x < |msgs| && msgs[x].cpe !in Known(t.rows, dev)
    ensures exists r ::
      r in StoreAll(StoreAll(t, dev, Only(msgs, x)), dev, Clean(msgs)).rows && FromMessage(r, msgs[x], dev)
  {
    OnlyStores(t, dev, msgs, x);
    InsertClean(t, dev, msgs[x]);
    var u := Insert(t, dev, msgs[x], NoFault).0;
    assert u.rows[|t.rows|] == NewRow(t.nextId, dev, msgs[x]);
    StoreAllMirrors(u, dev, msgs);
    var v := Mirrored(u, dev, msgs);
    assert v.rows[|t.rows|] == Refresh(u.rows[|t.rows|], dev, msgs);
    assert v.rows[|t.rows|] in v.rows && FromMessage(v.rows[|t.rows|], msgs[x], dev);
  }

  lemma OneRowPerKey(t: Table, r: Row, q: Row)
    requires TableOk(t) && r in t.rows && q in t.rows && r.dev == q.dev && r.cpe == q.cpe
    ensures r == q
  {
    var i :| 0 <= i < |t.rows| && t.rows[i] == r;
    var j :| 0 <= j < |t.rows| && t.rows[j] == q;
    assert Is(t.rows[j], t.rows[i].dev, t.rows[i].cpe) && Is(t.rows[i], t.rows[j].dev, t.rows[j].cpe);
  }

  lemma InconsistentLoses(t: Table, dev: string, msgs: seq<Sms>, i: int, j: int)
    requires TableOk(t) && 0 <= i < |msgs| && 0 <= j < |msgs|
    requires msgs[i].cpe == msgs[j].cpe && msgs[i].cpe !in Known(t.rows, dev) && !SameBody(msgs[i], msgs[j])
    ensures !Recovers(t, dev, Only(msgs, i)) || !Recovers(t, dev, Only(msgs, j))
  {
    if Recovers(t, dev, Only(msgs, i)) && Recovers(t, dev, Only(msgs, j)) {
      OnlyStays(t, dev, msgs, i);
      OnlyStays(t, dev, msgs, j);
      var u := StoreAll(t, dev, Clean(msgs));
      StoreAllOk(t, dev, Clean(msgs));
      var a := StoreAll(StoreAll(t, dev, Only(msgs, i)), dev, Clean(msgs));
      var b := StoreAll(StoreAll(t, dev, Only(msgs, j)), dev, Clean(msgs));
      assert Bodies(a) == Bodies(u) == Bodies(b);
      hide StoreAll;
      var r :| r in a.rows && FromMessage(r, msgs[i], dev);
      var q :| q in b.rows && FromMessage(q, msgs[j], dev);
      assert r.(id := 0) in Bodies(u) && q.(id := 0) in Bodies(u);
      var r' :| r' in u.rows && r'.(id := 0) == r.(id := 0);
      var q' :| q' in u.rows && q'.(id := 0) == q.(id := 0);
      OneRowPerKey(u, r', q');
    }
  }

  /** A failure-free round repairs every possible earlier one exactly when
      messages with the same new index have the same body. */
  lemma RecoveryExact(t: Table, dev: string, msgs: seq<Sms>)
    requires TableOk(t)
    ensures (forall ds: seq<Delivery> :: Messages(ds) == msgs ==> Recovers(t, dev, ds)) <==> Consistent(t, dev, msgs)
  {
    if Consistent(t, dev, msgs) {
      forall ds: seq<Delivery> | Messages(ds) == msgs ensures Recovers(t, dev, ds) {
        ConsistentRecovers(t, dev, ds);
      }
    } else {
      var i, j :| 0 <= i < |msgs| && 0 <= j < |msgs| && msgs[i].cpe == msgs[j].cpe
                  && msgs[i].cpe !in Known(t.rows, dev) && !SameBody(msgs[i], msgs[j]);
      InconsistentLoses(t, dev, msgs, i, j);
    }
  }
}
