/** One synchronisation round of the SMS mirror. */
module SmsSync {
  import opened Common
  import opened SmsTable

  /** A fetched message and the fault its Insert meets. */
  datatype Delivery = Delivery(m: Sms, fault: Fault)

  datatype Fetch = Fetched(ds: seq<Delivery>) | FetchFailed(kind: ErrKind)

  datatype Outcome = Skipped | LeaseError(kind: ErrKind) | FetchError(kind: ErrKind) | Synced(added: nat)

  /** Insert every delivery in order; a failed one is passed over. */
  function StoreAll(t: Table, dev: string, ds: seq<Delivery>): Table
    decreases |ds|
  {
    if ds == [] then t else StoreAll(Insert(t, dev, ds[0].m, ds[0].fault).0, dev, ds[1..])
  }

  function CountAdded(t: Table, dev: string, ds: seq<Delivery>): nat
    decreases |ds|
  {
    if ds == [] then 0
    else
      var (t1, res) := Insert(t, dev, ds[0].m, ds[0].fault);
      (if res == Stored(true) then 1 else 0) + CountAdded(t1, dev, ds[1..])
  }

  class Syncer {
    const dev: string
    const db: SmsDb
    var disabled: bool

    constructor (dev: string, db: SmsDb)
      ensures this.dev == dev && this.db == db && !disabled
    {
      this.dev, this.db, disabled := dev, db, false;
    }

    /** SyncOnce; lease is the error of Lease, fetch what GetMessages answers. */
    method SyncOnce(lease: Option<ErrKind>, fetch: Fetch) returns (out: Outcome)
      modifies this, db
      ensures old(disabled) ==> out == Skipped && disabled && db.View() == old(db.View())
      ensures !old(disabled) && lease.Some? ==>
        out == LeaseError(lease.value) && db.View() == old(db.View()) && disabled == lease.value.KindPermanent?
      ensures !old(disabled) && lease.None? && fetch.FetchFailed? ==>
        out == FetchError(fetch.kind) && db.View() == old(db.View())
        && disabled == (fetch.kind.KindUnsupported? || fetch.kind.KindPermanent?)
      ensures !old(disabled) && lease.None? && fetch.Fetched? ==>
        out == Synced(CountAdded(old(db.View()), dev, fetch.ds)) && !disabled
        && db.View() == StoreAll(old(db.View()), dev, fetch.ds)
    {
      if disabled {
        return Skipped;
      }
      if lease.Some? {
        if lease.value == KindPermanent {
          disabled := true;
        }
        return LeaseError(lease.value);
      }
      if fetch.FetchFailed? {
        if fetch.kind == KindUnsupported || fetch.kind == KindPermanent {
          disabled := true;
        }
        return FetchError(fetch.kind);
      }
      var ds := fetch.ds;
      var added := 0;
      var i := 0;
      while i < |ds|
        invariant 0 <= i <= |ds|
        invariant !disabled
        invariant StoreAll(db.View(), dev, ds[i..]) == StoreAll(old(db.View()), dev, ds)
        invariant added + CountAdded(db.View(), dev, ds[i..]) == CountAdded(old(db.View()), dev, ds)
      {
        assert ds[i..][0] == ds[i] && ds[i..][1..] == ds[i + 1..];
        var res := db.Store(dev, ds[i].m, ds[i].fault);
        i := i + 1;
        if res == StoreError {
          continue;
        }
        if res.added {
          added := added + 1;
        }
      }
      assert ds[i..] == [];
      return Synced(added);
    }
  }

  // ---- the declarative reading of a failure-free round ----

  function Clean(msgs: seq<Sms>): (ds: seq<Delivery>)
    ensures |ds| == |msgs|
  {
    seq(|msgs|, i requires 0 <= i < |msgs| => Delivery(msgs[i], NoFault))
  }

  /** The status last reported for cpe, or dflt. */
  function LastStatus(msgs: seq<Sms>, cpe: int, dflt: int): int {
    if msgs == [] then dflt
    else LastStatus(msgs[1..], cpe, if msgs[0].cpe == cpe then msgs[0].status else dflt)
  }

  predicate Reported(msgs: seq<Sms>, cpe: int) {
    msgs != [] && (msgs[0].cpe == cpe || Reported(msgs[1..], cpe))
  }

  function Cpes(msgs: seq<Sms>): set<int> {
    set m | m in msgs :: m.cpe
  }

  /** What a round does to a row that was there before it. */
  function Refresh(r: Row, dev: string, msgs: seq<Sms>): Row {
    if r.dev == dev then r.(status := LastStatus(msgs, r.cpe, r.status)) else r
  }

  function Known(rows: seq<Row>, dev: string): set<int> {
    set r | r in rows && r.dev == dev :: r.cpe
  }

  /** The first message of every index that is not known yet, in order. */
  function FreshFirsts(msgs: seq<Sms>, known: set<int>): seq<Sms> {
    if msgs == [] then []
    else if msgs[0].cpe in known then FreshFirsts(msgs[1..], known)
    else [msgs[0]] + FreshFirsts(msgs[1..], known + {msgs[0].cpe})
  }

  function RefreshAll(rows: seq<Row>, dev: string, msgs: seq<Sms>): (r: seq<Row>)
    ensures |r| == |rows|
  {
    seq(|rows|, i requires 0 <= i < |rows| => Refresh(rows[i], dev, msgs))
  }

  function FreshRows(firsts: seq<Sms>, nextId: nat, dev: string, msgs: seq<Sms>): (r: seq<Row>)
    ensures |r| == |firsts|
  {
    seq(|firsts|, i requires 0 <= i < |firsts| =>
      NewRow(nextId + i, dev, firsts[i]).(status := LastStatus(msgs, firsts[i].cpe, firsts[i].status)))
  }

  /** First writer wins: old rows keep everything but their status, each new
      index gets one row with the body of its first message, and every status is
      the last one reported. */
  function Mirrored(t: Table, dev: string, msgs: seq<Sms>): Table {
    var firsts := FreshFirsts(msgs, Known(t.rows, dev));
    Table(RefreshAll(t.rows, dev, msgs) + FreshRows(firsts, t.nextId, dev, msgs), t.nextId + |firsts|)
  }

  lemma {:induction false} FreshFirstsAreFresh(msgs: seq<Sms>, known: set<int>)
    ensures forall m :: m in FreshFirsts(msgs, known) ==> m in msgs && m.cpe !in known
    decreases |msgs|
  {
    if msgs != [] {
      if msgs[0].cpe in known {
        FreshFirstsAreFresh(msgs[1..], known);
      } else {
        FreshFirstsAreFresh(msgs[1..], known + {msgs[0].cpe});
      }
    }
  }

  lemma KnownHasKey(rows: seq<Row>, dev: string, cpe: int)
    ensures HasKey(rows, dev, cpe) <==> cpe in Known(rows, dev)
  {
    if HasKey(rows, dev, cpe) {
      var i :| 0 <= i < |rows| && Is(rows[i], dev, cpe);
      assert rows[i] in rows;
    }
    if cpe in Known(rows, dev) {
      var r :| r in rows && r.dev == dev && r.cpe == cpe;
      var i :| 0 <= i < |rows| && rows[i] == r;
      assert Is(rows[i], dev, cpe);
    }
  }

  lemma KnownAfterUpdate(rows: seq<Row>, dev: string, cpe: int, status: int)
    ensures Known(UpdateStatus(rows, dev, cpe, status), dev) == Known(rows, dev)
  {
    var rows1 := UpdateStatus(rows, dev, cpe, status);
    forall k | k in Known(rows, dev) ensures k in Known(rows1, dev) {
      var r :| r in rows && r.dev == dev && r.cpe == k;
      var i :| 0 <= i < |rows| && rows[i] == r;
      assert rows1[i] in rows1;
    }
    forall k | k in Known(rows1, dev) ensures k in Known(rows, dev) {
      var r :| r in rows1 && r.dev == dev && r.cpe == k;
      var i :| 0 <= i < |rows1| && rows1[i] == r;
      assert rows[i] in rows;
    }
  }

  /** One clean Insert, seen on the rows. */
  lemma InsertClean(t: Table, dev: string, m: Sms)
    ensures var t1 := Insert(t, dev, m, NoFault).0;
            && (m.cpe in Known(t.rows, dev) ==>
                  t1 == t.(rows := UpdateStatus(t.rows, dev, m.cpe, m.status))
                  && Insert(t, dev, m, NoFault).1 == Stored(false))
            && (m.cpe !in Known(t.rows, dev) ==>
                  t1 == Table(t.rows + [NewRow(t.nextId, dev, m)], t.nextId + 1)
                  && Insert(t, dev, m, NoFault).1 == Stored(true))
    ensures Known(Insert(t, dev, m, NoFault).0.rows, dev) == Known(t.rows, dev) + {m.cpe}
  {
    var rows1 := UpdateStatus(t.rows, dev, m.cpe, m.status);
    KnownHasKey(t.rows, dev, m.cpe);
    KnownHasKey(rows1, dev, m.cpe);
    KnownAfterUpdate(t.rows, dev, m.cpe, m.status);
    if m.cpe !in Known(t.rows, dev) {
      assert rows1 == t.rows;
      var n := NewRow(t.nextId, dev, m);
      assert forall r :: r in t.rows + [n] <==> r in t.rows || r == n;
    }
  }

  lemma {:induction false} StoreAllMirrors(t: Table, dev: string, msgs: seq<Sms>)
    ensures StoreAll(t, dev, Clean(msgs)) == Mirrored(t, dev, msgs)
    ensures CountAdded(t, dev, Clean(msgs)) == |FreshFirsts(msgs, Known(t.rows, dev))|
    decreases |msgs|
  {
    if msgs == [] {
      assert RefreshAll(t.rows, dev, msgs) == t.rows;
    } else {
      var m, rest := msgs[0], msgs[1..];
      var t1 := Insert(t, dev, m, NoFault).0;
      assert Clean(msgs)[1..] == Clean(rest);
      InsertClean(t, dev, m);
      StoreAllMirrors(t1, dev, rest);
      MirroredStep(t, dev, msgs);
      hide Mirrored, Insert;
    }
  }

  lemma MirroredStepKnown(t: Table, dev: string, msgs: seq<Sms>)
    requires msgs != [] && msgs[0].cpe in Known(t.rows, dev)
    ensures Mirrored(t.(rows := UpdateStatus(t.rows, dev, msgs[0].cpe, msgs[0].status)), dev, msgs[1..])
         == Mirrored(t, dev, msgs)
  {
    var m, rest := msgs[0], msgs[1..];
    var known := Known(t.rows, dev);
    var rows1 := UpdateStatus(t.rows, dev, m.cpe, m.status);
    KnownAfterUpdate(t.rows, dev, m.cpe, m.status);
    FreshFirstsAreFresh(rest, known);
    hide Known;
    var firsts := FreshFirsts(msgs, known);
    assert RefreshAll(rows1, dev, rest) == RefreshAll(t.rows, dev, msgs);
    forall i | 0 <= i < |firsts|
      ensures LastStatus(msgs, firsts[i].cpe, firsts[i].status) == LastStatus(rest, firsts[i].cpe, firsts[i].status)
    {
      assert firsts[i] in firsts;
    }
    assert FreshRows(firsts, t.nextId, dev, rest) == FreshRows(firsts, t.nextId, dev, msgs);
  }

  /** The rows of the first-seen messages, with the first of them split off. */
  lemma FreshRowsCons(m: Sms, f1: seq<Sms>, id: nat, dev: string, msgs: seq<Sms>)
    requires msgs != [] && m == msgs[0]
    requires forall f :: f in f1 ==> f.cpe != m.cpe
    ensures FreshRows([m] + f1, id, dev, msgs)
         == [Refresh(NewRow(id, dev, m), dev, msgs[1..])] + FreshRows(f1, id + 1, dev, msgs[1..])
  {
    forall i | 0 <= i < |f1|
      ensures LastStatus(msgs, f1[i].cpe, f1[i].status) == LastStatus(msgs[1..], f1[i].cpe, f1[i].status)
    {
      assert f1[i] in f1;
    }
    var a := FreshRows([m] + f1, id, dev, msgs);
    var b := [Refresh(NewRow(id, dev, m), dev, msgs[1..])] + FreshRows(f1, id + 1, dev, msgs[1..]);
    assert a[0] == b[0];
    assert forall j :: 1 <= j < |a| ==> a[j] == b[j];
  }

  lemma MirroredStepNew(t: Table, dev: string, msgs: seq<Sms>)
    requires msgs != [] && msgs[0].cpe !in Known(t.rows, dev)
    requires Known(t.rows + [NewRow(t.nextId, dev, msgs[0])], dev) == Known(t.rows, dev) + {msgs[0].cpe}
    ensures Mirrored(Table(t.rows + [NewRow(t.nextId, dev, msgs[0])], t.nextId + 1), dev, msgs[1..])
         == Mirrored(t, dev, msgs)
  {
    var m, rest := msgs[0], msgs[1..];
    var known := Known(t.rows, dev);
    var n := NewRow(t.nextId, dev, m);
    var f1 := FreshFirsts(rest, known + {m.cpe});
    FreshFirstsAreFresh(rest, known + {m.cpe});
    forall i | 0 <= i < |t.rows| ensures Refresh(t.rows[i], dev, rest) == Refresh(t.rows[i], dev, msgs) {
      assert t.rows[i] in t.rows;
    }
    hide Known;
    assert RefreshAll(t.rows + [n], dev, rest) == RefreshAll(t.rows, dev, msgs) + [Refresh(n, dev, rest)];
    FreshRowsCons(m, f1, t.nextId, dev, msgs);
  }

  lemma MirroredStep(t: Table, dev: string, msgs: seq<Sms>)
    requires msgs != []
    ensures Mirrored(Insert(t, dev, msgs[0], NoFault).0, dev, msgs[1..]) == Mirrored(t, dev, msgs)
  {
    InsertClean(t, dev, msgs[0]);
    hide Insert, Mirrored;
    if msgs[0].cpe in Known(t.rows, dev) {
      MirroredStepKnown(t, dev, msgs);
    } else {
      MirroredStepNew(t, dev, msgs);
    }
  }

  // ---- consequences ----

  lemma {:induction false} LastStatusReported(msgs: seq<Sms>, cpe: int, a: int, b: int)
    ensures Reported(msgs, cpe) ==> LastStatus(msgs, cpe, a) == LastStatus(msgs, cpe, b)
    ensures !Reported(msgs, cpe) ==> LastStatus(msgs, cpe, a) == a
    decreases |msgs|
  {
    if msgs != [] {
      var a' := if msgs[0].cpe == cpe then msgs[0].status else a;
      var b' := if msgs[0].cpe == cpe then msgs[0].status else b;
      LastStatusReported(msgs[1..], cpe, a', b');
    }
  }

  lemma {:induction false} ReportedCpes(msgs: seq<Sms>, cpe: int)
    ensures Reported(msgs, cpe) <==> cpe in Cpes(msgs)
    decreases |msgs|
  {
    if msgs != [] {
      ReportedCpes(msgs[1..], cpe);
      assert forall m :: m in msgs <==> m == msgs[0] || m in msgs[1..];
    }
  }

  lemma CpesCons(msgs: seq<Sms>)
    requires msgs != []
    ensures Cpes(msgs) == {msgs[0].cpe} + Cpes(msgs[1..])
  {
    assert forall m :: m in msgs <==> m == msgs[0] || m in msgs[1..];
  }

  /** The first-seen messages have exactly the new indices, each once. */
  lemma {:induction false} FreshFirstsCover(msgs: seq<Sms>, known: set<int>)
    ensures Cpes(FreshFirsts(msgs, known)) == Cpes(msgs) - known
    ensures |FreshFirsts(msgs, known)| == |Cpes(msgs) - known|
    decreases |msgs|
  {
    if msgs != [] {
      CpesCons(msgs);
      var k, rest := msgs[0].cpe, msgs[1..];
      AddOne(k, Cpes(rest), known);
      if k in known {
        FreshFirstsCover(rest, known);
      } else {
        FreshFirstsCover(rest, known + {k});
        CpesCons(FreshFirsts(msgs, known));
        assert FreshFirsts(msgs, known)[1..] == FreshFirsts(rest, known + {k});
      }
      hide Cpes;
    }
  }

  lemma AddOne(k: int, s: set<int>, known: set<int>)
    ensures k in known ==> ({k} + s) - known == s - known
    ensures k !in known ==> ({k} + s) - known == {k} + (s - (known + {k}))
    ensures k !in known ==> |({k} + s) - known| == 1 + |s - (known + {k})|
  {
    if k !in known { assert ({k} + s) - known == {k} + (s - (known + {k})); }
  }

  /** A failure-free round reports the number of distinct indices it had not stored before. */
  lemma RoundCountsNew(t: Table, dev: string, msgs: seq<Sms>)
    ensures CountAdded(t, dev, Clean(msgs)) == |Cpes(msgs) - Known(t.rows, dev)|
  {
    StoreAllMirrors(t, dev, msgs);
    FreshFirstsCover(msgs, Known(t.rows, dev));
  }

  lemma RefreshKeepsKnown(rows: seq<Row>, dev: string, msgs: seq<Sms>)
    ensures Known(RefreshAll(rows, dev, msgs), dev) == Known(rows, dev)
  {
    var rows1 := RefreshAll(rows, dev, msgs);
    forall k | k in Known(rows, dev) ensures k in Known(rows1, dev) {
      var r :| r in rows && r.dev == dev && r.cpe == k;
      var i :| 0 <= i < |rows| && rows[i] == r;
      assert rows1[i] in rows1;
    }
    forall k | k in Known(rows1, dev) ensures k in Known(rows, dev) {
      var r :| r in rows1 && r.dev == dev && r.cpe == k;
      var i :| 0 <= i < |rows1| && rows1[i] == r;
      assert rows[i] in rows;
    }
  }

  lemma FreshRowsKnown(firsts: seq<Sms>, nextId: nat, dev: string, msgs: seq<Sms>)
    ensures Known(FreshRows(firsts, nextId, dev, msgs), dev) == Cpes(firsts)
  {
    var rows := FreshRows(firsts, nextId, dev, msgs);
    forall k | k in Cpes(firsts) ensures k in Known(rows, dev) {
      var m :| m in firsts && m.cpe == k;
      var i :| 0 <= i < |firsts| && firsts[i] == m;
      assert rows[i] in rows;
    }
    forall k | k in Known(rows, dev) ensures k in Cpes(firsts) {
      var r :| r in rows && r.cpe == k;
      var i :| 0 <= i < |rows| && rows[i] == r;
      assert firsts[i] in firsts;
    }
  }

  lemma KnownConcat(a: seq<Row>, b: seq<Row>, dev: string)
    ensures Known(a + b, dev) == Known(a, dev) + Known(b, dev)
  {
  }

  /** After a failure-free round every reported index is stored, and no other is new. */
  lemma MirroredKnown(t: Table, dev: string, msgs: seq<Sms>)
    ensures Known(Mirrored(t, dev, msgs).rows, dev) == Known(t.rows, dev) + Cpes(msgs)
  {
    var firsts := FreshFirsts(msgs, Known(t.rows, dev));
    RefreshKeepsKnown(t.rows, dev, msgs);
    FreshRowsKnown(firsts, t.nextId, dev, msgs);
    FreshFirstsCover(msgs, Known(t.rows, dev));
    KnownConcat(RefreshAll(t.rows, dev, msgs), FreshRows(firsts, t.nextId, dev, msgs), dev);
  }

  /** Whatever the table held before, a row of dev leaves the round with the
      status last reported for its index, if any was. */
  lemma MirroredStatus(t: Table, dev: string, msgs: seq<Sms>, r: Row)
    requires r in Mirrored(t, dev, msgs).rows && r.dev == dev
    ensures r.status == LastStatus(msgs, r.cpe, r.status)
  {
    var firsts := FreshFirsts(msgs, Known(t.rows, dev));
    FreshFirstsAreFresh(msgs, Known(t.rows, dev));
    var rows1, rows2 := RefreshAll(t.rows, dev, msgs), FreshRows(firsts, t.nextId, dev, msgs);
    var i :| 0 <= i < |rows1 + rows2| && (rows1 + rows2)[i] == r;
    if i < |rows1| {
      LastStatusReported(msgs, r.cpe, t.rows[i].status, r.status);
    } else {
      LastStatusReported(msgs, r.cpe, firsts[i - |rows1|].status, r.status);
      ReportedCpes(msgs, r.cpe);
      assert firsts[i - |rows1|] in firsts;
    }
  }

  /** Repeating the round adds nothing and leaves every row as it is. */
  lemma RoundRepeats(t: Table, dev: string, msgs: seq<Sms>)
    ensures var t1 := StoreAll(t, dev, Clean(msgs));
            StoreAll(t1, dev, Clean(msgs)) == t1 && CountAdded(t1, dev, Clean(msgs)) == 0
  {
    StoreAllMirrors(t, dev, msgs);
    var t1 := StoreAll(t, dev, Clean(msgs));
    StoreAllMirrors(t1, dev, msgs);
    MirroredKnown(t, dev, msgs);
    RoundCountsNew(t1, dev, msgs);
    assert Cpes(msgs) - Known(t1.rows, dev) == {};
    forall i | 0 <= i < |t1.rows| ensures Refresh(t1.rows[i], dev, msgs) == t1.rows[i] {
      if t1.rows[i].dev == dev { MirroredStatus(t, dev, msgs, t1.rows[i]); }
    }
    assert RefreshAll(t1.rows, dev, msgs) == t1.rows;
  }

  lemma {:induction false} StoreAllOk(t: Table, dev: string, ds: seq<Delivery>)
    requires TableOk(t)
    ensures TableOk(StoreAll(t, dev, ds))
    decreases |ds|
  {
    if ds != [] {
      InsertOk(t, dev, ds[0].m, ds[0].fault);
      StoreAllOk(Insert(t, dev, ds[0].m, ds[0].fault).0, dev, ds[1..]);
    }
  }
}
