/** The sms table and the statements the daemon runs against it.  A statement
    either takes effect as a whole or fails; which statements fail is chosen by
    the environment. */
module SmsTable {
  import opened Common
  import opened SmsSearch

  datatype Row = Row(id: nat, dev: string, cpe: int, phone: string, content: string,
                     status: int, receivedAt: int, readLocal: bool)

  /** A message as the CPE reports it. */
  datatype Sms = Sms(cpe: int, phone: string, content: string, status: int, receivedAt: int)

  /** Rows in insertion order; ids come from AUTOINCREMENT and are never reused. */
  datatype Table = Table(rows: seq<Row>, nextId: nat)

  /** Which statement of one Insert call fails, if any. */
  datatype Fault = NoFault | UpdateFails | InsertFails | RowCountFails

  datatype InsertResult = Stored(added: bool) | StoreError

  predicate Unread(r: Row) {
    r.status == 0 && !r.readLocal
  }

  predicate Is(r: Row, dev: string, cpe: int) {
    r.dev == dev && r.cpe == cpe
  }

  predicate HasKey(rows: seq<Row>, dev: string, cpe: int) {
    exists i :: 0 <= i < |rows| && Is(rows[i], dev, cpe)
  }

  /** Ids ascend below nextId, and (dev, cpe) is unique. */
  predicate TableOk(t: Table) {
    && (forall i :: 0 <= i < |t.rows| ==> t.rows[i].id < t.nextId)
    && (forall i, j :: 0 <= i < j < |t.rows| ==> t.rows[i].id < t.rows[j].id)
    && (forall i, j :: 0 <= i < j < |t.rows| ==> !Is(t.rows[j], t.rows[i].dev, t.rows[i].cpe))
  }

  // ---- statements ----

  /** UPDATE sms SET status = ? WHERE device_id = ? AND cpe_index = ? */
  function UpdateStatus(rows: seq<Row>, dev: string, cpe: int, status: int): (r: seq<Row>)
    ensures |r| == |rows|
  {
    seq(|rows|, i requires 0 <= i < |rows| => if Is(rows[i], dev, cpe) then rows[i].(status := status) else rows[i])
  }

  function NewRow(id: nat, dev: string, m: Sms): Row {
    Row(id, dev, m.cpe, m.phone, m.content, m.status, m.receivedAt, false)
  }

  /** INSERT OR IGNORE under the unique index. */
  function InsertOrIgnore(t: Table, dev: string, m: Sms): Table {
    if HasKey(t.rows, dev, m.cpe) then t else Table(t.rows + [NewRow(t.nextId, dev, m)], t.nextId + 1)
  }

  function Insert(t: Table, dev: string, m: Sms, fault: Fault): (Table, InsertResult) {
    if fault.UpdateFails? then (t, StoreError)
    else
      var t1 := t.(rows := UpdateStatus(t.rows, dev, m.cpe, m.status));
      if fault.InsertFails? then (t1, StoreError)
      else
        var t2 := InsertOrIgnore(t1, dev, m);
        if fault.RowCountFails? then (t2, StoreError) else (t2, Stored(|t2.rows| > |t1.rows|))
  }

  function MarkRead(rows: seq<Row>, dev: string, id: nat): (r: seq<Row>)
    ensures |r| == |rows|
  {
    seq(|rows|, i requires 0 <= i < |rows| =>
      if rows[i].id == id && rows[i].dev == dev then rows[i].(status := 1, readLocal := true) else rows[i])
  }

  function DeleteLocal(rows: seq<Row>, dev: string, id: nat): seq<Row> {
    if rows == [] then []
    else if rows[0].id == id && rows[0].dev == dev then DeleteLocal(rows[1..], dev, id)
    else [rows[0]] + DeleteLocal(rows[1..], dev, id)
  }

  function Get(rows: seq<Row>, dev: string, id: nat): Option<Row> {
    if rows == [] then None
    else if rows[0].id == id && rows[0].dev == dev then Some(rows[0])
    else Get(rows[1..], dev, id)
  }

  lemma DeleteLocalRows(rows: seq<Row>, dev: string, id: nat)
    ensures forall r :: r in DeleteLocal(rows, dev, id) <==> r in rows && !(r.id == id && r.dev == dev)
  {
    if rows != [] {
      DeleteLocalRows(rows[1..], dev, id);
    }
  }

  lemma GetRow(rows: seq<Row>, dev: string, id: nat)
    ensures match Get(rows, dev, id)
            case Some(r) => r in rows && r.id == id && r.dev == dev
            case None => forall r :: r in rows ==> !(r.id == id && r.dev == dev)
  {
    if rows != [] {
      GetRow(rows[1..], dev, id);
    }
  }

  // ---- every statement keeps the table well formed ----

  /** Statements that only touch status and readLocal keep ids and keys. */
  lemma SameKeysOk(t: Table, rows: seq<Row>)
    requires TableOk(t) && |rows| == |t.rows|
    requires forall i :: 0 <= i < |rows| ==>
      rows[i].id == t.rows[i].id && rows[i].dev == t.rows[i].dev && rows[i].cpe == t.rows[i].cpe
    ensures TableOk(t.(rows := rows))
  {
  }

  lemma InsertOrIgnoreOk(t: Table, dev: string, m: Sms)
    requires TableOk(t)
    ensures TableOk(InsertOrIgnore(t, dev, m))
  {
    if !HasKey(t.rows, dev, m.cpe) {
      var t' := InsertOrIgnore(t, dev, m);
      assert forall i :: 0 <= i < |t.rows| ==> t'.rows[i] == t.rows[i];
      assert forall i :: 0 <= i < |t.rows| ==> !Is(t.rows[i], dev, m.cpe);
      hide HasKey;
    }
  }

  lemma InsertOk(t: Table, dev: string, m: Sms, fault: Fault)
    requires TableOk(t)
    ensures TableOk(Insert(t, dev, m, fault).0)
    ensures t.nextId <= Insert(t, dev, m, fault).0.nextId
  {
    var t1 := t.(rows := UpdateStatus(t.rows, dev, m.cpe, m.status));
    SameKeysOk(t, t1.rows);
    InsertOrIgnoreOk(t1, dev, m);
    hide TableOk, UpdateStatus;
  }

  lemma MarkReadOk(t: Table, dev: string, id: nat)
    requires TableOk(t)
    ensures TableOk(t.(rows := MarkRead(t.rows, dev, id)))
  {
    SameKeysOk(t, MarkRead(t.rows, dev, id));
  }

  lemma TailOk(t: Table)
    requires TableOk(t) && t.rows != []
    ensures TableOk(t.(rows := t.rows[1..]))
    ensures forall r :: r in t.rows[1..] ==> t.rows[0].id < r.id && !Is(r, t.rows[0].dev, t.rows[0].cpe)
  {
  }

  lemma ConsOk(t: Table, r: Row)
    requires TableOk(t) && r.id < t.nextId
    requires forall j :: 0 <= j < |t.rows| ==> r.id < t.rows[j].id && !Is(t.rows[j], r.dev, r.cpe)
    ensures TableOk(t.(rows := [r] + t.rows))
  {
  }

  lemma {:induction false} DeleteLocalOk(t: Table, dev: string, id: nat)
    requires TableOk(t)
    ensures TableOk(t.(rows := DeleteLocal(t.rows, dev, id)))
    decreases |t.rows|
  {
    if t.rows != [] {
      TailOk(t);
      assert t.rows[0].id < t.nextId;
      hide TableOk;
      var rest := DeleteLocal(t.rows[1..], dev, id);
      DeleteLocalOk(t.(rows := t.rows[1..]), dev, id);
      DeleteLocalRows(t.rows[1..], dev, id);
      assert forall j :: 0 <= j < |rest| ==> rest[j] in t.rows[1..];
      ConsOk(t.(rows := rest), t.rows[0]);
    }
  }

  // ---- listing and counting ----

  /** Newest first; ties by id, so the order is total. */
  predicate Before(a: Row, b: Row) {
    a.receivedAt > b.receivedAt || (a.receivedAt == b.receivedAt && a.id > b.id)
  }

  function InsertSorted(r: Row, rows: seq<Row>): seq<Row> {
    if rows == [] || !Before(rows[0], r) then [r] + rows else [rows[0]] + InsertSorted(r, rows[1..])
  }

  function SortRows(rows: seq<Row>): seq<Row> {
    if rows == [] then [] else InsertSorted(rows[0], SortRows(rows[1..]))
  }

  /** phone LIKE ? OR content LIKE ? */
  predicate Matches(r: Row, search: string) {
    Like(Pattern(search), r.phone) || Like(Pattern(search), r.content)
  }

  /** The conditions of the query; an empty search adds none. */
  predicate Wanted(r: Row, dev: string, unreadOnly: bool, search: string) {
    r.dev == dev && (unreadOnly ==> Unread(r)) && (search != [] ==> Matches(r, search))
  }

  function Select(rows: seq<Row>, dev: string, unreadOnly: bool, search: string): seq<Row> {
    if rows == [] then []
    else if Wanted(rows[0], dev, unreadOnly, search) then [rows[0]] + Select(rows[1..], dev, unreadOnly, search)
    else Select(rows[1..], dev, unreadOnly, search)
  }

  function ListSms(t: Table, dev: string, unreadOnly: bool, search: string): seq<Row> {
    SortRows(Select(t.rows, dev, unreadOnly, search))
  }

  /** CountUnreadSms runs its own statement, with its own spelling of the condition. */
  function CountUnread(rows: seq<Row>, dev: string): nat {
    if rows == [] then 0
    else
      CountUnread(rows[1..], dev) + if rows[0].dev == dev && rows[0].status == 0 && !rows[0].readLocal then 1 else 0
  }

  lemma SelectRows(rows: seq<Row>, dev: string, unreadOnly: bool, search: string)
    ensures forall r :: r in Select(rows, dev, unreadOnly, search) <==> r in rows && Wanted(r, dev, unreadOnly, search)
  {
    if rows != [] {
      SelectRows(rows[1..], dev, unreadOnly, search);
    }
  }

  lemma InsertSortedRows(r: Row, rows: seq<Row>)
    ensures multiset(InsertSorted(r, rows)) == multiset{r} + multiset(rows)
  {
    if rows != [] && Before(rows[0], r) {
      InsertSortedRows(r, rows[1..]);
      assert rows == [rows[0]] + rows[1..];
    }
  }

  lemma SortRowsPermutes(rows: seq<Row>)
    ensures multiset(SortRows(rows)) == multiset(rows)
  {
    if rows != [] {
      SortRowsPermutes(rows[1..]);
      InsertSortedRows(rows[0], SortRows(rows[1..]));
      assert rows == [rows[0]] + rows[1..];
    }
  }

  predicate DistinctIds(rows: seq<Row>) {
    forall i, j :: 0 <= i < j < |rows| ==> rows[i].id != rows[j].id
  }

  predicate Sorted(rows: seq<Row>) {
    forall i, j :: 0 <= i < j < |rows| ==> Before(rows[i], rows[j])
  }

  lemma {:induction false} InsertSortedSorted(r: Row, rows: seq<Row>)
    requires Sorted(rows) && forall x :: x in rows ==> x.id != r.id
    ensures Sorted(InsertSorted(r, rows))
    decreases |rows|
  {
    if rows != [] && Before(rows[0], r) {
      InsertSortedSorted(r, rows[1..]);
      InsertSortedRows(r, rows[1..]);
      var rest := InsertSorted(r, rows[1..]);
      forall j | 0 <= j < |rest| ensures Before(rows[0], rest[j]) {
        assert rest[j] in multiset(rest);
        assert rest[j] == r || rest[j] in rows[1..];
      }
    } else if rows != [] {
      assert rows[0] in rows;
      assert forall j :: 0 <= j < |rows| ==> Before(r, rows[j]);
    }
  }

  lemma {:induction false} SortRowsSorted(rows: seq<Row>)
    requires DistinctIds(rows)
    ensures Sorted(SortRows(rows))
    decreases |rows|
  {
    if rows != [] {
      SortRowsSorted(rows[1..]);
      SortRowsPermutes(rows[1..]);
      forall x | x in SortRows(rows[1..]) ensures x.id != rows[0].id {
        assert x in multiset(SortRows(rows[1..]));
      }
      InsertSortedSorted(rows[0], SortRows(rows[1..]));
    }
  }

  lemma {:induction false} SelectDistinct(rows: seq<Row>, dev: string, unreadOnly: bool, search: string)
    requires DistinctIds(rows)
    ensures DistinctIds(Select(rows, dev, unreadOnly, search))
    decreases |rows|
  {
    if rows != [] {
      SelectDistinct(rows[1..], dev, unreadOnly, search);
      SelectRows(rows[1..], dev, unreadOnly, search);
      var rest := Select(rows[1..], dev, unreadOnly, search);
      forall j | 0 <= j < |rest| ensures rest[j].id != rows[0].id {
        assert rest[j] in rest;
      }
      var sel := [rows[0]] + rest;
      forall i, j | 0 <= i < j < |sel| ensures sel[i].id != sel[j].id {
        assert sel[j] == rest[j - 1];
        if i > 0 { assert sel[i] == rest[i - 1]; }
      }
    }
  }

  /** By the time of receipt, the latest first; those of one time by id, the highest first. */
  ghost predicate NewestFirst(rows: seq<Row>) {
    forall i, j :: 0 <= i < j < |rows| ==>
      && rows[i].receivedAt >= rows[j].receivedAt
      && (rows[i].receivedAt == rows[j].receivedAt ==> rows[i].id > rows[j].id)
  }

  lemma ListOrdered(t: Table, dev: string, unreadOnly: bool, search: string)
    requires TableOk(t)
    ensures NewestFirst(ListSms(t, dev, unreadOnly, search))
  {
    SelectDistinct(t.rows, dev, unreadOnly, search);
    SortRowsSorted(Select(t.rows, dev, unreadOnly, search));
    hide SortRows, Select;
  }

  lemma ListHolds(t: Table, dev: string, unreadOnly: bool, search: string, r: Row)
    ensures r in ListSms(t, dev, unreadOnly, search) <==> r in t.rows && Wanted(r, dev, unreadOnly, search)
  {
    var sel := Select(t.rows, dev, unreadOnly, search);
    SelectRows(t.rows, dev, unreadOnly, search);
    SortRowsPermutes(sel);
    hide Wanted, SortRows, Select;
    assert r in SortRows(sel) <==> r in multiset(SortRows(sel));
    assert r in sel <==> r in multiset(sel);
  }

  lemma NewestFirstDistinct(rows: seq<Row>)
    requires NewestFirst(rows)
    ensures forall i, j :: 0 <= i < j < |rows| ==> rows[i] != rows[j]
  {
  }

  /** The listing holds exactly the wanted rows, each once, newest first. */
  lemma ListSmsExact(t: Table, dev: string, unreadOnly: bool, search: string)
    requires TableOk(t)
    ensures var out := ListSms(t, dev, unreadOnly, search);
            && NewestFirst(out)
            && (forall i, j :: 0 <= i < j < |out| ==> out[i] != out[j])
            && (forall r :: r in out <==>
                 && r in t.rows && r.dev == dev && (unreadOnly ==> r.status == 0 && !r.readLocal)
                 && (search != "" ==> Like(Pattern(search), r.phone) || Like(Pattern(search), r.content)))
  {
    ListOrdered(t, dev, unreadOnly, search);
    NewestFirstDistinct(ListSms(t, dev, unreadOnly, search));
    forall r ensures r in ListSms(t, dev, unreadOnly, search) <==> r in t.rows && Wanted(r, dev, unreadOnly, search) {
      ListHolds(t, dev, unreadOnly, search, r);
    }
    hide Like, ListSms, Pattern, NewestFirst, TableOk;
  }

  /** A search in plain words lists the messages in which it occurs. */
  lemma PlainSearchExact(t: Table, dev: string, unreadOnly: bool, search: string)
    requires TableOk(t) && search != [] && Literal(search)
    ensures forall r :: r in ListSms(t, dev, unreadOnly, search) <==>
              && r in t.rows && r.dev == dev && (unreadOnly ==> Unread(r))
              && (Occurs(search, r.phone) || Occurs(search, r.content))
  {
    ListSmsExact(t, dev, unreadOnly, search);
    forall x ensures Like(Pattern(search), x) <==> Occurs(search, x) { LiteralSearch(search, x); }
    hide Like, Occurs, ListSms, TableOk, Pattern;
  }

  lemma {:induction false} SelectUnreadCount(rows: seq<Row>, dev: string)
    ensures |Select(rows, dev, true, [])| == CountUnread(rows, dev)
    decreases |rows|
  {
    if rows != [] {
      SelectUnreadCount(rows[1..], dev);
    }
  }

  /** The two statements agree on what unread means, in every table. */
  lemma CountAgreesWithList(t: Table, dev: string)
    ensures CountUnread(t.rows, dev) == |ListSms(t, dev, true, [])|
  {
    var sel := Select(t.rows, dev, true, []);
    SelectUnreadCount(t.rows, dev);
    SortRowsPermutes(sel);
    assert |multiset(SortRows(sel))| == |SortRows(sel)|;
  }

  // ---- the table object ----

  /** WHERE id = ? AND device_id = ? */
  predicate Names(r: Row, dev: string, id: nat) {
    r.id == id && r.dev == dev
  }

  lemma {:induction false} FoundExact(rows: seq<Row>, dev: string, id: nat)
    ensures Get(rows, dev, id).Some? <==> exists i :: 0 <= i < |rows| && Names(rows[i], dev, id)
    decreases |rows|
  {
    if rows != [] {
      FoundExact(rows[1..], dev, id);
      if i :| 0 <= i < |rows| && Names(rows[i], dev, id) {
        assert i == 0 || Names(rows[1..][i - 1], dev, id);
      }
      if i :| 0 <= i < |rows[1..]| && Names(rows[1..][i], dev, id) { assert Names(rows[i + 1], dev, id); }
    }
  }

  lemma {:induction false} DeleteAbsent(rows: seq<Row>, dev: string, id: nat)
    ensures Get(rows, dev, id).None? ==> DeleteLocal(rows, dev, id) == rows
    decreases |rows|
  {
    if rows != [] {
      DeleteAbsent(rows[1..], dev, id);
      assert rows == [rows[0]] + rows[1..];
    }
  }

  class SmsDb {
    var rows: seq<Row>
    var nextId: nat

    function View(): Table
      reads this
    {
      Table(rows, nextId)
    }

    constructor ()
      ensures View() == Table([], 1)
    {
      rows, nextId := [], 1;
    }

    /** SmsInserter.Insert */
    method Store(dev: string, m: Sms, fault: Fault) returns (res: InsertResult)
      modifies this
      ensures (View(), res) == Insert(old(View()), dev, m, fault)
    {
      if fault == UpdateFails {
        return StoreError;
      }
      rows := UpdateStatus(rows, dev, m.cpe, m.status);
      if fault == InsertFails {
        return StoreError;
      }
      var affected := 0;
      if !HasKey(rows, dev, m.cpe) {
        rows := rows + [NewRow(nextId, dev, m)];
        nextId := nextId + 1;
        affected := 1;
      }
      if fault == RowCountFails {
        return StoreError;
      }
      return Stored(affected > 0);
    }

    /** MarkSmsRead */
    method MarkSmsRead(dev: string, id: nat) returns (found: bool)
      modifies this
      ensures View() == old(View()).(rows := MarkRead(old(rows), dev, id))
      ensures |rows| == |old(rows)| && nextId == old(nextId)
      ensures forall i :: 0 <= i < |rows| && Names(old(rows)[i], dev, id) ==>
        rows[i].readLocal && rows[i].status == 1 && !Unread(rows[i])
        && rows[i] == old(rows)[i].(readLocal := rows[i].readLocal, status := rows[i].status)
      ensures forall i :: 0 <= i < |rows| && !Names(old(rows)[i], dev, id) ==> rows[i] == old(rows)[i]
      ensures found <==> exists i :: 0 <= i < |rows| && Names(old(rows)[i], dev, id)
    {
      FoundExact(rows, dev, id);
      found := Get(rows, dev, id).Some?;
      rows := MarkRead(rows, dev, id);
    }

    /** DeleteSmsLocal */
    method DeleteSmsLocal(dev: string, id: nat) returns (found: bool)
      modifies this
      ensures View() == old(View()).(rows := DeleteLocal(old(rows), dev, id))
      ensures nextId == old(nextId) && forall r :: r in rows <==> r in old(rows) && !Names(r, dev, id)
      ensures found <==> exists i :: 0 <= i < |old(rows)| && Names(old(rows)[i], dev, id)
      ensures !found ==> rows == old(rows)
    {
      FoundExact(rows, dev, id);
      DeleteAbsent(rows, dev, id);
      DeleteLocalRows(rows, dev, id);
      found := Get(rows, dev, id).Some?;
      rows := DeleteLocal(rows, dev, id);
    }
  }
}
