/** The history tables: the trend queries over them.  A table is a sequence of
    rows in insertion order, a query the rows its SQL selects. */
module History {
  import opened Common

  /** The columns no query reads. */
  datatype Info =
    | SignalInfo(lteBand: string, nrBand: string, pci: int, cellId: int, earfcn: int, nrarfcn: int)
    | TrafficInfo(rxBytes: int, txBytes: int)

  /** vals are the measured columns; None is NULL. */
  datatype Row = Row(dev: string, ts: int, vals: seq<Option<real>>, info: Info)

  datatype Point = Point(ts: int, vals: seq<real>)

  /** window and group in seconds; group 0 asks for raw points. */
  datatype Bucket = Bucket(window: nat, group: nat)

  const DAY := 86400
  const RAW_LIMIT := 7200

  function SignalBucket(name: string): Option<Bucket> {
    if name == "h1" then Some(Bucket(3600, 0))
    else if name == "d7" then Some(Bucket(7 * DAY, 3600))
    else if name == "d30" then Some(Bucket(30 * DAY, DAY))
    else None
  }

  function TrafficBucket(name: string): Option<Bucket> {
    if name == "d1" then Some(Bucket(DAY, 0))
    else if name == "d7" then Some(Bucket(7 * DAY, 3600))
    else if name == "d30" then Some(Bucket(30 * DAY, DAY))
    else None
  }

  /** WHERE device_id = dev AND ts >= cutoff */
  function Window(rows: seq<Row>, dev: string, cutoff: int): seq<Row> {
    if rows == [] then []
    else
      var front, r := Window(rows[..|rows| - 1], dev, cutoff), rows[|rows| - 1];
      if r.dev == dev && r.ts >= cutoff then front + [r] else front
  }

  function Value(r: Row, c: nat): Option<real> {
    if c < |r.vals| then r.vals[c] else None
  }

  // ---- grouped series ----

  /** Integer division as SQLite does it. */
  function TruncDiv(a: int, g: int): int
    requires g > 0
  {
    if a >= 0 then a / g else -(-a / g)
  }

  /** (ts/g)*g */
  function Key(ts: int, g: int): int
    requires g > 0
  {
    TruncDiv(ts, g) * g
  }

  datatype Group = Group(t: int, rows: seq<Row>)

  function AddRow(gs: seq<Group>, r: Row, g: int): (out: seq<Group>)
    requires g > 0
    decreases |gs|
  {
    var k := Key(r.ts, g);
    if gs == [] || k < gs[0].t then [Group(k, [r])] + gs
    else if gs[0].t == k then [Group(k, gs[0].rows + [r])] + gs[1..]
    else [gs[0]] + AddRow(gs[1..], r, g)
  }

  /** GROUP BY t ORDER BY t */
  function Groups(rows: seq<Row>, g: int): seq<Group>
    requires g > 0
  {
    if rows == [] then [] else AddRow(Groups(rows[..|rows| - 1], g), rows[|rows| - 1], g)
  }

  function Sum(rows: seq<Row>, c: nat): real {
    if rows == [] then 0.0
    else
      var v := Value(rows[|rows| - 1], c);
      Sum(rows[..|rows| - 1], c) + if v.Some? then v.value else 0.0
  }

  function Count(rows: seq<Row>, c: nat): nat {
    if rows == [] then 0
    else Count(rows[..|rows| - 1], c) + if Value(rows[|rows| - 1], c).Some? then 1 else 0
  }

  /** COALESCE(AVG(c), 0) */
  function Avg(rows: seq<Row>, c: nat): real {
    if Count(rows, c) == 0 then 0.0 else Sum(rows, c) / Count(rows, c) as real
  }

  function GroupPoint(p: Group, width: nat): Point {
    Point(p.t, seq(width, c requires 0 <= c < width => Avg(p.rows, c)))
  }

  function GroupedSeries(rows: seq<Row>, g: int, width: nat): (r: seq<Point>)
    requires g > 0
    ensures |r| == |Groups(rows, g)|
  {
    var gs := Groups(rows, g);
    seq(|gs|, i requires 0 <= i < |gs| => GroupPoint(gs[i], width))
  }

  predicate Ascending(gs: seq<Group>) {
    forall i, j :: 0 <= i < j < |gs| ==> gs[i].t < gs[j].t
  }

  /** The rows of the group at t. */
  function RowsAt(gs: seq<Group>, t: int): seq<Row> {
    if gs == [] then [] else if gs[0].t == t then gs[0].rows else RowsAt(gs[1..], t)
  }

  /** The rows of a table whose key is t, in table order. */
  function OfKey(rows: seq<Row>, t: int, g: int): seq<Row>
    requires g > 0
  {
    if rows == [] then []
    else
      var front, r := OfKey(rows[..|rows| - 1], t, g), rows[|rows| - 1];
      if Key(r.ts, g) == t then front + [r] else front
  }

  lemma {:induction false} RowsAtBelow(gs: seq<Group>, t: int)
    requires forall i :: 0 <= i < |gs| ==> t < gs[i].t
    ensures RowsAt(gs, t) == []
    decreases |gs|
  {
    if gs != [] { RowsAtBelow(gs[1..], t); }
  }

  lemma {:induction false} AddRowAt(gs: seq<Group>, r: Row, g: int, t: int)
    requires g > 0 && Ascending(gs)
    ensures RowsAt(AddRow(gs, r, g), t) == RowsAt(gs, t) + if t == Key(r.ts, g) then [r] else []
    decreases |gs|
  {
    var k := Key(r.ts, g);
    hide Key;
    var out := AddRow(gs, r, g);
    if gs == [] || k < gs[0].t {
      assert out[1..] == gs;
      if t == k { RowsAtBelow(gs, t); }
    } else if gs[0].t == k {
      assert out[1..] == gs[1..];
    } else {
      AddRowAt(gs[1..], r, g, t);
      assert out[1..] == AddRow(gs[1..], r, g);
      if gs[0].t == t { assert gs[0].rows + [] == gs[0].rows; }
    }
  }

  lemma {:induction false} AddRowAscending(gs: seq<Group>, r: Row, g: int)
    requires g > 0 && Ascending(gs)
    ensures Ascending(AddRow(gs, r, g)) && AddRow(gs, r, g) != []
    ensures forall i :: 0 <= i < |AddRow(gs, r, g)| ==>
      var t := AddRow(gs, r, g)[i].t; t == Key(r.ts, g) || (gs != [] && gs[0].t <= t)
    decreases |gs|
  {
    hide Key;
    if gs != [] && Key(r.ts, g) > gs[0].t {
      var rest := AddRow(gs[1..], r, g);
      AddRowAscending(gs[1..], r, g);
      assert forall i :: 0 <= i < |rest| ==> gs[0].t < rest[i].t;
    }
  }

  lemma {:induction false} AddRowFull(gs: seq<Group>, r: Row, g: int)
    requires g > 0 && forall i :: 0 <= i < |gs| ==> gs[i].rows != [] && gs[i].t % g == 0
    ensures forall i :: 0 <= i < |AddRow(gs, r, g)| ==>
      AddRow(gs, r, g)[i].rows != [] && AddRow(gs, r, g)[i].t % g == 0
    decreases |gs|
  {
    KeyMultiple(r.ts, g);
    hide Key;
    if gs != [] && Key(r.ts, g) > gs[0].t { AddRowFull(gs[1..], r, g); }
  }

  lemma KeyMultiple(ts: int, g: int)
    requires g > 0
    ensures Key(ts, g) % g == 0
  {
    MultipleMod(TruncDiv(ts, g), g);
  }

  lemma MultipleMod(q: int, g: int)
    requires g > 0
    ensures (q * g) % g == 0
  {
    var r := (q * g) % g;
    var k := (q * g) / g;
    assert q * g == g * k + r;
    assert r == g * (q - k) by { assert g * (q - k) == g * q - g * k; }
    if q - k >= 1 { MulLe(1, q - k, g); }
    if q - k <= -1 { MulLe(q - k, -1, g); }
  }

  lemma MulLe(a: int, b: int, g: int)
    requires a <= b && g > 0
    ensures a * g <= b * g && g * a <= g * b
  {
  }

  lemma {:induction false} GroupsAt(rows: seq<Row>, g: int, t: int)
    requires g > 0
    ensures Ascending(Groups(rows, g))
    ensures RowsAt(Groups(rows, g), t) == OfKey(rows, t, g)
    decreases |rows|
  {
    if rows != [] {
      var front, r := rows[..|rows| - 1], rows[|rows| - 1];
      GroupsAt(front, g, t);
      AddRowAt(Groups(front, g), r, g, t);
      AddRowAscending(Groups(front, g), r, g);
      hide Key, Ascending, AddRow;
    }
  }

  lemma {:induction false} GroupsFull(rows: seq<Row>, g: int)
    requires g > 0
    ensures forall i :: 0 <= i < |Groups(rows, g)| ==> Groups(rows, g)[i].rows != [] && Groups(rows, g)[i].t % g == 0
    decreases |rows|
  {
    if rows != [] {
      GroupsFull(rows[..|rows| - 1], g);
      AddRowFull(Groups(rows[..|rows| - 1], g), rows[|rows| - 1], g);
      hide Key, AddRow;
    }
  }

  lemma {:induction false} RowsAtIndex(gs: seq<Group>, i: nat)
    requires Ascending(gs) && i < |gs|
    ensures RowsAt(gs, gs[i].t) == gs[i].rows
    decreases |gs|
  {
    if i > 0 {
      assert gs[0].t < gs[i].t;
      RowsAtIndex(gs[1..], i - 1);
    }
  }

  lemma {:induction false} RowsAtSomewhere(gs: seq<Group>, t: int)
    requires RowsAt(gs, t) != []
    ensures exists i :: 0 <= i < |gs| && gs[i].t == t
    decreases |gs|
  {
    if gs[0].t != t {
      RowsAtSomewhere(gs[1..], t);
      var i :| 0 <= i < |gs[1..]| && gs[1..][i].t == t;
      assert gs[i + 1].t == t;
    }
  }

  /** The series has one point for every key some row has, at strictly ascending
      multiples of the group size, and the point at t averages exactly the rows with
      key t: every row falls in one bucket. */
  lemma GroupsExact(rows: seq<Row>, g: int)
    requires g > 0
    ensures var gs := Groups(rows, g);
            && Ascending(gs)
            && (forall i :: 0 <= i < |gs| ==>
                 gs[i].t % g == 0 && gs[i].rows != [] && gs[i].rows == OfKey(rows, gs[i].t, g))
            && (forall t :: OfKey(rows, t, g) != [] ==> exists i :: 0 <= i < |gs| && gs[i].t == t)
  {
    var gs := Groups(rows, g);
    GroupsFull(rows, g);
    GroupsAt(rows, g, 0);
    forall i | 0 <= i < |gs| ensures gs[i].rows == OfKey(rows, gs[i].t, g) {
      GroupsAt(rows, g, gs[i].t);
      RowsAtIndex(gs, i);
    }
    forall t | OfKey(rows, t, g) != [] ensures exists i :: 0 <= i < |gs| && gs[i].t == t {
      GroupsAt(rows, g, t);
      RowsAtSomewhere(gs, t);
    }
  }

  lemma GroupedPoint(rows: seq<Row>, g: int, width: nat, i: nat)
    requires g > 0 && i < |Groups(rows, g)|
    ensures var p, q := Groups(rows, g)[i], GroupedSeries(rows, g, width)[i];
            && q.ts == p.t && |q.vals| == width
            && forall c :: 0 <= c < width ==> q.vals[c] == Avg(p.rows, c)
  {
    hide Groups, Avg;
  }

  /** The same of the points: the series lists, in order of time, every key some row
      has, with the averages of the rows that have it. */
  lemma GroupedSeriesExact(rows: seq<Row>, g: int, width: nat)
    requires g > 0
    ensures var s := GroupedSeries(rows, g, width);
            && (forall i, j :: 0 <= i < j < |s| ==> s[i].ts < s[j].ts)
            && (forall i :: 0 <= i < |s| ==> s[i].ts % g == 0 && |s[i].vals| == width)
            && (forall i, c :: 0 <= i < |s| && 0 <= c < width ==> s[i].vals[c] == Avg(OfKey(rows, s[i].ts, g), c))
            && (forall t :: OfKey(rows, t, g) != [] <==> exists i :: 0 <= i < |s| && s[i].ts == t)
  {
    var gs, s := Groups(rows, g), GroupedSeries(rows, g, width);
    GroupsExact(rows, g);
    assert Ascending(gs);
    hide Groups, GroupedSeries, OfKey, Avg;
    forall i | 0 <= i < |s|
      ensures s[i].ts == gs[i].t && |s[i].vals| == width
      ensures forall c :: 0 <= c < width ==> s[i].vals[c] == Avg(gs[i].rows, c)
    {
      GroupedPoint(rows, g, width, i);
    }
    forall t | OfKey(rows, t, g) != [] ensures exists i :: 0 <= i < |s| && s[i].ts == t {
      var i :| 0 <= i < |gs| && gs[i].t == t;
      assert s[i].ts == t;
    }
  }

  // ---- averages ----

  function Weighted(rows: seq<Row>, c: nat): real {
    Avg(rows, c) * Count(rows, c) as real
  }

  function WeightedSum(gs: seq<Group>, c: nat): real {
    if gs == [] then 0.0 else Weighted(gs[0].rows, c) + WeightedSum(gs[1..], c)
  }

  function TotalCount(gs: seq<Group>, c: nat): nat {
    if gs == [] then 0 else Count(gs[0].rows, c) + TotalCount(gs[1..], c)
  }

  lemma {:induction false} CountZeroSum(rows: seq<Row>, c: nat)
    requires Count(rows, c) == 0
    ensures Sum(rows, c) == 0.0
    decreases |rows|
  {
    if rows != [] { CountZeroSum(rows[..|rows| - 1], c); }
  }

  lemma AvgTimesCount(rows: seq<Row>, c: nat)
    ensures Weighted(rows, c) == Sum(rows, c)
  {
    if Count(rows, c) == 0 {
      CountZeroSum(rows, c);
    } else {
      var s, n := Sum(rows, c), Count(rows, c) as real;
      assert s / n * n == s;
    }
  }

  lemma SnocSum(rows: seq<Row>, r: Row, c: nat)
    ensures Sum(rows + [r], c) == Sum(rows, c) + (if Value(r, c).Some? then Value(r, c).value else 0.0)
    ensures Count(rows + [r], c) == Count(rows, c) + (if Value(r, c).Some? then 1 else 0)
  {
    assert (rows + [r])[..|rows|] == rows;
  }

  lemma WeightedSnoc(rows: seq<Row>, r: Row, c: nat)
    ensures Weighted(rows + [r], c) == Weighted(rows, c) + (if Value(r, c).Some? then Value(r, c).value else 0.0)
  {
    SnocSum(rows, r, c);
    AvgTimesCount(rows, c);
    AvgTimesCount(rows + [r], c);
    hide *;
  }

  lemma NothingWeighted(c: nat)
    ensures Weighted([], c) == 0.0 && Count([], c) == 0
  {
  }

  lemma AddRowIs(gs: seq<Group>, r: Row, g: int)
    requires g > 0
    ensures var k := Key(r.ts, g);
            if gs == [] || k < gs[0].t then AddRow(gs, r, g) == [Group(k, [r])] + gs
            else if gs[0].t == k then AddRow(gs, r, g) == [Group(k, gs[0].rows + [r])] + gs[1..]
            else AddRow(gs, r, g) == [gs[0]] + AddRow(gs[1..], r, g)
  {
    hide Key;
  }

  lemma TotalsCons(h: Group, gs: seq<Group>, c: nat)
    ensures WeightedSum([h] + gs, c) == Weighted(h.rows, c) + WeightedSum(gs, c)
    ensures TotalCount([h] + gs, c) == Count(h.rows, c) + TotalCount(gs, c)
  {
    hide Weighted, Count;
    assert ([h] + gs)[1..] == gs;
  }

  lemma {:induction false} AddRowTotals(gs: seq<Group>, r: Row, g: int, c: nat)
    requires g > 0
    ensures WeightedSum(AddRow(gs, r, g), c) ==
            WeightedSum(gs, c) + (if Value(r, c).Some? then Value(r, c).value else 0.0)
    ensures TotalCount(AddRow(gs, r, g), c) == TotalCount(gs, c) + (if Value(r, c).Some? then 1 else 0)
    decreases |gs|
  {
    var k := Key(r.ts, g);
    hide *;
    AddRowIs(gs, r, g);
    if gs == [] || k < gs[0].t {
      NothingWeighted(c);
      SnocSum([], r, c);
      WeightedSnoc([], r, c);
      assert [] + [r] == [r];
      TotalsCons(Group(k, [r]), gs, c);
    } else {
      var h, rest := gs[0], gs[1..];
      assert gs == [h] + rest;
      TotalsCons(h, rest, c);
      if h.t == k {
        SnocSum(h.rows, r, c);
        WeightedSnoc(h.rows, r, c);
        TotalsCons(Group(k, h.rows + [r]), rest, c);
      } else {
        AddRowTotals(rest, r, g, c);
        TotalsCons(h, AddRow(rest, r, g), c);
      }
    }
  }

  /** Averaging loses nothing: average times count, summed over the buckets, is the
      sum over the rows. */
  lemma {:induction false} AveragesConserve(rows: seq<Row>, g: int, c: nat)
    requires g > 0
    ensures WeightedSum(Groups(rows, g), c) == Sum(rows, c)
    ensures TotalCount(Groups(rows, g), c) == Count(rows, c)
    decreases |rows|
  {
    if rows != [] {
      AveragesConserve(rows[..|rows| - 1], g, c);
      AddRowTotals(Groups(rows[..|rows| - 1], g), rows[|rows| - 1], g, c);
      hide AddRow;
    }
  }

  function Times(x: real, n: nat): real {
    x * n as real
  }

  lemma OneMore(x: real, n: nat)
    ensures Times(x, n + 1) == Times(x, n) + x && Times(x, 0) == 0.0
  {
  }

  lemma {:induction false} SumBounds(rows: seq<Row>, c: nat, lo: real, hi: real)
    requires forall i :: 0 <= i < |rows| && Value(rows[i], c).Some? ==> lo <= Value(rows[i], c).value <= hi
    ensures Times(lo, Count(rows, c)) <= Sum(rows, c) <= Times(hi, Count(rows, c))
    decreases |rows|
  {
    OneMore(lo, Count(rows[..if rows == [] then 0 else |rows| - 1], c));
    OneMore(hi, Count(rows[..if rows == [] then 0 else |rows| - 1], c));
    hide Value, Times;
    if rows != [] { SumBounds(rows[..|rows| - 1], c, lo, hi); }
  }

  /** An average lies between the bounds of the values it averages. */
  lemma AvgBetween(rows: seq<Row>, c: nat, lo: real, hi: real)
    requires Count(rows, c) > 0
    requires forall i :: 0 <= i < |rows| && Value(rows[i], c).Some? ==> lo <= Value(rows[i], c).value <= hi
    ensures lo <= Avg(rows, c) <= hi
  {
    SumBounds(rows, c, lo, hi);
    hide Sum, Count, Times, Value;
    DivBetween(Sum(rows, c), Count(rows, c), lo, hi);
  }

  lemma DivBetween(s: real, n: nat, lo: real, hi: real)
    requires n > 0 && Times(lo, n) <= s <= Times(hi, n)
    ensures lo <= s / n as real <= hi
  {
    var q, m := s / n as real, n as real;
    assert q * m == s;
    if q < lo { MulLt(q, lo, m); }
    if q > hi { MulLt(hi, q, m); }
  }

  lemma MulLt(a: real, b: real, n: real)
    requires a < b && n > 0.0
    ensures a * n < b * n
  {
    assert (b - a) * n > 0.0;
  }

  // ---- how many points ----

  lemma DivMul(a: int, g: int)
    requires g > 0 && a >= 0
    ensures 0 <= a / g * g <= a < a / g * g + g
  {
    MulLe(0, a / g, g);
  }

  lemma KeyNear(ts: int, g: int)
    requires g > 0
    ensures ts >= 0 ==> 0 <= Key(ts, g) <= ts < Key(ts, g) + g
    ensures ts < 0 ==> Key(ts, g) - g < ts <= Key(ts, g) <= 0
  {
    if ts >= 0 {
      DivMul(ts, g);
    } else {
      DivMul(-ts, g);
      assert Key(ts, g) == -(-ts / g * g);
    }
  }

  /** Multiples of g less than (n + 1) * g apart are at most n * g apart. */
  lemma MultiplesClose(p: int, q: int, n: int, g: int)
    requires g > 0 && q * g - p * g < (n + 1) * g
    ensures q * g - p * g <= n * g
  {
    assert (q - p) * g == q * g - p * g;
    if q - p >= n + 1 { MulLe(n + 1, q - p, g); } else { MulLe(q - p, n, g); }
  }

  lemma KeySpread(a: int, b: int, n: nat, g: int)
    requires g > 0 && a <= b <= a + n * g
    ensures Key(b, g) - Key(a, g) <= n * g
  {
    KeyNear(a, g);
    KeyNear(b, g);
    assert (n + 1) * g == n * g + g;
    MultiplesClose(TruncDiv(a, g), TruncDiv(b, g), n, g);
  }

  lemma {:induction false} AscendingSpread(gs: seq<Group>, i: nat, g: int)
    requires g > 0 && Ascending(gs) && i < |gs|
    requires forall j :: 0 <= j < |gs| ==> gs[j].t % g == 0
    ensures gs[i].t - gs[0].t >= i * g
    decreases i
  {
    if i > 0 {
      AscendingSpread(gs, i - 1, g);
      assert gs[i - 1].t < gs[i].t;
      NextMultiple(gs[i - 1].t, gs[i].t, g);
      assert i * g == (i - 1) * g + g;
    }
  }

  lemma NextMultiple(a: int, b: int, g: int)
    requires g > 0 && a % g == 0 && b % g == 0 && a < b
    ensures b >= a + g
  {
    var p, q := a / g, b / g;
    assert a == g * p && b == g * q;
    if q <= p { MulLe(q, p, g); } else { MulLe(p + 1, q, g); assert g * (p + 1) == g * p + g; }
  }

  lemma {:induction false} OfKeyHas(rows: seq<Row>, t: int, g: int)
    requires g > 0 && OfKey(rows, t, g) != []
    ensures exists j :: 0 <= j < |rows| && Key(rows[j].ts, g) == t
    decreases |rows|
  {
    hide Key;
    if Key(rows[|rows| - 1].ts, g) != t {
      var front := rows[..|rows| - 1];
      OfKeyHas(front, t, g);
      var j :| 0 <= j < |front| && Key(front[j].ts, g) == t;
      assert rows[j] == front[j];
    }
  }

  /** Rows within n group lengths make at most n + 1 points. */
  lemma PointsBounded(rows: seq<Row>, g: int, n: nat, cutoff: int)
    requires g > 0
    requires forall j :: 0 <= j < |rows| ==> cutoff <= rows[j].ts <= cutoff + n * g
    ensures |Groups(rows, g)| <= n + 1
  {
    var gs := Groups(rows, g);
    if gs != [] {
      var last := |gs| - 1;
      GroupsExact(rows, g);
      AscendingSpread(gs, last, g);
      OfKeyHas(rows, gs[0].t, g);
      OfKeyHas(rows, gs[last].t, g);
      hide Key, Groups, OfKey;
      var i :| 0 <= i < |rows| && Key(rows[i].ts, g) == gs[0].t;
      var j :| 0 <= j < |rows| && Key(rows[j].ts, g) == gs[last].t;
      assert (n + 1) * g == n * g + g;
      if rows[i].ts <= rows[j].ts {
        KeySpread(rows[i].ts, rows[j].ts, n, g);
        if last >= n + 1 { MulLe(n + 1, last, g); }
      } else {
        KeyMonotone(rows[j].ts, rows[i].ts, g);
        if last >= 1 { MulLe(1, last, g); }
      }
    }
  }

  lemma KeyMonotone(a: int, b: int, g: int)
    requires g > 0 && a <= b
    ensures Key(a, g) <= Key(b, g)
  {
    KeyNear(a, g);
    KeyNear(b, g);
    var p, q := TruncDiv(a, g), TruncDiv(b, g);
    assert Key(a, g) == p * g && Key(b, g) == q * g;
    hide Key, TruncDiv;
    MultiplesClose(q, p, 0, g);
  }

  /** One row every g seconds. */
  function Regular(dev: string, start: nat, g: nat, n: nat): (r: seq<Row>)
    ensures |r| == n
  {
    seq(n, i requires 0 <= i < n => Row(dev, start + i * g, [], TrafficInfo(0, 0)))
  }

  lemma KeyShift(a: nat, i: nat, g: int)
    requires g > 0
    ensures Key(a + i * g, g) == Key(a, g) + i * g
  {
    MulLe(0, i, g);
    KeyNear(a, g);
    KeyNear(a + i * g, g);
    var p, q := TruncDiv(a, g), TruncDiv(a + i * g, g);
    assert (p + i) * g == p * g + i * g;
    assert (p + i + 1) * g == (p + i) * g + g && (p + i - 1) * g == (p + i) * g - g;
    if q > p + i { MulLe(p + i + 1, q, g); }
    if q < p + i { MulLe(q, p + i - 1, g); }
  }

  lemma {:induction false} AddRowLast(gs: seq<Group>, r: Row, g: int)
    requires g > 0 && forall i :: 0 <= i < |gs| ==> gs[i].t < Key(r.ts, g)
    ensures AddRow(gs, r, g) == gs + [Group(Key(r.ts, g), [r])]
    decreases |gs|
  {
    hide Key;
    if gs != [] {
      AddRowLast(gs[1..], r, g);
      assert gs == [gs[0]] + gs[1..];
    }
  }

  lemma {:induction false} RegularGroups(dev: string, start: nat, g: nat, n: nat)
    requires g > 0
    ensures |Groups(Regular(dev, start, g, n), g)| == n
    ensures forall i :: 0 <= i < n ==> Groups(Regular(dev, start, g, n), g)[i].t == Key(start, g) + i * g
    decreases n
  {
    if n > 0 {
      var rows := Regular(dev, start, g, n);
      RegularGroups(dev, start, g, n - 1);
      assert rows[..n - 1] == Regular(dev, start, g, n - 1);
      KeyShift(start, n - 1, g);
      forall i | 0 <= i < n - 1 ensures i * g < (n - 1) * g {
        MulLe(i + 1, n - 1, g);
        assert (i + 1) * g == i * g + g;
      }
      hide Key, AddRow, Regular;
      AddRowLast(Groups(rows[..n - 1], g), rows[n - 1], g);
    }
  }

  /** The bound is met: one row at each end of every group length. */
  lemma BoundMet(dev: string, cutoff: nat, g: nat, n: nat)
    requires g > 0
    ensures var rows := Regular(dev, cutoff, g, n + 1);
            && |Groups(rows, g)| == n + 1
            && forall j :: 0 <= j < |rows| ==> cutoff <= rows[j].ts <= cutoff + n * g
  {
    RegularGroups(dev, cutoff, g, n + 1);
    forall j | 0 <= j <= n ensures 0 <= j * g <= n * g { MulLe(0, j, g); MulLe(j, n, g); }
  }

  lemma {:induction false} WindowRows(rows: seq<Row>, dev: string, cutoff: int)
    ensures forall j :: 0 <= j < |Window(rows, dev, cutoff)| ==>
      && Window(rows, dev, cutoff)[j].dev == dev && Window(rows, dev, cutoff)[j].ts >= cutoff
      && Window(rows, dev, cutoff)[j] in rows
    decreases |rows|
  {
    if rows != [] {
      WindowRows(rows[..|rows| - 1], dev, cutoff);
      assert forall r :: r in rows[..|rows| - 1] ==> r in rows;
    }
  }

  // ---- raw series ----

  /** Inserted after every row that is not later. */
  function InsertByTime(rows: seq<Row>, r: Row): seq<Row> {
    if rows == [] || rows[|rows| - 1].ts <= r.ts then rows + [r]
    else InsertByTime(rows[..|rows| - 1], r) + [rows[|rows| - 1]]
  }

  /** ORDER BY ts; rows of one second stay in table order. */
  function SortByTime(rows: seq<Row>): seq<Row> {
    if rows == [] then [] else InsertByTime(SortByTime(rows[..|rows| - 1]), rows[|rows| - 1])
  }

  function RawRows(rows: seq<Row>): seq<Row> {
    var s := SortByTime(rows);
    if |s| <= RAW_LIMIT then s else s[..RAW_LIMIT]
  }

  function RowPoint(r: Row, width: nat): Point {
    Point(r.ts, seq(width, c requires 0 <= c < width => if Value(r, c).Some? then Value(r, c).value else 0.0))
  }

  function RawSeries(rows: seq<Row>, width: nat): (r: seq<Point>)
    ensures |r| == |RawRows(rows)|
  {
    var s := RawRows(rows);
    seq(|s|, i requires 0 <= i < |s| => RowPoint(s[i], width))
  }

  predicate InTimeOrder(rows: seq<Row>) {
    forall i, j :: 0 <= i < j < |rows| ==> rows[i].ts <= rows[j].ts
  }

  lemma {:induction false} InsertOrdered(rows: seq<Row>, r: Row)
    requires InTimeOrder(rows)
    ensures InTimeOrder(InsertByTime(rows, r))
    ensures forall i :: 0 <= i < |InsertByTime(rows, r)| ==>
      InsertByTime(rows, r)[i] == r || (rows != [] && InsertByTime(rows, r)[i].ts <= rows[|rows| - 1].ts)
    decreases |rows|
  {
    if rows != [] && rows[|rows| - 1].ts > r.ts { InsertOrdered(rows[..|rows| - 1], r); }
  }

  lemma {:induction false} InsertKeeps(rows: seq<Row>, r: Row)
    ensures multiset(InsertByTime(rows, r)) == multiset(rows) + multiset{r}
    decreases |rows|
  {
    if rows != [] && rows[|rows| - 1].ts > r.ts {
      InsertKeeps(rows[..|rows| - 1], r);
      assert rows == rows[..|rows| - 1] + [rows[|rows| - 1]];
    }
  }

  lemma {:induction false} SortOrdered(rows: seq<Row>)
    ensures InTimeOrder(SortByTime(rows))
    decreases |rows|
  {
    if rows != [] {
      SortOrdered(rows[..|rows| - 1]);
      InsertOrdered(SortByTime(rows[..|rows| - 1]), rows[|rows| - 1]);
      hide InsertByTime, InTimeOrder;
    }
  }

  lemma SortSnoc(rows: seq<Row>, r: Row)
    ensures SortByTime([]) == [] && SortByTime(rows + [r]) == InsertByTime(SortByTime(rows), r)
  {
    hide InsertByTime;
    assert (rows + [r])[..|rows|] == rows;
  }

  lemma {:induction false} SortKeeps(rows: seq<Row>)
    ensures multiset(SortByTime(rows)) == multiset(rows)
    decreases |rows|
  {
    hide *;
    if rows == [] {
      SortSnoc([], Row([], 0, [], TrafficInfo(0, 0)));
    } else {
      var front, r := rows[..|rows| - 1], rows[|rows| - 1];
      assert rows == front + [r];
      SortKeeps(front);
      SortSnoc(front, r);
      InsertKeeps(SortByTime(front), r);
    }
  }

  lemma SameSize(a: seq<Row>, b: seq<Row>)
    requires multiset(a) == multiset(b)
    ensures |a| == |b|
  {
    assert |multiset(a)| == |a| && |multiset(b)| == |b|;
  }

  /** What a raw series leaves out. */
  function Omitted(rows: seq<Row>): seq<Row> {
    var s := SortByTime(rows);
    if |s| <= RAW_LIMIT then [] else s[RAW_LIMIT..]
  }

  lemma KeptAndOmitted(rows: seq<Row>)
    ensures SortByTime(rows) == RawRows(rows) + Omitted(rows)
    ensures Omitted(rows) == [] <==> |SortByTime(rows)| <= RAW_LIMIT
  {
    hide SortByTime;
  }

  lemma InOrderParts(kept: seq<Row>, left: seq<Row>)
    requires InTimeOrder(kept + left)
    ensures InTimeOrder(kept)
    ensures forall i, j :: 0 <= i < |kept| && 0 <= j < |left| ==> kept[i].ts <= left[j].ts
  {
    var s := kept + left;
    assert forall i :: 0 <= i < |kept| ==> s[i] == kept[i];
    assert forall j :: 0 <= j < |left| ==> s[|kept| + j] == left[j];
  }

  /** A raw series is ordered by time and holds all the rows exactly when there are
      at most RAW_LIMIT; past that it is the latest rows that it leaves out. */
  lemma RawExact(rows: seq<Row>)
    ensures InTimeOrder(RawRows(rows))
    ensures multiset(rows) == multiset(RawRows(rows)) + multiset(Omitted(rows))
    ensures Omitted(rows) == [] <==> |rows| <= RAW_LIMIT
    ensures forall i, j :: 0 <= i < |RawRows(rows)| && 0 <= j < |Omitted(rows)| ==>
      RawRows(rows)[i].ts <= Omitted(rows)[j].ts
  {
    SortOrdered(rows);
    SortKeeps(rows);
    SameSize(SortByTime(rows), rows);
    KeptAndOmitted(rows);
    hide SortByTime, RawRows, Omitted;
    InOrderParts(RawRows(rows), Omitted(rows));
  }

  /** Point i of a raw series has the time of row i of RawRows, and in column c that
      row's c-th value, zero for NULL. */
  lemma RawSeriesExact(rows: seq<Row>, width: nat)
    ensures var s, from := RawSeries(rows, width), RawRows(rows);
            && |s| == |from|
            && (forall i :: 0 <= i < |s| ==> s[i].ts == from[i].ts && |s[i].vals| == width)
            && (forall i, c :: 0 <= i < |s| && 0 <= c < width && c < |from[i].vals| ==>
                 s[i].vals[c] == match from[i].vals[c] { case Some(v) => v case None => 0.0 })
            && (forall i, c :: 0 <= i < |s| && |from[i].vals| <= c < width ==> s[i].vals[c] == 0.0)
  {
    hide RawRows;
  }

  // ---- raw points are groups of one second ----

  predicate DistinctTimes(rows: seq<Row>) {
    forall i, j :: 0 <= i < j < |rows| ==> rows[i].ts != rows[j].ts
  }

  /** Every row a group of its own. */
  function Singles(rows: seq<Row>): (gs: seq<Group>)
    ensures |gs| == |rows|
  {
    seq(|rows|, i requires 0 <= i < |rows| => Group(rows[i].ts, [rows[i]]))
  }

  lemma InsertBefore(front: seq<Row>, last: Row, r: Row)
    ensures InsertByTime(front + [last], r) ==
            if last.ts > r.ts then InsertByTime(front, r) + [last] else front + [last] + [r]
  {
    assert (front + [last])[..|front|] == front;
  }

  lemma InsertIntoNone(first: Row, r: Row)
    ensures InsertByTime([], r) == [r]
    ensures InsertByTime([first], r) == if r.ts < first.ts then [r, first] else [first, r]
  {
    InsertBefore([], first, r);
    assert [] + [first] == [first];
  }

  /** The insertion seen from the front. */
  lemma {:induction false} InsertFront(first: Row, rest: seq<Row>, r: Row)
    requires forall i :: 0 <= i < |rest| ==> first.ts <= rest[i].ts
    ensures InsertByTime([first] + rest, r) ==
            if r.ts < first.ts then [r] + ([first] + rest) else [first] + InsertByTime(rest, r)
    decreases |rest|
  {
    hide *;
    if rest == [] {
      InsertIntoNone(first, r);
      assert [first] + rest == [first];
    } else {
      var front, last := rest[..|rest| - 1], rest[|rest| - 1];
      var before := InsertByTime(front, r);
      assert rest == front + [last];
      assert [first] + rest == ([first] + front) + [last];
      InsertFront(first, front, r);
      InsertBefore(front, last, r);
      InsertBefore([first] + front, last, r);
      if r.ts < first.ts {
        assert [r] + ([first] + front) + [last] == [r] + ([first] + rest);
      } else if r.ts < last.ts {
        assert [first] + before + [last] == [first] + (before + [last]);
      } else {
        assert [first] + front + [last] + [r] == [first] + (front + [last] + [r]);
      }
    }
  }

  lemma SinglesCons(r: Row, rest: seq<Row>)
    ensures Singles([r] + rest) == [Group(r.ts, [r])] + Singles(rest)
  {
  }

  lemma AddAtFront(h: Group, gs: seq<Group>, r: Row)
    requires h.t != r.ts
    ensures AddRow([h] + gs, r, 1) ==
            if r.ts < h.t then [Group(r.ts, [r])] + ([h] + gs) else [h] + AddRow(gs, r, 1)
  {
    KeyNear(r.ts, 1);
    hide Key;
    assert ([h] + gs)[1..] == gs;
  }

  lemma {:induction false} AddSingle(rows: seq<Row>, r: Row)
    requires InTimeOrder(rows) && forall i :: 0 <= i < |rows| ==> rows[i].ts != r.ts
    ensures AddRow(Singles(rows), r, 1) == Singles(InsertByTime(rows, r))
    decreases |rows|
  {
    if rows == [] {
      KeyNear(r.ts, 1);
    } else {
      var first, rest := rows[0], rows[1..];
      assert rows == [first] + rest;
      AddSingle(rest, r);
      InsertFront(first, rest, r);
      SinglesCons(first, rest);
      SinglesCons(r, rows);
      SinglesCons(first, InsertByTime(rest, r));
      AddAtFront(Group(first.ts, [first]), Singles(rest), r);
      hide *;
    }
  }

  lemma {:induction false} GroupsAreSingles(rows: seq<Row>)
    requires DistinctTimes(rows)
    ensures Groups(rows, 1) == Singles(SortByTime(rows))
    decreases |rows|
  {
    if rows != [] {
      var front, r := rows[..|rows| - 1], rows[|rows| - 1];
      var sorted := SortByTime(front);
      GroupsAreSingles(front);
      SortOrdered(front);
      SortKeeps(front);
      hide AddRow, InsertByTime, InTimeOrder, Singles;
      forall i | 0 <= i < |sorted| ensures sorted[i].ts != r.ts {
        assert sorted[i] in multiset(sorted);
        assert sorted[i] in front;
      }
      AddSingle(sorted, r);
    }
  }

  lemma AvgOfOne(r: Row, c: nat)
    ensures Avg([r], c) == if Value(r, c).Some? then Value(r, c).value else 0.0
  {
    var v := Value(r, c);
    hide Value;
    assert [r][..0] == [];
    assert Count([r], c) == if v.Some? then 1 else 0;
    assert Sum([r], c) == if v.Some? then v.value else 0.0;
  }

  /** The two queries agree where they overlap: rows of different seconds, no more
      than the limit, make the same points raw as grouped by the second. */
  lemma RawIsGrouped(rows: seq<Row>, width: nat)
    requires DistinctTimes(rows) && |rows| <= RAW_LIMIT
    ensures RawSeries(rows, width) == GroupedSeries(rows, 1, width)
  {
    GroupsAreSingles(rows);
    SortKeeps(rows);
    var s := SortByTime(rows);
    SameSize(s, rows);
    hide SortByTime, Groups, Value, Avg;
    forall i | 0 <= i < |s| ensures RowPoint(s[i], width) == GroupPoint(Singles(s)[i], width) {
      forall c | 0 <= c < width
        ensures Avg([s[i]], c) == if Value(s[i], c).Some? then Value(s[i], c).value else 0.0
      {
        AvgOfOne(s[i], c);
      }
    }
  }

  // ---- the series ----

  function Series(rows: seq<Row>, dev: string, now: int, b: Bucket, width: nat): seq<Point> {
    var sel := Window(rows, dev, now - b.window);
    if b.group == 0 then RawSeries(sel, width) else GroupedSeries(sel, b.group, width)
  }

  /** SignalSeries; None is its error. */
  function SignalSeries(rows: seq<Row>, dev: string, now: int, name: string): Option<seq<Point>> {
    match SignalBucket(name)
    case None => None
    case Some(b) => Some(Series(rows, dev, now, b, 4))
  }

  /** TrafficSeries */
  function TrafficSeries(rows: seq<Row>, dev: string, now: int, name: string): Option<seq<Point>> {
    match TrafficBucket(name)
    case None => None
    case Some(b) => Some(Series(rows, dev, now, b, 2))
  }

  lemma {:induction false} WindowEmpty(rows: seq<Row>, dev: string, cutoff: int)
    ensures Window(rows, dev, cutoff) != [] <==>
            exists j :: 0 <= j < |rows| && rows[j].dev == dev && rows[j].ts >= cutoff
    decreases |rows|
  {
    if rows != [] {
      var front, last := rows[..|rows| - 1], |rows| - 1;
      WindowEmpty(front, dev, cutoff);
      if rows[last].dev != dev || rows[last].ts < cutoff {
        assert forall j :: 0 <= j < last ==> rows[j] == front[j];
      }
    }
  }

  lemma SeriesEmpty(rows: seq<Row>, dev: string, now: int, b: Bucket, width: nat)
    ensures Series(rows, dev, now, b, width) != [] <==> Window(rows, dev, now - b.window) != []
  {
    var sel := Window(rows, dev, now - b.window);
    hide Window;
    if b.group == 0 {
      SortKeeps(sel);
      SameSize(SortByTime(sel), sel);
    } else if sel != [] {
      GroupsAt(sel[..|sel| - 1], b.group, 0);
      AddRowAscending(Groups(sel[..|sel| - 1], b.group), sel[|sel| - 1], b.group);
    }
  }

  /** Some row of the device is at most so many seconds old. */
  predicate Within(rows: seq<Row>, dev: string, now: int, seconds: int) {
    exists j :: 0 <= j < |rows| && rows[j].dev == dev && now - rows[j].ts <= seconds
  }

  lemma SeriesShown(rows: seq<Row>, dev: string, now: int, b: Bucket, width: nat)
    ensures Series(rows, dev, now, b, width) != [] <==> Within(rows, dev, now, b.window)
  {
    SeriesEmpty(rows, dev, now, b, width);
    WindowEmpty(rows, dev, now - b.window);
    hide Series, Window;
    assert forall j :: 0 <= j < |rows| ==> (rows[j].ts >= now - b.window <==> now - rows[j].ts <= b.window);
  }

  /** Which rows each chart looks at: it shows something exactly when a row of the
      device is at most an hour, a day, a week or thirty days old. */
  lemma ChartsShown(rows: seq<Row>, dev: string, now: int)
    ensures SignalSeries(rows, dev, now, "h1") != Some([]) <==> Within(rows, dev, now, 3600)
    ensures SignalSeries(rows, dev, now, "d7") != Some([]) <==> Within(rows, dev, now, 604800)
    ensures SignalSeries(rows, dev, now, "d30") != Some([]) <==> Within(rows, dev, now, 2592000)
    ensures TrafficSeries(rows, dev, now, "d1") != Some([]) <==> Within(rows, dev, now, 86400)
    ensures TrafficSeries(rows, dev, now, "d7") != Some([]) <==> Within(rows, dev, now, 604800)
    ensures TrafficSeries(rows, dev, now, "d30") != Some([]) <==> Within(rows, dev, now, 2592000)
  {
    SeriesShown(rows, dev, now, Bucket(3600, 0), 4);
    SeriesShown(rows, dev, now, Bucket(604800, 3600), 4);
    SeriesShown(rows, dev, now, Bucket(2592000, DAY), 4);
    SeriesShown(rows, dev, now, Bucket(DAY, 0), 2);
    SeriesShown(rows, dev, now, Bucket(604800, 3600), 2);
    SeriesShown(rows, dev, now, Bucket(2592000, DAY), 2);
    hide Series, Within;
  }

  lemma NoFuture(rows: seq<Row>, dev: string, now: int, cutoff: int)
    requires forall j :: 0 <= j < |rows| ==> rows[j].ts <= now
    ensures forall j :: 0 <= j < |Window(rows, dev, cutoff)| ==> cutoff <= Window(rows, dev, cutoff)[j].ts <= now
  {
    WindowRows(rows, dev, cutoff);
    var sel := Window(rows, dev, cutoff);
    assert forall j :: 0 <= j < |sel| ==> sel[j] in rows;
  }

  lemma SeriesGrouped(rows: seq<Row>, dev: string, now: int, window: nat, g: nat, width: nat)
    requires g > 0
    ensures Series(rows, dev, now, Bucket(window, g), width) ==
            GroupedSeries(Window(rows, dev, now - window), g, width)
  {
    hide Window, GroupedSeries, RawSeries;
  }

  lemma GroupedBounded(rows: seq<Row>, dev: string, now: int, n: nat, g: nat, width: nat)
    requires g > 0 && forall j :: 0 <= j < |rows| ==> rows[j].ts <= now
    ensures |Series(rows, dev, now, Bucket(n * g, g), width)| <= n + 1
  {
    hide *;
    var cutoff := now - n * g;
    NoFuture(rows, dev, now, cutoff);
    PointsBounded(Window(rows, dev, cutoff), g, n, cutoff);
    SeriesGrouped(rows, dev, now, n * g, g, width);
  }

  lemma RawBounded(rows: seq<Row>)
    ensures |RawRows(rows)| <= RAW_LIMIT
  {
    hide SortByTime;
  }

  /** The most points a chart can have; none for a name the API does not know. */
  function MostPoints(b: Option<Bucket>): nat {
    match b
    case None => 0
    case Some(b) => if b.group == 0 then RAW_LIMIT else b.window / b.group + 1
  }

  /** With no row from the future every chart of the API has at most so many points:
      169 for d7, 31 for d30, 7200 for the raw ones. */
  lemma SeriesBounded(rows: seq<Row>, dev: string, now: int, name: string)
    requires forall j :: 0 <= j < |rows| ==> rows[j].ts <= now
    ensures SignalSeries(rows, dev, now, name).Some? <==> name in {"h1", "d7", "d30"}
    ensures TrafficSeries(rows, dev, now, name).Some? <==> name in {"d1", "d7", "d30"}
    ensures SignalSeries(rows, dev, now, name).Some? ==>
      |SignalSeries(rows, dev, now, name).value| <= MostPoints(SignalBucket(name))
    ensures TrafficSeries(rows, dev, now, name).Some? ==>
      |TrafficSeries(rows, dev, now, name).value| <= MostPoints(TrafficBucket(name))
    ensures MostPoints(SignalBucket("d7")) == 169 && MostPoints(SignalBucket("d30")) == 31
    ensures MostPoints(TrafficBucket("d7")) == 169 && MostPoints(TrafficBucket("d30")) == 31
  {
    ChartBounded(rows, dev, now, SignalBucket(name), 4);
    ChartBounded(rows, dev, now, TrafficBucket(name), 2);
    hide Series;
  }

  lemma RawChartBounded(rows: seq<Row>, dev: string, now: int, window: nat, width: nat)
    ensures |Series(rows, dev, now, Bucket(window, 0), width)| <= RAW_LIMIT
  {
    var sel := Window(rows, dev, now - window);
    RawBounded(sel);
    hide Window, RawRows;
    assert Series(rows, dev, now, Bucket(window, 0), width) == RawSeries(sel, width);
  }

  lemma WeekAndMonth()
    ensures MostPoints(Some(Bucket(7 * DAY, 3600))) == 169
    ensures MostPoints(Some(Bucket(30 * DAY, DAY))) == 31
  {
  }

  lemma ChartBounded(rows: seq<Row>, dev: string, now: int, b: Option<Bucket>, width: nat)
    requires forall j :: 0 <= j < |rows| ==> rows[j].ts <= now
    requires b.Some? ==> b.value.group == 0 || b.value == Bucket(7 * DAY, 3600) || b.value == Bucket(30 * DAY, DAY)
    ensures b.Some? ==> |Series(rows, dev, now, b.value, width)| <= MostPoints(b)
  {
    if b.Some? {
      WeekAndMonth();
      RawChartBounded(rows, dev, now, b.value.window, width);
      GroupedBounded(rows, dev, now, 168, 3600, width);
      GroupedBounded(rows, dev, now, 30, DAY, width);
      hide Series;
      if b.value.group == 0 {
        assert MostPoints(b) == RAW_LIMIT;
      } else {
        hide MostPoints;
      }
    }
  }
}
