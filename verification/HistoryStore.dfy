/** Filling and pruning the history tables, and what pruning does to the answers. */
module HistoryStore {
  import opened Common
  import opened Text
  import opened History

  // ---- recording a snapshot ----

  datatype Radio = Radio(cellId: int, earfcn: string, nrarfcn: string)

  datatype Snapshot = Snapshot(
    at: int, online: bool, hasSignal: bool, hasTraffic: bool,
    mode: string, band: string, rsrp: int, rsrq: int, sinr: int, rssi: int, pci: int,
    serving: Radio, fallback: Radio,     // from cell-info, and from the signal request
    rxBytes: int, txBytes: int, rxRate: real, txRate: real)

  /** strings.Contains */
  predicate Contains(s: string, t: string) {
    t <= s || (s != [] && Contains(s[1..], t))
  }

  /** Upper case as far as the letters looked for are concerned. */
  function Upper(s: string): (r: string)
    ensures |r| == |s|
  {
    seq(|s|, i requires 0 <= i < |s| => if 'a' <= s[i] <= 'z' then (s[i] as int - 32) as char else s[i])
  }

  /** The number atoi64Safe finds: dirty text counts as zero, long numerals wrap. */
  function Number(s: string): int {
    if AllDigits(TrimSpace(s)) then Wrap64(Decimal(TrimSpace(s))) else 0
  }

  /** atoi64Safe */
  method Atoi64Safe(s: string) returns (acc: int)
    ensures acc == Number(s)
  {
    var t := TrimSpace(s);
    acc := 0;
    for i := 0 to |t|
      invariant AllDigits(t[..i])
      invariant acc == Wrap64(Decimal(t[..i]))
    {
      if t[i] < '0' || t[i] > '9' {
        return 0;
      }
      assert t[..i + 1][..i] == t[..i];
      WrapDigit(Decimal(t[..i]), t[i] as int - '0' as int);
      acc := Wrap64(acc * 10 + (t[i] as int - '0' as int));
    }
    assert t[..|t|] == t;
  }

  /** A numeral survives the trip through the ARFCN column exactly when it fits. */
  lemma NumberExact(n: nat)
    ensures Number(PrintNat(n)) == n <==> n < TWO_63
  {
    var d := PrintNat(n);
    assert IsDigit(d[0]) && IsDigit(d[|d| - 1]);
    TrimTight(d);
    DecimalPrintNat(n);
  }

  lemma {:induction false} LeftKeeps(s: string, c: char)
    requires c in s && !IsSpace(c)
    ensures c in TrimLeft(s)
    decreases |s|
  {
    hide IsSpace;
    assert s == [s[0]] + s[1..];
    if s[0] != c { LeftKeeps(s[1..], c); }
  }

  lemma {:induction false} RightKeeps(s: string, c: char)
    requires c in s && !IsSpace(c)
    ensures c in TrimRight(s)
    decreases |s|
  {
    hide IsSpace;
    assert s == s[..|s| - 1] + [s[|s| - 1]];
    if s[|s| - 1] != c { RightKeeps(s[..|s| - 1], c); }
  }

  /** One character that is neither a digit nor a space makes the whole text zero. */
  lemma NumberDirty(s: string, c: char)
    requires c in s && !IsSpace(c) && !IsDigit(c)
    ensures Number(s) == 0
  {
    LeftKeeps(s, c);
    RightKeeps(TrimLeft(s), c);
    hide IsSpace, TrimLeft, TrimRight;
    var i :| 0 <= i < |TrimSpace(s)| && TrimSpace(s)[i] == c;
    assert !AllDigits(TrimSpace(s));
  }

  function OrElse(a: string, b: string): string {
    if a == [] then b else a
  }

  function SignalRow(dev: string, s: Snapshot): Row {
    var nr := Contains(Upper(s.mode), "5G") || Contains(Upper(s.mode), "NR");
    Row(dev, s.at, [Some(s.rsrp as real), Some(s.rsrq as real), Some(s.sinr as real), Some(s.rssi as real)],
        SignalInfo(if nr then [] else s.band, if nr then s.band else [], s.pci,
                   if s.serving.cellId == 0 then s.fallback.cellId else s.serving.cellId,
                   Number(OrElse(s.serving.earfcn, s.fallback.earfcn)),
                   Number(OrElse(s.serving.nrarfcn, s.fallback.nrarfcn))))
  }

  function TrafficRow(dev: string, s: Snapshot): Row {
    Row(dev, s.at, [Some(s.rxRate), Some(s.txRate)], TrafficInfo(s.rxBytes, s.txBytes))
  }

  // ---- what a recording is ----

  /** The mode names 5G or NR somewhere, in either case. */
  ghost predicate FiveG(mode: string) {
    exists i :: 0 <= i < |mode| - 1 && FiveGAt(mode, i)
  }

  predicate FiveGAt(mode: string, i: nat)
    requires i + 1 < |mode|
  {
    || (mode[i] == '5' && mode[i + 1] in {'g', 'G'})
    || (mode[i] in {'n', 'N'} && mode[i + 1] in {'r', 'R'})
  }

  lemma {:induction false} ContainsPair(s: string, a: char, b: char)
    ensures Contains(s, [a, b]) <==> exists i :: 0 <= i < |s| - 1 && s[i] == a && s[i + 1] == b
    decreases |s|
  {
    if s != [] {
      ContainsPair(s[1..], a, b);
      var t := s[1..];
      if [a, b] <= s {
        assert s[0] == a && s[1] == b;
      } else if Contains(t, [a, b]) {
        var i :| 0 <= i < |t| - 1 && t[i] == a && t[i + 1] == b;
        assert s[i + 1] == a && s[i + 1 + 1] == b;
      } else {
        forall i | 0 <= i < |s| - 1 ensures !(s[i] == a && s[i + 1] == b) {
          if i == 0 { assert s[..2] == [s[0], s[1]]; } else { assert t[i - 1] == s[i] && t[i - 1 + 1] == s[i + 1]; }
        }
      }
    }
  }

  lemma FiveGExact(mode: string)
    ensures Contains(Upper(mode), "5G") || Contains(Upper(mode), "NR") <==> FiveG(mode)
  {
    var m := Upper(mode);
    ContainsPair(m, '5', 'G');
    ContainsPair(m, 'N', 'R');
    hide Contains;
    assert forall i :: 0 <= i < |m| ==>
      m[i] == if 'a' <= mode[i] <= 'z' then (mode[i] as int - 32) as char else mode[i];
    hide Upper;
    if FiveG(mode) {
      var i :| 0 <= i < |mode| - 1 && FiveGAt(mode, i);
      assert (m[i] == '5' && m[i + 1] == 'G') || (m[i] == 'N' && m[i + 1] == 'R');
    }
    if i :| 0 <= i < |m| - 1 && m[i] == '5' && m[i + 1] == 'G' { assert FiveGAt(mode, i); }
    if i :| 0 <= i < |m| - 1 && m[i] == 'N' && m[i + 1] == 'R' { assert FiveGAt(mode, i); }
  }

  /** A signal row of this device and snapshot: the measured values in column order,
      the band in the one column the mode names, cell-info before the fallbacks. */
  ghost predicate TellsSignal(r: Row, dev: string, s: Snapshot) {
    && r.dev == dev && r.ts == s.at
    && r.vals == [Some(s.rsrp as real), Some(s.rsrq as real), Some(s.sinr as real), Some(s.rssi as real)]
    && r.info.SignalInfo? && r.info.pci == s.pci
    && (FiveG(s.mode) ==> r.info.nrBand == s.band && r.info.lteBand == "")
    && (!FiveG(s.mode) ==> r.info.lteBand == s.band && r.info.nrBand == "")
    && (s.serving.cellId != 0 ==> r.info.cellId == s.serving.cellId)
    && (s.serving.cellId == 0 ==> r.info.cellId == s.fallback.cellId)
    && (s.serving.earfcn != "" ==> r.info.earfcn == Number(s.serving.earfcn))
    && (s.serving.earfcn == "" ==> r.info.earfcn == Number(s.fallback.earfcn))
    && (s.serving.nrarfcn != "" ==> r.info.nrarfcn == Number(s.serving.nrarfcn))
    && (s.serving.nrarfcn == "" ==> r.info.nrarfcn == Number(s.fallback.nrarfcn))
  }

  ghost predicate TellsTraffic(r: Row, dev: string, s: Snapshot) {
    && r.dev == dev && r.ts == s.at && r.vals == [Some(s.rxRate), Some(s.txRate)]
    && r.info.TrafficInfo? && r.info.rxBytes == s.rxBytes && r.info.txBytes == s.txBytes
  }

  lemma RowsTell(dev: string, s: Snapshot)
    ensures TellsSignal(SignalRow(dev, s), dev, s) && TellsTraffic(TrafficRow(dev, s), dev, s)
  {
    FiveGExact(s.mode);
    hide FiveG, Contains, Upper, Number;
  }

  // ---- operations on the two tables ----

  datatype Tables = Tables(signal: seq<Row>, traffic: seq<Row>)

  /** Each flag says whether a statement succeeds. */
  datatype Op =
    | Put(dev: string, snap: Snapshot, signalOk: bool, trafficOk: bool)
    | Prune(now: int, signalOk: bool, trafficOk: bool)

  /** DELETE WHERE ts < cutoff */
  function Recent(rows: seq<Row>, cutoff: int): seq<Row> {
    if rows == [] then []
    else
      var front, r := Recent(rows[..|rows| - 1], cutoff), rows[|rows| - 1];
      if r.ts >= cutoff then front + [r] else front
  }

  function Putted(t: Tables, dev: string, s: Snapshot, signalOk: bool, trafficOk: bool): Tables {
    Tables(if s.online && s.hasSignal && signalOk then t.signal + [SignalRow(dev, s)] else t.signal,
           if s.online && s.hasTraffic && trafficOk then t.traffic + [TrafficRow(dev, s)] else t.traffic)
  }

  /** A failure on the first table leaves both alone, one on the second leaves the first pruned. */
  function Pruned(t: Tables, now: int, days: int, signalOk: bool, trafficOk: bool): Tables {
    if days <= 0 || !signalOk then t
    else
      var cutoff := now - days * DAY;
      Tables(Recent(t.signal, cutoff), if trafficOk then Recent(t.traffic, cutoff) else t.traffic)
  }

  function Apply(t: Tables, op: Op, days: int): Tables {
    match op
    case Put(dev, snap, sok, tok) => Putted(t, dev, snap, sok, tok)
    case Prune(now, sok, tok) => Pruned(t, now, days, sok, tok)
  }

  function Run(t: Tables, ops: seq<Op>, days: int): Tables {
    if ops == [] then t else Apply(Run(t, ops[..|ops| - 1], days), ops[|ops| - 1], days)
  }

  /** What is left holds each row from the cutoff on as often as before, nothing
      older, and every device's rows in the order they were in. */
  ghost predicate Keeps(left: seq<Row>, rows: seq<Row>, cutoff: int) {
    && (forall r :: multiset(left)[r] == if r.ts < cutoff then 0 else multiset(rows)[r])
    && (forall dev :: Window(left, dev, cutoff) == Window(rows, dev, cutoff))
  }

  lemma {:induction false} RecentCount(rows: seq<Row>, cutoff: int, r: Row)
    ensures multiset(Recent(rows, cutoff))[r] == if r.ts < cutoff then 0 else multiset(rows)[r]
    decreases |rows|
  {
    if rows != [] {
      assert rows == rows[..|rows| - 1] + [rows[|rows| - 1]];
      RecentCount(rows[..|rows| - 1], cutoff, r);
    }
  }

  lemma RecentKeeps(rows: seq<Row>, cutoff: int)
    ensures Keeps(Recent(rows, cutoff), rows, cutoff)
  {
    forall r ensures multiset(Recent(rows, cutoff))[r] == if r.ts < cutoff then 0 else multiset(rows)[r] {
      RecentCount(rows, cutoff, r);
    }
    forall dev ensures Window(Recent(rows, cutoff), dev, cutoff) == Window(rows, dev, cutoff) {
      WindowRecent(rows, cutoff, dev, cutoff);
    }
    hide Recent, Window;
  }

  class Store {
    var signal: seq<Row>
    var traffic: seq<Row>

    function View(): Tables
      reads this
    {
      Tables(signal, traffic)
    }

    /** PutSnapshot; db is false when history is disabled. */
    method PutSnapshot(db: bool, dev: string, s: Snapshot, signalOk: bool, trafficOk: bool)
      modifies this
      ensures View() == if db then Putted(old(View()), dev, s, signalOk, trafficOk) else old(View())
      ensures !db || !s.online ==> signal == old(signal) && traffic == old(traffic)
      ensures db && s.online && s.hasSignal && signalOk ==>
                exists r :: TellsSignal(r, dev, s) && signal == old(signal) + [r]
      ensures !s.hasSignal || !signalOk ==> signal == old(signal)
      ensures db && s.online && s.hasTraffic && trafficOk ==>
                exists r :: TellsTraffic(r, dev, s) && traffic == old(traffic) + [r]
      ensures !s.hasTraffic || !trafficOk ==> traffic == old(traffic)
    {
      RowsTell(dev, s);
      hide TellsSignal, TellsTraffic;
      if !db || !s.online {
        return;
      }
      if s.hasSignal {
        var lteBand, nrBand := [], [];
        var m := Upper(s.mode);
        if Contains(m, "5G") || Contains(m, "NR") {
          nrBand := s.band;
        } else {
          lteBand := s.band;
        }
        var earfcn := s.serving.earfcn;
        if earfcn == [] { earfcn := s.fallback.earfcn; }
        var nrarfcn := s.serving.nrarfcn;
        if nrarfcn == [] { nrarfcn := s.fallback.nrarfcn; }
        var cellId := s.serving.cellId;
        if cellId == 0 { cellId := s.fallback.cellId; }
        var earfcnI := Atoi64Safe(earfcn);
        var nrarfcnI := Atoi64Safe(nrarfcn);
        if signalOk {
          signal := signal + [Row(dev, s.at,
            [Some(s.rsrp as real), Some(s.rsrq as real), Some(s.sinr as real), Some(s.rssi as real)],
            SignalInfo(lteBand, nrBand, s.pci, cellId, earfcnI, nrarfcnI))];
        }
      }
      if s.hasTraffic && trafficOk {
        traffic := traffic + [Row(dev, s.at, [Some(s.rxRate), Some(s.txRate)], TrafficInfo(s.rxBytes, s.txBytes))];
      }
    }

    /** PruneHistory */
    method PruneHistory(now: int, days: int, signalOk: bool, trafficOk: bool) returns (ok: bool)
      modifies this
      ensures View() == Pruned(old(View()), now, days, signalOk, trafficOk)
      ensures ok == (days <= 0 || (signalOk && trafficOk))
      ensures days <= 0 || !signalOk ==> signal == old(signal) && traffic == old(traffic)
      ensures days > 0 && signalOk ==> Keeps(signal, old(signal), now - days * 86400)
      ensures days > 0 && signalOk && trafficOk ==> Keeps(traffic, old(traffic), now - days * 86400)
      ensures days > 0 && signalOk && !trafficOk ==> traffic == old(traffic)
    {
      if days <= 0 {
        return true;
      }
      var cutoff := now - days * DAY;
      RecentKeeps(signal, cutoff);
      RecentKeeps(traffic, cutoff);
      hide Recent, Keeps;
      if !signalOk { return false; }
      signal := Recent(signal, cutoff);
      if !trafficOk { return false; }
      traffic := Recent(traffic, cutoff);
      ok := true;
    }
  }

  // ---- what pruning does to the answers ----

  lemma {:induction false} WindowRecent(rows: seq<Row>, cutoff: int, dev: string, from: int)
    requires cutoff <= from
    ensures Window(Recent(rows, cutoff), dev, from) == Window(rows, dev, from)
    decreases |rows|
  {
    if rows != [] {
      var front, r := rows[..|rows| - 1], rows[|rows| - 1];
      WindowRecent(front, cutoff, dev, from);
      if r.ts >= cutoff { assert (Recent(front, cutoff) + [r])[..|Recent(front, cutoff)|] == Recent(front, cutoff); }
    }
  }

  lemma WindowSnoc(rows: seq<Row>, r: Row, dev: string, from: int)
    ensures Window(rows + [r], dev, from) == Window(rows, dev, from) + if r.dev == dev && r.ts >= from then [r] else []
  {
    assert (rows + [r])[..|rows|] == rows;
  }

  /** Both tables show dev the same rows from a time on. */
  predicate SameFrom(a: Tables, b: Tables, dev: string, from: int) {
    && Window(a.signal, dev, from) == Window(b.signal, dev, from)
    && Window(a.traffic, dev, from) == Window(b.traffic, dev, from)
  }

  /** The clock does not go back past a query: no prune runs after now. */
  predicate Timely(ops: seq<Op>, now: int) {
    forall i :: 0 <= i < |ops| ==> ops[i].Prune? ==> ops[i].now <= now
  }

  lemma SameAfterPut(a: Tables, b: Tables, op: Op, days: int, dev: string, from: int)
    requires op.Put? && SameFrom(a, b, dev, from)
    ensures SameFrom(Apply(a, op, days), Apply(b, op, 0), dev, from)
  {
    var s, t := SignalRow(op.dev, op.snap), TrafficRow(op.dev, op.snap);
    WindowSnoc(a.signal, s, dev, from);
    WindowSnoc(b.signal, s, dev, from);
    WindowSnoc(a.traffic, t, dev, from);
    WindowSnoc(b.traffic, t, dev, from);
    hide Window, SignalRow, TrafficRow;
  }

  lemma SameAfterPrune(a: Tables, b: Tables, op: Op, days: int, dev: string, from: int)
    requires op.Prune? && SameFrom(a, b, dev, from) && (days <= 0 || op.now - days * DAY <= from)
    ensures SameFrom(Apply(a, op, days), Apply(b, op, 0), dev, from)
  {
    if days > 0 {
      WindowRecent(a.signal, op.now - days * DAY, dev, from);
      WindowRecent(a.traffic, op.now - days * DAY, dev, from);
      hide Window, Recent;
    }
  }

  lemma SameAfterOp(a: Tables, b: Tables, op: Op, days: int, dev: string, from: int)
    requires SameFrom(a, b, dev, from) && (op.Prune? && days > 0 ==> op.now - days * DAY <= from)
    ensures SameFrom(Apply(a, op, days), Apply(b, op, 0), dev, from)
  {
    hide SameFrom, Apply;
    if op.Put? {
      SameAfterPut(a, b, op, days, dev, from);
    } else {
      SameAfterPrune(a, b, op, days, dev, from);
    }
  }

  lemma TimelyParts(ops: seq<Op>, now: int)
    requires Timely(ops, now) && ops != []
    ensures Timely(ops[..|ops| - 1], now) && (ops[|ops| - 1].Prune? ==> ops[|ops| - 1].now <= now)
  {
  }

  /** Retention 0 never prunes, so this compares a run with the same run unpruned. */
  lemma {:induction false} RunSame(t: Tables, ops: seq<Op>, days: int, dev: string, now: int, window: nat)
    requires Timely(ops, now) && (days <= 0 || window <= days * DAY)
    ensures SameFrom(Run(t, ops, days), Run(t, ops, 0), dev, now - window)
    decreases |ops|
  {
    hide Window, Apply, Timely;
    if ops != [] {
      hide SameFrom;
      var front, op := ops[..|ops| - 1], ops[|ops| - 1];
      TimelyParts(ops, now);
      RunSame(t, front, days, dev, now, window);
      SameAfterOp(Run(t, front, days), Run(t, front, 0), op, days, dev, now - window);
    }
  }

  // ---- the rows are the recordings ----

  /** The snapshots of a device that were recorded at or after a time, in order. */
  function SignalTaken(ops: seq<Op>, dev: string, from: int): seq<Snapshot> {
    if ops == [] then []
    else
      var front, op := SignalTaken(ops[..|ops| - 1], dev, from), ops[|ops| - 1];
      if op.Put? && op.dev == dev && op.snap.at >= from && op.snap.online && op.snap.hasSignal && op.signalOk
      then front + [op.snap] else front
  }

  function TrafficTaken(ops: seq<Op>, dev: string, from: int): seq<Snapshot> {
    if ops == [] then []
    else
      var front, op := TrafficTaken(ops[..|ops| - 1], dev, from), ops[|ops| - 1];
      if op.Put? && op.dev == dev && op.snap.at >= from && op.snap.online && op.snap.hasTraffic && op.trafficOk
      then front + [op.snap] else front
  }

  ghost predicate SignalRowsTell(rows: seq<Row>, dev: string, snaps: seq<Snapshot>) {
    |rows| == |snaps| && forall i :: 0 <= i < |rows| ==> TellsSignal(rows[i], dev, snaps[i])
  }

  ghost predicate TrafficRowsTell(rows: seq<Row>, dev: string, snaps: seq<Snapshot>) {
    |rows| == |snaps| && forall i :: 0 <= i < |rows| ==> TellsTraffic(rows[i], dev, snaps[i])
  }

  lemma {:induction false} SignalRecorded(ops: seq<Op>, dev: string, from: int)
    ensures SignalRowsTell(Window(Run(Tables([], []), ops, 0).signal, dev, from), dev, SignalTaken(ops, dev, from))
    decreases |ops|
  {
    if ops != [] {
      var front, op := ops[..|ops| - 1], ops[|ops| - 1];
      SignalRecorded(front, dev, from);
      if op.Put? {
        RowsTell(op.dev, op.snap);
        WindowSnoc(Run(Tables([], []), front, 0).signal, SignalRow(op.dev, op.snap), dev, from);
        hide Window, SignalRow, FiveG, Number;
      }
    }
  }

  lemma {:induction false} TrafficRecorded(ops: seq<Op>, dev: string, from: int)
    ensures TrafficRowsTell(Window(Run(Tables([], []), ops, 0).traffic, dev, from), dev, TrafficTaken(ops, dev, from))
    decreases |ops|
  {
    if ops != [] {
      var front, op := ops[..|ops| - 1], ops[|ops| - 1];
      TrafficRecorded(front, dev, from);
      if op.Put? {
        RowsTell(op.dev, op.snap);
        WindowSnoc(Run(Tables([], []), front, 0).traffic, TrafficRow(op.dev, op.snap), dev, from);
        hide Window, TrafficRow;
      }
    }
  }

  /** Over every run, prunes and failing statements included, the rows of a device in
      a window the retention covers are exactly its online recordings, in order. */
  lemma RowsAreRecordings(ops: seq<Op>, days: int, dev: string, now: int, window: nat)
    requires Timely(ops, now) && (days <= 0 || window <= days * DAY)
    ensures var t := Run(Tables([], []), ops, days);
            && SignalRowsTell(Window(t.signal, dev, now - window), dev, SignalTaken(ops, dev, now - window))
            && TrafficRowsTell(Window(t.traffic, dev, now - window), dev, TrafficTaken(ops, dev, now - window))
  {
    RunSame(Tables([], []), ops, days, dev, now, window);
    SignalRecorded(ops, dev, now - window);
    TrafficRecorded(ops, dev, now - window);
    hide Run, Window, SignalTaken, TrafficTaken, SignalRowsTell, TrafficRowsTell;
  }

  /** The clock does not go back between recordings. */
  predicate TakenInOrder(snaps: seq<Snapshot>) {
    forall i, j :: 0 <= i < j < |snaps| ==> snaps[i].at <= snaps[j].at
  }

  lemma {:induction false} SortSorted(rows: seq<Row>)
    requires InTimeOrder(rows)
    ensures SortByTime(rows) == rows
    decreases |rows|
  {
    if rows != [] {
      SortSorted(rows[..|rows| - 1]);
      assert rows == rows[..|rows| - 1] + [rows[|rows| - 1]];
    }
  }

  function SignalShown(s: Snapshot): Point {
    Point(s.at, [s.rsrp as real, s.rsrq as real, s.sinr as real, s.rssi as real])
  }

  function TrafficShown(s: Snapshot): Point {
    Point(s.at, [s.rxRate, s.txRate])
  }

  /** Up to the limit, rows in order make one point each. */
  lemma RawPoints(rows: seq<Row>, width: nat, points: seq<Point>)
    requires InTimeOrder(rows) && |rows| == |points| <= 7200
    requires forall i :: 0 <= i < |rows| ==> RowPoint(rows[i], width) == points[i]
    ensures RawSeries(rows, width) == points
  {
    SortSorted(rows);
    hide SortByTime, RowPoint;
    assert RawRows(rows) == rows;
    hide RawRows;
  }

  lemma SignalPoint(r: Row, dev: string, s: Snapshot)
    requires TellsSignal(r, dev, s)
    ensures RowPoint(r, 4) == SignalShown(s)
  {
    hide FiveG, Number;
  }

  lemma TrafficPoint(r: Row, dev: string, s: Snapshot)
    requires TellsTraffic(r, dev, s)
    ensures RowPoint(r, 2) == TrafficShown(s)
  {
  }

  lemma SignalPoints(rows: seq<Row>, dev: string, snaps: seq<Snapshot>)
    requires SignalRowsTell(rows, dev, snaps) && TakenInOrder(snaps) && |snaps| <= 7200
    ensures RawSeries(rows, 4) == seq(|snaps|, i requires 0 <= i < |snaps| => SignalShown(snaps[i]))
  {
    hide FiveG, Number, RowPoint, SignalShown, RawSeries;
    var points := seq(|snaps|, i requires 0 <= i < |snaps| => SignalShown(snaps[i]));
    forall i | 0 <= i < |rows| ensures RowPoint(rows[i], 4) == points[i] {
      SignalPoint(rows[i], dev, snaps[i]);
    }
    RawPoints(rows, 4, points);
  }

  lemma TrafficPoints(rows: seq<Row>, dev: string, snaps: seq<Snapshot>)
    requires TrafficRowsTell(rows, dev, snaps) && TakenInOrder(snaps) && |snaps| <= 7200
    ensures RawSeries(rows, 2) == seq(|snaps|, i requires 0 <= i < |snaps| => TrafficShown(snaps[i]))
  {
    hide RowPoint, TrafficShown, RawSeries;
    var points := seq(|snaps|, i requires 0 <= i < |snaps| => TrafficShown(snaps[i]));
    forall i | 0 <= i < |rows| ensures RowPoint(rows[i], 2) == points[i] {
      TrafficPoint(rows[i], dev, snaps[i]);
    }
    RawPoints(rows, 2, points);
  }

  lemma RawCharts(t: Tables, dev: string, now: int)
    ensures SignalSeries(t.signal, dev, now, "h1") == Some(RawSeries(Window(t.signal, dev, now - 3600), 4))
    ensures TrafficSeries(t.traffic, dev, now, "d1") == Some(RawSeries(Window(t.traffic, dev, now - 86400), 2))
  {
    hide RawSeries, Window;
  }

  /** From the recording to the answer: after any run the h1 chart lists the signal
      values of the device's online recordings of the last hour, the d1 chart the rates
      of the last day, up to the limit of 7200. */
  lemma ChartsShowRecordings(ops: seq<Op>, days: int, dev: string, now: int)
    requires Timely(ops, now)
    ensures var t, taken := Run(Tables([], []), ops, days), SignalTaken(ops, dev, now - 3600);
            TakenInOrder(taken) && |taken| <= 7200 ==>
              SignalSeries(t.signal, dev, now, "h1") ==
              Some(seq(|taken|, i requires 0 <= i < |taken| => SignalShown(taken[i])))
    ensures var t, taken := Run(Tables([], []), ops, days), TrafficTaken(ops, dev, now - 86400);
            TakenInOrder(taken) && |taken| <= 7200 ==>
              TrafficSeries(t.traffic, dev, now, "d1") ==
              Some(seq(|taken|, i requires 0 <= i < |taken| => TrafficShown(taken[i])))
  {
    var t := Run(Tables([], []), ops, days);
    var h, d := SignalTaken(ops, dev, now - 3600), TrafficTaken(ops, dev, now - 86400);
    RowsAreRecordings(ops, days, dev, now, 3600);
    RowsAreRecordings(ops, days, dev, now, 86400);
    RawCharts(t, dev, now);
    hide *;
    if TakenInOrder(h) && |h| <= 7200 {
      SignalPoints(Window(t.signal, dev, now - 3600), dev, h);
    }
    if TakenInOrder(d) && |d| <= 7200 {
      TrafficPoints(Window(t.traffic, dev, now - 86400), dev, d);
    }
  }

  /** Both series of a run, and of the run without its prunes, are the same. */
  ghost predicate Unaffected(ops: seq<Op>, days: int, dev: string, now: int, b: Bucket) {
    var pruned, full := Run(Tables([], []), ops, days), Run(Tables([], []), ops, 0);
    && Series(pruned.signal, dev, now, b, 4) == Series(full.signal, dev, now, b, 4)
    && Series(pruned.traffic, dev, now, b, 2) == Series(full.traffic, dev, now, b, 2)
  }

  lemma PruningHarmless(ops: seq<Op>, days: int, dev: string, now: int, b: Bucket)
    requires Timely(ops, now) && (days <= 0 || b.window <= days * DAY)
    ensures Unaffected(ops, days, dev, now, b)
  {
    RunSame(Tables([], []), ops, days, dev, now, b.window);
    hide Run, Window;
  }

  /** One online snapshot with a signal and no traffic. */
  function Probe(at: int): Snapshot {
    Snapshot(at, true, true, false, [], [], 0, 0, 0, 0, 0, Radio(0, [], []), Radio(0, [], []), 0, 0, 0.0, 0.0)
  }

  /** A snapshot recorded at the start of the window, then a prune. */
  function Loss(b: Bucket): seq<Op> {
    [Put([], Probe(0), true, true), Prune(b.window, true, true)]
  }

  lemma LossRun(b: Bucket, days: int)
    ensures Run(Tables([], []), Loss(b), days)
         == Apply(Apply(Tables([], []), Put([], Probe(0), true, true), days), Prune(b.window, true, true), days)
  {
    var ops := Loss(b);
    assert ops[..1] == [Put([], Probe(0), true, true)];
    assert ops[..1][..0] == [];
    hide Apply;
    assert Run(Tables([], []), ops[..1], days) == Apply(Tables([], []), Put([], Probe(0), true, true), days);
  }

  lemma OneRowRaw(r: Row, width: nat)
    ensures |RawSeries([r], width)| == 1
  {
    assert [r][..0] == [];
    assert SortByTime([r]) == [r];
  }

  lemma OneRowGrouped(r: Row, g: int, width: nat)
    requires g > 0
    ensures |GroupedSeries([r], g, width)| == 1
  {
    assert [r][..0] == [];
    hide Key;
    assert Groups([r], g) == AddRow([], r, g);
  }

  lemma OneRowSeries(r: Row, b: Bucket)
    requires r.dev == [] && r.ts == 0
    ensures |Series([r], [], b.window, b, 4)| == 1
    ensures Series([], [], b.window, b, 4) == []
  {
    assert [r][..0] == [];
    assert Window([r], [], 0) == [] + [r];
    assert Window([], [], 0) == [];
    assert b.group > 0 ==> GroupedSeries([], b.group, 4) == [];
    assert RawSeries([], 4) == [];
    hide Window, RawSeries, GroupedSeries;
    if b.group == 0 { OneRowRaw(r, 4); } else { OneRowGrouped(r, b.group, 4); }
  }

  lemma OneRowRecent(r: Row, cutoff: int)
    requires r.ts < cutoff
    ensures Recent([r], cutoff) == []
  {
    assert [r][..0] == [];
  }

  lemma LossSignal(days: int, b: Bucket)
    ensures days <= 0 ==> Run(Tables([], []), Loss(b), days).signal == [SignalRow([], Probe(0))]
    ensures 0 < days * DAY < b.window ==> Run(Tables([], []), Loss(b), days).signal == []
  {
    LossRun(b, days);
    var r := SignalRow([], Probe(0));
    assert [] + [r] == [r];
    if 0 < days * DAY < b.window { OneRowRecent(r, b.window - days * DAY); }
    hide Run, SignalRow, Recent;
  }

  lemma LossTimely(b: Bucket)
    ensures Timely(Loss(b), b.window)
  {
  }

  lemma PruningHarmful(days: int, b: Bucket)
    requires 0 < days * DAY < b.window
    ensures Timely(Loss(b), b.window) && !Unaffected(Loss(b), days, [], b.window, b)
  {
    LossTimely(b);
    LossSignal(days, b);
    LossSignal(0, b);
    OneRowSeries(SignalRow([], Probe(0)), b);
    hide Series, SignalRow, Run, Loss, Timely;
  }

  /** Pruning never shows in a series, whatever is recorded, pruned and failing in
      whatever order, exactly when there is no retention or it covers the window. */
  lemma PruningExact(days: int, b: Bucket)
    ensures (forall ops, dev, now | Timely(ops, now) :: Unaffected(ops, days, dev, now, b))
       <==> days <= 0 || b.window <= days * DAY
  {
    hide Timely, Unaffected, Loss;
    if days <= 0 || b.window <= days * DAY {
      forall ops, dev, now | Timely(ops, now) ensures Unaffected(ops, days, dev, now, b) {
        PruningHarmless(ops, days, dev, now, b);
      }
    } else {
      PruningHarmful(days, b);
    }
  }

  /** What the API answers after a run, and after the same run without its prunes. */
  ghost predicate ChartsUnaffected(ops: seq<Op>, days: int, dev: string, now: int, name: string) {
    var pruned, full := Run(Tables([], []), ops, days), Run(Tables([], []), ops, 0);
    && SignalSeries(pruned.signal, dev, now, name) == SignalSeries(full.signal, dev, now, name)
    && TrafficSeries(pruned.traffic, dev, now, name) == TrafficSeries(full.traffic, dev, now, name)
  }

  /** A retention at which no chart the API offers ever shows a prune. */
  ghost predicate SafeRetention(days: int) {
    forall name, ops, dev, now | Timely(ops, now) :: ChartsUnaffected(ops, days, dev, now, name)
  }

  lemma ChartsSafe(ops: seq<Op>, days: int, dev: string, now: int, name: string)
    requires Timely(ops, now) && (days <= 0 || days >= 30)
    ensures ChartsUnaffected(ops, days, dev, now, name)
  {
    var s, t := SignalBucket(name), TrafficBucket(name);
    if s.Some? { PruningHarmless(ops, days, dev, now, s.value); }
    if t.Some? { PruningHarmless(ops, days, dev, now, t.value); }
    hide Run, Series, Timely;
  }

  /** The signal part alone suffers in the losing run: it records no traffic. */
  lemma MonthSuffers(days: int)
    requires 0 < days < 30
    ensures var b := Bucket(30 * DAY, DAY);
            Timely(Loss(b), b.window) && !ChartsUnaffected(Loss(b), days, [], b.window, "d30")
  {
    var b := Bucket(30 * DAY, DAY);
    PruningHarmful(days, b);
    assert SignalBucket("d30") == Some(b) && TrafficBucket("d30") == Some(b);
    hide Run, Series, Timely, Loss;
  }

  /** The default of 30 days is the least retention at which no chart ever changes
      because of a prune. */
  lemma RetentionExact(days: int)
    ensures SafeRetention(days) <==> days <= 0 || days >= 30
  {
    hide Timely, ChartsUnaffected, Loss;
    if days <= 0 || days >= 30 {
      forall name, ops, dev, now | Timely(ops, now) ensures ChartsUnaffected(ops, days, dev, now, name) {
        ChartsSafe(ops, days, dev, now, name);
      }
    } else {
      MonthSuffers(days);
    }
  }
}
