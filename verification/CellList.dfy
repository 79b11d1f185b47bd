/** The adaptive-column CSV decoder for carrier-aggregation and neighbour cells,
    and the four layouts firmware prints. */
module CellList {
  import opened Common
  import opened Text

  // ---- strconv ----

  function Min(a: nat, b: nat): nat {
    if a < b then a else b
  }

  /** The digit loop of strconv.ParseUint: a value past max stops it with max. */
  function Scan(s: string, acc: nat, max: nat): Option<nat> {
    if s == [] then Some(acc)
    else if !IsDigit(s[0]) then None
    else
      var n: nat := acc * 10 + (s[0] as int - '0' as int);
      if n > max then Some(max) else Scan(s[1..], n, max)
  }

  /** What strconv.ParseInt returns beside its error, for integers of [-lim, lim). */
  function ParseInt(s: string, lim: int): int
    requires lim > 0
  {
    var neg := s != [] && s[0] == '-';
    var digits := if s != [] && (s[0] == '-' || s[0] == '+') then s[1..] else s;
    if digits == [] then 0
    else
      match Scan(digits, 0, 2 * lim - 1)
      case None => 0
      case Some(u) => var v: int := u; if neg then (if v > lim then -lim else -v) else (if v >= lim then lim - 1 else v)
  }

  /** atoiSafe and atoi64Safe */
  function AtoiSafe(s: string, lim: int): int
    requires lim > 0
  {
    ParseInt(TrimSpace(s), lim)
  }

  lemma {:induction false} ScanSnoc(s: string, c: char, acc: nat, max: nat)
    requires AllDigits(s) && IsDigit(c) && max > 0 && acc <= max
    ensures Scan(s, acc, max).Some?
    ensures Scan(s + [c], acc, max) == Some(Min(Scan(s, acc, max).value * 10 + (c as int - '0' as int), max))
    decreases |s|
  {
    if s == [] {
      assert s + [c] == [c];
      assert [c][1..] == [];
    } else {
      var n := acc * 10 + (s[0] as int - '0' as int);
      assert (s + [c])[1..] == s[1..] + [c];
      if n <= max { ScanSnoc(s[1..], c, n, max); }
    }
  }

  /** A numeral scans to its value, or to max when that is out of range. */
  lemma {:induction false} ScanDigits(s: string, max: nat)
    requires AllDigits(s) && max > 0
    ensures Scan(s, 0, max) == Some(Min(Decimal(s), max))
    decreases |s|
  {
    if s != [] {
      var front, c := s[..|s| - 1], s[|s| - 1];
      ScanDigits(front, max);
      ScanSnoc(front, c, 0, max);
      assert front + [c] == s;
    }
  }

  lemma PrintIntTight(n: int)
    ensures PrintInt(n) != [] && Tight(PrintInt(n))
  {
    var k: int := if n < 0 then -n else n;
    var d := PrintNat(k);
    assert IsDigit(d[0]) && IsDigit(d[|d| - 1]);
  }

  function Clamp(n: int, lim: int): int {
    if n < -lim then -lim else if n >= lim then lim - 1 else n
  }

  /** Decoding a printed integer clamps it to the range and does nothing else. */
  lemma AtoiPrint(n: int, lim: int)
    requires lim > 0
    ensures AtoiSafe(PrintInt(n), lim) == Clamp(n, lim)
  {
    PrintIntTight(n);
    TrimTight(PrintInt(n));
    var k: int := if n < 0 then -n else n;
    var d := PrintNat(k);
    ScanDigits(d, 2 * lim - 1);
    DecimalPrintNat(k);
    assert IsDigit(d[0]);
    if n < 0 { assert PrintInt(n)[1..] == d; }
  }

  predicate Blanks(s: string) {
    forall i :: 0 <= i < |s| ==> IsSpace(s[i])
  }

  lemma {:induction false} TrimLeftBlanks(pad: string, s: string)
    requires Blanks(pad)
    ensures TrimLeft(pad + s) == TrimLeft(s)
    decreases |pad|
  {
    hide IsSpace;
    if pad == [] {
      assert pad + s == s;
    } else {
      assert (pad + s)[1..] == pad[1..] + s && (pad + s)[0] == pad[0];
      TrimLeftBlanks(pad[1..], s);
    }
  }

  lemma {:induction false} TrimRightBlanks(s: string, pad: string)
    requires Blanks(pad)
    ensures TrimRight(s + pad) == TrimRight(s)
    decreases |pad|
  {
    hide IsSpace;
    if pad == [] {
      assert s + pad == s;
    } else {
      var n := |pad| - 1;
      assert (s + pad)[..|s + pad| - 1] == s + pad[..n] && (s + pad)[|s + pad| - 1] == pad[n];
      TrimRightBlanks(s, pad[..n]);
    }
  }

  /** Blanks around a number do not matter. */
  lemma AtoiPadded(front: string, n: int, back: string, lim: int)
    requires lim > 0 && Blanks(front) && Blanks(back)
    ensures AtoiSafe(front + PrintInt(n) + back, lim) == Clamp(n, lim)
  {
    var d := PrintInt(n);
    PrintIntTight(n);
    AtoiPrint(n, lim);
    TrimTight(d);
    assert front + d + back == front + (d + back);
    TrimLeftBlanks(front, d + back);
    assert TrimLeft(d + back) == d + back by { assert (d + back)[0] == d[0]; }
    TrimRightBlanks(d, back);
    assert TrimLeft(d) == d;
  }

  // ---- strings.Split and strings.FieldsFunc ----

  function Split(s: string): (r: seq<string>)
    ensures r != []
  {
    if s == [] then [[]]
    else
      var r := Split(s[1..]);
      if s[0] == ',' then [[]] + r else [[s[0]] + r[0]] + r[1..]
  }

  function Join(fields: seq<string>): string
    requires fields != []
  {
    if |fields| == 1 then fields[0] else fields[0] + "," + Join(fields[1..])
  }

  predicate IsBreak(c: char) {
    c == ';' || c == '\n' || c == '\r' || c == '|'
  }

  /** The text before the first break, and the rest. */
  function Span(s: string): (r: (string, string))
    ensures r.0 + r.1 == s
    ensures s != [] && !IsBreak(s[0]) ==> |r.1| < |s|
  {
    if s == [] || IsBreak(s[0]) then ([], s)
    else var (w, rest) := Span(s[1..]); ([s[0]] + w, rest)
  }

  function Lines(s: string): seq<string>
    decreases |s|
  {
    if s == [] then []
    else if IsBreak(s[0]) then Lines(s[1..])
    else [Span(s).0] + Lines(Span(s).1)
  }

  lemma {:induction false} SplitWord(f: string, rest: string)
    requires ',' !in f
    ensures Split(f) == [f]
    ensures Split(f + "," + rest) == [f] + Split(rest)
    decreases |f|
  {
    if f == [] {
      assert f + "," + rest == "," + rest;
      assert ("," + rest)[1..] == rest;
    } else {
      SplitWord(f[1..], rest);
      assert (f + "," + rest)[1..] == f[1..] + "," + rest;
      assert [f[0]] + f[1..] == f;
    }
  }

  lemma {:induction false} SplitJoin(fields: seq<string>)
    requires fields != [] && forall i :: 0 <= i < |fields| ==> ',' !in fields[i]
    ensures Split(Join(fields)) == fields
    decreases |fields|
  {
    if |fields| == 1 {
      SplitWord(fields[0], []);
    } else {
      SplitWord(fields[0], Join(fields[1..]));
      SplitJoin(fields[1..]);
    }
  }

  predicate Unbroken(s: string) {
    forall i :: 0 <= i < |s| ==> !IsBreak(s[i])
  }

  predicate AllBreaks(s: string) {
    forall i :: 0 <= i < |s| ==> IsBreak(s[i])
  }

  lemma {:induction false} SpanUnbroken(w: string, rest: string)
    requires Unbroken(w) && (rest == [] || IsBreak(rest[0]))
    ensures Span(w + rest) == (w, rest)
    decreases |w|
  {
    if w == [] {
      assert w + rest == rest;
    } else {
      SpanUnbroken(w[1..], rest);
      assert (w + rest)[1..] == w[1..] + rest && (w + rest)[0] == w[0];
      assert [w[0]] + w[1..] == w;
    }
  }

  lemma {:induction false} LinesSkip(gap: string, rest: string)
    requires AllBreaks(gap)
    ensures Lines(gap + rest) == Lines(rest)
    decreases |gap|
  {
    if gap == [] {
      assert gap + rest == rest;
    } else {
      LinesSkip(gap[1..], rest);
      assert (gap + rest)[1..] == gap[1..] + rest;
    }
  }

  lemma LinesCons(line: string, gap: string, rest: string)
    requires line != [] && Unbroken(line) && AllBreaks(gap) && (gap == [] ==> rest == [])
    ensures Lines(line + gap + rest) == [line] + Lines(rest)
  {
    var v := line + gap + rest;
    assert v == line + (gap + rest) && v[0] == line[0];
    SpanUnbroken(line, gap + rest);
    assert Span(v).0 == line && Span(v).1 == gap + rest;
    assert Lines(v) == [line] + Lines(gap + rest);
    LinesSkip(gap, rest);
  }

  // ---- cells ----

  datatype Cell = Cell(arfcn: string, band: string, bw: int, pci: int,
                       rsrp: int, rsrq: int, rssi: int, sinr: int, cellId: int)

  /** The cell a row of at least seven columns stands for. */
  function CellOf(f: seq<string>, lim: int): Cell
    requires |f| >= 7 && lim > 0
  {
    var k := if WithBandwidth(f, lim) then 3 else 2;
    Cell(TrimSpace(f[0]), TrimSpace(f[1]), if k == 3 then AtoiSafe(f[2], lim) else 0,
         AtoiSafe(f[k], lim), AtoiSafe(f[k + 1], lim), AtoiSafe(f[k + 2], lim),
         AtoiSafe(f[k + 3], lim), AtoiSafe(f[k + 4], lim),
         if |f| > k + 5 then AtoiSafe(f[k + 5], TWO_63) else 0)
  }

  /** Whether the third column is taken for the bandwidth. */
  predicate WithBandwidth(f: seq<string>, lim: int)
    requires |f| >= 7 && lim > 0
  {
    |f| >= 9 || (|f| == 8 && AtoiSafe(f[2], lim) <= 100 && AtoiSafe(f[3], lim) > AtoiSafe(f[2], lim))
  }

  function RowCell(line: string, lim: int): Option<Cell>
    requires lim > 0
  {
    var f := Split(TrimSpace(line));
    if |f| < 7 then None else Some(CellOf(f, lim))
  }

  function RowCells(lines: seq<string>, lim: int): seq<Cell>
    requires lim > 0
  {
    if lines == [] then []
    else (if RowCell(lines[0], lim).Some? then [RowCell(lines[0], lim).value] else []) + RowCells(lines[1..], lim)
  }

  /** secCellCSV */
  method SecCellCsv(line: string, lim: int) returns (c: Cell, ok: bool)
    requires lim > 0
    ensures ok == RowCell(line, lim).Some?
    ensures ok ==> c == RowCell(line, lim).value
    ensures !ok ==> c == Cell([], [], 0, 0, 0, 0, 0, 0, 0)
  {
    c := Cell([], [], 0, 0, 0, 0, 0, 0, 0);
    var fields := Split(TrimSpace(line));
    if |fields| < 7 {
      return c, false;
    }
    c := c.(arfcn := TrimSpace(fields[0]), band := TrimSpace(fields[1]));
    var idx := 2;
    if |fields| >= 9 {
      c := c.(bw := AtoiSafe(fields[2], lim));
      idx := 3;
    } else if |fields| == 8 && AtoiSafe(fields[2], lim) <= 100
        && AtoiSafe(fields[3], lim) > AtoiSafe(fields[2], lim) {
      c := c.(bw := AtoiSafe(fields[2], lim));
      idx := 3;
    }
    c := c.(pci := AtoiSafe(fields[idx], lim));
    c := c.(rsrp := AtoiSafe(fields[idx + 1], lim));
    c := c.(rsrq := AtoiSafe(fields[idx + 2], lim));
    c := c.(rssi := AtoiSafe(fields[idx + 3], lim));
    c := c.(sinr := AtoiSafe(fields[idx + 4], lim));
    if |fields| >= idx + 6 {
      c := c.(cellId := AtoiSafe(fields[idx + 5], TWO_63));
    }
    ok := true;
  }

  lemma {:induction false} RowCellsSnoc(lines: seq<string>, line: string, lim: int)
    requires lim > 0
    ensures RowCells(lines + [line], lim)
         == RowCells(lines, lim) + (if RowCell(line, lim).Some? then [RowCell(line, lim).value] else [])
  {
    hide RowCell;
    if lines == [] {
      assert [] + [line] == [line] && [line][1..] == [];
    } else {
      RowCellsSnoc(lines[1..], line, lim);
      assert (lines + [line])[1..] == lines[1..] + [line];
    }
  }

  /** parseCellList */
  method ParseCellList(v: string, lim: int) returns (out: seq<Cell>)
    requires lim > 0
    ensures out == RowCells(Lines(v), lim)
  {
    var lines := Lines(v);
    out := [];
    for i := 0 to |lines|
      invariant out == RowCells(lines[..i], lim)
    {
      assert lines[..i + 1] == lines[..i] + [lines[i]];
      RowCellsSnoc(lines[..i], lines[i], lim);
      var c, ok := SecCellCsv(lines[i], lim);
      if ok {
        out := out + [c];
      }
    }
    assert lines[..|lines|] == lines;
  }

  // ---- what firmware prints ----

  datatype Layout = Cols7 | Cols8Bandwidth | Cols8CellId | Cols9

  function Columns(c: Cell, l: Layout): (r: seq<string>)
    ensures 7 <= |r| <= 9
  {
    match l
    case Cols7 =>
      [c.arfcn, c.band, PrintInt(c.pci), PrintInt(c.rsrp), PrintInt(c.rsrq), PrintInt(c.rssi), PrintInt(c.sinr)]
    case Cols8Bandwidth =>
      [c.arfcn, c.band, PrintInt(c.bw), PrintInt(c.pci), PrintInt(c.rsrp), PrintInt(c.rsrq), PrintInt(c.rssi),
       PrintInt(c.sinr)]
    case Cols8CellId =>
      [c.arfcn, c.band, PrintInt(c.pci), PrintInt(c.rsrp), PrintInt(c.rsrq), PrintInt(c.rssi), PrintInt(c.sinr),
       PrintInt(c.cellId)]
    case Cols9 =>
      [c.arfcn, c.band, PrintInt(c.bw), PrintInt(c.pci), PrintInt(c.rsrp), PrintInt(c.rsrq), PrintInt(c.rssi),
       PrintInt(c.sinr), PrintInt(c.cellId)]
  }

  function Row(c: Cell, l: Layout): string {
    Join(Columns(c, l))
  }

  /** The part of a cell that a layout carries. */
  function Carried(c: Cell, l: Layout): Cell {
    match l
    case Cols7 => c.(bw := 0, cellId := 0)
    case Cols8Bandwidth => c.(cellId := 0)
    case Cols8CellId => c.(bw := 0)
    case Cols9 => c
  }

  predicate PlainText(s: string) {
    Tight(s) && ',' !in s && Unbroken(s)
  }

  /** Texts without blanks at the ends, commas or breaks; numbers of the field widths. */
  predicate Printable(c: Cell, lim: int) {
    && PlainText(c.arfcn) && PlainText(c.band)
    && -lim <= c.bw < lim && -lim <= c.pci < lim && -lim <= c.rsrp < lim && -lim <= c.rsrq < lim
    && -lim <= c.rssi < lim && -lim <= c.sinr < lim && -TWO_63 <= c.cellId < TWO_63
  }

  /** Which rows the decoder reads as they were meant. */
  predicate Unambiguous(c: Cell, l: Layout) {
    match l
    case Cols7 => true
    case Cols8Bandwidth =>
      (c.bw <= 100 && c.pci > c.bw) || c.bw == c.pci == c.rsrp == c.rsrq == c.rssi == c.sinr == 0
    case Cols8CellId => c.pci > 100 || c.rsrp <= c.pci
    case Cols9 => true
  }

  lemma PrintIntPlain(n: int)
    ensures PlainText(PrintInt(n))
  {
    PrintIntTight(n);
    var k: int := if n < 0 then -n else n;
    var d := PrintNat(k);
    assert forall i :: 0 <= i < |d| ==> IsDigit(d[i]);
  }

  function Numbers(c: Cell, l: Layout): (r: seq<int>)
    ensures |r| == |Columns(c, l)| - 2
  {
    match l
    case Cols7 => [c.pci, c.rsrp, c.rsrq, c.rssi, c.sinr]
    case Cols8Bandwidth => [c.bw, c.pci, c.rsrp, c.rsrq, c.rssi, c.sinr]
    case Cols8CellId => [c.pci, c.rsrp, c.rsrq, c.rssi, c.sinr, c.cellId]
    case Cols9 => [c.bw, c.pci, c.rsrp, c.rsrq, c.rssi, c.sinr, c.cellId]
  }

  lemma ColumnsNumbers(c: Cell, l: Layout)
    ensures forall i :: 2 <= i < |Columns(c, l)| ==> Columns(c, l)[i] == PrintInt(Numbers(c, l)[i - 2])
    ensures Columns(c, l)[0] == c.arfcn && Columns(c, l)[1] == c.band
  {
    hide PrintInt;
  }

  lemma ColumnsPlain(c: Cell, l: Layout, lim: int)
    requires Printable(c, lim)
    ensures forall i :: 0 <= i < |Columns(c, l)| ==> PlainText(Columns(c, l)[i])
    ensures Columns(c, l)[|Columns(c, l)| - 1] != []
  {
    var f, n := Columns(c, l), Numbers(c, l);
    ColumnsNumbers(c, l);
    assert PlainText(f[0]) && PlainText(f[1]);
    PrintIntTight(n[|n| - 1]);
    hide *;
    forall i | 0 <= i < |f| ensures PlainText(f[i]) {
      if i >= 2 { PrintIntPlain(n[i - 2]); }
    }
  }

  lemma {:induction false} JoinPlain(fields: seq<string>)
    requires fields != [] && forall i :: 0 <= i < |fields| ==> PlainText(fields[i])
    requires fields[|fields| - 1] != []
    ensures Join(fields) != [] && Tight(Join(fields)) && Unbroken(Join(fields))
    decreases |fields|
  {
    if |fields| > 1 {
      JoinPlain(fields[1..]);
      var rest := Join(fields[1..]);
      var s := fields[0] + "," + rest;
      assert s[|s| - 1] == rest[|rest| - 1];
      assert s[0] == if fields[0] == [] then ',' else fields[0][0];
    }
  }

  /** A printed row splits into the columns it was printed from. */
  lemma RowSplits(c: Cell, l: Layout, lim: int)
    requires Printable(c, lim)
    ensures Row(c, l) != [] && Unbroken(Row(c, l))
    ensures Split(TrimSpace(Row(c, l))) == Columns(c, l)
  {
    ColumnsPlain(c, l, lim);
    JoinPlain(Columns(c, l));
    TrimTight(Row(c, l));
    SplitJoin(Columns(c, l));
  }

  /** The decoder on the numbers of a row. */
  function FromNumbers(arfcn: string, band: string, n: seq<int>, lim: int): Cell
    requires 5 <= |n| <= 7
  {
    var wide := |n| == 7 || (|n| == 6 && Clamp(n[0], lim) <= 100 && Clamp(n[1], lim) > Clamp(n[0], lim));
    var k := if wide then 1 else 0;
    Cell(arfcn, band, if wide then Clamp(n[0], lim) else 0, Clamp(n[k], lim), Clamp(n[k + 1], lim),
         Clamp(n[k + 2], lim), Clamp(n[k + 3], lim), Clamp(n[k + 4], lim),
         if |n| > k + 5 then Clamp(n[k + 5], TWO_63) else 0)
  }

  lemma CellOfNumbers(f: seq<string>, n: seq<int>, lim: int)
    requires 7 <= |f| <= 9 && |n| == |f| - 2 && lim > 0
    requires forall i :: 2 <= i < |f| ==> f[i] == PrintInt(n[i - 2])
    ensures CellOf(f, lim) == FromNumbers(TrimSpace(f[0]), TrimSpace(f[1]), n, lim)
  {
    hide AtoiSafe, TrimSpace, Clamp, PrintInt;
    forall i | 2 <= i < |f| ensures AtoiSafe(f[i], lim) == Clamp(n[i - 2], lim) {
      AtoiPrint(n[i - 2], lim);
    }
    forall i | 7 <= i < |f| ensures AtoiSafe(f[i], TWO_63) == Clamp(n[i - 2], TWO_63) {
      AtoiPrint(n[i - 2], TWO_63);
    }
  }

  lemma NumbersExact(c: Cell, l: Layout, lim: int)
    requires 0 < lim <= TWO_63 && Printable(c, lim)
    ensures FromNumbers(c.arfcn, c.band, Numbers(c, l), lim) == Carried(c, l) <==> Unambiguous(c, l)
  {
    hide PlainText;
  }

  /** A row decodes to the carried part of its cell exactly when it is unambiguous. */
  lemma RowExact(c: Cell, l: Layout, lim: int)
    requires 0 < lim <= TWO_63 && Printable(c, lim)
    ensures RowCell(Row(c, l), lim).Some?
    ensures RowCell(Row(c, l), lim).value == Carried(c, l) <==> Unambiguous(c, l)
  {
    RowSplits(c, l, lim);
    assert RowCell(Row(c, l), lim) == Some(CellOf(Columns(c, l), lim));
    TrimTight(c.arfcn);
    TrimTight(c.band);
    NumbersExact(c, l, lim);
    hide *;
    ColumnsNumbers(c, l);
    CellOfNumbers(Columns(c, l), Numbers(c, l), lim);
  }

  // ---- short and long rows ----

  function Commas(s: string): nat {
    if s == [] then 0 else (if s[0] == ',' then 1 else 0) + Commas(s[1..])
  }

  lemma {:induction false} SplitCount(s: string)
    ensures |Split(s)| == Commas(s) + 1
    decreases |s|
  {
    if s != [] { SplitCount(s[1..]); }
  }

  /** A row is dropped exactly when it has fewer than six commas. */
  lemma RejectedExact(line: string, lim: int)
    requires lim > 0
    ensures RowCell(line, lim).None? <==> Commas(TrimSpace(line)) < 6
  {
    SplitCount(TrimSpace(line));
    hide TrimSpace, Commas, Split;
  }

  lemma {:induction false} SplitMore(fields: seq<string>, more: string)
    requires fields != [] && forall i :: 0 <= i < |fields| ==> ',' !in fields[i]
    ensures Split(Join(fields) + "," + more) == fields + Split(more)
    decreases |fields|
  {
    hide Split;
    if |fields| == 1 {
      SplitWord(fields[0], more);
      assert fields == [fields[0]];
    } else {
      var rest := Join(fields[1..]);
      SplitMore(fields[1..], more);
      SplitWord(fields[0], rest + "," + more);
      assert Join(fields) + "," + more == fields[0] + "," + (rest + "," + more);
      assert [fields[0]] + (fields[1..] + Split(more)) == fields + Split(more);
    }
  }

  lemma FirstNine(f: seq<string>, more: seq<string>, lim: int)
    requires |f| == 9 && lim > 0
    ensures CellOf(f + more, lim) == CellOf(f, lim)
  {
    hide AtoiSafe, TrimSpace;
  }

  /** Columns past the ninth do not matter, whatever they hold. */
  lemma LongRow(c: Cell, more: string, lim: int)
    requires 0 < lim <= TWO_63 && Printable(c, lim) && more != [] && !IsSpace(more[|more| - 1])
    ensures RowCell(Row(c, Cols9) + "," + more, lim) == Some(c)
  {
    var f, line := Columns(c, Cols9), Row(c, Cols9) + "," + more;
    RowExact(c, Cols9, lim);
    RowSplits(c, Cols9, lim);
    ColumnsPlain(c, Cols9, lim);
    JoinPlain(f);
    assert line[0] == Row(c, Cols9)[0] && line[|line| - 1] == more[|more| - 1];
    TrimTight(line);
    assert forall i :: 0 <= i < |f| ==> PlainText(f[i]);
    hide Split, IsSpace, Join, CellOf, TrimSpace;
    SplitMore(f, more);
    FirstNine(f, Split(more), lim);
  }

  // ---- lists ----

  /** A printed row and the breaks after it. */
  datatype Item = Item(cell: Cell, layout: Layout, gap: string)

  function PrintList(items: seq<Item>): string {
    if items == [] then [] else Row(items[0].cell, items[0].layout) + items[0].gap + PrintList(items[1..])
  }

  predicate WellFormed(items: seq<Item>, lim: int) {
    forall i :: 0 <= i < |items| ==>
      Printable(items[i].cell, lim) && AllBreaks(items[i].gap) && (i < |items| - 1 ==> items[i].gap != [])
  }

  function CarriedAll(items: seq<Item>): (r: seq<Cell>)
    ensures |r| == |items|
  {
    seq(|items|, i requires 0 <= i < |items| => Carried(items[i].cell, items[i].layout))
  }

  /** The decoded cell is the item's carried part exactly when its row is unambiguous. */
  predicate Matches(cell: Cell, it: Item) {
    cell == Carried(it.cell, it.layout) <==> Unambiguous(it.cell, it.layout)
  }

  lemma ListTail(items: seq<Item>, lim: int)
    requires WellFormed(items, lim) && items != []
    ensures WellFormed(items[1..], lim)
    ensures Printable(items[0].cell, lim) && AllBreaks(items[0].gap)
    ensures items[0].gap == [] ==> PrintList(items[1..]) == []
  {
    hide Printable, AllBreaks;
    assert forall i :: 0 <= i < |items[1..]| ==> items[1..][i] == items[i + 1];
    assert Printable(items[0].cell, lim);
  }

  lemma ListHead(items: seq<Item>, lim: int)
    requires 0 < lim <= TWO_63 && WellFormed(items, lim) && items != []
    ensures var row := Row(items[0].cell, items[0].layout);
            && RowCell(row, lim).Some? && Matches(RowCell(row, lim).value, items[0])
            && Lines(PrintList(items)) == [row] + Lines(PrintList(items[1..]))
  {
    var it := items[0];
    ListTail(items, lim);
    RowExact(it.cell, it.layout, lim);
    assert Matches(RowCell(Row(it.cell, it.layout), lim).value, it);
    hide *;
    RowSplits(it.cell, it.layout, lim);
    PrintCons(items);
    LinesCons(Row(it.cell, it.layout), it.gap, PrintList(items[1..]));
  }

  lemma {:induction false} ListCells(items: seq<Item>, lim: int)
    requires 0 < lim <= TWO_63 && WellFormed(items, lim)
    ensures AllMatch(RowCells(Lines(PrintList(items)), lim), items)
    decreases |items|
  {
    if items != [] {
      ListHead(items, lim);
      ListTail(items, lim);
      var row := Row(items[0].cell, items[0].layout);
      hide *;
      ListCells(items[1..], lim);
      RowCellsCons(row, Lines(PrintList(items[1..])), lim);
      AllMatchCons(RowCell(row, lim).value, RowCells(Lines(PrintList(items[1..])), lim), items);
    }
  }

  ghost predicate AllMatch(cells: seq<Cell>, items: seq<Item>) {
    |cells| == |items| && forall i :: 0 <= i < |items| ==> Matches(cells[i], items[i])
  }

  lemma AllMatchCons(cell: Cell, more: seq<Cell>, items: seq<Item>)
    requires items != [] && Matches(cell, items[0]) && AllMatch(more, items[1..])
    ensures AllMatch([cell] + more, items)
  {
    hide Matches;
    forall i | 0 <= i < |items| ensures Matches(([cell] + more)[i], items[i]) {
      if i > 0 { assert items[i] == items[1..][i - 1]; }
    }
  }

  lemma PrintCons(items: seq<Item>)
    requires items != []
    ensures PrintList(items) == Row(items[0].cell, items[0].layout) + items[0].gap + PrintList(items[1..])
  {
  }

  lemma RowCellsCons(line: string, lines: seq<string>, lim: int)
    requires lim > 0 && RowCell(line, lim).Some?
    ensures RowCells([line] + lines, lim) == [RowCell(line, lim).value] + RowCells(lines, lim)
  {
    assert ([line] + lines)[1..] == lines;
  }

  /** A list printed in any mix of layouts is recovered cell by cell, in order,
      exactly when every row is unambiguous. */
  lemma ListExact(items: seq<Item>, lim: int)
    requires 0 < lim <= TWO_63 && WellFormed(items, lim)
    ensures |RowCells(Lines(PrintList(items)), lim)| == |items|
    ensures RowCells(Lines(PrintList(items)), lim) == CarriedAll(items)
       <==> forall i :: 0 <= i < |items| ==> Unambiguous(items[i].cell, items[i].layout)
  {
    ListCells(items, lim);
    var cells := RowCells(Lines(PrintList(items)), lim);
    assert forall i :: 0 <= i < |items| ==>
      (cells[i] == Carried(items[i].cell, items[i].layout) <==> Unambiguous(items[i].cell, items[i].layout)) by {
      assert forall i :: 0 <= i < |items| ==> Matches(cells[i], items[i]);
    }
    hide Carried, Unambiguous, PrintList, RowCells, WellFormed, Matches;
    if forall i :: 0 <= i < |items| ==> Unambiguous(items[i].cell, items[i].layout) {
      assert forall i :: 0 <= i < |items| ==> cells[i] == CarriedAll(items)[i];
    }
    if cells == CarriedAll(items) {
      assert forall i :: 0 <= i < |items| ==> cells[i] == CarriedAll(items)[i];
    }
  }

  /** Real measurements are never misread: a bandwidth of at most 100 MHz below the
      PCI, and a negative signal strength beside a PCI that is not. */
  lemma MeasurementsUnambiguous(c: Cell, l: Layout)
    requires 0 <= c.bw <= 100 && c.pci > c.bw && c.rsrp < 0
    ensures Unambiguous(c, l)
  {
  }
}
