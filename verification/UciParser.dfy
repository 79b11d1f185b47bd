/** The UCI parser: a quote-aware field splitter, a line classifier, and the
    assembly of sections. */
module UciParser {
  import opened Common
  import opened Text

  // ---- fields ----

  predicate IsQuote(c: char) {
    c == '\'' || c == '"'
  }

  predicate IsBlank(c: char) {
    c == ' ' || c == '\t' || c == '\r' || c == '\n'
  }

  /** The text up to the closing quote, and what follows it. */
  function Quoted(s: string, q: char): (r: (string, string))
    ensures |r.1| <= |s|
  {
    if s == [] then ([], [])
    else if s[0] == q then ([], s[1..])
    else var (body, rest) := Quoted(s[1..], q); ([s[0]] + body, rest)
  }

  /** A word runs to the next unquoted blank; quoted chunks contribute their text. */
  function Word(s: string): (r: (string, string))
    ensures |r.1| <= |s|
    ensures s != [] && !IsBlank(s[0]) ==> |r.1| < |s|
    decreases |s|
  {
    if s == [] || IsBlank(s[0]) then ([], s)
    else if IsQuote(s[0]) then
      var (body, rest) := Quoted(s[1..], s[0]);
      var (w, rest') := Word(rest);
      (body + w, rest')
    else
      var (w, rest) := Word(s[1..]);
      ([s[0]] + w, rest)
  }

  function NonEmpty(w: string): seq<string> {
    if w == [] then [] else [w]
  }

  /** The fields of a line: its words, without the empty ones. */
  function Fields(s: string): seq<string>
    decreases |s|
  {
    if s == [] then []
    else if IsBlank(s[0]) then Fields(s[1..])
    else var (w, rest) := Word(s); NonEmpty(w) + Fields(rest)
  }

  /** The fields still to come when cur of the current word has been read. */
  function FieldsFrom(cur: string, s: string): seq<string> {
    var (w, rest) := Word(s);
    NonEmpty(cur + w) + Fields(rest)
  }

  function FieldsInside(quote: Option<char>, cur: string, s: string): seq<string> {
    match quote
    case None => FieldsFrom(cur, s)
    case Some(q) => var (body, rest) := Quoted(s, q); FieldsFrom(cur + body, rest)
  }

  lemma FieldsFromStart(s: string)
    ensures FieldsFrom([], s) == Fields(s)
  {
    var (w, rest) := Word(s);
    assert [] + w == w;
  }

  lemma StepCloseQuote(q: char, cur: string, s: string)
    requires s != [] && s[0] == q
    ensures FieldsInside(Some(q), cur, s) == FieldsInside(None, cur, s[1..])
  {
    assert cur + [] == cur;
  }

  lemma StepQuotedChar(q: char, cur: string, s: string)
    requires s != [] && s[0] != q
    ensures FieldsInside(Some(q), cur, s) == FieldsInside(Some(q), cur + [s[0]], s[1..])
  {
    var (body, rest) := Quoted(s[1..], q);
    assert cur + ([s[0]] + body) == cur + [s[0]] + body;
  }

  lemma StepOpenQuote(cur: string, s: string)
    requires s != [] && IsQuote(s[0])
    ensures FieldsInside(None, cur, s) == FieldsInside(Some(s[0]), cur, s[1..])
  {
    var (body, rest) := Quoted(s[1..], s[0]);
    var (w, rest') := Word(rest);
    assert cur + (body + w) == cur + body + w;
  }

  lemma StepBlank(cur: string, s: string)
    requires s != [] && IsBlank(s[0])
    ensures FieldsInside(None, cur, s) == NonEmpty(cur) + FieldsInside(None, [], s[1..])
  {
    FieldsFromStart(s[1..]);
    assert cur + [] == cur;
  }

  lemma StepChar(cur: string, s: string)
    requires s != [] && !IsBlank(s[0]) && !IsQuote(s[0])
    ensures FieldsInside(None, cur, s) == FieldsInside(None, cur + [s[0]], s[1..])
  {
    var (w, rest) := Word(s[1..]);
    assert cur + ([s[0]] + w) == cur + [s[0]] + w;
  }

  /** No field is empty: a quoted empty value leaves no trace. */
  lemma {:induction false} FieldsNonEmpty(s: string)
    ensures forall i :: 0 <= i < |Fields(s)| ==> Fields(s)[i] != []
    decreases |s|
  {
    if s != [] {
      if IsBlank(s[0]) { FieldsNonEmpty(s[1..]); } else { FieldsNonEmpty(Word(s).1); }
    }
  }

  lemma FieldsEnd(quote: Option<char>, cur: string)
    ensures FieldsInside(quote, cur, []) == NonEmpty(cur)
  {
    assert cur + [] == cur;
  }

  lemma BlankEndsWord(fields: seq<string>, cur: string, s: string)
    requires s != [] && IsBlank(s[0])
    ensures fields + FieldsInside(None, cur, s)
         == (if |cur| > 0 then fields + [cur] else fields) + FieldsInside(None, [], s[1..])
  {
    StepBlank(cur, s);
    var ahead := FieldsInside(None, [], s[1..]);
    if |cur| > 0 {
      assert fields + ([cur] + ahead) == fields + [cur] + ahead;
    } else {
      assert [] + ahead == ahead;
    }
  }

  lemma FieldsStart(s: string)
    ensures [] + FieldsInside(None, [], s) == Fields(s)
  {
    FieldsFromStart(s);
  }

  /** splitFields: the one-pass scanner with its quote state. */
  method SplitFields(s: string) returns (fields: seq<string>)
    ensures fields == Fields(s)
  {
    fields := [];
    var cur: string := [];
    var inQuote: Option<char> := None;
    ghost var rest := s;
    FieldsStart(s);
    hide FieldsInside, Fields;
    for i := 0 to |s|
      invariant rest == s[i..]
      invariant fields + FieldsInside(inQuote, cur, rest) == Fields(s)
    {
      var c := s[i];
      assert rest[0] == c && rest[1..] == s[i + 1..];
      if inQuote.Some? {
        if c == inQuote.value {
          StepCloseQuote(c, cur, rest);
          inQuote := None;
        } else {
          StepQuotedChar(inQuote.value, cur, rest);
          cur := cur + [c];
        }
      } else if c == '\'' || c == '"' {
        StepOpenQuote(cur, rest);
        inQuote := Some(c);
      } else if c == ' ' || c == '\t' || c == '\r' || c == '\n' {
        BlankEndsWord(fields, cur, rest);
        if |cur| > 0 {
          fields := fields + [cur];
          cur := [];
        }
      } else {
        StepChar(cur, rest);
        cur := cur + [c];
      }
      rest := rest[1..];
    }
    FieldsEnd(inQuote, cur);
    assert rest == [];
    assert fields + [] == fields;
    if |cur| > 0 {
      fields := fields + [cur];
    }
  }

  // ---- lines ----

  /** bufio.ScanLines */
  function FirstLine(s: string): (n: nat)
    ensures n <= |s| && (n < |s| ==> s[n] == '\n')
    ensures forall i :: 0 <= i < n ==> s[i] != '\n'
  {
    if s == [] || s[0] == '\n' then 0 else 1 + FirstLine(s[1..])
  }

  function DropCr(line: string): string {
    if line != [] && line[|line| - 1] == '\r' then line[..|line| - 1] else line
  }

  function Lines(s: string): seq<string>
    decreases |s|
  {
    if s == [] then []
    else
      var n := FirstLine(s);
      [DropCr(s[..n])] + if n == |s| then [] else Lines(s[n + 1..])
  }

  /** strings.Trim(w, "'\"") */
  function TrimQuotes(w: string): string
    decreases |w|
  {
    if w == [] then []
    else if IsQuote(w[0]) then TrimQuotes(w[1..])
    else if IsQuote(w[|w| - 1]) then TrimQuotes(w[..|w| - 1])
    else w
  }

  datatype Line =
    | Ignored
    | Head(typ: string, name: string)
    | Item(isList: bool, key: string, val: string)
    | BadHead
    | BadItem
    | ShortList            // a list line of fewer than six bytes: slicing past its end panics

  predicate HasPrefix(s: string, prefix: string) {
    prefix <= s
  }

  function ClassifyHead(fields: seq<string>): Line {
    if |fields| < 1 || |fields| > 2 then BadHead
    else Head(TrimQuotes(fields[0]), TrimQuotes(if |fields| == 2 then fields[1] else fields[0]))
  }

  function ClassifyItem(isList: bool, fields: seq<string>): Line {
    if |fields| < 2 then BadItem else Item(isList, TrimQuotes(fields[0]), TrimQuotes(fields[1]))
  }

  /** The length of the UTF-8 encoding, which Go's len and slices count. */
  function ByteSize(s: string): (n: nat)
    ensures |s| <= n <= 4 * |s|
  {
    if s == [] then 0
    else
      var c := s[|s| - 1] as int;
      ByteSize(s[..|s| - 1]) + if c < 0x80 then 1 else if c < 0x800 then 2 else if c < 0x1_0000 then 3 else 4
  }

  /** What a line is, once trimmed. */
  function Classify(line: string): Line {
    if line == [] || HasPrefix(line, "#") then Ignored
    else if HasPrefix(line, "config") then ClassifyHead(Fields(line[6..]))
    else if HasPrefix(line, "list") then if ByteSize(line) < 6 then ShortList else ClassifyItem(true, Fields(line[4..]))
    else if HasPrefix(line, "option") then ClassifyItem(false, Fields(line[6..]))
    else Ignored
  }

  function Classes(lines: seq<string>): (ls: seq<Line>)
    ensures |ls| == |lines|
  {
    if lines == [] then [] else [Classify(TrimSpace(lines[0]))] + Classes(lines[1..])
  }

  // ---- sections, declaratively ----

  datatype Section = Section(typ: string, name: string, opts: map<string, seq<string>>)

  datatype Outcome = Parsed(sections: seq<Section>) | Malformed(at: nat) | Orphan(at: nat) | Crashed(at: nat)

  function Values(opts: map<string, seq<string>>, key: string): seq<string> {
    if key in opts then opts[key] else []
  }

  function Apply(opts: map<string, seq<string>>, item: Line): map<string, seq<string>>
    requires item.Item?
  {
    if item.isList then opts[item.key := Values(opts, item.key) + [item.val]] else opts[item.key := [item.val]]
  }

  /** The options a section ends up with, reading on to the next config line. */
  function Body(opts: map<string, seq<string>>, ls: seq<Line>): map<string, seq<string>>
    decreases |ls|
  {
    if ls == [] || ls[0].Head? then opts
    else if ls[0].Item? then Body(Apply(opts, ls[0]), ls[1..])
    else Body(opts, ls[1..])
  }

  /** One section for every config line, with the options up to the next one. */
  function Blocks(ls: seq<Line>): seq<Section>
    decreases |ls|
  {
    if ls == [] then []
    else if ls[0].Head? then [Section(ls[0].typ, ls[0].name, Body(map[], ls[1..]))] + Blocks(ls[1..])
    else Blocks(ls[1..])
  }

  /** What is wrong with a line, given whether a section is open. */
  function Fault(l: Line, open: bool, at: nat): Option<Outcome> {
    match l
    case BadHead => Some(Malformed(at))
    case Item(_, _, _) => if open then None else Some(Orphan(at))
    case BadItem => if open then Some(Malformed(at)) else Some(Orphan(at))
    case ShortList => if open then Some(Crashed(at)) else Some(Orphan(at))
    case _ => None
  }

  function FirstFault(ls: seq<Line>, open: bool, at: nat): Option<Outcome>
    decreases |ls|
  {
    if ls == [] then None
    else if Fault(ls[0], open, at).Some? then Fault(ls[0], open, at)
    else FirstFault(ls[1..], open || ls[0].Head?, at + 1)
  }

  /** What parsing should give. */
  function Meaning(lines: seq<string>): Outcome {
    var ls := Classes(lines);
    match FirstFault(ls, false, 0)
    case Some(f) => f
    case None => Parsed(Blocks(ls))
  }

  lemma {:induction false} ClassesAt(lines: seq<string>, i: nat)
    requires i < |lines|
    ensures Classes(lines)[i] == Classify(TrimSpace(lines[i]))
    ensures Classes(lines)[i..] == Classes(lines[i..])
    decreases i
  {
    if i > 0 {
      ClassesAt(lines[1..], i - 1);
      assert lines[1..][i - 1..] == lines[i..];
    }
  }

  /** The sections that follow when done are finished and cur is open. */
  function Ahead(done: seq<Section>, cur: Option<Section>, ls: seq<Line>): seq<Section> {
    done + (match cur case None => [] case Some(s) => [s.(opts := Body(s.opts, ls))]) + Blocks(ls)
  }

  /** The finished sections and the open one. */
  function Flush(done: seq<Section>, cur: Option<Section>): seq<Section> {
    match cur case None => done case Some(s) => done + [s]
  }

  lemma AheadIgnored(done: seq<Section>, cur: Option<Section>, ls: seq<Line>)
    requires ls != [] && ls[0].Ignored?
    ensures Ahead(done, cur, ls) == Ahead(done, cur, ls[1..])
  {
  }

  lemma AheadItem(done: seq<Section>, s: Section, ls: seq<Line>)
    requires ls != [] && ls[0].Item?
    ensures Ahead(done, Some(s), ls) == Ahead(done, Some(s.(opts := Apply(s.opts, ls[0]))), ls[1..])
  {
  }

  lemma AheadHead(done: seq<Section>, cur: Option<Section>, ls: seq<Line>)
    requires ls != [] && ls[0].Head?
    ensures Ahead(done, cur, ls) == Ahead(Flush(done, cur), Some(Section(ls[0].typ, ls[0].name, map[])), ls[1..])
  {
    var head := [Section(ls[0].typ, ls[0].name, Body(map[], ls[1..]))];
    if cur.Some? {
      assert Body(cur.value.opts, ls) == cur.value.opts;
      assert done + [cur.value] + (head + Blocks(ls[1..])) == done + [cur.value] + head + Blocks(ls[1..]);
    } else {
      assert done + [] + (head + Blocks(ls[1..])) == done + head + Blocks(ls[1..]);
    }
  }

  lemma FirstFaultStep(ls: seq<Line>, open: bool, at: nat)
    requires ls != []
    ensures FirstFault(ls, open, at) ==
              if Fault(ls[0], open, at).Some? then Fault(ls[0], open, at)
              else FirstFault(ls[1..], open || ls[0].Head?, at + 1)
  {
  }

  lemma AheadEnds(done: seq<Section>, cur: Option<Section>)
    ensures Ahead(done, cur, []) == Flush(done, cur)
  {
  }

  lemma AheadStart(ls: seq<Line>)
    ensures Ahead([], None, ls) == Blocks(ls)
  {
  }

  lemma FirstFaultEnds(open: bool, at: nat)
    ensures FirstFault([], open, at).None?
  {
  }

  /** Reading one trimmed line.  A ShortList line is one the parser panics on, once a section is open. */
  method ReadLine(line: string) returns (l: Line)
    ensures l == Classify(line)
  {
    hide Fields, TrimQuotes;
    if line == [] || HasPrefix(line, "#") {
      return Ignored;
    }
    if HasPrefix(line, "config") {
      var fields := SplitFields(line[6..]);
      if |fields| < 1 || |fields| > 2 {
        return BadHead;
      }
      var typ := fields[0];
      var name := typ;
      if |fields| == 2 {
        name := fields[1];
      }
      return Head(TrimQuotes(typ), TrimQuotes(name));
    }
    if HasPrefix(line, "option") || HasPrefix(line, "list") {
      if ByteSize(line) < 6 {
        return ShortList;
      }
      var isList := HasPrefix(line, "list");
      var rest := if isList then line[4..] else line[6..];
      var fields := SplitFields(rest);
      if |fields| < 2 {
        return BadItem;
      }
      return Item(isList, TrimQuotes(fields[0]), TrimQuotes(fields[1]));
    }
    return Ignored;
  }

  /** parseUCI */
  method ParseUci(lines: seq<string>) returns (out: Outcome)
    ensures out == Meaning(lines)
  {
    var sections: seq<Section> := [];
    var cur: Option<Section> := None;
    ghost var ls := Classes(lines);
    AheadStart(ls);
    FirstFaultEnds(false, 0);
    assert ls[0..] == ls;
    hide Ahead, Blocks, FirstFault, Classes, TrimSpace, Classify;
    for i := 0 to |lines|
      invariant FirstFault(ls[i..], cur.Some?, i) == FirstFault(ls, false, 0)
      invariant Ahead(sections, cur, ls[i..]) == Blocks(ls)
    {
      ClassesAt(lines, i);
      assert ls[i..][0] == ls[i] && ls[i..][1..] == ls[i + 1..];
      FirstFaultStep(ls[i..], cur.Some?, i);
      var l := ReadLine(TrimSpace(lines[i]));
      match l
      case Ignored => AheadIgnored(sections, cur, ls[i..]);
      case BadHead => return Malformed(i);
      case Head(typ, name) =>
        AheadHead(sections, cur, ls[i..]);
        if cur.Some? {
          sections := sections + [cur.value];
        }
        cur := Some(Section(typ, name, map[]));
      case BadItem =>
        if cur.None? {
          return Orphan(i);
        }
        return Malformed(i);
      case ShortList =>
        if cur.None? {
          return Orphan(i);
        }
        return Crashed(i);
      case Item(isList, key, val) =>
        if cur.None? {
          return Orphan(i);
        }
        AheadItem(sections, cur.value, ls[i..]);
        var opts := cur.value.opts;
        if isList {
          cur := Some(cur.value.(opts := opts[key := Values(opts, key) + [val]]));
        } else {
          cur := Some(cur.value.(opts := opts[key := [val]]));
        }
    }
    assert ls[|lines|..] == [];
    AheadEnds(sections, cur);
    FirstFaultEnds(cur.Some?, |lines|);
    if cur.Some? {
      sections := sections + [cur.value];
    }
    return Parsed(sections);
  }
}
