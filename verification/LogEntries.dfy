/** Printing log entries the way firmware does, and reading them back. */
module LogEntries {
  import opened Common
  import opened Base64
  import opened LogDecode

  // ---- blanks around a text ----

  /** ASCII white space */
  predicate IsPad(s: Bytes) {
    forall i :: 0 <= i < |s| ==> 9 <= s[i] <= 13 || s[i] == 32
  }

  lemma NoWideRune(b: Bytes, i: nat)
    requires i < |b| && |b| > 1 && b[i] < 0x80
    ensures !IsSpaceRune(b)
  {
  }

  lemma SpaceFrontPad(c: Byte, s: Bytes)
    requires IsPad([c])
    ensures SpaceFront([c] + s) == 1
  {
    OneByteSpace(c);
    assert [c][0] == c;
    assert ([c] + s)[..1] == [c];
    hide IsSpaceRune;
  }

  lemma SpaceBackPad(s: Bytes, c: Byte)
    requires IsPad([c])
    ensures SpaceBack(s + [c]) == 1
  {
    OneByteSpace(c);
    assert [c][0] == c;
    assert (s + [c])[|s + [c]| - 1..] == [c];
    hide IsSpaceRune;
  }

  /** Blanks behind a text do not complete a white-space rune at its front. */
  lemma SpaceFrontBehind(s: Bytes, pad: Bytes)
    requires s != [] && IsPad(pad)
    ensures SpaceFront(s + pad) == SpaceFront(s)
  {
    var t := s + pad;
    hide IsSpaceRune;
    assert t[..1] == s[..1];
    if |s| >= 2 {
      assert t[..2] == s[..2];
    } else if |t| >= 2 {
      assert t[1] == pad[0];
      NoWideRune(t[..2], 1);
    }
    if |s| >= 3 {
      assert t[..3] == s[..3];
    } else if |t| >= 3 {
      assert t[2] == pad[2 - |s|];
      NoWideRune(t[..3], 2);
    }
  }

  lemma {:induction false} TrimFrontPad(pad: Bytes, s: Bytes)
    requires IsPad(pad)
    ensures TrimFront(pad + s) == TrimFront(s)
    decreases |pad|
  {
    if pad == [] {
      assert pad + s == s;
    } else {
      assert pad[..1] == [pad[0]];
      SpaceFrontPad(pad[0], pad[1..] + s);
      assert pad + s == [pad[0]] + (pad[1..] + s);
      assert (pad + s)[1..] == pad[1..] + s;
      TrimFrontPad(pad[1..], s);
      hide SpaceFront;
    }
  }

  lemma {:induction false} TrimBackPad(s: Bytes, pad: Bytes)
    requires IsPad(pad)
    ensures TrimBack(s + pad) == TrimBack(s)
    decreases |pad|
  {
    if pad == [] {
      assert s + pad == s;
    } else {
      var front, c := pad[..|pad| - 1], pad[|pad| - 1];
      SpaceBackPad(s + front, c);
      assert s + pad == s + front + [c];
      assert (s + pad)[..|s + pad| - 1] == s + front;
      TrimBackPad(s, front);
      hide SpaceBack;
    }
  }

  lemma {:induction false} TrimFrontBehind(s: Bytes, pad: Bytes)
    requires IsPad(pad)
    ensures TrimFront(s + pad) == if TrimFront(s) == [] then [] else TrimFront(s) + pad
    decreases |s|
  {
    if s == [] {
      TrimFrontPad(pad, []);
      assert s + pad == pad + [];
    } else {
      SpaceFrontBehind(s, pad);
      var n := SpaceFront(s);
      hide SpaceFront;
      if n > 0 {
        assert (s + pad)[n..] == s[n..] + pad;
        TrimFrontBehind(s[n..], pad);
      }
    }
  }

  lemma TrimIs(s: Bytes)
    ensures Trim(s) == TrimBack(TrimFront(s))
    ensures TrimBack([]) == []
  {
  }

  /** Blanks around a text change nothing once it is trimmed. */
  lemma TrimPads(front: Bytes, s: Bytes, back: Bytes)
    requires IsPad(front) && IsPad(back)
    ensures Trim(front + s + back) == Trim(s)
  {
    hide *;
    assert front + s + back == front + (s + back);
    TrimIs(s);
    TrimIs(front + s + back);
    TrimFrontPad(front, s + back);
    TrimFrontBehind(s, back);
    TrimBackPad(TrimFront(s), back);
  }

  // ---- where a field is looked for ----

  /** The keys in order of precedence: two for the type, two for the level, three for
      the time and two for the content. */
  const KEYS: seq<string> := [
    "logtype", "LogType", "loglevel", "LogLevel", "logtime", "LogTime", "LogTimeStamp", "logcontent", "LogContent"]

  lemma Differ(a: string, b: string, i: nat)
    requires |a| != |b| || (i < |a| && a[i] != b[i])
    ensures a != b
  {
  }

  lemma KeysDistinct()
    ensures forall i, j :: 0 <= i < j < 9 ==> KEYS[i] != KEYS[j]
  {
    forall i, j | 0 <= i < j < 9 ensures KEYS[i] != KEYS[j] {
      if |KEYS[i]| == |KEYS[j]| {
        Differ(KEYS[i], KEYS[j], if KEYS[i][0] == KEYS[j][0] then 4 else 0);
      }
    }
  }

  /** The value under a key is no text to speak of. */
  predicate Idle(m: Raw, key: string) {
    key in m ==> m[key].Other? || (m[key].Text? && Trim(m[key].s) == [])
  }

  /** The first text found under KEYS[lo..hi]. */
  function Pick(m: Raw, lo: nat, hi: nat): Bytes
    requires hi <= 9
    decreases hi - lo
  {
    if lo >= hi then [] else StrOr(m, KEYS[lo], Pick(m, lo + 1, hi))
  }

  lemma EntryPicked(m: Raw)
    ensures EntryOf(m) == Entry(Pick(m, 0, 2), Pick(m, 2, 4), Pick(m, 4, 7), Content(Pick(m, 7, 9)))
  {
    hide StrOr, Content;
    PickTwo(m, 0);
    PickTwo(m, 2);
    PickTwo(m, 5);
    PickTwo(m, 7);
    assert Pick(m, 4, 7) == StrOr(m, KEYS[4], Pick(m, 5, 7));
  }

  lemma PickTwo(m: Raw, lo: nat)
    requires lo + 2 <= 9
    ensures Pick(m, lo, lo + 2) == StrOr(m, KEYS[lo], StrOr(m, KEYS[lo + 1], []))
  {
    hide StrOr;
    assert Pick(m, lo + 2, lo + 2) == [];
    assert Pick(m, lo + 1, lo + 2) == StrOr(m, KEYS[lo + 1], Pick(m, lo + 2, lo + 2));
  }

  lemma {:induction false} PickNone(m: Raw, lo: nat, hi: nat)
    requires lo <= hi <= 9 && forall i :: lo <= i < hi ==> Idle(m, KEYS[i])
    ensures Pick(m, lo, hi) == []
    decreases hi - lo
  {
    hide Trim;
    if lo < hi {
      assert Idle(m, KEYS[lo]);
      PickNone(m, lo + 1, hi);
    }
  }

  lemma {:induction false} PickAt(m: Raw, lo: nat, at: nat, hi: nat, v: Bytes)
    requires lo <= at < hi <= 9 && forall i :: lo <= i < at ==> Idle(m, KEYS[i])
    requires Str(m, KEYS[at]) == Some(v)
    ensures Pick(m, lo, hi) == v
    decreases at - lo
  {
    hide Trim;
    if lo < at {
      assert Idle(m, KEYS[lo]);
      PickAt(m, lo + 1, at, hi, v);
    }
  }

  // ---- the printer ----

  /** The key a field is written under, the blanks around its text, or a number. */
  datatype Spot = Spot(at: nat, front: Bytes, back: Bytes, number: bool)

  /** How a content is written: as it is, in base64 behind the prefix p, or bare. */
  datatype Coding = Plain | Prefixed(p: Bytes, text: Bytes, j: nat) | Bare(text: Bytes)

  /** gaps counts the elements that are no maps before the entry in a list; rest is
      whatever else the map holds. */
  datatype Style = Style(kind: Spot, level: Spot, time: Spot, content: Spot, coding: Coding, gaps: nat, rest: Raw)

  function Coded(info: Bytes, c: Coding): Bytes {
    match c
    case Plain => info
    case Prefixed(p, text, _) => p + text
    case Bare(text) => text
  }

  function Written(x: Bytes, sp: Spot): Value {
    if sp.number then Number(x) else Text(sp.front + x + sp.back)
  }

  function PutAt(m: Raw, sp: Spot, x: Bytes): Raw
    requires sp.at < 9
  {
    if x == [] then m else m[KEYS[sp.at] := Written(x, sp)]
  }

  /** A field with no text is left out. */
  function Print(e: Entry, st: Style): Raw
    requires st.kind.at < 9 && st.level.at < 9 && st.time.at < 9 && st.content.at < 9
  {
    PutAt(PutAt(PutAt(PutAt(st.rest, st.kind, e.kind), st.level, e.level), st.time, e.time),
          st.content, Coded(e.info, st.coding))
  }

  /** x may be written there: what else the map holds does not come before it. */
  predicate Fits(rest: Raw, sp: Spot, x: Bytes, lo: nat, hi: nat)
    requires hi <= 9
  {
    && lo <= sp.at < hi && IsPad(sp.front) && IsPad(sp.back)
    && forall i :: lo <= i < (if Trim(x) == [] then hi else sp.at) ==> Idle(rest, KEYS[i])
  }

  /** Plain text must not look like an encoding, bare base64 must hold readable text. */
  ghost predicate CodingFits(info: Bytes, c: Coding) {
    match c
    case Plain =>
      && Trim(info) == info && PrefixLen(info) == 0
      && (info != [] ==> exists i :: 0 <= i < |info| && !IsText(info[i]) && !IsBreak(info[i]))
    case Prefixed(p, text, j) => j < 3 && Spells(p, PREFIXES[j]) && Encodes(text, info)
    case Bare(text) => Encodes(text, info) && (Readable(info) || info == [])
  }

  ghost predicate Legal(e: Entry, st: Style) {
    && Trim(e.kind) == e.kind && Trim(e.level) == e.level && Trim(e.time) == e.time
    && Fits(st.rest, st.kind, e.kind, 0, 2) && Fits(st.rest, st.level, e.level, 2, 4)
    && Fits(st.rest, st.time, e.time, 4, 7) && Fits(st.rest, st.content, Coded(e.info, st.coding), 7, 9)
    && CodingFits(e.info, st.coding)
  }

  // ---- one entry ----

  lemma ContentTrimmed(s: Bytes)
    ensures Content(Trim(s)) == Content(s)
  {
    TrimTwice(s);
    hide Trim, PrefixLen, Decode, Readable;
  }

  lemma CodedBack(info: Bytes, c: Coding)
    requires CodingFits(info, c)
    ensures Content(Coded(info, c)) == info
  {
    hide Content, Trim, PrefixLen, Readable, Encodes, Spells, IsText, IsBreak;
    match c
    case Plain =>
      if info == [] {
        NoContent();
      } else {
        var i :| 0 <= i < |info| && !IsText(info[i]) && !IsBreak(info[i]);
        PlainKept(info, i);
      }
    case Prefixed(p, text, j) => PrefixedDecodes(p, text, info, j);
    case Bare(text) => BareDecodesExact(text, info);
  }

  lemma NoContent()
    ensures Content([]) == []
  {
  }

  lemma StrWritten(m: Raw, key: string, x: Bytes, sp: Spot)
    requires key in m && m[key] == Written(x, sp) && IsPad(sp.front) && IsPad(sp.back)
    ensures Trim(x) != [] ==> Str(m, key) == Some(if sp.number then x else Trim(x))
    ensures Trim(x) == [] && !sp.number ==> Idle(m, key)
  {
    TrimPads(sp.front, x, sp.back);
    hide Trim, IsPad;
  }

  /** What the printed map holds under key i. */
  ghost predicate Holds(m: Raw, rest: Raw, sp: Spot, x: Bytes, i: nat)
    requires i < 9
  {
    if i == sp.at && x != [] then KEYS[i] in m && m[KEYS[i]] == Written(x, sp)
    else Idle(rest, KEYS[i]) ==> Idle(m, KEYS[i])
  }

  /** What a map shows in KEYS[lo..hi] when x is written there and nothing else was put there. */
  lemma FieldBack(m: Raw, rest: Raw, sp: Spot, x: Bytes, lo: nat, hi: nat)
    requires hi <= 9 && Fits(rest, sp, x, lo, hi)
    requires forall i :: lo <= i < hi ==> Holds(m, rest, sp, x, i)
    ensures Pick(m, lo, hi) == Trim(x) || Pick(m, lo, hi) == x
  {
    NoText();
    hide Trim, IsPad, Written, Idle;
    assert Holds(m, rest, sp, x, sp.at);
    if x != [] { StrWritten(m, KEYS[sp.at], x, sp); }
    forall i | lo <= i < (if Trim(x) == [] then hi else sp.at) && i != sp.at ensures Idle(m, KEYS[i]) {
      assert Holds(m, rest, sp, x, i) && Idle(rest, KEYS[i]);
    }
    if Trim(x) != [] {
      PickAt(m, lo, sp.at, hi, if sp.number then x else Trim(x));
    } else if x == [] || !sp.number {
      PickNone(m, lo, hi);
    } else {
      NumberWritten(m, KEYS[sp.at], x, sp);
      PickAt(m, lo, sp.at, hi, x);
    }
  }

  lemma NoText()
    ensures Trim([]) == []
  {
  }

  lemma NumberWritten(m: Raw, key: string, x: Bytes, sp: Spot)
    requires key in m && m[key] == Written(x, sp) && sp.number
    ensures Str(m, key) == Some(x)
  {
  }

  lemma PutExact(m: Raw, sp: Spot, x: Bytes, i: nat)
    requires sp.at < 9 && i < 9
    ensures i == sp.at && x != [] ==> KEYS[i] in PutAt(m, sp, x) && PutAt(m, sp, x)[KEYS[i]] == Written(x, sp)
    ensures i != sp.at || x == [] ==> (Idle(m, KEYS[i]) ==> Idle(PutAt(m, sp, x), KEYS[i]))
    ensures i != sp.at || x == [] ==> KEYS[i] in m ==>
      KEYS[i] in PutAt(m, sp, x) && PutAt(m, sp, x)[KEYS[i]] == m[KEYS[i]]
  {
    KeysDistinct();
    hide Written, Trim;
    if i < sp.at { assert KEYS[i] != KEYS[sp.at]; }
    if i > sp.at { assert KEYS[sp.at] != KEYS[i]; }
  }

  lemma PrintHolds(e: Entry, st: Style, i: nat)
    requires st.kind.at < 2 <= st.level.at < 4 <= st.time.at < 7 <= st.content.at < 9 && i < 9
    ensures i < 2 ==> Holds(Print(e, st), st.rest, st.kind, e.kind, i)
    ensures 2 <= i < 4 ==> Holds(Print(e, st), st.rest, st.level, e.level, i)
    ensures 4 <= i < 7 ==> Holds(Print(e, st), st.rest, st.time, e.time, i)
    ensures 7 <= i ==> Holds(Print(e, st), st.rest, st.content, Coded(e.info, st.coding), i)
  {
    var x := Coded(e.info, st.coding);
    var m1 := PutAt(st.rest, st.kind, e.kind);
    var m2 := PutAt(m1, st.level, e.level);
    var m3 := PutAt(m2, st.time, e.time);
    PutExact(st.rest, st.kind, e.kind, i);
    PutExact(m1, st.level, e.level, i);
    PutExact(m2, st.time, e.time, i);
    PutExact(m3, st.content, x, i);
    hide PutAt, Idle, Written, Coded;
  }

  /** An entry comes back whichever of its keys each field is written under, with
      blanks around it or as a number, whatever the coding of its content, and
      whatever else the map holds behind those keys. */
  lemma EntryBack(e: Entry, st: Style)
    requires Legal(e, st)
    ensures EntryOf(Print(e, st)) == e
  {
    var m, x := Print(e, st), Coded(e.info, st.coding);
    forall i: nat | i < 9
      ensures i < 2 ==> Holds(m, st.rest, st.kind, e.kind, i)
      ensures 2 <= i < 4 ==> Holds(m, st.rest, st.level, e.level, i)
      ensures 4 <= i < 7 ==> Holds(m, st.rest, st.time, e.time, i)
      ensures 7 <= i ==> Holds(m, st.rest, st.content, x, i)
    {
      PrintHolds(e, st, i);
    }
    hide Holds, Print, Coded, Pick, EntryOf, Trim, CodingFits, IsPad, Idle, Content;
    FieldBack(m, st.rest, st.kind, e.kind, 0, 2);
    FieldBack(m, st.rest, st.level, e.level, 2, 4);
    FieldBack(m, st.rest, st.time, e.time, 4, 7);
    FieldBack(m, st.rest, st.content, x, 7, 9);
    EntryPicked(m);
    ContentTrimmed(x);
    CodedBack(e.info, st.coding);
  }

  // ---- whole responses ----

  ghost predicate LegalAll(es: seq<Entry>, sts: seq<Style>) {
    |es| == |sts| && forall i :: 0 <= i < |es| ==> Legal(es[i], sts[i])
  }

  /** n elements that are no maps */
  function Gaps(n: nat): (r: seq<Option<Raw>>) {
    seq(n, i requires 0 <= i < n => None)
  }

  ghost function PrintAll(es: seq<Entry>, sts: seq<Style>): seq<Option<Raw>>
    requires LegalAll(es, sts)
  {
    if es == [] then []
    else
      var n := |es| - 1;
      PrintAll(es[..n], sts[..n]) + Gaps(sts[n].gaps) + [Some(Print(es[n], sts[n]))]
  }

  /** The entries that say anything, in order. */
  function Telling(es: seq<Entry>): seq<Entry> {
    if es == [] then []
    else
      var front, e := Telling(es[..|es| - 1]), es[|es| - 1];
      if e.kind != [] || e.level != [] || e.time != [] || e.info != [] then front + [e] else front
  }

  lemma {:induction false} MapsGaps(items: seq<Option<Raw>>, n: nat)
    ensures Maps(items + Gaps(n)) == Maps(items)
    decreases n
  {
    if n == 0 {
      assert items + Gaps(0) == items;
    } else {
      var all := items + Gaps(n);
      assert all[..|all| - 1] == items + Gaps(n - 1);
      MapsGaps(items, n - 1);
    }
  }

  lemma MapsSnoc(items: seq<Option<Raw>>, m: Raw)
    ensures Maps(items + [Some(m)]) == Maps(items) + [m]
  {
    assert (items + [Some(m)])[..|items|] == items;
  }

  lemma KeptAppend(ms: seq<Raw>, m: Raw)
    ensures Kept(ms + [m]) == if Blank(EntryOf(m)) then Kept(ms) else Kept(ms) + [EntryOf(m)]
  {
    assert (ms + [m])[..|ms|] == ms;
    hide EntryOf;
  }

  lemma LegalPlaces(e: Entry, st: Style)
    requires Legal(e, st)
    ensures st.kind.at < 2 <= st.level.at < 4 <= st.time.at < 7 <= st.content.at < 9
  {
  }

  lemma {:induction false} ListBack(es: seq<Entry>, sts: seq<Style>)
    requires LegalAll(es, sts)
    ensures |Maps(PrintAll(es, sts))| == |es| && Kept(Maps(PrintAll(es, sts))) == Telling(es)
    decreases |es|
  {
    if es != [] {
      var n := |es| - 1;
      LegalPlaces(es[n], sts[n]);
      hide Legal, Print, EntryOf;
      var front := PrintAll(es[..n], sts[..n]);
      ListBack(es[..n], sts[..n]);
      MapsGaps(front, sts[n].gaps);
      MapsSnoc(front + Gaps(sts[n].gaps), Print(es[n], sts[n]));
      EntryBack(es[n], sts[n]);
      KeptAppend(Maps(front), Print(es[n], sts[n]));
      hide Maps, Kept, Gaps;
    }
  }

  /** The last 50 of the entries that say anything, the last one first. */
  ghost predicate LastFifty(out: seq<Entry>, es: seq<Entry>) {
    && |out| == (if |es| < 50 then |es| else 50)
    && forall i :: 0 <= i < |out| ==> out[i] == es[|es| - 1 - i]
  }

  lemma ListParsed(flat: Raw, items: seq<Option<Raw>>)
    requires Maps(items) != []
    ensures LastFifty(Parsed(flat, Listed(items)), Kept(Maps(items)))
  {
    hide Maps, Kept;
  }

  /** A list, with elements that are no maps in between and at the end. */
  lemma ListedBack(flat: Raw, es: seq<Entry>, sts: seq<Style>, end: nat)
    requires LegalAll(es, sts) && es != []
    ensures LastFifty(Parsed(flat, Listed(PrintAll(es, sts) + Gaps(end))), Telling(es))
  {
    hide *;
    ListBack(es, sts);
    MapsGaps(PrintAll(es, sts), end);
    ListParsed(flat, PrintAll(es, sts) + Gaps(end));
  }

  lemma OneParsed(flat: Raw, loginfo: LogInfo, m: Raw)
    requires Collected(flat, loginfo) == [m]
    ensures LastFifty(Parsed(flat, loginfo), Telling([EntryOf(m)]))
  {
    var e := EntryOf(m);
    hide EntryOf, Collected;
    KeptNone();
    KeptAppend([], m);
    assert [] + [m] == [m] && [] + [e] == [e] && [e][..0] == [];
  }

  /** A single map, and the flat form, which also stands for a list without any map. */
  lemma SingleBack(flat: Raw, e: Entry, st: Style, end: nat)
    requires Legal(e, st)
    ensures LastFifty(Parsed(flat, Single(Print(e, st))), Telling([e]))
    ensures LastFifty(Parsed(Print(e, st), Absent), Telling([e]))
    ensures LastFifty(Parsed(Print(e, st), Listed(Gaps(end))), Telling([e]))
  {
    EntryBack(e, st);
    MapsGaps([], end);
    assert [] + Gaps(end) == Gaps(end);
    hide Print, EntryOf, Legal, Gaps, LastFifty, Parsed, Telling;
    OneParsed(flat, Single(Print(e, st)), Print(e, st));
    OneParsed(Print(e, st), Absent, Print(e, st));
    OneParsed(Print(e, st), Listed(Gaps(end)), Print(e, st));
  }
}
