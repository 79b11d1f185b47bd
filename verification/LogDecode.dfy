/** Log content: prefixed or guessed base64, guarded by a readability test, and the
    assembly of the entries.  Texts are byte strings in UTF-8, as in Go. */
module LogDecode {
  import opened Common
  import opened Base64

  // ---- strings.TrimSpace on bytes ----

  /** The bytes are the encoding of one white-space rune. */
  predicate IsSpaceRune(b: Bytes) {
    || (|b| == 1 && (9 <= b[0] <= 13 || b[0] == 32))
    || (|b| == 2 && b[0] == 0xC2 && (b[1] == 0x85 || b[1] == 0xA0))
    || (|b| == 3 && b[0] == 0xE1 && b[1] == 0x9A && b[2] == 0x80)
    || (|b| == 3 && b[0] == 0xE2 && b[1] == 0x80
        && (0x80 <= b[2] <= 0x8A || b[2] == 0xA8 || b[2] == 0xA9 || b[2] == 0xAF))
    || (|b| == 3 && b[0] == 0xE2 && b[1] == 0x81 && b[2] == 0x9F)
    || (|b| == 3 && b[0] == 0xE3 && b[1] == 0x80 && b[2] == 0x80)
  }

  /** The length of the white-space rune at the front, 0 for none. */
  function SpaceFront(s: Bytes): (n: nat)
    ensures n <= |s| && n <= 3
    ensures n > 0 ==> IsSpaceRune(s[..n])
  {
    if |s| >= 1 && IsSpaceRune(s[..1]) then 1
    else if |s| >= 2 && IsSpaceRune(s[..2]) then 2
    else if |s| >= 3 && IsSpaceRune(s[..3]) then 3
    else 0
  }

  function SpaceBack(s: Bytes): (n: nat)
    ensures n <= |s| && n <= 3
    ensures n > 0 ==> IsSpaceRune(s[|s| - n..])
  {
    if |s| >= 1 && IsSpaceRune(s[|s| - 1..]) then 1
    else if |s| >= 2 && IsSpaceRune(s[|s| - 2..]) then 2
    else if |s| >= 3 && IsSpaceRune(s[|s| - 3..]) then 3
    else 0
  }

  function TrimFront(s: Bytes): Bytes {
    if SpaceFront(s) == 0 then s else TrimFront(s[SpaceFront(s)..])
  }

  function TrimBack(s: Bytes): Bytes {
    if SpaceBack(s) == 0 then s else TrimBack(s[..|s| - SpaceBack(s)])
  }

  function Trim(s: Bytes): Bytes {
    TrimBack(TrimFront(s))
  }

  // ---- readableText ----

  /** The length of the valid UTF-8 sequence at the front, 0 for none. */
  function RuneLen(s: Bytes): (n: nat)
    ensures n <= |s|
    ensures n > 1 ==> forall i :: 0 <= i < n ==> s[i] >= 0x80
    ensures n == 1 ==> s[0] < 0x80
  {
    if s == [] then 0
    else if s[0] < 0x80 then 1
    else if |s| >= 2 && 0xC2 <= s[0] <= 0xDF && Tail(s[1]) then 2
    else if |s| >= 3 && Lead3(s[0], s[1]) && Tail(s[2]) then 3
    else if |s| >= 4 && Lead4(s[0], s[1]) && Tail(s[2]) && Tail(s[3]) then 4
    else 0
  }

  predicate Tail(b: Byte) {
    0x80 <= b <= 0xBF
  }

  predicate Lead3(a: Byte, b: Byte) {
    || (a == 0xE0 && 0xA0 <= b <= 0xBF)
    || ((0xE1 <= a <= 0xEC || 0xEE <= a <= 0xEF) && Tail(b))
    || (a == 0xED && 0x80 <= b <= 0x9F)
  }

  predicate Lead4(a: Byte, b: Byte) {
    || (a == 0xF0 && 0x90 <= b <= 0xBF)
    || (0xF1 <= a <= 0xF3 && Tail(b))
    || (a == 0xF4 && 0x80 <= b <= 0x8F)
  }

  predicate ValidUtf8(s: Bytes) {
    s == [] || (RuneLen(s) > 0 && ValidUtf8(s[RuneLen(s)..]))
  }

  predicate Printable(b: Byte) {
    0x20 <= b <= 0x7E || b == 10 || b == 13 || b == 9
  }

  function PrintableCount(s: Bytes): (n: nat)
    ensures n <= |s|
  {
    if s == [] then 0 else (if Printable(s[0]) then 1 else 0) + PrintableCount(s[1..])
  }

  /** Valid text, at least four fifths of it printable. */
  predicate Readable(s: Bytes) {
    ValidUtf8(s) && s != [] && 5 * PrintableCount(s) >= 4 * |s|
  }

  lemma {:induction false} RuneCount(s: Bytes, n: nat)
    requires n <= |s| && forall i :: 0 <= i < n ==> !Printable(s[i])
    ensures PrintableCount(s) == PrintableCount(s[n..])
    decreases n
  {
    if n > 0 {
      RuneCount(s[1..], n - 1);
      assert s[1..][n - 1..] == s[n..];
    } else {
      assert s[0..] == s;
    }
  }

  /** A longer rune has no printable byte. */
  lemma RuneStep(s: Bytes)
    requires ValidUtf8(s) && s != []
    ensures var n := RuneLen(s);
            && 1 <= n <= |s| && ValidUtf8(s[n..])
            && PrintableCount(s) == PrintableCount(s[n..]) + if n == 1 && Printable(s[0]) then 1 else 0
  {
    var n := RuneLen(s);
    if n > 1 { RuneCount(s, n); }
    hide RuneLen;
  }

  /** The first i bytes are whole runes, with printable ones among them counted. */
  predicate Counted(b: Bytes, i: nat, printable: nat) {
    i <= |b| && ValidUtf8(b[i..]) && printable + PrintableCount(b[i..]) == PrintableCount(b)
  }

  lemma CountedStart(b: Bytes)
    requires ValidUtf8(b)
    ensures Counted(b, 0, 0)
  {
    assert b[0..] == b;
  }

  lemma CountedStep(b: Bytes, i: nat, printable: nat)
    requires Counted(b, i, printable) && i < |b|
    ensures var n := RuneLen(b[i..]);
            n >= 1 && Counted(b, i + n, printable + if n == 1 && Printable(b[i]) then 1 else 0)
  {
    RuneStep(b[i..]);
    hide RuneLen, ValidUtf8, PrintableCount;
    assert b[i + RuneLen(b[i..])..] == b[i..][RuneLen(b[i..])..];
  }

  lemma CountedDone(b: Bytes, printable: nat)
    requires Counted(b, |b|, printable)
    ensures printable == PrintableCount(b)
  {
  }

  /** readableText: the runes are counted one by one. */
  method ReadableText(b: Bytes) returns (ok: bool)
    ensures ok == Readable(b)
  {
    if !ValidUtf8(b) {
      return false;
    }
    if |b| == 0 {
      return false;
    }
    var printable, i := 0, 0;
    CountedStart(b);
    hide RuneLen, ValidUtf8, PrintableCount, Counted;
    while i < |b|
      invariant Counted(b, i, printable) && 0 <= i <= |b|
    {
      var n := RuneLen(b[i..]);
      CountedStep(b, i, printable);
      if n == 1 && (0x20 <= b[i] <= 0x7E || b[i] == 10 || b[i] == 13 || b[i] == 9) {
        printable := printable + 1;
      }
      i := i + n;
    }
    CountedDone(b, printable);
    ok := 5 * printable >= 4 * |b|;
  }

  // ---- prefixes ----

  /** BASE64:  base64,  b64: in upper case */
  const PREFIXES: seq<Bytes> := [
    [66, 65, 83, 69, 54, 52, 58],
    [66, 65, 83, 69, 54, 52, 44],
    [66, 54, 52, 58]]

  function UpperByte(b: Byte): Byte {
    if 97 <= b <= 122 then b - 32 else b
  }

  /** The upper-cased text starts with p.  The long s, two bytes, has the upper case S. */
  predicate UpperStarts(s: Bytes, p: Bytes)
    decreases |p|
  {
    if p == [] then true
    else if s == [] then false
    else if UpperByte(s[0]) == p[0] then UpperStarts(s[1..], p[1..])
    else p[0] == 83 && |s| >= 2 && s[0] == 0xC5 && s[1] == 0xBF && UpperStarts(s[2..], p[1..])
  }

  lemma {:induction false} UpperStartsSize(s: Bytes, p: Bytes)
    requires UpperStarts(s, p)
    ensures |p| <= |s|
    decreases |p|
  {
    if p != [] {
      if UpperByte(s[0]) == p[0] { UpperStartsSize(s[1..], p[1..]); } else { UpperStartsSize(s[2..], p[1..]); }
    }
  }

  /** The length of the first prefix the text has, 0 for none. */
  function PrefixLen(s: Bytes): (n: nat)
    ensures n <= |s|
  {
    if UpperStarts(s, PREFIXES[0]) then UpperStartsSize(s, PREFIXES[0]); 7
    else if UpperStarts(s, PREFIXES[1]) then UpperStartsSize(s, PREFIXES[1]); 7
    else if UpperStarts(s, PREFIXES[2]) then UpperStartsSize(s, PREFIXES[2]); 4
    else 0
  }

  /** The decoding of text, if it is worth having. */
  function Accepted(text: Bytes, padded: bool, prefixed: bool): Option<Bytes> {
    var d := Decode(text, padded);
    if d.Some? && (prefixed || Readable(d.value)) then d else None
  }

  function Content(s: Bytes): Bytes {
    var t := Trim(s);
    var n := PrefixLen(t);
    var text := Trim(t[n..]);
    if t == [] then []
    else if Accepted(text, true, n > 0).Some? then Accepted(text, true, n > 0).value
    else if Accepted(text, false, n > 0).Some? then Accepted(text, false, n > 0).value
    else t
  }

  /** The prefix loop of decodeLogContent. */
  method StripPrefix(t: Bytes) returns (raw: Bytes, prefixed: bool)
    ensures prefixed == (PrefixLen(t) > 0) && raw == t[PrefixLen(t)..]
  {
    raw, prefixed := t, false;
    for i := 0 to 3
      invariant raw == t && !prefixed
      invariant forall j :: 0 <= j < i ==> !UpperStarts(t, PREFIXES[j])
    {
      if UpperStarts(t, PREFIXES[i]) {
        UpperStartsSize(t, PREFIXES[i]);
        prefixed := true;
        raw := t[|PREFIXES[i]|..];
        break;
      }
    }
    hide UpperStarts;
  }

  /** decodeLogContent */
  method DecodeLogContent(s: Bytes) returns (out: Bytes)
    ensures out == Content(s)
  {
    hide Trim, PrefixLen, Decode, Readable;
    var t := Trim(s);
    if t == [] {
      return [];
    }
    var raw, prefixed := StripPrefix(t);
    var trimmed := Trim(raw);
    var decoded := Decode(trimmed, true);
    if decoded.Some? {
      var readable := ReadableText(decoded.value);
      if prefixed || readable {
        return decoded.value;
      }
    }
    decoded := Decode(trimmed, false);
    if decoded.Some? {
      var readable := ReadableText(decoded.value);
      if prefixed || readable {
        return decoded.value;
      }
    }
    out := t;
  }

  // ---- trimming encoded text ----

  /** A byte of an encoding. */
  predicate IsText(c: Byte) {
    IsCode(c) || c == PAD
  }

  /** An encoding broken into lines. */
  predicate IsWrapped(t: Bytes) {
    forall i :: 0 <= i < |t| ==> IsText(t[i]) || IsBreak(t[i])
  }

  lemma TextIsAscii(c: Byte)
    ensures IsText(c) ==> 33 <= c <= 126
    ensures IsBreak(c) ==> 9 <= c <= 13
  {
  }

  lemma SpaceRuneEnd(b: Bytes)
    requires IsSpaceRune(b)
    ensures |b| > 1 ==> b[|b| - 1] >= 0x80
  {
  }

  lemma OneByteSpace(c: Byte)
    ensures IsSpaceRune([c]) <==> 9 <= c <= 13 || c == 32
  {
  }

  lemma SpaceBackAscii(s: Bytes)
    requires s != [] && s[|s| - 1] < 0x80
    ensures SpaceBack(s) == if 9 <= s[|s| - 1] <= 13 || s[|s| - 1] == 32 then 1 else 0
  {
    hide IsSpaceRune;
    var c := s[|s| - 1];
    assert s[|s| - 1..] == [c];
    OneByteSpace(c);
    if |s| >= 2 && IsSpaceRune(s[|s| - 2..]) { SpaceRuneEnd(s[|s| - 2..]); }
    if |s| >= 3 && IsSpaceRune(s[|s| - 3..]) { SpaceRuneEnd(s[|s| - 3..]); }
  }

  lemma SpaceFrontText(t: Bytes)
    requires IsWrapped(t)
    ensures SpaceFront(t) == if t != [] && IsBreak(t[0]) then 1 else 0
  {
    if t != [] { TextIsAscii(t[0]); }
    hide IsText, IsCode;
  }

  lemma SpaceBackText(p: Bytes, t: Bytes)
    requires IsWrapped(t) && t != []
    ensures SpaceBack(p + t) == if IsBreak(t[|t| - 1]) then 1 else 0
  {
    var s := p + t;
    assert s[|s| - 1] == t[|t| - 1];
    TextIsAscii(t[|t| - 1]);
    hide IsText, SpaceBack;
    SpaceBackAscii(s);
  }

  lemma {:induction false} TrimFrontText(t: Bytes)
    requires IsWrapped(t)
    ensures IsWrapped(TrimFront(t)) && NoBreaks(TrimFront(t)) == NoBreaks(t)
    decreases |t|
  {
    SpaceFrontText(t);
    if t != [] && IsBreak(t[0]) { TrimFrontText(t[1..]); }
  }

  lemma OneBreak(c: Byte)
    requires IsBreak(c)
    ensures NoBreaks([c]) == []
  {
  }

  lemma WrappedSnoc(t: Bytes)
    requires IsWrapped(t) && t != [] && IsBreak(t[|t| - 1])
    ensures IsWrapped(t[..|t| - 1]) && NoBreaks(t[..|t| - 1]) == NoBreaks(t)
  {
    var front, c := t[..|t| - 1], t[|t| - 1];
    OneBreak(c);
    assert front + [c] == t;
    hide NoBreaks, IsText, IsBreak;
    NoBreaksConcat(front, [c]);
  }

  /** The back of a text trims the same behind a head that does not end in white space. */
  lemma {:induction false} TrimBackText(p: Bytes, t: Bytes)
    requires IsWrapped(t) && SpaceBack(p) == 0
    ensures TrimBack(p + t) == p + TrimBack(t)
    ensures IsWrapped(TrimBack(t)) && NoBreaks(TrimBack(t)) == NoBreaks(t)
    decreases |t|
  {
    hide *;
    TrimBackStep(p + t);
    TrimBackStep(t);
    if t == [] {
      EmptyText();
      assert p + t == p && p + [] == p;
    } else {
      SpaceBackText(p, t);
      SpaceBackText([], t);
      assert [] + t == t;
      if IsBreak(t[|t| - 1]) {
        WrappedSnoc(t);
        TrimBackText(p, t[..|t| - 1]);
        assert (p + t)[..|p + t| - 1] == p + t[..|t| - 1];
      }
    }
  }

  lemma TrimBackStep(s: Bytes)
    ensures SpaceBack(s) == 0 ==> TrimBack(s) == s
    ensures SpaceBack(s) == 1 ==> TrimBack(s) == TrimBack(s[..|s| - 1])
  {
    hide SpaceBack;
  }

  lemma EmptyText()
    ensures SpaceBack([]) == 0 && IsWrapped([]) && NoBreaks([]) == []
  {
  }

  lemma TrimText(t: Bytes)
    requires IsWrapped(t)
    ensures IsWrapped(Trim(t)) && NoBreaks(Trim(t)) == NoBreaks(t)
  {
    TrimFrontText(t);
    TrimBackText([], TrimFront(t));
    assert [] + TrimFront(t) == TrimFront(t) && [] + TrimBack(TrimFront(t)) == TrimBack(TrimFront(t));
  }

  // ---- spelling a prefix ----

  /** p is the prefix in some mixture of upper and lower case. */
  predicate Spells(p: Bytes, prefix: Bytes) {
    |p| == |prefix| && forall i :: 0 <= i < |p| ==> UpperByte(p[i]) == prefix[i]
  }

  lemma {:induction false} SpelledStarts(p: Bytes, t: Bytes, prefix: Bytes)
    requires Spells(p, prefix)
    ensures UpperStarts(p + t, prefix)
    decreases |p|
  {
    if p != [] {
      SpelledStarts(p[1..], t, prefix[1..]);
      assert (p + t)[1..] == p[1..] + t;
    }
  }

  lemma {:induction false} StartsPointwise(s: Bytes, prefix: Bytes, k: nat)
    requires UpperStarts(s, prefix) && k < |prefix| && k < |s|
    requires forall i :: 0 <= i <= k ==> s[i] < 0x80
    ensures UpperByte(s[k]) == prefix[k]
    decreases k
  {
    if k > 0 { StartsPointwise(s[1..], prefix[1..], k - 1); }
  }

  lemma SpelledLen(p: Bytes, t: Bytes, j: nat)
    requires j < 3 && Spells(p, PREFIXES[j])
    ensures PrefixLen(p + t) == |p| > 0
    ensures p[0] < 0x80 && 33 <= p[0] && 33 <= p[|p| - 1] <= 126
  {
    var s := p + t;
    SpelledStarts(p, t, PREFIXES[j]);
    assert forall i :: 0 <= i < |p| ==> s[i] == p[i] && s[i] < 0x80 && UpperByte(s[i]) == PREFIXES[j][i];
    hide UpperStarts;
    if j == 1 && UpperStarts(s, PREFIXES[0]) { StartsPointwise(s, PREFIXES[0], 6); }
    if j == 2 && UpperStarts(s, PREFIXES[0]) { StartsPointwise(s, PREFIXES[0], 1); }
    if j == 2 && UpperStarts(s, PREFIXES[1]) { StartsPointwise(s, PREFIXES[1], 1); }
  }

  lemma TextHasNot(t: Bytes, prefix: Bytes)
    requires IsWrapped(t) && prefix != [] && (prefix[|prefix| - 1] == 58 || prefix[|prefix| - 1] == 44)
    ensures !UpperStarts(t, prefix)
  {
    forall i | 0 <= i < |t| ensures t[i] < 0x80 && UpperByte(t[i]) != 58 && UpperByte(t[i]) != 44 { NoSeparator(t[i]); }
    hide UpperByte, IsText, IsBreak, UpperStarts;
    if UpperStarts(t, prefix) {
      UpperStartsSize(t, prefix);
      StartsPointwise(t, prefix, |prefix| - 1);
    }
  }

  lemma NoSeparator(c: Byte)
    requires IsText(c) || IsBreak(c)
    ensures c < 0x80 && UpperByte(c) != 58 && UpperByte(c) != 44
  {
  }

  lemma TextHasNoPrefix(t: Bytes)
    requires IsWrapped(t)
    ensures PrefixLen(t) == 0
  {
    TextHasNot(t, PREFIXES[0]);
    TextHasNot(t, PREFIXES[1]);
    TextHasNot(t, PREFIXES[2]);
    hide IsWrapped, UpperStarts;
  }

  // ---- decoding undoes encoding ----

  /** t is an encoding of b, padded or not, wrapped anywhere. */
  ghost predicate Encodes(t: Bytes, b: Bytes) {
    IsWrapped(t) && (NoBreaks(t) == Encode(b, true) || NoBreaks(t) == Encode(b, false))
  }

  lemma DecodesEither(t: Bytes, b: Bytes)
    requires Encodes(t, b)
    ensures Decode(t, true).Some? || Decode(t, false).Some?
    ensures Decode(t, true).Some? ==> Decode(t, true).value == b
    ensures Decode(t, false).Some? ==> Decode(t, false).value == b
  {
    CleanRoundTrip(b, true);
    CleanRoundTrip(b, false);
    CrossDecode(b);
    hide DecodeClean, Encode;
  }

  lemma ContentOf(s: Bytes, t: Bytes, n: nat)
    requires Trim(s) == t && t != [] && PrefixLen(t) == n > 0
    ensures var text := Trim(t[n..]);
            && (Decode(text, true).Some? ==> Content(s) == Decode(text, true).value)
            && (Decode(text, true).None? && Decode(text, false).Some? ==> Content(s) == Decode(text, false).value)
  {
    hide Trim, PrefixLen, Decode, Readable;
  }

  lemma SameEncoding(t: Bytes, t': Bytes, b: Bytes)
    requires Encodes(t, b) && IsWrapped(t') && NoBreaks(t') == NoBreaks(t)
    ensures Encodes(t', b)
  {
    hide IsWrapped, NoBreaks, Encode;
  }

  lemma EncodesWrapped(t: Bytes, b: Bytes)
    requires Encodes(t, b)
    ensures IsWrapped(t)
  {
    hide IsWrapped, NoBreaks, Encode;
  }

  /** Content after a prefix in any spelling decodes, readable or not. */
  lemma PrefixedDecodes(p: Bytes, t: Bytes, b: Bytes, j: nat)
    requires j < 3 && Spells(p, PREFIXES[j]) && Encodes(t, b)
    ensures Content(p + t) == b
  {
    hide *;
    var t' := TrimBack(t);
    EncodesWrapped(t, b);
    TrimPrefixed(p, t, j);
    SameEncoding(t, t', b);
    TrimText(t');
    SameEncoding(t', Trim(t'), b);
    SpelledLen(p, t', j);
    assert (p + t')[|p|..] == t' && (p + t') != [];
    DecodesEither(Trim(t'), b);
    ContentOf(p + t, p + t', |p|);
  }

  lemma TrimPrefixed(p: Bytes, t: Bytes, j: nat)
    requires j < 3 && Spells(p, PREFIXES[j]) && IsWrapped(t)
    ensures Trim(p + t) == p + TrimBack(t)
    ensures IsWrapped(TrimBack(t)) && NoBreaks(TrimBack(t)) == NoBreaks(t)
  {
    SpelledLen(p, [], j);
    SpaceBackAscii(p);
    SolidFront(p + t);
    hide SpaceBack, SpaceFront, Spells, IsWrapped;
    TrimBackText(p, t);
    assert TrimFront(p + t) == p + t;
  }

  lemma SolidFront(s: Bytes)
    requires s != [] && 33 <= s[0] < 0x80
    ensures SpaceFront(s) == 0
  {
  }

  lemma EncodedLonger(t: Bytes, b: Bytes)
    requires Encodes(t, b)
    ensures b != [] ==> |t| > |b|
    ensures b == [] ==> Trim(t) == []
  {
    EncodeLonger(b, true);
    EncodeLonger(b, false);
    NoBreaksShorter(t);
    if b == [] { TrimAllBreaks(t); }
  }

  lemma {:induction false} NoBreaksShorter(t: Bytes)
    ensures |NoBreaks(t)| <= |t|
    decreases |t|
  {
    if t != [] { NoBreaksShorter(t[1..]); }
  }

  lemma {:induction false} TrimAllBreaks(t: Bytes)
    requires IsWrapped(t) && NoBreaks(t) == []
    ensures Trim(t) == []
    decreases |t|
  {
    SpaceFrontText(t);
    if t != [] {
      assert IsBreak(t[0]);
      TrimAllBreaks(t[1..]);
    }
  }

  /** Without a prefix the bytes come back exactly when they are readable, or none. */
  lemma BareDecodesExact(t: Bytes, b: Bytes)
    requires Encodes(t, b)
    ensures Content(t) == b <==> Readable(b) || b == []
  {
    TrimText(t);
    TrimText(Trim(t));
    TextHasNoPrefix(Trim(t));
    assert Trim(t)[0..] == Trim(t);
    assert Encodes(Trim(t), b) && Encodes(Trim(Trim(t)), b);
    DecodesEither(Trim(Trim(t)), b);
    EncodedLonger(t, b);
    EncodedLonger(Trim(t), b);
    hide Trim, PrefixLen, Decode, Encodes, Readable, IsWrapped, NoBreaks;
  }

  // ---- plain text ----

  lemma {:induction false} TrimFrontDone(s: Bytes)
    ensures SpaceFront(TrimFront(s)) == 0
    decreases |s|
  {
    if SpaceFront(s) > 0 { TrimFrontDone(s[SpaceFront(s)..]); }
  }

  lemma {:induction false} TrimBackDone(s: Bytes)
    ensures SpaceBack(TrimBack(s)) == 0 && TrimBack(s) <= s
    decreases |s|
  {
    if SpaceBack(s) > 0 { TrimBackDone(s[..|s| - SpaceBack(s)]); }
  }

  lemma SpaceFrontPrefix(s: Bytes, t: Bytes)
    requires t <= s && SpaceFront(s) == 0
    ensures SpaceFront(t) == 0
  {
    assert forall k :: 0 <= k <= |t| ==> t[..k] == s[..k];
  }

  lemma TrimTwice(s: Bytes)
    ensures Trim(Trim(s)) == Trim(s)
  {
    TrimFrontDone(s);
    TrimBackDone(TrimFront(s));
    SpaceFrontPrefix(TrimFront(s), Trim(s));
  }

  lemma DecodedIsText(s: Bytes, padded: bool, i: nat)
    requires Decode(s, padded).Some? && i < |s|
    ensures IsText(s[i]) || IsBreak(s[i])
  {
    if padded { CleanHasCodes(NoBreaks(s)); } else { RawHasCodes(NoBreaks(s)); }
    if !IsBreak(s[i]) { NoBreaksHas(s, i); }
  }

  /** Text that could not be an encoding is kept: one blank inside is enough. */
  lemma PlainKept(s: Bytes, i: nat)
    requires PrefixLen(Trim(s)) == 0 && i < |Trim(s)|
    requires !IsText(Trim(s)[i]) && !IsBreak(Trim(s)[i])
    ensures Content(s) == Trim(s)
  {
    TrimTwice(s);
    var t := Trim(s);
    assert t[0..] == t;
    hide Trim, PrefixLen, Decode, IsText, IsBreak;
    if Decode(t, true).Some? { DecodedIsText(t, true, i); }
    if Decode(t, false).Some? { DecodedIsText(t, false, i); }
  }

  /** Without a prefix, what comes out is the trimmed input or a readable decoding of it. */
  lemma NeverGarbled(s: Bytes)
    requires PrefixLen(Trim(s)) == 0
    ensures Content(s) == Trim(s)
         || (Readable(Content(s))
             && (Decode(Trim(s), true) == Some(Content(s)) || Decode(Trim(s), false) == Some(Content(s))))
  {
    TrimTwice(s);
    assert Trim(s)[0..] == Trim(s);
    hide Trim, PrefixLen, Decode, Readable;
  }

  // ---- parseLogInfo ----

  datatype Entry = Entry(kind: Bytes, level: Bytes, time: Bytes, info: Bytes)

  /** A decoded value: a number comes as its decimal text. */
  datatype Value = Text(s: Bytes) | Number(s: Bytes) | Other

  type Raw = map<string, Value>

  /** The loginfo value: absent or of no use, one map, or a list in which None is
      an element that is not a map. */
  datatype LogInfo = Absent | Single(f: Raw) | Listed(items: seq<Option<Raw>>)

  /** str: blank text is as good as none. */
  function Str(m: Raw, key: string): Option<Bytes> {
    if key !in m then None
    else
      match m[key]
      case Text(s) => if Trim(s) == [] then None else Some(Trim(s))
      case Number(s) => Some(s)
      case Other => None
  }

  function StrOr(m: Raw, key: string, fallback: Bytes): Bytes {
    if Str(m, key).Some? then Str(m, key).value else fallback
  }

  const MAX_LOG_ENTRIES := 50

  function Maps(items: seq<Option<Raw>>): seq<Raw> {
    if items == [] then []
    else Maps(items[..|items| - 1]) + if items[|items| - 1].Some? then [items[|items| - 1].value] else []
  }

  /** collectLogEntries, and the flat form when there is nothing to collect. */
  function Collected(flat: Raw, loginfo: LogInfo): seq<Raw> {
    match loginfo
    case Absent => [flat]
    case Single(f) => [f]
    case Listed(items) => if Maps(items) == [] then [flat] else Maps(items)
  }

  function EntryOf(m: Raw): Entry {
    Entry(StrOr(m, "logtype", StrOr(m, "LogType", [])),
          StrOr(m, "loglevel", StrOr(m, "LogLevel", [])),
          StrOr(m, "logtime", StrOr(m, "LogTime", StrOr(m, "LogTimeStamp", []))),
          Content(StrOr(m, "logcontent", StrOr(m, "LogContent", []))))
  }

  predicate Blank(e: Entry) {
    e == Entry([], [], [], [])
  }

  function Kept(fs: seq<Raw>): seq<Entry> {
    if fs == [] then []
    else
      var front, e := Kept(fs[..|fs| - 1]), EntryOf(fs[|fs| - 1]);
      if Blank(e) then front else front + [e]
  }

  /** The last n, latest first. */
  function Latest(es: seq<Entry>, n: nat): (r: seq<Entry>)
    ensures |r| == if |es| < n then |es| else n
    ensures forall i :: 0 <= i < |r| ==> r[i] == es[|es| - 1 - i]
  {
    if es == [] || n == 0 then [] else [es[|es| - 1]] + Latest(es[..|es| - 1], n - 1)
  }

  /** The swap loop of parseLogInfo. */
  method ReverseInPlace(a: array<Entry>)
    modifies a
    ensures forall k :: 0 <= k < a.Length ==> a[k] == old(a[a.Length - 1 - k])
  {
    var i, j := 0, a.Length - 1;
    while i < j
      invariant 0 <= i && j == a.Length - 1 - i && i <= j + 1
      invariant forall k :: 0 <= k < i || j < k < a.Length ==> a[k] == old(a[a.Length - 1 - k])
      invariant forall k :: i <= k <= j ==> a[k] == old(a[k])
    {
      a[i], a[j] := a[j], a[i];
      i, j := i + 1, j - 1;
    }
  }

  function Parsed(flat: Raw, loginfo: LogInfo): seq<Entry> {
    Latest(Kept(Collected(flat, loginfo)), MAX_LOG_ENTRIES)
  }

  /** parseLogInfo, on what the response holds; the empty result is its nil. */
  method ParseLogInfo(flat: Raw, loginfo: LogInfo) returns (out: seq<Entry>)
    ensures out == Parsed(flat, loginfo)
  {
    var raws := Collected(flat, loginfo);
    var kept: seq<Entry> := [];
    hide Kept, StrOr, Content;
    KeptNone();
    for n := 0 to |raws|
      invariant kept == Kept(raws[..n])
    {
      var m := raws[n];
      var info := DecodeLogContent(StrOr(m, "logcontent", StrOr(m, "LogContent", [])));
      var e := Entry(StrOr(m, "logtype", StrOr(m, "LogType", [])),
                     StrOr(m, "loglevel", StrOr(m, "LogLevel", [])),
                     StrOr(m, "logtime", StrOr(m, "LogTime", StrOr(m, "LogTimeStamp", []))), info);
      KeptSnoc(raws, n, e);
      if !(e.kind == [] && e.level == [] && e.time == [] && e.info == []) {
        kept := kept + [e];
      }
    }
    assert raws[..|raws|] == raws;
    var a := new Entry[|kept|](k requires 0 <= k < |kept| => kept[k]);
    ReverseInPlace(a);
    out := a[..];
    if |out| > MAX_LOG_ENTRIES {
      out := out[..MAX_LOG_ENTRIES];
    }
  }

  lemma KeptNone()
    ensures Kept([]) == []
  {
  }

  lemma KeptSnoc(fs: seq<Raw>, n: nat, e: Entry)
    requires n < |fs| && e == EntryOf(fs[n])
    ensures Kept(fs[..n + 1]) == if Blank(e) then Kept(fs[..n]) else Kept(fs[..n]) + [e]
  {
    assert fs[..n + 1][..n] == fs[..n];
    hide EntryOf;
  }
}
