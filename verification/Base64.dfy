/** Base64 as sections 3.2 and 4 of RFC 4648 define it, and as Go's StdEncoding and
    RawStdEncoding decode it: line breaks are skipped, trailing bits ignored. */
module Base64 {
  import opened Common

  type Byte = b: int | 0 <= b < 256
  type Digit = d: int | 0 <= d < 64
  type Bytes = seq<Byte>

  const PAD: Byte := 61

  /** Table 1 of RFC 4648 */
  function Code(d: Digit): Byte {
    if d < 26 then 65 + d else if d < 52 then 71 + d else if d < 62 then d - 4 else if d == 62 then 43 else 47
  }

  function Val(c: Byte): Option<Digit> {
    if 65 <= c <= 90 then Some(c - 65)
    else if 97 <= c <= 122 then Some(c - 71)
    else if 48 <= c <= 57 then Some(c + 4)
    else if c == 43 then Some(62)
    else if c == 47 then Some(63)
    else None
  }

  predicate IsCode(c: Byte) {
    Val(c).Some?
  }

  // ---- encoding ----

  function Code3(a: Byte, b: Byte, c: Byte): (r: Bytes)
    ensures |r| == 4
  {
    [Code(a / 4), Code(a % 4 * 16 + b / 16), Code(b % 16 * 4 + c / 64), Code(c % 64)]
  }

  /** padded says whether the last group is filled up with pad characters. */
  function Encode(b: Bytes, padded: bool): Bytes {
    if b == [] then []
    else if |b| == 1 then [Code(b[0] / 4), Code(b[0] % 4 * 16)] + if padded then [PAD, PAD] else []
    else if |b| == 2 then
      [Code(b[0] / 4), Code(b[0] % 4 * 16 + b[1] / 16), Code(b[1] % 16 * 4)] + if padded then [PAD] else []
    else Code3(b[0], b[1], b[2]) + Encode(b[3..], padded)
  }

  // ---- decoding ----

  function First(p: Digit, q: Digit): Byte {
    p * 4 + q / 16
  }

  function Second(q: Digit, r: Digit): Byte {
    q % 16 * 16 + r / 4
  }

  function Third(r: Digit, s: Digit): Byte {
    r % 4 * 64 + s
  }

  function Prepend(head: Bytes, tail: Option<Bytes>): Option<Bytes> {
    if tail.Some? then Some(head + tail.value) else None
  }

  /** A full group of four codes at the front. */
  predicate FullGroup(s: Bytes) {
    |s| >= 4 && IsCode(s[0]) && IsCode(s[1]) && IsCode(s[2]) && IsCode(s[3])
  }

  function GroupBytes(s: Bytes): (r: Bytes)
    requires FullGroup(s)
    ensures |r| == 3
  {
    var p, q, r, t := Val(s[0]).value, Val(s[1]).value, Val(s[2]).value, Val(s[3]).value;
    [First(p, q), Second(q, r), Third(r, t)]
  }

  /** What a short last group of two or three codes stands for. */
  function TailBytes(s: Bytes): Option<Bytes> {
    if |s| == 2 && IsCode(s[0]) && IsCode(s[1]) then Some([First(Val(s[0]).value, Val(s[1]).value)])
    else if |s| == 3 && IsCode(s[0]) && IsCode(s[1]) && IsCode(s[2]) then
      Some([First(Val(s[0]).value, Val(s[1]).value), Second(Val(s[1]).value, Val(s[2]).value)])
    else None
  }

  /** Decoding text without line breaks; padded tells StdEncoding from RawStdEncoding. */
  function DecodeClean(s: Bytes, padded: bool): Option<Bytes>
    decreases |s|
  {
    if s == [] then Some([])
    else if FullGroup(s) then Prepend(GroupBytes(s), DecodeClean(s[4..], padded))
    else if !padded then TailBytes(s)
    else if |s| != 4 || s[3] != PAD then None
    else if s[2] == PAD then TailBytes(s[..2])
    else TailBytes(s[..3])
  }

  predicate IsBreak(c: Byte) {
    c == 10 || c == 13
  }

  function NoBreaks(s: Bytes): Bytes {
    if s == [] then [] else if IsBreak(s[0]) then NoBreaks(s[1..]) else [s[0]] + NoBreaks(s[1..])
  }

  /** DecodeString */
  function Decode(s: Bytes, padded: bool): Option<Bytes> {
    DecodeClean(NoBreaks(s), padded)
  }

  // ---- round trips ----

  lemma ValCode(d: Digit)
    ensures Val(Code(d)) == Some(d)
  {
  }

  lemma BytesBack(a: Byte, b: Byte, c: Byte)
    ensures First(a / 4, a % 4 * 16 + b / 16) == a
    ensures Second(a % 4 * 16 + b / 16, b % 16 * 4 + c / 64) == b
    ensures Third(b % 16 * 4 + c / 64, c % 64) == c
  {
  }

  lemma GroupBack(a: Byte, b: Byte, c: Byte, rest: Bytes)
    ensures FullGroup(Code3(a, b, c) + rest)
    ensures GroupBytes(Code3(a, b, c) + rest) == [a, b, c]
  {
    ValCode(a / 4);
    ValCode(a % 4 * 16 + b / 16);
    ValCode(b % 16 * 4 + c / 64);
    ValCode(c % 64);
    BytesBack(a, b, c);
    hide Code, Val, First, Second, Third;
  }

  lemma TailBack1(a: Byte)
    ensures TailBytes([Code(a / 4), Code(a % 4 * 16)]) == Some([a])
  {
    ValCode(a / 4);
    ValCode(a % 4 * 16);
    BytesBack(a, 0, 0);
    hide Code, Val;
  }

  lemma TailBack2(a: Byte, b: Byte)
    ensures TailBytes([Code(a / 4), Code(a % 4 * 16 + b / 16), Code(b % 16 * 4)]) == Some([a, b])
  {
    ValCode(a / 4);
    ValCode(a % 4 * 16 + b / 16);
    ValCode(b % 16 * 4);
    BytesBack(a, b, 0);
    hide Code, Val;
  }

  lemma CleanTail1(a: Byte, padded: bool)
    ensures DecodeClean(Encode([a], padded), padded) == Some([a])
  {
    var codes := [Code(a / 4), Code(a % 4 * 16)];
    TailBack1(a);
    hide Code, TailBytes;
    var s := Encode([a], padded);
    if padded {
      assert s[..2] == codes && s[2] == PAD && !IsCode(PAD);
    } else {
      assert s == codes;
    }
  }

  lemma CleanTail2(a: Byte, b: Byte, padded: bool)
    ensures DecodeClean(Encode([a, b], padded), padded) == Some([a, b])
  {
    var codes := [Code(a / 4), Code(a % 4 * 16 + b / 16), Code(b % 16 * 4)];
    TailBack2(a, b);
    ValCode(b % 16 * 4);
    assert codes[2] != PAD;
    hide Code, TailBytes;
    var s := Encode([a, b], padded);
    if padded {
      assert s[..3] == codes && s[3] == PAD && !IsCode(PAD);
    } else {
      assert s == codes;
    }
  }

  /** Each encoding decodes the bytes it was made from. */
  lemma {:induction false} CleanRoundTrip(b: Bytes, padded: bool)
    ensures DecodeClean(Encode(b, padded), padded) == Some(b)
    decreases |b|
  {
    if |b| == 1 {
      CleanTail1(b[0], padded);
      assert b == [b[0]];
    } else if |b| == 2 {
      CleanTail2(b[0], b[1], padded);
      assert b == [b[0], b[1]];
    } else if |b| > 2 {
      CleanRoundTrip(b[3..], padded);
      GroupBack(b[0], b[1], b[2], Encode(b[3..], padded));
      hide Code3, FullGroup, GroupBytes;
      var s := Encode(b, padded);
      assert s[4..] == Encode(b[3..], padded);
      assert b == [b[0], b[1], b[2]] + b[3..];
    }
  }

  lemma {:induction false} EncodeSame(b: Bytes)
    ensures |b| % 3 == 0 ==> Encode(b, true) == Encode(b, false)
    decreases |b|
  {
    hide Code3;
    if |b| > 2 { EncodeSame(b[3..]); }
  }

  lemma {:induction false} EncodeLonger(b: Bytes, padded: bool)
    ensures b != [] ==> |Encode(b, padded)| > |b|
    ensures |b| % 3 != 0 && !padded ==> |Encode(b, padded)| % 4 != 0
    decreases |b|
  {
    hide Code3;
    if |b| > 2 { EncodeLonger(b[3..], padded); }
  }

  lemma {:induction false} EncodePads(b: Bytes)
    ensures |b| % 3 != 0 ==> PAD in Encode(b, true)
    decreases |b|
  {
    if |b| > 2 {
      EncodePads(b[3..]);
      hide Code3;
    }
  }

  lemma {:induction false} PaddedSize(s: Bytes)
    requires DecodeClean(s, true).Some?
    ensures |s| % 4 == 0
    decreases |s|
  {
    hide GroupBytes, TailBytes, IsCode;
    if FullGroup(s) { PaddedSize(s[4..]); }
  }

  lemma {:induction false} RawHasCodes(s: Bytes)
    requires DecodeClean(s, false).Some?
    ensures forall i :: 0 <= i < |s| ==> IsCode(s[i])
    decreases |s|
  {
    if FullGroup(s) {
      RawHasCodes(s[4..]);
      assert forall i :: 4 <= i < |s| ==> s[i] == s[4..][i - 4];
    }
  }

  lemma {:induction false} CleanHasCodes(s: Bytes)
    requires DecodeClean(s, true).Some?
    ensures forall i :: 0 <= i < |s| ==> IsCode(s[i]) || s[i] == PAD
    decreases |s|
  {
    if FullGroup(s) {
      CleanHasCodes(s[4..]);
      assert forall i :: 4 <= i < |s| ==> s[i] == s[4..][i - 4];
    }
  }

  /** Each decoder on the other encoding: it either agrees or refuses. */
  lemma CrossDecode(b: Bytes)
    ensures DecodeClean(Encode(b, true), false) == if |b| % 3 == 0 then Some(b) else None
    ensures DecodeClean(Encode(b, false), true) == if |b| % 3 == 0 then Some(b) else None
  {
    EncodeSame(b);
    EncodePads(b);
    EncodeLonger(b, false);
    CleanRoundTrip(b, true);
    CleanRoundTrip(b, false);
    hide DecodeClean, Encode;
    if |b| % 3 != 0 {
      if DecodeClean(Encode(b, true), false).Some? { RawHasCodes(Encode(b, true)); }
      if DecodeClean(Encode(b, false), true).Some? { PaddedSize(Encode(b, false)); }
    }
  }

  lemma CodeIsCode(d: Digit)
    ensures IsCode(Code(d))
  {
  }

  lemma {:induction false} EncodeCodes(b: Bytes, padded: bool)
    ensures forall i :: 0 <= i < |Encode(b, padded)| ==> IsCode(Encode(b, padded)[i]) || Encode(b, padded)[i] == PAD
    decreases |b|
  {
    forall d: Digit ensures IsCode(Code(d)) { CodeIsCode(d); }
    hide Code, IsCode;
    if |b| > 2 { EncodeCodes(b[3..], padded); }
  }

  // ---- line breaks ----

  lemma {:induction false} NoBreaksSame(s: Bytes)
    requires forall i :: 0 <= i < |s| ==> !IsBreak(s[i])
    ensures NoBreaks(s) == s
    decreases |s|
  {
    if s != [] {
      NoBreaksSame(s[1..]);
      assert s == [s[0]] + s[1..];
    }
  }

  lemma {:induction false} NoBreaksConcat(s: Bytes, t: Bytes)
    ensures NoBreaks(s + t) == NoBreaks(s) + NoBreaks(t)
    decreases |s|
  {
    if s == [] {
      assert s + t == t;
    } else {
      NoBreaksConcat(s[1..], t);
      assert (s + t)[1..] == s[1..] + t;
    }
  }

  lemma {:induction false} NoBreaksHas(s: Bytes, i: nat)
    requires i < |s| && !IsBreak(s[i])
    ensures s[i] in NoBreaks(s)
    decreases |s|
  {
    if i > 0 { NoBreaksHas(s[1..], i - 1); }
  }

  // ---- what the code is ----

  /** The 64 characters of Table 1: letters, small letters, digits, plus and slash. */
  lemma CodeIsAlphabet(d: Digit)
    ensures d < 26 ==> Code(d) == 'A' as int + d
    ensures 26 <= d < 52 ==> Code(d) == 'a' as int + (d - 26)
    ensures 52 <= d < 62 ==> Code(d) == '0' as int + (d - 52)
    ensures Code(62) == '+' as int && Code(63) == '/' as int
  {
  }

  /** A group of four codes is the 24-bit number its three bytes make, in base 64. */
  lemma GroupValue(a: Byte, b: Byte, c: Byte)
    ensures var r := Code3(a, b, c);
            && IsCode(r[0]) && IsCode(r[1]) && IsCode(r[2]) && IsCode(r[3])
            && Val(r[0]).value * 262144 + Val(r[1]).value * 4096 + Val(r[2]).value * 64 + Val(r[3]).value
               == a * 65536 + b * 256 + c
  {
    ValCode(a / 4);
    ValCode(a % 4 * 16 + b / 16);
    ValCode(b % 16 * 4 + c / 64);
    ValCode(c % 64);
    hide Code, Val;
  }

  // ---- what is accepted ----

  /** n codes and then only pad characters: never one code alone in the last group, and
      that group filled up by at most two pads, or none at all. */
  predicate WellFormed(s: Bytes, n: nat, padded: bool) {
    && n <= |s| && n % 4 != 1
    && (forall i :: 0 <= i < n ==> IsCode(s[i])) && (forall i :: n <= i < |s| ==> s[i] == PAD)
    && if padded then |s| % 4 == 0 && |s| - n <= 2 else |s| == n
  }

  lemma FormedStep(s: Bytes, n: nat, padded: bool)
    requires FullGroup(s) && WellFormed(s[4..], n, padded)
    ensures WellFormed(s, n + 4, padded)
  {
    hide IsCode;
    assert forall i :: 4 <= i < |s| ==> s[i] == s[4..][i - 4];
  }

  lemma FormedEnd(s: Bytes, padded: bool) returns (n: nat)
    requires !FullGroup(s) && DecodeClean(s, padded).Some?
    ensures WellFormed(s, n, padded)
  {
    hide IsCode;
    n := if !padded || s == [] then |s| else if s[2] == PAD then 2 else 3;
  }

  lemma {:induction false} AcceptedFormed(s: Bytes, padded: bool) returns (n: nat)
    requires DecodeClean(s, padded).Some?
    ensures WellFormed(s, n, padded)
    decreases |s|
  {
    if FullGroup(s) {
      hide WellFormed, TailBytes, GroupBytes;
      n := AcceptedFormed(s[4..], padded);
      FormedStep(s, n, padded);
      n := n + 4;
    } else {
      n := FormedEnd(s, padded);
    }
  }

  lemma {:induction false} FormedAccepted(s: Bytes, n: nat, padded: bool)
    requires WellFormed(s, n, padded)
    ensures DecodeClean(s, padded).Some?
    decreases |s|
  {
    PadIsNoCode();
    hide IsCode;
    if FullGroup(s) {
      assert forall i :: 4 <= i < |s| ==> s[i] == s[4..][i - 4];
      assert n >= 4;
      FormedAccepted(s[4..], n - 4, padded);
    } else {
      assert n < 4;
    }
  }

  lemma PadIsNoCode()
    ensures !IsCode(PAD)
  {
  }

  /** What the two decoders accept; bits left over in the last code do not matter. */
  lemma AcceptedExact(s: Bytes, padded: bool)
    ensures DecodeClean(s, padded).Some? <==> exists n: nat :: WellFormed(s, n, padded)
  {
    hide DecodeClean, WellFormed;
    if DecodeClean(s, padded).Some? {
      var n := AcceptedFormed(s, padded);
    }
    forall n: nat | WellFormed(s, n, padded) ensures DecodeClean(s, padded).Some? {
      FormedAccepted(s, n, padded);
    }
  }
}
