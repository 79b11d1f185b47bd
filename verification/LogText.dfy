/** What the readability guard of log contents means: text in UTF-8 (RFC 3629), most of
    its bytes printable. */
module LogText {
  import opened Base64
  import opened LogDecode

  // ---- UTF-8 ----

  /** A Unicode scalar value: no surrogate. */
  predicate Scalar(u: int) {
    0 <= u < 0xD800 || 0xE000 <= u <= 0x10FFFF
  }

  /** The table in section 3 of RFC 3629 */
  function Utf8(u: int): (b: Bytes)
    requires Scalar(u)
    ensures b != []
  {
    if u < 0x80 then [u]
    else if u < 0x800 then [0xC0 + u / 64, 0x80 + u % 64]
    else if u < 0x10000 then [0xE0 + u / 4096, 0x80 + u / 64 % 64, 0x80 + u % 64]
    else [0xF0 + u / 262144, 0x80 + u / 4096 % 64, 0x80 + u / 64 % 64, 0x80 + u % 64]
  }

  predicate Scalars(us: seq<int>) {
    forall i :: 0 <= i < |us| ==> Scalar(us[i])
  }

  function Utf8All(us: seq<int>): Bytes
    requires Scalars(us)
  {
    if us == [] then [] else Utf8(us[0]) + Utf8All(us[1..])
  }

  lemma Sixes(u: nat)
    ensures u == u / 4096 * 4096 + u / 64 % 64 * 64 + u % 64
    ensures u / 4096 == u / 262144 * 64 + u / 4096 % 64
    ensures u == u / 64 * 64 + u % 64
  {
    assert u / 64 / 64 == u / 4096;
    assert u / 4096 / 64 == u / 262144;
  }

  lemma RuneShort(u: int, rest: Bytes)
    requires Scalar(u) && u < 0x800
    ensures RuneLen(Utf8(u) + rest) == |Utf8(u)|
  {
    Sixes(u);
  }

  lemma Lead3Written(u: int)
    requires Scalar(u) && 0x800 <= u < 0x10000
    ensures 0 <= u / 4096 < 16 && Lead3(0xE0 + u / 4096, 0x80 + u / 64 % 64)
  {
    Sixes(u);
  }

  lemma Lead4Written(u: int)
    requires 0x10000 <= u <= 0x10FFFF
    ensures 0 <= u / 262144 < 5 && Lead4(0xF0 + u / 262144, 0x80 + u / 4096 % 64)
  {
    Sixes(u);
  }

  lemma RuneWritten(u: int, rest: Bytes)
    requires Scalar(u)
    ensures RuneLen(Utf8(u) + rest) == |Utf8(u)|
  {
    var s := Utf8(u) + rest;
    if u < 0x800 {
      RuneShort(u, rest);
    } else if u < 0x10000 {
      Lead3Written(u);
      assert |s| >= 3 && s[0] == 0xE0 + u / 4096 && s[1] == 0x80 + u / 64 % 64 && s[2] == 0x80 + u % 64;
      hide Lead3, Utf8;
    } else {
      Lead4Written(u);
      assert |s| >= 4 && s[0] == 0xF0 + u / 262144 && s[1] == 0x80 + u / 4096 % 64;
      assert s[2] == 0x80 + u / 64 % 64 && s[3] == 0x80 + u % 64;
      hide Lead4, Lead3, Utf8;
    }
  }

  /** The value a sequence at the front stands for. */
  function RuneValue(s: Bytes): (u: int)
    requires RuneLen(s) > 0
  {
    var n := RuneLen(s);
    if n == 1 then s[0]
    else if n == 2 then (s[0] as int - 0xC0) * 64 + (s[1] as int - 0x80)
    else if n == 3 then (s[0] as int - 0xE0) * 4096 + (s[1] as int - 0x80) * 64 + (s[2] as int - 0x80)
    else
      (s[0] as int - 0xF0) * 262144 + (s[1] as int - 0x80) * 4096 + (s[2] as int - 0x80) * 64 + (s[3] as int - 0x80)
  }

  lemma Joined(x: nat, y: nat, z: nat)
    requires y < 64 && z < 64
    ensures var u := x * 4096 + y * 64 + z; u / 4096 == x && u / 64 % 64 == y && u % 64 == z
  {
    var u := x * 4096 + y * 64 + z;
    assert u / 64 == x * 64 + y;
  }

  lemma RuneRead3(s: Bytes)
    requires RuneLen(s) == 3
    ensures Scalar(RuneValue(s)) && Utf8(RuneValue(s)) == s[..3]
  {
    Joined(s[0] as int - 0xE0, s[1] as int - 0x80, s[2] as int - 0x80);
  }

  lemma RuneRead4(s: Bytes)
    requires RuneLen(s) == 4
    ensures Scalar(RuneValue(s)) && Utf8(RuneValue(s)) == s[..4]
  {
    var a, b := s[0] as int - 0xF0, s[1] as int - 0x80;
    Joined(a * 64 + b, s[2] as int - 0x80, s[3] as int - 0x80);
    assert (a * 64 + b) / 64 == a;
    assert RuneValue(s) / 262144 == RuneValue(s) / 4096 / 64;
  }

  lemma RuneRead(s: Bytes)
    requires RuneLen(s) > 0
    ensures Scalar(RuneValue(s)) && Utf8(RuneValue(s)) == s[..RuneLen(s)]
  {
    if RuneLen(s) == 3 {
      RuneRead3(s);
    } else if RuneLen(s) == 4 {
      RuneRead4(s);
    } else {
      assert RuneLen(s) <= 2;
    }
  }

  lemma {:induction false} WrittenValid(us: seq<int>)
    requires Scalars(us)
    ensures ValidUtf8(Utf8All(us))
    decreases |us|
  {
    if us != [] {
      WrittenValid(us[1..]);
      RuneWritten(us[0], Utf8All(us[1..]));
      hide Utf8, RuneLen;
      assert Utf8All(us)[|Utf8(us[0])|..] == Utf8All(us[1..]);
    }
  }

  lemma Utf8Cons(u: int, us: seq<int>)
    requires Scalar(u) && Scalars(us)
    ensures Scalars([u] + us) && Utf8All([u] + us) == Utf8(u) + Utf8All(us)
  {
    assert ([u] + us)[1..] == us;
    hide Utf8;
  }

  lemma Utf8None()
    ensures Scalars([]) && Utf8All([]) == []
  {
  }

  lemma {:induction false} ValidWritten(s: Bytes) returns (us: seq<int>)
    requires ValidUtf8(s)
    ensures Scalars(us) && Utf8All(us) == s
    decreases |s|
  {
    hide *;
    if s == [] {
      us := [];
      Utf8None();
    } else {
      RuneStep(s);
      var n := RuneLen(s);
      RuneRead(s);
      var rest := ValidWritten(s[n..]);
      us := [RuneValue(s)] + rest;
      Utf8Cons(RuneValue(s), rest);
      assert s == s[..n] + s[n..];
    }
  }

  /** Valid text is what some sequence of Unicode scalar values is written as. */
  lemma ValidExact(s: Bytes)
    ensures ValidUtf8(s) <==> exists us :: Scalars(us) && Utf8All(us) == s
  {
    if ValidUtf8(s) {
      var us := ValidWritten(s);
    }
    forall us | Scalars(us) && Utf8All(us) == s ensures ValidUtf8(s) {
      WrittenValid(us);
    }
  }

  // ---- counting ----

  /** The positions of printable bytes and of tabs and line ends, from k on. */
  function Visible(s: Bytes, k: nat): set<int> {
    set i | k <= i < |s| && (32 <= s[i] <= 126 || s[i] in {9, 10, 13}) :: i
  }

  lemma {:induction false} CountExact(s: Bytes, k: nat)
    requires k <= |s|
    ensures PrintableCount(s[k..]) == |Visible(s, k)|
    decreases |s| - k
  {
    if k < |s| {
      CountExact(s, k + 1);
      assert s[k..][1..] == s[k + 1..];
      assert Visible(s, k) == Visible(s, k + 1) + if Printable(s[k]) then {k} else {};
    }
  }

  /** What counts as readable: text in UTF-8, not empty, four fifths of it visible. */
  lemma ReadableExact(s: Bytes)
    ensures Readable(s) <==>
            && s != [] && (exists us :: Scalars(us) && Utf8All(us) == s)
            && 5 * |Visible(s, 0)| >= 4 * |s|
  {
    ValidExact(s);
    CountExact(s, 0);
    assert s[0..] == s;
    hide ValidUtf8, PrintableCount, Visible;
  }
}
