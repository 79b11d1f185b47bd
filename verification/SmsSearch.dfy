/** What a search of the SMS list matches: SQLite's LIKE with the search text between
    two percent signs, and nothing escaped. */
module SmsSearch {

  /** LIKE ignores the case of ASCII letters only. */
  function Fold(c: char): char {
    if 'A' <= c <= 'Z' then (c as int + 32) as char else c
  }

  predicate Like(p: string, t: string)
    decreases |p| + |t|
  {
    if p == [] then t == []
    else if p[0] == '%' then Like(p[1..], t) || (t != [] && Like(p, t[1..]))
    else t != [] && (p[0] == '_' || Fold(p[0]) == Fold(t[0])) && Like(p[1..], t[1..])
  }

  /** The argument ListSms passes for a search. */
  function Pattern(s: string): string {
    "%" + s + "%"
  }

  predicate IsWild(c: char) {
    c == '%' || c == '_'
  }

  predicate Literal(s: string) {
    forall i :: 0 <= i < |s| ==> !IsWild(s[i])
  }

  predicate StartsWith(t: string, s: string) {
    |s| <= |t| && forall i :: 0 <= i < |s| ==> Fold(s[i]) == Fold(t[i])
  }

  /** s occurs in t, up to the case of ASCII letters. */
  predicate Occurs(s: string, t: string) {
    StartsWith(t, s) || (t != [] && Occurs(s, t[1..]))
  }

  lemma {:induction false} PercentMatches(t: string)
    ensures Like("%", t)
    decreases |t|
  {
    assert "%"[1..] == [];
    if t != [] { PercentMatches(t[1..]); }
  }

  lemma {:induction false} LiteralStart(s: string, t: string)
    requires Literal(s)
    ensures Like(s + "%", t) <==> StartsWith(t, s)
    decreases |s|
  {
    if s == [] {
      assert s + "%" == "%";
      PercentMatches(t);
    } else {
      assert (s + "%")[1..] == s[1..] + "%" && (s + "%")[0] == s[0];
      assert !IsWild(s[0]);
      if t != [] {
        LiteralStart(s[1..], t[1..]);
        assert StartsWith(t, s) <==> Fold(s[0]) == Fold(t[0]) && StartsWith(t[1..], s[1..]) by { StartsCons(t, s); }
      }
    }
  }

  lemma StartsCons(t: string, s: string)
    requires t != [] && s != []
    ensures StartsWith(t, s) <==> Fold(s[0]) == Fold(t[0]) && StartsWith(t[1..], s[1..])
  {
    if Fold(s[0]) == Fold(t[0]) && StartsWith(t[1..], s[1..]) {
      forall i | 0 <= i < |s| ensures Fold(s[i]) == Fold(t[i]) {
        if i > 0 { assert Fold(s[1..][i - 1]) == Fold(t[1..][i - 1]); }
      }
    }
  }

  /** A search without wildcards is a substring search. */
  lemma {:induction false} LiteralSearch(s: string, t: string)
    requires Literal(s)
    ensures Like(Pattern(s), t) <==> Occurs(s, t)
    decreases |t|
  {
    assert Pattern(s)[1..] == s + "%";
    LiteralStart(s, t);
    if t != [] { LiteralSearch(s, t[1..]); }
  }

  /** s with every wildcard replaced by a letter. */
  function Masked(s: string): (r: string)
    ensures |r| == |s|
  {
    seq(|s|, i requires 0 <= i < |s| => if IsWild(s[i]) then 'x' else s[i])
  }

  lemma {:induction false} MaskedMatches(s: string)
    ensures Like(s + "%", Masked(s))
    decreases |s|
  {
    if s == [] {
      assert s + "%" == "%";
      PercentMatches([]);
    } else {
      var p, t := s + "%", Masked(s);
      assert p[1..] == s[1..] + "%" && p[0] == s[0] && t[1..] == Masked(s[1..]);
      MaskedMatches(s[1..]);
      if s[0] == '%' { assert Like(p, t[1..]); }
    }
  }

  lemma {:induction false} OccursSize(s: string, t: string)
    requires Occurs(s, t)
    ensures |s| <= |t|
    decreases |t|
  {
    if !StartsWith(t, s) { OccursSize(s, t[1..]); }
  }

  lemma WildMismatch(s: string)
    requires !Literal(s)
    ensures Like(Pattern(s), Masked(s)) && !Occurs(s, Masked(s))
  {
    var t := Masked(s);
    MaskedMatches(s);
    assert Pattern(s)[1..] == s + "%";
    var i :| 0 <= i < |s| && IsWild(s[i]);
    assert Fold(s[i]) != Fold(t[i]);
    if t != [] && Occurs(s, t[1..]) { OccursSize(s, t[1..]); }
  }

  /** A search finds the texts in which it occurs, and no others, exactly when it has
      no percent sign and no underscore: escaping is left to a caller that does none. */
  lemma SearchExact(s: string)
    ensures (forall t :: Like(Pattern(s), t) <==> Occurs(s, t)) <==> Literal(s)
  {
    hide Like, Occurs, Pattern, Literal;
    if Literal(s) {
      forall t ensures Like(Pattern(s), t) <==> Occurs(s, t) { LiteralSearch(s, t); }
    } else {
      WildMismatch(s);
    }
  }
}
