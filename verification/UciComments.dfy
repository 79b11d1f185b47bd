/** Comments behind the fields of a UCI line.  The scanner knows no comments: what
    follows the hash mark is read as more fields. */
module UciComments {
  import opened Common
  import opened Text
  import opened UciParser
  import opened UciRoundTrip

  // ---- the fields of a line with a comment ----

  /** The quote the scanner is in after s. */
  function QuoteAfter(quote: Option<char>, s: string): Option<char>
    decreases |s|
  {
    if s == [] then quote
    else
      match quote
      case None => QuoteAfter(if IsQuote(s[0]) then Some(s[0]) else None, s[1..])
      case Some(q) => QuoteAfter(if s[0] == q then None else quote, s[1..])
  }

  /** Every quote in s is closed, so what follows is not part of a quoted word. */
  predicate Closed(s: string) {
    QuoteAfter(None, s).None?
  }

  predicate Blanks(gap: string) {
    forall i :: 0 <= i < |gap| ==> IsBlank(gap[i])
  }

  lemma FieldsAtBlank(cur: string, t: string)
    requires t == [] || IsBlank(t[0])
    ensures FieldsInside(None, cur, t) == NonEmpty(cur) + Fields(t)
  {
    if t == [] {
      FieldsEnd(None, cur);
      assert NonEmpty(cur) + [] == NonEmpty(cur);
    } else {
      StepBlank(cur, t);
      FieldsFromStart(t[1..]);
    }
  }

  lemma SplitBlank(cur: string, s: string, t: string)
    requires s != [] && IsBlank(s[0])
    requires FieldsInside(None, [], s[1..] + t) == FieldsInside(None, [], s[1..]) + Fields(t)
    ensures FieldsInside(None, cur, s + t) == FieldsInside(None, cur, s) + Fields(t)
  {
    hide FieldsInside, Fields;
    assert (s + t)[0] == s[0] && (s + t)[1..] == s[1..] + t;
    StepBlank(cur, s);
    StepBlank(cur, s + t);
    ConcatAssoc(NonEmpty(cur), FieldsInside(None, [], s[1..]), Fields(t));
  }

  lemma ConcatAssoc(a: seq<string>, b: seq<string>, c: seq<string>)
    ensures a + (b + c) == a + b + c
  {
  }

  /** Fields do not look past a blank outside quotes. */
  lemma {:induction false} FieldsSplit(quote: Option<char>, cur: string, s: string, t: string)
    requires QuoteAfter(quote, s).None? && (t == [] || IsBlank(t[0]))
    ensures FieldsInside(quote, cur, s + t) == FieldsInside(quote, cur, s) + Fields(t)
    decreases |s|
  {
    if s == [] {
      assert s + t == t;
      FieldsAtBlank(cur, t);
      FieldsEnd(None, cur);
    } else {
      assert (s + t)[0] == s[0] && (s + t)[1..] == s[1..] + t;
      hide FieldsInside, Fields;
      if quote.Some? {
        if s[0] == quote.value {
          StepCloseQuote(s[0], cur, s);
          StepCloseQuote(s[0], cur, s + t);
          FieldsSplit(None, cur, s[1..], t);
        } else {
          StepQuotedChar(quote.value, cur, s);
          StepQuotedChar(quote.value, cur, s + t);
          FieldsSplit(quote, cur + [s[0]], s[1..], t);
        }
      } else if IsQuote(s[0]) {
        StepOpenQuote(cur, s);
        StepOpenQuote(cur, s + t);
        FieldsSplit(Some(s[0]), cur, s[1..], t);
      } else if IsBlank(s[0]) {
        FieldsSplit(None, [], s[1..], t);
        SplitBlank(cur, s, t);
      } else {
        StepChar(cur, s);
        StepChar(cur, s + t);
        FieldsSplit(None, cur + [s[0]], s[1..], t);
      }
    }
  }

  lemma {:induction false} FieldsSkip(gap: string, t: string)
    requires Blanks(gap)
    ensures Fields(gap + t) == Fields(t)
    decreases |gap|
  {
    if gap == [] {
      assert gap + t == t;
    } else {
      assert (gap + t)[1..] == gap[1..] + t && IsBlank((gap + t)[0]);
      FieldsSkip(gap[1..], t);
    }
  }

  /** A comment adds its own words to the fields, the hash mark at their head. */
  lemma FieldsCommented(s: string, gap: string, rest: string)
    requires Closed(s) && Blanks(gap) && gap != []
    ensures Fields(s + (gap + ("#" + rest))) == Fields(s) + Fields("#" + rest)
    ensures Fields("#" + rest) != [] && "#" <= Fields("#" + rest)[0]
  {
    var t := gap + ("#" + rest);
    FieldsSplit(None, [], s, t);
    FieldsFromStart(s);
    FieldsFromStart(s + t);
    FieldsSkip(gap, "#" + rest);
    CommentHead(rest);
    hide Fields, FieldsFrom;
  }

  lemma CommentHead(rest: string)
    ensures Fields("#" + rest) != [] && "#" <= Fields("#" + rest)[0]
  {
    var s := "#" + rest;
    assert s[0] == '#' && s[1..] == rest;
    var (w, tail) := Word(rest);
    assert Word(s) == (['#'] + w, tail);
  }

  lemma {:induction false} TrimQuotesHash(w: string)
    requires "#" <= w
    ensures "#" <= TrimQuotes(w)
    decreases |w|
  {
    if IsQuote(w[|w| - 1]) {
      assert |w| > 1;
      TrimQuotesHash(w[..|w| - 1]);
    }
  }

  // ---- what a comment does to a line ----

  /** The text of a comment behind a line. */
  function Comment(gap: string, rest: string): string {
    gap + ("#" + rest)
  }

  /** Behind an option line a comment is ignored exactly when the line has its two fields
      already, or has none and the comment is one word: a lone field takes the comment's
      first word as its value. */
  lemma OptionCommentExact(s: string, gap: string, rest: string)
    requires Closed(s) && Blanks(gap) && gap != []
    ensures Classify("option" + (s + Comment(gap, rest))) == Classify("option" + s)
       <==> |Fields(s)| >= 2 || (|Fields(s)| == 0 && |Fields("#" + rest)| == 1)
    ensures |Fields(s)| == 1 ==>
      Classify("option" + (s + Comment(gap, rest))) ==
        Item(false, TrimQuotes(Fields(s)[0]), TrimQuotes(Fields("#" + rest)[0]))
  {
    FieldsCommented(s, gap, rest);
    ClassifyOption(s);
    ClassifyOption(s + Comment(gap, rest));
    hide Fields, Classify, TrimQuotes, Closed, Blanks;
  }

  /** The same behind a list line, as trimmed; one too short to be sliced is never the
      same with a comment behind it. */
  lemma ListCommentExact(s: string, gap: string, rest: string)
    requires Closed(s) && Blanks(gap) && gap != []
    requires s == [] || !IsBlank(s[|s| - 1])
    ensures Classify("list" + (s + Comment(gap, rest))) == Classify("list" + s)
       <==> |Fields(s)| >= 2 || (|Fields(s)| == 0 && |Fields("#" + rest)| == 1 && ByteSize("list" + s) >= 6)
    ensures |Fields(s)| == 1 ==>
      Classify("list" + (s + Comment(gap, rest))) ==
        Item(true, TrimQuotes(Fields(s)[0]), TrimQuotes(Fields("#" + rest)[0]))
  {
    FieldsCommented(s, gap, rest);
    ClassifyListLine(s);
    var t := s + Comment(gap, rest);
    assert |t| >= 2;
    ClassifyList(t);
    if ByteSize("list" + s) < 6 {
      ShortHasOneField(s);
    }
    hide Fields, Classify, TrimQuotes, Closed, Blanks, ByteSize;
  }

  lemma ClassifyListLine(tail: string)
    ensures Classify("list" + tail) ==
              if ByteSize("list" + tail) < 6 then ShortList else ClassifyItem(true, Fields(tail))
  {
    var line := "list" + tail;
    assert line[0] == 'l';
    PrefixHead(line, "#");
    PrefixHead(line, "config");
    PrefixOf("list", tail);
    hide HasPrefix, Fields, ByteSize;
  }

  lemma ShortHasOneField(s: string)
    requires ByteSize("list" + s) < 6
    ensures |s| <= 1 && |Fields(s)| <= 1
  {
    assert |"list" + s| <= ByteSize("list" + s);
    if |s| == 1 {
      assert s[1..] == [];
      assert Fields([]) == [];
    }
  }

  lemma ClassifyConfig(tail: string)
    ensures Classify("config" + tail) == ClassifyHead(Fields(tail))
  {
    var line := "config" + tail;
    assert line[0] == 'c';
    PrefixHead(line, "#");
    PrefixOf("config", tail);
    hide HasPrefix, Fields;
  }

  /** Behind a config line a comment is ignored only where the line is malformed anyway,
      or where a lone word would stand for the type and the name; a line that gives both
      becomes malformed, whatever the comment says. */
  lemma HeadCommentExact(s: string, gap: string, rest: string)
    requires Closed(s) && Blanks(gap) && gap != []
    ensures Classify("config" + (s + Comment(gap, rest))) == Classify("config" + s)
       <==> || |Fields(s)| >= 3
            || (|Fields(s)| == 0 && |Fields("#" + rest)| >= 3)
            || (|Fields(s)| == 1 && |Fields("#" + rest)| == 1
                && TrimQuotes(Fields("#" + rest)[0]) == TrimQuotes(Fields(s)[0]))
    ensures |Fields(s)| >= 2 ==> Classify("config" + (s + Comment(gap, rest))) == BadHead
  {
    FieldsCommented(s, gap, rest);
    ClassifyConfig(s);
    ClassifyConfig(s + Comment(gap, rest));
    hide Fields, Classify, TrimQuotes, Closed, Blanks;
  }

  lemma {:induction false} BadHeadFaults(ls: seq<Line>, open: bool, at: nat, i: nat)
    requires i < |ls| && ls[i] == BadHead
    ensures FirstFault(ls, open, at).Some? && !FirstFault(ls, open, at).value.Parsed?
    decreases |ls|
  {
    FirstFaultStep(ls, open, at);
    if i > 0 && Fault(ls[0], open, at).None? { BadHeadFaults(ls[1..], open || ls[0].Head?, at + 1, i - 1); }
  }

  /** One comment behind a config line with type and name makes the whole file unreadable. */
  lemma HeadCommentFatal(lines: seq<string>, i: nat, s: string, gap: string, rest: string)
    requires Closed(s) && Blanks(gap) && gap != [] && |Fields(s)| >= 2
    requires i < |lines| && TrimSpace(lines[i]) == "config" + (s + Comment(gap, rest))
    ensures !Meaning(lines).Parsed?
  {
    HeadCommentExact(s, gap, rest);
    ClassesAt(lines, i);
    hide Fields, Classify, Closed, Blanks, Comment, TrimSpace;
    BadHeadFaults(Classes(lines), false, 0, i);
  }

  // ---- lines as they are written ----

  /** A word without quotes around it. */
  predicate Bare(w: string) {
    w != [] && forall i :: 0 <= i < |w| ==> !IsQuote(w[i]) && !IsBlank(w[i])
  }

  /** x is a way to write the word w: bare, or between either kind of quotes. */
  predicate Writes(x: string, w: string) {
    || (Bare(w) && x == w)
    || exists q :: IsQuote(q) && (forall i :: 0 <= i < |w| ==> w[i] != q) && x == [q] + w + [q]
  }

  lemma {:induction false} QuotedUpTo(w: string, q: char, rest: string)
    requires forall i :: 0 <= i < |w| ==> w[i] != q
    ensures Quoted(w + ([q] + rest), q) == (w, rest)
    ensures QuoteAfter(Some(q), w + [q]).None?
    decreases |w|
  {
    if w == [] {
      assert w + ([q] + rest) == [q] + rest && ([q] + rest)[1..] == rest;
      assert w + [q] == [q] && [q][1..] == [];
    } else {
      assert (w + ([q] + rest))[1..] == w[1..] + ([q] + rest) && (w + [q])[1..] == w[1..] + [q];
      QuotedUpTo(w[1..], q, rest);
      assert [w[0]] + w[1..] == w;
    }
  }

  lemma {:induction false} BareWord(w: string)
    requires forall i :: 0 <= i < |w| ==> !IsQuote(w[i]) && !IsBlank(w[i])
    ensures Word(w) == (w, []) && Closed(w)
    decreases |w|
  {
    if w != [] {
      BareWord(w[1..]);
      assert [w[0]] + w[1..] == w;
    }
  }

  lemma WrittenWord(x: string, w: string)
    requires Writes(x, w)
    ensures Fields(x) == NonEmpty(w) && Closed(x)
  {
    assert Fields([]) == [];
    if Bare(w) && x == w {
      BareWord(w);
    } else {
      var q :| IsQuote(q) && (forall i :: 0 <= i < |w| ==> w[i] != q) && x == [q] + w + [q];
      assert x[1..] == w + ([q] + []) && x[0] == q;
      QuotedUpTo(w, q, []);
      assert w + ([q] + []) == w + [q];
      assert Word([]) == ([], []) && w + [] == w;
    }
    assert NonEmpty(w) + [] == NonEmpty(w);
  }

  lemma {:induction false} QuoteAfterConcat(quote: Option<char>, s: string, t: string)
    ensures QuoteAfter(quote, s + t) == QuoteAfter(QuoteAfter(quote, s), t)
    decreases |s|
  {
    if s == [] {
      assert s + t == t;
    } else {
      assert (s + t)[1..] == s[1..] + t;
      QuoteAfterConcat(if quote.None? then (if IsQuote(s[0]) then Some(s[0]) else None)
                       else if s[0] == quote.value then None else quote, s[1..], t);
    }
  }

  lemma {:induction false} BlanksClosed(gap: string)
    requires Blanks(gap)
    ensures Closed(gap)
    decreases |gap|
  {
    if gap != [] { BlanksClosed(gap[1..]); }
  }

  /** Two written words behind a keyword, each after blanks. */
  function TwoWords(g0: string, x: string, g1: string, y: string): string {
    g0 + (x + (g1 + y))
  }

  lemma TwoWordsFields(g0: string, x: string, g1: string, y: string, k: string, v: string)
    requires Blanks(g0) && Blanks(g1) && g1 != [] && Writes(x, k) && Writes(y, v)
    ensures Closed(TwoWords(g0, x, g1, y))
    ensures Fields(TwoWords(g0, x, g1, y)) == NonEmpty(k) + NonEmpty(v)
  {
    WrittenWord(x, k);
    WrittenWord(y, v);
    BlanksClosed(g0);
    BlanksClosed(g1);
    QuoteAfterConcat(None, g0, x + (g1 + y));
    QuoteAfterConcat(None, x, g1 + y);
    QuoteAfterConcat(None, g1, y);
    FieldsSkip(g0, x + (g1 + y));
    FieldsFromStart(x);
    FieldsFromStart(x + (g1 + y));
    FieldsSplit(None, [], x, g1 + y);
    FieldsSkip(g1, y);
    hide Fields, FieldsFrom, Writes;
  }

  /** A key and a value, written bare or quoted, with a comment behind them: the line
      means what it says exactly when neither is empty. */
  lemma OptionWithComment(g0: string, x: string, g1: string, y: string, k: string, v: string,
                          gap: string, rest: string)
    requires Blanks(g0) && Blanks(g1) && g1 != [] && Writes(x, k) && Writes(y, v)
    requires Plain(k) && Plain(v) && Blanks(gap) && gap != []
    ensures Classify("option" + (TwoWords(g0, x, g1, y) + Comment(gap, rest))) == Item(false, k, v)
       <==> k != [] && v != []
  {
    TwoWordsFields(g0, x, g1, y, k, v);
    FieldsCommented(TwoWords(g0, x, g1, y), gap, rest);
    ClassifyOption(TwoWords(g0, x, g1, y) + Comment(gap, rest));
    CommentedItem(false, k, v, Fields("#" + rest));
    hide Fields, Classify, Writes, TwoWords;
  }

  lemma ListWithComment(g0: string, x: string, g1: string, y: string, k: string, v: string,
                        gap: string, rest: string)
    requires Blanks(g0) && Blanks(g1) && g1 != [] && Writes(x, k) && Writes(y, v)
    requires Plain(k) && Plain(v) && Blanks(gap) && gap != []
    ensures Classify("list" + (TwoWords(g0, x, g1, y) + Comment(gap, rest))) == Item(true, k, v)
       <==> k != [] && v != []
  {
    TwoWordsFields(g0, x, g1, y, k, v);
    FieldsCommented(TwoWords(g0, x, g1, y), gap, rest);
    ClassifyList(TwoWords(g0, x, g1, y) + Comment(gap, rest));
    CommentedItem(true, k, v, Fields("#" + rest));
    hide Fields, Classify, Writes, TwoWords;
  }

  lemma CommentedItem(isList: bool, k: string, v: string, c: seq<string>)
    requires Plain(k) && Plain(v) && c != [] && "#" <= c[0]
    ensures ClassifyItem(isList, NonEmpty(k) + NonEmpty(v) + c) == Item(isList, k, v) <==> k != [] && v != []
  {
    TrimQuotesPlain(k);
    TrimQuotesPlain(v);
    TrimQuotesHash(c[0]);
    hide TrimQuotes;
  }

  /** An empty value with a comment behind it takes the comment's first word, which the
      default configuration does to the password: it becomes a hash mark. */
  lemma EmptyValueTakesComment(g0: string, x: string, g1: string, y: string, k: string, gap: string, rest: string)
    requires Blanks(g0) && Blanks(g1) && g1 != [] && Writes(x, k) && Writes(y, []) && Plain(k) && k != []
    requires Blanks(gap) && gap != []
    ensures Classify("option" + (TwoWords(g0, x, g1, y) + Comment(gap, rest))) ==
              Item(false, k, TrimQuotes(Fields("#" + rest)[0]))
    ensures rest == [] || IsBlank(rest[0]) ==> Fields("#" + rest)[0] == "#" && TrimQuotes("#") == "#"
  {
    TwoWordsFields(g0, x, g1, y, k, []);
    OptionCommentExact(TwoWords(g0, x, g1, y), gap, rest);
    TrimQuotesPlain(k);
    if rest == [] || IsBlank(rest[0]) {
      assert ("#" + rest)[1..] == rest && Word(rest) == ([], rest);
      assert ['#'] + [] == "#";
    }
    hide Classify, Writes, TwoWords, Comment;
  }

  /** The password line of the default configuration, up to what the comment says. */
  lemma DefaultPassword(rest: string)
    requires rest == [] || IsBlank(rest[0])
    ensures Classify("option" + (TwoWords(" ", "password", " ", "''") + Comment("                     ", rest)))
         == Item(false, "password", "#")
  {
    assert Writes("''", []) by { assert "''" == ['\''] + [] + ['\'']; }
    assert Bare("password");
    EmptyValueTakesComment(" ", "password", " ", "''", "password", "                     ", rest);
    hide Classify, TwoWords, Comment, Fields, Writes;
  }

  // ---- files ----

  /** A comment, or none, behind each line; the lines are given trimmed. */
  datatype Mark = NoComment | Commented(gap: string, rest: string)

  function With(line: string, mark: Mark): string {
    match mark
    case NoComment => line
    case Commented(gap, rest) => line + Comment(gap, rest)
  }

  predicate Proper(line: string, mark: Mark) {
    mark.Commented? ==> line != [] && Closed(line) && Blanks(mark.gap) && mark.gap != []
  }

  lemma {:induction false} KeywordClosed(word: string, s: string)
    requires Closed(word + s) && Bare(word)
    ensures Closed(s)
  {
    BareWord(word);
    QuoteAfterConcat(None, word, s);
    hide QuoteAfter;
  }

  lemma CommentKeepsOption(s: string, gap: string, rest: string)
    requires Closed("option" + s) && Blanks(gap) && gap != [] && Classify("option" + s).Item?
    ensures Classify("option" + s + Comment(gap, rest)) == Classify("option" + s)
  {
    assert "option" + s + Comment(gap, rest) == "option" + (s + Comment(gap, rest));
    assert Bare("option");
    ClassifyOption(s);
    hide Fields, Classify, TrimQuotes, Closed, Blanks, HasPrefix, Bare, Comment;
    KeywordClosed("option", s);
    OptionCommentExact(s, gap, rest);
  }

  lemma CommentKeepsList(s: string, gap: string, rest: string)
    requires Closed("list" + s) && Blanks(gap) && gap != [] && Classify("list" + s).Item?
    ensures Classify("list" + s + Comment(gap, rest)) == Classify("list" + s)
  {
    assert "list" + s + Comment(gap, rest) == "list" + (s + Comment(gap, rest));
    assert |s + Comment(gap, rest)| >= 2;
    assert Bare("list");
    ClassifyListLine(s);
    ClassifyList(s + Comment(gap, rest));
    hide Fields, Classify, TrimQuotes, Closed, Blanks, HasPrefix, Bare, ByteSize;
    KeywordClosed("list", s);
    FieldsCommented(s, gap, rest);
  }

  lemma ItemKeyword(line: string)
    requires Classify(line).Item?
    ensures ("list" <= line && line == "list" + line[4..]) || ("option" <= line && line == "option" + line[6..])
  {
    hide Fields, ByteSize;
  }

  lemma CommentKeepsItem(line: string, gap: string, rest: string)
    requires Closed(line) && Blanks(gap) && gap != [] && Classify(line).Item?
    ensures Classify(line + Comment(gap, rest)) == Classify(line)
  {
    ItemKeyword(line);
    hide Classify, Closed, Blanks, Comment;
    if "list" <= line {
      CommentKeepsList(line[4..], gap, rest);
    } else {
      CommentKeepsOption(line[6..], gap, rest);
    }
  }

  lemma PrefixUnchanged(line: string, gap: string, rest: string, prefix: string)
    requires line != [] && Blanks(gap) && gap != []
    requires prefix != [] && forall i :: 0 <= i < |prefix| ==> !IsBlank(prefix[i])
    ensures HasPrefix(line + Comment(gap, rest), prefix) <==> HasPrefix(line, prefix)
  {
    var l := line + Comment(gap, rest);
    assert l[|line|] == gap[0];
    assert |prefix| > |line| ==> prefix[|line|] != l[|line|];
  }

  lemma CommentKeepsIgnored(line: string, gap: string, rest: string)
    requires line != [] && Blanks(gap) && gap != [] && Classify(line).Ignored?
    ensures Classify(line + Comment(gap, rest)).Ignored?
  {
    PrefixUnchanged(line, gap, rest, "#");
    PrefixUnchanged(line, gap, rest, "config");
    PrefixUnchanged(line, gap, rest, "list");
    PrefixUnchanged(line, gap, rest, "option");
    hide HasPrefix, Fields, Comment, ByteSize;
  }

  lemma CommentKeepsHead(line: string, gap: string, rest: string)
    requires line != [] && Blanks(gap) && gap != [] && Classify(line).Head?
    ensures Classify(line + Comment(gap, rest)).Head? || Classify(line + Comment(gap, rest)).BadHead?
  {
    PrefixUnchanged(line, gap, rest, "#");
    PrefixUnchanged(line, gap, rest, "config");
    hide HasPrefix, Fields, Comment, ByteSize;
  }

  lemma {:induction false} NoFaultMeans(ls: seq<Line>, open: bool, at: nat, i: nat)
    requires FirstFault(ls, open, at).None? && i < |ls|
    ensures ls[i].Item? || ls[i].Head? || ls[i].Ignored?
    decreases |ls|
  {
    if i > 0 { NoFaultMeans(ls[1..], open || ls[0].Head?, at + 1, i - 1); }
  }

  /** Lines that keep their kind: the sections are the same exactly when the config lines are. */
  lemma {:induction false} SameBlocks(a: seq<Line>, b: seq<Line>)
    requires |a| == |b| && forall i :: 0 <= i < |a| ==> a[i] == b[i] || (a[i].Head? && b[i].Head?)
    ensures Blocks(a) == Blocks(b) ==> a == b
    decreases |a|
  {
    if a != [] {
      assert forall i :: 0 <= i < |a| - 1 ==> a[1..][i] == a[i + 1] && b[1..][i] == b[i + 1];
      SameBlocks(a[1..], b[1..]);
      if Blocks(a) == Blocks(b) {
        if a[0].Head? {
          assert Blocks(a)[0] == Blocks(b)[0] && Blocks(a)[1..] == Blocks(b)[1..];
        }
        assert a == [a[0]] + a[1..] && b == [b[0]] + b[1..];
      }
    }
  }

  lemma MarkedLine(line: string, mark: Mark)
    requires Proper(line, mark) && (Classify(line).Item? || Classify(line).Head? || Classify(line).Ignored?)
    ensures var c := Classify(With(line, mark));
            c == Classify(line) || (Classify(line).Head? && (c.Head? || c.BadHead?))
  {
    hide Classify, Closed, Blanks, Comment;
    if mark.Commented? {
      if Classify(line).Item? {
        CommentKeepsItem(line, mark.gap, mark.rest);
      } else if Classify(line).Head? {
        CommentKeepsHead(line, mark.gap, mark.rest);
      } else {
        CommentKeepsIgnored(line, mark.gap, mark.rest);
      }
    }
  }

  lemma {:induction false} SameFaults(a: seq<Line>, b: seq<Line>, open: bool, at: nat)
    requires |a| == |b| && forall i :: 0 <= i < |a| ==> a[i] == b[i] || (a[i].Head? && b[i].Head?)
    requires FirstFault(a, open, at).None?
    ensures FirstFault(b, open, at).None?
    decreases |a|
  {
    if a != [] {
      assert forall i :: 0 <= i < |a| - 1 ==> a[1..][i] == a[i + 1] && b[1..][i] == b[i + 1];
      SameFaults(a[1..], b[1..], open || a[0].Head?, at + 1);
    }
  }

  lemma ParsedHasNoFault(lines: seq<string>)
    ensures Meaning(lines).Parsed? <==> FirstFault(Classes(lines), false, 0).None?
  {
    FaultFrom(Classes(lines), false, 0);
  }

  lemma SameMeaning(lines: seq<string>, lines': seq<string>)
    requires |lines| == |lines'| && Meaning(lines).Parsed?
    requires forall i :: 0 <= i < |lines| ==>
      var a, b := Classes(lines)[i], Classes(lines')[i]; a == b || (a.Head? && (b.Head? || b.BadHead?))
    ensures Meaning(lines') == Meaning(lines) <==> Classes(lines) == Classes(lines')
  {
    var a, b := Classes(lines), Classes(lines');
    ParsedHasNoFault(lines);
    ParsedHasNoFault(lines');
    hide Classes, FirstFault, Blocks;
    if i :| 0 <= i < |b| && b[i].BadHead? {
      NoFaultMeans(a, false, 0, i);
      BadHeadFaults(b, false, 0, i);
    } else {
      SameFaults(a, b, false, 0);
      SameBlocks(a, b);
    }
  }

  /** Comments behind the lines of a file that parses leave its meaning alone exactly when
      no config line changes under its own: option and list lines never do. */
  lemma CommentedFileExact(lines: seq<string>, lines': seq<string>, marks: seq<Mark>)
    requires |lines| == |lines'| == |marks| && Meaning(lines).Parsed?
    requires forall i :: 0 <= i < |lines| ==>
      Proper(TrimSpace(lines[i]), marks[i]) && TrimSpace(lines'[i]) == With(TrimSpace(lines[i]), marks[i])
    ensures Meaning(lines') == Meaning(lines) <==>
              forall i :: 0 <= i < |lines| && Classify(TrimSpace(lines[i])).Head? ==>
                Classify(With(TrimSpace(lines[i]), marks[i])) == Classify(TrimSpace(lines[i]))
  {
    ParsedHasNoFault(lines);
    forall i | 0 <= i < |lines|
      ensures Classes(lines)[i] == Classify(TrimSpace(lines[i]))
      ensures Classes(lines')[i] == Classify(With(TrimSpace(lines[i]), marks[i]))
      ensures var a, b := Classes(lines)[i], Classes(lines')[i]; a == b || (a.Head? && (b.Head? || b.BadHead?))
    {
      ClassesAt(lines, i);
      ClassesAt(lines', i);
      NoFaultMeans(Classes(lines), false, 0, i);
      hide Classes, Classify, With, Proper, TrimSpace, FirstFault;
      MarkedLine(TrimSpace(lines[i]), marks[i]);
    }
    hide Meaning, Classes, Classify, With, Proper, TrimSpace, FirstFault;
    SameMeaning(lines, lines');
  }

  // ---- lines that say nothing ----

  /** A trimmed line that is blank, a comment, or starts with none of the keywords. */
  predicate Idle(t: string) {
    t == [] || t[0] == '#' || !("config" <= t || "option" <= t || "list" <= t)
  }

  lemma IdleExact(t: string)
    ensures Classify(t).Ignored? <==> Idle(t)
  {
    hide Fields, ByteSize, TrimQuotes;
  }

  /** The outcome once a line has been put in before line i: a later fault moves down one. */
  function Moved(out: Outcome, i: nat): Outcome {
    match out
    case Parsed(sections) => out
    case Malformed(at) => Malformed(if at < i then at else at + 1)
    case Orphan(at) => Orphan(if at < i then at else at + 1)
    case Crashed(at) => Crashed(if at < i then at else at + 1)
  }

  function Insert<T>(xs: seq<T>, i: nat, x: T): seq<T>
    requires i <= |xs|
  {
    xs[..i] + [x] + xs[i..]
  }

  lemma {:induction false} ClassesInsert(lines: seq<string>, i: nat, line: string)
    requires i <= |lines|
    ensures Classes(Insert(lines, i, line)) == Insert(Classes(lines), i, Classify(TrimSpace(line)))
  {
    ClassesConcat(lines[..i] + [line], lines[i..]);
    ClassesConcat(lines[..i], [line]);
    ClassesConcat(lines[..i], lines[i..]);
    assert lines[..i] + lines[i..] == lines;
    assert Classes([line]) == [Classify(TrimSpace(line))] by { assert [line][1..] == []; }
    hide Classes, Classify, TrimSpace;
  }

  lemma {:induction false} BlocksInsert(ls: seq<Line>, i: nat)
    requires i <= |ls|
    ensures Blocks(Insert(ls, i, Ignored)) == Blocks(ls)
    ensures forall opts :: Body(opts, Insert(ls, i, Ignored)) == Body(opts, ls)
    decreases |ls|
  {
    var ls' := Insert(ls, i, Ignored);
    if i == 0 {
      assert ls'[1..] == ls && ls'[0] == Ignored;
    } else {
      assert ls'[1..] == Insert(ls[1..], i - 1, Ignored) && ls'[0] == ls[0];
      hide Insert;
      BlocksInsert(ls[1..], i - 1);
    }
  }

  lemma {:induction false} FaultInsert(ls: seq<Line>, i: nat, open: bool, at: nat)
    requires i <= |ls|
    ensures FirstFault(Insert(ls, i, Ignored), open, at) ==
              match FirstFault(ls, open, at) case None => None case Some(f) => Some(Moved(f, at + i))
    decreases |ls|
  {
    var ls' := Insert(ls, i, Ignored);
    FirstFaultStep(ls', open, at);
    if i == 0 {
      assert ls'[1..] == ls && ls'[0] == Ignored;
      FaultShifts(ls, open, at);
      FaultFrom(ls, open, at);
    } else {
      assert ls'[1..] == Insert(ls[1..], i - 1, Ignored) && ls'[0] == ls[0];
      FirstFaultStep(ls, open, at);
      hide Insert, FirstFault;
      FaultInsert(ls[1..], i - 1, open || ls[0].Head?, at + 1);
    }
  }

  lemma {:induction false} FaultShifts(ls: seq<Line>, open: bool, at: nat)
    ensures FirstFault(ls, open, at + 1) ==
              match FirstFault(ls, open, at) case None => None case Some(f) => Some(Moved(f, at))
    decreases |ls|
  {
    if ls != [] {
      FirstFaultStep(ls, open, at);
      FirstFaultStep(ls, open, at + 1);
      FaultFrom(ls[1..], open || ls[0].Head?, at + 1);
      FaultShifts(ls[1..], open || ls[0].Head?, at + 1);
      hide FirstFault;
    }
  }

  /** Put in anywhere, an idle line leaves the sections as they are and moves only the
      number of a later fault. */
  lemma IdleLine(lines: seq<string>, i: nat, line: string)
    requires i <= |lines| && Idle(TrimSpace(line))
    ensures Meaning(Insert(lines, i, line)) == Moved(Meaning(lines), i)
  {
    IdleExact(TrimSpace(line));
    ClassesInsert(lines, i, line);
    BlocksInsert(Classes(lines), i);
    FaultInsert(Classes(lines), i, false, 0);
    FaultFrom(Classes(lines), false, 0);
    hide Classes, Classify, TrimSpace, Blocks, FirstFault, Insert, Idle;
  }

  lemma BusyLine(line: string)
    requires !Idle(TrimSpace(line))
    ensures Meaning([line]) != Parsed([]) && Meaning([]) == Parsed([])
  {
    IdleExact(TrimSpace(line));
    assert [line][1..] == [] && Meaning([]) == Parsed([]);
    var c := Classify(TrimSpace(line));
    assert Classes([line]) == [c];
    hide Classify, TrimSpace, Idle, Classes;
    assert [c][1..] == [];
    FirstFaultStep([c], false, 0);
    assert c.Head? || Fault(c, false, 0).Some?;
    assert c.Head? ==> |Blocks([c])| == 1;
    FaultFrom([c], false, 0);
  }

  /** The line can be put in anywhere without a trace. */
  ghost predicate Traceless(line: string) {
    forall lines: seq<string>, i: nat :: i <= |lines| ==> Meaning(Insert(lines, i, line)) == Moved(Meaning(lines), i)
  }

  /** The lines without a trace are exactly the idle ones. */
  lemma IdleLineExact(line: string)
    ensures Traceless(line) <==> Idle(TrimSpace(line))
  {
    hide Meaning, Idle, TrimSpace;
    if Idle(TrimSpace(line)) {
      forall lines: seq<string>, i: nat | i <= |lines|
        ensures Meaning(Insert(lines, i, line)) == Moved(Meaning(lines), i)
      {
        IdleLine(lines, i, line);
      }
    } else {
      BusyLine(line);
      var none: seq<string> := [];
      assert Insert(none, 0, line) == [line];
      assert Meaning(Insert(none, 0, line)) != Moved(Meaning(none), 0);
    }
  }
}
