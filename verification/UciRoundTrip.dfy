/** What the UCI parser makes of printed configurations. */
module UciRoundTrip {
  import opened Common
  import opened Text
  import opened UciParser

  datatype Entry = Entry(isList: bool, key: string, val: string)

  datatype Source = Source(typ: string, name: string, entries: seq<Entry>)

  // ---- the printer ----

  function Quote(w: string): string {
    "'" + w + "'"
  }

  function HeadLine(s: Source): string {
    "config " + Quote(s.typ) + " " + Quote(s.name)
  }

  function EntryLine(e: Entry): string {
    (if e.isList then "\tlist " else "\toption ") + Quote(e.key) + " " + Quote(e.val)
  }

  function EntryLines(es: seq<Entry>): seq<string> {
    if es == [] then [] else [EntryLine(es[0])] + EntryLines(es[1..])
  }

  function SourceLines(ss: seq<Source>): seq<string> {
    if ss == [] then [] else [HeadLine(ss[0])] + EntryLines(ss[0].entries) + SourceLines(ss[1..])
  }

  function Unlines(lines: seq<string>): string {
    if lines == [] then [] else lines[0] + "\n" + Unlines(lines[1..])
  }

  function Print(ss: seq<Source>): string {
    Unlines(SourceLines(ss))
  }

  // ---- what it means ----

  /** Options replace, lists append. */
  function Gather(opts: map<string, seq<string>>, es: seq<Entry>): map<string, seq<string>>
    decreases |es|
  {
    if es == [] then opts
    else
      var e := es[0];
      Gather(opts[e.key := (if e.isList then Values(opts, e.key) else []) + [e.val]], es[1..])
  }

  function Intended(ss: seq<Source>): seq<Section> {
    if ss == [] then []
    else [Section(ss[0].typ, ss[0].name, Gather(map[], ss[0].entries))] + Intended(ss[1..])
  }

  // ---- words ----

  predicate Plain(w: string) {
    forall i :: 0 <= i < |w| ==> !IsQuote(w[i]) && w[i] != '\n'
  }

  predicate PlainSource(s: Source) {
    && Plain(s.typ) && Plain(s.name)
    && forall i :: 0 <= i < |s.entries| ==> Plain(s.entries[i].key) && Plain(s.entries[i].val)
  }

  predicate PlainAll(ss: seq<Source>) {
    forall i :: 0 <= i < |ss| ==> PlainSource(ss[i])
  }

  predicate FullEntries(es: seq<Entry>) {
    forall i :: 0 <= i < |es| ==> es[i].key != [] && es[i].val != []
  }

  predicate FullSource(s: Source) {
    s.typ != [] && s.name != [] && FullEntries(s.entries)
  }

  predicate FullAll(ss: seq<Source>) {
    forall i :: 0 <= i < |ss| ==> FullSource(ss[i])
  }

  // ---- lines come back ----

  lemma {:induction false} FirstLineOf(line: string, rest: string)
    requires forall i :: 0 <= i < |line| ==> line[i] != '\n'
    ensures FirstLine(line + "\n" + rest) == |line|
    decreases |line|
  {
    if line == [] {
      assert ([] + "\n" + rest)[0] == '\n';
    } else {
      assert (line + "\n" + rest)[1..] == line[1..] + "\n" + rest;
      FirstLineOf(line[1..], rest);
    }
  }

  predicate CleanLine(line: string) {
    (forall i :: 0 <= i < |line| ==> line[i] != '\n') && line != [] && line[|line| - 1] != '\r'
  }

  lemma LinesCons(line: string, rest: string)
    requires CleanLine(line)
    ensures Lines(line + "\n" + rest) == [line] + Lines(rest)
  {
    var s := line + "\n" + rest;
    FirstLineOf(line, rest);
    assert s[..|line|] == line && s[|line| + 1..] == rest && |s| > |line|;
    hide FirstLine;
  }

  lemma {:induction false} LinesUnlines(lines: seq<string>)
    requires forall i :: 0 <= i < |lines| ==> CleanLine(lines[i])
    ensures Lines(Unlines(lines)) == lines
    decreases |lines|
  {
    if lines != [] {
      var rest := Unlines(lines[1..]);
      assert Unlines(lines) == lines[0] + "\n" + rest;
      hide CleanLine, Lines, Unlines;
      assert forall i :: 0 <= i < |lines[1..]| ==> lines[1..][i] == lines[i + 1];
      LinesCons(lines[0], rest);
      LinesUnlines(lines[1..]);
      assert [lines[0]] + lines[1..] == lines;
    }
  }

  lemma QuotedLineClean(prefix: string, a: string, b: string)
    requires Plain(a) && Plain(b) && forall i :: 0 <= i < |prefix| ==> prefix[i] != '\n'
    ensures CleanLine(prefix + Quote(a) + " " + Quote(b))
  {
    var line := prefix + Quote(a) + " " + Quote(b);
    assert line[|line| - 1] == '\'';
    assert forall i :: 0 <= i < |Quote(a)| ==> Quote(a)[i] != '\n';
    assert forall i :: 0 <= i < |Quote(b)| ==> Quote(b)[i] != '\n';
  }

  lemma {:induction false} EntryLinesClean(es: seq<Entry>)
    requires forall i :: 0 <= i < |es| ==> Plain(es[i].key) && Plain(es[i].val)
    ensures forall i :: 0 <= i < |EntryLines(es)| ==> CleanLine(EntryLines(es)[i])
    decreases |es|
  {
    if es != [] {
      EntryLinesClean(es[1..]);
      QuotedLineClean(if es[0].isList then "\tlist " else "\toption ", es[0].key, es[0].val);
      hide CleanLine;
    }
  }

  lemma {:induction false} SourceLinesClean(ss: seq<Source>)
    requires PlainAll(ss)
    ensures forall i :: 0 <= i < |SourceLines(ss)| ==> CleanLine(SourceLines(ss)[i])
    decreases |ss|
  {
    if ss != [] {
      assert PlainSource(ss[0]);
      EntryLinesClean(ss[0].entries);
      QuotedLineClean("config ", ss[0].typ, ss[0].name);
      SourceLinesClean(ss[1..]);
      hide CleanLine;
    }
  }

  // ---- fields come back ----

  lemma {:induction false} QuotedPlain(w: string, rest: string)
    requires Plain(w)
    ensures Quoted(w + "'" + rest, '\'') == (w, rest)
    decreases |w|
  {
    if w == [] {
      assert ([] + "'" + rest)[1..] == rest;
    } else {
      assert (w + "'" + rest)[1..] == w[1..] + "'" + rest;
      QuotedPlain(w[1..], rest);
      assert [w[0]] + w[1..] == w;
    }
  }

  lemma WordQuoted(w: string, rest: string)
    requires Plain(w) && (rest == [] || IsBlank(rest[0]))
    ensures Word(Quote(w) + rest) == (w, rest)
  {
    var s := Quote(w) + rest;
    assert s[1..] == w + "'" + rest;
    QuotedPlain(w, rest);
    hide Quoted, IsBlank;
    assert Word(rest) == ([], rest);
    assert w + [] == w;
  }

  /** A quoted word followed by a blank or the end. */
  lemma FieldsQuoted(w: string, rest: string)
    requires Plain(w) && (rest == [] || IsBlank(rest[0]))
    ensures Fields(Quote(w) + rest) == NonEmpty(w) + Fields(rest)
  {
    WordQuoted(w, rest);
    hide Word, NonEmpty, Plain;
    assert (Quote(w) + rest)[0] == '\'';
  }

  lemma FieldsTwoQuoted(a: string, b: string)
    requires Plain(a) && Plain(b)
    ensures Fields(" " + Quote(a) + " " + Quote(b)) == NonEmpty(a) + NonEmpty(b)
  {
    var s := " " + Quote(a) + " " + Quote(b);
    assert s[1..] == Quote(a) + (" " + Quote(b));
    FieldsQuoted(a, " " + Quote(b));
    assert (" " + Quote(b))[1..] == Quote(b) + [];
    FieldsQuoted(b, []);
    hide Word;
    assert NonEmpty(b) + [] == NonEmpty(b);
  }

  lemma {:induction false} TrimQuotesPlain(w: string)
    requires Plain(w)
    ensures TrimQuotes(w) == w
  {
  }

  lemma TrimLeadingTab(s: string)
    requires s != [] && Tight(s)
    ensures TrimSpace("\t" + s) == s
  {
    assert ("\t" + s)[1..] == s;
    assert TrimLeft(s) == s;
  }

  /** What a printed head line reads back as. */
  function HeadClass(s: Source): Line {
    if s.typ == [] && s.name == [] then BadHead
    else if s.typ == [] then Head(s.name, s.name)
    else if s.name == [] then Head(s.typ, s.typ)
    else Head(s.typ, s.name)
  }

  function EntryClass(e: Entry): Line {
    if e.key == [] || e.val == [] then BadItem else Item(e.isList, e.key, e.val)
  }

  lemma HeadReadsBack(s: Source)
    requires Plain(s.typ) && Plain(s.name)
    ensures Classify(TrimSpace(HeadLine(s))) == HeadClass(s)
  {
    var line := HeadLine(s);
    assert Tight(line) by { assert line[0] == 'c' && line[|line| - 1] == '\''; }
    TrimTight(line);
    assert "config" <= line;
    assert line[6..] == " " + Quote(s.typ) + " " + Quote(s.name);
    FieldsTwoQuoted(s.typ, s.name);
    TrimQuotesPlain(s.typ);
    TrimQuotesPlain(s.name);
    assert line[0] == 'c' && !("#" <= line);
    hide Fields, TrimQuotes, TrimSpace, Quote;
  }

  lemma PrefixHead(s: string, prefix: string)
    requires prefix != [] && s != [] && s[0] != prefix[0]
    ensures !HasPrefix(s, prefix)
  {
  }

  lemma PrefixOf(prefix: string, tail: string)
    ensures HasPrefix(prefix + tail, prefix) && (prefix + tail)[|prefix|..] == tail
  {
  }

  lemma ClassifyOption(tail: string)
    ensures Classify("option" + tail) == ClassifyItem(false, Fields(tail))
  {
    var line := "option" + tail;
    assert line[0] == 'o';
    PrefixHead(line, "#");
    PrefixHead(line, "config");
    PrefixHead(line, "list");
    PrefixOf("option", tail);
    hide HasPrefix, Fields;
  }

  lemma ClassifyList(tail: string)
    requires |tail| >= 2
    ensures Classify("list" + tail) == ClassifyItem(true, Fields(tail))
  {
    var line := "list" + tail;
    assert line[0] == 'l';
    PrefixHead(line, "#");
    PrefixHead(line, "config");
    PrefixOf("list", tail);
    hide HasPrefix, Fields;
  }

  /** The part of an entry line after its keyword. */
  lemma TailReadsBack(isList: bool, key: string, val: string)
    requires Plain(key) && Plain(val)
    ensures ClassifyItem(isList, Fields(" " + Quote(key) + " " + Quote(val))) == EntryClass(Entry(isList, key, val))
  {
    FieldsTwoQuoted(key, val);
    TrimQuotesPlain(key);
    TrimQuotesPlain(val);
    hide Fields, TrimQuotes, Quote;
  }

  lemma TrimEntry(word: string, tail: string)
    requires word != [] && !IsSpace(word[0]) && |tail| >= 2 && tail[|tail| - 1] == '\''
    ensures TrimSpace("\t" + (word + tail)) == word + tail
  {
    assert (word + tail)[0] == word[0] && (word + tail)[|word + tail| - 1] == '\'';
    TrimLeadingTab(word + tail);
  }

  lemma OptionReadsBack(key: string, val: string)
    requires Plain(key) && Plain(val)
    ensures Classify(TrimSpace(EntryLine(Entry(false, key, val)))) == EntryClass(Entry(false, key, val))
  {
    var tail := " " + Quote(key) + " " + Quote(val);
    assert |tail| >= 2 && tail[|tail| - 1] == '\'';
    assert EntryLine(Entry(false, key, val)) == "\t" + ("option" + tail);
    hide *;
    TailReadsBack(false, key, val);
    assert !IsSpace("option"[0]) by { OrdinaryStart(); }
    TrimEntry("option", tail);
    ClassifyOption(tail);
  }

  lemma ListReadsBack(key: string, val: string)
    requires Plain(key) && Plain(val)
    ensures Classify(TrimSpace(EntryLine(Entry(true, key, val)))) == EntryClass(Entry(true, key, val))
  {
    var tail := " " + Quote(key) + " " + Quote(val);
    assert |tail| >= 2 && tail[|tail| - 1] == '\'';
    assert EntryLine(Entry(true, key, val)) == "\t" + ("list" + tail);
    hide *;
    TailReadsBack(true, key, val);
    assert !IsSpace("list"[0]) by { OrdinaryStart(); }
    TrimEntry("list", tail);
    ClassifyList(tail);
  }

  lemma OrdinaryStart()
    ensures !IsSpace("option"[0]) && !IsSpace("list"[0])
  {
  }

  lemma EntryReadsBack(e: Entry)
    requires Plain(e.key) && Plain(e.val)
    ensures Classify(TrimSpace(EntryLine(e))) == EntryClass(e)
  {
    if e.isList { ListReadsBack(e.key, e.val); } else { OptionReadsBack(e.key, e.val); }
  }

  function EntryClasses(es: seq<Entry>): seq<Line> {
    if es == [] then [] else [EntryClass(es[0])] + EntryClasses(es[1..])
  }

  function SourceClasses(ss: seq<Source>): seq<Line> {
    if ss == [] then [] else [HeadClass(ss[0])] + EntryClasses(ss[0].entries) + SourceClasses(ss[1..])
  }

  lemma {:induction false} ClassesConcat(a: seq<string>, b: seq<string>)
    ensures Classes(a + b) == Classes(a) + Classes(b)
    decreases |a|
  {
    if a == [] {
      assert a + b == b;
    } else {
      assert (a + b)[1..] == a[1..] + b;
      ClassesConcat(a[1..], b);
    }
  }

  lemma {:induction false} EntryLinesReadBack(es: seq<Entry>)
    requires forall i :: 0 <= i < |es| ==> Plain(es[i].key) && Plain(es[i].val)
    ensures Classes(EntryLines(es)) == EntryClasses(es)
    decreases |es|
  {
    if es != [] {
      EntryReadsBack(es[0]);
      EntryLinesReadBack(es[1..]);
      assert EntryLines(es)[1..] == EntryLines(es[1..]);
      hide Classify, TrimSpace, EntryLine, EntryClass;
    }
  }

  lemma {:induction false} SourceLinesReadBack(ss: seq<Source>)
    requires PlainAll(ss)
    ensures Classes(SourceLines(ss)) == SourceClasses(ss)
    decreases |ss|
  {
    if ss != [] {
      assert PlainSource(ss[0]);
      HeadReadsBack(ss[0]);
      EntryLinesReadBack(ss[0].entries);
      SourceLinesReadBack(ss[1..]);
      hide Classify, TrimSpace, HeadLine, HeadClass;
      var e, rest := EntryLines(ss[0].entries), SourceLines(ss[1..]);
      ClassesConcat([HeadLine(ss[0])] + e, rest);
      ClassesConcat([HeadLine(ss[0])], e);
      assert Classes([HeadLine(ss[0])]) == [Classify(TrimSpace(HeadLine(ss[0])))] by {
        assert [HeadLine(ss[0])][1..] == [];
      }
    }
  }

  // ---- sections come back ----

  lemma BodyItem(opts: map<string, seq<string>>, e: Entry, ls: seq<Line>)
    requires e.key != [] && e.val != []
    ensures Body(opts, [EntryClass(e)] + ls) ==
              Body(opts[e.key := (if e.isList then Values(opts, e.key) else []) + [e.val]], ls)
  {
    assert ([EntryClass(e)] + ls)[1..] == ls;
    assert [] + [e.val] == [e.val];
  }

  lemma BodyEnds(opts: map<string, seq<string>>, ls: seq<Line>)
    requires ls == [] || ls[0].Head?
    ensures Body(opts, ls) == opts
  {
  }

  lemma {:induction false} BodyGathers(opts: map<string, seq<string>>, es: seq<Entry>, ls: seq<Line>)
    requires FullEntries(es) && (ls == [] || ls[0].Head?)
    ensures Body(opts, EntryClasses(es) + ls) == Gather(opts, es)
    decreases |es|
  {
    if es == [] {
      assert EntryClasses(es) + ls == ls;
      BodyEnds(opts, ls);
    } else {
      var e := es[0];
      assert EntryClasses(es) + ls == [EntryClass(e)] + (EntryClasses(es[1..]) + ls);
      hide Body, EntryClass, Values;
      BodyItem(opts, e, EntryClasses(es[1..]) + ls);
      BodyGathers(opts[e.key := (if e.isList then Values(opts, e.key) else []) + [e.val]], es[1..], ls);
    }
  }

  lemma {:induction false} BlocksSkip(es: seq<Entry>, ls: seq<Line>)
    ensures Blocks(EntryClasses(es) + ls) == Blocks(ls)
    decreases |es|
  {
    if es == [] {
      assert EntryClasses(es) + ls == ls;
    } else {
      assert (EntryClasses(es) + ls)[1..] == EntryClasses(es[1..]) + ls;
      BlocksSkip(es[1..], ls);
    }
  }

  lemma {:induction false} EntryFaults(es: seq<Entry>, ls: seq<Line>, at: nat)
    ensures FullEntries(es) ==> FirstFault(EntryClasses(es) + ls, true, at) == FirstFault(ls, true, at + |es|)
    ensures !FullEntries(es) ==> FirstFault(EntryClasses(es) + ls, true, at).Some?
    decreases |es|
  {
    if es == [] {
      assert EntryClasses(es) + ls == ls;
    } else {
      assert (EntryClasses(es) + ls)[1..] == EntryClasses(es[1..]) + ls;
      EntryFaults(es[1..], ls, at + 1);
      assert FullEntries(es) <==> es[0].key != [] && es[0].val != [] && FullEntries(es[1..]);
    }
  }

  lemma SourceClassesHead(ss: seq<Source>)
    requires ss != []
    ensures SourceClasses(ss) == [HeadClass(ss[0])] + (EntryClasses(ss[0].entries) + SourceClasses(ss[1..]))
  {
  }

  /** The first of the printed sources, when nothing is wrong with the lines. */
  lemma FaultFreeFirst(ss: seq<Source>, open: bool, at: nat)
    requires ss != [] && FirstFault(SourceClasses(ss), open, at).None?
    ensures HeadClass(ss[0]).Head? && FullEntries(ss[0].entries)
    ensures FirstFault(SourceClasses(ss[1..]), true, at + 1 + |ss[0].entries|).None?
  {
    var tail := EntryClasses(ss[0].entries) + SourceClasses(ss[1..]);
    SourceClassesHead(ss);
    assert SourceClasses(ss)[1..] == tail && SourceClasses(ss)[0] == HeadClass(ss[0]);
    FirstFaultStep(SourceClasses(ss), open, at);
    EntryFaults(ss[0].entries, SourceClasses(ss[1..]), at + 1);
    hide FirstFault, SourceClasses, EntryClasses, FullEntries;
  }

  lemma BlocksFirst(ss: seq<Source>)
    requires ss != [] && HeadClass(ss[0]).Head? && FullEntries(ss[0].entries)
    requires SourceClasses(ss[1..]) == [] || SourceClasses(ss[1..])[0].Head?
    ensures var h := HeadClass(ss[0]);
            Blocks(SourceClasses(ss)) == [Section(h.typ, h.name, Gather(map[], ss[0].entries))]
              + Blocks(SourceClasses(ss[1..]))
  {
    var tail := EntryClasses(ss[0].entries) + SourceClasses(ss[1..]);
    SourceClassesHead(ss);
    assert SourceClasses(ss)[1..] == tail && SourceClasses(ss)[0] == HeadClass(ss[0]);
    BodyGathers(map[], ss[0].entries, SourceClasses(ss[1..]));
    BlocksSkip(ss[0].entries, SourceClasses(ss[1..]));
    hide SourceClasses, EntryClasses, Body, Gather, FullEntries;
  }

  /** Without a fault, what comes back is one section per source, named by its
      head line. */
  lemma {:induction false} FaultFree(ss: seq<Source>, open: bool, at: nat)
    requires FirstFault(SourceClasses(ss), open, at).None?
    ensures FullAll(ss) <==> Blocks(SourceClasses(ss)) == Intended(ss)
    decreases |ss|
  {
    if ss != [] {
      var s, rest := ss[0], ss[1..];
      FaultFreeFirst(ss, open, at);
      FaultFree(rest, true, at + 1 + |s.entries|);
      NextIsHead(rest, true, at + 1 + |s.entries|);
      BlocksFirst(ss);
      var h := HeadClass(s);
      assert FullAll(ss) <==> FullSource(s) && FullAll(rest);
      hide Gather, SourceClasses, FullEntries, FirstFault, Blocks, FullAll;
      SplitEqual(Section(h.typ, h.name, Gather(map[], s.entries)), Blocks(SourceClasses(rest)),
                 Section(s.typ, s.name, Gather(map[], s.entries)), Intended(rest));
    }
  }

  lemma NextIsHead(ss: seq<Source>, open: bool, at: nat)
    requires FirstFault(SourceClasses(ss), open, at).None?
    ensures SourceClasses(ss) == [] || SourceClasses(ss)[0].Head?
  {
    if ss != [] { SourceClassesHead(ss); }
  }

  lemma SplitEqual(a: Section, as_: seq<Section>, b: Section, bs: seq<Section>)
    ensures [a] + as_ == [b] + bs <==> a == b && as_ == bs
  {
    if [a] + as_ == [b] + bs {
      assert a == ([a] + as_)[0] == ([b] + bs)[0] == b;
      assert as_ == ([a] + as_)[1..] == ([b] + bs)[1..] == bs;
    }
  }

  lemma {:induction false} FullHasNoFault(ss: seq<Source>, open: bool, at: nat)
    requires FullAll(ss)
    ensures FirstFault(SourceClasses(ss), open, at).None?
    decreases |ss|
  {
    if ss != [] {
      assert FullSource(ss[0]);
      SourceClassesHead(ss);
      var tail := EntryClasses(ss[0].entries) + SourceClasses(ss[1..]);
      assert SourceClasses(ss)[1..] == tail && SourceClasses(ss)[0] == HeadClass(ss[0]);
      FirstFaultStep(SourceClasses(ss), open, at);
      EntryFaults(ss[0].entries, SourceClasses(ss[1..]), at + 1);
      FullHasNoFault(ss[1..], true, at + 1 + |ss[0].entries|);
    }
  }

  /** Printing and parsing a configuration of quote-free single-line words gives
      it back exactly when none of its words is empty. */
  lemma RoundTripExact(ss: seq<Source>)
    requires PlainAll(ss)
    ensures Meaning(Lines(Print(ss))) == Parsed(Intended(ss)) <==> FullAll(ss)
  {
    SourceLinesClean(ss);
    LinesUnlines(SourceLines(ss));
    SourceLinesReadBack(ss);
    hide Lines, SourceLines, Classes, SourceClasses;
    if FullAll(ss) { FullHasNoFault(ss, false, 0); }
    if FirstFault(SourceClasses(ss), false, 0).None? {
      FaultFree(ss, false, 0);
    } else {
      FaultFrom(SourceClasses(ss), false, 0);
    }
  }

  // ---- further consequences ----

  function HeadCount(ls: seq<Line>): nat {
    if ls == [] then 0 else (if ls[0].Head? then 1 else 0) + HeadCount(ls[1..])
  }

  /** As many sections as config lines, whatever lies between them. */
  lemma {:induction false} OneSectionPerHead(ls: seq<Line>)
    ensures |Blocks(ls)| == HeadCount(ls)
    decreases |ls|
  {
    if ls != [] { OneSectionPerHead(ls[1..]); }
  }

  /** The values a key has after es: the last option for it, then the lists after that. */
  function ValuesAfter(es: seq<Entry>, key: string, before: seq<string>): seq<string>
    decreases |es|
  {
    if es == [] then before
    else if es[|es| - 1].key != key then ValuesAfter(es[..|es| - 1], key, before)
    else if es[|es| - 1].isList then ValuesAfter(es[..|es| - 1], key, before) + [es[|es| - 1].val]
    else [es[|es| - 1].val]
  }

  lemma {:induction false} GatherSnoc(opts: map<string, seq<string>>, es: seq<Entry>)
    requires es != []
    ensures var front, e := Gather(opts, es[..|es| - 1]), es[|es| - 1];
            Gather(opts, es) == front[e.key := (if e.isList then Values(front, e.key) else []) + [e.val]]
    decreases |es|
  {
    if |es| > 1 {
      var e := es[0];
      var opts1 := opts[e.key := (if e.isList then Values(opts, e.key) else []) + [e.val]];
      GatherSnoc(opts1, es[1..]);
      assert es[1..][..|es| - 2] == es[..|es| - 1][1..];
      assert es[..|es| - 1][0] == e;
    } else {
      assert es[..0] == [] && es[1..] == [];
    }
  }

  /** The fold over entries gives every key the values an option resets and lists extend. */
  lemma {:induction false} GatherValues(opts: map<string, seq<string>>, es: seq<Entry>, key: string)
    ensures Values(Gather(opts, es), key) == ValuesAfter(es, key, Values(opts, key))
    decreases |es|
  {
    if es != [] {
      GatherSnoc(opts, es);
      GatherValues(opts, es[..|es| - 1], key);
      hide Gather;
    }
  }

  lemma ByteSizeSnoc(s: string, c: char)
    ensures ByteSize(s + [c]) == ByteSize(s) + ByteSize([c])
    ensures ByteSize([c]) == 1 <==> c as int < 0x80
  {
    assert (s + [c])[..|s|] == s;
    assert [c][..0] == [];
  }

  lemma ListSize()
    ensures ByteSize("list") == 4
  {
    assert "list"[..3] == "lis" && "lis"[..2] == "li" && "li"[..1] == "l" && "l"[..0] == "";
  }

  /** The lines that crash the parser inside a section: `list` alone, or with one
      ASCII character after it. */
  lemma CrashExact(line: string)
    ensures Classify(line).ShortList? <==> "list" <= line && (|line| == 4 || (|line| == 5 && line[4] as int < 0x80))
  {
    if "list" <= line {
      assert line[0] == 'l';
      PrefixHead(line, "#");
      PrefixHead(line, "config");
      ListSize();
      if |line| == 5 {
        ByteSizeSnoc("list", line[4]);
        assert line == "list" + [line[4]];
      } else if |line| == 4 {
        assert line == "list";
      }
    }
    hide Fields, ByteSize;
  }

  /** A wider character makes the line long enough to be reported instead. */
  lemma WideListMalformed(c: char)
    requires c as int >= 0x80
    ensures Classify("list" + [c]) == BadItem
  {
    var line := "list" + [c];
    CrashExact(line);
    assert line[0] == 'l' && line[4..] == [c] && [c][1..] == [];
    PrefixHead(line, "#");
    PrefixHead(line, "config");
    assert Word([]) == ([], []);
    assert Word([c]) == ([c] + [], []);
    assert Fields([c]) == [[c]] by { assert [c] + [] == [c] && Fields([]) == []; }
  }

  /** Parsing crashes exactly when the first line with a fault is such a line in an open section. */
  lemma {:induction false} ParseCrashExact(ls: seq<Line>, open: bool, at: nat, n: nat)
    ensures FirstFault(ls, open, at) == Some(Crashed(at + n)) <==>
              && n < |ls| && ls[n].ShortList?
              && (open || exists i :: 0 <= i < n && ls[i].Head?)
              && FirstFault(ls[..n], open, at).None?
    decreases |ls|
  {
    if ls != [] {
      FirstFaultStep(ls, open, at);
      FaultFrom(ls[1..], open || ls[0].Head?, at + 1);
      if n > 0 && n <= |ls| { FirstFaultStep(ls[..n], open, at); }
      hide FirstFault;
      if n > 0 && Fault(ls[0], open, at).None? {
        ParseCrashExact(ls[1..], open || ls[0].Head?, at + 1, n - 1);
        if n <= |ls| { assert ls[..n][1..] == ls[1..][..n - 1]; }
        if i :| 0 <= i < n && n < |ls| && ls[i].Head? {
          assert i == 0 || ls[1..][i - 1].Head?;
        }
        if i :| 0 <= i < n - 1 && n < |ls| && ls[1..][i].Head? { assert ls[i + 1].Head?; }
      }
    }
  }

  // ---- which fault is reported ----

  /** A section is open at line n. */
  predicate OpenAt(ls: seq<Line>, open: bool, n: nat)
    requires n <= |ls|
  {
    open || exists i :: 0 <= i < n && ls[i].Head?
  }

  /** Line n cannot be taken: malformed, too short, or an item outside every section. */
  predicate FaultyAt(ls: seq<Line>, open: bool, n: nat)
    requires n < |ls|
  {
    ls[n].BadHead? || ls[n].BadItem? || ls[n].ShortList? || (ls[n].Item? && !OpenAt(ls, open, n))
  }

  lemma OpenAtTail(ls: seq<Line>, open: bool, n: nat)
    requires 0 < n <= |ls|
    ensures OpenAt(ls, open, n) == OpenAt(ls[1..], open || ls[0].Head?, n - 1)
  {
    if i :| 0 <= i < n && ls[i].Head? { assert i == 0 || ls[1..][i - 1].Head?; }
    if i :| 0 <= i < n - 1 && ls[1..][i].Head? { assert ls[i + 1].Head?; }
  }

  predicate StopsAt(f: Option<Outcome>, line: nat) {
    f.Some? && !f.value.Parsed? && f.value.at == line
  }

  lemma FaultyTail(ls: seq<Line>, open: bool, j: nat)
    requires j + 1 < |ls|
    ensures FaultyAt(ls, open, j + 1) == FaultyAt(ls[1..], open || ls[0].Head?, j)
  {
    OpenAtTail(ls, open, j + 1);
  }

  predicate FirstFaulty(ls: seq<Line>, open: bool, n: nat)
    requires n < |ls|
  {
    FaultyAt(ls, open, n) && forall j :: 0 <= j < n ==> !FaultyAt(ls, open, j)
  }

  lemma FirstFaultyTail(ls: seq<Line>, open: bool, n: nat)
    requires 0 < n < |ls|
    ensures FirstFaulty(ls, open, n) <==> !FaultyAt(ls, open, 0) && FirstFaulty(ls[1..], open || ls[0].Head?, n - 1)
  {
    var tail, open' := ls[1..], open || ls[0].Head?;
    FaultyTail(ls, open, n - 1);
    forall j | 0 <= j < n - 1 ensures FaultyAt(tail, open', j) == FaultyAt(ls, open, j + 1) { FaultyTail(ls, open, j); }
    hide FaultyAt;
    if FirstFaulty(tail, open', n - 1) && !FaultyAt(ls, open, 0) {
      forall j | 0 <= j < n ensures !FaultyAt(ls, open, j) {
        if j > 0 { assert !FaultyAt(tail, open', j - 1); }
      }
    }
  }

  /** The parser stops at the first line it cannot take, and says why: outside of a
      section, short enough to crash on, or malformed. */
  lemma {:induction false} FirstFaultExact(ls: seq<Line>, open: bool, at: nat, n: nat)
    requires n < |ls|
    ensures StopsAt(FirstFault(ls, open, at), at + n) <==> FirstFaulty(ls, open, n)
    ensures StopsAt(FirstFault(ls, open, at), at + n) ==>
      FirstFault(ls, open, at).value ==
        if ls[n].BadHead? then Malformed(at + n)
        else if !OpenAt(ls, open, n) then Orphan(at + n)
        else if ls[n].ShortList? then Crashed(at + n)
        else Malformed(at + n)
    decreases |ls|
  {
    FirstFaultStep(ls, open, at);
    FaultFrom(ls[1..], open || ls[0].Head?, at + 1);
    assert FaultyAt(ls, open, 0) <==> Fault(ls[0], open, at).Some?;
    if n > 0 {
      FirstFaultExact(ls[1..], open || ls[0].Head?, at + 1, n - 1);
      FirstFaultyTail(ls, open, n);
      OpenAtTail(ls, open, n);
      hide FirstFault, OpenAt, FaultyAt, FirstFaulty;
    }
  }

  /** A fault is reported at or after the line where the scan starts. */
  lemma {:induction false} FaultFrom(ls: seq<Line>, open: bool, at: nat)
    ensures var f := FirstFault(ls, open, at); f.Some? ==> !f.value.Parsed? && f.value.at >= at
    decreases |ls|
  {
    if ls != [] {
      FirstFaultStep(ls, open, at);
      if Fault(ls[0], open, at).None? { FaultFrom(ls[1..], open || ls[0].Head?, at + 1); }
    }
  }
}
