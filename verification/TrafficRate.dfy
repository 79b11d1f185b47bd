/** Differential traffic rates.  Counters are int64, time and rates are reals. */
module TrafficRate {
  import opened Common

  /** One direction of what calcRate sees in a cycle. */
  datatype Reading = Reading(at: real, total: int)

  /** int64 subtraction */
  function Sub64(a: int, b: int): int {
    Wrap64(a - b)
  }

  /** The rate calcRate leaves in the snapshot; zero is the snapshot's initial value. */
  function Rate(prev: Reading, cur: Reading): real {
    if cur.at - prev.at > 0.0 && Sub64(cur.total, prev.total) >= 0
    then Sub64(cur.total, prev.total) as real / (cur.at - prev.at)
    else 0.0
  }

  function Elapsed(prev: Reading, cur: Reading): real {
    if cur.at - prev.at > 0.0 then cur.at - prev.at else 0.0
  }

  /** Bytes the rate of one interval accounts for. */
  function Booked(prev: Reading, cur: Reading): real {
    Rate(prev, cur) * Elapsed(prev, cur)
  }

  /** Bytes the reported rates account for over a run of readings. */
  function Accounted(rs: seq<Reading>): real {
    if |rs| < 2 then 0.0
    else Accounted(rs[..|rs| - 1]) + Booked(rs[|rs| - 2], rs[|rs| - 1])
  }

  function Positive(x: int): nat {
    if x > 0 then x else 0
  }

  /** The positive counter increments over intervals in which time moved on. */
  function Increments(rs: seq<Reading>): nat {
    if |rs| < 2 then 0
    else
      var prev, cur := rs[|rs| - 2], rs[|rs| - 1];
      Increments(rs[..|rs| - 1]) + (if cur.at > prev.at then Positive(cur.total - prev.total) else 0)
  }

  predicate InRange(rs: seq<Reading>) {
    forall i :: 0 <= i < |rs| ==> 0 <= rs[i].total < TWO_63
  }

  predicate Advancing(rs: seq<Reading>) {
    forall i :: 0 < i < |rs| ==> rs[i - 1].at < rs[i].at
  }

  predicate NonDecreasing(rs: seq<Reading>) {
    forall i :: 0 < i < |rs| ==> rs[i - 1].total <= rs[i].total
  }

  /** Whatever the counters do, a rate is never negative. */
  lemma RateNonNegative(prev: Reading, cur: Reading)
    ensures Rate(prev, cur) >= 0.0
  {
    if cur.at - prev.at > 0.0 && Sub64(cur.total, prev.total) >= 0 {
      var x, dt := Sub64(cur.total, prev.total) as real, cur.at - prev.at;
      assert x / dt * dt == x;
    }
  }

  /** Differences of non-negative totals never overflow. */
  lemma NoOverflow(a: int, b: int)
    requires 0 <= a < TWO_63 && 0 <= b < TWO_63
    ensures Sub64(a, b) == a - b
  {
  }

  lemma RateTimesElapsed(prev: Reading, cur: Reading)
    requires 0 <= prev.total < TWO_63 && 0 <= cur.total < TWO_63
    ensures Booked(prev, cur) ==
              if cur.at > prev.at then Positive(cur.total - prev.total) as real else 0.0
  {
    NoOverflow(cur.total, prev.total);
    var dt := cur.at - prev.at;
    if dt > 0.0 && cur.total >= prev.total {
      var x := (cur.total - prev.total) as real;
      assert x / dt * dt == x;
    }
  }

  /** Nothing is lost or invented: the rates account for exactly the positive increments. */
  lemma {:induction false} RatesConserve(rs: seq<Reading>)
    requires InRange(rs)
    ensures Accounted(rs) == Increments(rs) as real
    decreases |rs|
  {
    if |rs| >= 2 {
      RatesConserve(rs[..|rs| - 1]);
      RateTimesElapsed(rs[|rs| - 2], rs[|rs| - 1]);
      hide Booked;
    }
  }

  lemma {:induction false} IncrementsBound(rs: seq<Reading>)
    requires InRange(rs) && Advancing(rs) && rs != []
    ensures Increments(rs) >= rs[|rs| - 1].total - rs[0].total
    ensures Increments(rs) == rs[|rs| - 1].total - rs[0].total <==> NonDecreasing(rs)
    decreases |rs|
  {
    if |rs| >= 2 {
      var front := rs[..|rs| - 1];
      IncrementsBound(front);
      assert front[|front| - 1] == rs[|rs| - 2] && rs[|rs| - 2].at < rs[|rs| - 1].at;
      assert NonDecreasing(rs) <==> NonDecreasing(front) && rs[|rs| - 2].total <= rs[|rs| - 1].total;
    }
  }

  /** The account telescopes to last minus first exactly when the counter never
      drops; any reset makes it larger. */
  lemma TelescopesExact(rs: seq<Reading>)
    requires InRange(rs) && Advancing(rs) && rs != []
    ensures Accounted(rs) >= (rs[|rs| - 1].total - rs[0].total) as real
    ensures Accounted(rs) == (rs[|rs| - 1].total - rs[0].total) as real <==> NonDecreasing(rs)
  {
    RatesConserve(rs);
    IncrementsBound(rs);
  }

  // ---- cycles ----

  /** A cycle that does not connect never reaches calcRate; one whose traffic
      request fails or is skipped reaches it with totals left at zero. */
  datatype Cycle = ConnectFailed | Connected(at: real, totals: Option<(int, int)>)

  function Total(c: Cycle, rx: bool): int
    requires c.Connected?
  {
    match c.totals
    case None => 0
    case Some((r, t)) => if rx then r else t
  }

  function Readings(cs: seq<Cycle>, rx: bool): seq<Reading> {
    if cs == [] then []
    else
      var c := cs[|cs| - 1];
      Readings(cs[..|cs| - 1], rx) + if c.Connected? then [Reading(c.at, Total(c, rx))] else []
  }

  predicate Good(c: Cycle) {
    c.Connected? && c.totals.Some?
  }

  predicate Missed(c: Cycle) {
    c.Connected? && c.totals.None?
  }

  /** What the device counts never drops, and fits. */
  predicate HonestCounter(cs: seq<Cycle>, rx: bool) {
    && (forall i :: 0 <= i < |cs| && Good(cs[i]) ==> 0 <= Total(cs[i], rx) < TWO_63)
    && (forall i, j :: 0 <= i < j < |cs| && Good(cs[i]) && Good(cs[j]) ==> Total(cs[i], rx) <= Total(cs[j], rx))
  }

  predicate AllZero(cs: seq<Cycle>, rx: bool) {
    forall i :: 0 <= i < |cs| && Good(cs[i]) ==> Total(cs[i], rx) == 0
  }

  /** Every good total before a missed request is zero. */
  predicate ZeroBeforeMiss(cs: seq<Cycle>, rx: bool) {
    forall i, j :: 0 <= i < j < |cs| && Good(cs[i]) && Missed(cs[j]) ==> Total(cs[i], rx) == 0
  }

  /** The latest connected cycle missed its request. */
  predicate EndsMissed(cs: seq<Cycle>) {
    cs != [] && (Missed(cs[|cs| - 1]) || (cs[|cs| - 1].ConnectFailed? && EndsMissed(cs[..|cs| - 1])))
  }

  /** The latest connected cycle, if there is one, decides EndsMissed. */
  lemma {:induction false} Latest(cs: seq<Cycle>) returns (k: int)
    ensures -1 <= k < |cs|
    ensures k == -1 ==> !EndsMissed(cs) && forall i :: 0 <= i < |cs| ==> cs[i].ConnectFailed?
    ensures k >= 0 ==> cs[k].Connected? && (EndsMissed(cs) <==> Missed(cs[k]))
    ensures forall i :: k < i < |cs| ==> cs[i].ConnectFailed?
    decreases |cs|
  {
    if cs == [] {
      k := -1;
    } else if cs[|cs| - 1].Connected? {
      k := |cs| - 1;
    } else {
      k := Latest(cs[..|cs| - 1]);
    }
  }

  lemma {:induction false} ReadingsInRange(cs: seq<Cycle>, rx: bool)
    requires HonestCounter(cs, rx)
    ensures InRange(Readings(cs, rx))
    decreases |cs|
  {
    if cs != [] {
      assert HonestCounter(cs[..|cs| - 1], rx);
      ReadingsInRange(cs[..|cs| - 1], rx);
    }
  }

  /** The last reading is that of the latest connected cycle. */
  lemma {:induction false} LastReading(cs: seq<Cycle>, rx: bool, k: int)
    requires -1 <= k < |cs| && (k >= 0 ==> cs[k].Connected?) && forall i :: k < i < |cs| ==> cs[i].ConnectFailed?
    ensures var rs := Readings(cs, rx);
            if k == -1 then rs == [] else rs != [] && rs[|rs| - 1].total == Total(cs[k], rx)
    decreases |cs|
  {
    if cs != [] && k < |cs| - 1 { LastReading(cs[..|cs| - 1], rx, k); }
  }

  lemma NonDecreasingSnoc(rs: seq<Reading>, r: Reading)
    ensures NonDecreasing(rs + [r]) <==> NonDecreasing(rs) && (rs != [] ==> rs[|rs| - 1].total <= r.total)
  {
    var t := rs + [r];
    assert forall i :: 0 <= i < |rs| ==> t[i] == rs[i];
    if NonDecreasing(t) && rs != [] { assert t[|rs| - 1].total <= t[|rs|].total; }
  }

  /** The readings never drop exactly when no miss follows traffic. */
  lemma {:induction false} NeverDropsExact(cs: seq<Cycle>, rx: bool)
    requires HonestCounter(cs, rx)
    ensures NonDecreasing(Readings(cs, rx)) <==> ZeroBeforeMiss(cs, rx)
    decreases |cs|
  {
    if cs != [] {
      var front, c := cs[..|cs| - 1], cs[|cs| - 1];
      var rs := Readings(front, rx);
      assert HonestCounter(front, rx);
      NeverDropsExact(front, rx);
      ZeroBeforeMissFront(cs, rx);
      if c.Connected? {
        assert Readings(cs, rx) == rs + [Reading(c.at, Total(c, rx))];
        hide *;
        NonDecreasingSnoc(rs, Reading(c.at, Total(c, rx)));
        if ZeroBeforeMiss(front, rx) { LastDecides(cs, rx); }
      } else {
        assert Readings(cs, rx) == rs;
      }
    }
  }

  lemma ZeroBeforeMissFront(cs: seq<Cycle>, rx: bool)
    requires cs != []
    ensures ZeroBeforeMiss(cs, rx) <==>
              && ZeroBeforeMiss(cs[..|cs| - 1], rx)
              && (Missed(cs[|cs| - 1]) ==> AllZero(cs[..|cs| - 1], rx))
  {
    var front := cs[..|cs| - 1];
    assert forall i :: 0 <= i < |front| ==> front[i] == cs[i];
  }

  /** The latest connected cycle has the largest total, unless it missed; then it has none. */
  lemma LatestIsZero(cs: seq<Cycle>, rx: bool, k: nat)
    requires HonestCounter(cs, rx) && ZeroBeforeMiss(cs, rx)
    requires k < |cs| && cs[k].Connected? && forall i :: k < i < |cs| ==> cs[i].ConnectFailed?
    ensures Total(cs[k], rx) >= 0
    ensures Total(cs[k], rx) == 0 <==> AllZero(cs, rx)
  {
    forall i | 0 <= i < |cs| && Good(cs[i]) ensures i <= k { }
    if Good(cs[k]) {
      assert forall i :: 0 <= i < k && Good(cs[i]) ==> 0 <= Total(cs[i], rx) <= Total(cs[k], rx);
    } else {
      assert forall i :: 0 <= i < k && Good(cs[i]) ==> Total(cs[i], rx) == 0;
    }
  }

  /** Whether the last connected cycle drops below the reading before it. */
  lemma LastDecides(cs: seq<Cycle>, rx: bool)
    requires HonestCounter(cs, rx) && cs != [] && cs[|cs| - 1].Connected?
    requires ZeroBeforeMiss(cs[..|cs| - 1], rx)
    ensures var rs := Readings(cs[..|cs| - 1], rx);
            (rs != [] ==> rs[|rs| - 1].total <= Total(cs[|cs| - 1], rx)) <==> ZeroBeforeMiss(cs, rx)
  {
    var front, c := cs[..|cs| - 1], cs[|cs| - 1];
    assert HonestCounter(front, rx);
    ZeroBeforeMissFront(cs, rx);
    var k := Latest(front);
    LastReading(front, rx, k);
    if k == -1 {
      assert AllZero(front, rx);
    } else {
      LatestIsZero(front, rx, k);
      if Good(c) { CounterGrows(cs, rx, k); }
    }
    hide HonestCounter, ZeroBeforeMiss, AllZero, Readings;
  }

  lemma CounterGrows(cs: seq<Cycle>, rx: bool, k: nat)
    requires HonestCounter(cs, rx) && k < |cs| - 1 && Good(cs[|cs| - 1])
    ensures cs[k].Connected? ==> 0 <= Total(cs[k], rx) <= Total(cs[|cs| - 1], rx)
  {
  }

  /** Over any run with a counter that never drops, failed connects included: the
      account telescopes to last minus first reading exactly when every good total
      before a missed request is zero, and exceeds it otherwise. */
  lemma MissedRequestsExact(cs: seq<Cycle>, rx: bool)
    requires HonestCounter(cs, rx) && Advancing(Readings(cs, rx)) && Readings(cs, rx) != []
    ensures var rs := Readings(cs, rx);
            && Accounted(rs) >= (rs[|rs| - 1].total - rs[0].total) as real
            && (Accounted(rs) == (rs[|rs| - 1].total - rs[0].total) as real <==> ZeroBeforeMiss(cs, rx))
  {
    ReadingsInRange(cs, rx);
    TelescopesExact(Readings(cs, rx));
    NeverDropsExact(cs, rx);
  }

  // ---- against the device's own counter ----

  /** The first and the last total the device reported; zero if there is none. */
  function FirstGood(cs: seq<Cycle>, rx: bool): int {
    if cs == [] then 0 else if Good(cs[0]) then Total(cs[0], rx) else FirstGood(cs[1..], rx)
  }

  function LastGood(cs: seq<Cycle>, rx: bool): int {
    if cs == [] then 0
    else if Good(cs[|cs| - 1]) then Total(cs[|cs| - 1], rx) else LastGood(cs[..|cs| - 1], rx)
  }

  predicate SomeGood(cs: seq<Cycle>) {
    exists i :: 0 <= i < |cs| && Good(cs[i])
  }

  /** Traffic booked a second time: a good cycle after a miss starts from zero again. */
  function Rebooked(cs: seq<Cycle>, rx: bool): int {
    if cs == [] then 0
    else
      var front, c := cs[..|cs| - 1], cs[|cs| - 1];
      Rebooked(front, rx) +
      if !Good(c) || !EndsMissed(front) then 0
      else if SomeGood(front) then LastGood(front, rx) else Total(c, rx)
  }

  lemma {:induction false} FirstGoodSnoc(cs: seq<Cycle>, rx: bool)
    requires cs != []
    ensures var front, c := cs[..|cs| - 1], cs[|cs| - 1];
            && FirstGood(cs, rx) ==
                 (if SomeGood(front) then FirstGood(front, rx) else if Good(c) then Total(c, rx) else 0)
            && (SomeGood(cs) <==> SomeGood(front) || Good(c))
    decreases |cs|
  {
    var front, c := cs[..|cs| - 1], cs[|cs| - 1];
    if |cs| > 1 {
      FirstGoodSnoc(cs[1..], rx);
      assert cs[1..][..|cs| - 2] == front[1..];
      assert SomeGood(front) <==> Good(front[0]) || SomeGood(front[1..]) by { SomeGoodCons(front); }
      assert SomeGood(cs) <==> Good(cs[0]) || SomeGood(cs[1..]) by { SomeGoodCons(cs); }
      hide SomeGood;
    } else {
      assert cs[1..] == [] && front == [];
    }
  }

  lemma SomeGoodCons(cs: seq<Cycle>)
    requires cs != []
    ensures SomeGood(cs) <==> Good(cs[0]) || SomeGood(cs[1..])
  {
    if i :| 0 <= i < |cs| && Good(cs[i]) {
      if i > 0 { assert Good(cs[1..][i - 1]); }
    }
    if i :| 0 <= i < |cs[1..]| && Good(cs[1..][i]) { assert Good(cs[i + 1]); }
  }

  /** The last reading, in terms of the cycles. */
  lemma {:induction false} ReadingsEnd(cs: seq<Cycle>, rx: bool)
    ensures var rs := Readings(cs, rx);
            && (rs == [] <==> !EndsMissed(cs) && !SomeGood(cs))
            && (rs != [] ==> rs[|rs| - 1].total == if EndsMissed(cs) then 0 else LastGood(cs, rx))
    decreases |cs|
  {
    if cs != [] {
      ReadingsEnd(cs[..|cs| - 1], rx);
      FirstGoodSnoc(cs, rx);
      hide SomeGood;
    }
  }

  lemma {:induction false} LastGoodBounds(cs: seq<Cycle>, rx: bool)
    requires HonestCounter(cs, rx)
    ensures 0 <= FirstGood(cs, rx) <= LastGood(cs, rx)
    ensures SomeGood(cs) ==> exists i :: 0 <= i < |cs| && Good(cs[i]) && Total(cs[i], rx) == LastGood(cs, rx)
    ensures !SomeGood(cs) ==> LastGood(cs, rx) == 0
    ensures forall i :: 0 <= i < |cs| && Good(cs[i]) ==> FirstGood(cs, rx) <= Total(cs[i], rx) <= LastGood(cs, rx)
    decreases |cs|
  {
    if cs != [] {
      var front := cs[..|cs| - 1];
      LastGoodBounds(front, rx);
      FirstGoodSnoc(cs, rx);
      assert forall i :: 0 <= i < |front| ==> front[i] == cs[i];
    }
  }

  /** What one more cycle adds to the account, from the counter's side. */
  lemma BookedStep(cs: seq<Cycle>, rx: bool)
    requires HonestCounter(cs, rx) && cs != []
    ensures var front, c := cs[..|cs| - 1], cs[|cs| - 1];
            var rs := Readings(front, rx);
            LastGood(cs, rx) - FirstGood(cs, rx) + Rebooked(cs, rx) ==
              LastGood(front, rx) - FirstGood(front, rx) + Rebooked(front, rx)
              + if c.Connected? && rs != [] then Positive(Total(c, rx) - rs[|rs| - 1].total) else 0
  {
    var front, c := cs[..|cs| - 1], cs[|cs| - 1];
    assert HonestCounter(front, rx);
    ReadingsEnd(front, rx);
    FirstGoodSnoc(cs, rx);
    LastGoodBounds(front, rx);
    if Good(c) { LastGoodGrows(cs, rx); }
    hide SomeGood, HonestCounter, EndsMissed, Readings;
  }

  lemma ReadingsSnoc(cs: seq<Cycle>, rx: bool)
    requires cs != []
    ensures var front, c := cs[..|cs| - 1], cs[|cs| - 1];
            Readings(cs, rx) ==
              if c.Connected? then Readings(front, rx) + [Reading(c.at, Total(c, rx))] else Readings(front, rx)
  {
    hide Total;
  }

  lemma HonestFront(cs: seq<Cycle>, rx: bool)
    requires HonestCounter(cs, rx) && cs != []
    ensures HonestCounter(cs[..|cs| - 1], rx)
  {
    hide Total;
  }

  lemma AdvancingFront(rs: seq<Reading>, more: seq<Reading>)
    requires Advancing(rs + more)
    ensures Advancing(rs)
  {
    assert forall i :: 0 <= i < |rs| ==> (rs + more)[i] == rs[i];
  }

  lemma ReadingsFront(cs: seq<Cycle>, rx: bool)
    requires HonestCounter(cs, rx) && Advancing(Readings(cs, rx)) && cs != []
    ensures HonestCounter(cs[..|cs| - 1], rx) && Advancing(Readings(cs[..|cs| - 1], rx))
    ensures var front, c := cs[..|cs| - 1], cs[|cs| - 1];
            Readings(cs, rx) ==
              if c.Connected? then Readings(front, rx) + [Reading(c.at, Total(c, rx))] else Readings(front, rx)
  {
    hide *;
    ReadingsSnoc(cs, rx);
    HonestFront(cs, rx);
    var front, c := cs[..|cs| - 1], cs[|cs| - 1];
    if c.Connected? { AdvancingFront(Readings(front, rx), [Reading(c.at, Total(c, rx))]); }
  }

  lemma {:induction false} IncrementsAre(cs: seq<Cycle>, rx: bool)
    requires HonestCounter(cs, rx) && Advancing(Readings(cs, rx))
    ensures Increments(Readings(cs, rx)) == LastGood(cs, rx) - FirstGood(cs, rx) + Rebooked(cs, rx)
    decreases |cs|
  {
    if cs != [] {
      var front, c := cs[..|cs| - 1], cs[|cs| - 1];
      ReadingsFront(cs, rx);
      BookedStep(cs, rx);
      hide *;
      IncrementsAre(front, rx);
      if c.Connected? { IncrementsSnoc(Readings(front, rx), Reading(c.at, Total(c, rx))); }
    }
  }

  lemma LastGoodGrows(cs: seq<Cycle>, rx: bool)
    requires HonestCounter(cs, rx) && cs != [] && Good(cs[|cs| - 1])
    ensures 0 <= LastGood(cs[..|cs| - 1], rx) <= Total(cs[|cs| - 1], rx)
  {
    var front := cs[..|cs| - 1];
    assert HonestCounter(front, rx);
    LastGoodBounds(front, rx);
    assert forall i :: 0 <= i < |front| ==> front[i] == cs[i];
  }

  lemma IncrementsSnoc(rs: seq<Reading>, r: Reading)
    requires Advancing(rs + [r])
    ensures Increments(rs + [r]) == Increments(rs) + if rs == [] then 0 else Positive(r.total - rs[|rs| - 1].total)
  {
    assert (rs + [r])[..|rs|] == rs;
    if rs != [] { assert (rs + [r])[|rs| - 1].at < (rs + [r])[|rs|].at; }
  }

  /** Over any run the rates account for what the device counted, plus what is booked
      a second time: after every miss, the whole total before it. */
  lemma AccountedIs(cs: seq<Cycle>, rx: bool)
    requires HonestCounter(cs, rx) && Advancing(Readings(cs, rx))
    ensures Accounted(Readings(cs, rx)) == (LastGood(cs, rx) - FirstGood(cs, rx) + Rebooked(cs, rx)) as real
    ensures Rebooked(cs, rx) >= 0
  {
    ReadingsInRange(cs, rx);
    RatesConserve(Readings(cs, rx));
    IncrementsAre(cs, rx);
    RebookedNatural(cs, rx);
  }

  lemma {:induction false} RebookedNatural(cs: seq<Cycle>, rx: bool)
    requires HonestCounter(cs, rx)
    ensures Rebooked(cs, rx) >= 0
    decreases |cs|
  {
    if cs != [] {
      var front := cs[..|cs| - 1];
      assert HonestCounter(front, rx);
      RebookedNatural(front, rx);
      LastGoodBounds(front, rx);
    }
  }

  /** No good cycle follows a miss that follows traffic, or precedes the first report of any. */
  predicate MissesHarmless(cs: seq<Cycle>, rx: bool) {
    forall j, k :: 0 <= j < k < |cs| && Missed(cs[j]) && Good(cs[k]) ==>
      FirstGood(cs, rx) == 0 && AllZero(cs[..j], rx)
  }

  /** The rates over a run add up to what the device counted between its first and its
      last report exactly when no miss lets a total be booked again. */
  lemma BookedRightExact(cs: seq<Cycle>, rx: bool)
    requires HonestCounter(cs, rx) && Advancing(Readings(cs, rx))
    ensures Accounted(Readings(cs, rx)) == (LastGood(cs, rx) - FirstGood(cs, rx)) as real <==> MissesHarmless(cs, rx)
  {
    AccountedIs(cs, rx);
    RebookedZero(cs, rx);
  }

  lemma HarmlessFront(cs: seq<Cycle>, rx: bool)
    requires cs != []
    ensures MissesHarmless(cs, rx) ==> MissesHarmless(cs[..|cs| - 1], rx)
    ensures !Good(cs[|cs| - 1]) && MissesHarmless(cs[..|cs| - 1], rx) ==> MissesHarmless(cs, rx)
  {
    var front := cs[..|cs| - 1];
    FirstGoodSnoc(cs, rx);
    assert forall j :: 0 <= j < |front| ==> front[..j] == cs[..j] && front[j] == cs[j];
    hide FirstGood, AllZero;
    forall k | 0 <= k < |front| && Good(front[k]) ensures FirstGood(cs, rx) == FirstGood(front, rx) {
      assert SomeGood(front);
    }
    hide SomeGood;
  }

  /** A good cycle that follows a harmless miss has nothing to book again. */
  lemma HarmlessMeansZero(cs: seq<Cycle>, rx: bool)
    requires HonestCounter(cs, rx) && cs != [] && Good(cs[|cs| - 1])
    requires MissesHarmless(cs, rx) && EndsMissed(cs[..|cs| - 1])
    ensures var front := cs[..|cs| - 1];
            (if SomeGood(front) then LastGood(front, rx) else Total(cs[|cs| - 1], rx)) == 0
  {
    var front := cs[..|cs| - 1];
    assert HonestCounter(front, rx);
    FirstGoodSnoc(cs, rx);
    var n := Latest(front);
    assert front[..n] == cs[..n] && front[n] == cs[n];
    assert Missed(cs[n]) && Good(cs[|cs| - 1]) && n < |cs| - 1;
    hide HonestCounter, SomeGood, EndsMissed;
    ZeroUpTo(front, rx, n);
  }

  lemma ZeroMeansHarmless(cs: seq<Cycle>, rx: bool)
    requires HonestCounter(cs, rx) && cs != [] && Good(cs[|cs| - 1])
    requires var front := cs[..|cs| - 1];
             && MissesHarmless(front, rx)
             && (EndsMissed(front) ==> (if SomeGood(front) then LastGood(front, rx) else Total(cs[|cs| - 1], rx)) == 0)
    ensures MissesHarmless(cs, rx)
  {
    var n := Latest(cs[..|cs| - 1]);
    forall j, k | 0 <= j < k < |cs| && Missed(cs[j]) && Good(cs[k])
      ensures FirstGood(cs, rx) == 0 && AllZero(cs[..j], rx)
    {
      assert cs[..|cs| - 1][j] == cs[j];
      hide HonestCounter, SomeGood, EndsMissed, MissesHarmless, AllZero;
      MissHarmless(cs, rx, n, j);
    }
  }

  /** A good cycle at the end leaves the misses harmless exactly when they were, and
      it does not follow a miss with a total to book again. */
  lemma HarmlessGood(cs: seq<Cycle>, rx: bool)
    requires HonestCounter(cs, rx) && cs != [] && Good(cs[|cs| - 1])
    ensures var front, c := cs[..|cs| - 1], cs[|cs| - 1];
            MissesHarmless(cs, rx) <==>
              && MissesHarmless(front, rx)
              && (EndsMissed(front) ==> (if SomeGood(front) then LastGood(front, rx) else Total(c, rx)) == 0)
  {
    var front, c := cs[..|cs| - 1], cs[|cs| - 1];
    HarmlessFront(cs, rx);
    hide HonestCounter, SomeGood, EndsMissed, MissesHarmless;
    if MissesHarmless(cs, rx) && EndsMissed(front) { HarmlessMeansZero(cs, rx); }
    if MissesHarmless(front, rx)
        && (EndsMissed(front) ==> (if SomeGood(front) then LastGood(front, rx) else Total(c, rx)) == 0) {
      ZeroMeansHarmless(cs, rx);
    }
  }

  lemma ZeroUpTo(cs: seq<Cycle>, rx: bool, n: nat)
    requires HonestCounter(cs, rx) && n < |cs| && Missed(cs[n]) && AllZero(cs[..n], rx)
    requires forall i :: n < i < |cs| ==> cs[i].ConnectFailed?
    ensures SomeGood(cs) ==> LastGood(cs, rx) == 0
  {
    LastGoodBounds(cs, rx);
    if SomeGood(cs) {
      var i :| 0 <= i < |cs| && Good(cs[i]) && Total(cs[i], rx) == LastGood(cs, rx);
      assert i < n && cs[..n][i] == cs[i];
    }
  }

  lemma MissHarmless(cs: seq<Cycle>, rx: bool, n: int, j: nat)
    requires HonestCounter(cs, rx) && cs != [] && Good(cs[|cs| - 1]) && j < |cs| - 1 && Missed(cs[j])
    requires var front := cs[..|cs| - 1];
             && j <= n < |front| && front[n].Connected? && (EndsMissed(front) <==> Missed(front[n]))
             && MissesHarmless(front, rx)
             && (EndsMissed(front) ==> (if SomeGood(front) then LastGood(front, rx) else Total(cs[|cs| - 1], rx)) == 0)
    ensures FirstGood(cs, rx) == 0 && AllZero(cs[..j], rx)
  {
    var front := cs[..|cs| - 1];
    FirstGoodSnoc(cs, rx);
    assert front[..j] == cs[..j];
    if !EndsMissed(front) {
      assert Missed(front[j]) && Good(front[n]) && SomeGood(front);
    } else {
      assert HonestCounter(front, rx);
      hide MissesHarmless, EndsMissed;
      NothingCounted(front, rx, j);
    }
  }

  lemma NothingCounted(cs: seq<Cycle>, rx: bool, j: nat)
    requires HonestCounter(cs, rx) && j <= |cs| && (SomeGood(cs) ==> LastGood(cs, rx) == 0)
    ensures AllZero(cs[..j], rx) && FirstGood(cs, rx) == 0
  {
    LastGoodBounds(cs, rx);
    forall i | 0 <= i < j && Good(cs[..j][i]) ensures Total(cs[..j][i], rx) == 0 {
      assert cs[..j][i] == cs[i] && SomeGood(cs);
    }
  }

  lemma {:induction false} RebookedZero(cs: seq<Cycle>, rx: bool)
    requires HonestCounter(cs, rx)
    ensures Rebooked(cs, rx) == 0 <==> MissesHarmless(cs, rx)
    decreases |cs|
  {
    if cs != [] {
      var front, c := cs[..|cs| - 1], cs[|cs| - 1];
      assert HonestCounter(front, rx);
      RebookedZero(front, rx);
      RebookedNatural(front, rx);
      if Good(c) { HarmlessGood(cs, rx); } else { HarmlessFront(cs, rx); }
      LastGoodBounds(front, rx);
      hide HonestCounter, MissesHarmless, SomeGood, EndsMissed;
    }
  }

  /** The smallest case: one miss between two good requests. */
  lemma MissedRequestExact(t0: real, t1: real, t2: real, a: int, b: int, x: int, y: int)
    requires t0 < t1 < t2 && 0 <= a <= b < TWO_63
    ensures var rs := Readings([Connected(t0, Some((a, x))), Connected(t1, None), Connected(t2, Some((b, y)))], true);
            Accounted(rs) == b as real && (Accounted(rs) == (b - a) as real <==> a == 0)
  {
    var cs := [Connected(t0, Some((a, x))), Connected(t1, None), Connected(t2, Some((b, y)))];
    assert cs[..2] == [Connected(t0, Some((a, x))), Connected(t1, None)];
    assert cs[..2][..1] == [Connected(t0, Some((a, x)))];
    assert cs[..2][..1][..0] == [];
    var rs := [Reading(t0, a), Reading(t1, 0), Reading(t2, b)];
    assert Readings(cs[..2][..1], true) == [Reading(t0, a)];
    assert Readings(cs[..2], true) == [Reading(t0, a), Reading(t1, 0)];
    assert Readings(cs, true) == rs;
    RatesConserve(rs);
    assert rs[..2] == [Reading(t0, a), Reading(t1, 0)];
    assert Increments(rs[..2]) == 0 by { assert rs[..2][..1] == [Reading(t0, a)]; }
  }

  // ---- the object ----

  class Meter {
    var prevAt: Option<real>
    var prevRx: int
    var prevTx: int

    constructor ()
      ensures prevAt.None?
    {
      prevAt, prevRx, prevTx := None, 0, 0;
    }

    /** calcRate on a snapshot taken at now. */
    method CalcRate(now: real, totalRx: int, totalTx: int) returns (rxRate: real, txRate: real)
      requires -TWO_63 <= totalRx < TWO_63 && -TWO_63 <= totalTx < TWO_63
      modifies this
      ensures prevAt == Some(now) && prevRx == totalRx && prevTx == totalTx
      ensures rxRate >= 0.0 && txRate >= 0.0
      ensures old(prevAt).None? ==> rxRate == txRate == 0.0
      ensures old(prevAt).Some? ==>
        && rxRate == Rate(Reading(old(prevAt).value, old(prevRx)), Reading(now, totalRx))
        && txRate == Rate(Reading(old(prevAt).value, old(prevTx)), Reading(now, totalTx))
    {
      rxRate, txRate := 0.0, 0.0;
      if prevAt.Some? {
        var dt := now - prevAt.value;
        if dt > 0.0 {
          var drx := Sub64(totalRx, prevRx);
          var dtx := Sub64(totalTx, prevTx);
          if drx >= 0 {
            rxRate := drx as real / dt;
          }
          if dtx >= 0 {
            txRate := dtx as real / dt;
          }
        }
        RateNonNegative(Reading(prevAt.value, prevRx), Reading(now, totalRx));
        RateNonNegative(Reading(prevAt.value, prevTx), Reading(now, totalTx));
      }
      prevAt := Some(now);
      prevRx := totalRx;
      prevTx := totalTx;
    }
  }
}
