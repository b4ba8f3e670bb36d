/** The pair selector: which of the exchange's pairs the agent may use, and which one it prefers. */
module PairSelector {
  import opened Prelude

  const STAKED_CSPR := "sCSPR"

  datatype Recommendation = Proceed | Caution | HighRisk | Unknown

  /** One listed pair with everything the exchange answers about it. `impact` is None when it is no number. */
  datatype Listing = Listing(
    tokenA: string, tokenB: string, impact: Option<real>, recommendation: Recommendation,
    reservesIn: nat, reservesOut: nat, feeBps: nat, detail: string)

  datatype Candidate = Candidate(
    pair: string, tokenIn: string, tokenOut: string, reservesIn: nat, reservesOut: nat,
    feeBps: nat, recommendation: Recommendation, apyBps: nat, reason: string)

  // ---- the fee estimate, in hundredths of a percent ----

  function EstimateFeeApyBps(reserves: nat, feeBps: nat): nat {
    if reserves == 0 then 0 else
      var dailyFees := Quotient(reserves * feeBps, 10_000);
      var annualFees := dailyFees * 365;
      Quotient(annualFees * 10_000, reserves)
  }

  /** Two truncating divisions lose less than 1 + 3650000 / reserves. */
  lemma ApyBounds(reserves: nat, feeBps: nat)
    requires reserves > 0
    ensures var apy := EstimateFeeApyBps(reserves, feeBps);
            apy <= 365 * feeBps && (365 * feeBps - apy - 1) * reserves < 3_650_000
  {
    var product := reserves * feeBps;
    var daily := Quotient(product, 10_000);
    var apy := EstimateFeeApyBps(reserves, feeBps);
    assert product - 9_999 <= daily * 10_000 <= product;
    var annual := daily * 3_650_000;
    assert annual - reserves < apy * reserves <= annual;
    assert 365 * product - 3_649_635 <= annual <= 365 * product;
    assert (365 * feeBps - apy) * reserves == 365 * product - apy * reserves;
    assert (365 * feeBps - apy - 1) * reserves == (365 * feeBps - apy) * reserves - reserves;
    MulAtLeast(365 * feeBps - apy, reserves);
  }

  /** Exactly: a day's fees rounded down, a year of them over the reserves rounded down; nothing without reserves. */
  lemma ApyExact(reserves: nat, feeBps: nat)
    ensures var apy := EstimateFeeApyBps(reserves, feeBps);
            if reserves == 0 then apy == 0 else
              exists daily: nat :: daily * 10_000 <= reserves * feeBps < daily * 10_000 + 10_000 &&
                                   apy * reserves <= daily * 3_650_000 < apy * reserves + reserves
  {
    if reserves > 0 {
      var daily := Quotient(reserves * feeBps, 10_000);
      var apy := Quotient(daily * 365 * 10_000, reserves);
      assert daily * 10_000 <= reserves * feeBps < daily * 10_000 + 10_000;
      assert apy * reserves <= daily * 3_650_000 < apy * reserves + reserves;
    }
  }

  // ---- evaluating one listing ----

  /** `parseFloat(..) || 999`: no number counts as 999, and so does zero. */
  function EffectiveImpact(impact: Option<real>): real {
    if impact == None || impact.value == 0.0 then 999.0 else impact.value
  }

  predicate Considered(l: Listing, excluded: set<string>) {
    && l.tokenA != "" && l.tokenB != ""
    && (l.tokenA == "CSPR" || l.tokenB == "CSPR")
    && l.tokenA + "/" + l.tokenB !in excluded
  }

  function Evaluate(l: Listing, maxImpact: real): Candidate {
    var safe := EffectiveImpact(l.impact) <= maxImpact && l.recommendation != HighRisk;
    Candidate(
      l.tokenA + "/" + l.tokenB, "CSPR", if l.tokenA == "CSPR" then l.tokenB else l.tokenA,
      l.reservesIn, l.reservesOut, l.feeBps, l.recommendation, EstimateFeeApyBps(l.reservesIn, l.feeBps),
      (if safe then "safe: " else "skipped: ") + l.detail)
  }

  predicate IsSafe(c: Candidate) {
    "safe" <= c.reason && c.recommendation != HighRisk
  }

  /** The test for the tail of the returned list; it is not the negation of `IsSafe`. */
  predicate IsSkipped(c: Candidate) {
    !("safe" <= c.reason)
  }

  /** What a listing must have to be chosen, read off the exchange's answers alone. */
  predicate Acceptable(l: Listing, maxImpact: real) {
    && l.recommendation != HighRisk
    && match l.impact
       case None => 999.0 <= maxImpact
       case Some(impact) => if impact == 0.0 then 999.0 <= maxImpact else impact <= maxImpact
  }

  lemma ReasonIff(l: Listing, maxImpact: real)
    ensures "safe" <= Evaluate(l, maxImpact).reason <==> Acceptable(l, maxImpact)
  {
    var c := Evaluate(l, maxImpact);
    if Acceptable(l, maxImpact) {
      assert c.reason[..4] == "safe";
    } else {
      assert c.reason[1] == 'k' && "safe"[1] == 'a';
    }
  }

  /**
   A pair is safe iff its impact is within the limit and it is not rated high risk; below a limit of 999 the impact must
   moreover be quoted, and not as zero.
   */
  lemma SafeIff(l: Listing, maxImpact: real)
    ensures IsSafe(Evaluate(l, maxImpact)) <==> Acceptable(l, maxImpact)
    ensures IsSafe(Evaluate(l, maxImpact)) && maxImpact < 999.0 ==>
              l.impact.Some? && l.impact.value != 0.0 && l.impact.value <= maxImpact
  {
    ReasonIff(l, maxImpact);
  }

  function EvaluateAll(listings: seq<Listing>, maxImpact: real, excluded: set<string>): seq<Candidate> {
    if listings == [] then [] else
      var before, l := EvaluateAll(listings[..|listings| - 1], maxImpact, excluded), listings[|listings| - 1];
      if Considered(l, excluded) then before + [Evaluate(l, maxImpact)] else before
  }

  /** What a candidate says about the listing it was made from. */
  ghost predicate Describes(c: Candidate, l: Listing, maxImpact: real) {
    && c.pair == l.tokenA + "/" + l.tokenB
    && c.tokenIn == "CSPR" && {c.tokenIn, c.tokenOut} == {l.tokenA, l.tokenB}
    && c.reservesIn == l.reservesIn && c.reservesOut == l.reservesOut && c.feeBps == l.feeBps
    && c.recommendation == l.recommendation
    && c.apyBps == EstimateFeeApyBps(l.reservesIn, l.feeBps)
    && (IsSafe(c) <==> Acceptable(l, maxImpact))
    && (exists prefix :: c.reason == prefix + l.detail)
  }

  /**
   The candidates are those listings, in order, that name both sides, have CSPR on one of them and are not excluded;
   the token bought is the other side.
   */
  lemma CandidatesAreListings(listings: seq<Listing>, l: Listing, maxImpact: real, excluded: set<string>)
    ensures EvaluateAll([], maxImpact, excluded) == []
    ensures var before := EvaluateAll(listings, maxImpact, excluded);
            var after := EvaluateAll(listings + [l], maxImpact, excluded);
            if l.tokenA == "" || l.tokenB == "" || (l.tokenA != "CSPR" && l.tokenB != "CSPR")
               || l.tokenA + "/" + l.tokenB in excluded
            then after == before
            else |after| == |before| + 1 && after[..|before|] == before && Describes(after[|before|], l, maxImpact)
  {
    assert (listings + [l])[..|listings|] == listings;
    SafeIff(l, maxImpact);
    var safe := EffectiveImpact(l.impact) <= maxImpact && l.recommendation != HighRisk;
    var prefix := if safe then "safe: " else "skipped: ";
    assert Evaluate(l, maxImpact).reason == prefix + l.detail;
  }

  // ---- filtering ----

  function Filter(cs: seq<Candidate>, test: Candidate -> bool): seq<Candidate> {
    if cs == [] then [] else
      var before, c := Filter(cs[..|cs| - 1], test), cs[|cs| - 1];
      if test(c) then before + [c] else before
  }

  lemma {:induction false} FilterExact(cs: seq<Candidate>, test: Candidate -> bool)
    ensures forall c :: c in Filter(cs, test) <==> c in cs && test(c)
    ensures (forall c :: c in cs ==> test(c)) ==> Filter(cs, test) == cs
    ensures (forall c :: c in cs ==> !test(c)) ==> Filter(cs, test) == []
  {
    if cs != [] {
      var cs', c := cs[..|cs| - 1], cs[|cs| - 1];
      FilterExact(cs', test);
      assert cs == cs' + [c];
    }
  }

  /** In both filters' blind spot: called safe, yet rated high risk. */
  predicate Dropped(c: Candidate) {
    "safe" <= c.reason && c.recommendation == HighRisk
  }

  lemma {:induction false} FiltersSplit(cs: seq<Candidate>)
    ensures multiset(Filter(cs, IsSafe)) + multiset(Filter(cs, IsSkipped)) + multiset(Filter(cs, Dropped))
         == multiset(cs)
  {
    if cs != [] {
      var cs', c := cs[..|cs| - 1], cs[|cs| - 1];
      FiltersSplit(cs');
      assert cs == cs' + [c];
      var s, t, d := Filter(cs', IsSafe), Filter(cs', IsSkipped), Filter(cs', Dropped);
      assert multiset(s + [c]) == multiset(s) + multiset{c};
      assert multiset(t + [c]) == multiset(t) + multiset{c};
      assert multiset(d + [c]) == multiset(d) + multiset{c};
    }
  }

  lemma {:induction false} NoneDropped(listings: seq<Listing>, maxImpact: real, excluded: set<string>)
    ensures forall c :: c in EvaluateAll(listings, maxImpact, excluded) ==> !Dropped(c)
  {
    if listings != [] {
      var l := listings[|listings| - 1];
      NoneDropped(listings[..|listings| - 1], maxImpact, excluded);
      ReasonIff(l, maxImpact);
    }
  }

  /** The two filters use different tests, but lose and repeat none of the candidates the selector builds. */
  lemma FilterPartitions(listings: seq<Listing>, maxImpact: real, excluded: set<string>)
    ensures var all := EvaluateAll(listings, maxImpact, excluded);
            && multiset(Filter(all, IsSafe)) + multiset(Filter(all, IsSkipped)) == multiset(all)
            && forall c :: c in all ==> IsSkipped(c) == !IsSafe(c)
  {
    var all := EvaluateAll(listings, maxImpact, excluded);
    NoneDropped(listings, maxImpact, excluded);
    FiltersSplit(all);
    FilterExact(all, Dropped);
  }

  // ---- ranking ----

  function Staked(c: Candidate): int {
    if c.tokenOut == STAKED_CSPR then 1 else 0
  }

  /** The comparator puts a strictly before b. */
  predicate Better(a: Candidate, b: Candidate) {
    Staked(a) > Staked(b) || (Staked(a) == Staked(b) && a.apyBps > b.apyBps)
  }

  /** The staked pair before any other, then the higher estimated yield. */
  lemma BetterIff(a: Candidate, b: Candidate)
    ensures Better(a, b) <==>
            || (a.tokenOut == "sCSPR" && b.tokenOut != "sCSPR")
            || ((a.tokenOut == "sCSPR" <==> b.tokenOut == "sCSPR") && a.apyBps > b.apyBps)
  {
  }

  /** The engine's stable sort. */
  function Sort(cs: seq<Candidate>): (r: seq<Candidate>)
    ensures |r| == |cs|
  {
    if cs == [] then [] else Insert(cs[0], Sort(cs[1..]))
  }

  function Insert(c: Candidate, sorted: seq<Candidate>): (r: seq<Candidate>)
    ensures |r| == |sorted| + 1
  {
    if sorted == [] || !Better(sorted[0], c) then [c] + sorted else [sorted[0]] + Insert(c, sorted[1..])
  }

  /** The earliest candidate that none beats; every one before it is beaten by it. */
  ghost predicate FirstBest(cs: seq<Candidate>, best: Candidate) {
    exists i :: 0 <= i < |cs| && cs[i] == best &&
                (forall j :: 0 <= j < |cs| ==> !Better(cs[j], best)) &&
                (forall j :: 0 <= j < i ==> Better(best, cs[j]))
  }

  lemma {:induction false} SortPicksFirstBest(cs: seq<Candidate>)
    requires cs != []
    ensures FirstBest(cs, Sort(cs)[0])
  {
    if |cs| > 1 {
      SortPicksFirstBest(cs[1..]);
      var best' := Sort(cs[1..])[0];
      var i :| 0 <= i < |cs[1..]| && cs[1..][i] == best' &&
               (forall j :: 0 <= j < |cs[1..]| ==> !Better(cs[1..][j], best')) &&
               (forall j :: 0 <= j < i ==> Better(best', cs[1..][j]));
      var best := Sort(cs)[0];
      forall j | 0 <= j < |cs| ensures !Better(cs[j], best) {
        assert j > 0 ==> cs[j] == cs[1..][j - 1];
      }
      if Better(best', cs[0]) {
        assert cs[i + 1] == best;
        forall j | 0 <= j < i + 1 ensures Better(best, cs[j]) {
          assert j > 0 ==> cs[j] == cs[1..][j - 1];
        }
      } else {
        assert cs[0] == best;
      }
    } else {
      assert cs[0] == Sort(cs)[0];
    }
  }

  /** Staked if the other is, and of no lower yield where both or neither are. */
  predicate AtLeastAsGood(a: Candidate, b: Candidate) {
    && (b.tokenOut == "sCSPR" ==> a.tokenOut == "sCSPR")
    && ((a.tokenOut == "sCSPR" <==> b.tokenOut == "sCSPR") ==> b.apyBps <= a.apyBps)
  }

  lemma UnbeatenIsAsGood(cs: seq<Candidate>, best: Candidate)
    requires FirstBest(cs, best)
    ensures forall c :: c in cs ==> AtLeastAsGood(best, c)
  {
    forall c | c in cs ensures AtLeastAsGood(best, c) {
      assert !Better(c, best);
      BetterIff(c, best);
    }
  }

  /** In the comparator's order. */
  predicate Ranked(cs: seq<Candidate>) {
    forall i, j :: 0 <= i < j < |cs| ==> !Better(cs[j], cs[i])
  }

  /** `listings` is None when the exchange could not be reached. */
  method SelectBestPair(listings: Option<seq<Listing>>, maxImpact: real, excluded: set<string>)
    returns (selected: Option<Candidate>, candidates: seq<Candidate>)
    ensures listings == None ==> selected == None && candidates == []
    ensures listings.Some? ==>
              var all := EvaluateAll(listings.value, maxImpact, excluded);
              && candidates == Filter(all, IsSafe) + Filter(all, IsSkipped)
              && multiset(candidates) == multiset(all)
              && (selected == None <==> forall c :: c in all ==> !IsSafe(c))
              && (selected.Some? ==>
                    && IsSafe(selected.value) && FirstBest(Filter(all, IsSafe), selected.value)
                    && forall c :: c in all && IsSafe(c) ==> AtLeastAsGood(selected.value, c))
  {
    if listings == None {
      return None, [];
    }
    candidates := [];
    for i := 0 to |listings.value|
      invariant candidates == EvaluateAll(listings.value[..i], maxImpact, excluded)
    {
      assert listings.value[..i + 1][..i] == listings.value[..i];
      var l := listings.value[i];
      if l.tokenA == "" || l.tokenB == "" {
        continue;
      }
      if l.tokenA != "CSPR" && l.tokenB != "CSPR" {
        continue;
      }
      if l.tokenA + "/" + l.tokenB in excluded {
        continue;
      }
      candidates := candidates + [Evaluate(l, maxImpact)];
    }
    assert listings.value[..|listings.value|] == listings.value;
    var safe := Filter(candidates, IsSafe);
    FilterExact(candidates, IsSafe);
    FilterExact(candidates, IsSkipped);
    FilterPartitions(listings.value, maxImpact, excluded);
    var ranked := Sort(safe);
    if |ranked| == 0 {
      assert candidates == safe + Filter(candidates, IsSkipped);
      return None, candidates;
    }
    SortPicksFirstBest(safe);
    UnbeatenIsAsGood(safe, ranked[0]);
    assert ranked[0] in safe;
    selected := Some(ranked[0]);
    candidates := safe + Filter(candidates, IsSkipped);
  }

  // ---- when the returned list is ranked ----

  predicate Chosen(l: Listing, maxImpact: real, excluded: set<string>) {
    Considered(l, excluded) && Acceptable(l, maxImpact)
  }

  /** Of two listings the later one beats the earlier. */
  predicate Overtakes(late: Listing, early: Listing, maxImpact: real) {
    Better(Evaluate(late, maxImpact), Evaluate(early, maxImpact))
  }

  /** No acceptable listing beats an acceptable one listed before it. */
  predicate ListedInOrder(listings: seq<Listing>, maxImpact: real, excluded: set<string>) {
    forall i, j ::
      && 0 <= i < j < |listings|
      && Chosen(listings[i], maxImpact, excluded) && Chosen(listings[j], maxImpact, excluded) ==>
        !Overtakes(listings[j], listings[i], maxImpact)
  }

  function SafeOnes(listings: seq<Listing>, maxImpact: real, excluded: set<string>): seq<Candidate> {
    Filter(EvaluateAll(listings, maxImpact, excluded), IsSafe)
  }

  lemma SafeOnesStep(listings: seq<Listing>, l: Listing, maxImpact: real, excluded: set<string>)
    ensures SafeOnes(listings + [l], maxImpact, excluded)
         == SafeOnes(listings, maxImpact, excluded)
            + if Chosen(l, maxImpact, excluded) then [Evaluate(l, maxImpact)] else []
  {
    assert (listings + [l])[..|listings|] == listings;
    SafeIff(l, maxImpact);
    var before, c := EvaluateAll(listings, maxImpact, excluded), Evaluate(l, maxImpact);
    assert (before + [c])[..|before|] == before;
  }

  predicate BeatsNone(c: Candidate, cs: seq<Candidate>) {
    forall e :: e in cs ==> !Better(c, e)
  }

  predicate BeatsNoListing(c: Candidate, listings: seq<Listing>, maxImpact: real, excluded: set<string>) {
    forall i :: 0 <= i < |listings| && Chosen(listings[i], maxImpact, excluded) ==>
                  !Better(c, Evaluate(listings[i], maxImpact))
  }

  lemma {:induction false} BeatsNoneIff(c: Candidate, listings: seq<Listing>, maxImpact: real, excluded: set<string>)
    ensures BeatsNone(c, SafeOnes(listings, maxImpact, excluded)) <==> BeatsNoListing(c, listings, maxImpact, excluded)
  {
    if listings != [] {
      var before, l := listings[..|listings| - 1], listings[|listings| - 1];
      assert listings == before + [l];
      BeatsNoneIff(c, before, maxImpact, excluded);
      SafeOnesStep(before, l, maxImpact, excluded);
      assert BeatsNoListing(c, listings, maxImpact, excluded) <==>
             && BeatsNoListing(c, before, maxImpact, excluded)
             && (Chosen(l, maxImpact, excluded) ==> !Better(c, Evaluate(l, maxImpact)));
    }
  }

  lemma ListedInOrderStep(before: seq<Listing>, l: Listing, maxImpact: real, excluded: set<string>)
    ensures ListedInOrder(before + [l], maxImpact, excluded) <==>
            && ListedInOrder(before, maxImpact, excluded)
            && (Chosen(l, maxImpact, excluded) ==> BeatsNoListing(Evaluate(l, maxImpact), before, maxImpact, excluded))
  {
    var listings := before + [l];
    assert forall i :: 0 <= i < |before| ==> listings[i] == before[i];
    assert listings[|before|] == l;
  }

  /** The safe part of the list keeps the exchange's order, so it is ranked iff the exchange listed it in that order. */
  lemma {:induction false} RankedIff(listings: seq<Listing>, maxImpact: real, excluded: set<string>)
    ensures Ranked(SafeOnes(listings, maxImpact, excluded)) <==> ListedInOrder(listings, maxImpact, excluded)
  {
    if listings != [] {
      var before, l := listings[..|listings| - 1], listings[|listings| - 1];
      assert listings == before + [l];
      RankedIff(before, maxImpact, excluded);
      SafeOnesStep(before, l, maxImpact, excluded);
      ListedInOrderStep(before, l, maxImpact, excluded);
      if Chosen(l, maxImpact, excluded) {
        var c := Evaluate(l, maxImpact);
        RankedStep(SafeOnes(before, maxImpact, excluded), c);
        BeatsNoneIff(c, before, maxImpact, excluded);
      }
    }
  }

  lemma RankedStep(cs: seq<Candidate>, c: Candidate)
    ensures Ranked(cs + [c]) <==> Ranked(cs) && BeatsNone(c, cs)
  {
    var cs' := cs + [c];
    if Ranked(cs') {
      assert forall i :: 0 <= i < |cs| ==> cs[i] == cs'[i];
      assert cs'[|cs|] == c;
    }
  }

  /** Two listings that are not: the staked pair listed second. */
  lemma NotAlwaysRanked()
    ensures var listings := [Listing("CSPR", "A", Some(0.5), Proceed, 1000, 1000, 30, ""),
                             Listing("CSPR", "sCSPR", Some(0.5), Proceed, 1000, 1000, 30, "")];
            !Ranked(SafeOnes(listings, 1.0, {}))
  {
    var a := Listing("CSPR", "A", Some(0.5), Proceed, 1000, 1000, 30, "");
    var b := Listing("CSPR", "sCSPR", Some(0.5), Proceed, 1000, 1000, 30, "");
    RankedIff([a, b], 1.0, {});
    assert Overtakes([a, b][1], [a, b][0], 1.0);
    assert Chosen([a, b][0], 1.0, {}) && Chosen([a, b][1], 1.0, {});
  }
}
