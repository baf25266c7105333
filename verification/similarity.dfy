/** Shingles, signature agreement, and banded candidate enumeration. */
module Similarity {
  import opened Prelude
  import opened Text

  /** Similarity-stack configuration. `minhash` stands for the MinHash library: any function
      from shingle sets to signatures. */
  datatype Tuning = Tuning(
    shingleK: nat,
    signatureSize: nat,
    bands: nat,
    threshold: real,
    minhash: set<string> -> seq<nat>)

  /** The ranges the configuration model validates, and the one promise of the MinHash library. */
  ghost predicate ValidTuning(t: Tuning) {
    && 1 <= t.shingleK && 1 <= t.signatureSize && 1 <= t.bands
    && t.signatureSize % t.bands == 0
    && 0.0 < t.threshold <= 1.0
    && forall s :: |t.minhash(s)| == t.signatureSize
  }

  // ----- shingles -----

  /** `text.split()`: the maximal whitespace-free words. */
  function Tokens(text: string): seq<string> {
    Runs(text, InWord)
  }

  /** The word `k`-shingles of `text`: none exactly when the text has fewer than `k` words. */
  function Shingles(text: string, k: nat): (r: set<string>)
    requires 1 <= k
    ensures r == {} <==> |Tokens(text)| < k
  {
    var tokens := Tokens(text);
    var r := set i | 0 <= i < |tokens| - k + 1 :: Gram(tokens, i, k);
    assert |tokens| >= k ==> Gram(tokens, 0, k) in r;
    r
  }

  /** The `k` words from position `i`, joined by single spaces. */
  function Gram(tokens: seq<string>, i: nat, k: nat): string
    requires i + k <= |tokens|
  {
    Join(tokens[i..i + k], ' ')
  }

  /** The pieces of `gram` between single spaces are the `k` words from position `i`. */
  predicate SpellsGram(tokens: seq<string>, i: nat, k: nat, gram: string) {
    i + k <= |tokens| && Split(gram, ' ') == tokens[i..i + k]
  }

  /** A string is a shingle exactly when its pieces are `k` consecutive words of the text. */
  lemma ShingleIff(text: string, k: nat, gram: string)
    requires 1 <= k
    ensures gram in Shingles(text, k) <==>
      exists i: nat :: SpellsGram(Tokens(text), i, k, gram)
  {
    hide Runs, Split, Join, AllIn;
    var tokens := Tokens(text);
    RunsPlain(text, InWord);
    if gram in Shingles(text, k) {
      var i :| 0 <= i < |tokens| - k + 1 && gram == Gram(tokens, i, k);
      SplitGram(tokens, i, k);
      assert SpellsGram(tokens, i, k, gram);
    }
    if i: nat :| SpellsGram(tokens, i, k, gram) {
      JoinOfSplit(gram, ' ');
      GramIn(text, i, k);
    }
  }

  lemma GramIn(text: string, i: nat, k: nat)
    requires 1 <= k && i + k <= |Tokens(text)|
    ensures Gram(Tokens(text), i, k) in Shingles(text, k)
  {
    hide Runs, Gram;
    var tokens := Tokens(text);
    var grams := set x | 0 <= x < |tokens| - k + 1 :: Gram(tokens, x, k);
    assert Gram(tokens, i, k) in grams;
  }

  lemma SplitGram(tokens: seq<string>, i: nat, k: nat)
    requires 1 <= k && i + k <= |tokens| && forall x :: 0 <= x < |tokens| ==> AllIn(tokens[x], InWord)
    ensures Split(Gram(tokens, i, k), ' ') == tokens[i..i + k]
  {
    hide Split, Join;
    var part := tokens[i..i + k];
    forall p | p in part
      ensures ' ' !in p
    {
      var x :| 0 <= x < |part| && part[x] == p;
      assert AllIn(tokens[i + x], InWord);
    }
    SplitOfJoin(part, ' ');
  }

  // ----- agreement -----

  /** Number of positions where the signatures agree. */
  function Agreement(a: seq<nat>, b: seq<nat>): (n: nat)
    requires |a| == |b|
    ensures n <= |a|
    ensures n == |a| <==> a == b
  {
    if a == [] then 0 else
      assert a == [a[0]] + a[1..] && b == [b[0]] + b[1..];
      (if a[0] == b[0] then 1 else 0) + Agreement(a[1..], b[1..])
  }

  /** Fraction of agreeing positions. */
  function Estimate(a: seq<nat>, b: seq<nat>): real
    requires |a| == |b|
  {
    if a == [] then 1.0 else Agreement(a, b) as real / |a| as real
  }

  lemma {:induction false} AgreementSymmetric(a: seq<nat>, b: seq<nat>)
    requires |a| == |b|
    ensures Agreement(a, b) == Agreement(b, a)
  {
    if a != [] {
      AgreementSymmetric(a[1..], b[1..]);
    }
  }

  lemma FactorNonNegative(a: real, y: real)
    requires 0.0 < y && 0.0 <= a * y
    ensures 0.0 <= a
  {
  }

  lemma FactorZero(a: real, y: real)
    requires 0.0 < y && a * y == 0.0
    ensures a == 0.0
  {
  }

  lemma RatioRange(n: nat, m: nat)
    requires n <= m && 0 < m
    ensures 0.0 <= n as real / m as real <= 1.0
    ensures n as real / m as real == 1.0 <==> n == m
  {
    var x, y := n as real, m as real;
    var q := x / y;
    assert q * y == x;
    FactorNonNegative(q, y);
    assert (1.0 - q) * y == y - x;
    FactorNonNegative(1.0 - q, y);
    if n == m {
      FactorZero(1.0 - q, y);
    }
    assert q == 1.0 ==> x == y;
  }

  /** The estimate lies in [0, 1], is symmetric, and is 1 exactly for equal signatures. */
  lemma EstimateRange(a: seq<nat>, b: seq<nat>)
    requires |a| == |b|
    ensures 0.0 <= Estimate(a, b) <= 1.0
    ensures Estimate(a, b) == Estimate(b, a)
    ensures Estimate(a, b) == 1.0 <==> a == b
  {
    AgreementSymmetric(a, b);
    if a != [] {
      RatioRange(Agreement(a, b), |a|);
    }
  }

  /** The positions below `n` where both signatures hold the same value, counted. */
  lemma {:induction false} AgreementBelow(a: seq<nat>, b: seq<nat>, n: nat)
    requires |a| == |b| && n <= |a|
    ensures |set k | 0 <= k < n && a[k] == b[k]| == Agreement(a[..n], b[..n])
  {
    if n > 0 {
      AgreementBelow(a, b, n - 1);
      AgreementSnoc(a, b, n - 1);
      CountSnoc(a, b, n - 1);
    }
  }

  lemma CountSnoc(a: seq<nat>, b: seq<nat>, n: nat)
    requires |a| == |b| && n < |a|
    ensures |set k | 0 <= k < n + 1 && a[k] == b[k]|
      == |set k | 0 <= k < n && a[k] == b[k]| + if a[n] == b[n] then 1 else 0
  {
    var before := set k | 0 <= k < n && a[k] == b[k];
    assert (set k | 0 <= k < n + 1 && a[k] == b[k]) == if a[n] == b[n] then before + {n} else before;
  }

  lemma AgreementSnoc(a: seq<nat>, b: seq<nat>, n: nat)
    requires |a| == |b| && n < |a|
    ensures Agreement(a[..n + 1], b[..n + 1]) == Agreement(a[..n], b[..n]) + if a[n] == b[n] then 1 else 0
  {
    AgreementSplit(a[..n + 1], b[..n + 1], n);
    assert a[..n + 1][..n] == a[..n] && b[..n + 1][..n] == b[..n];
    assert a[..n + 1][n..] == [a[n]] && b[..n + 1][n..] == [b[n]];
    AgreementOfOne(a[n], b[n]);
  }

  lemma AgreementOfOne(x: nat, y: nat)
    ensures Agreement([x], [y]) == if x == y then 1 else 0
  {
    assert [x][1..] == [] && [y][1..] == [];
  }

  /** Agreement is the number of positions where the signatures are equal. */
  lemma AgreementCounts(a: seq<nat>, b: seq<nat>)
    requires |a| == |b|
    ensures Agreement(a, b) == |set k | 0 <= k < |a| && a[k] == b[k]|
  {
    AgreementBelow(a, b, |a|);
    assert a[..|a|] == a && b[..|b|] == b;
  }

  lemma RatioTimes(x: real, y: real)
    requires 0.0 < y
    ensures x / y * y == x
  {
  }

  /** The estimate is the share of equal positions; it reaches a threshold exactly when their number
      reaches that part of the length. */
  lemma EstimateIsShare(a: seq<nat>, b: seq<nat>, threshold: real)
    requires |a| == |b| && threshold <= 1.0
    ensures a != [] ==> Estimate(a, b) == |set k | 0 <= k < |a| && a[k] == b[k]| as real / |a| as real
    ensures a != [] ==> Estimate(a, b) * |a| as real == |set k | 0 <= k < |a| && a[k] == b[k]| as real
    ensures a == [] ==> Estimate(a, b) == 1.0
    ensures Estimate(a, b) >= threshold <==>
      |set k | 0 <= k < |a| && a[k] == b[k]| as real >= threshold * |a| as real
  {
    hide Estimate, Agreement;
    AgreementCounts(a, b);
    EstimateReaches(a, b, threshold);
  }

  lemma EstimateReaches(a: seq<nat>, b: seq<nat>, threshold: real)
    requires |a| == |b| && threshold <= 1.0
    ensures a != [] ==> Estimate(a, b) == Agreement(a, b) as real / |a| as real
    ensures a != [] ==> Estimate(a, b) * |a| as real == Agreement(a, b) as real
    ensures a == [] ==> Estimate(a, b) == 1.0
    ensures Estimate(a, b) >= threshold <==> Agreement(a, b) as real >= threshold * |a| as real
  {
    hide Agreement;
    var x, m := Agreement(a, b) as real, |a| as real;
    if a == [] {
      assert m == 0.0 && threshold * 0.0 == 0.0;
    } else {
      RatioTimes(x, m);
      RatioReaches(Estimate(a, b), x, m, threshold);
    }
  }

  lemma RatioReaches(q: real, x: real, m: real, t: real)
    requires 0.0 < m && q * m == x
    ensures q >= t <==> x >= t * m
  {
    assert (q - t) * m == x - t * m;
    if x >= t * m {
      FactorNonNegative(q - t, m);
    }
    if q >= t {
      ProductNonNegative(q - t, m);
    }
  }

  lemma ProductNonNegative(a: real, y: real)
    requires 0.0 <= a && 0.0 <= y
    ensures 0.0 <= a * y
  {
  }

  /** The public estimator, which refuses signatures of different lengths. */
  function Jaccard(a: seq<nat>, b: seq<nat>): Result<real, string> {
    if |a| != |b| then Err("signature lengths differ") else Ok(Estimate(a, b))
  }

  // ----- banding -----

  function Take(s: seq<nat>, n: nat): (r: seq<nat>) {
    if n <= |s| then s[..n] else s
  }

  function Drop(s: seq<nat>, n: nat): (r: seq<nat>) {
    if n <= |s| then s[n..] else []
  }

  /** One of the first `n` consecutive bands of `rows` entries is the same on both sides. */
  predicate SharesRows(a: seq<nat>, b: seq<nat>, rows: nat, n: nat)
    decreases n
  {
    n > 0 && (Take(a, rows) == Take(b, rows) || SharesRows(Drop(a, rows), Drop(b, rows), rows, n - 1))
  }

  /** The index reports two signatures when they agree on one whole band out of `bands`. */
  predicate SharesBand(a: seq<nat>, b: seq<nat>, bands: nat)
    requires 1 <= bands
  {
    SharesRows(a, b, |a| / bands, bands)
  }

  /** The signatures agree on the whole of band number `band`, which holds `rows` entries. */
  predicate AgreeOnBand(a: seq<nat>, b: seq<nat>, rows: nat, band: nat)
    requires |a| == |b|
  {
    forall k: nat :: band * rows <= k < band * rows + rows && k < |a| ==> a[k] == b[k]
  }

  /** Two signatures share a band exactly when there is one whose entries all agree. */
  lemma SharesBandIff(a: seq<nat>, b: seq<nat>, bands: nat)
    requires |a| == |b| && 1 <= bands
    ensures SharesBand(a, b, bands) <==> exists band: nat :: band < bands && AgreeOnBand(a, b, |a| / bands, band)
  {
    SharesRowsIff(a, b, |a| / bands, bands);
  }

  lemma {:induction false} SharesRowsIff(a: seq<nat>, b: seq<nat>, rows: nat, n: nat)
    requires |a| == |b|
    ensures SharesRows(a, b, rows, n) <==> exists band: nat :: band < n && AgreeOnBand(a, b, rows, band)
    decreases n
  {
    hide AgreeOnBand;
    if n > 0 {
      var a', b' := Drop(a, rows), Drop(b, rows);
      SharesRowsIff(a', b', rows, n - 1);
      FirstBand(a, b, rows);
      forall band: nat
        ensures AgreeOnBand(a, b, rows, band + 1) <==> AgreeOnBand(a', b', rows, band)
      {
        LaterBand(a, b, rows, band);
      }
      if band: nat :| band < n - 1 && AgreeOnBand(a', b', rows, band) {
        assert AgreeOnBand(a, b, rows, band + 1);
      }
      if band: nat :| 0 < band < n && AgreeOnBand(a, b, rows, band) {
        assert AgreeOnBand(a, b, rows, band - 1 + 1);
        assert AgreeOnBand(a', b', rows, band - 1);
      }
    }
  }

  lemma FirstBand(a: seq<nat>, b: seq<nat>, rows: nat)
    requires |a| == |b|
    ensures Take(a, rows) == Take(b, rows) <==> AgreeOnBand(a, b, rows, 0)
  {
    if Take(a, rows) == Take(b, rows) {
      forall k: nat | k < rows && k < |a|
        ensures a[k] == b[k]
      {
        assert Take(a, rows)[k] == Take(b, rows)[k];
      }
    }
  }

  lemma LaterBand(a: seq<nat>, b: seq<nat>, rows: nat, band: nat)
    requires |a| == |b|
    ensures |Drop(a, rows)| == |Drop(b, rows)|
    ensures AgreeOnBand(a, b, rows, band + 1) <==> AgreeOnBand(Drop(a, rows), Drop(b, rows), rows, band)
  {
    var a', b' := Drop(a, rows), Drop(b, rows);
    Distribute(band, rows);
    if AgreeOnBand(a, b, rows, band + 1) {
      forall k: nat | band * rows <= k < band * rows + rows && k < |a'|
        ensures a'[k] == b'[k]
      {
        assert a'[k] == a[rows + k] && b'[k] == b[rows + k];
      }
    }
    if AgreeOnBand(a', b', rows, band) {
      forall k: nat | (band + 1) * rows <= k < (band + 1) * rows + rows && k < |a|
        ensures a[k] == b[k]
      {
        BandsAreLater(band, rows);
        assert a'[k - rows] == a[k] && b'[k - rows] == b[k];
      }
    }
  }

  lemma BandsAreLater(band: nat, rows: nat)
    ensures band * rows >= 0
  {
  }

  predicate SameLengths(sigs: seq<seq<nat>>) {
    forall k :: 0 <= k < |sigs| ==> |sigs[k]| == |sigs[0]|
  }

  /** What the arguments must satisfy for enumeration not to raise. */
  predicate Accepts(sigs: seq<seq<nat>>, bands: int, threshold: real) {
    && 1 <= bands
    && 0.0 <= threshold <= 1.0
    && (sigs != [] ==> SameLengths(sigs) && |sigs[0]| % bands == 0)
  }

  /** The pairs enumeration promises: lower position first, some band on which both signatures agree
      throughout, and at least the threshold's share of equal positions. */
  ghost predicate IsCandidate(sigs: seq<seq<nat>>, bands: int, threshold: real, lo: nat, hi: nat)
    requires 1 <= bands && SameLengths(sigs)
  {
    && lo < hi < |sigs|
    && |sigs[lo]| == |sigs[0]| == |sigs[hi]|
    && AlikeEnough(sigs[lo], sigs[hi], bands, threshold)
  }

  ghost predicate AlikeEnough(a: seq<nat>, b: seq<nat>, bands: nat, threshold: real)
    requires 1 <= bands && |a| == |b|
  {
    && (exists band: nat :: band < bands && AgreeOnBand(a, b, |a| / bands, band))
    && |set k | 0 <= k < |a| && a[k] == b[k]| as real >= threshold * |a| as real
  }

  /** Being alike enough is what the index and the filter test together. */
  lemma AlikeIff(a: seq<nat>, b: seq<nat>, bands: nat, threshold: real)
    requires 1 <= bands && |a| == |b| && threshold <= 1.0
    ensures AlikeEnough(a, b, bands, threshold) <==> SharesBand(a, b, bands) && Estimate(a, b) >= threshold
  {
    hide Estimate, AgreeOnBand, SharesBand;
    SharesBandIff(a, b, bands);
    EstimateIsShare(a, b, threshold);
  }

  /** The index query: the positions that share a band with position `i`, in no promised order. */
  method QueryIndex(sigs: seq<seq<nat>>, bands: nat, i: nat) returns (hits: seq<nat>)
    requires 1 <= bands && i < |sigs| && SameLengths(sigs)
    ensures forall j: nat :: j in hits <==> j < |sigs| && SharesBand(sigs[i], sigs[j], bands)
    ensures NoDuplicates(hits)
  {
    hits := [];
    for j := 0 to |sigs|
      invariant forall x: nat :: x in hits <==> x < j && SharesBand(sigs[i], sigs[x], bands)
      invariant NoDuplicates(hits)
    {
      assert |sigs[i]| == |sigs[j]|;
      if SharesBand(sigs[i], sigs[j], bands) {
        hits := hits + [j];
      }
    }
  }

  /** Banded candidate enumeration: raises exactly on bad arguments; otherwise lists every
      promised pair, and no other, exactly once. Pairs are positions in `sigs`. */
  method LshCandidates(sigs: seq<seq<nat>>, bands: int, threshold: real)
      returns (r: Result<seq<(nat, nat)>, string>)
    ensures r.Ok? <==> Accepts(sigs, bands, threshold)
    ensures r.Ok? ==> NoDuplicates(r.value)
    ensures r.Ok? ==> forall lo: nat, hi: nat :: (lo, hi) in r.value <==> IsCandidate(sigs, bands, threshold, lo, hi)
  {
    if bands < 1 {
      return Err("bands must be >= 1");
    }
    if !(0.0 <= threshold <= 1.0) {
      return Err("threshold must be in [0, 1]");
    }
    if sigs == [] {
      return Ok([]);
    }
    if !SameLengths(sigs) {
      return Err("all signatures must have the same length");
    }
    if |sigs[0]| % bands != 0 {
      return Err("signature_size is not divisible by bands");
    }
    var out := EnumeratePairs(sigs, bands, threshold);
    return Ok(out);
  }

  /** `seen` holds pairs that share a band, among them every such pair with a lower position
      below `i`; `out` holds the candidates among them, once each. */
  ghost predicate Enumerated(sigs: seq<seq<nat>>, bands: nat, threshold: real, i: nat,
                       seen: set<(nat, nat)>, out: seq<(nat, nat)>)
    requires 1 <= bands && SameLengths(sigs)
  {
    && NoDuplicates(out)
    && (forall p :: p in out ==> p in seen)
    && (forall p :: p in seen ==> p.0 < p.1 < |sigs|)
    && (forall p :: p in seen ==> (p in out <==> IsCandidate(sigs, bands, threshold, p.0, p.1)))
    && (forall lo: nat, hi: nat ::
          lo < hi < |sigs| && lo < i && SharesBand(sigs[lo], sigs[hi], bands) ==> (lo, hi) in seen)
  }

  lemma EnumeratedAdd(sigs: seq<seq<nat>>, bands: nat, threshold: real, i: nat,
                      seen: set<(nat, nat)>, out: seq<(nat, nat)>, lo: nat, hi: nat)
    requires 1 <= bands && SameLengths(sigs) && lo < hi < |sigs| && (lo, hi) !in seen
    requires Enumerated(sigs, bands, threshold, i, seen, out)
    ensures var out' := if IsCandidate(sigs, bands, threshold, lo, hi) then out + [(lo, hi)] else out;
      Enumerated(sigs, bands, threshold, i, seen + {(lo, hi)}, out')
  {
  }

  /** Handles the index hits of position `i`: the inner loop of the enumeration. */
  method VisitHits(sigs: seq<seq<nat>>, bands: nat, threshold: real, i: nat, hits: seq<nat>,
                   seen0: set<(nat, nat)>, out0: seq<(nat, nat)>)
      returns (seen: set<(nat, nat)>, out: seq<(nat, nat)>)
    requires 1 <= bands && threshold <= 1.0 && SameLengths(sigs) && i < |sigs|
    requires forall j: nat :: j in hits <==> j < |sigs| && SharesBand(sigs[i], sigs[j], bands)
    requires Enumerated(sigs, bands, threshold, i, seen0, out0)
    ensures Enumerated(sigs, bands, threshold, i + 1, seen, out)
  {
    hide SharesBand, IsCandidate, Estimate;
    seen, out := seen0, out0;
    for k := 0 to |hits|
      invariant Enumerated(sigs, bands, threshold, i, seen, out)
      invariant forall x :: 0 <= x < k && i < hits[x] ==> (i, hits[x]) in seen
    {
      var j := hits[k];
      assert j in hits;
      if j == i {
        continue;
      }
      var lo, hi := if i < j then i else j, if i < j then j else i;
      if (lo, hi) in seen {
        continue;
      }
      HitIsCandidate(sigs, bands, threshold, i, j);
      EnumeratedAdd(sigs, bands, threshold, i, seen, out, lo, hi);
      var est := Jaccard(sigs[lo], sigs[hi]);
      seen := seen + {(lo, hi)};
      if est.value >= threshold {
        out := out + [(lo, hi)];
      }
    }
    forall hi: nat | i < hi < |sigs| && SharesBand(sigs[i], sigs[hi], bands)
      ensures (i, hi) in seen
    {
      assert hi in hits;
    }
  }

  lemma HitIsCandidate(sigs: seq<seq<nat>>, bands: nat, threshold: real, i: nat, j: nat)
    requires 1 <= bands && threshold <= 1.0 && SameLengths(sigs) && i < |sigs| && j < |sigs| && i != j
    requires SharesBand(sigs[i], sigs[j], bands)
    ensures |sigs[i]| == |sigs[j]|
    ensures var lo, hi := if i < j then i else j, if i < j then j else i;
      IsCandidate(sigs, bands, threshold, lo, hi) <==> Estimate(sigs[lo], sigs[hi]) >= threshold
  {
    assert |sigs[i]| == |sigs[0]| == |sigs[j]|;
    SharesRowsSymmetric(sigs[i], sigs[j], |sigs[0]| / bands, bands);
    AlikeIff(sigs[i], sigs[j], bands, threshold);
    AlikeIff(sigs[j], sigs[i], bands, threshold);
  }

  /** The nested enumeration behind `LshCandidates`. */
  method EnumeratePairs(sigs: seq<seq<nat>>, bands: nat, threshold: real) returns (out: seq<(nat, nat)>)
    requires 1 <= bands && threshold <= 1.0 && sigs != [] && SameLengths(sigs)
    ensures NoDuplicates(out)
    ensures forall lo: nat, hi: nat :: (lo, hi) in out <==> IsCandidate(sigs, bands, threshold, lo, hi)
  {
    out := [];
    var seen: set<(nat, nat)> := {};
    for i := 0 to |sigs|
      invariant Enumerated(sigs, bands, threshold, i, seen, out)
    {
      var hits := QueryIndex(sigs, bands, i);
      seen, out := VisitHits(sigs, bands, threshold, i, hits, seen, out);
    }
    forall lo: nat, hi: nat
      ensures (lo, hi) in out <==> IsCandidate(sigs, bands, threshold, lo, hi)
    {
      if lo < hi < |sigs| {
        assert |sigs[lo]| == |sigs[0]| == |sigs[hi]|;
        AlikeIff(sigs[lo], sigs[hi], bands, threshold);
      }
      if (lo, hi) in out {
        assert (lo, hi) in seen;
      }
    }
  }

  lemma {:induction false} SharesRowsSymmetric(a: seq<nat>, b: seq<nat>, rows: nat, n: nat)
    ensures SharesRows(a, b, rows, n) <==> SharesRows(b, a, rows, n)
    decreases n
  {
    if n > 0 {
      SharesRowsSymmetric(Drop(a, rows), Drop(b, rows), rows, n - 1);
    }
  }

  // ----- the banding guarantee -----

  lemma {:induction false} AgreementSplit(a: seq<nat>, b: seq<nat>, n: nat)
    requires |a| == |b| && n <= |a|
    ensures Agreement(a, b) == Agreement(a[..n], b[..n]) + Agreement(a[n..], b[n..])
  {
    if n == 0 {
      assert a[..0] == [] && b[..0] == [] && a[0..] == a && b[0..] == b;
    } else {
      AgreementSplit(a[1..], b[1..], n - 1);
      assert a[..n][1..] == a[1..][..n - 1] && b[..n][1..] == b[1..][..n - 1];
      assert a[n..] == a[1..][n - 1..] && b[n..] == b[1..][n - 1..];
    }
  }

  /** Pigeonhole: if no band of the first `n` is shared, there are at least `n` disagreements. */
  lemma {:induction false} NoSharedBandDisagrees(a: seq<nat>, b: seq<nat>, rows: nat, n: nat)
    requires |a| == |b| && !SharesRows(a, b, rows, n)
    ensures |a| - Agreement(a, b) >= n
    decreases n
  {
    if n > 0 {
      assert Take(a, rows) != Take(b, rows);
      if rows <= |a| {
        AgreementSplit(a, b, rows);
        NoSharedBandDisagrees(a[rows..], b[rows..], rows, n - 1);
      } else {
        assert !SharesRows([], [], rows, n - 1);
        NoSharedBandDisagrees([], [], rows, n - 1);
        assert n == 1;
      }
    }
  }

  /** A signature that differs from `s` in the first entry of each of its first `n` bands. */
  function Perturb(s: seq<nat>, rows: nat, n: nat): (r: seq<nat>)
    ensures |r| == |s|
    decreases n
  {
    if n == 0 || rows == 0 || |s| < rows then s
    else [s[0] + 1] + s[1..rows] + Perturb(s[rows..], rows, n - 1)
  }

  lemma {:induction false} PerturbMisses(s: seq<nat>, rows: nat, n: nat)
    requires 1 <= rows && rows * n <= |s|
    ensures Agreement(s, Perturb(s, rows, n)) == |s| - n
    ensures !SharesRows(s, Perturb(s, rows, n), rows, n)
    decreases n
  {
    var r := Perturb(s, rows, n);
    if n == 0 {
      assert Agreement(s, s) == |s|;
    } else {
      assert rows * n == rows + rows * (n - 1);
      assert 0 <= rows * (n - 1);
      PerturbMisses(s[rows..], rows, n - 1);
      AgreementSplit(s, r, rows);
      assert r[rows..] == Perturb(s[rows..], rows, n - 1);
      assert s[..rows][1..] == s[1..rows] == r[..rows][1..];
      assert s[..rows][0] != r[..rows][0];
    }
  }

  lemma ExactDivision(n: nat, d: nat)
    requires 1 <= d && n % d == 0
    ensures n / d * d == n
    ensures d <= n ==> 1 <= n / d
  {
  }

  /** The banding guarantee and its sharpness. Any two signatures with fewer than `bands`
      disagreements and an estimate at or above the threshold are candidates, so equal
      signatures are never missed; and from every signature one can reach another by exactly
      `bands` disagreements that the index never reports, whatever the threshold. */
  lemma BandingBound(sigs: seq<seq<nat>>, bands: nat, threshold: real, lo: nat, hi: nat)
    requires Accepts(sigs, bands, threshold) && lo < hi < |sigs|
    ensures |sigs[lo]| == |sigs[hi]|
    ensures var n := |set k | 0 <= k < |sigs[lo]| && sigs[lo][k] == sigs[hi][k]|;
      |sigs[lo]| - n < bands && n as real >= threshold * |sigs[lo]| as real ==> IsCandidate(sigs, bands, threshold, lo, hi)
    ensures sigs[lo] == sigs[hi] ==> IsCandidate(sigs, bands, threshold, lo, hi)
    ensures bands <= |sigs[lo]| ==> exists other: seq<nat> ::
      && |other| == |sigs[lo]| && |set k | 0 <= k < |sigs[lo]| && sigs[lo][k] == other[k]| == |other| - bands
      && forall band: nat :: band < bands ==> !AgreeOnBand(sigs[lo], other, |other| / bands, band)
  {
    hide Estimate, Agreement, SharesBand, AlikeEnough, AgreeOnBand;
    var a, b := sigs[lo], sigs[hi];
    assert |a| == |sigs[0]| == |b|;
    AlikeIff(a, b, bands, threshold);
    FewDisagreements(a, b, bands);
    EstimateIsShare(a, b, threshold);
    EstimateRange(a, b);
    if bands <= |a| {
      var other := OneMissPerBand(a, bands);
    }
  }

  /** With fewer disagreements than bands, some band has none. */
  lemma FewDisagreements(a: seq<nat>, b: seq<nat>, bands: nat)
    requires |a| == |b| && 1 <= bands
    ensures |a| - |set k | 0 <= k < |a| && a[k] == b[k]| < bands ==> SharesBand(a, b, bands)
    ensures a == b ==> SharesBand(a, b, bands)
  {
    hide Agreement, SharesRows;
    if !SharesBand(a, b, bands) {
      NoSharedBandDisagrees(a, b, |a| / bands, bands);
    }
    AgreementCounts(a, b);
  }

  /** One disagreement per band is enough to share none. */
  lemma OneMissPerBand(a: seq<nat>, bands: nat) returns (other: seq<nat>)
    requires 1 <= bands <= |a| && |a| % bands == 0
    ensures |other| == |a| && |set k | 0 <= k < |a| && a[k] == other[k]| == |a| - bands
    ensures forall band: nat :: band < bands ==> !AgreeOnBand(a, other, |a| / bands, band)
  {
    hide AgreeOnBand, Agreement, Perturb, SharesRows;
    var rows := |a| / bands;
    ExactDivision(|a|, bands);
    PerturbMisses(a, rows, bands);
    other := Perturb(a, rows, bands);
    SharesBandIff(a, other, bands);
    AgreementCounts(a, other);
  }
}
