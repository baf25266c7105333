/** Pass-3 confidence is the estimate itself, with no cap. */
module Confidence {
  import opened Prelude
  import opened Clauses
  import opened Similarity
  import opened Candidates
  import opened HeadingPass
  import opened Events
  import opened Align

  /** A pass-3 confidence exceeds 0.9 exactly when its estimate does. */
  lemma AboveCapIff(v1: seq<Candidate>, v2: seq<Candidate>, t: Tuning, p1: set<nat>, p2: set<nat>, p: Pair)
    requires 1 <= t.bands && t.threshold <= 1.0 && p in Pass3(v1, v2, t, p1, p2)
    ensures p.i < |v1| && p.j < |v2| && |v1[p.i].signature| == |v2[p.j].signature|
    ensures p.conf > PASS2_BASE_CONFIDENCE <==> Estimate(v1[p.i].signature, v2[p.j].signature) > PASS2_BASE_CONFIDENCE
  {
    hide Pass3, Estimate;
    Pass3Sound(v1, v2, t, p1, p2);
  }

  lemma EqualSimilar(s: seq<nat>, t: Tuning)
    requires ValidTuning(t) && |s| == t.signatureSize
    ensures AlikeEnough(s, s, t.bands, t.threshold) && Estimate(s, s) == 1.0
  {
    hide AlikeEnough, Estimate;
    var sigs := [s, s];
    BandingBound(sigs, t.bands, t.threshold, 0, 1);
    EstimateRange(s, s);
  }

  /** With different headings pass 2 makes no pair. */
  lemma NoAnchor(c1: Candidate, c2: Candidate, t: Tuning)
    requires 1 <= t.signatureSize && t.threshold <= 1.0
    requires Sized([c1], t.signatureSize) && Sized([c2], t.signatureSize) && c1.heading != c2.heading
    ensures Pass2([c1], [c2], t) == []
  {
    hide Pass2, Corroborated;
    var ps := Pass2([c1], [c2], t);
    assert |ps| > 0 ==> ps[0] in ps;
    Pass2Sound([c1], [c2], t);
  }

  /** A single similar pair of open positions is made, with its estimate as confidence. */
  lemma OnlyPairMade(c1: Candidate, c2: Candidate, t: Tuning)
    requires 1 <= t.bands && t.threshold <= 1.0 && c1.shingled && c2.shingled && Similar([c1], [c2], t, 0, 0)
    requires |c1.signature| == |c2.signature| && Estimate(c1.signature, c2.signature) > 0.0
    ensures Pair(Estimate(c1.signature, c2.signature), 0, 0) in Pass3([c1], [c2], t, {}, {})
  {
    hide Estimate, Pass3, Similar;
    var p := Pair(Estimate(c1.signature, c2.signature), 0, 0);
    var ps := Pass3([c1], [c2], t, {}, {});
    assert Rival([c1], [c2], t, {}, {}, [p]);
    Pass3Optimal([c1], [c2], t, {}, {}, [p]);
    TotalOfOne(p);
    Pass3Sound([c1], [c2], t, {}, {});
    if ps != [] {
      assert ps[0] in ps && ps[0] == p;
    }
  }

  lemma TotalOfOne(p: Pair)
    ensures TotalConfidence([p]) == p.conf && TotalConfidence([]) == 0.0
  {
    assert [p][1..] == [];
  }

  /** The event of a lone old and a lone new clause that only pass 3 can pair. */
  lemma LonePairEvent(c1: Candidate, c2: Candidate, t: Tuning)
    requires ValidTuning(t) && Sized([c1], t.signatureSize) && Sized([c2], t.signatureSize)
    requires c1.shingled && c2.shingled && c1.heading != c2.heading && (c1.path != c2.path || c1.body != c2.body)
    requires |c1.signature| == |c2.signature| && AlikeEnough(c1.signature, c2.signature, t.bands, t.threshold)
    ensures ChangeEvent(if c1.body == c2.body then Moved else Modified, Some(c1.path), Some(c2.path), Some(c1.body), Some(c2.body),
                        Estimate(c1.signature, c2.signature)) in Aligned([c1], [c2], t)
  {
    hide Pass2, Pass3, Aligned, AlikeEnough, Estimate;
    AlikeIff(c1.signature, c2.signature, t.bands, t.threshold);
    var p := Pair(Estimate(c1.signature, c2.signature), 0, 0);
    var e := ChangeEvent(if c1.body == c2.body then Moved else Modified, Some(c1.path), Some(c2.path), Some(c1.body), Some(c2.body), p.conf);
    NoAnchor(c1, c2, t);
    OnlyPairMade(c1, c2, t);
    assert Lefts([]) == {} && Rights([]) == {};
    assert p in MakePairs([c1], [c2], t);
    assert IsEventOf([c1], [c2], p, e);
    EventOrigin([c1], [c2], t, e);
  }

  /** Pass 3 needs no equal text: two long clauses under different headings whose signatures agree on a
      whole band and on enough positions are reported as one modification, with the share of equal
      positions as its confidence. */
  lemma ModifiedAtShare(before: Clause, after: Clause, t: Tuning)
    requires ValidTuning(t) && before.body != after.body
    requires |Tokens(before.body)| >= t.shingleK && |Tokens(after.body)| >= t.shingleK
    requires before.heading != after.heading
    requires var a, b := t.minhash(Shingles(before.body, t.shingleK)), t.minhash(Shingles(after.body, t.shingleK));
      && |a| == |b| && (exists band: nat :: band < t.bands && AgreeOnBand(a, b, |a| / t.bands, band))
      && |set k | 0 <= k < |a| && a[k] == b[k]| as real >= t.threshold * |a| as real
    ensures var v1, v2 := [CandidateOf(before, t)], [CandidateOf(after, t)];
      var a, b := t.minhash(Shingles(before.body, t.shingleK)), t.minhash(Shingles(after.body, t.shingleK));
      && Sized(v1, t.signatureSize) && Sized(v2, t.signatureSize) && |a| == |b| > 0
      && ChangeEvent(Modified, Some(before.path), Some(after.path), Some(before.body), Some(after.body),
                     |set k | 0 <= k < |a| && a[k] == b[k]| as real / |a| as real) in Aligned(v1, v2, t)
  {
    hide Aligned, Estimate, Tokens, AgreeOnBand;
    var c1, c2 := CandidateOf(before, t), CandidateOf(after, t);
    LonePairEvent(c1, c2, t);
    EstimateIsShare(c1.signature, c2.signature, t.threshold);
  }

  /** A witness against the cap: a long clause that keeps its text and changes heading and place is
      reported as moved with confidence 1. */
  lemma MovedAtFullConfidence(before: Clause, after: Clause, t: Tuning)
    requires ValidTuning(t) && before.body == after.body && |Tokens(before.body)| >= t.shingleK
    requires before.heading != after.heading && before.path != after.path
    ensures var v1, v2 := [CandidateOf(before, t)], [CandidateOf(after, t)];
      && Sized(v1, t.signatureSize) && Sized(v2, t.signatureSize)
      && ChangeEvent(Moved, Some(before.path), Some(after.path), Some(before.body), Some(after.body), 1.0) in Aligned(v1, v2, t)
  {
    hide Aligned, AlikeEnough, Estimate, Tokens;
    var c1, c2 := CandidateOf(before, t), CandidateOf(after, t);
    EqualSimilar(c1.signature, t);
    LonePairEvent(c1, c2, t);
  }
}
