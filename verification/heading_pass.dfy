/** Pass 2: anchor equality corroborated by content, assigned greedily from the strongest pair
    down. Its outcome is the one stable matching of the qualifying pairs. */
module HeadingPass {
  import opened Prelude
  import opened Similarity
  import opened Candidates

  /** A pairing of position `i` in the old version with position `j` in the new one. */
  datatype Pair = Pair(conf: real, i: nat, j: nat)

  const PASS2_BASE_CONFIDENCE: real := 0.9

  /** Both headed with the same heading, or both unheaded at the same path. */
  predicate SharesAnchor(c1: Candidate, c2: Candidate) {
    match (c1.heading, c2.heading)
    case (Some(h1), Some(h2)) => h1 == h2
    case (None, None) => c1.path == c2.path
    case _ => false
  }

  function Max(a: real, b: real): real {
    if a < b then b else a
  }

  /** Content corroboration: the estimate for two long bodies, exact equality for two short
      ones, nothing for a mixed pair. */
  function Pass2Confidence(c1: Candidate, c2: Candidate, t: Tuning): Option<real>
    requires |c1.signature| == |c2.signature|
  {
    if c1.shingled && c2.shingled then
      var est := Estimate(c1.signature, c2.signature);
      if est < t.threshold then None else Some(Max(PASS2_BASE_CONFIDENCE, est))
    else if c1.shingled || c2.shingled then None
    else if c1.body != c2.body then None
    else Some(PASS2_BASE_CONFIDENCE)
  }

  /** All signatures have length `n`. */
  ghost predicate Sized(cs: seq<Candidate>, n: nat) {
    forall k :: 0 <= k < |cs| ==> |cs[k].signature| == n
  }

  /** The pair `(i, j)` qualifies with confidence `conf`. */
  predicate Qualifies(v1: seq<Candidate>, v2: seq<Candidate>, t: Tuning, p: Pair) {
    && p.i < |v1| && p.j < |v2|
    && |v1[p.i].signature| == |v2[p.j].signature|
    && SharesAnchor(v1[p.i], v2[p.j])
    && Pass2Confidence(v1[p.i], v2[p.j], t) == Some(p.conf)
  }

  /** Lexicographic order on (confidence, i, j). */
  predicate Below(a: Pair, b: Pair) {
    a.conf < b.conf || (a.conf == b.conf && (a.i < b.i || (a.i == b.i && a.j < b.j)))
  }

  predicate Clash(a: Pair, b: Pair) {
    a.i == b.i || a.j == b.j
  }

  // ----- descending sort -----

  predicate Descending(s: seq<Pair>) {
    forall a, b :: 0 <= a < b < |s| ==> Below(s[b], s[a])
  }

  function Insert(p: Pair, s: seq<Pair>): (r: seq<Pair>)
    requires Descending(s) && p !in s
    ensures Descending(r)
    ensures forall q :: q in r <==> q == p || q in s
    ensures |r| == |s| + 1
  {
    if s == [] then [p]
    else if Below(s[0], p) then [p] + s
    else
      assert p != s[0] && s == [s[0]] + s[1..];
      var rest := Insert(p, s[1..]);
      assert forall q :: q in rest ==> Below(q, s[0]);
      [s[0]] + rest
  }

  /** `sort(reverse=True)` on a list without repeats. */
  function SortDescending(s: seq<Pair>): (r: seq<Pair>)
    requires NoDuplicates(s)
    ensures Descending(r)
    ensures forall q :: q in r <==> q in s
  {
    if s == [] then [] else
      assert s[0] !in s[1..];
      Insert(s[0], SortDescending(s[1..]))
  }

  // ----- greedy assignment -----

  /** Takes each pair in turn unless one of its ends is already used. */
  function Greedy(ts: seq<Pair>, used1: set<nat>, used2: set<nat>): seq<Pair> {
    if ts == [] then []
    else if ts[0].i in used1 || ts[0].j in used2 then Greedy(ts[1..], used1, used2)
    else [ts[0]] + Greedy(ts[1..], used1 + {ts[0].i}, used2 + {ts[0].j})
  }

  function Lefts(ps: seq<Pair>): (r: set<nat>) {
    set k | 0 <= k < |ps| :: ps[k].i
  }

  function Rights(ps: seq<Pair>): (r: set<nat>) {
    set k | 0 <= k < |ps| :: ps[k].j
  }

  /** No two pairs share an end. */
  predicate Disjoint(ps: seq<Pair>) {
    forall a, b :: 0 <= a < b < |ps| ==> !Clash(ps[a], ps[b])
  }

  /** `m` lies in the matching, clashes with `t`, and is strictly stronger. */
  predicate Beats(m: Pair, t: Pair) {
    Clash(m, t) && Below(t, m)
  }

  /** `ms` is a stable matching of the admissible pairs `ts`: no shared ends, drawn from `ts`,
      and each pair left out loses an end to a strictly stronger pair of the matching. */
  ghost predicate Stable(ms: set<Pair>, ts: set<Pair>) {
    && ms <= ts
    && (forall a, b :: a in ms && b in ms && Clash(a, b) ==> a == b)
    && (forall t :: t in ts && t !in ms ==> exists m :: m in ms && Beats(m, t))
  }

  ghost function Elements(ps: seq<Pair>): set<Pair> {
    set p | p in ps
  }

  /** The pairs of `ts` with both ends still free. */
  ghost function Free(ts: seq<Pair>, used1: set<nat>, used2: set<nat>): set<Pair> {
    set p | p in ts && p.i !in used1 && p.j !in used2
  }

  /** Greedy assignment over a descending list is a stable matching of the free pairs. */
  lemma {:induction false} GreedyStable(ts: seq<Pair>, used1: set<nat>, used2: set<nat>)
    requires Descending(ts)
    ensures Disjoint(Greedy(ts, used1, used2))
    ensures Stable(Elements(Greedy(ts, used1, used2)), Free(ts, used1, used2))
  {
    if ts != [] {
      var h, rest := ts[0], ts[1..];
      assert ts == [h] + rest;
      if h.i in used1 || h.j in used2 {
        GreedyStable(rest, used1, used2);
        assert Free(ts, used1, used2) == Free(rest, used1, used2);
      } else {
        GreedyStable(rest, used1 + {h.i}, used2 + {h.j});
        GreedyTakes(ts, used1, used2);
      }
    }
  }

  /** Taking the strongest free pair and then the rest greedily. */
  lemma GreedyTakes(ts: seq<Pair>, used1: set<nat>, used2: set<nat>)
    requires Descending(ts) && ts != [] && ts[0].i !in used1 && ts[0].j !in used2
    requires var u1, u2 := used1 + {ts[0].i}, used2 + {ts[0].j};
      var tail := Greedy(ts[1..], u1, u2);
      Disjoint(tail) && Stable(Elements(tail), Free(ts[1..], u1, u2))
    ensures Disjoint(Greedy(ts, used1, used2))
    ensures Stable(Elements(Greedy(ts, used1, used2)), Free(ts, used1, used2))
  {
    hide Stable, Descending;
    var h, u1, u2 := ts[0], used1 + {ts[0].i}, used2 + {ts[0].j};
    var tail := Greedy(ts[1..], u1, u2);
    var rest, all := Free(ts[1..], u1, u2), Free(ts, used1, used2);
    StableSubset(Elements(tail), rest);
    assert forall k :: 0 <= k < |tail| ==> tail[k] in Elements(tail);
    FreeSplit(ts, used1, used2);
    StableCons(h, Elements(tail), rest, all);
    assert Elements([h] + tail) == {h} + Elements(tail);
  }

  lemma StableSubset(ms: set<Pair>, ts: set<Pair>)
    requires Stable(ms, ts)
    ensures ms <= ts
  {
  }

  /** What taking the strongest pair leaves free: nothing that clashes with it, and everything else. */
  lemma FreeSplit(ts: seq<Pair>, used1: set<nat>, used2: set<nat>)
    requires Descending(ts) && ts != [] && ts[0].i !in used1 && ts[0].j !in used2
    ensures var h, rest, all := ts[0], Free(ts[1..], used1 + {ts[0].i}, used2 + {ts[0].j}), Free(ts, used1, used2);
      && h in all && rest <= all
      && (forall t :: t in rest ==> !Clash(h, t))
      && (forall t :: t in all && t != h ==> Below(t, h) && (Clash(h, t) || t in rest))
  {
    hide Below;
    var h, tail := ts[0], ts[1..];
    assert ts == [h] + tail;
    forall t | t in ts && t != h
      ensures Below(t, h) && t in tail
    {
      var k :| 0 <= k < |ts| && ts[k] == t;
      assert tail[k - 1] == t;
    }
  }

  /** Adding the strongest pair to a stable matching of the pairs it does not clash with. */
  lemma StableCons(h: Pair, ms: set<Pair>, rest: set<Pair>, all: set<Pair>)
    requires Stable(ms, rest) && h in all && rest <= all
    requires forall t :: t in rest ==> !Clash(h, t)
    requires forall t :: t in all && t != h ==> Below(t, h) && (Clash(h, t) || t in rest)
    ensures Stable({h} + ms, all)
  {
    forall t | t in all && t !in {h} + ms
      ensures exists m :: m in {h} + ms && Beats(m, t)
    {
      if Clash(h, t) {
        assert Beats(h, t);
      } else {
        var m :| m in ms && Beats(m, t);
        assert m in {h} + ms;
      }
    }
  }

  /** A set of pairs listed in descending order has at most one stable matching. */
  lemma StableUnique(ts: seq<Pair>, all: set<Pair>, ms: set<Pair>, ms': set<Pair>)
    requires Descending(ts) && all <= Elements(ts)
    requires Stable(ms, all) && Stable(ms', all)
    ensures ms == ms'
  {
    forall k: nat | k < |ts|
      ensures ts[k] in ms <==> ts[k] in ms'
    {
      AgreeAt(ts, all, ms, ms', k);
    }
    forall p | p in ms || p in ms'
      ensures p in ms && p in ms'
    {
      assert p in Elements(ts);
    }
  }

  lemma {:induction false} AgreeAt(ts: seq<Pair>, all: set<Pair>, ms: set<Pair>, ms': set<Pair>, k: nat)
    requires Descending(ts) && all <= Elements(ts)
    requires Stable(ms, all) && Stable(ms', all) && k < |ts|
    ensures ts[k] in ms <==> ts[k] in ms'
    decreases k
  {
    forall x: nat | x < k
      ensures ts[x] in ms <==> ts[x] in ms'
    {
      AgreeAt(ts, all, ms, ms', x);
    }
    NoStronger(ts, all, ms, ms', k);
    NoStronger(ts, all, ms', ms, k);
  }

  lemma NoStronger(ts: seq<Pair>, all: set<Pair>, ms: set<Pair>, ms': set<Pair>, k: nat)
    requires Descending(ts) && all <= Elements(ts)
    requires Stable(ms, all) && Stable(ms', all) && k < |ts|
    requires forall x: nat :: x < k ==> (ts[x] in ms <==> ts[x] in ms')
    ensures ts[k] in ms ==> ts[k] in ms'
  {
    forall m | m in ms' && Below(ts[k], m)
      ensures m in ms
    {
      assert m in Elements(ts);
    }
  }

  // ----- the pass -----

  /** The qualifying pairs of row `i` with a column below `n`, in loop order. */
  function RowPairs(v1: seq<Candidate>, v2: seq<Candidate>, t: Tuning, i: nat, n: nat): (r: seq<Pair>)
    requires i < |v1| && n <= |v2|
    requires forall k :: 0 <= k < |v2| ==> |v1[i].signature| == |v2[k].signature|
    ensures NoDuplicates(r)
    ensures forall p :: p in r <==> p.i == i && p.j < n && Qualifies(v1, v2, t, p)
  {
    if n == 0 then [] else
      var r := RowPairs(v1, v2, t, i, n - 1);
      var c1, c2 := v1[i], v2[n - 1];
      if !SharesAnchor(c1, c2) then r
      else match Pass2Confidence(c1, c2, t)
        case None => r
        case Some(conf) => r + [Pair(conf, i, n - 1)]
  }

  /** The qualifying pairs of the first `m` rows, in loop order. */
  function AllPairs(v1: seq<Candidate>, v2: seq<Candidate>, t: Tuning, m: nat): (r: seq<Pair>)
    requires m <= |v1|
    requires forall a, b :: 0 <= a < |v1| && 0 <= b < |v2| ==> |v1[a].signature| == |v2[b].signature|
    ensures NoDuplicates(r)
    ensures forall p :: p in r <==> p.i < m && Qualifies(v1, v2, t, p)
  {
    if m == 0 then [] else AllPairs(v1, v2, t, m - 1) + RowPairs(v1, v2, t, m - 1, |v2|)
  }

  /** The pairs pass 2 makes, strongest first. */
  ghost function Pass2(v1: seq<Candidate>, v2: seq<Candidate>, t: Tuning): seq<Pair>
    requires Sized(v1, t.signatureSize) && Sized(v2, t.signatureSize)
  {
    Pass2From(v1, v2, t, {}, {})
  }

  ghost function Pass2From(v1: seq<Candidate>, v2: seq<Candidate>, t: Tuning,
                           paired1: set<nat>, paired2: set<nat>): seq<Pair>
    requires Sized(v1, t.signatureSize) && Sized(v2, t.signatureSize)
  {
    Greedy(SortDescending(AllPairs(v1, v2, t, |v1|)), paired1, paired2)
  }

  /** The qualifying pairs whose ends are both free, as a set. */
  ghost function Admissible(v1: seq<Candidate>, v2: seq<Candidate>, t: Tuning,
                            paired1: set<nat>, paired2: set<nat>): set<Pair>
    requires Sized(v1, t.signatureSize) && Sized(v2, t.signatureSize)
  {
    Free(AllPairs(v1, v2, t, |v1|), paired1, paired2)
  }

  lemma AdmissibleQualifies(v1: seq<Candidate>, v2: seq<Candidate>, t: Tuning,
                      paired1: set<nat>, paired2: set<nat>, p: Pair)
    requires Sized(v1, t.signatureSize) && Sized(v2, t.signatureSize)
    ensures p in Admissible(v1, v2, t, paired1, paired2)
      <==> Qualifies(v1, v2, t, p) && p.i !in paired1 && p.j !in paired2
  {
  }

  /** Corroboration in terms of the inputs: two long bodies agree on at least the threshold's share of
      signature positions, two short bodies are equal, a long and a short body never. */
  ghost predicate Corroborated(c1: Candidate, c2: Candidate, t: Tuning)
    requires |c1.signature| == |c2.signature|
  {
    if c1.shingled && c2.shingled then
      |set k | 0 <= k < |c1.signature| && c1.signature[k] == c2.signature[k]| as real >= t.threshold * |c1.signature| as real
    else !c1.shingled && !c2.shingled && c1.body == c2.body
  }

  lemma QualifiesIff(c1: Candidate, c2: Candidate, t: Tuning, conf: real)
    requires |c1.signature| == |c2.signature| > 0 && t.threshold <= 1.0
    ensures Pass2Confidence(c1, c2, t) == Some(conf) <==>
      && Corroborated(c1, c2, t)
      && var share := |set k | 0 <= k < |c1.signature| && c1.signature[k] == c2.signature[k]| as real / |c1.signature| as real;
         conf == if c1.shingled && share > 0.9 then share else 0.9
  {
    hide Estimate;
    EstimateIsShare(c1.signature, c2.signature, t.threshold);
  }

  /** The admissible pairs and their confidences: free ends; the same heading, or no heading and the same
      path; corroborated; and the larger of 0.9 and the share of equal signature positions for two long
      bodies, 0.9 for two short ones. */
  lemma AdmissibleIff(v1: seq<Candidate>, v2: seq<Candidate>, t: Tuning,
                      paired1: set<nat>, paired2: set<nat>, p: Pair)
    requires 1 <= t.signatureSize && t.threshold <= 1.0
    requires Sized(v1, t.signatureSize) && Sized(v2, t.signatureSize)
    ensures p in Admissible(v1, v2, t, paired1, paired2) <==>
      && p.i < |v1| && p.j < |v2| && p.i !in paired1 && p.j !in paired2
      && var c1, c2 := v1[p.i], v2[p.j];
      && c1.heading == c2.heading && (c1.heading == None ==> c1.path == c2.path)
      && Corroborated(c1, c2, t)
      && var share := |set k | 0 <= k < |c1.signature| && c1.signature[k] == c2.signature[k]| as real / |c1.signature| as real;
         p.conf == if c1.shingled && share > 0.9 then share else 0.9
  {
    hide Admissible, Pass2Confidence, Corroborated;
    AdmissibleQualifies(v1, v2, t, paired1, paired2, p);
    if p.i < |v1| && p.j < |v2| {
      QualifiesIff(v1[p.i], v2[p.j], t, p.conf);
    }
  }

  /** Pass 2 makes exactly the one stable matching of the admissible pairs: it is stable, and
      every stable matching equals it. */
  lemma Pass2IsTheStableMatching(v1: seq<Candidate>, v2: seq<Candidate>, t: Tuning,
                                 paired1: set<nat>, paired2: set<nat>, ms: set<Pair>)
    requires Sized(v1, t.signatureSize) && Sized(v2, t.signatureSize)
    ensures Disjoint(Pass2From(v1, v2, t, paired1, paired2))
    ensures Stable(ms, Admissible(v1, v2, t, paired1, paired2))
      <==> ms == Elements(Pass2From(v1, v2, t, paired1, paired2))
  {
    var all := AllPairs(v1, v2, t, |v1|);
    var ts := SortDescending(all);
    GreedyStable(ts, paired1, paired2);
    var adm := Admissible(v1, v2, t, paired1, paired2);
    assert Free(ts, paired1, paired2) == adm;
    if Stable(ms, adm) {
      StableUnique(ts, adm, ms, Elements(Greedy(ts, paired1, paired2)));
    }
  }

  /** Which admissible pairs are made: those that meet no made pair at either end of a larger
      confidence, of the same confidence and a later old position, or of the same old position and a
      later new one. */
  lemma MadeIff(v1: seq<Candidate>, v2: seq<Candidate>, t: Tuning, paired1: set<nat>, paired2: set<nat>, p: Pair)
    requires Sized(v1, t.signatureSize) && Sized(v2, t.signatureSize)
    ensures p in Pass2From(v1, v2, t, paired1, paired2) <==>
      && p in Admissible(v1, v2, t, paired1, paired2)
      && forall m :: m in Pass2From(v1, v2, t, paired1, paired2) && (m.i == p.i || m.j == p.j) ==>
           !(m.conf > p.conf || (m.conf == p.conf && (m.i > p.i || (m.i == p.i && m.j > p.j))))
  {
    hide Pass2From, Admissible;
    var made, adm := Pass2From(v1, v2, t, paired1, paired2), Admissible(v1, v2, t, paired1, paired2);
    var ms := Elements(made);
    Pass2IsTheStableMatching(v1, v2, t, paired1, paired2, ms);
    assert forall m :: m in made <==> m in ms;
    if p in adm && p !in ms {
      var m :| m in ms && Beats(m, p);
      assert m in made;
    }
  }

  /** The pass as it runs: nested loops, one sort, one greedy loop that updates the paired sets. */
  method PassHeadingMatch(v1: seq<Candidate>, v2: seq<Candidate>, t: Tuning,
                          paired1: set<nat>, paired2: set<nat>)
      returns (result: seq<Pair>, after1: set<nat>, after2: set<nat>)
    requires Sized(v1, t.signatureSize) && Sized(v2, t.signatureSize)
    ensures result == Pass2From(v1, v2, t, paired1, paired2)
    ensures after1 == paired1 + Lefts(result)
    ensures after2 == paired2 + Rights(result)
  {
    var triples := CollectTriples(v1, v2, t);
    result, after1, after2 := AssignGreedily(SortDescending(triples), paired1, paired2);
  }

  /** One more column adds its pair, or nothing. */
  lemma RowSnoc(v1: seq<Candidate>, v2: seq<Candidate>, t: Tuning, i: nat, j: nat)
    requires i < |v1| && j < |v2| && Sized(v1, t.signatureSize) && Sized(v2, t.signatureSize)
    ensures var r := RowPairs(v1, v2, t, i, j);
      RowPairs(v1, v2, t, i, j + 1) ==
        if !SharesAnchor(v1[i], v2[j]) || Pass2Confidence(v1[i], v2[j], t).None? then r
        else r + [Pair(Pass2Confidence(v1[i], v2[j], t).value, i, j)]
  {
    hide SharesAnchor, Pass2Confidence;
  }

  lemma AllSnoc(v1: seq<Candidate>, v2: seq<Candidate>, t: Tuning, i: nat)
    requires i < |v1| && Sized(v1, t.signatureSize) && Sized(v2, t.signatureSize)
    ensures RowPairs(v1, v2, t, i, 0) == []
    ensures AllPairs(v1, v2, t, i + 1) == AllPairs(v1, v2, t, i) + RowPairs(v1, v2, t, i, |v2|)
  {
    hide SharesAnchor, Pass2Confidence;
  }

  lemma NoTriples(v1: seq<Candidate>, v2: seq<Candidate>, t: Tuning)
    requires Sized(v1, t.signatureSize) && Sized(v2, t.signatureSize)
    ensures AllPairs(v1, v2, t, 0) == []
  {
  }

  method CollectTriples(v1: seq<Candidate>, v2: seq<Candidate>, t: Tuning) returns (triples: seq<Pair>)
    requires Sized(v1, t.signatureSize) && Sized(v2, t.signatureSize)
    ensures triples == AllPairs(v1, v2, t, |v1|)
  {
    hide SharesAnchor, Qualifies, Pass2Confidence, RowPairs, AllPairs, NoDuplicates;
    triples := [];
    NoTriples(v1, v2, t);
    for i := 0 to |v1|
      invariant triples == AllPairs(v1, v2, t, i)
    {
      AllSnoc(v1, v2, t, i);
      assert triples + [] == triples;
      for j := 0 to |v2|
        invariant triples == AllPairs(v1, v2, t, i) + RowPairs(v1, v2, t, i, j)
      {
        RowSnoc(v1, v2, t, i, j);
        if !SharesAnchor(v1[i], v2[j]) {
          continue;
        }
        var conf := Pass2Confidence(v1[i], v2[j], t);
        if conf.None? {
          continue;
        }
        Associate(AllPairs(v1, v2, t, i), RowPairs(v1, v2, t, i, j), [Pair(conf.value, i, j)]);
        triples := triples + [Pair(conf.value, i, j)];
      }
    }
  }

  method AssignGreedily(sorted: seq<Pair>, paired1: set<nat>, paired2: set<nat>)
      returns (result: seq<Pair>, after1: set<nat>, after2: set<nat>)
    ensures result == Greedy(sorted, paired1, paired2)
    ensures after1 == paired1 + Lefts(result)
    ensures after2 == paired2 + Rights(result)
  {
    hide Greedy, Lefts, Rights;
    result, after1, after2 := [], paired1, paired2;
    GreedyWhole(sorted, paired1, paired2);
    for k := 0 to |sorted|
      invariant result + Greedy(sorted[k..], after1, after2) == Greedy(sorted, paired1, paired2)
      invariant after1 == paired1 + Lefts(result) && after2 == paired2 + Rights(result)
    {
      var p := sorted[k];
      GreedyStep(sorted, k, after1, after2);
      if p.i in after1 || p.j in after2 {
        continue;
      }
      LeftsRightsSnoc(result, p);
      Associate(result, [p], Greedy(sorted[k + 1..], after1 + {p.i}, after2 + {p.j}));
      after1, after2 := after1 + {p.i}, after2 + {p.j};
      result := result + [p];
    }
    GreedyDone(result, after1, after2, sorted);
  }

  lemma GreedyWhole(ts: seq<Pair>, used1: set<nat>, used2: set<nat>)
    ensures [] + Greedy(ts[0..], used1, used2) == Greedy(ts, used1, used2)
    ensures used1 + Lefts([]) == used1 && used2 + Rights([]) == used2
  {
    assert ts[0..] == ts;
  }

  lemma GreedyStep(ts: seq<Pair>, k: nat, used1: set<nat>, used2: set<nat>)
    requires k < |ts|
    ensures Greedy(ts[k..], used1, used2) ==
      if ts[k].i in used1 || ts[k].j in used2 then Greedy(ts[k + 1..], used1, used2)
      else [ts[k]] + Greedy(ts[k + 1..], used1 + {ts[k].i}, used2 + {ts[k].j})
  {
    assert ts[k..][0] == ts[k] && ts[k..][1..] == ts[k + 1..];
  }

  lemma GreedyDone(result: seq<Pair>, used1: set<nat>, used2: set<nat>, ts: seq<Pair>)
    ensures result + Greedy(ts[|ts|..], used1, used2) == result
  {
  }

  lemma LeftsRightsSnoc(ps: seq<Pair>, p: Pair)
    ensures Lefts(ps + [p]) == Lefts(ps) + {p.i}
    ensures Rights(ps + [p]) == Rights(ps) + {p.j}
  {
    var qs := ps + [p];
    assert forall k :: 0 <= k < |ps| ==> qs[k] == ps[k];
    assert qs[|ps|] == p;
    forall x | x in Lefts(ps) + {p.i}
      ensures x in Lefts(qs)
    {
      if x == p.i {
        assert qs[|ps|].i == x;
      } else {
        var k :| 0 <= k < |ps| && ps[k].i == x;
        assert qs[k].i == x;
      }
    }
    forall x | x in Rights(ps) + {p.j}
      ensures x in Rights(qs)
    {
      if x == p.j {
        assert qs[|ps|].j == x;
      } else {
        var k :| 0 <= k < |ps| && ps[k].j == x;
        assert qs[k].j == x;
      }
    }
  }

  // ----- consequences -----

  /** Aligning a list with itself, pass 2 pairs every position with itself and nothing else,
      repeated headings and bodies included. */
  lemma Pass2Diagonal(v: seq<Candidate>, t: Tuning)
    requires t.threshold <= 1.0 && Sized(v, t.signatureSize)
    ensures Elements(Pass2(v, v, t)) == set k | 0 <= k < |v| :: Diagonal(v, k)
  {
    hide Qualifies, Diagonal, Beats, Admissible, Pass2From;
    var diag := set k | 0 <= k < |v| :: Diagonal(v, k);
    var adm := Admissible(v, v, t, {}, {});
    forall k | 0 <= k < |v|
      ensures Diagonal(v, k) in adm && Diagonal(v, k).i == Diagonal(v, k).j == k
    {
      DiagonalQualifies(v, t, k);
      AdmissibleQualifies(v, v, t, {}, {}, Diagonal(v, k));
    }
    forall p | p in adm && p !in diag
      ensures exists m :: m in diag && Beats(m, p)
    {
      AdmissibleQualifies(v, v, t, {}, {}, p);
      var k := DiagonalBeats(v, t, p);
      assert Diagonal(v, k) in diag;
    }
    assert Stable(diag, adm);
    Pass2IsTheStableMatching(v, v, t, {}, {}, diag);
  }

  lemma DiagonalQualifies(v: seq<Candidate>, t: Tuning, k: nat)
    requires t.threshold <= 1.0 && k < |v|
    ensures Qualifies(v, v, t, Diagonal(v, k)) && Diagonal(v, k).i == Diagonal(v, k).j == k
  {
    hide Estimate;
    EstimateRange(v[k].signature, v[k].signature);
  }

  /** A qualifying pair of two positions, or of one position with itself, is met by a diagonal pair at
      least as strong at one of its ends. */
  lemma DiagonalBeats(v: seq<Candidate>, t: Tuning, p: Pair) returns (k: nat)
    requires Qualifies(v, v, t, p)
    ensures k < |v| && (Beats(Diagonal(v, k), p) || p == Diagonal(v, k))
  {
    hide Estimate, SharesAnchor;
    EstimateRange(v[p.i].signature, v[p.j].signature);
    k := if p.i < p.j then p.j else p.i;
  }

  /** The pair of position `k` with itself. */
  ghost function Diagonal(v: seq<Candidate>, k: int): Pair
    requires 0 <= k < |v|
  {
    Pair(if v[k].shingled then 1.0 else PASS2_BASE_CONFIDENCE, k, k)
  }

  /** Every pass-2 pair has one anchor and is corroborated, with confidence in [0.9, 1]; no end is used
      twice. */
  lemma Pass2Sound(v1: seq<Candidate>, v2: seq<Candidate>, t: Tuning)
    requires 1 <= t.signatureSize && t.threshold <= 1.0
    requires Sized(v1, t.signatureSize) && Sized(v2, t.signatureSize)
    ensures Disjoint(Pass2(v1, v2, t))
    ensures forall p :: p in Pass2(v1, v2, t) ==>
      && p.i < |v1| && p.j < |v2| && |v1[p.i].signature| == |v2[p.j].signature|
      && v1[p.i].heading == v2[p.j].heading && (v1[p.i].heading == None ==> v1[p.i].path == v2[p.j].path)
      && Corroborated(v1[p.i], v2[p.j], t) && 0.9 <= p.conf <= 1.0
  {
    hide Corroborated, Pass2From, Admissible;
    var ms := Elements(Pass2(v1, v2, t));
    Pass2IsTheStableMatching(v1, v2, t, {}, {}, ms);
    forall p | p in Pass2(v1, v2, t)
      ensures p.i < |v1| && p.j < |v2| && |v1[p.i].signature| == |v2[p.j].signature|
      ensures v1[p.i].heading == v2[p.j].heading && (v1[p.i].heading == None ==> v1[p.i].path == v2[p.j].path)
      ensures Corroborated(v1[p.i], v2[p.j], t) && 0.9 <= p.conf <= 1.0
    {
      assert p in ms;
      AdmissibleIff(v1, v2, t, {}, {}, p);
      AdmissibleQualifies(v1, v2, t, {}, {}, p);
      EstimateRange(v1[p.i].signature, v2[p.j].signature);
    }
  }

  /** Two long clauses that agree on too few positions are not paired, whatever their headings. */
  lemma UncorroboratedApart(v1: seq<Candidate>, v2: seq<Candidate>, t: Tuning, i: nat, j: nat)
    requires 1 <= t.signatureSize && t.threshold <= 1.0
    requires Sized(v1, t.signatureSize) && Sized(v2, t.signatureSize) && i < |v1| && j < |v2|
    requires v1[i].shingled && v2[j].shingled
    requires var a, b := v1[i].signature, v2[j].signature;
      |a| == |b| && |set k | 0 <= k < |a| && a[k] == b[k]| as real < t.threshold * |a| as real
    ensures forall p :: p in Pass2(v1, v2, t) ==> p.i != i || p.j != j
  {
    hide Pass2;
    Pass2Sound(v1, v2, t);
  }

  /** Two clauses whose heading no other clause has are paired exactly when they are corroborated,
      wherever they stand. */
  lemma LoneHeadingPairedIff(v1: seq<Candidate>, v2: seq<Candidate>, t: Tuning, i: nat, j: nat)
    requires 1 <= t.signatureSize && t.threshold <= 1.0
    requires Sized(v1, t.signatureSize) && Sized(v2, t.signatureSize) && i < |v1| && j < |v2|
    requires v1[i].heading.Some? && v1[i].heading == v2[j].heading
    requires forall x :: 0 <= x < |v1| && v1[x].heading == v1[i].heading ==> x == i
    requires forall y :: 0 <= y < |v2| && v2[y].heading == v1[i].heading ==> y == j
    ensures |v1[i].signature| == |v2[j].signature|
    ensures (exists p :: p in Pass2(v1, v2, t) && p.i == i && p.j == j) <==> Corroborated(v1[i], v2[j], t)
  {
    hide Corroborated, Pass2From, Admissible;
    Pass2Sound(v1, v2, t);
    if Corroborated(v1[i], v2[j], t) {
      var a, b := v1[i].signature, v2[j].signature;
      var share := |set k | 0 <= k < |a| && a[k] == b[k]| as real / |a| as real;
      var p := Pair(if v1[i].shingled && share > 0.9 then share else 0.9, i, j);
      AdmissibleIff(v1, v2, t, {}, {}, p);
      MadeIff(v1, v2, t, {}, {}, p);
      if p !in Pass2(v1, v2, t) {
        var m :| m in Pass2(v1, v2, t) && (m.i == p.i || m.j == p.j);
        assert m.i == i && m.j == j;
      }
    }
  }

  /** An unheaded clause with the same path, body, signature and flag on both sides is paired
      with its counterpart when no other unheaded clause has that path. */
  lemma UnheadedPaired(v1: seq<Candidate>, v2: seq<Candidate>, t: Tuning, i: nat, j: nat)
    requires t.threshold <= 1.0 && Sized(v1, t.signatureSize) && Sized(v2, t.signatureSize)
    requires i < |v1| && j < |v2| && v1[i] == v2[j] && v1[i].heading == None
    requires forall x :: 0 <= x < |v1| && v1[x].heading == None && v1[x].path == v1[i].path ==> x == i
    requires forall y :: 0 <= y < |v2| && v2[y].heading == None && v2[y].path == v1[i].path ==> y == j
    ensures exists p :: p in Pass2(v1, v2, t) && p.i == i && p.j == j
  {
    var conf := if v1[i].shingled then 1.0 else PASS2_BASE_CONFIDENCE;
    var p := Pair(conf, i, j);
    EstimateRange(v1[i].signature, v2[j].signature);
    AdmissibleQualifies(v1, v2, t, {}, {}, p);
    var ms := Elements(Pass2(v1, v2, t));
    Pass2IsTheStableMatching(v1, v2, t, {}, {}, ms);
    forall m | m in ms && Clash(m, p)
      ensures m == p
    {
      AdmissibleQualifies(v1, v2, t, {}, {}, m);
    }
  }
}
