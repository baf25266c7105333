/** The alignment pipeline: pass 2, pass 3, event emission, and what the emitted events mean. */
module Align {
  import opened Prelude
  import opened Clauses
  import opened Similarity
  import opened Candidates
  import opened HeadingPass
  import opened MonotonicPass
  import opened Events

  // ----- pass 3 -----

  /** The positions below `n` still open to pass 3: unpaired and long enough to shingle. */
  function OpenBelow(v: seq<Candidate>, paired: set<nat>, n: nat): (r: seq<nat>)
    requires n <= |v|
    ensures forall k: nat :: k in r <==> k < n && k !in paired && v[k].shingled
    ensures forall a, b :: 0 <= a < b < |r| ==> r[a] < r[b]
  {
    if n == 0 then [] else
      var r := OpenBelow(v, paired, n - 1);
      if n - 1 !in paired && v[n - 1].shingled then
        assert forall a :: 0 <= a < |r| ==> r[a] in r;
        r + [n - 1]
      else r
  }

  function Open(v: seq<Candidate>, paired: set<nat>): seq<nat> {
    OpenBelow(v, paired, |v|)
  }

  /** Candidate pairs of pass 3: signatures that agree on a whole band and on at least the threshold's
      share of positions. */
  ghost predicate Similar(v1: seq<Candidate>, v2: seq<Candidate>, t: Tuning, i: nat, j: nat)
    requires 1 <= t.bands
  {
    && i < |v1| && j < |v2|
    && |v1[i].signature| == |v2[j].signature|
    && AlikeEnough(v1[i].signature, v2[j].signature, t.bands, t.threshold)
  }

  /** The similarity table of pass 3. */
  ghost function SimTable(v1: seq<Candidate>, v2: seq<Candidate>, t: Tuning, p1: set<nat>, p2: set<nat>): Sim
    requires 1 <= t.bands
  {
    map i: nat, j: nat | i in Open(v1, p1) && j in Open(v2, p2) && Similar(v1, v2, t, i, j)
      :: (i, j) := Estimate(v1[i].signature, v2[j].signature)
  }

  /** What pass 3 can pair, and what such a pair is worth: unpaired long clauses whose signatures agree on
      a whole band and on at least the threshold's share of positions, whatever their texts, headings
      and paths; worth that share. */
  lemma InReachIff(v1: seq<Candidate>, v2: seq<Candidate>, t: Tuning, p1: set<nat>, p2: set<nat>, i: nat, j: nat)
    requires 1 <= t.bands && 1 <= t.signatureSize && t.threshold <= 1.0
    requires Sized(v1, t.signatureSize) && Sized(v2, t.signatureSize)
    ensures (i, j) in SimTable(v1, v2, t, p1, p2) <==>
      && i < |v1| && j < |v2| && i !in p1 && j !in p2 && v1[i].shingled && v2[j].shingled
      && var a, b := v1[i].signature, v2[j].signature;
      && (exists band: nat :: band < t.bands && AgreeOnBand(a, b, |a| / t.bands, band))
      && |set k | 0 <= k < |a| && a[k] == b[k]| as real >= t.threshold * |a| as real
    ensures (i, j) in SimTable(v1, v2, t, p1, p2) ==>
      && var a, b := v1[i].signature, v2[j].signature;
      SimTable(v1, v2, t, p1, p2)[(i, j)] == |set k | 0 <= k < |a| && a[k] == b[k]| as real / |a| as real
  {
    hide SimTable, AgreeOnBand, Estimate;
    InTable(v1, v2, t, p1, p2, i, j);
    if i < |v1| && j < |v2| {
      EstimateIsShare(v1[i].signature, v2[j].signature, t.threshold);
    }
  }

  lemma InTable(v1: seq<Candidate>, v2: seq<Candidate>, t: Tuning, p1: set<nat>, p2: set<nat>, i: nat, j: nat)
    requires 1 <= t.bands && Sized(v1, t.signatureSize) && Sized(v2, t.signatureSize)
    ensures (i, j) in SimTable(v1, v2, t, p1, p2) <==>
      && i < |v1| && j < |v2| && i !in p1 && j !in p2 && v1[i].shingled && v2[j].shingled
      && AlikeEnough(v1[i].signature, v2[j].signature, t.bands, t.threshold)
    ensures (i, j) in SimTable(v1, v2, t, p1, p2) ==>
      SimTable(v1, v2, t, p1, p2)[(i, j)] == Estimate(v1[i].signature, v2[j].signature)
  {
    hide AlikeEnough, Estimate, OpenBelow;
  }

  /** The pairs that table cells stand for. */
  ghost function PairsOf(sim: Sim, xs: seq<nat>, ys: seq<nat>, cells: seq<Cell>): (r: seq<Pair>)
    requires NonCrossing(sim, xs, ys, cells, |xs|, |ys|)
    ensures |r| == |cells|
    ensures forall k :: 0 <= k < |r| ==>
      r[k] == Pair(sim[(xs[cells[k].x], ys[cells[k].y])], xs[cells[k].x], ys[cells[k].y])
  {
    seq(|cells|, k requires 0 <= k < |cells| =>
      Pair(sim[(xs[cells[k].x], ys[cells[k].y])], xs[cells[k].x], ys[cells[k].y]))
  }

  /** The pairs pass 3 makes, last one first. */
  ghost function Pass3(v1: seq<Candidate>, v2: seq<Candidate>, t: Tuning, p1: set<nat>, p2: set<nat>): seq<Pair>
    requires 1 <= t.bands
  {
    var sim, xs, ys := SimTable(v1, v2, t, p1, p2), Open(v1, p1), Open(v2, p2);
    TracebackAttains(sim, xs, ys, |xs|, |ys|);
    PairsOf(sim, xs, ys, Traceback(sim, xs, ys, |xs|, |ys|))
  }

  /** Pass 3 pairs open positions only, never crosses, and keeps confidences in [threshold, 1]. */
  lemma Pass3Sound(v1: seq<Candidate>, v2: seq<Candidate>, t: Tuning, p1: set<nat>, p2: set<nat>)
    requires 1 <= t.bands && t.threshold <= 1.0
    ensures forall p :: p in Pass3(v1, v2, t, p1, p2) ==>
      && p.i < |v1| && p.j < |v2| && p.i !in p1 && p.j !in p2
      && v1[p.i].shingled && v2[p.j].shingled
      && Similar(v1, v2, t, p.i, p.j)
      && p.conf == Estimate(v1[p.i].signature, v2[p.j].signature) && t.threshold <= p.conf <= 1.0
    ensures var r := Pass3(v1, v2, t, p1, p2);
      forall k, l :: 0 <= k < l < |r| ==> r[l].i < r[k].i && r[l].j < r[k].j
  {
    var sim, xs, ys := SimTable(v1, v2, t, p1, p2), Open(v1, p1), Open(v2, p2);
    var cells := Traceback(sim, xs, ys, |xs|, |ys|);
    TracebackAttains(sim, xs, ys, |xs|, |ys|);
    var r := Pass3(v1, v2, t, p1, p2);
    forall p | p in r
      ensures p.i < |v1| && p.j < |v2| && p.i !in p1 && p.j !in p2
      ensures v1[p.i].shingled && v2[p.j].shingled
      ensures Similar(v1, v2, t, p.i, p.j)
      ensures p.conf == Estimate(v1[p.i].signature, v2[p.j].signature) && t.threshold <= p.conf <= 1.0
    {
      var k :| 0 <= k < |r| && r[k] == p;
      assert (p.i, p.j) in sim;
      EstimateRange(v1[p.i].signature, v2[p.j].signature);
      AlikeIff(v1[p.i].signature, v2[p.j].signature, t.bands, t.threshold);
    }
  }

  /** A rival of pass 3: candidate pairs of open positions that do not cross, listed from the
      last pair down. */
  ghost predicate Rival(v1: seq<Candidate>, v2: seq<Candidate>, t: Tuning, p1: set<nat>, p2: set<nat>, r: seq<Pair>)
    requires 1 <= t.bands
  {
    && (forall p :: p in r ==>
          && p.i in Open(v1, p1) && p.j in Open(v2, p2) && Similar(v1, v2, t, p.i, p.j)
          && p.conf == Estimate(v1[p.i].signature, v2[p.j].signature))
    && (forall k, l :: 0 <= k < l < |r| ==> r[l].i < r[k].i && r[l].j < r[k].j)
  }

  /** Sum of the confidences. */
  ghost function TotalConfidence(ps: seq<Pair>): real {
    if ps == [] then 0.0 else ps[0].conf + TotalConfidence(ps[1..])
  }

  lemma {:induction false} WeightIsTotal(sim: Sim, xs: seq<nat>, ys: seq<nat>, cells: seq<Cell>, ps: seq<Pair>)
    requires |cells| == |ps|
    requires forall k :: 0 <= k < |cells| ==>
      && cells[k].x < |xs| && cells[k].y < |ys| && (xs[cells[k].x], ys[cells[k].y]) in sim
      && ps[k].conf == sim[(xs[cells[k].x], ys[cells[k].y])]
    ensures Weight(sim, xs, ys, cells) == TotalConfidence(ps)
  {
    if ps != [] {
      WeightIsTotal(sim, xs, ys, cells[1..], ps[1..]);
    }
  }

  ghost function PositionOf(xs: seq<nat>, x: nat): (k: nat)
    requires x in xs
    ensures k < |xs| && xs[k] == x
  {
    var k: nat :| k < |xs| && xs[k] == x; k
  }

  /** Pairs of table entries that decrease on both sides stand for a non-crossing matching of
      the same weight. */
  lemma CellsOf(sim: Sim, xs: seq<nat>, ys: seq<nat>, ps: seq<Pair>) returns (cells: seq<Cell>)
    requires forall a, b :: 0 <= a < b < |xs| ==> xs[a] < xs[b]
    requires forall a, b :: 0 <= a < b < |ys| ==> ys[a] < ys[b]
    requires forall k :: 0 <= k < |ps| ==> ps[k].i in xs && ps[k].j in ys
    requires forall k :: 0 <= k < |ps| ==> (ps[k].i, ps[k].j) in sim && ps[k].conf == sim[(ps[k].i, ps[k].j)]
    requires forall k, l :: 0 <= k < l < |ps| ==> ps[l].i < ps[k].i && ps[l].j < ps[k].j
    ensures NonCrossing(sim, xs, ys, cells, |xs|, |ys|) && Weight(sim, xs, ys, cells) == TotalConfidence(ps)
  {
    cells := seq(|ps|, k requires 0 <= k < |ps| => Cell(PositionOf(xs, ps[k].i), PositionOf(ys, ps[k].j)));
    assert forall k :: 0 <= k < |ps| ==>
      cells[k].x < |xs| && cells[k].y < |ys| && xs[cells[k].x] == ps[k].i && ys[cells[k].y] == ps[k].j;
    forall k, l | 0 <= k < l < |cells|
      ensures cells[l].x < cells[k].x && cells[l].y < cells[k].y
    {
      assert xs[cells[l].x] < xs[cells[k].x] && ys[cells[l].y] < ys[cells[k].y];
    }
    WeightIsTotal(sim, xs, ys, cells, ps);
  }

  /** Pass 3 is optimal: no non-crossing choice of candidate pairs has a larger total. */
  lemma Pass3Optimal(v1: seq<Candidate>, v2: seq<Candidate>, t: Tuning, p1: set<nat>, p2: set<nat>, rival: seq<Pair>)
    requires 1 <= t.bands && t.threshold <= 1.0 && Rival(v1, v2, t, p1, p2, rival)
    ensures Rival(v1, v2, t, p1, p2, Pass3(v1, v2, t, p1, p2))
    ensures TotalConfidence(rival) <= TotalConfidence(Pass3(v1, v2, t, p1, p2))
  {
    Pass3Sound(v1, v2, t, p1, p2);
    var sim, xs, ys := SimTable(v1, v2, t, p1, p2), Open(v1, p1), Open(v2, p2);
    TracebackAttains(sim, xs, ys, |xs|, |ys|);
    WeightIsTotal(sim, xs, ys, Traceback(sim, xs, ys, |xs|, |ys|), Pass3(v1, v2, t, p1, p2));
    forall k | 0 <= k < |rival|
      ensures rival[k].i in xs && rival[k].j in ys && (rival[k].i, rival[k].j) in sim
      ensures rival[k].conf == sim[(rival[k].i, rival[k].j)]
    {
      assert rival[k] in rival;
    }
    var cells := CellsOf(sim, xs, ys, rival);
    TracebackOptimal(sim, xs, ys, cells);
  }

  // ----- all pairs -----

  /** All pairs of the two passes, in the order they are made. */
  ghost function MakePairs(v1: seq<Candidate>, v2: seq<Candidate>, t: Tuning): seq<Pair>
    requires 1 <= t.bands && Sized(v1, t.signatureSize) && Sized(v2, t.signatureSize)
  {
    var first := Pass2(v1, v2, t);
    first + Pass3(v1, v2, t, Lefts(first), Rights(first))
  }

  /** The pairs are in range, share no end, and carry confidences in (0, 1]. */
  ghost predicate GoodPairs(v1: seq<Candidate>, v2: seq<Candidate>, ps: seq<Pair>) {
    && Disjoint(ps)
    && forall k :: 0 <= k < |ps| ==> ps[k].i < |v1| && ps[k].j < |v2| && 0.0 < ps[k].conf <= 1.0
  }

  lemma MakePairsGood(v1: seq<Candidate>, v2: seq<Candidate>, t: Tuning)
    requires 1 <= t.bands && 1 <= t.signatureSize && 0.0 < t.threshold <= 1.0 && Sized(v1, t.signatureSize) && Sized(v2, t.signatureSize)
    ensures GoodPairs(v1, v2, MakePairs(v1, v2, t))
  {
    hide Pass2, Pass3, Similar, Estimate;
    var first := Pass2(v1, v2, t);
    var second := Pass3(v1, v2, t, Lefts(first), Rights(first));
    Pass2Sound(v1, v2, t);
    Pass3Sound(v1, v2, t, Lefts(first), Rights(first));
    forall a, b | 0 <= a < |first| && 0 <= b < |second|
      ensures !Clash(first[a], second[b])
    {
      assert second[b] in second;
      assert first[a].i in Lefts(first) && first[a].j in Rights(first);
    }
    forall k | 0 <= k < |first| + |second|
      ensures var p := (first + second)[k]; p.i < |v1| && p.j < |v2| && 0.0 < p.conf <= 1.0
    {
      if k < |first| {
        assert first[k] in first;
      } else {
        assert second[k - |first|] in second;
      }
    }
  }

  // ----- events -----

  /** The event of one pair: none when path and body are unchanged. */
  function PairEvent(c1: Candidate, c2: Candidate, conf: real): seq<ChangeEvent> {
    if c1.path == c2.path && c1.body == c2.body then []
    else [ChangeEvent(if c1.body == c2.body then Moved else Modified,
                      Some(c1.path), Some(c2.path), Some(c1.body), Some(c2.body), conf)]
  }

  function PairEvents(v1: seq<Candidate>, v2: seq<Candidate>, ps: seq<Pair>): seq<ChangeEvent>
    requires forall k :: 0 <= k < |ps| ==> ps[k].i < |v1| && ps[k].j < |v2|
  {
    if ps == [] then [] else
      var n := |ps| - 1;
      PairEvents(v1, v2, ps[..n]) + PairEvent(v1[ps[n].i], v2[ps[n].j], ps[n].conf)
  }

  function RemovedEvent(c: Candidate): ChangeEvent {
    ChangeEvent(Removed, Some(c.path), None, Some(c.body), None, 1.0)
  }

  function AddedEvent(c: Candidate): ChangeEvent {
    ChangeEvent(Added, None, Some(c.path), None, Some(c.body), 1.0)
  }

  function RemovedEvents(v1: seq<Candidate>, paired: set<nat>, n: nat): seq<ChangeEvent>
    requires n <= |v1|
  {
    if n == 0 then []
    else RemovedEvents(v1, paired, n - 1) + if n - 1 in paired then [] else [RemovedEvent(v1[n - 1])]
  }

  function AddedEvents(v2: seq<Candidate>, paired: set<nat>, n: nat): seq<ChangeEvent>
    requires n <= |v2|
  {
    if n == 0 then []
    else AddedEvents(v2, paired, n - 1) + if n - 1 in paired then [] else [AddedEvent(v2[n - 1])]
  }

  function Emitted(v1: seq<Candidate>, v2: seq<Candidate>, p1: set<nat>, p2: set<nat>, ps: seq<Pair>): seq<ChangeEvent>
    requires forall k :: 0 <= k < |ps| ==> ps[k].i < |v1| && ps[k].j < |v2|
  {
    PairEvents(v1, v2, ps) + RemovedEvents(v1, p1, |v1|) + AddedEvents(v2, p2, |v2|)
  }

  /** The events of aligning two candidate lists. */
  ghost function Aligned(v1: seq<Candidate>, v2: seq<Candidate>, t: Tuning): seq<ChangeEvent>
    requires 1 <= t.bands && 1 <= t.signatureSize && 0.0 < t.threshold <= 1.0 && Sized(v1, t.signatureSize) && Sized(v2, t.signatureSize)
  {
    MakePairsGood(v1, v2, t);
    var ps := MakePairs(v1, v2, t);
    Emitted(v1, v2, Lefts(ps), Rights(ps), ps)
  }

  // ----- the methods -----

  /** Pass 3 as it runs: open positions, candidate enumeration over both sides at once, the
      similarity table of the cross-side pairs, then the dynamic program. */
  method PassContentMonotonic(v1: seq<Candidate>, v2: seq<Candidate>, t: Tuning, paired1: set<nat>, paired2: set<nat>)
      returns (result: seq<Pair>, after1: set<nat>, after2: set<nat>)
    requires ValidTuning(t) && Sized(v1, t.signatureSize) && Sized(v2, t.signatureSize)
    ensures result == Pass3(v1, v2, t, paired1, paired2)
    ensures after1 == paired1 + Lefts(result) && after2 == paired2 + Rights(result)
  {
    hide Traceback, Similar, Estimate, NonCrossing, Weight, Best;
    var xs, ys := Open(v1, paired1), Open(v2, paired2);
    ghost var table := SimTable(v1, v2, t, paired1, paired2);
    if xs == [] || ys == [] {
      assert table == map[];
      TracebackOfNothing(table, xs, ys);
      return [], paired1, paired2;
    }
    var sim := SimilarityTable(v1, v2, t, xs, ys);
    forall key | key in sim || key in table
      ensures key in sim && key in table && sim[key] == table[key]
    {
      assert key == (key.0, key.1);
    }
    assert sim == table;
    if sim == map[] {
      TracebackOfNothing(sim, xs, ys);
      return [], paired1, paired2;
    }
    var cells, total := BestMonotoneMatching(sim, xs, ys);
    result := seq(|cells|, k requires 0 <= k < |cells| =>
      Pair(sim[(xs[cells[k].x], ys[cells[k].y])], xs[cells[k].x], ys[cells[k].y]));
    assert result == PairsOf(sim, xs, ys, cells);
    after1, after2 := MarkPaired(result, paired1, paired2);
  }

  /** Adds the ends of the new pairs to the paired sets. */
  method MarkPaired(ps: seq<Pair>, paired1: set<nat>, paired2: set<nat>) returns (after1: set<nat>, after2: set<nat>)
    ensures after1 == paired1 + Lefts(ps) && after2 == paired2 + Rights(ps)
  {
    after1, after2 := paired1, paired2;
    for k := 0 to |ps|
      invariant after1 == paired1 + Lefts(ps[..k]) && after2 == paired2 + Rights(ps[..k])
    {
      LeftsRightsSnoc(ps[..k], ps[k]);
      assert ps[..k + 1] == ps[..k] + [ps[k]];
      after1 := after1 + {ps[k].i};
      after2 := after2 + {ps[k].j};
    }
    assert ps[..|ps|] == ps;
  }

  /** Enumerates candidates over the old signatures followed by the new ones and keeps the
      pairs with one side in each version. */
  method SimilarityTable(v1: seq<Candidate>, v2: seq<Candidate>, t: Tuning, xs: seq<nat>, ys: seq<nat>)
      returns (sim: Sim)
    requires ValidTuning(t) && Sized(v1, t.signatureSize) && Sized(v2, t.signatureSize)
    requires xs != [] && forall k :: k in xs ==> k < |v1|
    requires ys != [] && forall k :: k in ys ==> k < |v2|
    ensures forall i: nat, j: nat :: (i, j) in sim <==> i in xs && j in ys && Similar(v1, v2, t, i, j)
    ensures forall i: nat, j: nat :: (i, j) in sim ==> sim[(i, j)] == Estimate(v1[i].signature, v2[j].signature)
  {
    hide AlikeEnough, Estimate;
    var sigs := SignaturesOf(v1, v2, t.signatureSize, xs, ys);
    var r := LshCandidates(sigs, t.bands, t.threshold);
    var pairs := r.value;
    sim := map[];
    for k := 0 to |pairs|
      invariant forall key :: key in sim ==>
        Entered(v1, v2, t, xs, ys, key) && sim[key] == Estimate(v1[key.0].signature, v2[key.1].signature)
      invariant forall l :: 0 <= l < k && pairs[l].0 < |xs| <= pairs[l].1 < |xs| + |ys| ==>
        (xs[pairs[l].0], ys[pairs[l].1 - |xs|]) in sim
    {
      var (lo, hi) := pairs[k];
      assert (lo, hi) in pairs;
      if hi < |xs| || |xs| <= lo {
        continue;  // both on the same side
      }
      var i, j := xs[lo], ys[hi - |xs|];
      assert Entered(v1, v2, t, xs, ys, (i, j));
      sim := sim[(i, j) := Estimate(v1[i].signature, v2[j].signature)];
    }
    forall i: nat, j: nat | i in xs && j in ys && Similar(v1, v2, t, i, j)
      ensures (i, j) in sim
    {
      ghost var lo, hi := PositionOf(xs, i), |xs| + PositionOf(ys, j);
      assert IsCandidate(sigs, t.bands, t.threshold, lo, hi);
      assert (lo, hi) in pairs;
    }
  }

  ghost predicate Entered(v1: seq<Candidate>, v2: seq<Candidate>, t: Tuning, xs: seq<nat>, ys: seq<nat>, key: (nat, nat))
    requires 1 <= t.bands
  {
    key.0 in xs && key.1 in ys && Similar(v1, v2, t, key.0, key.1)
  }

  /** The old signatures followed by the new ones. */
  method SignaturesOf(v1: seq<Candidate>, v2: seq<Candidate>, size: nat, xs: seq<nat>, ys: seq<nat>)
      returns (sigs: seq<seq<nat>>)
    requires Sized(v1, size) && Sized(v2, size)
    requires forall k :: k in xs ==> k < |v1|
    requires forall k :: k in ys ==> k < |v2|
    ensures |sigs| == |xs| + |ys|
    ensures forall k :: 0 <= k < |xs| ==> xs[k] < |v1| && sigs[k] == v1[xs[k]].signature
    ensures forall k :: |xs| <= k < |sigs| ==> ys[k - |xs|] < |v2| && sigs[k] == v2[ys[k - |xs|]].signature
    ensures forall k :: 0 <= k < |sigs| ==> |sigs[k]| == size
  {
    sigs := [];
    for k := 0 to |xs|
      invariant |sigs| == k
      invariant forall l :: 0 <= l < k ==> xs[l] in xs && sigs[l] == v1[xs[l]].signature && |sigs[l]| == size
    {
      assert xs[k] in xs;
      sigs := sigs + [v1[xs[k]].signature];
    }
    for k := 0 to |ys|
      invariant |sigs| == |xs| + k
      invariant forall l :: 0 <= l < |xs| ==> xs[l] in xs && sigs[l] == v1[xs[l]].signature && |sigs[l]| == size
      invariant forall l :: |xs| <= l < |xs| + k ==>
        ys[l - |xs|] in ys && sigs[l] == v2[ys[l - |xs|]].signature && |sigs[l]| == size
    {
      assert ys[k] in ys;
      sigs := sigs + [v2[ys[k]].signature];
    }
    assert forall l :: 0 <= l < |ys| ==> ys[l] in ys;
  }

  lemma NothingYet(v1: seq<Candidate>, v2: seq<Candidate>, paired1: set<nat>, paired2: set<nat>)
    ensures PairEvents(v1, v2, []) == [] && RemovedEvents(v1, paired1, 0) == [] && AddedEvents(v2, paired2, 0) == []
  {
  }

  lemma PairEventsSnoc(v1: seq<Candidate>, v2: seq<Candidate>, ps: seq<Pair>, k: nat)
    requires k < |ps| && forall x :: 0 <= x < |ps| ==> ps[x].i < |v1| && ps[x].j < |v2|
    ensures var c1, c2 := v1[ps[k].i], v2[ps[k].j];
      PairEvents(v1, v2, ps[..k + 1]) == PairEvents(v1, v2, ps[..k])
        + if c1.path == c2.path && c1.body == c2.body then []
          else [ChangeEvent(if c1.body == c2.body then Moved else Modified,
                            Some(c1.path), Some(c2.path), Some(c1.body), Some(c2.body), ps[k].conf)]
  {
    assert ps[..k + 1][..k] == ps[..k];
  }

  lemma ResidualSnoc(v: seq<Candidate>, paired: set<nat>, n: nat)
    requires n < |v|
    ensures RemovedEvents(v, paired, n + 1) ==
      if n in paired then RemovedEvents(v, paired, n) else RemovedEvents(v, paired, n) + [RemovedEvent(v[n])]
    ensures AddedEvents(v, paired, n + 1) ==
      if n in paired then AddedEvents(v, paired, n) else AddedEvents(v, paired, n) + [AddedEvent(v[n])]
  {
    assert RemovedEvents(v, paired, n) + [] == RemovedEvents(v, paired, n);
    assert AddedEvents(v, paired, n) + [] == AddedEvents(v, paired, n);
  }

  /** Pass 4 as it runs: one loop over the pairs, one over each side's leftovers. */
  method EmitEvents(v1: seq<Candidate>, v2: seq<Candidate>, paired1: set<nat>, paired2: set<nat>, ps: seq<Pair>)
      returns (events: seq<ChangeEvent>)
    requires forall k :: 0 <= k < |ps| ==> ps[k].i < |v1| && ps[k].j < |v2|
    ensures events == Emitted(v1, v2, paired1, paired2, ps)
  {
    hide PairEvents, RemovedEvents, AddedEvents;
    events := [];
    NothingYet(v1, v2, paired1, paired2);
    for k := 0 to |ps|
      invariant events == PairEvents(v1, v2, ps[..k])
    {
      PairEventsSnoc(v1, v2, ps, k);
      var c1, c2 := v1[ps[k].i], v2[ps[k].j];
      if c1.path == c2.path && c1.body == c2.body {
        continue;
      }
      var kind := if c1.body == c2.body then Moved else Modified;
      events := events + [ChangeEvent(kind, Some(c1.path), Some(c2.path), Some(c1.body), Some(c2.body), ps[k].conf)];
    }
    assert ps[..|ps|] == ps;
    assert events + [] == events;
    for i := 0 to |v1|
      invariant events == PairEvents(v1, v2, ps) + RemovedEvents(v1, paired1, i)
    {
      ResidualSnoc(v1, paired1, i);
      if i in paired1 {
        continue;
      }
      Associate(PairEvents(v1, v2, ps), RemovedEvents(v1, paired1, i), [RemovedEvent(v1[i])]);
      events := events + [ChangeEvent(Removed, Some(v1[i].path), None, Some(v1[i].body), None, 1.0)];
    }
    assert events + [] == events;
    for j := 0 to |v2|
      invariant events == PairEvents(v1, v2, ps) + RemovedEvents(v1, paired1, |v1|) + AddedEvents(v2, paired2, j)
    {
      ResidualSnoc(v2, paired2, j);
      if j in paired2 {
        continue;
      }
      Associate(PairEvents(v1, v2, ps) + RemovedEvents(v1, paired1, |v1|), AddedEvents(v2, paired2, j), [AddedEvent(v2[j])]);
      events := events + [ChangeEvent(Added, None, Some(v2[j].path), None, Some(v2[j].body), 1.0)];
    }
  }

  /** Aligns two trees and returns the residual change events. No event construction is refused. */
  method AlignTrees(root1: Clause, root2: Clause, t: Tuning) returns (events: seq<ChangeEvent>)
    requires ValidTuning(t)
    ensures Sized(CandidatesOf(Walk(root1), t), t.signatureSize) && Sized(CandidatesOf(Walk(root2), t), t.signatureSize)
    ensures events == Aligned(CandidatesOf(Walk(root1), t), CandidatesOf(Walk(root2), t), t)
    ensures AllValid(events)
  {
    var v1 := CollectCandidates(root1, t);
    var v2 := CollectCandidates(root2, t);
    CandidatesSized(Walk(root1), t);
    CandidatesSized(Walk(root2), t);
    var first, paired1, paired2 := PassHeadingMatch(v1, v2, t, {}, {});
    assert first == Pass2(v1, v2, t);
    assert paired1 == Lefts(first) && paired2 == Rights(first);
    var second, after1, after2 := PassContentMonotonic(v1, v2, t, paired1, paired2);
    LeftsRightsConcat(first, second);
    MakePairsGood(v1, v2, t);
    events := EmitEvents(v1, v2, after1, after2, first + second);
    EventsValid(v1, v2, t);
  }

  lemma CandidatesSized(nodes: seq<Clause>, t: Tuning)
    requires ValidTuning(t)
    ensures Sized(CandidatesOf(nodes, t), t.signatureSize)
  {
    CandidatesDerived(nodes, t);
    SignatureLengths(CandidatesOf(nodes, t), t);
  }

  lemma {:induction false} LeftsRightsConcat(a: seq<Pair>, b: seq<Pair>)
    ensures Lefts(a + b) == Lefts(a) + Lefts(b)
    ensures Rights(a + b) == Rights(a) + Rights(b)
  {
    if b == [] {
      assert a + b == a;
    } else {
      var n := |b| - 1;
      LeftsRightsConcat(a, b[..n]);
      LeftsRightsSnoc(a + b[..n], b[n]);
      LeftsRightsSnoc(b[..n], b[n]);
      assert a + b == (a + b[..n]) + [b[n]];
      assert b == b[..n] + [b[n]];
    }
  }

  /** Every emitted event passes the validator. */
  lemma EventsValid(v1: seq<Candidate>, v2: seq<Candidate>, t: Tuning)
    requires 1 <= t.bands && 1 <= t.signatureSize && 0.0 < t.threshold <= 1.0 && Sized(v1, t.signatureSize) && Sized(v2, t.signatureSize)
    ensures AllValid(Aligned(v1, v2, t))
  {
    hide MakePairs, GoodPairs, PairEvents, RemovedEvents, AddedEvents, Lefts, Rights;
    MakePairsGood(v1, v2, t);
    var ps := MakePairs(v1, v2, t);
    PairEventsValid(v1, v2, ps);
    ResidualsValid(v1, Lefts(ps), |v1|);
    ResidualsValid(v2, Rights(ps), |v2|);
  }

  lemma {:induction false} PairEventsValid(v1: seq<Candidate>, v2: seq<Candidate>, ps: seq<Pair>)
    requires GoodPairs(v1, v2, ps)
    ensures AllValid(PairEvents(v1, v2, ps))
  {
    if ps != [] {
      PairEventsValid(v1, v2, ps[..|ps| - 1]);
    }
  }

  lemma {:induction false} ResidualsValid(v: seq<Candidate>, paired: set<nat>, n: nat)
    requires n <= |v|
    ensures AllValid(RemovedEvents(v, paired, n)) && AllValid(AddedEvents(v, paired, n))
  {
    if n > 0 {
      ResidualsValid(v, paired, n - 1);
    }
  }

  // ----- the events are a patch -----

  /** The (name, body) entry of a candidate. */
  ghost function Entry<T>(c: Candidate, name: Path -> T): multiset<(T, string)> {
    multiset{(name(c.path), c.body)}
  }

  /** The entries of a candidate list, with multiplicity. */
  ghost function Contents<T>(v: seq<Candidate>, name: Path -> T): multiset<(T, string)> {
    FirstEntries(v, |v|, name)
  }

  /** The entries at positions below `n`. */
  ghost function FirstEntries<T>(v: seq<Candidate>, n: nat, name: Path -> T): multiset<(T, string)>
    requires n <= |v|
  {
    if n == 0 then multiset{} else FirstEntries(v, n - 1, name) + Entry(v[n - 1], name)
  }

  /** The entries at positions below `n` that lie in `chosen`. */
  ghost function Chosen<T>(v: seq<Candidate>, chosen: set<nat>, n: nat, name: Path -> T): multiset<(T, string)>
    requires n <= |v|
  {
    if n == 0 then multiset{}
    else if n - 1 in chosen then Chosen(v, chosen, n - 1, name) + Entry(v[n - 1], name)
    else Chosen(v, chosen, n - 1, name)
  }

  lemma {:induction false} ChosenAdd<T>(v: seq<Candidate>, chosen: set<nat>, k: nat, n: nat, name: Path -> T)
    requires n <= |v| && k !in chosen
    ensures k >= n ==> Chosen(v, chosen + {k}, n, name) == Chosen(v, chosen, n, name)
    ensures k < n ==> Chosen(v, chosen + {k}, n, name) == Chosen(v, chosen, n, name) + Entry(v[k], name)
  {
    hide Entry;
    if n > 0 {
      ChosenAdd(v, chosen, k, n - 1, name);
      var a, b := Chosen(v, chosen, n - 1, name), Chosen(v, chosen + {k}, n - 1, name);
      if k < n - 1 && n - 1 in chosen {
        assert b + Entry(v[n - 1], name) == a + Entry(v[n - 1], name) + Entry(v[k], name);
      }
    }
  }

  lemma RemovedStep<T>(v: seq<Candidate>, chosen: set<nat>, n: nat, name: Path -> T)
    requires 1 <= n <= |v|
    ensures Befores(RemovedEvents(v, chosen, n), name)
      == Befores(RemovedEvents(v, chosen, n - 1), name) + if n - 1 in chosen then multiset{} else Entry(v[n - 1], name)
    ensures Afters(RemovedEvents(v, chosen, n), name) == Afters(RemovedEvents(v, chosen, n - 1), name)
  {
    var front := RemovedEvents(v, chosen, n - 1);
    if n - 1 in chosen {
      assert front + [] == front;
    } else {
      SidesConcat(front, [RemovedEvent(v[n - 1])], name);
      SidesSingle(RemovedEvent(v[n - 1]), name);
    }
  }

  lemma AddedStep<T>(v: seq<Candidate>, chosen: set<nat>, n: nat, name: Path -> T)
    requires 1 <= n <= |v|
    ensures Afters(AddedEvents(v, chosen, n), name)
      == Afters(AddedEvents(v, chosen, n - 1), name) + if n - 1 in chosen then multiset{} else Entry(v[n - 1], name)
    ensures Befores(AddedEvents(v, chosen, n), name) == Befores(AddedEvents(v, chosen, n - 1), name)
  {
    var front := AddedEvents(v, chosen, n - 1);
    if n - 1 in chosen {
      assert front + [] == front;
    } else {
      SidesConcat(front, [AddedEvent(v[n - 1])], name);
      SidesSingle(AddedEvent(v[n - 1]), name);
    }
  }

  /** The entries at positions below `n` outside `chosen`. */
  ghost function Unchosen<T>(v: seq<Candidate>, chosen: set<nat>, n: nat, name: Path -> T): multiset<(T, string)>
    requires n <= |v|
  {
    if n == 0 then multiset{}
    else if n - 1 in chosen then Unchosen(v, chosen, n - 1, name)
    else Unchosen(v, chosen, n - 1, name) + Entry(v[n - 1], name)
  }

  lemma {:induction false} ChosenOrNot<T>(v: seq<Candidate>, chosen: set<nat>, n: nat, name: Path -> T)
    requires n <= |v|
    ensures FirstEntries(v, n, name) == Chosen(v, chosen, n, name) + Unchosen(v, chosen, n, name)
  {
    if n > 0 {
      ChosenOrNot(v, chosen, n - 1, name);
    }
  }

  /** The REMOVED events hold exactly the entries of the old side that were not chosen. */
  lemma {:induction false} RemovedComplete<T>(v: seq<Candidate>, chosen: set<nat>, n: nat, name: Path -> T)
    requires n <= |v|
    ensures Befores(RemovedEvents(v, chosen, n), name) == Unchosen(v, chosen, n, name)
  {
    hide Entry, AddedEvents, Afters;
    if n > 0 {
      RemovedComplete(v, chosen, n - 1, name);
      RemovedStep(v, chosen, n, name);
    }
  }

  /** The ADDED events hold exactly the entries of the new side that were not chosen. */
  lemma {:induction false} AddedComplete<T>(v: seq<Candidate>, chosen: set<nat>, n: nat, name: Path -> T)
    requires n <= |v|
    ensures Afters(AddedEvents(v, chosen, n), name) == Unchosen(v, chosen, n, name)
  {
    hide Entry, RemovedEvents, Befores;
    if n > 0 {
      AddedComplete(v, chosen, n - 1, name);
      AddedStep(v, chosen, n, name);
    }
  }

  /** REMOVED events have no after side. */
  lemma {:induction false} RemovedOneSided<T>(v: seq<Candidate>, chosen: set<nat>, n: nat, name: Path -> T)
    requires n <= |v|
    ensures |Afters(RemovedEvents(v, chosen, n), name)| == 0
  {
    hide Entry, AddedEvents, Befores;
    if n > 0 {
      RemovedOneSided(v, chosen, n - 1, name);
      RemovedStep(v, chosen, n, name);
    }
  }

  /** ADDED events have no before side. */
  lemma {:induction false} AddedOneSided<T>(v: seq<Candidate>, chosen: set<nat>, n: nat, name: Path -> T)
    requires n <= |v|
    ensures |Befores(AddedEvents(v, chosen, n), name)| == 0
  {
    hide Entry, RemovedEvents, Afters;
    if n > 0 {
      AddedOneSided(v, chosen, n - 1, name);
      AddedStep(v, chosen, n, name);
    }
  }

  lemma NothingChosen<T>(v: seq<Candidate>, n: nat, name: Path -> T)
    requires n <= |v|
    ensures Chosen(v, {}, n, name) == multiset{}
  {
  }

  /** The sides of one pair's event, next to the unchanged case. */
  lemma PairSides<T>(c1: Candidate, c2: Candidate, conf: real, name: Path -> T)
    ensures Befores(PairEvent(c1, c2, conf), name) <= Entry(c1, name)
    ensures Entry(c1, name) + Afters(PairEvent(c1, c2, conf), name) == Entry(c2, name) + Befores(PairEvent(c1, c2, conf), name)
  {
    var es := PairEvent(c1, c2, conf);
    if es != [] {
      SidesSingle(es[0], name);
    }
  }

  /** Pairs turn their old entries into their new ones. */
  lemma {:induction false} PairsPatch<T>(v1: seq<Candidate>, v2: seq<Candidate>, ps: seq<Pair>, name: Path -> T)
    requires GoodPairs(v1, v2, ps)
    ensures Befores(PairEvents(v1, v2, ps), name) <= Chosen(v1, Lefts(ps), |v1|, name)
    ensures Chosen(v1, Lefts(ps), |v1|, name) + Afters(PairEvents(v1, v2, ps), name)
      == Chosen(v2, Rights(ps), |v2|, name) + Befores(PairEvents(v1, v2, ps), name)
  {
    if ps == [] {
      NothingChosen(v1, |v1|, name);
      NothingChosen(v2, |v2|, name);
      assert Lefts(ps) == {} && Rights(ps) == {};
    } else {
      var n := |ps| - 1;
      var front, p := ps[..n], ps[n];
      assert ps == front + [p];
      PairsPatch(v1, v2, front, name);
      PairsPatchStep(v1, v2, front, p, name);
    }
  }

  lemma PairsPatchStep<T>(v1: seq<Candidate>, v2: seq<Candidate>, front: seq<Pair>, p: Pair, name: Path -> T)
    requires GoodPairs(v1, v2, front + [p]) && GoodPairs(v1, v2, front)
    requires Befores(PairEvents(v1, v2, front), name) <= Chosen(v1, Lefts(front), |v1|, name)
    requires Chosen(v1, Lefts(front), |v1|, name) + Afters(PairEvents(v1, v2, front), name)
      == Chosen(v2, Rights(front), |v2|, name) + Befores(PairEvents(v1, v2, front), name)
    ensures var ps := front + [p];
      && Befores(PairEvents(v1, v2, ps), name) <= Chosen(v1, Lefts(ps), |v1|, name)
      && Chosen(v1, Lefts(ps), |v1|, name) + Afters(PairEvents(v1, v2, ps), name)
        == Chosen(v2, Rights(ps), |v2|, name) + Befores(PairEvents(v1, v2, ps), name)
  {
    var ps := front + [p];
    assert ps[|front|] == p && ps[..|front|] == front;
    assert forall k :: 0 <= k < |front| ==> ps[k] == front[k] && !Clash(ps[k], ps[|front|]);
    LeftsRightsSnoc(front, p);
    ChosenAdd(v1, Lefts(front), p.i, |v1|, name);
    ChosenAdd(v2, Rights(front), p.j, |v2|, name);
    var es := PairEvent(v1[p.i], v2[p.j], p.conf);
    SidesConcat(PairEvents(v1, v2, front), es, name);
    PairSides(v1[p.i], v2[p.j], p.conf, name);
    var c1, c2 := Chosen(v1, Lefts(front), |v1|, name), Chosen(v2, Rights(front), |v2|, name);
    var b, a := Befores(PairEvents(v1, v2, front), name), Afters(PairEvents(v1, v2, front), name);
    SumOfEqualities(c1, a, c2, b, Entry(v1[p.i], name), Afters(es, name), Entry(v2[p.j], name), Befores(es, name));
  }

  lemma SumOfEqualities<T>(c1: multiset<T>, a: multiset<T>, c2: multiset<T>, b: multiset<T>,
                           e1: multiset<T>, ea: multiset<T>, e2: multiset<T>, eb: multiset<T>)
    requires c1 + a == c2 + b && e1 + ea == e2 + eb && b <= c1 && eb <= e1
    ensures (c1 + e1) + (a + ea) == (c2 + e2) + (b + eb)
    ensures b + eb <= c1 + e1
  {
    assert (c1 + e1) + (a + ea) == (c1 + a) + (e1 + ea);
    assert (c2 + e2) + (b + eb) == (c2 + b) + (e2 + eb);
  }

  /** Diff and patch: taking every event's before side out of the old contents and putting every
      after side in gives exactly the new contents, under any naming of the paths. */
  lemma AlignedIsAPatch<T>(v1: seq<Candidate>, v2: seq<Candidate>, t: Tuning, name: Path -> T)
    requires 1 <= t.bands && 1 <= t.signatureSize && 0.0 < t.threshold <= 1.0 && Sized(v1, t.signatureSize) && Sized(v2, t.signatureSize)
    ensures var es := Aligned(v1, v2, t);
      && Befores(es, name) <= Contents(v1, name)
      && Contents(v1, name) - Befores(es, name) + Afters(es, name) == Contents(v2, name)
  {
    MakePairsGood(v1, v2, t);
    var ps := MakePairs(v1, v2, t);
    PairsPatch(v1, v2, ps, name);
    RemovedComplete(v1, Lefts(ps), |v1|, name);
    ChosenOrNot(v1, Lefts(ps), |v1|, name);
    ChosenOrNot(v2, Rights(ps), |v2|, name);
    AddedComplete(v2, Rights(ps), |v2|, name);
    RemovedOneSided(v1, Lefts(ps), |v1|, name);
    AddedOneSided(v2, Rights(ps), |v2|, name);
    var pe, re, ae := PairEvents(v1, v2, ps), RemovedEvents(v1, Lefts(ps), |v1|), AddedEvents(v2, Rights(ps), |v2|);
    SidesConcat(pe, re, name);
    SidesConcat(pe + re, ae, name);
    PatchArithmetic(Chosen(v1, Lefts(ps), |v1|, name), Chosen(v2, Rights(ps), |v2|, name),
                    Befores(pe, name), Afters(pe, name), Befores(re, name), Afters(ae, name));
  }

  lemma PatchArithmetic<T>(c1: multiset<T>, c2: multiset<T>, b: multiset<T>, a: multiset<T>, r: multiset<T>, d: multiset<T>)
    requires b <= c1 && c1 + a == c2 + b
    ensures b + r <= c1 + r && (c1 + r) - (b + r) + (a + d) == c2 + d
  {
    assert (c1 + r) - (b + r) == c1 - b;
    assert c1 - b + a == c2 by {
      forall x
        ensures (c1 - b + a)[x] == c2[x]
      {
        assert (c1 + a)[x] == (c2 + b)[x] && b[x] <= c1[x];
      }
    }
    assert (c1 - b) + (a + d) == (c1 - b + a) + d;
  }

  // ----- idempotence -----

  /** Re-ingesting an unchanged version is a zero-row operation: equal candidate lists, repeated
      headings and bodies included, yield no events. */
  lemma AlignedWithItself(v: seq<Candidate>, t: Tuning)
    requires 1 <= t.bands && 1 <= t.signatureSize && 0.0 < t.threshold <= 1.0 && Sized(v, t.signatureSize)
    ensures Aligned(v, v, t) == []
  {
    var first := Pass2(v, v, t);
    var second := Pass3(v, v, t, Lefts(first), Rights(first));
    assert second != [] ==> second[0] in second;
    Pass2PairsAll(v, t);
    MakePairsGood(v, v, t);
    Pass3Sound(v, v, t, Lefts(first), Rights(first));
    assert MakePairs(v, v, t) == first;
    DiagonalSilent(v, first);
    AllPairedSilent(v, Lefts(first), |v|);
    AllPairedSilent(v, Rights(first), |v|);
  }

  lemma Pass2PairsAll(v: seq<Candidate>, t: Tuning)
    requires t.threshold <= 1.0 && Sized(v, t.signatureSize)
    ensures forall k: nat :: k < |v| ==> k in Lefts(Pass2(v, v, t)) && k in Rights(Pass2(v, v, t))
    ensures forall k :: 0 <= k < |Pass2(v, v, t)| ==> Pass2(v, v, t)[k].i == Pass2(v, v, t)[k].j < |v|
  {
    var first := Pass2(v, v, t);
    Pass2Diagonal(v, t);
    forall k: nat | k < |v|
      ensures k in Lefts(first) && k in Rights(first)
    {
      assert Diagonal(v, k) in Elements(first);
      var x :| 0 <= x < |first| && first[x] == Diagonal(v, k);
      assert first[x].i == k && first[x].j == k;
    }
    forall k | 0 <= k < |first|
      ensures first[k].i == first[k].j < |v|
    {
      assert first[k] in Elements(first);
    }
  }

  lemma {:induction false} DiagonalSilent(v: seq<Candidate>, ps: seq<Pair>)
    requires forall k :: 0 <= k < |ps| ==> ps[k].i == ps[k].j < |v|
    ensures PairEvents(v, v, ps) == []
  {
    if ps != [] {
      DiagonalSilent(v, ps[..|ps| - 1]);
    }
  }

  lemma {:induction false} AllPairedSilent(v: seq<Candidate>, paired: set<nat>, n: nat)
    requires n <= |v| && forall k: nat :: k < n ==> k in paired
    ensures RemovedEvents(v, paired, n) == [] && AddedEvents(v, paired, n) == []
  {
    if n > 0 {
      AllPairedSilent(v, paired, n - 1);
    }
  }

  // ----- where an event comes from -----

  /** `e` is the event of pair `p`. */
  ghost predicate IsEventOf(v1: seq<Candidate>, v2: seq<Candidate>, p: Pair, e: ChangeEvent) {
    p.i < |v1| && p.j < |v2| && PairEvent(v1[p.i], v2[p.j], p.conf) == [e]
  }

  lemma {:induction false} PairEventOrigin(v1: seq<Candidate>, v2: seq<Candidate>, ps: seq<Pair>, e: ChangeEvent)
    requires GoodPairs(v1, v2, ps)
    ensures e in PairEvents(v1, v2, ps) <==> exists p :: p in ps && IsEventOf(v1, v2, p, e)
  {
    if ps != [] {
      var n := |ps| - 1;
      PairEventOrigin(v1, v2, ps[..n], e);
      assert ps == ps[..n] + [ps[n]];
      assert e in PairEvent(v1[ps[n].i], v2[ps[n].j], ps[n].conf) <==> IsEventOf(v1, v2, ps[n], e);
    }
  }

  lemma {:induction false} RemovedOrigin(v: seq<Candidate>, paired: set<nat>, n: nat, e: ChangeEvent)
    requires n <= |v|
    ensures e in RemovedEvents(v, paired, n) <==> exists i: nat :: i < n && i !in paired && e == RemovedEvent(v[i])
  {
    hide RemovedEvent;
    if n > 0 {
      RemovedOrigin(v, paired, n - 1, e);
    }
  }

  lemma {:induction false} AddedOrigin(v: seq<Candidate>, paired: set<nat>, n: nat, e: ChangeEvent)
    requires n <= |v|
    ensures e in AddedEvents(v, paired, n) <==> exists j: nat :: j < n && j !in paired && e == AddedEvent(v[j])
  {
    hide AddedEvent;
    if n > 0 {
      AddedOrigin(v, paired, n - 1, e);
    }
  }

  /** `e` comes from the pairing `ps`. */
  ghost predicate Originates(v1: seq<Candidate>, v2: seq<Candidate>, ps: seq<Pair>, e: ChangeEvent) {
    || (exists p :: p in ps && IsEventOf(v1, v2, p, e))
    || (exists i: nat :: i < |v1| && i !in Lefts(ps) && e == RemovedEvent(v1[i]))
    || (exists j: nat :: j < |v2| && j !in Rights(ps) && e == AddedEvent(v2[j]))
  }

  /** Every event is the event of one pair, the removal of one unpaired old position, or the
      addition of one unpaired new position; and all of those are emitted. */
  lemma EventOrigin(v1: seq<Candidate>, v2: seq<Candidate>, t: Tuning, e: ChangeEvent)
    requires 1 <= t.bands && 1 <= t.signatureSize && 0.0 < t.threshold <= 1.0 && Sized(v1, t.signatureSize) && Sized(v2, t.signatureSize)
    ensures var ps := MakePairs(v1, v2, t);
      e in Aligned(v1, v2, t) <==> Originates(v1, v2, ps, e)
  {
    var ps := MakePairs(v1, v2, t);
    MakePairsGood(v1, v2, t);
    PairEventOrigin(v1, v2, ps, e);
    RemovedOrigin(v1, Lefts(ps), |v1|, e);
    AddedOrigin(v2, Rights(ps), |v2|, e);
  }

  /** Where an event's confidence comes from: 1 for an addition or a removal, and for the others the
      confidence of a pair whose clauses it names. */
  lemma EventConfidence(v1: seq<Candidate>, v2: seq<Candidate>, t: Tuning, e: ChangeEvent)
    requires 1 <= t.bands && 1 <= t.signatureSize && 0.0 < t.threshold <= 1.0
    requires Sized(v1, t.signatureSize) && Sized(v2, t.signatureSize) && e in Aligned(v1, v2, t)
    ensures e.kind == Added || e.kind == Removed ==> e.conf == 1.0
    ensures e.kind == Moved || e.kind == Modified ==> exists p ::
      && p in MakePairs(v1, v2, t) && p.i < |v1| && p.j < |v2|
      && e.beforePath == Some(v1[p.i].path) && e.beforeText == Some(v1[p.i].body)
      && e.afterPath == Some(v2[p.j].path) && e.afterText == Some(v2[p.j].body)
      && e.conf == p.conf
  {
    hide MakePairs, Aligned;
    EventOrigin(v1, v2, t, e);
  }

  /** The order of the events: first those of pairs, then the removals, then the additions. */
  lemma EventsInOrder(v1: seq<Candidate>, v2: seq<Candidate>, t: Tuning)
    requires 1 <= t.bands && 1 <= t.signatureSize && 0.0 < t.threshold <= 1.0
    requires Sized(v1, t.signatureSize) && Sized(v2, t.signatureSize)
    ensures var es := Aligned(v1, v2, t);
      forall k, l :: 0 <= k < l < |es| ==>
        && (es[k].kind == Added ==> es[l].kind == Added)
        && (es[k].kind == Removed ==> es[l].kind == Removed || es[l].kind == Added)
  {
    hide MakePairs, GoodPairs, PairEvents, RemovedEvents, AddedEvents, Lefts, Rights;
    MakePairsGood(v1, v2, t);
    var ps := MakePairs(v1, v2, t);
    PairKinds(v1, v2, ps);
    ResidualKinds(v1, Lefts(ps), |v1|);
    ResidualKinds(v2, Rights(ps), |v2|);
  }

  lemma {:induction false} PairKinds(v1: seq<Candidate>, v2: seq<Candidate>, ps: seq<Pair>)
    requires GoodPairs(v1, v2, ps)
    ensures forall k :: 0 <= k < |PairEvents(v1, v2, ps)| ==> PairEvents(v1, v2, ps)[k].kind in {Moved, Modified}
  {
    if ps != [] {
      PairKinds(v1, v2, ps[..|ps| - 1]);
    }
  }

  lemma {:induction false} ResidualKinds(v: seq<Candidate>, paired: set<nat>, n: nat)
    requires n <= |v|
    ensures forall k :: 0 <= k < |RemovedEvents(v, paired, n)| ==> RemovedEvents(v, paired, n)[k].kind == Removed
    ensures forall k :: 0 <= k < |AddedEvents(v, paired, n)| ==> AddedEvents(v, paired, n)[k].kind == Added
  {
    if n > 0 {
      ResidualKinds(v, paired, n - 1);
    }
  }

  // ----- every position accounted for -----

  /** Number of pairs whose path or body changed. */
  function ChangedPairs(v1: seq<Candidate>, v2: seq<Candidate>, ps: seq<Pair>): nat
    requires forall k :: 0 <= k < |ps| ==> ps[k].i < |v1| && ps[k].j < |v2|
  {
    if ps == [] then 0 else
      var n := |ps| - 1;
      var c1, c2 := v1[ps[n].i], v2[ps[n].j];
      ChangedPairs(v1, v2, ps[..n]) + if c1.path == c2.path && c1.body == c2.body then 0 else 1
  }

  lemma {:induction false} PairEventCount(v1: seq<Candidate>, v2: seq<Candidate>, ps: seq<Pair>)
    requires forall k :: 0 <= k < |ps| ==> ps[k].i < |v1| && ps[k].j < |v2|
    ensures |PairEvents(v1, v2, ps)| == ChangedPairs(v1, v2, ps)
  {
    if ps != [] {
      PairEventCount(v1, v2, ps[..|ps| - 1]);
    }
  }

  function PairedBelow(paired: set<nat>, n: nat): set<nat> {
    set k | k in paired && k < n
  }

  lemma {:induction false} ResidualCount(v: seq<Candidate>, paired: set<nat>, n: nat)
    requires n <= |v|
    ensures |RemovedEvents(v, paired, n)| + |PairedBelow(paired, n)| == n
    ensures |AddedEvents(v, paired, n)| + |PairedBelow(paired, n)| == n
  {
    if n == 0 {
      assert PairedBelow(paired, 0) == {};
    } else {
      ResidualCount(v, paired, n - 1);
      if n - 1 in paired {
        assert PairedBelow(paired, n) == PairedBelow(paired, n - 1) + {n - 1};
      } else {
        assert PairedBelow(paired, n) == PairedBelow(paired, n - 1);
      }
    }
  }

  lemma {:induction false} EndsCount(ps: seq<Pair>)
    requires Disjoint(ps)
    ensures |Lefts(ps)| == |ps| == |Rights(ps)|
  {
    hide Lefts, Rights, Clash;
    if ps == [] {
      NoEnds();
    } else {
      var front, p := ps[..|ps| - 1], ps[|ps| - 1];
      EndsCount(front);
      LeftsRightsSnoc(front, p);
      assert ps == front + [p];
      EndsFresh(ps);
    }
  }

  lemma NoEnds()
    ensures Lefts([]) == {} == Rights([])
  {
  }

  lemma EndsFresh(ps: seq<Pair>)
    requires Disjoint(ps) && ps != []
    ensures ps[|ps| - 1].i !in Lefts(ps[..|ps| - 1]) && ps[|ps| - 1].j !in Rights(ps[..|ps| - 1])
  {
    forall k | 0 <= k < |ps| - 1
      ensures ps[k].i != ps[|ps| - 1].i && ps[k].j != ps[|ps| - 1].j
    {
      assert !Clash(ps[k], ps[|ps| - 1]);
    }
  }

  /** Every position lies in one pair or one residual event: there are as many events as changed
      pairs, unpaired old positions and unpaired new positions. */
  lemma EventCount(v1: seq<Candidate>, v2: seq<Candidate>, t: Tuning)
    requires 1 <= t.bands && 1 <= t.signatureSize && 0.0 < t.threshold <= 1.0 && Sized(v1, t.signatureSize) && Sized(v2, t.signatureSize)
    ensures var ps := MakePairs(v1, v2, t);
      && GoodPairs(v1, v2, ps)
      && |Aligned(v1, v2, t)| == ChangedPairs(v1, v2, ps) + (|v1| - |ps|) + (|v2| - |ps|)
  {
    hide MakePairs, PairEvents, RemovedEvents, AddedEvents, ChangedPairs, Lefts, Rights, Disjoint;
    MakePairsGood(v1, v2, t);
    var ps := MakePairs(v1, v2, t);
    EndsCount(ps);
    PairEventCount(v1, v2, ps);
    ResidualCount(v1, Lefts(ps), |v1|);
    ResidualCount(v2, Rights(ps), |v2|);
    EndsBelow(v1, v2, ps);
  }

  lemma EndsBelow(v1: seq<Candidate>, v2: seq<Candidate>, ps: seq<Pair>)
    requires GoodPairs(v1, v2, ps)
    ensures PairedBelow(Lefts(ps), |v1|) == Lefts(ps) && PairedBelow(Rights(ps), |v2|) == Rights(ps)
  {
    hide Disjoint;
  }

  /** No two positions of the list have the same path. */
  ghost predicate UniquePaths(v: seq<Candidate>) {
    forall a, b :: 0 <= a < b < |v| ==> v[a].path != v[b].path
  }

  /** Stability of an unheaded clause: with unique paths, if it has the same path and body in both
      versions it is paired with its counterpart and no event mentions its path, whatever else
      changed around it. */
  lemma UnheadedClauseIsStable(v1: seq<Candidate>, v2: seq<Candidate>, t: Tuning, i: nat, j: nat)
    requires ValidTuning(t) && AllDerived(v1, t) && AllDerived(v2, t)
    requires Sized(v1, t.signatureSize) && Sized(v2, t.signatureSize)
    requires UniquePaths(v1) && UniquePaths(v2)
    requires i < |v1| && j < |v2| && v1[i].heading == v2[j].heading == None
    requires v1[i].path == v2[j].path && v1[i].body == v2[j].body
    ensures exists p :: p in MakePairs(v1, v2, t) && p.i == i && p.j == j
    ensures forall e :: e in Aligned(v1, v2, t) ==> e.beforePath != Some(v1[i].path) && e.afterPath != Some(v1[i].path)
  {
    assert Derived(v1[i], t) && Derived(v2[j], t);
    UnheadedPaired(v1, v2, t, i, j);
    var p0 :| p0 in Pass2(v1, v2, t) && p0.i == i && p0.j == j;
    var ps := MakePairs(v1, v2, t);
    assert p0 in ps;
    MakePairsGood(v1, v2, t);
    forall e | e in Aligned(v1, v2, t)
      ensures e.beforePath != Some(v1[i].path) && e.afterPath != Some(v1[i].path)
    {
      StablePathUnmentioned(v1, v2, t, p0, e);
    }
  }

  lemma DisjointMembers(ps: seq<Pair>, p: Pair, q: Pair)
    requires Disjoint(ps) && p in ps && q in ps && p != q
    ensures !Clash(p, q)
  {
    var k :| 0 <= k < |ps| && ps[k] == p;
    var l :| 0 <= l < |ps| && ps[l] == q;
    assert k < l ==> !Clash(ps[k], ps[l]);
    assert l < k ==> !Clash(ps[l], ps[k]);
  }

  lemma EndsOf(ps: seq<Pair>, p: Pair)
    requires p in ps
    ensures p.i in Lefts(ps) && p.j in Rights(ps)
  {
    var k :| 0 <= k < |ps| && ps[k] == p;
  }

  lemma StablePathUnmentioned(v1: seq<Candidate>, v2: seq<Candidate>, t: Tuning, p0: Pair, e: ChangeEvent)
    requires ValidTuning(t) && Sized(v1, t.signatureSize) && Sized(v2, t.signatureSize)
    requires UniquePaths(v1) && UniquePaths(v2)
    requires p0 in MakePairs(v1, v2, t) && p0.i < |v1| && p0.j < |v2|
    requires v1[p0.i].path == v2[p0.j].path && v1[p0.i].body == v2[p0.j].body
    requires e in Aligned(v1, v2, t)
    ensures e.beforePath != Some(v1[p0.i].path) && e.afterPath != Some(v1[p0.i].path)
  {
    var ps := MakePairs(v1, v2, t);
    MakePairsGood(v1, v2, t);
    EventOrigin(v1, v2, t, e);
    OriginElsewhere(v1, v2, ps, p0, e);
  }

  lemma OriginElsewhere(v1: seq<Candidate>, v2: seq<Candidate>, ps: seq<Pair>, p0: Pair, e: ChangeEvent)
    requires GoodPairs(v1, v2, ps) && UniquePaths(v1) && UniquePaths(v2)
    requires p0 in ps && p0.i < |v1| && p0.j < |v2| && PairEvent(v1[p0.i], v2[p0.j], p0.conf) == []
    requires Originates(v1, v2, ps, e)
    ensures e.beforePath != Some(v1[p0.i].path) && e.afterPath != Some(v1[p0.i].path)
  {
    EndsOf(ps, p0);
    if p :| p in ps && IsEventOf(v1, v2, p, e) {
      ChangedPairElsewhere(v1, v2, ps, p0, p);
    } else if i: nat :| i < |v1| && i !in Lefts(ps) && e == RemovedEvent(v1[i]) {
      assert v1[i].path != v1[p0.i].path;
    } else {
      var j: nat :| j < |v2| && j !in Rights(ps) && e == AddedEvent(v2[j]);
      assert v2[j].path != v2[p0.j].path;
    }
  }

  lemma ChangedPairElsewhere(v1: seq<Candidate>, v2: seq<Candidate>, ps: seq<Pair>, p0: Pair, p: Pair)
    requires Disjoint(ps) && p0 in ps && p in ps
    requires p0.i < |v1| && p0.j < |v2| && p.i < |v1| && p.j < |v2|
    requires UniquePaths(v1) && UniquePaths(v2)
    requires PairEvent(v1[p0.i], v2[p0.j], p0.conf) == [] && PairEvent(v1[p.i], v2[p.j], p.conf) != []
    ensures v1[p.i].path != v1[p0.i].path && v2[p.j].path != v2[p0.j].path
  {
    DisjointMembers(ps, p, p0);
  }
}
