/** Pass 3's dynamic program: a maximum-weight non-crossing matching of two sequences over a
    sparse similarity table. */
module MonotonicPass {
  import opened Prelude

  /** Similarity of an old index and a new index; only candidate pairs have an entry. */
  type Sim = map<(nat, nat), real>

  datatype Move = SkipV1 | SkipV2 | PairUp

  /** One step of a matching: positions into the two sequences. */
  datatype Cell = Cell(x: nat, y: nat)

  // ----- the table as functions -----

  /** One table cell from its three neighbours: pair on ties, prefer skipping an old entry over
      skipping a new one. `score` is the paired total, when the pair has a similarity. */
  function Relax(up: real, left: real, score: Option<real>): (r: (real, Move))
    ensures r.0 >= up && r.0 >= left && (score.Some? ==> r.0 >= score.value)
    ensures r.1 == PairUp <==> score == Some(r.0)
    ensures r.1 == SkipV1 <==> score != Some(r.0) && r.0 == up
    ensures r.1 == SkipV2 ==> r.0 == left
  {
    var skip := if left > up then (left, SkipV2) else (up, SkipV1);
    if score.Some? && score.value >= skip.0 then (score.value, PairUp) else skip
  }

  /** `dp[a][b]`: what the table holds for the first `a` old and first `b` new entries. */
  function Best(sim: Sim, xs: seq<nat>, ys: seq<nat>, a: nat, b: nat): (r: real)
    requires a <= |xs| && b <= |ys|
    ensures r >= 0.0
    decreases a + b
  {
    if a == 0 || b == 0 then 0.0 else
      Relax(Best(sim, xs, ys, a - 1, b), Best(sim, xs, ys, a, b - 1),
            Score(sim, xs[a - 1], ys[b - 1], Best(sim, xs, ys, a - 1, b - 1))).0
  }

  function Score(sim: Sim, x: nat, y: nat, diagonal: real): Option<real> {
    if (x, y) in sim then Some(diagonal + sim[(x, y)]) else None
  }

  /** `trace[a][b]`. */
  function MoveAt(sim: Sim, xs: seq<nat>, ys: seq<nat>, a: nat, b: nat): Move
    requires 1 <= a <= |xs| && 1 <= b <= |ys|
  {
    Relax(Best(sim, xs, ys, a - 1, b), Best(sim, xs, ys, a, b - 1),
          Score(sim, xs[a - 1], ys[b - 1], Best(sim, xs, ys, a - 1, b - 1))).1
  }

  /** The cells the traceback collects from `(a, b)`, last one first. */
  function Traceback(sim: Sim, xs: seq<nat>, ys: seq<nat>, a: nat, b: nat): seq<Cell>
    requires a <= |xs| && b <= |ys|
    decreases a + b
  {
    if a == 0 || b == 0 then [] else
      match MoveAt(sim, xs, ys, a, b)
      case PairUp => [Cell(a - 1, b - 1)] + Traceback(sim, xs, ys, a - 1, b - 1)
      case SkipV1 => Traceback(sim, xs, ys, a - 1, b)
      case SkipV2 => Traceback(sim, xs, ys, a, b - 1)
  }

  // ----- matchings -----

  /** A non-crossing matching of the first `a` old with the first `b` new entries, listed from
      the last pair down: both positions strictly decrease, and every pair has a similarity. */
  ghost predicate NonCrossing(sim: Sim, xs: seq<nat>, ys: seq<nat>, m: seq<Cell>, a: nat, b: nat)
    requires a <= |xs| && b <= |ys|
  {
    && (forall k :: 0 <= k < |m| ==> m[k].x < a && m[k].y < b && (xs[m[k].x], ys[m[k].y]) in sim)
    && (forall k, l :: 0 <= k < l < |m| ==> m[l].x < m[k].x && m[l].y < m[k].y)
  }

  /** Total similarity of a matching. */
  ghost function Weight(sim: Sim, xs: seq<nat>, ys: seq<nat>, m: seq<Cell>): real
    requires forall k :: 0 <= k < |m| ==> m[k].x < |xs| && m[k].y < |ys| && (xs[m[k].x], ys[m[k].y]) in sim
  {
    if m == [] then 0.0 else sim[(xs[m[0].x], ys[m[0].y])] + Weight(sim, xs, ys, m[1..])
  }

  lemma ConsCell(sim: Sim, xs: seq<nat>, ys: seq<nat>, c: Cell, m: seq<Cell>)
    requires c.x < |xs| && c.y < |ys| && (xs[c.x], ys[c.y]) in sim
    requires NonCrossing(sim, xs, ys, m, c.x, c.y)
    ensures NonCrossing(sim, xs, ys, [c] + m, c.x + 1, c.y + 1)
    ensures Weight(sim, xs, ys, [c] + m) == sim[(xs[c.x], ys[c.y])] + Weight(sim, xs, ys, m)
  {
    assert ([c] + m)[1..] == m;
  }

  /** What each move says about the entry it explains. */
  lemma MoveMeaning(sim: Sim, xs: seq<nat>, ys: seq<nat>, a: nat, b: nat)
    requires 1 <= a <= |xs| && 1 <= b <= |ys|
    ensures match MoveAt(sim, xs, ys, a, b)
      case PairUp =>
        (xs[a - 1], ys[b - 1]) in sim
        && Best(sim, xs, ys, a, b) == Best(sim, xs, ys, a - 1, b - 1) + sim[(xs[a - 1], ys[b - 1])]
      case SkipV1 => Best(sim, xs, ys, a, b) == Best(sim, xs, ys, a - 1, b)
      case SkipV2 => Best(sim, xs, ys, a, b) == Best(sim, xs, ys, a, b - 1)
  {
  }

  /** How the traceback decides, in terms of the optima alone: it pairs whenever pairing loses nothing,
      else skips the old entry when that loses nothing, else the new one. */
  lemma PairsOnTies(sim: Sim, xs: seq<nat>, ys: seq<nat>, a: nat, b: nat)
    requires 1 <= a <= |xs| && 1 <= b <= |ys|
    ensures var x, y, best := xs[a - 1], ys[b - 1], Best(sim, xs, ys, a, b);
      Traceback(sim, xs, ys, a, b) ==
        if (x, y) in sim && Best(sim, xs, ys, a - 1, b - 1) + sim[(x, y)] == best then
          [Cell(a - 1, b - 1)] + Traceback(sim, xs, ys, a - 1, b - 1)
        else if Best(sim, xs, ys, a - 1, b) == best then Traceback(sim, xs, ys, a - 1, b)
        else Traceback(sim, xs, ys, a, b - 1)
  {
  }

  lemma NothingPaired(sim: Sim, xs: seq<nat>, ys: seq<nat>, a: nat, b: nat)
    requires a <= |xs| && b <= |ys| && (a == 0 || b == 0)
    ensures NonCrossing(sim, xs, ys, [], a, b) && Weight(sim, xs, ys, []) == Best(sim, xs, ys, a, b)
  {
  }

  lemma WidenBounds(sim: Sim, xs: seq<nat>, ys: seq<nat>, m: seq<Cell>, a: nat, b: nat, a': nat, b': nat)
    requires a <= a' <= |xs| && b <= b' <= |ys| && NonCrossing(sim, xs, ys, m, a, b)
    ensures NonCrossing(sim, xs, ys, m, a', b')
  {
  }

  /** The traceback is a non-crossing matching whose weight is the table entry it starts from. */
  lemma {:induction false} TracebackAttains(sim: Sim, xs: seq<nat>, ys: seq<nat>, a: nat, b: nat)
    requires a <= |xs| && b <= |ys|
    ensures NonCrossing(sim, xs, ys, Traceback(sim, xs, ys, a, b), a, b)
    ensures Weight(sim, xs, ys, Traceback(sim, xs, ys, a, b)) == Best(sim, xs, ys, a, b)
    decreases a + b
  {
    hide Best, MoveAt, NonCrossing, Weight;
    if a == 0 || b == 0 {
      NothingPaired(sim, xs, ys, a, b);
    } else {
      MoveMeaning(sim, xs, ys, a, b);
      TracebackStep(sim, xs, ys, a, b);
      match MoveAt(sim, xs, ys, a, b)
      case PairUp =>
        TracebackAttains(sim, xs, ys, a - 1, b - 1);
        ConsCell(sim, xs, ys, Cell(a - 1, b - 1), Traceback(sim, xs, ys, a - 1, b - 1));
      case SkipV1 =>
        TracebackAttains(sim, xs, ys, a - 1, b);
        WidenBounds(sim, xs, ys, Traceback(sim, xs, ys, a - 1, b), a - 1, b, a, b);
      case SkipV2 =>
        TracebackAttains(sim, xs, ys, a, b - 1);
        WidenBounds(sim, xs, ys, Traceback(sim, xs, ys, a, b - 1), a, b - 1, a, b);
    }
  }

  /** No non-crossing matching outweighs the table entry. */
  lemma {:induction false} BestIsUpperBound(sim: Sim, xs: seq<nat>, ys: seq<nat>, m: seq<Cell>, a: nat, b: nat)
    requires a <= |xs| && b <= |ys| && NonCrossing(sim, xs, ys, m, a, b)
    ensures Weight(sim, xs, ys, m) <= Best(sim, xs, ys, a, b)
    decreases a + b
  {
    hide Relax, MoveAt;
    if m != [] {
      var h := m[0];
      if h.x < a - 1 {
        BestIsUpperBound(sim, xs, ys, m, a - 1, b);
      } else if h.y < b - 1 {
        BestIsUpperBound(sim, xs, ys, m, a, b - 1);
      } else {
        BestIsUpperBound(sim, xs, ys, m[1..], a - 1, b - 1);
      }
    }
  }

  /** The traceback from the last corner is optimal: it is a non-crossing matching, and no other
      non-crossing matching weighs more. */
  lemma TracebackOptimal(sim: Sim, xs: seq<nat>, ys: seq<nat>, other: seq<Cell>)
    requires NonCrossing(sim, xs, ys, other, |xs|, |ys|)
    ensures NonCrossing(sim, xs, ys, Traceback(sim, xs, ys, |xs|, |ys|), |xs|, |ys|)
    ensures Weight(sim, xs, ys, other) <= Weight(sim, xs, ys, Traceback(sim, xs, ys, |xs|, |ys|))
  {
    TracebackAttains(sim, xs, ys, |xs|, |ys|);
    BestIsUpperBound(sim, xs, ys, other, |xs|, |ys|);
  }

  /** Without similarities nothing is paired. */
  lemma TracebackOfNothing(sim: Sim, xs: seq<nat>, ys: seq<nat>)
    requires sim == map[]
    ensures Traceback(sim, xs, ys, |xs|, |ys|) == []
  {
    TracebackAttains(sim, xs, ys, |xs|, |ys|);
  }

  // ----- the algorithm -----

  /** Cell `(a, b)` of both tables is right. */
  ghost predicate CellRight(sim: Sim, xs: seq<nat>, ys: seq<nat>, dp: array2<real>, trace: array2<Move>, a: nat, b: nat)
    requires a <= |xs| && b <= |ys|
    requires dp.Length0 == trace.Length0 == |xs| + 1 && dp.Length1 == trace.Length1 == |ys| + 1
    reads dp, trace
  {
    && dp[a, b] == Best(sim, xs, ys, a, b)
    && (a > 0 && b > 0 ==> trace[a, b] == MoveAt(sim, xs, ys, a, b))
  }

  /** Computes one cell from its neighbours, as the loop body does. */
  method RelaxCell(up: real, left: real, diagonal: real, sim: Sim, key: (nat, nat)) returns (best: real, move: Move)
    ensures (best, move) == Relax(up, left, Score(sim, key.0, key.1, diagonal))
  {
    best := up;
    move := SkipV1;
    if left > best {
      best := left;
      move := SkipV2;
    }
    if key in sim {
      var score := diagonal + sim[key];
      if score >= best {
        best := score;
        move := PairUp;
      }
    }
  }

  lemma CellFormula(sim: Sim, xs: seq<nat>, ys: seq<nat>, a: nat, b: nat)
    requires 1 <= a <= |xs| && 1 <= b <= |ys|
    ensures (Best(sim, xs, ys, a, b), MoveAt(sim, xs, ys, a, b))
      == Relax(Best(sim, xs, ys, a - 1, b), Best(sim, xs, ys, a, b - 1),
               Score(sim, xs[a - 1], ys[b - 1], Best(sim, xs, ys, a - 1, b - 1)))
  {
  }

  lemma EdgesAreZero(sim: Sim, xs: seq<nat>, ys: seq<nat>)
    ensures forall a: nat :: a <= |xs| ==> Best(sim, xs, ys, a, 0) == 0.0
    ensures forall b: nat :: b <= |ys| ==> Best(sim, xs, ys, 0, b) == 0.0
  {
  }

  /** Fills row `a` of the two tables from the row above it, cell by cell. */
  method FillRow(sim: Sim, xs: seq<nat>, ys: seq<nat>, dp: array2<real>, trace: array2<Move>, a: nat)
    requires dp.Length0 == trace.Length0 == |xs| + 1 && dp.Length1 == trace.Length1 == |ys| + 1
    requires 1 <= a <= |xs|
    requires forall x, y :: 0 <= x < a && 0 <= y <= |ys| ==> CellRight(sim, xs, ys, dp, trace, x, y)
    requires CellRight(sim, xs, ys, dp, trace, a, 0)
    modifies dp, trace
    ensures forall y :: 0 <= y <= |ys| ==> CellRight(sim, xs, ys, dp, trace, a, y)
    ensures forall x, y :: 0 <= x <= |xs| && 0 <= y <= |ys| && (x != a || y == 0) ==>
      dp[x, y] == old(dp[x, y]) && trace[x, y] == old(trace[x, y])
  {
    hide Best, MoveAt, Relax, Score;
    for b := 1 to |ys| + 1
      invariant forall y :: 0 <= y < b ==> CellRight(sim, xs, ys, dp, trace, a, y)
      invariant forall x, y :: 0 <= x <= |xs| && 0 <= y <= |ys| && (x != a || y == 0) ==>
        dp[x, y] == old(dp[x, y]) && trace[x, y] == old(trace[x, y])
    {
      assert old(CellRight(sim, xs, ys, dp, trace, a - 1, b));
      assert old(CellRight(sim, xs, ys, dp, trace, a - 1, b - 1));
      assert CellRight(sim, xs, ys, dp, trace, a, b - 1);
      CellFormula(sim, xs, ys, a, b);
      var best, move := RelaxCell(dp[a - 1, b], dp[a, b - 1], dp[a - 1, b - 1], sim, (xs[a - 1], ys[b - 1]));
      label before:
      dp[a, b] := best;
      trace[a, b] := move;
      forall y | 0 <= y < b
        ensures CellRight(sim, xs, ys, dp, trace, a, y)
      {
        assert old@before(CellRight(sim, xs, ys, dp, trace, a, y));
      }
    }
  }

  /** Fills the two tables row by row. */
  method FillTables(sim: Sim, xs: seq<nat>, ys: seq<nat>) returns (dp: array2<real>, trace: array2<Move>)
    ensures fresh(dp) && fresh(trace)
    ensures dp.Length0 == trace.Length0 == |xs| + 1 && dp.Length1 == trace.Length1 == |ys| + 1
    ensures forall a, b :: 0 <= a <= |xs| && 0 <= b <= |ys| ==> CellRight(sim, xs, ys, dp, trace, a, b)
  {
    hide Best, MoveAt, Relax, Score;
    EdgesAreZero(sim, xs, ys);
    dp := new real[|xs| + 1, |ys| + 1]((_, _) => 0.0);
    trace := new Move[|xs| + 1, |ys| + 1]((_, _) => SkipV1);
    for a := 1 to |xs| + 1
      invariant forall x, y :: 0 <= x < a && 0 <= y <= |ys| ==> CellRight(sim, xs, ys, dp, trace, x, y)
      invariant forall x :: 0 <= x <= |xs| ==> CellRight(sim, xs, ys, dp, trace, x, 0)
    {
      label before:
      FillRow(sim, xs, ys, dp, trace, a);
      forall x, y | 0 <= x < a && 0 <= y <= |ys|
        ensures CellRight(sim, xs, ys, dp, trace, x, y)
      {
        assert old@before(CellRight(sim, xs, ys, dp, trace, x, y));
      }
      forall x | 0 <= x <= |xs|
        ensures CellRight(sim, xs, ys, dp, trace, x, 0)
      {
        assert old@before(CellRight(sim, xs, ys, dp, trace, x, 0));
      }
    }
  }

  /** Walks back from the last corner, collecting the paired cells. */
  method WalkBack(sim: Sim, xs: seq<nat>, ys: seq<nat>, dp: array2<real>, trace: array2<Move>) returns (cells: seq<Cell>)
    requires dp.Length0 == trace.Length0 == |xs| + 1 && dp.Length1 == trace.Length1 == |ys| + 1
    requires forall a, b :: 0 <= a <= |xs| && 0 <= b <= |ys| ==> CellRight(sim, xs, ys, dp, trace, a, b)
    ensures cells == Traceback(sim, xs, ys, |xs|, |ys|)
  {
    hide Traceback, MoveAt, Best;
    cells := [];
    var a, b := |xs|, |ys|;
    assert [] + Traceback(sim, xs, ys, a, b) == Traceback(sim, xs, ys, a, b);
    while a > 0 && b > 0
      invariant 0 <= a <= |xs| && 0 <= b <= |ys|
      invariant cells + Traceback(sim, xs, ys, a, b) == Traceback(sim, xs, ys, |xs|, |ys|)
      decreases a + b
    {
      assert CellRight(sim, xs, ys, dp, trace, a, b);
      TracebackStep(sim, xs, ys, a, b);
      match trace[a, b]
      case PairUp =>
        Associate(cells, [Cell(a - 1, b - 1)], Traceback(sim, xs, ys, a - 1, b - 1));
        cells := cells + [Cell(a - 1, b - 1)];
        a, b := a - 1, b - 1;
      case SkipV1 => a := a - 1;
      case SkipV2 => b := b - 1;
    }
    TracebackEdge(sim, xs, ys, a, b);
    assert cells + [] == cells;
  }

  lemma TracebackStep(sim: Sim, xs: seq<nat>, ys: seq<nat>, a: nat, b: nat)
    requires 1 <= a <= |xs| && 1 <= b <= |ys|
    ensures Traceback(sim, xs, ys, a, b) ==
      match MoveAt(sim, xs, ys, a, b)
      case PairUp => [Cell(a - 1, b - 1)] + Traceback(sim, xs, ys, a - 1, b - 1)
      case SkipV1 => Traceback(sim, xs, ys, a - 1, b)
      case SkipV2 => Traceback(sim, xs, ys, a, b - 1)
  {
    hide MoveAt;
  }

  lemma TracebackEdge(sim: Sim, xs: seq<nat>, ys: seq<nat>, a: nat, b: nat)
    requires a <= |xs| && b <= |ys| && (a == 0 || b == 0)
    ensures Traceback(sim, xs, ys, a, b) == []
  {
  }

  /** The dynamic program: the returned matching is non-crossing, its weight is the last table
      entry, and no other non-crossing matching weighs more. */
  method BestMonotoneMatching(sim: Sim, xs: seq<nat>, ys: seq<nat>) returns (cells: seq<Cell>, total: real)
    ensures cells == Traceback(sim, xs, ys, |xs|, |ys|)
    ensures NonCrossing(sim, xs, ys, cells, |xs|, |ys|)
    ensures total == Weight(sim, xs, ys, cells)
    ensures forall other :: NonCrossing(sim, xs, ys, other, |xs|, |ys|) ==> Weight(sim, xs, ys, other) <= total
  {
    var dp, trace := FillTables(sim, xs, ys);
    cells := WalkBack(sim, xs, ys, dp, trace);
    assert CellRight(sim, xs, ys, dp, trace, |xs|, |ys|);
    total := dp[|xs|, |ys|];
    TracebackAttains(sim, xs, ys, |xs|, |ys|);
    forall other | NonCrossing(sim, xs, ys, other, |xs|, |ys|)
      ensures Weight(sim, xs, ys, other) <= total
    {
      TracebackOptimal(sim, xs, ys, other);
    }
  }
}
