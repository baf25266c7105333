/** A growing tree kept as child lists over creation-order indices: pre-order listing, the open
    spine, and why appending below the spine appends to the listing. */
module Arena {
  import opened Prelude

  /** `kids[i]` lists the children of node `i`, oldest first. */
  type Kids = seq<seq<nat>>

  /** Children are younger than their parent. */
  ghost predicate Younger(kids: Kids, i: nat, cs: seq<nat>) {
    forall k :: 0 <= k < |cs| ==> i < cs[k] < |kids|
  }

  ghost predicate WellFormed(kids: Kids) {
    forall i :: 0 <= i < |kids| ==> Younger(kids, i, kids[i])
  }

  /** Pre-order listing of the subtree of `i`. */
  ghost function Pre(kids: Kids, i: nat): seq<nat>
    requires WellFormed(kids) && i < |kids|
    decreases |kids| - i, |kids[i]| + 1
  {
    [i] + PreAll(kids, i, kids[i])
  }

  ghost function PreAll(kids: Kids, i: nat, cs: seq<nat>): seq<nat>
    requires WellFormed(kids) && i < |kids| && Younger(kids, i, cs)
    decreases |kids| - i, |cs|
  {
    if cs == [] then [] else Pre(kids, cs[0]) + PreAll(kids, i, cs[1..])
  }

  lemma {:induction false} PreAllConcat(kids: Kids, i: nat, a: seq<nat>, b: seq<nat>)
    requires WellFormed(kids) && i < |kids| && Younger(kids, i, a) && Younger(kids, i, b)
    ensures Younger(kids, i, a + b)
    ensures PreAll(kids, i, a + b) == PreAll(kids, i, a) + PreAll(kids, i, b)
  {
    hide Pre, WellFormed;
    YoungerConcat(kids, i, a, b);
    if a == [] {
      assert a + b == b;
      Nothing(PreAll(kids, i, b));
    } else {
      TailOfConcat(a, b);
      PreAllConcat(kids, i, a[1..], b);
      Associate(Pre(kids, a[0]), PreAll(kids, i, a[1..]), PreAll(kids, i, b));
    }
  }

  lemma YoungerConcat(kids: Kids, i: nat, a: seq<nat>, b: seq<nat>)
    requires Younger(kids, i, a) && Younger(kids, i, b)
    ensures Younger(kids, i, a + b)
    ensures a != [] ==> Younger(kids, i, a[1..])
  {
  }

  lemma TailOfConcat<T>(a: seq<T>, b: seq<T>)
    requires a != []
    ensures (a + b)[0] == a[0] && (a + b)[1..] == a[1..] + b
  {
  }

  lemma Nothing<T>(a: seq<T>)
    ensures [] + a == a
  {
  }

  /** Subtrees hold only indices at or above their root. */
  lemma {:induction false} PreAbove(kids: Kids, i: nat)
    requires WellFormed(kids) && i < |kids|
    ensures forall x :: x in Pre(kids, i) ==> i <= x < |kids|
    decreases |kids| - i, |kids[i]| + 1
  {
    PreAllAbove(kids, i, kids[i]);
  }

  lemma {:induction false} PreAllAbove(kids: Kids, i: nat, cs: seq<nat>)
    requires WellFormed(kids) && i < |kids| && Younger(kids, i, cs)
    ensures forall x :: x in PreAll(kids, i, cs) ==> i < x < |kids|
    decreases |kids| - i, |cs|
  {
    if cs != [] {
      PreAbove(kids, cs[0]);
      PreAllAbove(kids, i, cs[1..]);
    }
  }

  /** Appends a new node as the youngest child of `p`. */
  function Grow(kids: Kids, p: nat): Kids
    requires p < |kids|
  {
    kids[p := kids[p] + [|kids|]] + [[]]
  }

  lemma GrowWellFormed(kids: Kids, p: nat)
    requires WellFormed(kids) && p < |kids|
    ensures WellFormed(Grow(kids, p))
  {
    var g := Grow(kids, p);
    forall i | 0 <= i < |g|
      ensures Younger(g, i, g[i])
    {
      if i < |kids| {
        assert Younger(kids, i, kids[i]);
      }
    }
  }

  /** Growing below `p` leaves the listing of every subtree without `p` alone. */
  lemma {:induction false} GrowElsewhere(kids: Kids, p: nat, i: nat)
    requires WellFormed(kids) && p < |kids| && i < |kids| && p !in Pre(kids, i)
    ensures WellFormed(Grow(kids, p)) && Pre(Grow(kids, p), i) == Pre(kids, i)
    decreases |kids| - i, |kids[i]| + 1
  {
    GrowWellFormed(kids, p);
    GrowElsewhereAll(kids, p, i, kids[i]);
  }

  lemma {:induction false} GrowElsewhereAll(kids: Kids, p: nat, i: nat, cs: seq<nat>)
    requires WellFormed(kids) && p < |kids| && i < |kids| && Younger(kids, i, cs) && p !in PreAll(kids, i, cs)
    ensures WellFormed(Grow(kids, p)) && Younger(Grow(kids, p), i, cs)
    ensures PreAll(Grow(kids, p), i, cs) == PreAll(kids, i, cs)
    decreases |kids| - i, |cs|
  {
    GrowWellFormed(kids, p);
    if cs != [] {
      GrowElsewhere(kids, p, cs[0]);
      GrowElsewhereAll(kids, p, i, cs[1..]);
    }
  }

  ghost function Range(a: nat, b: nat): (r: seq<nat>)
    requires a <= b
    ensures |r| == b - a && forall k :: 0 <= k < |r| ==> r[k] == a + k
  {
    seq(b - a, k requires 0 <= k => a + k)
  }

  /** The open nodes: a path from the root along youngest children, each listing everything
      created since it was opened. */
  ghost predicate Spine(kids: Kids, stack: seq<nat>)
    requires WellFormed(kids)
  {
    && stack != [] && stack[0] == 0
    && (forall k :: 0 <= k < |stack| ==> stack[k] < |kids| && Pre(kids, stack[k]) == Range(stack[k], |kids|))
    && (forall k :: 0 <= k < |stack| - 1 ==>
          kids[stack[k]] != [] && kids[stack[k]][|kids[stack[k]]| - 1] == stack[k + 1])
  }

  /** Later stack entries are younger. */
  lemma {:induction false} SpineIncreasing(kids: Kids, stack: seq<nat>, a: nat, b: nat)
    requires WellFormed(kids) && Spine(kids, stack) && a < b < |stack|
    ensures stack[a] < stack[b]
    decreases b - a
  {
    assert Younger(kids, stack[b - 1], kids[stack[b - 1]]);
    if a < b - 1 {
      SpineIncreasing(kids, stack, a, b - 1);
    }
  }

  lemma RangeSplit(a: nat, m: nat, b: nat, left: seq<nat>)
    requires a < m <= b && [a] + left + Range(m, b) == Range(a, b)
    ensures left == Range(a + 1, m)
  {
    var whole := [a] + left + Range(m, b);
    assert |left| == m - a - 1;
    forall k | 0 <= k < |left|
      ensures left[k] == a + 1 + k
    {
      assert whole[k + 1] == left[k];
    }
  }

  lemma RangeJoin(a: nat, m: nat, b: nat)
    requires a < m <= b
    ensures [a] + Range(a + 1, m) + Range(m, b) == Range(a, b)
  {
  }

  lemma PreChildless(kids: Kids, i: nat)
    requires WellFormed(kids) && i < |kids| && kids[i] == []
    ensures Pre(kids, i) == [i]
  {
  }

  lemma GrowAtTop(kids: Kids, p: nat)
    requires WellFormed(kids) && p < |kids| && Pre(kids, p) == Range(p, |kids|)
    ensures WellFormed(Grow(kids, p))
    ensures Pre(Grow(kids, p), p) == Range(p, |kids| + 1)
  {
    var n, g := |kids|, Grow(kids, p);
    GrowWellFormed(kids, p);
    assert Younger(kids, p, kids[p]);
    PreAllAbove(kids, p, kids[p]);
    GrowElsewhereAll(kids, p, p, kids[p]);
    assert g[p] == kids[p] + [n];
    PreLast(g, p, kids[p], n);
    PreChildless(g, n);
  }

  /** A listing that ends with its youngest child's listing. */
  lemma PreLast(kids: Kids, s: nat, init: seq<nat>, c: nat)
    requires WellFormed(kids) && s < |kids| && kids[s] == init + [c]
    ensures s < c < |kids| && Younger(kids, s, init)
    ensures Pre(kids, s) == [s] + PreAll(kids, s, init) + Pre(kids, c)
  {
    assert Younger(kids, s, kids[s]) && kids[s][|init|] == c;
    forall k | 0 <= k < |init|
      ensures s < init[k] < |kids|
    {
      assert kids[s][k] == init[k];
    }
    PreAllConcat(kids, s, init, [c]);
    assert [c][1..] == [];
    assert PreAll(kids, s, [c]) == Pre(kids, c);
  }

  /** One step down the spine: node `s`, whose youngest child is `c`, when `p` lies in `c`'s part. */
  lemma GrowBelowChild(kids: Kids, p: nat, s: nat, c: nat)
    requires WellFormed(kids) && s < c <= p < |kids|
    requires Pre(kids, s) == Range(s, |kids|) && Pre(kids, c) == Range(c, |kids|)
    requires kids[s] != [] && kids[s][|kids[s]| - 1] == c
    requires WellFormed(Grow(kids, p)) && Pre(Grow(kids, p), c) == Range(c, |kids| + 1)
    ensures Pre(Grow(kids, p), s) == Range(s, |kids| + 1)
  {
    var n, g := |kids|, Grow(kids, p);
    var init := kids[s][..|kids[s]| - 1];
    assert kids[s] == init + [c] == g[s];
    PreLast(kids, s, init, c);
    PreLast(g, s, init, c);
    RangeSplit(s, c, n, PreAll(kids, s, init));
    GrowElsewhereAll(kids, p, s, init);
    RangeJoin(s, c, n + 1);
  }

  /** After growing below stack entry `k`, entry `j <= k` lists the new node at its end. */
  lemma {:induction false} GrowOnSpine(kids: Kids, stack: seq<nat>, k: nat, j: nat)
    requires WellFormed(kids) && Spine(kids, stack) && j <= k < |stack|
    ensures WellFormed(Grow(kids, stack[k]))
    ensures Pre(Grow(kids, stack[k]), stack[j]) == Range(stack[j], |kids| + 1)
    decreases k - j
  {
    if j == k {
      GrowAtTop(kids, stack[k]);
    } else {
      GrowOnSpine(kids, stack, k, j + 1);
      SpineIncreasing(kids, stack, j, j + 1);
      if j + 1 < k {
        SpineIncreasing(kids, stack, j + 1, k);
      }
      GrowBelowChild(kids, stack[k], stack[j], stack[j + 1]);
    }
  }

  /** Adding a node below open entry `k`, with the entries above `k` closed, keeps the spine, and
      the new node may itself be opened. */
  lemma GrowKeepsSpine(kids: Kids, stack: seq<nat>, k: nat)
    requires WellFormed(kids) && Spine(kids, stack) && k < |stack|
    ensures WellFormed(Grow(kids, stack[k]))
    ensures Spine(Grow(kids, stack[k]), stack[..k + 1])
    ensures Spine(Grow(kids, stack[k]), stack[..k + 1] + [|kids|])
  {
    hide Pre, Range;
    var p, n := stack[k], |kids|;
    var g := Grow(kids, p);
    GrowWellFormed(kids, p);
    forall j: nat | j <= k
      ensures Pre(g, stack[j]) == Range(stack[j], |g|)
    {
      GrowOnSpine(kids, stack, k, j);
    }
    forall j: nat | j < k
      ensures g[stack[j]] == kids[stack[j]]
    {
      SpineIncreasing(kids, stack, j, k);
    }
    assert g[n] == [];
    PreChildless(g, n);
    RangeOne(n);
    var pushed := stack[..k + 1] + [n];
    assert forall j :: 0 <= j <= k ==> pushed[j] == stack[j];
  }

  lemma RangeOne(n: nat)
    ensures Range(n, n + 1) == [n]
  {
  }

  /** Closing the youngest open nodes keeps the spine. */
  lemma PopKeepsSpine(kids: Kids, stack: seq<nat>, k: nat)
    requires WellFormed(kids) && Spine(kids, stack) && k < |stack|
    ensures Spine(kids, stack[..k + 1])
  {
  }
}
