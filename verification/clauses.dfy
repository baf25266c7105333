/** The immutable clause tree and its pre-order walk. */
module Clauses {
  import opened Prelude

  /** A clause path: the segments from the root down. */
  type Path = seq<string>

  datatype Clause = Clause(
    path: Path,
    heading: Option<string>,
    body: string,
    numbering: Option<string>,
    children: seq<Clause>)

  /** Depth-first pre-order: the node, then its descendants. */
  function Walk(c: Clause): (r: seq<Clause>)
    ensures r != [] && r[0] == c
  {
    [c] + WalkAll(c.children)
  }

  function WalkAll(cs: seq<Clause>): seq<Clause> {
    if cs == [] then [] else Walk(cs[0]) + WalkAll(cs[1..])
  }

  lemma {:induction false} WalkAllSnoc(cs: seq<Clause>, c: Clause)
    ensures WalkAll(cs + [c]) == WalkAll(cs) + Walk(c)
  {
    if cs == [] {
      assert cs + [c] == [c] && [c][1..] == [];
    } else {
      assert (cs + [c])[1..] == cs[1..] + [c];
      WalkAllSnoc(cs[1..], c);
    }
  }

  /** A clause without children. */
  predicate Leaf(c: Clause) {
    c.children == []
  }

  /** Walking a list of leaves lists them. */
  lemma {:induction false} WalkLeaves(cs: seq<Clause>)
    requires forall c :: c in cs ==> Leaf(c)
    ensures WalkAll(cs) == cs
  {
    if cs != [] {
      assert Leaf(cs[0]) && WalkAll(cs[0].children) == [];
      WalkLeaves(cs[1..]);
      assert cs == [cs[0]] + cs[1..];
    }
  }
}
