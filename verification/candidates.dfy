/** The clauses considered for alignment: every node with a non-blank body, in walk order. */
module Candidates {
  import opened Prelude
  import opened Text
  import opened Clauses
  import opened Similarity

  /** What alignment reads of a clause, with the signature of its body. `shingled` is false
      when the body is too short to shingle. */
  datatype Candidate = Candidate(
    path: Path,
    heading: Option<string>,
    body: string,
    signature: seq<nat>,
    shingled: bool)

  function CandidateOf(c: Clause, t: Tuning): Candidate
    requires 1 <= t.shingleK
  {
    var shingles := Shingles(c.body, t.shingleK);
    Candidate(c.path, c.heading, c.body, t.minhash(shingles), shingles != {})
  }

  /** The candidates among `nodes`, in order. */
  function CandidatesOf(nodes: seq<Clause>, t: Tuning): (r: seq<Candidate>)
    requires 1 <= t.shingleK
  {
    if nodes == [] then []
    else (if Strip(nodes[0].body) == "" then [] else [CandidateOf(nodes[0], t)]) + CandidatesOf(nodes[1..], t)
  }

  /** Signature and flag are functions of the body, and the body is not blank. */
  ghost predicate Derived(c: Candidate, t: Tuning)
    requires 1 <= t.shingleK
  {
    && Strip(c.body) != ""
    && c.signature == t.minhash(Shingles(c.body, t.shingleK))
    && (c.shingled <==> Shingles(c.body, t.shingleK) != {})
  }

  ghost predicate AllDerived(cs: seq<Candidate>, t: Tuning)
    requires 1 <= t.shingleK
  {
    forall k :: 0 <= k < |cs| ==> Derived(cs[k], t)
  }

  lemma {:induction false} CandidatesDerived(nodes: seq<Clause>, t: Tuning)
    requires 1 <= t.shingleK
    ensures AllDerived(CandidatesOf(nodes, t), t)
  {
    if nodes != [] {
      CandidatesDerived(nodes[1..], t);
    }
  }

  lemma {:induction false} CandidatesConcat(a: seq<Clause>, b: seq<Clause>, t: Tuning)
    requires 1 <= t.shingleK
    ensures CandidatesOf(a + b, t) == CandidatesOf(a, t) + CandidatesOf(b, t)
  {
    if a == [] {
      assert a + b == b;
    } else {
      assert (a + b)[1..] == a[1..] + b;
      CandidatesConcat(a[1..], b, t);
    }
  }

  /** Which nodes become candidates, and what of them: `at` lists the positions of the nodes with a body
      that is not blank, and each candidate is that node's path, heading and body, the signature of the
      shingles of its body, and whether the body has words enough for one. */
  lemma {:induction false} CandidatesAt(nodes: seq<Clause>, t: Tuning) returns (at: seq<nat>)
    requires 1 <= t.shingleK
    ensures |at| == |CandidatesOf(nodes, t)| && forall x, y :: 0 <= x < y < |at| ==> at[x] < at[y]
    ensures forall k: nat :: k in at <==> k < |nodes| && Strip(nodes[k].body) != ""
    ensures forall x :: 0 <= x < |at| ==>
      && at[x] < |nodes|
      && CandidatesOf(nodes, t)[x] == Candidate(
           nodes[at[x]].path, nodes[at[x]].heading, nodes[at[x]].body,
           t.minhash(Shingles(nodes[at[x]].body, t.shingleK)), |Tokens(nodes[at[x]].body)| >= t.shingleK)
  {
    hide Strip, Shingles, Tokens, CandidatesOf, CandidateOf;
    if nodes == [] {
      NoCandidatesYet(t);
      at := [];
    } else {
      var n := |nodes| - 1;
      var front := nodes[..n];
      at := CandidatesAt(front, t);
      assert nodes[..n + 1] == nodes;
      CandidatesUpTo(nodes, n, t);
      assert forall x :: 0 <= x < |at| ==> at[x] in at;
      CandidateIs(nodes[n], t);
      assert forall x :: 0 <= x < |at| ==> front[at[x]] == nodes[at[x]];
      if Strip(nodes[n].body) != "" {
        at := at + [n];
      }
    }
  }

  lemma CandidatesLast(nodes: seq<Clause>, t: Tuning)
    requires 1 <= t.shingleK && nodes != []
    ensures var n := |nodes| - 1;
      CandidatesOf(nodes, t) ==
        if Strip(nodes[n].body) == "" then CandidatesOf(nodes[..n], t) else CandidatesOf(nodes[..n], t) + [CandidateOf(nodes[n], t)]
  {
    hide Strip, CandidatesOf, CandidateOf;
    CandidatesUpTo(nodes, |nodes| - 1, t);
    assert nodes[..|nodes| - 1 + 1] == nodes;
  }

  lemma CandidateIs(c: Clause, t: Tuning)
    requires 1 <= t.shingleK
    ensures CandidateOf(c, t) == Candidate(
      c.path, c.heading, c.body, t.minhash(Shingles(c.body, t.shingleK)), |Tokens(c.body)| >= t.shingleK)
  {
    hide Tokens;
  }

  /** Signatures of derived candidates all have the configured length. */
  lemma SignatureLengths(cs: seq<Candidate>, t: Tuning)
    requires ValidTuning(t) && AllDerived(cs, t)
    ensures forall k :: 0 <= k < |cs| ==> |cs[k].signature| == t.signatureSize
  {
    forall k | 0 <= k < |cs|
      ensures |cs[k].signature| == t.signatureSize
    {
      assert Derived(cs[k], t);
    }
  }

  lemma NoCandidatesYet(t: Tuning)
    requires 1 <= t.shingleK
    ensures CandidatesOf([], t) == []
  {
  }

  lemma CandidatesUpTo(nodes: seq<Clause>, k: nat, t: Tuning)
    requires 1 <= t.shingleK && k < |nodes|
    ensures CandidatesOf(nodes[..k + 1], t) ==
      if Strip(nodes[k].body) == "" then CandidatesOf(nodes[..k], t) else CandidatesOf(nodes[..k], t) + [CandidateOf(nodes[k], t)]
  {
    hide Strip, CandidateOf;
    TakeSnoc(nodes, k);
    CandidatesConcat(nodes[..k], [nodes[k]], t);
    assert [nodes[k]][1..] == [];
    assert CandidatesOf(nodes[..k], t) + [] == CandidatesOf(nodes[..k], t);
  }

  /** Walks the tree and gathers the candidates. */
  method CollectCandidates(root: Clause, t: Tuning) returns (result: seq<Candidate>)
    requires ValidTuning(t)
    ensures result == CandidatesOf(Walk(root), t)
  {
    hide CandidatesOf, Strip, Shingles, Walk;
    result := [];
    var nodes := Walk(root);
    NoCandidatesYet(t);
    for k := 0 to |nodes|
      invariant result == CandidatesOf(nodes[..k], t)
    {
      CandidatesUpTo(nodes, k, t);
      if Strip(nodes[k].body) == "" {
        continue;
      }
      var shingles := Shingles(nodes[k].body, t.shingleK);
      var signature := t.minhash(shingles);
      result := result + [Candidate(nodes[k].path, nodes[k].heading, nodes[k].body, signature, shingles != {})];
    }
    assert nodes[..|nodes|] == nodes;
  }
}
