/** Ingesting the same document again: parse, store, reload, diff, carry uids and write rows gives the
    stored rows back. */
module Reingest {
  import opened Prelude
  import opened Text
  import opened Clauses
  import opened Similarity
  import opened Candidates
  import opened Align
  import opened Rows
  import opened Identity
  import opened Transition
  import opened ParserSegments
  import opened PollHistory
  import Builder
  import Parser

  /** The paths of the persistable nodes are distinct and survive storage. */
  predicate Durable(nodes: seq<Clause>) {
    && (forall k :: 0 <= k < |nodes| && Persistable(nodes[k]) ==> RoundTrips(nodes[k].path))
    && (forall a, b :: 0 <= a < b < |nodes| && Persistable(nodes[a]) && Persistable(nodes[b]) ==> nodes[a].path != nodes[b].path)
  }

  lemma DurableStorable(nodes: seq<Clause>)
    requires Durable(nodes)
    ensures Storable(nodes)
  {
    hide Persistable, JoinPath, SplitPath;
    forall a, b | 0 <= a < b < |nodes| && Persistable(nodes[a]) && Persistable(nodes[b])
      ensures JoinPath(nodes[a].path) != JoinPath(nodes[b].path)
    {
      assert RoundTrips(nodes[a].path) && RoundTrips(nodes[b].path);
    }
  }

  lemma CandidatePathsDurable(nodes: seq<Clause>, t: Tuning)
    requires 1 <= t.shingleK && Durable(nodes)
    ensures forall c :: c in CandidatesOf(nodes, t) ==> RoundTrips(c.path)
  {
    hide Strip, RoundTrips, Shingles;
    forall c | c in CandidatesOf(nodes, t)
      ensures RoundTrips(c.path)
    {
      CandidateFrom(nodes, t, c);
      var k :| 0 <= k < |nodes| && Strip(nodes[k].body) != "" && c == CandidateOf(nodes[k], t);
      assert Persistable(nodes[k]);
    }
  }

  /** Rows depend on the uids of persistable paths only. */
  lemma {:induction false} ClauseRowsFrame(nodes: seq<Clause>, uids: map<Path, Uid>, uids': map<Path, Uid>)
    requires HasUids(nodes, uids) && HasUids(nodes, uids')
    requires forall k :: 0 <= k < |nodes| && Persistable(nodes[k]) ==> uids[nodes[k].path] == uids'[nodes[k].path]
    ensures ClauseRows(nodes, uids) == ClauseRows(nodes, uids')
  {
    hide Persistable, JoinPath;
    if nodes != [] {
      var front := nodes[..|nodes| - 1];
      ClauseRowsFrame(front, uids, uids');
      assert nodes[|nodes| - 1] == nodes[|front|];
    }
  }

  /** The uid loaded for a persistable node is the one stored with it. */
  lemma LoadedUid(nodes: seq<Clause>, uids: map<Path, Uid>, k: nat)
    requires HasUids(nodes, uids) && Durable(nodes) && k < |nodes| && Persistable(nodes[k])
    ensures var prev := UidByPath(ClauseRows(nodes, uids));
      nodes[k].path in prev && prev[nodes[k].path] == uids[nodes[k].path]
  {
    hide Persistable, JoinPath, SplitPath, UidByPath, ClauseRows;
    DurableStorable(nodes);
    StorableIff(nodes, uids);
    UidByPathExact(ClauseRows(nodes, uids));
    var x := RowOfNode(nodes, uids, k);
    assert RoundTrips(nodes[k].path);
  }

  lemma SidesEqual(tree: Clause, uids: map<Path, Uid>, t: Tuning)
    requires ValidTuning(t) && HasUids(Walk(tree), uids) && Durable(Walk(tree))
    ensures OldSide(ClauseRows(Walk(tree), uids), t) == NewSide(tree, t)
  {
    hide Walk, CandidatesOf, ClauseRows, RoundTrips;
    CandidatePathsDurable(Walk(tree), t);
    StoreThenLoad(tree, uids, t);
  }

  lemma Inherits(prev: map<Path, Uid>, path: Path)
    requires path in prev
    ensures InheritedUid(PairedBefore([]), prev, path) == Some(prev[path])
  {
  }

  /** Storing a tree and ingesting it again emits no event and writes the same rows, uids included. */
  lemma ReingestReproduces(tree: Clause, uids: map<Path, Uid>, t: Tuning, next: Uid)
    requires ValidTuning(t) && HasUids(Walk(tree), uids) && Durable(Walk(tree))
    ensures var rows := ClauseRows(Walk(tree), uids);
      Diff(rows, tree, t) == [] && NewRows(rows, tree, t, next) == rows
  {
    hide Walk, Aligned, CandidatesOf, ClauseRows, UidByPath, BuildUids, Persistable, RoundTrips, InheritedUid, PairedBefore;
    var nodes, rows := Walk(tree), ClauseRows(Walk(tree), uids);
    SidesEqual(tree, uids, t);
    AlignedWithItself(NewSide(tree, t), t);
    var prev := UidByPath(rows);
    UidsFacts(nodes, PairedBefore([]), prev, next);
    var again := NewUids(rows, tree, t, next).uids;
    forall k | 0 <= k < |nodes| && Persistable(nodes[k])
      ensures again[nodes[k].path] == uids[nodes[k].path]
    {
      LoadedUid(nodes, uids, k);
      Inherits(prev, nodes[k].path);
    }
    ClauseRowsFrame(nodes, again, uids);
  }

  /** So does every document without a slash in a label. */
  lemma ParsedReingests(cfg: Builder.Config, blocks: seq<Builder.Block>, uids: map<Path, Uid>, t: Tuning, next: Uid)
    requires Builder.ValidConfig(cfg) && !cfg.isWord('/') && SlashFree(cfg, blocks) && ValidTuning(t)
    requires HasUids(Walk(Parser.Parsed(cfg, blocks)), uids)
    ensures var tree := Parser.Parsed(cfg, blocks);
      var rows := ClauseRows(Walk(tree), uids);
      Diff(rows, tree, t) == [] && NewRows(rows, tree, t, next) == rows
  {
    hide Walk, Parser.Parsed, Aligned, CandidatesOf, ClauseRows, NewRows, Diff, Persistable, SplitPath, JoinPath, SlashFree;
    var nodes := Walk(Parser.Parsed(cfg, blocks));
    Parser.ParsedPathsDistinct(cfg, blocks);
    ParsedSegments(cfg, blocks);
    forall k | 0 <= k < |nodes|
      ensures RoundTrips(nodes[k].path)
    {
      assert PlainPath(nodes[k].path) && NonEmptyPath(nodes[k].path);
      RoundTripsIff(nodes[k].path);
    }
    ReingestReproduces(Parser.Parsed(cfg, blocks), uids, t, next);
  }

  /** Exactly when re-ingesting a parsed document emits nothing: no clause with a non-blank body has a
      slash inside a segment of its path. */
  lemma ParsedSilentIff(cfg: Builder.Config, blocks: seq<Builder.Block>, uids: map<Path, Uid>, t: Tuning)
    requires Builder.ValidConfig(cfg) && !cfg.isWord('/') && ValidTuning(t)
    requires HasUids(Walk(Parser.Parsed(cfg, blocks)), uids)
    ensures var tree := Parser.Parsed(cfg, blocks);
      Diff(ClauseRows(Walk(tree), uids), tree, t) == [] <==>
        forall k :: 0 <= k < |Walk(tree)| && Strip(Walk(tree)[k].body) != "" ==> PlainPath(Walk(tree)[k].path)
  {
    hide Walk, Parser.Parsed, Aligned, CandidatesOf, ClauseRows, Persistable, SplitPath, JoinPath, SlashFree, Strip, RoundTrips, Shingles;
    var tree := Parser.Parsed(cfg, blocks);
    var nodes, cs := Walk(tree), CandidatesOf(Walk(tree), t);
    ParsedSegments(cfg, blocks);
    StoreThenLoad(tree, uids, t);
    CandidatesSized(nodes, t);
    ReingestSilentIff(cs, t);
    forall k | 0 <= k < |nodes|
      ensures RoundTrips(nodes[k].path) <==> PlainPath(nodes[k].path)
    {
      assert NonEmptyPath(nodes[k].path);
      RoundTripsIff(nodes[k].path);
    }
    CandidatesSurviveIff(nodes, t);
  }

  /** Candidates and the clauses they come from have the same paths. */
  lemma CandidatesSurviveIff(nodes: seq<Clause>, t: Tuning)
    requires 1 <= t.shingleK
    ensures var cs := CandidatesOf(nodes, t);
      (forall k :: 0 <= k < |cs| ==> RoundTrips(cs[k].path)) <==>
        forall k :: 0 <= k < |nodes| && Strip(nodes[k].body) != "" ==> RoundTrips(nodes[k].path)
  {
    hide Strip, RoundTrips, Shingles, CandidatesOf;
    var cs := CandidatesOf(nodes, t);
    forall c | c in cs
      ensures exists k :: 0 <= k < |nodes| && Strip(nodes[k].body) != "" && nodes[k].path == c.path
    {
      CandidateFrom(nodes, t, c);
    }
    forall k | 0 <= k < |nodes| && Strip(nodes[k].body) != ""
      ensures exists x :: 0 <= x < |cs| && cs[x].path == nodes[k].path
    {
      CandidateFrom(nodes, t, CandidateOf(nodes[k], t));
    }
    assert forall x :: 0 <= x < |cs| ==> cs[x] in cs;
  }
}
