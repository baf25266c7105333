/** Clause and event rows: writing a tree as rows, loading rows back as a flat tree, and carrying
    clause uids from one version to the next. */
module Rows {
  import opened Prelude
  import opened Text
  import opened Clauses
  import opened Similarity
  import opened Candidates
  import opened HeadingPass
  import opened Events
  import opened Align

  type Uid = nat

  datatype ClauseRow = ClauseRow(
    uid: Uid,
    clausePath: string,
    text: string,
    heading: Option<string>,
    numbering: Option<string>,
    ord: nat)

  datatype EventRow = EventRow(
    kind: ChangeType,
    beforeUid: Option<Uid>,
    afterUid: Option<Uid>,
    beforePath: Option<string>,
    afterPath: Option<string>,
    beforeText: Option<string>,
    afterText: Option<string>,
    conf: real)

  // ----- paths as strings -----

  function JoinPath(p: Path): string {
    Join(p, '/')
  }

  function SplitPath(s: string): Path {
    if s == "" then [] else Split(s, '/')
  }

  /** The stored form of a path determines the loaded path, and joining it gives the stored form
      back, slashes or not. */
  lemma JoinOfSplitPath(s: string)
    ensures JoinPath(SplitPath(s)) == s
  {
    JoinOfSplit(s, '/');
  }

  /** Storing and loading gives this path back. */
  predicate RoundTrips(p: Path) {
    SplitPath(JoinPath(p)) == p
  }

  /** With non-empty segments, a path survives storage exactly when no segment has a slash. */
  lemma RoundTripsIff(p: Path)
    requires forall s :: s in p ==> s != ""
    ensures RoundTrips(p) <==> forall s :: s in p ==> '/' !in s
  {
    if p != [] {
      assert p[0] in p;
      JoinNonEmpty(p);
      CountJoin(p, '/');
      SplitLength(JoinPath(p), '/');
      if forall s :: s in p ==> '/' !in s {
        SplitOfJoin(p, '/');
      }
    }
  }

  /** A path with every segment cut at its slashes. */
  function CutPath(p: Path): Path {
    if p == [] then [] else Split(p[0], '/') + CutPath(p[1..])
  }

  /** What storage makes of a path: the same path with its segments cut at their slashes. */
  lemma {:induction false} StoredPathIsCut(p: Path)
    requires forall s :: s in p ==> s != ""
    ensures SplitPath(JoinPath(p)) == CutPath(p)
  {
    if |p| == 1 {
      assert p[0] in p && p[1..] == [] && Split(p[0], '/') + [] == Split(p[0], '/');
    } else if |p| > 1 {
      assert p[0] in p && p[1] in p && forall s :: s in p[1..] ==> s in p;
      JoinNonEmpty(p);
      JoinNonEmpty(p[1..]);
      StoredPathIsCut(p[1..]);
      SplitAcross(p[0], Join(p[1..], '/'), '/');
    }
  }

  lemma JoinNonEmpty(p: Path)
    requires p != [] && p[0] != ""
    ensures JoinPath(p) != ""
  {
  }

  // ----- writing rows -----

  /** A node becomes a row when it has a non-blank body or a non-blank heading. */
  predicate Persistable(c: Clause) {
    Strip(c.body) != "" || (c.heading.Some? && Strip(c.heading.value) != "")
  }

  ghost predicate HasUids(nodes: seq<Clause>, uids: map<Path, Uid>) {
    forall k :: 0 <= k < |nodes| && Persistable(nodes[k]) ==> nodes[k].path in uids
  }

  /** The rows of the persistable nodes, numbered from 1 in walk order. */
  function ClauseRows(nodes: seq<Clause>, uids: map<Path, Uid>): (r: seq<ClauseRow>)
    requires HasUids(nodes, uids)
    ensures forall k :: 0 <= k < |r| ==> r[k].ord == k + 1
  {
    if nodes == [] then [] else
      var n := nodes[|nodes| - 1];
      var front := ClauseRows(nodes[..|nodes| - 1], uids);
      if !Persistable(n) then front
      else front + [ClauseRow(uids[n.path], JoinPath(n.path), n.body, n.heading, n.numbering, |front| + 1)]
  }

  /** One more node adds its row, or nothing. */
  lemma RowsSnoc(nodes: seq<Clause>, uids: map<Path, Uid>, k: nat)
    requires k < |nodes| && HasUids(nodes, uids)
    ensures HasUids(nodes[..k], uids) && HasUids(nodes[..k + 1], uids)
    ensures var n, front := nodes[k], ClauseRows(nodes[..k], uids);
      ClauseRows(nodes[..k + 1], uids) ==
        if !Persistable(n) then front
        else front + [ClauseRow(uids[n.path], JoinPath(n.path), n.body, n.heading, n.numbering, |front| + 1)]
  {
    hide Persistable, JoinPath;
    assert nodes[..k + 1][..k] == nodes[..k];
  }

  method ClauseInsertRows(tree: Clause, uids: map<Path, Uid>) returns (rows: seq<ClauseRow>)
    requires HasUids(Walk(tree), uids)
    ensures rows == ClauseRows(Walk(tree), uids)
  {
    hide ClauseRows, Persistable, JoinPath, Walk;
    rows := [];
    var nodes := Walk(tree);
    var ord := 0;
    NoRows(uids);
    for k := 0 to |nodes|
      invariant HasUids(nodes[..k], uids) && rows == ClauseRows(nodes[..k], uids) && ord == |rows|
    {
      RowsSnoc(nodes, uids, k);
      var n := nodes[k];
      if !Persistable(n) {
        continue;
      }
      ord := ord + 1;
      rows := rows + [ClauseRow(uids[n.path], JoinPath(n.path), n.body, n.heading, n.numbering, ord)];
    }
    assert nodes[..|nodes|] == nodes;
  }

  lemma NoRows(uids: map<Path, Uid>)
    ensures HasUids([], uids) && ClauseRows([], uids) == []
  {
  }

  /** Which nodes become rows, and what of them: `at` lists the positions of the nodes with a body or a
      heading that is not blank, and each row is that node's uid, joined path, body, heading and label,
      numbered from 1. */
  lemma {:induction false} RowsAt(nodes: seq<Clause>, uids: map<Path, Uid>) returns (at: seq<nat>)
    requires HasUids(nodes, uids)
    ensures |at| == |ClauseRows(nodes, uids)| && forall x, y :: 0 <= x < y < |at| ==> at[x] < at[y]
    ensures forall k: nat :: k in at <==>
      k < |nodes| && (Strip(nodes[k].body) != "" || (nodes[k].heading.Some? && Strip(nodes[k].heading.value) != ""))
    ensures forall x :: 0 <= x < |at| ==>
      && at[x] < |nodes| && nodes[at[x]].path in uids
      && ClauseRows(nodes, uids)[x] == ClauseRow(
           uids[nodes[at[x]].path], Join(nodes[at[x]].path, '/'), nodes[at[x]].body, nodes[at[x]].heading,
           nodes[at[x]].numbering, x + 1)
  {
    hide Strip, Join;
    if nodes == [] {
      at := [];
    } else {
      var n := |nodes| - 1;
      assert nodes[..n + 1] == nodes;
      RowsSnoc(nodes, uids, n);
      at := RowsAt(nodes[..n], uids);
      assert forall x :: 0 <= x < |at| ==> at[x] in at;
      if Persistable(nodes[n]) {
        at := at + [n];
      }
    }
  }

  // ----- loading rows -----

  function RowClause(r: ClauseRow): Clause {
    Clause(SplitPath(r.clausePath), r.heading, r.text, r.numbering, [])
  }

  function RowClauses(rows: seq<ClauseRow>): (r: seq<Clause>)
    ensures |r| == |rows| && forall k :: 0 <= k < |r| ==> r[k] == RowClause(rows[k])
  {
    seq(|rows|, k requires 0 <= k < |rows| => RowClause(rows[k]))
  }

  /** The flat tree a version's rows are rebuilt into. */
  function LoadedTree(rows: seq<ClauseRow>): Clause {
    Clause([], None, "", None, RowClauses(rows))
  }

  /** The uid stored for each loaded path. */
  function UidByPath(rows: seq<ClauseRow>): map<Path, Uid> {
    if rows == [] then map[]
    else UidByPath(rows[..|rows| - 1])[SplitPath(rows[|rows| - 1].clausePath) := rows[|rows| - 1].uid]
  }

  lemma LoadedSnoc(rows: seq<ClauseRow>, k: nat)
    requires k < |rows|
    ensures RowClauses(rows[..k + 1]) == RowClauses(rows[..k]) + [RowClause(rows[k])]
    ensures UidByPath(rows[..k + 1]) == UidByPath(rows[..k])[SplitPath(rows[k].clausePath) := rows[k].uid]
  {
    hide SplitPath, RowClause;
    assert rows[..k + 1][..k] == rows[..k];
  }

  /** Rebuilds a prior version from its rows in `ord` order; nothing when there are none. */
  method LoadPreviousTree(rows: seq<ClauseRow>) returns (tree: Option<Clause>, uids: map<Path, Uid>)
    ensures rows == [] ==> tree == None
    ensures rows != [] ==> tree == Some(LoadedTree(rows))
    ensures uids == UidByPath(rows)
  {
    hide RowClauses, UidByPath;
    NothingLoaded();
    if rows == [] {
      return None, map[];
    }
    var children: seq<Clause> := [];
    uids := map[];
    for k := 0 to |rows|
      invariant children == RowClauses(rows[..k]) && uids == UidByPath(rows[..k])
    {
      LoadedSnoc(rows, k);
      var path := if rows[k].clausePath == "" then [] else Split(rows[k].clausePath, '/');
      uids := uids[path := rows[k].uid];
      children := children + [Clause(path, rows[k].heading, rows[k].text, rows[k].numbering, [])];
    }
    assert rows[..|rows|] == rows;
    tree := Some(Clause([], None, "", None, children));
  }

  lemma NothingLoaded()
    ensures RowClauses([]) == [] && UidByPath([]) == map[]
  {
  }

  // ----- store, then load -----

  /** A candidate as it comes back from storage: only the path can differ. */
  function Reloaded(c: Candidate): Candidate {
    c.(path := SplitPath(JoinPath(c.path)))
  }

  function ReloadedAll(cs: seq<Candidate>): (r: seq<Candidate>)
    ensures |r| == |cs| && forall k :: 0 <= k < |r| ==> r[k] == Reloaded(cs[k])
  {
    seq(|cs|, k requires 0 <= k < |cs| => Reloaded(cs[k]))
  }

  /** The candidates of a loaded version are those of its rows. */
  lemma LoadedCandidates(rows: seq<ClauseRow>, t: Tuning)
    requires 1 <= t.shingleK
    ensures CandidatesOf(Walk(LoadedTree(rows)), t) == CandidatesOf(RowClauses(rows), t)
  {
    var cs := RowClauses(rows);
    forall c | c in cs
      ensures Leaf(c)
    {
    }
    WalkLeaves(cs);
    assert Strip("") == "";
    assert Walk(LoadedTree(rows)) == [LoadedTree(rows)] + cs;
    assert ([LoadedTree(rows)] + cs)[1..] == cs;
  }

  lemma CandidatesSnoc(nodes: seq<Clause>, n: Clause, t: Tuning)
    requires 1 <= t.shingleK
    ensures CandidatesOf(nodes + [n], t)
      == CandidatesOf(nodes, t) + if Strip(n.body) == "" then [] else [CandidateOf(n, t)]
  {
    CandidatesConcat(nodes, [n], t);
    assert [n][1..] == [];
  }

  lemma {:induction false} RowCandidates(nodes: seq<Clause>, uids: map<Path, Uid>, t: Tuning)
    requires 1 <= t.shingleK && HasUids(nodes, uids)
    ensures CandidatesOf(RowClauses(ClauseRows(nodes, uids)), t) == ReloadedAll(CandidatesOf(nodes, t))
  {
    hide CandidatesOf, CandidateOf, JoinPath, SplitPath, Strip;
    if nodes == [] {
      NoCandidates(t);
    } else {
      var front, n := nodes[..|nodes| - 1], nodes[|nodes| - 1];
      assert nodes == front + [n];
      RowCandidates(front, uids, t);
      CandidatesSnoc(front, n, t);
      RowCandidatesStep(front, n, uids, t);
    }
  }

  lemma NoCandidates(t: Tuning)
    requires 1 <= t.shingleK
    ensures CandidatesOf([], t) == []
  {
  }

  lemma RowCandidatesStep(front: seq<Clause>, n: Clause, uids: map<Path, Uid>, t: Tuning)
    requires 1 <= t.shingleK && HasUids(front + [n], uids) && HasUids(front, uids)
    requires CandidatesOf(RowClauses(ClauseRows(front, uids)), t) == ReloadedAll(CandidatesOf(front, t))
    ensures CandidatesOf(RowClauses(ClauseRows(front + [n], uids)), t)
      == ReloadedAll(CandidatesOf(front, t) + if Strip(n.body) == "" then [] else [CandidateOf(n, t)])
  {
    hide CandidatesOf, JoinPath, SplitPath, Strip, Shingles;
    assert (front + [n])[..|front|] == front && (front + [n])[|front|] == n;
    var rows := ClauseRows(front, uids);
    if Persistable(n) {
      var r := ClauseRow(uids[n.path], JoinPath(n.path), n.body, n.heading, n.numbering, |rows| + 1);
      assert RowClauses(rows + [r]) == RowClauses(rows) + [RowClause(r)];
      CandidatesSnoc(RowClauses(rows), RowClause(r), t);
      assert CandidateOf(RowClause(r), t) == Reloaded(CandidateOf(n, t));
    }
  }

  /** Store/load: reloading a stored tree gives its candidate list with each path passed through
      storage, and the same list when all candidate paths survive storage. */
  lemma StoreThenLoad(tree: Clause, uids: map<Path, Uid>, t: Tuning)
    requires 1 <= t.shingleK && HasUids(Walk(tree), uids)
    ensures var cs := CandidatesOf(Walk(tree), t);
      var loaded := CandidatesOf(Walk(LoadedTree(ClauseRows(Walk(tree), uids))), t);
      && loaded == ReloadedAll(cs)
      && ((forall k :: 0 <= k < |cs| ==> RoundTrips(cs[k].path)) ==> loaded == cs)
  {
    LoadedCandidates(ClauseRows(Walk(tree), uids), t);
    RowCandidates(Walk(tree), uids, t);
    var cs := CandidatesOf(Walk(tree), t);
    assert (forall k :: 0 <= k < |cs| ==> RoundTrips(cs[k].path)) ==> ReloadedAll(cs) == cs;
  }

  /** The persistable nodes, without their children. */
  function Persisted(nodes: seq<Clause>): seq<Clause> {
    if nodes == [] then [] else
      var n := nodes[|nodes| - 1];
      Persisted(nodes[..|nodes| - 1]) + if Persistable(n) then [n.(children := [])] else []
  }

  /** Store/load, field by field: reloading gives the persistable nodes in walk order, flat, with the
      same path, heading, body and label, when their paths survive storage. */
  lemma {:induction false} ReloadedNodes(nodes: seq<Clause>, uids: map<Path, Uid>)
    requires HasUids(nodes, uids)
    requires forall k :: 0 <= k < |nodes| && Persistable(nodes[k]) ==> RoundTrips(nodes[k].path)
    ensures RowClauses(ClauseRows(nodes, uids)) == Persisted(nodes)
  {
    hide Persistable, JoinPath, SplitPath;
    if nodes != [] {
      var front, n := nodes[..|nodes| - 1], nodes[|nodes| - 1];
      ReloadedNodes(front, uids);
      if Persistable(n) {
        assert nodes[|nodes| - 1] == n;
      }
    }
  }

  // ----- re-ingesting a stored version -----

  lemma {:induction false} EntriesHold<T>(v: seq<Candidate>, n: nat, name: Path -> T, e: (T, string))
    requires n <= |v|
    ensures e in FirstEntries(v, n, name) <==> exists k :: 0 <= k < n && e == (name(v[k].path), v[k].body)
  {
    if n > 0 {
      EntriesHold(v, n - 1, name, e);
    }
  }

  /** Diffing a tree against its own stored form yields no events exactly when every candidate
      path survives storage. */
  lemma ReingestSilentIff(cs: seq<Candidate>, t: Tuning)
    requires 1 <= t.bands && 1 <= t.signatureSize && 0.0 < t.threshold <= 1.0
    requires Sized(cs, t.signatureSize) && Sized(ReloadedAll(cs), t.signatureSize)
    ensures Aligned(ReloadedAll(cs), cs, t) == [] <==> forall k :: 0 <= k < |cs| ==> RoundTrips(cs[k].path)
  {
    hide Aligned, FirstEntries, JoinPath, SplitPath;
    if forall k :: 0 <= k < |cs| ==> RoundTrips(cs[k].path) {
      assert ReloadedAll(cs) == cs;
      AlignedWithItself(cs, t);
    } else {
      var k :| 0 <= k < |cs| && !RoundTrips(cs[k].path);
      var v := ReloadedAll(cs);
      forall x | 0 <= x < |v|
        ensures RoundTrips(v[x].path)
      {
        JoinOfSplitPath(JoinPath(cs[x].path));
      }
      var survives := (p: Path) => RoundTrips(p);
      AlignedIsAPatch(v, cs, t, survives);
      EntriesHold(v, |v|, survives, (false, cs[k].body));
      EntriesHold(cs, |cs|, survives, (false, cs[k].body));
    }
  }
}
