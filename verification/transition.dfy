/** One version step: diffing the stored rows of a version against a new tree, and what the new
    rows, uids and event rows say about both versions. */
module Transition {
  import opened Prelude
  import opened Text
  import opened Clauses
  import opened Similarity
  import opened Candidates
  import opened HeadingPass
  import opened Events
  import opened Align
  import opened Rows
  import opened Identity

  // ----- the step -----

  /** Candidates of the stored version. */
  ghost function OldSide(rows: seq<ClauseRow>, t: Tuning): (v: seq<Candidate>)
    requires ValidTuning(t)
    ensures Sized(v, t.signatureSize)
  {
    CandidatesSized(Walk(LoadedTree(rows)), t);
    CandidatesOf(Walk(LoadedTree(rows)), t)
  }

  /** Candidates of the new tree. */
  ghost function NewSide(tree: Clause, t: Tuning): (v: seq<Candidate>)
    requires ValidTuning(t)
    ensures Sized(v, t.signatureSize)
  {
    CandidatesSized(Walk(tree), t);
    CandidatesOf(Walk(tree), t)
  }

  ghost function Pairing(rows: seq<ClauseRow>, tree: Clause, t: Tuning): seq<Pair>
    requires ValidTuning(t)
  {
    MakePairs(OldSide(rows, t), NewSide(tree, t), t)
  }

  ghost function Diff(rows: seq<ClauseRow>, tree: Clause, t: Tuning): seq<ChangeEvent>
    requires ValidTuning(t)
  {
    Aligned(OldSide(rows, t), NewSide(tree, t), t)
  }

  ghost function NewUids(rows: seq<ClauseRow>, tree: Clause, t: Tuning, next: Uid): (r: UidState)
    requires ValidTuning(t)
    ensures HasUids(Walk(tree), r.uids) && r.next >= next
  {
    BuildUids(Walk(tree), PairedBefore(Diff(rows, tree, t)), UidByPath(rows), next)
  }

  ghost function NewRows(rows: seq<ClauseRow>, tree: Clause, t: Tuning, next: Uid): seq<ClauseRow>
    requires ValidTuning(t)
  {
    ClauseRows(Walk(tree), NewUids(rows, tree, t, next).uids)
  }

  /** The rows satisfy the per-version uniqueness constraint on paths. */
  predicate DistinctRowPaths(rows: seq<ClauseRow>) {
    forall a, b :: 0 <= a < b < |rows| ==> rows[a].clausePath != rows[b].clausePath
  }

  predicate DistinctRowUids(rows: seq<ClauseRow>) {
    forall a, b :: 0 <= a < b < |rows| ==> rows[a].uid != rows[b].uid
  }

  // ----- first versions -----

  /** One ADDED event per non-blank body, when there is no predecessor. */
  function InitialEvents(nodes: seq<Clause>): seq<ChangeEvent> {
    if nodes == [] then [] else
      var n := nodes[|nodes| - 1];
      InitialEvents(nodes[..|nodes| - 1])
        + if Strip(n.body) == "" then [] else [ChangeEvent(Added, None, Some(n.path), None, Some(n.body), 1.0)]
  }

  method CollectInitialEvents(tree: Clause) returns (events: seq<ChangeEvent>)
    ensures events == InitialEvents(Walk(tree))
  {
    events := [];
    var nodes := Walk(tree);
    for k := 0 to |nodes|
      invariant events == InitialEvents(nodes[..k])
    {
      assert nodes[..k + 1][..k] == nodes[..k];
      if Strip(nodes[k].body) == "" {
        continue;
      }
      events := events + [ChangeEvent(Added, None, Some(nodes[k].path), None, Some(nodes[k].body), 1.0)];
    }
    assert nodes[..|nodes|] == nodes;
  }

  lemma {:induction false} InitialAreAdded(nodes: seq<Clause>, t: Tuning)
    requires 1 <= t.shingleK
    ensures InitialEvents(nodes) == AddedEvents(CandidatesOf(nodes, t), {}, |CandidatesOf(nodes, t)|)
  {
    hide Strip, CandidatesOf, CandidateOf;
    if nodes == [] {
      NoCandidates(t);
    } else {
      var front, n := nodes[..|nodes| - 1], nodes[|nodes| - 1];
      assert nodes == front + [n];
      InitialAreAdded(front, t);
      CandidatesSnoc(front, n, t);
      var cs := CandidatesOf(front, t);
      if Strip(n.body) != "" {
        AddedEventsSnoc(cs, CandidateOf(n, t), |cs|);
        CandidateFields(n, t);
      } else {
        assert cs + [] == cs;
      }
    }
  }

  lemma CandidateFields(n: Clause, t: Tuning)
    requires 1 <= t.shingleK
    ensures CandidateOf(n, t).path == n.path && CandidateOf(n, t).body == n.body && CandidateOf(n, t).heading == n.heading
  {
  }

  lemma {:induction false} AddedEventsSnoc(cs: seq<Candidate>, c: Candidate, n: nat)
    requires n <= |cs|
    ensures AddedEvents(cs + [c], {}, n) == AddedEvents(cs, {}, n)
    ensures n == |cs| ==> AddedEvents(cs + [c], {}, n + 1) == AddedEvents(cs, {}, n) + [AddedEvent(c)]
  {
    if n > 0 {
      AddedEventsSnoc(cs, c, n - 1);
      assert (cs + [c])[n - 1] == cs[n - 1];
    }
  }

  /** A first version's events are the diff against nothing. */
  lemma InitialIsDiff(tree: Clause, t: Tuning)
    requires ValidTuning(t)
    ensures OldSide([], t) == []
    ensures Diff([], tree, t) == InitialEvents(Walk(tree))
  {
    assert OldSide([], t) == [] by {
      LoadedCandidates([], t);
      assert RowClauses([]) == [];
      NoCandidates(t);
    }
    var v2 := NewSide(tree, t);
    DiffAgainstNothing(v2, t);
    InitialAreAdded(Walk(tree), t);
  }

  lemma NothingToPair(v2: seq<Candidate>, ps: seq<Pair>)
    requires GoodPairs([], v2, ps)
    ensures ps == [] && Rights(ps) == {}
  {
    hide Disjoint;
    assert 0 < |ps| ==> ps[0].i < 0;
  }

  lemma DiffAgainstNothing(v2: seq<Candidate>, t: Tuning)
    requires ValidTuning(t) && Sized(v2, t.signatureSize)
    ensures Aligned([], v2, t) == AddedEvents(v2, {}, |v2|)
  {
    hide MakePairs, AddedEvents, Emitted;
    var ps := MakePairs([], v2, t);
    MakePairsGood([], v2, t);
    NothingToPair(v2, ps);
    NothingEmitted([], v2, Lefts(ps), ps);
  }

  lemma NothingEmitted(v1: seq<Candidate>, v2: seq<Candidate>, p1: set<nat>, ps: seq<Pair>)
    requires v1 == [] && ps == []
    ensures Emitted(v1, v2, p1, {}, ps) == AddedEvents(v2, {}, |v2|)
  {
    assert PairEvents(v1, v2, ps) == [] && RemovedEvents(v1, p1, 0) == [];
  }

  // ----- paths on the two sides -----

  lemma {:induction false} CandidateFrom(nodes: seq<Clause>, t: Tuning, c: Candidate)
    requires 1 <= t.shingleK
    ensures c in CandidatesOf(nodes, t) <==>
      exists k :: 0 <= k < |nodes| && Strip(nodes[k].body) != "" && c == CandidateOf(nodes[k], t)
  {
    hide Strip, CandidateOf;
    if nodes != [] {
      CandidateFrom(nodes[1..], t, c);
      assert nodes == [nodes[0]] + nodes[1..];
      if k :| 0 <= k < |nodes| && Strip(nodes[k].body) != "" && c == CandidateOf(nodes[k], t) && k > 0 {
        assert nodes[1..][k - 1] == nodes[k];
      }
    }
  }

  /** Distinct node paths give distinct candidate paths. */
  lemma {:induction false} CandidatePathsUnique(nodes: seq<Clause>, t: Tuning)
    requires 1 <= t.shingleK && DistinctPersistable(nodes)
    ensures UniquePaths(CandidatesOf(nodes, t))
  {
    hide Strip, CandidateOf;
    if nodes != [] {
      var rest := nodes[1..];
      CandidatePathsUnique(rest, t);
      var cs := CandidatesOf(rest, t);
      if Strip(nodes[0].body) != "" {
        CandidateFields(nodes[0], t);
        assert Persistable(nodes[0]);
        forall k | 0 <= k < |cs|
          ensures cs[k].path != nodes[0].path
        {
          CandidateFrom(rest, t, cs[k]);
          var x :| 0 <= x < |rest| && Strip(rest[x].body) != "" && cs[k] == CandidateOf(rest[x], t);
          CandidateFields(rest[x], t);
          assert Persistable(nodes[x + 1]);
        }
      }
    }
  }

  /** Rows with distinct stored paths come from nodes with distinct paths. */
  lemma {:induction false} RowsDistinctNodes(nodes: seq<Clause>, uids: map<Path, Uid>)
    requires HasUids(nodes, uids) && DistinctRowPaths(ClauseRows(nodes, uids))
    ensures DistinctPersistable(nodes)
  {
    hide Persistable, JoinPath;
    if nodes != [] {
      var front, n := nodes[..|nodes| - 1], nodes[|nodes| - 1];
      assert nodes == front + [n];
      var rows := ClauseRows(front, uids);
      assert forall k :: 0 <= k < |rows| ==> ClauseRows(nodes, uids)[k] == rows[k];
      RowsDistinctNodes(front, uids);
      if Persistable(n) {
        forall k | 0 <= k < |front| && Persistable(front[k])
          ensures front[k].path != n.path
        {
          var r := RowOfNode(front, uids, k);
          assert ClauseRows(nodes, uids)[r].clausePath != ClauseRows(nodes, uids)[|rows|].clausePath;
        }
      }
    }
  }

  /** Every persistable node has its row. */
  lemma {:induction false} RowOfNode(nodes: seq<Clause>, uids: map<Path, Uid>, k: nat) returns (x: nat)
    requires HasUids(nodes, uids) && k < |nodes| && Persistable(nodes[k])
    ensures x < |ClauseRows(nodes, uids)|
    ensures var r := ClauseRows(nodes, uids)[x];
      r.uid == uids[nodes[k].path] && r.clausePath == JoinPath(nodes[k].path) && r.text == nodes[k].body
  {
    hide Persistable, JoinPath;
    var front := nodes[..|nodes| - 1];
    if k == |nodes| - 1 {
      x := |ClauseRows(front, uids)|;
    } else {
      x := RowOfNode(front, uids, k);
    }
  }

  /** Every row is the row of a persistable node. */
  lemma {:induction false} NodeOfRow(nodes: seq<Clause>, uids: map<Path, Uid>, x: nat) returns (k: nat)
    requires HasUids(nodes, uids) && x < |ClauseRows(nodes, uids)|
    ensures k < |nodes| && Persistable(nodes[k])
    ensures var r := ClauseRows(nodes, uids)[x];
      r.uid == uids[nodes[k].path] && r.clausePath == JoinPath(nodes[k].path) && r.text == nodes[k].body
  {
    hide Persistable, JoinPath;
    var front := nodes[..|nodes| - 1];
    if x == |ClauseRows(front, uids)| {
      k := |nodes| - 1;
    } else {
      k := NodeOfRow(front, uids, x);
    }
  }

  lemma SplitPathInjective(a: string, b: string)
    requires SplitPath(a) == SplitPath(b)
    ensures a == b
  {
    JoinOfSplitPath(a);
    JoinOfSplitPath(b);
  }

  /** The uid map of loaded rows sends each loaded path to its row's uid, and has no other keys. */
  lemma {:induction false} UidByPathExact(rows: seq<ClauseRow>)
    requires DistinctRowPaths(rows)
    ensures forall p :: p in UidByPath(rows) ==> HasRow(rows, p)
    ensures forall k :: 0 <= k < |rows| ==>
      SplitPath(rows[k].clausePath) in UidByPath(rows) && UidByPath(rows)[SplitPath(rows[k].clausePath)] == rows[k].uid
  {
    hide SplitPath;
    if rows != [] {
      var front, last := rows[..|rows| - 1], rows[|rows| - 1];
      UidByPathExact(front);
      forall k | 0 <= k < |front|
        ensures SplitPath(rows[k].clausePath) != SplitPath(last.clausePath)
      {
        if SplitPath(rows[k].clausePath) == SplitPath(last.clausePath) {
          SplitPathInjective(rows[k].clausePath, last.clausePath);
        }
      }
      HasRowSnoc(front, last);
      assert rows == front + [last];
    }
  }

  /** Some row loads to path `p`. */
  ghost predicate HasRow(rows: seq<ClauseRow>, p: Path) {
    exists k :: 0 <= k < |rows| && SplitPath(rows[k].clausePath) == p
  }

  lemma HasRowSnoc(front: seq<ClauseRow>, last: ClauseRow)
    ensures forall p :: HasRow(front, p) ==> HasRow(front + [last], p)
    ensures HasRow(front + [last], SplitPath(last.clausePath))
  {
    hide SplitPath;
    var rows := front + [last];
    forall p | HasRow(front, p)
      ensures HasRow(rows, p)
    {
      var k :| 0 <= k < |front| && SplitPath(front[k].clausePath) == p;
      assert rows[k] == front[k];
    }
    assert rows[|front|] == last;
  }

  lemma LoadedDistinct(rows: seq<ClauseRow>)
    requires DistinctRowPaths(rows)
    ensures DistinctPersistable(RowClauses(rows))
  {
    hide Persistable, SplitPath;
    var cs := RowClauses(rows);
    forall a, b | 0 <= a < b < |cs|
      ensures cs[a].path != cs[b].path
    {
      if cs[a].path == cs[b].path {
        SplitPathInjective(rows[a].clausePath, rows[b].clausePath);
      }
    }
  }

  /** The old row a candidate was loaded from. */
  lemma OldRow(rows: seq<ClauseRow>, t: Tuning, i: nat) returns (x: nat)
    requires ValidTuning(t) && i < |OldSide(rows, t)|
    ensures x < |rows| && SplitPath(rows[x].clausePath) == OldSide(rows, t)[i].path && rows[x].text == OldSide(rows, t)[i].body
  {
    hide Strip, CandidateOf, CandidatesOf, SplitPath;
    LoadedCandidates(rows, t);
    var c := OldSide(rows, t)[i];
    CandidateFrom(RowClauses(rows), t, c);
    x :| 0 <= x < |RowClauses(rows)| && Strip(RowClauses(rows)[x].body) != "" && c == CandidateOf(RowClauses(rows)[x], t);
    CandidateFields(RowClauses(rows)[x], t);
  }

  /** The new node behind a candidate. */
  lemma NewNode(tree: Clause, t: Tuning, j: nat) returns (k: nat)
    requires ValidTuning(t) && j < |NewSide(tree, t)|
    ensures k < |Walk(tree)| && Persistable(Walk(tree)[k])
    ensures Walk(tree)[k].path == NewSide(tree, t)[j].path && Walk(tree)[k].body == NewSide(tree, t)[j].body
  {
    hide Strip, CandidateOf, CandidatesOf, Walk;
    var c := NewSide(tree, t)[j];
    CandidateFrom(Walk(tree), t, c);
    k :| 0 <= k < |Walk(tree)| && Strip(Walk(tree)[k].body) != "" && c == CandidateOf(Walk(tree)[k], t);
    CandidateFields(Walk(tree)[k], t);
  }

  // ----- what each pair inherits -----

  lemma {:induction false} PairedBeforeFrom(events: seq<ChangeEvent>, after: Path)
    ensures after in PairedBefore(events) ==>
      exists e :: e in events && e.afterPath == Some(after) && e.beforePath == Some(PairedBefore(events)[after])
    ensures (exists e :: e in events && e.afterPath == Some(after) && e.beforePath.Some?) ==> after in PairedBefore(events)
  {
    if events != [] {
      var front, e := events[..|events| - 1], events[|events| - 1];
      assert events == front + [e];
      PairedBeforeFrom(front, after);
    }
  }

  /** The two sides have unique paths once both versions satisfy the uniqueness constraint. */
  lemma SidesUnique(rows: seq<ClauseRow>, tree: Clause, t: Tuning, next: Uid)
    requires ValidTuning(t) && DistinctRowPaths(rows) && DistinctRowPaths(NewRows(rows, tree, t, next))
    ensures UniquePaths(OldSide(rows, t)) && UniquePaths(NewSide(tree, t)) && DistinctPersistable(Walk(tree))
  {
    hide Persistable, CandidatesOf, Walk, Diff, BuildUids;
    LoadedDistinct(rows);
    CandidatePathsUnique(RowClauses(rows), t);
    LoadedCandidates(rows, t);
    RowsDistinctNodes(Walk(tree), NewUids(rows, tree, t, next).uids);
    CandidatePathsUnique(Walk(tree), t);
  }

  /** `p` changed: path or body differs. */
  ghost predicate Changed(v1: seq<Candidate>, v2: seq<Candidate>, p: Pair) {
    p.i < |v1| && p.j < |v2| && !(v1[p.i].path == v2[p.j].path && v1[p.i].body == v2[p.j].body)
  }

  /** The event map is exactly the changed pairs: it sends the new path of each changed pair to its
      old path, and has no other keys. */
  lemma PairedBeforeExact(v1: seq<Candidate>, v2: seq<Candidate>, t: Tuning)
    requires ValidTuning(t) && Sized(v1, t.signatureSize) && Sized(v2, t.signatureSize) && UniquePaths(v2)
    ensures var ps, m := MakePairs(v1, v2, t), PairedBefore(Aligned(v1, v2, t));
      && (forall p :: p in ps && Changed(v1, v2, p) ==> v2[p.j].path in m && m[v2[p.j].path] == v1[p.i].path)
      && (forall q :: q in m ==> exists p :: p in ps && Changed(v1, v2, p) && v2[p.j].path == q && v1[p.i].path == m[q])
  {
    hide MakePairs, Emitted;
    var ps, es := MakePairs(v1, v2, t), Aligned(v1, v2, t);
    var m := PairedBefore(es);
    forall q | q in m
      ensures exists p :: p in ps && Changed(v1, v2, p) && v2[p.j].path == q && v1[p.i].path == m[q]
    {
      var p := ChangedPairOf(v1, v2, t, q);
    }
    forall p | p in ps && Changed(v1, v2, p)
      ensures v2[p.j].path in m && m[v2[p.j].path] == v1[p.i].path
    {
      var q := v2[p.j].path;
      var e := ChangeEvent(if v1[p.i].body == v2[p.j].body then Moved else Modified, Some(v1[p.i].path), Some(q),
                           Some(v1[p.i].body), Some(v2[p.j].body), p.conf);
      assert IsEventOf(v1, v2, p, e);
      EventOrigin(v1, v2, t, e);
      PairedBeforeFrom(es, q);
      var p' := ChangedPairOf(v1, v2, t, q);
      SameNewEnd(v1, v2, t, p, p');
    }
  }

  lemma SameNewEnd(v1: seq<Candidate>, v2: seq<Candidate>, t: Tuning, p: Pair, q: Pair)
    requires ValidTuning(t) && Sized(v1, t.signatureSize) && Sized(v2, t.signatureSize)
    requires p in MakePairs(v1, v2, t) && q in MakePairs(v1, v2, t)
    ensures p.i < |v1| && p.j < |v2| && q.i < |v1| && q.j < |v2|
    ensures UniquePaths(v2) && v2[p.j].path == v2[q.j].path ==> p == q
    ensures UniquePaths(v1) && v1[p.i].path == v1[q.i].path ==> p == q
  {
    hide MakePairs;
    MakePairsGood(v1, v2, t);
    var ps := MakePairs(v1, v2, t);
    if p != q {
      DisjointMembers(ps, p, q);
    }
    var k :| 0 <= k < |ps| && ps[k] == p;
    var l :| 0 <= l < |ps| && ps[l] == q;
  }

  lemma ChangedPairOf(v1: seq<Candidate>, v2: seq<Candidate>, t: Tuning, q: Path) returns (p: Pair)
    requires ValidTuning(t) && Sized(v1, t.signatureSize) && Sized(v2, t.signatureSize)
    requires q in PairedBefore(Aligned(v1, v2, t))
    ensures p in MakePairs(v1, v2, t) && Changed(v1, v2, p)
    ensures v2[p.j].path == q && v1[p.i].path == PairedBefore(Aligned(v1, v2, t))[q]
  {
    hide MakePairs, Aligned;
    var es := Aligned(v1, v2, t);
    PairedBeforeFrom(es, q);
    var e :| e in es && e.afterPath == Some(q) && e.beforePath == Some(PairedBefore(es)[q]);
    EventOrigin(v1, v2, t, e);
    p :| p in MakePairs(v1, v2, t) && IsEventOf(v1, v2, p, e);
  }

  /** Every pair, changed or not, makes its new path inherit the uid stored at its old path. */
  lemma PairInherits(rows: seq<ClauseRow>, tree: Clause, t: Tuning, next: Uid, p: Pair)
    requires ValidTuning(t) && DistinctRowPaths(rows) && DistinctRowPaths(NewRows(rows, tree, t, next))
    requires p in Pairing(rows, tree, t)
    ensures var v1, v2, prev := OldSide(rows, t), NewSide(tree, t), UidByPath(rows);
      && p.i < |v1| && p.j < |v2| && v1[p.i].path in prev
      && InheritedUid(PairedBefore(Diff(rows, tree, t)), prev, v2[p.j].path) == Some(prev[v1[p.i].path])
  {
    hide MakePairs, Aligned, UidByPath, CandidatesOf, Walk, NewRows;
    var v1, v2 := OldSide(rows, t), NewSide(tree, t);
    SidesUnique(rows, tree, t, next);
    SameNewEnd(v1, v2, t, p, p);
    var x := OldRow(rows, t, p.i);
    UidByPathExact(rows);
    PairedBeforeExact(v1, v2, t);
    var m := PairedBefore(Diff(rows, tree, t));
    if !Changed(v1, v2, p) && v2[p.j].path in m {
      var p' := ChangedPairOf(v1, v2, t, v2[p.j].path);
      SameNewEnd(v1, v2, t, p, p');
    }
  }

  /** Identity carries over: the row of a pair's new clause has the uid of its old clause's row. */
  lemma PairKeepsUid(rows: seq<ClauseRow>, tree: Clause, t: Tuning, next: Uid, p: Pair) returns (x: nat, y: nat)
    requires ValidTuning(t) && DistinctRowPaths(rows) && DistinctRowPaths(NewRows(rows, tree, t, next))
    requires p in Pairing(rows, tree, t)
    ensures p.i < |OldSide(rows, t)| && p.j < |NewSide(tree, t)|
    ensures x < |rows| && y < |NewRows(rows, tree, t, next)|
    ensures SplitPath(rows[x].clausePath) == OldSide(rows, t)[p.i].path && rows[x].text == OldSide(rows, t)[p.i].body
    ensures var r := NewRows(rows, tree, t, next)[y];
      && r.clausePath == JoinPath(NewSide(tree, t)[p.j].path) && r.text == NewSide(tree, t)[p.j].body
      && r.uid == rows[x].uid
  {
    hide MakePairs, Aligned, UidByPath, CandidatesOf, Walk, BuildUids, JoinPath, SplitPath, InheritedUid;
    PairInherits(rows, tree, t, next, p);
    SidesUnique(rows, tree, t, next);
    x := OldRow(rows, t, p.i);
    UidByPathExact(rows);
    var k := NewNode(tree, t, p.j);
    var uids := NewUids(rows, tree, t, next).uids;
    y := RowOfNode(Walk(tree), uids, k);
    UidsFacts(Walk(tree), PairedBefore(Diff(rows, tree, t)), UidByPath(rows), next);
  }

  // ----- shared uids -----

  /** The clause at `x` was paired with the predecessor at `y`, and the new clause now at `y` was
      paired with nothing. */
  ghost predicate Displaces(rows: seq<ClauseRow>, tree: Clause, t: Tuning, x: Path, y: Path)
    requires ValidTuning(t)
  {
    var v1, v2, ps := OldSide(rows, t), NewSide(tree, t), Pairing(rows, tree, t);
    && (exists p :: p in ps && p.i < |v1| && p.j < |v2| && v2[p.j].path == x && v1[p.i].path == y)
    && (forall p :: p in ps && p.j < |v2| ==> v2[p.j].path != y)
  }

  lemma PrevInjective(rows: seq<ClauseRow>, p: Path, q: Path)
    requires DistinctRowPaths(rows) && DistinctRowUids(rows)
    requires p in UidByPath(rows) && q in UidByPath(rows) && p != q
    ensures UidByPath(rows)[p] != UidByPath(rows)[q]
  {
    hide SplitPath, UidByPath;
    UidByPathExact(rows);
    assert HasRow(rows, p) && HasRow(rows, q);
    var k :| 0 <= k < |rows| && SplitPath(rows[k].clausePath) == p;
    var l :| 0 <= l < |rows| && SplitPath(rows[l].clausePath) == q;
    assert k < l ==> rows[k].uid != rows[l].uid;
    assert l < k ==> rows[l].uid != rows[k].uid;
  }
}
