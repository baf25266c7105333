/** Clause identity across versions: the map from new paths to uids, and which uid each path gets. */
module Identity {
  import opened Prelude
  import opened Clauses
  import opened Events
  import opened Rows

  // ----- the uid map -----

  /** The before path of each after path named by an event that carries both. */
  function PairedBefore(events: seq<ChangeEvent>): map<Path, Path> {
    if events == [] then map[] else
      var e, front := events[|events| - 1], PairedBefore(events[..|events| - 1]);
      if e.afterPath.Some? && e.beforePath.Some? then front[e.afterPath.value := e.beforePath.value] else front
  }

  /** The predecessor's uid for a path: through its pairing, else by path equality. */
  function InheritedUid(pairs: map<Path, Path>, prev: map<Path, Uid>, path: Path): Option<Uid> {
    if path in pairs && pairs[path] in prev then Some(prev[pairs[path]])
    else if path in prev then Some(prev[path])
    else None
  }

  /** The map under construction and the next unused uid: `uuid4` never repeats. */
  datatype UidState = UidState(uids: map<Path, Uid>, next: Uid)

  function BuildUids(nodes: seq<Clause>, pairs: map<Path, Path>, prev: map<Path, Uid>, next: Uid): (r: UidState)
    ensures HasUids(nodes, r.uids)
    ensures r.next >= next
  {
    if nodes == [] then UidState(map[], next) else
      var n, s := nodes[|nodes| - 1], BuildUids(nodes[..|nodes| - 1], pairs, prev, next);
      assert forall k :: 0 <= k < |nodes| - 1 ==> nodes[..|nodes| - 1][k] == nodes[k];
      if !Persistable(n) then s else
        match InheritedUid(pairs, prev, n.path)
        case Some(uid) => s.(uids := s.uids[n.path := uid])
        case None => UidState(s.uids[n.path := s.next], s.next + 1)
  }

  lemma PairedSnoc(events: seq<ChangeEvent>, k: nat)
    requires k < |events|
    ensures var e, front := events[k], PairedBefore(events[..k]);
      PairedBefore(events[..k + 1]) ==
        if e.afterPath.Some? && e.beforePath.Some? then front[e.afterPath.value := e.beforePath.value] else front
  {
    assert events[..k + 1][..k] == events[..k];
  }

  lemma UidsSnoc(nodes: seq<Clause>, pairs: map<Path, Path>, prev: map<Path, Uid>, next: Uid, k: nat)
    requires k < |nodes|
    ensures var n, s := nodes[k], BuildUids(nodes[..k], pairs, prev, next);
      BuildUids(nodes[..k + 1], pairs, prev, next) ==
        if !Persistable(n) then s
        else if InheritedUid(pairs, prev, n.path).Some? then s.(uids := s.uids[n.path := InheritedUid(pairs, prev, n.path).value])
        else UidState(s.uids[n.path := s.next], s.next + 1)
  {
    hide Persistable, InheritedUid;
    assert nodes[..k + 1][..k] == nodes[..k];
  }

  lemma NoUids(pairs: map<Path, Path>, prev: map<Path, Uid>, next: Uid)
    ensures PairedBefore([]) == map[] && BuildUids([], pairs, prev, next) == UidState(map[], next)
  {
  }

  /** Builds the map from after path to uid: pairing first, then path equality, then a fresh uid. */
  method BuildClauseUidMap(tree: Clause, events: seq<ChangeEvent>, prev: map<Path, Uid>, next: Uid)
      returns (uids: map<Path, Uid>, after: Uid)
    ensures UidState(uids, after) == BuildUids(Walk(tree), PairedBefore(events), prev, next)
  {
    hide BuildUids, PairedBefore, Persistable, Walk;
    var pairs: map<Path, Path> := map[];
    NoUids(pairs, prev, next);
    for k := 0 to |events|
      invariant pairs == PairedBefore(events[..k])
    {
      PairedSnoc(events, k);
      if events[k].afterPath.Some? && events[k].beforePath.Some? {
        pairs := pairs[events[k].afterPath.value := events[k].beforePath.value];
      }
    }
    assert events[..|events|] == events;
    var nodes := Walk(tree);
    uids, after := map[], next;
    NoUids(pairs, prev, next);
    for k := 0 to |nodes|
      invariant UidState(uids, after) == BuildUids(nodes[..k], pairs, prev, next)
    {
      UidsSnoc(nodes, pairs, prev, next, k);
      var path := nodes[k].path;
      if !Persistable(nodes[k]) {
        continue;
      }
      if path in pairs && pairs[path] in prev {
        uids := uids[path := prev[pairs[path]]];
        continue;
      }
      if path in prev {
        uids := uids[path := prev[path]];
        continue;
      }
      uids := uids[path := after];
      after := after + 1;
    }
    assert nodes[..|nodes|] == nodes;
  }

  /** Persistable nodes at different positions have different paths. */
  ghost predicate DistinctPersistable(nodes: seq<Clause>) {
    forall a, b :: 0 <= a < b < |nodes| && Persistable(nodes[a]) && Persistable(nodes[b]) ==>
      nodes[a].path != nodes[b].path
  }

  /** The paths that get a row. */
  ghost function PersistablePaths(nodes: seq<Clause>): (r: set<Path>) {
    if nodes == [] then {}
    else PersistablePaths(nodes[..|nodes| - 1]) + if Persistable(nodes[|nodes| - 1]) then {nodes[|nodes| - 1].path} else {}
  }

  lemma {:induction false} PersistablePathsIff(nodes: seq<Clause>, p: Path)
    ensures p in PersistablePaths(nodes) <==> exists k :: 0 <= k < |nodes| && Persistable(nodes[k]) && nodes[k].path == p
  {
    hide Persistable;
    if nodes != [] {
      PersistablePathsIff(nodes[..|nodes| - 1], p);
    }
  }

  /** Inherited where there is a predecessor, otherwise fresh; and fresh uids are used once. */
  ghost predicate UidsRight(uids: map<Path, Uid>, pairs: map<Path, Path>, prev: map<Path, Uid>, next: Uid, after: Uid) {
    && (forall p :: p in uids ==>
          match InheritedUid(pairs, prev, p)
          case Some(uid) => uids[p] == uid
          case None => next <= uids[p] < after)
    && (forall p, q :: p in uids && q in uids && p != q && InheritedUid(pairs, prev, p) == None == InheritedUid(pairs, prev, q) ==>
          uids[p] != uids[q])
  }

  /** The uid map has exactly the persistable paths as keys, so no row lacks a uid, and its values
      are right. */
  lemma {:induction false} UidsFacts(nodes: seq<Clause>, pairs: map<Path, Path>, prev: map<Path, Uid>, next: Uid)
    requires DistinctPersistable(nodes)
    ensures var r := BuildUids(nodes, pairs, prev, next);
      r.uids.Keys == PersistablePaths(nodes) && UidsRight(r.uids, pairs, prev, next, r.next)
  {
    hide InheritedUid, Persistable;
    if nodes != [] {
      var front, n := nodes[..|nodes| - 1], nodes[|nodes| - 1];
      assert nodes == front + [n];
      UidsFacts(front, pairs, prev, next);
      if Persistable(n) {
        PersistablePathsIff(front, n.path);
        var s := BuildUids(front, pairs, prev, next);
        UidsStep(s.uids, pairs, prev, next, s.next, n.path);
      }
    }
  }

  lemma UidsStep(uids: map<Path, Uid>, pairs: map<Path, Path>, prev: map<Path, Uid>, next: Uid, after: Uid, path: Path)
    requires UidsRight(uids, pairs, prev, next, after) && path !in uids && next <= after
    ensures InheritedUid(pairs, prev, path).Some? ==>
      UidsRight(uids[path := InheritedUid(pairs, prev, path).value], pairs, prev, next, after)
    ensures InheritedUid(pairs, prev, path).None? ==> UidsRight(uids[path := after], pairs, prev, next, after + 1)
  {
    hide InheritedUid;
  }
}
