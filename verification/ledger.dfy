/** Event rows: what they refer to, when two new rows share a uid, and why the stored events patch
    the stored rows of one version into those of the next. */
module Ledger {
  import opened Prelude
  import opened Text
  import opened Clauses
  import opened Similarity
  import opened Candidates
  import opened HeadingPass
  import opened Events
  import opened Align
  import opened Rows
  import opened Identity
  import opened Transition

  // ----- writing event rows -----

  function JoinOptional(p: Option<Path>): Option<string> {
    match p
    case None => None
    case Some(path) => Some(JoinPath(path))
  }

  function Lookup(uids: map<Path, Uid>, p: Option<Path>): Option<Uid> {
    if p.Some? && p.value in uids then Some(uids[p.value]) else None
  }

  /** One event as a row: both uids of a pair are the inherited one, a removal looks its uid up in
      the predecessor. */
  function EventRowOf(e: ChangeEvent, uids: map<Path, Uid>, prev: map<Path, Uid>): EventRow {
    var after := Lookup(uids, e.afterPath);
    var before :=
      match e.kind
      case Modified => after
      case Moved => after
      case Removed => Lookup(prev, e.beforePath)
      case Added => None;
    EventRow(e.kind, before, after, JoinOptional(e.beforePath), JoinOptional(e.afterPath), e.beforeText, e.afterText, e.conf)
  }

  function EventRows(es: seq<ChangeEvent>, uids: map<Path, Uid>, prev: map<Path, Uid>): (r: seq<EventRow>)
    ensures |r| == |es| && forall k :: 0 <= k < |es| ==> r[k] == EventRowOf(es[k], uids, prev)
  {
    if es == [] then [] else [EventRowOf(es[0], uids, prev)] + EventRows(es[1..], uids, prev)
  }

  method ChangeEventInsertRows(es: seq<ChangeEvent>, uids: map<Path, Uid>, prev: map<Path, Uid>) returns (rows: seq<EventRow>)
    ensures rows == EventRows(es, uids, prev)
  {
    rows := [];
    for k := 0 to |es|
      invariant |rows| == k && forall x :: 0 <= x < k ==> rows[x] == EventRowOf(es[x], uids, prev)
    {
      var e := es[k];
      var after := if e.afterPath.Some? then Lookup(uids, e.afterPath) else None;
      var before: Option<Uid>;
      if e.kind == Modified || e.kind == Moved {
        before := after;
      } else if e.kind == Removed && e.beforePath.Some? {
        before := Lookup(prev, e.beforePath);
      } else {
        before := None;
      }
      rows := rows + [EventRow(e.kind, before, after, JoinOptional(e.beforePath), JoinOptional(e.afterPath),
                               e.beforeText, e.afterText, e.conf)];
    }
  }

  // ----- shared uids -----

  /** Some pair has its new clause at `x`. */
  ghost predicate PairedAt(rows: seq<ClauseRow>, tree: Clause, t: Tuning, x: Path)
    requires ValidTuning(t)
  {
    exists p :: p in Pairing(rows, tree, t) && p.j < |NewSide(tree, t)| && NewSide(tree, t)[p.j].path == x
  }

  /** A path without a pair inherits by path equality only. */
  lemma UnpairedInherits(rows: seq<ClauseRow>, tree: Clause, t: Tuning, next: Uid, x: Path)
    requires ValidTuning(t) && DistinctRowPaths(rows) && DistinctRowPaths(NewRows(rows, tree, t, next))
    requires !PairedAt(rows, tree, t, x)
    ensures var prev := UidByPath(rows);
      InheritedUid(PairedBefore(Diff(rows, tree, t)), prev, x) == if x in prev then Some(prev[x]) else None
  {
    hide MakePairs, Aligned, UidByPath, CandidatesOf, Walk, NewRows;
    SidesUnique(rows, tree, t, next);
    PairedBeforeExact(OldSide(rows, t), NewSide(tree, t), t);
  }

  /** One direction: whoever is displaced shares its uid with the newcomer at its path. */
  lemma DisplacedShares(rows: seq<ClauseRow>, tree: Clause, t: Tuning, next: Uid, x: Path, y: Path)
    requires ValidTuning(t) && DistinctRowPaths(rows) && DistinctRowPaths(NewRows(rows, tree, t, next))
    requires Displaces(rows, tree, t, x, y)
    ensures var m, prev := PairedBefore(Diff(rows, tree, t)), UidByPath(rows);
      InheritedUid(m, prev, x).Some? && InheritedUid(m, prev, x) == InheritedUid(m, prev, y)
  {
    hide MakePairs, Aligned, UidByPath, CandidatesOf, Walk, NewRows, InheritedUid;
    var v1, v2 := OldSide(rows, t), NewSide(tree, t);
    var p :| p in Pairing(rows, tree, t) && p.i < |v1| && p.j < |v2| && v2[p.j].path == x && v1[p.i].path == y;
    PairInherits(rows, tree, t, next, p);
    UnpairedInherits(rows, tree, t, next, y);
  }

  /** Other direction: two paths that inherit the same uid stand in displacement. */
  lemma InheritsApart(rows: seq<ClauseRow>, tree: Clause, t: Tuning, next: Uid, x: Path, y: Path)
    requires ValidTuning(t) && DistinctRowPaths(rows) && DistinctRowPaths(NewRows(rows, tree, t, next))
    requires DistinctRowUids(rows) && x != y
    requires !Displaces(rows, tree, t, x, y) && !Displaces(rows, tree, t, y, x)
    ensures var m, prev := PairedBefore(Diff(rows, tree, t)), UidByPath(rows);
      InheritedUid(m, prev, x).Some? ==> InheritedUid(m, prev, x) != InheritedUid(m, prev, y)
  {
    hide MakePairs, Aligned, UidByPath, CandidatesOf, Walk, NewRows, InheritedUid, DistinctRowPaths, DistinctRowUids;
    var v1, v2, ps, prev := OldSide(rows, t), NewSide(tree, t), Pairing(rows, tree, t), UidByPath(rows);
    var m := PairedBefore(Diff(rows, tree, t));
    SidesUnique(rows, tree, t, next);
    if PairedAt(rows, tree, t, x) {
      var p :| p in ps && p.j < |v2| && v2[p.j].path == x;
      PairInherits(rows, tree, t, next, p);
      if PairedAt(rows, tree, t, y) {
        var q :| q in ps && q.j < |v2| && v2[q.j].path == y;
        PairInherits(rows, tree, t, next, q);
        SameNewEnd(v1, v2, t, p, q);
        PrevInjective(rows, v1[p.i].path, v1[q.i].path);
      } else {
        UnpairedInherits(rows, tree, t, next, y);
        if y in prev {
          PrevInjective(rows, v1[p.i].path, y);
        }
      }
    } else {
      UnpairedInherits(rows, tree, t, next, x);
      if PairedAt(rows, tree, t, y) {
        var q :| q in ps && q.j < |v2| && v2[q.j].path == y;
        PairInherits(rows, tree, t, next, q);
        if x in prev {
          PrevInjective(rows, v1[q.i].path, x);
        }
      } else {
        UnpairedInherits(rows, tree, t, next, y);
        if x in prev && y in prev {
          PrevInjective(rows, x, y);
        }
      }
    }
  }

  lemma InheritedBelow(rows: seq<ClauseRow>, m: map<Path, Path>, next: Uid, x: Path)
    requires DistinctRowPaths(rows) && forall k :: 0 <= k < |rows| ==> rows[k].uid < next
    ensures InheritedUid(m, UidByPath(rows), x).Some? ==> InheritedUid(m, UidByPath(rows), x).value < next
  {
    hide UidByPath, SplitPath;
    UidByPathExact(rows);
  }

  /** Exactly when two new rows share a uid, given a predecessor whose uids are distinct: one of the
      clauses was paired with the predecessor at the other's path, and the clause now at that path
      was paired with nothing. */
  lemma SharedUidIff(rows: seq<ClauseRow>, tree: Clause, t: Tuning, next: Uid, x: Path, y: Path)
    requires ValidTuning(t) && DistinctRowPaths(rows) && DistinctRowPaths(NewRows(rows, tree, t, next))
    requires DistinctRowUids(rows) && forall k :: 0 <= k < |rows| ==> rows[k].uid < next
    requires x in PersistablePaths(Walk(tree)) && y in PersistablePaths(Walk(tree)) && x != y
    ensures var uids := NewUids(rows, tree, t, next).uids;
      && x in uids && y in uids
      && (uids[x] == uids[y] <==> Displaces(rows, tree, t, x, y) || Displaces(rows, tree, t, y, x))
  {
    hide MakePairs, Aligned, UidByPath, CandidatesOf, Walk, NewRows, InheritedUid, BuildUids, PersistablePaths, Displaces;
    var m := PairedBefore(Diff(rows, tree, t));
    SidesUnique(rows, tree, t, next);
    UidsFacts(Walk(tree), m, UidByPath(rows), next);
    InheritedBelow(rows, m, next, x);
    InheritedBelow(rows, m, next, y);
    if Displaces(rows, tree, t, x, y) {
      DisplacedShares(rows, tree, t, next, x, y);
    } else if Displaces(rows, tree, t, y, x) {
      DisplacedShares(rows, tree, t, next, y, x);
    } else {
      InheritsApart(rows, tree, t, next, x, y);
    }
  }

  /** The clause at `x` takes its identity from the stored row at `s`: its pair's old path, or its own
      path when it has no pair. */
  ghost predicate SourceAt(rows: seq<ClauseRow>, tree: Clause, t: Tuning, x: Path, s: Path)
    requires ValidTuning(t)
  {
    && s in UidByPath(rows)
    && (if PairedAt(rows, tree, t, x) then PairedFrom(rows, tree, t, x, s) else s == x)
  }

  ghost predicate PairedFrom(rows: seq<ClauseRow>, tree: Clause, t: Tuning, x: Path, s: Path)
    requires ValidTuning(t)
  {
    var v1, v2 := OldSide(rows, t), NewSide(tree, t);
    exists p :: p in Pairing(rows, tree, t) && p.i < |v1| && p.j < |v2| && v2[p.j].path == x && v1[p.i].path == s
  }

  /** The source is what the uid map inherits from, and it is unique. */
  lemma SourceInherits(rows: seq<ClauseRow>, tree: Clause, t: Tuning, next: Uid, x: Path) returns (s: Option<Path>)
    requires ValidTuning(t) && DistinctRowPaths(rows) && DistinctRowPaths(NewRows(rows, tree, t, next))
    ensures s.Some? ==> SourceAt(rows, tree, t, x, s.value)
    ensures forall u :: SourceAt(rows, tree, t, x, u) ==> s == Some(u)
    ensures var m, prev := PairedBefore(Diff(rows, tree, t)), UidByPath(rows);
      InheritedUid(m, prev, x) == if s.Some? then Some(prev[s.value]) else None
  {
    hide MakePairs, Aligned, UidByPath, CandidatesOf, Walk, NewRows, InheritedUid;
    var v1, v2 := OldSide(rows, t), NewSide(tree, t);
    SidesUnique(rows, tree, t, next);
    if PairedAt(rows, tree, t, x) {
      var p :| p in Pairing(rows, tree, t) && p.j < |v2| && v2[p.j].path == x;
      PairInherits(rows, tree, t, next, p);
      s := Some(v1[p.i].path);
      forall u | SourceAt(rows, tree, t, x, u)
        ensures u == v1[p.i].path
      {
        var q :| q in Pairing(rows, tree, t) && q.i < |v1| && q.j < |v2| && v2[q.j].path == x && v1[q.i].path == u;
        SameNewEnd(v1, v2, t, p, q);
      }
    } else {
      UnpairedInherits(rows, tree, t, next, x);
      s := if x in UidByPath(rows) then Some(x) else None;
    }
  }

  /** Exactly when two new rows share a uid, whatever the predecessor: they take their identity from
      stored rows that share one, or from the same row. */
  lemma SharedUidThroughSources(rows: seq<ClauseRow>, tree: Clause, t: Tuning, next: Uid, x: Path, y: Path)
    requires ValidTuning(t) && DistinctRowPaths(rows) && DistinctRowPaths(NewRows(rows, tree, t, next))
    requires forall k :: 0 <= k < |rows| ==> rows[k].uid < next
    requires x in PersistablePaths(Walk(tree)) && y in PersistablePaths(Walk(tree)) && x != y
    ensures var uids, prev := NewUids(rows, tree, t, next).uids, UidByPath(rows);
      && x in uids && y in uids
      && (uids[x] == uids[y] <==>
            exists s, u :: SourceAt(rows, tree, t, x, s) && SourceAt(rows, tree, t, y, u) && prev[s] == prev[u])
  {
    hide MakePairs, Aligned, UidByPath, CandidatesOf, Walk, NewRows, InheritedUid, BuildUids, PersistablePaths, SourceAt;
    SidesUnique(rows, tree, t, next);
    UidsFacts(Walk(tree), PairedBefore(Diff(rows, tree, t)), UidByPath(rows), next);
    InheritedBelow(rows, PairedBefore(Diff(rows, tree, t)), next, x);
    InheritedBelow(rows, PairedBefore(Diff(rows, tree, t)), next, y);
    var s := SourceInherits(rows, tree, t, next, x);
    var u := SourceInherits(rows, tree, t, next, y);
  }

  /** An unheaded clause that keeps its path and body keeps its uid, whatever else changed. */
  lemma UnheadedClauseKeepsUid(rows: seq<ClauseRow>, tree: Clause, t: Tuning, next: Uid, i: nat, j: nat) returns (x: nat, y: nat)
    requires ValidTuning(t) && DistinctRowPaths(rows) && DistinctRowPaths(NewRows(rows, tree, t, next))
    requires i < |OldSide(rows, t)| && j < |NewSide(tree, t)|
    requires OldSide(rows, t)[i].heading == NewSide(tree, t)[j].heading == None
    requires OldSide(rows, t)[i].path == NewSide(tree, t)[j].path && OldSide(rows, t)[i].body == NewSide(tree, t)[j].body
    ensures x < |rows| && y < |NewRows(rows, tree, t, next)|
    ensures var r := NewRows(rows, tree, t, next)[y];
      && r.clausePath == rows[x].clausePath == JoinPath(NewSide(tree, t)[j].path)
      && r.text == rows[x].text == NewSide(tree, t)[j].body
      && r.uid == rows[x].uid
  {
    hide MakePairs, Aligned, UidByPath, CandidatesOf, Walk, NewRows, SplitPath, JoinPath;
    var v1, v2 := OldSide(rows, t), NewSide(tree, t);
    CandidatesDerived(Walk(LoadedTree(rows)), t);
    CandidatesDerived(Walk(tree), t);
    SidesUnique(rows, tree, t, next);
    UnheadedClauseIsStable(v1, v2, t, i, j);
    var p :| p in MakePairs(v1, v2, t) && p.i == i && p.j == j;
    x, y := PairKeepsUid(rows, tree, t, next, p);
    JoinOfSplitPath(rows[x].clausePath);
  }

  // ----- what event rows refer to -----

  ghost predicate RowHolds(rows: seq<ClauseRow>, path: Option<string>, text: Option<string>, uid: Option<Uid>) {
    exists k :: 0 <= k < |rows| && Some(rows[k].clausePath) == path && Some(rows[k].text) == text && Some(rows[k].uid) == uid
  }

  /** An event row names existing clauses: its before side is a row of the old version and its
      after side a row of the new one, with the same path, text and uid. */
  ghost predicate Refers(oldRows: seq<ClauseRow>, newRows: seq<ClauseRow>, r: EventRow) {
    && (if r.kind == Added then r.beforePath == None == r.beforeText && r.beforeUid == None
        else RowHolds(oldRows, r.beforePath, r.beforeText, r.beforeUid))
    && (if r.kind == Removed then r.afterPath == None == r.afterText && r.afterUid == None
        else RowHolds(newRows, r.afterPath, r.afterText, r.afterUid))
  }

  lemma PairEventRefers(rows: seq<ClauseRow>, tree: Clause, t: Tuning, next: Uid, p: Pair, e: ChangeEvent)
    requires ValidTuning(t) && DistinctRowPaths(rows) && DistinctRowPaths(NewRows(rows, tree, t, next))
    requires p in Pairing(rows, tree, t) && IsEventOf(OldSide(rows, t), NewSide(tree, t), p, e)
    ensures Refers(rows, NewRows(rows, tree, t, next), EventRowOf(e, NewUids(rows, tree, t, next).uids, UidByPath(rows)))
  {
    hide MakePairs, Aligned, UidByPath, CandidatesOf, Walk, BuildUids, JoinPath, SplitPath;
    var x, y := PairKeepsUid(rows, tree, t, next, p);
    JoinOfSplitPath(rows[x].clausePath);
    var k := NewNode(tree, t, p.j);
    var z := RowOfNode(Walk(tree), NewUids(rows, tree, t, next).uids, k);
    var rows' := NewRows(rows, tree, t, next);
    assert z == y by {
      assert rows'[z].clausePath == rows'[y].clausePath;
    }
  }

  lemma AddedEventRefers(rows: seq<ClauseRow>, tree: Clause, t: Tuning, next: Uid, j: nat)
    requires ValidTuning(t) && j < |NewSide(tree, t)|
    ensures Refers(rows, NewRows(rows, tree, t, next),
                   EventRowOf(AddedEvent(NewSide(tree, t)[j]), NewUids(rows, tree, t, next).uids, UidByPath(rows)))
  {
    hide MakePairs, Aligned, UidByPath, CandidatesOf, Walk, BuildUids, JoinPath, SplitPath;
    var k := NewNode(tree, t, j);
    var z := RowOfNode(Walk(tree), NewUids(rows, tree, t, next).uids, k);
  }

  lemma RemovedEventRefers(rows: seq<ClauseRow>, tree: Clause, t: Tuning, next: Uid, i: nat)
    requires ValidTuning(t) && DistinctRowPaths(rows) && i < |OldSide(rows, t)|
    ensures Refers(rows, NewRows(rows, tree, t, next),
                   EventRowOf(RemovedEvent(OldSide(rows, t)[i]), NewUids(rows, tree, t, next).uids, UidByPath(rows)))
  {
    hide MakePairs, Aligned, UidByPath, CandidatesOf, Walk, BuildUids, JoinPath, SplitPath;
    var x := OldRow(rows, t, i);
    UidByPathExact(rows);
    JoinOfSplitPath(rows[x].clausePath);
  }

  /** Referential integrity: every event row of a version step names existing clauses. */
  lemma EventRowsRefer(rows: seq<ClauseRow>, tree: Clause, t: Tuning, next: Uid)
    requires ValidTuning(t) && DistinctRowPaths(rows) && DistinctRowPaths(NewRows(rows, tree, t, next))
    ensures var ers := EventRows(Diff(rows, tree, t), NewUids(rows, tree, t, next).uids, UidByPath(rows));
      forall k :: 0 <= k < |ers| ==> Refers(rows, NewRows(rows, tree, t, next), ers[k])
  {
    hide MakePairs, UidByPath, CandidatesOf, Walk, BuildUids, Refers, EventRowOf, Aligned, NewRows;
    var es := Diff(rows, tree, t);
    var v1, v2, ps := OldSide(rows, t), NewSide(tree, t), Pairing(rows, tree, t);
    forall k | 0 <= k < |es|
      ensures Refers(rows, NewRows(rows, tree, t, next), EventRowOf(es[k], NewUids(rows, tree, t, next).uids, UidByPath(rows)))
    {
      var e := es[k];
      EventOrigin(v1, v2, t, e);
      if p :| p in ps && IsEventOf(v1, v2, p, e) {
        PairEventRefers(rows, tree, t, next, p, e);
      } else if i: nat :| i < |v1| && i !in Lefts(ps) && e == RemovedEvent(v1[i]) {
        RemovedEventRefers(rows, tree, t, next, i);
      } else {
        var j: nat :| j < |v2| && j !in Rights(ps) && e == AddedEvent(v2[j]);
        AddedEventRefers(rows, tree, t, next, j);
      }
    }
  }

  /** Every event row meets the confidence constraint of its table; a MOVED row keeps its text and a
      MODIFIED row changes it. */
  lemma EventRowsAccepted(rows: seq<ClauseRow>, tree: Clause, t: Tuning, next: Uid)
    requires ValidTuning(t)
    ensures var ers := EventRows(Diff(rows, tree, t), NewUids(rows, tree, t, next).uids, UidByPath(rows));
      forall k :: 0 <= k < |ers| ==>
        && 0.0 < ers[k].conf <= 1.0
        && (ers[k].kind == Moved ==> ers[k].beforeText == ers[k].afterText)
        && (ers[k].kind == Modified ==> ers[k].beforeText != ers[k].afterText)
  {
    hide MakePairs, UidByPath, CandidatesOf, Walk, BuildUids, Aligned;
    EventsValid(OldSide(rows, t), NewSide(tree, t), t);
    forall k | 0 <= k < |Diff(rows, tree, t)|
      ensures Valid(Diff(rows, tree, t)[k])
    {
    }
  }

  /** The confidence an event row stores: 1 for an added or removed clause, and otherwise that of the pair
      whose two paths and texts the row names. */
  lemma EventRowConfidence(rows: seq<ClauseRow>, tree: Clause, t: Tuning, next: Uid, k: nat)
    requires ValidTuning(t) && k < |Diff(rows, tree, t)|
    ensures var ers := EventRows(Diff(rows, tree, t), NewUids(rows, tree, t, next).uids, UidByPath(rows));
      var r, v1, v2 := ers[k], OldSide(rows, t), NewSide(tree, t);
      if r.kind == Added || r.kind == Removed then r.conf == 1.0 else
        exists p ::
          && p in Pairing(rows, tree, t) && p.i < |v1| && p.j < |v2|
          && r.beforePath == Some(JoinPath(v1[p.i].path)) && r.beforeText == Some(v1[p.i].body)
          && r.afterPath == Some(JoinPath(v2[p.j].path)) && r.afterText == Some(v2[p.j].body)
          && r.conf == p.conf
  {
    hide MakePairs, UidByPath, CandidatesOf, Walk, BuildUids, Aligned, JoinPath;
    var v1, v2, e := OldSide(rows, t), NewSide(tree, t), Diff(rows, tree, t)[k];
    EventConfidence(v1, v2, t, e);
    if e.kind == Moved || e.kind == Modified {
      var p :| p in Pairing(rows, tree, t) && p.i < |v1| && p.j < |v2|
        && e.beforePath == Some(v1[p.i].path) && e.beforeText == Some(v1[p.i].body)
        && e.afterPath == Some(v2[p.j].path) && e.afterText == Some(v2[p.j].body) && e.conf == p.conf;
    }
  }

  // ----- stored events patch stored rows -----

  /** The (path, text) entries of the rows with a non-blank body. */
  ghost function BodyEntries(rows: seq<ClauseRow>): multiset<(string, string)> {
    if rows == [] then multiset{} else
      var r := rows[|rows| - 1];
      if Strip(r.text) == "" then BodyEntries(rows[..|rows| - 1])
      else BodyEntries(rows[..|rows| - 1]) + multiset{(r.clausePath, r.text)}
  }

  ghost function RowSide(path: Option<string>, text: Option<string>): multiset<(string, string)> {
    if path.Some? && text.Some? then multiset{(path.value, text.value)} else multiset{}
  }

  ghost function RowBefores(ers: seq<EventRow>): multiset<(string, string)> {
    if ers == [] then multiset{} else RowSide(ers[0].beforePath, ers[0].beforeText) + RowBefores(ers[1..])
  }

  ghost function RowAfters(ers: seq<EventRow>): multiset<(string, string)> {
    if ers == [] then multiset{} else RowSide(ers[0].afterPath, ers[0].afterText) + RowAfters(ers[1..])
  }

  lemma SideOfRow(path: Option<Path>, text: Option<string>, name: Path -> string)
    requires forall p :: name(p) == JoinPath(p)
    ensures RowSide(JoinOptional(path), text) == Side(path, text, name)
  {
  }

  lemma {:induction false} EventRowSides(es: seq<ChangeEvent>, uids: map<Path, Uid>, prev: map<Path, Uid>, name: Path -> string)
    requires forall p :: name(p) == JoinPath(p)
    ensures RowBefores(EventRows(es, uids, prev)) == Befores(es, name)
    ensures RowAfters(EventRows(es, uids, prev)) == Afters(es, name)
  {
    hide JoinPath, JoinOptional, RowSide, Side, Lookup;
    if es != [] {
      EventRowSides(es[1..], uids, prev, name);
      var ers := EventRows(es, uids, prev);
      assert ers[1..] == EventRows(es[1..], uids, prev);
      SideOfRow(es[0].beforePath, es[0].beforeText, name);
      SideOfRow(es[0].afterPath, es[0].afterText, name);
    }
  }

  lemma {:induction false} FirstEntriesPrefix<T>(cs: seq<Candidate>, c: Candidate, n: nat, name: Path -> T)
    requires n <= |cs|
    ensures FirstEntries(cs + [c], n, name) == FirstEntries(cs, n, name)
  {
    if n > 0 {
      FirstEntriesPrefix(cs, c, n - 1, name);
      assert (cs + [c])[n - 1] == cs[n - 1];
    }
  }

  /** Rows and nodes in step: when each kept row stores the joined path and body of its node, the
      rows' entries are the candidates' contents. */
  lemma {:induction false} LoadedContents(rows: seq<ClauseRow>, t: Tuning, name: Path -> string)
    requires 1 <= t.shingleK && forall p :: name(p) == JoinPath(p)
    ensures Contents(CandidatesOf(RowClauses(rows), t), name) == BodyEntries(rows)
  {
    hide Strip, CandidatesOf, CandidateOf, JoinPath, SplitPath, FirstEntries;
    if rows == [] {
      NoContents(t, name);
      assert RowClauses(rows) == [];
    } else {
      var front, r := rows[..|rows| - 1], rows[|rows| - 1];
      assert RowClauses(rows) == RowClauses(front) + [RowClause(r)];
      LoadedContents(front, t, name);
      CandidatesSnoc(RowClauses(front), RowClause(r), t);
      CandidateFields(RowClause(r), t);
      JoinOfSplitPath(r.clausePath);
      var cs := CandidatesOf(RowClauses(front), t);
      assert cs + [] == cs;
      ContentsSnoc(cs, CandidateOf(RowClause(r), t), name);
    }
  }

  lemma NoContents<T>(t: Tuning, name: Path -> T)
    requires 1 <= t.shingleK
    ensures Contents(CandidatesOf([], t), name) == multiset{}
  {
  }

  lemma ContentsSnoc<T>(cs: seq<Candidate>, c: Candidate, name: Path -> T)
    ensures Contents(cs + [c], name) == Contents(cs, name) + Entry(c, name)
  {
    FirstEntriesPrefix(cs, c, |cs|, name);
  }

  lemma {:induction false} StoredContents(nodes: seq<Clause>, uids: map<Path, Uid>, t: Tuning, name: Path -> string)
    requires 1 <= t.shingleK && HasUids(nodes, uids) && forall p :: name(p) == JoinPath(p)
    ensures Contents(CandidatesOf(nodes, t), name) == BodyEntries(ClauseRows(nodes, uids))
  {
    hide Strip, CandidatesOf, CandidateOf, JoinPath, FirstEntries;
    if nodes == [] {
      NoContents(t, name);
    } else {
      var front, n := nodes[..|nodes| - 1], nodes[|nodes| - 1];
      assert nodes == front + [n];
      StoredContents(front, uids, t, name);
      CandidatesSnoc(front, n, t);
      CandidateFields(n, t);
      var cs, rows := CandidatesOf(front, t), ClauseRows(front, uids);
      assert cs + [] == cs;
      ContentsSnoc(cs, CandidateOf(n, t), name);
      if Persistable(n) {
        assert ClauseRows(nodes, uids)[..|rows|] == rows;
      }
    }
  }

  /** The event rows of a version step patch the stored version: taking every before side out of the
      old rows' entries and putting every after side in gives the new rows' entries. */
  lemma StoredPatch(rows: seq<ClauseRow>, tree: Clause, t: Tuning, next: Uid)
    requires ValidTuning(t)
    ensures var ers := EventRows(Diff(rows, tree, t), NewUids(rows, tree, t, next).uids, UidByPath(rows));
      && RowBefores(ers) <= BodyEntries(rows)
      && BodyEntries(rows) - RowBefores(ers) + RowAfters(ers) == BodyEntries(NewRows(rows, tree, t, next))
  {
    hide Aligned, CandidatesOf, Walk, BuildUids, JoinPath, UidByPath, BodyEntries, Contents, RowBefores, RowAfters;
    var name := (p: Path) => JoinPath(p);
    var es, uids := Diff(rows, tree, t), NewUids(rows, tree, t, next).uids;
    EventRowSides(es, uids, UidByPath(rows), name);
    LoadedCandidates(rows, t);
    LoadedContents(rows, t, name);
    StoredContents(Walk(tree), uids, t, name);
    AlignedIsAPatch(OldSide(rows, t), NewSide(tree, t), t, name);
  }
}
