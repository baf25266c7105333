/** Polling one document: the version, clause and event rows it keeps, and what holds of them over
    every run of polls. */
module Poll {
  import opened Prelude
  import opened Clauses
  import opened Similarity
  import opened Candidates
  import opened Events
  import opened Align
  import opened Rows
  import opened Identity
  import opened Transition
  import opened Ledger

  /** What a poll calls and cannot see into: the parser, the content hash, the tuning. */
  datatype Env = Env(parse: string -> Clause, digest: string -> string, tuning: Tuning)

  ghost predicate ValidEnv(env: Env) {
    && ValidTuning(env.tuning)
    && forall a, b {:trigger env.digest(a), env.digest(b)} :: env.digest(a) == env.digest(b) ==> a == b
  }

  /** One version of the document with its clause rows and event rows. */
  datatype Version = Version(
    no: nat,
    validFrom: int,
    validTo: Option<int>,
    digest: string,
    rows: seq<ClauseRow>,
    events: seq<EventRow>)

  /** The document's versions in insertion order, and the next unused uid. */
  datatype Store = Store(versions: seq<Version>, next: Uid)

  const EMPTY: Store := Store([], 0)

  datatype Outcome = Skipped | Extended | Inserted | Rejected

  /** The live version: open-ended, with the greatest number. */
  function LiveBelow(vs: seq<Version>, n: nat): (r: Option<nat>)
    requires n <= |vs|
    ensures r.Some? ==> r.value < n && vs[r.value].validTo.None?
  {
    if n == 0 then None else
      var r := LiveBelow(vs, n - 1);
      if vs[n - 1].validTo.None? && (r.None? || vs[n - 1].no > vs[r.value].no) then Some(n - 1) else r
  }

  function Live(vs: seq<Version>): Option<nat> {
    LiveBelow(vs, |vs|)
  }

  predicate NumberTaken(vs: seq<Version>, no: nat) {
    exists k :: 0 <= k < |vs| && vs[k].no == no
  }

  function Close(vs: seq<Version>, live: Option<nat>, now: int): seq<Version>
    requires live.Some? ==> live.value < |vs|
  {
    if live.None? then vs else vs[live.value := vs[live.value].(validTo := Some(now))]
  }

  function PreviousRows(vs: seq<Version>, live: Option<nat>): seq<ClauseRow>
    requires live.Some? ==> live.value < |vs|
  {
    if live.None? then [] else vs[live.value].rows
  }

  /** The version a changed poll would insert. */
  ghost function NextVersion(env: Env, st: Store, doc: string, now: int): Version
    requires ValidEnv(env)
  {
    var live := Live(st.versions);
    var prev := PreviousRows(st.versions, live);
    var tree := env.parse(doc);
    Version(if live.None? then 1 else st.versions[live.value].no + 1, now, None, env.digest(doc),
            NewRows(prev, tree, env.tuning, st.next),
            EventRows(Diff(prev, tree, env.tuning), NewUids(prev, tree, env.tuning, st.next).uids, UidByPath(prev)))
  }

  /** One poll: nothing fetched; unchanged content; a changed version; or a constraint violation,
      which leaves the store as it was. */
  ghost function Polled(env: Env, st: Store, doc: Option<string>, now: int): (Store, Outcome)
    requires ValidEnv(env)
  {
    if doc.None? then (st, Skipped) else
      var live := Live(st.versions);
      if live.Some? && st.versions[live.value].digest == env.digest(doc.value) then
        (st.(versions := Close(st.versions, live, now)), Extended)
      else
        var v := NextVersion(env, st, doc.value, now);
        if NumberTaken(st.versions, v.no) || !DistinctRowPaths(v.rows) then (st, Rejected)
        else
          (Store(Close(st.versions, live, now) + [v],
                 NewUids(PreviousRows(st.versions, live), env.parse(doc.value), env.tuning, st.next).next), Inserted)
  }

  /** The stored state of one document, as the poll body changes it. */
  class DocumentStore {
    var versions: seq<Version>
    var next: Uid

    ghost function View(): Store
      reads this
    {
      Store(versions, next)
    }

    constructor ()
      ensures View() == EMPTY
    {
      versions, next := [], 0;
    }

    method PollDocument(env: Env, doc: Option<string>, now: int) returns (outcome: Outcome)
      requires ValidEnv(env)
      modifies this
      ensures (View(), outcome) == Polled(env, old(View()), doc, now)
    {
      hide Diff, NewUids, NewRows, EventRows, UidByPath, DistinctRowPaths, LiveBelow, NumberTaken, ClauseRows;
      if doc.None? {
        return Skipped;
      }
      var digest := env.digest(doc.value);
      var live := Live(versions);
      if live.Some? && versions[live.value].digest == digest {
        versions := versions[live.value := versions[live.value].(validTo := Some(now))];
        return Extended;
      }
      var tree := env.parse(doc.value);
      var prev := if live.Some? then versions[live.value].rows else [];
      var no := if live.Some? then versions[live.value].no + 1 else 1;
      var rows, events, after := StageVersion(env, prev, tree, next);
      if NumberTaken(versions, no) || !DistinctRowPaths(rows) {
        return Rejected;
      }
      var inserted := versions + [Version(no, now, None, digest, rows, events)];
      if live.Some? {
        inserted := inserted[live.value := inserted[live.value].(validTo := Some(now))];
      }
      assert inserted == Close(versions, live, now) + [Version(no, now, None, digest, rows, events)];
      versions, next := inserted, after;
      return Inserted;
    }
  }

  /** Loads the predecessor, diffs, assigns uids, and writes out the rows of a new version. */
  method StageVersion(env: Env, prev: seq<ClauseRow>, tree: Clause, next: Uid)
      returns (rows: seq<ClauseRow>, eventRows: seq<EventRow>, after: Uid)
    requires ValidEnv(env)
    ensures rows == NewRows(prev, tree, env.tuning, next)
    ensures after == NewUids(prev, tree, env.tuning, next).next
    ensures eventRows == EventRows(Diff(prev, tree, env.tuning), NewUids(prev, tree, env.tuning, next).uids, UidByPath(prev))
  {
    hide Aligned, CandidatesOf, BuildUids, UidByPath, EventRows, ClauseRows, Walk;
    var prevTree, prevUids := LoadPreviousTree(prev);
    var events: seq<ChangeEvent>;
    if prevTree.None? {
      events := CollectInitialEvents(tree);
      InitialIsDiff(tree, env.tuning);
    } else {
      events := AlignTrees(prevTree.value, tree, env.tuning);
    }
    assert events == Diff(prev, tree, env.tuning);
    var uids, fresh' := BuildClauseUidMap(tree, events, prevUids, next);
    assert UidState(uids, fresh') == NewUids(prev, tree, env.tuning, next);
    after := fresh';
    rows := ClauseInsertRows(tree, uids);
    eventRows := ChangeEventInsertRows(events, uids, prevUids);
  }

  // ----- the invariant over runs -----

  function RowsBefore(vs: seq<Version>, k: nat): seq<ClauseRow>
    requires k < |vs|
  {
    if k == 0 then [] else vs[k - 1].rows
  }

  /** A version's event rows turn its predecessor's entries into its own, and name existing clauses. */
  ghost predicate StepRight(prev: seq<ClauseRow>, v: Version) {
    && RowBefores(v.events) <= BodyEntries(prev)
    && BodyEntries(prev) - RowBefores(v.events) + RowAfters(v.events) == BodyEntries(v.rows)
    && forall k :: 0 <= k < |v.events| ==> Refers(prev, v.rows, v.events[k])
  }

  ghost predicate UidsBelow(rows: seq<ClauseRow>, next: Uid) {
    forall k :: 0 <= k < |rows| ==> rows[k].uid < next
  }

  /** Numbers run from 1, each version but the last is closed at its successor's start, successive
      contents differ, stored paths are unique, and every step is right. */
  ghost predicate History(st: Store) {
    && Numbered(st.versions) && RowsSound(st.versions, st.next)
    && Contiguous(st.versions) && Changing(st.versions) && StepsRight(st.versions)
  }

  predicate Numbered(vs: seq<Version>) {
    forall k :: 0 <= k < |vs| ==> vs[k].no == k + 1
  }

  ghost predicate RowsSound(vs: seq<Version>, next: Uid) {
    forall k :: 0 <= k < |vs| ==> DistinctRowPaths(vs[k].rows) && UidsBelow(vs[k].rows, next)
  }

  /** Each version but the last is closed at the instant its successor starts. */
  predicate Contiguous(vs: seq<Version>) {
    forall k :: 0 <= k < |vs| - 1 ==> vs[k].validTo == Some(vs[k + 1].validFrom)
  }

  predicate Changing(vs: seq<Version>) {
    forall k :: 0 <= k < |vs| - 1 ==> vs[k].digest != vs[k + 1].digest
  }

  ghost predicate StepsRight(vs: seq<Version>) {
    forall k: nat :: k < |vs| ==> StepRight(RowsBefore(vs, k), vs[k])
  }

  /** Only the last version can be live. */
  predicate LastIsLive(vs: seq<Version>) {
    vs != [] && vs[|vs| - 1].validTo.None?
  }

  lemma {:induction false} NoneLiveBelow(vs: seq<Version>, n: nat)
    requires n <= |vs| && forall k :: 0 <= k < n ==> vs[k].validTo.Some?
    ensures LiveBelow(vs, n) == None
  {
    if n > 0 {
      NoneLiveBelow(vs, n - 1);
    }
  }

  lemma EarlierClosed(st: Store)
    requires History(st)
    ensures forall k :: 0 <= k < |st.versions| - 1 ==> st.versions[k].validTo.Some?
  {
    var vs := st.versions;
    forall k | 0 <= k < |vs| - 1
      ensures vs[k].validTo.Some?
    {
      assert vs[k].validTo == Some(vs[k + 1].validFrom);
    }
  }

  /** At most one version is live, and it is the highest. */
  lemma LiveIsLast(st: Store)
    requires History(st)
    ensures Live(st.versions) == if LastIsLive(st.versions) then Some(|st.versions| - 1) else None
    ensures forall k :: 0 <= k < |st.versions| && st.versions[k].validTo.None? ==> k == |st.versions| - 1
  {
    hide History;
    EarlierClosed(st);
    if st.versions != [] {
      NoneLiveBelow(st.versions, |st.versions| - 1);
    }
  }

  lemma NumberTakenIff(st: Store, no: nat)
    requires History(st)
    ensures NumberTaken(st.versions, no) <==> 1 <= no <= |st.versions|
  {
    hide StepsRight, RowsSound;
    if 1 <= no <= |st.versions| {
      assert st.versions[no - 1].no == no;
    }
  }

  lemma NewRowUids(rows: seq<ClauseRow>, tree: Clause, t: Tuning, next: Uid)
    requires ValidTuning(t) && DistinctRowPaths(rows) && DistinctRowPaths(NewRows(rows, tree, t, next))
    requires UidsBelow(rows, next)
    ensures UidsBelow(NewRows(rows, tree, t, next), NewUids(rows, tree, t, next).next)
  {
    hide MakePairs, Aligned, UidByPath, CandidatesOf, Walk, BuildUids, InheritedUid, JoinPath, Persistable;
    var m, uids := PairedBefore(Diff(rows, tree, t)), NewUids(rows, tree, t, next);
    SidesUnique(rows, tree, t, next);
    UidsFacts(Walk(tree), m, UidByPath(rows), next);
    forall x: nat | x < |NewRows(rows, tree, t, next)|
      ensures NewRows(rows, tree, t, next)[x].uid < uids.next
    {
      var k := NodeOfRow(Walk(tree), uids.uids, x);
      InheritedBelow(rows, m, next, Walk(tree)[k].path);
    }
  }

  /** The version a changed poll inserts is a right step from the live one. */
  lemma NextVersionRight(env: Env, st: Store, doc: string, now: int)
    requires ValidEnv(env) && History(st)
    requires DistinctRowPaths(NextVersion(env, st, doc, now).rows)
    ensures var live, v := Live(st.versions), NextVersion(env, st, doc, now);
      var prev := PreviousRows(st.versions, live);
      && StepRight(prev, v)
      && UidsBelow(v.rows, NewUids(prev, env.parse(doc), env.tuning, st.next).next)
  {
    hide Diff, NewUids, NewRows, EventRows, UidByPath, DistinctRowPaths, BodyEntries, RowBefores, RowAfters, Refers;
    LiveIsLast(st);
    var prev, tree := PreviousRows(st.versions, Live(st.versions)), env.parse(doc);
    NoRowsDistinct();
    StoredPatch(prev, tree, env.tuning, st.next);
    EventRowsRefer(prev, tree, env.tuning, st.next);
    NewRowUids(prev, tree, env.tuning, st.next);
  }

  lemma NoRowsDistinct()
    ensures DistinctRowPaths([])
  {
  }

  /** Every poll keeps the history invariant. */
  lemma PollKeepsHistory(env: Env, st: Store, doc: Option<string>, now: int)
    requires ValidEnv(env) && History(st)
    ensures History(Polled(env, st, doc, now).0)
  {
    hide NewUids, NextVersion, StepRight, StepsRight, DistinctRowPaths, UidsBelow, NumberTaken, LiveBelow;
    LiveIsLast(st);
    var vs, live := st.versions, Live(st.versions);
    if doc.Some? && !(live.Some? && vs[live.value].digest == env.digest(doc.value)) {
      var v := NextVersion(env, st, doc.value, now);
      NextVersionFields(env, st, doc.value, now);
      NumberTakenIff(st, v.no);
      if !NumberTaken(vs, v.no) && DistinctRowPaths(v.rows) {
        NextVersionRight(env, st, doc.value, now);
        var after := NewUids(PreviousRows(vs, live), env.parse(doc.value), env.tuning, st.next).next;
        UidsStayBelow(vs, st.next, after);
        InsertKeepsHistory(st, live, v, now, after);
      }
    } else if doc.Some? {
      ExtendKeepsHistory(st, now);
    }
  }

  lemma NextVersionFields(env: Env, st: Store, doc: string, now: int)
    requires ValidEnv(env)
    ensures var live, v := Live(st.versions), NextVersion(env, st, doc, now);
      && v.no == (if live.None? then 1 else st.versions[live.value].no + 1)
      && v.validFrom == now && v.validTo == None && v.digest == env.digest(doc)
    ensures NewUids(PreviousRows(st.versions, Live(st.versions)), env.parse(doc), env.tuning, st.next).next >= st.next
  {
  }

  lemma UidsStayBelow(vs: seq<Version>, next: Uid, after: Uid)
    requires next <= after && RowsSound(vs, next)
    ensures RowsSound(vs, after)
  {
    hide DistinctRowPaths;
  }

  /** Versions that differ at most in `validTo`. */
  predicate SameButClosed(vs: seq<Version>, ws: seq<Version>) {
    |vs| == |ws| && forall k :: 0 <= k < |vs| ==> ws[k] == vs[k].(validTo := ws[k].validTo)
  }

  lemma CloseFields(vs: seq<Version>, live: Option<nat>, now: int)
    requires live.Some? ==> live.value < |vs|
    ensures SameButClosed(vs, Close(vs, live, now))
    ensures forall k :: 0 <= k < |vs| ==>
      Close(vs, live, now)[k].validTo == if live == Some(k) then Some(now) else vs[k].validTo
  {
  }

  lemma StepRightFields(prev: seq<ClauseRow>, v: Version, w: Version)
    requires StepRight(prev, v) && w.rows == v.rows && w.events == v.events
    ensures StepRight(prev, w)
  {
    hide BodyEntries, RowBefores, RowAfters, Refers;
  }

  lemma ClosedStepsRight(vs: seq<Version>, ws: seq<Version>)
    requires StepsRight(vs) && SameButClosed(vs, ws)
    ensures StepsRight(ws)
  {
    hide StepRight;
    forall k: nat | k < |ws|
      ensures StepRight(RowsBefore(ws, k), ws[k])
    {
      StepRightFields(RowsBefore(vs, k), vs[k], ws[k]);
      assert RowsBefore(ws, k) == RowsBefore(vs, k);
    }
  }

  lemma AppendStepRight(vs: seq<Version>, v: Version)
    requires StepsRight(vs) && StepRight(if vs == [] then [] else vs[|vs| - 1].rows, v)
    ensures StepsRight(vs + [v])
  {
    hide StepRight, RowsBefore;
    var ws := vs + [v];
    forall k: nat | k < |ws|
      ensures StepRight(RowsBefore(ws, k), ws[k])
    {
      AppendedRowsBefore(vs, v, k);
      if k < |vs| {
        assert ws[k] == vs[k];
      }
    }
  }

  lemma AppendedRowsBefore(vs: seq<Version>, v: Version, k: nat)
    requires k <= |vs|
    ensures RowsBefore(vs + [v], k) ==
      if k < |vs| then RowsBefore(vs, k) else if vs == [] then [] else vs[|vs| - 1].rows
  {
  }

  lemma InsertKeepsHistory(st: Store, live: Option<nat>, v: Version, now: int, after: Uid)
    requires History(st) && live == (if LastIsLive(st.versions) then Some(|st.versions| - 1) else None)
    requires v.no == |st.versions| + 1 && v.validFrom == now && (st.versions != [] ==> live.Some?)
    requires live.Some? ==> st.versions[live.value].digest != v.digest
    requires DistinctRowPaths(v.rows) && UidsBelow(v.rows, after) && StepRight(PreviousRows(st.versions, live), v)
    requires RowsSound(st.versions, after)
    ensures History(Store(Close(st.versions, live, now) + [v], after))
  {
    hide StepRight, StepsRight, DistinctRowPaths, UidsBelow, Close;
    var vs := st.versions;
    var ws := Close(vs, live, now);
    CloseFields(vs, live, now);
    ClosedStepsRight(vs, ws);
    assert ws != [] ==> ws[|ws| - 1].rows == PreviousRows(vs, live);
    AppendStepRight(ws, v);
  }

  lemma ExtendKeepsHistory(st: Store, now: int)
    requires History(st) && LastIsLive(st.versions)
    ensures History(st.(versions := Close(st.versions, Some(|st.versions| - 1), now)))
  {
    hide StepRight, StepsRight, DistinctRowPaths, UidsBelow, Close;
    var vs := st.versions;
    var ws := Close(vs, Some(|vs| - 1), now);
    CloseFields(vs, Some(|vs| - 1), now);
    ClosedStepsRight(vs, ws);
  }

  // ----- what one poll does to the versions -----

  /** Which outcome a poll has. */
  lemma OutcomeIff(env: Env, st: Store, doc: Option<string>, now: int)
    requires ValidEnv(env) && History(st)
    ensures var vs, outcome := st.versions, Polled(env, st, doc, now).1;
      var same := doc.Some? && vs != [] && vs[|vs| - 1].validTo.None? && vs[|vs| - 1].digest == env.digest(doc.value);
      && (outcome == Skipped <==> doc.None?)
      && (outcome == Extended <==> same)
      && (outcome == Rejected <==>
            && doc.Some? && !same
            && ((vs != [] && vs[|vs| - 1].validTo.Some?) || !DistinctRowPaths(NextVersion(env, st, doc.value, now).rows)))
  {
    hide NextVersion, DistinctRowPaths, NumberTaken, LiveBelow, History;
    LiveIsLast(st);
    if doc.Some? {
      var v := NextVersion(env, st, doc.value, now);
      NextVersionFields(env, st, doc.value, now);
      NumberTakenIff(st, v.no);
      NumbersRun(st);
    }
  }

  lemma NumbersRun(st: Store)
    requires History(st)
    ensures forall k :: 0 <= k < |st.versions| ==> st.versions[k].no == k + 1
  {
    hide RowsSound, Contiguous, Changing, StepsRight;
  }

  lemma CloseLast(vs: seq<Version>, now: int)
    requires vs != []
    ensures Close(vs, Some(|vs| - 1), now) == vs[..|vs| - 1] + [vs[|vs| - 1].(validTo := Some(now))]
  {
  }

  /** The versions after an insertion at `now`: every earlier version stays, the last one is closed at `now`,
      and the new one, its number's successor, starts at `now` with no end. */
  ghost predicate InsertedAt(vs: seq<Version>, ws: seq<Version>, now: int, digest: string) {
    && |ws| == |vs| + 1
    && (forall k :: 0 <= k < |vs| - 1 ==> ws[k] == vs[k])
    && (vs != [] ==> vs[|vs| - 1].validTo.None? && ws[|vs| - 1] == vs[|vs| - 1].(validTo := Some(now)))
    && ws[|vs|].no == |vs| + 1 && ws[|vs|].validFrom == now && ws[|vs|].validTo == None && ws[|vs|].digest == digest
  }

  lemma InsertWrites(vs: seq<Version>, live: Option<nat>, v: Version, now: int)
    requires live == if LastIsLive(vs) then Some(|vs| - 1) else None
    requires vs != [] ==> LastIsLive(vs)
    requires v.no == |vs| + 1 && v.validFrom == now && v.validTo == None
    ensures InsertedAt(vs, Close(vs, live, now) + [v], now, v.digest)
  {
    hide Close;
    if vs == [] {
      CloseNothing(now);
    } else {
      CloseLast(vs, now);
    }
  }

  lemma CloseNothing(now: int)
    ensures Close([], None, now) == []
  {
  }

  /** The instants a poll writes. Unchanged content: the last version is closed at the poll's `now`, and
      that is all that changes. Changed content: an insertion at `now`. Otherwise nothing changes. */
  lemma PollWrites(env: Env, st: Store, doc: Option<string>, now: int)
    requires ValidEnv(env) && History(st)
    ensures var vs, after, outcome := st.versions, Polled(env, st, doc, now).0, Polled(env, st, doc, now).1;
      && (outcome == Skipped || outcome == Rejected ==> after == st)
      && (outcome == Extended ==>
            && after.next == st.next && vs != []
            && after.versions == vs[..|vs| - 1] + [vs[|vs| - 1].(validTo := Some(now))])
      && (outcome == Inserted ==> doc.Some? && InsertedAt(vs, after.versions, now, env.digest(doc.value)))
  {
    hide NextVersion, DistinctRowPaths, NumberTaken, LiveBelow, History, Close, InsertedAt, NewUids;
    LiveIsLast(st);
    var vs, live := st.versions, Live(st.versions);
    if doc.Some? {
      var v := NextVersion(env, st, doc.value, now);
      NextVersionFields(env, st, doc.value, now);
      NumberTakenIff(st, v.no);
      if live.Some? {
        NumberOfLast(st);
        CloseLast(vs, now);
      }
      if Polled(env, st, doc, now).1 == Inserted {
        InsertWrites(vs, live, v, now);
      }
    }
  }

  lemma NumberOfLast(st: Store)
    requires History(st) && st.versions != []
    ensures st.versions[|st.versions| - 1].no == |st.versions|
  {
    NumbersRun(st);
  }

  // ----- runs -----

  datatype PollInput = PollInput(doc: Option<string>, now: int)

  /** The store after a run of polls on a document that starts with no versions. */
  ghost function Run(env: Env, polls: seq<PollInput>): Store
    requires ValidEnv(env)
  {
    if polls == [] then EMPTY else
      var p := polls[|polls| - 1];
      Polled(env, Run(env, polls[..|polls| - 1]), p.doc, p.now).0
  }

  /** Every run keeps the history invariant. */
  lemma {:induction false} RunHistory(env: Env, polls: seq<PollInput>)
    requires ValidEnv(env)
    ensures History(Run(env, polls))
  {
    hide Polled, ValidEnv, StepRight;
    if polls != [] {
      var p := polls[|polls| - 1];
      RunHistory(env, polls[..|polls| - 1]);
      PollKeepsHistory(env, Run(env, polls[..|polls| - 1]), p.doc, p.now);
    }
  }

  /** The entries obtained by replaying the events of the first `n` versions from nothing. */
  ghost function Replay(vs: seq<Version>, n: nat): multiset<(string, string)>
    requires n <= |vs|
  {
    if n == 0 then multiset{}
    else Replay(vs, n - 1) - RowBefores(vs[n - 1].events) + RowAfters(vs[n - 1].events)
  }

  /** Replaying the stored events rebuilds any version of any run: the entries of its body-bearing
      clause rows, with multiplicity. */
  lemma {:induction false} ReplayRebuilds(env: Env, polls: seq<PollInput>, n: nat)
    requires ValidEnv(env) && 1 <= n <= |Run(env, polls).versions|
    ensures Replay(Run(env, polls).versions, n) == BodyEntries(Run(env, polls).versions[n - 1].rows)
  {
    hide Run, ValidEnv, RowBefores, RowAfters, Refers, BodyEntries, DistinctRowPaths, UidsBelow;
    RunHistory(env, polls);
    ReplayOf(Run(env, polls), n);
  }

  lemma {:induction false} ReplayOf(st: Store, n: nat)
    requires History(st) && 1 <= n <= |st.versions|
    ensures Replay(st.versions, n) == BodyEntries(st.versions[n - 1].rows)
  {
    hide RowBefores, RowAfters, Refers, BodyEntries, DistinctRowPaths, UidsBelow;
    if n > 1 {
      ReplayOf(st, n - 1);
    } else {
      NoEntries();
    }
    assert StepRight(RowsBefore(st.versions, n - 1), st.versions[n - 1]);
  }

  lemma NoEntries()
    ensures BodyEntries([]) == multiset{}
  {
  }
}
