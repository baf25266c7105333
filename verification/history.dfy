/** Which contents a run of polls records: the design promises every change, the code records
    changes up to the first unchanged poll. */
module PollHistory {
  import opened Prelude
  import opened Text
  import opened Clauses
  import opened Rows
  import opened Transition
  import opened Ledger
  import opened ParserSegments
  import opened Poll
  import Builder
  import Parser

  // ----- contents a version can hold -----

  /** The stored path strings of the persistable nodes are distinct. */
  predicate Storable(nodes: seq<Clause>) {
    forall a, b :: 0 <= a < b < |nodes| && Persistable(nodes[a]) && Persistable(nodes[b]) ==>
      JoinPath(nodes[a].path) != JoinPath(nodes[b].path)
  }

  lemma {:induction false} StorableIff(nodes: seq<Clause>, uids: map<Path, Uid>)
    requires HasUids(nodes, uids)
    ensures DistinctRowPaths(ClauseRows(nodes, uids)) <==> Storable(nodes)
  {
    hide Persistable, JoinPath;
    var rows := ClauseRows(nodes, uids);
    if DistinctRowPaths(rows) {
      forall a, b | 0 <= a < b < |nodes| && Persistable(nodes[a]) && Persistable(nodes[b])
        ensures JoinPath(nodes[a].path) != JoinPath(nodes[b].path)
      {
        RowsApart(nodes, uids, a, b);
      }
    }
    if Storable(nodes) {
      RowsDistinct(nodes, uids);
    }
  }

  lemma RowsApart(nodes: seq<Clause>, uids: map<Path, Uid>, a: nat, b: nat)
    requires HasUids(nodes, uids) && DistinctRowPaths(ClauseRows(nodes, uids))
    requires a < b < |nodes| && Persistable(nodes[a]) && Persistable(nodes[b])
    ensures JoinPath(nodes[a].path) != JoinPath(nodes[b].path)
  {
    hide Persistable, JoinPath;
    var x := RowPosition(nodes, uids, a, b);
  }

  lemma {:induction false} RowPosition(nodes: seq<Clause>, uids: map<Path, Uid>, a: nat, b: nat) returns (x: (nat, nat))
    requires HasUids(nodes, uids) && a < b < |nodes| && Persistable(nodes[a]) && Persistable(nodes[b])
    ensures x.0 < x.1 < |ClauseRows(nodes, uids)|
    ensures ClauseRows(nodes, uids)[x.0].clausePath == JoinPath(nodes[a].path)
    ensures ClauseRows(nodes, uids)[x.1].clausePath == JoinPath(nodes[b].path)
  {
    hide Persistable, JoinPath;
    var front := nodes[..|nodes| - 1];
    if b == |nodes| - 1 {
      var k := RowOfNode(front, uids, a);
      x := (k, |ClauseRows(front, uids)|);
    } else {
      x := RowPosition(front, uids, a, b);
    }
  }

  lemma {:induction false} RowsDistinct(nodes: seq<Clause>, uids: map<Path, Uid>)
    requires HasUids(nodes, uids) && Storable(nodes)
    ensures DistinctRowPaths(ClauseRows(nodes, uids))
  {
    hide Persistable, JoinPath;
    if nodes != [] {
      var front, n := nodes[..|nodes| - 1], nodes[|nodes| - 1];
      RowsDistinct(front, uids);
      var rows := ClauseRows(front, uids);
      if Persistable(n) {
        forall x: nat | x < |rows|
          ensures rows[x].clausePath != JoinPath(n.path)
        {
          var k := NodeOfRow(front, uids, x);
          assert front[k] == nodes[k];
        }
      }
    }
  }

  /** The clauses at `a` and `b` are stored under one path string: cut at slashes, their paths agree,
      and a segment of the first does hold a slash. */
  predicate SlashClash(nodes: seq<Clause>, a: nat, b: nat) {
    && a < |nodes| && b < |nodes| && a != b && Persistable(nodes[a]) && Persistable(nodes[b])
    && !PlainPath(nodes[a].path) && CutPath(nodes[a].path) == CutPath(nodes[b].path)
  }

  /** Exactly which documents violate the per-version uniqueness constraint on paths: those with two
      persistable clauses whose paths agree once cut at slashes, one of them with a slash inside a
      segment. */
  lemma ParsedStorableIff(cfg: Builder.Config, blocks: seq<Builder.Block>)
    requires Builder.ValidConfig(cfg) && !cfg.isWord('/')
    ensures var nodes := Walk(Parser.Parsed(cfg, blocks));
      Storable(nodes) <==> !exists a, b :: SlashClash(nodes, a, b)
  {
    hide Storable, SlashClash, NonEmptyClauses, Parser.PathsDistinct, Walk, Parser.Parsed;
    var nodes := Walk(Parser.Parsed(cfg, blocks));
    Parser.ParsedPathsDistinct(cfg, blocks);
    ParsedSegments(cfg, blocks);
    if !Storable(nodes) {
      var a, b := ClashOf(nodes);
    }
    if a, b :| SlashClash(nodes, a, b) {
      ClashUnstorable(nodes, a, b);
    }
  }

  lemma ClashOf(nodes: seq<Clause>) returns (a: nat, b: nat)
    requires !Storable(nodes) && NonEmptyClauses(nodes) && Parser.PathsDistinct(nodes)
    ensures SlashClash(nodes, a, b)
  {
    hide Persistable, JoinPath, CutPath, PlainPath, NonEmptyPath;
    a, b :| a < b < |nodes| && Persistable(nodes[a]) && Persistable(nodes[b]) && JoinPath(nodes[a].path) == JoinPath(nodes[b].path);
    SameStringIff(nodes[a].path, nodes[b].path);
    if PlainPath(nodes[a].path) {
      a, b := b, a;
    }
  }

  lemma ClashUnstorable(nodes: seq<Clause>, a: nat, b: nat)
    requires SlashClash(nodes, a, b) && NonEmptyClauses(nodes)
    ensures !Storable(nodes)
  {
    hide Persistable, JoinPath, CutPath, PlainPath, NonEmptyPath;
    SameStringIff(nodes[a].path, nodes[b].path);
  }

  /** Two paths are stored as one string exactly when they agree once cut at slashes; two different
      such paths are not both free of slashes. */
  lemma SameStringIff(p: Path, q: Path)
    requires NonEmptyPath(p) && NonEmptyPath(q)
    ensures JoinPath(p) == JoinPath(q) <==> CutPath(p) == CutPath(q)
    ensures JoinPath(p) == JoinPath(q) && PlainPath(p) && PlainPath(q) ==> p == q
  {
    hide JoinPath, SplitPath, CutPath;
    StoredPathIsCut(p);
    StoredPathIsCut(q);
    RoundTripsIff(p);
    RoundTripsIff(q);
    if CutPath(p) == CutPath(q) {
      SplitPathInjective(JoinPath(p), JoinPath(q));
    }
  }

  /** A document without a slash in a label never violates it. */
  lemma ParsedStorable(cfg: Builder.Config, blocks: seq<Builder.Block>)
    requires Builder.ValidConfig(cfg) && !cfg.isWord('/') && SlashFree(cfg, blocks)
    ensures Storable(Walk(Parser.Parsed(cfg, blocks)))
  {
    hide Storable, Walk, Parser.Parsed, SlashFree, PlainPath, Persistable, CutPath;
    ParsedStorableIff(cfg, blocks);
    ParsedSegments(cfg, blocks);
  }

  /** A slash inside one segment stores like a boundary between two. */
  lemma SlashCollides(nodes: seq<Clause>, a: nat, b: nat, s: string, t: string)
    requires a < |nodes| && b < |nodes| && Persistable(nodes[a]) && Persistable(nodes[b])
    requires nodes[a].path == [s + "/" + t] && nodes[b].path == [s, t]
    ensures !Storable(nodes) && !RoundTrips(nodes[a].path)
  {
    assert [s, t][1..] == [t] && Join([t], '/') == t;
    assert s + ['/'] + t == s + "/" + t;
    assert JoinPath([s + "/" + t]) == s + "/" + t == JoinPath([s, t]);
    assert |nodes[a].path| != |nodes[b].path|;
    assert nodes[a].path != nodes[b].path && a != b;
    if RoundTrips(nodes[a].path) {
      CountJoin([s + "/" + t], '/');
      SplitLength(s + "/" + t, '/');
      CountConcat(s + "/", t, '/');
      CountConcat(s, "/", '/');
    }
  }

  // ----- what a run records -----

  /** The storable contents fetched by a run, in order. */
  ghost function Contents(env: Env, polls: seq<PollInput>): seq<string> {
    if polls == [] then [] else
      var front, p := Contents(env, polls[..|polls| - 1]), polls[|polls| - 1];
      if p.doc.Some? && Storable(Walk(env.parse(p.doc.value))) then front + [p.doc.value] else front
  }

  /** No two neighbours are equal. */
  predicate NoRepeats(ds: seq<string>) {
    forall k :: 0 <= k < |ds| - 1 ==> ds[k] != ds[k + 1]
  }

  /** The contents up to the first repeat of the previous one. */
  function Fresh(ds: seq<string>): seq<string> {
    if |ds| <= 1 then ds else
      var n := |ds| - 1;
      var front := Fresh(ds[..n]);
      if front == ds[..n] && ds[n] != ds[n - 1] then ds else front
  }

  /** `Fresh` is the longest prefix without repeats. */
  lemma {:induction false} FreshIsLongest(ds: seq<string>)
    ensures Fresh(ds) <= ds && NoRepeats(Fresh(ds))
    ensures Fresh(ds) != ds ==> Fresh(ds) != [] && ds[|Fresh(ds)|] == ds[|Fresh(ds)| - 1]
    ensures ds != [] ==> Fresh(ds) != []
    ensures Fresh(ds) == ds <==> NoRepeats(ds)
  {
    if |ds| > 1 {
      var n := |ds| - 1;
      FreshIsLongest(ds[..n]);
      if Fresh(ds[..n]) == ds[..n] && ds[n] != ds[n - 1] {
        forall k | 0 <= k < |ds| - 1
          ensures ds[k] != ds[k + 1]
        {
          if k < n - 1 {
            assert ds[..n][k] != ds[..n][k + 1];
          }
        }
      } else if Fresh(ds[..n]) != ds[..n] {
        var m := |Fresh(ds[..n])|;
        assert ds[..n][m] == ds[m] && ds[..n][m - 1] == ds[m - 1];
      }
    }
  }

  /** The store holds exactly the versions of `kept`, and its last version is live iff `open`. */
  ghost predicate Records(env: Env, st: Store, kept: seq<string>, open: bool) {
    && |st.versions| == |kept|
    && (forall k :: 0 <= k < |kept| ==> st.versions[k].digest == env.digest(kept[k]))
    && (kept != [] ==> (LastIsLive(st.versions) <==> open))
  }

  lemma StagedStorable(env: Env, st: Store, doc: string, now: int)
    requires ValidEnv(env)
    ensures DistinctRowPaths(NextVersion(env, st, doc, now).rows) <==> Storable(Walk(env.parse(doc)))
  {
    hide Diff, NewUids, EventRows, UidByPath, DistinctRowPaths, Storable, Walk, ClauseRows, LiveBelow;
    var tree := env.parse(doc);
    StorableIff(Walk(tree), NewUids(PreviousRows(st.versions, Live(st.versions)), tree, env.tuning, st.next).uids);
  }

  /** One poll, on what is recorded: an unstorable content or any content after a repeat changes
      nothing; a repeat closes the last version; anything else is added. */
  lemma PollRecords(env: Env, st: Store, kept: seq<string>, open: bool, doc: string, now: int)
    requires ValidEnv(env) && History(st) && Records(env, st, kept, open)
    requires forall k :: 0 <= k < |kept| ==> Storable(Walk(env.parse(kept[k])))
    ensures var r := Polled(env, st, Some(doc), now);
      if !Storable(Walk(env.parse(doc))) || (kept != [] && !open) then r == (st, Rejected)
      else if kept != [] && doc == kept[|kept| - 1] then r.1 == Extended && Records(env, r.0, kept, false)
      else r.1 == Inserted && Records(env, r.0, kept + [doc], true)
  {
    hide NewUids, NextVersion, StepRight, DistinctRowPaths, UidsBelow, NumberTaken, LiveBelow, Storable, Walk, History;
    LiveIsLast(st);
    NextVersionFields(env, st, doc, now);
    NumberTakenIff(st, NextVersion(env, st, doc, now).no);
    StagedStorable(env, st, doc, now);
    if LastIsLive(st.versions) {
      LiveNumber(st);
    }
  }

  lemma NothingRecorded(env: Env)
    ensures History(EMPTY) && Records(env, EMPTY, [], true)
  {
  }

  lemma LiveNumber(st: Store)
    requires History(st) && st.versions != []
    ensures st.versions[|st.versions| - 1].no == |st.versions|
  {
    hide StepsRight, RowsSound;
  }

  lemma {:induction false} ContentsStorable(env: Env, polls: seq<PollInput>)
    ensures forall k :: 0 <= k < |Contents(env, polls)| ==> Storable(Walk(env.parse(Contents(env, polls)[k])))
  {
    hide Storable, Walk;
    if polls != [] {
      ContentsStorable(env, polls[..|polls| - 1]);
    }
  }

  /** Exactly what is recorded: over every run from no versions, the versions are the storable
      contents up to the first poll that repeats the previous one, and the last version is live
      exactly when there was no such poll. */
  lemma {:induction false} RunRecords(env: Env, polls: seq<PollInput>)
    requires ValidEnv(env)
    ensures Records(env, Run(env, polls), Fresh(Contents(env, polls)), NoRepeats(Contents(env, polls)))
  {
    hide Polled, ValidEnv, History, Storable, Walk, Fresh;
    FreshIsLongest(Contents(env, polls));
    if polls == [] {
      assert Fresh([]) == [] by { FreshIsLongest([]); }
    } else {
      var front, p := polls[..|polls| - 1], polls[|polls| - 1];
      RunRecords(env, front);
      RunHistory(env, front);
      RunRecordsStep(env, front, p);
    }
  }

  lemma RunRecordsStep(env: Env, front: seq<PollInput>, p: PollInput)
    requires ValidEnv(env) && History(Run(env, front))
    requires Records(env, Run(env, front), Fresh(Contents(env, front)), NoRepeats(Contents(env, front)))
    ensures var polls := front + [p];
      Records(env, Run(env, polls), Fresh(Contents(env, polls)), NoRepeats(Contents(env, polls)))
  {
    hide Polled, ValidEnv, History, Storable, Walk, Records, NoRepeats;
    var polls, st, ds := front + [p], Run(env, front), Contents(env, front);
    assert polls[..|front|] == front && polls[|front|] == p;
    FreshIsLongest(ds);
    ContentsStorable(env, front);
    if p.doc.None? {
      NothingFetched(env, st, p.now);
    } else {
      var doc := p.doc.value;
      PollRecords(env, st, Fresh(ds), NoRepeats(ds), doc, p.now);
      FreshSnoc(ds, doc);
    }
  }

  lemma NothingFetched(env: Env, st: Store, now: int)
    requires ValidEnv(env)
    ensures Polled(env, st, None, now).0 == st
  {
  }

  lemma FreshSnoc(ds: seq<string>, d: string)
    ensures if ds != [] && !NoRepeats(ds) then Fresh(ds + [d]) == Fresh(ds) && !NoRepeats(ds + [d])
            else if ds != [] && d == ds[|ds| - 1] then Fresh(ds + [d]) == ds && !NoRepeats(ds + [d])
            else Fresh(ds + [d]) == ds + [d] && NoRepeats(ds + [d])
  {
    FreshIsLongest(ds);
    FreshIsLongest(ds + [d]);
    assert (ds + [d])[..|ds|] == ds;
  }

  /** Changed content is recorded exactly when no earlier poll repeated the previous content: the
      next poll inserts a version iff its content is storable, differs from the last storable
      content, and the contents so far have no repeat. */
  lemma ChangeRecordedIff(env: Env, polls: seq<PollInput>, doc: string, now: int)
    requires ValidEnv(env)
    ensures var ds := Contents(env, polls);
      Polled(env, Run(env, polls), Some(doc), now).1 == Inserted <==>
        Storable(Walk(env.parse(doc))) && NoRepeats(ds) && (ds == [] || doc != ds[|ds| - 1])
  {
    hide Polled, History, Storable, Walk, Run, Fresh;
    var ds := Contents(env, polls);
    RunRecords(env, polls);
    RunHistory(env, polls);
    FreshIsLongest(ds);
    FreshStorable(env, polls);
    PollRecords(env, Run(env, polls), Fresh(ds), NoRepeats(ds), doc, now);
  }

  lemma FreshStorable(env: Env, polls: seq<PollInput>)
    ensures var kept := Fresh(Contents(env, polls));
      forall k :: 0 <= k < |kept| ==> Storable(Walk(env.parse(kept[k])))
  {
    hide Storable, Walk, Fresh, Contents;
    FreshIsLongest(Contents(env, polls));
    ContentsStorable(env, polls);
  }

  lemma TwiceContents(env: Env, a: string, now: int)
    requires ValidEnv(env) && Storable(Walk(env.parse(a)))
    ensures Contents(env, [PollInput(Some(a), now), PollInput(Some(a), now + 1)]) == [a, a]
    ensures Fresh([a, a]) == [a] && !NoRepeats([a, a])
  {
    hide Storable, Walk;
    var polls := [PollInput(Some(a), now), PollInput(Some(a), now + 1)];
    assert polls[..1] == [PollInput(Some(a), now)] && polls[..1][..0] == [];
    assert Contents(env, polls[..1]) == [a];
    assert [a, a][..1] == [a] && [a, a][0] == [a, a][1];
  }

  /** A witness against recording every change: after any content is polled twice, a different
      third content is rejected and the document keeps its single, closed version. */
  lemma ThirdContentLost(env: Env, a: string, b: string, now: int)
    requires ValidEnv(env) && a != b && Storable(Walk(env.parse(a))) && Storable(Walk(env.parse(b)))
    ensures var polls := [PollInput(Some(a), now), PollInput(Some(a), now + 1)];
      && Polled(env, Run(env, polls), Some(b), now + 2) == (Run(env, polls), Rejected)
      && |Run(env, polls).versions| == 1 && !LastIsLive(Run(env, polls).versions)
  {
    hide Polled, ValidEnv, History, Storable, Walk, Run, Fresh, Contents, NoRepeats, LastIsLive;
    var polls := [PollInput(Some(a), now), PollInput(Some(a), now + 1)];
    TwiceContents(env, a, now);
    RunRecords(env, polls);
    RunHistory(env, polls);
    assert Records(env, Run(env, polls), [a], false);
    PollRecords(env, Run(env, polls), [a], false, b, now + 2);
  }
}
