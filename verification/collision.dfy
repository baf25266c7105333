/** Two fetched documents after which a stored version holds one clause uid twice. */
module Collision {
  import opened Prelude
  import opened Text
  import opened Clauses
  import opened Matching
  import opened Builder
  import opened DefaultPatterns
  import opened Evaluation
  import opened Similarity
  import opened Candidates
  import opened HeadingPass
  import opened Align
  import opened Rows
  import opened Identity
  import opened Transition
  import opened Ledger
  import opened PollHistory
  import Parser
  import Poll

  const TITLE: Block := Paragraph("h", [(0, 1)])

  /** A titled part. */
  const BEFORE: seq<Block> := [TITLE, Paragraph(PartLabel("A") + " " + "x", [])]

  /** The titled part, renumbered; and an unrelated part under the old number. */
  const AFTER: seq<Block> :=
    [TITLE, Paragraph(PartLabel("B") + " " + "x", []), Paragraph(PartLabel("A") + " " + "y", [])]

  const ROOT: Node := Node(0, [], None, [], None, [], 0)
  const TITLED_A: Node := Node(1, [PartLabel("A")], Some("h"), ["x"], Some(PartLabel("A")), [], 0)
  const TITLED_B: Node := Node(1, [PartLabel("B")], Some("h"), ["x"], Some(PartLabel("B")), [], 0)
  const UNTITLED_A: Node := Node(1, [PartLabel("A")], None, ["y"], Some(PartLabel("A")), [], 0)

  const WAITING: State := State([ROOT], [0], Some("h"))
  const BUILT_BEFORE: State := State([ROOT.(children := [1]), TITLED_A], [0, 1], None)
  const BUILT_HALFWAY: State := State([ROOT.(children := [1]), TITLED_B], [0, 1], None)
  const BUILT_AFTER: State := State([ROOT.(children := [1, 2]), TITLED_B, UNTITLED_A], [0, 2], None)

  // ----- what the parser makes of the documents -----

  lemma TitleWaits(digit: char -> bool, isWord: char -> bool, lower: string -> string)
    requires AsciiRight(digit, isWord, lower) && ValidConfig(DefaultConfig(digit, isWord, lower))
    ensures Consume(DefaultConfig(digit, isWord, lower), INITIAL, TITLE) == WAITING
  {
    hide Defaults, ScanOf, BoldOnly, Strip, CanStart;
    QuietTitle(digit, isWord, lower);
    NoHits(digit, "h", 0);
    StripTight("h");
    TitleIsBold();
    assert AbsorbTitle(INITIAL, "h") == WAITING;
  }

  lemma QuietTitle(digit: char -> bool, isWord: char -> bool, lower: string -> string)
    requires AsciiRight(digit, isWord, lower)
    ensures forall pos :: 0 <= pos < |"h"| ==> !CanStart(digit, "h"[pos])
  {
  }

  lemma TitleIsBold()
    ensures BoldOnly("h", [(0, 1)])
  {
    var bold := [(0, 1)];
    assert bold[0].0 <= 0 < bold[0].1 && InRanges(bold, 0);
    assert !IsSpace("h"[0]);
  }

  lemma PartAfterTitle(cfg: Config, word: string, body: string)
    requires body != ""
    ensures Shaped(WAITING)
    ensures OpenClause(cfg, WAITING, 1, Some(PartLabel(word)), body, None)
      == State([ROOT.(children := [1]), Node(1, [PartLabel(word)], Some("h"), [body], Some(PartLabel(word)), [], 0)], [0, 1], None)
  {
    hide NewClause, Attach, PartLabel;
    assert [0][..1] == [0];
    assert Popped(WAITING, 1) == WAITING;
    assert Taken(WAITING.nodes, 0) == {};
    LabelNotEmpty(word);
    LabelledClause(cfg, WAITING, 1, PartLabel(word), body);
    assert [] + [PartLabel(word)] == [PartLabel(word)];
    FirstChild(ROOT, Node(1, [PartLabel(word)], Some("h"), [body], Some(PartLabel(word)), [], 0));
    assert [0] + [1] == [0, 1];
  }

  lemma PartAfterPart(cfg: Config)
    ensures Shaped(BUILT_HALFWAY)
    ensures OpenClause(cfg, BUILT_HALFWAY, 1, Some(PartLabel("A")), "y", None) == BUILT_AFTER
  {
    hide NewClause, Attach, PartLabel;
    var b := BUILT_HALFWAY.(stack := [0]);
    assert [0, 1][..1] == [0];
    assert Popped(BUILT_HALFWAY, 1) == b;
    LabelsDiffer("A", "B");
    LabelNotEmpty("A");
    assert forall k :: 0 <= k < |b.nodes[0].children| ==> b.nodes[0].children[k] == 1;
    assert LastSegment(b.nodes[1].path) == PartLabel("B");
    LabelledClause(cfg, b, 1, PartLabel("A"), "y");
    assert [] + [PartLabel("A")] == [PartLabel("A")];
    SecondChild(ROOT.(children := [1]), TITLED_B, UNTITLED_A);
    assert [0] + [2] == [0, 2];
  }

  lemma AsciiFacts(digit: char -> bool, isWord: char -> bool, lower: string -> string)
    requires AsciiRight(digit, isWord, lower)
    ensures !digit(' ') && Quiet(digit, "x") && Quiet(digit, "y")
  {
  }

  lemma BuiltBefore(digit: char -> bool, isWord: char -> bool, lower: string -> string)
    requires AsciiRight(digit, isWord, lower)
    ensures ValidConfig(DefaultConfig(digit, isWord, lower))
    ensures Built(DefaultConfig(digit, isWord, lower), BEFORE) == BUILT_BEFORE
  {
    hide Defaults, Consume, OpenClause, PartLabel, ValidConfig, Built, AsciiRight;
    var cfg := DefaultConfig(digit, isWord, lower);
    DefaultValid(digit, isWord, lower);
    TitleWaits(digit, isWord, lower);
    AsciiFacts(digit, isWord, lower);
    PartAfterTitle(cfg, "A", "x");
    PartParagraph(digit, isWord, lower, WAITING, "A", "x", []);
    BuiltTwo(cfg, BEFORE[0], BEFORE[1]);
  }

  lemma BuiltAfter(digit: char -> bool, isWord: char -> bool, lower: string -> string)
    requires AsciiRight(digit, isWord, lower)
    ensures ValidConfig(DefaultConfig(digit, isWord, lower))
    ensures Built(DefaultConfig(digit, isWord, lower), AFTER) == BUILT_AFTER
  {
    hide Defaults, Consume, OpenClause, PartLabel, ValidConfig, Built, AsciiRight;
    var cfg := DefaultConfig(digit, isWord, lower);
    DefaultValid(digit, isWord, lower);
    TitleWaits(digit, isWord, lower);
    AsciiFacts(digit, isWord, lower);
    PartAfterTitle(cfg, "B", "x");
    PartAfterPart(cfg);
    PartParagraph(digit, isWord, lower, WAITING, "B", "x", []);
    PartParagraph(digit, isWord, lower, BUILT_HALFWAY, "A", "y", []);
    BuiltThree(cfg, AFTER[0], AFTER[1], AFTER[2]);
  }

  /** A clause with the given fields, whatever its children. */
  predicate Reads(c: Clause, path: Path, heading: Option<string>, body: string, numbering: Option<string>) {
    c.path == path && c.heading == heading && c.body == body && c.numbering == numbering
  }

  predicate ReadsBefore(nodes: seq<Clause>) {
    && |nodes| == 2 && Reads(nodes[0], [], None, "", None)
    && Reads(nodes[1], [PartLabel("A")], Some("h"), "x", Some(PartLabel("A")))
  }

  predicate ReadsAfter(nodes: seq<Clause>) {
    && |nodes| == 3 && Reads(nodes[0], [], None, "", None)
    && Reads(nodes[1], [PartLabel("B")], Some("h"), "x", Some(PartLabel("B")))
    && Reads(nodes[2], [PartLabel("A")], None, "y", Some(PartLabel("A")))
  }

  lemma ParsedBefore(digit: char -> bool, isWord: char -> bool, lower: string -> string)
    requires AsciiRight(digit, isWord, lower)
    ensures ValidConfig(DefaultConfig(digit, isWord, lower))
    ensures ReadsBefore(Walk(Parser.Parsed(DefaultConfig(digit, isWord, lower), BEFORE)))
  {
    hide Built, Walk, Parser.Parsed, PartLabel, Defaults, ValidConfig, BodyOf;
    BuiltBefore(digit, isWord, lower);
    Parser.WalkIsCreationOrder(DefaultConfig(digit, isWord, lower), BEFORE);
    Bodies();
  }

  lemma ParsedAfter(digit: char -> bool, isWord: char -> bool, lower: string -> string)
    requires AsciiRight(digit, isWord, lower)
    ensures ValidConfig(DefaultConfig(digit, isWord, lower))
    ensures ReadsAfter(Walk(Parser.Parsed(DefaultConfig(digit, isWord, lower), AFTER)))
  {
    hide Built, Walk, Parser.Parsed, PartLabel, Defaults, ValidConfig, BodyOf;
    BuiltAfter(digit, isWord, lower);
    Parser.WalkIsCreationOrder(DefaultConfig(digit, isWord, lower), AFTER);
    Bodies();
  }

  lemma Bodies()
    ensures BodyOf([]) == "" && BodyOf(["x"]) == "x" && BodyOf(["y"]) == "y"
    ensures Strip("") == "" && Strip("x") == "x" && Strip("y") == "y"
  {
    BodyOfOne("x");
    BodyOfOne("y");
  }

  lemma PartPath(word: string)
    requires '/' !in word
    ensures JoinPath([PartLabel(word)]) == PartLabel(word) && SplitPath(PartLabel(word)) == [PartLabel(word)]
  {
    assert '/' !in PartLabel(word);
    SplitPlain(PartLabel(word), '/');
  }

  lemma Persists(c: Clause, body: string)
    requires c.body == body && (body == "x" || body == "y")
    ensures Persistable(c)
  {
    Bodies();
  }

  lemma DoesNotPersist(c: Clause)
    requires Reads(c, [], None, "", None)
    ensures !Persistable(c)
  {
    Bodies();
  }

  // ----- how they align -----

  /** The row the first document leaves. */
  function StoredRow(uid: Uid): ClauseRow {
    ClauseRow(uid, PartLabel("A"), "x", Some("h"), Some(PartLabel("A")), 1)
  }

  lemma {:induction false} RowsBefore(nodes: seq<Clause>, uids: map<Path, Uid>)
    requires ReadsBefore(nodes) && HasUids(nodes, uids)
    ensures Persistable(nodes[1]) && [PartLabel("A")] in uids
    ensures ClauseRows(nodes, uids) == [StoredRow(uids[[PartLabel("A")]])]
  {
    hide PartLabel, JoinPath, Persistable;
    DoesNotPersist(nodes[0]);
    Persists(nodes[1], "x");
    PartPath("A");
    assert nodes[..1][..0] == [] && nodes[..1][0] == nodes[0];
    assert ClauseRows(nodes[..1], uids) == [];
  }

  lemma OldCandidate(uid: Uid, t: Tuning)
    requires ValidTuning(t)
    ensures OldSide([StoredRow(uid)], t) == [CandidateOf(Clause([PartLabel("A")], Some("h"), "x", Some(PartLabel("A")), []), t)]
  {
    hide Strip, CandidateOf, SplitPath, PartLabel, Walk;
    Bodies();
    PartPath("A");
    LoadedCandidates([StoredRow(uid)], t);
    var stored := Clause([PartLabel("A")], Some("h"), "x", Some(PartLabel("A")), []);
    assert RowClauses([StoredRow(uid)]) == [stored] && [stored][1..] == [];
    assert [CandidateOf(stored, t)] + [] == [CandidateOf(stored, t)];
  }

  lemma NewCandidates(tree: Clause, t: Tuning)
    requires ValidTuning(t) && ReadsAfter(Walk(tree))
    ensures NewSide(tree, t) == [CandidateOf(Walk(tree)[1], t), CandidateOf(Walk(tree)[2], t)]
  {
    hide Strip, CandidateOf, Walk, PartLabel;
    Bodies();
    var nodes := Walk(tree);
    assert nodes[1..] == [nodes[1], nodes[2]] && [nodes[1], nodes[2]][1..] == [nodes[2]] && [nodes[2]][1..] == [];
    assert CandidatesOf([nodes[2]], t) == [CandidateOf(nodes[2], t)];
    assert CandidatesOf([nodes[1], nodes[2]], t) == [CandidateOf(nodes[1], t)] + CandidatesOf([nodes[2]], t);
  }

  /** A one-word body is too short to shingle. */
  lemma ShortBody(t: Tuning)
    requires ValidTuning(t) && 2 <= t.shingleK
    ensures Shingles("x", t.shingleK) == {}
  {
    RunsOfOne("x", InWord);
  }

  /** The renumbered part is paired with its predecessor, and the newcomer with nothing. */
  lemma OnlyTheMovePairs(uid: Uid, tree: Clause, t: Tuning)
    requires ValidTuning(t) && 2 <= t.shingleK && ReadsAfter(Walk(tree))
    ensures Displaces([StoredRow(uid)], tree, t, [PartLabel("B")], [PartLabel("A")])
  {
    hide Shingles, MakePairs, Pass2, PartLabel, OldSide, NewSide, Walk;
    OldCandidate(uid, t);
    NewCandidates(tree, t);
    ShortBody(t);
    LabelsDiffer("A", "B");
    var v1, v2, ps := OldSide([StoredRow(uid)], t), NewSide(tree, t), Pairing([StoredRow(uid)], tree, t);
    var p := Pair(PASS2_BASE_CONFIDENCE, 0, 0);
    assert Qualifies(v1, v2, t, p);
    forall q | Qualifies(v1, v2, t, q)
      ensures q == p
    {
    }
    OnlyPair(v1, v2, t, p);
    MakePairsGood(v1, v2, t);
    forall q | q in ps && q.j < |v2|
      ensures v2[q.j].path != [PartLabel("A")]
    {
      if q != p {
        DisjointMembers(ps, p, q);
        OneRow(v1, v2, ps, q);
      }
    }
    assert p in ps && v2[p.j].path == [PartLabel("B")] && v1[p.i].path == [PartLabel("A")];
  }

  lemma OneRow(v1: seq<Candidate>, v2: seq<Candidate>, ps: seq<Pair>, q: Pair)
    requires GoodPairs(v1, v2, ps) && |v1| == 1 && q in ps
    ensures q.i == 0
  {
    var k :| 0 <= k < |ps| && ps[k] == q;
  }

  /** A single qualifying pair is made. */
  lemma OnlyPair(v1: seq<Candidate>, v2: seq<Candidate>, t: Tuning, p: Pair)
    requires ValidTuning(t) && Sized(v1, t.signatureSize) && Sized(v2, t.signatureSize)
    requires Qualifies(v1, v2, t, p) && forall q :: Qualifies(v1, v2, t, q) ==> q == p
    ensures p in MakePairs(v1, v2, t)
  {
    hide Qualifies, Pass3;
    forall q
      ensures q in Admissible(v1, v2, t, {}, {}) <==> q == p
    {
      AdmissibleQualifies(v1, v2, t, {}, {}, q);
    }
    assert Admissible(v1, v2, t, {}, {}) == {p};
    assert Stable({p}, {p});
    Pass2IsTheStableMatching(v1, v2, t, {}, {}, {p});
    assert p in Elements(Pass2(v1, v2, t));
  }

  // ----- the stored version -----

  lemma StorableBefore(nodes: seq<Clause>)
    requires ReadsBefore(nodes)
    ensures Storable(nodes)
  {
    hide PartLabel, JoinPath, Persistable;
    DoesNotPersist(nodes[0]);
  }

  lemma StorableAfter(nodes: seq<Clause>)
    requires ReadsAfter(nodes)
    ensures Storable(nodes) && Persistable(nodes[1]) && Persistable(nodes[2])
  {
    hide PartLabel, JoinPath, Persistable;
    DoesNotPersist(nodes[0]);
    Persists(nodes[1], "x");
    Persists(nodes[2], "y");
    PartPath("A");
    PartPath("B");
    LabelsDiffer("A", "B");
    forall a, b | 0 <= a < b < |nodes| && Persistable(nodes[a]) && Persistable(nodes[b])
      ensures JoinPath(nodes[a].path) != JoinPath(nodes[b].path)
    {
      assert a == 1 && b == 2;
    }
  }

  lemma {:induction false} RowsAfter(nodes: seq<Clause>, uids: map<Path, Uid>)
    requires ReadsAfter(nodes) && HasUids(nodes, uids)
    ensures Persistable(nodes[1]) && Persistable(nodes[2]) && [PartLabel("A")] in uids && [PartLabel("B")] in uids
    ensures var rows := ClauseRows(nodes, uids);
      && |rows| == 2
      && rows[0].uid == uids[[PartLabel("B")]] && rows[0].clausePath == PartLabel("B")
      && rows[1].uid == uids[[PartLabel("A")]] && rows[1].clausePath == PartLabel("A")
  {
    hide PartLabel, JoinPath, Persistable;
    DoesNotPersist(nodes[0]);
    Persists(nodes[1], "x");
    Persists(nodes[2], "y");
    PartPath("A");
    PartPath("B");
    assert nodes[..2][..1] == nodes[..1] && nodes[..1][..0] == [];
    assert nodes[..2][1] == nodes[1] && nodes[..1][0] == nodes[0];
    assert ClauseRows(nodes[..1], uids) == [];
  }

  /** Against the stored row, both clauses of the second document get its uid. */
  lemma UidsCollide(uid: Uid, tree: Clause, t: Tuning, next: Uid)
    requires ValidTuning(t) && 2 <= t.shingleK && ReadsAfter(Walk(tree)) && uid < next
    ensures var rows := NewRows([StoredRow(uid)], tree, t, next);
      |rows| == 2 && rows[0].uid == rows[1].uid && rows[0].clausePath != rows[1].clausePath
  {
    hide Displaces, MakePairs, BuildUids, ClauseRows, Walk, JoinPath, Strip, PartLabel, Persistable, Diff, Storable;
    var nodes, uids := Walk(tree), NewUids([StoredRow(uid)], tree, t, next).uids;
    StorableAfter(nodes);
    StorableIff(nodes, uids);
    RowsAfter(nodes, uids);
    OnlyTheMovePairs(uid, tree, t);
    PersistablePathsIff(nodes, [PartLabel("A")]);
    PersistablePathsIff(nodes, [PartLabel("B")]);
    LabelsDiffer("A", "B");
    SharedUidIff([StoredRow(uid)], tree, t, next, [PartLabel("B")], [PartLabel("A")]);
  }

  lemma InsertedRows(env: Poll.Env, st: Poll.Store, fetched: string, now: int)
    requires Poll.ValidEnv(env) && Poll.Polled(env, st, Some(fetched), now).1 == Poll.Inserted
    ensures var t := Poll.Polled(env, st, Some(fetched), now).0;
      && |t.versions| == |st.versions| + 1
      && t.versions[|st.versions|].rows
        == NewRows(Poll.PreviousRows(st.versions, Poll.Live(st.versions)), env.parse(fetched), env.tuning, st.next)
  {
    hide NewRows, NewUids, Diff, Ledger.EventRows, Poll.LiveBelow, Poll.NumberTaken, DistinctRowPaths;
  }

  /** The first poll leaves one version with one row. */
  lemma FirstPoll(env: Poll.Env, fetched: string, now: int) returns (uid: Uid)
    requires Poll.ValidEnv(env) && ReadsBefore(Walk(env.parse(fetched)))
    ensures var st := Poll.Polled(env, Poll.EMPTY, Some(fetched), now).0;
      && Poll.History(st) && Records(env, st, [fetched], true)
      && st.versions[0].rows == [StoredRow(uid)] && uid < st.next
  {
    hide Walk, Poll.Polled, Poll.ValidEnv, Storable, Poll.History, Diff, ClauseRows, Poll.LiveBelow, PartLabel, Records, ReadsBefore;
    NothingRecorded(env);
    StorableBefore(Walk(env.parse(fetched)));
    PollRecords(env, Poll.EMPTY, [], true, fetched, now);
    assert [] + [fetched] == [fetched];
    Poll.PollKeepsHistory(env, Poll.EMPTY, Some(fetched), now);
    InsertedRows(env, Poll.EMPTY, fetched, now);
    Poll.LiveIsLast(Poll.EMPTY);
    TuningOf(env);
    var uids := NewUids([], env.parse(fetched), env.tuning, 0).uids;
    RowsBefore(Walk(env.parse(fetched)), uids);
    uid := uids[[PartLabel("A")]];
    var st := Poll.Polled(env, Poll.EMPTY, Some(fetched), now).0;
    RowBelow(st, StoredRow(uid));
  }

  lemma RowBelow(st: Poll.Store, r: ClauseRow)
    requires Poll.History(st) && st.versions != [] && st.versions[0].rows == [r]
    ensures r.uid < st.next
  {
    hide DistinctRowPaths, Poll.StepsRight, Poll.Numbered, Poll.Contiguous, Poll.Changing;
    assert Poll.UidsBelow(st.versions[0].rows, st.next);
    assert st.versions[0].rows[0] == r;
  }

  lemma OneLive(env: Poll.Env, st: Poll.Store, fetched: string)
    requires Poll.History(st) && Records(env, st, [fetched], true)
    ensures |st.versions| == 1 && Poll.Live(st.versions) == Some(0)
  {
    hide Poll.History, Poll.LiveBelow;
    Poll.LiveIsLast(st);
  }

  /** After polling the first document and then the second, the second version has two clause rows, at
      different paths, with one uid. */
  lemma PollsCollide(env: Poll.Env, digit: char -> bool, isWord: char -> bool, lower: string -> string,
                     first: string, second: string, now: int)
    requires Poll.ValidEnv(env) && 2 <= env.tuning.shingleK && first != second
    requires AsciiRight(digit, isWord, lower) && ValidConfig(DefaultConfig(digit, isWord, lower))
    requires env.parse(first) == Parser.Parsed(DefaultConfig(digit, isWord, lower), BEFORE)
    requires env.parse(second) == Parser.Parsed(DefaultConfig(digit, isWord, lower), AFTER)
    ensures var vs := Poll.Run(env, [Poll.PollInput(Some(first), now), Poll.PollInput(Some(second), now + 1)]).versions;
      |vs| == 2 && |vs[1].rows| == 2
      && vs[1].rows[0].uid == vs[1].rows[1].uid && vs[1].rows[0].clausePath != vs[1].rows[1].clausePath
  {
    hide Walk, Poll.Polled, Poll.ValidEnv, Poll.History, Parser.Parsed, ValidConfig, AsciiRight, Records, ReadsBefore, ReadsAfter, NewRows,
      Storable, Defaults, Poll.Run;
    ParsedBefore(digit, isWord, lower);
    ParsedAfter(digit, isWord, lower);
    var uid := FirstPoll(env, first, now);
    var st := Poll.Polled(env, Poll.EMPTY, Some(first), now).0;
    OneLive(env, st, first);
    StorableBefore(Walk(env.parse(first)));
    StorableAfter(Walk(env.parse(second)));
    PollRecords(env, st, [first], true, second, now + 1);
    InsertedRows(env, st, second, now + 1);
    TuningOf(env);
    UidsCollide(uid, env.parse(second), env.tuning, st.next);
    RunTwo(env, Poll.PollInput(Some(first), now), Poll.PollInput(Some(second), now + 1));
  }

  lemma TuningOf(env: Poll.Env)
    requires Poll.ValidEnv(env)
    ensures ValidTuning(env.tuning)
  {
  }

  lemma RunTwo(env: Poll.Env, p: Poll.PollInput, q: Poll.PollInput)
    requires Poll.ValidEnv(env)
    ensures Poll.Run(env, [p, q]) == Poll.Polled(env, Poll.Polled(env, Poll.EMPTY, p.doc, p.now).0, q.doc, q.now).0
  {
    hide Poll.Polled, Poll.ValidEnv;
    assert [p, q][..1] == [p] && [p][..0] == [];
    assert Poll.Run(env, [p]) == Poll.Polled(env, Poll.EMPTY, p.doc, p.now).0;
  }
}
