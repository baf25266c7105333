/** A document, under the configuration polls use, whose clauses are distinct but whose stored paths
    are not. */
module SlashWitness {
  import opened Prelude
  import opened Text
  import opened Clauses
  import opened Matching
  import opened Builder
  import opened DefaultPatterns
  import opened Evaluation
  import opened Rows
  import opened PollHistory
  import Parser
  import Poll

  /** A part whose number holds a slash, a plain part, and a heading below it. */
  const DOCUMENT: seq<Block> :=
    [Paragraph(PartLabel("I/ii") + " " + "x", []), Paragraph(PartLabel("I") + " " + "y", []), Heading(2, "ii")]

  const SLASHED: Node := Node(1, [PartLabel("I/ii")], None, ["x"], Some(PartLabel("I/ii")), [], 0)
  const PLAIN: Node := Node(1, [PartLabel("I")], None, ["y"], Some(PartLabel("I")), [], 0)
  const BELOW: Node := Node(2, [PartLabel("I"), "ii"], Some("ii"), [], None, [], 2)
  const ROOT: Node := Node(0, [], None, [], None, [], 0)

  const AFTER_FIRST: State := State([ROOT.(children := [1]), SLASHED], [0, 1], None)
  const AFTER_SECOND: State := State([ROOT.(children := [1, 2]), SLASHED, PLAIN], [0, 2], None)
  const AFTER_THIRD: State := State([ROOT.(children := [1, 2]), SLASHED, PLAIN.(children := [3]), BELOW], [0, 2, 3], None)

  lemma FirstPart(cfg: Config)
    ensures OpenClause(cfg, INITIAL, 1, Some(PartLabel("I/ii")), "x", None) == AFTER_FIRST
  {
    hide NewClause, Attach, PartLabel;
    assert Popped(INITIAL, 1) == INITIAL;
    assert Taken(INITIAL.nodes, 0) == {};
    LabelNotEmpty("I/ii");
    LabelledClause(cfg, INITIAL, 1, PartLabel("I/ii"), "x");
    assert [] + [PartLabel("I/ii")] == [PartLabel("I/ii")];
    FirstChild(ROOT, SLASHED);
    assert [0] + [1] == [0, 1];
  }

  lemma SecondPart(cfg: Config)
    ensures Shaped(AFTER_FIRST)
    ensures OpenClause(cfg, AFTER_FIRST, 1, Some(PartLabel("I")), "y", None) == AFTER_SECOND
  {
    hide NewClause, Attach, PartLabel;
    var b := AFTER_FIRST.(stack := [0]);
    assert [0, 1][..1] == [0];
    assert Popped(AFTER_FIRST, 1) == b;
    LabelsDiffer("I", "I/ii");
    LabelNotEmpty("I");
    assert forall k :: 0 <= k < |b.nodes[0].children| ==> b.nodes[0].children[k] == 1;
    assert LastSegment(b.nodes[1].path) == PartLabel("I/ii");
    LabelledClause(cfg, b, 1, PartLabel("I"), "y");
    assert [] + [PartLabel("I")] == [PartLabel("I")];
    SecondChild(ROOT.(children := [1]), SLASHED, PLAIN);
    assert [0] + [2] == [0, 2];
  }

  lemma Slug(isWord: char -> bool, lower: string -> string)
    requires isWord('i') && lower("ii") == "ii"
    ensures Slugify(isWord, lower, "ii") == "ii"
  {
    StripTight("ii");
    assert "ii"[1..] == "i" && "i"[1..] == "";
    assert Dashed(isWord, "i", false) == "i" && Dashed(isWord, "ii", false) == "ii";
  }

  lemma TitledClause(cfg: Config, b: State, title: string)
    requires Shaped(b) && Slugify(cfg.isWord, cfg.lower, title) == title != "" && Taken(b.nodes, Top(b)) == {}
    ensures NewClause(cfg, b, 2, None, "", Some(title))
      == Node(2, b.nodes[Top(b)].path + [title], Some(title), [], None, [], Top(b))
  {
    hide Slugify;
  }

  lemma ThirdBlock(cfg: Config)
    requires cfg.headingOffset == 0 && cfg.isWord('i') && cfg.lower("ii") == "ii"
    ensures Shaped(AFTER_SECOND)
    ensures ConsumeHeading(cfg, AFTER_SECOND, 2, "ii") == AFTER_THIRD
  {
    hide Slugify, Strip, NewClause, Attach, PartLabel;
    Slug(cfg.isWord, cfg.lower);
    StripTight("ii");
    assert [0, 2][..2] == [0, 2];
    assert Popped(AFTER_SECOND, 2) == AFTER_SECOND;
    assert Taken(AFTER_SECOND.nodes, 2) == {};
    TitledClause(cfg, AFTER_SECOND, "ii");
    assert [PartLabel("I")] + ["ii"] == [PartLabel("I"), "ii"];
    ChildOfThird(ROOT.(children := [1, 2]), SLASHED, PLAIN, BELOW);
    assert [0, 2] + [3] == [0, 2, 3];
  }

  lemma BuiltDocument(digit: char -> bool, isWord: char -> bool, lower: string -> string)
    requires AsciiRight(digit, isWord, lower)
    ensures ValidConfig(DefaultConfig(digit, isWord, lower))
    ensures Built(DefaultConfig(digit, isWord, lower), DOCUMENT) == AFTER_THIRD
  {
    hide Defaults, Consume, OpenClause, PartLabel, ValidConfig, ConsumeHeading, Built, AsciiRight;
    var cfg := DefaultConfig(digit, isWord, lower);
    DefaultValid(digit, isWord, lower);
    AsciiFacts(digit, isWord, lower);
    FirstPart(cfg);
    SecondPart(cfg);
    ThirdBlock(cfg);
    PartParagraph(digit, isWord, lower, INITIAL, "I/ii", "x", []);
    PartParagraph(digit, isWord, lower, AFTER_FIRST, "I", "y", []);
    HeadingConsumed(cfg, AFTER_SECOND, 2, "ii");
    BuiltThree(cfg, DOCUMENT[0], DOCUMENT[1], DOCUMENT[2]);
  }

  lemma AsciiFacts(digit: char -> bool, isWord: char -> bool, lower: string -> string)
    requires AsciiRight(digit, isWord, lower)
    ensures !digit(' ') && Quiet(digit, "x") && Quiet(digit, "y")
    ensures isWord('i') && lower("ii") == "ii"
  {
  }

  lemma HeadingConsumed(cfg: Config, b: State, level: int, title: string)
    requires ValidConfig(cfg) && Shaped(b)
    ensures Consume(cfg, b, Heading(level, title)) == ConsumeHeading(cfg, b, level, title)
  {
  }

  lemma StoredAlike()
    ensures JoinPath([PartLabel("I/ii")]) == JoinPath([PartLabel("I"), "ii"])
  {
    assert [PartLabel("I"), "ii"][1..] == ["ii"] && Join(["ii"], '/') == "ii";
  }

  /** The document's tree has distinct paths, two of which are stored as one string: the version is
      refused by the uniqueness constraint. */
  lemma DocumentUnstorable(digit: char -> bool, isWord: char -> bool, lower: string -> string)
    requires AsciiRight(digit, isWord, lower)
    ensures ValidConfig(DefaultConfig(digit, isWord, lower))
    ensures var nodes := Walk(Parser.Parsed(DefaultConfig(digit, isWord, lower), DOCUMENT));
      Parser.PathsDistinct(nodes) && !Storable(nodes)
  {
    hide Built, Walk, Parser.Parsed, PartLabel, JoinPath, Defaults, ValidConfig, Parser.PathsDistinct, Persistable, Strip, BodyOf, Storable;
    var cfg := DefaultConfig(digit, isWord, lower);
    BuiltDocument(digit, isWord, lower);
    Parser.ParsedPathsDistinct(cfg, DOCUMENT);
    Parser.WalkIsCreationOrder(cfg, DOCUMENT);
    var nodes := Walk(Parser.Parsed(cfg, DOCUMENT));
    TwoStoredAlike(AFTER_THIRD.nodes, nodes);
  }

  lemma TwoStoredAlike(nodes: seq<Node>, cs: seq<Clause>)
    requires nodes == AFTER_THIRD.nodes && |cs| == |nodes|
    requires forall k :: 0 <= k < |cs| ==>
      cs[k].path == nodes[k].path && cs[k].heading == nodes[k].heading && cs[k].body == BodyOf(nodes[k].parts)
    ensures !Storable(cs)
  {
    hide PartLabel, JoinPath, Persistable, Strip, BodyOf;
    StoredAlike();
    assert nodes[1] == SLASHED && nodes[3] == BELOW;
    BodyOfOne("x");
    StripTight("ii");
    HasBody(cs[1]);
    HasTitle(cs[3]);
    assert JoinPath(cs[1].path) == JoinPath(cs[3].path);
  }

  /** A poll that fetches it is refused, on a document with no versions. */
  lemma DocumentRejected(env: Poll.Env, digit: char -> bool, isWord: char -> bool, lower: string -> string, fetched: string, now: int)
    requires Poll.ValidEnv(env) && AsciiRight(digit, isWord, lower) && ValidConfig(DefaultConfig(digit, isWord, lower))
    requires env.parse(fetched) == Parser.Parsed(DefaultConfig(digit, isWord, lower), DOCUMENT)
    ensures Poll.Polled(env, Poll.EMPTY, Some(fetched), now) == (Poll.EMPTY, Poll.Rejected)
  {
    hide Walk, Parser.Parsed, ValidConfig, Storable, AsciiRight, Poll.Polled, Poll.ValidEnv;
    DocumentUnstorable(digit, isWord, lower);
    NothingRecorded(env);
    PollRecords(env, Poll.EMPTY, [], true, fetched, now);
  }
}
