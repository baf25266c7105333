/** Path segments of parsed trees: never empty, and free of the path separator exactly when no label
    the document yields contains it. */
module ParserSegments {
  import opened Prelude
  import opened Text
  import opened Clauses
  import opened Matching
  import opened Builder
  import opened Parser

  predicate NonEmptyPath(p: Path) {
    forall s :: s in p ==> s != ""
  }

  /** No segment contains the path separator. */
  predicate PlainPath(p: Path) {
    forall s :: s in p ==> '/' !in s
  }

  ghost predicate NonEmptyNodes(nodes: seq<Node>) {
    forall c :: 0 <= c < |nodes| ==> NonEmptyPath(nodes[c].path)
  }

  ghost predicate PlainNodes(nodes: seq<Node>) {
    forall c :: 0 <= c < |nodes| ==> PlainPath(nodes[c].path)
  }

  /** None of the matches from `k` on covers a path separator. */
  ghost predicate PlainSpans(text: string, ms: seq<Match>, k: nat) {
    forall x :: k <= x < |ms| && ms[x].start <= ms[x].end <= |text| ==> '/' !in text[ms[x].start..ms[x].end]
  }

  /** No label cut from the block contains the path separator. */
  ghost predicate PlainBlock(cfg: Config, block: Block)
    requires ValidConfig(cfg)
  {
    block.Paragraph? && !cfg.ignored(Strip(block.text)) ==>
      PlainSpans(block.text, ScanOf(block.text, cfg.patterns, 0), 0)
  }

  /** No label cut from the document contains the path separator. */
  ghost predicate SlashFree(cfg: Config, blocks: seq<Block>)
    requires ValidConfig(cfg)
  {
    forall k :: 0 <= k < |blocks| ==> PlainBlock(cfg, blocks[k])
  }

  // ----- characters -----

  lemma {:induction false} DecimalPlain(n: nat)
    ensures '/' !in Decimal(n)
  {
    if n >= 10 {
      DecimalPlain(n / 10);
    }
  }

  // ----- one segment -----

  lemma DisambiguatedHolds(base: string, taken: set<string>)
    requires base != ""
    ensures Disambiguated(base, taken) != ""
    ensures '/' in Disambiguated(base, taken) <==> '/' in base
  {
    if base in taken {
      DecimalPlain(FreeSuffix(base, taken, 2));
    }
  }

  lemma BaseHolds(cfg: Config, numbering: Option<string>, heading: Option<string>, ordinal: nat)
    requires !cfg.isWord('/') && ((numbering.Some? && numbering.value != "") || heading.Some?)
    ensures BaseSegment(cfg, numbering, heading, ordinal) != ""
    ensures '/' in BaseSegment(cfg, numbering, heading, ordinal) <==> numbering.Some? && '/' in numbering.value
  {
    DecimalPlain(ordinal);
    if heading.Some? {
      SlugAlphabet(cfg.isWord, cfg.lower, heading.value);
    }
  }

  // ----- steps -----

  lemma AttachSegments(nodes: seq<Node>, p: nat, n: Node, segment: string)
    requires p < |nodes| && n.path == nodes[p].path + [segment]
    ensures PlainNodes(Attach(nodes, p, n)) <==> PlainNodes(nodes) && '/' !in segment
    ensures NonEmptyNodes(nodes) && segment != "" ==> NonEmptyNodes(Attach(nodes, p, n))
  {
    var g := Attach(nodes, p, n);
    assert forall c :: 0 <= c < |nodes| ==> g[c].path == nodes[c].path;
    assert g[|nodes|].path == nodes[p].path + [segment];
    if PlainNodes(g) {
      assert segment in g[|nodes|].path;
      forall c | 0 <= c < |nodes|
        ensures PlainPath(nodes[c].path)
      {
        assert PlainPath(g[c].path);
      }
    }
  }

  lemma OpenClauseSegments(cfg: Config, b: State, depth: int, numbering: Option<string>, body: string, explicit: Option<string>)
    requires !cfg.isWord('/') && Shaped(b) && ((numbering.Some? && numbering.value != "") || explicit.Some?)
    ensures var t := OpenClause(cfg, b, depth, numbering, body, explicit);
      && (PlainNodes(t.nodes) <==> PlainNodes(b.nodes) && (numbering.Some? ==> '/' !in numbering.value))
      && (NonEmptyNodes(b.nodes) ==> NonEmptyNodes(t.nodes))
  {
    hide BaseSegment, Disambiguated, Taken, Attach, PlainNodes, NonEmptyNodes;
    var s := Popped(b, depth);
    var p := Top(s);
    var heading := if explicit.Some? then explicit else s.pending;
    var base := BaseSegment(cfg, numbering, heading, |s.nodes[p].children| + 1);
    BaseHolds(cfg, numbering, heading, |s.nodes[p].children| + 1);
    DisambiguatedHolds(base, Taken(s.nodes, p));
    AttachSegments(s.nodes, p, NewClause(cfg, s, depth, numbering, body, explicit), Disambiguated(base, Taken(s.nodes, p)));
  }

  lemma AddLeafSegments(b: State, body: string)
    requires Shaped(b)
    ensures PlainNodes(AddLeaf(b, body).nodes) <==> PlainNodes(b.nodes)
    ensures NonEmptyNodes(b.nodes) ==> NonEmptyNodes(AddLeaf(b, body).nodes)
  {
    hide Attach, PlainNodes, NonEmptyNodes;
    var ordinal := |b.nodes[Top(b)].children| + 1;
    DecimalPlain(ordinal);
    AttachSegments(b.nodes, Top(b), NewLeaf(b, body), Ordinal(ordinal));
  }

  lemma {:induction false} OpenFromSegments(cfg: Config, b: State, text: string, ms: seq<Match>, k: nat)
    requires !cfg.isWord('/') && Shaped(b) && UsableScan(cfg, text, ms) && k <= |ms|
    ensures var t := OpenFrom(cfg, b, text, ms, k);
      && (PlainNodes(t.nodes) <==> PlainNodes(b.nodes) && PlainSpans(text, ms, k))
      && (NonEmptyNodes(b.nodes) ==> NonEmptyNodes(t.nodes))
    decreases |ms| - k
  {
    hide PlainNodes, NonEmptyNodes, OpenClause, Strip;
    if k < |ms| {
      StripHolds(text[ms[k].start..ms[k].end], '/');
      OpenClauseSegments(cfg, b, cfg.patterns[ms[k].which].depth, Some(Strip(text[ms[k].start..ms[k].end])),
                         Strip(text[ms[k].end..NextStart(text, ms, k)]), None);
      OpenFromSegments(cfg, OpenMatch(cfg, b, text, ms, k), text, ms, k + 1);
      SpansFrom(text, ms, k);
    }
  }

  lemma SpansFrom(text: string, ms: seq<Match>, k: nat)
    requires k < |ms| && ms[k].start <= ms[k].end <= |text|
    ensures PlainSpans(text, ms, k) <==> '/' !in text[ms[k].start..ms[k].end] && PlainSpans(text, ms, k + 1)
  {
  }

  lemma SamePaths(a: seq<Node>, b: seq<Node>)
    requires |a| == |b| && forall c :: 0 <= c < |a| ==> a[c].path == b[c].path
    ensures PlainNodes(a) <==> PlainNodes(b)
    ensures NonEmptyNodes(a) <==> NonEmptyNodes(b)
  {
    hide PlainPath, NonEmptyPath;
    assert forall c :: 0 <= c < |a| ==> (PlainPath(a[c].path) <==> PlainPath(b[c].path));
    assert forall c :: 0 <= c < |a| ==> (NonEmptyPath(a[c].path) <==> NonEmptyPath(b[c].path));
  }

  lemma ConsumeSegments(cfg: Config, b: State, block: Block)
    requires ValidConfig(cfg) && !cfg.isWord('/') && Shaped(b)
    ensures PlainNodes(Consume(cfg, b, block).nodes) <==> PlainNodes(b.nodes) && PlainBlock(cfg, block)
    ensures NonEmptyNodes(b.nodes) ==> NonEmptyNodes(Consume(cfg, b, block).nodes)
  {
    hide ScanOf, BoldOnly, Strip, AddLeaf, OpenFrom, OpenClause, PlainNodes, NonEmptyNodes;
    match block
    case Paragraph(text, bold) =>
      var ms := ScanOf(text, cfg.patterns, 0);
      ScanUsable(cfg, text);
      if ms == [] {
        AddLeafSegments(b, Strip(text));
        SamePaths(b.nodes, AbsorbTitle(b, Strip(text)).nodes);
      } else {
        AddLeafSegments(b, Strip(text[..ms[0].start]));
        OpenFromSegments(cfg, PrefixLeaf(b, text, ms[0].start), text, ms, 0);
      }
    case Heading(level, title) =>
      if Strip(title) != "" {
        var d := level + cfg.headingOffset;
        OpenClauseSegments(cfg, b, if d < 1 then 1 else d, None, "", Some(Strip(title)));
      }
    case Loose(content) =>
      SamePaths(b.nodes, AddLoose(b, content).nodes);
  }

  lemma InitialSegments()
    ensures PlainNodes(INITIAL.nodes) && NonEmptyNodes(INITIAL.nodes)
  {
  }

  lemma {:induction false} BuiltSegments(cfg: Config, blocks: seq<Block>)
    requires ValidConfig(cfg) && !cfg.isWord('/')
    ensures PlainNodes(Built(cfg, blocks).nodes) <==> SlashFree(cfg, blocks)
    ensures NonEmptyNodes(Built(cfg, blocks).nodes)
  {
    hide Consume, PlainBlock, PlainNodes, NonEmptyNodes, ValidConfig;
    InitialSegments();
    if blocks != [] {
      var front, block := blocks[..|blocks| - 1], blocks[|blocks| - 1];
      BuiltSegments(cfg, front);
      ConsumeSegments(cfg, Built(cfg, front), block);
      SlashFreeSnoc(cfg, blocks);
    }
  }

  lemma SlashFreeSnoc(cfg: Config, blocks: seq<Block>)
    requires ValidConfig(cfg) && blocks != []
    ensures SlashFree(cfg, blocks) <==> SlashFree(cfg, blocks[..|blocks| - 1]) && PlainBlock(cfg, blocks[|blocks| - 1])
  {
    hide PlainBlock, ValidConfig;
    var front := blocks[..|blocks| - 1];
    if SlashFree(cfg, front) && PlainBlock(cfg, blocks[|blocks| - 1]) {
      forall k | 0 <= k < |blocks|
        ensures PlainBlock(cfg, blocks[k])
      {
        assert k < |front| ==> front[k] == blocks[k];
      }
    }
  }

  /** No clause of the list has a path separator inside a segment. */
  predicate PlainClauses(cs: seq<Clause>) {
    forall k :: 0 <= k < |cs| ==> PlainPath(cs[k].path)
  }

  predicate NonEmptyClauses(cs: seq<Clause>) {
    forall k :: 0 <= k < |cs| ==> NonEmptyPath(cs[k].path)
  }

  lemma ListedPaths(nodes: seq<Node>, cs: seq<Clause>)
    requires |nodes| == |cs| && forall k :: 0 <= k < |cs| ==> cs[k].path == nodes[k].path
    ensures PlainClauses(cs) <==> PlainNodes(nodes)
    ensures NonEmptyClauses(cs) <==> NonEmptyNodes(nodes)
  {
    hide PlainPath, NonEmptyPath;
    assert forall k :: 0 <= k < |cs| ==> (PlainPath(cs[k].path) <==> PlainPath(nodes[k].path));
    assert forall k :: 0 <= k < |cs| ==> (NonEmptyPath(cs[k].path) <==> NonEmptyPath(nodes[k].path));
  }

  /** In a parsed tree no segment is empty; and no segment holds a slash exactly when no label cut from
      the document holds one. */
  lemma ParsedSegments(cfg: Config, blocks: seq<Block>)
    requires ValidConfig(cfg) && !cfg.isWord('/')
    ensures NonEmptyClauses(Walk(Parsed(cfg, blocks)))
    ensures PlainClauses(Walk(Parsed(cfg, blocks))) <==> SlashFree(cfg, blocks)
  {
    hide Walk, PlainClauses, NonEmptyClauses, PlainNodes, NonEmptyNodes, SlashFree;
    WalkIsCreationOrder(cfg, blocks);
    BuiltSegments(cfg, blocks);
    ListedPaths(Built(cfg, blocks).nodes, Walk(Parsed(cfg, blocks)));
  }
}
