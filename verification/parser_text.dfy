/** Text conservation and depths of parsed trees, and the parse method itself. */
module ParserText {
  import opened Prelude
  import opened Text
  import opened Clauses
  import opened Matching
  import opened Arena
  import opened Builder
  import opened Parser

  // ----- text carried by clauses -----

  function OrEmpty(s: Option<string>): string {
    match s
    case None => ""
    case Some(v) => v
  }

  /** Non-space characters of a list of parts, in order. */
  function PartsText(parts: seq<string>): string {
    if parts == [] then "" else NonSpace(parts[0]) + PartsText(parts[1..])
  }

  lemma {:induction false} PartsTextSnoc(parts: seq<string>, last: string)
    ensures PartsText(parts + [last]) == PartsText(parts) + NonSpace(last)
  {
    if parts == [] {
      assert parts + [last] == [last] && [last][1..] == [];
    } else {
      assert (parts + [last])[1..] == parts[1..] + [last];
      PartsTextSnoc(parts[1..], last);
    }
  }

  /** Joining the trimmed parts loses no non-space character. */
  lemma {:induction false} BodyKeepsText(parts: seq<string>)
    ensures NonSpace(BodyOf(parts)) == PartsText(parts)
  {
    TrimKeepsText(parts);
    JoinKeepsText(Trimmed(parts));
  }

  lemma {:induction false} TrimKeepsText(parts: seq<string>)
    ensures PartsText(Trimmed(parts)) == PartsText(parts)
  {
    if parts != [] {
      TrimKeepsText(parts[1..]);
      StripKeepsNonSpace(parts[0]);
      StripEmptyIff(parts[0]);
      if Strip(parts[0]) == "" {
        assert Trimmed(parts) == Trimmed(parts[1..]);
      } else {
        assert Trimmed(parts)[1..] == Trimmed(parts[1..]);
      }
    }
  }

  lemma {:induction false} JoinKeepsText(parts: seq<string>)
    ensures NonSpace(Join(parts, ' ')) == PartsText(parts)
  {
    if |parts| == 1 {
      assert PartsText(parts[1..]) == "" && Join(parts, ' ') == parts[0];
    } else if |parts| > 1 {
      JoinKeepsText(parts[1..]);
      NonSpaceConcat(parts[0] + [' '], Join(parts[1..], ' '));
      NonSpaceConcat(parts[0], [' ']);
      assert NonSpace([' ']) == "";
    }
  }

  lemma NonSpaceSplit(text: string, k: nat)
    requires k <= |text|
    ensures NonSpace(text) == NonSpace(text[..k]) + NonSpace(text[k..])
  {
    assert text == text[..k] + text[k..];
    NonSpaceConcat(text[..k], text[k..]);
  }

  /** Label and body text of a clause under construction. */
  function NodeText(n: Node): string {
    NonSpace(OrEmpty(n.numbering)) + PartsText(n.parts)
  }

  /** Text of all nodes in creation order. */
  ghost function AllText(nodes: seq<Node>): string {
    if nodes == [] then "" else AllText(nodes[..|nodes| - 1]) + NodeText(nodes[|nodes| - 1])
  }

  lemma {:induction false} SameTexts(a: seq<Node>, b: seq<Node>)
    requires |a| == |b| && forall k :: 0 <= k < |a| ==> NodeText(a[k]) == NodeText(b[k])
    ensures AllText(a) == AllText(b)
  {
    if a != [] {
      SameTexts(a[..|a| - 1], b[..|b| - 1]);
    }
  }

  lemma AttachText(nodes: seq<Node>, p: nat, n: Node)
    requires p < |nodes|
    ensures AllText(Attach(nodes, p, n)) == AllText(nodes) + NodeText(n)
  {
    var g := Attach(nodes, p, n);
    assert g[..|nodes|] == nodes[p := nodes[p].(children := nodes[p].children + [|nodes|])];
    SameTexts(g[..|nodes|], nodes);
  }

  lemma OpenClauseText(cfg: Config, b: State, depth: int, numbering: Option<string>, body: string, explicit: Option<string>)
    requires Shaped(b) && ((numbering.Some? && numbering.value != "") || explicit.Some?)
    ensures AllText(OpenClause(cfg, b, depth, numbering, body, explicit).nodes)
      == AllText(b.nodes) + NonSpace(OrEmpty(numbering)) + NonSpace(body)
  {
    hide ParentPosition, BaseSegment, Disambiguated, NonSpace, AllText, Attach, Taken;
    SinglePart(body);
    NonSpaceOfEnd("");
    assert ""[|""|..] == "";
    var s := Popped(b, depth);
    var n := NewClause(cfg, s, depth, numbering, body, explicit);
    AttachText(s.nodes, Top(s), n);
    Associate(AllText(s.nodes), NonSpace(OrEmpty(numbering)), NonSpace(body));
  }

  lemma SinglePart(body: string)
    ensures PartsText([body]) == NonSpace(body)
  {
    assert [body][1..] == [] && NonSpace(body) + "" == NonSpace(body);
  }

  lemma AddLeafText(b: State, body: string)
    requires Shaped(b)
    ensures AllText(AddLeaf(b, body).nodes) == AllText(b.nodes) + NonSpace(body)
  {
    SinglePart(body);
    AttachText(b.nodes, Top(b), NewLeaf(b, body));
    assert NodeText(NewLeaf(b, body)) == "" + NonSpace(body) == NonSpace(body);
  }

  // ----- pieces of one paragraph -----

  lemma OpenMatchText(cfg: Config, b: State, text: string, ms: seq<Match>, k: nat)
    requires Shaped(b) && UsableScan(cfg, text, ms) && k < |ms|
    ensures AllText(OpenMatch(cfg, b, text, ms, k).nodes) + NonSpace(text[NextStart(text, ms, k)..])
      == AllText(b.nodes) + NonSpace(text[ms[k].start..])
  {
    hide OpenClause, NonSpace, AllText, Strip;
    var s, e, next := ms[k].start, ms[k].end, NextStart(text, ms, k);
    OpenClauseText(cfg, b, cfg.patterns[ms[k].which].depth, Some(Strip(text[s..e])), Strip(text[e..next]), None);
    StripKeepsNonSpace(text[s..e]);
    StripKeepsNonSpace(text[e..next]);
    SplitText(text, s, e, next);
    Associate(AllText(b.nodes) + NonSpace(text[s..e]), NonSpace(text[e..next]), NonSpace(text[next..]));
    Associate(AllText(b.nodes), NonSpace(text[s..e]), NonSpace(text[e..next]) + NonSpace(text[next..]));
  }

  /** The labels and bodies cut from match `k` on carry exactly the text from its start. */
  lemma {:induction false} OpenFromText(cfg: Config, b: State, text: string, ms: seq<Match>, k: nat)
    requires Shaped(b) && UsableScan(cfg, text, ms) && k <= |ms|
    ensures AllText(OpenFrom(cfg, b, text, ms, k).nodes)
      == AllText(b.nodes) + if k < |ms| then NonSpace(text[ms[k].start..]) else ""
    decreases |ms| - k
  {
    hide OpenMatch, NonSpace, AllText, Strip;
    NothingAdded(AllText(b.nodes));
    if k < |ms| {
      OpenMatchText(cfg, b, text, ms, k);
      OpenFromText(cfg, OpenMatch(cfg, b, text, ms, k), text, ms, k + 1);
      NonSpaceOfEnd(text);
    }
  }

  lemma NonSpaceOfEnd(text: string)
    ensures NonSpace(text[|text|..]) == ""
  {
  }

  lemma SplitText(text: string, s: nat, e: nat, next: nat)
    requires s <= e <= next <= |text|
    ensures NonSpace(text[s..]) == NonSpace(text[s..e]) + (NonSpace(text[e..next]) + NonSpace(text[next..]))
  {
    hide NonSpace;
    NonSpaceSplit(text[s..], e - s);
    NonSpaceSplit(text[e..], next - e);
    Reslice(text, s, e);
    Reslice(text, e, next);
  }

  /** The paragraph is neither ignored nor taken as a title. */
  ghost predicate Kept(cfg: Config, text: string, bold: seq<(nat, nat)>)
    requires ProperMatches(cfg.patterns)
  {
    !cfg.ignored(Strip(text)) && !(ScanOf(text, cfg.patterns, 0) == [] && cfg.boldTitles && BoldOnly(text, bold))
  }

  lemma ParagraphText(cfg: Config, b: State, text: string, bold: seq<(nat, nat)>)
    requires ValidConfig(cfg) && Shaped(b)
    ensures AllText(ConsumeParagraph(cfg, b, text, bold).nodes)
      == AllText(b.nodes) + if Kept(cfg, text, bold) then NonSpace(text) else ""
  {
    hide ScanOf, BoldOnly, NonSpace, AllText, Strip, AddLeaf, OpenFrom, PrefixLeaf, NodeText, UsableScan;
    var ms := ScanOf(text, cfg.patterns, 0);
    ScanUsable(cfg, text);
    StripKeepsNonSpace(text);
    NothingAdded(AllText(b.nodes));
    if cfg.ignored(Strip(text)) {
    } else if ms == [] {
      if cfg.boldTitles && BoldOnly(text, bold) {
        AbsorbText(b, Strip(text));
      } else {
        AddLeafText(b, Strip(text));
      }
    } else {
      var first := ms[0].start;
      PrefixText(b, text, first);
      OpenFromText(cfg, PrefixLeaf(b, text, first), text, ms, 0);
    }
  }

  lemma NothingAdded(s: string)
    ensures s + "" == s
  {
  }

  lemma AbsorbText(b: State, text: string)
    requires Shaped(b)
    ensures AllText(AbsorbTitle(b, text).nodes) == AllText(b.nodes)
  {
    hide NonSpace;
    SameTexts(AbsorbTitle(b, text).nodes, b.nodes);
  }

  lemma PrefixText(b: State, text: string, first: nat)
    requires Shaped(b) && first <= |text|
    ensures AllText(PrefixLeaf(b, text, first).nodes) + NonSpace(text[first..]) == AllText(b.nodes) + NonSpace(text)
  {
    hide NonSpace, AllText, Strip, AddLeaf;
    StripKeepsNonSpace(text[..first]);
    StripEmptyIff(text[..first]);
    NothingAdded(AllText(b.nodes));
    if Strip(text[..first]) != "" {
      AddLeafText(b, Strip(text[..first]));
    }
    NonSpaceSplit(text, first);
    Associate(AllText(b.nodes), NonSpace(text[..first]), NonSpace(text[first..]));
  }

  // ----- whole documents -----

  /** The text a block contributes. */
  ghost function BlockText(cfg: Config, block: Block): string
    requires ProperMatches(cfg.patterns)
  {
    match block
    case Paragraph(text, bold) => if Kept(cfg, text, bold) then NonSpace(text) else ""
    case Heading(_, _) => ""
    case Loose(content) => NonSpace(content)
  }

  ghost function DocumentText(cfg: Config, blocks: seq<Block>): string
    requires ProperMatches(cfg.patterns)
  {
    if blocks == [] then "" else DocumentText(cfg, blocks[..|blocks| - 1]) + BlockText(cfg, blocks[|blocks| - 1])
  }

  lemma {:induction false} TouchText(nodes: seq<Node>, p: nat, n: Node, more: string)
    requires p < |nodes| && NodeText(n) == NodeText(nodes[p]) + more
    ensures multiset(AllText(nodes[p := n])) == multiset(AllText(nodes)) + multiset(more)
  {
    hide NodeText;
    var last := |nodes| - 1;
    if p == last {
      assert nodes[p := n][..last] == nodes[..last];
    } else {
      TouchText(nodes[..last], p, n, more);
      assert nodes[p := n][..last] == nodes[..last][p := n];
    }
  }

  lemma ConsumeText(cfg: Config, b: State, block: Block)
    requires ValidConfig(cfg) && Shaped(b)
    ensures !block.Loose? ==> AllText(Consume(cfg, b, block).nodes) == AllText(b.nodes) + BlockText(cfg, block)
    ensures multiset(AllText(Consume(cfg, b, block).nodes)) == multiset(AllText(b.nodes)) + multiset(BlockText(cfg, block))
  {
    hide ConsumeParagraph, OpenClause, AddLoose, NonSpace, AllText, Kept, Strip;
    match block
    case Paragraph(text, bold) =>
      ParagraphText(cfg, b, text, bold);
    case Heading(level, title) =>
      NothingAdded(AllText(b.nodes));
      if Strip(title) != "" {
        var d := level + cfg.headingOffset;
        OpenClauseText(cfg, b, if d < 1 then 1 else d, None, "", Some(Strip(title)));
        NonSpaceOfEnd("");
        assert ""[|""|..] == "";
      }
    case Loose(content) => LooseText(b, content);
  }

  lemma LooseText(b: State, content: string)
    requires Shaped(b)
    ensures multiset(AllText(AddLoose(b, content).nodes)) == multiset(AllText(b.nodes)) + multiset(NonSpace(content))
  {
    hide NonSpace, AllText, Strip;
    StripEmptyIff(content);
    StripKeepsNonSpace(content);
    if Strip(content) != "" {
      var p := Top(b);
      var n := b.nodes[p].(parts := b.nodes[p].parts + [Strip(content)]);
      PartsTextSnoc(b.nodes[p].parts, Strip(content));
      Associate(NonSpace(OrEmpty(n.numbering)), PartsText(b.nodes[p].parts), NonSpace(content));
      TouchText(b.nodes, p, n, NonSpace(content));
    }
  }

  lemma {:induction false} BuiltText(cfg: Config, blocks: seq<Block>)
    requires ValidConfig(cfg)
    ensures (forall k :: 0 <= k < |blocks| ==> !blocks[k].Loose?) ==>
      AllText(Built(cfg, blocks).nodes) == DocumentText(cfg, blocks)
    ensures multiset(AllText(Built(cfg, blocks).nodes)) == multiset(DocumentText(cfg, blocks))
  {
    if blocks == [] {
      assert INITIAL.nodes[..0] == [] && NodeText(INITIAL.nodes[0]) == "";
    } else {
      var front := blocks[..|blocks| - 1];
      BuiltText(cfg, front);
      ConsumeText(cfg, Built(cfg, front), blocks[|blocks| - 1]);
      assert (forall k :: 0 <= k < |blocks| ==> !blocks[k].Loose?) ==> forall k :: 0 <= k < |front| ==> !front[k].Loose?;
    }
  }

  /** Labels and bodies of a clause list, read in order. */
  ghost function ReadOut(cs: seq<Clause>): string {
    if cs == [] then ""
    else ReadOut(cs[..|cs| - 1]) + NonSpace(OrEmpty(cs[|cs| - 1].numbering)) + NonSpace(cs[|cs| - 1].body)
  }

  lemma {:induction false} ReadOutIsAllText(nodes: seq<Node>, cs: seq<Clause>)
    requires |cs| == |nodes|
    requires forall k :: 0 <= k < |cs| ==> cs[k].numbering == nodes[k].numbering && cs[k].body == BodyOf(nodes[k].parts)
    ensures ReadOut(cs) == AllText(nodes)
  {
    if cs != [] {
      var n := |cs| - 1;
      ReadOutIsAllText(nodes[..n], cs[..n]);
      BodyKeepsText(nodes[n].parts);
    }
  }

  /** Text conservation: reading labels and bodies in pre-order gives back, without loose blocks,
      every non-space character of the kept paragraphs once and in order; with loose blocks, the
      same characters with the same multiplicities. */
  lemma ParsedText(cfg: Config, blocks: seq<Block>)
    requires ValidConfig(cfg)
    ensures (forall k :: 0 <= k < |blocks| ==> !blocks[k].Loose?) ==>
      ReadOut(Walk(Parsed(cfg, blocks))) == DocumentText(cfg, blocks)
    ensures multiset(ReadOut(Walk(Parsed(cfg, blocks)))) == multiset(DocumentText(cfg, blocks))
  {
    hide DocumentText, Built, ReadOut, AllText, Walk, Parsed, NonSpace;
    WalkIsCreationOrder(cfg, blocks);
    BuiltText(cfg, blocks);
    ReadOutIsAllText(Built(cfg, blocks).nodes, Walk(Parsed(cfg, blocks)));
  }

  // ----- depths -----

  /** The root has depth 0 and every other node is deeper than its parent. */
  ghost predicate Deepening(nodes: seq<Node>) {
    && nodes != [] && nodes[0].depth == 0
    && forall c: nat :: 0 < c < |nodes| ==> nodes[c].parent < |nodes| && nodes[nodes[c].parent].depth < nodes[c].depth
  }

  lemma AttachDeepening(nodes: seq<Node>, p: nat, n: Node)
    requires Deepening(nodes) && p < |nodes| && nodes[p].depth < n.depth
    ensures Deepening(Attach(nodes, p, n))
  {
  }

  lemma OpenClauseDeepening(cfg: Config, b: State, depth: int, numbering: Option<string>, body: string, explicit: Option<string>)
    requires Shaped(b) && Deepening(b.nodes) && b.stack[0] == 0 && 1 <= depth
    requires (numbering.Some? && numbering.value != "") || explicit.Some?
    ensures Deepening(OpenClause(cfg, b, depth, numbering, body, explicit).nodes)
    ensures OpenClause(cfg, b, depth, numbering, body, explicit).stack[0] == 0
  {
    hide BaseSegment, Disambiguated, Taken;
    var s := Popped(b, depth);
    AttachDeepening(s.nodes, Top(s), NewClause(cfg, s, depth, numbering, body, explicit));
  }

  lemma {:induction false} OpenFromDeepening(cfg: Config, b: State, text: string, ms: seq<Match>, k: nat)
    requires DepthsPositive(cfg) && Shaped(b) && Deepening(b.nodes) && b.stack[0] == 0
    requires UsableScan(cfg, text, ms) && k <= |ms|
    ensures Deepening(OpenFrom(cfg, b, text, ms, k).nodes) && OpenFrom(cfg, b, text, ms, k).stack[0] == 0
    decreases |ms| - k
  {
    if k < |ms| {
      OpenClauseDeepening(cfg, b, cfg.patterns[ms[k].which].depth, Some(Strip(text[ms[k].start..ms[k].end])),
                          Strip(text[ms[k].end..NextStart(text, ms, k)]), None);
      OpenFromDeepening(cfg, OpenMatch(cfg, b, text, ms, k), text, ms, k + 1);
    }
  }

  lemma PrefixDeepening(b: State, text: string, first: nat)
    requires Shaped(b) && Deepening(b.nodes) && first <= |text|
    ensures Deepening(PrefixLeaf(b, text, first).nodes) && PrefixLeaf(b, text, first).stack == b.stack
  {
    AddLeafDeepening(b, Strip(text[..first]));
  }

  lemma AddLeafStack(b: State, body: string)
    requires Shaped(b)
    ensures AddLeaf(b, body).stack == b.stack
  {
  }

  lemma AddLeafDeepening(b: State, body: string)
    requires Shaped(b) && Deepening(b.nodes)
    ensures Deepening(AddLeaf(b, body).nodes)
  {
    AttachDeepening(b.nodes, Top(b), NewLeaf(b, body));
  }

  lemma ConsumeDeepening(cfg: Config, b: State, block: Block)
    requires ValidConfig(cfg) && DepthsPositive(cfg) && Shaped(b) && Deepening(b.nodes) && b.stack[0] == 0
    ensures Deepening(Consume(cfg, b, block).nodes) && Consume(cfg, b, block).stack[0] == 0
  {
    hide ScanOf, BoldOnly, Strip, AddLeaf, OpenFrom, PrefixLeaf, UsableScan, OpenClause;
    match block
    case Paragraph(text, bold) =>
      var ms := ScanOf(text, cfg.patterns, 0);
      ScanUsable(cfg, text);
      AddLeafStack(b, Strip(text));
      if ms == [] {
        AddLeafDeepening(b, Strip(text));
      } else {
        PrefixDeepening(b, text, ms[0].start);
        OpenFromDeepening(cfg, PrefixLeaf(b, text, ms[0].start), text, ms, 0);
      }
    case Heading(level, title) =>
      if Strip(title) != "" {
        var d := level + cfg.headingOffset;
        OpenClauseDeepening(cfg, b, if d < 1 then 1 else d, None, "", Some(Strip(title)));
      }
    case Loose(content) =>
  }

  lemma {:induction false} BuiltDeepening(cfg: Config, blocks: seq<Block>)
    requires ValidConfig(cfg) && DepthsPositive(cfg)
    ensures Deepening(Built(cfg, blocks).nodes) && Built(cfg, blocks).stack[0] == 0
  {
    if blocks != [] {
      BuiltDeepening(cfg, blocks[..|blocks| - 1]);
      ConsumeDeepening(cfg, Built(cfg, blocks[..|blocks| - 1]), blocks[|blocks| - 1]);
    }
  }

  /** Each open clause is the youngest child of the one before it and strictly deeper. */
  predicate DeepSpine(b: State)
    requires Shaped(b)
  {
    forall k :: 0 <= k < |b.stack| - 1 ==>
      && b.nodes[b.stack[k]].children != []
      && b.stack[k + 1] == b.nodes[b.stack[k]].children[|b.nodes[b.stack[k]].children| - 1]
      && b.nodes[b.stack[k]].depth < b.nodes[b.stack[k + 1]].depth
  }

  /** A new clause of depth `depth` goes under the one open clause that is shallower while all later
      ones are not. */
  predicate SplitsAt(b: State, depth: int, r: nat)
    requires Shaped(b)
  {
    forall k :: 0 <= k < |b.stack| ==> (k <= r <==> b.nodes[b.stack[k]].depth < depth)
  }

  /** The spine after any blocks, when pattern depths are positive, and what it means for opening. */
  lemma OpenSpine(cfg: Config, blocks: seq<Block>, depth: int)
    requires ValidConfig(cfg) && DepthsPositive(cfg) && 1 <= depth
    ensures var b := Built(cfg, blocks);
      DeepSpine(b) && SplitsAt(b, depth, ParentPosition(b, depth, |b.stack| - 1))
  {
    hide Built, Inv, LeavesOnTop, DeepSpine, SplitsAt, ParentPosition;
    BuiltInv(cfg, blocks);
    BuiltDeepening(cfg, blocks);
    var b := Built(cfg, blocks);
    SpineLinks(b);
    ParentSplits(b, depth);
  }

  lemma ParentSplits(b: State, depth: int)
    requires Shaped(b) && DeepSpine(b) && b.nodes[b.stack[0]].depth < depth
    ensures SplitsAt(b, depth, ParentPosition(b, depth, |b.stack| - 1))
  {
    hide DeepSpine;
    var r := ParentPosition(b, depth, |b.stack| - 1);
    forall k: nat | k <= r
      ensures b.nodes[b.stack[k]].depth < depth
    {
      StackDepths(b, k, r);
    }
  }

  lemma SpineLinks(b: State)
    requires Inv(b) && Deepening(b.nodes)
    ensures DeepSpine(b)
  {
    hide Pre, SiblingsDistinct, Hangs, Deepening, WellFormed;
    forall k: nat | k < |b.stack| - 1
      ensures b.nodes[b.stack[k]].children != []
      ensures b.stack[k + 1] == b.nodes[b.stack[k]].children[|b.nodes[b.stack[k]].children| - 1]
      ensures b.nodes[b.stack[k]].depth < b.nodes[b.stack[k + 1]].depth
    {
      var p, c := b.stack[k], b.stack[k + 1];
      assert KidsOf(b.nodes)[p] == b.nodes[p].children;
      ChildDeeper(b.nodes, p, c);
    }
  }

  lemma ChildDeeper(nodes: seq<Node>, p: nat, c: nat)
    requires Deepening(nodes) && p < c < |nodes| && nodes[c].parent == p
    ensures nodes[p].depth < nodes[c].depth
  {
  }

  lemma {:induction false} StackDepths(b: State, a: nat, r: nat)
    requires Shaped(b) && a <= r < |b.stack| && DeepSpine(b)
    ensures b.nodes[b.stack[a]].depth <= b.nodes[b.stack[r]].depth
    decreases r - a
  {
    if a < r {
      StackDepths(b, a, r - 1);
    }
  }

  // ----- parsing -----

  /** Feeds the blocks to a builder and freezes the result. */
  method Parse(cfg: Config, blocks: seq<Block>) returns (root: Clause)
    requires ValidConfig(cfg)
    ensures root == Parsed(cfg, blocks)
    ensures root.path == [] && root.heading == None && root.numbering == None
    ensures PathsDistinct(Walk(root))
  {
    var builder := new TreeBuilder(cfg);
    for k := 0 to |blocks|
      invariant builder.cfg == cfg
      invariant Shaped(builder.View()) && builder.View() == Built(cfg, blocks[..k])
    {
      assert blocks[..k + 1][..k] == blocks[..k];
      match blocks[k]
      case Paragraph(text, bold) => builder.ParagraphBlock(text, bold);
      case Heading(level, title) => builder.HeadingBlock(level, title);
      case Loose(content) => builder.LooseText(content);
    }
    assert blocks[..|blocks|] == blocks;
    BuiltInv(cfg, blocks);
    RootUntitled(cfg, blocks);
    ParsedPathsDistinct(cfg, blocks);
    root := Freeze(builder.nodes, 0);
  }

  lemma {:induction false} RootUntitled(cfg: Config, blocks: seq<Block>)
    requires ValidConfig(cfg)
    ensures Built(cfg, blocks).nodes != []
    ensures Built(cfg, blocks).nodes[0].heading == None && Built(cfg, blocks).nodes[0].numbering == None
  {
    if blocks != [] {
      RootUntitled(cfg, blocks[..|blocks| - 1]);
      ConsumeRoot(cfg, Built(cfg, blocks[..|blocks| - 1]), blocks[|blocks| - 1]);
    }
  }

  /** The root keeps its heading and label. */
  ghost predicate SameRoot(a: State, b: State) {
    && a.nodes != [] && b.nodes != []
    && a.nodes[0].heading == b.nodes[0].heading && a.nodes[0].numbering == b.nodes[0].numbering
  }

  lemma ConsumeRoot(cfg: Config, b: State, block: Block)
    requires ValidConfig(cfg) && Shaped(b)
    ensures SameRoot(b, Consume(cfg, b, block))
  {
    hide ScanOf, BoldOnly, Strip, OpenFrom, UsableScan, BaseSegment, Disambiguated, ParentPosition;
    assert b.stack[0] < |b.nodes|;
    match block
    case Paragraph(text, bold) =>
      var ms := ScanOf(text, cfg.patterns, 0);
      ScanUsable(cfg, text);
      if ms != [] {
        assert SameRoot(b, PrefixLeaf(b, text, ms[0].start));
        OpenFromRoot(cfg, PrefixLeaf(b, text, ms[0].start), text, ms, 0);
      }
    case Heading(level, title) =>
    case Loose(content) => assert SameRoot(b, AddLoose(b, content));
  }

  lemma OpenMatchRoot(cfg: Config, b: State, text: string, ms: seq<Match>, k: nat)
    requires Shaped(b) && UsableScan(cfg, text, ms) && k < |ms|
    ensures SameRoot(b, OpenMatch(cfg, b, text, ms, k))
  {
    hide ParentPosition, NewClause, Strip;
    assert b.stack[0] < |b.nodes|;
  }

  lemma {:induction false} OpenFromRoot(cfg: Config, b: State, text: string, ms: seq<Match>, k: nat)
    requires Shaped(b) && UsableScan(cfg, text, ms) && k <= |ms|
    ensures SameRoot(b, OpenFrom(cfg, b, text, ms, k))
    decreases |ms| - k
  {
    hide OpenMatch, Strip;
    assert b.stack[0] < |b.nodes|;
    if k < |ms| {
      OpenMatchRoot(cfg, b, text, ms, k);
      OpenFromRoot(cfg, OpenMatch(cfg, b, text, ms, k), text, ms, k + 1);
    }
  }

  // ----- the words of a body -----

  function WordsOf(parts: seq<string>): seq<string> {
    if parts == [] then [] else Runs(parts[0], InWord) + WordsOf(parts[1..])
  }

  /** A clause's body has the words of its parts, in order: none lost, and none joined to its neighbour. */
  lemma {:induction false} BodyWords(parts: seq<string>)
    ensures Runs(BodyOf(parts), InWord) == WordsOf(parts)
  {
    hide Runs, Strip;
    RunsOfOne("", InWord);
    if parts != [] {
      var p, rest := Strip(parts[0]), Trimmed(parts[1..]);
      BodyWords(parts[1..]);
      StripKeepsWords(parts[0]);
      if p == "" {
        assert [] + rest == rest && [] + WordsOf(parts[1..]) == WordsOf(parts[1..]);
      } else if rest == [] {
        assert [p] + rest == [p];
        assert Runs(p, InWord) + [] == Runs(p, InWord);
      } else {
        assert ([p] + rest)[1..] == rest;
        RunsAcross(p, ' ', Join(rest, ' '), InWord);
      }
    }
  }
}
