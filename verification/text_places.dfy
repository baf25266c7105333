/** Which clause each text lands on: the texts of the root, of the opened clauses and of the leaves, read
    off the document's blocks without the builder. */
module TextPlaces {
  import opened Prelude
  import opened Text
  import opened Clauses
  import opened Matching
  import opened Builder
  import opened Parser
  import opened Outline

  // ----- what the blocks say -----

  /** What matters for texts, in document order: a clause opened with the text that follows its label; a
      paragraph, or the start of one, without a label; loose text. */
  datatype Piece = Opened(body: string) | Stray(text: string) | Loose(text: string)

  ghost function BodiesIn(cfg: Config, text: string, ms: seq<Match>, k: nat): seq<Piece>
    requires UsableScan(cfg, text, ms) && k <= |ms|
    decreases |ms| - k
  {
    if k == |ms| then [] else
      [Piece.Opened(Strip(text[ms[k].end..if k + 1 < |ms| then ms[k + 1].start else |text|]))] + BodiesIn(cfg, text, ms, k + 1)
  }

  ghost function PiecesOf(cfg: Config, block: Block): seq<Piece>
    requires ValidConfig(cfg)
  {
    if block.Paragraph? then
      var ms := ScanOf(block.text, cfg.patterns, 0);
      ScanUsable(cfg, block.text);
      if cfg.ignored(Strip(block.text)) then []
      else if ms == [] then (if cfg.boldTitles && BoldOnly(block.text, block.bold) then [] else [Stray(Strip(block.text))])
      else
        var prefix := Strip(block.text[..ms[0].start]);
        (if prefix == "" then [] else [Stray(prefix)]) + BodiesIn(cfg, block.text, ms, 0)
    else if block.Heading? then
      if Strip(block.title) == "" then [] else [Piece.Opened("")]
    else if Strip(block.content) == "" then [] else [Piece.Loose(Strip(block.content))]
  }

  ghost function Pieces(cfg: Config, blocks: seq<Block>): seq<Piece>
    requires ValidConfig(cfg)
  {
    if blocks == [] then [] else Pieces(cfg, blocks[..|blocks| - 1]) + PiecesOf(cfg, blocks[|blocks| - 1])
  }

  /** The texts of the root and of each opened clause: the one after its label, if any, then the loose texts up
      to the next opening. */
  function ClauseTexts(ps: seq<Piece>): (r: seq<seq<string>>)
    ensures r != []
  {
    if ps == [] then [[]] else
      var before, last := ClauseTexts(ps[..|ps| - 1]), ps[|ps| - 1];
      if last.Opened? then before + [if last.body == "" then [] else [last.body]]
      else if last.Stray? then before
      else before[..|before| - 1] + [before[|before| - 1] + [last.text]]
  }

  /** The text of each leaf. */
  function LeafTexts(ps: seq<Piece>): seq<seq<string>> {
    if ps == [] then [] else
      LeafTexts(ps[..|ps| - 1]) + if ps[|ps| - 1].Stray? then [[ps[|ps| - 1].text]] else []
  }

  lemma TextsSnoc(ps: seq<Piece>, p: Piece)
    ensures ClauseTexts(ps + [p]) ==
      var before := ClauseTexts(ps);
      if p.Opened? then before + [if p.body == "" then [] else [p.body]]
      else if p.Stray? then before
      else before[..|before| - 1] + [before[|before| - 1] + [p.text]]
    ensures LeafTexts(ps + [p]) == LeafTexts(ps) + if p.Stray? then [[p.text]] else []
  {
    assert (ps + [p])[..|ps|] == ps;
  }

  // ----- what the arena shows -----

  /** The parts of the root and of the opened clauses, in creation order. */
  function ShownParts(nodes: seq<Node>): (r: seq<seq<string>>)
    requires nodes != []
    ensures r != []
  {
    var last := nodes[|nodes| - 1];
    if |nodes| == 1 then [last.parts] else ShownParts(nodes[..|nodes| - 1]) + if Mark(last).Some? then [last.parts] else []
  }

  /** The parts of the leaves, in creation order. */
  function ShownLeaves(nodes: seq<Node>): seq<seq<string>>
    requires nodes != []
  {
    var last := nodes[|nodes| - 1];
    if |nodes| == 1 then [] else ShownLeaves(nodes[..|nodes| - 1]) + if Mark(last).None? then [last.parts] else []
  }

  predicate SameParts(a: seq<Node>, b: seq<Node>) {
    |a| == |b| && forall k :: 0 <= k < |a| ==> a[k].parts == b[k].parts && (Mark(a[k]).Some? <==> Mark(b[k]).Some?)
  }

  lemma {:induction false} PartsFrame(a: seq<Node>, b: seq<Node>)
    requires a != [] && SameParts(a, b)
    ensures ShownParts(a) == ShownParts(b) && ShownLeaves(a) == ShownLeaves(b)
  {
    hide Mark;
    if |a| > 1 {
      PartsFrame(a[..|a| - 1], b[..|b| - 1]);
    }
  }

  lemma PartsSnoc(nodes: seq<Node>, n: Node)
    requires nodes != []
    ensures ShownParts(nodes + [n]) == ShownParts(nodes) + if Mark(n).Some? then [n.parts] else []
    ensures ShownLeaves(nodes + [n]) == ShownLeaves(nodes) + if Mark(n).None? then [n.parts] else []
  {
    hide Mark;
    assert (nodes + [n])[..|nodes|] == nodes;
  }

  lemma PartsAttach(nodes: seq<Node>, p: nat, n: Node)
    requires p < |nodes|
    ensures ShownParts(Attach(nodes, p, n)) == ShownParts(nodes) + if Mark(n).Some? then [n.parts] else []
    ensures ShownLeaves(Attach(nodes, p, n)) == ShownLeaves(nodes) + if Mark(n).None? then [n.parts] else []
  {
    hide ShownParts, ShownLeaves, Mark, SameParts;
    var touched := nodes[p := nodes[p].(children := nodes[p].children + [|nodes|])];
    TouchedParts(nodes, p, nodes[p].children + [|nodes|]);
    PartsFrame(nodes, touched);
    MarkOfChild(n, p);
    PartsSnoc(touched, n.(children := [], parent := p));
  }

  lemma TouchedParts(nodes: seq<Node>, p: nat, children: seq<nat>)
    requires p < |nodes|
    ensures SameParts(nodes, nodes[p := nodes[p].(children := children)])
  {
  }

  /** `p` is the root or an opened clause, and only leaves come after it. */
  ghost predicate OpenedLast(nodes: seq<Node>, p: nat) {
    && p < |nodes| && (p == 0 || Mark(nodes[p]).Some?)
    && forall k :: p < k < |nodes| ==> Mark(nodes[k]) == None
  }

  lemma MarkOfParts(n: Node, parts: seq<string>)
    ensures Mark(n.(parts := parts)) == Mark(n)
  {
  }

  /** More text on the clause opened last. */
  lemma {:induction false} PartsAt(nodes: seq<Node>, p: nat, text: string)
    requires OpenedLast(nodes, p)
    ensures var g, before := nodes[p := nodes[p].(parts := nodes[p].parts + [text])], ShownParts(nodes);
      && ShownParts(g) == before[..|before| - 1] + [before[|before| - 1] + [text]]
      && ShownLeaves(g) == ShownLeaves(nodes)
  {
    hide Mark;
    var n := |nodes| - 1;
    var g := nodes[p := nodes[p].(parts := nodes[p].parts + [text])];
    MarkOfParts(nodes[p], nodes[p].parts + [text]);
    if p < n {
      PartsAt(nodes[..n], p, text);
      assert g[..n] == nodes[..n][p := g[p]];
    } else if n > 0 {
      assert g[..n] == nodes[..n];
    }
  }

  /** The state after the pieces `ps`. */
  ghost predicate Texts(b: State, ps: seq<Piece>) {
    && Shaped(b) && OpenedLast(b.nodes, Top(b))
    && ShownParts(b.nodes) == ClauseTexts(ps) && ShownLeaves(b.nodes) == LeafTexts(ps)
  }

  lemma TextsShaped(b: State, ps: seq<Piece>)
    requires Texts(b, ps)
    ensures Shaped(b)
  {
  }

  lemma OpenTexts(cfg: Config, b: State, ps: seq<Piece>, depth: int, numbering: Option<string>, body: string, explicit: Option<string>)
    requires Texts(b, ps) && ((numbering.Some? && numbering.value != "") || explicit.Some?)
    ensures Texts(OpenClause(cfg, b, depth, numbering, body, explicit), ps + [Piece.Opened(body)])
  {
    hide Disambiguated, BaseSegment, Taken, ShownParts, ShownLeaves;
    var c := Popped(b, depth);
    var n := NewClause(cfg, c, depth, numbering, body, explicit);
    PartsAttach(b.nodes, Top(c), n);
    TextsSnoc(ps, Piece.Opened(body));
    NoLeaf(ps, body);
  }

  lemma NoLeaf(ps: seq<Piece>, body: string)
    ensures LeafTexts(ps) + [] == LeafTexts(ps)
  {
  }

  lemma LeafTextsStep(b: State, ps: seq<Piece>, body: string)
    requires Texts(b, ps)
    ensures Texts(AddLeaf(b, body), ps + [Stray(body)])
  {
    hide ShownParts, ShownLeaves, ClauseTexts, LeafTexts;
    PartsAttach(b.nodes, Top(b), NewLeaf(b, body));
    TextsSnoc(ps, Stray(body));
    assert ShownParts(b.nodes) + [] == ShownParts(b.nodes);
  }

  lemma TitleTexts(b: State, ps: seq<Piece>, title: string)
    requires Texts(b, ps)
    ensures Texts(AbsorbTitle(b, title), ps)
  {
    hide ShownParts, ShownLeaves, ClauseTexts, LeafTexts;
    var after := AbsorbTitle(b, title);
    assert SameParts(b.nodes, after.nodes);
    PartsFrame(b.nodes, after.nodes);
  }

  lemma LooseTexts(b: State, ps: seq<Piece>, text: string)
    requires Texts(b, ps) && Strip(text) != ""
    ensures Texts(AddLoose(b, text), ps + [Piece.Loose(Strip(text))])
  {
    hide ShownParts, ShownLeaves, ClauseTexts, LeafTexts, Strip;
    PartsAt(b.nodes, Top(b), Strip(text));
    TextsSnoc(ps, Piece.Loose(Strip(text)));
    assert LeafTexts(ps) + [] == LeafTexts(ps);
  }

  lemma {:induction false} BodiesTexts(cfg: Config, b: State, ps: seq<Piece>, text: string, ms: seq<Match>, k: nat)
    requires Texts(b, ps) && UsableScan(cfg, text, ms) && k <= |ms|
    ensures Texts(OpenFrom(cfg, b, text, ms, k), ps + BodiesIn(cfg, text, ms, k))
    decreases |ms| - k
  {
    hide Texts, Strip, OpenClause;
    TextsShaped(b, ps);
    if k == |ms| {
      assert ps + [] == ps;
    } else {
      StripOfNothing(text);
      var body := Strip(text[ms[k].end..NextStart(text, ms, k)]);
      OpenTexts(cfg, b, ps, cfg.patterns[ms[k].which].depth, Some(Strip(text[ms[k].start..ms[k].end])), body, None);
      BodiesTexts(cfg, OpenMatch(cfg, b, text, ms, k), ps + [Piece.Opened(body)], text, ms, k + 1);
      Associate(ps, [Piece.Opened(body)], BodiesIn(cfg, text, ms, k + 1));
    }
  }

  lemma ParagraphTexts(cfg: Config, b: State, ps: seq<Piece>, text: string, bold: seq<(nat, nat)>)
    requires ValidConfig(cfg) && Texts(b, ps)
    ensures Texts(ConsumeParagraph(cfg, b, text, bold), ps + PiecesOf(cfg, Paragraph(text, bold)))
  {
    hide Texts, ScanOf, BoldOnly, Strip, AddLeaf, AbsorbTitle, OpenFrom, BodiesIn, UsableScan;
    TextsShaped(b, ps);
    var ms := ScanOf(text, cfg.patterns, 0);
    ScanUsable(cfg, text);
    assert ps + [] == ps;
    if !cfg.ignored(Strip(text)) {
      if ms == [] {
        TitleTexts(b, ps, Strip(text));
        LeafTextsStep(b, ps, Strip(text));
      } else {
        var prefix := Strip(text[..ms[0].start]);
        LeafTextsStep(b, ps, prefix);
        var mid, before := PrefixLeaf(b, text, ms[0].start), if prefix == "" then [] else [Stray(prefix)];
        BodiesTexts(cfg, mid, ps + before, text, ms, 0);
        Associate(ps, before, BodiesIn(cfg, text, ms, 0));
      }
    }
  }

  lemma BlockTexts(cfg: Config, b: State, ps: seq<Piece>, block: Block)
    requires ValidConfig(cfg) && Texts(b, ps)
    ensures Texts(Consume(cfg, b, block), ps + PiecesOf(cfg, block))
  {
    hide Texts, ScanOf, BoldOnly, Strip, ConsumeParagraph, AddLoose, OpenClause, BodiesIn, UsableScan;
    TextsShaped(b, ps);
    assert ps + [] == ps;
    match block
    case Paragraph(text, bold) => ParagraphTexts(cfg, b, ps, text, bold);
    case Heading(level, title) =>
      if Strip(title) != "" {
        var d := level + cfg.headingOffset;
        OpenTexts(cfg, b, ps, if d < 1 then 1 else d, None, "", Some(Strip(title)));
      }
    case Loose(content) =>
      if Strip(content) != "" {
        LooseTexts(b, ps, content);
      } else {
        NoLooseText(b, content);
      }
  }

  lemma NoLooseText(b: State, content: string)
    requires Shaped(b) && Strip(content) == ""
    ensures AddLoose(b, content) == b
  {
    hide Strip;
  }

  lemma NoTexts()
    ensures Texts(INITIAL, [])
  {
  }

  lemma {:induction false} BuiltTexts(cfg: Config, blocks: seq<Block>)
    requires ValidConfig(cfg)
    ensures Texts(Built(cfg, blocks), Pieces(cfg, blocks))
  {
    hide Texts, Consume, PiecesOf;
    if blocks == [] {
      NoTexts();
    } else {
      var front, block := blocks[..|blocks| - 1], blocks[|blocks| - 1];
      BuiltTexts(cfg, front);
      BlockTexts(cfg, Built(cfg, front), Pieces(cfg, front), block);
    }
  }

  /** Where texts land. The root and each opened clause, in order, hold exactly the texts the document gives
      them, and the leaves, in order, are its paragraphs and paragraph starts without a label. */
  lemma TextsLand(cfg: Config, blocks: seq<Block>)
    requires ValidConfig(cfg)
    ensures var nodes := Built(cfg, blocks).nodes;
      && nodes != []
      && ShownParts(nodes) == ClauseTexts(Pieces(cfg, blocks)) && ShownLeaves(nodes) == LeafTexts(Pieces(cfg, blocks))
  {
    hide Built, Pieces, ClauseTexts, LeafTexts, ShownParts, ShownLeaves;
    BuiltTexts(cfg, blocks);
  }
}
