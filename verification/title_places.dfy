/** Which clause each title lands on: the titles of the opened clauses, read off the document's blocks
    without the builder. */
module TitlePlaces {
  import opened Prelude
  import opened Text
  import opened Clauses
  import opened Matching
  import opened Builder
  import opened Parser
  import opened Outline

  // ----- what the blocks say -----

  /** What matters for titles, in document order: a label, and whether any text follows it in its paragraph;
      a heading; text; a title in bold. */
  datatype Happening = Label(bare: bool) | Headed(title: string) | Text | Bold(title: string)

  ghost function LabelsIn(cfg: Config, text: string, ms: seq<Match>, k: nat): seq<Happening>
    requires UsableScan(cfg, text, ms) && k <= |ms|
    decreases |ms| - k
  {
    if k == |ms| then [] else
      [Label(Strip(text[ms[k].end..NextStart(text, ms, k)]) == "")] + LabelsIn(cfg, text, ms, k + 1)
  }

  ghost function HappeningsOf(cfg: Config, block: Block): seq<Happening>
    requires ValidConfig(cfg)
  {
    if block.Paragraph? then
      var ms := ScanOf(block.text, cfg.patterns, 0);
      ScanUsable(cfg, block.text);
      if cfg.ignored(Strip(block.text)) then []
      else if ms == [] then [if cfg.boldTitles && BoldOnly(block.text, block.bold) then Bold(Strip(block.text)) else Text]
      else (if Strip(block.text[..ms[0].start]) == "" then [] else [Text]) + LabelsIn(cfg, block.text, ms, 0)
    else if block.Heading? then
      if Strip(block.title) == "" then [] else [Headed(Strip(block.title))]
    else if Strip(block.content) == "" then [] else [Text]
  }

  ghost function Happenings(cfg: Config, blocks: seq<Block>): seq<Happening>
    requires ValidConfig(cfg)
  {
    if blocks == [] then [] else Happenings(cfg, blocks[..|blocks| - 1]) + HappeningsOf(cfg, blocks[|blocks| - 1])
  }

  /** A bold title now would name the clause just opened: its label was the last thing to happen, had no text
      after it, and found no title waiting. */
  predicate TakesTitle(hs: seq<Happening>)
    decreases |hs|, 0
  {
    hs != [] && hs[|hs| - 1] == Label(true) && Waiting(hs[..|hs| - 1]).None?
  }

  /** The title waiting for a label: the last bold one that named nothing, if no label came after it. */
  function Waiting(hs: seq<Happening>): Option<string>
    decreases |hs|, 1
  {
    if hs == [] then None else
      var front, last := hs[..|hs| - 1], hs[|hs| - 1];
      if last.Label? then None
      else if last.Bold? && !TakesTitle(front) then Some(last.title)
      else Waiting(front)
  }

  /** The title of the clause that happening `i` opens: a heading's own; for a label the waiting one, else a
      bold one that follows at once when the label has no text. */
  function TitleAt(hs: seq<Happening>, i: nat): Option<string>
    requires i < |hs|
  {
    if hs[i].Headed? then Some(hs[i].title)
    else if Waiting(hs[..i]).Some? then Waiting(hs[..i])
    else if hs[i] == Label(true) && i + 1 < |hs| && hs[i + 1].Bold? then Some(hs[i + 1].title)
    else None
  }

  predicate Opens(h: Happening) {
    h.Label? || h.Headed?
  }

  /** The titles of the clauses that the first `n` happenings open. */
  function TitleList(hs: seq<Happening>, n: nat): seq<Option<string>>
    requires n <= |hs|
  {
    if n == 0 then [] else TitleList(hs, n - 1) + if Opens(hs[n - 1]) then [TitleAt(hs, n - 1)] else []
  }

  // ----- one more happening -----

  lemma TitleAtSnoc(hs: seq<Happening>, h: Happening, i: nat)
    requires i < |hs|
    ensures TitleAt(hs + [h], i) ==
      if i == |hs| - 1 && TakesTitle(hs) && h.Bold? then Some(h.title) else TitleAt(hs, i)
  {
    hide Waiting;
    assert (hs + [h])[..i] == hs[..i];
    assert i == |hs| - 1 ==> hs[..i] == hs[..|hs| - 1];
  }

  lemma {:induction false} TitleListSnoc(hs: seq<Happening>, h: Happening, n: nat)
    requires n <= |hs|
    ensures TitleList(hs + [h], n) ==
      if n == |hs| && TakesTitle(hs) && h.Bold? then TitleList(hs, n - 1) + [Some(h.title)] else TitleList(hs, n)
  {
    hide Waiting, TitleAt;
    if n > 0 {
      TitleListSnoc(hs, h, n - 1);
      TitleAtSnoc(hs, h, n - 1);
    }
  }

  lemma WaitingSnoc(hs: seq<Happening>, h: Happening)
    ensures Waiting(hs + [h]) ==
      if h.Label? then None else if h.Bold? && !TakesTitle(hs) then Some(h.title) else Waiting(hs)
    ensures TakesTitle(hs + [h]) <==> h == Label(true) && Waiting(hs).None?
  {
    assert (hs + [h])[..|hs|] == hs;
  }

  // ----- what the arena shows -----

  /** The headings of the opened clauses, in creation order. */
  function ShownTitles(nodes: seq<Node>): seq<Option<string>> {
    if nodes == [] then [] else
      var last := nodes[|nodes| - 1];
      ShownTitles(nodes[..|nodes| - 1]) + if Mark(last).Some? then [last.heading] else []
  }

  predicate SameTitles(a: seq<Node>, b: seq<Node>) {
    |a| == |b| && forall k :: 0 <= k < |a| ==> a[k].heading == b[k].heading && (Mark(a[k]).Some? <==> Mark(b[k]).Some?)
  }

  lemma {:induction false} ShownFrame(a: seq<Node>, b: seq<Node>)
    requires SameTitles(a, b)
    ensures ShownTitles(a) == ShownTitles(b)
  {
    hide Mark;
    if a != [] {
      ShownFrame(a[..|a| - 1], b[..|b| - 1]);
    }
  }

  lemma ShownAttach(nodes: seq<Node>, p: nat, n: Node)
    requires p < |nodes|
    ensures ShownTitles(Attach(nodes, p, n)) == ShownTitles(nodes) + if Mark(n).Some? then [n.heading] else []
  {
    hide ShownTitles, Mark, SameTitles;
    var touched := nodes[p := nodes[p].(children := nodes[p].children + [|nodes|])];
    TouchedTitles(nodes, p, nodes[p].children + [|nodes|]);
    ShownFrame(nodes, touched);
    MarkOfChild(n, p);
    ShownTitlesSnoc(touched, n.(children := [], parent := p));
  }

  lemma TouchedTitles(nodes: seq<Node>, p: nat, children: seq<nat>)
    requires p < |nodes|
    ensures SameTitles(nodes, nodes[p := nodes[p].(children := children)])
  {
  }

  lemma ShownTitlesSnoc(nodes: seq<Node>, n: Node)
    ensures ShownTitles(nodes + [n]) == ShownTitles(nodes) + if Mark(n).Some? then [n.heading] else []
  {
    hide Mark;
    assert (nodes + [n])[..|nodes|] == nodes;
  }

  /** The innermost open clause is bare. */
  predicate Bare(b: State)
    requires Shaped(b)
  {
    var n := b.nodes[Top(b)];
    Top(b) != 0 && n.heading == None && n.parts == [] && n.children == []
  }

  /** The state after the happenings `hs`. */
  ghost predicate Placed(b: State, hs: seq<Happening>) {
    && Shaped(b)
    && ShownTitles(b.nodes) == TitleList(hs, |hs|)
    && b.pending == Waiting(hs)
    && (Bare(b) <==> TakesTitle(hs))
    && (hs != [] && hs[|hs| - 1].Label? ==> Top(b) == |b.nodes| - 1 && Mark(b.nodes[Top(b)]).Some?)
  }

  lemma PlacedShaped(b: State, hs: seq<Happening>)
    requires Placed(b, hs)
    ensures Shaped(b)
  {
  }

  lemma LabelPlaced(cfg: Config, b: State, hs: seq<Happening>, depth: int, numbering: string, body: string)
    requires Placed(b, hs) && numbering != ""
    ensures Placed(OpenClause(cfg, b, depth, Some(numbering), body, None), hs + [Label(body == "")])
  {
    hide Disambiguated, BaseSegment, Taken, TitleAt, Waiting, TakesTitle, ShownTitles;
    var h := Label(body == "");
    var c := Popped(b, depth);
    var n := NewClause(cfg, c, depth, Some(numbering), body, None);
    ShownAttach(b.nodes, Top(c), n);
    TitleListSnoc(hs, h, |hs|);
    WaitingSnoc(hs, h);
    NewTitle(hs, h);
  }

  lemma NewTitle(hs: seq<Happening>, h: Happening)
    requires !h.Bold?
    ensures TitleList(hs + [h], |hs| + 1) ==
      TitleList(hs, |hs|) + if h.Label? then [Waiting(hs)] else if h.Headed? then [Some(h.title)] else []
  {
    hide Waiting, TitleAt;
    TitleListSnoc(hs, h, |hs|);
    if Opens(h) {
      NewTitleAt(hs, h);
    }
    assert (hs + [h])[|hs|] == h;
  }

  lemma NewTitleAt(hs: seq<Happening>, h: Happening)
    requires Opens(h)
    ensures TitleAt(hs + [h], |hs|) == if h.Headed? then Some(h.title) else Waiting(hs)
  {
    hide Waiting;
    assert (hs + [h])[..|hs|] == hs;
  }

  lemma HeadedPlaced(cfg: Config, b: State, hs: seq<Happening>, depth: int, title: string)
    requires Placed(b, hs)
    ensures Placed(OpenClause(cfg, b, depth, None, "", Some(title)), hs + [Headed(title)])
  {
    hide Disambiguated, BaseSegment, Taken, TitleAt, Waiting, TakesTitle, ShownTitles;
    var h := Headed(title);
    var c := Popped(b, depth);
    var n := NewClause(cfg, c, depth, None, "", Some(title));
    ShownAttach(b.nodes, Top(c), n);
    WaitingSnoc(hs, h);
    NewTitle(hs, h);
  }

  lemma LeafPlaced(b: State, hs: seq<Happening>, body: string)
    requires Placed(b, hs)
    ensures Placed(AddLeaf(b, body), hs + [Text])
  {
    hide TitleAt, Waiting, TakesTitle, ShownTitles;
    ShownAttach(b.nodes, Top(b), NewLeaf(b, body));
    WaitingSnoc(hs, Text);
    NewTitle(hs, Text);
  }

  lemma LoosePlaced(b: State, hs: seq<Happening>, text: string)
    requires Placed(b, hs) && Strip(text) != ""
    ensures Placed(AddLoose(b, text), hs + [Text])
  {
    hide TitleAt, Waiting, TakesTitle, ShownTitles, Strip;
    assert SameTitles(b.nodes, AddLoose(b, text).nodes);
    ShownFrame(b.nodes, AddLoose(b, text).nodes);
    WaitingSnoc(hs, Text);
    NewTitle(hs, Text);
  }

  lemma BoldPlaced(b: State, hs: seq<Happening>, title: string)
    requires Placed(b, hs)
    ensures Placed(AbsorbTitle(b, title), hs + [Bold(title)])
  {
    hide TitleAt, Waiting, ShownTitles, TitleList;
    var h := Bold(title);
    WaitingSnoc(hs, h);
    BoldTitle(hs, h);
    if TakesTitle(hs) {
      NamesLast(b.nodes, title);
      LastTitle(hs);
      SameFront(ShownTitles(b.nodes[..Top(b)]), TitleList(hs, |hs| - 1), b.nodes[Top(b)].heading, TitleAt(hs, |hs| - 1));
    }
  }

  lemma SameFront<T>(a: seq<T>, b: seq<T>, x: T, y: T)
    requires a + [x] == b + [y]
    ensures a == b
  {
    assert a == (a + [x])[..|a|] && b == (b + [y])[..|b|] && |a + [x]| == |a| + 1 && |b + [y]| == |b| + 1;
  }

  lemma BoldTitle(hs: seq<Happening>, h: Happening)
    requires h.Bold?
    ensures TitleList(hs + [h], |hs| + 1) ==
      if TakesTitle(hs) then TitleList(hs, |hs| - 1) + [Some(h.title)] else TitleList(hs, |hs|)
  {
    hide Waiting;
    TitleListSnoc(hs, h, |hs|);
    var ts := TitleList(hs + [h], |hs|);
    assert ts + [] == ts;
  }

  lemma LastTitle(hs: seq<Happening>)
    requires TakesTitle(hs)
    ensures TitleList(hs, |hs|) == TitleList(hs, |hs| - 1) + [TitleAt(hs, |hs| - 1)]
  {
    hide Waiting, TitleAt;
  }

  lemma NamesLast(nodes: seq<Node>, title: string)
    requires nodes != [] && Mark(nodes[|nodes| - 1]).Some?
    ensures var p := |nodes| - 1;
      && ShownTitles(nodes) == ShownTitles(nodes[..p]) + [nodes[p].heading]
      && ShownTitles(nodes[p := nodes[p].(heading := Some(title))]) == ShownTitles(nodes[..p]) + [Some(title)]
  {
    var p := |nodes| - 1;
    var g := nodes[p := nodes[p].(heading := Some(title))];
    assert g[..p] == nodes[..p];
  }

  lemma {:induction false} LabelsPlaced(cfg: Config, b: State, hs: seq<Happening>, text: string, ms: seq<Match>, k: nat)
    requires Placed(b, hs) && UsableScan(cfg, text, ms) && k <= |ms|
    ensures Placed(OpenFrom(cfg, b, text, ms, k), hs + LabelsIn(cfg, text, ms, k))
    decreases |ms| - k
  {
    hide Placed, Strip, OpenClause;
    PlacedShaped(b, hs);
    if k == |ms| {
      assert hs + [] == hs;
    } else {
      StripOfNothing(text);
      var body := Strip(text[ms[k].end..NextStart(text, ms, k)]);
      LabelPlaced(cfg, b, hs, cfg.patterns[ms[k].which].depth, Strip(text[ms[k].start..ms[k].end]), body);
      LabelsPlaced(cfg, OpenMatch(cfg, b, text, ms, k), hs + [Label(body == "")], text, ms, k + 1);
      Associate(hs, [Label(body == "")], LabelsIn(cfg, text, ms, k + 1));
    }
  }

  lemma ParagraphPlaced(cfg: Config, b: State, hs: seq<Happening>, text: string, bold: seq<(nat, nat)>)
    requires ValidConfig(cfg) && Placed(b, hs)
    ensures Placed(ConsumeParagraph(cfg, b, text, bold), hs + HappeningsOf(cfg, Paragraph(text, bold)))
  {
    hide Placed, ScanOf, BoldOnly, Strip, AddLeaf, AbsorbTitle, OpenFrom, LabelsIn, UsableScan;
    PlacedShaped(b, hs);
    var ms := ScanOf(text, cfg.patterns, 0);
    ScanUsable(cfg, text);
    assert hs + [] == hs;
    if !cfg.ignored(Strip(text)) {
      if ms == [] {
        BoldPlaced(b, hs, Strip(text));
        LeafPlaced(b, hs, Strip(text));
      } else {
        var prefix := Strip(text[..ms[0].start]);
        LeafPlaced(b, hs, prefix);
        var mid, before := PrefixLeaf(b, text, ms[0].start), if prefix == "" then [] else [Text];
        LabelsPlaced(cfg, mid, hs + before, text, ms, 0);
        Associate(hs, before, LabelsIn(cfg, text, ms, 0));
      }
    }
  }

  lemma BlockPlaced(cfg: Config, b: State, hs: seq<Happening>, block: Block)
    requires ValidConfig(cfg) && Placed(b, hs)
    ensures Placed(Consume(cfg, b, block), hs + HappeningsOf(cfg, block))
  {
    hide Placed, ScanOf, BoldOnly, Strip, ConsumeParagraph, AddLoose, OpenClause, LabelsIn, UsableScan;
    PlacedShaped(b, hs);
    assert hs + [] == hs;
    match block
    case Paragraph(text, bold) => ParagraphPlaced(cfg, b, hs, text, bold);
    case Heading(level, title) =>
      if Strip(title) != "" {
        var d := level + cfg.headingOffset;
        HeadedPlaced(cfg, b, hs, if d < 1 then 1 else d, Strip(title));
      }
    case Loose(content) =>
      if Strip(content) != "" {
        LoosePlaced(b, hs, content);
      } else {
        BlankLoose(b, content);
      }
  }

  lemma BlankLoose(b: State, content: string)
    requires Shaped(b) && Strip(content) == ""
    ensures AddLoose(b, content) == b
  {
    hide Strip;
  }

  lemma NothingPlaced()
    ensures Placed(INITIAL, [])
  {
    assert INITIAL.nodes[..0] == [];
  }

  lemma {:induction false} BuiltPlaced(cfg: Config, blocks: seq<Block>)
    requires ValidConfig(cfg)
    ensures Placed(Built(cfg, blocks), Happenings(cfg, blocks))
  {
    hide Placed, Consume, HappeningsOf;
    if blocks == [] {
      NothingPlaced();
    } else {
      var front, block := blocks[..|blocks| - 1], blocks[|blocks| - 1];
      BuiltPlaced(cfg, front);
      BlockPlaced(cfg, Built(cfg, front), Happenings(cfg, front), block);
    }
  }

  /** Where titles land. The headings of the opened clauses, in order, are those the document's blocks call
      for; a title still waiting at the end is the one no label has claimed; and a leaf has no heading. */
  lemma TitlesLand(cfg: Config, blocks: seq<Block>)
    requires ValidConfig(cfg)
    ensures var b, hs := Built(cfg, blocks), Happenings(cfg, blocks);
      && ShownTitles(b.nodes) == TitleList(hs, |hs|)
      && b.pending == Waiting(hs)
      && forall k :: 0 <= k < |b.nodes| && Mark(b.nodes[k]) == None ==> b.nodes[k].heading == None
  {
    hide Built, Happenings, TitleList, Waiting, ShownTitles, TakesTitle;
    BuiltPlaced(cfg, blocks);
  }
}
