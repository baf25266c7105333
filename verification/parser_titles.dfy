/** Titles: every heading of a parsed tree is one title of the document, used once; the only titles
    that can be missing are the one still waiting at the end and those overwritten while waiting. */
module ParserTitles {
  import opened Prelude
  import opened Text
  import opened Clauses
  import opened Matching
  import opened Builder
  import opened Parser

  function One(t: Option<string>): multiset<string> {
    if t.Some? then multiset{t.value} else multiset{}
  }

  function Headings(nodes: seq<Node>): multiset<string> {
    if nodes == [] then multiset{} else Headings(nodes[..|nodes| - 1]) + One(nodes[|nodes| - 1].heading)
  }

  function TreeHeadings(cs: seq<Clause>): multiset<string> {
    if cs == [] then multiset{} else TreeHeadings(cs[..|cs| - 1]) + One(cs[|cs| - 1].heading)
  }

  /** The title a block carries: a heading block's, or a bold-only paragraph's where those count. */
  ghost function TitleOf(cfg: Config, block: Block): Option<string>
    requires ValidConfig(cfg)
  {
    match block
    case Paragraph(text, bold) =>
      if !cfg.ignored(Strip(text)) && ScanOf(text, cfg.patterns, 0) == [] && cfg.boldTitles && BoldOnly(text, bold)
      then Some(Strip(text)) else None
    case Heading(_, title) => if Strip(title) == "" then None else Some(Strip(title))
    case Loose(_) => None
  }

  /** The innermost open clause can no longer take a title. */
  predicate TopClosedToTitles(b: State)
    requires Shaped(b)
  {
    var n := b.nodes[Top(b)];
    Top(b) == 0 || n.heading.Some? || n.parts != [] || n.children != []
  }

  /** The waiting title that `block` overwrites, if any. */
  ghost function Overwritten(cfg: Config, b: State, block: Block): Option<string>
    requires ValidConfig(cfg) && Shaped(b)
  {
    if block.Paragraph? && TitleOf(cfg, block).Some? && TopClosedToTitles(b) then b.pending else None
  }

  ghost function Titles(cfg: Config, blocks: seq<Block>): multiset<string>
    requires ValidConfig(cfg)
  {
    if blocks == [] then multiset{}
    else Titles(cfg, blocks[..|blocks| - 1]) + One(TitleOf(cfg, blocks[|blocks| - 1]))
  }

  ghost function LostTitles(cfg: Config, blocks: seq<Block>): multiset<string>
    requires ValidConfig(cfg)
  {
    if blocks == [] then multiset{} else
      var front := blocks[..|blocks| - 1];
      LostTitles(cfg, front) + One(Overwritten(cfg, Built(cfg, front), blocks[|blocks| - 1]))
  }

  /** The titles a state holds: on clauses, and waiting. */
  function HeldTitles(b: State): multiset<string> {
    Headings(b.nodes) + One(b.pending)
  }

  // ----- steps -----

  lemma {:induction false} SameHeadings(a: seq<Node>, b: seq<Node>)
    requires |a| == |b| && forall k :: 0 <= k < |a| ==> a[k].heading == b[k].heading
    ensures Headings(a) == Headings(b)
  {
    if a != [] {
      SameHeadings(a[..|a| - 1], b[..|b| - 1]);
    }
  }

  lemma AttachHeadings(nodes: seq<Node>, p: nat, n: Node)
    requires p < |nodes|
    ensures Headings(Attach(nodes, p, n)) == Headings(nodes) + One(n.heading)
  {
    var g := Attach(nodes, p, n);
    SameHeadings(nodes, g[..|nodes|]);
    assert g[..|g| - 1] == g[..|nodes|];
  }

  lemma {:induction false} SetHeading(nodes: seq<Node>, p: nat, t: string)
    requires p < |nodes| && nodes[p].heading == None
    ensures Headings(nodes[p := nodes[p].(heading := Some(t))]) == Headings(nodes) + multiset{t}
  {
    var g, n := nodes[p := nodes[p].(heading := Some(t))], |nodes| - 1;
    if p == n {
      assert g[..n] == nodes[..n];
    } else {
      SetHeading(nodes[..n], p, t);
      assert g[..n] == nodes[..n][p := nodes[p].(heading := Some(t))];
    }
  }

  lemma OpenClauseTitles(cfg: Config, b: State, depth: int, numbering: Option<string>, body: string, explicit: Option<string>)
    requires Shaped(b) && ((numbering.Some? && numbering.value != "") || explicit.Some?)
    ensures HeldTitles(OpenClause(cfg, b, depth, numbering, body, explicit)) == HeldTitles(b) + One(explicit)
  {
    hide Headings, Attach, Disambiguated, BaseSegment;
    var s := Popped(b, depth);
    AttachHeadings(s.nodes, Top(s), NewClause(cfg, s, depth, numbering, body, explicit));
  }

  lemma {:induction false} OpenFromTitles(cfg: Config, b: State, text: string, ms: seq<Match>, k: nat)
    requires Shaped(b) && UsableScan(cfg, text, ms) && k <= |ms|
    ensures HeldTitles(OpenFrom(cfg, b, text, ms, k)) == HeldTitles(b)
    decreases |ms| - k
  {
    hide HeldTitles, OpenClause, Strip;
    if k < |ms| {
      OpenClauseTitles(cfg, b, cfg.patterns[ms[k].which].depth, Some(Strip(text[ms[k].start..ms[k].end])),
                       Strip(text[ms[k].end..NextStart(text, ms, k)]), None);
      OpenFromTitles(cfg, OpenMatch(cfg, b, text, ms, k), text, ms, k + 1);
      NothingMore(HeldTitles(b));
    }
  }

  lemma NothingMore(m: multiset<string>)
    ensures m + One(None) == m
  {
  }

  lemma AddLeafTitles(b: State, body: string)
    requires Shaped(b)
    ensures HeldTitles(AddLeaf(b, body)) == HeldTitles(b)
  {
    hide Headings, Attach;
    AttachHeadings(b.nodes, Top(b), NewLeaf(b, body));
  }

  lemma AbsorbTitles(b: State, text: string)
    requires Shaped(b)
    ensures HeldTitles(AbsorbTitle(b, text)) + (if TopClosedToTitles(b) then One(b.pending) else multiset{})
      == HeldTitles(b) + multiset{text}
  {
    hide Headings;
    if !TopClosedToTitles(b) {
      SetHeading(b.nodes, Top(b), text);
    }
  }

  lemma LooseTitles(b: State, text: string)
    requires Shaped(b)
    ensures HeldTitles(AddLoose(b, text)) == HeldTitles(b)
  {
    hide Headings, Strip;
    SameHeadings(b.nodes, AddLoose(b, text).nodes);
  }

  lemma ParagraphTitles(cfg: Config, b: State, text: string, bold: seq<(nat, nat)>)
    requires ValidConfig(cfg) && Shaped(b)
    ensures var block := Paragraph(text, bold);
      HeldTitles(Consume(cfg, b, block)) + One(Overwritten(cfg, b, block)) == HeldTitles(b) + One(TitleOf(cfg, block))
  {
    hide HeldTitles, AbsorbTitle, AddLeaf, OpenClause, OpenFrom, Strip, BoldOnly, ScanOf, TopClosedToTitles, UsableScan, PrefixLeaf;
    var ms := ScanOf(text, cfg.patterns, 0);
    if cfg.ignored(Strip(text)) {
    } else if ms != [] {
      ScanUsable(cfg, text);
      PrefixTitles(b, text, ms[0].start);
      OpenFromTitles(cfg, PrefixLeaf(b, text, ms[0].start), text, ms, 0);
    } else if cfg.boldTitles && BoldOnly(text, bold) {
      AbsorbTitles(b, Strip(text));
    } else {
      AddLeafTitles(b, Strip(text));
    }
  }

  lemma PrefixTitles(b: State, text: string, first: nat)
    requires Shaped(b) && first <= |text|
    ensures HeldTitles(PrefixLeaf(b, text, first)) == HeldTitles(b)
  {
    hide HeldTitles, AddLeaf, Strip;
    AddLeafTitles(b, Strip(text[..first]));
  }

  lemma ConsumeTitles(cfg: Config, b: State, block: Block)
    requires ValidConfig(cfg) && Shaped(b)
    ensures HeldTitles(Consume(cfg, b, block)) + One(Overwritten(cfg, b, block)) == HeldTitles(b) + One(TitleOf(cfg, block))
  {
    hide HeldTitles, ConsumeParagraph, AddLoose, OpenClause, Strip;
    match block
    case Paragraph(text, bold) => ParagraphTitles(cfg, b, text, bold);
    case Heading(level, title) =>
      if Strip(title) != "" {
        var depth := level + cfg.headingOffset;
        OpenClauseTitles(cfg, b, if depth < 1 then 1 else depth, None, "", Some(Strip(title)));
      }
    case Loose(content) => LooseTitles(b, content);
  }

  lemma {:induction false} BuiltTitles(cfg: Config, blocks: seq<Block>)
    requires ValidConfig(cfg)
    ensures HeldTitles(Built(cfg, blocks)) + LostTitles(cfg, blocks) == Titles(cfg, blocks)
  {
    hide Consume, Overwritten, TitleOf, One, HeldTitles;
    if blocks == [] {
      NoTitles();
    } else {
      var front, block := blocks[..|blocks| - 1], blocks[|blocks| - 1];
      BuiltTitles(cfg, front);
      ConsumeTitles(cfg, Built(cfg, front), block);
      Regroup(HeldTitles(Built(cfg, blocks)), LostTitles(cfg, front), One(Overwritten(cfg, Built(cfg, front), block)),
              HeldTitles(Built(cfg, front)), One(TitleOf(cfg, block)));
    }
  }

  lemma NoTitles()
    ensures HeldTitles(INITIAL) == multiset{}
  {
    assert INITIAL.nodes[..0] == [];
  }

  lemma Regroup(held: multiset<string>, lost: multiset<string>, over: multiset<string>, before: multiset<string>, title: multiset<string>)
    requires held + over == before + title
    ensures held + (lost + over) == (before + lost) + title
  {
    assert held + (lost + over) == (held + over) + lost;
  }

  lemma {:induction false} FrozenHeadings(nodes: seq<Node>, cs: seq<Clause>)
    requires |nodes| == |cs| && forall k :: 0 <= k < |cs| ==> cs[k].heading == nodes[k].heading
    ensures TreeHeadings(cs) == Headings(nodes)
  {
    if cs != [] {
      FrozenHeadings(nodes[..|nodes| - 1], cs[..|cs| - 1]);
    }
  }

  /** Title conservation: the headings of the parsed tree, the title still waiting at the end, and the
      titles overwritten while waiting are together exactly the titles of the document. */
  lemma ParsedTitles(cfg: Config, blocks: seq<Block>)
    requires ValidConfig(cfg)
    ensures TreeHeadings(Walk(Parsed(cfg, blocks))) + One(Built(cfg, blocks).pending) + LostTitles(cfg, blocks)
      == Titles(cfg, blocks)
  {
    hide Titles, LostTitles, Headings, TreeHeadings, One;
    WalkIsCreationOrder(cfg, blocks);
    BuiltTitles(cfg, blocks);
    FrozenHeadings(Built(cfg, blocks).nodes, Walk(Parsed(cfg, blocks)));
  }
}
