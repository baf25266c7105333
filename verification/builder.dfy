/** The clause-tree builder: steps over an arena of clauses in creation order, an open stack, and
    a pending title. */
module Builder {
  import opened Prelude
  import opened Text
  import opened Clauses
  import opened Matching
  import opened Arena

  /** Parser configuration. `ignored` stands for the full-match of the ignore patterns, `isWord`
      for the regex word class, `lower` for lower-casing. */
  datatype Config = Config(
    patterns: seq<Pattern>,
    ignored: string -> bool,
    boldTitles: bool,
    headingOffset: int,
    isWord: char -> bool,
    lower: string -> string)

  /** Matches are proper and never blank, as opening a labelled clause demands. */
  ghost predicate ValidConfig(cfg: Config) {
    && ProperMatches(cfg.patterns)
    && forall k, text, pos: nat :: 0 <= k < |cfg.patterns| && pos < |text| && cfg.patterns[k].matchEnd(text, pos).Some? ==>
         Strip(text[pos..cfg.patterns[k].matchEnd(text, pos).value]) != ""
  }

  /** Pattern depths lie below the root's. */
  predicate DepthsPositive(cfg: Config) {
    forall k :: 0 <= k < |cfg.patterns| ==> 1 <= cfg.patterns[k].depth
  }

  /** A block of the tokenised document. */
  datatype Block =
    | Paragraph(text: string, bold: seq<(nat, nat)>)
    | Heading(level: int, title: string)
    | Loose(content: string)

  /** A clause under construction. `children` and `parent` are arena indices. */
  datatype Node = Node(
    depth: int,
    path: Path,
    heading: Option<string>,
    parts: seq<string>,
    numbering: Option<string>,
    children: seq<nat>,
    parent: nat)

  /** Builder state: clauses in creation order, the open ones from the root up, a waiting title. */
  datatype State = State(nodes: seq<Node>, stack: seq<nat>, pending: Option<string>)

  /** All indices are in range. */
  predicate Shaped(b: State) {
    && b.stack != []
    && (forall k :: 0 <= k < |b.stack| ==> b.stack[k] < |b.nodes|)
    && (forall i, k :: 0 <= i < |b.nodes| && 0 <= k < |b.nodes[i].children| ==> b.nodes[i].children[k] < |b.nodes|)
  }

  const INITIAL: State := State([Node(0, [], None, [], None, [], 0)], [0], None)

  function Top(b: State): nat
    requires Shaped(b)
  {
    b.stack[|b.stack| - 1]
  }

  // ----- the steps as functions -----

  /** Appends `n` as the youngest child of `p`. */
  function Attach(nodes: seq<Node>, p: nat, n: Node): seq<Node>
    requires p < |nodes|
  {
    nodes[p := nodes[p].(children := nodes[p].children + [|nodes|])] + [n.(children := [], parent := p)]
  }

  function LastSegment(path: Path): string {
    if path == [] then "" else path[|path| - 1]
  }

  /** The segments used by the children of `p`. */
  function Taken(nodes: seq<Node>, p: nat): set<string>
    requires p < |nodes| && forall k :: 0 <= k < |nodes[p].children| ==> nodes[p].children[k] < |nodes|
  {
    set k | 0 <= k < |nodes[p].children| :: LastSegment(nodes[nodes[p].children[k]].path)
  }

  function Ordinal(n: nat): string {
    "#" + Decimal(n)
  }

  /** The stack position of the parent: pops closed clauses but never the root. */
  function ParentPosition(b: State, depth: int, k: nat): (r: nat)
    requires Shaped(b) && k < |b.stack|
    ensures r <= k
    ensures r == 0 || b.nodes[b.stack[r]].depth < depth
    ensures forall x :: r < x <= k ==> b.nodes[b.stack[x]].depth >= depth
  {
    if k > 0 && b.nodes[b.stack[k]].depth >= depth then ParentPosition(b, depth, k - 1) else k
  }

  /** The segment before disambiguation: the label, else the slug of the title, else the ordinal. */
  function BaseSegment(cfg: Config, numbering: Option<string>, heading: Option<string>, ordinal: nat): string
    requires (numbering.Some? && numbering.value != "") || heading.Some?
  {
    if numbering.Some? && numbering.value != "" then numbering.value else
      var slug := Slugify(cfg.isWord, cfg.lower, heading.value);
      if slug == "" then Ordinal(ordinal) else slug
  }

  /** Closes every open clause at or below the new depth. */
  function Popped(b: State, depth: int): (r: State)
    requires Shaped(b)
    ensures Shaped(r) && r.nodes == b.nodes
  {
    b.(stack := b.stack[..ParentPosition(b, depth, |b.stack| - 1) + 1])
  }

  /** The clause to open under the innermost open one. */
  function NewClause(cfg: Config, b: State, depth: int, numbering: Option<string>, body: string,
                     explicit: Option<string>): Node
    requires Shaped(b)
    requires (numbering.Some? && numbering.value != "") || explicit.Some?
  {
    var p := Top(b);
    var heading := if explicit.Some? then explicit else b.pending;
    var base := BaseSegment(cfg, numbering, heading, |b.nodes[p].children| + 1);
    var segment := Disambiguated(base, Taken(b.nodes, p));
    Node(depth, b.nodes[p].path + [segment], heading, if body == "" then [] else [body], numbering, [], p)
  }

  /** Opens a clause under the innermost open one. */
  function OpenHere(cfg: Config, b: State, depth: int, numbering: Option<string>, body: string,
                    explicit: Option<string>): (r: State)
    requires Shaped(b)
    requires (numbering.Some? && numbering.value != "") || explicit.Some?
    ensures Shaped(r) && |r.nodes| == |b.nodes| + 1
  {
    State(Attach(b.nodes, Top(b), NewClause(cfg, b, depth, numbering, body, explicit)),
          b.stack + [|b.nodes|],
          if explicit.Some? then b.pending else None)
  }

  function OpenClause(cfg: Config, b: State, depth: int, numbering: Option<string>, body: string,
                      explicit: Option<string>): (r: State)
    requires Shaped(b)
    requires (numbering.Some? && numbering.value != "") || explicit.Some?
    ensures Shaped(r) && |r.nodes| == |b.nodes| + 1
  {
    OpenHere(cfg, Popped(b, depth), depth, numbering, body, explicit)
  }

  /** The unlabelled leaf for a stray paragraph. */
  function NewLeaf(b: State, body: string): Node
    requires Shaped(b)
  {
    var p := Top(b);
    var segment := Ordinal(|b.nodes[p].children| + 1);
    Node(b.nodes[p].depth + 1, b.nodes[p].path + [segment], None, [body], None, [], p)
  }

  function AddLeaf(b: State, body: string): (r: State)
    requires Shaped(b)
    ensures Shaped(r) && |r.nodes| == |b.nodes| + 1
  {
    b.(nodes := Attach(b.nodes, Top(b), NewLeaf(b, body)))
  }

  /** A bold-only paragraph titles the clause just opened, if it is still bare, else the next. */
  function AbsorbTitle(b: State, text: string): (r: State)
    requires Shaped(b)
    ensures Shaped(r) && |r.nodes| == |b.nodes|
  {
    var p := Top(b);
    var n := b.nodes[p];
    if p == 0 || n.heading.Some? || n.parts != [] || n.children != [] then b.(pending := Some(text))
    else b.(nodes := b.nodes[p := n.(heading := Some(text))])
  }

  function AddLoose(b: State, text: string): (r: State)
    requires Shaped(b)
    ensures Shaped(r) && |r.nodes| == |b.nodes|
  {
    if Strip(text) == "" then b else
      var p := Top(b);
      b.(nodes := b.nodes[p := b.nodes[p].(parts := b.nodes[p].parts + [Strip(text)])])
  }

  function ConsumeHeading(cfg: Config, b: State, level: int, title: string): (r: State)
    requires Shaped(b)
    ensures Shaped(r)
  {
    if Strip(title) == "" then b else
      var depth := level + cfg.headingOffset;
      OpenClause(cfg, b, if depth < 1 then 1 else depth, None, "", Some(Strip(title)))
  }

  /** The spans of a scan are inside the text, in order, and not blank. */
  ghost predicate UsableScan(cfg: Config, text: string, ms: seq<Match>) {
    && (forall k :: 0 <= k < |ms| ==>
          && ms[k].which < |cfg.patterns| && ms[k].start < ms[k].end <= |text|
          && Strip(text[ms[k].start..ms[k].end]) != "")
    && (forall k :: 0 <= k < |ms| - 1 ==> ms[k].end <= ms[k + 1].start)
  }

  lemma ScanUsable(cfg: Config, text: string)
    requires ValidConfig(cfg)
    ensures UsableScan(cfg, text, ScanOf(text, cfg.patterns, 0))
  {
  }

  lemma StripOfNothing(text: string)
    ensures Strip(text[..0]) == ""
  {
  }

  function NextStart(text: string, ms: seq<Match>, k: nat): nat {
    if k + 1 < |ms| then ms[k + 1].start else |text|
  }

  /** Opens the clause of match `k`: its label, and the text up to the next match as its body. */
  function OpenMatch(cfg: Config, b: State, text: string, ms: seq<Match>, k: nat): (r: State)
    requires Shaped(b) && k < |ms| && ms[k].which < |cfg.patterns|
    requires ms[k].start < ms[k].end <= NextStart(text, ms, k) <= |text| && Strip(text[ms[k].start..ms[k].end]) != ""
    ensures Shaped(r)
  {
    OpenClause(cfg, b, cfg.patterns[ms[k].which].depth, Some(Strip(text[ms[k].start..ms[k].end])),
               Strip(text[ms[k].end..NextStart(text, ms, k)]), None)
  }

  /** Opens the clauses of the matches from `k` on. */
  ghost function OpenFrom(cfg: Config, b: State, text: string, ms: seq<Match>, k: nat): (r: State)
    requires Shaped(b) && UsableScan(cfg, text, ms) && k <= |ms|
    ensures Shaped(r)
    decreases |ms| - k
  {
    if k == |ms| then b else OpenFrom(cfg, OpenMatch(cfg, b, text, ms, k), text, ms, k + 1)
  }

  /** The leaf for text before the first match, when there is any. */
  function PrefixLeaf(b: State, text: string, first: nat): (r: State)
    requires Shaped(b) && first <= |text|
    ensures Shaped(r)
  {
    if Strip(text[..first]) == "" then b else AddLeaf(b, Strip(text[..first]))
  }

  ghost function ConsumeParagraph(cfg: Config, b: State, text: string, bold: seq<(nat, nat)>): (r: State)
    requires ValidConfig(cfg) && Shaped(b)
    ensures Shaped(r)
  {
    var ms := ScanOf(text, cfg.patterns, 0);
    ScanUsable(cfg, text);
    if cfg.ignored(Strip(text)) then b
    else if ms == [] then
      if cfg.boldTitles && BoldOnly(text, bold) then AbsorbTitle(b, Strip(text)) else AddLeaf(b, Strip(text))
    else OpenFrom(cfg, PrefixLeaf(b, text, ms[0].start), text, ms, 0)
  }

  ghost function Consume(cfg: Config, b: State, block: Block): (r: State)
    requires ValidConfig(cfg) && Shaped(b)
    ensures Shaped(r)
  {
    match block
    case Paragraph(text, bold) => ConsumeParagraph(cfg, b, text, bold)
    case Heading(level, title) => ConsumeHeading(cfg, b, level, title)
    case Loose(content) => AddLoose(b, content)
  }

  /** The state after the given blocks. */
  ghost function Built(cfg: Config, blocks: seq<Block>): (r: State)
    requires ValidConfig(cfg)
    ensures Shaped(r)
  {
    if blocks == [] then INITIAL
    else Consume(cfg, Built(cfg, blocks[..|blocks| - 1]), blocks[|blocks| - 1])
  }

  // ----- freezing -----

  function KidsOf(nodes: seq<Node>): (r: Kids)
    ensures |r| == |nodes| && forall i :: 0 <= i < |nodes| ==> r[i] == nodes[i].children
  {
    seq(|nodes|, i requires 0 <= i < |nodes| => nodes[i].children)
  }

  /** The non-blank parts, stripped. */
  function Trimmed(parts: seq<string>): seq<string> {
    if parts == [] then [] else (if Strip(parts[0]) == "" then [] else [Strip(parts[0])]) + Trimmed(parts[1..])
  }

  function BodyOf(parts: seq<string>): string {
    Join(Trimmed(parts), ' ')
  }

  /** The immutable tree below node `i`. */
  function Freeze(nodes: seq<Node>, i: nat): (c: Clause)
    requires WellFormed(KidsOf(nodes)) && i < |nodes|
    ensures c.path == nodes[i].path && c.heading == nodes[i].heading && c.numbering == nodes[i].numbering
    ensures c.body == BodyOf(nodes[i].parts)
    decreases |nodes| - i, |nodes[i].children| + 1
  {
    assert Younger(KidsOf(nodes), i, KidsOf(nodes)[i]);
    var n := nodes[i];
    Clause(n.path, n.heading, BodyOf(n.parts), n.numbering, FreezeAll(nodes, i, n.children))
  }

  function FreezeAll(nodes: seq<Node>, i: nat, cs: seq<nat>): (r: seq<Clause>)
    requires WellFormed(KidsOf(nodes)) && i < |nodes| && Younger(KidsOf(nodes), i, cs)
    decreases |nodes| - i, |cs|
  {
    if cs == [] then [] else [Freeze(nodes, cs[0])] + FreezeAll(nodes, i, cs[1..])
  }

  // ----- the class -----

  class TreeBuilder {
    const cfg: Config
    var nodes: seq<Node>
    var stack: seq<nat>
    var pending: Option<string>

    ghost function View(): State
      reads this
    {
      State(nodes, stack, pending)
    }

    constructor (cfg: Config)
      ensures this.cfg == cfg && View() == INITIAL
    {
      this.cfg := cfg;
      nodes := INITIAL.nodes;
      stack := [0];
      pending := None;
    }

    /** Pops every open clause at or below the new depth, but never the root. */
    method PopTo(depth: int)
      requires Shaped(View())
      modifies this`stack
      ensures View() == Popped(old(View()), depth)
    {
      ghost var b := View();
      while |stack| > 1 && nodes[stack[|stack| - 1]].depth >= depth
        invariant 1 <= |stack| <= |b.stack| && stack == b.stack[..|stack|]
        invariant ParentPosition(b, depth, |b.stack| - 1) == ParentPosition(b, depth, |stack| - 1)
        decreases |stack|
      {
        stack := stack[..|stack| - 1];
      }
    }

    /** `parent.children.append(node)`. */
    method AppendChild(p: nat, n: Node) returns (id: nat)
      requires p < |nodes| && n.children == [] && n.parent == p
      modifies this`nodes
      ensures nodes == Attach(old(nodes), p, n) && id == |old(nodes)|
    {
      id := |nodes|;
      nodes := nodes[p := nodes[p].(children := nodes[p].children + [id])] + [n];
    }

    /** The segment of the next child of `p`. */
    method NewSegment(p: nat, numbering: Option<string>, heading: Option<string>) returns (segment: string)
      requires Shaped(View()) && p < |nodes|
      requires (numbering.Some? && numbering.value != "") || heading.Some?
      ensures segment == Disambiguated(BaseSegment(cfg, numbering, heading, |nodes[p].children| + 1), Taken(nodes, p))
    {
      var base := BaseSegment(cfg, numbering, heading, |nodes[p].children| + 1);
      segment := DisambiguateSegment(base, Taken(nodes, p));
    }

    /** Closes what the new depth closes, then opens a clause under what is left. */
    method Open(depth: int, numbering: Option<string>, body: string, explicit: Option<string>)
      requires Shaped(View())
      requires (numbering.Some? && numbering.value != "") || explicit.Some?
      modifies this
      ensures View() == OpenClause(cfg, old(View()), depth, numbering, body, explicit)
    {
      PopTo(depth);
      Push(depth, numbering, body, explicit);
    }

    method Push(depth: int, numbering: Option<string>, body: string, explicit: Option<string>)
      requires Shaped(View())
      requires (numbering.Some? && numbering.value != "") || explicit.Some?
      modifies this
      ensures View() == OpenHere(cfg, old(View()), depth, numbering, body, explicit)
    {
      hide BaseSegment, Disambiguated, Taken;
      var p := stack[|stack| - 1];
      var heading := explicit;
      if heading.None? && pending.Some? {
        heading := pending;
        pending := None;
      }
      var segment := NewSegment(p, numbering, heading);
      var n := Node(depth, nodes[p].path + [segment], heading, if body == "" then [] else [body], numbering, [], p);
      var id := AppendChild(p, n);
      stack := stack + [id];
    }

    method Leaf(body: string)
      requires Shaped(View())
      modifies this`nodes
      ensures View() == AddLeaf(old(View()), body)
    {
      var p := stack[|stack| - 1];
      var ordinal := |nodes[p].children| + 1;
      var n := Node(nodes[p].depth + 1, nodes[p].path + [Ordinal(ordinal)], None, [body], None, [], p);
      var _ := AppendChild(p, n);
    }

    method Title(text: string)
      requires Shaped(View())
      modifies this`nodes, this`pending
      ensures View() == AbsorbTitle(old(View()), text)
    {
      var p := stack[|stack| - 1];
      if p == 0 || nodes[p].heading.Some? || nodes[p].parts != [] || nodes[p].children != [] {
        pending := Some(text);
      } else {
        nodes := nodes[p := nodes[p].(heading := Some(text))];
      }
    }

    method LooseText(text: string)
      requires Shaped(View())
      modifies this`nodes
      ensures View() == AddLoose(old(View()), text)
    {
      var stripped := Strip(text);
      if stripped != "" {
        var p := stack[|stack| - 1];
        nodes := nodes[p := nodes[p].(parts := nodes[p].parts + [stripped])];
      }
    }

    method HeadingBlock(level: int, title: string)
      requires Shaped(View())
      modifies this
      ensures View() == ConsumeHeading(cfg, old(View()), level, title)
    {
      var text := Strip(title);
      if text == "" {
        return;
      }
      var depth := level + cfg.headingOffset;
      if depth < 1 {
        depth := 1;
      }
      Open(depth, None, "", Some(text));
    }

    method ParagraphBlock(text: string, bold: seq<(nat, nat)>)
      requires ValidConfig(cfg) && Shaped(View())
      modifies this
      ensures View() == ConsumeParagraph(cfg, old(View()), text, bold)
    {
      hide Strip, BoldOnly, IsScan, OpenClause, AddLeaf;
      var stripped := Strip(text);
      if cfg.ignored(stripped) {
        return;
      }
      var ms := FindMatches(text, cfg.patterns);
      ScanUsable(cfg, text);
      if ms == [] {
        var boldOnly := IsBoldOnly(text, bold);
        if cfg.boldTitles && boldOnly {
          Title(stripped);
        } else {
          Leaf(stripped);
        }
        return;
      }
      var first := ms[0].start;
      StripOfNothing(text);
      if first > 0 {
        var prefix := Strip(text[..first]);
        if prefix != "" {
          Leaf(prefix);
        }
      }
      ghost var b := View();
      for k := 0 to |ms|
        invariant Shaped(View()) && OpenFrom(cfg, View(), text, ms, k) == OpenFrom(cfg, b, text, ms, 0)
      {
        var m := ms[k];
        var numbering := Strip(text[m.start..m.end]);
        var body := Strip(text[m.end..NextStart(text, ms, k)]);
        Open(cfg.patterns[m.which].depth, Some(numbering), body, None);
      }
    }
  }
}
