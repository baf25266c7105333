/** Parsing a block list, and what holds of the tree it yields: document order, distinct paths,
    depths, and text conservation. */
module Parser {
  import opened Prelude
  import opened Text
  import opened Clauses
  import opened Matching
  import opened Arena
  import opened Builder

  // ----- the structural invariant -----

  /** Node `c` hangs below an older parent that lists it, one path segment deeper. */
  ghost predicate Hangs(nodes: seq<Node>, c: nat)
    requires c < |nodes|
  {
    var p := nodes[c].parent;
    p < c && c in nodes[p].children && nodes[c].path == nodes[p].path + [LastSegment(nodes[c].path)]
  }

  ghost predicate Linked(nodes: seq<Node>) {
    && nodes != [] && nodes[0].path == []
    && (forall c: nat :: 0 < c < |nodes| ==> Hangs(nodes, c))
    && (forall i, k :: 0 <= i < |nodes| && 0 <= k < |nodes[i].children| ==>
          i < nodes[i].children[k] < |nodes| && nodes[nodes[i].children[k]].parent == i)
  }

  lemma LinkedWellFormed(nodes: seq<Node>)
    requires Linked(nodes)
    ensures WellFormed(KidsOf(nodes))
  {
    var kids := KidsOf(nodes);
    forall i | 0 <= i < |kids|
      ensures Younger(kids, i, kids[i])
    {
    }
  }

  /** Children of one parent end in different segments. */
  ghost predicate SiblingsDistinct(nodes: seq<Node>) {
    forall a, b :: 0 < a < b < |nodes| && nodes[a].parent == nodes[b].parent ==>
      LastSegment(nodes[a].path) != LastSegment(nodes[b].path)
  }

  ghost predicate Inv(b: State) {
    && Shaped(b) && Linked(b.nodes) && SiblingsDistinct(b.nodes)
    && WellFormed(KidsOf(b.nodes)) && Spine(KidsOf(b.nodes), b.stack)
  }

  /** The innermost open clause has unlabelled leaves only, numbered in order. */
  ghost predicate LeavesOnTop(b: State)
    requires Shaped(b)
  {
    OrdinalChildren(b.nodes, Top(b))
  }

  ghost predicate OrdinalChildren(nodes: seq<Node>, p: nat)
    requires p < |nodes|
  {
    var cs := nodes[p].children;
    forall k :: 0 <= k < |cs| ==> cs[k] < |nodes| && LastSegment(nodes[cs[k]].path) == Ordinal(k + 1)
  }

  /** `n` is a fresh child of `p` that extends its path by `segment`. */
  ghost predicate ExtendsPath(nodes: seq<Node>, p: nat, n: Node, segment: string)
    requires p < |nodes|
  {
    n.path == nodes[p].path + [segment] && n.children == [] && n.parent == p
  }

  lemma AttachLinked(nodes: seq<Node>, p: nat, n: Node, segment: string)
    requires Linked(nodes) && p < |nodes| && ExtendsPath(nodes, p, n, segment)
    ensures Linked(Attach(nodes, p, n))
  {
    var g := Attach(nodes, p, n);
    forall c: nat | 0 < c < |g|
      ensures Hangs(g, c)
    {
      if c < |nodes| {
        assert Hangs(nodes, c);
      } else {
        assert LastSegment(n.path) == segment;
        assert g[p].children[|nodes[p].children|] == |nodes|;
      }
    }
  }

  /** Attaching keeps siblings distinct exactly when the new segment is free. */
  lemma AttachSiblings(nodes: seq<Node>, p: nat, n: Node, segment: string)
    requires Linked(nodes) && SiblingsDistinct(nodes) && p < |nodes| && ExtendsPath(nodes, p, n, segment)
    ensures SiblingsDistinct(Attach(nodes, p, n)) <==> segment !in Taken(nodes, p)
  {
    var g := Attach(nodes, p, n);
    assert LastSegment(n.path) == segment;
    assert forall x :: 0 <= x < |nodes| ==> g[x].path == nodes[x].path && g[x].parent == nodes[x].parent;
    if segment in Taken(nodes, p) {
      var k :| 0 <= k < |nodes[p].children| && LastSegment(nodes[nodes[p].children[k]].path) == segment;
      var c := nodes[p].children[k];
      assert g[c].parent == p == g[|nodes|].parent;
      assert LastSegment(g[c].path) == LastSegment(g[|nodes|].path);
    } else {
      forall a: nat, b: nat | 0 < a < b < |g| && g[a].parent == g[b].parent
        ensures LastSegment(g[a].path) != LastSegment(g[b].path)
      {
        if b == |nodes| {
          assert Hangs(nodes, a);
          var k :| 0 <= k < |nodes[p].children| && nodes[p].children[k] == a;
          assert LastSegment(nodes[a].path) in Taken(nodes, p);
        }
      }
    }
  }

  lemma AttachKids(nodes: seq<Node>, p: nat, n: Node)
    requires p < |nodes| && n.children == []
    ensures KidsOf(Attach(nodes, p, n)) == Grow(KidsOf(nodes), p)
  {
  }

  /** Attaching under an open entry keeps the invariant when the segment is free. */
  lemma AttachKeepsInv(b: State, n: Node, segment: string, pending: Option<string>)
    requires Inv(b) && ExtendsPath(b.nodes, Top(b), n, segment) && segment !in Taken(b.nodes, Top(b))
    ensures var nodes := Attach(b.nodes, Top(b), n);
      && Inv(State(nodes, b.stack, pending))
      && Inv(State(nodes, b.stack + [|b.nodes|], pending))
  {
    hide SiblingsDistinct, Spine, Grow, Taken, Hangs;
    var p := Top(b);
    AttachLinked(b.nodes, p, n, segment);
    AttachSiblings(b.nodes, p, n, segment);
    AttachKids(b.nodes, p, n);
    LinkedWellFormed(Attach(b.nodes, p, n));
    GrowKeepsSpine(KidsOf(b.nodes), b.stack, |b.stack| - 1);
    assert b.stack[..|b.stack|] == b.stack;
  }

  lemma PoppedInv(b: State, depth: int)
    requires Inv(b)
    ensures Inv(Popped(b, depth))
  {
    PopKeepsSpine(KidsOf(b.nodes), b.stack, ParentPosition(b, depth, |b.stack| - 1));
  }

  lemma OpenHereInv(cfg: Config, b: State, depth: int, numbering: Option<string>, body: string, explicit: Option<string>)
    requires Inv(b) && ((numbering.Some? && numbering.value != "") || explicit.Some?)
    ensures Inv(OpenHere(cfg, b, depth, numbering, body, explicit))
    ensures LeavesOnTop(OpenHere(cfg, b, depth, numbering, body, explicit))
  {
    var p := Top(b);
    var heading := if explicit.Some? then explicit else b.pending;
    var segment := Disambiguated(BaseSegment(cfg, numbering, heading, |b.nodes[p].children| + 1), Taken(b.nodes, p));
    AttachKeepsInv(b, NewClause(cfg, b, depth, numbering, body, explicit), segment, if explicit.Some? then b.pending else None);
  }

  lemma OpenClauseInv(cfg: Config, b: State, depth: int, numbering: Option<string>, body: string, explicit: Option<string>)
    requires Inv(b) && ((numbering.Some? && numbering.value != "") || explicit.Some?)
    ensures Inv(OpenClause(cfg, b, depth, numbering, body, explicit))
    ensures LeavesOnTop(OpenClause(cfg, b, depth, numbering, body, explicit))
  {
    PoppedInv(b, depth);
    OpenHereInv(cfg, Popped(b, depth), depth, numbering, body, explicit);
  }

  lemma OrdinalsFree(nodes: seq<Node>, p: nat)
    requires p < |nodes| && OrdinalChildren(nodes, p)
    ensures Ordinal(|nodes[p].children| + 1) !in Taken(nodes, p)
  {
    var cs := nodes[p].children;
    forall k | 0 <= k < |cs|
      ensures LastSegment(nodes[cs[k]].path) != Ordinal(|cs| + 1)
    {
      if Ordinal(k + 1) == Ordinal(|cs| + 1) {
        assert Ordinal(k + 1)[1..] == Decimal(k + 1) && Ordinal(|cs| + 1)[1..] == Decimal(|cs| + 1);
        DecimalInjective(k + 1, |cs| + 1);
      }
    }
  }

  lemma AddLeafInv(b: State, body: string)
    requires Inv(b) && LeavesOnTop(b)
    ensures Inv(AddLeaf(b, body)) && LeavesOnTop(AddLeaf(b, body))
  {
    var p := Top(b);
    var segment := Ordinal(|b.nodes[p].children| + 1);
    OrdinalsFree(b.nodes, p);
    var n := NewLeaf(b, body);
    AttachKeepsInv(b, n, segment, b.pending);
    var g := AddLeaf(b, body).nodes;
    assert LastSegment(n.path) == segment;
    forall k | 0 <= k < |g[p].children|
      ensures g[p].children[k] < |g| && LastSegment(g[g[p].children[k]].path) == Ordinal(k + 1)
    {
      if k < |b.nodes[p].children| {
        assert g[p].children[k] == b.nodes[p].children[k];
      }
    }
  }

  /** Changing heading or parts of a node changes nothing the invariant speaks of. */
  lemma TouchInv(b: State, p: nat, n: Node)
    requires Inv(b) && LeavesOnTop(b) && p < |b.nodes|
    requires n.path == b.nodes[p].path && n.children == b.nodes[p].children && n.parent == b.nodes[p].parent
    ensures var t := b.(nodes := b.nodes[p := n]); Inv(t) && LeavesOnTop(t)
  {
    hide Pre, Spine, WellFormed, Linked;
    var g := b.nodes[p := n];
    assert KidsOf(g) == KidsOf(b.nodes);
    TouchLinked(b.nodes, p, n);
  }

  lemma TouchLinked(nodes: seq<Node>, p: nat, n: Node)
    requires Linked(nodes) && p < |nodes|
    requires n.path == nodes[p].path && n.children == nodes[p].children && n.parent == nodes[p].parent
    ensures Linked(nodes[p := n])
  {
    var g := nodes[p := n];
    assert forall i :: 0 <= i < |g| ==> g[i].children == nodes[i].children && g[i].parent == nodes[i].parent;
    forall c: nat | 0 < c < |g|
      ensures Hangs(g, c)
    {
      assert Hangs(nodes, c);
    }
  }

  lemma AbsorbInv(b: State, text: string)
    requires Inv(b) && LeavesOnTop(b)
    ensures Inv(AbsorbTitle(b, text)) && LeavesOnTop(AbsorbTitle(b, text))
  {
    hide Pre, Spine, WellFormed, Linked, SiblingsDistinct;
    TouchInv(b, Top(b), b.nodes[Top(b)].(heading := Some(text)));
  }

  lemma LooseInv(b: State, text: string)
    requires Inv(b) && LeavesOnTop(b)
    ensures Inv(AddLoose(b, text)) && LeavesOnTop(AddLoose(b, text))
  {
    hide Pre, Spine, WellFormed, Linked, SiblingsDistinct, Strip;
    TouchInv(b, Top(b), b.nodes[Top(b)].(parts := b.nodes[Top(b)].parts + [Strip(text)]));
  }

  lemma InitialInv()
    ensures Inv(INITIAL) && LeavesOnTop(INITIAL)
  {
    var kids := KidsOf(INITIAL.nodes);
    assert kids == [[]];
    assert WellFormed(kids) && Pre(kids, 0) == [0] == Range(0, 1);
  }

  lemma {:induction false} OpenFromInv(cfg: Config, b: State, text: string, ms: seq<Match>, k: nat)
    requires Inv(b) && LeavesOnTop(b) && UsableScan(cfg, text, ms) && k <= |ms|
    ensures Inv(OpenFrom(cfg, b, text, ms, k)) && LeavesOnTop(OpenFrom(cfg, b, text, ms, k))
    decreases |ms| - k
  {
    if k < |ms| {
      OpenClauseInv(cfg, b, cfg.patterns[ms[k].which].depth, Some(Strip(text[ms[k].start..ms[k].end])),
                    Strip(text[ms[k].end..NextStart(text, ms, k)]), None);
      OpenFromInv(cfg, OpenMatch(cfg, b, text, ms, k), text, ms, k + 1);
    }
  }

  lemma InvShaped(b: State)
    requires Inv(b)
    ensures Shaped(b)
  {
  }

  lemma ConsumeInv(cfg: Config, b: State, block: Block)
    requires ValidConfig(cfg) && Inv(b) && LeavesOnTop(b)
    ensures Inv(Consume(cfg, b, block)) && LeavesOnTop(Consume(cfg, b, block))
  {
    hide Inv, LeavesOnTop, ScanOf, BoldOnly, Strip, AddLeaf, OpenFrom, OpenClause, UsableScan;
    InvShaped(b);
    match block
    case Paragraph(text, bold) =>
      var ms := ScanOf(text, cfg.patterns, 0);
      ScanUsable(cfg, text);
      if cfg.ignored(Strip(text)) {
      } else if ms == [] {
        if cfg.boldTitles && BoldOnly(text, bold) {
          AbsorbInv(b, Strip(text));
        } else {
          AddLeafInv(b, Strip(text));
        }
      } else {
        if Strip(text[..ms[0].start]) != "" {
          AddLeafInv(b, Strip(text[..ms[0].start]));
        }
        OpenFromInv(cfg, PrefixLeaf(b, text, ms[0].start), text, ms, 0);
      }
    case Heading(level, title) =>
      if Strip(title) != "" {
        var d := level + cfg.headingOffset;
        OpenClauseInv(cfg, b, if d < 1 then 1 else d, None, "", Some(Strip(title)));
      }
    case Loose(content) =>
      LooseInv(b, content);
  }

  /** The builder invariant holds after any blocks. */
  lemma {:induction false} BuiltInv(cfg: Config, blocks: seq<Block>)
    requires ValidConfig(cfg)
    ensures Inv(Built(cfg, blocks)) && LeavesOnTop(Built(cfg, blocks))
  {
    if blocks == [] {
      InitialInv();
    } else {
      BuiltInv(cfg, blocks[..|blocks| - 1]);
      ConsumeInv(cfg, Built(cfg, blocks[..|blocks| - 1]), blocks[|blocks| - 1]);
    }
  }

  // ----- document order -----

  ghost function FreezeList(nodes: seq<Node>, ids: seq<nat>): (r: seq<Clause>)
    requires WellFormed(KidsOf(nodes)) && forall k :: 0 <= k < |ids| ==> ids[k] < |nodes|
    ensures |r| == |ids| && forall k :: 0 <= k < |ids| ==> r[k] == Freeze(nodes, ids[k])
  {
    seq(|ids|, k requires 0 <= k < |ids| => Freeze(nodes, ids[k]))
  }

  lemma FreezeListConcat(nodes: seq<Node>, a: seq<nat>, b: seq<nat>)
    requires WellFormed(KidsOf(nodes))
    requires forall k :: 0 <= k < |a| ==> a[k] < |nodes|
    requires forall k :: 0 <= k < |b| ==> b[k] < |nodes|
    ensures forall k :: 0 <= k < |a + b| ==> (a + b)[k] < |nodes|
    ensures FreezeList(nodes, a + b) == FreezeList(nodes, a) + FreezeList(nodes, b)
  {
    hide Freeze;
  }

  /** Walking a frozen subtree visits the frozen nodes of its pre-order listing. */
  lemma {:induction false} WalkIsListing(nodes: seq<Node>, i: nat)
    requires WellFormed(KidsOf(nodes)) && i < |nodes|
    ensures forall k :: 0 <= k < |Pre(KidsOf(nodes), i)| ==> Pre(KidsOf(nodes), i)[k] < |nodes|
    ensures Walk(Freeze(nodes, i)) == FreezeList(nodes, Pre(KidsOf(nodes), i))
    decreases |nodes| - i, |nodes[i].children| + 1
  {
    hide FreezeAll, WalkAll, PreAll;
    PreAbove(KidsOf(nodes), i);
    var kids := KidsOf(nodes);
    assert Younger(kids, i, kids[i]);
    WalkAllIsListing(nodes, i, nodes[i].children);
    assert Freeze(nodes, i).children == FreezeAll(nodes, i, nodes[i].children);
  }

  lemma {:induction false} WalkAllIsListing(nodes: seq<Node>, i: nat, cs: seq<nat>)
    requires WellFormed(KidsOf(nodes)) && i < |nodes| && Younger(KidsOf(nodes), i, cs)
    ensures forall k :: 0 <= k < |PreAll(KidsOf(nodes), i, cs)| ==> PreAll(KidsOf(nodes), i, cs)[k] < |nodes|
    ensures WalkAll(FreezeAll(nodes, i, cs)) == FreezeList(nodes, PreAll(KidsOf(nodes), i, cs))
    decreases |nodes| - i, |cs|
  {
    hide Freeze, Walk;
    PreAllAbove(KidsOf(nodes), i, cs);
    if cs != [] {
      WalkIsListing(nodes, cs[0]);
      WalkAllIsListing(nodes, i, cs[1..]);
      assert FreezeAll(nodes, i, cs)[1..] == FreezeAll(nodes, i, cs[1..]);
      FreezeListConcat(nodes, Pre(KidsOf(nodes), cs[0]), PreAll(KidsOf(nodes), i, cs[1..]));
    }
  }

  /** The parsed tree. */
  ghost function Parsed(cfg: Config, blocks: seq<Block>): Clause
    requires ValidConfig(cfg)
  {
    BuiltInv(cfg, blocks);
    Freeze(Built(cfg, blocks).nodes, 0)
  }

  /** Document order: walking the parsed tree lists the clauses in the order they were created. */
  lemma WalkIsCreationOrder(cfg: Config, blocks: seq<Block>)
    requires ValidConfig(cfg)
    ensures var nodes := Built(cfg, blocks).nodes;
      && WellFormed(KidsOf(nodes)) && nodes != []
      && |Walk(Parsed(cfg, blocks))| == |nodes|
      && forall k :: 0 <= k < |nodes| ==> Walk(Parsed(cfg, blocks))[k] == Freeze(nodes, k)
  {
    BuiltInv(cfg, blocks);
    var b := Built(cfg, blocks);
    WalkIsListing(b.nodes, 0);
    assert Pre(KidsOf(b.nodes), b.stack[0]) == Range(0, |b.nodes|);
  }

  // ----- distinct paths -----

  /** With distinct siblings, all node paths are distinct. */
  lemma {:induction false} NodePathsDistinct(nodes: seq<Node>, a: nat, b: nat)
    requires Linked(nodes) && SiblingsDistinct(nodes) && a < b < |nodes|
    ensures nodes[a].path != nodes[b].path
    decreases b
  {
    assert Hangs(nodes, b);
    if a > 0 {
      assert Hangs(nodes, a);
      var p, q := nodes[a].parent, nodes[b].parent;
      if p < q {
        NodePathsDistinct(nodes, p, q);
      } else if q < p {
        NodePathsDistinct(nodes, q, p);
      }
      assert nodes[p].path == nodes[a].path[..|nodes[a].path| - 1];
      assert nodes[q].path == nodes[b].path[..|nodes[b].path| - 1];
    }
  }

  ghost predicate PathsDistinct(cs: seq<Clause>) {
    forall a, b :: 0 <= a < b < |cs| ==> cs[a].path != cs[b].path
  }

  /** Every parsed tree has pairwise distinct clause paths, whatever the labels and titles. */
  lemma ParsedPathsDistinct(cfg: Config, blocks: seq<Block>)
    requires ValidConfig(cfg)
    ensures PathsDistinct(Walk(Parsed(cfg, blocks)))
  {
    WalkIsCreationOrder(cfg, blocks);
    BuiltInv(cfg, blocks);
    var nodes := Built(cfg, blocks).nodes;
    forall a: nat, b: nat | a < b < |nodes|
      ensures nodes[a].path != nodes[b].path
    {
      NodePathsDistinct(nodes, a, b);
    }
  }
}
