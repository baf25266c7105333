/** The outline theorem: which clauses a document opens, at which depth, and under which parent, read
    off its blocks without the builder. */
module Outline {
  import opened Prelude
  import opened Text
  import opened Clauses
  import opened Matching
  import opened Builder
  import opened Parser

  // ----- what the blocks open -----

  /** A clause the document opens: by a label inside a paragraph, or by a heading. */
  datatype Opening = Labelled(numbering: string, depth: int) | Titled(title: string, depth: int)

  /** The labels of a scan, each at the depth of its pattern. */
  ghost function LabelsOf(cfg: Config, text: string, ms: seq<Match>): (r: seq<Opening>)
    requires UsableScan(cfg, text, ms)
  {
    seq(|ms|, k requires 0 <= k < |ms| =>
      Labelled(Strip(text[ms[k].start..ms[k].end]), cfg.patterns[ms[k].which].depth))
  }

  /** A paragraph that is not ignored opens its labels; a heading that is not blank opens one clause, at its
      level plus the offset but not above 1; loose text opens nothing. */
  ghost function OpeningsOf(cfg: Config, block: Block): seq<Opening>
    requires ValidConfig(cfg)
  {
    if block.Paragraph? then
      ScanUsable(cfg, block.text);
      if cfg.ignored(Strip(block.text)) then [] else LabelsOf(cfg, block.text, ScanOf(block.text, cfg.patterns, 0))
    else if block.Heading? && Strip(block.title) != "" then
      [Titled(Strip(block.title), if block.level + cfg.headingOffset > 1 then block.level + cfg.headingOffset else 1)]
    else []
  }

  /** The outline of a document: what its blocks open, in order. */
  ghost function OutlineOf(cfg: Config, blocks: seq<Block>): seq<Opening>
    requires ValidConfig(cfg)
  {
    if blocks == [] then [] else OutlineOf(cfg, blocks[..|blocks| - 1]) + OpeningsOf(cfg, blocks[|blocks| - 1])
  }

  // ----- what the arena shows -----

  /** The opening a clause shows: its label if it has one, else its title; a leaf shows none. */
  function Mark(n: Node): Option<Opening> {
    if n.numbering.Some? then Some(Labelled(n.numbering.value, n.depth))
    else if n.heading.Some? then Some(Titled(n.heading.value, n.depth))
    else None
  }

  lemma MarkOfChild(n: Node, p: nat)
    ensures Mark(n.(children := [], parent := p)) == Mark(n)
  {
  }

  /** What nesting depends on. */
  datatype Bone = Bone(mark: Option<Opening>, depth: int, parent: nat)

  function Bones(nodes: seq<Node>): (r: seq<Bone>)
    ensures |r| == |nodes|
    ensures forall k :: 0 <= k < |r| ==> r[k] == Bone(Mark(nodes[k]), nodes[k].depth, nodes[k].parent)
  {
    seq(|nodes|, k requires 0 <= k < |nodes| => Bone(Mark(nodes[k]), nodes[k].depth, nodes[k].parent))
  }

  /** The openings shown, in creation order. */
  function Shown(bones: seq<Bone>): seq<Opening> {
    if bones == [] then [] else
      var last := bones[|bones| - 1];
      Shown(bones[..|bones| - 1]) + if last.mark.Some? then [last.mark.value] else []
  }

  lemma ShownSnoc(bones: seq<Bone>, bone: Bone)
    ensures Shown(bones + [bone]) == Shown(bones) + if bone.mark.Some? then [bone.mark.value] else []
  {
    assert (bones + [bone])[..|bones|] == bones;
  }

  predicate Opened(bones: seq<Bone>, k: nat) {
    k < |bones| && bones[k].mark.Some?
  }

  /** An opened clause hangs below the latest earlier opened clause of smaller depth, else below the
      root. */
  ghost predicate UnderLatestShallower(bones: seq<Bone>, k: nat)
    requires k < |bones|
  {
    var p := bones[k].parent;
    && p < k && (p == 0 || (Opened(bones, p) && bones[p].depth < bones[k].depth))
    && forall z: nat :: p < z < k && Opened(bones, z) ==> bones[z].depth >= bones[k].depth
  }

  /** A leaf hangs below the clause opened last, else below the root, one level deeper. */
  ghost predicate UnderLatest(bones: seq<Bone>, k: nat)
    requires k < |bones|
  {
    var p := bones[k].parent;
    && p < k && (p == 0 || Opened(bones, p)) && bones[k].depth == bones[p].depth + 1
    && forall z: nat :: p < z < k ==> !Opened(bones, z)
  }

  ghost predicate Nested(bones: seq<Bone>) {
    && bones != [] && bones[0].mark == None
    && forall k: nat :: 0 < k < |bones| ==> if Opened(bones, k) then UnderLatestShallower(bones, k) else UnderLatest(bones, k)
  }

  /** Nothing opened after `k` is at its depth or above. */
  ghost predicate StillOpen(bones: seq<Bone>, k: nat)
    requires k < |bones|
  {
    forall z: nat :: k < z && Opened(bones, z) ==> bones[z].depth > bones[k].depth
  }

  /** The stack is the root and the opened clauses that nothing has closed, oldest first. */
  ghost predicate StackOf(bones: seq<Bone>, stack: seq<nat>) {
    && stack != [] && stack[0] == 0
    && (forall j :: 0 < j < |stack| ==> Opened(bones, stack[j]) && StillOpen(bones, stack[j]))
    && (forall i, j :: 0 <= i < j < |stack| ==> stack[i] < stack[j])
    && (forall k: nat :: Opened(bones, k) && StillOpen(bones, k) ==> k in stack)
  }

  ghost predicate Nests(b: State) {
    Shaped(b) && Nested(Bones(b.nodes)) && StackOf(Bones(b.nodes), b.stack)
  }

  // ----- what is after a stack entry -----

  lemma IndexIn(stack: seq<nat>, k: nat) returns (j: nat)
    requires k in stack
    ensures j < |stack| && stack[j] == k
  {
    j :| j < |stack| && stack[j] == k;
  }

  /** Everything opened after the stack's `r`-th entry is at least as deep as the entries above that one. */
  lemma {:induction false} AfterEntry(bones: seq<Bone>, stack: seq<nat>, r: nat, depth: int, z: nat)
    requires StackOf(bones, stack) && r < |stack|
    requires forall j :: r < j < |stack| ==> bones[stack[j]].depth >= depth
    requires stack[r] < z && Opened(bones, z)
    ensures bones[z].depth >= depth && r < |stack| - 1
    decreases |bones| - z
  {
    if StillOpen(bones, z) {
      var j := IndexIn(stack, z);
    } else {
      var y: nat :| z < y && Opened(bones, y) && bones[y].depth <= bones[z].depth;
      AfterEntry(bones, stack, r, depth, y);
    }
  }

  // ----- growing -----

  lemma GrowOpened(bones: seq<Bone>, bone: Bone)
    ensures forall k: nat :: Opened(bones + [bone], k) <==> Opened(bones, k) || (k == |bones| && bone.mark.Some?)
    ensures forall k: nat :: k < |bones| ==> (bones + [bone])[k] == bones[k]
  {
  }

  lemma NestedSnoc(bones: seq<Bone>, bone: Bone)
    requires Nested(bones)
    requires if bone.mark.Some? then UnderLatestShallower(bones + [bone], |bones|) else UnderLatest(bones + [bone], |bones|)
    ensures Nested(bones + [bone])
  {
    var more := bones + [bone];
    GrowOpened(bones, bone);
    forall k: nat | 0 < k < |more|
      ensures if Opened(more, k) then UnderLatestShallower(more, k) else UnderLatest(more, k)
    {
      if k < |bones| {
        assert if Opened(bones, k) then UnderLatestShallower(bones, k) else UnderLatest(bones, k);
      }
    }
  }

  /** Opening a clause at `depth` under the innermost shallower stack entry. */
  lemma OpenNests(bones: seq<Bone>, stack: seq<nat>, r: nat, bone: Bone)
    requires Nested(bones) && StackOf(bones, stack) && r < |stack|
    requires bone.mark.Some? && bone.parent == stack[r]
    requires r == 0 || bones[stack[r]].depth < bone.depth
    requires forall j :: r < j < |stack| ==> bones[stack[j]].depth >= bone.depth
    ensures Nested(bones + [bone]) && StackOf(bones + [bone], stack[..r + 1] + [|bones|])
  {
    hide Nested;
    NestedRoot(bones);
    var more, stack' := bones + [bone], stack[..r + 1] + [|bones|];
    GrowOpened(bones, bone);
    assert stack[r] < |bones|;
    forall z: nat | stack[r] < z && Opened(bones, z)
      ensures bones[z].depth >= bone.depth
    {
      AfterEntry(bones, stack, r, bone.depth, z);
    }
    NestedSnoc(bones, bone);
    OpenStack(bones, stack, r, bone);
  }

  lemma NestedRoot(bones: seq<Bone>)
    requires Nested(bones)
    ensures bones != [] && bones[0].mark == None
  {
  }

  lemma OpenStack(bones: seq<Bone>, stack: seq<nat>, r: nat, bone: Bone)
    requires StackOf(bones, stack) && r < |stack| && bone.mark.Some? && bones != []
    requires r == 0 || bones[stack[r]].depth < bone.depth
    requires forall j :: r < j < |stack| ==> bones[stack[j]].depth >= bone.depth
    ensures StackOf(bones + [bone], stack[..r + 1] + [|bones|])
  {
    hide StillOpen;
    var more, stack' := bones + [bone], stack[..r + 1] + [|bones|];
    assert forall j :: 0 <= j <= r ==> stack'[j] == stack[j];
    assert stack'[r + 1] == |bones|;
    InRange(bones, stack);
    OpenedNow(bones, bone);
    forall j | 0 < j < |stack'|
      ensures Opened(more, stack'[j]) && StillOpen(more, stack'[j])
    {
      if j <= r {
        EntryStays(bones, stack, r, bone, j);
      }
    }
    forall k: nat | Opened(more, k) && StillOpen(more, k)
      ensures k in stack'
    {
      if k == |bones| {
        assert stack'[r + 1] == k;
      } else {
        WasOpen(bones, bone, k);
        var j := IndexIn(stack, k);
        assert stack'[j] == k;
      }
    }
  }

  lemma InRange(bones: seq<Bone>, stack: seq<nat>)
    requires StackOf(bones, stack) && bones != []
    ensures forall j :: 0 <= j < |stack| ==> stack[j] < |bones|
  {
  }

  lemma OpenedNow(bones: seq<Bone>, bone: Bone)
    requires bone.mark.Some?
    ensures Opened(bones + [bone], |bones|) && StillOpen(bones + [bone], |bones|)
  {
  }

  lemma EntryStays(bones: seq<Bone>, stack: seq<nat>, r: nat, bone: Bone, j: nat)
    requires StackOf(bones, stack) && 0 < j <= r < |stack| && bones[stack[r]].depth < bone.depth
    ensures Opened(bones + [bone], stack[j]) && StillOpen(bones + [bone], stack[j])
  {
    GrowOpened(bones, bone);
    assert Opened(bones, stack[r]) && Opened(bones, stack[j]) && StillOpen(bones, stack[j]);
  }

  lemma WasOpen(bones: seq<Bone>, bone: Bone, k: nat)
    requires bone.mark.Some? && Opened(bones + [bone], k) && StillOpen(bones + [bone], k) && k != |bones|
    ensures Opened(bones, k) && StillOpen(bones, k) && bones[k].depth < bone.depth
  {
    GrowOpened(bones, bone);
    assert Opened(bones + [bone], |bones|);
  }

  /** Adding a leaf under the top of the stack. */
  lemma LeafNests(bones: seq<Bone>, stack: seq<nat>, bone: Bone)
    requires Nested(bones) && StackOf(bones, stack)
    requires bone.mark == None && bone.parent == stack[|stack| - 1] && bone.parent < |bones|
    requires bone.depth == bones[bone.parent].depth + 1
    ensures Nested(bones + [bone]) && StackOf(bones + [bone], stack)
  {
    hide Nested;
    GrowOpened(bones, bone);
    forall z: nat | bone.parent < z < |bones|
      ensures !Opened(bones, z)
    {
      if Opened(bones, z) {
        AfterEntry(bones, stack, |stack| - 1, 0, z);
      }
    }
    NestedSnoc(bones, bone);
    forall k: nat | Opened(bones + [bone], k)
      ensures StillOpen(bones + [bone], k) <==> StillOpen(bones, k)
    {
    }
  }

  // ----- the steps of the builder -----

  lemma AttachBones(nodes: seq<Node>, p: nat, n: Node)
    requires p < |nodes|
    ensures Bones(Attach(nodes, p, n)) == Bones(nodes) + [Bone(Mark(n), n.depth, p)]
  {
  }

  lemma TouchBones(nodes: seq<Node>, p: nat, n: Node)
    requires p < |nodes| && Mark(n) == Mark(nodes[p]) && n.depth == nodes[p].depth && n.parent == nodes[p].parent
    ensures Bones(nodes[p := n]) == Bones(nodes)
  {
  }

  /** `after` is `b` with the openings `os` added to what it shows. */
  ghost predicate Adds(b: State, after: State, os: seq<Opening>) {
    Nests(after) && Shown(Bones(after.nodes)) == Shown(Bones(b.nodes)) + os
  }

  lemma AddsNothing(b: State)
    requires Nests(b)
    ensures Adds(b, b, [])
  {
    assert Shown(Bones(b.nodes)) + [] == Shown(Bones(b.nodes));
  }

  lemma AddsThen(b: State, mid: State, after: State, first: seq<Opening>, second: seq<Opening>)
    requires Adds(b, mid, first) && Adds(mid, after, second)
    ensures Adds(b, after, first + second)
  {
    hide Nests;
    Associate(Shown(Bones(b.nodes)), first, second);
  }

  lemma OpenAdds(cfg: Config, b: State, depth: int, numbering: Option<string>, body: string, explicit: Option<string>)
    requires Nests(b) && ((numbering.Some? && numbering.value != "") || explicit.Some?)
    ensures Adds(b, OpenClause(cfg, b, depth, numbering, body, explicit),
                 [if numbering.Some? then Labelled(numbering.value, depth) else Titled(explicit.value, depth)])
  {
    hide Nested, StackOf, Shown, Taken, BaseSegment, Disambiguated;
    var r := ParentPosition(b, depth, |b.stack| - 1);
    var c := Popped(b, depth);
    var n := NewClause(cfg, c, depth, numbering, body, explicit);
    AttachBones(b.nodes, Top(c), n);
    OpenNests(Bones(b.nodes), b.stack, r, Bone(Mark(n), depth, Top(c)));
    ShownSnoc(Bones(b.nodes), Bone(Mark(n), depth, Top(c)));
  }

  lemma LeafAdds(b: State, body: string)
    requires Nests(b)
    ensures Adds(b, AddLeaf(b, body), [])
  {
    hide Nested, StackOf, Shown;
    var n := NewLeaf(b, body);
    AttachBones(b.nodes, Top(b), n);
    LeafNests(Bones(b.nodes), b.stack, Bone(None, n.depth, Top(b)));
    ShownSnoc(Bones(b.nodes), Bone(None, n.depth, Top(b)));
  }

  lemma TitleAdds(b: State, text: string)
    requires Nests(b)
    ensures Adds(b, AbsorbTitle(b, text), [])
  {
    hide Nested, Shown;
    var p := Top(b);
    AddsNothing(b);
    if p != 0 && b.nodes[p].heading.None? {
      assert Opened(Bones(b.nodes), p);
      TouchBones(b.nodes, p, b.nodes[p].(heading := Some(text)));
    }
  }

  lemma LooseAdds(b: State, text: string)
    requires Nests(b)
    ensures Adds(b, AddLoose(b, text), [])
  {
    hide Nested, StackOf, Shown, Strip;
    AddsNothing(b);
    TouchBones(b.nodes, Top(b), b.nodes[Top(b)].(parts := b.nodes[Top(b)].parts + [Strip(text)]));
  }

  lemma {:induction false} MatchesAdd(cfg: Config, b: State, text: string, ms: seq<Match>, k: nat)
    requires Nests(b) && UsableScan(cfg, text, ms) && k <= |ms|
    ensures Adds(b, OpenFrom(cfg, b, text, ms, k), LabelsOf(cfg, text, ms)[k..])
    decreases |ms| - k
  {
    hide Nests, Shown, Strip, OpenClause;
    if k == |ms| {
      AddsNothing(b);
    } else {
      NestsShaped(b);
      var next := OpenMatch(cfg, b, text, ms, k);
      OpenAdds(cfg, b, cfg.patterns[ms[k].which].depth, Some(Strip(text[ms[k].start..ms[k].end])),
               Strip(text[ms[k].end..NextStart(text, ms, k)]), None);
      MatchesAdd(cfg, next, text, ms, k + 1);
      AddsThen(b, next, OpenFrom(cfg, next, text, ms, k + 1), [LabelsOf(cfg, text, ms)[k]], LabelsOf(cfg, text, ms)[k + 1..]);
      assert [LabelsOf(cfg, text, ms)[k]] + LabelsOf(cfg, text, ms)[k + 1..] == LabelsOf(cfg, text, ms)[k..];
    }
  }

  lemma ParagraphAdds(cfg: Config, b: State, text: string, bold: seq<(nat, nat)>)
    requires ValidConfig(cfg) && Nests(b)
    ensures Adds(b, ConsumeParagraph(cfg, b, text, bold), OpeningsOf(cfg, Paragraph(text, bold)))
  {
    hide Nests, Adds, ScanOf, BoldOnly, Strip, AddLeaf, OpenFrom, LabelsOf, UsableScan;
    NestsShaped(b);
    var ms := ScanOf(text, cfg.patterns, 0);
    ScanUsable(cfg, text);
    AddsNothing(b);
    if !cfg.ignored(Strip(text)) {
      if ms == [] {
        NoLabels(cfg, text);
        TitleAdds(b, Strip(text));
        LeafAdds(b, Strip(text));
      } else {
        var prefix := Strip(text[..ms[0].start]);
        LeafAdds(b, prefix);
        var mid := PrefixLeaf(b, text, ms[0].start);
        AddsNests(b, mid, []);
        MatchesAdd(cfg, mid, text, ms, 0);
        AddsThen(b, mid, OpenFrom(cfg, mid, text, ms, 0), [], LabelsOf(cfg, text, ms)[0..]);
        assert [] + LabelsOf(cfg, text, ms)[0..] == LabelsOf(cfg, text, ms);
      }
    }
  }

  lemma NoLabels(cfg: Config, text: string)
    requires UsableScan(cfg, text, [])
    ensures LabelsOf(cfg, text, []) == []
  {
  }

  lemma NestsShaped(b: State)
    requires Nests(b)
    ensures Shaped(b)
  {
  }

  lemma AddsNests(b: State, after: State, os: seq<Opening>)
    requires Adds(b, after, os)
    ensures Nests(after)
  {
  }

  lemma BlockAdds(cfg: Config, b: State, block: Block)
    requires ValidConfig(cfg) && Nests(b)
    ensures Adds(b, Consume(cfg, b, block), OpeningsOf(cfg, block))
  {
    hide Nests, Adds, ScanOf, BoldOnly, Strip, AddLoose, OpenClause, ConsumeParagraph, LabelsOf, UsableScan;
    NestsShaped(b);
    AddsNothing(b);
    match block
    case Paragraph(text, bold) => ParagraphAdds(cfg, b, text, bold);
    case Heading(level, title) =>
      if Strip(title) != "" {
        var d := level + cfg.headingOffset;
        OpenAdds(cfg, b, if d < 1 then 1 else d, None, "", Some(Strip(title)));
      }
    case Loose(content) => LooseAdds(b, content);
  }

  lemma {:induction false} BuiltShows(cfg: Config, blocks: seq<Block>)
    requires ValidConfig(cfg)
    ensures Nests(Built(cfg, blocks)) && Shown(Bones(Built(cfg, blocks).nodes)) == OutlineOf(cfg, blocks)
  {
    hide Nests, Consume, OpeningsOf;
    if blocks == [] {
      NothingShown();
    } else {
      var front, last := blocks[..|blocks| - 1], blocks[|blocks| - 1];
      BuiltShows(cfg, front);
      BlockAdds(cfg, Built(cfg, front), last);
    }
  }

  lemma NothingShown()
    ensures Nests(INITIAL) && Shown(Bones(INITIAL.nodes)) == []
  {
    assert Bones(INITIAL.nodes) == [Bone(None, 0, 0)];
    assert [Bone(None, 0, 0)][..0] == [];
  }

  /** The outline theorem. The clauses the builder opens are those the document's blocks open, with their
      labels or titles and depths, in order; each hangs below the latest earlier one of smaller depth,
      or below the root; and every other clause is a leaf, one level below the clause opened last. */
  lemma BuiltOutline(cfg: Config, blocks: seq<Block>)
    requires ValidConfig(cfg)
    ensures var bones := Bones(Built(cfg, blocks).nodes);
      && Shown(bones) == OutlineOf(cfg, blocks)
      && bones != [] && bones[0].mark == None
      && forall k: nat :: 0 < k < |bones| ==> if Opened(bones, k) then UnderLatestShallower(bones, k) else UnderLatest(bones, k)
  {
    hide Built, OutlineOf, Shown;
    BuiltShows(cfg, blocks);
  }

  // ----- the segments -----

  /** The older children of the parent of `k`. */
  ghost function OlderSiblings(nodes: seq<Node>, k: nat): set<nat>
    requires k < |nodes|
  {
    set j: nat | 0 < j < k && nodes[j].parent == nodes[k].parent
  }

  ghost function SegmentsOf(nodes: seq<Node>, js: set<nat>): set<string>
    requires forall j :: j in js ==> j < |nodes|
  {
    set j | j in js :: LastSegment(nodes[j].path)
  }

  /** The segment for an opening, or for a leaf, given the segments of the older siblings and its own
      ordinal among them. */
  function SegmentFor(cfg: Config, mark: Option<Opening>, taken: set<string>, ordinal: nat): string {
    if mark.None? then "#" + Decimal(ordinal) else
      match mark.value
      case Labelled(numbering, _) => Disambiguated(numbering, taken)
      case Titled(title, _) =>
        var slug := Slugify(cfg.isWord, cfg.lower, title);
        Disambiguated(if slug == "" then "#" + Decimal(ordinal) else slug, taken)
  }

  /** The path of `k` is its parent's, extended by the segment its opening and its older siblings call for. */
  ghost predicate NamedRight(cfg: Config, nodes: seq<Node>, k: nat)
    requires k < |nodes|
  {
    var p, older := nodes[k].parent, OlderSiblings(nodes, k);
    p < k && nodes[k].path == nodes[p].path + [SegmentFor(cfg, Mark(nodes[k]), SegmentsOf(nodes, older), |older| + 1)]
  }

  ghost function ChildrenOf(nodes: seq<Node>, p: nat): set<nat> {
    set j: nat | 0 < j < |nodes| && nodes[j].parent == p
  }

  /** Child lists are as long as there are children. */
  ghost predicate Counted(nodes: seq<Node>) {
    forall p: nat :: p < |nodes| ==> |nodes[p].children| == |ChildrenOf(nodes, p)|
  }

  ghost predicate AllNamed(cfg: Config, nodes: seq<Node>) {
    forall k: nat :: 0 < k < |nodes| ==> NamedRight(cfg, nodes, k)
  }

  ghost predicate Named(cfg: Config, nodes: seq<Node>) {
    Linked(nodes) && Counted(nodes) && AllNamed(cfg, nodes)
  }

  /** Nodes that agree in what names depend on. */
  ghost predicate SameNames(nodes: seq<Node>, other: seq<Node>) {
    && |nodes| <= |other|
    && forall k :: 0 <= k < |nodes| ==>
         other[k].path == nodes[k].path && other[k].parent == nodes[k].parent && Mark(other[k]) == Mark(nodes[k])
  }

  lemma NamedFrame(cfg: Config, nodes: seq<Node>, other: seq<Node>, k: nat)
    requires SameNames(nodes, other) && 0 < k < |nodes| && NamedRight(cfg, nodes, k)
    ensures NamedRight(cfg, other, k)
  {
    hide SegmentFor, Mark;
    assert OlderSiblings(other, k) == OlderSiblings(nodes, k);
    assert SegmentsOf(other, OlderSiblings(nodes, k)) == SegmentsOf(nodes, OlderSiblings(nodes, k));
  }

  /** What the builder's list of children of `p` holds, in terms of parents. */
  lemma TakenIs(nodes: seq<Node>, p: nat)
    requires Linked(nodes) && p < |nodes|
    ensures forall k :: 0 <= k < |nodes[p].children| ==> nodes[p].children[k] < |nodes|
    ensures Taken(nodes, p) == SegmentsOf(nodes, ChildrenOf(nodes, p))
  {
    hide LastSegment;
    var cs := nodes[p].children;
    forall c | c in ChildrenOf(nodes, p)
      ensures LastSegment(nodes[c].path) in Taken(nodes, p)
    {
      assert Hangs(nodes, c);
      var k :| 0 <= k < |cs| && cs[k] == c;
    }
    forall k | 0 <= k < |cs|
      ensures cs[k] in ChildrenOf(nodes, p)
    {
    }
  }

  lemma ChildrenAttach(nodes: seq<Node>, p: nat, n: Node, q: nat)
    requires p < |nodes| && forall j: nat :: 0 < j < |nodes| ==> nodes[j].parent < |nodes|
    ensures ChildrenOf(Attach(nodes, p, n), q) ==
      if q == p then ChildrenOf(nodes, p) + {|nodes|} else if q == |nodes| then {} else ChildrenOf(nodes, q)
  {
    var g := Attach(nodes, p, n);
    assert forall j :: 0 <= j < |nodes| ==> g[j].parent == nodes[j].parent;
    assert g[|nodes|].parent == p;
  }

  lemma CountedAttach(nodes: seq<Node>, p: nat, n: Node)
    requires Counted(nodes) && p < |nodes| && n.children == []
    requires forall j: nat :: 0 < j < |nodes| ==> nodes[j].parent < |nodes|
    ensures Counted(Attach(nodes, p, n))
  {
    var g, id := Attach(nodes, p, n), |nodes|;
    assert id !in ChildrenOf(nodes, p);
    hide ChildrenOf;
    forall q: nat | q < |g|
      ensures |g[q].children| == |ChildrenOf(g, q)|
    {
      ChildrenAttach(nodes, p, n, q);
    }
  }

  lemma ParentsOlder(nodes: seq<Node>)
    requires Linked(nodes)
    ensures forall j: nat :: 0 < j < |nodes| ==> nodes[j].parent < j
  {
    forall j: nat | 0 < j < |nodes|
      ensures nodes[j].parent < j
    {
      assert Hangs(nodes, j);
    }
  }

  /** Attaching a child with the right segment keeps every name right. */
  lemma AttachNamed(cfg: Config, nodes: seq<Node>, p: nat, n: Node, segment: string)
    requires Named(cfg, nodes) && p < |nodes| && ExtendsPath(nodes, p, n, segment)
    requires segment == SegmentFor(cfg, Mark(n), Taken(nodes, p), |nodes[p].children| + 1)
    ensures Named(cfg, Attach(nodes, p, n))
  {
    hide SegmentFor, Mark, Taken, Linked, Counted, SameNames, NamedRight, Attach;
    var g := Attach(nodes, p, n);
    AttachLinked(nodes, p, n, segment);
    ParentsOlder(nodes);
    CountedAttach(nodes, p, n);
    AttachSame(nodes, p, n);
    NewNamed(cfg, nodes, p, n, segment);
    forall k: nat | 0 < k < |g|
      ensures NamedRight(cfg, g, k)
    {
      if k < |nodes| {
        NamedFrame(cfg, nodes, g, k);
      }
    }
  }

  lemma NewNamed(cfg: Config, nodes: seq<Node>, p: nat, n: Node, segment: string)
    requires Linked(nodes) && Counted(nodes) && p < |nodes| && ExtendsPath(nodes, p, n, segment)
    requires segment == SegmentFor(cfg, Mark(n), Taken(nodes, p), |nodes[p].children| + 1)
    ensures NamedRight(cfg, Attach(nodes, p, n), |nodes|)
  {
    hide SegmentFor, Mark, Linked, Taken, ChildrenOf, OlderSiblings, SegmentsOf;
    TakenIs(nodes, p);
    NewSiblings(nodes, p, n);
  }

  lemma NewSiblings(nodes: seq<Node>, p: nat, n: Node)
    requires p < |nodes|
    ensures OlderSiblings(Attach(nodes, p, n), |nodes|) == ChildrenOf(nodes, p)
    ensures SegmentsOf(Attach(nodes, p, n), ChildrenOf(nodes, p)) == SegmentsOf(nodes, ChildrenOf(nodes, p))
  {
    hide LastSegment;
    var g := Attach(nodes, p, n);
    assert forall j :: 0 <= j < |nodes| ==> g[j].parent == nodes[j].parent && g[j].path == nodes[j].path;
    assert g[|nodes|].parent == p;
  }

  lemma AttachSame(nodes: seq<Node>, p: nat, n: Node)
    requires p < |nodes|
    ensures SameNames(nodes, Attach(nodes, p, n)) && |Attach(nodes, p, n)| == |nodes| + 1
  {
  }

  /** Changing the heading or the parts of a clause keeps every name right when what it shows stays. */
  lemma TouchNamed(cfg: Config, nodes: seq<Node>, p: nat, n: Node)
    requires Named(cfg, nodes) && p < |nodes| && Mark(n) == Mark(nodes[p])
    requires n.path == nodes[p].path && n.children == nodes[p].children && n.parent == nodes[p].parent
    ensures Named(cfg, nodes[p := n])
  {
    hide Mark, Linked, NamedRight;
    var g := nodes[p := n];
    TouchLinked(nodes, p, n);
    assert SameNames(nodes, g);
    forall k: nat | 0 < k < |g|
      ensures NamedRight(cfg, g, k)
    {
      NamedFrame(cfg, nodes, g, k);
    }
    forall q: nat | q < |g|
      ensures |g[q].children| == |ChildrenOf(g, q)|
    {
      assert ChildrenOf(g, q) == ChildrenOf(nodes, q);
    }
  }

  lemma OpenNamed(cfg: Config, b: State, depth: int, numbering: Option<string>, body: string, explicit: Option<string>)
    requires Shaped(b) && Named(cfg, b.nodes)
    requires if numbering.Some? then numbering.value != "" else explicit.Some?
    ensures Named(cfg, OpenClause(cfg, b, depth, numbering, body, explicit).nodes)
  {
    hide Named, Taken, Disambiguated, Slugify, Decimal;
    var c := Popped(b, depth);
    var n := NewClause(cfg, c, depth, numbering, body, explicit);
    AttachNamed(cfg, b.nodes, Top(c), n, SegmentFor(cfg, Mark(n), Taken(b.nodes, Top(c)), |b.nodes[Top(c)].children| + 1));
  }

  lemma LeafNamed(cfg: Config, b: State, body: string)
    requires Shaped(b) && Named(cfg, b.nodes)
    ensures Named(cfg, AddLeaf(b, body).nodes)
  {
    hide Named, Taken, Decimal;
    AttachNamed(cfg, b.nodes, Top(b), NewLeaf(b, body), Ordinal(|b.nodes[Top(b)].children| + 1));
  }

  /** The builder state shows the right nesting and carries the right names. */
  ghost predicate Right(cfg: Config, b: State) {
    Nests(b) && Named(cfg, b.nodes)
  }

  lemma TitleNamed(cfg: Config, b: State, text: string)
    requires Right(cfg, b)
    ensures Named(cfg, AbsorbTitle(b, text).nodes)
  {
    hide Named, Nested;
    var p := Top(b);
    if p != 0 && b.nodes[p].heading.None? {
      assert Opened(Bones(b.nodes), p);
      TouchNamed(cfg, b.nodes, p, b.nodes[p].(heading := Some(text)));
    }
  }

  lemma LooseNamed(cfg: Config, b: State, text: string)
    requires Shaped(b) && Named(cfg, b.nodes)
    ensures Named(cfg, AddLoose(b, text).nodes)
  {
    hide Named, Strip;
    TouchNamed(cfg, b.nodes, Top(b), b.nodes[Top(b)].(parts := b.nodes[Top(b)].parts + [Strip(text)]));
  }

  lemma {:induction false} MatchesNamed(cfg: Config, b: State, text: string, ms: seq<Match>, k: nat)
    requires Shaped(b) && Named(cfg, b.nodes) && UsableScan(cfg, text, ms) && k <= |ms|
    ensures Named(cfg, OpenFrom(cfg, b, text, ms, k).nodes)
    decreases |ms| - k
  {
    hide Named, Strip, OpenClause;
    if k < |ms| {
      StripOfNothing(text);
      OpenNamed(cfg, b, cfg.patterns[ms[k].which].depth, Some(Strip(text[ms[k].start..ms[k].end])),
                Strip(text[ms[k].end..NextStart(text, ms, k)]), None);
      MatchesNamed(cfg, OpenMatch(cfg, b, text, ms, k), text, ms, k + 1);
    }
  }

  lemma BlockNamed(cfg: Config, b: State, block: Block)
    requires ValidConfig(cfg) && Right(cfg, b)
    ensures Named(cfg, Consume(cfg, b, block).nodes)
  {
    hide Named, Nested, StackOf, ScanOf, BoldOnly, Strip, AddLeaf, AddLoose, AbsorbTitle, OpenFrom, OpenClause, UsableScan;
    match block
    case Paragraph(text, bold) =>
      var ms := ScanOf(text, cfg.patterns, 0);
      ScanUsable(cfg, text);
      TitleNamed(cfg, b, Strip(text));
      LeafNamed(cfg, b, Strip(text));
      if ms != [] {
        LeafNamed(cfg, b, Strip(text[..ms[0].start]));
        MatchesNamed(cfg, PrefixLeaf(b, text, ms[0].start), text, ms, 0);
      }
    case Heading(level, title) =>
      if Strip(title) != "" {
        var d := level + cfg.headingOffset;
        OpenNamed(cfg, b, if d < 1 then 1 else d, None, "", Some(Strip(title)));
      }
    case Loose(content) => LooseNamed(cfg, b, content);
  }

  lemma {:induction false} BuiltRight(cfg: Config, blocks: seq<Block>)
    requires ValidConfig(cfg)
    ensures Right(cfg, Built(cfg, blocks))
  {
    hide Nests, Named, Consume, OpeningsOf, Shown;
    BuiltShows(cfg, blocks);
    if blocks == [] {
      NothingNamed(cfg);
    } else {
      var front, last := blocks[..|blocks| - 1], blocks[|blocks| - 1];
      BuiltRight(cfg, front);
      BlockNamed(cfg, Built(cfg, front), last);
    }
  }

  lemma NothingNamed(cfg: Config)
    ensures Named(cfg, INITIAL.nodes)
  {
    assert ChildrenOf(INITIAL.nodes, 0) == {};
  }

  /** How every clause gets its path: its parent's path and one segment. The segment of a labelled clause is
      the label and that of a titled one the slug of the title, made free among the segments of its older
      siblings; a leaf, and a title without a slug, count their older siblings instead. */
  lemma BuiltNames(cfg: Config, blocks: seq<Block>)
    requires ValidConfig(cfg)
    ensures var nodes := Built(cfg, blocks).nodes;
      && nodes != [] && nodes[0].path == []
      && forall k: nat :: 0 < k < |nodes| ==> NamedRight(cfg, nodes, k)
  {
    hide Built, NamedRight, Counted;
    BuiltRight(cfg, blocks);
  }
}
