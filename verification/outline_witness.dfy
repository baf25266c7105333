/** A section after a part, under the default configuration: the section lies below the part. */
module OutlineWitness {
  import opened Prelude
  import opened Text
  import opened Clauses
  import opened Matching
  import opened Builder
  import opened Parser
  import opened DefaultPatterns
  import opened Outline

  /** A part paragraph, then a section paragraph. */
  function PartThenSection(word: string, number: string, title: string, body: string): seq<Block> {
    [Paragraph(PartLabel(word) + " " + title, []), Paragraph(SectionLabel(number) + " " + body, [])]
  }

  lemma TwoShown(bones: seq<Bone>, first: Opening, second: Opening)
    requires |bones| == 3 && bones[0].mark == None && Shown(bones) == [first, second]
    ensures bones[1].mark == Some(first) && bones[2].mark == Some(second)
  {
    assert bones[..1][..0] == [] && bones[..2][..1] == bones[..1];
    ShownOne(bones[..1]);
    ShownOne(bones[..2]);
    ShownOne(bones);
    assert Shown([]) == [];
    assert [first, second][0] == first && [first, second][1] == second;
  }

  lemma ShownOne(bones: seq<Bone>)
    requires bones != []
    ensures Shown(bones) == Shown(bones[..|bones| - 1]) + if bones[|bones| - 1].mark.Some? then [bones[|bones| - 1].mark.value] else []
  {
  }

  /** A first clause hangs below the root; a second one that is deeper hangs below the first. */
  lemma TwoNested(bones: seq<Bone>)
    requires |bones| == 3 && Opened(bones, 1) && Opened(bones, 2) && bones[1].depth < bones[2].depth
    requires UnderLatestShallower(bones, 1) && UnderLatestShallower(bones, 2)
    ensures bones[1].parent == 0 && bones[2].parent == 1
  {
  }

  lemma OnlyChildPath(cfg: Config, nodes: seq<Node>, k: nat, numbering: string, depth: int)
    requires 0 < k < |nodes| && NamedRight(cfg, nodes, k) && Mark(nodes[k]) == Some(Labelled(numbering, depth))
    requires forall j: nat :: 0 < j < k ==> nodes[j].parent != nodes[k].parent
    ensures nodes[k].path == nodes[nodes[k].parent].path + [numbering]
  {
    assert OlderSiblings(nodes, k) == {};
    assert SegmentsOf(nodes, {}) == {};
  }

  lemma LabelsNotEmpty(word: string, number: string)
    ensures PartLabel(word) != "" && SectionLabel(number) != ""
  {
  }

  /** The section's clause is a child of the part's, and its path is the part's path and its own label. */
  lemma SectionInPart(digit: char -> bool, isWord: char -> bool, lower: string -> string, word: string, number: string,
                      title: string, body: string)
    requires PlainDigits(digit) && word != "" && NoSpace(word)
    requires number != "" && NoSpace(number) && AllDigits(digit, number)
    requires title != "" && NoSpace(title) && Quiet(digit, title)
    requires body != "" && NoSpace(body) && Quiet(digit, body)
    ensures var cfg := DefaultConfig(digit, isWord, lower);
      && ValidConfig(cfg)
      && var nodes := Built(cfg, PartThenSection(word, number, title, body)).nodes;
      && |nodes| == 3 && nodes[1].parent == 0 && nodes[2].parent == 1
      && nodes[1].path == [PartLabel(word)] && nodes[2].path == [PartLabel(word), SectionLabel(number)]
  {
    hide Consume, OpenClause, Defaults, UnderLatest, UnderLatestShallower, Strip, PartLabel, SectionLabel, Shown, NamedRight, Nests;
    var cfg := DefaultConfig(digit, isWord, lower);
    DefaultValid(digit, isWord, lower);
    var blocks := PartThenSection(word, number, title, body);
    var b0, b1 := Built(cfg, blocks[..0]), Built(cfg, blocks[..1]);
    var b2 := Built(cfg, blocks);
    assert blocks[..1][..0] == blocks[..0] == [];
    PartParagraph(digit, isWord, lower, b0, word, title, []);
    SectionParagraph(digit, isWord, lower, b1, number, body, []);
    BuiltShows(cfg, blocks[..0]);
    LabelsNotEmpty(word, number);
    OpenAdds(cfg, b0, 1, Some(PartLabel(word)), title, None);
    OpenAdds(cfg, b1, 4, Some(SectionLabel(number)), body, None);
    var bones, first, second := Bones(b2.nodes), Labelled(PartLabel(word), 1), Labelled(SectionLabel(number), 4);
    assert Shown(bones) == [] + [first] + [second] == [first, second];
    BuiltOutline(cfg, blocks);
    TwoShown(bones, first, second);
    TwoNested(bones);
    BuiltNames(cfg, blocks);
    OnlyChildPath(cfg, b2.nodes, 1, PartLabel(word), 1);
    OnlyChildPath(cfg, b2.nodes, 2, SectionLabel(number), 4);
  }
}
