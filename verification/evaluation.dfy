/** Evaluating the builder step by step on a concrete document. */
module Evaluation {
  import opened Prelude
  import opened Text
  import opened Clauses
  import opened Builder
  import opened DefaultPatterns
  import opened Rows

  lemma FirstChild(r: Node, n: Node)
    requires r.children == [] && n.children == [] && n.parent == 0
    ensures Attach([r], 0, n) == [r.(children := [1]), n]
  {
    assert r.children + [1] == [1] && n.(children := [], parent := 0) == n;
  }

  lemma SecondChild(r: Node, m: Node, n: Node)
    requires r.children == [1] && n.children == [] && n.parent == 0
    ensures Attach([r, m], 0, n) == [r.(children := [1, 2]), m, n]
  {
    assert r.children + [2] == [1, 2] && n.(children := [], parent := 0) == n;
  }

  lemma ChildOfThird(r: Node, m: Node, q: Node, n: Node)
    requires q.children == [] && n.children == [] && n.parent == 2
    ensures Attach([r, m, q], 2, n) == [r, m, q.(children := [3]), n]
  {
    assert q.children + [3] == [3] && n.(children := [], parent := 2) == n;
  }

  /** A label that no sibling uses becomes the segment; a waiting title becomes the heading. */
  lemma LabelledClause(cfg: Config, b: State, depth: int, name: string, body: string)
    requires Shaped(b) && name != "" && body != "" && name !in Taken(b.nodes, Top(b))
    ensures NewClause(cfg, b, depth, Some(name), body, None)
      == Node(depth, b.nodes[Top(b)].path + [name], b.pending, [body], Some(name), [], Top(b))
  {
  }

  lemma LabelNotEmpty(word: string)
    ensures PartLabel(word) != ""
  {
  }

  lemma LabelsDiffer(a: string, b: string)
    requires a != b
    ensures PartLabel(a) != PartLabel(b)
  {
    assert PartLabel(a)[|CAST| + 1..] == a && PartLabel(b)[|CAST| + 1..] == b;
  }

  lemma BuiltTwo(cfg: Config, x: Block, y: Block)
    requires ValidConfig(cfg)
    ensures Built(cfg, [x, y]) == Consume(cfg, Consume(cfg, INITIAL, x), y)
  {
    hide Consume, ValidConfig;
    assert [x, y][..1] == [x] && [x][..0] == [];
    assert Built(cfg, [x]) == Consume(cfg, INITIAL, x);
  }

  lemma BuiltThree(cfg: Config, x: Block, y: Block, z: Block)
    requires ValidConfig(cfg)
    ensures Built(cfg, [x, y, z]) == Consume(cfg, Consume(cfg, Consume(cfg, INITIAL, x), y), z)
  {
    hide Consume, ValidConfig;
    assert [x, y, z][..2] == [x, y] && [x, y][..1] == [x] && [x][..0] == [];
    assert Built(cfg, [x]) == Consume(cfg, INITIAL, x);
    assert Built(cfg, [x, y]) == Consume(cfg, Built(cfg, [x]), y);
  }

  lemma HasBody(c: Clause)
    requires Strip(c.body) != ""
    ensures Persistable(c)
  {
  }

  lemma HasTitle(c: Clause)
    requires c.heading.Some? && Strip(c.heading.value) != ""
    ensures Persistable(c)
  {
  }

  lemma BodyOfOne(s: string)
    requires s != "" && NoSpace(s)
    ensures BodyOf([s]) == s && Strip(s) == s
  {
    StripTight(s);
    assert [s][1..] == [] && Trimmed([s]) == [s] + Trimmed([]);
  }
}
