/** Change events, the validator that guards their construction, and what a list of events
    takes away from and adds to a version's contents. */
module Events {
  import opened Prelude
  import opened Clauses

  datatype ChangeType = Added | Removed | Modified | Moved

  datatype ChangeEvent = ChangeEvent(
    kind: ChangeType,
    beforePath: Option<Path>,
    afterPath: Option<Path>,
    beforeText: Option<string>,
    afterText: Option<string>,
    conf: real)

  /** The construction-time validator: which fields each change type carries, and a confidence
      in (0, 1]. */
  predicate Valid(e: ChangeEvent) {
    && 0.0 < e.conf <= 1.0
    && match e.kind
       case Added => e.beforePath.None? && e.beforeText.None? && e.afterPath.Some? && e.afterText.Some?
       case Removed => e.afterPath.None? && e.afterText.None? && e.beforePath.Some? && e.beforeText.Some?
       case Moved =>
         && e.beforePath.Some? && e.afterPath.Some? && e.beforeText.Some? && e.afterText.Some?
         && e.beforeText == e.afterText && e.beforePath != e.afterPath
       case Modified =>
         && e.beforePath.Some? && e.afterPath.Some? && e.beforeText.Some? && e.afterText.Some?
         && e.beforeText != e.afterText
  }

  predicate AllValid(es: seq<ChangeEvent>) {
    forall k :: 0 <= k < |es| ==> Valid(es[k])
  }

  /** A (name, text) entry, or nothing when the event lacks that side. */
  ghost function Side<T>(path: Option<Path>, text: Option<string>, name: Path -> T): multiset<(T, string)> {
    if path.Some? && text.Some? then multiset{(name(path.value), text.value)} else multiset{}
  }

  /** All before sides of `es`, with every path turned into a name. */
  ghost function Befores<T>(es: seq<ChangeEvent>, name: Path -> T): multiset<(T, string)> {
    if es == [] then multiset{}
    else Side(es[0].beforePath, es[0].beforeText, name) + Befores(es[1..], name)
  }

  /** All after sides of `es`, with every path turned into a name. */
  ghost function Afters<T>(es: seq<ChangeEvent>, name: Path -> T): multiset<(T, string)> {
    if es == [] then multiset{}
    else Side(es[0].afterPath, es[0].afterText, name) + Afters(es[1..], name)
  }

  lemma {:induction false} SidesConcat<T>(a: seq<ChangeEvent>, b: seq<ChangeEvent>, name: Path -> T)
    ensures Befores(a + b, name) == Befores(a, name) + Befores(b, name)
    ensures Afters(a + b, name) == Afters(a, name) + Afters(b, name)
  {
    if a == [] {
      assert a + b == b;
    } else {
      assert (a + b)[1..] == a[1..] + b;
      SidesConcat(a[1..], b, name);
    }
  }

  lemma SidesSingle<T>(e: ChangeEvent, name: Path -> T)
    ensures Befores([e], name) == Side(e.beforePath, e.beforeText, name)
    ensures Afters([e], name) == Side(e.afterPath, e.afterText, name)
  {
    assert [e][1..] == [];
  }
}
