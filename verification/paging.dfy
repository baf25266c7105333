/** Keyset pagination over the change events: opaque cursors, one page, and walks that follow the
    cursors while rows are appended. */
module Paging {
  import opened Prelude
  import opened Base64Url

  const MAX_LIMIT: nat := 200

  /** The columns that scopes and ordering read; `payload` stands for the rest of the row. */
  datatype Event = Event(
    id: nat,
    detectedAt: int,
    document: nat,
    jurisdiction: string,
    sector: string,
    beforeUid: Option<nat>,
    afterUid: Option<nat>,
    payload: string)

  datatype Scope =
    | Corpus(jurisdiction: Option<string>, sector: Option<string>, since: Option<int>, until: Option<int>)
    | Document(document: nat)
    | OneClause(uid: nat, within: Option<nat>)

  /** The keyset position of a row. */
  datatype Key = Key(detectedAt: int, id: nat)

  function KeyOf(e: Event): Key {
    Key(e.detectedAt, e.id)
  }

  /** The strict tuple order that the cursor predicate spells out. */
  predicate Earlier(a: Key, b: Key) {
    a.detectedAt < b.detectedAt || (a.detectedAt == b.detectedAt && a.id < b.id)
  }

  predicate InScope(scope: Scope, e: Event) {
    match scope
    case Corpus(jurisdiction, sector, since, until) =>
      && (jurisdiction.Some? ==> e.jurisdiction == jurisdiction.value)
      && (sector.Some? ==> e.sector == sector.value)
      && (since.Some? ==> e.detectedAt >= since.value)
      && (until.Some? ==> e.detectedAt < until.value)
    case Document(document) => e.document == document
    case OneClause(uid, within) =>
      && (e.beforeUid == Some(uid) || e.afterUid == Some(uid))
      && (within.Some? ==> e.document == within.value)
  }

  /** Below the cursor, if there is one. */
  predicate BelowCursor(cursor: Option<Key>, e: Event) {
    cursor.Some? ==> Earlier(KeyOf(e), cursor.value)
  }

  predicate Selected(scope: Scope, cursor: Option<Key>, e: Event) {
    InScope(scope, e) && BelowCursor(cursor, e)
  }

  // ----- cursors -----

  /** The cursor payload as bytes: JSON of an ISO timestamp and an id, which the model does not look
      into. */
  datatype Codec = Codec(dump: Key -> seq<Byte>, load: seq<Byte> -> Option<Key>)

  ghost predicate ValidCodec(c: Codec) {
    forall k :: c.load(c.dump(k)) == Some(k)
  }

  function EncodeCursor(c: Codec, k: Key): string {
    StripPadding(Encode(c.dump(k)))
  }

  function DecodeCursor(c: Codec, cursor: string): Option<Key> {
    match Decode(RestorePadding(cursor))
    case None => None
    case Some(raw) => c.load(raw)
  }

  /** Decoding an encoded cursor gives it back. */
  lemma CursorRoundTrip(c: Codec, k: Key)
    requires ValidCodec(c)
    ensures DecodeCursor(c, EncodeCursor(c, k)) == Some(k)
  {
    hide Encode, Decode, StripPadding, RestorePadding;
    RoundTrip(c.dump(k));
  }

  // ----- the ordered query -----

  predicate Descending(es: seq<Event>) {
    forall j, k :: 0 <= j < k < |es| ==> Earlier(KeyOf(es[k]), KeyOf(es[j]))
  }

  /** Ids are the primary key. */
  predicate UniqueIds(table: seq<Event>) {
    forall j, k :: 0 <= j < k < |table| ==> table[j].id != table[k].id
  }

  function Insert(e: Event, es: seq<Event>): (r: seq<Event>)
    requires Descending(es) && forall x :: x in es ==> x.id != e.id
    ensures Descending(r)
    ensures forall x :: x in r <==> x == e || x in es
  {
    if es == [] then [e]
    else if Earlier(KeyOf(es[0]), KeyOf(e)) then [e] + es
    else
      assert es == [es[0]] + es[1..];
      assert es[0] in es;
      var rest := Insert(e, es[1..]);
      assert forall x :: x in rest ==> Earlier(KeyOf(x), KeyOf(es[0]));
      [es[0]] + rest
  }

  /** The selected rows of the table, newest first. */
  function Query(table: seq<Event>, scope: Scope, cursor: Option<Key>): (r: seq<Event>)
    requires UniqueIds(table)
    ensures Descending(r)
    ensures forall x :: x in r <==> x in table && Selected(scope, cursor, x)
  {
    if table == [] then [] else
      var n := |table| - 1;
      var rest := Query(table[..n], scope, cursor);
      if Selected(scope, cursor, table[n]) then Insert(table[n], rest) else rest
  }

  /** The order of the answer: later detection first, and of two rows detected at one instant the one with
      the larger id. */
  lemma NewestFirst(table: seq<Event>, scope: Scope, cursor: Option<Key>, j: nat, k: nat)
    requires UniqueIds(table) && j < k < |Query(table, scope, cursor)|
    ensures var rows := Query(table, scope, cursor);
      rows[j].detectedAt > rows[k].detectedAt || (rows[j].detectedAt == rows[k].detectedAt && rows[j].id > rows[k].id)
  {
    hide Query;
  }

  /** The rows below a cursor are those a page that ends at that position has not reached. */
  lemma BelowIff(table: seq<Event>, scope: Scope, key: Key, e: Event)
    requires UniqueIds(table)
    ensures e in Query(table, scope, Some(key)) <==>
      && e in Query(table, scope, None)
      && (e.detectedAt < key.detectedAt || (e.detectedAt == key.detectedAt && e.id < key.id))
  {
    hide Query, InScope;
  }

  // ----- scopes -----

  /** Under the clause scope a row is listed when the clause is on either of its sides. */
  lemma ClauseScopeIff(table: seq<Event>, uid: nat, within: Option<nat>, e: Event)
    requires UniqueIds(table)
    ensures e in Query(table, OneClause(uid, within), None) <==>
      e in table && (within == None || within == Some(e.document)) && (e.beforeUid == Some(uid) || e.afterUid == Some(uid))
  {
    hide Query;
  }

  /** The document scope and the corpus filters, which leave out what they are not given. */
  lemma CorpusScopeIff(table: seq<Event>, jurisdiction: Option<string>, sector: Option<string>,
                       since: Option<int>, until: Option<int>, e: Event)
    requires UniqueIds(table)
    ensures e in Query(table, Document(e.document), None) <==> e in table
    ensures forall d :: d != e.document ==> e !in Query(table, Document(d), None)
    ensures e in Query(table, Corpus(jurisdiction, sector, since, until), None) <==>
      && e in table && jurisdiction in {None, Some(e.jurisdiction)} && sector in {None, Some(e.sector)}
      && (since == None || since.value <= e.detectedAt) && (until == None || e.detectedAt < until.value)
  {
    hide Query;
  }

  /** Windows are half-open, so consecutive windows tile: the answer for a window is that for its later
      part followed by that for its earlier part, with no row lost or repeated at the cut. */
  lemma WindowsTile(table: seq<Event>, jurisdiction: Option<string>, sector: Option<string>,
                    since: Option<int>, cut: int, until: Option<int>)
    requires UniqueIds(table)
    requires (since.Some? ==> since.value <= cut) && (until.Some? ==> cut <= until.value)
    ensures Query(table, Corpus(jurisdiction, sector, since, until), None)
      == Query(table, Corpus(jurisdiction, sector, Some(cut), until), None)
       + Query(table, Corpus(jurisdiction, sector, since, Some(cut)), None)
  {
    hide Query, Descending;
    var later := Query(table, Corpus(jurisdiction, sector, Some(cut), until), None);
    var earlier := Query(table, Corpus(jurisdiction, sector, since, Some(cut)), None);
    DescendingConcat(later, earlier);
    DescendingUnique(Query(table, Corpus(jurisdiction, sector, since, until), None), later + earlier);
  }

  lemma DescendingConcat(a: seq<Event>, b: seq<Event>)
    requires Descending(a) && Descending(b)
    requires forall x, y :: x in a && y in b ==> Earlier(KeyOf(y), KeyOf(x))
    ensures Descending(a + b)
  {
    hide KeyOf, Earlier;
    var all := a + b;
    forall j, k | 0 <= j < k < |all|
      ensures Earlier(KeyOf(all[k]), KeyOf(all[j]))
    {
      if j < |a| <= k {
        assert all[j] in a && all[k] in b;
      }
    }
  }

  // ----- one page -----

  datatype Page = Page(items: seq<Event>, next: Option<string>)

  datatype PageError = LimitTooSmall | BadCursor

  function NormaliseLimit(limit: int): (r: Option<nat>)
    ensures r.None? <==> limit < 1
    ensures r.Some? ==> r.value <= limit && r.value <= MAX_LIMIT && (r.value == limit || r.value == MAX_LIMIT)
  {
    if limit < 1 then None else if limit <= MAX_LIMIT then Some(limit) else Some(MAX_LIMIT)
  }

  function Paginate(c: Codec, rows: seq<Event>, limit: nat): Page
    requires 1 <= limit
  {
    if |rows| > limit then Page(rows[..limit], Some(EncodeCursor(c, KeyOf(rows[limit - 1])))) else Page(rows, None)
  }

  function FetchPage(c: Codec, table: seq<Event>, scope: Scope, limit: int, cursor: Option<string>): Result<Page, PageError>
    requires UniqueIds(table)
  {
    match NormaliseLimit(limit)
    case None => Err(LimitTooSmall)
    case Some(n) =>
      var below := if cursor.Some? then DecodeCursor(c, cursor.value) else None;
      if cursor.Some? && below.None? then Err(BadCursor) else
        var rows := Query(table, scope, below);
        Ok(Paginate(c, if |rows| > n + 1 then rows[..n + 1] else rows, n))
  }

  /** What one page holds: with `n` the smaller of the limit and 200, the first `n` rows of the query, or
      all of them, and a cursor at its last row exactly when more rows follow. */
  lemma PageIs(c: Codec, table: seq<Event>, scope: Scope, limit: int, cursor: Option<string>, below: Option<Key>)
    requires ValidCodec(c) && UniqueIds(table) && 1 <= limit
    requires below == if cursor.Some? then DecodeCursor(c, cursor.value) else None
    requires cursor.Some? ==> below.Some?
    ensures FetchPage(c, table, scope, limit, cursor).Ok?
    ensures var n := if limit < 200 then limit else 200;
      var rows, page := Query(table, scope, below), FetchPage(c, table, scope, limit, cursor).value;
      && (page.next.None? <==> |rows| <= n)
      && page.items == (if |rows| <= n then rows else rows[..n])
      && (page.next.Some? ==> DecodeCursor(c, page.next.value) == Some(KeyOf(page.items[n - 1])))
  {
    hide Query, EncodeCursor, DecodeCursor;
    var rows, n := Query(table, scope, below), if limit < 200 then limit else 200;
    if |rows| > n {
      CursorRoundTrip(c, KeyOf(rows[n - 1]));
      assert |rows| > n + 1 ==> rows[..n + 1][..n] == rows[..n];
    }
  }

  /** When a page is refused: a limit below 1, or else a cursor that does not decode. */
  lemma RefusedIff(c: Codec, table: seq<Event>, scope: Scope, limit: int, cursor: Option<string>)
    requires UniqueIds(table)
    ensures FetchPage(c, table, scope, limit, cursor) == Err(LimitTooSmall) <==> limit < 1
    ensures FetchPage(c, table, scope, limit, cursor) == Err(BadCursor) <==>
      limit >= 1 && cursor.Some? && DecodeCursor(c, cursor.value) == None
  {
    hide Query, EncodeCursor, DecodeCursor;
  }

  // ----- walks -----

  /** `later` has every row of `earlier`. */
  predicate Contains(later: seq<Event>, earlier: seq<Event>) {
    forall x :: x in earlier ==> x in later
  }

  /** The states of an append-only table, one for each page fetched. */
  predicate Grows(tables: seq<seq<Event>>) {
    && (forall k :: 0 <= k < |tables| ==> UniqueIds(tables[k]))
    && (forall k :: 0 <= k < |tables| - 1 ==> Contains(tables[k + 1], tables[k]))
  }

  /** The pages a client gets by following `next` from `cursor` until there is none. */
  ghost predicate IsWalk(c: Codec, tables: seq<seq<Event>>, scope: Scope, limit: int, cursor: Option<string>, pages: seq<Page>)
    decreases |pages|
  {
    && |pages| == |tables| && pages != []
    && UniqueIds(tables[0])
    && FetchPage(c, tables[0], scope, limit, cursor) == Ok(pages[0])
    && (if pages[0].next.None? then |pages| == 1 else IsWalk(c, tables[1..], scope, limit, pages[0].next, pages[1..]))
  }

  function Items(pages: seq<Page>): seq<Event> {
    if pages == [] then [] else pages[0].items + Items(pages[1..])
  }

  /** The position a cursor string stands for. */
  function Position(c: Codec, cursor: Option<string>): Option<Key> {
    if cursor.Some? then DecodeCursor(c, cursor.value) else None
  }

  lemma GrowsTail(tables: seq<seq<Event>>)
    requires Grows(tables) && |tables| > 1
    ensures Grows(tables[1..]) && Contains(tables[1], tables[0])
  {
    hide UniqueIds, Contains;
    assert Contains(tables[0 + 1], tables[0]);
    forall k | 0 <= k < |tables[1..]| - 1
      ensures Contains(tables[1..][k + 1], tables[1..][k])
    {
      assert Contains(tables[k + 1 + 1], tables[k + 1]);
    }
  }

  /** Putting a page before the rest of its walk. */
  lemma PageThenRest(rows: seq<Event>, n: nat, rest: seq<Event>, scope: Scope)
    requires Descending(rows) && 1 <= n < |rows| && Descending(rest)
    requires forall x :: x in rest ==> Selected(scope, Some(KeyOf(rows[n - 1])), x)
    ensures Descending(rows[..n] + rest)
  {
    var all := rows[..n] + rest;
    forall j, k | 0 <= j < k < |all|
      ensures Earlier(KeyOf(all[k]), KeyOf(all[j]))
    {
      if j < n <= k {
        assert all[k] in rest && rows[j] == all[j];
        assert Earlier(KeyOf(all[k]), KeyOf(rows[n - 1]));
      }
    }
  }

  /** Every walk over an append-only table, whatever is appended between its pages: newest first and
      no row twice; only selected rows; and every selected row that was there at the start. */
  lemma {:induction false} WalkInOrder(c: Codec, tables: seq<seq<Event>>, scope: Scope, limit: int, cursor: Option<string>,
                                       pages: seq<Page>)
    requires ValidCodec(c) && 1 <= limit && (cursor.Some? ==> Position(c, cursor).Some?)
    requires Grows(tables) && IsWalk(c, tables, scope, limit, cursor, pages)
    ensures Descending(Items(pages))
    ensures forall x :: x in Items(pages) ==> Selected(scope, Position(c, cursor), x) && x in tables[|tables| - 1]
    ensures forall x :: x in tables[0] && Selected(scope, Position(c, cursor), x) ==> x in Items(pages)
    decreases |pages|
  {
    hide Query, FetchPage, DecodeCursor, InScope, Descending, UniqueIds, ValidCodec;
    var below, n := Position(c, cursor), if limit < 200 then limit else 200;
    var rows := Query(tables[0], scope, below);
    PageIs(c, tables[0], scope, limit, cursor, below);
    if pages[0].next.None? {
      assert Items(pages[1..]) == [];
      assert Items(pages) == rows;
    } else {
      GrowsTail(tables);
      WalkInOrder(c, tables[1..], scope, limit, pages[0].next, pages[1..]);
      WalkStep(c, tables[0], tables[1], scope, below, n, Items(pages[1..]));
      assert tables[|tables| - 1] == tables[1..][|tables[1..]| - 1];
      Keeps(tables, 0);
    }
  }

  lemma {:induction false} Keeps(tables: seq<seq<Event>>, k: nat)
    requires Grows(tables) && k < |tables|
    ensures Contains(tables[|tables| - 1], tables[k])
    decreases |tables| - k
  {
    if k < |tables| - 1 {
      Keeps(tables, k + 1);
      assert Contains(tables[k + 1], tables[k]);
    }
  }

  lemma WalkStep(c: Codec, table: seq<Event>, later: seq<Event>, scope: Scope, below: Option<Key>, n: nat, rest: seq<Event>)
    requires UniqueIds(table) && Contains(later, table) && 1 <= n < |Query(table, scope, below)|
    requires Descending(rest)
    requires var at := Some(KeyOf(Query(table, scope, below)[n - 1]));
      && (forall x :: x in rest ==> Selected(scope, at, x))
      && (forall x :: x in later && Selected(scope, at, x) ==> x in rest)
    ensures var items := Query(table, scope, below)[..n] + rest;
      && Descending(items)
      && (forall x :: x in items ==> Selected(scope, below, x) && (x in table || x in rest))
      && (forall x :: x in table && Selected(scope, below, x) ==> x in items)
    ensures Query(table, scope, below)[n] in rest
  {
    hide Query, InScope;
    var rows := Query(table, scope, below);
    var last := rows[n - 1];
    assert last in rows;
    PageThenRest(rows, n, rest, scope);
    forall k | n <= k < |rows|
      ensures rows[k] in rest
    {
      assert rows[k] in rows && Earlier(KeyOf(rows[k]), KeyOf(rows[n - 1]));
    }
    forall x | x in table && Selected(scope, below, x)
      ensures x in rows[..n] || x in rest
    {
      assert x in rows;
      var k :| 0 <= k < |rows| && rows[k] == x;
      if k < n {
        assert rows[..n][k] == x;
      }
    }
    forall x | x in rows[..n] + rest
      ensures Selected(scope, below, x) && (x in table || x in rest)
    {
      if x in rows[..n] {
        assert x in rows;
      }
    }
  }

  lemma EmptyIff(s: seq<Event>)
    ensures s == [] <==> forall x :: x !in s
  {
    if s != [] {
      assert s[0] in s;
    }
  }

  /** Descending sequences are determined by their elements. */
  lemma {:induction false} DescendingUnique(a: seq<Event>, b: seq<Event>)
    requires Descending(a) && Descending(b) && forall x :: x in a <==> x in b
    ensures a == b
  {
    EmptyIff(a);
    EmptyIff(b);
    if a != [] {
      assert a[0] in b;
      assert b[0] in a;
      SameFirst(a, b);
      forall x
        ensures x in a[1..] <==> x in b[1..]
      {
        TailMembers(a, x);
        TailMembers(b, x);
      }
      DescendingUnique(a[1..], b[1..]);
      assert a == [a[0]] + a[1..] && b == [b[0]] + b[1..];
    }
  }

  lemma SameFirst(a: seq<Event>, b: seq<Event>)
    requires Descending(a) && Descending(b) && a != [] && b != [] && a[0] in b && b[0] in a
    ensures a[0] == b[0]
  {
    hide KeyOf;
    var k :| 0 <= k < |b| && b[k] == a[0];
    var j :| 0 <= j < |a| && a[j] == b[0];
  }

  lemma TailMembers(a: seq<Event>, x: Event)
    requires Descending(a) && a != []
    ensures x in a[1..] <==> x in a && x != a[0]
  {
    if x in a && x != a[0] {
      var k :| 0 <= k < |a| && a[k] == x;
      assert a[1..][k - 1] == x;
    }
    if x in a[1..] {
      var k :| 0 <= k < |a[1..]| && a[1..][k] == x;
      assert a[k + 1] == x && Earlier(KeyOf(a[k + 1]), KeyOf(a[0]));
    }
  }

  // ----- what rows appended during a walk do -----

  /** A row that appears between two pages is returned exactly when it lies below the cursor the client
      holds by then. */
  lemma {:induction false} LateRowIff(c: Codec, tables: seq<seq<Event>>, scope: Scope, limit: int, cursor: Option<string>,
                                      pages: seq<Page>, n: nat, x: Event)
    requires ValidCodec(c) && 1 <= limit && (cursor.Some? ==> Position(c, cursor).Some?)
    requires Grows(tables) && IsWalk(c, tables, scope, limit, cursor, pages)
    requires 1 <= n < |pages| && x in tables[n] && x !in tables[n - 1] && InScope(scope, x)
    ensures pages[n - 1].next.Some?
    ensures x in Items(pages) <==> BelowCursor(Position(c, pages[n - 1].next), x)
    decreases |pages|
  {
    hide Query, FetchPage, DecodeCursor, InScope, Descending, UniqueIds, ValidCodec;
    PageIs(c, tables[0], scope, limit, cursor, Position(c, cursor));
    GrowsTail(tables);
    GrowsTo(tables, n - 1);
    assert x !in pages[0].items;
    if n == 1 {
      WalkInOrder(c, tables[1..], scope, limit, pages[0].next, pages[1..]);
    } else {
      LateRowIff(c, tables[1..], scope, limit, pages[0].next, pages[1..], n - 1, x);
    }
  }

  lemma {:induction false} GrowsTo(tables: seq<seq<Event>>, n: nat)
    requires Grows(tables) && n < |tables|
    ensures Contains(tables[n], tables[0])
  {
    if n > 0 {
      GrowsTo(tables, n - 1);
      assert Contains(tables[n - 1 + 1], tables[n - 1]);
    }
  }

  /** Rows appended during the walk are newer than every row in scope at its start. */
  predicate OnlyNewer(tables: seq<seq<Event>>, scope: Scope)
    requires tables != []
  {
    forall x, y :: x in tables[|tables| - 1] && x !in tables[0] && y in tables[0] && InScope(scope, x) && InScope(scope, y) ==>
      Earlier(KeyOf(y), KeyOf(x))
  }

  /** A walk from no cursor returns the sorted, filtered list as it was at the start: every row once,
      in order, also when newer rows are appended between its pages. */
  lemma WalkAgreesWithQuery(c: Codec, tables: seq<seq<Event>>, scope: Scope, limit: int, pages: seq<Page>)
    requires ValidCodec(c) && 1 <= limit && Grows(tables) && IsWalk(c, tables, scope, limit, None, pages)
    requires OnlyNewer(tables, scope)
    ensures Items(pages) == Query(tables[0], scope, None)
    ensures var n := if limit < 200 then limit else 200;
      && 1 <= |pages| && |Items(pages)| <= |pages| * n
      && (|pages| > 1 ==> (|pages| - 1) * n < |Items(pages)|)
  {
    hide Query, FetchPage, DecodeCursor, InScope, Descending, UniqueIds, ValidCodec;
    var rows := Query(tables[0], scope, None);
    WalkInOrder(c, tables, scope, limit, None, pages);
    PageIs(c, tables[0], scope, limit, None, None);
    forall x | x in Items(pages)
      ensures x in tables[0]
    {
      if |pages| > 1 && x in Items(pages[1..]) {
        GrowsTail(tables);
        WalkInOrder(c, tables[1..], scope, limit, pages[0].next, pages[1..]);
        var last := pages[0].items[if limit < 200 then limit - 1 else 199];
        assert last in rows && Earlier(KeyOf(x), KeyOf(last));
        assert tables[|tables| - 1] == tables[1..][|tables[1..]| - 1];
        EarlierAsymmetric(KeyOf(x), KeyOf(last));
      } else {
        assert x in pages[0].items;
      }
    }
    DescendingUnique(Items(pages), rows);
    WalkLength(c, tables, scope, limit, None, pages);
  }

  lemma EarlierAsymmetric(a: Key, b: Key)
    ensures !(Earlier(a, b) && Earlier(b, a))
  {
  }

  /** Every walk, whatever is appended, takes the fewest pages its rows allow at the smaller of the limit
      and 200 rows a page: one page when there are no rows, and no page to spare otherwise. */
  lemma {:induction false} WalkLength(c: Codec, tables: seq<seq<Event>>, scope: Scope, limit: int, cursor: Option<string>,
                                      pages: seq<Page>)
    requires ValidCodec(c) && 1 <= limit && (cursor.Some? ==> Position(c, cursor).Some?)
    requires Grows(tables) && IsWalk(c, tables, scope, limit, cursor, pages)
    ensures var n := if limit < 200 then limit else 200;
      && 1 <= |pages| && |Items(pages)| <= |pages| * n
      && (|pages| > 1 ==> (|pages| - 1) * n < |Items(pages)|)
    decreases |pages|
  {
    hide Query, FetchPage, DecodeCursor, InScope, Descending, UniqueIds, ValidCodec;
    var below, n := Position(c, cursor), if limit < 200 then limit else 200;
    PageIs(c, tables[0], scope, limit, cursor, below);
    if pages[0].next.None? {
      assert Items(pages[1..]) == [];
    } else {
      GrowsTail(tables);
      WalkInOrder(c, tables[1..], scope, limit, pages[0].next, pages[1..]);
      WalkStep(c, tables[0], tables[1], scope, below, n, Items(pages[1..]));
      WalkLength(c, tables[1..], scope, limit, pages[0].next, pages[1..]);
      assert |Items(pages)| == n + |Items(pages[1..])| && Items(pages[1..]) != [];
      Distribute(|pages| - 1, n);
      Distribute(|pages| - 2, n);
    }
  }

  // ----- walks end -----

  /** The query below a page's last row is the rest of the query. */
  lemma QueryRest(table: seq<Event>, scope: Scope, below: Option<Key>, n: nat)
    requires UniqueIds(table) && 1 <= n <= |Query(table, scope, below)|
    ensures Query(table, scope, Some(KeyOf(Query(table, scope, below)[n - 1]))) == Query(table, scope, below)[n..]
  {
    hide Query, InScope;
    var rows := Query(table, scope, below);
    var rest := Query(table, scope, Some(KeyOf(rows[n - 1])));
    assert rows[n - 1] in rows;
    forall x
      ensures x in rows[n..] <==> x in rest
    {
      if x in rows[n..] {
        var k :| 0 <= k < |rows[n..]| && rows[n..][k] == x;
        assert rows[n + k] in rows && Earlier(KeyOf(rows[n + k]), KeyOf(rows[n - 1]));
      }
      if x in rest {
        assert x in rows;
        var k :| 0 <= k < |rows| && rows[k] == x;
        if k < n {
          EarlierAsymmetric(KeyOf(rows[k]), KeyOf(rows[n - 1]));
          assert k < n - 1 ==> Earlier(KeyOf(rows[n - 1]), KeyOf(rows[k]));
        } else {
          assert rows[n..][k - n] == x;
        }
      }
    }
    DescendingUnique(rest, rows[n..]);
  }

  /** On a table that stays as it is, following the cursors always ends. */
  lemma {:induction false} WalkExists(c: Codec, table: seq<Event>, scope: Scope, limit: int, cursor: Option<string>)
      returns (pages: seq<Page>)
    requires ValidCodec(c) && UniqueIds(table) && 1 <= limit && (cursor.Some? ==> Position(c, cursor).Some?)
    ensures IsWalk(c, seq(|pages|, _ => table), scope, limit, cursor, pages)
    decreases |Query(table, scope, Position(c, cursor))|
  {
    hide Query, FetchPage, DecodeCursor, InScope, Descending, UniqueIds, ValidCodec;
    var below, n := Position(c, cursor), if limit < 200 then limit else 200;
    PageIs(c, table, scope, limit, cursor, below);
    var page := FetchPage(c, table, scope, limit, cursor).value;
    if page.next.None? {
      pages := [page];
    } else {
      QueryRest(table, scope, below, n);
      var rest := WalkExists(c, table, scope, limit, page.next);
      pages := [page] + rest;
      assert pages[1..] == rest;
      assert seq(|pages|, _ => table)[1..] == seq(|rest|, _ => table);
    }
  }
}
