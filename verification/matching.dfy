/** Scanning a paragraph for structural markers, bold-only detection, slugs, and sibling
    disambiguation. */
module Matching {
  import opened Prelude
  import opened Text

  /** A structural pattern. `matchEnd` stands for the compiled regex: the end of its match
      anchored at a position, if any. */
  datatype Pattern = Pattern(depth: int, requiresBoundary: bool, matchEnd: (string, nat) -> Option<nat>)

  /** Matches stay inside the text and are not empty: what the scan needs to move forward. */
  ghost predicate ProperMatches(pats: seq<Pattern>) {
    forall k, text, pos: nat :: 0 <= k < |pats| && pos < |text| && pats[k].matchEnd(text, pos).Some? ==>
      pos < pats[k].matchEnd(text, pos).value <= |text|
  }

  // ----- boundaries -----

  /** Sentence terminators: . ! ? ; : ) and the straight, curly, low quotes and the em dash. */
  predicate IsTerminator(c: char) {
    c in ".!?;:)\"" || c as int in {0x201C, 0x201D, 0x201E, 0x2014}
  }

  /** At the start of the text, or after whitespace, where the last non-space character, if there is
      one, is a terminator. */
  predicate BoundaryBefore(text: string, pos: nat)
    requires pos <= |text|
  {
    pos == 0 ||
    (IsSpace(text[pos - 1]) && forall k :: 0 <= k < pos && LastSolid(text, k, pos) ==> IsTerminator(text[k]))
  }

  /** The last character before `pos` that is not whitespace is at `k`. */
  predicate LastSolid(text: string, k: nat, pos: nat)
    requires k < pos <= |text|
  {
    !IsSpace(text[k]) && forall l :: k < l < pos ==> IsSpace(text[l])
  }

  method HasBoundaryBefore(text: string, pos: nat) returns (r: bool)
    requires pos <= |text|
    ensures r <==> BoundaryBefore(text, pos)
  {
    if pos == 0 {
      return true;
    }
    if !IsSpace(text[pos - 1]) {
      return false;
    }
    var j := pos - 2;
    while j >= 0 && IsSpace(text[j])
      invariant -1 <= j <= pos - 2
      invariant forall l :: j < l < pos ==> IsSpace(text[l])
    {
      j := j - 1;
    }
    if j < 0 {
      return true;
    }
    assert LastSolid(text, j, pos);
    return IsTerminator(text[j]);
  }

  // ----- scanning -----

  /** A match: which pattern, and the span it covers. */
  datatype Match = Match(which: nat, start: nat, end: nat)

  /** The pattern matches at `pos` and its boundary demand is met there. */
  predicate Applies(text: string, p: Pattern, pos: nat)
    requires pos <= |text|
  {
    p.matchEnd(text, pos).Some? && (p.requiresBoundary ==> BoundaryBefore(text, pos))
  }

  /** `m` is what a scan takes at its start: the pattern applies there, the span ends where the pattern
      says, and no pattern before it in configuration order applies. */
  predicate IsFirstMatch(text: string, pats: seq<Pattern>, m: Match)
    requires m.start <= |text|
  {
    && m.which < |pats| && pats[m.which].matchEnd(text, m.start) == Some(m.end)
    && (pats[m.which].requiresBoundary ==> BoundaryBefore(text, m.start))
    && forall k :: 0 <= k < m.which ==> !Applies(text, pats[k], m.start)
  }

  predicate SomeMatch(text: string, pats: seq<Pattern>, pos: nat)
    requires pos <= |text|
  {
    exists k :: 0 <= k < |pats| && Applies(text, pats[k], pos)
  }

  /** The first pattern that applies at `pos`, in configuration order from `k`. */
  function HitFrom(text: string, pats: seq<Pattern>, pos: nat, k: nat): (r: Option<Match>)
    requires pos < |text| && k <= |pats|
    requires forall j :: 0 <= j < k ==> !Applies(text, pats[j], pos)
    ensures r.Some? ==> r.value.start == pos && IsFirstMatch(text, pats, r.value)
    ensures r.None? ==> !SomeMatch(text, pats, pos)
    decreases |pats| - k
  {
    if k == |pats| then None else
      match pats[k].matchEnd(text, pos)
      case None => HitFrom(text, pats, pos, k + 1)
      case Some(end) =>
        if pats[k].requiresBoundary && !BoundaryBefore(text, pos) then HitFrom(text, pats, pos, k + 1)
        else Some(Match(k, pos, end))
  }

  function Hit(text: string, pats: seq<Pattern>, pos: nat): (r: Option<Match>)
    requires pos < |text|
    ensures r.Some? ==> r.value.start == pos && IsFirstMatch(text, pats, r.value)
    ensures r.None? ==> !SomeMatch(text, pats, pos)
  {
    HitFrom(text, pats, pos, 0)
  }

  /** There is at most one first match at a position. */
  lemma FirstMatchUnique(text: string, pats: seq<Pattern>, m: Match, n: Match)
    requires m.start == n.start <= |text| && IsFirstMatch(text, pats, m) && IsFirstMatch(text, pats, n)
    ensures m == n
  {
    hide BoundaryBefore;
    assert Applies(text, pats[m.which], m.start) && Applies(text, pats[n.which], m.start);
  }

  /** The hit at a position: the end the pattern gives, its boundary demand met, and no earlier pattern
      that matches there with its demand met; none exactly when no pattern does. */
  lemma HitIff(text: string, pats: seq<Pattern>, pos: nat, m: Match)
    requires pos < |text|
    ensures Hit(text, pats, pos) == Some(m) <==>
      && m.start == pos && m.which < |pats|
      && pats[m.which].matchEnd(text, pos) == Some(m.end)
      && (pats[m.which].requiresBoundary ==> BoundaryBefore(text, pos))
      && forall k :: 0 <= k < m.which && pats[k].matchEnd(text, pos).Some? ==>
           pats[k].requiresBoundary && !BoundaryBefore(text, pos)
    ensures Hit(text, pats, pos).None? <==>
      forall k :: 0 <= k < |pats| && pats[k].matchEnd(text, pos).Some? ==>
        pats[k].requiresBoundary && !BoundaryBefore(text, pos)
  {
    hide Hit, BoundaryBefore;
    var hit := Hit(text, pats, pos);
    if m.start == pos && IsFirstMatch(text, pats, m) {
      assert Applies(text, pats[m.which], pos);
      FirstMatchUnique(text, pats, m, hit.value);
    }
    forall k | 0 <= k < |pats| && pats[k].matchEnd(text, pos).Some? && !(pats[k].requiresBoundary && !BoundaryBefore(text, pos))
      ensures hit.Some?
    {
      assert Applies(text, pats[k], pos);
    }
    if hit.Some? {
      assert Applies(text, pats[hit.value.which], pos);
    }
  }

  /** What a scan from `from` promises: each match is the first one at its start, the matches are in
      order and do not overlap, and no position where a pattern applies is left uncovered. */
  ghost predicate IsScan(text: string, pats: seq<Pattern>, ms: seq<Match>, from: nat) {
    && (forall k :: 0 <= k < |ms| ==> IsHit(text, pats, ms[k], from))
    && InOrder(ms)
    && (forall pos: nat :: from <= pos < |text| && SomeMatch(text, pats, pos) ==> Covered(ms, pos))
  }

  ghost predicate IsHit(text: string, pats: seq<Pattern>, m: Match, from: nat) {
    from <= m.start < |text| && m.start < m.end <= |text| && IsFirstMatch(text, pats, m)
  }

  ghost predicate InOrder(ms: seq<Match>) {
    forall k, l :: 0 <= k < l < |ms| ==> ms[k].end <= ms[l].start
  }

  ghost predicate Covered(ms: seq<Match>, pos: nat) {
    exists k :: 0 <= k < |ms| && ms[k].start <= pos < ms[k].end
  }

  /** A first match is a match. */
  lemma FirstIsSome(text: string, pats: seq<Pattern>, m: Match)
    requires m.start <= |text| && IsFirstMatch(text, pats, m)
    ensures SomeMatch(text, pats, m.start)
  {
    hide BoundaryBefore;
    assert Applies(text, pats[m.which], m.start);
  }

  /** At most one list of matches is a scan. */
  lemma {:induction false} ScanUnique(text: string, pats: seq<Pattern>, a: seq<Match>, b: seq<Match>, from: nat)
    requires IsScan(text, pats, a, from) && IsScan(text, pats, b, from)
    ensures a == b
    decreases |text| - from
  {
    hide SomeMatch, IsFirstMatch;
    if from >= |text| {
      assert a == [] && b == [];
    } else if !SomeMatch(text, pats, from) {
      LaterScan(text, pats, a, from);
      LaterScan(text, pats, b, from);
      ScanUnique(text, pats, a, b, from + 1);
    } else {
      ScanHead(text, pats, a, from);
      ScanHead(text, pats, b, from);
      FirstMatchUnique(text, pats, a[0], b[0]);
      ScanUnique(text, pats, a[1..], b[1..], a[0].end);
      assert a == [a[0]] + a[1..] && b == [b[0]] + b[1..];
    }
  }

  /** A scan of a position where nothing applies starts after it. */
  lemma LaterScan(text: string, pats: seq<Pattern>, a: seq<Match>, from: nat)
    requires IsScan(text, pats, a, from) && from < |text| && !SomeMatch(text, pats, from)
    ensures IsScan(text, pats, a, from + 1)
  {
    hide SomeMatch, IsFirstMatch, Covered;
    forall k | 0 <= k < |a|
      ensures IsHit(text, pats, a[k], from + 1)
    {
      assert IsHit(text, pats, a[k], from);
      FirstIsSome(text, pats, a[k]);
    }
  }

  /** The match that covers the start of the scan is the first one, and starts there. */
  lemma FirstMatch(text: string, pats: seq<Pattern>, a: seq<Match>, from: nat, k: nat)
    requires IsScan(text, pats, a, from) && k < |a| && a[k].start <= from < a[k].end
    ensures k == 0 && a[0].start == from
  {
    hide SomeMatch, IsFirstMatch, Covered;
    assert IsHit(text, pats, a[k], from);
    assert IsHit(text, pats, a[0], from);
  }

  lemma ScanHead(text: string, pats: seq<Pattern>, a: seq<Match>, from: nat)
    requires IsScan(text, pats, a, from) && from < |text| && SomeMatch(text, pats, from)
    ensures a != [] && a[0].start == from && a[0].end <= |text| && from < a[0].end
    ensures IsFirstMatch(text, pats, a[0]) && IsScan(text, pats, a[1..], a[0].end)
  {
    hide SomeMatch, IsFirstMatch;
    assert Covered(a, from);
    var k :| 0 <= k < |a| && a[k].start <= from < a[k].end;
    FirstMatch(text, pats, a, from, k);
    assert IsHit(text, pats, a[0], from);
    RestIsScan(text, pats, a, from);
  }

  lemma RestIsScan(text: string, pats: seq<Pattern>, a: seq<Match>, from: nat)
    requires IsScan(text, pats, a, from) && a != []
    ensures IsScan(text, pats, a[1..], a[0].end)
  {
    hide SomeMatch, IsFirstMatch, Covered;
    var rest := a[1..];
    assert IsHit(text, pats, a[0], from);
    assert forall k :: 0 <= k < |rest| ==> rest[k] == a[k + 1];
    forall k | 0 <= k < |rest|
      ensures IsHit(text, pats, rest[k], a[0].end)
    {
      assert IsHit(text, pats, a[k + 1], from);
    }
    forall pos: nat | a[0].end <= pos < |text| && SomeMatch(text, pats, pos)
      ensures Covered(rest, pos)
    {
      CoveredLater(a, pos);
    }
  }

  lemma CoveredLater(a: seq<Match>, pos: nat)
    requires a != [] && a[0].end <= pos && Covered(a, pos)
    ensures Covered(a[1..], pos)
  {
    var l :| 0 <= l < |a| && a[l].start <= pos < a[l].end;
    assert a[1..][l - 1] == a[l];
  }

  /** The scan, as a function. */
  ghost function ScanOf(text: string, pats: seq<Pattern>, from: nat): (ms: seq<Match>)
    requires ProperMatches(pats)
    ensures IsScan(text, pats, ms, from)
    decreases |text| - from
  {
    if from >= |text| then []
    else if Hit(text, pats, from).None? then
      var rest := ScanOf(text, pats, from + 1);
      ScanSkip(text, pats, rest, from);
      rest
    else
      var m := Hit(text, pats, from).value;
      var rest := ScanOf(text, pats, m.end);
      ScanCons(text, pats, m, rest, from);
      [m] + rest
  }

  lemma CoveredCons(m: Match, rest: seq<Match>, pos: nat)
    requires m.start <= pos < m.end || Covered(rest, pos)
    ensures Covered([m] + rest, pos)
  {
    var ms := [m] + rest;
    if m.start <= pos < m.end {
      assert ms[0] == m;
    } else {
      var k :| 0 <= k < |rest| && rest[k].start <= pos < rest[k].end;
      assert ms[k + 1] == rest[k];
    }
  }

  lemma ScanSkip(text: string, pats: seq<Pattern>, rest: seq<Match>, from: nat)
    requires from < |text| && !SomeMatch(text, pats, from) && IsScan(text, pats, rest, from + 1)
    ensures IsScan(text, pats, rest, from)
  {
    hide SomeMatch, IsFirstMatch, Covered;
    forall k | 0 <= k < |rest|
      ensures IsHit(text, pats, rest[k], from)
    {
      assert IsHit(text, pats, rest[k], from + 1);
    }
  }

  lemma ScanCons(text: string, pats: seq<Pattern>, m: Match, rest: seq<Match>, from: nat)
    requires from == m.start < m.end <= |text| && IsFirstMatch(text, pats, m)
    requires IsScan(text, pats, rest, m.end)
    ensures IsScan(text, pats, [m] + rest, from)
  {
    hide SomeMatch, IsFirstMatch;
    var ms := [m] + rest;
    forall pos: nat | from <= pos < |text| && SomeMatch(text, pats, pos)
      ensures Covered(ms, pos)
    {
      CoveredCons(m, rest, pos);
    }
    forall k | 0 <= k < |ms|
      ensures IsHit(text, pats, ms[k], from)
    {
      if k > 0 {
        assert IsHit(text, pats, rest[k - 1], m.end);
      }
    }
    forall k | 0 <= k < |rest|
      ensures m.end <= rest[k].start
    {
      assert IsHit(text, pats, rest[k], m.end);
    }
    InOrderCons(m, rest);
  }

  lemma InOrderCons(m: Match, rest: seq<Match>)
    requires InOrder(rest) && forall k :: 0 <= k < |rest| ==> m.end <= rest[k].start
    ensures InOrder([m] + rest)
  {
  }

  method TryPatterns(text: string, pats: seq<Pattern>, pos: nat) returns (hit: Option<Match>)
    requires pos < |text|
    ensures hit.Some? ==> hit.value.start == pos && hit.value.which < |pats|
    ensures hit.Some? ==> pats[hit.value.which].matchEnd(text, pos) == Some(hit.value.end)
    ensures hit.Some? ==> IsFirstMatch(text, pats, hit.value)
    ensures hit.None? ==> !SomeMatch(text, pats, pos)
  {
    hide BoundaryBefore;
    for k := 0 to |pats|
      invariant forall j :: 0 <= j < k ==> !Applies(text, pats[j], pos)
    {
      var m := pats[k].matchEnd(text, pos);
      if m.None? {
        continue;
      }
      if pats[k].requiresBoundary {
        var boundary := HasBoundaryBefore(text, pos);
        if !boundary {
          continue;
        }
      }
      return Some(Match(k, pos, m.value));
    }
    return None;
  }

  /** Left-to-right scan: the one list of matches that is a scan. */
  method FindMatches(text: string, pats: seq<Pattern>) returns (results: seq<Match>)
    requires ProperMatches(pats)
    ensures IsScan(text, pats, results, 0)
    ensures results == ScanOf(text, pats, 0)
  {
    hide SomeMatch, IsFirstMatch;
    results := [];
    var pos := 0;
    while pos < |text|
      invariant 0 <= pos <= |text|
      invariant Scanned(text, pats, results, pos)
    {
      var hit := TryPatterns(text, pats, pos);
      if hit.Some? {
        ScannedHit(text, pats, results, hit.value, pos);
        results := results + [hit.value];
        pos := hit.value.end;
      } else {
        pos := pos + 1;
      }
    }
    ScanUnique(text, pats, results, ScanOf(text, pats, 0), 0);
  }

  /** `ms` is the scan of everything before `pos`. */
  ghost predicate Scanned(text: string, pats: seq<Pattern>, ms: seq<Match>, pos: nat) {
    && pos <= |text| && InOrder(ms)
    && (forall k :: 0 <= k < |ms| ==> IsHit(text, pats, ms[k], 0) && ms[k].end <= pos)
    && (forall p: nat :: p < pos && SomeMatch(text, pats, p) ==> Covered(ms, p))
  }

  lemma ScannedHit(text: string, pats: seq<Pattern>, ms: seq<Match>, m: Match, pos: nat)
    requires Scanned(text, pats, ms, pos) && pos == m.start < m.end <= |text| && IsFirstMatch(text, pats, m)
    ensures Scanned(text, pats, ms + [m], m.end)
  {
    hide SomeMatch, IsFirstMatch;
    var more := ms + [m];
    forall p: nat | p < m.end && SomeMatch(text, pats, p)
      ensures Covered(more, p)
    {
      if p < pos {
        assert Covered(ms, p);
        var k :| 0 <= k < |ms| && ms[k].start <= p < ms[k].end;
        assert more[k] == ms[k];
      } else {
        assert more[|ms|] == m;
      }
    }
  }

  // ----- bold-only paragraphs -----

  /** Some non-space character exists, and each lies in one of the bold ranges. */
  predicate BoldOnly(text: string, bold: seq<(nat, nat)>) {
    && (exists k :: 0 <= k < |text| && !IsSpace(text[k]))
    && (forall k :: 0 <= k < |text| && !IsSpace(text[k]) ==> InRanges(bold, k))
  }

  predicate InRanges(bold: seq<(nat, nat)>, k: nat) {
    exists r :: 0 <= r < |bold| && bold[r].0 <= k < bold[r].1
  }

  method IsBoldOnly(text: string, bold: seq<(nat, nat)>) returns (r: bool)
    ensures r <==> BoldOnly(text, bold)
  {
    var inside := new bool[|text|](_ => false);
    for b := 0 to |bold|
      invariant forall k :: 0 <= k < |text| ==> (inside[k] <==> InRanges(bold[..b], k))
    {
      var start, end := bold[b].0, if bold[b].1 < |text| then bold[b].1 else |text|;
      var j := start;
      while j < end
        invariant start <= j && (j <= end || j == start)
        invariant forall k :: 0 <= k < |text| ==>
          (inside[k] <==> InRanges(bold[..b], k) || start <= k < j)
      {
        inside[j] := true;
        j := j + 1;
      }
      forall k | 0 <= k < |text|
        ensures InRanges(bold[..b + 1], k) <==> InRanges(bold[..b], k) || bold[b].0 <= k < bold[b].1
      {
        RangesSnoc(bold, b, k);
      }
    }
    assert bold[..|bold|] == bold;
    var sawNonSpace := false;
    for i := 0 to |text|
      invariant sawNonSpace <==> exists k :: 0 <= k < i && !IsSpace(text[k])
      invariant forall k :: 0 <= k < i && !IsSpace(text[k]) ==> InRanges(bold, k)
    {
      if IsSpace(text[i]) {
        continue;
      }
      if !inside[i] {
        return false;
      }
      sawNonSpace := true;
    }
    return sawNonSpace;
  }

  lemma RangesSnoc(bold: seq<(nat, nat)>, b: nat, k: nat)
    requires b < |bold|
    ensures InRanges(bold[..b + 1], k) <==> InRanges(bold[..b], k) || bold[b].0 <= k < bold[b].1
  {
    var more, less := bold[..b + 1], bold[..b];
    assert more[b] == bold[b];
    if InRanges(less, k) {
      var r :| 0 <= r < |less| && less[r].0 <= k < less[r].1;
      assert more[r] == less[r];
    }
  }

  // ----- slugs -----

  /** Runs of non-word characters become one dash each. */
  function Dashed(isWord: char -> bool, s: string, afterDash: bool): string {
    if s == "" then ""
    else if isWord(s[0]) then [s[0]] + Dashed(isWord, s[1..], false)
    else (if afterDash then "" else "-") + Dashed(isWord, s[1..], true)
  }

  function LStripDash(s: string): string {
    if s == "" then "" else if s[0] == '-' then LStripDash(s[1..]) else s
  }

  function RStripDash(s: string): string {
    if s == "" then "" else if s[|s| - 1] == '-' then RStripDash(s[..|s| - 1]) else s
  }

  /** The slug of a heading. `isWord` is the regex word class, `lower` is lower-casing. */
  function Slugify(isWord: char -> bool, lower: string -> string, text: string): string {
    var s := RStripDash(LStripDash(Dashed(isWord, lower(Strip(text)), false)));
    if |s| <= 64 then s else s[..64]
  }

  lemma {:induction false} DashedRun(isWord: char -> bool, w: string, r: string, afterDash: bool)
    requires (w == "" ==> !afterDash) && forall k :: 0 <= k < |w| ==> isWord(w[k])
    ensures Dashed(isWord, w + r, afterDash) == w + Dashed(isWord, r, false)
  {
    if w == "" {
      assert w + r == r && w + Dashed(isWord, r, false) == Dashed(isWord, r, false);
    } else {
      DashedRun(isWord, w[1..], r, false);
      assert (w + r)[0] == w[0] && (w + r)[1..] == w[1..] + r;
      Associate([w[0]], w[1..], Dashed(isWord, r, false));
      assert [w[0]] + w[1..] == w;
    }
  }

  lemma {:induction false} LStripDashed(isWord: char -> bool, s: string)
    requires !isWord('-')
    ensures LStripDash(Dashed(isWord, s, false)) == Dashed(isWord, s, true) == LStripDash(Dashed(isWord, s, true))
  {
    if s != "" {
      LStripDashed(isWord, s[1..]);
      if !isWord(s[0]) {
        assert ("-" + Dashed(isWord, s[1..], true))[1..] == Dashed(isWord, s[1..], true);
      }
    }
  }

  /** Stripping after a dash strips the dash too when nothing is left behind it. */
  lemma {:induction false} RStripDashAcross(a: string, b: string)
    requires a != "" && a[|a| - 1] != '-'
    ensures RStripDash(a) == a
    ensures RStripDash(a + "-" + b) == if RStripDash(b) == "" then a else a + "-" + RStripDash(b)
    decreases |b|
  {
    var t := a + "-" + b;
    if b == "" {
      assert t[..|t| - 1] == a;
    } else if b[|b| - 1] == '-' {
      assert t[..|t| - 1] == a + "-" + b[..|b| - 1];
      RStripDashAcross(a, b[..|b| - 1]);
    }
  }

  lemma {:induction false} SlugOfRuns(isWord: char -> bool, s: string)
    requires !isWord('-')
    ensures RStripDash(Dashed(isWord, s, true)) == Join(Runs(s, isWord), '-')
    decreases |s|
  {
    if s != "" {
      if !isWord(s[0]) {
        SlugOfRuns(isWord, s[1..]);
        assert Dashed(isWord, s, true) == "" + Dashed(isWord, s[1..], true) == Dashed(isWord, s[1..], true);
      } else {
        SlugOfRun(isWord, s, RunLength(s, isWord));
      }
    }
  }

  lemma {:induction false} SlugOfRun(isWord: char -> bool, s: string, n: nat)
    requires !isWord('-') && s != "" && isWord(s[0]) && n == RunLength(s, isWord)
    ensures RStripDash(Dashed(isWord, s, true)) == Join(Runs(s, isWord), '-')
    decreases |s|, 0
  {
    hide RStripDash, Dashed, Runs, Join, AllIn;
    var w, r := s[..n], s[n..];
    assert s == w + r && forall k :: 0 <= k < n ==> w[k] == s[k];
    DashedRun(isWord, w, r, true);
    HeadRun(isWord, s, n);
    RStripDashAcross(w, "");
    if r == "" {
      NothingDashed(isWord);
      JoinCons(w, []);
      assert w + "" == w && [w] + [] == [w];
    } else {
      SlugOfRuns(isWord, r[1..]);
      RStripDashAcross(w, Dashed(isWord, r[1..], true));
      Associate(w, "-", Dashed(isWord, r[1..], true));
      RunsPlain(r[1..], isWord);
      JoinCons(w, Runs(r[1..], isWord));
    }
  }

  lemma NothingDashed(isWord: char -> bool)
    ensures Dashed(isWord, "", false) == "" && Runs("", isWord) == []
  {
  }

  /** A string that starts with a run of length `n`: the run, then a gap, then the rest. */
  lemma HeadRun(isWord: char -> bool, s: string, n: nat)
    requires s != "" && isWord(s[0]) && n == RunLength(s, isWord)
    ensures 1 <= n && Runs(s, isWord) == [s[..n]] + Runs(s[n..], isWord) && isWord(s[..n][n - 1])
    ensures s[n..] != "" ==>
      && Dashed(isWord, s[n..], false) == "-" + Dashed(isWord, s[n..][1..], true)
      && Runs(s[n..], isWord) == Runs(s[n..][1..], isWord)
  {
    assert s[n - 1] == s[..n][n - 1];
    assert n < |s| ==> s[n..][0] == s[n];
  }

  lemma JoinCons(w: string, rest: seq<string>)
    requires forall k :: 0 <= k < |rest| ==> rest[k] != ""
    ensures Join(rest, '-') == "" <==> rest == []
    ensures Join([w] + rest, '-') == if rest == [] then w else w + "-" + Join(rest, '-')
  {
    assert ([w] + rest)[1..] == rest;
  }

  /** What a slug is: the words of the stripped, lower-cased heading joined by dashes, cut to 64
      characters. */
  lemma SlugIsWords(isWord: char -> bool, lower: string -> string, text: string)
    requires !isWord('-')
    ensures var full := Join(Runs(lower(Strip(text)), isWord), '-');
      && Slugify(isWord, lower, text) <= full
      && |Slugify(isWord, lower, text)| == if |full| < 64 then |full| else 64
  {
    hide Runs, Join, Strip, LStripDash, RStripDash, Dashed;
    LStripDashed(isWord, lower(Strip(text)));
    SlugOfRuns(isWord, lower(Strip(text)));
  }

  /** A slug is made of word characters and dashes only. */
  lemma SlugAlphabet(isWord: char -> bool, lower: string -> string, text: string)
    ensures forall c :: c in Slugify(isWord, lower, text) ==> isWord(c) || c == '-'
  {
    DashedAlphabet(isWord, lower(Strip(text)), false);
    var d := Dashed(isWord, lower(Strip(text)), false);
    LStripDashSubset(d);
    RStripDashSubset(LStripDash(d));
  }

  lemma {:induction false} DashedAlphabet(isWord: char -> bool, s: string, afterDash: bool)
    ensures forall c :: c in Dashed(isWord, s, afterDash) ==> isWord(c) || c == '-'
  {
    if s != "" {
      DashedAlphabet(isWord, s[1..], !isWord(s[0]));
    }
  }

  lemma {:induction false} LStripDashSubset(s: string)
    ensures forall c :: c in LStripDash(s) ==> c in s
  {
    if s != "" && s[0] == '-' {
      LStripDashSubset(s[1..]);
    }
  }

  lemma {:induction false} RStripDashSubset(s: string)
    ensures forall c :: c in RStripDash(s) ==> c in s
  {
    if s != "" && s[|s| - 1] == '-' {
      RStripDashSubset(s[..|s| - 1]);
    }
  }

  // ----- disambiguation -----

  /** `segment` with the numeric suffix `k`. */
  function Suffixed(segment: string, k: nat): string {
    segment + "-" + Decimal(k)
  }

  lemma SuffixedInjective(segment: string, a: nat, b: nat)
    requires Suffixed(segment, a) == Suffixed(segment, b)
    ensures a == b
  {
    assert Suffixed(segment, a)[|segment| + 1..] == Decimal(a);
    assert Suffixed(segment, b)[|segment| + 1..] == Decimal(b);
    DecimalInjective(a, b);
  }

  /** The least free suffix from `k` up; at most one probe per taken segment, and one more. */
  function FreeSuffix(segment: string, taken: set<string>, k: nat): (r: nat)
    ensures k <= r <= k + |taken|
    ensures Suffixed(segment, r) !in taken
    ensures forall j :: k <= j < r ==> Suffixed(segment, j) in taken
    decreases |taken|
  {
    var c := Suffixed(segment, k);
    if c !in taken then k else
      var r := FreeSuffix(segment, taken - {c}, k + 1);
      assert Suffixed(segment, r) !in taken by {
        if Suffixed(segment, r) == c { SuffixedInjective(segment, r, k); }
      }
      r
  }

  /** Every suffix from `lo` up to below `hi` is taken. */
  predicate AllTaken(segment: string, taken: set<string>, lo: nat, hi: nat) {
    forall j :: lo <= j < hi ==> Suffixed(segment, j) in taken
  }

  function Disambiguated(segment: string, taken: set<string>): string {
    if segment !in taken then segment else Suffixed(segment, FreeSuffix(segment, taken, 2))
  }

  /** The least free suffix of a taken segment is at most one more than the number of siblings: with the
      test of the segment itself, that many membership tests find it. */
  lemma SuffixBound(segment: string, taken: set<string>)
    requires segment in taken
    ensures 2 <= FreeSuffix(segment, taken, 2) <= |taken| + 1
  {
    var others := taken - {segment};
    var r := FreeSuffix(segment, others, 2);
    assert |Suffixed(segment, r)| > |segment|;
    assert Suffixed(segment, r) !in taken;
  }

  /** Rewrites a segment so that no sibling uses it: unchanged when free, otherwise with the least
      free numeric suffix from 2 up, which is at most one more than the number of siblings. */
  method DisambiguateSegment(segment: string, taken: set<string>) returns (r: string)
    ensures r !in taken
    ensures segment !in taken ==> r == segment
    ensures segment in taken ==> exists k ::
      2 <= k <= |taken| + 1 && r == Suffixed(segment, k) && AllTaken(segment, taken, 2, k)
    ensures r == Disambiguated(segment, taken)
  {
    if segment !in taken {
      return segment;
    }
    SuffixBound(segment, taken);
    ghost var least := FreeSuffix(segment, taken, 2);
    var suffix := 2;
    var candidate := Suffixed(segment, suffix);
    while candidate in taken
      invariant 2 <= suffix <= least && candidate == Suffixed(segment, suffix)
      decreases least - suffix
    {
      suffix := suffix + 1;
      candidate := Suffixed(segment, suffix);
    }
    assert AllTaken(segment, taken, 2, suffix);
    return candidate;
  }

  /** What the rewritten segments look like. */
  lemma SuffixesLookLike()
    ensures Disambiguated("1.", {"2."}) == "1."
    ensures Disambiguated("1.", {"1."}) == "1.-2"
    ensures Disambiguated("1.", {"1.", "1.-2"}) == "1.-3"
  {
    assert Suffixed("1.", 2) == "1.-2" && Suffixed("1.", 3) == "1.-3";
  }
}
