/** The parser configuration that polls use: the default structural patterns, written out as the
    anchored matchers their regular expressions describe. */
module DefaultPatterns {
  import opened Prelude
  import opened Text
  import opened Matching
  import opened Builder

  /** End of the longest run of `p` characters from `pos`. */
  function Run(text: string, pos: nat, p: char -> bool): (r: nat)
    requires pos <= |text|
    ensures pos <= r <= |text|
    ensures forall k :: pos <= k < r ==> p(text[k])
    ensures r < |text| ==> !p(text[r])
    decreases |text| - pos
  {
    if pos < |text| && p(text[pos]) then Run(text, pos + 1, p) else pos
  }

  /** A non-empty run. */
  function Run1(text: string, pos: nat, p: char -> bool): (r: Option<nat>)
    requires pos <= |text|
    ensures r.Some? ==> pos < r.value <= |text|
  {
    var r := Run(text, pos, p);
    if pos < r then Some(r) else None
  }

  predicate Starts(text: string, pos: nat, word: string) {
    pos + |word| <= |text| && text[pos..pos + |word|] == word
  }

  /** A word, whitespace, and a non-empty run: `PART\s+\d+` and its like. */
  function WordThenRun(text: string, pos: nat, word: string, p: char -> bool): (r: Option<nat>)
    ensures r.Some? ==> pos + |word| < r.value <= |text| && Starts(text, pos, word)
  {
    if !Starts(text, pos, word) then None else
      match Run1(text, pos + |word|, IsSpace)
      case None => None
      case Some(e) => Run1(text, e, p)
  }

  predicate IsUpper(c: char) {
    'A' <= c <= 'Z'
  }

  /** `\d+[A-Z]?\.` */
  function SectionEnd(text: string, pos: nat, digit: char -> bool): (r: Option<nat>)
    ensures r.Some? ==> pos < r.value <= |text| && text[r.value - 1] == '.' && digit(text[pos])
  {
    if pos >= |text| then None else
      match Run1(text, pos, digit)
      case None => None
      case Some(e) =>
        var f := if e < |text| && IsUpper(text[e]) then e + 1 else e;
        if f < |text| && text[f] == '.' then Some(f + 1) else None
  }

  /** A parenthesised run that satisfies `ok`, which is given its bounds. */
  function Parenthesised(text: string, pos: nat, p: char -> bool, ok: (nat, nat) -> bool): (r: Option<nat>)
    ensures r.Some? ==> pos < r.value <= |text| && text[pos] == '('
  {
    if pos >= |text| || text[pos] != '(' then None else
      match Run1(text, pos + 1, p)
      case None => None
      case Some(e) => if ok(pos + 1, e) && e < |text| && text[e] == ')' then Some(e + 1) else None
  }

  const CAST: string := "ČÁST"
  const CLANEK: string := "Čl."

  predicate RomanUpper(c: char) {
    c in "IVXLCDM"
  }

  predicate RomanLower(c: char) {
    c in "ivxlcdm"
  }

  predicate NotSpace(c: char) {
    !IsSpace(c)
  }

  predicate IsLower(c: char) {
    'a' <= c <= 'z'
  }

  /** `ČÁST\s+\S+` */
  function CastEnd(text: string, pos: nat): (r: Option<nat>)
    ensures r.Some? ==> pos + |CAST| < r.value <= |text| && Starts(text, pos, CAST)
  {
    WordThenRun(text, pos, CAST, NotSpace)
  }

  /** The default patterns in their order. `digit` stands for the regex digit class. */
  function Defaults(digit: char -> bool): (r: seq<Pattern>)
    ensures |r| == 7
  {
    [Pattern(1, false, (text: string, pos: nat) => WordThenRun(text, pos, "PART", digit)),
     Pattern(1, false, CastEnd),
     Pattern(2, false, (text: string, pos: nat) => WordThenRun(text, pos, CLANEK, RomanUpper)),
     Pattern(4, true, (text: string, pos: nat) => SectionEnd(text, pos, digit)),
     Pattern(5, true, (text: string, pos: nat) => Parenthesised(text, pos, digit, (_, _) => true)),
     Pattern(7, true, (text: string, pos: nat) =>
       Parenthesised(text, pos, RomanLower,
         (s: nat, e: nat) => s + 2 <= e || (s < |text| && text[s] == 'i'))),
     Pattern(6, true, (text: string, pos: nat) =>
       Parenthesised(text, pos, IsLower, (s: nat, e: nat) => e == s + 1))]
  }

  /** The configuration without overrides: no ignored paragraphs, bold titles on, no heading offset. */
  function DefaultConfig(digit: char -> bool, isWord: char -> bool, lower: string -> string): Config {
    Config(Defaults(digit), _ => false, true, 0, isWord, lower)
  }

  /** What the digit and word classes and lower-casing are on ASCII. */
  ghost predicate AsciiRight(digit: char -> bool, isWord: char -> bool, lower: string -> string) {
    && (forall c: char :: c as int < 128 ==> (digit(c) <==> '0' <= c <= '9'))
    && (forall c: char :: c as int < 128 ==> (isWord(c) <==> '0' <= c <= '9' || 'a' <= c <= 'z' || 'A' <= c <= 'Z' || c == '_'))
    && (forall s :: (forall k :: 0 <= k < |s| ==> 'a' <= s[k] <= 'z') ==> lower(s) == s)
  }

  /** A character some default match can start with. */
  predicate CanStart(digit: char -> bool, c: char) {
    c == 'P' || c == CAST[0] || c == '(' || digit(c)
  }

  lemma WordStarts(text: string, pos: nat, word: string)
    requires Starts(text, pos, word) && word != ""
    ensures pos < |text| && text[pos] == word[0]
  {
    assert text[pos..pos + |word|][0] == word[0];
  }

  /** What every default match looks like: inside the text, not empty, and with a character that is not
      whitespace at one of its ends. */
  lemma DefaultMatch(digit: char -> bool, k: nat, text: string, pos: nat)
    requires k < 7 && Defaults(digit)[k].matchEnd(text, pos).Some?
    ensures var e := Defaults(digit)[k].matchEnd(text, pos).value;
      && pos < e <= |text| && CanStart(digit, text[pos])
      && (!IsSpace(text[pos]) || text[e - 1] == '.')
  {
    hide WordThenRun, SectionEnd, Parenthesised;
    if k == 0 {
      WordStarts(text, pos, "PART");
    } else if k == 1 {
      WordStarts(text, pos, CAST);
    } else if k == 2 {
      WordStarts(text, pos, CLANEK);
    }
  }

  /** The default configuration is one the builder can work with. */
  lemma DefaultValid(digit: char -> bool, isWord: char -> bool, lower: string -> string)
    ensures ValidConfig(DefaultConfig(digit, isWord, lower)) && DepthsPositive(DefaultConfig(digit, isWord, lower))
  {
    hide Strip, Defaults;
    var cfg := DefaultConfig(digit, isWord, lower);
    DefaultDepths(digit);
    forall k, text, pos: nat | 0 <= k < |cfg.patterns| && pos < |text| && cfg.patterns[k].matchEnd(text, pos).Some?
      ensures pos < cfg.patterns[k].matchEnd(text, pos).value <= |text|
      ensures Strip(text[pos..cfg.patterns[k].matchEnd(text, pos).value]) != ""
    {
      DefaultMatch(digit, k, text, pos);
      SpanNotBlank(text, pos, cfg.patterns[k].matchEnd(text, pos).value);
    }
  }

  lemma DefaultDepths(digit: char -> bool)
    ensures forall k :: 0 <= k < |Defaults(digit)| ==> 1 <= Defaults(digit)[k].depth
  {
  }

  // ----- what the default patterns match -----

  /** The longest stretch of `p` characters from `from` is not empty and ends at `to`. */
  predicate Spans(text: string, from: nat, to: nat, p: char -> bool) {
    && from < to <= |text| && (forall k :: from <= k < to ==> p(text[k]))
    && (to < |text| ==> !p(text[to]))
  }

  lemma Run1Iff(text: string, pos: nat, p: char -> bool, e: nat)
    requires pos <= |text|
    ensures Run1(text, pos, p) == Some(e) <==> Spans(text, pos, e, p)
  {
    if Spans(text, pos, e, p) {
      RunIs(text, pos, p, e);
    }
  }

  /** The word, whitespace up to `m`, and a `p` stretch up to `e`. */
  predicate WordSpans(text: string, pos: nat, word: string, p: char -> bool, m: nat, e: nat) {
    Starts(text, pos, word) && Spans(text, pos + |word|, m, IsSpace) && Spans(text, m, e, p)
  }

  lemma WordIff(text: string, pos: nat, word: string, p: char -> bool, e: nat)
    ensures WordThenRun(text, pos, word, p) == Some(e) <==> exists m: nat :: WordSpans(text, pos, word, p, m, e)
  {
    hide Spans, Run1;
    if WordThenRun(text, pos, word, p) == Some(e) {
      var m := Run1(text, pos + |word|, IsSpace).value;
      Run1Iff(text, pos + |word|, IsSpace, m);
      Run1Iff(text, m, p, e);
      assert WordSpans(text, pos, word, p, m, e);
    }
    if m: nat :| WordSpans(text, pos, word, p, m, e) {
      Run1Iff(text, pos + |word|, IsSpace, m);
      Run1Iff(text, m, p, e);
    }
  }

  /** Digits up to `d`, at most one capital letter, a full stop, and nothing more. */
  predicate SectionSpans(text: string, pos: nat, digit: char -> bool, d: nat, e: nat) {
    && Spans(text, pos, d, digit)
    && ((e == d + 1 && d < |text| && text[d] == '.') ||
        (e == d + 2 && d + 1 < |text| && 'A' <= text[d] <= 'Z' && text[d + 1] == '.'))
  }

  lemma SectionIff(text: string, pos: nat, digit: char -> bool, e: nat)
    ensures SectionEnd(text, pos, digit) == Some(e) <==> exists d: nat :: SectionSpans(text, pos, digit, d, e)
  {
    if pos < |text| {
      hide Run1, Spans;
      var mid := Run1(text, pos, digit);
      forall d: nat
        ensures mid == Some(d) <==> Spans(text, pos, d, digit)
      {
        Run1Iff(text, pos, digit, d);
      }
      if mid.Some? {
        assert SectionEnd(text, pos, digit) == Some(e) <==> SectionSpans(text, pos, digit, mid.value, e);
      }
    }
  }

  /** A bracket, a `p` stretch up to `d`, and the closing bracket. */
  predicate BracketSpans(text: string, pos: nat, p: char -> bool, d: nat, e: nat) {
    pos < |text| && text[pos] == '(' && Spans(text, pos + 1, d, p) && d < |text| && text[d] == ')' && e == d + 1
  }

  lemma BracketIff(text: string, pos: nat, p: char -> bool, ok: (nat, nat) -> bool, e: nat)
    ensures Parenthesised(text, pos, p, ok) == Some(e) <==>
      exists d: nat :: BracketSpans(text, pos, p, d, e) && ok(pos + 1, d)
  {
    if pos < |text| && text[pos] == '(' {
      hide Run1, Spans;
      var mid := Run1(text, pos + 1, p);
      forall d: nat
        ensures mid == Some(d) <==> Spans(text, pos + 1, d, p)
      {
        Run1Iff(text, pos + 1, p, d);
      }
      if mid.Some? {
        assert BracketSpans(text, pos, p, mid.value, e) <==> mid.value < |text| && text[mid.value] == ')' && e == mid.value + 1;
      }
    }
  }

  /** The default table: depths and boundary demands in configuration order. */
  lemma DefaultTable(digit: char -> bool)
    ensures var ps := Defaults(digit);
      && |ps| == 7
      && ps[0].depth == 1 && ps[1].depth == 1 && ps[2].depth == 2 && ps[3].depth == 4
      && ps[4].depth == 5 && ps[5].depth == 7 && ps[6].depth == 6
      && !ps[0].requiresBoundary && !ps[1].requiresBoundary && !ps[2].requiresBoundary && ps[3].requiresBoundary
      && ps[4].requiresBoundary && ps[5].requiresBoundary && ps[6].requiresBoundary
  {
  }

  /** What the unbracketed default patterns match at a position. */
  lemma DefaultWordsIff(digit: char -> bool, text: string, pos: nat, e: nat)
    ensures var ps := Defaults(digit);
      && (ps[0].matchEnd(text, pos) == Some(e) <==> exists m: nat :: WordSpans(text, pos, "PART", digit, m, e))
      && (ps[1].matchEnd(text, pos) == Some(e) <==> exists m: nat :: WordSpans(text, pos, "ČÁST", NotSpace, m, e))
      && (ps[2].matchEnd(text, pos) == Some(e) <==> exists m: nat :: WordSpans(text, pos, "Čl.", RomanUpper, m, e))
      && (ps[3].matchEnd(text, pos) == Some(e) <==> exists d: nat :: SectionSpans(text, pos, digit, d, e))
  {
    hide WordThenRun, SectionEnd, WordSpans, SectionSpans;
    WordIff(text, pos, "PART", digit, e);
    WordIff(text, pos, "ČÁST", NotSpace, e);
    WordIff(text, pos, "Čl.", RomanUpper, e);
    SectionIff(text, pos, digit, e);
  }

  /** What the bracketed default patterns match at a position: digits; one or more `i` or at least two small
      roman digits; one small letter. */
  lemma DefaultBracketsIff(digit: char -> bool, text: string, pos: nat, e: nat)
    ensures var ps := Defaults(digit);
      && (ps[4].matchEnd(text, pos) == Some(e) <==> exists d: nat :: BracketSpans(text, pos, digit, d, e))
      && (ps[5].matchEnd(text, pos) == Some(e) <==> exists d: nat ::
            BracketSpans(text, pos, RomanLower, d, e) && (d >= pos + 3 || text[pos + 1] == 'i'))
      && (ps[6].matchEnd(text, pos) == Some(e) <==> exists d: nat ::
            BracketSpans(text, pos, IsLower, d, e) && d == pos + 2)
  {
    hide Parenthesised;
    BracketIff(text, pos, digit, (_, _) => true, e);
    BracketIff(text, pos, RomanLower, (s: nat, e: nat) => s + 2 <= e || (s < |text| && text[s] == 'i'), e);
    BracketIff(text, pos, IsLower, (s: nat, e: nat) => e == s + 1, e);
  }

  lemma SpanNotBlank(text: string, pos: nat, e: nat)
    requires pos < e <= |text| && (!IsSpace(text[pos]) || text[e - 1] == '.')
    ensures Strip(text[pos..e]) != ""
  {
    hide Strip;
    var span := text[pos..e];
    assert span[0] == text[pos] && span[|span| - 1] == text[e - 1];
    if IsSpace(text[pos]) {
      HoldsNotBlank(span, |span| - 1);
    } else {
      HoldsNotBlank(span, 0);
    }
  }

  // ----- a labelled paragraph under the default configuration -----

  lemma {:induction false} RunIs(text: string, pos: nat, p: char -> bool, e: nat)
    requires pos <= e <= |text| && (forall k :: pos <= k < e ==> p(text[k])) && (e < |text| ==> !p(text[e]))
    ensures Run(text, pos, p) == e
    decreases e - pos
  {
    if pos < e {
      RunIs(text, pos + 1, p, e);
    }
  }

  lemma NoHitAt(digit: char -> bool, text: string, pos: nat)
    requires pos < |text| && !CanStart(digit, text[pos])
    ensures Hit(text, Defaults(digit), pos) == None
  {
    hide HitFrom, CanStart, Defaults;
    var hit := Hit(text, Defaults(digit), pos);
    if hit.Some? {
      DefaultMatch(digit, hit.value.which, text, pos);
    }
  }

  /** A stretch without starting characters holds no match. */
  lemma {:induction false} NoHits(digit: char -> bool, text: string, from: nat)
    requires ProperMatches(Defaults(digit)) && forall pos :: from <= pos < |text| ==> !CanStart(digit, text[pos])
    ensures ScanOf(text, Defaults(digit), from) == []
    decreases |text| - from
  {
    hide Hit, CanStart, Defaults;
    if from < |text| {
      NoHitAt(digit, text, from);
      NoHits(digit, text, from + 1);
    }
  }

  /** A part label: the word `ČÁST`, a space, and a word of the document. */
  function PartLabel(word: string): string {
    CAST + " " + word
  }

  predicate NoSpace(s: string) {
    forall k :: 0 <= k < |s| ==> !IsSpace(s[k])
  }

  predicate Quiet(digit: char -> bool, s: string) {
    forall k :: 0 <= k < |s| ==> !CanStart(digit, s[k])
  }

  lemma CastMatch(word: string, rest: string)
    requires word != "" && NoSpace(word) && (rest != "" ==> IsSpace(rest[0]))
    ensures CastEnd(PartLabel(word) + rest, 0) == Some(|PartLabel(word)|)
  {
    var text := PartLabel(word) + rest;
    assert text[..|CAST|] == CAST && text[|CAST|] == ' ';
    assert forall k :: 0 <= k < |word| ==> text[|CAST| + 1 + k] == word[k];
    assert rest != "" ==> text[|PartLabel(word)|] == rest[0];
    RunIs(text, |CAST|, IsSpace, |CAST| + 1);
    RunIs(text, |CAST| + 1, NotSpace, |PartLabel(word)|);
  }

  lemma CastHit(digit: char -> bool, word: string, rest: string)
    requires word != "" && NoSpace(word) && (rest != "" ==> IsSpace(rest[0]))
    ensures Hit(PartLabel(word) + rest, Defaults(digit), 0) == Some(Match(1, 0, |PartLabel(word)|))
  {
    hide CastEnd;
    var text, pats := PartLabel(word) + rest, Defaults(digit);
    CastMatch(word, rest);
    assert text[0] == CAST[0];
    if Starts(text, 0, "PART") {
      WordStarts(text, 0, "PART");
    }
    assert pats[0].matchEnd(text, 0) == None;
    assert HitFrom(text, pats, 0, 1) == Some(Match(1, 0, |PartLabel(word)|));
  }

  lemma CastScan(digit: char -> bool, word: string, rest: string)
    requires word != "" && NoSpace(word) && (rest != "" ==> IsSpace(rest[0])) && Quiet(digit, rest)
    requires ProperMatches(Defaults(digit))
    ensures ScanOf(PartLabel(word) + rest, Defaults(digit), 0) == [Match(1, 0, |PartLabel(word)|)]
  {
    hide Hit, CanStart, Defaults;
    var text, e := PartLabel(word) + rest, |PartLabel(word)|;
    CastHit(digit, word, rest);
    forall pos | e <= pos < |text|
      ensures !CanStart(digit, text[pos])
    {
      assert text[pos] == rest[pos - e];
    }
    NoHits(digit, text, e);
    assert ScanOf(text, Defaults(digit), 0) == [Match(1, 0, e)] + ScanOf(text, Defaults(digit), e);
  }

  /** A paragraph with a part label and a body opens one clause of depth 1. */
  lemma PartParagraph(digit: char -> bool, isWord: char -> bool, lower: string -> string, b: State, word: string, body: string,
                      bold: seq<(nat, nat)>)
    requires Shaped(b) && word != "" && NoSpace(word) && !digit(' ')
    requires body != "" && NoSpace(body) && Quiet(digit, body)
    ensures ValidConfig(DefaultConfig(digit, isWord, lower))
    ensures Consume(DefaultConfig(digit, isWord, lower), b, Paragraph(PartLabel(word) + " " + body, bold))
      == OpenClause(DefaultConfig(digit, isWord, lower), b, 1, Some(PartLabel(word)), body, None)
  {
    hide Defaults, ScanOf, OpenClause, Strip, CanStart;
    var cfg, text, name := DefaultConfig(digit, isWord, lower), PartLabel(word) + " " + body, PartLabel(word);
    DefaultValid(digit, isWord, lower);
    Associate(name, " ", body);
    QuietSpace(digit, body);
    CastScan(digit, word, " " + body);
    var ms := ScanOf(text, cfg.patterns, 0);
    assert text[0..|name|] == name && text[|name|..|text|] == " " + body;
    StripTight(name);
    StripSpace(body);
    StripOfNothing(text);
    DepthOfCast(digit);
    assert OpenFrom(cfg, b, text, ms, 0) == OpenMatch(cfg, b, text, ms, 0);
  }

  lemma QuietSpace(digit: char -> bool, body: string)
    requires !digit(' ') && Quiet(digit, body)
    ensures Quiet(digit, " " + body)
  {
    assert forall k :: 1 <= k < |" " + body| ==> (" " + body)[k] == body[k - 1];
  }

  lemma DepthOfCast(digit: char -> bool)
    ensures Defaults(digit)[1].depth == 1
  {
  }

  // ----- a numbered paragraph under the default configuration -----

  /** A section label: digits and a full stop. */
  function SectionLabel(number: string): string {
    number + "."
  }

  predicate AllDigits(digit: char -> bool, s: string) {
    forall k :: 0 <= k < |s| ==> digit(s[k])
  }

  /** What the digit class must not hold for a section label to be read as one. */
  predicate PlainDigits(digit: char -> bool) {
    !digit(' ') && !digit('.') && !digit('P') && !digit(CAST[0]) && !digit(CLANEK[0]) && !digit('(')
  }

  lemma SectionHit(digit: char -> bool, number: string, rest: string)
    requires PlainDigits(digit) && number != "" && AllDigits(digit, number)
    ensures Hit(SectionLabel(number) + rest, Defaults(digit), 0) == Some(Match(3, 0, |number| + 1))
  {
    hide Hit, WordSpans;
    var text, pats, n := SectionLabel(number) + rest, Defaults(digit), |number|;
    assert forall k :: 0 <= k < n ==> text[k] == number[k];
    assert text[n] == '.' && SectionSpans(text, 0, digit, n, n + 1);
    DefaultWordsIff(digit, text, 0, n + 1);
    forall k | 0 <= k < 3
      ensures pats[k].matchEnd(text, 0) == None
    {
      NotAWord(digit, text, k);
    }
    HitIff(text, pats, 0, Match(3, 0, n + 1));
  }

  lemma NotAWord(digit: char -> bool, text: string, k: nat)
    requires k < 3 && text != "" && PlainDigits(digit) && digit(text[0])
    ensures Defaults(digit)[k].matchEnd(text, 0) == None
  {
    var word := if k == 0 then "PART" else if k == 1 then CAST else CLANEK;
    FirstCharacter(text, word);
  }

  lemma FirstCharacter(text: string, word: string)
    requires word != ""
    ensures Starts(text, 0, word) ==> text != "" && text[0] == word[0]
  {
    if Starts(text, 0, word) {
      WordStarts(text, 0, word);
    }
  }

  lemma SectionScan(digit: char -> bool, number: string, rest: string)
    requires PlainDigits(digit) && number != "" && AllDigits(digit, number) && Quiet(digit, rest)
    requires ProperMatches(Defaults(digit))
    ensures ScanOf(SectionLabel(number) + rest, Defaults(digit), 0) == [Match(3, 0, |number| + 1)]
  {
    hide Hit, CanStart, Defaults;
    var text, e := SectionLabel(number) + rest, |number| + 1;
    SectionHit(digit, number, rest);
    forall pos | e <= pos < |text|
      ensures !CanStart(digit, text[pos])
    {
      assert text[pos] == rest[pos - e];
    }
    NoHits(digit, text, e);
    assert ScanOf(text, Defaults(digit), 0) == [Match(3, 0, e)] + ScanOf(text, Defaults(digit), e);
  }

  /** A paragraph with a section label and a body opens one clause of depth 4. */
  lemma SectionParagraph(digit: char -> bool, isWord: char -> bool, lower: string -> string, b: State, number: string,
                         body: string, bold: seq<(nat, nat)>)
    requires Shaped(b) && PlainDigits(digit) && number != "" && NoSpace(number) && AllDigits(digit, number)
    requires body != "" && NoSpace(body) && Quiet(digit, body)
    ensures ValidConfig(DefaultConfig(digit, isWord, lower))
    ensures Consume(DefaultConfig(digit, isWord, lower), b, Paragraph(SectionLabel(number) + " " + body, bold))
      == OpenClause(DefaultConfig(digit, isWord, lower), b, 4, Some(SectionLabel(number)), body, None)
  {
    hide Defaults, ScanOf, OpenClause, Strip, CanStart;
    var cfg, text, name := DefaultConfig(digit, isWord, lower), SectionLabel(number) + " " + body, SectionLabel(number);
    DefaultValid(digit, isWord, lower);
    Associate(name, " ", body);
    QuietSpace(digit, body);
    SectionScan(digit, number, " " + body);
    var ms := ScanOf(text, cfg.patterns, 0);
    assert text[0..|name|] == name && text[|name|..|text|] == " " + body;
    StripTight(name);
    StripSpace(body);
    StripOfNothing(text);
    DefaultTable(digit);
    assert OpenFrom(cfg, b, text, ms, 0) == OpenMatch(cfg, b, text, ms, 0);
  }
}
