/** Option and result types, and the few Python string operations the system relies on. */
module Prelude {

  datatype Option<+T> = None | Some(value: T)

  datatype Result<+T, +E> = Ok(value: T) | Err(error: E)

  predicate NoDuplicates<T(==)>(s: seq<T>) {
    forall a, b :: 0 <= a < b < |s| ==> s[a] != s[b]
  }

  lemma TakeSnoc<T>(s: seq<T>, i: nat)
    requires i < |s|
    ensures s[..i + 1] == s[..i] + [s[i]]
  {
  }

  lemma Reslice<T>(s: seq<T>, a: nat, b: nat)
    requires a <= b <= |s|
    ensures s[a..][..b - a] == s[a..b] && s[a..][b - a..] == s[b..]
  {
  }

  lemma Associate<T>(a: seq<T>, b: seq<T>, c: seq<T>)
    ensures a + b + c == a + (b + c)
  {
  }

  lemma Distribute(n: int, m: int)
    ensures (n + 1) * m == n * m + m
  {
  }
}

/** Whitespace, `strip`, `split("/")`, `"/".join` and decimal numerals, with the laws that
    relate them. */
module Text {
  import opened Prelude

  /** Python's `str.isspace` on one character. */
  predicate IsSpace(c: char) {
    var n := c as int;
    9 <= n <= 13 || 28 <= n <= 32 || n == 0x85 || n == 0xA0 || n == 0x1680 ||
    0x2000 <= n <= 0x200A || n == 0x2028 || n == 0x2029 || n == 0x202F || n == 0x205F || n == 0x3000
  }

  /** The non-space characters of `s`, in order. */
  function NonSpace(s: string): (r: string)
  {
    if s == "" then "" else (if IsSpace(s[0]) then "" else [s[0]]) + NonSpace(s[1..])
  }

  lemma {:induction false} NonSpaceConcat(a: string, b: string)
    ensures NonSpace(a + b) == NonSpace(a) + NonSpace(b)
  {
    if a == "" {
      assert a + b == b;
    } else {
      assert (a + b)[1..] == a[1..] + b;
      NonSpaceConcat(a[1..], b);
    }
  }

  function LStrip(s: string): (r: string)
    ensures r != "" ==> !IsSpace(r[0])
    ensures |r| <= |s|
  {
    if s == "" then "" else if IsSpace(s[0]) then LStrip(s[1..]) else s
  }

  function RStrip(s: string): (r: string)
    ensures r <= s
    ensures r != "" ==> !IsSpace(r[|r| - 1])
    ensures forall k :: |r| <= k < |s| ==> IsSpace(s[k])
  {
    if s == "" then "" else if IsSpace(s[|s| - 1]) then RStrip(s[..|s| - 1]) else s
  }

  /** Python's `str.strip()`. */
  function Strip(s: string): string {
    RStrip(LStrip(s))
  }

  lemma {:induction false} StripKeepsNonSpace(s: string)
    ensures NonSpace(Strip(s)) == NonSpace(s)
  {
    LStripKeepsNonSpace(s);
    RStripKeepsNonSpace(LStrip(s));
  }

  lemma {:induction false} LStripKeepsNonSpace(s: string)
    ensures NonSpace(LStrip(s)) == NonSpace(s)
  {
    if s != "" && IsSpace(s[0]) {
      LStripKeepsNonSpace(s[1..]);
    }
  }

  lemma {:induction false} RStripKeepsNonSpace(s: string)
    ensures NonSpace(RStrip(s)) == NonSpace(s)
  {
    if s != "" && IsSpace(s[|s| - 1]) {
      var front := s[..|s| - 1];
      RStripKeepsNonSpace(front);
      NonSpaceConcat(front, [s[|s| - 1]]);
      assert s == front + [s[|s| - 1]];
    }
  }

  /** A string strips to nothing exactly when it has no non-space character. */
  lemma StripEmptyIff(s: string)
    ensures Strip(s) == "" <==> NonSpace(s) == ""
  {
    StripKeepsNonSpace(s);
    var t := Strip(s);
    if t != "" {
      var front := t[..|t| - 1];
      assert t == front + [t[|t| - 1]];
      NonSpaceConcat(front, [t[|t| - 1]]);
    }
  }

  lemma {:induction false} NonSpaceHolds(s: string, c: char)
    requires !IsSpace(c)
    ensures c in NonSpace(s) <==> c in s
  {
    if s != "" {
      NonSpaceHolds(s[1..], c);
      assert s == [s[0]] + s[1..];
    }
  }

  /** A character that is not whitespace survives stripping, and stripping adds none. */
  lemma StripHolds(s: string, c: char)
    requires !IsSpace(c)
    ensures c in Strip(s) <==> c in s
  {
    StripKeepsNonSpace(s);
    NonSpaceHolds(s, c);
    NonSpaceHolds(Strip(s), c);
  }

  lemma HoldsNotBlank(s: string, k: nat)
    requires k < |s| && !IsSpace(s[k])
    ensures Strip(s) != ""
  {
    StripHolds(s, s[k]);
  }

  /** One leading space is stripped. */
  lemma StripSpace(s: string)
    requires s != "" && !IsSpace(s[0]) && !IsSpace(s[|s| - 1])
    ensures Strip(" " + s) == s
  {
    assert (" " + s)[1..] == s;
    StripTight(s);
  }

  /** Nothing to strip from a string that starts and ends with other characters. */
  lemma StripTight(s: string)
    requires s != "" && !IsSpace(s[0]) && !IsSpace(s[|s| - 1])
    ensures Strip(s) == s
  {
  }

  /** What stripping returns: a stretch of the string with nothing but whitespace around it, that neither
      starts nor ends with whitespace. */
  lemma StripIsMiddle(s: string) returns (from: nat, to: nat)
    ensures from <= to <= |s| && Strip(s) == s[from..to]
    ensures forall k :: 0 <= k < from || to <= k < |s| ==> IsSpace(s[k])
    ensures from < to ==> !IsSpace(s[from]) && !IsSpace(s[to - 1])
  {
    var t := LStrip(s);
    from := LStripIsTail(s);
    to := from + |RStrip(t)|;
    assert RStrip(t) == t[..|RStrip(t)|];
    assert forall k :: 0 <= k < |t| ==> t[k] == s[from + k];
    forall k | to <= k < |s|
      ensures IsSpace(s[k])
    {
      assert t[k - from] == s[k];
    }
  }

  lemma {:induction false} LStripIsTail(s: string) returns (from: nat)
    ensures from <= |s| && LStrip(s) == s[from..] && forall k :: 0 <= k < from ==> IsSpace(s[k])
  {
    if s == "" || !IsSpace(s[0]) {
      from := 0;
    } else {
      var n := LStripIsTail(s[1..]);
      from := n + 1;
      forall k | 0 <= k < from
        ensures IsSpace(s[k])
      {
        assert k > 0 ==> s[k] == s[1..][k - 1];
      }
    }
  }

  // ----- maximal runs -----

  /** Length of the longest prefix of `s` in the class `p`. */
  function RunLength(s: string, p: char -> bool): (n: nat)
    ensures n <= |s|
    ensures forall k :: 0 <= k < n ==> p(s[k])
    ensures n < |s| ==> !p(s[n])
  {
    if s == "" || !p(s[0]) then 0 else 1 + RunLength(s[1..], p)
  }

  /** The maximal stretches of `s` in the class `p`. */
  function Runs(s: string, p: char -> bool): seq<string>
    decreases |s|
  {
    if s == "" then []
    else if !p(s[0]) then Runs(s[1..], p)
    else var n := RunLength(s, p); [s[..n]] + Runs(s[n..], p)
  }

  predicate AllIn(s: string, p: char -> bool) {
    forall k :: 0 <= k < |s| ==> p(s[k])
  }

  lemma RunLengthIs(s: string, p: char -> bool, n: nat)
    requires n <= |s| && (forall k :: 0 <= k < n ==> p(s[k])) && (n < |s| ==> !p(s[n]))
    ensures RunLength(s, p) == n
  {
  }

  /** Two laws that leave the runs no choice: a stretch of the class is one run, and runs do not reach
      across a character outside it. */
  lemma RunsOfOne(s: string, p: char -> bool)
    requires AllIn(s, p)
    ensures Runs(s, p) == if s == "" then [] else [s]
  {
    assert s[..|s|] == s;
    RunLengthIs(s, p, |s|);
    assert s[|s|..] == "" && Runs("", p) == [];
  }

  lemma {:induction false} RunsAcross(a: string, c: char, b: string, p: char -> bool)
    requires !p(c)
    ensures Runs(a + [c] + b, p) == Runs(a, p) + Runs(b, p)
    decreases |a|
  {
    var t := a + [c] + b;
    if a == "" {
      assert t[0] == c && t[1..] == b;
    } else if !p(a[0]) {
      assert t[0] == a[0] && t[1..] == a[1..] + [c] + b;
      RunsAcross(a[1..], c, b, p);
    } else {
      var n := RunLength(a, p);
      assert t[..n] == a[..n] && t[n..] == a[n..] + [c] + b && t[0] == a[0];
      assert t[n] == if n < |a| then a[n] else c;
      RunLengthIs(t, p, n);
      RunsAcross(a[n..], c, b, p);
      Associate([a[..n]], Runs(a[n..], p), Runs(b, p));
    }
  }

  predicate InWord(c: char) {
    !IsSpace(c)
  }

  /** Stripping leaves the words alone. */
  lemma StripKeepsWords(s: string)
    ensures Runs(Strip(s), InWord) == Runs(s, InWord)
  {
    LStripKeepsWords(s);
    RStripKeepsWords(LStrip(s));
  }

  lemma {:induction false} LStripKeepsWords(s: string)
    ensures Runs(LStrip(s), InWord) == Runs(s, InWord)
  {
    if s != "" && IsSpace(s[0]) {
      LStripKeepsWords(s[1..]);
    }
  }

  lemma {:induction false} RStripKeepsWords(s: string)
    ensures Runs(RStrip(s), InWord) == Runs(s, InWord)
  {
    hide Runs;
    if s != "" && IsSpace(s[|s| - 1]) {
      RStripKeepsWords(s[..|s| - 1]);
      RunsSnoc(s, InWord);
    }
  }

  /** A last character outside the class adds no run. */
  lemma RunsSnoc(s: string, p: char -> bool)
    requires s != "" && !p(s[|s| - 1])
    ensures Runs(s, p) == Runs(s[..|s| - 1], p)
  {
    hide Runs, AllIn;
    var front, c := s[..|s| - 1], s[|s| - 1];
    NoRuns(p);
    RunsAcross(front, c, "", p);
    assert front + [c] + "" == s;
    assert Runs(front, p) + [] == Runs(front, p);
  }

  lemma NoRuns(p: char -> bool)
    ensures Runs("", p) == []
  {
  }

  lemma {:induction false} RunsPlain(s: string, p: char -> bool)
    ensures forall k :: 0 <= k < |Runs(s, p)| ==> Runs(s, p)[k] != "" && AllIn(Runs(s, p)[k], p)
    decreases |s|
  {
    if s != "" {
      if !p(s[0]) {
        RunsPlain(s[1..], p);
      } else {
        RunsPlain(s[RunLength(s, p)..], p);
      }
    }
  }

  /** `sep.join(parts)` for a one-character separator. */
  function Join(parts: seq<string>, sep: char): string {
    if parts == [] then "" else if |parts| == 1 then parts[0] else parts[0] + [sep] + Join(parts[1..], sep)
  }

  /** `s.split(sep)` for a one-character separator. */
  function Split(s: string, sep: char): (r: seq<string>)
    ensures r != []
  {
    if s == "" then [""]
    else if s[0] == sep then [""] + Split(s[1..], sep)
    else var rest := Split(s[1..], sep); [[s[0]] + rest[0]] + rest[1..]
  }

  lemma {:induction false} JoinOfSplit(s: string, sep: char)
    ensures Join(Split(s, sep), sep) == s
  {
    if s != "" {
      JoinOfSplit(s[1..], sep);
      var rest := Split(s[1..], sep);
      if s[0] == sep {
        assert ([""] + rest)[1..] == rest;
        assert s == "" + [sep] + s[1..];
      } else {
        assert ([[s[0]] + rest[0]] + rest[1..])[1..] == rest[1..];
        assert s == [s[0]] + s[1..];
      }
    }
  }

  /** Occurrences of `sep` in `s`. */
  function Count(s: string, sep: char): (r: nat)
    ensures r == 0 <==> sep !in s
  {
    if s == "" then 0 else (if s[0] == sep then 1 else 0) + Count(s[1..], sep)
  }

  function CountAll(parts: seq<string>, sep: char): (r: nat)
    ensures r == 0 <==> forall p :: p in parts ==> sep !in p
  {
    if parts == [] then 0 else Count(parts[0], sep) + CountAll(parts[1..], sep)
  }

  lemma {:induction false} CountConcat(a: string, b: string, sep: char)
    ensures Count(a + b, sep) == Count(a, sep) + Count(b, sep)
  {
    if a == "" {
      assert a + b == b;
    } else {
      assert (a + b)[1..] == a[1..] + b;
      CountConcat(a[1..], b, sep);
    }
  }

  lemma {:induction false} SplitLength(s: string, sep: char)
    ensures |Split(s, sep)| == 1 + Count(s, sep)
  {
    if s != "" {
      SplitLength(s[1..], sep);
    }
  }

  lemma {:induction false} CountJoin(parts: seq<string>, sep: char)
    requires parts != []
    ensures Count(Join(parts, sep), sep) == CountAll(parts, sep) + |parts| - 1
  {
    if |parts| == 1 {
      assert CountAll(parts[1..], sep) == 0;
    } else {
      CountJoin(parts[1..], sep);
      CountConcat(parts[0] + [sep], Join(parts[1..], sep), sep);
      CountConcat(parts[0], [sep], sep);
    }
  }

  /** Splitting distributes over a separator. */
  lemma {:induction false} SplitAcross(a: string, b: string, sep: char)
    ensures Split(a + [sep] + b, sep) == Split(a, sep) + Split(b, sep)
  {
    var t := a + [sep] + b;
    if a == "" {
      assert t[0] == sep && t[1..] == b;
    } else {
      assert t[0] == a[0] && t[1..] == a[1..] + [sep] + b;
      SplitAcross(a[1..], b, sep);
      if a[0] == sep {
        Associate([""], Split(a[1..], sep), Split(b, sep));
      } else {
        HeadThenRest(a[0], Split(a[1..], sep), Split(b, sep));
      }
    }
  }

  lemma HeadThenRest(c: char, first: seq<string>, second: seq<string>)
    requires first != []
    ensures [[c] + (first + second)[0]] + (first + second)[1..] == [[c] + first[0]] + first[1..] + second
  {
  }

  lemma {:induction false} SplitPlain(a: string, sep: char)
    requires sep !in a
    ensures Split(a, sep) == [a]
  {
    if a != "" {
      SplitPlain(a[1..], sep);
      assert a == [a[0]] + a[1..];
    }
  }

  /** Splitting a joined list gives the list back when no part holds the separator. */
  lemma {:induction false} SplitOfJoin(parts: seq<string>, sep: char)
    requires parts != []
    requires forall p :: p in parts ==> sep !in p
    ensures Split(Join(parts, sep), sep) == parts
  {
    hide Split;
    SplitPlain(parts[0], sep);
    if |parts| > 1 {
      assert forall p :: p in parts[1..] ==> p in parts;
      SplitOfJoin(parts[1..], sep);
      SplitAcross(parts[0], Join(parts[1..], sep), sep);
      assert parts == [parts[0]] + parts[1..];
    }
  }

  /** Decimal numeral of `n`, as an f-string prints it. */
  function Decimal(n: nat): (r: string)
    ensures r != ""
  {
    if n < 10 then [('0' as int + n) as char] else Decimal(n / 10) + [('0' as int + n % 10) as char]
  }

  function Numeral(s: string): int {
    if s == "" then 0 else 10 * Numeral(s[..|s| - 1]) + (s[|s| - 1] as int - '0' as int)
  }

  lemma {:induction false} NumeralOfDecimal(n: nat)
    ensures Numeral(Decimal(n)) == n
  {
    if n < 10 {
      assert Decimal(n)[..0] == "";
    } else {
      NumeralOfDecimal(n / 10);
      var d := Decimal(n);
      assert d[..|d| - 1] == Decimal(n / 10);
    }
  }

  lemma DecimalInjective(m: nat, n: nat)
    requires Decimal(m) == Decimal(n)
    ensures m == n
  {
    NumeralOfDecimal(m);
    NumeralOfDecimal(n);
  }

  /** Numerals are digits with no leading zero. */
  lemma {:induction false} DecimalDigits(n: nat)
    ensures forall k :: 0 <= k < |Decimal(n)| ==> '0' <= Decimal(n)[k] <= '9'
    ensures n > 0 ==> Decimal(n)[0] != '0'
  {
    if n >= 10 {
      DecimalDigits(n / 10);
    }
  }
}
