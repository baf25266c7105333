/** The URL-safe base64 alphabet of section 5 of RFC 4648, with the padding of section 3.2 stripped
    when a cursor is written and restored when it is read. */
module Base64Url {
  import opened Prelude

  type Byte = x: nat | x < 256

  predicate InRange(c: char, lo: char, hi: char) {
    lo <= c <= hi
  }

  /** The letter of a 6-bit value. */
  function Letter(v: nat): (c: char)
    requires v < 64
    ensures c != '=' && ValueOf(c) == Some(v)
  {
    if v < 26 then 'A' + v as char
    else if v < 52 then 'a' + (v - 26) as char
    else if v < 62 then '0' + (v - 52) as char
    else if v == 62 then '-'
    else '_'
  }

  function ValueOf(c: char): (r: Option<nat>)
    ensures r.Some? ==> r.value < 64
  {
    if InRange(c, 'A', 'Z') then Some(c as int - 'A' as int)
    else if InRange(c, 'a', 'z') then Some(c as int - 'a' as int + 26)
    else if InRange(c, '0', '9') then Some(c as int - '0' as int + 52)
    else if c == '-' then Some(62)
    else if c == '_' then Some(63)
    else None
  }

  /** Two, three and four letters for one, two and three bytes. */
  function Letters1(a: Byte): (s: string)
    ensures |s| == 2 && '=' !in s
  {
    [Letter(a / 4), Letter(a % 4 * 16)]
  }

  function Letters2(a: Byte, b: Byte): (s: string)
    ensures |s| == 3 && '=' !in s
  {
    [Letter(a / 4), Letter(a % 4 * 16 + b / 16), Letter(b % 16 * 4)]
  }

  function Letters3(a: Byte, b: Byte, c: Byte): (s: string)
    ensures |s| == 4 && '=' !in s
  {
    [Letter(a / 4), Letter(a % 4 * 16 + b / 16), Letter(b % 16 * 4 + c / 64), Letter(c % 64)]
  }

  /** The letters are those of table 2 of RFC 4648, in its order. */
  lemma LetterInTable(v: nat)
    requires v < 16
    ensures Letter(v) == "ABCDEFGHIJKLMNOP"[v] && Letter(16 + v) == "QRSTUVWXYZabcdef"[v]
    ensures Letter(32 + v) == "ghijklmnopqrstuv"[v] && Letter(48 + v) == "wxyz0123456789-_"[v]
  {
    hide ValueOf;
    assert v in {0, 1, 2, 3, 4, 5, 6, 7, 8, 9, 10, 11, 12, 13, 14, 15};
  }

  /** The number that letters write in base 64. */
  function Base64Number(s: string): nat {
    if s == "" then 0 else
      var v := ValueOf(s[|s| - 1]);
      64 * Base64Number(s[..|s| - 1]) + if v.Some? then v.value else 0
  }

  /** A group of letters writes the number its bytes write in base 256, shifted left to whole letters. */
  lemma GroupNumber(a: Byte, b: Byte, c: Byte)
    ensures Base64Number(Letters3(a, b, c)) == 65536 * a + 256 * b + c
    ensures Base64Number(Letters2(a, b)) == 4 * (256 * a + b)
    ensures Base64Number(Letters1(a)) == 16 * a
  {
    hide Letter, ValueOf;
    NumberOfLetters(a / 4, a % 4 * 16 + b / 16, b % 16 * 4 + c / 64, c % 64);
    NumberOfLetters(a / 4, a % 4 * 16 + b / 16, b % 16 * 4, 0);
    NumberOfLetters(a / 4, a % 4 * 16, 0, 0);
  }

  lemma NumberOfLetters(w: nat, x: nat, y: nat, z: nat)
    requires w < 64 && x < 64 && y < 64 && z < 64
    ensures Base64Number([Letter(w), Letter(x)]) == 64 * w + x
    ensures Base64Number([Letter(w), Letter(x), Letter(y)]) == 64 * (64 * w + x) + y
    ensures Base64Number([Letter(w), Letter(x), Letter(y), Letter(z)]) == 64 * (64 * (64 * w + x) + y) + z
  {
    hide ValueOf;
    assert ValueOf(Letter(w)) == Some(w) && ValueOf(Letter(x)) == Some(x) && ValueOf(Letter(y)) == Some(y) && ValueOf(Letter(z)) == Some(z);
    hide Letter;
    assert Base64Number("") == 0;
    var two, three, four := [Letter(w), Letter(x)], [Letter(w), Letter(x), Letter(y)], [Letter(w), Letter(x), Letter(y), Letter(z)];
    assert four[..3] == three && three[..2] == two && two[..1] == [Letter(w)] && [Letter(w)][..0] == "";
  }

  /** Encoding with padding. */
  function Encode(b: seq<Byte>): (s: string)
    ensures |s| % 4 == 0
  {
    if b == [] then ""
    else if |b| == 1 then Letters1(b[0]) + "=="
    else if |b| == 2 then Letters2(b[0], b[1]) + "="
    else
      var rest := Encode(b[3..]);
      assert (4 + |rest|) % 4 == |rest| % 4;
      Letters3(b[0], b[1], b[2]) + rest
  }

  /** Four letters with no padding. */
  function DecodeFull(s: string): Option<seq<Byte>>
    requires |s| == 4
  {
    var a, b, c, d := ValueOf(s[0]), ValueOf(s[1]), ValueOf(s[2]), ValueOf(s[3]);
    if a.None? || b.None? || c.None? || d.None? then None
    else Some([a.value * 4 + b.value / 16, b.value % 16 * 16 + c.value / 4, c.value % 4 * 64 + d.value])
  }

  /** The last group, which may be padded. */
  function DecodeLast(s: string): Option<seq<Byte>>
    requires |s| == 4
  {
    if s[3] != '=' then DecodeFull(s) else
      var a, b := ValueOf(s[0]), ValueOf(s[1]);
      if a.None? || b.None? then None
      else if s[2] == '=' then Some([a.value * 4 + b.value / 16])
      else
        var c := ValueOf(s[2]);
        if c.None? then None else Some([a.value * 4 + b.value / 16, b.value % 16 * 16 + c.value / 4])
  }

  /** Decoding whole groups; padding is accepted in the last group only. */
  function Decode(s: string): Option<seq<Byte>> {
    if s == "" then Some([])
    else if |s| < 4 then None
    else if |s| == 4 then DecodeLast(s)
    else
      var group, rest := DecodeFull(s[..4]), Decode(s[4..]);
      if group.None? || rest.None? then None else Some(group.value + rest.value)
  }

  /** `rstrip("=")`. */
  function StripPadding(s: string): (r: string)
    ensures r <= s
  {
    if s != "" && s[|s| - 1] == '=' then StripPadding(s[..|s| - 1]) else s
  }

  function Padding(n: nat): (r: string)
    ensures |r| == n && forall k :: 0 <= k < n ==> r[k] == '='
  {
    if n == 0 then "" else Padding(n - 1) + "="
  }

  /** How many characters complete the last group of four. */
  function PadLength(n: nat): (r: nat)
    ensures r < 4 && (n + r) % 4 == 0
  {
    (4 - n % 4) % 4
  }

  lemma PadOneGroupMore(n: nat)
    ensures PadLength(4 + n) == PadLength(n)
  {
  }

  /** Appends `=` up to the next multiple of four. */
  function RestorePadding(s: string): (r: string)
    ensures |r| % 4 == 0
  {
    s + Padding(PadLength(|s|))
  }

  lemma FirstByte(a: Byte, b: Byte)
    ensures a / 4 * 4 + (a % 4 * 16 + b / 16) / 16 == a
  {
  }

  lemma MiddleByte(a: Byte, b: Byte, c: Byte)
    ensures (a % 4 * 16 + b / 16) % 16 * 16 + (b % 16 * 4 + c / 64) / 4 == b
  {
    LowPart(a % 4, b / 16);
    HighPart(b % 16, c / 64);
  }

  lemma LowPart(x: nat, y: nat)
    requires y < 16
    ensures (x * 16 + y) % 16 == y
  {
  }

  lemma HighPart(x: nat, y: nat)
    requires y < 4
    ensures (x * 4 + y) / 4 == x
  {
  }

  lemma LastByte(b: Byte, c: Byte)
    ensures (b % 16 * 4 + c / 64) % 4 * 64 + c % 64 == c
  {
  }

  lemma DecodeFour(w: nat, x: nat, y: nat, z: nat)
    requires w < 64 && x < 64 && y < 64 && z < 64
    ensures DecodeFull([Letter(w), Letter(x), Letter(y), Letter(z)]) == Some([w * 4 + x / 16, x % 16 * 16 + y / 4, y % 4 * 64 + z])
  {
    hide Letter, ValueOf;
  }

  lemma DecodeLetters1(a: Byte)
    ensures DecodeLast(Letters1(a) + "==") == Some([a])
  {
    hide Letter, ValueOf;
  }

  lemma DecodeLetters2(a: Byte, b: Byte)
    ensures DecodeLast(Letters2(a, b) + "=") == Some([a, b])
  {
    hide Letter, ValueOf;
  }

  lemma DecodeLetters3(a: Byte, b: Byte, c: Byte)
    ensures DecodeFull(Letters3(a, b, c)) == Some([a, b, c])
  {
    hide Letter, ValueOf, DecodeFull;
    DecodeFour(a / 4, a % 4 * 16 + b / 16, b % 16 * 4 + c / 64, c % 64);
    FirstByte(a, b);
    MiddleByte(a, b, c);
    LastByte(b, c);
  }

  lemma {:induction false} DecodeOfEncode(b: seq<Byte>)
    ensures Decode(Encode(b)) == Some(b)
  {
    hide Letters1, Letters2, Letters3, DecodeFull, DecodeLast;
    if |b| >= 3 {
      DecodeLetters3(b[0], b[1], b[2]);
      DecodeOfEncode(b[3..]);
      DecodeGroup(Letters3(b[0], b[1], b[2]), Encode(b[3..]));
      assert b == [b[0], b[1], b[2]] + b[3..];
    } else if |b| == 2 {
      DecodeLetters2(b[0], b[1]);
      assert b == [b[0], b[1]];
    } else if |b| == 1 {
      DecodeLetters1(b[0]);
      assert b == [b[0]];
    }
  }

  lemma DecodeGroup(group: string, rest: string)
    requires |group| == 4 && '=' !in group && DecodeFull(group).Some? && Decode(rest).Some?
    ensures Decode(group + rest) == Some(DecodeFull(group).value + Decode(rest).value)
  {
    hide DecodeFull;
    if rest == "" {
      assert group + rest == group && group[3] in group;
      assert DecodeFull(group).value + [] == DecodeFull(group).value;
    } else {
      assert (group + rest)[..4] == group && (group + rest)[4..] == rest;
    }
  }

  lemma {:induction false} StripPaddingConcat(a: string, s: string)
    requires '=' !in a
    ensures StripPadding(a + s) == a + StripPadding(s)
    decreases |s|
  {
    if s == "" {
      assert a + s == a;
    } else if s[|s| - 1] == '=' {
      assert (a + s)[..|a + s| - 1] == a + s[..|s| - 1];
      StripPaddingConcat(a, s[..|s| - 1]);
    }
  }

  lemma {:induction false} StripAll(n: nat)
    ensures StripPadding(Padding(n)) == ""
  {
    if n > 0 {
      assert Padding(n)[..n - 1] == Padding(n - 1);
      StripAll(n - 1);
    }
  }

  lemma PadSmall()
    ensures PadLength(0) == 0 && PadLength(2) == 2 && PadLength(3) == 1
  {
  }

  lemma PaddingLiterals()
    ensures Padding(0) == "" && Padding(1) == "=" && Padding(2) == "=="
  {
  }

  /** Encoding is letters followed by as much padding as completes the last group. */
  lemma {:induction false} EncodeIsPadded(b: seq<Byte>) returns (letters: string)
    ensures '=' !in letters && Encode(b) == letters + Padding(PadLength(|letters|))
  {
    hide Letters1, Letters2, Letters3, PadLength, Padding;
    PadSmall();
    PaddingLiterals();
    if |b| >= 3 {
      var rest := EncodeIsPadded(b[3..]);
      letters := Letters3(b[0], b[1], b[2]) + rest;
      PadOneGroupMore(|rest|);
      Associate(Letters3(b[0], b[1], b[2]), rest, Padding(PadLength(|rest|)));
    } else if |b| == 2 {
      letters := Letters2(b[0], b[1]);
    } else if |b| == 1 {
      letters := Letters1(b[0]);
    } else {
      letters := "";
    }
  }

  /** Test vectors of section 10 of RFC 4648: each length of the last group. */
  lemma Vectors()
    ensures Encode([102]) == "Zg==" && Encode([102, 111]) == "Zm8=" && Encode([102, 111, 111]) == "Zm9v"
  {
    assert [102, 111, 111][3..] == [];
  }

  /** Encoding goes group by group. */
  lemma VectorOfTwoGroups()
    ensures Encode([102, 111, 111, 98]) == "Zm9vYg=="
  {
    hide Letter, ValueOf;
    Vectors();
    assert [102, 111, 111][3..] == [] && [102, 111, 111, 98][3..] == [98];
    VectorOfLast();
  }

  lemma VectorOfLast()
    ensures Encode([98]) == "Yg=="
  {
  }

  /** A payload survives encoding, stripping, restoring and decoding, and no padding is left on the
      wire. */
  lemma RoundTrip(b: seq<Byte>)
    ensures Decode(RestorePadding(StripPadding(Encode(b)))) == Some(b)
    ensures '=' !in StripPadding(Encode(b))
  {
    hide Encode, Decode, StripPadding, Padding;
    var letters := EncodeIsPadded(b);
    var n := PadLength(|letters|);
    StripPaddingConcat(letters, Padding(n));
    StripAll(n);
    assert letters + "" == letters;
    DecodeOfEncode(b);
  }
}
