/** `Convert.ToBase64String`: the Base64 encoding of section 4 of RFC 4648,
    with `=` padding and no line breaks. */
module Base64 {
  import opened Bytes

  /** The alphabet of section 4 of RFC 4648: value to character. */
  function SextetChar(v: int): (c: char)
    requires 0 <= v < 64
    ensures IsBase64Char(c)
  {
    if v < 26 then ('A' as int + v) as char
    else if v < 52 then ('a' as int + (v - 26)) as char
    else if v < 62 then ('0' as int + (v - 52)) as char
    else if v == 62 then '+'
    else '/'
  }

  predicate IsBase64Char(c: char) {
    ('A' <= c <= 'Z') || ('a' <= c <= 'z') || ('0' <= c <= '9') || c == '+' || c == '/'
  }

  /** How many `=` end the encoding of n bytes. */
  function Padding(n: nat): nat {
    if n % 3 == 0 then 0 else if n % 3 == 1 then 2 else 1
  }

  /** The four sextets of three bytes b0, b1, b2, high bits first: the
      top six bits of b0; its low two and the top four of b1; the low four
      of b1 and the top two of b2; the low six of b2. */
  function Sextet0(b0: Byte): (v: int)
    ensures 0 <= v < 64
  {
    b0 / 4
  }

  function Sextet1(b0: Byte, b1: Byte): (v: int)
    ensures 0 <= v < 64
  {
    (b0 % 4) * 16 + b1 / 16
  }

  function Sextet2(b1: Byte, b2: Byte): (v: int)
    ensures 0 <= v < 64
  {
    (b1 % 16) * 4 + b2 / 64
  }

  function Sextet3(b2: Byte): (v: int)
    ensures 0 <= v < 64
  {
    b2 % 64
  }

  /** Four characters for three bytes: each carries six of the 24 bits. */
  function EncodeGroup(b0: Byte, b1: Byte, b2: Byte): string {
    [SextetChar(Sextet0(b0)), SextetChar(Sextet1(b0, b1)), SextetChar(Sextet2(b1, b2)), SextetChar(Sextet3(b2))]
  }

  /** A final group of one or two bytes is completed with zero bits and `=` characters. */
  function Encode(b: seq<Byte>): (s: string)
    ensures |s| == 4 * ((|b| + 2) / 3)
    decreases |b|
  {
    if |b| == 0 then ""
    else if |b| == 1 then [SextetChar(Sextet0(b[0])), SextetChar(Sextet1(b[0], 0)), '=', '=']
    else if |b| == 2 then [SextetChar(Sextet0(b[0])), SextetChar(Sextet1(b[0], b[1])), SextetChar(Sextet2(b[1], 0)), '=']
    else EncodeGroup(b[0], b[1], b[2]) + Encode(b[3..])
  }

  lemma PaddingStep(n: nat)
    requires n >= 3
    ensures Padding(n) == Padding(n - 3)
  {
  }

  /** Alphabet characters followed by `pad` characters `=`. */
  predicate Padded(s: string, pad: nat) {
    && (forall i :: 0 <= i < |s| - pad ==> IsBase64Char(s[i]))
    && (forall i :: 0 <= i < |s| && |s| - pad <= i ==> s[i] == '=')
  }

  /** An encoding is alphabet characters followed by exactly the padding. */
  lemma {:induction false} EncodeShape(b: seq<Byte>)
    ensures Padded(Encode(b), Padding(|b|))
    decreases |b|
  {
    if |b| >= 3 {
      EncodeShape(b[3..]);
      PaddingStep(|b|);
      var rest := Encode(b[3..]);
      var g := EncodeGroup(b[0], b[1], b[2]);
      var s := g + rest;
      assert Encode(b) == s;
      var p := Padding(|b|);
      forall i | 0 <= i < |s| - p
        ensures IsBase64Char(s[i])
      {
        if i >= 4 {
          assert s[i] == rest[i - 4];
        }
      }
      forall i | |s| - p <= i < |s|
        ensures s[i] == '='
      {
        assert s[i] == rest[i - 4];
      }
    }
  }

  lemma SextetCharInjective(v: int, w: int)
    requires 0 <= v < 64 && 0 <= w < 64
    requires SextetChar(v) == SextetChar(w)
    ensures v == w
  {
  }

  lemma EncodeGroupInjective(a0: Byte, a1: Byte, a2: Byte, b0: Byte, b1: Byte, b2: Byte)
    requires EncodeGroup(a0, a1, a2) == EncodeGroup(b0, b1, b2)
    ensures a0 == b0 && a1 == b1 && a2 == b2
  {
    var ga, gb := EncodeGroup(a0, a1, a2), EncodeGroup(b0, b1, b2);
    assert ga[0] == gb[0] && ga[1] == gb[1] && ga[2] == gb[2] && ga[3] == gb[3];
    SextetCharInjective(Sextet0(a0), Sextet0(b0));
    SextetCharInjective(Sextet1(a0, a1), Sextet1(b0, b1));
    SextetCharInjective(Sextet2(a1, a2), Sextet2(b1, b2));
    SextetCharInjective(Sextet3(a2), Sextet3(b2));
  }

  /** A last single byte is recovered from its two characters. */
  lemma EncodeOneInjective(a: seq<Byte>, b: seq<Byte>)
    requires |a| == 1 && |b| == 1
    requires Encode(a) == Encode(b)
    ensures a == b
  {
    var sa, sb := Encode(a), Encode(b);
    assert sa[0] == sb[0] && sa[1] == sb[1];
    SextetCharInjective(Sextet0(a[0]), Sextet0(b[0]));
    SextetCharInjective(Sextet1(a[0], 0), Sextet1(b[0], 0));
  }

  /** The last two bytes are recovered from their three characters. */
  lemma EncodeTwoInjective(a: seq<Byte>, b: seq<Byte>)
    requires |a| == 2 && |b| == 2
    requires Encode(a) == Encode(b)
    ensures a == b
  {
    var sa, sb := Encode(a), Encode(b);
    assert sa[0] == sb[0] && sa[1] == sb[1] && sa[2] == sb[2];
    SextetCharInjective(Sextet0(a[0]), Sextet0(b[0]));
    SextetCharInjective(Sextet1(a[0], a[1]), Sextet1(b[0], b[1]));
    SextetCharInjective(Sextet2(a[1], 0), Sextet2(b[1], 0));
    TwoBytesOfSextets(a[0], a[1], b[0], b[1]);
  }

  /** The three sextets of two bytes determine them. */
  lemma TwoBytesOfSextets(a0: Byte, a1: Byte, b0: Byte, b1: Byte)
    requires Sextet0(a0) == Sextet0(b0) && Sextet1(a0, a1) == Sextet1(b0, b1)
    requires Sextet2(a1, 0) == Sextet2(b1, 0)
    ensures a0 == b0 && a1 == b1
  {
    assert a1 / 16 < 16 && b1 / 16 < 16;
    assert a0 % 4 == b0 % 4 && a1 / 16 == b1 / 16;
  }

  lemma ByteCount(n: nat)
    ensures n == 3 * ((n + 2) / 3) - Padding(n)
  {
  }

  lemma SameShapeSameLength(m: nat, n: nat, chars: nat)
    requires chars == 4 * ((m + 2) / 3) && chars == 4 * ((n + 2) / 3)
    requires Padding(m) == Padding(n)
    ensures m == n
  {
    ByteCount(m);
    ByteCount(n);
  }

  /** How many `=` end a string, up to two. */
  function PadCount(s: string): nat {
    if |s| >= 1 && s[|s| - 1] == '=' then
      if |s| >= 2 && s[|s| - 2] == '=' then 2 else 1
    else 0
  }

  /** The padding of an encoding can be read back from it. */
  lemma PadCountOfEncode(b: seq<Byte>)
    ensures PadCount(Encode(b)) == Padding(|b|)
  {
    var s := Encode(b);
    EncodeShape(b);
    if |s| > 0 {
      var last, before := s[|s| - 1], s[|s| - 2];
      if Padding(|b|) == 0 {
        assert IsBase64Char(last);
      } else if Padding(|b|) == 1 {
        assert last == '=' && IsBase64Char(before);
      } else {
        assert last == '=' && before == '=';
      }
    }
  }

  lemma SamePadding(a: seq<Byte>, b: seq<Byte>)
    requires Encode(a) == Encode(b)
    ensures Padding(|a|) == Padding(|b|)
  {
    PadCountOfEncode(a);
    PadCountOfEncode(b);
  }

  /** The padding fixes the number of bytes modulo three, so equal encodings have equal lengths. */
  lemma EncodedLengthDeterminesLength(a: seq<Byte>, b: seq<Byte>)
    requires Encode(a) == Encode(b)
    ensures |a| == |b|
  {
    SamePadding(a, b);
    SameShapeSameLength(|a|, |b|, |Encode(a)|);
  }

  /** Different byte strings have different encodings. */
  lemma {:induction false} EncodeInjective(a: seq<Byte>, b: seq<Byte>)
    requires Encode(a) == Encode(b)
    ensures a == b
    decreases |a|
  {
    EncodedLengthDeterminesLength(a, b);
    if |a| >= 3 {
      var ga, gb := EncodeGroup(a[0], a[1], a[2]), EncodeGroup(b[0], b[1], b[2]);
      var ra, rb := Encode(a[3..]), Encode(b[3..]);
      assert ga + ra == gb + rb;
      assert ga == (ga + ra)[..4] == (gb + rb)[..4] == gb;
      assert ra == (ga + ra)[4..] == (gb + rb)[4..] == rb;
      EncodeGroupInjective(a[0], a[1], a[2], b[0], b[1], b[2]);
      EncodeInjective(a[3..], b[3..]);
      assert a == a[..3] + a[3..] && b == b[..3] + b[3..];
    } else if |a| == 1 {
      EncodeOneInjective(a, b);
    } else if |a| == 2 {
      EncodeTwoInjective(a, b);
    }
  }
}
