/** `Encoding.UTF8.GetBytes` (RFC 3629) on strings of Unicode scalar values,
    with the property the password and signing-key code relies on: two
    different strings never share an encoding. */
module Utf8 {
  import opened Bytes

  /** The one to four bytes of one code point. */
  function EncodeChar(c: char): (b: seq<Byte>)
    ensures 1 <= |b| <= 4
    ensures |b| == SequenceLength(b[0])
    ensures forall i :: 1 <= i < |b| ==> 0x80 <= b[i] < 0xC0
  {
    var cp := c as int;
    if cp < 0x80 then [cp]
    else if cp < 0x800 then [0xC0 + cp / 0x40, 0x80 + cp % 0x40]
    else if cp < 0x1_0000 then [0xE0 + cp / 0x1000, 0x80 + (cp / 0x40) % 0x40, 0x80 + cp % 0x40]
    else [0xF0 + cp / 0x4_0000, 0x80 + (cp / 0x1000) % 0x40, 0x80 + (cp / 0x40) % 0x40, 0x80 + cp % 0x40]
  }

  /** How many bytes a sequence that starts with this lead byte has. */
  function SequenceLength(lead: Byte): nat {
    if lead < 0xC0 then 1 else if lead < 0xE0 then 2 else if lead < 0xF0 then 3 else 4
  }

  function Encode(s: string): (b: seq<Byte>)
    ensures |b| >= |s|
    decreases |s|
  {
    if |s| == 0 then [] else EncodeChar(s[0]) + Encode(s[1..])
  }

  /** The code point a well-formed sequence stands for. */
  function CodePoint(b: seq<Byte>): int
    requires 1 <= |b| <= 4
  {
    if |b| == 1 then b[0] as int
    else if |b| == 2 then (b[0] as int - 0xC0) * 0x40 + (b[1] as int - 0x80)
    else if |b| == 3 then (b[0] as int - 0xE0) * 0x1000 + (b[1] as int - 0x80) * 0x40 + (b[2] as int - 0x80)
    else (b[0] as int - 0xF0) * 0x4_0000 + (b[1] as int - 0x80) * 0x1000 + (b[2] as int - 0x80) * 0x40 + (b[3] as int - 0x80)
  }

  lemma CodePointOfEncodeChar(c: char)
    ensures CodePoint(EncodeChar(c)) == c as int
  {
    var cp := c as int;
    if cp >= 0x800 {
      assert cp / 0x40 == (cp / 0x1000) * 0x40 + (cp / 0x40) % 0x40;
    }
    if cp >= 0x1_0000 {
      assert cp / 0x1000 == (cp / 0x4_0000) * 0x40 + (cp / 0x1000) % 0x40;
    }
  }

  lemma EncodeCharInjective(c: char, d: char)
    requires EncodeChar(c) == EncodeChar(d)
    ensures c == d
  {
    CodePointOfEncodeChar(c);
    CodePointOfEncodeChar(d);
  }

  /** No character's encoding is a proper prefix of another's: the lead byte fixes the length. */
  lemma EncodeCharPrefixFree(c: char, x: seq<Byte>, d: char, y: seq<Byte>)
    requires EncodeChar(c) + x == EncodeChar(d) + y
    ensures c == d && x == y
  {
    var bc, bd := EncodeChar(c), EncodeChar(d);
    assert bc[0] == (bc + x)[0] == (bd + y)[0] == bd[0];
    assert |bc| == |bd|;
    assert bc == (bc + x)[..|bc|] == (bd + y)[..|bd|] == bd;
    EncodeCharInjective(c, d);
    assert x == (bc + x)[|bc|..] == (bd + y)[|bd|..] == y;
  }

  /** Different strings have different encodings. */
  lemma {:induction false} EncodeInjective(s: string, t: string)
    requires Encode(s) == Encode(t)
    ensures s == t
    decreases |s|
  {
    if |s| != 0 && |t| != 0 {
      EncodeCharPrefixFree(s[0], Encode(s[1..]), t[0], Encode(t[1..]));
      EncodeInjective(s[1..], t[1..]);
      assert s == [s[0]] + s[1..];
      assert t == [t[0]] + t[1..];
    }
  }
}
