/** `long.ToString()` and `long.Parse(string)`, with the invariant culture's
    number format (`-` as the negative sign, ASCII digits).
    `long.Parse` uses `NumberStyles.Integer`: leading and trailing white
    space (U+0009 to U+000D and U+0020), an optional leading `+` or `-`,
    at least one ASCII digit, and trailing NUL characters after everything
    else; a value outside the 64-bit range is an overflow. Both failures
    throw; here they are `None`. */
module Int64Text {
  import opened Wrappers

  const MinLong: int := -0x8000_0000_0000_0000
  const MaxLong: int := 0x7FFF_FFFF_FFFF_FFFF

  predicate IsLong(n: int) {
    MinLong <= n <= MaxLong
  }

  predicate IsDigit(c: char) {
    '0' <= c <= '9'
  }

  /** The white space `NumberStyles.AllowLeadingWhite` and `AllowTrailingWhite` accept. */
  predicate IsNumberWhite(c: char) {
    ('\t' <= c <= '\r') || c == ' '
  }

  function DigitChar(d: nat): (c: char)
    requires d < 10
    ensures IsDigit(c)
  {
    ('0' as int + d) as char
  }

  function DigitOf(c: char): (d: nat)
    requires IsDigit(c)
    ensures d < 10 && DigitChar(d) == c
  {
    c as int - '0' as int
  }

  predicate AllDigits(s: string) {
    forall i :: 0 <= i < |s| ==> IsDigit(s[i])
  }

  /** The decimal digits of n, most significant first, without leading zeros. */
  function Digits(n: nat): (s: string)
    ensures |s| >= 1 && AllDigits(s)
    ensures n > 0 ==> s[0] != '0'
    decreases n
  {
    if n < 10 then [DigitChar(n)] else Digits(n / 10) + [DigitChar(n % 10)]
  }

  /** The number a string of decimal digits stands for. */
  function Value(s: string): nat
    requires AllDigits(s)
    decreases |s|
  {
    if |s| == 0 then 0 else 10 * Value(s[..|s| - 1]) + DigitOf(s[|s| - 1])
  }

  lemma {:induction false} ValueOfDigits(n: nat)
    ensures Value(Digits(n)) == n
    decreases n
  {
    if n >= 10 {
      var s := Digits(n);
      assert s[..|s| - 1] == Digits(n / 10);
      ValueOfDigits(n / 10);
    }
  }

  /** `long.ToString()`: a `-` for negative numbers, then the digits of the magnitude. */
  function Format(n: int): (s: string)
    ensures |s| >= 1
    ensures s[0] == '-' <==> n < 0
  {
    if n < 0 then "-" + Digits(-n) else Digits(n)
  }

  /** What is left after the leading white space. */
  function SkipWhite(s: string): (r: string)
    ensures |r| <= |s| && r == s[|s| - |r|..]
    ensures forall i :: 0 <= i < |s| - |r| ==> IsNumberWhite(s[i])
    ensures |r| > 0 ==> !IsNumberWhite(r[0])
    decreases |s|
  {
    if |s| > 0 && IsNumberWhite(s[0]) then SkipWhite(s[1..]) else s
  }

  /** How many digits the string starts with. */
  function DigitSpan(s: string): (k: nat)
    ensures k <= |s| && AllDigits(s[..k])
    ensures k < |s| ==> !IsDigit(s[k])
    decreases |s|
  {
    if |s| > 0 && IsDigit(s[0]) then
      var k := 1 + DigitSpan(s[1..]);
      assert s[..k] == [s[0]] + s[1..][..k - 1];
      k
    else 0
  }

  /** What may follow the digits: white space, then NUL characters. */
  predicate IsTrailer(s: string) {
    var r := SkipWhite(s);
    forall i :: 0 <= i < |r| ==> r[i] == '\0'
  }

  /** `long.Parse(s)`, with `None` for a format error or an overflow. */
  function Parse(s: string): (r: Option<int>)
    ensures r.Some? ==> IsLong(r.value)
  {
    var t := SkipWhite(s);
    var negative := |t| > 0 && t[0] == '-';
    var u := if |t| > 0 && (t[0] == '-' || t[0] == '+') then t[1..] else t;
    match Magnitude(u)
    case None => None
    case Some(m) =>
      var n := if negative then -(m as int) else m as int;
      if IsLong(n) then Some(n) else None
  }

  /** The digits after the sign, and the trailer after them. */
  function Magnitude(u: string): Option<nat> {
    var k := DigitSpan(u);
    if k == 0 || !IsTrailer(u[k..]) then None else Some(Value(u[..k]))
  }

  lemma DigitSpanOfDigits(s: string)
    requires AllDigits(s)
    ensures DigitSpan(s) == |s|
  {
  }

  /** Parsing what `ToString` printed gives the number back. */
  lemma ParseFormat(n: int)
    requires IsLong(n)
    ensures Parse(Format(n)) == Some(n)
  {
    var m: nat := if n < 0 then -n else n;
    var s := Format(n);
    assert !IsNumberWhite(s[0]);
    assert SkipWhite(s) == s;
    var u := if n < 0 then s[1..] else s;
    assert u == Digits(m);
    MagnitudeOfDigits(m);
  }

  /** The digits of a magnitude, with nothing after them, read back as it. */
  lemma MagnitudeOfDigits(m: nat)
    ensures Magnitude(Digits(m)) == Some(m)
  {
    var d := Digits(m);
    DigitSpanOfDigits(d);
    assert d[..|d|] == d;
    assert SkipWhite(d[|d|..]) == [];
    ValueOfDigits(m);
  }

  /** Two different numbers never print the same. */
  lemma {:induction false} DigitsInjective(m: nat, n: nat)
    requires Digits(m) == Digits(n)
    ensures m == n
  {
    ValueOfDigits(m);
    ValueOfDigits(n);
  }

  lemma FormatInjective(m: int, n: int)
    requires Format(m) == Format(n)
    ensures m == n
  {
    if m < 0 {
      assert Format(m)[1..] == Format(n)[1..];
      DigitsInjective(-m, -n);
    } else {
      DigitsInjective(m, n);
    }
  }

  /** A string without a digit is always a format error. */
  lemma ParseNeedsDigit(s: string)
    requires forall i :: 0 <= i < |s| ==> !IsDigit(s[i])
    ensures Parse(s) == None
  {
    var t := SkipWhite(s);
    var u := if |t| > 0 && (t[0] == '-' || t[0] == '+') then t[1..] else t;
    if |u| > 0 {
      assert u[0] == s[|s| - |u|];
    }
  }
}
