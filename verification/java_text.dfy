/** The few pieces of Java `int` and `String` semantics the game logic relies on:
    32-bit wrap-around, truncating `/` and `%`, `String.trim`, `indexOf`,
    `Integer.parseInt` and substring search. */
module JavaText {
  import opened Results

  const INT_MIN: int := -0x8000_0000
  const INT_MAX: int := 0x7FFF_FFFF
  const TWO_32: int := 0x1_0000_0000

  predicate IsInt32(v: int) {
    INT_MIN <= v <= INT_MAX
  }

  /** The value a Java `int` expression holds when its mathematical value is `v`. */
  function Wrap32(v: int): (r: int)
    ensures IsInt32(r)
    ensures (v - r) % TWO_32 == 0
    ensures IsInt32(v) ==> r == v
  {
    var m := v % TWO_32;
    if m <= INT_MAX then m else m - TWO_32
  }

  /** Java's `a % b` for a positive divisor: the remainder takes the sign of `a`. */
  function JavaRem(a: int, b: int): (r: int)
    requires b > 0
    ensures a >= 0 ==> 0 <= r < b
    ensures a < 0 ==> -b < r <= 0
  {
    if a >= 0 then a % b else -((-a) % b)
  }

  /** Java's `a / b` for a positive divisor: the quotient is truncated toward zero. */
  function JavaDiv(a: int, b: int): (q: int)
    requires b > 0
    ensures q * b + JavaRem(a, b) == a
  {
    if a >= 0 then a / b else -((-a) / b)
  }

  /** `String.trim` removes every character up to and including U+0020. */
  predicate Trimmed(c: char) {
    c <= ' '
  }

  function TrimStart(s: string): (r: string)
    ensures |r| <= |s| && r == s[|s| - |r|..]
    ensures forall i :: 0 <= i < |s| - |r| ==> Trimmed(s[i])
    ensures r == [] || !Trimmed(r[0])
  {
    if |s| > 0 && Trimmed(s[0]) then TrimStart(s[1..]) else s
  }

  function TrimEnd(s: string): (r: string)
    ensures |r| <= |s| && r == s[..|r|]
    ensures forall i :: |r| <= i < |s| ==> Trimmed(s[i])
    ensures r == [] || !Trimmed(r[|r| - 1])
  {
    if |s| > 0 && Trimmed(s[|s| - 1]) then TrimEnd(s[..|s| - 1]) else s
  }

  function Trim(s: string): string {
    TrimEnd(TrimStart(s))
  }

  /** `s.trim()` is the window of `s` between its first and its last character above U+0020;
      everything outside the window is removed, and the text is empty when nothing is above. */
  lemma TrimWindowOf(s: string)
    ensures var lo := |s| - |TrimStart(s)|;
      var hi := lo + |Trim(s)|;
      && hi <= |s| && Trim(s) == s[lo..hi]
      && (forall i :: 0 <= i < lo ==> Trimmed(s[i]))
      && (forall i :: hi <= i < |s| ==> Trimmed(s[i]))
      && (Trim(s) != [] ==> !Trimmed(s[lo]) && !Trimmed(s[hi - 1]))
  {
  }

  /** `s.indexOf(c)`: the first position of `c`, or -1. */
  function IndexOf(s: string, c: char): (i: int)
    ensures -1 <= i < |s|
    ensures i >= 0 ==> s[i] == c && c !in s[..i]
    ensures i == -1 <==> c !in s
  {
    if |s| == 0 then -1
    else if s[0] == c then 0
    else
      var k := IndexOf(s[1..], c);
      if k < 0 then -1 else k + 1
  }

  predicate IsDigit(c: char) {
    '0' <= c <= '9'
  }

  function DigitValue(c: char): (d: nat)
    requires IsDigit(c)
    ensures d <= 9
  {
    c as int - '0' as int
  }

  function DigitChar(d: nat): (c: char)
    requires d <= 9
    ensures IsDigit(c) && DigitValue(c) == d
  {
    ('0' as int + d) as char
  }

  predicate AllDigits(s: string) {
    forall i :: 0 <= i < |s| ==> IsDigit(s[i])
  }

  function DigitsValue(s: string): nat
    requires AllDigits(s)
  {
    if |s| == 0 then 0 else DigitsValue(s[..|s| - 1]) * 10 + DigitValue(s[|s| - 1])
  }

  /** `Integer.parseInt(s)`: an optional sign, at least one decimal digit, and a value that
      fits in an `int`; anything else is a `NumberFormatException`, here `None`. */
  function ParseInt32(s: string): (r: Option<int>)
    ensures r.Some? ==> IsInt32(r.value)
    ensures |s| == 1 && IsDigit(s[0]) ==> r == Some(DigitValue(s[0]))
    ensures r.Some? ==> exists i :: 0 <= i < |s| && IsDigit(s[i])
  {
    var signed := |s| > 0 && (s[0] == '-' || s[0] == '+');
    var digits := if signed then s[1..] else s;
    if |digits| == 0 || !AllDigits(digits) then None
    else
      assert IsDigit(s[|s| - 1]);
      assert |s| == 1 ==> digits == s && DigitsValue(digits) == DigitsValue(digits[..0]) * 10 + DigitValue(s[0]);
      assert |s| == 1 ==> digits[..0] == [];
      var magnitude: int := DigitsValue(digits);
      var v := if s[0] == '-' then -magnitude else magnitude;
      if IsInt32(v) then Some(v) else None
  }

  /** The decimal digits of a natural number, most significant first. */
  function NatText(n: nat): (r: string)
    ensures |r| >= 1 && AllDigits(r)
    ensures r[0] != '-' && r[0] != '+'
    ensures DigitsValue(r) == n
    ensures n <= 9 ==> r == [DigitChar(n)]
  {
    if n <= 9 then [DigitChar(n)]
    else
      var front := NatText(n / 10);
      var r := front + [DigitChar(n % 10)];
      assert r[..|r| - 1] == front;
      r
  }

  /** `String.valueOf(v)`: a leading `-` for negative values, then the decimal digits. */
  function IntText(v: int): (r: string)
    ensures |r| >= 1
    ensures 0 <= v <= 9 ==> r == [DigitChar(v)]
    ensures (r[0] == '-') <==> v < 0
  {
    if v < 0 then "-" + NatText(-v) else NatText(v)
  }

  /** `Integer.parseInt` reads the text `String.valueOf` writes for any `int` back as that
      value. */
  lemma IntTextParses(v: int)
    requires IsInt32(v)
    ensures ParseInt32(IntText(v)) == Some(v)
  {
    var r := IntText(v);
    if v < 0 {
      assert r[1..] == NatText(-v);
    }
  }

  /** `hay.indexOf(needle) >= 0`, scanning left to right. */
  function Contains(hay: string, needle: string): bool {
    |needle| <= |hay| && (hay[..|needle|] == needle || Contains(hay[1..], needle))
  }
}
