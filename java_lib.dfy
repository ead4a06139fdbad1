/**
 * The parts of the Java platform the transfer protocol leans on, stated in
 * Dafny's terms: the ranges of `int` and `long`, 32-bit wrap-around, integer
 * division by two, `String.trim`, `startsWith`, `indexOf`, the decimal text that
 * string concatenation gives a number, and the rules of `Integer.parseInt` and
 * `Long.parseLong` in radix 10 over ASCII digits.
 */
module JavaLib {

  datatype Option<+T> = None | Some(value: T)

  const INT_MIN: int := -0x8000_0000
  const INT_MAX: int := 0x7fff_ffff
  const LONG_MIN: int := -0x8000_0000_0000_0000
  const LONG_MAX: int := 0x7fff_ffff_ffff_ffff

  predicate IsInt(x: int) { INT_MIN <= x <= INT_MAX }
  predicate IsLong(x: int) { LONG_MIN <= x <= LONG_MAX }

  /** The value a Java `int` holds after an operation whose exact result is `x`. */
  function Wrap32(x: int): (r: int)
    ensures IsInt(r)
    ensures IsInt(x) ==> r == x
    ensures (r - x) % 0x1_0000_0000 == 0
  {
    (x - INT_MIN) % 0x1_0000_0000 + INT_MIN
  }

  /** `x + 1` on a Java `int`: past INT_MAX it wraps to INT_MIN. */
  function Inc32(x: int): (r: int)
    ensures IsInt(x) ==> IsInt(r)
  {
    if x == INT_MAX then INT_MIN else x + 1
  }

  /** Inc32 is the wrapped sum for every `int`. */
  lemma Inc32IsWrap32(x: int)
    requires IsInt(x)
    ensures Inc32(x) == Wrap32(x + 1)
  {
  }

  /** Java's `x / 2` on an `int`: the quotient rounded toward zero. */
  function HalfTowardZero(x: int): (q: int)
    ensures 0 <= x ==> 0 <= x - 2 * q <= 1
    ensures x < 0 ==> 0 <= 2 * q - x <= 1
  {
    if x >= 0 then x / 2 else -((-x) / 2)
  }

  // ----- characters and strings -----

  /** `String.trim` removes characters whose code is at most U+0020. */
  predicate IsWhite(c: char) { c <= ' ' }

  predicate AllWhite(s: string) { forall k :: 0 <= k < |s| ==> IsWhite(s[k]) }

  /** Index of the first character `trim` keeps (|s| when every character is white). */
  function TrimBegin(s: string): (b: nat)
    ensures b <= |s|
    ensures AllWhite(s[..b])
    ensures b < |s| ==> !IsWhite(s[b])
  {
    if s != [] && IsWhite(s[0]) then
      assert s[..1 + TrimBegin(s[1..])] == [s[0]] + s[1..][..TrimBegin(s[1..])];
      1 + TrimBegin(s[1..])
    else 0
  }

  /** One past the last character `trim` keeps, scanning back no further than `b`. */
  function TrimEnd(s: string, b: nat): (e: nat)
    requires b <= |s|
    ensures b <= e <= |s|
    ensures AllWhite(s[e..])
    ensures e > b ==> !IsWhite(s[e - 1])
    decreases |s|
  {
    if |s| > b && IsWhite(s[|s| - 1]) then
      var e := TrimEnd(s[..|s| - 1], b);
      assert s[e..] == s[..|s| - 1][e..] + [s[|s| - 1]];
      e
    else |s|
  }

  /** `String.trim`: the text between the leading and the trailing white runs. */
  function Trim(s: string): (r: string)
    ensures |r| <= |s|
    ensures r == [] || (!IsWhite(r[0]) && !IsWhite(r[|r| - 1]))
    ensures r == [] <==> AllWhite(s)
  {
    var b := TrimBegin(s);
    var e := TrimEnd(s, b);
    assert AllWhite(s) ==> b == |s|;
    assert b == e ==> s == s[..b] + s[e..];
    s[b..e]
  }

  /** What trim removes is a white run at each end and nothing else. */
  lemma TrimSplits(s: string)
    ensures exists p, q :: s == p + Trim(s) + q && AllWhite(p) && AllWhite(q)
  {
    var b := TrimBegin(s);
    var e := TrimEnd(s, b);
    assert s == s[..b] + s[b..e] + s[e..];
  }

  /**
   * The converse: a text that is white runs around a part with non-white ends
   * (or around nothing) trims to exactly that part.
   */
  lemma TrimUnique(p: string, t: string, q: string)
    requires AllWhite(p) && AllWhite(q)
    requires t == [] || (!IsWhite(t[0]) && !IsWhite(t[|t| - 1]))
    ensures Trim(p + t + q) == t
  {
    var s := p + t + q;
    assert forall k :: 0 <= k < |p| ==> s[k] == p[k];
    assert forall k :: 0 <= k < |q| ==> s[|p| + |t| + k] == q[k];
    if t != [] {
      var b := TrimBegin(s);
      var e := TrimEnd(s, b);
      assert s[|p|] == t[0];
      assert b == |p|;
      assert s[|p| + |t| - 1] == t[|t| - 1];
      assert e == |p| + |t|;
      assert s[b..e] == t;
    }
  }

  /** White characters appended to any text do not change its trim. */
  lemma TrimIgnoresWhiteTail(s: string, w: string)
    requires AllWhite(w)
    ensures Trim(s + w) == Trim(s)
  {
    var b := TrimBegin(s);
    var e := TrimEnd(s, b);
    var q := s[e..] + w;
    assert forall k :: 0 <= k < |q| ==> q[k] == if k < |s| - e then s[e + k] else w[k - (|s| - e)];
    assert s + w == s[..b] + s[b..e] + q;
    TrimUnique(s[..b], s[b..e], q);
  }

  /**
   * Trimming a text with white characters appended keeps at most the text, and
   * strictly less of it when the text begins or ends with a white character.
   */
  lemma TrimWhiteTailLength(s: string, w: string)
    requires AllWhite(w)
    ensures |Trim(s + w)| <= |s|
    ensures s != [] && (IsWhite(s[0]) || IsWhite(s[|s| - 1])) ==> |Trim(s + w)| < |s|
  {
  }

  /** A text that neither begins nor ends with a white character is its own trim. */
  lemma TrimOfSolid(s: string)
    requires s != [] && !IsWhite(s[0]) && !IsWhite(s[|s| - 1])
    ensures Trim(s) == s
  {
  }

  /** Trim keeps a non-white first character in place. */
  lemma TrimKeepsFirst(s: string)
    requires s != [] && !IsWhite(s[0])
    ensures Trim(s) != [] && Trim(s)[0] == s[0]
  {
  }

  /** White characters appended to a text are exactly what trim takes off its end. */
  lemma {:induction false} TrimDropsWhiteTail(s: string, w: string)
    requires s != [] && !IsWhite(s[0]) && !IsWhite(s[|s| - 1]) && AllWhite(w)
    ensures Trim(s + w) == s
    decreases |w|
  {
    if w == [] {
      assert s + w == s;
    } else {
      var t := s + w;
      assert t[..|t| - 1] == s + w[..|w| - 1];
      TrimDropsWhiteTail(s, w[..|w| - 1]);
      assert TrimBegin(t) == 0;
      assert TrimEnd(t, 0) == TrimEnd(t[..|t| - 1], 0);
    }
  }

  predicate StartsWith(s: string, p: string) { |p| <= |s| && s[..|p|] == p }

  /** `s.indexOf(c)`: the first position of `c`, if any. */
  function IndexOf(s: string, c: char): (r: Option<nat>)
    ensures r.Some? ==> r.value < |s| && s[r.value] == c && c !in s[..r.value]
    ensures r.None? ==> c !in s
  {
    if s == [] then None
    else if s[0] == c then Some(0)
    else
      match IndexOf(s[1..], c)
      case None => None
      case Some(k) =>
        assert s[..k + 1] == [s[0]] + s[1..][..k];
        Some(k + 1)
  }

  /** A position holding `c` with no `c` before it is what indexOf returns. */
  lemma {:induction false} IndexOfFirst(s: string, c: char, j: nat)
    requires j < |s| && s[j] == c && c !in s[..j]
    ensures IndexOf(s, c) == Some(j)
  {
    if j > 0 {
      assert s[0] == s[..j][0];
      var t, u := s[1..][..j - 1], s[..j];
      forall k | 0 <= k < |t|
        ensures t[k] != c
      {
        assert t[k] == u[k + 1];
      }
      IndexOfFirst(s[1..], c, j - 1);
    }
  }

  // ----- decimal numbers -----

  predicate IsDigit(c: char) { '0' <= c <= '9' }

  predicate AllDigits(s: string) { forall k :: 0 <= k < |s| ==> IsDigit(s[k]) }

  function DigitValue(c: char): nat
    requires IsDigit(c)
  {
    (c as int) - ('0' as int)
  }

  function DigitChar(d: nat): (c: char)
    requires d < 10
    ensures IsDigit(c) && DigitValue(c) == d
  {
    (('0' as int) + d) as char
  }

  /** The decimal digits of a natural number, most significant first, no leading zero. */
  function NatText(n: nat): (r: string)
    ensures r != [] && AllDigits(r)
  {
    if n < 10 then [DigitChar(n)] else NatText(n / 10) + [DigitChar(n % 10)]
  }

  /** The number a string of decimal digits denotes. */
  function DigitsValue(s: string): nat
    requires AllDigits(s)
  {
    if s == [] then 0 else 10 * DigitsValue(s[..|s| - 1]) + DigitValue(s[|s| - 1])
  }

  lemma {:induction false} DigitsValueOfNatText(n: nat)
    ensures DigitsValue(NatText(n)) == n
  {
    if n >= 10 {
      var t := NatText(n);
      assert t[..|t| - 1] == NatText(n / 10);
      DigitsValueOfNatText(n / 10);
    }
  }

  function Pow10(k: nat): (p: nat)
    ensures p >= 1
  {
    if k == 0 then 1 else 10 * Pow10(k - 1)
  }

  lemma {:induction false} NatTextLength(n: nat, k: nat)
    requires 1 <= k && n < Pow10(k)
    ensures |NatText(n)| <= k
  {
    if n >= 10 {
      NatTextLength(n / 10, k - 1);
    }
  }

  /** What `"" + n` gives for an `int` or a `long`: an optional minus sign, then digits. */
  function IntText(n: int): (r: string)
    ensures r != [] && !IsWhite(r[0]) && !IsWhite(r[|r| - 1])
    ensures forall k :: 0 <= k < |r| ==> IsDigit(r[k]) || (k == 0 && r[k] == '-')
  {
    if n < 0 then "-" + NatText(-n) else NatText(n)
  }

  /** The text of an `int` has at most eleven characters. */
  lemma IntTextLength(n: int)
    requires IsInt(n)
    ensures |IntText(n)| <= 11
  {
    assert Pow10(10) == 10_000_000_000;
    NatTextLength(if n < 0 then -n else n, 10);
  }

  lemma IntTextHasNo(n: int, c: char)
    requires !IsDigit(c) && c != '-'
    ensures c !in IntText(n)
  {
  }

  /**
   * `Integer.parseInt` (bounds INT_MIN..INT_MAX) and `Long.parseLong` (bounds
   * LONG_MIN..LONG_MAX) in radix 10: an optional leading '-' or '+', then one or
   * more digits and nothing else, denoting a value within the bounds. Every other
   * text makes Java throw NumberFormatException, modelled as None.
   */
  function ParseDecimal(s: string, lo: int, hi: int): (r: Option<int>)
    requires lo <= 0 <= hi
    ensures r.Some? ==> lo <= r.value <= hi
    ensures r.Some? ==> s != [] && (IsDigit(s[0]) || (|s| > 1 && (s[0] == '-' || s[0] == '+')))
    ensures r.Some? ==> AllDigits(s[1..])
    ensures r.Some? <==> IsDecimal(s) && lo <= DecimalValue(s) <= hi
    ensures r.Some? ==> r.value == DecimalValue(s)
  {
    if s == [] then None
    else if s[0] == '-' || s[0] == '+' then
      if |s| == 1 || !AllDigits(s[1..]) then None
      else
        var mag: int := DigitsValue(s[1..]);
        var v := if s[0] == '-' then -mag else mag;
        HornerValue(0, s[1..]);
        if lo <= v <= hi then Some(v) else None
    else if AllDigits(s) then
      var v := DigitsValue(s);
      HornerValue(0, s);
      if v <= hi then Some(v) else None
    else None
  }

  /** The shape parseInt and parseLong accept: an optional '-' or '+', then one or more digits. */
  predicate IsDecimal(s: string)
  {
    if s != [] && (s[0] == '-' || s[0] == '+') then |s| > 1 && AllDigits(s[1..])
    else s != [] && AllDigits(s)
  }

  /** The value of a decimal text, accumulated digit by digit from the left, negated after a '-'. */
  function DecimalValue(s: string): int
    requires IsDecimal(s)
  {
    if s[0] == '-' then -Horner(0, s[1..])
    else if s[0] == '+' then Horner(0, s[1..])
    else Horner(0, s)
  }

  /** The left-to-right accumulation acc * 10 + digit over the digits of s. */
  function Horner(acc: int, s: string): int
    requires AllDigits(s)
    decreases |s|
  {
    if s == [] then acc else Horner(10 * acc + DigitValue(s[0]), s[1..])
  }

  /** The first digit of a digit string weighs 10 to the power of the number of digits after it. */
  lemma {:induction false} DigitsValueFront(s: string)
    requires s != [] && AllDigits(s)
    ensures DigitsValue(s) == DigitValue(s[0]) * Pow10(|s| - 1) + DigitsValue(s[1..])
    decreases |s|
  {
    if |s| > 1 {
      var u := s[..|s| - 1];
      DigitsValueFront(u);
      assert u[1..] == s[1..][..|s[1..]| - 1];
      assert DigitsValue(s) == 10 * DigitsValue(u) + DigitValue(s[|s| - 1]);
      assert DigitsValue(s[1..]) == 10 * DigitsValue(u[1..]) + DigitValue(s[|s| - 1]);
      ScaleSum(DigitValue(s[0]), Pow10(|s| - 2), DigitsValue(u[1..]));
    } else {
      assert s[..0] == [] && s[1..] == [];
    }
  }

  /** Accumulating from the left gives the same value as the digit string's own value. */
  lemma {:induction false} HornerValue(acc: int, s: string)
    requires AllDigits(s)
    ensures Horner(acc, s) == acc * Pow10(|s|) + DigitsValue(s)
    decreases |s|
  {
    if s != [] {
      var d0 := DigitValue(s[0]);
      HornerValue(10 * acc + d0, s[1..]);
      DigitsValueFront(s);
      Distribute(acc, d0, Pow10(|s| - 1));
    }
  }

  lemma Distribute(a: int, d: int, p: int)
    ensures (10 * a + d) * p == a * (10 * p) + d * p
  {
  }

  lemma ScaleSum(d: int, p: int, x: int)
    ensures 10 * (d * p + x) == d * (10 * p) + 10 * x
  {
  }

  function ParseInt(s: string): (r: Option<int>)
    ensures r.Some? ==> IsInt(r.value)
  {
    ParseDecimal(s, INT_MIN, INT_MAX)
  }

  function ParseLong(s: string): (r: Option<int>)
    ensures r.Some? ==> IsLong(r.value)
  {
    ParseDecimal(s, LONG_MIN, LONG_MAX)
  }

  /** Parsing reads back exactly the number that was printed. */
  lemma ParseDecimalOfIntText(n: int, lo: int, hi: int)
    requires lo <= 0 <= hi && lo <= n <= hi
    ensures ParseDecimal(IntText(n), lo, hi) == Some(n)
  {
    var t := IntText(n);
    if n < 0 {
      assert t[1..] == NatText(-n);
      DigitsValueOfNatText(-n);
    } else {
      DigitsValueOfNatText(n);
    }
  }

  /** A text holding a character that is neither a digit nor a leading sign is no number. */
  lemma ParseDecimalRejects(s: string, lo: int, hi: int, k: nat)
    requires lo <= 0 <= hi
    requires k < |s| && !IsDigit(s[k]) && !(k == 0 && (s[0] == '-' || s[0] == '+'))
    ensures ParseDecimal(s, lo, hi) == None
  {
    if k > 0 {
      assert s[1..][k - 1] == s[k];
    }
  }
}
