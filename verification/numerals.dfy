/** Rendering of integers as text, as Java's string concatenation (`"." + idx`)
    and `Integer.toHexString` do it: most significant digit first, no leading
    zeros, a single `0` for zero, lower-case hexadecimal digits. */
module Numerals {

  import opened Base

  /** Digits of `n` in base `b`, most significant first. */
  function Digits(n: nat, b: nat): (ds: seq<nat>)
    requires 2 <= b
    ensures |ds| >= 1
    ensures forall i :: 0 <= i < |ds| ==> ds[i] < b
    ensures ds[0] == 0 ==> n == 0
    decreases n
  {
    if n < b then [n]
    else
      DivStep(n, b);
      Digits(n / b, b) + [n % b]
  }

  /** The facts about one division step that the digit recursion needs. */
  lemma DivStep(n: nat, b: nat)
    requires 2 <= b <= n
    ensures 0 < n / b < n
    ensures n % b < b
    ensures n == (n / b) * b + n % b
  {
  }

  /** The number a digit sequence denotes (most significant first). */
  function Value(ds: seq<nat>, b: nat): nat
  {
    if |ds| == 0 then 0 else Value(ds[..|ds| - 1], b) * b + ds[|ds| - 1]
  }

  /** Reading the digits back gives the number: `Digits` is injective and
      `Value` is its left inverse. */
  lemma {:induction false} ValueOfDigits(n: nat, b: nat)
    requires 2 <= b
    ensures Value(Digits(n, b), b) == n
    decreases n
  {
    if n >= b {
      var ds := Digits(n, b);
      DivStep(n, b);
      assert ds[..|ds| - 1] == Digits(n / b, b);
      assert ds[|ds| - 1] == n % b;
      ValueOfDigits(n / b, b);
    }
  }

  const DigitChars: string := "0123456789abcdef"

  function DigitChar(d: nat): char
    requires d < 16
  {
    DigitChars[d]
  }

  /** Index of a digit character, or 16 for any other character. */
  function CharDigit(c: char): (d: nat)
    ensures d <= 16
    ensures d < 16 ==> DigitChar(d) == c
  {
    if '0' <= c <= '9' then (c - '0') as nat
    else if 'a' <= c <= 'f' then (c - 'a') as nat + 10
    else 16
  }

  lemma CharDigitOfDigitChar(d: nat)
    requires d < 16
    ensures CharDigit(DigitChar(d)) == d
  {
  }

  function Render(ds: seq<nat>): (s: string)
    requires forall i :: 0 <= i < |ds| ==> ds[i] < 16
    ensures |s| == |ds|
    ensures forall i :: 0 <= i < |ds| ==> s[i] == DigitChar(ds[i])
  {
    if |ds| == 0 then [] else Render(ds[..|ds| - 1]) + [DigitChar(ds[|ds| - 1])]
  }

  /** `n` written in base `b` (2 to 16). */
  function Show(n: nat, b: nat): (s: string)
    requires 2 <= b <= 16
    ensures |s| >= 1
    ensures forall i :: 0 <= i < |s| ==> s[i] in DigitChars[..b]
    ensures s[0] == '0' <==> n == 0
    ensures s[0] == '0' ==> s == "0"
  {
    var ds := Digits(n, b);
    var s := Render(ds);
    assert forall i :: 0 <= i < |s| ==> s[i] == DigitChars[..b][ds[i]];
    if s[0] == '0' then
      assert ds[0] == 0;
      assert n == 0;
      s
    else s
  }

  /** A numeral without superfluous leading zeros: the only one starting
      with '0' is "0" itself. */
  predicate NoLeadingZero(s: string)
  {
    |s| >= 1 && (s[0] == '0' ==> s == "0")
  }

  /** Parses a base-`b` numeral; `None` on an empty string or a character
      that is not a base-`b` digit. */
  function Parse(s: string, b: nat): Option<nat>
  {
    if |s| == 0 then None
    else
      var d := CharDigit(s[|s| - 1]);
      if d >= b then None
      else if |s| == 1 then Some(d)
      else match Parse(s[..|s| - 1], b)
        case None => None
        case Some(v) => Some(v * b + d)
  }

  /** Round trip: parsing what `Show` wrote yields the number again. */
  lemma {:induction false} ParseShow(n: nat, b: nat)
    requires 2 <= b <= 16
    ensures Parse(Show(n, b), b) == Some(n)
  {
    ParseRender(Digits(n, b), b);
    ValueOfDigits(n, b);
  }

  lemma {:induction false} ParseRender(ds: seq<nat>, b: nat)
    requires 2 <= b <= 16
    requires |ds| >= 1
    requires forall i :: 0 <= i < |ds| ==> ds[i] < b
    ensures Parse(Render(ds), b) == Some(Value(ds, b))
    decreases |ds|, 1
  {
    var d := ds[|ds| - 1];
    if |ds| > 1 {
      var init := ds[..|ds| - 1];
      assert ds == init + [d];
      ParseRenderStep(init, d, b);
    } else {
      CharDigitOfDigitChar(d);
      assert ds[..0] == [];
    }
  }

  /** One step of `ParseRender`: a digit appended to a non-empty digit
      sequence. */
  lemma {:induction false} ParseRenderStep(init: seq<nat>, d: nat, b: nat)
    requires 2 <= b <= 16 && d < b && |init| >= 1
    requires forall i :: 0 <= i < |init| ==> init[i] < b
    ensures Parse(Render(init + [d]), b) == Some(Value(init + [d], b))
    decreases |init| + 1, 0
  {
    ParseRender(init, b);
    RenderSnoc(init, d);
    ValueSnoc(init, d, b);
    CharDigitOfDigitChar(d);
    ParseSnoc(Render(init), DigitChar(d), b, Value(init, b));
  }

  lemma RenderSnoc(init: seq<nat>, d: nat)
    requires d < 16
    requires forall i :: 0 <= i < |init| ==> init[i] < 16
    ensures Render(init + [d]) == Render(init) + [DigitChar(d)]
  {
    DropLast(init, d);
  }

  lemma ValueSnoc(init: seq<nat>, d: nat, b: nat)
    ensures Value(init + [d], b) == Value(init, b) * b + d
  {
    DropLast(init, d);
  }

  /** Parsing one more digit. */
  lemma ParseSnoc(t: string, c: char, b: nat, v: nat)
    requires |t| >= 1 && Parse(t, b) == Some(v) && CharDigit(c) < b
    ensures Parse(t + [c], b) == Some(v * b + CharDigit(c))
  {
    DropLast(t, c);
  }

  lemma SplitLast<T>(a: seq<T>)
    requires |a| >= 1
    ensures a == a[..|a| - 1] + [a[|a| - 1]]
  {
  }

  lemma DropLast<T>(a: seq<T>, x: T)
    ensures (a + [x])[..|a|] == a
    ensures (a + [x])[|a|] == x
  {
  }

  /** Java's `"" + i` for an `int`: decimal, with a leading '-' when negative. */
  function DecimalString(i: int): (s: string)
    ensures |s| >= 1
    ensures i < 0 <==> s[0] == '-'
    ensures i >= 0 ==> NoLeadingZero(s)
    ensures i < 0 ==> |s| >= 2 && NoLeadingZero(s[1..]) && s[1] != '0'
  {
    if i < 0 then "-" + Show(-i, 10)
    else
      var t := Show(i, 10);
      assert t[0] in DigitChars[..10];
      t
  }

  /** `t` is how Java writes the `int` `i`: an optional '-' for negatives,
      then decimal digits without leading zeros that read back to |i|. */
  predicate IsDecimalOf(t: string, i: int)
  {
    && (i >= 0 ==> NoLeadingZero(t) && Parse(t, 10) == Some(i))
    && (i < 0 ==>
          && |t| >= 2 && t[0] == '-'
          && NoLeadingZero(t[1..]) && Parse(t[1..], 10) == Some(-i))
  }

  /** Round trip for `DecimalString`: the sign and the digits read back. */
  lemma DecimalStringParses(i: int)
    ensures IsDecimalOf(DecimalString(i), i)
  {
    if i < 0 {
      ParseShow(-i, 10);
      assert DecimalString(i)[1..] == Show(-i, 10);
    } else {
      ParseShow(i, 10);
    }
  }

  /** `DecimalString` writes the only text that is Java's rendering of `i`. */
  lemma DecimalStringUnique(t: string, i: int)
    requires IsDecimalOf(t, i)
    ensures t == DecimalString(i)
  {
    if i < 0 {
      CanonicalNumeral(t[1..], -i, 10);
      assert t == "-" + t[1..];
    } else {
      CanonicalNumeral(t, i, 10);
    }
  }

  /** A numeral without leading zeros is determined by its value: `Show`
      writes the only such numeral of each number, so the renderings above
      are the canonical ones. */
  lemma {:induction false} CanonicalNumeral(s: string, n: nat, b: nat)
    requires 2 <= b <= 16
    requires NoLeadingZero(s) && Parse(s, b) == Some(n)
    ensures s == Show(n, b)
    decreases |s|
  {
    if |s| == 1 {
      SingleDigit(s, b);
    } else {
      var v := ParseLast(s, n, b);
      PrefixNoLeadingZero(s);
      CanonicalNumeral(s[..|s| - 1], v, b);
      AppendDigit(s, v, n, b);
    }
  }

  lemma SingleDigit(s: string, b: nat)
    requires 2 <= b <= 16
    requires |s| == 1 && Parse(s, b).Some?
    ensures s == Show(Parse(s, b).value, b)
  {
    var d := CharDigit(s[0]);
    ShowDigit(d, b);
    assert s == [DigitChar(d)];
  }

  lemma PrefixNoLeadingZero(s: string)
    requires |s| >= 2 && NoLeadingZero(s)
    ensures s[0] != '0' && NoLeadingZero(s[..|s| - 1])
  {
    assert s != "0";
  }

  lemma AppendDigit(s: string, v: nat, n: nat, b: nat)
    requires 2 <= b <= 16 && |s| >= 2
    requires s[..|s| - 1] == Show(v, b) && s[0] != '0'
    requires CharDigit(s[|s| - 1]) < b && DigitChar(CharDigit(s[|s| - 1])) == s[|s| - 1]
    requires n == v * b + CharDigit(s[|s| - 1])
    ensures s == Show(n, b)
  {
    var d := CharDigit(s[|s| - 1]);
    assert v != 0 by {
      assert Show(v, b)[0] != '0';
    }
    ShowAppend(v, d, b);
    SplitLast(s);
  }

  /** Parsing a numeral of two or more digits: the value of all but the last
      digit, which is returned, times the base, plus the last digit. */
  lemma ParseLast(s: string, n: nat, b: nat) returns (v: nat)
    requires 2 <= b <= 16
    requires |s| >= 2 && Parse(s, b) == Some(n)
    ensures Parse(s[..|s| - 1], b) == Some(v)
    ensures CharDigit(s[|s| - 1]) < b && DigitChar(CharDigit(s[|s| - 1])) == s[|s| - 1]
    ensures n == v * b + CharDigit(s[|s| - 1])
  {
    v := Parse(s[..|s| - 1], b).value;
  }

  lemma ShowDigit(d: nat, b: nat)
    requires 2 <= b <= 16 && d < b
    ensures Show(d, b) == [DigitChar(d)]
  {
    assert Digits(d, b) == [d];
  }

  /** Appending a digit to a non-zero number's numeral. */
  lemma ShowAppend(v: nat, d: nat, b: nat)
    requires 2 <= b <= 16 && d < b && v != 0
    ensures Show(v * b + d, b) == Show(v, b) + [DigitChar(d)]
  {
    var n := v * b + d;
    MulAtLeast(v, b);
    DivStep(n, b);
    DivUnique(n, b, v, d);
    var ds := Digits(n, b);
    assert ds == Digits(v, b) + [d];
    assert ds[..|ds| - 1] == Digits(v, b);
  }

  lemma DivUnique(n: nat, b: nat, q: nat, r: nat)
    requires 2 <= b && r < b && n == q * b + r
    ensures n / b == q && n % b == r
  {
    var q', r' := n / b, n % b;
    assert q' * b + r' == q * b + r;
    assert (q' - q) * b == r - r';
    if q' > q {
      MulAtLeast(q' - q, b);
    } else if q' < q {
      MulAtLeast(q - q', b);
    }
  }

  lemma MulAtLeast(k: int, b: nat)
    requires k >= 1
    ensures k * b >= b
  {
  }

  const TwoTo32: int := 0x1_0000_0000

  /** Java's `Integer.toHexString(h)` for a 32-bit `int`: the two's-complement
      bits read as an unsigned number, in lower-case hexadecimal. */
  function HexString(h: int): (s: string)
    requires -0x8000_0000 <= h < 0x8000_0000
    ensures 1 <= |s| <= 8
    ensures NoLeadingZero(s)
    ensures Parse(s, 16) == Some(if h < 0 then h + TwoTo32 else h)
  {
    var u := h % TwoTo32;
    assert u == if h < 0 then h + TwoTo32 else h;
    ParseShow(u, 16);
    ShowLength(u, 16, 8);
    Show(u, 16)
  }

  /** A number below b^k needs at most k digits. */
  lemma {:induction false} ShowLength(n: nat, b: nat, k: nat)
    requires 2 <= b <= 16
    requires 1 <= k
    requires n < Pow(b, k)
    ensures |Show(n, b)| <= k
    ensures |Digits(n, b)| <= k
    decreases n
  {
    if n >= b {
      DivStep(n, b);
      DivBound(n, b, Pow(b, k - 1));
      if k == 1 {
        assert false;
      }
      ShowLength(n / b, b, k - 1);
    }
  }

  lemma DivBound(n: nat, b: nat, p: nat)
    requires 2 <= b
    requires n < b * p
    ensures n / b < p
  {
  }

  function Pow(b: nat, k: nat): nat
  {
    if k == 0 then 1 else b * Pow(b, k - 1)
  }
}
