/** Decimal rendering of natural numbers, as Python's `f"{n:0w}"` and `strftime` produce it. */
module Decimal {
  import opened Strings

  function Pow10(k: nat): (r: nat)
    ensures r >= 1
  {
    if k == 0 then 1 else 10 * Pow10(k - 1)
  }

  predicate IsDigit(c: char)
  {
    '0' <= c <= '9'
  }

  predicate AllDigits(s: string)
  {
    forall i :: 0 <= i < |s| ==> IsDigit(s[i])
  }

  function DigitChar(d: nat): (c: char)
    requires d < 10
    ensures IsDigit(c)
  {
    ('0' as int + d) as char
  }

  function DigitValue(c: char): nat
    requires IsDigit(c)
  {
    c as int - '0' as int
  }

  /** The `w` lowest decimal digits of `n`, most significant first. */
  function FixedDigits(n: nat, w: nat): (s: string)
    ensures |s| == w && AllDigits(s)
  {
    if w == 0 then [] else FixedDigits(n / 10, w - 1) + [DigitChar(n % 10)]
  }

  /** The number of decimal digits of `n` written without leading zeros (`0` has one). */
  function Width(n: nat): (w: nat)
    ensures w >= 1
  {
    if n < 10 then 1 else 1 + Width(n / 10)
  }

  /** Python's `f"{n:0w}"` for `n >= 0`: the digits of `n`, zero-padded on the left to at least `w` characters. */
  function ZeroPad(n: nat, w: nat): (s: string)
    ensures |s| == if w < Width(n) then Width(n) else w
    ensures AllDigits(s)
  {
    FixedDigits(n, if w < Width(n) then Width(n) else w)
  }

  /** Python's `int(s)` on a string of decimal digits. */
  function Value(s: string): nat
    requires AllDigits(s)
  {
    if s == [] then 0 else 10 * Value(s[..|s| - 1]) + DigitValue(s[|s| - 1])
  }

  lemma {:induction false} MulAtLeast(m: int, k: int)
    requires m > 0 && k >= 1
    ensures m * k >= m
  {
    if k > 1 {
      MulAtLeast(m, k - 1);
      assert m * k == m * (k - 1) + m;
    }
  }

  lemma DivModUnique(x: int, m: int, a: int, b: int)
    requires m > 0 && 0 <= b < m && x == m * a + b
    ensures x / m == a && x % m == b
  {
    var q, r := x / m, x % m;
    assert m * a - m * q == m * (a - q);
    if a > q {
      MulAtLeast(m, a - q);
    } else if a < q {
      MulAtLeast(m, q - a);
    }
  }

  lemma DivModTen(n: nat, p: nat)
    requires p >= 1
    ensures n % (10 * p) == 10 * ((n / 10) % p) + n % 10
  {
    var q, r := n / 10, n % 10;
    var a, b := q / p, q % p;
    assert n == 10 * q + r;
    assert q == p * a + b;
    assert n == (10 * p) * a + (10 * b + r);
    DivModUnique(n, 10 * p, a, 10 * b + r);
  }

  lemma {:induction false} Pow10Monotone(i: nat, j: nat)
    requires i <= j
    ensures Pow10(i) <= Pow10(j)
  {
    if i < j {
      Pow10Monotone(i, j - 1);
    }
  }

  /** Parsing the fixed-width digits back gives `n` modulo `10^w`. */
  lemma {:induction false} ValueOfFixedDigits(n: nat, w: nat)
    ensures Value(FixedDigits(n, w)) == n % Pow10(w)
  {
    if w > 0 {
      var s := FixedDigits(n, w);
      assert s[..|s| - 1] == FixedDigits(n / 10, w - 1);
      ValueOfFixedDigits(n / 10, w - 1);
      DivModTen(n, Pow10(w - 1));
    }
  }

  /** `Width(n)` digits are enough for `n`, and no fewer are. */
  lemma {:induction false} WidthFits(n: nat)
    ensures n < Pow10(Width(n))
    ensures Width(n) > 1 ==> Pow10(Width(n) - 1) <= n
  {
    if n >= 10 {
      WidthFits(n / 10);
    }
  }

  lemma {:induction false} WidthMinimal(n: nat, w: nat)
    requires 1 <= w && n < Pow10(w)
    ensures Width(n) <= w
  {
    if n >= 10 {
      assert w > 1;
      WidthMinimal(n / 10, w - 1);
    }
  }

  /** Zero padding never loses a digit: reading the padded text back gives `n`. */
  lemma ZeroPadValue(n: nat, w: nat)
    ensures Value(ZeroPad(n, w)) == n
  {
    var k := if w < Width(n) then Width(n) else w;
    ValueOfFixedDigits(n, k);
    WidthFits(n);
    Pow10Monotone(Width(n), k);
    DivModUnique(n, Pow10(k), 0, n);
  }

  /** A number that fits in `w >= 1` digits is padded to exactly `w` characters. */
  lemma ZeroPadFits(n: nat, w: nat)
    requires 1 <= w && n < Pow10(w)
    ensures ZeroPad(n, w) == FixedDigits(n, w)
  {
    WidthMinimal(n, w);
  }

  /** Fixed-width digit strings compare, as strings, in the order of the numbers they write. */
  lemma {:induction false} FixedDigitsOrder(a: nat, b: nat, w: nat)
    requires a < Pow10(w) && b < Pow10(w)
    ensures LexLess(FixedDigits(a, w), FixedDigits(b, w)) <==> a < b
    ensures FixedDigits(a, w) == FixedDigits(b, w) <==> a == b
  {
    if w == 0 {
      LexLessIrreflexive([]);
    } else {
      FixedDigitsOrder(a / 10, b / 10, w - 1);
      var pa, pb := FixedDigits(a / 10, w - 1), FixedDigits(b / 10, w - 1);
      var ca, cb := [DigitChar(a % 10)], [DigitChar(b % 10)];
      LexLessAppend(pa, ca, pb, cb);
      AppendEqual(pa, ca, pb, cb);
      assert LexLess(ca, cb) <==> a % 10 < b % 10 by {
        assert ca[1..] == [] && cb[1..] == [];
      }
    }
  }
}
