/** Natural numbers as decimal numerals. A string is the sequence of its bytes. */
module Decimal {
  function Pow10(n: nat): (r: nat)
    ensures r > 0
  {
    if n == 0 then 1 else 10 * Pow10(n - 1)
  }

  predicate IsDigit(c: char) {
    '0' <= c <= '9'
  }

  function DigitChar(d: nat): (c: char)
    requires d < 10
    ensures IsDigit(c)
  {
    ('0' as int + d) as char
  }

  predicate AllDigits(s: string) {
    forall i :: 0 <= i < |s| ==> IsDigit(s[i])
  }

  /** The number that a string of digits denotes. */
  function NatOf(s: string): nat
    requires AllDigits(s)
  {
    if |s| == 0 then 0 else 10 * NatOf(s[..|s| - 1]) + (s[|s| - 1] as int - '0' as int)
  }

  /** The digits of n without leading zeros; one zero for zero. */
  function Digits(n: nat): (s: string)
    ensures |s| > 0 && AllDigits(s)
  {
    if n < 10 then [DigitChar(n)] else Digits(n / 10) + [DigitChar(n % 10)]
  }

  /** The last `width` digits of n, leading zeros included. */
  function Fixed(n: nat, width: nat): (s: string)
    ensures |s| == width && AllDigits(s)
  {
    if width == 0 then "" else Fixed(n / 10, width - 1) + [DigitChar(n % 10)]
  }

  /** strings.Repeat("0", n). */
  function Zeros(n: nat): (s: string)
    ensures |s| == n && AllDigits(s)
    ensures forall i :: 0 <= i < n ==> s[i] == '0'
  {
    seq(n, _ => '0')
  }

  /** What is left of n without its last d digits. */
  function High(n: nat, d: nat): nat {
    if d == 0 then n else High(n / 10, d - 1)
  }

  /** n with k zeros appended. */
  function Scale(n: nat, k: nat): nat {
    if k == 0 then n else 10 * Scale(n, k - 1)
  }

  // ---------------------------------------------------------------- quotients and products

  /** A multiple of m is zero or at least m away from it. */
  lemma Multiples(e: int, m: int)
    requires m > 0
    ensures e >= 1 ==> e * m >= m
    ensures e <= -1 ==> e * m <= -m
  {
    if e >= 1 {
      assert e * m == (e - 1) * m + m && (e - 1) * m >= 0;
    } else if e <= -1 {
      assert e * m == (e + 1) * m - m && (e + 1) * m <= 0;
    }
  }

  lemma DivModUnique(n: int, m: int, q: int, r: int)
    requires m > 0 && n == q * m + r && 0 <= r < m
    ensures q == n / m && r == n % m
  {
    assert n == (n / m) * m + n % m;
    assert (q - n / m) * m == q * m - (n / m) * m;
    Multiples(q - n / m, m);
  }

  /** Dropping d + 1 digits is dropping one and then d. */
  lemma DropDigits(n: int, m: int)
    requires m > 0
    ensures n / 10 / m == n / (10 * m)
    ensures n % (10 * m) == 10 * (n / 10 % m) + n % 10
  {
    var q, r := n / 10 / m, n / 10 % m;
    assert n / 10 == q * m + r;
    assert n == q * (10 * m) + (10 * r + n % 10) by {
      assert q * (10 * m) == 10 * (q * m);
    }
    DivModUnique(n, 10 * m, q, 10 * r + n % 10);
  }

  /** Dropping and keeping d digits are division by 10^d. */
  lemma {:induction false} HighIsQuotient(n: nat, d: nat)
    ensures High(n, d) == n / Pow10(d)
    ensures NatOf(Fixed(n, d)) == n % Pow10(d)
  {
    if d > 0 {
      HighIsQuotient(n / 10, d - 1);
      DropDigits(n, Pow10(d - 1));
      assert Fixed(n, d)[..d - 1] == Fixed(n / 10, d - 1);
    }
  }

  /** A multiple of 10^k is a scaled number. */
  lemma MultipleIsScaled(v: nat, k: nat)
    requires v % Pow10(k) == 0
    ensures v == Scale(High(v, k), k)
  {
    HighIsQuotient(v, k);
    ScaleIsProduct(High(v, k), k);
  }

  lemma {:induction false} ScaleIsProduct(n: nat, k: nat)
    ensures Scale(n, k) == n * Pow10(k)
  {
    if k > 0 {
      ScaleIsProduct(n, k - 1);
      assert n * (10 * Pow10(k - 1)) == 10 * (n * Pow10(k - 1));
    }
  }

  lemma {:induction false} ScaleGrows(n: nat, a: nat, b: nat)
    requires n > 0 && a < b
    ensures 0 < Scale(n, a) < Scale(n, b)
  {
    if a > 0 {
      ScaleGrows(n, a - 1, b - 1);
    } else if b > 1 {
      ScaleGrows(n, 0, b - 1);
    }
  }

  lemma ScaleExact(n: nat, a: nat, b: nat)
    requires a <= b
    ensures Scale(n, a) == Scale(n, b) <==> a == b || n == 0
  {
    if n == 0 {
      ScaleIsProduct(0, a);
      ScaleIsProduct(0, b);
    } else if a < b {
      ScaleGrows(n, a, b);
    }
  }

  // ---------------------------------------------------------------- what numerals denote

  lemma {:induction false} DigitsDenote(n: nat)
    ensures NatOf(Digits(n)) == n
  {
    if n >= 10 {
      DigitsDenote(n / 10);
      assert Digits(n)[..|Digits(n)| - 1] == Digits(n / 10);
    } else {
      assert Digits(n)[..0] == "";
    }
  }

  /** Appending zeros multiplies. */
  lemma {:induction false} NatOfPadded(a: string, n: nat)
    requires AllDigits(a)
    ensures AllDigits(a + Zeros(n)) && NatOf(a + Zeros(n)) == Scale(NatOf(a), n)
  {
    if n == 0 {
      assert a + Zeros(0) == a;
    } else {
      NatOfPadded(a, n - 1);
      assert (a + Zeros(n))[..|a| + n - 1] == a + Zeros(n - 1);
    }
  }

  /** Whole part and decimals together denote the number. */
  lemma {:induction false} PartsDenote(n: nat, d: nat)
    ensures AllDigits(Digits(High(n, d)) + Fixed(n, d))
    ensures NatOf(Digits(High(n, d)) + Fixed(n, d)) == n
  {
    var whole, s := Digits(High(n, d)), Digits(High(n, d)) + Fixed(n, d);
    if d == 0 {
      DigitsDenote(n);
      assert s == whole;
    } else {
      PartsDenote(n / 10, d - 1);
      assert s[..|s| - 1] == whole + Fixed(n / 10, d - 1);
    }
  }

  /** A numeral with more than d digits is what is left without them, and then they. */
  lemma {:induction false} DigitsSplit(n: nat, d: nat)
    requires |Digits(n)| > d
    ensures Digits(n) == Digits(High(n, d)) + Fixed(n, d)
  {
    if d > 0 {
      assert |Digits(n / 10)| > d - 1;
      DigitsSplit(n / 10, d - 1);
    }
  }

  /** Of a numeral with at most d digits nothing is left, and its last d digits are itself
      behind zeros. */
  lemma {:induction false} DigitsShort(n: nat, d: nat)
    requires |Digits(n)| <= d
    ensures High(n, d) == 0
    ensures Fixed(n, d) == Zeros(d - |Digits(n)|) + Digits(n)
  {
    if n >= 10 {
      DigitsShort(n / 10, d - 1);
      assert Zeros(d - |Digits(n)|) == Zeros(d - 1 - |Digits(n / 10)|);
    } else {
      NothingLeft(d - 1);
      assert n / 10 == 0;
      assert Zeros(d - 1) + [DigitChar(n % 10)] == Zeros(d - 1) + Digits(n);
    }
  }

  lemma {:induction false} NothingLeft(d: nat)
    ensures High(0, d) == 0 && Fixed(0, d) == Zeros(d)
  {
    if d > 0 {
      NothingLeft(d - 1);
    }
  }

  /** Zeros at the end of a scaled number. */
  lemma {:induction false} FixedOfScaled(n: nat, d: nat, k: nat)
    requires k <= d
    ensures Fixed(Scale(n, k), d) == Fixed(n, d - k) + Zeros(k)
    ensures High(Scale(n, k), d) == High(n, d - k)
  {
    if k > 0 {
      FixedOfScaled(n, d - 1, k - 1);
      assert Scale(n, k) / 10 == Scale(n, k - 1);
      assert Zeros(k) == Zeros(k - 1) + ['0'];
    } else {
      assert Fixed(n, d) + Zeros(0) == Fixed(n, d);
    }
  }
}
