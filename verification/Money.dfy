/** Amounts of money as raw integers, their decimal text, and rounding to display precision. */
module Money {
  import opened Domain
  import opened Decimal

  datatype Kind = Fiat | Crypto

  datatype Money = Money(kind: Kind, ticker: string, value: int, decimals: nat)

  function Abs(v: int): nat {
    if v < 0 then -v else v
  }

  // ---------------------------------------------------------------- library strings

  /** big.Int.String. */
  function RawText(v: int): string {
    if v < 0 then "-" + Digits(-v) else Digits(v)
  }

  /** strings.TrimRight with a single character. */
  function TrimRight(s: string, c: char): string {
    if |s| > 0 && s[|s| - 1] == c then TrimRight(s[..|s| - 1], c) else s
  }

  lemma {:induction false} TrimmedZeros(s: string)
    ensures var r := TrimRight(s, '0');
      |r| <= |s| && r + Zeros(|s| - |r|) == s && (AllDigits(s) ==> AllDigits(r))
  {
    if |s| > 0 && s[|s| - 1] == '0' {
      TrimmedZeros(s[..|s| - 1]);
    }
  }

  function TrimSuffix(s: string, suffix: string): string {
    if |suffix| <= |s| && s[|s| - |suffix|..] == suffix then s[..|s| - |suffix|] else s
  }

  /** strings.Split at the dots. */
  function Split(s: string): (parts: seq<string>)
    ensures |parts| > 0
  {
    if |s| == 0 then [""]
    else
      var rest := Split(s[1..]);
      if s[0] == '.' then [""] + rest else [[s[0]] + rest[0]] + rest[1..]
  }

  /** strings.ReplaceAll(s, "_", ""). */
  function Clear(s: string): string {
    if |s| == 0 then "" else if s[0] == '_' then Clear(s[1..]) else [s[0]] + Clear(s[1..])
  }

  lemma {:induction false} NothingToClear(s: string)
    requires '_' !in s
    ensures Clear(s) == s
  {
    if |s| > 0 {
      assert s == [s[0]] + s[1..];
      NothingToClear(s[1..]);
    }
  }

  /** big.Int.SetString in base 10: one optional sign, and at least one digit. */
  function SetString(s: string): Option<int> {
    var signed := |s| > 0 && (s[0] == '+' || s[0] == '-');
    var digits := if signed then s[1..] else s;
    if |digits| == 0 || !AllDigits(digits) then None
    else if signed && s[0] == '-' then Some(-(NatOf(digits) as int))
    else Some(NatOf(digits))
  }

  // ---------------------------------------------------------------- printing

  function Sign(v: int): string {
    if v < 0 then "-" else ""
  }

  /** The digits behind the point, as they are printed. */
  function FractionText(m: Money): string {
    var digits := Fixed(Abs(m.value), m.decimals);
    if m.kind == Fiat then digits else TrimRight(digits, '0')
  }

  function WholeText(m: Money): (s: string)
    ensures |s| > 0 && AllDigits(s)
  {
    Digits(High(Abs(m.value), m.decimals))
  }

  /** Nothing is printed behind the whole part: no digit is left (crypto), or there are
      exactly two and both are zero (fiat). */
  predicate PointDropped(m: Money) {
    FractionText(m) == if m.kind == Fiat then "00" else ""
  }

  /** What is printed: sign, whole part, and unless dropped a point and the fraction. */
  function Text(m: Money): string {
    if PointDropped(m) then Sign(m.value) + WholeText(m)
    else Sign(m.value) + WholeText(m) + "." + FractionText(m)
  }

  lemma TrimRightStops(a: string, b: string, c: char)
    requires |a| > 0 && a[|a| - 1] != c
    ensures TrimRight(a + b, c) == a + TrimRight(b, c)
    decreases |b|
  {
    if |b| == 0 {
      assert a + b == a;
    } else if b[|b| - 1] == c {
      assert (a + b)[..|a + b| - 1] == a + b[..|b| - 1];
      TrimRightStops(a, b[..|b| - 1], c);
    } else {
      assert (a + b)[|a + b| - 1] == b[|b| - 1];
    }
  }

  /** The numeral with its point and all its decimals. */
  function Numeral(n: nat, d: nat): string {
    Digits(High(n, d)) + "." + Fixed(n, d)
  }

  lemma LongNumeral(n: nat, d: nat)
    requires |Digits(n)| > d
    ensures var s, i := Digits(n), |Digits(n)| - d; s[..i] + "." + s[i..] == Numeral(n, d)
  {
    DigitsSplit(n, d);
    var s, i := Digits(n), |Digits(n)| - d;
    assert s[..i] == Digits(High(n, d)) && s[i..] == Fixed(n, d);
  }

  lemma ShortNumeral(n: nat, d: nat)
    requires |Digits(n)| <= d
    ensures "0." + (Zeros(d - |Digits(n)|) + Digits(n)) == Numeral(n, d)
  {
    DigitsShort(n, d);
    assert Digits(0) == "0";
  }

  /** Trimming zeros and then dots from a numeral with its point. */
  lemma TrimmedNumeral(whole: string, fraction: string)
    requires |whole| > 0 && AllDigits(whole) && AllDigits(fraction)
    ensures var f := TrimRight(fraction, '0');
      TrimRight(TrimRight(whole + "." + fraction, '0'), '.') == if f == "" then whole else whole + "." + f
  {
    var w, f := whole + ".", TrimRight(fraction, '0');
    TrimRightStops(w, fraction, '0');
    TrimmedZeros(fraction);
    if f == "" {
      TrimmedPoint(whole);
      assert w + f == w;
    } else {
      NothingTrimmed(w, f, '.');
    }
  }

  lemma NothingTrimmed(a: string, b: string, c: char)
    requires |b| > 0 && b[|b| - 1] != c
    ensures TrimRight(a + b, c) == a + b
  {
    assert (a + b)[|a + b| - 1] == b[|b| - 1];
  }

  lemma TrimmedPoint(whole: string)
    requires |whole| > 0 && AllDigits(whole)
    ensures TrimRight(whole + ".", '.') == whole
  {
    var w := whole + ".";
    assert w[..|w| - 1] == whole;
    assert TrimRight(whole, '.') == whole;
  }

  lemma TrimmedSuffix(whole: string, fraction: string)
    requires AllDigits(fraction)
    ensures TrimSuffix(whole + "." + fraction, ".00") == if fraction == "00" then whole else whole + "." + fraction
  {
    var s, n := whole + "." + fraction, |fraction|;
    if n >= 3 {
      assert s[|s| - 3] == fraction[n - 3];
      assert s[|s| - 3..][0] != '.';
    } else if n == 2 {
      assert s[|s| - 3..] == "." + fraction;
      assert ("." + fraction)[1..] == fraction && ".00"[1..] == "00";
      assert s[..|s| - 3] == whole;
    } else if |s| >= 3 {
      assert s[|s| - 1 - n] == '.';
      assert s[|s| - 3..][2 - n] == '.';
    }
  }

  /** Money.String, case by case on the length of the raw numeral. */
  method String(m: Money) returns (result: string)
    ensures result == Text(m)
  {
    var stringRaw := RawText(m.value);
    var isNegative := m.value < 0;
    if isNegative {
      stringRaw := stringRaw[1..];
    }
    assert stringRaw == Digits(Abs(m.value));
    result := WithPoint(stringRaw, m.decimals, Abs(m.value));
    TrimmedNumeral(WholeText(m), Fixed(Abs(m.value), m.decimals));
    TrimmedSuffix(WholeText(m), Fixed(Abs(m.value), m.decimals));
    if m.kind == Fiat {
      result := TrimSuffix(result, ".00");
    } else {
      result := TrimRight(TrimRight(result, '0'), '.');
    }
    if isNegative {
      result := "-" + result;
    }
    assert result == Sign(m.value) + if PointDropped(m) then WholeText(m) else WholeText(m) + "." + FractionText(m);
    SignedText(m);
  }

  lemma SignedText(m: Money)
    ensures Text(m) == Sign(m.value) + if PointDropped(m) then WholeText(m) else WholeText(m) + "." + FractionText(m)
  {
  }

  method WithPoint(stringRaw: string, decimals: nat, ghost n: nat) returns (result: string)
    requires stringRaw == Digits(n)
    ensures result == Numeral(n, decimals)
  {
    var l, d := |stringRaw|, decimals;
    if l > d {
      LongNumeral(n, d);
      var index := l - d;
      result := stringRaw[..index] + "." + stringRaw[index..];
    } else if l == d {
      ShortNumeral(n, d);
      assert Zeros(0) + stringRaw == stringRaw;
      result := "0." + stringRaw;
    } else {
      ShortNumeral(n, d);
      result := "0." + Zeros(d - l) + stringRaw;
      assert result == "0." + (Zeros(d - l) + stringRaw);
    }
  }

  // ---------------------------------------------------------------- parsing

  datatype Parsed = Value(value: int) | ParseError | Panics

  function Read(raw: string): Parsed {
    match SetString(Clear(raw))
    case None => ParseError
    case Some(v) => Value(v)
  }

  /** A text is read as its digits without the point, padded with zeros to the number of
      decimals. More decimals than that make the padding count negative, which panics. */
  function Parse(text: string, decimals: nat): Parsed {
    var parts := Split(text);
    if |parts| > 2 then ParseError
    else if |parts| == 1 then Read(text + Zeros(decimals))
    else if |parts[1]| > decimals then Panics
    else Read(parts[0] + parts[1] + Zeros(decimals - |parts[1]|))
  }

  method CryptoFromStringFloat(floatString: string, decimals: nat) returns (r: Parsed)
    ensures r == Parse(floatString, decimals)
  {
    var parts := Split(floatString);
    if |parts| > 2 {
      return ParseError;
    }
    var raw := "";
    if |parts| == 1 {
      raw := floatString + Zeros(decimals);
    } else {
      if decimals - |parts[1]| < 0 {
        return Panics;
      }
      raw := parts[0] + parts[1] + Zeros(decimals - |parts[1]|);
    }
    var bigInt := SetString(Clear(raw));
    if bigInt.None? {
      return ParseError;
    }
    return Value(bigInt.value);
  }

  lemma {:induction false} SplitWithoutDot(s: string)
    requires '.' !in s
    ensures Split(s) == [s]
  {
    if |s| > 0 {
      assert s[0] in s;
      SplitWithoutDot(s[1..]);
      assert [s[0]] + s[1..] == s;
    }
  }

  lemma {:induction false} SplitAtDot(a: string, b: string)
    requires '.' !in a && '.' !in b
    ensures Split(a + "." + b) == [a, b]
  {
    var s := a + "." + b;
    if |a| == 0 {
      assert s[1..] == b;
      SplitWithoutDot(b);
    } else {
      assert s[1..] == a[1..] + "." + b;
      assert s[0] == a[0] && a[0] in a;
      SplitAtDot(a[1..], b);
      assert [a[0]] + a[1..] == a;
    }
  }

  predicate IsSign(s: string) {
    s == "" || s == "+" || s == "-"
  }

  function Signed(sign: string, n: nat): int {
    if sign == "-" then -(n as int) else n
  }

  /** Digits, possibly grouped by underscores. */
  predicate Grouped(s: string) {
    forall i :: 0 <= i < |s| ==> IsDigit(s[i]) || s[i] == '_'
  }

  lemma {:induction false} ClearConcat(a: string, b: string)
    ensures Clear(a + b) == Clear(a) + Clear(b)
  {
    if |a| == 0 {
      assert a + b == b;
    } else {
      assert (a + b)[1..] == a[1..] + b;
      ClearConcat(a[1..], b);
    }
  }

  lemma {:induction false} ClearGrouped(s: string)
    requires Grouped(s)
    ensures AllDigits(Clear(s)) && |Clear(s)| <= |s|
    ensures |Clear(s)| == |s| <==> '_' !in s
  {
    if |s| > 0 {
      ClearGrouped(s[1..]);
      assert s == [s[0]] + s[1..];
    }
  }

  lemma SetStringSigned(sign: string, digits: string)
    requires IsSign(sign) && AllDigits(digits)
    ensures SetString(sign + digits) == if digits == "" then None else Some(Signed(sign, NatOf(digits)))
  {
    if sign == "" {
      assert sign + digits == digits;
    } else {
      assert (sign + digits)[1..] == digits;
    }
  }

  lemma ParsePoint(front: string, fraction: string, decimals: nat)
    requires '.' !in front && '.' !in fraction
    ensures Parse(front + "." + fraction, decimals) ==
              if |fraction| > decimals then Panics else Read(front + fraction + Zeros(decimals - |fraction|))
  {
    SplitAtDot(front, fraction);
  }

  lemma Regroup(a: string, b: string, c: string, d: string)
    ensures a + b + c + d == a + (b + c + d)
  {
  }

  lemma ClearNumeral(sign: string, whole: string, fraction: string, zeros: string)
    requires IsSign(sign) && '_' !in zeros
    ensures Clear(sign + whole + fraction + zeros) == sign + (Clear(whole) + Clear(fraction) + zeros)
  {
    ClearConcat(sign + whole + fraction, zeros);
    ClearConcat(sign + whole, fraction);
    ClearConcat(sign, whole);
    NothingToClear(sign);
    NothingToClear(zeros);
    Regroup(sign, Clear(whole), Clear(fraction), zeros);
  }

  lemma ReadNumeral(sign: string, whole: string, fraction: string, zeros: nat)
    requires IsSign(sign) && Grouped(whole) && Grouped(fraction)
    ensures var digits := Clear(whole) + Clear(fraction);
      && AllDigits(digits)
      && Read(sign + whole + fraction + Zeros(zeros)) ==
           if digits == "" && zeros == 0 then ParseError
           else Value(Signed(sign, Scale(NatOf(digits), zeros)))
  {
    var digits := Clear(whole) + Clear(fraction);
    ClearGrouped(whole);
    ClearGrouped(fraction);
    ClearNumeral(sign, whole, fraction, Zeros(zeros));
    SetStringSigned(sign, digits + Zeros(zeros));
    NatOfPadded(digits, zeros);
  }

  /** The law of the parser, for every numeral it may accept: sign, whole part, and possibly
      a point and a fraction, with digits grouped by underscores anywhere. Every underscore
      behind the point makes the value ten times too small. */
  lemma ParseNumeral(sign: string, whole: string, fraction: string, hasDot: bool, decimals: nat)
    requires IsSign(sign) && Grouped(whole) && Grouped(fraction) && (!hasDot ==> fraction == "")
    ensures var text := if hasDot then sign + whole + "." + fraction else sign + whole;
            var digits := Clear(whole) + Clear(fraction);
      && AllDigits(digits)
      && Parse(text, decimals) ==
           if |fraction| > decimals then Panics
           else if digits == "" && |fraction| == decimals then ParseError
           else Value(Signed(sign, Scale(NatOf(digits), decimals - |fraction|)))
  {
    var zeros := if |fraction| > decimals then 0 else decimals - |fraction|;
    ReadNumeral(sign, whole, fraction, zeros);
    if hasDot {
      ParsePoint(sign + whole, fraction, decimals);
    } else {
      SplitWithoutDot(sign + whole);
      assert sign + whole + fraction == sign + whole;
    }
  }

  lemma {:induction false} SplitKeeps(s: string, c: char)
    requires c in s && c != '.'
    ensures exists i :: 0 <= i < |Split(s)| && c in Split(s)[i]
  {
    var rest := Split(s[1..]);
    if s[0] == c {
      assert c in Split(s)[0];
    } else {
      assert s == [s[0]] + s[1..];
      SplitKeeps(s[1..], c);
      var i :| 0 <= i < |rest| && c in rest[i];
      if s[0] == '.' {
        assert Split(s)[i + 1] == rest[i];
      } else if i == 0 {
        assert Split(s)[0] == [s[0]] + rest[0];
      } else {
        assert Split(s)[i] == rest[i];
      }
    }
  }

  lemma {:induction false} ClearKeeps(s: string, c: char)
    requires c in s && c != '_'
    ensures c in Clear(s)
  {
    if s[0] != c {
      assert s == [s[0]] + s[1..];
      ClearKeeps(s[1..], c);
    }
  }

  /** No text with any other character in it is read as a value. */
  lemma ForeignCharacterIsRefused(text: string, decimals: nat, c: char)
    requires c in text && !IsDigit(c) && c != '_' && c != '.' && c != '+' && c != '-'
    ensures !Parse(text, decimals).Value?
  {
    SplitKeeps(text, c);
    var parts := Split(text);
    if |parts| == 1 {
      ClearKeeps(text + Zeros(decimals), c);
    } else if |parts| == 2 && |parts[1]| <= decimals {
      ClearKeeps(parts[0] + parts[1] + Zeros(decimals - |parts[1]|), c);
    }
  }

  /** The digits in front of the given number of zeros, as a value. */
  function ValueAt(sign: string, n: nat, zeros: nat): Parsed {
    Value(Signed(sign, Scale(n, zeros)))
  }

  lemma ValueAtExact(sign: string, n: nat, a: nat, b: nat)
    requires a <= b
    ensures ValueAt(sign, n, a) == ValueAt(sign, n, b) <==> a == b || n == 0
  {
    SameSigned(sign, Scale(n, a), Scale(n, b));
    ScaleExact(n, a, b);
  }

  /** The number that a grouped numeral spells. */
  function GroupedNumber(whole: string, fraction: string): nat
    requires Grouped(whole) && Grouped(fraction)
  {
    ClearGrouped(whole);
    ClearGrouped(fraction);
    NatOf(Clear(whole) + Clear(fraction))
  }

  /** What a grouped numeral is read as: its digits, scaled by the length of the fraction as
      it is written, underscores included. */
  lemma GroupedIsRead(sign: string, whole: string, fraction: string, decimals: nat)
    requires IsSign(sign) && Grouped(whole) && Grouped(fraction) && |fraction| <= decimals
    requires Clear(whole) + Clear(fraction) != ""
    ensures Parse(sign + whole + "." + fraction, decimals)
         == ValueAt(sign, GroupedNumber(whole, fraction), decimals - |fraction|)
  {
    ParseNumeral(sign, whole, fraction, true, decimals);
  }

  /** Scaling by the written length of a fraction, or by the number of its digits. */
  lemma WrittenLength(r: Parsed, sign: string, n: nat, fraction: string, decimals: nat)
    requires Grouped(fraction) && |fraction| <= decimals && r == ValueAt(sign, n, decimals - |fraction|)
    ensures |Clear(fraction)| <= |fraction|
    ensures r == ValueAt(sign, n, decimals - |Clear(fraction)|) <==> '_' !in fraction || n == 0
  {
    ClearGrouped(fraction);
    ValueAtExact(sign, n, decimals - |fraction|, decimals - |Clear(fraction)|);
  }

  /** A grouped numeral is read as what it means, its number scaled by the digits behind the
      point, exactly when no underscore stands there or the number is zero. */
  lemma UnderscoreExact(sign: string, whole: string, fraction: string, decimals: nat)
    requires IsSign(sign) && Grouped(whole) && Grouped(fraction) && |fraction| <= decimals
    requires Clear(whole) + Clear(fraction) != ""
    ensures |Clear(fraction)| <= |fraction|
    ensures var read := Parse(sign + whole + "." + fraction, decimals);
      read == ValueAt(sign, GroupedNumber(whole, fraction), decimals - |Clear(fraction)|) <==>
      '_' !in fraction || GroupedNumber(whole, fraction) == 0
  {
    GroupedIsRead(sign, whole, fraction, decimals);
    WrittenLength(Parse(sign + whole + "." + fraction, decimals), sign, GroupedNumber(whole, fraction),
                  fraction, decimals);
  }

  lemma SameSigned(sign: string, a: nat, b: nat)
    ensures Signed(sign, a) == Signed(sign, b) <==> a == b
  {
  }

  // ---------------------------------------------------------------- round trip

  /** The printed fraction, put back to full length. */
  lemma FractionPadded(m: Money, f: string)
    requires f == if PointDropped(m) then "" else FractionText(m)
    ensures AllDigits(f) && |f| <= m.decimals
    ensures f + Zeros(m.decimals - |f|) == Fixed(Abs(m.value), m.decimals)
  {
    TrimmedZeros(Fixed(Abs(m.value), m.decimals));
    if PointDropped(m) && m.kind == Fiat {
      assert "" + Zeros(2) == "00";
    }
  }

  lemma Associate(a: string, b: string, c: string)
    ensures a + b + c == a + (b + c)
  {
  }

  /** Whole part and printed fraction, read together. */
  lemma PrintedDigits(m: Money, f: string)
    requires f == if PointDropped(m) then "" else FractionText(m)
    ensures AllDigits(f) && |f| <= m.decimals
    ensures Scale(NatOf(WholeText(m) + f), m.decimals - |f|) == Abs(m.value)
  {
    FractionPadded(m, f);
    NatOfPadded(WholeText(m) + f, m.decimals - |f|);
    Associate(WholeText(m), f, Zeros(m.decimals - |f|));
    PartsDenote(Abs(m.value), m.decimals);
  }

  /** A numeral without underscores is read as what it means. */
  lemma PlainIsRead(sign: string, whole: string, fraction: string, hasDot: bool, decimals: nat)
    requires IsSign(sign) && AllDigits(whole) && AllDigits(fraction) && (!hasDot ==> fraction == "")
    requires whole != "" && |fraction| <= decimals
    ensures AllDigits(whole + fraction)
    ensures Parse(if hasDot then sign + whole + "." + fraction else sign + whole, decimals)
         == Value(Signed(sign, Scale(NatOf(whole + fraction), decimals - |fraction|)))
  {
    NothingToClear(whole);
    NothingToClear(fraction);
    ParseNumeral(sign, whole, fraction, hasDot, decimals);
  }

  lemma SignAndAbs(v: int)
    ensures IsSign(Sign(v)) && Signed(Sign(v), Abs(v)) == v
  {
  }

  /** Reading what was printed gives the value back, for every value and every number of
      decimals. */
  lemma RoundTrip(m: Money)
    ensures Parse(Text(m), m.decimals) == Value(m.value)
  {
    SignAndAbs(m.value);
    if PointDropped(m) {
      PrintedDigits(m, "");
      PlainIsRead(Sign(m.value), WholeText(m), "", false, m.decimals);
    } else {
      PrintedDigits(m, FractionText(m));
      PlainIsRead(Sign(m.value), WholeText(m), FractionText(m), true, m.decimals);
    }
  }

  lemma {:induction false} TrimRightEnds(s: string, c: char)
    ensures TrimRight(s, c) == "" || TrimRight(s, c)[|TrimRight(s, c)| - 1] != c
  {
    if |s| > 0 && s[|s| - 1] == c {
      TrimRightEnds(s[..|s| - 1], c);
    }
  }

  /** Digits denote zero exactly when nothing is left of them without the zeros at their end. */
  lemma {:induction false} ZeroDigits(s: string)
    requires AllDigits(s)
    ensures NatOf(s) == 0 <==> TrimRight(s, '0') == ""
  {
    if |s| > 0 {
      ZeroDigits(s[..|s| - 1]);
    }
  }

  lemma TwoZeroDigits(s: string)
    requires AllDigits(s)
    ensures s == "00" <==> |s| == 2 && NatOf(s) == 0
  {
    if |s| == 2 {
      var front := s[..1];
      assert front[..0] == "";
      assert NatOf(front) == 10 * NatOf("") + (front[0] as int - '0' as int);
      assert NatOf(s) == 10 * NatOf(front) + (s[1] as int - '0' as int);
      assert s == [s[0], s[1]] && "00" == ['0', '0'];
    }
  }

  /** Where the printed numeral has its point. */
  lemma PointIn(whole: string, fraction: string)
    requires AllDigits(whole) && AllDigits(fraction)
    ensures '.' !in whole && '.' in whole + "." + fraction
    ensures var t := whole + "." + fraction;
      |t| > |fraction| && t[|t| - |fraction| - 1] == '.' && t[|t| - |fraction|..] == fraction
  {
    assert (whole + "." + fraction)[|whole|] == '.';
  }

  /** A fiat amount is printed with all its decimals, but without them and the point when they
      are the two zeros of whole cents. */
  lemma FiatText(m: Money)
    requires m.kind == Fiat
    ensures var n, t, d := Abs(m.value), Text(m), m.decimals;
      && ('.' !in t <==> d == 2 && n % 100 == 0)
      && ('.' in t ==>
            && |t| > d && t[|t| - d - 1] == '.' && AllDigits(t[|t| - d..])
            && NatOf(t[|t| - d..]) == n % Pow10(d))
  {
    var n, d := Abs(m.value), m.decimals;
    HighIsQuotient(n, d);
    TwoZeroDigits(FractionText(m));
    assert Pow10(2) == 10 * (10 * Pow10(0));
    SignedPoint(m);
  }

  /** A crypto amount is printed with a point exactly when it is not whole, and then without
      zeros at its end. */
  lemma CryptoText(m: Money)
    requires m.kind == Crypto
    ensures var n, t, d := Abs(m.value), Text(m), m.decimals;
      && ('.' !in t <==> n % Pow10(d) == 0)
      && ('.' in t ==> |t| > 0 && IsDigit(t[|t| - 1]) && t[|t| - 1] != '0')
  {
    var digits := Fixed(Abs(m.value), m.decimals);
    HighIsQuotient(Abs(m.value), m.decimals);
    ZeroDigits(digits);
    TrimmedZeros(digits);
    TrimRightEnds(digits, '0');
    SignedPoint(m);
  }

  lemma SignedPoint(m: Money)
    ensures AllDigits(FractionText(m))
    ensures var t, f := Text(m), FractionText(m);
      && ('.' in t <==> !PointDropped(m))
      && ('.' in t ==> |t| > |f| && t[|t| - |f| - 1] == '.' && t[|t| - |f|..] == f)
  {
    var digits := Fixed(Abs(m.value), m.decimals);
    TrimmedZeros(digits);
    var whole, f := WholeText(m), FractionText(m);
    PointIn(whole, f);
    SignedText(m);
    if !PointDropped(m) {
      PointBehind(Sign(m.value), whole + "." + f, |f|);
    }
  }

  lemma PointBehind(sign: string, t: string, n: nat)
    requires n < |t| && t[|t| - n - 1] == '.'
    ensures var s := sign + t; '.' in s && |s| > n && s[|s| - n - 1] == '.' && s[|s| - n..] == t[|t| - n..]
  {
    var s := sign + t;
    assert s[|s| - n - 1] == t[|t| - n - 1];
  }

  /** So different amounts of the same currency never print alike. */
  lemma TextIsInjective(a: Money, b: Money)
    requires a.decimals == b.decimals && Text(a) == Text(b)
    ensures a.value == b.value
  {
    RoundTrip(a);
    RoundTrip(b);
  }

  // ---------------------------------------------------------------- conversion by cutting

  /** strings.Index for the dot. */
  function DotIndex(s: string): (r: Option<nat>)
    ensures r.None? ==> '.' !in s
    ensures r.Some? ==> r.value < |s| && s[r.value] == '.' && '.' !in s[..r.value]
  {
    if |s| == 0 then None
    else if s[0] == '.' then Some(0)
    else
      match DotIndex(s[1..])
      case None => None
      case Some(i) => assert s[..i + 1] == [s[0]] + s[1..][..i]; Some(i + 1)
  }

  /** The quotient by 10^d, rounded toward zero. */
  function TruncatedQuotient(v: int, d: nat): int {
    if v < 0 then -((-v) / Pow10(d)) else v / Pow10(d)
  }

  /** The end of CryptoToFiat: the multiplied amount is printed, cut at the dot, and read as
      cents. The cut is division by 10^decimals, rounded toward zero. */
  method CutToFiat(multiplied: Money) returns (r: Parsed)
    requires multiplied.kind == Crypto
    ensures r == Value(TruncatedQuotient(multiplied.value, multiplied.decimals))
  {
    var floatString := String(multiplied);
    var dotIndex := DotIndex(floatString);
    WholePart(multiplied);
    if dotIndex.Some? {
      floatString := floatString[..dotIndex.value];
    }
    var bigInt := SetString(Clear(floatString));
    if bigInt.None? {
      return ParseError;
    }
    return Value(bigInt.value);
  }

  lemma {:induction false} DotAfter(whole: string, rest: string)
    requires '.' !in whole
    ensures DotIndex(whole).None?
    ensures DotIndex(whole + "." + rest) == Some(|whole|)
  {
    if |whole| > 0 {
      assert (whole + "." + rest)[1..] == whole[1..] + "." + rest;
      assert whole[0] in whole;
      DotAfter(whole[1..], rest);
    }
  }

  /** What stands before the dot, and how it is read. */
  lemma WholePart(m: Money)
    requires m.kind == Crypto
    ensures var text, whole := Text(m), Sign(m.value) + WholeText(m);
      && (DotIndex(text).None? ==> text == whole)
      && (DotIndex(text).Some? ==> text[..DotIndex(text).value] == whole)
      && Clear(whole) == whole
      && SetString(whole) == Some(TruncatedQuotient(m.value, m.decimals))
  {
    var whole := Sign(m.value) + WholeText(m);
    assert '.' !in whole && '_' !in whole;
    NothingToClear(whole);
    DotAfter(whole, FractionText(m));
    WholeIsRead(m);
  }

  lemma WholeIsRead(m: Money)
    ensures SetString(Sign(m.value) + WholeText(m)) == Some(TruncatedQuotient(m.value, m.decimals))
  {
    SetStringSigned(Sign(m.value), WholeText(m));
    DigitsDenote(High(Abs(m.value), m.decimals));
    HighIsQuotient(Abs(m.value), m.decimals);
  }

  /** Rounding toward zero is the floor exactly for amounts that are not negative or have
      nothing behind the point. */
  lemma CutIsFloorExactly(v: int, d: nat)
    ensures TruncatedQuotient(v, d) == v / Pow10(d) <==> v >= 0 || v % Pow10(d) == 0
  {
    if v < 0 {
      NegatedQuotient(-v, Pow10(d));
    }
  }

  lemma NegatedQuotient(n: int, m: int)
    requires m > 0
    ensures (-n) % m == if n % m == 0 then 0 else m - n % m
    ensures (-n) / m == if n % m == 0 then -(n / m) else -(n / m) - 1
  {
    var q, r := n / m, n % m;
    assert n == q * m + r;
    if r == 0 {
      assert (-q) * m == -(q * m);
      DivModUnique(-n, m, -q, 0);
    } else {
      assert (-q - 1) * m == -(q * m) - m;
      DivModUnique(-n, m, -q - 1, m - r);
    }
  }

  // ---------------------------------------------------------------- display precision

  /** The scale of the last displayed digit: 10^drop, or 1 when nothing is dropped. */
  function DisplayUnit(decimals: nat, shown: int): (r: int)
    ensures r > 0
  {
    if 0 <= shown < decimals then Pow10(decimals - shown) else 1
  }

  function FloorTo(v: int, unit: int): int
    requires unit > 0
  {
    v - v % unit
  }

  function CeilTo(v: int, unit: int): int
    requires unit > 0
  {
    v + (-v) % unit
  }

  /** Money.TruncateDecimals. big.Int.Div is Euclidean, like division here. */
  method TruncateDecimals(m: Money, maxDecimals: int) returns (r: Money)
    ensures r == m.(value := FloorTo(m.value, DisplayUnit(m.decimals, maxDecimals)))
  {
    if maxDecimals >= m.decimals || maxDecimals < 0 {
      return m;
    }
    var scale := Pow10(m.decimals - maxDecimals);
    var truncated := m.value / scale;
    truncated := truncated * scale;
    return m.(value := truncated);
  }

  /** big.Int.QuoRem: the quotient is rounded toward zero. */
  function Quo(a: int, b: int): int
    requires b > 0
  {
    if a >= 0 then a / b else -((-a) / b)
  }

  /** Money.CeilDecimals. */
  method CeilDecimals(m: Money, maxDecimals: int) returns (r: Money)
    ensures r == m.(value := CeilTo(m.value, DisplayUnit(m.decimals, maxDecimals)))
  {
    if maxDecimals >= m.decimals || maxDecimals < 0 {
      return m;
    }
    var scale := Pow10(m.decimals - maxDecimals);
    var quot, rem := Quo(m.value, scale), m.value - Quo(m.value, scale) * scale;
    QuoRemCeils(m.value, scale);
    if rem > 0 {
      quot := quot + 1;
    }
    quot := quot * scale;
    return m.(value := quot);
  }

  /** The quotient toward zero, one more when something positive is left over. */
  lemma QuoRemCeils(v: int, scale: int)
    requires scale > 0
    ensures var quot, rem := Quo(v, scale), v - Quo(v, scale) * scale;
      (if rem > 0 then quot + 1 else quot) * scale == CeilTo(v, scale)
  {
    var q, r := v / scale, v % scale;
    assert v == q * scale + r;
    NegatedQuotient(v, scale);
    if v >= 0 {
      assert (q + 1) * scale == q * scale + scale;
    } else {
      var n := (-v) / scale;
      assert -v == n * scale + (-v) % scale;
      assert (-n) * scale == -(n * scale);
    }
  }

  predicate Multiple(v: int, unit: int)
    requires unit > 0
  {
    v % unit == 0
  }

  lemma MultiplesApart(a: int, b: int, unit: int)
    requires unit > 0 && Multiple(a, unit) && Multiple(b, unit) && a < b
    ensures a + unit <= b
  {
    assert a == (a / unit) * unit && b == (b / unit) * unit;
    assert (b / unit - a / unit) * unit == b - a;
    Multiples(b / unit - a / unit, unit);
  }

  lemma FloorIsMultiple(v: int, unit: int)
    requires unit > 0
    ensures Multiple(FloorTo(v, unit), unit) && FloorTo(v, unit) <= v < FloorTo(v, unit) + unit
    ensures Multiple(v, unit) ==> FloorTo(v, unit) == v
  {
    assert v == (v / unit) * unit + v % unit;
    DivModUnique(FloorTo(v, unit), unit, v / unit, 0);
  }

  /** Rounding down and rounding up mirror each other. */
  lemma CeilMirrorsFloor(v: int, unit: int)
    requires unit > 0
    ensures CeilTo(v, unit) == -FloorTo(-v, unit)
  {
  }

  /** The truncated amount is the greatest displayable one at or below the value. */
  lemma FloorIsGreatest(v: int, unit: int, other: int)
    requires unit > 0
    ensures Multiple(FloorTo(v, unit), unit) && FloorTo(v, unit) <= v
    ensures Multiple(other, unit) && other <= v ==> other <= FloorTo(v, unit)
  {
    FloorIsMultiple(v, unit);
    if Multiple(other, unit) && FloorTo(v, unit) < other <= v {
      MultiplesApart(FloorTo(v, unit), other, unit);
    }
  }

  /** The ceiled amount is the least displayable one at or above the value. */
  lemma CeilIsLeast(v: int, unit: int, other: int)
    requires unit > 0
    ensures Multiple(CeilTo(v, unit), unit) && v <= CeilTo(v, unit) < v + unit
    ensures Multiple(other, unit) && v <= other ==> CeilTo(v, unit) <= other
  {
    CeilMirrorsFloor(v, unit);
    FloorIsMultiple(-v, unit);
    NegatedQuotient(FloorTo(-v, unit), unit);
    if Multiple(other, unit) && v <= other {
      NegatedQuotient(other, unit);
      FloorIsGreatest(-v, unit, -other);
    }
  }

  /** Truncation is documented to round toward zero. It does so exactly for amounts that are
      not negative or already displayable: the others move away from zero. */
  lemma TowardZeroExactly(v: int, unit: int)
    requires unit > 0
    ensures Abs(FloorTo(v, unit)) <= Abs(v) <==> v >= 0 || Multiple(v, unit)
  {
    FloorIsMultiple(v, unit);
    FloorIsGreatest(v, unit, 0);
    assert Multiple(0, unit) by {
      DivModUnique(0, unit, 0, 0);
    }
  }

  /** A displayable amount prints no more decimals than are shown, so the text is all of it. */
  lemma DisplayFits(m: Money, shown: nat)
    requires m.kind == Crypto && shown <= m.decimals && Multiple(m.value, Pow10(m.decimals - shown))
    ensures |FractionText(m)| <= shown
  {
    var v, k := Abs(m.value), m.decimals - shown;
    if m.value < 0 {
      NegatedQuotient(m.value, Pow10(k));
    }
    MultipleIsScaled(v, k);
    FixedOfScaled(High(v, k), m.decimals, k);
    TrimmedTail(Fixed(High(v, k), shown), k);
  }

  lemma {:induction false} TrimmedTail(s: string, k: nat)
    ensures |TrimRight(s + Zeros(k), '0')| <= |s|
  {
    if k == 0 {
      assert s + Zeros(0) == s;
      TrimmedZeros(s);
    } else {
      assert (s + Zeros(k))[..|s| + k - 1] == s + Zeros(k - 1);
      TrimmedTail(s, k - 1);
    }
  }

  // ---------------------------------------------------------------- the locked amount

  const MAX_DISPLAY_DECIMALS := 8

  /** CryptoCurrency.MaxDisplayDecimals. */
  function MaxDisplayDecimals(decimals: nat): nat {
    if decimals <= MAX_DISPLAY_DECIMALS then decimals else MAX_DISPLAY_DECIMALS
  }

  /** generateDustAmount, for the random number n in [0, 998]. */
  method GenerateDustAmount(ticker: string, decimals: nat, n: nat) returns (dust: Money)
    requires n <= 998
    ensures dust == Money(Crypto, ticker, (n + 1) * DisplayUnit(decimals, MaxDisplayDecimals(decimals)), decimals)
  {
    var dustBase := n + 1;
    var maxDisplay := MaxDisplayDecimals(decimals);
    if decimals > maxDisplay {
      var scale := Pow10(decimals - maxDisplay);
      dustBase := dustBase * scale;
    }
    return Money(Crypto, ticker, dustBase, decimals);
  }

  /** The amount a collector invoice is locked at: the raw conversion rounded up to display
      precision, and then the dust, unless no random number is to be had. It is displayable and
      covers the raw conversion; with dust it exceeds it by at least one displayed unit and by
      less than a thousand, without by less than one. */
  method LockAmount(raw: Money, random: Option<nat>) returns (locked: Money)
    requires raw.kind == Crypto && (random.Some? ==> random.value <= 998)
    ensures locked.(value := raw.value) == raw
    ensures var unit := DisplayUnit(raw.decimals, MaxDisplayDecimals(raw.decimals));
      && Multiple(locked.value, unit)
      && (if random.Some? then raw.value + unit <= locked.value < raw.value + 1000 * unit
          else raw.value <= locked.value < raw.value + unit)
      && |FractionText(locked)| <= 8 && |FractionText(locked)| <= raw.decimals
      && unit == Pow10(if raw.decimals > 8 then raw.decimals - 8 else 0)
  {
    var unit := DisplayUnit(raw.decimals, MaxDisplayDecimals(raw.decimals));
    locked := CeilDecimals(raw, MaxDisplayDecimals(raw.decimals));
    CeilIsLeast(raw.value, unit, raw.value);
    if random.Some? {
      var dust := GenerateDustAmount(raw.ticker, raw.decimals, random.value);
      locked := locked.(value := locked.value + dust.value);
      DustBounds(raw.value, random.value + 1, unit);
    }
    DisplayFits(locked, MaxDisplayDecimals(raw.decimals));
  }

  lemma DustBounds(v: int, n: int, unit: int)
    requires unit > 0 && 1 <= n <= 999
    ensures var locked := CeilTo(v, unit) + n * unit;
      Multiple(locked, unit) && v + unit <= locked < v + 1000 * unit
  {
    CeilIsLeast(v, unit, v);
    var c := CeilTo(v, unit);
    assert c == (c / unit) * unit;
    assert (c / unit + n) * unit == c + n * unit;
    DivModUnique(c + n * unit, unit, c / unit + n, 0);
    Multiples(n, unit);
    if n < 999 {
      Multiples(999 - n, unit);
      assert (999 - n) * unit == 999 * unit - n * unit;
    }
  }
}
