/** Base58 addresses: the decoder, the encoding it inverts, and the hexadecimal form of a
    TRON address. */
module Base58 {
  import opened Domain
  import Decimal

  // ---------------------------------------------------------------- positional numerals

  predicate InBase(digits: seq<nat>, base: nat) {
    forall i :: 0 <= i < |digits| ==> digits[i] < base
  }

  /** The number denoted by digits, most significant first. */
  function ValueOf(digits: seq<nat>, base: nat): nat {
    if |digits| == 0 then 0 else ValueOf(digits[..|digits| - 1], base) * base + digits[|digits| - 1]
  }

  /** The digits of n without leading zeros; none for zero. For base 256 this is big.Int.Bytes. */
  function DigitsOf(n: nat, base: nat): (digits: seq<nat>)
    requires base > 1
    ensures InBase(digits, base) && (|digits| > 0 ==> digits[0] != 0)
  {
    if n == 0 then []
    else
      Shrinks(n, base);
      DigitsOf(n / base, base) + [n % base]
  }

  lemma QuotientShrinks(n: int, m: int, q: int, r: int)
    requires n > 0 && m > 1 && n == q * m + r && 0 <= r < m
    ensures 0 <= q < n
  {
    Decimal.Multiples(q, m);
    if q >= 1 {
      assert q * m == q + q * (m - 1);
      Decimal.Multiples(q, m - 1);
      AtLeast(q, m - 1);
    }
  }

  lemma AtLeast(q: int, m: int)
    requires q >= 0 && m >= 1
    ensures q * m >= q
  {
    assert q * m == q + q * (m - 1) && q * (m - 1) >= 0;
  }

  lemma Shrinks(n: nat, base: nat)
    requires n > 0 && base > 1
    ensures 0 <= n / base < n && n == n / base * base + n % base
  {
    QuotientShrinks(n, base, n / base, n % base);
  }

  function LeadingZeros(digits: seq<nat>): (k: nat)
    ensures k <= |digits|
  {
    if |digits| > 0 && digits[0] == 0 then 1 + LeadingZeros(digits[1..]) else 0
  }

  function Zeros(k: nat): seq<nat> {
    seq(k, _ => 0)
  }

  lemma {:induction false} ValueOfDigits(n: nat, base: nat)
    requires base > 1
    ensures ValueOf(DigitsOf(n, base), base) == n
  {
    if n > 0 {
      Shrinks(n, base);
      ValueOfDigits(n / base, base);
      var digits := DigitsOf(n, base);
      assert digits[..|digits| - 1] == DigitsOf(n / base, base);
    }
  }

  lemma {:induction false} LeadingZerosAppend(digits: seq<nat>, d: nat)
    ensures LeadingZeros(digits + [d]) ==
              if LeadingZeros(digits) < |digits| || d != 0 then LeadingZeros(digits) else |digits| + 1
  {
    if |digits| > 0 && digits[0] == 0 {
      assert (digits + [d])[1..] == digits[1..] + [d];
      LeadingZerosAppend(digits[1..], d);
    }
  }

  /** Any numeral is its leading zeros and then the digits of its value. */
  lemma {:induction false} Decomposition(digits: seq<nat>, base: nat)
    requires base > 1 && InBase(digits, base)
    ensures digits == Zeros(LeadingZeros(digits)) + DigitsOf(ValueOf(digits, base), base)
    ensures ValueOf(digits, base) == 0 <==> LeadingZeros(digits) == |digits|
  {
    if |digits| > 0 {
      var rest, d := digits[..|digits| - 1], digits[|digits| - 1];
      Decomposition(rest, base);
      LeadingZerosAppend(rest, d);
      assert digits == rest + [d];
      var v := ValueOf(rest, base);
      assert ValueOf(digits, base) == v * base + d;
      Decimal.DivModUnique(v * base + d, base, v, d);
      Decimal.Multiples(v, base);
    }
  }

  lemma {:induction false} ZerosInFront(k: nat, digits: seq<nat>, base: nat)
    requires |digits| > 0 ==> digits[0] != 0
    ensures LeadingZeros(Zeros(k) + digits) == k
    ensures ValueOf(Zeros(k) + digits, base) == ValueOf(digits, base)
  {
    if k == 0 {
      assert Zeros(0) + digits == digits;
    } else {
      ZerosInFront(k - 1, digits, base);
      assert (Zeros(k) + digits)[1..] == Zeros(k - 1) + digits;
      ZeroInFront(Zeros(k - 1) + digits, base);
      assert Zeros(k) + digits == [0] + (Zeros(k - 1) + digits);
    }
  }

  lemma {:induction false} ZeroInFront(digits: seq<nat>, base: nat)
    ensures ValueOf([0] + digits, base) == ValueOf(digits, base)
  {
    if |digits| > 0 {
      assert ([0] + digits)[..|digits|] == [0] + digits[..|digits| - 1];
      ZeroInFront(digits[..|digits| - 1], base);
    } else {
      assert [0] + digits == [0];
      assert [0][..0] == [];
    }
  }

  /** Rewriting a numeral in another base, zero for leading zero. */
  function Rebase(digits: seq<nat>, from: nat, to: nat): (r: seq<nat>)
    requires to > 1
    ensures InBase(r, to)
  {
    Zeros(LeadingZeros(digits)) + DigitsOf(ValueOf(digits, from), to)
  }

  /** Rewriting it back gives the numeral again. */
  lemma RebaseBack(digits: seq<nat>, from: nat, to: nat)
    requires from > 1 && to > 1 && InBase(digits, from)
    ensures Rebase(Rebase(digits, from, to), to, from) == digits
  {
    var v, k := ValueOf(digits, from), LeadingZeros(digits);
    ZerosInFront(k, DigitsOf(v, to), to);
    ValueOfDigits(v, to);
    Decomposition(digits, from);
  }

  // ---------------------------------------------------------------- alphabets

  /** Fifty-eight different characters, the first of them '1'. */
  predicate IsAlphabet(a: string) {
    |a| == 58 && a[0] == '1' && forall i, j :: 0 <= i < j < |a| ==> a[i] != a[j]
  }

  const STANDARD := "123456789" + "ABCDEFGH" + "JKLMN" + "PQRSTUVWXYZ" + "abcdefghijk" + "mnopqrstuvwxyz"

  lemma NextSymbol(i: nat)
    requires i < 57
    ensures STANDARD[i] < STANDARD[i + 1]
  {
  }

  lemma {:induction false} SymbolsAscend(i: nat, j: nat)
    requires i < j < 58
    ensures STANDARD[i] < STANDARD[j]
    decreases j - i
  {
    NextSymbol(j - 1);
    if i < j - 1 {
      SymbolsAscend(i, j - 1);
    }
  }

  /** The standard alphabet ascends, so no character stands in it twice. */
  lemma StandardIsAlphabet()
    ensures IsAlphabet(STANDARD)
  {
    forall i, j | 0 <= i < j < 58 ensures STANDARD[i] != STANDARD[j] {
      SymbolsAscend(i, j);
    }
  }

  /** strings.IndexRune. */
  function IndexIn(s: string, c: char): (r: Option<nat>)
    ensures r.None? <==> c !in s
    ensures r.Some? ==> r.value < |s| && s[r.value] == c
  {
    if |s| == 0 then None
    else if s[|s| - 1] == c then Some(|s| - 1)
    else IndexIn(s[..|s| - 1], c)
  }

  predicate Spelled(s: string, a: string) {
    forall i :: 0 <= i < |s| ==> s[i] in a
  }

  function DigitsIn(s: string, a: string): (digits: seq<nat>)
    requires Spelled(s, a)
    ensures |digits| == |s| && InBase(digits, |a|)
  {
    seq(|s|, i requires 0 <= i < |s| => IndexIn(a, s[i]).value)
  }

  function SpellingOf(digits: seq<nat>, a: string): (s: string)
    requires InBase(digits, |a|)
    ensures |s| == |digits| && Spelled(s, a)
  {
    seq(|digits|, i requires 0 <= i < |digits| => a[digits[i]])
  }

  lemma SpellingRoundTrip(s: string, digits: seq<nat>, a: string)
    requires IsAlphabet(a)
    ensures Spelled(s, a) ==> SpellingOf(DigitsIn(s, a), a) == s
    ensures InBase(digits, 58) ==> DigitsIn(SpellingOf(digits, a), a) == digits
  {
  }

  // ---------------------------------------------------------------- decoding

  /** What a string decodes to: nothing when a character is not in the alphabet. */
  function DecodedIn(s: string, a: string): Option<seq<nat>> {
    if Spelled(s, a) then Some(Rebase(DigitsIn(s, a), 58, 256)) else None
  }

  function Decoded(s: string): Option<seq<nat>> {
    DecodedIn(s, STANDARD)
  }

  lemma SpelledPrefix(s: string, i: nat, a: string)
    requires i < |s| && Spelled(s[..i], a) && s[i] in a
    ensures Spelled(s[..i + 1], a)
    ensures ValueOf(DigitsIn(s[..i + 1], a), 58)
         == ValueOf(DigitsIn(s[..i], a), 58) * 58 + IndexIn(a, s[i]).value
  {
    assert DigitsIn(s[..i + 1], a)[..i] == DigitsIn(s[..i], a);
  }

  /** Counting the ones at the front is counting the zeros of the digits. */
  lemma {:induction false} LeadingOnes(s: string, k: nat, a: string)
    requires IsAlphabet(a) && Spelled(s, a) && k <= |s|
    requires forall i :: 0 <= i < k ==> s[i] == '1'
    requires k < |s| ==> s[k] != '1'
    ensures LeadingZeros(DigitsIn(s, a)) == k
  {
    if k > 0 {
      assert DigitsIn(s, a)[1..] == DigitsIn(s[1..], a);
      LeadingOnes(s[1..], k - 1, a);
    }
  }

  /** base58Decode, for the alphabet it spells out. */
  method DecodeIn(input: string, alphabet: string) returns (decoded: Option<seq<nat>>)
    requires IsAlphabet(alphabet)
    ensures decoded == DecodedIn(input, alphabet)
  {
    var result: nat := 0;
    for i := 0 to |input|
      invariant Spelled(input[..i], alphabet) && result == ValueOf(DigitsIn(input[..i], alphabet), 58)
    {
      var idx := IndexIn(alphabet, input[i]);
      if idx.None? {
        return None;
      }
      SpelledPrefix(input, i, alphabet);
      result := result * 58;
      result := result + idx.value;
    }
    assert input[..|input|] == input;
    var numLeadingZeros := 0;
    while numLeadingZeros < |input| && input[numLeadingZeros] == '1'
      invariant numLeadingZeros <= |input|
      invariant forall i :: 0 <= i < numLeadingZeros ==> input[i] == '1'
    {
      numLeadingZeros := numLeadingZeros + 1;
    }
    LeadingOnes(input, numLeadingZeros, alphabet);
    var bytes := Padded(numLeadingZeros, DigitsOf(result, 256));
    decoded := Some(bytes);
  }

  /** The output buffer: zero bytes, and the number copied in behind them. */
  method Padded(numLeadingZeros: nat, bz: seq<nat>) returns (bytes: seq<nat>)
    ensures bytes == Zeros(numLeadingZeros) + bz
  {
    var out := new nat[numLeadingZeros + |bz|](_ => 0);
    for i := 0 to |bz|
      invariant forall j :: 0 <= j < numLeadingZeros ==> out[j] == 0
      invariant forall j :: 0 <= j < i ==> out[numLeadingZeros + j] == bz[j]
    {
      out[numLeadingZeros + i] := bz[i];
    }
    bytes := out[..];
    assert forall j :: numLeadingZeros <= j < |bytes| ==> bytes[j] == bz[j - numLeadingZeros];
  }

  method Base58Decode(input: string) returns (decoded: Option<seq<nat>>)
    ensures decoded == Decoded(input)
  {
    StandardIsAlphabet();
    decoded := DecodeIn(input, STANDARD);
  }

  /** The encoding that decoding inverts. The library's encoder is not part of this model. */
  function EncodeIn(bytes: seq<nat>, a: string): (s: string)
    requires InBase(bytes, 256) && IsAlphabet(a)
    ensures Spelled(s, a)
  {
    SpellingOf(Rebase(bytes, 256, 58), a)
  }

  /** Decoding is a bijection from the strings over the alphabet to the byte arrays. */
  lemma Bijection(s: string, bytes: seq<nat>, a: string)
    requires IsAlphabet(a)
    ensures Spelled(s, a) <==> DecodedIn(s, a).Some?
    ensures Spelled(s, a) ==> InBase(DecodedIn(s, a).value, 256) && EncodeIn(DecodedIn(s, a).value, a) == s
    ensures InBase(bytes, 256) ==> DecodedIn(EncodeIn(bytes, a), a) == Some(bytes)
  {
    if Spelled(s, a) {
      RebaseBack(DigitsIn(s, a), 58, 256);
      SpellingRoundTrip(s, [], a);
    }
    if InBase(bytes, 256) {
      RebaseBack(bytes, 256, 58);
      SpellingRoundTrip("", Rebase(bytes, 256, 58), a);
    }
  }

  /** Leading ones match leading zero bytes exactly. */
  lemma LeadingOnesAreZeroBytes(s: string, k: nat, a: string)
    requires IsAlphabet(a) && Spelled(s, a) && k <= |s|
    requires forall i :: 0 <= i < k ==> s[i] == '1'
    requires k < |s| ==> s[k] != '1'
    ensures LeadingZeros(DecodedIn(s, a).value) == k
  {
    LeadingOnes(s, k, a);
    ZerosInFront(k, DigitsOf(ValueOf(DigitsIn(s, a), 58), 256), 256);
  }

  // ---------------------------------------------------------------- TRON addresses

  const ADDRESS_BYTES := 21

  function HexDigit(d: nat): char
    requires d < 16
  {
    if d < 10 then ('0' as int + d) as char else ('a' as int + d - 10) as char
  }

  /** fmt.Sprintf("%x"). */
  function Hex(bytes: seq<nat>): (s: string)
    requires InBase(bytes, 256)
    ensures |s| == 2 * |bytes|
  {
    if |bytes| == 0 then ""
    else [HexDigit(bytes[0] / 16), HexDigit(bytes[0] % 16)] + Hex(bytes[1..])
  }

  lemma {:induction false} HexIsInjective(a: seq<nat>, b: seq<nat>)
    requires InBase(a, 256) && InBase(b, 256) && Hex(a) == Hex(b)
    ensures a == b
  {
    if |a| > 0 {
      var x, y := Hex(a), Hex(b);
      assert x[0] == y[0] && x[1] == y[1];
      assert x[2..] == Hex(a[1..]) && y[2..] == Hex(b[1..]);
      HexIsInjective(a[1..], b[1..]);
      assert a == [a[0]] + a[1..] && b == [b[0]] + b[1..];
    }
  }

  const HEX_DIGITS := "0123456789abcdef"

  lemma HexDigitsAscend(i: nat, j: nat)
    requires i < j < 16
    ensures HEX_DIGITS[i] != HEX_DIGITS[j]
  {
    assert forall k :: 0 <= k < 16 ==>
        HEX_DIGITS[k] as int == if k < 10 then '0' as int + k else 'a' as int + k - 10;
  }

  lemma HexDigitIsAt(d: nat)
    requires d < 16
    ensures IndexIn(HEX_DIGITS, HexDigit(d)) == Some(d)
  {
    assert HEX_DIGITS[d] == HexDigit(d);
    var found := IndexIn(HEX_DIGITS, HexDigit(d)).value;
    if found < d {
      HexDigitsAscend(found, d);
    } else if d < found {
      HexDigitsAscend(d, found);
    }
  }

  /** Every digit stands at its value. */
  ghost predicate IsHexAlphabet(a: string) {
    forall d: nat :: d < 16 ==> IndexIn(a, HexDigit(d)) == Some(d)
  }

  lemma {:induction false} HexDenotesIn(bytes: seq<nat>, i: nat, a: string)
    requires InBase(bytes, 256) && i < |bytes| && IsHexAlphabet(a)
    ensures var sixteens, ones := IndexIn(a, Hex(bytes)[2 * i]), IndexIn(a, Hex(bytes)[2 * i + 1]);
      sixteens.Some? && ones.Some? && bytes[i] == 16 * sixteens.value + ones.value
  {
    if i > 0 {
      HexDenotesIn(bytes[1..], i - 1, a);
      assert Hex(bytes)[2..] == Hex(bytes[1..]);
      assert Hex(bytes)[2 * i] == Hex(bytes[1..])[2 * (i - 1)];
      assert Hex(bytes)[2 * i + 1] == Hex(bytes[1..])[2 * (i - 1) + 1];
    }
  }

  /** Byte after byte, the text has the sixteens of the byte and then its ones. */
  lemma HexDenotes(bytes: seq<nat>, i: nat)
    requires InBase(bytes, 256) && i < |bytes|
    ensures var sixteens, ones := IndexIn(HEX_DIGITS, Hex(bytes)[2 * i]), IndexIn(HEX_DIGITS, Hex(bytes)[2 * i + 1]);
      sixteens.Some? && ones.Some? && bytes[i] == 16 * sixteens.value + ones.value
  {
    forall d: nat | d < 16 ensures IndexIn(HEX_DIGITS, HexDigit(d)) == Some(d) {
      HexDigitIsAt(d);
    }
    HexDenotesIn(bytes, i, HEX_DIGITS);
  }

  method TronBase58ToHex(address: string) returns (hex: string)
    ensures hex == if Decoded(address).Some? && |Decoded(address).value| >= 21
                   then Hex(Decoded(address).value[..21]) else ""
  {
    var decoded := Base58Decode(address);
    if decoded.None? || |decoded.value| < ADDRESS_BYTES {
      return "";
    }
    return Hex(decoded.value[..ADDRESS_BYTES]);
  }

  /** An encoded address is read back as its payload whatever bytes stand behind it: the
      checksum is not checked, and nothing else about the payload is lost. */
  lemma PayloadOnly(payload: seq<nat>, other: seq<nat>, checksum: seq<nat>, otherChecksum: seq<nat>, a: string)
    requires IsAlphabet(a) && |payload| == |other| == ADDRESS_BYTES
    requires InBase(payload, 256) && InBase(other, 256) && InBase(checksum, 256) && InBase(otherChecksum, 256)
    ensures InBase(payload + checksum, 256) && InBase(other + otherChecksum, 256)
    ensures var x, y := DecodedIn(EncodeIn(payload + checksum, a), a), DecodedIn(EncodeIn(other + otherChecksum, a), a);
      && x.Some? && y.Some? && |x.value| >= ADDRESS_BYTES && |y.value| >= ADDRESS_BYTES
      && (Hex(x.value[..ADDRESS_BYTES]) == Hex(y.value[..ADDRESS_BYTES]) <==> payload == other)
  {
    Bijection("", payload + checksum, a);
    Bijection("", other + otherChecksum, a);
    assert (payload + checksum)[..ADDRESS_BYTES] == payload;
    assert (other + otherChecksum)[..ADDRESS_BYTES] == other;
    if Hex(payload) == Hex(other) {
      HexIsInjective(payload, other);
    }
  }
}
