/** Numbers as text: the value strconv reads, and independently of it the numerals that denote a number. */
module Numerals {
  import opened Bytes

  // ----- reading -----

  function DigitValue(c: byte): (v: nat) {
    if IsDigit(c) then c - 0x30 else if 0x61 <= c <= 0x66 then c - 0x57 else if 0x41 <= c <= 0x46 then c - 0x37 else 0
  }

  function ValueIn(base: nat, s: bytes): nat {
    if s == [] then 0 else base * ValueIn(base, s[..|s| - 1]) + DigitValue(s[|s| - 1])
  }

  function HexValue(s: bytes): nat {
    ValueIn(16, s)
  }

  predicate AllDigits(s: bytes) {
    forall i :: 0 <= i < |s| ==> IsDigit(s[i])
  }

  function DecimalValue(s: bytes): nat {
    ValueIn(10, s)
  }

  // ----- writing -----

  const DIGITS: bytes := Ascii("0123456789abcdef")

  predicate IsBase(base: nat) {
    2 <= base <= 16
  }

  /** The shortest numeral of n, in small letters. */
  function NumeralOf(base: nat, n: nat): (s: bytes)
    requires IsBase(base)
    ensures s != []
    decreases n
  {
    var last: bytes := [DIGITS[n % base]];
    if n < base then last
    else
      QuotientIsSmaller(n, base);
      NumeralOf(base, n / base) + last
  }

  lemma QuotientIsSmaller(n: nat, base: nat)
    requires 2 <= base <= n
    ensures 0 < n / base < n
  {
    var q := n / base;
    assert n == q * base + n % base;
  }

  lemma SmallQuotient(n: nat, base: nat)
    requires n < base
    ensures n / base == 0 && n % base == n
  {
  }

  function Zeros(k: nat): bytes {
    if k == 0 then [] else Zeros(k - 1) + [DIGITS[0]]
  }

  /** s is a numeral of n: the shortest one, in small or capital letters, behind any number of zeros. */
  ghost predicate Denotes(base: nat, s: bytes, n: nat)
    requires IsBase(base)
  {
    exists k: nat :: Lower(s) == Zeros(k) + NumeralOf(base, n)
  }

  predicate IsDigitIn(base: nat, c: byte)
    requires IsBase(base)
  {
    LowerByte(c) in DIGITS[..base]
  }

  predicate AllIn(base: nat, s: bytes)
    requires IsBase(base)
  {
    forall i :: 0 <= i < |s| ==> IsDigitIn(base, s[i])
  }

  // ----- the two agree -----

  lemma DigitsRead(v: nat)
    requires v < 16
    ensures DigitValue(DIGITS[v]) == v && LowerByte(DIGITS[v]) == DIGITS[v]
  {
    if v < 10 {
      assert DIGITS[v] == 0x30 + v;
    } else {
      assert DIGITS[v] == 0x57 + v;
    }
  }

  /** A digit is the one in the place of its value. */
  lemma DigitsWrite(base: nat, c: byte)
    requires IsBase(base) && IsDigitIn(base, c)
    ensures DigitValue(c) < base && LowerByte(c) == DIGITS[DigitValue(c)]
  {
    var v :| 0 <= v < base && LowerByte(c) == DIGITS[v];
    DigitsRead(v);
  }

  lemma Divided(base: nat, q: nat, r: nat)
    requires base > 0 && r < base
    ensures (base * q + r) / base == q && (base * q + r) % base == r
    ensures q > 0 ==> base * q + r >= base
  {
    var n := base * q + r;
    var d := n / base - q;
    assert n == base * (n / base) + n % base;
    assert base * (n / base) == base * q + base * d;
    assert base * d == r - n % base;
    Multiple(base, d);
    if q > 0 {
      Multiple(base, q);
    }
  }

  lemma Multiple(m: nat, d: int)
    requires m > 0
    ensures d > 0 ==> m * d >= m
    ensures d < 0 ==> m * d <= 0 - m
  {
  }

  /** One more digit behind a numeral that is not a zero alone. */
  lemma NumeralGrows(base: nat, n: nat, v: nat)
    requires IsBase(base) && v < base
    ensures NumeralOf(base, v) == [DIGITS[v]]
    ensures n > 0 ==> NumeralOf(base, base * n + v) == NumeralOf(base, n) + [DIGITS[v]]
  {
    Divided(base, n, v);
    Divided(base, 0, v);
  }

  lemma {:induction false} ZerosAre(k: nat)
    ensures |Zeros(k)| == k && forall i :: 0 <= i < k ==> Zeros(k)[i] == 0x30
  {
    if k == 0 {
    } else {
      ZerosAre(k - 1);
    }
  }

  lemma {:induction false} ValueOfZeros(base: nat, k: nat)
    ensures ValueIn(base, Zeros(k)) == 0
  {
    if k == 0 {
    } else {
      ValueOfZeros(base, k - 1);
      ValueOfMore(base, Zeros(k - 1), 0x30);
    }
  }

  lemma ValueOfMore(base: nat, s: bytes, c: byte)
    ensures ValueIn(base, s + [c]) == base * ValueIn(base, s) + DigitValue(c)
  {
    assert (s + [c])[..|s|] == s;
  }

  /** Capital and small letters have the same value. */
  lemma {:induction false} ValueOfLower(base: nat, s: bytes)
    requires IsBase(base) && AllIn(base, s)
    ensures ValueIn(base, Lower(s)) == ValueIn(base, s)
  {
    hide DigitValue, LowerByte;
    if s == [] {
    } else {
      var n := |s| - 1;
      ValueOfLower(base, s[..n]);
      assert Lower(s)[..n] == Lower(s[..n]);
      DigitsWrite(base, s[n]);
      DigitsRead(DigitValue(s[n]));
    }
  }

  /** Writing and reading a number, behind any number of zeros. */
  lemma {:induction false} ValueOfNumeral(base: nat, k: nat, n: nat)
    requires IsBase(base)
    ensures ValueIn(base, Zeros(k) + NumeralOf(base, n)) == n
    decreases n
  {
    hide DigitValue, Zeros, ValueIn, NumeralOf;
    var q, v := n / base, n % base;
    assert n == base * q + v;
    DigitsRead(v);
    ValueOfZeros(base, k);
    NumeralGrows(base, q, v);
    if n < base {
      SmallQuotient(n, base);
      ValueOfMore(base, Zeros(k), DIGITS[v]);
    } else {
      QuotientIsSmaller(n, base);
      ValueOfNumeral(base, k, q);
      assert Zeros(k) + NumeralOf(base, n) == Zeros(k) + NumeralOf(base, q) + [DIGITS[v]];
      ValueOfMore(base, Zeros(k) + NumeralOf(base, q), DIGITS[v]);
    }
  }

  /** One more digit behind any numeral: a zero alone becomes one of the zeros before. */
  lemma OneMoreDigit(base: nat, zeros: nat, n: nat, v: nat) returns (k: nat)
    requires IsBase(base) && v < base
    ensures Zeros(zeros) + NumeralOf(base, n) + [DIGITS[v]] == Zeros(k) + NumeralOf(base, base * n + v)
  {
    hide NumeralOf;
    NumeralGrows(base, n, v);
    if n == 0 {
      NumeralGrows(base, 0, 0);
      k := zeros + 1;
    } else {
      k := zeros;
    }
  }

  /** Every text of digits is a numeral of its value. */
  lemma {:induction false} NumeralOfValue(base: nat, s: bytes) returns (k: nat)
    requires IsBase(base) && s != [] && AllIn(base, s)
    ensures Lower(s) == Zeros(k) + NumeralOf(base, ValueIn(base, s))
  {
    hide DigitValue, LowerByte, NumeralOf, AllIn, Zeros;
    var n := |s| - 1;
    var v := DigitValue(s[n]);
    LastDigit(base, s);
    DigitsWrite(base, s[n]);
    assert Lower(s) == Lower(s[..n]) + [DIGITS[v]];
    if n == 0 {
      k := 0;
      ZerosAre(0);
      assert s[..0] == [];
      NumeralGrows(base, 0, v);
    } else {
      var zeros := NumeralOfValue(base, s[..n]);
      k := OneMoreDigit(base, zeros, ValueIn(base, s[..n]), v);
    }
  }

  lemma LastDigit(base: nat, s: bytes)
    requires IsBase(base) && s != [] && AllIn(base, s)
    ensures IsDigitIn(base, s[|s| - 1]) && AllIn(base, s[..|s| - 1])
  {
  }

  lemma {:induction false} NumeralsAreDigits(base: nat, n: nat)
    requires IsBase(base)
    ensures forall i :: 0 <= i < |NumeralOf(base, n)| ==> NumeralOf(base, n)[i] in DIGITS[..base]
    decreases n
  {
    assert DIGITS[n % base] == DIGITS[..base][n % base];
    if n < base {
    } else {
      QuotientIsSmaller(n, base);
      NumeralsAreDigits(base, n / base);
    }
  }

  lemma DenotesDigits(base: nat, s: bytes, n: nat)
    requires IsBase(base) && Denotes(base, s, n)
    ensures s != [] && AllIn(base, s)
  {
    hide LowerByte, NumeralOf, Zeros;
    var k: nat :| Lower(s) == Zeros(k) + NumeralOf(base, n);
    ZerosAre(k);
    NumeralsAreDigits(base, n);
    assert DIGITS[..base][0] == 0x30;
    forall i | 0 <= i < |s| ensures IsDigitIn(base, s[i]) {
      assert Lower(s)[i] == LowerByte(s[i]);
      if i >= k {
        assert Lower(s)[i] == NumeralOf(base, n)[i - k];
      }
    }
  }

  /** A text of digits has the value n exactly when it is a numeral of n. */
  lemma ValueIff(base: nat, s: bytes, n: nat)
    requires IsBase(base)
    ensures s != [] && AllIn(base, s) && ValueIn(base, s) == n <==> Denotes(base, s, n)
  {
    hide NumeralOf, Zeros, ValueIn, AllIn;
    if Denotes(base, s, n) {
      DenotesDigits(base, s, n);
      var k: nat :| Lower(s) == Zeros(k) + NumeralOf(base, n);
      ValueOfNumeral(base, k, n);
      ValueOfLower(base, s);
    }
    if s != [] && AllIn(base, s) && ValueIn(base, s) == n {
      var k := NumeralOfValue(base, s);
    }
  }

  /** Hexadecimal: the digits the parser takes are those of base 16, in either case. */
  lemma HexIff(s: bytes, n: nat)
    ensures s != [] && AllHex(s) && HexValue(s) == n <==> Denotes(16, s, n)
  {
    hide ValueIn, Denotes;
    forall c: byte ensures IsHexDigit(c) <==> IsDigitIn(16, c) {
      HexDigits(c);
    }
    ValueIff(16, s, n);
  }

  lemma HexDigits(c: byte)
    ensures IsHexDigit(c) <==> IsDigitIn(16, c)
  {
    if IsHexDigit(c) {
      DigitsRead(DigitValue(c));
      assert DIGITS[..16][DigitValue(c)] == LowerByte(c);
    }
  }

  lemma DecimalIff(s: bytes, n: nat)
    ensures s != [] && AllDigits(s) && DecimalValue(s) == n <==> Denotes(10, s, n)
  {
    hide ValueIn, Denotes;
    forall c: byte ensures IsDigit(c) <==> IsDigitIn(10, c) {
      DecimalDigits(c);
    }
    ValueIff(10, s, n);
  }

  lemma DecimalDigits(c: byte)
    ensures IsDigit(c) <==> IsDigitIn(10, c)
  {
    if IsDigit(c) {
      assert DIGITS[..10][c - 0x30] == c;
    }
  }

  /** The shortest numeral denotes its number. */
  lemma ShortestDenotes(base: nat, n: nat)
    requires IsBase(base)
    ensures Denotes(base, NumeralOf(base, n), n)
  {
    NumeralsAreDigits(base, n);
    var s := NumeralOf(base, n);
    forall i | 0 <= i < |s| ensures LowerByte(s[i]) == s[i] {
      var v :| 0 <= v < base && s[i] == DIGITS[v];
      DigitsRead(v);
    }
    assert Lower(s) == Zeros(0) + s;
  }

  // ----- lengths -----

  /** A number below 16 to the k has at most k digits. */
  lemma {:induction false} HexLength(n: nat, digits: nat, bound: nat)
    requires digits > 0 && bound == Power16(digits) && n < bound
    ensures |NumeralOf(16, n)| <= digits
  {
    if n < 16 {
    } else {
      HexLength(n / 16, digits - 1, Power16(digits - 1));
    }
  }

  function Power16(k: nat): nat {
    if k == 0 then 1 else 16 * Power16(k - 1)
  }
}
