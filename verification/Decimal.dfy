// Decimal numerals: itoa of internal/services/export.go and strconv.Atoi.
module Decimal {
  import opened Wrappers
  import opened Text

  predicate IsDigit(c: char) {
    '0' <= c <= '9'
  }

  function Digit(d: nat): (c: char)
    requires d < 10
    ensures IsDigit(c)
  {
    '0' + d as char
  }

  function DigitValue(c: char): (d: nat)
    requires IsDigit(c)
    ensures d < 10
  {
    (c - '0') as nat
  }

  predicate AllDigits(s: string) {
    forall i :: 0 <= i < |s| ==> IsDigit(s[i])
  }

  // The canonical numeral, without leading zeros.
  function Numeral(n: nat): (s: string)
    ensures s != [] && AllDigits(s)
    ensures n > 0 ==> s[0] != '0'
  {
    if n < 10 then [Digit(n)] else Numeral(n / 10) + [Digit(n % 10)]
  }

  function Value(s: string): nat
    requires AllDigits(s)
  {
    if s == [] then 0 else 10 * Value(s[..|s| - 1]) + DigitValue(s[|s| - 1])
  }

  lemma {:induction false} ValueOfNumeral(n: nat)
    ensures Value(Numeral(n)) == n
  {
    if n < 10 {
      assert Numeral(n)[..0] == [];
    } else {
      ValueOfNumeral(n / 10);
      assert Numeral(n)[..|Numeral(n)| - 1] == Numeral(n / 10);
    }
  }

  lemma NumeralInjective(m: nat, n: nat)
    ensures Numeral(m) == Numeral(n) <==> m == n
  {
    ValueOfNumeral(m);
    ValueOfNumeral(n);
  }

  // Digit by digit, from the right: a numeral is read to the base of ten.
  lemma {:induction false} DigitsOfNumeral(n: nat, i: nat)
    requires i < |Numeral(n)|
    ensures Numeral(n)[|Numeral(n)| - 1 - i] == Digit(n / Power10(i) % 10)
  {
    if n >= 10 && i > 0 {
      DigitsOfNumeral(n / 10, i - 1);
      DivideTwice(n, Power10(i - 1));
    }
  }

  lemma DivideTwice(n: nat, p: nat)
    requires p > 0
    ensures n / (10 * p) == n / 10 / p
  {
    var q := n / 10 / p;
    assert n / 10 - q * p < p && q * p <= n / 10;
    assert q * (10 * p) == 10 * (q * p);
    assert q * (10 * p) <= n < (q + 1) * (10 * p);
    QuotientIs(n, 10 * p, q);
  }

  lemma QuotientIs(n: nat, d: nat, q: nat)
    requires d > 0 && q * d <= n < (q + 1) * d
    ensures n / d == q
  {
    var e := n / d;
    assert e * d <= n < (e + 1) * d;
    if e < q {
      TimesGrows(e + 1, q, d);
    } else if q < e {
      TimesGrows(q + 1, e, d);
    }
  }

  lemma TimesGrows(a: nat, b: nat, d: nat)
    requires a <= b
    ensures a * d <= b * d
  {
  }

  const MIN_INT64 := -0x8000_0000_0000_0000
  const MAX_INT64 := 0x7FFF_FFFF_FFFF_FFFF

  // What itoa returns: negating the least 64-bit integer gives that integer back, and the digit loop never runs.
  function Itoa(i: int): string {
    if i == MIN_INT64 then "-" else if i < 0 then ['-'] + Numeral(-i) else Numeral(i)
  }

  function Power10(k: nat): (p: nat)
    ensures p >= 1
  {
    if k == 0 then 1 else 10 * Power10(k - 1)
  }

  lemma {:induction false} NumeralLength(n: nat, k: nat)
    requires k >= 1 && n < Power10(k)
    ensures |Numeral(n)| <= k
  {
    if n >= 10 {
      assert k > 1 by {
        assert Power10(1) == 10 * Power10(0) == 10;
      }
      NumeralLength(n / 10, k - 1);
    }
  }

  lemma NineteenDigits()
    ensures MAX_INT64 < Power10(19)
  {
    assert Power10(4) == 10000;
    assert Power10(8) == 10000 * Power10(4) by { Shift4(4); }
    assert Power10(12) == 10000 * Power10(8) by { Shift4(8); }
    assert Power10(16) == 10000 * Power10(12) by { Shift4(12); }
    assert Power10(19) == 1000 * Power10(16) by { assert Power10(18) == 100 * Power10(16) by { assert Power10(17) == 10 * Power10(16); } }
  }

  lemma Shift4(k: nat)
    ensures Power10(k + 4) == 10000 * Power10(k)
  {
    assert Power10(k + 1) == 10 * Power10(k);
    assert Power10(k + 2) == 10 * Power10(k + 1);
    assert Power10(k + 3) == 10 * Power10(k + 2);
  }

  // itoa fills a 20-byte array from the back; on no 64-bit integer does it leave the array.
  method ItoaInBuffer(value: int) returns (r: string)
    requires MIN_INT64 <= value <= MAX_INT64
    ensures r == Itoa(value)
  {
    if value == 0 {
      return "0";
    }
    var i := value;
    var neg := false;
    if i < 0 {
      neg := true;
      i := if i == MIN_INT64 then MIN_INT64 else -i;
    }
    var b := new char[20];
    var bp := FillDigits(b, i);
    if neg {
      bp := bp - 1;
      b[bp] := '-';
    }
    return b[bp..];
  }

  // The digits still to be written.
  function Front(i: nat): string {
    if i > 0 then Numeral(i) else []
  }

  lemma FrontShrinks(i: nat, right: string)
    requires i > 0
    ensures Front(i) != [] && Front(i) + right == Front(i / 10) + ([Digit(i % 10)] + right)
  {
    assert Front(i) == Front(i / 10) + [Digit(i % 10)];
  }

  lemma FitsBuffer(n: int)
    requires n <= MAX_INT64
    ensures n > 0 ==> |Numeral(n)| <= 19
  {
    if n > 0 {
      NineteenDigits();
      NumeralLength(n, 19);
    }
  }

  // The digit loop, leaving room for the sign.
  method FillDigits(b: array<char>, n: int) returns (bp: nat)
    requires b.Length == 20 && n <= MAX_INT64
    modifies b
    ensures 1 <= bp <= 20
    ensures b[bp..] == if n > 0 then Numeral(n) else []
  {
    bp := 20;
    var i := n;
    FitsBuffer(n);
    while i > 0
      invariant bp <= 20
      invariant n <= 0 ==> i == n && bp == 20
      invariant n > 0 ==> 0 <= i <= n && Numeral(n) == Front(i) + b[bp..]
      decreases i
    {
      ghost var right := b[bp..];
      FrontShrinks(i, right);
      bp := bp - 1;
      b[bp] := Digit(i % 10);
      assert b[bp..] == [Digit(i % 10)] + right;
      i := i / 10;
    }
  }

  // strconv.Itoa
  function Printed(i: int): string {
    if i < 0 then ['-'] + Numeral(-i) else Numeral(i)
  }

  // The integer a text denotes, of whatever size.
  function Denoted(s: string): Option<int> {
    var negative, body := s != [] && s[0] == '-', if s != [] && (s[0] == '-' || s[0] == '+') then s[1..] else s;
    if body == [] || !AllDigits(body) then None else Some(if negative then -(Value(body) as int) else Value(body))
  }

  // strconv.Atoi
  function Atoi64(s: string): Option<int> {
    var n := Denoted(s);
    if n.Some? && MIN_INT64 <= n.value <= MAX_INT64 then n else None
  }

  // strconv.Atoi with its error dropped, as csvParseInt uses it: 0 for text that is no numeral, the nearest 64-bit
  // integer for one that is out of range.
  function Atoi(s: string): int {
    var n := Denoted(s);
    if n.None? then 0 else if n.value < MIN_INT64 then MIN_INT64 else if n.value > MAX_INT64 then MAX_INT64 else n.value
  }

  // A plus sign is allowed, and what does not fit into 64 bits becomes the nearest integer that does, or no number where an
  // error is heeded.
  lemma NumeralsOutOfRange(n: int)
    requires n >= 0
    ensures Atoi("+" + Numeral(n)) == Atoi(Numeral(n)) == (if n > MAX_INT64 then MAX_INT64 else n)
    ensures Atoi("-" + Numeral(n)) == if -n < MIN_INT64 then MIN_INT64 else -n
    ensures Atoi64(Numeral(n)).None? <==> n > MAX_INT64
  {
    ValueOfNumeral(n);
    assert IsDigit(Numeral(n)[0]);
    assert ("+" + Numeral(n))[1..] == Numeral(n) && ("-" + Numeral(n))[1..] == Numeral(n);
  }

  lemma ItoaTrimmed(i: int)
    requires i > MIN_INT64
    ensures Itoa(i) != "" && Trimmed(Itoa(i)) && Trim(Itoa(i)) == Itoa(i)
  {
    var s := Itoa(i);
    assert forall k :: 0 <= k < |s| ==> IsDigit(s[k]) || s[k] == '-';
    TrimIsTrimmed(s);
  }

  lemma DenotedByItoa(i: int)
    requires MIN_INT64 < i <= MAX_INT64
    ensures Denoted(Itoa(i)) == Some(i) && Atoi64(Itoa(i)) == Some(i)
  {
    var s := Itoa(i);
    if i < 0 {
      ValueOfNumeral(-i);
      assert s[0] == '-' && s[1..] == Numeral(-i);
      assert Denoted(s) == Some(i);
    } else {
      ValueOfNumeral(i);
      assert s == Numeral(i) && IsDigit(s[0]);
      assert Denoted(s) == Some(i);
    }
  }

  // Every 64-bit integer but the least survives printing and parsing.
  lemma AtoiOfItoa(i: int)
    requires MIN_INT64 <= i <= MAX_INT64
    ensures Atoi(Itoa(i)) == i <==> i != MIN_INT64
  {
    if i == MIN_INT64 {
      assert "-"[1..] == [];
    } else {
      DenotedByItoa(i);
    }
  }

  lemma ItoaInjective(i: int, j: int)
    requires MIN_INT64 <= i <= MAX_INT64 && MIN_INT64 <= j <= MAX_INT64
    ensures Itoa(i) == Itoa(j) <==> i == j
  {
    AtoiOfItoa(i);
    AtoiOfItoa(j);
    if i == MIN_INT64 && j != MIN_INT64 {
      assert |Itoa(j)| > 1 || IsDigit(Itoa(j)[0]);
    }
    if j == MIN_INT64 && i != MIN_INT64 {
      assert |Itoa(i)| > 1 || IsDigit(Itoa(i)[0]);
    }
  }
}
