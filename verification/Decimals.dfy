// Decimal text: integers as Go's strconv and math/big print and read them, and the decimals of
// github.com/shopspring/decimal as (coefficient, exponent) pairs.
module Decimals {
  import opened Basics

  // ---- Digits -------------------------------------------------------------------------------

  function Digit(d: nat): (c: char)
    requires d < 10
    ensures IsDigit(c)
  {
    '0' + d as char
  }

  function DigitValue(c: char): nat
    requires IsDigit(c)
  {
    c as int - '0' as int
  }

  function Natural(n: nat): (s: string)
    ensures AllDigits(s) && |s| > 0
  {
    if n < 10 then [Digit(n)] else Natural(n / 10) + [Digit(n % 10)]
  }

  function Value(s: string): nat
    requires AllDigits(s)
  {
    if s == "" then 0 else Value(s[..|s| - 1]) * 10 + DigitValue(s[|s| - 1])
  }

  function Pow10(n: nat): (p: nat)
    ensures p > 0
  {
    if n == 0 then 1 else 10 * Pow10(n - 1)
  }

  lemma {:induction false} ValueOfNatural(n: nat)
    ensures Value(Natural(n)) == n
  {
    if n >= 10 {
      ValueOfNatural(n / 10);
      assert Natural(n)[..|Natural(n)| - 1] == Natural(n / 10);
    }
  }

  // The digits are the usual ones, most significant first.
  lemma DigitsOf(n: nat)
    ensures n < 10 ==> Natural(n) == ["0123456789"[n]]
    ensures n >= 10 ==> Natural(n) == Natural(n / 10) + Natural(n % 10)
  {
  }

  lemma {:induction false} NaturalShift(n: nat, k: nat)
    requires n > 0
    ensures Natural(n * Pow10(k)) == Natural(n) + Zeros(k)
  {
    if k == 0 {
      assert n * Pow10(0) == n;
      assert Natural(n) + Zeros(0) == Natural(n);
    } else {
      NaturalShift(n, k - 1);
      var m := n * Pow10(k - 1);
      Regroup(n, 10, Pow10(k - 1));
      Regroup(10, n, Pow10(k - 1));
      assert n * Pow10(k) == 10 * m;
      TenTimes(m);
      assert Zeros(k) == Zeros(k - 1) + "0";
      assert Natural(n) + Zeros(k) == Natural(n) + Zeros(k - 1) + "0";
    }
  }

  lemma TenTimes(m: nat)
    requires m > 0
    ensures Natural(10 * m) == Natural(m) + "0"
  {
    assert 10 * m / 10 == m && 10 * m % 10 == 0;
    assert Digit(0) == '0';
  }

  lemma {:induction false} PowSum(a: nat, b: nat)
    ensures Pow10(a + b) == Pow10(a) * Pow10(b)
  {
    if a > 0 {
      PowSum(a - 1, b);
      Regroup(10, Pow10(a - 1), Pow10(b));
    }
  }

  lemma Regroup(x: int, y: int, z: int)
    ensures x * (y * z) == (x * y) * z
  {
  }

  // One more digit after a number shifted by p.
  lemma ShiftedOnce(v: int, p: int, w: int, digit: int)
    ensures (v * p + w) * 10 + digit == v * (10 * p) + (w * 10 + digit)
  {
    Regroup(v, 10, p);
    Regroup(v, p, 10);
  }

  lemma ValueLast(s: string)
    requires AllDigits(s) && s != ""
    ensures Value(s) == Value(s[..|s| - 1]) * 10 + DigitValue(s[|s| - 1])
  {
  }

  lemma {:induction false} ValueOfConcat(a: string, b: string)
    requires AllDigits(a) && AllDigits(b)
    ensures AllDigits(a + b) && Value(a + b) == Value(a) * Pow10(|b|) + Value(b)
  {
    if b == "" {
      assert a + b == a;
    } else {
      var n := |b| - 1;
      ValueOfConcat(a, b[..n]);
      hide Value;
      assert (a + b)[..|a| + n] == a + b[..n];
      ValueLast(b);
      ValueLast(a + b);
      ShiftedOnce(Value(a), Pow10(n), Value(b[..n]), DigitValue(b[n]));
    }
  }

  function Zeros(n: nat): (s: string)
    ensures |s| == n && AllDigits(s)
  {
    seq(n, _ => '0')
  }

  lemma {:induction false} ValueOfZeros(n: nat)
    ensures Value(Zeros(n)) == 0
  {
    if n > 0 {
      ValueOfZeros(n - 1);
      assert Zeros(n)[..n - 1] == Zeros(n - 1);
    }
  }

  lemma {:induction false} ValueBound(s: string)
    requires AllDigits(s)
    ensures Value(s) < Pow10(|s|)
  {
    if s != "" {
      ValueBound(s[..|s| - 1]);
    }
  }

  // ---- Integers -----------------------------------------------------------------------------

  function Integer(i: int): string {
    if i < 0 then "-" + Natural(-i) else Natural(i)
  }

  // An optional sign and at least one digit.
  function ParseInteger(s: string): Option<int> {
    var digits := if s != "" && (s[0] == '-' || s[0] == '+') then s[1..] else s;
    if digits == "" || !AllDigits(digits) then None
    else if s[0] == '-' then Some(0 - Value(digits))
    else Some(Value(digits))
  }

  lemma IntegerRoundTrip(i: int)
    ensures ParseInteger(Integer(i)) == Some(i)
  {
    ValueOfNatural(if i < 0 then -i else i);
    assert IsDigit(Natural(if i < 0 then -i else i)[0]);
    if i < 0 {
      assert Integer(i)[1..] == Natural(-i);
    }
  }

  // ---- Decimals -----------------------------------------------------------------------------

  // The number coefficient * 10^exponent.
  datatype Decimal = Decimal(coefficient: int, exponent: int)

  function TrimZeros(s: string): string {
    if s != "" && s[|s| - 1] == '0' then TrimZeros(s[..|s| - 1]) else s
  }

  // The digits of n around the decimal point, when the last k of them are the fraction.
  function WholePart(n: nat, k: nat): string {
    var s := Natural(n);
    if |s| > k then s[..|s| - k] else "0"
  }

  function FractionPart(n: nat, k: nat): string {
    var s := Natural(n);
    if |s| > k then s[|s| - k..] else Zeros(k - |s|) + s
  }

  // decimal.String: trailing zeros of the fraction are dropped.
  function Show(d: Decimal): string {
    if d.exponent >= 0 then Integer(d.coefficient * Pow10(d.exponent))
    else
      var n := Abs(d.coefficient);
      var fraction := TrimZeros(FractionPart(n, -d.exponent));
      Sign(d.coefficient < 0) + WholePart(n, -d.exponent) + Tail(fraction)
  }

  predicate IsInt32(i: int) { -0x8000_0000 <= i < 0x8000_0000 }

  // The first position of a character of cs in s, or |s|.
  function IndexAny(s: string, cs: set<char>): (i: nat)
    ensures i <= |s| && (i < |s| ==> s[i] in cs)
    ensures forall j :: 0 <= j < i ==> s[j] !in cs
  {
    if s == "" || s[0] in cs then 0 else 1 + IndexAny(s[1..], cs)
  }

  // decimal.NewFromString.
  function Read(s: string): Option<Decimal> {
    var e := IndexAny(s, {'E', 'e'});
    if e == |s| then ReadMantissa(s, 0)
    else match ParseInteger(s[e + 1..])
         case Some(exp) => if IsInt32(exp) then ReadMantissa(s[..e], exp) else None
         case None => None
  }

  function ReadMantissa(s: string, exp: int): Option<Decimal> {
    var p := IndexAny(s, {'.'});
    var fraction := if p < |s| then s[p + 1..] else "";
    if '.' in fraction then None
    else
      var exp' := exp - |fraction|;
      match ParseInteger(s[..p] + fraction)
      case Some(c) => if IsInt32(exp') then Some(Decimal(c, exp')) else None
      case None => None
  }

  // The value of d in units of 10^-k, when that is an integer by the exponent alone.
  function Scaled(d: Decimal, k: nat): int
    requires d.exponent + k >= 0
  {
    d.coefficient * Pow10(d.exponent + k)
  }

  lemma {:induction false} TrimmedZeros(s: string)
    ensures |TrimZeros(s)| <= |s|
    ensures s == TrimZeros(s) + Zeros(|s| - |TrimZeros(s)|)
  {
    if s != "" && s[|s| - 1] == '0' {
      TrimmedZeros(s[..|s| - 1]);
      var t := TrimZeros(s);
      assert Zeros(|s| - |t|) == Zeros(|s| - 1 - |t|) + "0";
    }
  }

  lemma {:induction false} TrimmedEnd(s: string)
    ensures TrimZeros(s) == "" || TrimZeros(s)[|TrimZeros(s)| - 1] != '0'
  {
    if s != "" && s[|s| - 1] == '0' { TrimmedEnd(s[..|s| - 1]); }
  }

  lemma {:induction false} NothingButZeros(n: nat)
    ensures TrimZeros(Zeros(n)) == ""
  {
    if n > 0 {
      NothingButZeros(n - 1);
      assert Zeros(n)[..n - 1] == Zeros(n - 1);
    }
  }

  lemma PaddedValue(s: string, n: nat)
    requires AllDigits(s)
    ensures AllDigits(Zeros(n) + s) && Value(Zeros(n) + s) == Value(s)
  {
    ValueOfConcat(Zeros(n), s);
    ValueOfZeros(n);
  }

  // The two parts together are the digits of n, possibly after zeros.
  lemma PartsJoin(n: nat, k: nat) returns (padding: nat)
    ensures AllDigits(WholePart(n, k)) && AllDigits(FractionPart(n, k))
    ensures |WholePart(n, k)| > 0 && |FractionPart(n, k)| == k
    ensures WholePart(n, k) + FractionPart(n, k) == Zeros(padding) + Natural(n)
  {
    var s := Natural(n);
    if |s| > k {
      padding := 0;
      assert s[..|s| - k] + s[|s| - k..] == s;
    } else {
      padding := k + 1 - |s|;
      assert "0" + (Zeros(k - |s|) + s) == Zeros(padding) + s;
    }
  }

  lemma PartsValue(n: nat, k: nat)
    ensures AllDigits(WholePart(n, k) + FractionPart(n, k))
    ensures Value(WholePart(n, k) + FractionPart(n, k)) == n
  {
    var padding := PartsJoin(n, k);
    PaddedValue(Natural(n), padding);
    ValueOfNatural(n);
  }

  // ---- Show and Read ------------------------------------------------------------------------

  lemma {:induction false} IndexAnySkips(a: string, b: string, cs: set<char>)
    requires forall i :: 0 <= i < |a| ==> a[i] !in cs
    ensures IndexAny(a + b, cs) == |a| + IndexAny(b, cs)
  {
    if a == "" {
      assert a + b == b;
    } else {
      assert (a + b)[1..] == a[1..] + b;
      IndexAnySkips(a[1..], b, cs);
    }
  }

  // Text a decimal may be printed as: a sign, digits, and possibly a point with digits after it.
  predicate Plain(s: string) {
    forall i :: 0 <= i < |s| ==> IsDigit(s[i]) || s[i] == '.' || s[i] == '-'
  }

  function Sign(negative: bool): string { if negative then "-" else "" }

  function Tail(fraction: string): string { if fraction == "" then "" else "." + fraction }

  lemma ParseSigned(negative: bool, digits: string)
    requires AllDigits(digits) && digits != ""
    ensures ParseInteger(Sign(negative) + digits) == Some(if negative then 0 - Value(digits) else Value(digits))
    ensures ParseInteger("+" + digits) == Some(Value(digits))
  {
    hide Value;
    assert ("+" + digits)[1..] == digits;
    if negative {
      assert (Sign(negative) + digits)[1..] == digits;
    } else {
      assert Sign(negative) + digits == digits;
      assert IsDigit(digits[0]);
    }
  }

  lemma PointIndex(a: string, fraction: string)
    requires '.' !in a && AllDigits(fraction)
    ensures IndexAny(a + Tail(fraction), {'.'}) == |a|
    ensures '.' !in fraction
  {
    IndexAnySkips(a, Tail(fraction), {'.'});
  }

  lemma ReadAtPoint(a: string, fraction: string, c: int, exp: int)
    requires '.' !in a && AllDigits(fraction)
    requires ParseInteger(a + fraction) == Some(c)
    ensures ReadMantissa(a + Tail(fraction), exp)
         == if IsInt32(exp - |fraction|) then Some(Decimal(c, exp - |fraction|)) else None
  {
    hide ParseInteger, IndexAny, AllDigits;
    var s := a + Tail(fraction);
    PointIndex(a, fraction);
    if fraction == "" {
      assert s == a && s[..|a|] == a && a + "" == a;
    } else {
      assert s[..|a|] == a && s[|a| + 1..] == fraction;
    }
  }

  lemma ReadPlain(s: string)
    requires Plain(s)
    ensures Read(s) == ReadMantissa(s, 0)
  {
    IndexAnySkips(s, "", {'E', 'e'});
    assert s + "" == s;
  }

  // Reading a sign, whole digits and a fraction.
  lemma ReadParts(negative: bool, whole: string, fraction: string)
    requires AllDigits(whole) && whole != "" && AllDigits(fraction) && |fraction| <= 0x8000_0000
    ensures Plain(Sign(negative) + whole + Tail(fraction)) && AllDigits(whole + fraction)
    ensures Read(Sign(negative) + whole + Tail(fraction))
         == Some(Decimal(if negative then 0 - Value(whole + fraction) else Value(whole + fraction), -|fraction|))
  {
    hide Read, ReadMantissa, ParseInteger, Value;
    ParseSigned(negative, whole + fraction);
    assert Sign(negative) + whole + fraction == Sign(negative) + (whole + fraction);
    var c := if negative then 0 - Value(whole + fraction) else Value(whole + fraction);
    ReadAtPoint(Sign(negative) + whole, fraction, c, 0);
    ReadPlain(Sign(negative) + whole + Tail(fraction));
  }

  // The same with an exponent, which multiplies by a power of ten.
  lemma ReadScientific(negative: bool, whole: string, fraction: string, mark: char, e: int)
    requires AllDigits(whole) && whole != "" && AllDigits(fraction) && (mark == 'e' || mark == 'E')
    ensures AllDigits(whole + fraction)
    ensures Read(Sign(negative) + whole + Tail(fraction) + [mark] + Integer(e))
         == if -2_147_483_648 <= e <= 2_147_483_647 && -2_147_483_648 <= e - |fraction|
            then Some(Decimal(if negative then 0 - Value(whole + fraction) else Value(whole + fraction), e - |fraction|))
            else None
  {
    hide ReadMantissa, ParseInteger, Value, Natural, IndexAny, Integer;
    ParseSigned(negative, whole + fraction);
    assert Sign(negative) + whole + fraction == Sign(negative) + (whole + fraction);
    var c := if negative then 0 - Value(whole + fraction) else Value(whole + fraction);
    ReadAtPoint(Sign(negative) + whole, fraction, c, e);
    IntegerRoundTrip(e);
    ReadAtMark(Sign(negative) + whole + Tail(fraction), mark, Integer(e));
  }

  lemma ReadAtMark(a: string, mark: char, exponent: string)
    requires Plain(a) && (mark == 'e' || mark == 'E') && ParseInteger(exponent).Some?
    ensures Read(a + [mark] + exponent)
         == if IsInt32(ParseInteger(exponent).value) then ReadMantissa(a, ParseInteger(exponent).value) else None
  {
    hide ReadMantissa, ParseInteger;
    var s := a + [mark] + exponent;
    IndexAnySkips(a, [mark] + exponent, {'E', 'e'});
    assert a + ([mark] + exponent) == s;
    assert ([mark] + exponent)[0] == mark;
    assert s[..|a|] == a && s[|a| + 1..] == exponent;
  }

  predicate NumberChar(c: char) { IsDigit(c) || c in "+-.eE" }

  lemma IntegerChars(s: string)
    requires ParseInteger(s).Some?
    ensures s != "" && forall i :: 0 <= i < |s| ==> IsDigit(s[i]) || s[i] == '-' || s[i] == '+'
  {
    hide Value;
    if s[0] == '-' || s[0] == '+' {
      assert forall i :: 1 <= i < |s| ==> s[i] == s[1..][i - 1];
    }
  }

  lemma MantissaChars(s: string, exp: int)
    requires ReadMantissa(s, exp).Some?
    ensures s != "" && forall i :: 0 <= i < |s| ==> NumberChar(s[i])
  {
    hide ParseInteger;
    var p := IndexAny(s, {'.'});
    var fraction := if p < |s| then s[p + 1..] else "";
    var digits := s[..p] + fraction;
    IntegerChars(digits);
    forall i | 0 <= i < |s|
      ensures NumberChar(s[i])
    {
      if i < p { assert s[i] == digits[i]; }
      else if i > p { assert s[i] == digits[i - 1]; }
    }
  }

  // Nothing else is a number: no empty text, and no other character anywhere.
  lemma OnlyNumbersAreRead(s: string)
    requires Read(s).Some?
    ensures s != "" && forall i :: 0 <= i < |s| ==> NumberChar(s[i])
  {
    hide ParseInteger, ReadMantissa;
    var e := IndexAny(s, {'E', 'e'});
    if e == |s| {
      MantissaChars(s, 0);
    } else {
      var exponent := s[e + 1..];
      IntegerChars(exponent);
      MantissaChars(s[..e], ParseInteger(exponent).value);
      forall i | 0 <= i < |s|
        ensures NumberChar(s[i])
      {
        if i < e { assert s[i] == s[..e][i]; }
        else if i > e { assert s[i] == exponent[i - e - 1]; }
      }
    }
  }

  // What Show prints, Read reads back as the same number: same value, possibly with a larger
  // exponent.
  lemma ShowThenRead(d: Decimal)
    requires -0x8000_0000 <= d.exponent <= 0
    ensures Plain(Show(d))
    ensures Read(Show(d)).Some?
    ensures var r := Read(Show(d)).value;
            d.exponent <= r.exponent <= 0 && Scaled(r, -d.exponent) == d.coefficient
  {
    if d.exponent == 0 {
      ShowThenReadInteger(d.coefficient);
    } else {
      ShowThenReadFraction(d);
    }
  }

  lemma ShowThenReadInteger(c: int)
    ensures Plain(Integer(c)) && Read(Integer(c)) == Some(Decimal(c, 0))
    ensures Show(Decimal(c, 0)) == Integer(c) && Scaled(Decimal(c, 0), 0) == c
  {
    hide Read, Natural, Value;
    ReadParts(c < 0, Natural(Abs(c)), "");
    assert Sign(c < 0) + Natural(Abs(c)) + "" == Integer(c);
    assert Natural(Abs(c)) + "" == Natural(Abs(c));
    ValueOfNatural(Abs(c));
  }

  // The fraction of n without its trailing zeros still gives n, in larger units.
  lemma TrimmedValue(n: nat, k: nat)
    ensures var whole, fraction := WholePart(n, k), TrimZeros(FractionPart(n, k));
            && AllDigits(whole) && whole != "" && AllDigits(fraction) && |fraction| <= k
            && AllDigits(whole + fraction) && Value(whole + fraction) * Pow10(k - |fraction|) == n
  {
    hide Value, Pow10, Natural, WholePart, FractionPart, TrimZeros;
    var padding := PartsJoin(n, k);
    PartsValue(n, k);
    var whole, digits := WholePart(n, k), FractionPart(n, k);
    var fraction := TrimZeros(digits);
    TrimmedZeros(digits);
    assert forall i :: 0 <= i < |fraction| ==> fraction[i] == digits[i];
    assert whole + digits == (whole + fraction) + Zeros(k - |fraction|);
    ValueOfConcat(whole + fraction, Zeros(k - |fraction|));
    ValueOfZeros(k - |fraction|);
  }

  lemma ShowThenReadFraction(d: Decimal)
    requires -0x8000_0000 <= d.exponent < 0
    ensures Plain(Show(d))
    ensures Read(Show(d)).Some?
    ensures var r := Read(Show(d)).value;
            d.exponent <= r.exponent <= 0 && Scaled(r, -d.exponent) == d.coefficient
  {
    hide Read, Natural, Value, WholePart, FractionPart, TrimZeros, Pow10;
    var n, k := Abs(d.coefficient), -d.exponent;
    TrimmedValue(n, k);
    var whole, fraction := WholePart(n, k), TrimZeros(FractionPart(n, k));
    ReadParts(d.coefficient < 0, whole, fraction);
    var v: int, p: int := Value(whole + fraction), Pow10(k - |fraction|);
    assert (0 - v) * p == 0 - v * p;
  }

  lemma DivideTwice(n: nat, p: nat)
    requires p > 0
    ensures n / (10 * p) == n / 10 / p
  {
    var q, b := n / 10 / p, n / 10 % p;
    var r := n - q * (10 * p);
    assert n / 10 == q * p + b;
    Regroup(q, 10, p);
    Regroup(10, q, p);
    assert r == 10 * b + n % 10;
    QuotientIs(n, 10 * p, q, r);
  }

  lemma QuotientIs(n: nat, p: nat, q: nat, r: nat)
    requires p > 0 && n == q * p + r && r < p
    ensures n / p == q
  {
    var d := q - n / p;
    assert d * p == q * p - (n / p) * p;
    assert d >= 1 ==> d * p >= p;
    assert d <= -1 ==> d * p <= 0 - p;
  }

  lemma {:induction false} NaturalPrefix(n: nat, k: nat)
    requires n >= Pow10(k)
    ensures |Natural(n)| > k && Natural(n)[..|Natural(n)| - k] == Natural(n / Pow10(k))
  {
    if k > 0 {
      NaturalPrefix(n / 10, k - 1);
      DivideTwice(n, Pow10(k - 1));
      var s, t := Natural(n), Natural(n / 10);
      assert s == t + [Digit(n % 10)];
      assert s[..|s| - k] == t[..|t| - (k - 1)];
    } else {
      assert Natural(n)[..|Natural(n)|] == Natural(n);
    }
  }

  lemma ShowFraction(n: nat, k: nat)
    requires k > 0
    ensures Show(Decimal(n, 0 - k)) == WholePart(n, k) + Tail(TrimZeros(FractionPart(n, k)))
  {
    hide WholePart, FractionPart, TrimZeros, Pow10, Integer;
    assert Sign(false) + WholePart(n, k) == WholePart(n, k);
  }

  // The printed text before the point is the quotient.
  lemma ShowWhole(n: nat, k: nat) returns (tail: string)
    requires n >= Pow10(k)
    ensures Show(Decimal(n, 0 - k)) == Natural(n / Pow10(k)) + tail
    ensures tail == "" || tail[0] == '.'
  {
    hide Natural, TrimZeros, FractionPart, Read, Show, Pow10;
    if k == 0 {
      tail := "";
      ShowThenReadInteger(n);
      PowZero();
      assert Natural(n) + "" == Natural(n);
    } else {
      NaturalPrefix(n, k);
      ShowFraction(n, k);
      tail := Tail(TrimZeros(FractionPart(n, k)));
    }
  }

  lemma PowZero()
    ensures Pow10(0) == 1
  {
  }

  // A whole number of units is printed as an integer.
  lemma ShowExact(i: int, k: nat)
    requires i != 0
    ensures Show(Decimal(i * Pow10(k), 0 - k)) == Integer(i)
  {
    hide Natural, TrimZeros, Pow10;
    var n := Abs(i);
    PowZero();
    if k > 0 {
      assert Abs(i * Pow10(k)) == n * Pow10(k) && (i * Pow10(k) < 0 <==> i < 0) by { SignOfProduct(i, Pow10(k)); }
      NaturalShift(n, k);
      var s := Natural(n * Pow10(k));
      assert WholePart(n * Pow10(k), k) == Natural(n) && FractionPart(n * Pow10(k), k) == Zeros(k);
      NothingButZeros(k);
      assert Sign(i < 0) + Natural(n) + "" == Integer(i);
    }
  }

  lemma SignOfProduct(i: int, p: nat)
    requires p > 0
    ensures Abs(i * p) == Abs(i) * p && (i * p < 0 <==> i < 0)
  {
    if i < 0 { assert (0 - i) * p == 0 - i * p && (0 - i) * p >= p; } else { assert i * p >= 0; }
  }

  lemma ShownParts(n: nat, k: nat) returns (fraction: string)
    ensures AllDigits(WholePart(n, k)) && AllDigits(fraction) && fraction == TrimZeros(FractionPart(n, k))
    ensures fraction == "" || fraction[|fraction| - 1] != '0'
  {
    hide Natural, TrimZeros, WholePart, FractionPart;
    var padding := PartsJoin(n, k);
    var digits := FractionPart(n, k);
    fraction := TrimZeros(digits);
    TrimmedEnd(digits);
    TrimmedZeros(digits);
    assert forall i :: 0 <= i < |fraction| ==> fraction[i] == digits[i];
  }

  lemma TailEnds(a: string, fraction: string)
    requires '.' !in a && AllDigits(fraction) && (fraction == "" || fraction[|fraction| - 1] != '0')
    ensures var s := a + Tail(fraction); '.' in s ==> s[|s| - 1] != '0' && s[|s| - 1] != '.'
  {
    if fraction == "" {
      assert a + Tail(fraction) == a;
    }
  }

  // A printed number does not end in zeros after a point, nor in the point.
  lemma NoTrailingZeros(d: Decimal)
    ensures var s := Show(d); '.' in s ==> s[|s| - 1] != '0' && s[|s| - 1] != '.'
  {
    hide Natural, TrimZeros, Pow10, WholePart, FractionPart;
    if d.exponent >= 0 {
      assert '.' !in Integer(d.coefficient * Pow10(d.exponent));
    } else {
      var n, k := Abs(d.coefficient), -d.exponent;
      var fraction := ShownParts(n, k);
      TailEnds(Sign(d.coefficient < 0) + WholePart(n, k), fraction);
    }
  }
}
