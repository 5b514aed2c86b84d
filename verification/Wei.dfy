// Amounts of wei as text with a unit suffix (lib/chainlink/core/assets/wei.go).
module WeiText {
  import opened Basics
  import opened Decimals

  // The eleven units, smallest first.
  datatype Unit = WeiUnit | Kwei | Mwei | Gwei | Micro | Milli | Ether | Kether | Mether | Gether | Tether

  function Name(u: Unit): string {
    match u
    case WeiUnit => "wei"
    case Kwei => "kwei"
    case Mwei => "mwei"
    case Gwei => "gwei"
    case Micro => "micro"
    case Milli => "milli"
    case Ether => "ether"
    case Kether => "kether"
    case Mether => "mether"
    case Gether => "gether"
    case Tether => "tether"
  }

  // suffixExp, on the units; its panic is for any other suffix.
  function SuffixExp(u: Unit): (e: int)
    ensures 0 <= e <= 30
  {
    match u
    case WeiUnit => 0
    case Kwei => 3
    case Mwei => 6
    case Gwei => 9
    case Micro => 12
    case Milli => 15
    case Ether => 18
    case Kether => 21
    case Mether => 24
    case Gether => 27
    case Tether => 30
  }

  // The order in which the parser tries the suffixes.
  const UNITS: seq<Unit> := [Tether, Gether, Mether, Kether, Ether, Milli, Micro, Gwei, Mwei, Kwei, WeiUnit]

  function Scale(u: Unit): nat { Pow10(SuffixExp(u)) }

  // ---- Printing -----------------------------------------------------------------------------

  // text: no suffix for zero.
  function TextIn(w: int, u: Unit): string {
    if w == 0 then "0" else Show(Decimal(w, -SuffixExp(u))) + " " + Name(u)
  }

  // Text: an empty or unknown suffix means wei.
  function Text(w: int, suffix: string): string {
    TextIn(w, UnitNamed(suffix, 0))
  }

  function UnitNamed(suffix: string, i: nat): Unit
    requires i <= |UNITS|
    decreases |UNITS| - i
  {
    if i == |UNITS| then WeiUnit
    else if Name(UNITS[i]) == suffix then UNITS[i]
    else UnitNamed(suffix, i + 1)
  }

  const U64_ETH := 1_000_000_000_000_000_000
  const MAX_UINT64 := 0xFFFF_FFFF_FFFF_FFFF

  // The unit that String picks.
  function UnitOf(w: int): Unit {
    if 0 <= w <= MAX_UINT64 then
      if w >= U64_ETH then Ether
      else if w >= 1_000_000_000_000_000 then Milli
      else if w >= 1_000_000_000_000 then Micro
      else if w >= 1_000_000_000 then Gwei
      else if w >= 1_000_000 then Mwei
      else if w >= 1_000 then Kwei
      else WeiUnit
    else if w >= U64_ETH * 1_000_000_000_000 then Tether
    else if w >= U64_ETH * 1_000_000_000 then Gether
    else if w >= U64_ETH * 1_000_000 then Mether
    else if w >= U64_ETH * 1_000 then Kether
    else Ether
  }

  function String(w: int): string { TextIn(w, UnitOf(w)) }

  // ---- Parsing ------------------------------------------------------------------------------

  datatype Error = BadNumber | BelowWei | NotInteger
  datatype Result = Ok(wei: int) | Err(error: Error)

  predicate HasSuffix(s: string, suffix: string) {
    |suffix| <= |s| && s[|s| - |suffix|..] == suffix
  }

  function TrimSuffix(s: string, suffix: string): string {
    if HasSuffix(s, suffix) then s[..|s| - |suffix|] else s
  }

  predicate IsInteger(d: Decimal) {
    d.exponent >= 0 || d.coefficient % Pow10(0 - d.exponent) == 0
  }

  // decimal.BigInt: truncated towards zero.
  function BigInt(d: Decimal): int {
    if d.exponent >= 0 then d.coefficient * Pow10(d.exponent)
    else if d.coefficient >= 0 then d.coefficient / Pow10(0 - d.exponent)
    else 0 - (0 - d.coefficient) / Pow10(0 - d.exponent)
  }

  // The number t counted in units of 10^e wei.
  function ParseNumber(t: string, e: nat): Result {
    match Read(t)
    case None => Err(BadNumber)
    case Some(d) =>
      if IsInteger(d) then Ok(BigInt(d) * Pow10(e))
      else
        var d' := Decimal(d.coefficient * 1, d.exponent + e);
        if IsInteger(d') then Ok(BigInt(d')) else Err(BelowWei)
  }

  // The first of the units whose name ends s.
  function FirstSuffix(s: string, units: seq<Unit>): Option<Unit> {
    if units == [] then None
    else if HasSuffix(s, Name(units[0])) then Some(units[0])
    else FirstSuffix(s, units[1..])
  }

  function Parse(s: string): Result {
    match FirstSuffix(s, UNITS)
    case Some(u) => ParseNumber(TrimSuffix(TrimSuffix(s, Name(u)), " "), SuffixExp(u))
    case None =>
      match Read(s)
      case None => Err(BadNumber)
      case Some(d) => if IsInteger(d) then Ok(BigInt(d)) else Err(NotInteger)
  }

  class Wei {
    var value: int

    // Writes through the receiver only on success.
    method UnmarshalText(s: string) returns (error: Option<Error>)
      modifies this
      ensures match Parse(s)
              case Ok(w) => error == None && value == w
              case Err(e) => error == Some(e) && value == old(value)
    {
      hide Read, IsInteger, BigInt, Name, SuffixExp, Pow10;
      var i := 0;
      while i < |UNITS|
        invariant i <= |UNITS| && value == old(value)
        invariant FirstSuffix(s, UNITS) == FirstSuffix(s, UNITS[i..])
      {
        var suffix := Name(UNITS[i]);
        if !HasSuffix(s, suffix) {
          i := i + 1;
          continue;
        }
        var t := TrimSuffix(s, suffix);
        t := TrimSuffix(t, " ");
        var d := Read(t);
        if d == None {
          return Some(BadNumber);
        }
        var se := SuffixExp(UNITS[i]);
        if IsInteger(d.value) {
          value := BigInt(d.value) * Pow10(se);
          return None;
        }
        var scaled := Decimal(d.value.coefficient * 1, d.value.exponent + se);
        if !IsInteger(scaled) {
          return Some(BelowWei);
        }
        value := BigInt(scaled);
        return None;
      }
      var d := Read(s);
      if d == None {
        return Some(BadNumber);
      }
      if IsInteger(d.value) {
        value := BigInt(d.value);
        return None;
      }
      return Some(NotInteger);
    }
  }

  // ---- Exactness ----------------------------------------------------------------------------

  lemma MulLeft(a: int, b: int, c: int)
    ensures a * (b * c) == a * b * c
  {
  }

  lemma ExactDivision(c: int, p: int, q: int)
    requires p > 0 && c == q * p
    ensures c % p == 0 && c / p == q
    ensures (0 - c) % p == 0 && (0 - c) / p == 0 - q
  {
    assert 0 - c == (0 - q) * p;
    DivideBack(q, p);
    DivideBack(0 - q, p);
  }

  lemma MultiplesStep(r: int, p: int)
    requires p > 0
    ensures r >= 1 ==> r * p >= p
    ensures r <= -1 ==> r * p <= 0 - p
  {
  }

  lemma DivideBack(q: int, p: int)
    requires p > 0
    ensures (q * p) % p == 0 && (q * p) / p == q
  {
    var c := q * p;
    MultiplesStep(q - c / p, p);
    assert c == (c / p) * p + c % p;
    assert (q - c / p) * p == q * p - (c / p) * p;
  }

  // w is exactly coefficient * 10^exponent * 10^e, without fractions.
  predicate IsExactly(w: int, d: Decimal, e: nat) {
    if d.exponent + e >= 0 then w == d.coefficient * Pow10(d.exponent + e)
    else w * Pow10(0 - (d.exponent + e)) == d.coefficient
  }

  lemma IntegerIsExact(d: Decimal, w: int)
    ensures IsExactly(w, d, 0) <==> IsInteger(d) && w == BigInt(d)
  {
    if d.exponent < 0 {
      var p := Pow10(0 - d.exponent);
      if w * p == d.coefficient {
        ExactDivision(d.coefficient, p, w);
      }
      if IsInteger(d) {
        assert d.coefficient == (d.coefficient / p) * p;
        ExactDivision(d.coefficient, p, d.coefficient / p);
      }
    }
  }

  // Scaling by 10^e keeps exactness.
  lemma ScaledIsExact(d: Decimal, e: nat)
    requires IsInteger(d)
    ensures IsExactly(BigInt(d) * Pow10(e), d, e)
  {
    IntegerIsExact(d, BigInt(d));
    var v := BigInt(d);
    if d.exponent >= 0 {
      PowSum(d.exponent, e);
      MulLeft(d.coefficient, Pow10(d.exponent), Pow10(e));
    } else if d.exponent + e >= 0 {
      PowSum(0 - d.exponent, d.exponent + e);
      MulLeft(v, Pow10(0 - d.exponent), Pow10(d.exponent + e));
    } else {
      PowSum(e, 0 - (d.exponent + e));
      MulLeft(v, Pow10(e), Pow10(0 - (d.exponent + e)));
    }
  }

  lemma ExactIsUnique(v: int, w: int, d: Decimal, e: nat)
    requires IsExactly(v, d, e) && IsExactly(w, d, e)
    ensures v == w
  {
    if d.exponent + e < 0 {
      var p := Pow10(0 - (d.exponent + e));
      ExactDivision(d.coefficient, p, v);
      ExactDivision(d.coefficient, p, w);
    }
  }

  // Parsing a number in a unit is exact arithmetic: whatever branch is taken, the result is the
  // amount denoted, and there is a result whenever that amount is a whole number of wei.
  lemma ParseNumberIsExact(t: string, e: nat, d: Decimal, w: int)
    requires Read(t) == Some(d)
    ensures ParseNumber(t, e) == Ok(w) <==> IsExactly(w, d, e)
  {
    hide Read;
    if IsInteger(d) {
      ScaledIsExact(d, e);
      if IsExactly(w, d, e) {
        ExactIsUnique(w, BigInt(d) * Pow10(e), d, e);
      }
    } else {
      var d' := Decimal(d.coefficient * 1, d.exponent + e);
      IntegerIsExact(d', w);
    }
  }

  // ---- Suffixes -----------------------------------------------------------------------------

  ghost predicate IsFirstAt(s: string, units: seq<Unit>, k: nat) {
    && k < |units| && HasSuffix(s, Name(units[k]))
    && forall j :: 0 <= j < k ==> !HasSuffix(s, Name(units[j]))
  }

  lemma {:induction false} FirstSuffixIs(s: string, units: seq<Unit>, k: nat)
    ensures IsFirstAt(s, units, k) ==> FirstSuffix(s, units) == Some(units[k])
    ensures FirstSuffix(s, units) == None <==> forall j :: 0 <= j < |units| ==> !HasSuffix(s, Name(units[j]))
  {
    hide Name, HasSuffix;
    if units != [] {
      var rest := units[1..];
      FirstSuffixIs(s, rest, if k == 0 then 0 else k - 1);
      assert forall j :: 1 <= j < |units| ==> units[j] == rest[j - 1];
    }
  }

  lemma {:induction false} FirstSuffixAt(s: string, units: seq<Unit>) returns (k: nat)
    requires FirstSuffix(s, units).Some?
    ensures IsFirstAt(s, units, k) && FirstSuffix(s, units) == Some(units[k])
  {
    hide Name, HasSuffix;
    k := 0;
    if !HasSuffix(s, Name(units[0])) {
      k := FirstSuffixAt(s, units[1..]);
      assert forall j :: 0 <= j < k ==> units[1..][j] == units[j + 1];
      k := k + 1;
    }
  }

  lemma NameLengths(k: nat)
    requires k < |UNITS|
    ensures |Name(UNITS[k])| == [6, 6, 6, 6, 5, 5, 5, 4, 4, 4, 3][k]
  {
  }

  // The parser picks the longest unit name that ends the text.
  lemma FirstIsLongest(s: string, j: nat)
    requires j < |UNITS| && HasSuffix(s, Name(UNITS[j]))
    ensures FirstSuffix(s, UNITS).Some?
    ensures HasSuffix(s, Name(FirstSuffix(s, UNITS).value))
    ensures |Name(UNITS[j])| <= |Name(FirstSuffix(s, UNITS).value)|
  {
    hide Name, HasSuffix, FirstSuffix;
    FirstSuffixIs(s, UNITS, j);
    var k := FirstSuffixAt(s, UNITS);
    NameLengths(k);
    NameLengths(j);
  }

  // ---- Round trips --------------------------------------------------------------------------

  function Position(u: Unit): (k: nat)
    ensures k < |UNITS| && UNITS[k] == u
  {
    10 - SuffixExp(u) / 3
  }

  lemma NamesDiffer(u: Unit, v: Unit)
    ensures Name(u) == Name(v) ==> u == v
    ensures ' ' !in Name(u)
  {
    if |Name(u)| == |Name(v)| {
      assert Name(u)[0] == Name(v)[0] && Name(u)[1] == Name(v)[1] && Name(u)[2] == Name(v)[2] ==> u == v;
    }
  }

  lemma SuffixChars(s: string, suffix: string, i: nat)
    requires HasSuffix(s, suffix) && i < |suffix|
    ensures s[|s| - |suffix| + i] == suffix[i]
  {
  }

  // Only the unit that was printed, and shorter ones, end a printed amount.
  lemma PrintedSuffix(num: string, k: nat)
    requires k < |UNITS|
    ensures IsFirstAt(num + " " + Name(UNITS[k]), UNITS, k)
    ensures var s := num + " " + Name(UNITS[k]);
            TrimSuffix(TrimSuffix(s, Name(UNITS[k])), " ") == num
  {
    hide Name;
    var name := Name(UNITS[k]);
    var s := num + " " + name;
    assert s[|s| - |name|..] == name;
    assert s[..|s| - |name|] == num + " ";
    assert (num + " ")[..|num|] == num && (num + " ")[|num|..] == " ";
    forall j | 0 <= j < k
      ensures !HasSuffix(s, Name(UNITS[j]))
    {
      var other := Name(UNITS[j]);
      NameLengths(j);
      NameLengths(k);
      NamesDiffer(UNITS[j], UNITS[k]);
      if HasSuffix(s, other) && |other| > |name| {
        SuffixChars(s, other, |other| - |name| - 1);
      }
    }
  }

  // Printing an amount in any unit and parsing the text gives the amount back, for every integer.
  lemma TextInRoundTrip(w: int, u: Unit)
    ensures Parse(TextIn(w, u)) == Ok(w)
  {
    if w == 0 {
      ParseZero();
    } else {
      NonZeroRoundTrip(w, u);
    }
  }

  lemma NonZeroRoundTrip(w: int, u: Unit)
    requires w != 0
    ensures Parse(TextIn(w, u)) == Ok(w)
  {
    hide Name, Show, Read, Pow10, SuffixExp, FirstSuffix, ParseNumber, TrimSuffix, HasSuffix, IsFirstAt;
    var e, k := SuffixExp(u), Position(u);
    var d := Decimal(w, 0 - e);
    var num := Show(d);
    ShowThenRead(d);
    PrintedSuffix(num, k);
    FirstSuffixIs(TextIn(w, u), UNITS, k);
    var r := Read(num).value;
    assert r.coefficient * Pow10(r.exponent + e) == w;
    ParseNumberIsExact(num, e, r, w);
  }

  lemma ReadZero()
    ensures Read("0") == Some(Decimal(0, 0))
  {
    hide Read;
    ShowThenReadInteger(0);
    assert Integer(0) == "0";
  }

  lemma TooShort(s: string, suffix: string)
    requires |s| < |suffix|
    ensures !HasSuffix(s, suffix)
  {
  }

  lemma NoSuffixInZero()
    ensures FirstSuffix("0", UNITS) == None
  {
    hide Name, FirstSuffix, HasSuffix;
    forall j | 0 <= j < |UNITS|
      ensures !HasSuffix("0", Name(UNITS[j]))
    {
      NameLengths(j);
      TooShort("0", Name(UNITS[j]));
    }
    FirstSuffixIs("0", UNITS, 0);
  }

  lemma ParseZero()
    ensures Parse("0") == Ok(0)
  {
    hide Name, Read, FirstSuffix;
    NoSuffixInZero();
    ReadZero();
  }

  // Text with any suffix, and String, are inverted by UnmarshalText on all integers.
  lemma TextRoundTrip(w: int, suffix: string)
    ensures Parse(Text(w, suffix)) == Ok(w)
    ensures Parse(String(w)) == Ok(w)
  {
    TextInRoundTrip(w, UnitNamed(suffix, 0));
    TextInRoundTrip(w, UnitOf(w));
  }

  lemma TextsAreDistinct(v: int, w: int, suffix: string, suffix': string)
    ensures Text(v, suffix) == Text(w, suffix') ==> v == w
    ensures String(v) == String(w) ==> v == w
  {
    hide Text, String, Parse;
    TextRoundTrip(v, suffix);
    TextRoundTrip(w, suffix');
  }

  // ---- The unit of String -------------------------------------------------------------------

  lemma Scales(u: Unit)
    ensures Scale(u) == match u
      case WeiUnit => 1
      case Kwei => 1_000
      case Mwei => 1_000_000
      case Gwei => 1_000_000_000
      case Micro => 1_000_000_000_000
      case Milli => 1_000_000_000_000_000
      case Ether => U64_ETH
      case Kether => U64_ETH * 1_000
      case Mether => U64_ETH * 1_000_000
      case Gether => U64_ETH * 1_000_000_000
      case Tether => U64_ETH * 1_000_000_000_000
  {
    ThousandFold(0);
    ThousandFold(3);
    ThousandFold(6);
    ThousandFold(9);
    ThousandFold(12);
    ThousandFold(15);
    ThousandFold(18);
    ThousandFold(21);
    ThousandFold(24);
    ThousandFold(27);
  }

  lemma ThousandFold(n: nat)
    ensures Pow10(n + 3) == 1_000 * Pow10(n)
  {
    assert Pow10(n + 2) == 10 * Pow10(n + 1);
  }

  // The two-branch choice is one scan: for amounts that are not negative String takes the greatest
  // unit not above the amount (wei below 1000).  Negative amounts are printed in ether.
  lemma UnitOfIsGreatest(w: int, u: Unit)
    ensures w < 0 ==> UnitOf(w) == Ether
    ensures w >= 1 ==> Scale(UnitOf(w)) <= w
    ensures w >= 0 && Scale(u) <= w ==> Scale(u) <= Scale(UnitOf(w))
    ensures w == 0 ==> UnitOf(w) == WeiUnit
  {
    hide Scale;
    Scales(u);
    Scales(UnitOf(w));
  }

  // Up to the thousandfold of the largest unit, the whole part of the printed number has one to
  // three digits and no leading zero.
  lemma WholePartBelowThousand(w: int)
    requires 1 <= w < 1_000 * Scale(Tether)
    ensures 1 <= w / Scale(UnitOf(w)) <= 999
    ensures exists tail :: String(w) == Natural(w / Scale(UnitOf(w))) + tail + " " + Name(UnitOf(w))
                        && (tail == "" || tail[0] == '.')
  {
    hide Show, Name, Natural;
    UnitOfIsGreatest(w, WeiUnit);
    WholeBounds(w);
    var u := UnitOf(w);
    var tail := ShowWhole(w, SuffixExp(u));
    assert String(w) == Natural(w / Scale(u)) + tail + " " + Name(u);
  }

  lemma WholeBounds(w: int)
    requires 1 <= w < 1_000 * Scale(Tether)
    ensures Scale(UnitOf(w)) <= w && 1 <= w / Scale(UnitOf(w)) <= 999
  {
    hide Scale;
    Scales(UnitOf(w));
    Scales(Tether);
  }

  // ---- What the texts mean ------------------------------------------------------------------

  predicate EndsInDigit(s: string) { s != "" && IsDigit(s[|s| - 1]) }

  lemma NamesAreLetters(u: Unit)
    ensures Name(u) != "" && forall i :: 0 <= i < |Name(u)| ==> 'a' <= Name(u)[i] <= 'z'
  {
  }

  // A name directly after a digit: the digit is in no name, so no longer name fits.
  lemma SuffixAfterDigit(num: string, k: nat)
    requires k < |UNITS| && EndsInDigit(num)
    ensures IsFirstAt(num + Name(UNITS[k]), UNITS, k)
    ensures TrimSuffix(TrimSuffix(num + Name(UNITS[k]), Name(UNITS[k])), " ") == num
  {
    hide Name;
    var name := Name(UNITS[k]);
    var s := num + name;
    assert s[|s| - |name|..] == name;
    assert s[..|s| - |name|] == num;
    assert num[|num| - 1..] == [num[|num| - 1]];
    forall j | 0 <= j < k
      ensures !HasSuffix(s, Name(UNITS[j]))
    {
      var other := Name(UNITS[j]);
      NameLengths(j);
      NameLengths(k);
      NamesDiffer(UNITS[j], UNITS[k]);
      NamesAreLetters(UNITS[j]);
      assert |name| < |other| <= |s| ==> s[|s| - |other|..][|other| - |name| - 1] == s[|num| - 1];
    }
  }

  lemma NoSuffixAfterDigit(num: string)
    requires EndsInDigit(num)
    ensures FirstSuffix(num, UNITS) == None
  {
    hide Name, FirstSuffix;
    forall j | 0 <= j < |UNITS|
      ensures !HasSuffix(num, Name(UNITS[j]))
    {
      NamesAreLetters(UNITS[j]);
    }
    FirstSuffixIs(num, UNITS, 0);
  }

  lemma IntegerEndsInDigit(i: int)
    ensures EndsInDigit(Integer(i))
  {
    hide Natural;
    var s := Natural(Abs(i));
    assert IsDigit(s[|s| - 1]);
  }

  // Behind a number, with or without a space, a unit is found and the number is read in it.
  lemma ParseInUnit(num: string, u: Unit)
    ensures Parse(num + " " + Name(u)) == ParseNumber(num, SuffixExp(u))
    ensures EndsInDigit(num) ==> Parse(num + Name(u)) == ParseNumber(num, SuffixExp(u))
    ensures EndsInDigit(num) ==> FirstSuffix(num, UNITS) == None
  {
    hide Name, FirstSuffix, ParseNumber, TrimSuffix, HasSuffix, IsFirstAt, EndsInDigit;
    var k := Position(u);
    PrintedSuffix(num, k);
    FirstSuffixIs(num + " " + Name(u), UNITS, k);
    if EndsInDigit(num) {
      SuffixAfterDigit(num, k);
      FirstSuffixIs(num + Name(u), UNITS, k);
      NoSuffixAfterDigit(num);
    }
  }

  lemma WholeAmount(i: int, u: Unit)
    ensures Parse(Integer(i) + " " + Name(u)) == Ok(i * Scale(u))
    ensures Parse(Integer(i) + Name(u)) == Ok(i * Scale(u))
    ensures Parse(Integer(i)) == Ok(i)
  {
    hide Name, Integer, Read, SuffixExp, FirstSuffix;
    ShowThenReadInteger(i);
    IntegerEndsInDigit(i);
    ParseInUnit(Integer(i), u);
    PowZero();
  }

  lemma NameIndex(name: string) returns (k: nat)
    requires name in {"wei", "kwei", "mwei", "gwei", "micro", "milli", "ether", "kether", "mether", "gether", "tether"}
    ensures k < |UNITS| && Name(UNITS[k]) == name
    ensures k == match name
                 case "tether" => 0
                 case "gether" => 1
                 case "mether" => 2
                 case "kether" => 3
                 case "ether" => 4
                 case "milli" => 5
                 case "micro" => 6
                 case "gwei" => 7
                 case "mwei" => 8
                 case "kwei" => 9
                 case _ => 10
  {
    k := if name == "tether" then 0 else if name == "gether" then 1 else if name == "mether" then 2
         else if name == "kether" then 3 else if name == "ether" then 4 else if name == "milli" then 5
         else if name == "micro" then 6 else if name == "gwei" then 7 else if name == "mwei" then 8
         else if name == "kwei" then 9 else 10;
  }

  lemma {:induction false} UnitNamedIs(suffix: string, i: nat, k: nat)
    requires i <= k < |UNITS| && Name(UNITS[k]) == suffix
    ensures UnitNamed(suffix, i) == UNITS[k]
    decreases k - i
  {
    hide Name;
    NamesDiffer(UNITS[i], UNITS[k]);
    if i < k { UnitNamedIs(suffix, i + 1, k); }
  }

  lemma {:induction false} UnitNamedDefault(suffix: string, i: nat)
    requires i <= |UNITS| && forall k :: i <= k < |UNITS| ==> Name(UNITS[k]) != suffix
    ensures UnitNamed(suffix, i) == WeiUnit
    decreases |UNITS| - i
  {
    hide Name;
    if i < |UNITS| { UnitNamedDefault(suffix, i + 1); }
  }

  lemma TextOfWhole(i: int, u: Unit)
    ensures i != 0 ==> TextIn(i * Scale(u), u) == Integer(i) + " " + Name(u)
    ensures TextIn(0, u) == "0"
  {
    hide Name, Show, Pow10, Integer;
    if i != 0 {
      ShowExact(i, SuffixExp(u));
      SignOfProduct(i, Scale(u));
      assert 0 - SuffixExp(u) == -SuffixExp(u);
      assert i * Scale(u) != 0 by {
        var n, p := Abs(i), Scale(u);
        assert n >= 1 && p >= 1 ==> n * p >= 1;
      }
    }
  }

  // The eleven suffixes as text, and what one of each is worth in wei: a whole number of a unit is
  // read, with or without a space, as that many times its worth, and printed as itself.
  lemma NamedAmounts(i: int, name: string, worth: nat)
    requires (name, worth) in {
      ("wei", 1), ("kwei", 1_000), ("mwei", 1_000_000), ("gwei", 1_000_000_000), ("micro", 1_000_000_000_000),
      ("milli", 1_000_000_000_000_000), ("ether", 1_000_000_000_000_000_000),
      ("kether", 1_000_000_000_000_000_000_000), ("mether", 1_000_000_000_000_000_000_000_000),
      ("gether", 1_000_000_000_000_000_000_000_000_000), ("tether", 1_000_000_000_000_000_000_000_000_000_000)}
    ensures Parse(Integer(i) + " " + name) == Ok(i * worth)
    ensures Parse(Integer(i) + name) == Ok(i * worth)
    ensures Parse(Integer(i)) == Ok(i)
    ensures i != 0 ==> Text(i * worth, name) == Integer(i) + " " + name
    ensures Text(0, name) == "0"
  {
    hide Scale, Name, Integer, TextIn, Parse;
    var k := NameIndex(name);
    Scales(UNITS[k]);
    assert Scale(UNITS[k]) == worth;
    WholeAmount(i, UNITS[k]);
    UnitNamedIs(name, 0, k);
    TextOfWhole(i, UNITS[k]);
  }

  // Any other suffix, and none, means wei.
  lemma OtherSuffixIsWei(w: int, suffix: string)
    requires suffix !in {"wei", "kwei", "mwei", "gwei", "micro", "milli", "ether", "kether", "mether", "gether", "tether"}
    ensures Text(w, suffix) == if w == 0 then "0" else Integer(w) + " wei"
  {
    hide Show, Integer;
    UnitNamedDefault(suffix, 0);
    TextOfWhole(w, WeiUnit);
    Scales(WeiUnit);
  }

  // When reading fails, and how.  Behind a number with a unit: it is no number at all, or not a
  // whole number of wei.  Without a unit: no number, or no integer.
  lemma ReadingFails(num: string, u: Unit)
    ensures Parse(num + " " + Name(u)) == Err(BadNumber) <==> Read(num).None?
    ensures Parse(num + " " + Name(u)) == Err(BelowWei)
        <==> Read(num).Some? && forall w :: !IsExactly(w, Read(num).value, SuffixExp(u))
    ensures FirstSuffix(num, UNITS).None? ==>
              && (Parse(num) == Err(BadNumber) <==> Read(num).None?)
              && (Parse(num) == Err(NotInteger)
                  <==> Read(num).Some? && forall w :: !IsExactly(w, Read(num).value, 0))
  {
    hide Name, Read, FirstSuffix, IsExactly, BigInt, IsInteger, Pow10, SuffixExp;
    ParseInUnit(num, u);
    if Read(num).Some? {
      var d := Read(num).value;
      forall w
        ensures ParseNumber(num, SuffixExp(u)) == Ok(w) <==> IsExactly(w, d, SuffixExp(u))
        ensures IsExactly(w, d, 0) <==> IsInteger(d) && w == BigInt(d)
      {
        ParseNumberIsExact(num, SuffixExp(u), d, w);
        IntegerIsExact(d, w);
      }
      var r := ParseNumber(num, SuffixExp(u));
      if r.Ok? { assert IsExactly(r.wei, d, SuffixExp(u)); }
      if IsInteger(d) { assert IsExactly(BigInt(d), d, 0); }
    }
  }
}
