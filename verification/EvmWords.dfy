// EVM words and padded byte strings (lib/chainlink/core/utils/ethabi.go, and EVMBytesToUint64 of
// utils.go), as in the Solidity Contract ABI Specification, section "Formal Specification of the
// Encoding".
module EvmWords {
  import opened Basics

  type Byte = b: int | 0 <= b < 256
  type Bytes = seq<Byte>

  const EVM_WORD_BYTE_LEN := 32

  // ---- Big-endian numbers -------------------------------------------------------------------

  function Pow256(n: nat): (p: nat)
    ensures p > 0
  {
    if n == 0 then 1 else 256 * Pow256(n - 1)
  }

  function Pow2(n: nat): (p: nat)
    ensures p > 0
  {
    if n == 0 then 1 else 2 * Pow2(n - 1)
  }

  function BigEndian(bs: Bytes): nat {
    if bs == [] then 0 else BigEndian(bs[..|bs| - 1]) * 256 + bs[|bs| - 1]
  }

  // big.Int.Bytes of a natural number: no leading zeros.
  function BytesOf(n: nat): Bytes {
    if n == 0 then [] else BytesOf(n / 256) + [n % 256]
  }

  // big.Int.BitLen.
  function BitLen(n: nat): nat {
    if n == 0 then 0 else 1 + BitLen(n / 2)
  }

  // The k low-order bytes of n.
  function LowBytes(n: nat, k: nat): (bs: Bytes)
    ensures |bs| == k
  {
    if k == 0 then [] else LowBytes(n / 256, k - 1) + [n % 256]
  }

  function Zeros(n: nat): (bs: Bytes)
    ensures |bs| == n && forall i :: 0 <= i < n ==> bs[i] == 0
  {
    seq(n, _ => 0)
  }

  // common.LeftPadBytes.
  function LeftPad(bs: Bytes, n: nat): Bytes {
    if n <= |bs| then bs else Zeros(n - |bs|) + bs
  }

  lemma {:induction false} ValueOfBytes(n: nat)
    ensures BigEndian(BytesOf(n)) == n
  {
    if n > 0 {
      ValueOfBytes(n / 256);
      assert BytesOf(n)[..|BytesOf(n)| - 1] == BytesOf(n / 256);
    }
  }

  lemma {:induction false} LengthOfBytes(n: nat, k: nat)
    ensures |BytesOf(n)| <= k <==> n < Pow256(k)
  {
    if n > 0 && k > 0 {
      LengthOfBytes(n / 256, k - 1);
    }
  }

  lemma {:induction false} BitLenBound(n: nat, k: nat)
    ensures BitLen(n) <= k <==> n < Pow2(k)
  {
    if n > 0 && k > 0 {
      BitLenBound(n / 2, k - 1);
    }
  }

  lemma {:induction false} BytesAreBits(k: nat)
    ensures Pow256(k) == Pow2(8 * k)
  {
    if k > 0 {
      BytesAreBits(k - 1);
      assert Pow2(8 * k - 4) == 16 * Pow2(8 * k - 8) by {
        assert Pow2(8 * k - 6) == 4 * Pow2(8 * k - 8);
      }
      assert Pow2(8 * k) == 16 * Pow2(8 * k - 4) by {
        assert Pow2(8 * k - 2) == 4 * Pow2(8 * k - 4);
      }
    }
  }

  lemma {:induction false} ValueOfPadded(n: nat, bs: Bytes)
    ensures BigEndian(Zeros(n) + bs) == BigEndian(bs)
  {
    if bs != [] {
      ValueOfPadded(n, bs[..|bs| - 1]);
      assert (Zeros(n) + bs)[..n + |bs| - 1] == Zeros(n) + bs[..|bs| - 1];
    } else if n > 0 {
      ValueOfPadded(n - 1, []);
      assert (Zeros(n) + [])[..n - 1] == Zeros(n - 1) + [];
    }
  }

  // The most significant byte comes first.
  lemma {:induction false} BigEndianConcat(a: Bytes, b: Bytes)
    ensures BigEndian(a + b) == BigEndian(a) * Pow256(|b|) + BigEndian(b)
    ensures forall x: Byte :: BigEndian([x]) == x
  {
    if b == [] {
      assert a + b == a;
    } else {
      var n := |b| - 1;
      BigEndianConcat(a, b[..n]);
      assert (a + b)[..|a| + n] == a + b[..n];
      Regroup(BigEndian(a), Pow256(n), BigEndian(b[..n]));
      assert BigEndian(a) * (256 * Pow256(n)) == BigEndian(a) * 256 * Pow256(n);
    }
  }

  lemma {:induction false} ValueBound(bs: Bytes)
    ensures BigEndian(bs) < Pow256(|bs|)
  {
    if bs != [] {
      ValueBound(bs[..|bs| - 1]);
    }
  }

  // Words of one length have different values.
  lemma {:induction false} SameValueSameBytes(a: Bytes, b: Bytes)
    requires |a| == |b| && BigEndian(a) == BigEndian(b)
    ensures a == b
  {
    if a != [] {
      var n := |a| - 1;
      assert a[n] == BigEndian(a) % 256 && b[n] == BigEndian(b) % 256;
      SameValueSameBytes(a[..n], b[..n]);
      assert a == a[..n] + [a[n]] && b == b[..n] + [b[n]];
    }
  }

  lemma MulMod(q: nat, p: nat, r: nat)
    requires p > 0 && r < p
    ensures (q * p + r) % p == r && (q * p + r) / p == q
  {
    var n := q * p + r;
    var d := n / p - q;
    assert n == (n / p) * p + n % p;
    assert d * p == (n / p) * p - q * p;
    assert d >= 1 ==> d * p >= p;
    assert d <= -1 ==> d * p <= 0 - p;
  }

  lemma SplitMod(n: nat, p: nat)
    requires p > 0
    ensures n % (256 * p) == n / 256 % p * 256 + n % 256
  {
    var q, r := n / 256 / p, n / 256 % p;
    assert n / 256 == q * p + r;
    assert q * (256 * p) == 256 * (q * p);
    MulMod(q, 256 * p, r * 256 + n % 256);
  }

  lemma DropMultiple(k: nat, m: nat, y: nat)
    requires m > 0
    ensures (k * m + y) % m == y % m
  {
    var q, r := y / m, y % m;
    assert (k + q) * m == k * m + q * m;
    MulMod(k + q, m, r);
  }

  // Reducing early does not change the remainder.
  lemma ShiftMod(v: nat, b: nat, m: nat)
    requires m > 0
    ensures (v % m * 256 % m + b) % m == (v * 256 + b) % m
  {
    var x := v % m * 256;
    var k := v / m * 256;
    Regroup(v / m, m, v % m);
    DropMultiple(k, m, x + b);
    DropMultiple(x / m, m, x % m + b);
    assert k * m + (x + b) == v * 256 + b;
    assert x / m * m + (x % m + b) == x + b;
  }

  lemma Regroup(q: int, m: int, r: int)
    ensures (q * m + r) * 256 == q * 256 * m + r * 256
  {
    assert q * m * 256 == q * 256 * m;
  }

  // Taking the low bytes is reduction modulo a power of 256.
  lemma {:induction false} ValueOfLowBytes(n: nat, k: nat)
    ensures BigEndian(LowBytes(n, k)) == n % Pow256(k)
  {
    if k > 0 {
      var p := Pow256(k - 1);
      ValueOfLowBytes(n / 256, k - 1);
      assert LowBytes(n, k)[..k - 1] == LowBytes(n / 256, k - 1);
      SplitMod(n, p);
    }
  }

  // ---- Go's uint64 --------------------------------------------------------------------------

  lemma Pow256Of8()
    ensures Pow256(8) == TWO_64
  {
    assert Pow256(4) == 0x1_0000_0000 by { assert Pow256(2) == 0x1_0000; }
    assert Pow256(6) == 0x1_0000_0000_0000;
  }

  lemma Pow256Of4()
    ensures Pow256(4) == 0x1_0000_0000
  {
    assert Pow256(2) == 0x1_0000;
  }

  // EVMBytesToUint64 wraps: it is the big-endian value modulo 2^64 of a buffer of any length.
  method EVMBytesToUint64(buf: Bytes) returns (result: nat)
    ensures result == BigEndian(buf) % TWO_64
  {
    result := 0;
    for i := 0 to |buf|
      invariant result == BigEndian(buf[..i]) % TWO_64
    {
      assert buf[..i + 1][..i] == buf[..i];
      ShiftMod(BigEndian(buf[..i]), buf[i], TWO_64);
      result := (result * 256 % TWO_64 + buf[i]) % TWO_64;
    }
    assert buf[..|buf|] == buf;
  }

  // ---- Words --------------------------------------------------------------------------------

  datatype Result = Ok(word: Bytes) | Err

  const WORD_LIMIT := Pow256(EVM_WORD_BYTE_LEN)   // 2^256
  const MAX_UINT256 := WORD_LIMIT - 1

  // The number a word stands for as an int256.
  function Signed(word: Bytes): int {
    var n := BigEndian(word);
    if n < Pow2(255) then n else n - WORD_LIMIT
  }

  // binary.BigEndian.PutUint64(b[start:], val).
  method PutUint64(b: array<Byte>, start: nat, val: nat)
    requires start + 8 <= b.Length && val < TWO_64
    modifies b
    ensures b[..] == old(b[..start]) + LowBytes(val, 8) + old(b[start + 8..])
  {
    forall i | 0 <= i < 8 {
      b[start + i] := LowBytes(val, 8)[i];
    }
  }

  method PutUint32(b: array<Byte>, start: nat, val: nat)
    requires start + 4 <= b.Length && val < 0x1_0000_0000
    modifies b
    ensures b[..] == old(b[..start]) + LowBytes(val, 4) + old(b[start + 4..])
  {
    forall i | 0 <= i < 4 {
      b[start + i] := LowBytes(val, 4)[i];
    }
  }

  // The requires are the types of the parameters.
  method EVMWordUint64(val: nat) returns (word: Bytes)
    requires val < TWO_64
    ensures |word| == EVM_WORD_BYTE_LEN && BigEndian(word) == val
    ensures word[..24] == Zeros(24)
  {
    hide LowBytes, BigEndian, Pow256;
    var buffer := new Byte[EVM_WORD_BYTE_LEN](_ => 0);
    assert buffer[..24] == Zeros(24) && buffer[32..] == [];
    PutUint64(buffer, EVM_WORD_BYTE_LEN - 8, val);
    word := buffer[..];
    assert word == Zeros(24) + LowBytes(val, 8);
    ValueOfPadded(24, LowBytes(val, 8));
    ValueOfLowBytes(val, 8);
    Pow256Of8();
  }

  method Uint64RoundTrip(val: nat) returns (back: nat)
    requires val < TWO_64
    ensures back == val
  {
    var word := EVMWordUint64(val);
    back := EVMBytesToUint64(word);
  }

  method EVMWordUint32(val: nat) returns (word: Bytes)
    requires val < 0x1_0000_0000
    ensures |word| == EVM_WORD_BYTE_LEN && BigEndian(word) == val
  {
    hide LowBytes, BigEndian, Pow256;
    var buffer := new Byte[EVM_WORD_BYTE_LEN](_ => 0);
    assert buffer[..28] == Zeros(28) && buffer[32..] == [];
    PutUint32(buffer, EVM_WORD_BYTE_LEN - 4, val);
    word := buffer[..];
    assert word == Zeros(28) + LowBytes(val, 4);
    ValueOfPadded(28, LowBytes(val, 4));
    ValueOfLowBytes(val, 4);
    Pow256Of4();
  }

  function EVMWordUint128(val: int): Result {
    if BitLen(Abs(val)) > 128 then Err
    else if val < 0 then Err
    else Ok(LeftPad(BytesOf(Abs(val)), EVM_WORD_BYTE_LEN))
  }

  function EVMWordSignedBigInt(val: int): Result {
    if BitLen(Abs(val)) > 8 * EVM_WORD_BYTE_LEN - 1 then Err
    else
      var bytes := if val < 0 then BytesOf(Abs(val + MAX_UINT256 + 1)) else BytesOf(val);
      Ok(LeftPad(bytes, EVM_WORD_BYTE_LEN))
  }

  function EVMWordBigInt(val: int): Result {
    if val < 0 then Err
    else
      var bytes := BytesOf(val);
      if |bytes| > EVM_WORD_BYTE_LEN then Err else Ok(LeftPad(bytes, EVM_WORD_BYTE_LEN))
  }

  lemma Limits()
    ensures WORD_LIMIT == 2 * Pow2(255)
    ensures Pow2(128) <= WORD_LIMIT
  {
    BytesAreBits(32);
    BytesAreBits(16);
    Pow256Grows(16, 32);
  }

  lemma {:induction false} Pow256Grows(a: nat, b: nat)
    requires a <= b
    ensures Pow256(a) <= Pow256(b)
    decreases b
  {
    if a < b { Pow256Grows(a, b - 1); }
  }

  // A natural number below 2^256 padded to a word.
  lemma PaddedWord(n: nat)
    requires n < WORD_LIMIT
    ensures |LeftPad(BytesOf(n), EVM_WORD_BYTE_LEN)| == EVM_WORD_BYTE_LEN
    ensures BigEndian(LeftPad(BytesOf(n), EVM_WORD_BYTE_LEN)) == n
  {
    hide BytesOf, BigEndian, Pow256;
    LengthOfBytes(n, EVM_WORD_BYTE_LEN);
    ValueOfBytes(n);
    ValueOfPadded(EVM_WORD_BYTE_LEN - |BytesOf(n)|, BytesOf(n));
  }

  // Unsigned words: accepted exactly on 0..2^256-1, and then the word's value is the number.
  lemma UnsignedWord(val: int)
    ensures EVMWordBigInt(val).Ok? <==> 0 <= val < WORD_LIMIT
    ensures EVMWordBigInt(val).Ok? ==>
              |EVMWordBigInt(val).word| == EVM_WORD_BYTE_LEN && BigEndian(EVMWordBigInt(val).word) == val
  {
    hide BytesOf, LeftPad, BigEndian;
    if val >= 0 {
      LengthOfBytes(val, EVM_WORD_BYTE_LEN);
      if val < WORD_LIMIT { PaddedWord(val); }
    }
  }

  lemma Uint128Word(val: int)
    ensures EVMWordUint128(val).Ok? <==> 0 <= val < Pow2(128)
    ensures EVMWordUint128(val).Ok? ==> EVMWordUint128(val) == EVMWordBigInt(val)
  {
    hide BytesOf, LeftPad, BitLen, Pow256, Pow2;
    BitLenBound(Abs(val), 128);
    Limits();
    if 0 <= val < Pow2(128) { UnsignedWord(val); }
  }

  // Signed words: accepted exactly when the magnitude is below 2^255, and then the word has 32
  // bytes that stand for the number in two's complement.
  lemma SignedWord(val: int)
    ensures EVMWordSignedBigInt(val).Ok? <==> 0 - Pow2(255) < val < Pow2(255)
    ensures EVMWordSignedBigInt(val).Ok? ==>
              |EVMWordSignedBigInt(val).word| == EVM_WORD_BYTE_LEN && Signed(EVMWordSignedBigInt(val).word) == val
  {
    hide BytesOf, LeftPad, BitLen, BigEndian, Pow256, Pow2;
    BitLenBound(Abs(val), 255);
    Limits();
    if Abs(val) < Pow2(255) {
      PaddedWord(if val < 0 then val + WORD_LIMIT else val);
    }
  }

  // Different numbers never share a word; on 0..2^255-1 both encodings are the same bytes.
  lemma WordsAreDistinct(v: int, w: int)
    ensures EVMWordSignedBigInt(v).Ok? && EVMWordSignedBigInt(v) == EVMWordSignedBigInt(w) ==> v == w
    ensures EVMWordBigInt(v).Ok? && EVMWordBigInt(v) == EVMWordBigInt(w) ==> v == w
  {
    hide EVMWordSignedBigInt, EVMWordBigInt;
    SignedWord(v);
    SignedWord(w);
    UnsignedWord(v);
    UnsignedWord(w);
  }

  lemma EncodingsAgree(val: int)
    ensures 0 <= val < Pow2(255) <==>
              EVMWordSignedBigInt(val).Ok? && EVMWordSignedBigInt(val) == EVMWordBigInt(val)
  {
    hide BytesOf, LeftPad, BitLen, BigEndian, Pow256, Pow2;
    SignedWord(val);
    UnsignedWord(val);
    Limits();
  }

  lemma {:induction false} ValueOfOnes(k: nat)
    ensures BigEndian(seq(k, _ => 255)) == Pow256(k) - 1
  {
    if k > 0 {
      ValueOfOnes(k - 1);
      assert seq<Byte>(k, _ => 255)[..k - 1] == seq<Byte>(k - 1, _ => 255);
    }
  }

  // Minus one is the word of all ones.
  lemma MinusOne()
    ensures EVMWordSignedBigInt(-1) == Ok(seq(32, _ => 255))
  {
    hide EVMWordSignedBigInt, BigEndian, Pow256, Pow2;
    BitLenBound(1, 255);
    SignedWord(-1);
    Limits();
    ValueOfOnes(32);
    TwoToThe255();
    SameValueSameBytes(EVMWordSignedBigInt(-1).word, seq(32, _ => 255));
  }

  lemma TwoToThe255()
    ensures Pow2(255) > 1
  {
    assert Pow2(255) == 2 * Pow2(254);
  }

  // The one int256 that has a word but is refused: the magnitude test turns away -2^255, although
  // some word stands for it.
  lemma MinInt256IsRefused()
    ensures EVMWordSignedBigInt(0 - Pow2(255)) == Err
    ensures exists word: Bytes :: |word| == EVM_WORD_BYTE_LEN && Signed(word) == 0 - Pow2(255)
  {
    hide EVMWordSignedBigInt, EVMWordBigInt, Pow2, Pow256, BigEndian;
    SignedWord(0 - Pow2(255));
    Limits();
    UnsignedWord(Pow2(255));
    var word := EVMWordBigInt(Pow2(255)).word;
    assert |word| == EVM_WORD_BYTE_LEN && Signed(word) == 0 - Pow2(255);
  }

  // ---- Byte strings -------------------------------------------------------------------------

  function RoundToEVMWordBorder(length: nat): nat {
    var mod := length % EVM_WORD_BYTE_LEN;
    if mod == 0 then 0 else EVM_WORD_BYTE_LEN - mod
  }

  // A Go slice is shorter than 2^63.
  method EVMEncodeBytes(input: Bytes) returns (encoded: Bytes)
    requires |input| < 0x8000_0000_0000_0000
    ensures IsEncoding(encoded, input)
    ensures |encoded| == 32 + 32 * WordsFor(|input|)
    ensures BigEndian(encoded[..32]) == |input| && encoded[32..32 + |input|] == input
    ensures forall i :: 32 + |input| <= i < |encoded| ==> encoded[i] == 0
  {
    hide BigEndian, Zeros, WordsFor, RoundToEVMWordBorder;
    var length := EVMWordUint64(|input|);
    encoded := length + input + Zeros(RoundToEVMWordBorder(|input|));
    EncodingParts(length, input, encoded);
  }

  // The number of whole words for n bytes.
  function WordsFor(n: nat): nat { (n + 31) / 32 }

  lemma RoundsUp(n: nat, m: nat)
    requires m == 32 + n + RoundToEVMWordBorder(n)
    ensures RoundToEVMWordBorder(n) < 32 && m % EVM_WORD_BYTE_LEN == 0
    ensures n + RoundToEVMWordBorder(n) == 32 * WordsFor(n)
  {
  }

  lemma EncodingParts(length: Bytes, input: Bytes, encoded: Bytes)
    requires |length| == 32 && BigEndian(length) == |input|
    requires encoded == length + input + Zeros(RoundToEVMWordBorder(|input|))
    ensures IsEncoding(encoded, input)
    ensures |encoded| == 32 + 32 * WordsFor(|input|)
    ensures BigEndian(encoded[..32]) == |input| && encoded[32..32 + |input|] == input
    ensures forall i :: 32 + |input| <= i < |encoded| ==> encoded[i] == 0
  {
    hide BigEndian, RoundToEVMWordBorder, WordsFor;
    var r := RoundToEVMWordBorder(|input|);
    RoundsUp(|input|, |encoded|);
    assert |encoded| - 32 - |input| == r;
    assert encoded[..32] == length;
    assert encoded[32..32 + |input|] == input;
    assert encoded[32 + |input|..] == Zeros(r);
    assert forall i :: 32 + |input| <= i < |encoded| ==> encoded[i] == encoded[32 + |input|..][i - 32 - |input|];
  }

  // The length as a word, the bytes, and the fewest zeros that complete the last word.
  predicate IsEncoding(encoded: Bytes, input: Bytes) {
    && |encoded| >= 32 + |input| && |encoded| % EVM_WORD_BYTE_LEN == 0 && |encoded| < 64 + |input|
    && BigEndian(encoded[..32]) == |input|
    && encoded[32..32 + |input|] == input
    && encoded[32 + |input|..] == Zeros(|encoded| - 32 - |input|)
  }

  // Reading the length word with EVMBytesToUint64, and that many bytes after it.
  method DecodeBytes(buf: Bytes) returns (output: Bytes)
    requires |buf| >= 32
    ensures forall input, encoded ::
              (|input| < TWO_64 && encoded <= buf && IsEncoding(encoded, input) ==> output == input)
  {
    var length := EVMBytesToUint64(buf[..32]);
    output := if 32 + length <= |buf| then buf[32..32 + length] else [];
    forall input: Bytes, encoded: Bytes | |input| < TWO_64 && encoded <= buf && IsEncoding(encoded, input)
      ensures output == input
    {
      assert buf[..32] == encoded[..32];
      assert buf[32..32 + |input|] == encoded[32..32 + |input|];
    }
  }

  // No encoding begins another one, so encodings can be concatenated.
  lemma EncodingsArePrefixFree(a: Bytes, b: Bytes, x: Bytes, y: Bytes)
    requires IsEncoding(a, x) && IsEncoding(b, y) && a <= b
    ensures x == y && a == b
  {
    assert a[..32] == b[..32];
    assert a[32..32 + |x|] == b[32..32 + |y|];
    assert a == a[..32] + x + a[32 + |x|..];
    assert b == b[..32] + y + b[32 + |y|..];
  }
}
