// Small notions that several components share.
module Basics {

  datatype Option<T> = None | Some(value: T)

  predicate IsDigit(c: char) { '0' <= c <= '9' }

  predicate AllDigits(s: string) { forall i :: 0 <= i < |s| ==> IsDigit(s[i]) }

  function Bit(b: bool): nat { if b then 1 else 0 }

  function Abs(i: int): nat { if i < 0 then -i else i }

  const TWO_63 := 0x8000_0000_0000_0000
  const TWO_64 := 0x1_0000_0000_0000_0000
}
