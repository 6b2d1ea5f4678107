/** Shared value types: optional values and the unsigned words of the firmware. */
module Common {

  datatype Option<+T> = None | Some(value: T)

  /** Number of values of an unsigned 32-bit word. */
  const TWO_TO_32: int := 0x1_0000_0000

  /** The firmware's UINT32. */
  type u32 = x: int | 0 <= x < TWO_TO_32

  type byte = bv8

  /** Unsigned 32-bit wrap-around of any integer result. */
  function Wrap32(x: int): u32 { x % TWO_TO_32 }

  lemma WrapSmall(x: u32)
    ensures Wrap32(x) == x
  {
  }

  /** An offset that stays below the wrap point is reached without wrapping again. */
  lemma WrapAdd(x: int, i: nat)
    requires Wrap32(x) + i < TWO_TO_32
    ensures Wrap32(x + i) == Wrap32(x) + i
  {
    var q := x / TWO_TO_32;
    assert x + i == q * TWO_TO_32 + (Wrap32(x) + i);
  }

  /** Wrapping an operand first does not change a wrapped sum. */
  lemma WrapSum(x: int, y: int)
    ensures Wrap32(Wrap32(x) + y) == Wrap32(x + y)
  {
    var q := x / TWO_TO_32;
    assert x + y == q * TWO_TO_32 + (Wrap32(x) + y);
  }
}
