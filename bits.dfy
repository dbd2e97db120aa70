/** Java's bitwise `|` and `&` on the non-negative masks the GATT API uses
    (characteristic properties and permissions). */
module Bits {

  /** `a | b` for non-negative operands, bit by bit from the lowest bit. */
  function BitOr(a: nat, b: nat): nat
  {
    if a == 0 then b
    else if b == 0 then a
    else 2 * BitOr(a / 2, b / 2) + (if a % 2 == 1 || b % 2 == 1 then 1 else 0)
  }

  /** `a & b` for non-negative operands, bit by bit from the lowest bit. */
  function BitAnd(a: nat, b: nat): nat
  {
    if a == 0 || b == 0 then 0
    else 2 * BitAnd(a / 2, b / 2) + (if a % 2 == 1 && b % 2 == 1 then 1 else 0)
  }

  /** OR never clears a bit: the result is at least each operand. */
  lemma {:induction false} BitOrCoversOperands(a: nat, b: nat)
    ensures BitOr(a, b) >= a && BitOr(a, b) >= b
  {
    if a != 0 && b != 0 {
      BitOrCoversOperands(a / 2, b / 2);
    }
  }

  /** The test `(mask | FLAG) > 0` holds for every non-negative mask as soon
      as FLAG is positive: it cannot tell whether the mask has FLAG. */
  lemma OrTestAlwaysHolds(mask: nat, flag: nat)
    requires flag > 0
    ensures BitOr(mask, flag) > 0
  {
    BitOrCoversOperands(mask, flag);
  }

  /** A mask ANDed with itself is unchanged, so `(FLAG & FLAG) > 0` for a
      positive FLAG: the AND test does see a flag that is set. */
  lemma {:induction false} BitAndIdempotent(a: nat)
    ensures BitAnd(a, a) == a
  {
    if a != 0 {
      BitAndIdempotent(a / 2);
    }
  }
}
