/** Machine words as bounded integers, and the bitwise OR used to build page-table entries. */
module Words {

  const TWO_32: nat := 0x1_0000_0000
  const TWO_52: nat := 0x10_0000_0000_0000
  const TWO_64: nat := 0x1_0000_0000_0000_0000

  type U8 = x: int | 0 <= x < 0x100
  type U16 = x: int | 0 <= x < 0x1_0000
  type U32 = x: int | 0 <= x < 0x1_0000_0000
  type U64 = x: int | 0 <= x < 0x1_0000_0000_0000_0000

  /** `x++` and `x--` on an unsigned 32-bit variable. */
  function Inc32(x: U32): U32 {
    if x == 0xFFFF_FFFF then 0 else x + 1
  }

  function Dec32(x: U32): U32 {
    if x == 0 then 0xFFFF_FFFF else x - 1
  }

  datatype Option<+T> = None | Some(value: T) {
    function UnwrapOr(default: T): T {
      if Some? then value else default
    }
  }

  function Pow2(k: nat): (r: nat)
    ensures r > 0
  {
    if k == 0 then 1 else 2 * Pow2(k - 1)
  }

  function Shr(x: nat, k: nat): nat {
    if k == 0 then x else Shr(x / 2, k - 1)
  }

  predicate Bit(x: nat, k: nat) {
    Shr(x, k) % 2 == 1
  }

  /** C's `x | y` on non-negative operands, bit by bit from the low end. */
  function BitOr(x: nat, y: nat): nat
    decreases x + y
  {
    if x == 0 && y == 0 then 0
    else (if x % 2 == 1 || y % 2 == 1 then 1 else 0) + 2 * BitOr(x / 2, y / 2)
  }

  lemma {:induction false} BitOrBit(x: nat, y: nat, k: nat)
    ensures Bit(BitOr(x, y), k) <==> Bit(x, k) || Bit(y, k)
    decreases k
  {
    if k == 0 {
    } else if x == 0 && y == 0 {
    } else {
      BitOrBit(x / 2, y / 2, k - 1);
      assert BitOr(x, y) / 2 == BitOr(x / 2, y / 2);
    }
  }

  /** A power of two has exactly one bit. */
  lemma {:induction false} Pow2Bit(n: nat, k: nat)
    ensures Bit(Pow2(n), k) <==> k == n
    decreases n
  {
    if n == 0 {
      if k != 0 {
        ZeroBit(k - 1);
      }
    } else if k != 0 {
      Pow2Bit(n - 1, k - 1);
    }
  }

  lemma {:induction false} ZeroBit(k: nat)
    ensures !Bit(0, k)
    decreases k
  {
    if k != 0 {
      ZeroBit(k - 1);
    }
  }

  lemma {:induction false} BitOrZero(x: nat)
    ensures BitOr(x, 0) == x
  {
    if x != 0 {
      BitOrZero(x / 2);
    }
  }

  /** When `y` fits below bit `k` and `x` has no bit below `k`, OR is addition. */
  lemma {:induction false} BitOrDisjoint(a: nat, y: nat, k: nat)
    requires y < Pow2(k)
    ensures BitOr(a * Pow2(k), y) == a * Pow2(k) + y
    decreases k
  {
    if k == 0 {
      BitOrZero(a);
    } else {
      var h := a * Pow2(k - 1);
      assert a * Pow2(k) == 2 * h;
      BitOrDisjoint(a, y / 2, k - 1);
      assert BitOr(2 * h, y) == y % 2 + 2 * BitOr(h, y / 2);
    }
  }

  lemma {:induction false} BitOrBound(x: nat, y: nat, k: nat)
    requires x < Pow2(k) && y < Pow2(k)
    ensures BitOr(x, y) < Pow2(k)
    decreases k
  {
    if k != 0 {
      BitOrBound(x / 2, y / 2, k - 1);
    }
  }

  lemma Pow2Values()
    ensures Pow2(12) == 0x1000 && Pow2(21) == 0x20_0000 && Pow2(52) == TWO_52 && Pow2(64) == TWO_64
  {
    assert Pow2(12) == 0x1000;
    assert Pow2(21) == 0x20_0000;
    assert Pow2(28) == 0x10000000;
    assert Pow2(36) == 0x1000000000;
    assert Pow2(44) == 0x100000000000;
    assert Pow2(52) == 0x10000000000000;
    assert Pow2(58) == 0x400000000000000;
    assert Pow2(64) == TWO_64;
  }
}
