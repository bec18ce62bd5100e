/**
 * The value mask: bit `i` says whether the schema's `i`-th field is present.
 * The source tests a bit with `vmask & 2 ** i`; JavaScript truncates both
 * operands of `&` to 32 bits, so a bit position of 32 or more never tests set.
 */
module Mask {

  function Pow2(i: nat): (p: nat)
    ensures p > 0
  {
    if i == 0 then 1 else 2 * Pow2(i - 1)
  }

  /** Bit `i` of a non-negative integer, least significant bit first. */
  predicate Bit(m: nat, i: nat) {
    if i == 0 then m % 2 == 1 else Bit(m / 2, i - 1)
  }

  /** `ToInt32` keeps the low 32 bits of the mask. */
  const MaskModulus: nat := 0x1_0000_0000

  /** `vmask & 2 ** i` is non-zero. */
  predicate MaskBit(mask: nat, i: nat)
    ensures MaskBit(mask, i) ==> i < 32
  {
    i < 32 && Bit(mask % MaskModulus, i)
  }

  /** The mask whose bit `i` is `bs[i]`. */
  function FromBits(bs: seq<bool>): (mask: nat) {
    if bs == [] then 0 else (if bs[0] then 1 else 0) + 2 * FromBits(bs[1..])
  }

  lemma {:induction false} BitOfZero(i: nat)
    ensures !Bit(0, i)
  {
    if i > 0 {
      BitOfZero(i - 1);
    }
  }

  /** A zero mask selects nothing. */
  lemma ZeroMaskSelectsNothing(i: nat)
    ensures !MaskBit(0, i)
  {
    BitOfZero(i);
  }

  lemma {:induction false} BitOfFromBits(bs: seq<bool>, i: nat)
    ensures Bit(FromBits(bs), i) == (i < |bs| && bs[i])
  {
    if bs == [] {
      BitOfZero(i);
    } else {
      var b := if bs[0] then 1 else 0;
      var rest := FromBits(bs[1..]);
      Halve(b, rest);
      if i > 0 {
        BitOfFromBits(bs[1..], i - 1);
      }
    }
  }

  lemma Halve(b: nat, x: nat)
    requires b < 2
    ensures (b + 2 * x) / 2 == x && (b + 2 * x) % 2 == b
  {
  }

  lemma {:induction false} FromBitsBound(bs: seq<bool>)
    ensures FromBits(bs) < Pow2(|bs|)
  {
    if bs != [] {
      FromBitsBound(bs[1..]);
    }
  }

  lemma {:induction false} Pow2Monotonic(i: nat, j: nat)
    requires i <= j
    ensures Pow2(i) <= Pow2(j)
  {
    if i < j {
      Pow2Monotonic(i, j - 1);
    }
  }

  lemma {:induction false} Pow2Add(i: nat, j: nat)
    ensures Pow2(i + j) == Pow2(i) * Pow2(j)
  {
    if j > 0 {
      Pow2Add(i, j - 1);
    }
  }

  /** The mask modulus is `2 ** 32`. */
  lemma Pow2Of32()
    ensures Pow2(32) == MaskModulus
  {
    assert Pow2(4) == 16;
    Pow2Add(4, 4);
    Pow2Add(8, 8);
    Pow2Add(16, 16);
  }

  lemma SmallModulo(x: nat, n: nat)
    requires x < n
    ensures x % n == x
  {
  }

  /** A mask built from at most 32 presence bits tests set exactly at those bits. */
  lemma MaskBitOfFromBits(bs: seq<bool>, i: nat)
    requires |bs| <= 32
    ensures MaskBit(FromBits(bs), i) == (i < |bs| && bs[i])
  {
    var m := FromBits(bs);
    FromBitsBound(bs);
    Pow2Monotonic(|bs|, 32);
    Pow2Of32();
    SmallModulo(m, MaskModulus);
    BitOfFromBits(bs, i);
  }
}
