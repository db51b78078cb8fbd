/** Sets of small numbers as masks: a mask is the number its bits spell, read and set by halving. */
module Bitmask {
  /** The mask shifted right by k bits. */
  function Shr(m: nat, k: nat): nat {
    if k == 0 then m else Shr(m / 2, k - 1)
  }

  /** Bit v of the mask is set. */
  predicate Has(m: nat, v: nat) {
    if v == 0 then m % 2 == 1 else Has(m / 2, v - 1)
  }

  /** The mask with bit v set as well. */
  function With(m: nat, v: nat): nat {
    if v == 0 then m / 2 * 2 + 1 else 2 * With(m / 2, v - 1) + m % 2
  }

  lemma {:induction false} WithBit(m: nat, v: nat, i: nat)
    ensures Has(With(m, v), i) <==> i == v || Has(m, i)
  {
    if v > 0 && i > 0 {
      WithBit(m / 2, v - 1, i - 1);
    }
  }

  lemma {:induction false} ZeroIsEmpty(v: nat)
    ensures !Has(0, v)
  {
    if v > 0 {
      ZeroIsEmpty(v - 1);
    }
  }

  lemma {:induction false} ShrBit(m: nat, a: nat, v: nat)
    ensures Has(Shr(m, a), v) <==> Has(m, a + v)
  {
    if a > 0 {
      ShrBit(m / 2, a - 1, v);
    }
  }

  /** The number of zero bits below the lowest set bit. */
  function TrailingZeros(m: nat): nat
    requires m > 0
  {
    if m % 2 == 1 then 0 else 1 + TrailingZeros(m / 2)
  }

  lemma {:induction false} TrailingZerosIsLowest(m: nat, v: nat)
    requires m > 0
    ensures Has(m, TrailingZeros(m))
    ensures v < TrailingZeros(m) ==> !Has(m, v)
  {
    if m % 2 == 0 {
      TrailingZerosIsLowest(m / 2, if v > 0 then v - 1 else 0);
    }
  }

  /** The shifted search for the lowest set bit strictly above `after`; -1 when the shifted mask is empty. */
  function NextSet(m: nat, after: nat): int {
    if after >= 63 then -1
    else
      var high := Shr(m, after + 1);
      if high == 0 then -1 else after + 1 + TrailingZeros(high)
  }

  /** r is the least bit of the mask above `after`, and -1 means there is none. */
  ghost predicate IsNextSet(m: nat, after: nat, r: int) {
    if r == -1 then forall v: nat :: after < v ==> !Has(m, v)
    else after < r < 64 && Has(m, r) && forall v: nat :: after < v < r ==> !Has(m, v)
  }

  lemma NextSetIsNext(m: nat, after: nat)
    requires forall v: nat :: Has(m, v) ==> v < 64
    ensures IsNextSet(m, after, NextSet(m, after))
  {
    if after < 63 {
      var high, r := Shr(m, after + 1), NextSet(m, after);
      forall v: nat | after < v && (r == -1 || v < r) ensures !Has(m, v) {
        ShrBit(m, after + 1, v - after - 1);
        if high == 0 { ZeroIsEmpty(v - after - 1); } else { TrailingZerosIsLowest(high, v - after - 1); }
      }
      if high != 0 {
        TrailingZerosIsLowest(high, 0);
        ShrBit(m, after + 1, TrailingZeros(high));
      }
    }
  }

  /** The lowest set bit of a 64-bit mask, or -1. */
  method First(m: nat) returns (r: int)
    requires forall v: nat :: Has(m, v) ==> v < 64
    ensures r == -1 || (0 <= r < 64 && Has(m, r))
    ensures forall v: nat :: Has(m, v) ==> 0 <= r <= v
  {
    var i := 0;
    while i < 64
      invariant 0 <= i <= 64
      invariant forall v: nat :: v < i ==> !Has(m, v)
    {
      if Has(m, i) { return i; }
      i := i + 1;
    }
    return -1;
  }
}
