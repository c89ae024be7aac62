/**
 * Bits of unsigned integers. Rows of the well (`u16`) are integers here and
 * their `|` is `BitOr`; a waveform (`u64`) is the set of positions of its set
 * bits, so `&`, `|` and `x & !y` are `*`, `+` and `-` on sets, and the shifts
 * are the two functions at the end, which keep positions 0 to 63 only.
 */
module Bits {

  function Pow2(k: nat): (p: nat)
    ensures p > 0
  {
    if k == 0 then 1 else 2 * Pow2(k - 1)
  }

  /** Bit `k` of `n`, counting from the least significant. */
  function Bit(n: nat, k: nat): bool
    decreases k
  {
    if k == 0 then n % 2 == 1 else Bit(n / 2, k - 1)
  }

  /** Bitwise or of two unsigned integers. */
  function BitOr(a: nat, b: nat): nat
    decreases a + b
  {
    if a == 0 then b
    else if b == 0 then a
    else 2 * BitOr(a / 2, b / 2) + (if a % 2 == 1 || b % 2 == 1 then 1 else 0)
  }

  lemma {:induction false} BitOfZero(k: nat)
    ensures !Bit(0, k)
    decreases k
  {
    if k > 0 { BitOfZero(k - 1); }
  }

  /** A bit of `a | b` is set exactly when it is set in `a` or in `b`. */
  lemma {:induction false} BitOrBits(a: nat, b: nat, k: nat)
    ensures Bit(BitOr(a, b), k) == (Bit(a, k) || Bit(b, k))
    decreases k
  {
    if a == 0 {
      BitOfZero(k);
    } else if b == 0 {
      BitOfZero(k);
    } else if k > 0 {
      var r := BitOr(a, b);
      assert r / 2 == BitOr(a / 2, b / 2);
      BitOrBits(a / 2, b / 2, k - 1);
    }
  }

  /** `a | b` of two `w`-bit numbers is a `w`-bit number. */
  lemma {:induction false} BitOrBound(a: nat, b: nat, w: nat)
    requires a < Pow2(w) && b < Pow2(w)
    ensures BitOr(a, b) < Pow2(w)
    decreases w
  {
    if a != 0 && b != 0 {
      BitOrBound(a / 2, b / 2, w - 1);
    }
  }

  lemma Pow2Sixteen()
    ensures Pow2(10) == 1024 && Pow2(16) == 65536
  {
    assert Pow2(5) == 32;
    assert Pow2(10) == 1024;
  }

  /** `u16` bitwise or. */
  function RowOr(a: nat, b: nat): (r: nat)
    requires a < 0x1_0000 && b < 0x1_0000
    ensures r < 0x1_0000
    ensures forall k :: Bit(r, k) == (Bit(a, k) || Bit(b, k))
  {
    Pow2Sixteen();
    BitOrBound(a, b, 16);
    forall k ensures Bit(BitOr(a, b), k) == (Bit(a, k) || Bit(b, k)) {
      BitOrBits(a, b, k);
    }
    BitOr(a, b)
  }

  predicate MovedUp(w: set<nat>, k: nat, y: nat) { k <= y && y - k in w }

  predicate MovedDown(w: set<nat>, k: nat, y: nat) { y + k < 64 && y + k in w }

  /** `w << k` on a `u64`: every position moves up by `k`, those past 63 are lost. */
  function ShiftLeft(w: set<nat>, k: nat): set<nat>
  {
    set y: nat | y < 64 && MovedUp(w, k, y)
  }

  /** `w >> k` on a `u64`: every position moves down by `k`, those below `k` are lost. */
  function ShiftRight(w: set<nat>, k: nat): set<nat>
  {
    set y: nat | y < 64 && MovedDown(w, k, y)
  }
}
