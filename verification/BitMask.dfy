/** The occupancy mask of a wheel level: a 64-bit word read as its binary digits, and
    the word instructions the wheel leans on, each defined digit by digit. */
module BitMask {

  function Pow2(n: nat): (p: nat)
    ensures p > 0
  {
    if n == 0 then 1 else 2 * Pow2(n - 1)
  }

  /** `m` fits in a word of `n` bits. */
  predicate Fits(m: nat, n: nat) {
    m < Pow2(n)
  }

  /** `m & (1 << i) != 0`. */
  predicate Has(m: nat, i: nat)
    decreases i
  {
    if i == 0 then m % 2 == 1 else Has(m / 2, i - 1)
  }

  /** `m | (1 << i)`. */
  function With(m: nat, i: nat): nat
    decreases i
  {
    if i == 0 then m - m % 2 + 1 else 2 * With(m / 2, i - 1) + m % 2
  }

  /** `m & !(1 << i)`. */
  function Without(m: nat, i: nat): nat
    decreases i
  {
    if i == 0 then m - m % 2 else 2 * Without(m / 2, i - 1) + m % 2
  }

  lemma Halves(x: nat, b: nat)
    requires b < 2
    ensures (2 * x + b) / 2 == x && (2 * x + b) % 2 == b
  {
  }

  /** Setting bit `i` sets that bit and no other. */
  lemma {:induction false} WithSetsOneBit(m: nat, i: nat, j: nat)
    ensures Has(With(m, i), j) <==> i == j || Has(m, j)
    decreases i
  {
    if i == 0 {
      Halves(m / 2, 1);
    } else {
      Halves(With(m / 2, i - 1), m % 2);
      if j > 0 {
        WithSetsOneBit(m / 2, i - 1, j - 1);
      }
    }
  }

  /** Clearing bit `i` clears that bit and no other. */
  lemma {:induction false} WithoutClearsOneBit(m: nat, i: nat, j: nat)
    ensures Has(Without(m, i), j) <==> i != j && Has(m, j)
    decreases i
  {
    if i == 0 {
      Halves(m / 2, 0);
    } else {
      Halves(Without(m / 2, i - 1), m % 2);
      if j > 0 {
        WithoutClearsOneBit(m / 2, i - 1, j - 1);
      }
    }
  }

  /** Neither update leaves the word. */
  lemma {:induction false} UpdatesFit(m: nat, i: nat, n: nat)
    requires Fits(m, n) && i < n
    ensures Fits(With(m, i), n) && Fits(Without(m, i), n)
    decreases i
  {
    assert Pow2(n) == 2 * Pow2(n - 1);
    if i > 0 {
      UpdatesFit(m / 2, i - 1, n - 1);
    }
  }

  /** A rotation to the right by one bit of an `n`-bit word: the lowest bit moves to the top. */
  function RotateOne(m: nat, n: nat): nat
    requires n > 0
  {
    if m % 2 == 1 then m / 2 + Pow2(n - 1) else m / 2
  }

  /** `rotate_right` on `n`-bit words: `r` rotations by one bit. */
  function RotateRight(m: nat, n: nat, r: nat): nat
    requires n > 0
    decreases r
  {
    if r == 0 then m else RotateRight(RotateOne(m, n), n, r - 1)
  }

  lemma {:induction false} HighBit(m: nat, k: nat, i: nat)
    requires Fits(m, k) && i <= k
    ensures Has(m + Pow2(k), i) <==> i == k || Has(m, i)
    ensures i == k ==> !Has(m, i)
    decreases k
  {
    if k > 0 {
      assert Pow2(k) == 2 * Pow2(k - 1);
      if i > 0 {
        HighBit(m / 2, k - 1, i - 1);
        assert (m + Pow2(k)) / 2 == m / 2 + Pow2(k - 1);
      }
    }
  }

  lemma RotateOneBit(m: nat, n: nat, i: nat)
    requires Fits(m, n) && i < n
    ensures Fits(RotateOne(m, n), n)
    ensures Has(RotateOne(m, n), i) <==> Has(m, if i == n - 1 then 0 else i + 1)
  {
    assert Pow2(n) == 2 * Pow2(n - 1);
    HighBit(m / 2, n - 1, i);
  }

  /** After the rotation, bit `i` is what bit `i + r` was. */
  lemma {:induction false} RotateRightBit(m: nat, n: nat, r: nat, i: nat)
    requires Fits(m, n) && i < n && r < n
    ensures Fits(RotateRight(m, n, r), n)
    ensures Has(RotateRight(m, n, r), i) <==> Has(m, if i + r < n then i + r else i + r - n)
    decreases r
  {
    if r > 0 {
      RotateOneBit(m, n, if i + r - 1 < n then i + r - 1 else i + r - 1 - n);
      RotateRightBit(RotateOne(m, n), n, r - 1, i);
    }
  }

  /** `u64::trailing_zeros`: the index of the lowest set bit. */
  function TrailingZeros(m: nat): (k: nat)
    requires m != 0
    ensures Has(m, k)
    ensures forall i | 0 <= i < k :: !Has(m, i)
  {
    if m % 2 == 1 then 0 else 1 + TrailingZeros(m / 2)
  }

  lemma {:induction false} NoBitsBeyond(m: nat, n: nat, i: nat)
    requires Fits(m, n) && n <= i
    ensures !Has(m, i)
    decreases i
  {
    if n > 0 {
      NoBitsBeyond(m / 2, n - 1, i - 1);
    } else if i > 0 {
      NoBitsBeyond(m / 2, n, i - 1);
    }
  }

  /** A word is zero exactly when none of its bits is set. */
  lemma ZeroHasNoBit(m: nat, n: nat)
    requires Fits(m, n)
    ensures m == 0 <==> forall i | 0 <= i < n :: !Has(m, i)
  {
    if m == 0 {
      forall i | 0 <= i < n ensures !Has(m, i) {
        NoBitsBeyond(0, 0, i);
      }
    } else {
      var k := TrailingZeros(m);
      if k >= n {
        NoBitsBeyond(m, n, k);
      }
    }
  }
}
