/** Bits of unsigned machine words, kept as natural numbers. */
module Words {

  function Pow2(n: nat): (p: nat)
    ensures p > 0
  {
    if n == 0 then 1 else 2 * Pow2(n - 1)
  }

  /** Bit k of x. */
  predicate Bit(x: nat, k: nat) {
    if k == 0 then x % 2 == 1 else Bit(x / 2, k - 1)
  }

  /** x << d in a word of the given width; shifting by the width or more clears the word. */
  function ShiftLeft(x: nat, d: nat, width: nat): nat {
    if d >= width then 0 else (x * Pow2(d)) % Pow2(width)
  }

  /** x | (1 << k) */
  function SetBit(x: nat, k: nat): nat {
    if Bit(x, k) then x else x + Pow2(k)
  }

  lemma {:induction false} NoBits(k: nat)
    ensures !Bit(0, k)
  {
    if k > 0 {
      NoBits(k - 1);
    }
  }

  lemma {:induction false} BitOfSetBit(x: nat, k: nat, j: nat)
    ensures Bit(SetBit(x, k), j) <==> j == k || Bit(x, j)
  {
    if !Bit(x, k) {
      if k == 0 {
        assert (x + 1) / 2 == x / 2;
      } else {
        assert (x + Pow2(k)) / 2 == x / 2 + Pow2(k - 1) && (x + Pow2(k)) % 2 == x % 2;
        if j > 0 {
          BitOfSetBit(x / 2, k - 1, j - 1);
        }
      }
    }
  }

  lemma {:induction false} SetBitFits(x: nat, k: nat, width: nat)
    requires x < Pow2(width) && k < width
    ensures SetBit(x, k) < Pow2(width)
  {
    if !Bit(x, k) {
      if k == 0 {
        assert Pow2(width) % 2 == 0;
      } else {
        SetBitFits(x / 2, k - 1, width - 1);
        assert (x + Pow2(k)) / 2 == x / 2 + Pow2(k - 1);
      }
    }
  }

  lemma {:induction false} BitOfProduct(x: nat, d: nat, j: nat)
    ensures Bit(x * Pow2(d), j) <==> j >= d && Bit(x, j - d)
  {
    if d > 0 {
      var y := x * Pow2(d - 1);
      assert x * Pow2(d) == 2 * y;
      if j > 0 {
        BitOfProduct(x, d - 1, j - 1);
      }
    }
  }

  lemma {:induction false} BitOfTruncation(x: nat, width: nat, j: nat)
    ensures Bit(x % Pow2(width), j) <==> j < width && Bit(x, j)
  {
    if width == 0 {
      NoBits(j);
    } else {
      HalfOfTruncation(x, Pow2(width - 1));
      if j > 0 {
        BitOfTruncation(x / 2, width - 1, j - 1);
      }
    }
  }

  lemma HalfOfTruncation(x: nat, m: nat)
    requires m > 0
    ensures (x % (2 * m)) % 2 == x % 2
    ensures (x % (2 * m)) / 2 == (x / 2) % m
  {
    var q, r := x / (2 * m), x % (2 * m);
    assert x == 2 * (m * q) + r;
    assert x / 2 == m * q + r / 2;
    ModUnique(x / 2, m, q, r / 2);
  }

  lemma ModUnique(x: int, m: int, q: int, r: int)
    requires 0 <= r < m && x == m * q + r
    ensures x % m == r
  {
    var k := q - x / m;
    assert m * q == m * (x / m) + m * k;
    assert m * k == x % m - r;
    MultipleIsLarge(m, k);
    MultipleIsLarge(m, -k);
  }

  lemma MultipleIsLarge(m: int, k: int)
    requires m > 0
    ensures k >= 1 ==> m * k >= m
    ensures m * -k == -(m * k)
  {
  }

  lemma BitOfShiftLeft(x: nat, d: nat, width: nat, j: nat)
    requires j < width
    ensures Bit(ShiftLeft(x, d, width), j) <==> j >= d && Bit(x, j - d)
  {
    if d >= width {
      NoBits(j);
    } else {
      BitOfTruncation(x * Pow2(d), width, j);
      BitOfProduct(x, d, j);
    }
  }
}
