/** Rounding in 32-bit unsigned arithmetic. */
module Words {
  import opened BitStrings
  import opened SizeBits

  /** x & m */
  function And(x: nat, m: nat): (r: nat)
    ensures r <= x && r <= m
  {
    if x == 0 || m == 0 then 0
    else 2 * And(x / 2, m / 2) + (x % 2) * (m % 2)
  }

  /** _ALIGN_UP(x, y): (x + y - 1) & ~(y - 1) */
  function AlignUp(x: int, y: int): (r: nat)
    ensures r < WORD
  {
    var s := (x + y - 1) % WORD;
    s - And(s, (y - 1) % WORD)
  }

  /** Whatever y is, the result is not below x, as long as nothing wraps. */
  lemma AlignUpReaches(x: nat, y: nat)
    requires 0 < y && x + y <= WORD
    ensures x <= AlignUp(x, y) < x + y
  {
  }

  /** A growth step of 0 gives 0. */
  lemma AlignUpNone(x: int)
    ensures AlignUp(x, 0) == 0
  {
    WordIsPower(32);
    AndOnes((x - 1) % WORD, WORD - 1, 32);
  }

  lemma {:induction false} AndOnes(x: nat, m: nat, k: nat)
    requires x <= m && m + 1 == Pow2(k)
    ensures And(x, m) == x
  {
    if k > 0 && x > 0 {
      assert m / 2 + 1 == Pow2(k - 1);
      AndOnes(x / 2, m / 2, k - 1);
    }
  }

  /** m ends in k ones: clearing its bits leaves a multiple of 2^k. */
  lemma {:induction false} AndLowBits(x: nat, m: nat, k: nat)
    requires m % Pow2(k) == Pow2(k) - 1
    ensures (x - And(x, m)) % Pow2(k) == 0
  {
    if k == 0 {
    } else if x == 0 {
      hide Pow2;
      DivModUnique(0, Pow2(k), 0, 0);
    } else {
      LowOnes(m, k);
      hide And, Pow2;
      AndLowBits(x / 2, m / 2, k - 1);
      AndOdd(x, m);
      EvenMultiple(x / 2 - And(x / 2, m / 2), k);
    }
  }

  lemma AndOdd(x: nat, m: nat)
    requires x > 0 && m % 2 == 1
    ensures x - And(x, m) == 2 * (x / 2 - And(x / 2, m / 2))
  {
  }

  lemma LowOnes(m: nat, k: nat)
    requires k > 0 && m % Pow2(k) == Pow2(k) - 1
    ensures m % 2 == 1 && m / 2 % Pow2(k - 1) == Pow2(k - 1) - 1
  {
    assert Pow2(k) == 2 * Pow2(k - 1);
    OnesBelow(m, Pow2(k - 1));
  }

  lemma OnesBelow(m: nat, p: nat)
    requires p > 0 && m % (2 * p) == 2 * p - 1
    ensures m % 2 == 1 && m / 2 % p == p - 1
  {
    var q := Quot(m, 2 * p);
    Split(m, 2 * p);
    hide Quot;
    Halve(m, q, p);
    DivModUnique(m / 2, p, q, p - 1);
  }

  lemma Split(m: nat, p: nat)
    requires p > 0
    ensures m == m / p * p + m % p
  {
  }

  lemma Halve(m: nat, q: nat, p: nat)
    requires p > 0 && m == q * (2 * p) + (2 * p - 1)
    ensures m % 2 == 1 && m / 2 == p - 1 + q * p
  {
    var h := q * p;
    assert q * (2 * p) == 2 * h;
  }

  lemma EvenMultiple(y: nat, k: nat)
    requires k > 0 && y % Pow2(k - 1) == 0
    ensures 2 * y % Pow2(k) == 0
  {
    var p := Pow2(k - 1);
    assert Pow2(k) == 2 * p;
    hide Pow2;
    Split(y, p);
    var q := y / p;
    assert 2 * y == q * (2 * p);
    DivModUnique(2 * y, 2 * p, q, 0);
  }

  /** A growth step that is a multiple of the page size keeps the result one, even when y is 0. */
  lemma AlignUpPages(x: int, y: int, k: nat)
    requires k <= 31 && y % Pow2(k) == 0
    ensures AlignUp(x, y) % Pow2(k) == 0
  {
    var s, m := (x + y - 1) % WORD, (y - 1) % WORD;
    WordMultiple(y, k);
    AndLowBits(s, m, k);
  }

  lemma WordMultiple(y: int, k: nat)
    requires k <= 31 && y % Pow2(k) == 0
    ensures (y - 1) % WORD % Pow2(k) == Pow2(k) - 1
  {
    WordIsPower(k);
    hide Pow2;
    var p, w := Pow2(k), Pow2(32 - k);
    var t, z := (y - 1) / WORD, (y - 1) % WORD;
    Euclid(y, p);
    Factor(y / p, t, w, p);
    LastOfBlock(z, y / p - t * w, p);
  }

  lemma WordIsPower(k: nat)
    requires k <= 32
    ensures Pow2(k) * Pow2(32 - k) == WORD
  {
    Powers();
    hide Pow2;
    PowAdd(k, 32 - k);
    PowAdd(16, 16);
  }

  lemma Euclid(y: int, p: nat)
    requires p > 0
    ensures y == y / p * p + y % p
  {
  }

  lemma Factor(q: int, t: int, w: int, p: int)
    requires p * w == WORD
    ensures q * p - t * WORD == (q - t * w) * p
  {
    assert t * w * p == t * (p * w);
  }

  lemma LastOfBlock(z: nat, c: int, p: nat)
    requires p > 0 && z + 1 == c * p
    ensures z % p == p - 1
  {
    if c <= 0 {
      Sign(c, p);
      assert false;
    }
    assert z == p - 1 + (c - 1) * p;
    DivModUnique(z, p, c - 1, p - 1);
  }

  lemma Sign(c: int, p: nat)
    requires c <= 0
    ensures c * p <= 0
  {
  }
}
