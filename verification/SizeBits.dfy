/** Chunk sizes as bit strings: the tree bin a size belongs to, and the bits a trie branches on. */
module SizeBits {
  import opened BitStrings

  const MIN_LARGE_SIZE: nat := 256
  const NTREEBINS: nat := 32
  const WORD: nat := 0x1_0000_0000

  /** x >> n */
  function Block(x: nat, n: nat): nat {
    Quot(x, Pow2(n))
  }

  /** Bit n of x. */
  function Bit(x: nat, n: nat): (b: nat)
    ensures b < 2
  {
    Block(x, n) % 2
  }

  lemma PowNext(n: nat)
    ensures Pow2(n + 1) == 2 * Pow2(n)
  {
  }

  lemma HalfQuotient(q: nat, r: nat, p: nat)
    requires r < p
    ensures (q * p + r) / (2 * p) == q / 2
  {
    var h, b := q / 2, q % 2;
    TwiceTimes(h, b, p);
    assert q == 2 * h + b;
    DivModUnique(q * p + r, 2 * p, h, b * p + r);
  }

  lemma TwiceTimes(h: nat, b: nat, p: nat)
    requires b < 2
    ensures (2 * h + b) * p == h * (2 * p) + b * p
    ensures b * p <= p
  {
  }

  lemma Quotient(x: nat, p: nat)
    requires p > 0
    ensures x == x / p * p + x % p
  {
  }

  lemma BlockStep(x: nat, n: nat)
    ensures Block(x, n + 1) == Block(x, n) / 2
    ensures Block(x, n) == 2 * Block(x, n + 1) + Bit(x, n)
  {
    PowNext(n);
    hide Pow2;
    var p := Pow2(n);
    Quotient(x, p);
    HalfQuotient(x / p, x % p, p);
  }

  /** Sizes that agree on a finer block agree on every coarser one, and their order is kept. */
  lemma {:induction false} BlockCoarser(x: nat, y: nat, n: nat, m: nat)
    requires n <= m && Block(x, n) <= Block(y, n)
    ensures Block(x, m) <= Block(y, m)
    ensures Block(x, n) == Block(y, n) ==> Block(x, m) == Block(y, m)
    decreases m - n
  {
    if n < m {
      BlockStep(x, n);
      BlockStep(y, n);
      BlockCoarser(x, y, n + 1, m);
    }
  }

  /** Sizes are multiples of 8: those that agree down to bit 3 are the same. */
  lemma BlockEight(x: nat, y: nat)
    requires x % 8 == 0 && y % 8 == 0 && Block(x, 3) == Block(y, 3)
    ensures x == y
  {
    assert Pow2(3) == 8;
  }

  /** The order of numbers is kept by their blocks. */
  lemma BlockOrder(x: nat, y: nat, n: nat)
    requires x <= y
    ensures Block(x, n) <= Block(y, n)
  {
    hide Pow2;
    var p := Pow2(n);
    Quotient(x, p);
    Quotient(y, p);
    if x / p > y / p {
      MulStep(y / p, x / p, p);
      assert false;
    }
  }

  lemma MulStep(a: nat, b: nat, p: nat)
    requires a < b
    ensures a * p + p <= b * p
  {
    var d := b - a - 1;
    assert (a + 1 + d) * p == a * p + p + d * p;
  }

  // ---------- tree bins ----------

  /** The number of low bits in which the sizes of bin i differ. */
  function Width(i: nat): (w: nat)
    requires i < NTREEBINS
    ensures 7 <= w <= 32
  {
    if i == NTREEBINS - 1 then 32 else i / 2 + 7
  }

  /** x >> 16 & m for a power of two m. */
  function High16(x: nat, m: nat): nat
    requires m > 0
  {
    (x / 0x10000) / m % 2 * m
  }

  /** How far ComputeTreeIndex shifts x to the left to bring its top bit to position 14 or 15. */
  function Shift1(x: nat): nat { High16((x + WORD - 0x100) % WORD, 8) }
  function Shift2(y: nat): nat { High16((y + WORD - 0x1000) % WORD, 4) }
  function Shift3(y: nat): nat { High16((y + WORD - 0x4000) % WORD, 2) }

  function Scaled(x: nat, n: nat): nat {
    x * Pow2(n)
  }

  /** The position of the top bit of x, found by halving the search; differences wrap at 32 bits. */
  function TopBit(x: nat): int {
    var n := Shift1(x);
    var y := Scaled(x, n);
    var k := Shift2(y);
    var y' := Scaled(y, k);
    var k' := Shift3(y');
    14 - (n + k + k') + Scaled(y', k') / 0x8000
  }

  /** ComputeTreeIndex: the bin of a size. */
  function TreeIndex(s: nat): (i: nat)
    requires s < WORD
    ensures i < NTREEBINS
  {
    var x := s / 256;
    if x == 0 then 0
    else if x > 0xFFFF then NTREEBINS - 1
    else TopBitIs(x); 2 * TopBit(x) + Bit(s, TopBit(x) + 7)
  }

  lemma Powers()
    ensures Pow2(0) == 1 && Pow2(1) == 2 && Pow2(2) == 4 && Pow2(3) == 8 && Pow2(4) == 16 && Pow2(5) == 32
    ensures Pow2(6) == 64 && Pow2(7) == 128 && Pow2(8) == 256 && Pow2(9) == 512 && Pow2(10) == 1024
    ensures Pow2(11) == 2048 && Pow2(12) == 4096 && Pow2(13) == 8192 && Pow2(14) == 16384 && Pow2(15) == 32768
    ensures Pow2(16) == 65536
  {
    assert Pow2(4) == 16;
    assert Pow2(8) == 256;
    assert Pow2(12) == 4096;
  }

  lemma ShiftsAre(x: nat)
    ensures 0 < x <= 0xFFFF ==> Shift1(x) == if x < 0x100 then 8 else 0
    ensures 0x100 <= x <= 0xFFFF ==> Shift2(x) == if x < 0x1000 then 4 else 0
    ensures 0x1000 <= x <= 0xFFFF ==> Shift3(x) == if x < 0x4000 then 2 else 0
  {
  }

  /** The halving search finds the top bit. */
  lemma TopBitIs(x: nat)
    requires 0 < x <= 0xFFFF
    ensures 0 <= TopBit(x) < 16
    ensures Pow2(TopBit(x)) <= x < 2 * Pow2(TopBit(x))
  {
    Powers();
    hide Shift1, Shift2, Shift3, Pow2;
    ShiftsAre(x);
    var y := Scaled(x, Shift1(x));
    ShiftsAre(y);
    var y' := Scaled(y, Shift2(y));
    ShiftsAre(y');
    var y'' := Scaled(y', Shift3(y'));
    assert 0x4000 <= y'' <= 0xFFFF;
  }

  lemma BlockOf(x: nat, n: nat, q: nat)
    requires q * Pow2(n) <= x < q * Pow2(n) + Pow2(n)
    ensures Block(x, n) == q
  {
    hide Pow2;
    DivModUnique(x, Pow2(n), q, x - q * Pow2(n));
  }

  /** The top bit of x >> 8 is 8 below the top bit of x. */
  lemma {:induction false} ShiftBlock(x: nat, n: nat)
    ensures Block(x / 256, n) == Block(x, n + 8)
  {
    if n == 0 {
      Powers();
      assert Block(x, 8) == x / 256;
    } else {
      ShiftBlock(x, n - 1);
      BlockStep(x / 256, n - 1);
      BlockStep(x, n + 7);
    }
  }

  /** ComputeTreeIndex for a size whose top bit is bit k + 8. */
  lemma TopBitOf(s: nat)
    requires MIN_LARGE_SIZE <= s && s / 256 <= 0xFFFF
    ensures var k := TopBit(s / 256); 0 <= k < 16 && Block(s, k + 7) == 2 + Bit(s, k + 7) && Block(s, k + 8) == 1
  {
    hide TopBit, Pow2, Block;
    TopBitIs(s / 256);
    var k := TopBit(s / 256);
    BlockOf(s / 256, k, 1);
    ShiftBlock(s / 256 * 256 + s % 256, k);
    BlockStep(s, k + 7);
  }

  /** The sizes of one bin agree on all bits from Width upwards: the top bit and the next one name the bin,
      and nothing is left above the last bin. */
  lemma BinOfSize(s: nat)
    requires MIN_LARGE_SIZE <= s < WORD
    ensures var i := TreeIndex(s); Block(s, Width(i)) == if i == NTREEBINS - 1 then 0 else 2 + i % 2
  {
    hide TopBit, Pow2, Block;
    if s / 256 <= 0xFFFF {
      TopBitOf(s);
      WordBits(s);
    } else {
      WordBits(s);
    }
  }

  lemma WordBits(s: nat)
    requires s < WORD
    ensures Block(s, 32) == 0
  {
    Powers();
    PowAdd(16, 16);
  }

  lemma ZeroBlock(n: nat)
    ensures Block(0, n) == 0
  {
  }

  /** Bins are in the order of their sizes. */
  lemma BinOrder(s: nat, t: nat)
    requires MIN_LARGE_SIZE <= s <= t < WORD
    ensures TreeIndex(s) <= TreeIndex(t)
  {
    hide TopBit, Pow2, Block;
    if t / 256 <= 0xFFFF {
      TopBitOf(s);
      TopBitOf(t);
      var j, k := TopBit(s / 256), TopBit(t / 256);
      if k < j {
        BlockOrder(s, t, j + 8);
        BlockStep(t, k + 8);
        ZeroBlock(k + 9);
        ZeroBlock(j + 8);
        BlockCoarser(t, 0, k + 9, j + 8);
      } else if k == j {
        BlockOrder(s, t, k + 7);
      }
    }
  }

  /** Two sizes of one bin agree from Width upwards. */
  lemma SameBin(s: nat, t: nat)
    requires MIN_LARGE_SIZE <= s < WORD && MIN_LARGE_SIZE <= t < WORD && TreeIndex(s) == TreeIndex(t)
    ensures Block(s, Width(TreeIndex(s))) == Block(t, Width(TreeIndex(s)))
  {
    BinOfSize(s);
    BinOfSize(t);
  }

  // ---------- the branch bit ----------

  /** s << n in a 32-bit word. */
  function Shifted(s: nat, n: nat): (k: nat)
    ensures k < WORD
  {
    s * Pow2(n) % WORD
  }

  /** LEFTSHIFT_FOR_TREE_INDEX */
  function LeftShift(i: nat): (n: nat)
    requires i < NTREEBINS
    ensures n == 32 - Width(i)
  {
    if i == NTREEBINS - 1 then 0 else 31 - (i / 2 + 6)
  }

  lemma ShiftOnce(s: nat, n: nat)
    ensures Shifted(s, n) * 2 % WORD == Shifted(s, n + 1)
  {
    PowNext(n);
    hide Pow2;
    TimesTwo(s, Pow2(n));
    var y := s * Pow2(n);
    assert s * Pow2(n + 1) == 2 * y;
    DoubleMod(y);
  }

  lemma TimesTwo(s: nat, p: nat)
    ensures s * (2 * p) == 2 * (s * p)
  {
  }

  lemma DoubleMod(y: nat)
    ensures y % WORD * 2 % WORD == 2 * y % WORD
  {
    var q, r := y / WORD, y % WORD;
    assert 2 * y == q * 2 * WORD + 2 * r;
    if 2 * r < WORD {
      DivModUnique(2 * y, WORD, 2 * q, 2 * r);
    } else {
      DivModUnique(2 * y, WORD, 2 * q + 1, 2 * r - WORD);
    }
  }

  /** The sign bit of s << n is bit 31 - n of s. */
  lemma {:induction false} SignBit(s: nat, n: nat)
    requires n <= 31
    ensures Shifted(s, n) / 0x8000_0000 == Bit(s, 31 - n)
  {
    hide Pow2;
    var p, r := Pow2(n), Pow2(31 - n);
    PowAdd(n, 31 - n);
    PowerOf31();
    var q, b := Block(s, 32 - n), Bit(s, 31 - n);
    BlockStep(s, 31 - n);
    Quotient(s, r);
    var m := s % r;
    assert s == (2 * q + b) * r + m;
    Unfold(q, b, r, m, p);
    assert m * p < 0x8000_0000 by { MulBelow(m, r, p); }
    DivModUnique(s * p, WORD, q, b * 0x8000_0000 + m * p);
    DivModUnique(b * 0x8000_0000 + m * p, 0x8000_0000, b, m * p);
  }

  lemma PowerOf31()
    ensures Pow2(31) == 0x8000_0000
  {
    Powers();
    PowAdd(16, 15);
  }

  lemma MulBelow(m: nat, r: nat, p: nat)
    requires m < r && p > 0
    ensures m * p < p * r
  {
    MulStep(m, r, p);
    assert r * p == p * r;
  }

  lemma Unfold(q: nat, b: nat, r: nat, m: nat, p: nat)
    requires p * r == 0x8000_0000
    ensures ((2 * q + b) * r + m) * p == q * WORD + b * 0x8000_0000 + m * p
  {
    calc {
      ((2 * q + b) * r + m) * p;
      (2 * q + b) * r * p + m * p;
      (2 * q + b) * (p * r) + m * p;
    }
  }
}
