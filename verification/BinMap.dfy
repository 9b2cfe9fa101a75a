/** The maps of bins that are not empty, as words of 32 bits. The bins keep such a map as a set of indices; here the
    operations on the words are shown to be those on the sets, and the searches are made in the words. */
module BinMaps {

  /** Bin i is marked. */
  predicate Has(m: bv32, i: bv5) {
    (m >> i) & 1 == 1
  }

  /** IDX2BIT */
  function Bit(i: bv5): bv32 {
    1 << i
  }

  function Mark(m: bv32, i: bv5): bv32 {
    m | Bit(i)
  }

  function Clear(m: bv32, i: bv5): bv32 {
    m & !Bit(i)
  }

  /** LEAST_BIT */
  function LeastBit(x: bv32): bv32 {
    x & (0 - x)
  }

  /** LEFT_BITS */
  function LeftBits(x: bv32): bv32 {
    (x << 1) | (0 - (x << 1))
  }

  /** ComputeBit2idx */
  function Bit2Idx(x: bv32): bv32 {
    var y := x - 1;
    var k := (y >> 12) & 16;
    var n, y1 := k, y >> k;
    var k1 := (y1 >> 5) & 8;
    var n1, y2 := n + k1, y1 >> k1;
    var k2 := (y2 >> 2) & 4;
    var n2, y3 := n1 + k2, y2 >> k2;
    var k3 := (y3 >> 1) & 2;
    var n3, y4 := n2 + k3, y3 >> k3;
    var k4 := y4 & 1;
    n3 + k4 + (y4 >> k4)
  }

  lemma MarkIs(m: bv32, i: bv5, j: bv5)
    ensures Has(Mark(m, i), j) <==> i == j || Has(m, j)
  {
  }

  lemma ClearIs(m: bv32, i: bv5, j: bv5)
    ensures Has(Clear(m, i), j) <==> i != j && Has(m, j)
  {
  }

  /** The bits above bit i. */
  lemma LeftIs(i: bv5, j: bv5)
    ensures Has(LeftBits(Bit(i)), j) <==> i < j
  {
  }

  lemma AndIs(m: bv32, n: bv32, j: bv5)
    ensures Has(m & n, j) <==> Has(m, j) && Has(n, j)
  {
  }

  lemma Even(x: bv32)
    requires x & 1 == 0
    ensures LeastBit(x) == LeastBit(x >> 1) << 1
  {
  }

  lemma Odd(x: bv32)
    requires x & 1 == 1
    ensures LeastBit(x) == 1
  {
  }

  lemma Halved(x: bv32, i: bv5)
    requires i != 0 && Has(x, i) && x & (Bit(i) - 1) == 0
    ensures x & 1 == 0 && Has(x >> 1, i - 1) && (x >> 1) & (Bit(i - 1) - 1) == 0 && Bit(i - 1) << 1 == Bit(i)
  {
  }

  /** The least bit of a word is a single bit, */
  lemma {:induction false} LeastIs(x: bv32, i: bv5)
    requires Has(x, i) && x & (Bit(i) - 1) == 0
    ensures LeastBit(x) == Bit(i)
    decreases i
  {
    if i == 0 {
      Odd(x);
    } else {
      Halved(x, i);
      Even(x);
      LeastIs(x >> 1, i - 1);
    }
  }

  /** whose index is found. */
  lemma IndexIs(i: bv5)
    ensures Bit2Idx(Bit(i)) == i as bv32
  {
  }

  lemma NoneBelow(x: bv32, i: bv5, j: bv5)
    requires x & (Bit(i) - 1) == 0 && j < i
    ensures !Has(x, j)
  {
  }

  lemma Lowest(x: bv32) returns (i: bv5)
    requires x != 0
    ensures Has(x, i) && x & (Bit(i) - 1) == 0
  {
    First(x);
    i := LowestFrom(x, 0, 31);
  }

  lemma First(x: bv32)
    ensures x & (Bit(0) - 1) == 0
  {
  }

  /** From bit i on, with n bits above it. */
  lemma {:induction false} LowestFrom(x: bv32, i: bv5, n: bv5) returns (k: bv5)
    requires x != 0 && x & (Bit(i) - 1) == 0 && n == 31 - i
    ensures Has(x, k) && x & (Bit(k) - 1) == 0
    decreases n as int
  {
    hide Has, Bit;
    if Has(x, i) {
      k := i;
    } else {
      Next(x, i, n);
      k := LowestFrom(x, i + 1, n - 1);
    }
  }

  lemma Next(x: bv32, i: bv5, n: bv5)
    requires x != 0 && !Has(x, i) && x & (Bit(i) - 1) == 0 && n == 31 - i
    ensures x & (Bit(i + 1) - 1) == 0 && n - 1 == 31 - (i + 1) && (n - 1) as int < n as int
  {
    Less(n);
  }

  lemma Less(n: bv5)
    requires n != 0
    ensures (n - 1) as int < n as int
  {
  }

  /** The first marked bin above bin idx, as TmallocLarge looks for it. */
  method LeastAbove(m: bv32, idx: bv5) returns (found: bool, i: bv32)
    ensures found ==> i < 32 && Has(m, i as bv5) && (idx as bv32) < i
    ensures forall j: bv5 :: idx < j && (!found || (j as bv32) < i) ==> !Has(m, j)
  {
    var leftbits := LeftBits(Bit(idx)) & m;
    found, i := leftbits != 0, 0;
    if found {
      var leastbit := LeastBit(leftbits);
      i := Bit2Idx(leastbit);
      ghost var k := Lowest(leftbits);
      LeastIs(leftbits, k);
      IndexIs(k);
      AndIs(LeftBits(Bit(idx)), m, k);
      LeftIs(idx, k);
      forall j: bv5 | idx < j && j < k ensures !Has(m, j) {
        NoneBelow(leftbits, k, j);
        AndIs(LeftBits(Bit(idx)), m, j);
        LeftIs(idx, j);
      }
    } else {
      forall j: bv5 | idx < j ensures !Has(m, j) {
        AndIs(LeftBits(Bit(idx)), m, j);
        LeftIs(idx, j);
        NoBits(j);
      }
    }
  }

  lemma NoBits(j: bv5)
    ensures !Has(0, j)
  {
  }

  /** The first marked bin of all, as TmallocSmall looks for it. */
  method LeastOf(m: bv32) returns (i: bv32)
    requires m != 0
    ensures i < 32 && Has(m, i as bv5)
    ensures forall j: bv5 :: (j as bv32) < i ==> !Has(m, j)
  {
    i := Bit2Idx(LeastBit(m));
    ghost var k := Lowest(m);
    LeastIs(m, k);
    IndexIs(k);
    forall j: bv5 | j < k ensures !Has(m, j) {
      NoneBelow(m, k, j);
    }
  }

  /** For small requests the map is shifted first, and shifted back before it is masked: the bits above idx are left. */
  lemma ShiftedBack(m: bv32, idx: bv5, j: bv5)
    ensures Has(((m >> idx) << idx) & LeftBits(Bit(idx)), j) <==> idx < j && Has(m, j)
  {
  }

  // ---------- the word of a set of bins ----------

  const NBINS: int := 32

  function Ix(i: int): bv5
    requires 0 <= i < NBINS
  {
    i as bv5
  }

  lemma IxIs(i: int)
    requires 0 <= i < NBINS
    ensures Ix(i) as int == i
  {
  }

  /** A number of five bits is the same in 32 bits, and so is the order. */
  lemma IxOrder(j: bv5, i: bv32)
    requires i < 32
    ensures j as bv32 < i <==> j as int < i as int
    ensures (i as bv5) as int == i as int < NBINS
  {
  }

  lemma LessIx(i: bv5, j: bv5)
    ensures i < j <==> i as int < j as int
    ensures i as bv32 as int == i as int
  {
  }

  /** The bins below n of the set. */
  function WordBelow(marked: set<int>, n: nat): bv32
    requires n <= NBINS
  {
    if n == 0 then 0 else if n - 1 in marked then Mark(WordBelow(marked, n - 1), Ix(n - 1)) else WordBelow(marked, n - 1)
  }

  function WordOf(marked: set<int>): bv32 {
    WordBelow(marked, NBINS)
  }

  lemma {:induction false} BelowHas(marked: set<int>, n: nat, j: bv5)
    requires n <= NBINS
    ensures Has(WordBelow(marked, n), j) <==> (j as int) < n && j as int in marked
  {
    hide Has, Mark, Ix;
    if n == 0 {
      NoBits(j);
    } else {
      BelowHas(marked, n - 1, j);
      IxIs(n - 1);
      SameIx(Ix(n - 1), j);
      MarkIs(WordBelow(marked, n - 1), Ix(n - 1), j);
    }
  }

  /** The word of a set has the bits of its elements, */
  lemma WordHas(marked: set<int>, j: bv5)
    ensures Has(WordOf(marked), j) <==> j as int in marked
  {
    BelowHas(marked, NBINS, j);
  }

  /** and marking or clearing a bin in the word is adding it to the set or taking it out. */
  lemma WordMarks(marked: set<int>, i: bv5)
    ensures Mark(WordOf(marked), i) == WordOf(marked + {i as int})
    ensures Clear(WordOf(marked), i) == WordOf(marked - {i as int})
  {
    hide Mark, Clear, WordOf, Has;
    forall j: bv5 ensures Has(Mark(WordOf(marked), i), j) <==> Has(WordOf(marked + {i as int}), j) {
      MarkIs(WordOf(marked), i, j);
      WordHas(marked, j);
      WordHas(marked + {i as int}, j);
      SameIx(i, j);
    }
    SameBits(Mark(WordOf(marked), i), WordOf(marked + {i as int}));
    forall j: bv5 ensures Has(Clear(WordOf(marked), i), j) <==> Has(WordOf(marked - {i as int}), j) {
      ClearIs(WordOf(marked), i, j);
      WordHas(marked, j);
      WordHas(marked - {i as int}, j);
      SameIx(i, j);
    }
    SameBits(Clear(WordOf(marked), i), WordOf(marked - {i as int}));
  }

  lemma SameIx(i: bv5, j: bv5)
    ensures i as int == j as int <==> i == j
  {
  }

  lemma SameBits(m: bv32, n: bv32)
    requires forall j: bv5 {:trigger Has(m, j)} :: Has(m, j) <==> Has(n, j)
    ensures m == n
  {
    hide Has;
    if m != n {
      var j := Lowest(m ^ n);
      assert Has(m, j) <==> Has(n, j);
      XorIs(m, n, j);
    }
  }

  lemma XorIs(m: bv32, n: bv32, j: bv5)
    ensures Has(m ^ n, j) <==> (Has(m, j) != Has(n, j))
    ensures m ^ n != 0 || m == n
  {
  }

  /** The first marked bin above idx, or of all if idx is -1; -1 when there is none. */
  method FirstMarked(marked: set<int>, idx: int) returns (i: int)
    requires -1 <= idx < NBINS
    ensures i == -1 || (idx < i < NBINS && i in marked)
    ensures forall j :: idx < j < NBINS && (i < 0 || j < i) ==> j !in marked
  {
    hide *;
    var m := WordOf(marked);
    var found, k := m != 0, 0;
    if idx >= 0 {
      found, k := LeastAbove(m, Ix(idx));
    } else if found {
      k := LeastOf(m);
    }
    i := if found then k as int else -1;
    if found {
      IxOrder(0, k);
      WordHas(marked, k as bv5);
    }
    forall j | idx < j < NBINS && (i < 0 || j < i) ensures j !in marked {
      WordHas(marked, Ix(j));
      IxIs(j);
      if idx >= 0 {
        IxIs(idx);
        LessIx(Ix(idx), Ix(j));
      }
      if found {
        IxOrder(Ix(j), k);
      } else if idx < 0 {
        NoBits(Ix(j));
      }
    }
    if found && idx >= 0 {
      IxIs(idx);
      AboveIx(Ix(idx), k);
    }
  }

  lemma AboveIx(i: bv5, k: bv32)
    requires k < 32 && (i as bv32) < k
    ensures i as int < k as int
  {
    IxOrder(i, k);
  }
}
