/** What the page bitmap says: which blocks of pages there are. */
module PageMaps {
  import opened BitStrings
  import opened Bitmaps
  import opened PageCodes

  /** Blocks of pages: first page and number of pages. */
  type Runs = map<nat, nat>

  /** The code for n pages stands at page p. */
  predicate CodedAt(bits: seq<bool>, p: nat, n: nat) {
    2 * p + CodeLen(n) <= |bits| && bits[2 * p..2 * p + CodeLen(n)] == Code(n)
  }

  /** Bit i belongs to the code of a block. */
  ghost predicate Covered(runs: Runs, i: nat) {
    exists p :: p in runs && InCode(runs, p, i)
  }

  predicate InCode(runs: Runs, p: nat, i: nat)
    requires p in runs
  {
    2 * p <= i < 2 * p + CodeLen(runs[p])
  }

  predicate RunOk(bits: seq<bool>, runs: Runs, p: nat)
    requires p in runs
  {
    1 <= runs[p] < MAX_PAGES && CodedAt(bits, p, runs[p])
  }

  /** These n pages belong to no block, but perhaps to the one at p. */
  predicate Clear(runs: Runs, p: nat, n: nat) {
    forall q :: q in runs && q != p ==> p + n <= q || q + runs[q] <= p
  }

  predicate Apart(runs: Runs) {
    forall p, q :: p in runs && q in runs && p < q ==> p + runs[p] <= q
  }

  /** The bitmap holds the codes of exactly these blocks, and zeros elsewhere. */
  ghost predicate Ok(bits: seq<bool>, runs: Runs) {
    && (forall p :: p in runs ==> RunOk(bits, runs, p))
    && Apart(runs)
    && (forall i :: 0 <= i < |bits| && bits[i] ==> Covered(runs, i))
  }

  /** The bits of two blocks do not overlap. */
  lemma CodesApart(bits: seq<bool>, runs: Runs, p: nat, q: nat)
    requires Ok(bits, runs) && p in runs && q in runs && p < q
    ensures 2 * p + CodeLen(runs[p]) <= 2 * q
  {
    hide CodeLen, CodedAt;
    assert RunOk(bits, runs, p);
    CodeFits(runs[p]);
  }

  /** Where a block begins, there is a one. */
  lemma FirstBit(bits: seq<bool>, runs: Runs, p: nat)
    requires Ok(bits, runs) && p in runs
    ensures 2 * p < |bits| && bits[2 * p] && Read(bits[2 * p..]) == Some(runs[p])
  {
    hide CodeLen, Code, Read;
    var n := runs[p];
    assert RunOk(bits, runs, p);
    CodeFits(n);
    var t := bits[2 * p..2 * p + CodeLen(n)];
    assert bits[2 * p] == t[0];
    assert bits[2 * p..] == Code(n) + bits[2 * p + CodeLen(n)..];
    RoundTrip(n, bits[2 * p + CodeLen(n)..]);
  }

  /** A bitmap stands for one set of blocks only. */
  lemma {:induction false} SameRun(bits: seq<bool>, r: Runs, t: Runs, p: nat)
    requires Ok(bits, r) && Ok(bits, t) && p in r
    ensures p in t && t[p] == r[p]
    decreases p
  {
    hide CodeLen, CodedAt, Read;
    FirstBit(bits, r, p);
    assert Covered(t, 2 * p);
    var q :| q in t && InCode(t, q, 2 * p);
    FirstBit(bits, t, q);
    if q < p {
      SameRun(bits, t, r, q);
      CodesApart(bits, r, q, p);
    }
  }

  lemma OneReading(bits: seq<bool>, r: Runs, t: Runs)
    requires Ok(bits, r) && Ok(bits, t)
    ensures r == t
  {
    hide Ok;
    forall p ensures p in r <==> p in t {
      if p in r { SameRun(bits, r, t, p); }
      if p in t { SameRun(bits, t, r, p); }
    }
    forall p | p in r ensures r[p] == t[p] {
      SameRun(bits, r, t, p);
    }
  }

  /** Writing the code of a block: a new one, or the new length of one that grows, whose old code is covered by
      the new one. */
  lemma SetOk(bits: seq<bool>, runs: Runs, p: nat, n: nat)
    requires Ok(bits, runs) && 1 <= n < MAX_PAGES && Clear(runs, p, n) && 2 * p + CodeLen(n) <= |bits|
    requires p in runs ==> runs[p] <= n
    ensures Ok(Over(bits, 2 * p, Code(n)), runs[p := n])
  {
    hide CodeLen, Over, Code;
    var b, r := Over(bits, 2 * p, Code(n)), runs[p := n];
    assert b[2 * p..2 * p + CodeLen(n)] == Code(n);
    CodeFits(n);
    forall q | q in r ensures RunOk(b, r, q) {
      if q != p {
        SetKeeps(bits, runs, p, n, q);
      }
    }
    forall x, y | x in r && y in r && x < y ensures x + r[x] <= y {
      if x != p { assert RunOk(bits, runs, x); }
    }
    forall i | 0 <= i < |b| && b[i] ensures Covered(r, i) {
      SetCovers(bits, runs, p, n, i);
    }
  }

  lemma SetKeeps(bits: seq<bool>, runs: Runs, p: nat, n: nat, q: nat)
    requires Ok(bits, runs) && 1 <= n < MAX_PAGES && Clear(runs, p, n) && 2 * p + CodeLen(n) <= |bits|
    requires q in runs && q != p
    ensures RunOk(Over(bits, 2 * p, Code(n)), runs, q)
  {
    hide CodeLen, Over, Code;
    var b, l := Over(bits, 2 * p, Code(n)), CodeLen(runs[q]);
    assert RunOk(bits, runs, q);
    CodeFits(n);
    CodeFits(runs[q]);
    assert 2 * p + CodeLen(n) <= 2 * q || 2 * q + l <= 2 * p;
    assert b[2 * q..2 * q + l] == bits[2 * q..2 * q + l];
  }

  lemma SetCovers(bits: seq<bool>, runs: Runs, p: nat, n: nat, i: nat)
    requires Ok(bits, runs) && 2 * p + CodeLen(n) <= |bits| && i < |bits|
    requires p in runs ==> runs[p] <= n
    requires Over(bits, 2 * p, Code(n))[i]
    ensures Covered(runs[p := n], i)
  {
    hide CodeLen, Over, Code;
    var r := runs[p := n];
    if 2 * p <= i < 2 * p + CodeLen(n) {
      assert InCode(r, p, i);
    } else {
      assert Covered(runs, i);
      var q :| q in runs && InCode(runs, q, i);
      if q == p {
        CodeGrows(runs[p], n);
      }
      assert InCode(r, q, i);
    }
  }

  /** Clearing the code of a block. */
  lemma ZapOk(bits: seq<bool>, runs: Runs, p: nat)
    requires Ok(bits, runs) && p in runs
    ensures 2 * p + CodeLen(runs[p]) <= |bits|
    ensures Ok(Over(bits, 2 * p, Repeat(CodeLen(runs[p]), false)), runs - {p})
  {
    hide CodeLen, Over, Code, Repeat;
    assert RunOk(bits, runs, p);
    var l := CodeLen(runs[p]);
    var b, r := Over(bits, 2 * p, Repeat(l, false)), runs - {p};
    forall q | q in r ensures RunOk(b, r, q) {
      assert RunOk(bits, runs, q);
      if q < p { CodesApart(bits, runs, q, p); } else { CodesApart(bits, runs, p, q); }
      var m := CodeLen(runs[q]);
      assert b[2 * q..2 * q + m] == bits[2 * q..2 * q + m];
    }
    forall i | 0 <= i < |b| && b[i] ensures Covered(r, i) {
      assert Covered(runs, i);
      var q :| q in runs && InCode(runs, q, i);
      assert q in r && InCode(r, q, i);
    }
  }

  /** A larger bitmap that begins with the bits of the old one. */
  lemma GrowOk(bits: seq<bool>, runs: Runs, more: seq<bool>)
    requires Ok(bits, runs) && |bits| <= |more| && more[..|bits|] == bits
    requires forall i :: |bits| <= i < |more| ==> !more[i]
    ensures Ok(more, runs)
  {
    hide CodeLen, Code;
    assert forall i :: 0 <= i < |bits| ==> more[i] == more[..|bits|][i];
    forall q | q in runs ensures RunOk(more, runs, q) {
      assert RunOk(bits, runs, q);
      var l := CodeLen(runs[q]);
      assert more[2 * q..2 * q + l] == bits[2 * q..2 * q + l];
    }
    forall i | 0 <= i < |more| && more[i] ensures Covered(runs, i) {
      assert bits[i] == more[i];
    }
  }

  /** No block begins before page a and ends behind it. */
  predicate Boundary(runs: Runs, a: nat) {
    forall q :: q in runs ==> q + runs[q] <= a || a <= q
  }

  /** From a boundary on, the first one of the bitmap is the beginning of the next block. */
  lemma NextRun(bits: seq<bool>, runs: Runs, a: nat, ix: int)
    requires Ok(bits, runs) && Boundary(runs, a)
    requires ix == -1 || 2 * a <= ix < |bits|
    requires ix != -1 ==> bits[ix]
    requires forall i :: 2 * a <= i < (if ix == -1 then |bits| else ix) ==> !bits[i]
    ensures forall q :: q in runs && q >= a ==> ix != -1 && 2 * q >= ix
    ensures ix != -1 ==> ix % 2 == 0 && ix / 2 in runs && Boundary(runs, ix / 2 + runs[ix / 2])
    ensures ix != -1 ==> forall q :: q in runs && ix / 2 < q ==> ix / 2 + runs[ix / 2] <= q
  {
    hide CodeLen, CodedAt, Read;
    forall q | q in runs && q >= a ensures ix != -1 && 2 * q >= ix {
      FirstBit(bits, runs, q);
    }
    if ix != -1 {
      assert Covered(runs, ix);
      var p :| p in runs && InCode(runs, p, ix);
      assert RunOk(bits, runs, p);
      CodeFits(runs[p]);
      FirstBit(bits, runs, p);
      assert ix == 2 * p;
      forall q | q in runs ensures q + runs[q] <= p + runs[p] || p + runs[p] <= q {
        assert RunOk(bits, runs, q);
      }
    }
  }

  /** The pages of the blocks that begin before page a. */
  function Total(runs: Runs, a: nat): nat {
    if a == 0 then 0 else Total(runs, a - 1) + (if a - 1 in runs then runs[a - 1] else 0)
  }

  lemma {:induction false} TotalSkip(runs: Runs, a: nat, b: nat)
    requires a <= b && forall q :: q in runs ==> q < a || b <= q
    ensures Total(runs, a) == Total(runs, b)
  {
    if a < b {
      TotalSkip(runs, a, b - 1);
    }
  }

  lemma {:induction false} TotalWith(runs: Runs, p: nat, n: nat, a: nat)
    ensures Total(runs[p := n], a) == Total(runs, a) + if p < a then n - (if p in runs then runs[p] else 0) else 0
  {
    if a > 0 {
      TotalWith(runs, p, n, a - 1);
    }
  }

  lemma {:induction false} TotalWithout(runs: Runs, p: nat, a: nat)
    requires p in runs
    ensures Total(runs - {p}, a) == Total(runs, a) - if p < a then runs[p] else 0
  {
    if a > 0 {
      TotalWithout(runs, p, a - 1);
    }
  }

  /** The pages of a bitmap that has been enlarged to hold two bits for each of this many pages, in bytes. */
  function GrownBytes(pages: nat): nat {
    var mapbits := pages * 2;
    (mapbits / 8 + 4095) / 4096 * 4096
  }

  /** Enlarging the bitmap once is enough, unless the number of pages is 1, 2 or 3 more than a multiple of 16384
      (heaps of up to 12 KB more than a multiple of 64 MB). */
  lemma OneGrowthIsEnough(pages: nat)
    ensures 2 * pages <= 8 * GrownBytes(pages) <==> pages % 16384 == 0 || pages % 16384 >= 4
  {
    var k, r := pages / 16384, pages % 16384;
    assert pages * 2 / 8 == 4096 * k + r / 4;
    assert (4096 * k + r / 4 + 4095) / 4096 == k + (r / 4 + 4095) / 4096;
  }
}
