/** What a slab tells about its cells: how many are in use, that they lie apart, which are free, and which cell
    size serves a request. */
module SlabInfos {
  import BitStrings
  import SizeBits
  import opened SlabCells
  import opened SlabHeaps

  // ---------- counting and placing cells ----------

  /** The cells in use. */
  function LiveSet(c: Cells): set<int>
    requires c.n >= 0
  {
    Upto(c.n) - Listing(c, 0)
  }

  /** The bytes in use are the cells in use times their size. */
  lemma UsedIsLive(s: int, c: Cells, bytes: map<int, int>)
    requires CellsOk(s, c, bytes)
    ensures forall k :: k in LiveSet(c) <==> IsLive(c, k)
    ensures Usedm4(c.h) + 4 == Times(|LiveSet(c)|, Size(c.h))
  {
    hide Size, Usedm4, Free, Offset, LinksOk, Times, Listing, ListOk, IsHeader;
    InListing(c);
    RestSize(Upto(c.n), Listing(c, 0));
  }

  lemma InListing(c: Cells)
    requires ListOk(c) && c.n >= 0
    ensures |Listing(c, 0)| == |c.list| && forall k :: k in Listing(c, 0) <==> k in c.list
    ensures forall k :: k in Listing(c, 0) ==> k in Upto(c.n)
  {
    ListingIs(c, 0);
    forall k ensures k in Listing(c, 0) <==> k in c.list {
      if k in c.list {
        var j :| 0 <= j < |c.list| && c.list[j] == k;
        assert c.list[j] == k;
      }
    }
    forall k | k in Listing(c, 0) ensures k in Upto(c.n) {
      var j :| 0 <= j < |c.list| && c.list[j] == k;
      assert Listed(c, j);
    }
  }

  lemma RestSize(all: set<int>, part: set<int>)
    requires forall k :: k in part ==> k in all
    ensures |all - part| == |all| - |part|
  {
    assert forall k :: k in (all - part) + part <==> k in all;
    assert (all - part) + part == all;
  }

  /** Cells in use lie within their slab, behind its header, and do not overlap. */
  lemma CellsApart(v: Slabs, p: int, q: int)
    requires Ok(v) && IsLiveCell(v, p) && IsLiveCell(v, q)
    ensures SlabFor(p) + HEADER <= p && p + CellSize(v, p) <= SlabFor(p) + SLABSIZE && p % 4 == 0
    ensures 4 <= CellSize(v, p) <= MAXSLABSIZE
    ensures p < q ==> p + CellSize(v, p) <= q
  {
    hide Ok, IsSlab, Empty, CellsOk, Size, Offset, IsLive, SlabFor, Header, CellsOf;
    var j := WhichCell(v, p);
    var k := WhichCell(v, q);
    var s, t := SlabFor(p), SlabFor(q);
    CountsOfCells(s, CellsOf(v, s), v.bytes);
    CountsOfCells(t, CellsOf(v, t), v.bytes);
    LiveBelow(CellsOf(v, s), j);
    LiveBelow(CellsOf(v, t), k);
    OffsetIs(CellsOf(v, s), j);
    OffsetIs(CellsOf(v, t), k);
    SizeAt(v, s, p);
    if s == t {
      if j < k {
        OffsetOrder(j, k, Size(Header(v, s)));
      } else if k < j {
        OffsetOrder(k, j, Size(Header(v, s)));
      }
    } else {
      SlabsOrder(s, t);
    }
    FourAligned(s, p);
  }

  lemma LiveBelow(c: Cells, k: int)
    requires IsLive(c, k)
    ensures 0 <= k < c.n
  {
  }

  lemma OffsetOrder(j: int, k: int, size: int)
    requires j < k && 4 <= size
    ensures Offset(size, j) + size <= Offset(size, k)
  {
    TimesOrder(j, k, size);
  }

  lemma SlabsOrder(s: int, t: int)
    requires s % SLABSIZE == 0 && t % SLABSIZE == 0
    ensures s == t || s + SLABSIZE <= t || t + SLABSIZE <= s
  {
  }

  lemma FourAligned(s: int, p: int)
    requires s % SLABSIZE == 0
    ensures (p - s) % 4 == 0 ==> p % 4 == 0
  {
    assert s % 4 == 0 by {
      var t := s / SLABSIZE;
      assert s == 4 * (256 * t);
    }
  }

  // ---------- the check of a slab ----------

  /** No slab header and no byte that links the free cells lies in a cell in use. */
  lemma LinksApart(v: Slabs, p: int, t: int, i: int)
    requires Ok(v) && IsLiveCell(v, p) && IsSlab(v, t)
    ensures t + HEADER <= p || p + CellSize(v, p) <= t
    ensures !Empty(v, t) && 0 <= i < |List(v, t)| ==> var a := t + Entry(CellsOf(v, t), i); a < p || p + CellSize(v, p) <= a
  {
    hide Ok, IsSlab, Empty, CellsOk, Size, Offset, IsLive, Header, IsLiveCell, CellSize, SlabFor;
    CellsApart(v, p, p);
    var s := SlabFor(p);
    var j := WhichCell(v, p);
    SlabIsAligned(v, t);
    if s != t {
      SlabsOrder(s, t);
    }
    if !Empty(v, t) && 0 <= i < |List(v, t)| {
      EntryIn(v, t, i);
      if s == t {
        SizeAt(v, s, p);
        EntryNotLive(CellsOf(v, s), i, j);
      }
    }
  }

  /** A free cell lies in its slab. */
  lemma EntryIn(v: Slabs, t: int, i: int)
    requires Ok(v) && IsSlab(v, t) && !Empty(v, t) && 0 <= i < |List(v, t)|
    ensures CellsOk(t, CellsOf(v, t), v.bytes) && HEADER <= Entry(CellsOf(v, t), i) < SLABSIZE && 0 <= CellsOf(v, t).list[i] < CellsOf(v, t).n
  {
    hide Ok, IsSlab, Empty, ListOk, LinksOk, CountsOk, Size, Offset;
    SlabIs(v, t);
    var c := CellsOf(v, t);
    CountsOfCells(t, c, v.bytes);
    ListIs(t, c, v.bytes, i, i);
    OffsetIs(c, c.list[i]);
  }

  lemma EntryNotLive(c: Cells, i: int, k: int)
    requires 0 <= i < |c.list| && IsLive(c, k) && 4 <= Size(c.h)
    ensures Entry(c, i) < Offset(Size(c.h), k) || Offset(Size(c.h), k) + Size(c.h) <= Entry(c, i)
  {
    hide Size, Offset;
    var x := c.list[i];
    assert x in c.list;
    if x < k {
      OffsetOrder(x, k, Size(c.h));
    } else {
      OffsetOrder(k, x, Size(c.h));
    }
  }

  /** DoCheckSlab, for a slab on the full list or in the tree of its size: false where it panics. */
  predicate SlabCheck(h: int, full: bool) {
    var used, size := Usedm4(h) + 4, Size(h);
    && h / 0x1000_0000 % 8 == 0 && used < SLABSIZE && 3 < size < MAXSLABSIZE
    && if full then used == PAYLOAD / size * size && Floating(h)
       else used % size == 0 && (Free(h) == 0 || (Free(h) * 4 - HEADER) % size == 0)
  }

  /** Every slab with cells passes the check, except that the check takes the largest cell size for an error. */
  lemma CheckOfSlab(v: Slabs, s: int)
    requires Ok(v) && IsSlab(v, s) && !Empty(v, s)
    ensures SlabCheck(Header(v, s), Floating(Header(v, s))) <==> Size(Header(v, s)) != MAXSLABSIZE
  {
    hide Ok, Header, CellsOk, Size, Floating, SlabCheck, Times;
    SlabIs(v, s);
    CellsHeader(v, s);
    CheckOfCells(s, CellsOf(v, s), v.bytes);
  }

  lemma CheckOfCells(s: int, c: Cells, bytes: map<int, int>)
    requires CellsOk(s, c, bytes) && Size(c.h) <= MAXSLABSIZE
    requires Floating(c.h) ==> c.list == [] && Times(c.n + 1, Size(c.h)) > PAYLOAD
    ensures SlabCheck(c.h, Floating(c.h)) <==> Size(c.h) != MAXSLABSIZE
  {
    hide Size, Usedm4, Free, IsHeader, ListOk, LinksOk, Floating, Times;
    var size := Size(c.h);
    CountsOfCells(s, c, bytes);
    WordTop(c.h);
    UsedBelow(c);
    WholeCells(c.n - |c.list|, size);
    FreeCellAt(s, c, bytes);
    if Floating(c.h) {
      FullCells(c.n, size);
    }
  }

  lemma UsedBelow(c: Cells)
    requires CountsOk(c)
    ensures Times(c.n - |c.list|, Size(c.h)) <= PAYLOAD
  {
    hide Size, Usedm4, Free, IsHeader;
    TimesMore(c.n - |c.list|, c.n, Size(c.h));
  }

  lemma TimesMore(j: int, k: int, size: int)
    requires j <= k && size >= 0
    ensures Times(j, size) <= Times(k, size)
  {
    NonNeg(k - j, size);
    assert k * size == j * size + (k - j) * size;
  }

  lemma WordTop(h: int)
    requires IsHeader(h)
    ensures h / 0x1000_0000 % 8 == 0
  {
  }

  lemma WholeCells(k: int, size: int)
    requires size > 0 && k >= 0
    ensures Times(k, size) >= 0 && Times(k, size) % size == 0
  {
    NonNeg(k, size);
    BitStrings.DivModUnique(Times(k, size), size, k, 0);
  }

  lemma FullCells(n: int, size: int)
    requires n >= 0 && size > 0 && Times(n, size) <= PAYLOAD < Times(n + 1, size)
    ensures Times(n, size) == PAYLOAD / size * size
  {
    TimesNext(n, size);
    NonNeg(n, size);
    BitStrings.DivModUnique(PAYLOAD, size, n, PAYLOAD - Times(n, size));
  }

  /** The first free cell lies on a cell boundary. */
  lemma FreeCellAt(s: int, c: Cells, bytes: map<int, int>)
    requires CellsOk(s, c, bytes)
    ensures Size(c.h) >= 4 && (Free(c.h) == 0 || (Free(c.h) * 4 - HEADER) % Size(c.h) == 0)
  {
    hide Size, Free, Usedm4, IsHeader, LinksOk;
    if c.list != [] {
      ListFirst(s, c, bytes);
      WholeCells(c.list[0], Size(c.h));
    }
  }

  // ---------- which cell size serves a request ----------

  /** Cells of 4 * k bytes are configured. */
  predicate Configured(slabbitmap: nat, k: int) {
    1 <= k <= 14 && slabbitmap / Bit(k) % 2 == 1
  }

  /** 1 << k - 1 */
  function Bit(k: int): (b: nat)
    ensures b > 0
    decreases k
  {
    if k <= 1 then 1 else 2 * Bit(k - 1)
  }

  /** ix stands for the smallest configured size of at least 4 * k bytes; 0xff when there is none. */
  ghost predicate Serves(slabbitmap: nat, k: int, ix: int) {
    if ix == 0xFF then forall j :: k <= j ==> !Configured(slabbitmap, j)
    else k <= ix + 1 && Configured(slabbitmap, ix + 1) && forall j :: k <= j <= ix ==> !Configured(slabbitmap, j)
  }

  /** The greatest configured size is one less than the threshold. */
  ghost predicate Greatest(slabbitmap: nat, threshold: int) {
    && Configured(slabbitmap, threshold / 4) && threshold == threshold / 4 * 4 + 1
    && forall k :: threshold / 4 < k ==> !Configured(slabbitmap, k)
  }

  /** The bit that is looked at says whether this size is configured. */
  lemma BitStep(slabbitmap: nat, k: int, bit: nat)
    requires 0 <= k <= 14 && if k >= 1 then bit == Bit(k) else bit == 0
    ensures bit != 0 && slabbitmap / bit % 2 == 1 <==> Configured(slabbitmap, k)
    ensures k >= 1 ==> bit / 2 == if k >= 2 then Bit(k - 1) else 0
  {
  }

  /** One size further down. */
  lemma NextSize(slabbitmap: nat, k: int, ix: int)
    requires 0 <= k <= 14 && Serves(slabbitmap, k + 1, ix)
    ensures if Configured(slabbitmap, k) then Serves(slabbitmap, k, k - 1) else Serves(slabbitmap, k, ix)
    ensures Configured(slabbitmap, k) && ix == 0xFF ==> Greatest(slabbitmap, 4 * k + 1)
    ensures Configured(slabbitmap, k) ==> k >= 1
  {
    hide Bit;
  }

  /** SlabConfig: the table from sizes, in units of four bytes, to cell sizes, and the first size that no cell
      can hold. */
  method SlabConfig(slabbitmap: nat) returns (sizeMap: map<int, int>, threshold: int)
    ensures forall k :: 0 <= k <= 14 ==> k in sizeMap && Serves(slabbitmap, k, sizeMap[k])
    ensures threshold == 0 ==> forall k :: !Configured(slabbitmap, k)
    ensures threshold != 0 ==> Greatest(slabbitmap, threshold)
  {
    var ix := 0xFF;
    var k := 14;
    var bit := Bit(14);
    sizeMap, threshold := map[], 0;
    while k >= 0
      invariant -1 <= k <= 14 && (k >= 1 ==> bit == Bit(k)) && (k == 0 ==> bit == 0)
      invariant Serves(slabbitmap, k + 1, ix)
      invariant forall j :: k < j <= 14 ==> j in sizeMap && Serves(slabbitmap, j, sizeMap[j])
      invariant threshold == 0 <==> ix == 0xFF
      invariant threshold != 0 ==> Greatest(slabbitmap, threshold)
    {
      hide Serves, Greatest, Configured, Bit;
      BitStep(slabbitmap, k, bit);
      NextSize(slabbitmap, k, ix);
      if bit != 0 && slabbitmap / bit % 2 == 1 {
        if ix == 0xFF {
          threshold := 4 * k + 1;
        }
        ix := k - 1;
      }
      sizeMap := sizeMap[k := ix];
      k := k - 1;
      bit := bit / 2;
    }
  }

  /** A request below the threshold is served by cells that are large enough, and configured sizes serve
      themselves, so that a freed cell finds its own tree again. */
  lemma ServedWell(slabbitmap: nat, sizeMap: map<int, int>, threshold: int, size: int)
    requires forall k :: 0 <= k <= 14 ==> k in sizeMap && Serves(slabbitmap, k, sizeMap[k])
    requires threshold != 0 ==> Greatest(slabbitmap, threshold)
    requires 0 <= size < threshold
    ensures (size + 3) / 4 in sizeMap
    ensures var ix := sizeMap[(size + 3) / 4];
            ix != 0xFF && size <= 4 * (ix + 1) <= MAXSLABSIZE && ix + 1 in sizeMap && sizeMap[ix + 1] == ix
  {
    var k := (size + 3) / 4;
    assert k <= threshold / 4;
    assert Serves(slabbitmap, k, sizeMap[k]);
    var ix := sizeMap[k];
    assert Serves(slabbitmap, ix + 1, sizeMap[ix + 1]);
  }

  // ---------- the bitmap of free cells ----------

  /** How many cells a slab has. */
  function CellCount(size: int): int
    requires size > 0
  {
    PAYLOAD / size
  }

  /** The cells of the slab that are not in use. */
  predicate FreeCell(c: Cells, k: int)
    requires Size(c.h) > 0
  {
    0 <= k < CellCount(Size(c.h)) && !IsLive(c, k)
  }

  /** Bit k of a bitmap of four words. */
  predicate Marked(words: seq<set<int>>, k: int)
    requires |words| == 4
  {
    0 <= k < 128 && k % 32 in words[k / 32]
  }

  /** All free cells have a bit in 128. */
  ghost predicate Fits(c: Cells)
    requires Size(c.h) > 0
  {
    forall k :: FreeCell(c, k) ==> k < 128
  }

  lemma SetMark(words: seq<set<int>>, word: int, index: int)
    requires |words| == 4 && 0 <= word < 4 && 0 <= index < 32
    ensures forall k :: Marked(words[word := words[word] + {index}], k) <==> Marked(words, k) || k == 32 * word + index
  {
  }

  lemma OffsetCell(c: Cells, k: int)
    requires CountsOk(c) && 0 <= k < c.n
    ensures Size(c.h) > 0 && (Offset(Size(c.h), k) - HEADER) / Size(c.h) == k && k < CellCount(Size(c.h)) && Offset(Size(c.h), k) != 0
  {
    hide Usedm4, Free, Size, IsHeader;
    Quotient(k, Size(c.h));
    OffsetIs(c, k);
    CountIs(c);
  }

  lemma Quotient(k: nat, size: nat)
    requires size > 0
    ensures Times(k, size) >= 0 && Times(k, size) / size == k
  {
    NonNeg(k, size);
    BitStrings.DivModUnique(Times(k, size), size, k, 0);
  }

  lemma CountIs(c: Cells)
    requires CountsOk(c)
    ensures Size(c.h) > 0 && c.n <= CellCount(Size(c.h)) && (Usedm4(c.h) + 4) / Size(c.h) == c.n - |c.list|
  {
    hide Usedm4, Free, Size, IsHeader;
    var size := Size(c.h);
    Quotient(c.n - |c.list|, size);
    Quotient(c.n, size);
    DivOrder(Times(c.n, size), PAYLOAD, size);
    hide Times;
  }

  lemma DivOrder(x: nat, y: nat, d: nat)
    requires x <= y && d > 0
    ensures x / d <= y / d
  {
    SizeBits.Quotient(x, d);
    SizeBits.Quotient(y, d);
    if x / d > y / d {
      SizeBits.MulStep(y / d, x / d, d);
    }
  }

  /** The first part of BuildPartialSlabBitmap: the cells of the free list. */
  method MarkList(s: int, h: int, bytes: map<int, int>, count: int, ghost c: Cells)
    returns (words: seq<set<int>>, freeCount: int, inside: bool)
    requires CellsOk(s, c, bytes) && h == c.h && count == CellCount(Size(h))
    ensures |words| == 4
    ensures !inside ==> !Fits(c)
    ensures inside ==> freeCount == count - c.n && (forall k {:trigger Marked(words, k)} :: Marked(words, k) <==> k in c.list)
                       && forall k :: k in c.list ==> k < 128
  {
    hide Size, Usedm4, Free, ListOk, LinksOk, CountsOk, Offset;
    CountsOfCells(s, c, bytes);
    CountIs(c);
    FreeStart(c);
    var size := Size(h);
    freeCount := count - (Usedm4(h) + 4) / size;
    words := [{}, {}, {}, {}];
    var offs := Free(h) * 4;
    ghost var i := 0;
    while offs != 0
      invariant 0 <= i <= |c.list| && offs == Entry(c, i) && |words| == 4 && freeCount == count - (c.n - |c.list|) - i
      invariant forall k {:trigger Marked(words, k)} :: Marked(words, k) <==> k in c.list[..i]
      decreases |c.list| - i
    {
      hide Marked, IsLive;
      EntryCell(s, c, bytes, i);
      var p := s + offs;
      ghost var k := (offs - HEADER) / size;
      var word, index := WordOf((offs - HEADER) / size);
      if word == 4 {
        assert FreeCell(c, k);
        return words, 0, false;
      }
      SetMark(words, word, index);
      ghost var was := words;
      words := words[word := words[word] + {index}];
      forall j ensures Marked(words, j) <==> j in c.list[..i + 1] {
        assert c.list[..i + 1] == c.list[..i] + [k];
        assert Marked(was, j) <==> j in c.list[..i];
      }
      freeCount := freeCount - 1;
      offs := ByteAt(bytes, p) * 4;
      i := i + 1;
    }
    EntryEnd(c, i);
    assert c.list[..i] == c.list;
    forall k | k in c.list ensures k < 128 {
      assert Marked(words, k);
    }
    inside := true;
  }

  /** The word of a bit, by repeated subtraction; 4 when the bit is beyond the bitmap. */
  method WordOf(bit: int) returns (word: int, index: int)
    requires bit >= 0
    ensures 0 <= word <= 4 && 0 <= index && bit == 32 * word + index && (word < 4 ==> index < 32)
  {
    word, index := 0, bit;
    while word < 4 && index >= 32
      invariant 0 <= word <= 4 && index >= 0 && bit == 32 * word + index
    {
      index, word := index - 32, word + 1;
    }
  }

  lemma FreeStart(c: Cells)
    requires CountsOk(c)
    ensures Free(c.h) * 4 == Entry(c, 0)
  {
  }

  lemma EntryEnd(c: Cells, i: int)
    requires CountsOk(c) && ListOk(c) && 0 <= i <= |c.list| && Entry(c, i) == 0
    ensures i == |c.list|
  {
    hide Size, Usedm4, Free, IsHeader;
    if i < |c.list| {
      assert Listed(c, i);
      OffsetIs(c, c.list[i]);
    }
  }

  lemma EntryCell(s: int, c: Cells, bytes: map<int, int>, i: int)
    requires CellsOk(s, c, bytes) && 0 <= i <= |c.list| && Entry(c, i) != 0
    ensures i < |c.list| && Size(c.h) > 0 && (Entry(c, i) - HEADER) / Size(c.h) == c.list[i] && c.list[i] >= 0 && FreeCell(c, c.list[i])
    ensures ByteAt(bytes, s + Entry(c, i)) * 4 == Entry(c, i + 1)
  {
    hide Size, Usedm4, Free, IsHeader, ListOk, LinksOk;
    ListIs(s, c, bytes, i, 0);
    if i < |c.list| {
      OffsetCell(c, c.list[i]);
    }
  }

  /** BuildPartialSlabBitmap: the bitmap of the cells that are not in use. It has 128 bits; a slab with a free
      cell beyond them makes the checker write outside. */
  method BuildPartialSlabBitmap(s: int, h: int, bytes: map<int, int>, ghost c: Cells)
    returns (words: seq<set<int>>, inside: bool)
    requires CellsOk(s, c, bytes) && h == c.h
    ensures Size(h) > 0 && |words| == 4 && (inside <==> Fits(c))
    ensures inside ==> forall k {:trigger Marked(words, k)} :: Marked(words, k) <==> FreeCell(c, k)
  {
    hide Size, Usedm4, Free, ListOk, LinksOk, CountsOk, CellCount;
    CountsOfCells(s, c, bytes);
    CountIs(c);
    var count := CellCount(Size(h));
    var freeCount;
    words, freeCount, inside := MarkList(s, h, bytes, count, c);
    if !inside {
      return;
    }
    CarvedOrFree(s, c, bytes);
    var word, index := (count - 1) / 32, (count - 1) % 32;
    while freeCount != 0 && word >= 0
      invariant |words| == 4 && 0 <= freeCount <= count - c.n && 0 <= index < 32 && 32 * word + index == c.n - 1 + freeCount
      invariant forall k {:trigger Marked(words, k)} :: Marked(words, k) <==> k in c.list || (c.n - 1 + freeCount < k < count)
      decreases freeCount
    {
      hide Marked;
      if word >= 4 {
        assert FreeCell(c, 32 * word + index);
        return words, false;
      }
      SetMark(words, word, index);
      ghost var was := words;
      words := words[word := words[word] + {index}];
      forall j ensures Marked(words, j) <==> j in c.list || (c.n - 2 + freeCount < j < count) {
        assert Marked(was, j) <==> j in c.list || (c.n - 1 + freeCount < j < count);
      }
      if index > 0 {
        index := index - 1;
      } else {
        index, word := 31, word - 1;
      }
      freeCount := freeCount - 1;
    }
    forall k | FreeCell(c, k) ensures k < 128 {
      assert Marked(words, k);
    }
  }

  lemma CarvedOrFree(s: int, c: Cells, bytes: map<int, int>)
    requires CellsOk(s, c, bytes)
    ensures Size(c.h) > 0 && c.n >= 1
    ensures forall k :: k in c.list ==> 0 <= k < c.n
    ensures forall k {:trigger FreeCell(c, k)} :: FreeCell(c, k) <==> k in c.list || c.n <= k < CellCount(Size(c.h))
  {
    hide Size, Usedm4, Free, IsHeader, ListOk, LinksOk;
    CountIs(c);
    forall k | k in c.list ensures 0 <= k < c.n {
      var j :| 0 <= j < |c.list| && c.list[j] == k;
      ListIs(s, c, bytes, j, 0);
    }
  }

  /** Cells of eight bytes or more always have their bit. */
  lemma LargeCellsFit(s: int, c: Cells, bytes: map<int, int>)
    requires CellsOk(s, c, bytes) && Size(c.h) >= 8
    ensures Fits(c)
  {
    hide Size, Usedm4, Free, ListOk, LinksOk, IsLive;
    FewCells(Size(c.h));
  }

  lemma FewCells(size: int)
    requires size >= 8
    ensures CellCount(size) <= 126
  {
    SizeBits.Quotient(PAYLOAD, size);
    NonNeg(size - 8, CellCount(size));
    assert (size - 8) * CellCount(size) == CellCount(size) * size - 8 * CellCount(size);
  }

  /** Cells of four bytes do not: a new slab has its last 124 cells beyond the bitmap. */
  lemma SmallCellsDoNot(s: int, h: int)
    ensures Size(Fresh(h, 4).h) == 4 && !Fits(Fresh(h, 4))
  {
    FreshOk(s, h, 4, map[]);
    assert FreeCell(Fresh(h, 4), 128);
  }
}
