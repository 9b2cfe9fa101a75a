/** The whole heap. Small requests go to the slab allocator, large ones to the page allocator, the others to the
    arena; a block is sent back to the part it came from by its address alone. */
module HybridHeaps {
  import opened BitStrings
  import opened Memories
  import Arenas
  import PagedHeaps
  import PageCodes
  import PageMaps
  import SlabCells
  import SlabHeaps
  import SlabInfos
  import Tags
  import SizeBits
  import Words

  const PAGESIZE: int := 4096
  const MAX_ALLOC: int := 0x3FFF_FFFF

  /** The blocks of the heap: chunks of the arena, cells of slabs, and blocks of pages. */
  datatype Store = Store(self: int, base: int, dl: map<int, int>, slabs: SlabHeaps.Slabs, pages: PageMaps.Runs)

  /** The address tests of Free, AllocLen and ReAlloc. */
  datatype Part = Dl | Slab | Paged

  function PartOf(self: int, a: int): Part {
    if a >= self then Dl else if a % PAGESIZE != 0 then Slab else Paged
  }

  function PagesIn(len: int): nat {
    if len < 0 then 0 else len / PAGESIZE
  }

  /** The first page of a block of pages. */
  function PageAt(v: Store, a: int): int {
    (a - v.base) / PAGESIZE
  }

  predicate InArena(v: Store, a: int) {
    a - 8 in v.dl
  }

  ghost predicate InSlab(v: Store, a: int) {
    SlabHeaps.IsLiveCell(v.slabs, a)
  }

  predicate InPages(v: Store, a: int) {
    a % PAGESIZE == 0 && PageAt(v, a) >= 0 && PageAt(v, a) in v.pages
  }

  ghost predicate IsBlock(v: Store, a: int) {
    InArena(v, a) || InSlab(v, a) || InPages(v, a)
  }

  /** The length of a block. */
  ghost function Len(v: Store, a: int): int {
    if InArena(v, a) then v.dl[a - 8] - 4
    else if InSlab(v, a) then SlabHeaps.CellSize(v.slabs, a)
    else if InPages(v, a) then PAGESIZE * v.pages[PageAt(v, a)]
    else 0
  }

  /** Where blocks of each kind are. */
  ghost predicate Zoned(v: Store) {
    && v.base % PAGESIZE == 0
    && (forall a :: InArena(v, a) ==> PartOf(v.self, a) == Dl)
    && (forall a {:trigger InSlab(v, a)} :: InSlab(v, a) ==> PartOf(v.self, a) == Slab)
    && (forall a :: InPages(v, a) ==> PartOf(v.self, a) == Paged)
  }

  /** A new block a, and no other change. */
  ghost predicate Gained(v: Store, w: Store, a: int) {
    && !IsBlock(v, a) && IsBlock(w, a)
    && (forall q {:trigger IsBlock(v, q)} {:trigger IsBlock(w, q)} :: q != a ==> (IsBlock(w, q) <==> IsBlock(v, q)) && Len(w, q) == Len(v, q))
  }

  /** Block a has gone, and nothing else has changed. */
  ghost predicate Lost(v: Store, w: Store, a: int) {
    && IsBlock(v, a) && !IsBlock(w, a)
    && (forall q {:trigger IsBlock(v, q)} {:trigger IsBlock(w, q)} :: q != a ==> (IsBlock(w, q) <==> IsBlock(v, q)) && Len(w, q) == Len(v, q))
  }

  ghost predicate Same(v: Store, w: Store) {
    forall q {:trigger IsBlock(v, q)} {:trigger IsBlock(w, q)} :: (IsBlock(w, q) <==> IsBlock(v, q)) && Len(w, q) == Len(v, q)
  }

  /** Block a has become block b, and nothing else has changed. */
  ghost predicate Became(v: Store, w: Store, a: int, b: int) {
    && IsBlock(v, a) && IsBlock(w, b) && (b == a || (!IsBlock(v, b) && !IsBlock(w, a)))
    && (forall q {:trigger IsBlock(v, q)} {:trigger IsBlock(w, q)} :: q != a && q != b ==> (IsBlock(w, q) <==> IsBlock(v, q)) && Len(w, q) == Len(v, q))
  }

  /** Byte i of block q. */
  ghost predicate Holds(v: Store, q: int, i: int) {
    IsBlock(v, q) && 0 <= i < Len(v, q)
  }

  /** Byte i of a is now byte i of b. */
  predicate SameByte(was: map<int, int>, now: map<int, int>, a: int, b: int, i: int) {
    ByteAt(now, b + i) == ByteAt(was, a + i)
  }

  /** The first n bytes of block a are now those of b, and all other blocks have kept theirs. */
  ghost predicate Kept(v: Store, was: map<int, int>, now: map<int, int>, a: int, b: int, n: int) {
    && (forall i :: 0 <= i < n ==> SameByte(was, now, a, b, i))
    && (forall q, i {:trigger Holds(v, q, i)} :: q != a && Holds(v, q, i) ==> SameByte(was, now, q, q, i))
  }

  // ---------- one part changes ----------

  lemma ArenaGained(v: Store, w: Store, mem: int, nb: int)
    requires Zoned(v) && Zoned(w) && w == v.(dl := w.dl) && Arenas.Took(v.dl, w.dl, mem, nb)
    ensures Gained(v, w, mem) && nb - 4 <= Len(w, mem) < nb + 12
  {
    hide SlabHeaps.IsLiveCell, SlabHeaps.CellSize;
    assert InArena(w, mem);
    forall q | q != mem ensures (IsBlock(w, q) <==> IsBlock(v, q)) && Len(w, q) == Len(v, q) {
      assert InArena(w, q) <==> InArena(v, q);
      assert InSlab(w, q) <==> InSlab(v, q);
    }
    assert !InSlab(v, mem) && !InPages(v, mem);
  }

  lemma ArenaLost(v: Store, w: Store, mem: int)
    requires Zoned(v) && w == v.(dl := v.dl - {mem - 8}) && InArena(v, mem)
    ensures Lost(v, w, mem)
  {
    hide SlabHeaps.IsLiveCell, SlabHeaps.CellSize;
    forall q | q != mem ensures (IsBlock(w, q) <==> IsBlock(v, q)) && Len(w, q) == Len(v, q) {
      assert InArena(w, q) <==> InArena(v, q);
      assert InSlab(w, q) <==> InSlab(v, q);
    }
    assert !InSlab(w, mem) by { assert !InSlab(v, mem); }
    assert !InPages(v, mem);
  }

  lemma SlabGained(v: Store, w: Store, p: int)
    requires Zoned(v) && Zoned(w) && w == v.(slabs := w.slabs) && SlabHeaps.Gained(v.slabs, w.slabs, p)
    ensures Gained(v, w, p) && Len(w, p) == SlabHeaps.CellSize(w.slabs, p)
  {
    hide SlabHeaps.IsLiveCell, SlabHeaps.CellSize;
    assert InSlab(w, p);
    assert !InArena(w, p) && !InPages(w, p);
    forall q | q != p ensures (IsBlock(w, q) <==> IsBlock(v, q)) && Len(w, q) == Len(v, q) {
      assert InSlab(w, q) <==> InSlab(v, q);
    }
  }

  lemma SlabLost(v: Store, w: Store, p: int)
    requires Zoned(v) && w == v.(slabs := w.slabs) && SlabHeaps.Lost(v.slabs, w.slabs, p)
    ensures Lost(v, w, p)
  {
    hide SlabHeaps.IsLiveCell, SlabHeaps.CellSize;
    assert InSlab(v, p) && !InArena(v, p) && !InPages(v, p) && !InSlab(w, p);
    forall q | q != p ensures (IsBlock(w, q) <==> IsBlock(v, q)) && Len(w, q) == Len(v, q) {
      assert InSlab(w, q) <==> InSlab(v, q);
    }
  }

  lemma ArenaAddress(v: Store, w: Store, mem: int, nb: int)
    requires Zoned(w) && Arenas.Took(v.dl, w.dl, mem, nb)
    ensures PartOf(w.self, mem) == Dl
  {
    assert InArena(w, mem);
  }

  lemma SlabAddress(v: Store, w: Store, p: int)
    requires Zoned(w) && SlabHeaps.Gained(v.slabs, w.slabs, p)
    ensures PartOf(w.self, p) == Slab
  {
    hide SlabHeaps.IsLiveCell, SlabHeaps.CellSize;
    assert InSlab(w, p);
  }

  lemma PagesAddress(v: Store, w: Store, p: int)
    requires Zoned(w) && InPages(w, p)
    ensures PartOf(w.self, p) == Paged
  {
  }

  lemma SlabSame(v: Store, w: Store)
    requires w == v.(slabs := w.slabs) && SlabHeaps.SameLives(v.slabs, w.slabs)
    ensures Same(v, w)
  {
    hide SlabHeaps.IsLiveCell, SlabHeaps.CellSize;
    forall q ensures (IsBlock(w, q) <==> IsBlock(v, q)) && Len(w, q) == Len(v, q) {
      assert InSlab(w, q) <==> InSlab(v, q);
    }
  }

  lemma PagesGained(v: Store, w: Store, p: int, n: nat)
    requires Zoned(v) && Zoned(w) && p == v.base + PAGESIZE * PageAt(v, p) && PageAt(v, p) >= 0 && PageAt(v, p) !in v.pages
    requires w == v.(pages := v.pages[PageAt(v, p) := n])
    ensures Gained(v, w, p) && Len(w, p) == PAGESIZE * n
  {
    hide SlabHeaps.IsLiveCell, SlabHeaps.CellSize;
    assert InPages(w, p);
    assert !InArena(v, p) && !InSlab(w, p) && !InSlab(v, p);
    forall q | q != p ensures (IsBlock(w, q) <==> IsBlock(v, q)) && Len(w, q) == Len(v, q) {
      assert InSlab(w, q) <==> InSlab(v, q);
      SamePage(v, p, q);
    }
  }

  lemma PagesLost(v: Store, w: Store, p: int)
    requires Zoned(v) && InPages(v, p) && w == v.(pages := v.pages - {PageAt(v, p)})
    ensures Lost(v, w, p)
  {
    hide SlabHeaps.IsLiveCell, SlabHeaps.CellSize;
    assert !InArena(v, p) && !InSlab(w, p) by { assert !InSlab(v, p); }
    forall q | q != p ensures (IsBlock(w, q) <==> IsBlock(v, q)) && Len(w, q) == Len(v, q) {
      assert InSlab(w, q) <==> InSlab(v, q);
      SamePage(v, p, q);
    }
  }

  lemma ArenaBecame(v: Store, w: Store, a: int, b: int, size: int)
    requires 0 <= size < SizeBits.WORD
    requires Zoned(v) && Zoned(w) && w == v.(dl := w.dl) && Arenas.Resized(v.dl, w.dl, a, b, size)
    ensures Became(v, w, a, b) && Len(w, b) >= size && PartOf(w.self, b) == Dl && Len(w, b) < Arenas.Request2Size(size) + 12
  {
    hide SlabHeaps.IsLiveCell, SlabHeaps.CellSize;
    assert InArena(v, a) && InArena(w, b);
    forall q | q != a && q != b ensures (IsBlock(w, q) <==> IsBlock(v, q)) && Len(w, q) == Len(v, q) {
      assert InArena(w, q) <==> InArena(v, q);
      assert InSlab(w, q) <==> InSlab(v, q);
    }
    assert !InSlab(v, b) && !InPages(v, b) by { assert !InSlab(w, b) && !InPages(w, b); }
    assert !InSlab(w, a) && !InPages(w, a) by { assert !InSlab(v, a) && !InPages(v, a); }
  }

  lemma PagesBecame(v: Store, w: Store, a: int, b: int, n: nat)
    requires Zoned(v) && Zoned(w) && InPages(v, a) && b == v.base + PAGESIZE * PageAt(v, b) && PageAt(v, b) >= 0
    requires w == v.(pages := (v.pages - {PageAt(v, a)})[PageAt(v, b) := n]) && (b == a || PageAt(v, b) !in v.pages)
    ensures Became(v, w, a, b) && Len(w, b) == PAGESIZE * n && PartOf(w.self, b) == Paged
  {
    hide SlabHeaps.IsLiveCell, SlabHeaps.CellSize;
    assert InPages(w, b);
    assert !InArena(v, a) && !InArena(w, b) && !InSlab(w, b) && !InSlab(v, b) && !InSlab(w, a) by {
      assert !InSlab(v, a) && !InSlab(w, b);
    }
    SamePage(v, a, b);
    forall q | q != a && q != b ensures (IsBlock(w, q) <==> IsBlock(v, q)) && Len(w, q) == Len(v, q) {
      assert InSlab(w, q) <==> InSlab(v, q);
      SamePage(v, a, q);
      SamePage(v, b, q);
    }
  }

  lemma PagesLen(v: Store, a: int)
    requires Zoned(v) && InPages(v, a)
    ensures IsBlock(v, a) && Len(v, a) == PAGESIZE * v.pages[PageAt(v, a)]
  {
    assert !InArena(v, a) && !InSlab(v, a);
  }

  /** A new block takes the place of an old one. */
  lemma TookPlace(v: Store, w: Store, x: Store, a: int, b: int)
    requires Gained(v, w, b) && Lost(w, x, a) && IsBlock(v, a)
    ensures Became(v, x, a, b) && a != b && Len(x, b) == Len(w, b)
  {
    hide IsBlock, Len;
    assert a != b;
    assert IsBlock(w, b) <==> IsBlock(x, b);
    forall q | q != a && q != b ensures (IsBlock(x, q) <==> IsBlock(v, q)) && Len(x, q) == Len(v, q) {
      assert IsBlock(w, q) <==> IsBlock(v, q);
    }
  }

  lemma BecameItself(v: Store, a: int)
    requires IsBlock(v, a)
    ensures Became(v, v, a, a)
  {
  }

  lemma SamePage(v: Store, p: int, q: int)
    requires v.base % PAGESIZE == 0 && p % PAGESIZE == 0
    ensures q % PAGESIZE == 0 && PageAt(v, q) == PageAt(v, p) ==> q == p
  {
  }

  lemma InItsPage(p: int, size: int)
    requires var s := SlabHeaps.SlabFor(p); s + SlabCells.HEADER <= p && p + size <= s + SlabHeaps.SLABSIZE && p < s + SlabHeaps.SLABSIZE
    ensures var page := SlabHeaps.PageOf(SlabHeaps.SlabFor(p)); page < p && p + size <= page + PAGESIZE && p % PAGESIZE != 0
  {
    var s := SlabHeaps.SlabFor(p);
    SlabHeaps.SlabForAligned(p);
    SlabHeaps.SlabAddress(s);
    SlabHeaps.CellAddress(s, p - s);
    assert SlabHeaps.PageOf(s) == p - p % PAGESIZE;
  }

  lemma SlabBounds(p: int)
    ensures SlabHeaps.SlabFor(p) <= p < SlabHeaps.SlabFor(p) + SlabHeaps.SLABSIZE
  {
  }

  lemma Layout(memBase: int, minLength: int, maxLength: int, objectSize: int)
    requires memBase % PAGESIZE == 0 && minLength % PAGESIZE == 0 && maxLength % PAGESIZE == 0 && maxLength >= 0
    requires objectSize % 8 == 0
    ensures var at := memBase + maxLength;
      && (at + objectSize) % 8 == 0 && (minLength - objectSize) % 8 == 0
      && (at + objectSize + (minLength - objectSize)) % PAGESIZE == 0
      && (maxLength + PAGESIZE - 1) / PAGESIZE == maxLength / PAGESIZE && PAGESIZE * (maxLength / PAGESIZE) == maxLength
  {
    var m, n, k := memBase / PAGESIZE, minLength / PAGESIZE, maxLength / PAGESIZE;
    assert memBase == 8 * (512 * m) && minLength == 8 * (512 * n) && maxLength == 8 * (512 * k);
    assert memBase + maxLength + minLength == PAGESIZE * (m + n + k);
  }

  lemma LimitIs(paged: PagedHeaps.PagedHeap)
    requires paged.memory.maxLength >= 0
    ensures paged.Limit() == (paged.memory.maxLength + PAGESIZE - 1) / PAGESIZE
  {
  }

  // ---------- the heap ----------

  /** What the kernel answers to an allocation: whether it extends the arena, and where it puts new pages and an
      enlarged page bitmap. */
  datatype Answers = Answers(grant: bool, at: int, mapAt: int)

  class HybridHeap {
    /** The address of the heap object, at the start of its header page. */
    const self: int
    const memory: Memory
    const arena: Arenas.Arena
    const slabs: SlabHeaps.SlabHeap
    const paged: PagedHeaps.PagedHeap
    const pageThreshold: nat
    /** The slab allocator is off until it has been configured: the threshold is 0. */
    var slabThreshold: int
    var sizeMap: map<int, int>
    ghost const slabbitmap: nat

    ghost function View(): Store
      reads arena, slabs, slabs.links, paged, slabs.paged
    {
      Store(self, paged.memBase, arena.Live(), slabs.View(), slabs.Blocks())
    }

    ghost predicate Shape() {
      && arena.memory == memory && slabs.paged == paged && paged.memory == memory
      && self == paged.Address(paged.Limit()) && self < arena.base && pageThreshold <= 31
    }

    ghost predicate Configured()
      reads this`slabThreshold, this`sizeMap
    {
      slabThreshold > 0 ==>
        && (forall k :: 0 <= k <= 14 ==> k in sizeMap && SlabInfos.Serves(slabbitmap, k, sizeMap[k]))
        && SlabInfos.Greatest(slabbitmap, slabThreshold)
    }

    /** All committed memory is accounted for: the heap object, the arena, the blocks of pages with the slab pages
        among them, and the enlarged page bitmap. */
    ghost predicate Accounted()
      reads memory`size, arena`segSize, paged
    {
      memory.size == arena.base - self + arena.segSize + paged.Held()
    }

    ghost predicate Valid()
      reads this, memory`size, arena, arena.memory`size, arena.bins, arena.bins.small, arena.bins.trees, slabs, slabs.links, paged, paged.bitmap, paged.bitmap.base
    {
      Shape() && Configured() && arena.Valid() && slabs.Whole() && Accounted()
    }

    /** Construct and Init: the heap object stands in the middle of its chunk, with the arena behind it and pages
        for the other parts in front of it. */
    constructor (memBase: int, minLength: int, maxLength: int, objectSize: int, growBy: int, hysteresis: int,
                 pageThreshold: nat, slabbitmap: nat)
      requires 0 < memBase && memBase % PAGESIZE == 0 && memBase + 2 * maxLength + objectSize <= SizeBits.WORD
      requires 0 < objectSize && objectSize % 8 == 0 && objectSize + Arenas.TOP_FOOT_SIZE < minLength <= maxLength < 0x4000_0000 - PAGESIZE
      requires minLength % PAGESIZE == 0 && maxLength % PAGESIZE == 0 && growBy >= 0 && growBy % PAGESIZE == 0
      requires maxLength / PAGESIZE % 16384 == 0 || maxLength / PAGESIZE % 16384 >= 4
      requires pageThreshold <= 31
      ensures Valid() && slabThreshold == 0 && memory.size == minLength && memory.maxLength == maxLength
      ensures forall a :: !IsBlock(View(), a)
    {
      PagedHeaps.Power12();
      hide Pow2, Arenas.Arena.Intact, Arenas.Arena.Live, SlabHeaps.SlabHeap.Whole, SlabHeaps.SlabHeap.View, PagedHeaps.PagedHeap.Valid, SlabHeaps.IsLiveCell;
      hide PagedHeaps.PagedHeap.Limit, PagedHeaps.PagedHeap.Clean, IsBlock, PageMaps.Total, SlabHeaps.SlabHeap.Valid, SlabHeaps.SlabHeap.Blocks, SlabHeaps.SlabHeap.Taken, View, Arenas.Arena.Free, PagedHeaps.PagedHeap.MapIs;
      Layout(memBase, minLength, maxLength, objectSize);
      var mem := new Memory(minLength, maxLength);
      var buffer := new bv8[PagedHeaps.MAXSMALLPAGEBITS / 8];
      var pg := new PagedHeaps.PagedHeap(mem, memBase, buffer);
      var sl := new SlabHeaps.SlabHeap(pg);
      var at := memBase + maxLength;
      memory, paged, slabs, self := mem, pg, sl, at;
      arena := new Arenas.Arena(mem, at + objectSize, minLength - objectSize, minLength - objectSize, growBy, 12, false, hysteresis);
      this.pageThreshold, this.slabbitmap := pageThreshold, slabbitmap;
      slabThreshold, sizeMap := 0, map[];
      new;
      LimitIs(paged);
      PagedHeaps.NoTotal(paged.Limit());
      NoBlocks();
    }

    /** DoCheckCommittedSize, with the pages counted by CheckBitmap, never finds a difference. */
    method DoCheckCommittedSize() returns (ok: bool)
      requires Valid()
      ensures ok
    {
      hide Arenas.Arena.Intact, SlabHeaps.SlabHeap.Valid, PagedHeaps.PagedHeap.Valid, PagedHeaps.PagedHeap.Held;
      var npages := paged.CheckBitmap();
      ok := npages * PAGESIZE + arena.segSize + (arena.base - self) == memory.size;
    }

    lemma NoBlocks()
      requires arena.Live() == map[] && slabs.paged == paged && paged.runs == map[]
      requires forall q :: !SlabHeaps.IsLiveCell(slabs.View(), q)
      ensures forall a :: !IsBlock(View(), a)
    {
      hide SlabHeaps.IsLiveCell, Arenas.Arena.Live;
      var v := View();
      forall a ensures !IsBlock(v, a) {
        assert !InSlab(v, a);
      }
    }

    /** SlabConfig: the slab allocator is switched on. */
    method ConfigureSlabs(bits: nat)
      requires Valid() && bits == slabbitmap
      modifies this`slabThreshold, this`sizeMap
      ensures Valid() && View() == old(View())
      ensures forall k :: 0 <= k <= 14 ==> k in sizeMap && SlabInfos.Serves(bits, k, sizeMap[k])
      ensures if slabThreshold == 0 then forall k :: !SlabInfos.Configured(bits, k) else SlabInfos.Greatest(bits, slabThreshold)
    {
      hide Arenas.Arena.Intact, Arenas.Arena.Live, SlabHeaps.SlabHeap.Whole, SlabHeaps.SlabHeap.View, SlabHeaps.SlabHeap.Blocks, PagedHeaps.PagedHeap.Valid;
      sizeMap, slabThreshold := SlabInfos.SlabConfig(bits);
    }

    /** A cell lies in a page that the bitmap records, and never at its start. */
    lemma CellPlace(p: int)
      requires slabs.Whole() && SlabHeaps.IsLiveCell(slabs.View(), p)
      ensures var page := SlabHeaps.PageOf(SlabHeaps.SlabFor(p));
        && slabs.BackedAt(page) && page in slabs.Taken() && p % PAGESIZE != 0
        && page < p && SlabHeaps.CellSize(slabs.View(), p) >= 4 && p + SlabHeaps.CellSize(slabs.View(), p) <= page + PAGESIZE <= slabs.paged.Address(slabs.paged.Limit())
    {
      hide SlabHeaps.Ok, SlabHeaps.LiveIn, SlabHeaps.Empty, PagedHeaps.PagedHeap.MapIs, PageMaps.Ok, SlabHeaps.CellSize;
      hide SlabHeaps.PageOf, SlabHeaps.SlabAt, SlabHeaps.PageAt, SlabHeaps.SlabFor;
      var s := SlabHeaps.SlabFor(p);
      SlabHeaps.SlabIs(slabs.View(), s);
      SlabInfos.CellsApart(slabs.View(), p, p);
      SlabBounds(p);
      InItsPage(p, SlabHeaps.CellSize(slabs.View(), p));
      assert slabs.BackedAt(SlabHeaps.PageOf(s));
      slabs.paged.RunIs(slabs.paged.Page(SlabHeaps.PageOf(s)));
    }

    lemma ArenaPlace(a: int)
      requires Shape() && arena.Valid() && a - 8 in arena.Live()
      ensures self < a && a + arena.Live()[a - 8] - 4 <= arena.base + arena.segSize && arena.Live()[a - 8] >= 16
    {
      hide Arenas.Arena.Sound, Arenas.Arena.Live;
      arena.LiveAbove(a - 8);
    }

    lemma PagesPlace(a: int)
      requires Shape() && slabs.Whole() && a % PAGESIZE == 0 && paged.Page(a) >= 0 && paged.Page(a) in slabs.Blocks()
      ensures a + PAGESIZE * slabs.Blocks()[paged.Page(a)] <= self && slabs.Blocks()[paged.Page(a)] > 0 && paged.memBase <= a
      ensures a == paged.Address(paged.Page(a)) && paged.memBase % PAGESIZE == 0 && a !in slabs.Taken()
      ensures paged.Page(a) in paged.runs && paged.runs[paged.Page(a)] == slabs.Blocks()[paged.Page(a)]
    {
      hide SlabHeaps.SlabHeap.Valid, PagedHeaps.PagedHeap.MapIs, PageMaps.Ok;
      paged.RunIs(paged.Page(a));
    }

    /** The parts of the heap lie apart. */
    lemma Zones()
      requires Valid()
      ensures Zoned(View())
    {
      hide Arenas.Arena.Intact, Arenas.Arena.Live, SlabHeaps.SlabHeap.Valid, PagedHeaps.PagedHeap.Valid, SlabHeaps.IsLiveCell;
      var v := View();
      assert v.base % PAGESIZE == 0 by { BaseIs(); }
      forall a | InArena(v, a) ensures PartOf(self, a) == Dl {
        ArenaPlace(a);
      }
      forall a | InSlab(v, a) ensures PartOf(self, a) == Slab {
        CellPlace(a);
      }
      forall a | InPages(v, a) ensures PartOf(self, a) == Paged {
        PagesPlace(a);
      }
    }

    lemma BaseIs()
      requires paged.Valid()
      ensures paged.memBase % PAGESIZE == 0
    {
      hide PagedHeaps.PagedHeap.MapIs, PageMaps.Ok;
    }

    /** Blocks do not overlap, whichever part they belong to. */
    lemma BlocksApart(a: int, b: int)
      requires Valid() && IsBlock(View(), a) && IsBlock(View(), b) && a < b
      ensures a + Len(View(), a) <= b
    {
      hide Arenas.Arena.Intact, Arenas.Arena.Live, SlabHeaps.SlabHeap.Whole, PagedHeaps.PagedHeap.Valid, SlabHeaps.IsLiveCell, SlabHeaps.CellSize, SlabHeaps.SlabHeap.Blocks;
      Zones();
      var v := View();
      if InArena(v, a) {
        ArenaPlace(a);
        if InArena(v, b) {
          ChunksApart(a, b);
        }
      } else {
        BelowObject(a);
        if InArena(v, b) {
          ArenaPlace(b);
        } else if InSlab(v, a) && InSlab(v, b) {
          CellsApart(a, b);
        } else if InPages(v, a) && InPages(v, b) {
          PagesApart(a, b);
        } else if InSlab(v, a) {
          CellAndPages(a, b);
        } else {
          CellAndPages(b, a);
        }
      }
    }

    lemma BelowObject(a: int)
      requires Valid() && IsBlock(View(), a) && !InArena(View(), a)
      ensures a + Len(View(), a) <= self
    {
      hide Arenas.Arena.Intact, Arenas.Arena.Live, SlabHeaps.SlabHeap.Whole, PagedHeaps.PagedHeap.Valid, SlabHeaps.IsLiveCell, SlabHeaps.CellSize, SlabHeaps.SlabHeap.Blocks;
      Zones();
      if InSlab(View(), a) {
        CellPlace(a);
      } else {
        PagesPlace(a);
      }
    }

    lemma ChunksApart(a: int, b: int)
      requires arena.Valid() && a - 8 in arena.Live() && b - 8 in arena.Live() && a < b
      ensures a + arena.Live()[a - 8] <= b
    {
      hide Arenas.Arena.Sound, Arenas.Arena.Live;
      arena.LivesApart(a - 8, b - 8);
      arena.LiveAbove(b - 8);
    }

    lemma CellsApart(a: int, b: int)
      requires slabs.Whole() && SlabHeaps.IsLiveCell(slabs.View(), a) && SlabHeaps.IsLiveCell(slabs.View(), b) && a < b
      ensures a + SlabHeaps.CellSize(slabs.View(), a) <= b
    {
      hide SlabHeaps.IsLiveCell, SlabHeaps.CellSize, SlabHeaps.Ok;
      SlabInfos.CellsApart(slabs.View(), a, b);
    }

    lemma PagesApart(a: int, b: int)
      requires Shape() && slabs.Whole() && a < b
      requires a % PAGESIZE == 0 && paged.Page(a) >= 0 && paged.Page(a) in slabs.Blocks()
      requires b % PAGESIZE == 0 && paged.Page(b) >= 0 && paged.Page(b) in slabs.Blocks()
      ensures a + PAGESIZE * slabs.Blocks()[paged.Page(a)] <= b
    {
      hide SlabHeaps.SlabHeap.Valid, PagedHeaps.PagedHeap.MapIs, PageMaps.Ok;
      PagesPlace(a);
      PagesPlace(b);
      paged.RunIs(paged.Page(a));
      paged.RunIs(paged.Page(b));
    }

    /** A cell lies in a slab page, and that is no page of the other block. */
    lemma CellAndPages(c: int, a: int)
      requires Shape() && slabs.Whole() && SlabHeaps.IsLiveCell(slabs.View(), c)
      requires a % PAGESIZE == 0 && paged.Page(a) >= 0 && paged.Page(a) in slabs.Blocks()
      ensures SlabHeaps.CellSize(slabs.View(), c) >= 4
      ensures c + SlabHeaps.CellSize(slabs.View(), c) <= a || a + PAGESIZE * slabs.Blocks()[paged.Page(a)] <= c
    {
      hide SlabHeaps.SlabHeap.Valid, PagedHeaps.PagedHeap.MapIs, PageMaps.Ok, SlabHeaps.IsLiveCell, SlabHeaps.CellSize;
      PagesPlace(a);
      CellPlace(c);
      paged.RunIs(paged.Page(a));
      paged.RunIs(paged.Page(SlabHeaps.PageOf(SlabHeaps.SlabFor(c))));
    }

    // ---------- allocation ----------

    /** A free chunk or the top of the arena is large enough, or the arena can grow by what it takes. */
    ghost predicate ArenaHas(size: nat, grant: bool)
      requires size < SizeBits.WORD
      reads arena, memory`size
    {
      var nb := Arenas.Request2Size(size);
      var need := nb - arena.topSize + Arenas.SYS_ALLOC_PADDING;
      || !Arenas.NoneFits(arena.Free(), nb) || arena.topSize > nb
      || (grant && arena.growBy > 0 && need + arena.growBy <= 0x8000_0000
          && memory.size + Words.AlignUp(need, arena.growBy) <= memory.maxLength)
    }

    /** A slab has room for one more cell, or there is an empty slab, or a page for a new one can be had. */
    ghost predicate CellRoom(cell: int, k: Answers)
      reads slabs, slabs.links, slabs.paged, slabs.paged.bitmap, memory`size, paged.bitmap
    {
      || (exists t :: SlabHeaps.RoomIn(slabs.links.tree, slabs.header, SlabHeaps.SizeTree(cell), t))
      || (exists e :: SlabHeaps.Vacant(slabs.View(), e))
      || slabs.spare != 0 || slabs.PageRoom(memory.size, paged.bitmap.nbits, k.at, k.mapAt)
    }

    /** The part of the heap that serves a request: the slabs below the threshold, as long as there is room for a cell,
        the pages for large blocks, as long as they can be had, and otherwise the arena. */
    ghost function Source(size: nat, k: Answers): Part
      reads this`slabThreshold, this`sizeMap, slabs, slabs.links, slabs.paged, slabs.paged.bitmap, memory`size, paged.bitmap
    {
      if size < slabThreshold then if CellRoom(CellOf(size), k) then Slab else Dl
      else if IsLarge(size) && RoomForPages(memory.size, paged.bitmap.nbits, size, k.at, k.mapAt) then Paged
      else Dl
    }

    /** A request is served, with a block of the right length, by the part that is to serve it, and fails only if that
        is the arena and the arena has no room. */
    ghost predicate Served(source: Part, arenaHas: bool, size: nat, addr: int, len: int)
      requires size < SizeBits.WORD
      reads this`sizeMap
    {
      && (source != Dl || arenaHas ==> addr != 0)
      && (addr != 0 ==> PartOf(self, addr) == source && size <= len)
      && (addr != 0 ==>
            match source
            case Slab => len == CellOf(size)
            case Dl => len < Arenas.Request2Size(size) + 12
            case Paged => len == PAGESIZE * PagedHeaps.Pages(size))
    }

    /** A block from the arena. */
    method FromArena(size: nat, grant: bool) returns (addr: int)
      requires Valid() && size < SizeBits.WORD
      modifies arena, arena.bins.small, arena.bins.trees, memory`size
      ensures Valid()
      ensures addr != 0 ==> Gained(old(View()), View(), addr) && Len(View(), addr) >= size && PartOf(self, addr) == Dl
      ensures addr != 0 ==> Len(View(), addr) < Arenas.Request2Size(size) + 12
      ensures addr == 0 ==> View() == old(View())
      ensures old(ArenaHas(size, grant)) && size < MAX_ALLOC ==> addr != 0
    {
      hide Arenas.Arena.Intact, Arenas.Arena.Live, Arenas.Took, SlabHeaps.SlabHeap.Whole, SlabHeaps.SlabHeap.View, SlabHeaps.SlabHeap.Blocks;
      hide Zoned, IsBlock, Len, Gained;
      Zones();
      ghost var v := View();
      addr := arena.DlMalloc(size, grant);
      if addr != 0 {
        Zones();
        Arenas.RequestFits(size);
        ArenaGained(v, View(), addr, Arenas.Request2Size(size));
        ArenaAddress(v, View(), addr, Arenas.Request2Size(size));
      }
    }

    /** A cell of a slab. */
    method FromSlabs(size: int, k: Answers) returns (addr: int)
      requires Valid() && size % 4 == 0 && 4 <= size <= SlabHeaps.MAXSLABSIZE && slabs.PageOffer(k.at, k.mapAt)
      modifies slabs, slabs.links, paged, paged.bitmap, paged.bitmap.base, memory`size
      ensures Valid() && (paged.bitmap.base == old(paged.bitmap.base) || fresh(paged.bitmap.base))
      ensures addr != 0 ==> Gained(old(View()), View(), addr) && Len(View(), addr) == size && PartOf(self, addr) == Slab
      ensures addr == 0 ==> Same(old(View()), View()) && memory.size == old(memory.size)
      ensures addr != 0 <==> old(CellRoom(size, k))
    {
      hide SlabHeaps.RoomIn, SlabHeaps.Vacant, SlabHeaps.SlabHeap.PageRoom;
      hide Arenas.Arena.Intact, Arenas.Arena.Live, SlabHeaps.SlabHeap.Whole, SlabHeaps.SlabHeap.View, SlabHeaps.SlabHeap.Blocks, SlabHeaps.SlabHeap.PageOffer;
      hide Zoned, IsBlock, Len, Gained, SlabHeaps.Gained, SlabHeaps.SameLives, SlabHeaps.CellSize, Same, PageMaps.Total;
      Zones();
      ghost var v := View();
      addr := slabs.SlabAllocate(size, k.at, k.mapAt);
      if addr != 0 {
        Zones();
        SlabGained(v, View(), addr);
        SlabAddress(v, View(), addr);
      } else {
        SlabSame(v, View());
      }
    }

    /** A block of pages. */
    method FromPages(size: nat, at: int, mapAt: int) returns (addr: int)
      requires Valid() && 0 < size < MAX_ALLOC && PagesOffer(size, at, mapAt)
      modifies paged, paged.bitmap, paged.bitmap.base, memory`size
      ensures Valid() && (paged.bitmap.base == old(paged.bitmap.base) || fresh(paged.bitmap.base))
      ensures addr != 0 ==> Gained(old(View()), View(), addr) && Len(View(), addr) >= size && PartOf(self, addr) == Paged
      ensures addr != 0 ==> Len(View(), addr) == PAGESIZE * PagedHeaps.Pages(size)
      ensures addr == 0 ==> View() == old(View()) && memory.size == old(memory.size)
      ensures addr != 0 <==> RoomForPages(old(memory.size), old(paged.bitmap.nbits), size, at, mapAt)
    {
      hide Shape, Configured, Accounted, Arenas.Arena.Valid, SlabHeaps.SlabHeap.Whole, RoomForPages, PagesOffer;
      hide Zoned, IsBlock, Len, Gained, PagedHeaps.Pages;
      Zones();
      ghost var v := View();
      addr := TakePages(size, at, mapAt);
      if addr != 0 {
        Zones();
        AtAddress(addr);
        PagedHeaps.PagesIs(size);
        PagesGained(v, View(), addr, PagedHeaps.Pages(size));
        PagesAddress(v, View(), addr);
      }
    }

    lemma AtAddress(addr: int)
      requires Valid() && addr == paged.Address(paged.Page(addr))
      ensures addr % PAGESIZE == 0 && PageAt(View(), addr) == paged.Page(addr) && addr == View().base + PAGESIZE * PageAt(View(), addr)
    {
      hide Arenas.Arena.Live, Arenas.Arena.Valid, SlabHeaps.SlabHeap.View, SlabHeaps.SlabHeap.Blocks, SlabHeaps.SlabHeap.Valid, PagedHeaps.PagedHeap.Valid;
      BaseIs();
    }

    /** PagedAllocate, as it changes the blocks of the heap. */
    method TakePages(size: nat, at: int, mapAt: int) returns (addr: int)
      requires Valid() && 0 < size < MAX_ALLOC && PagesOffer(size, at, mapAt)
      modifies paged, paged.bitmap, paged.bitmap.base, memory`size
      ensures Valid() && (paged.bitmap.base == old(paged.bitmap.base) || fresh(paged.bitmap.base))
      ensures addr != 0 ==> var v, p := old(View()), paged.Page(addr);
        p >= 0 && addr == paged.Address(p) && p !in v.pages && View() == v.(pages := v.pages[p := PagedHeaps.Pages(size)])
      ensures addr == 0 ==> View() == old(View()) && memory.size == old(memory.size)
      ensures addr != 0 <==> RoomForPages(old(memory.size), old(paged.bitmap.nbits), size, at, mapAt)
    {
      hide Arenas.Arena.Intact, Arenas.Arena.Live, SlabHeaps.SlabHeap.Valid, SlabHeaps.SlabHeap.View, SlabHeaps.SlabHeap.BlocksOf, PagesOffer;
      hide PageMaps.Total, PagedHeaps.PagedHeap.Valid, PageMaps.Clear, PageMaps.Ok, PagedHeaps.PagedHeap.MapIs, PagedHeaps.PagedHeap.Placed;
      hide Tags.Ok, Configured, PagedHeaps.Pages, Words.AlignUp, PagedHeaps.PagedHeap.Page, PagedHeaps.PagedHeap.Address, PagedHeaps.PagedHeap.Limit;
      SizePositive();
      ghost var runs := paged.runs;
      PagesOfferIs(size, at, mapAt);
      addr := paged.PagedAllocate(size, at, mapAt);
      if addr != 0 {
        PagesClean();
        slabs.BlockComes(runs, slabs.Taken(), paged.Page(addr), PagedHeaps.Pages(size));
      }
    }

    /** The pages can be had and recorded. */
    predicate RoomForPages(mapped: int, nbits: int, size: nat, at: int, mapAt: int) {
      paged.Placed(mapped, nbits, PagedHeaps.Pages(size), at, mapAt)
    }

    lemma SizePositive()
      requires Valid()
      ensures 0 < arena.segSize <= memory.size <= memory.maxLength
    {
      hide SlabHeaps.SlabHeap.Whole, PageMaps.Total, Tags.Ok;
      arena.TopPositive();
    }

    lemma PagesClean()
      requires paged.Valid()
      ensures paged.Clean()
    {
    }

    /** What the kernel may answer when it is asked for the pages of a large block. */
    ghost predicate PagesOffer(size: nat, at: int, mapAt: int)
      reads paged
    {
      paged.Offer(at, PagedHeaps.Pages(size)) && (at >= 0 ==> paged.MapOffer(mapAt, at, PagedHeaps.Pages(size)))
    }

    lemma PagesOfferIs(size: nat, at: int, mapAt: int)
      requires PagesOffer(size, at, mapAt)
      ensures paged.Offer(at, PagedHeaps.Pages(size)) && (at >= 0 ==> paged.MapOffer(mapAt, at, PagedHeaps.Pages(size)))
    {
    }

    /** What the kernel may answer to an allocation. */
    ghost predicate Offers(k: Answers, size: nat)
      reads this`slabThreshold, paged, slabs.paged
    {
      if size < slabThreshold then slabs.PageOffer(k.at, k.mapAt)
      else IsLarge(size) ==> PagesOffer(size, k.at, k.mapAt)
    }

    /** aSize >> iPageThreshold is not 0. */
    predicate IsLarge(size: nat): (large: bool)
      ensures large <==> size >= Pow2(pageThreshold)
    {
      SomeOf(size, Pow2(pageThreshold));
      size / Pow2(pageThreshold) != 0
    }

    /** Alloc: a new block of at least the requested length, or 0 and no change. */
    method Alloc(size: nat, k: Answers) returns (addr: int)
      requires Valid() && size < MAX_ALLOC && Offers(k, size)
      modifies arena, arena.bins.small, arena.bins.trees, slabs, slabs.links, paged, paged.bitmap, paged.bitmap.base, memory`size
      ensures Valid() && (paged.bitmap.base == old(paged.bitmap.base) || fresh(paged.bitmap.base))
      ensures addr != 0 ==> Gained(old(View()), View(), addr)
      ensures addr == 0 ==> Same(old(View()), View())
      ensures Served(old(Source(size, k)), old(ArenaHas(size, k.grant)), size, addr, Len(View(), addr))
    {
      hide RoomForPages, CellRoom, SlabHeaps.SlabHeap.View;
      hide Valid, View, Same, Gained, Len, PagesOffer, SlabHeaps.SlabHeap.PageOffer, IsLarge, ArenaHas;
      ghost var v := View();
      if size < slabThreshold {
        var cell := CellFor(size);
        addr := FromSlabs(cell, k);
        if addr == 0 {
          ghost var w := View();
          addr := FromArena(size, k.grant);
          GainedLater(v, w, View(), addr);
        }
      } else if !IsLarge(size) {
        addr := FromArena(size, k.grant);
        SameSelf(v);
      } else {
        SomeLarge(size);
        addr := FromPages(size, k.at, k.mapAt);
        SameSelf(v);
        if addr == 0 {
          addr := FromArena(size, k.grant);
        }
      }
    }

    /** The cell size that the table has for a request. */
    function CellOf(size: nat): int
      reads this`sizeMap
    {
      if (size + 3) / 4 in sizeMap then 4 * (sizeMap[(size + 3) / 4] + 1) else 0
    }

    /** The configured cell size for a request. */
    method CellFor(size: nat) returns (cell: int)
      requires Valid() && size < slabThreshold
      ensures size <= cell <= SlabHeaps.MAXSLABSIZE && cell % 4 == 0 && cell >= 4 && cell == CellOf(size)
    {
      hide Shape, SlabHeaps.SlabHeap.Whole, Arenas.Arena.Intact, Accounted;
      SlabInfos.ServedWell(slabbitmap, sizeMap, slabThreshold, size);
      var ix := sizeMap[(size + 3) / 4];
      cell := 4 * (ix + 1);
    }

    lemma SomeLarge(size: nat)
      requires IsLarge(size)
      ensures size > 0
    {
    }

    // ---------- freeing ----------

    /** A block of the arena goes. */
    method IntoArena(addr: int)
      requires Valid() && InArena(View(), addr)
      modifies arena, arena.bins.small, arena.bins.trees, memory`size
      ensures Valid() && Lost(old(View()), View(), addr)
    {
      hide Arenas.Arena.Intact, Arenas.Arena.Live, SlabHeaps.SlabHeap.Whole, SlabHeaps.SlabHeap.View, SlabHeaps.SlabHeap.Blocks;
      hide Zoned, IsBlock, Len, Lost;
      Zones();
      ghost var v := View();
      arena.DlFree(addr);
      ArenaLost(v, View(), addr);
    }

    /** A cell of a slab goes. */
    method IntoSlabs(addr: int)
      requires Valid() && InSlab(View(), addr)
      modifies slabs, slabs.links, paged, paged.bitmap, paged.bitmap.base, memory`size
      ensures Valid() && paged.bitmap.base == old(paged.bitmap.base) && Lost(old(View()), View(), addr)
    {
      hide Arenas.Arena.Intact, Arenas.Arena.Live, SlabHeaps.SlabHeap.Whole, SlabHeaps.SlabHeap.View, SlabHeaps.SlabHeap.Blocks;
      hide Zoned, IsBlock, Len, Lost, SlabHeaps.Lost, SlabHeaps.IsLiveCell, PageMaps.Total;
      Zones();
      ghost var v := View();
      slabs.SlabFree(addr);
      SlabLost(v, View(), addr);
    }

    /** A block of pages goes. */
    method IntoPages(addr: int)
      requires Valid() && InPages(View(), addr)
      modifies paged, paged.bitmap, paged.bitmap.base, memory`size
      ensures Valid() && paged.bitmap.base == old(paged.bitmap.base) && Lost(old(View()), View(), addr)
    {
      hide Arenas.Arena.Intact, Arenas.Arena.Live, SlabHeaps.SlabHeap.Valid, SlabHeaps.SlabHeap.View, SlabHeaps.SlabHeap.BlocksOf;
      hide Zoned, IsBlock, Len, Lost, PageMaps.Total, PagedHeaps.PagedHeap.Valid;
      Zones();
      ghost var v, runs := View(), paged.runs;
      PagesPlace(addr);
      slabs.BlockGoes(runs, slabs.Taken(), paged.Page(addr));
      paged.PagedFree(addr);
      PagesLost(v, View(), addr);
    }

    /** Free: the block goes, and nothing else changes; the address says which part of the heap it belongs to. */
    method Free(addr: int)
      requires Valid() && (addr == 0 || IsBlock(View(), addr))
      modifies arena, arena.bins.small, arena.bins.trees, slabs, slabs.links, paged, paged.bitmap, paged.bitmap.base, memory`size
      ensures Valid() && paged.bitmap.base == old(paged.bitmap.base)
      ensures if addr == 0 then View() == old(View()) else Lost(old(View()), View(), addr)
    {
      hide Valid, View, Lost, InArena, InSlab, InPages;
      if addr == 0 {
        return;
      }
      RouteIs(addr);
      if addr >= self {
        IntoArena(addr);
      } else if addr % PAGESIZE == 0 {
        IntoPages(addr);
      } else {
        IntoSlabs(addr);
      }
    }

    /** The address tests find the part of the heap that a block came from. */
    lemma RouteIs(a: int)
      requires Valid() && IsBlock(View(), a)
      ensures PartOf(self, a) == Dl <==> InArena(View(), a)
      ensures PartOf(self, a) == Slab <==> InSlab(View(), a)
      ensures PartOf(self, a) == Paged <==> InPages(View(), a)
    {
      hide Valid, InArena, InSlab, InPages;
      Zones();
    }

    /** AllocLen */
    method AllocLen(addr: int) returns (len: int)
      requires Valid() && IsBlock(View(), addr)
      ensures len == Len(View(), addr)
    {
      hide Arenas.Arena.Sound, Arenas.Arena.Live, SlabHeaps.SlabHeap.Whole, SlabHeaps.SlabHeap.Blocks, SlabHeaps.IsLiveCell;
      hide SlabCells.Size;
      RouteIs(addr);
      if addr >= self {
        arena.LiveSize(addr - 8);
        len := Tags.HeadAt(arena.heads, addr - 8).size - Arenas.CHUNK_OVERHEAD;
      } else if addr % PAGESIZE != 0 {
        len := SlabCells.Size(WordOf(addr));
      } else {
        len := LenOfPages(addr);
      }
    }

    method LenOfPages(addr: int) returns (len: int)
      requires Shape() && slabs.Whole() && addr % PAGESIZE == 0 && paged.Page(addr) >= 0 && paged.Page(addr) in slabs.Blocks()
      ensures len == PAGESIZE * slabs.Blocks()[paged.Page(addr)]
    {
      hide SlabHeaps.SlabHeap.Valid, PagedHeaps.PagedHeap.Valid;
      PagesPlace(addr);
      len := paged.PagedSize(addr);
    }

    /** The header word of the slab that an address lies in. */
    function WordOf(addr: int): int
      reads slabs
    {
      var s := SlabHeaps.SlabFor(addr);
      if s in slabs.header then slabs.header[s] else 0
    }

    // ---------- reallocation ----------

    /** The chunk of the block is large enough, or top can make it so. */
    ghost predicate Roomy(addr: int, size: nat)
      requires size < SizeBits.WORD
      reads arena
    {
      Arenas.Roomy(arena.Live(), arena.top, arena.topSize, addr - 8, Arenas.Request2Size(size))
    }

    /** DlRealloc */
    method WithinArena(addr: int, size: nat, neverMove: bool, grant: bool) returns (newp: int)
      requires Valid() && InArena(View(), addr) && size < 0xA000_0000
      modifies arena, arena.bins.small, arena.bins.trees, memory
      ensures Valid()
      ensures newp == 0 ==> View() == old(View()) && memory.data == old(memory.data)
      ensures newp != 0 ==> Became(old(View()), View(), addr, newp) && Len(View(), newp) >= size
      ensures newp != 0 ==> Kept(old(View()), old(memory.data), memory.data, addr, newp, Least(old(Len(View(), addr)), size))
      ensures neverMove ==> newp == addr || newp == 0
      ensures size <= old(Len(View(), addr)) ==> newp == addr
      ensures newp != 0 ==> PartOf(self, newp) == Dl && Len(View(), newp) < Arenas.Request2Size(size) + 12
      ensures newp == addr <==> old(Roomy(addr, size))
      ensures old(ArenaHas(size, grant)) && !neverMove ==> newp != 0
    {
      hide Arenas.Arena.Intact, Arenas.Arena.Live, SlabHeaps.SlabHeap.Whole, SlabHeaps.SlabHeap.View, SlabHeaps.SlabHeap.Blocks;
      hide Zoned, IsBlock, Became, Arenas.Resized, Arenas.Moved, InSlab, InPages, Kept, Bounded;
      Zones();
      ghost var v, was := View(), memory.data;
      ChunkHolds(addr, size);
      Bounds();
      newp := arena.DlRealloc(addr, size, neverMove, grant);
      if newp != 0 {
        Zones();
        ArenaBecame(v, View(), addr, newp, size);
        ArenaKept(v, View(), was, memory.data, addr, newp, size, arena.base);
      }
    }

    /** PagedReallocate */
    method WithinPages(addr: int, size: nat, neverMove: bool, kernel: PagedHeaps.Kernel) returns (newp: int)
      requires Valid() && InPages(View(), addr) && size < 0xA000_0000 && PagesAnswers(kernel, addr, size)
      modifies paged, paged.bitmap, paged.bitmap.base, memory
      ensures Valid() && (paged.bitmap.base == old(paged.bitmap.base) || fresh(paged.bitmap.base))
      ensures newp == 0 ==> View() == old(View()) && memory.data == old(memory.data)
      ensures newp != 0 ==> Became(old(View()), View(), addr, newp) && Len(View(), newp) >= size
      ensures newp != 0 ==> Kept(old(View()), old(memory.data), memory.data, addr, newp, Least(old(Len(View(), addr)), size))
      ensures neverMove ==> newp == addr || newp == 0
      ensures size <= old(Len(View(), addr)) ==> newp == addr
      ensures newp != 0 ==> PartOf(self, newp) == Paged
      ensures var o := PagesIn(old(Len(View(), addr)));
        && (newp != 0 ==> Len(View(), newp) == PAGESIZE * PagedHeaps.NewPages(size, o))
        && paged.Regrown(addr, newp, o, PagedHeaps.NewPages(size, o), old(memory.size), old(paged.bitmap.nbits), neverMove, kernel)
    {
      hide Arenas.Arena.Intact, Arenas.Arena.Live, SlabHeaps.SlabHeap.Valid, SlabHeaps.SlabHeap.View, SlabHeaps.SlabHeap.BlocksOf;
      hide Zoned, IsBlock, Became, InSlab, Kept, PagedHeaps.PagedHeap.Valid, PageMaps.Clear, PageMaps.Total, Words.AlignUp, PagedHeaps.PagedHeap.Answers, Disjoint, Len, PagedHeaps.NewPages, Tags.Ok;
      hide PagesIn, PagedHeaps.PagedHeap.Regrown, PageMaps.Ok, PagedHeaps.PagedHeap.MapIs;
      Zones();
      SizePositive();
      PagesPlace(addr);
      ghost var v, runs, was := View(), paged.runs, memory.data;
      ghost var o := runs[paged.Page(addr)];
      ghost var n := PagedHeaps.NewPages(size, o);
      PagedSizes(size, o);
      PagesLen(v, addr);
      PagesInIs(o);
      PagesAre(addr);
      newp := paged.PagedReallocate(addr, size, neverMove, kernel);
      if newp != 0 {
        PagesClean();
        slabs.BlockGoes(runs, slabs.Taken(), paged.Page(addr));
        slabs.BlockComes(runs - {paged.Page(addr)}, slabs.Taken(), paged.Page(newp), n);
        Zones();
        PagesBecame(v, View(), addr, newp, n);
        if newp == addr {
          KeptSame(v, was, addr, Least(Len(v, addr), size));
        } else {
          AllApart();
          KeptByCopy(v, View(), was, memory.data, addr, newp, Least(Len(v, addr), size), PAGESIZE * o);
        }
      }
    }

    /** What the kernel may answer when a block of pages is to have another size. */
    ghost predicate PagesAnswers(kernel: PagedHeaps.Kernel, addr: int, size: nat)
      reads paged
    {
      paged.Page(addr) >= 0 && paged.Page(addr) in paged.runs ==>
        paged.Answers(kernel, paged.Page(addr), PagedHeaps.NewPages(size, paged.runs[paged.Page(addr)]))
    }

    lemma PagesAre(addr: int)
      requires Shape() && slabs.Whole() && addr % PAGESIZE == 0 && paged.Page(addr) >= 0 && paged.Page(addr) in slabs.Blocks()
      ensures paged.Page(addr) in slabs.BlocksOf(paged.runs, slabs.Taken())
    {
    }

    lemma PagesInIs(o: nat)
      ensures PagesIn(PAGESIZE * o) == o
    {
    }

    lemma PagedSizes(size: nat, o: nat)
      requires size < 0xA000_0000 && o > 0
      ensures size <= PAGESIZE * PagedHeaps.NewPages(size, o) && (size <= PAGESIZE * o ==> PagedHeaps.NewPages(size, o) <= o)
    {
      hide Words.AlignUp;
      PagedHeaps.PagesIs(size);
    }

    /** The blocks of the heap lie apart. */
    lemma AllApart()
      requires Valid()
      ensures Disjoint(View())
    {
      hide Valid, View, IsBlock, Len;
      forall x, y | IsBlock(View(), x) && IsBlock(View(), y) && x < y ensures x + Len(View(), x) <= y {
        BlocksApart(x, y);
      }
    }

    /** A new block gets the contents of the old one, which goes. */
    method MoveBlock(addr: int, size: nat, k: Answers) returns (newp: int)
      requires Valid() && IsBlock(View(), addr) && size < MAX_ALLOC && Offers(k, size)
      modifies arena, arena.bins.small, arena.bins.trees, slabs, slabs.links, paged, paged.bitmap, paged.bitmap.base, memory
      ensures Valid() && (paged.bitmap.base == old(paged.bitmap.base) || fresh(paged.bitmap.base))
      ensures newp == 0 ==> Same(old(View()), View()) && memory.data == old(memory.data)
      ensures newp != 0 ==> Became(old(View()), View(), addr, newp) && Len(View(), newp) >= size
      ensures newp != 0 ==> Kept(old(View()), old(memory.data), memory.data, addr, newp, Least(old(Len(View(), addr)), size))
      ensures newp != addr
      ensures Served(old(Source(size, k)), old(ArenaHas(size, k.grant)), size, newp, Len(View(), newp))
    {
      hide ArenaHas, Source, Valid, View, Same, Gained, Lost, Became, Kept, IsBlock, Len, Disjoint, Offers;
      ghost var v, was := View(), memory.data;
      var oldsize := AllocLen(addr);
      LenPositive(addr);
      AddressPositive(addr);
      newp := Alloc(size, k);
      if newp != 0 {
        ghost var w := View();
        StillThere(v, w, newp, addr);
        AllApart();
        LiesApart(w, newp, addr);
        var n := if oldsize < size then oldsize else size;
        memory.CopyBytes(newp, addr, n);
        Free(addr);
        TookPlace(v, w, View(), addr, newp);
        AllApart();
        KeptByCopy(v, View(), was, memory.data, addr, newp, n, n);
      }
    }

    lemma LenPositive(a: int)
      requires Valid() && IsBlock(View(), a)
      ensures Len(View(), a) > 0
    {
      hide Arenas.Arena.Intact, Arenas.Arena.Live, SlabHeaps.SlabHeap.Whole, PagedHeaps.PagedHeap.Valid, SlabHeaps.IsLiveCell, SlabHeaps.CellSize, SlabHeaps.SlabHeap.Blocks;
      if InArena(View(), a) {
        ArenaPlace(a);
      } else if InSlab(View(), a) {
        CellPlace(a);
      } else {
        PagesPlace(a);
      }
    }

    lemma AddressPositive(a: int)
      requires Valid() && IsBlock(View(), a)
      ensures a != 0
    {
      hide Arenas.Arena.Intact, Arenas.Arena.Live, SlabHeaps.SlabHeap.Valid, SlabHeaps.IsLiveCell, SlabHeaps.CellSize, PageMaps.Ok, PagedHeaps.PagedHeap.MapIs;
      if InArena(View(), a) {
        ArenaPlace(a);
      } else if InSlab(View(), a) {
        CellPlace(a);
      } else {
        PagesPlace(a);
      }
    }

    /** The request that is really made of the parts: a block grows by at least a quarter. */
    function Request(size: nat, oldsize: int): nat {
      if size <= oldsize || size >= oldsize + oldsize / 4 then size
      else Words.AlignUp(oldsize + oldsize / 4, 4)
    }

    /** Whether the part a block belongs to may keep it when its length becomes size. */
    predicate Stays(addr: int, size: nat, oldsize: int, neverMove: bool, moveOnShrink: bool)
      reads this`slabThreshold
    {
      match PartOf(self, addr)
      case Dl => neverMove || (!moveOnShrink && size < oldsize) || (size >= slabThreshold && !IsLarge(size))
      case Paged => neverMove || (!moveOnShrink && size < oldsize) || IsLarge(size)
      case Slab => size <= oldsize || neverMove
    }

    /** Less than three quarters of the old length are wanted, or more than all of it. */
    predicate Changes(size: nat, oldsize: int) {
      size < oldsize - oldsize / 4 || size > oldsize
    }

    /** What becomes of a block of length o in the part that keeps it, when its length is to be size. A block of the arena
        stays where it is if and only if its chunk or top has the room; a cell never becomes larger. */
    ghost predicate Resized(addr: int, size: nat, o: int, newp: int, len: int, roomy: bool, arenaHas: bool,
                            mapped: int, nbits: int, neverMove: bool, kernel: PagedHeaps.Kernel)
      requires size < SizeBits.WORD
    {
      && (newp != 0 ==> PartOf(self, newp) == PartOf(self, addr) && size <= len)
      && match PartOf(self, addr)
         case Slab => newp == (if size <= o then addr else 0) && (newp != 0 ==> len == o)
         case Dl =>
           && (newp == addr <==> roomy) && (newp != 0 ==> len < Arenas.Request2Size(size) + 12)
           && (arenaHas && !neverMove ==> newp != 0)
         case Paged =>
           var n := PagedHeaps.NewPages(size, PagesIn(o));
           && (newp != 0 ==> len == PAGESIZE * n) && (size <= o ==> newp == addr)
           && paged.Regrown(addr, newp, PagesIn(o), n, mapped, nbits, neverMove, kernel)
    }

    /** ReAlloc of a block: it keeps its address or gets a new one, with its contents as far as they fit; on
        failure it stays as it is. It is not moved against the caller's will. */
    method ReAlloc(addr: int, size: nat, neverMove: bool, moveOnShrink: bool, k: Answers, kernel: PagedHeaps.Kernel)
      returns (newp: int)
      requires Valid() && IsBlock(View(), addr) && size < 0x8000_0000
      requires var r := Request(size, Len(View(), addr));
        && (PartOf(self, addr) == Paged ==> PagesAnswers(kernel, addr, r))
        && (Changes(size, Len(View(), addr)) && !Stays(addr, r, Len(View(), addr), neverMove, moveOnShrink) ==> r < MAX_ALLOC && Offers(k, r))
      modifies arena, arena.bins.small, arena.bins.trees, slabs, slabs.links, paged, paged.bitmap, paged.bitmap.base, memory
      ensures Valid() && (paged.bitmap.base == old(paged.bitmap.base) || fresh(paged.bitmap.base))
      ensures newp == 0 ==> Same(old(View()), View()) && memory.data == old(memory.data)
      ensures newp != 0 ==> Became(old(View()), View(), addr, newp) && Len(View(), newp) >= size
      ensures newp != 0 ==> Kept(old(View()), old(memory.data), memory.data, addr, newp, Least(old(Len(View(), addr)), size))
      ensures neverMove ==> newp == addr || newp == 0
      ensures size <= old(Len(View(), addr)) && (neverMove || !moveOnShrink) ==> newp == addr
      ensures size > old(Len(View(), addr)) && newp != 0 ==> Len(View(), newp) >= old(Len(View(), addr)) + old(Len(View(), addr)) / 4
      ensures var o := old(Len(View(), addr)); var r := Request(size, o);
        if !Changes(size, o) then newp == addr && View() == old(View())
        else if Stays(addr, r, o, neverMove, moveOnShrink) then
          Resized(addr, r, o, newp, Len(View(), newp), old(Roomy(addr, r)), old(ArenaHas(r, k.grant)),
                  old(memory.size), old(paged.bitmap.nbits), neverMove, kernel)
        else newp != addr && Served(old(Source(r, k)), old(ArenaHas(r, k.grant)), r, newp, Len(View(), newp))
    {
      hide Served, Source, Roomy, PagedHeaps.PagedHeap.Regrown;
      hide ArenaHas, Valid, View, Same, Became, Kept, IsBlock, Len, Offers, PagesAnswers, IsLarge, InArena, InPages, InSlab, Words.AlignUp;
      ghost var v, was := View(), memory.data;
      var oldsize := AllocLen(addr);
      RouteIs(addr);
      BecameItself(v, addr);
      SameSelf(v);
      KeptSame(v, was, addr, Least(oldsize, size));
      OldSize(addr);
      AddressPositive(addr);
      if size <= oldsize && size >= oldsize - oldsize / 4 {
        return addr;
      }
      var r := Request(size, oldsize);
      RequestIs(size, oldsize);
      if addr >= self {
        if neverMove || (!moveOnShrink && r < oldsize) || (r >= slabThreshold && !IsLarge(r)) {
          newp := WithinArena(addr, r, neverMove, k.grant);
          KeptLess(v, was, memory.data, addr, newp, Least(oldsize, r), Least(oldsize, size));
          return;
        }
      } else if addr % PAGESIZE == 0 {
        if neverMove || (!moveOnShrink && r < oldsize) || IsLarge(r) {
          newp := WithinPages(addr, r, neverMove, kernel);
          KeptLess(v, was, memory.data, addr, newp, Least(oldsize, r), Least(oldsize, size));
          return;
        }
      } else {
        if r <= oldsize {
          return addr;
        }
        if neverMove {
          return 0;
        }
      }
      newp := MoveBlock(addr, r, k);
      KeptLess(v, was, memory.data, addr, newp, Least(oldsize, r), Least(oldsize, size));
    }

    /** ReAlloc without a block is Alloc, unless nothing may move. */
    method ReAllocNone(size: nat, neverMove: bool, k: Answers) returns (newp: int)
      requires Valid() && (neverMove || (size < MAX_ALLOC && Offers(k, size)))
      modifies arena, arena.bins.small, arena.bins.trees, slabs, slabs.links, paged, paged.bitmap, paged.bitmap.base, memory`size
      ensures Valid() && (paged.bitmap.base == old(paged.bitmap.base) || fresh(paged.bitmap.base))
      ensures newp != 0 ==> Gained(old(View()), View(), newp)
      ensures newp == 0 ==> Same(old(View()), View())
      ensures if neverMove then newp == 0
              else Served(old(Source(size, k)), old(ArenaHas(size, k.grant)), size, newp, Len(View(), newp))
    {
      hide Source, ArenaHas, Served, Valid, View, Same, Gained, Len, Offers;
      newp := 0;
      SameSelf(View());
      if !neverMove {
        newp := Alloc(size, k);
      }
    }

    lemma OldSize(addr: int)
      requires Valid() && IsBlock(View(), addr)
      ensures 0 < Len(View(), addr) < 0x4000_0000
    {
      hide Arenas.Arena.Intact, Arenas.Arena.Live, SlabHeaps.SlabHeap.Whole, PagedHeaps.PagedHeap.Valid, SlabHeaps.IsLiveCell, SlabHeaps.CellSize, SlabHeaps.SlabHeap.Blocks;
      LenPositive(addr);
      SizePositive();
      LengthBound();
      if InArena(View(), addr) {
        ArenaLength(addr);
      } else if InSlab(View(), addr) {
        CellPlace(addr);
      } else {
        PagesPlace(addr);
      }
    }

    lemma ArenaLength(a: int)
      requires arena.Valid() && a - 8 in arena.Live()
      ensures arena.Live()[a - 8] <= arena.segSize
    {
      hide Arenas.Arena.Live, Tags.Ok;
      arena.LiveAbove(a - 8);
    }

    lemma LengthBound()
      requires Shape() && slabs.Whole()
      ensures memory.maxLength < 0x4000_0000 - PAGESIZE && self - paged.memBase < 0x4000_0000
    {
      hide SlabHeaps.SlabHeap.Valid, PageMaps.Ok, PagedHeaps.PagedHeap.MapIs;
    }

    lemma RequestIs(size: nat, oldsize: int)
      requires size < 0x8000_0000 && 0 < oldsize < 0x4000_0000
      ensures size <= Request(size, oldsize) < 0xA000_0000 && (size > oldsize ==> Request(size, oldsize) > oldsize)
      ensures size > oldsize ==> Request(size, oldsize) >= oldsize + oldsize / 4
      ensures size <= oldsize ==> Request(size, oldsize) == size
    {
      hide Words.AlignUp;
      if oldsize < size < oldsize + oldsize / 4 {
        Words.AlignUpReaches(oldsize + oldsize / 4, 4);
      }
    }

    lemma Bounds()
      requires Valid()
      ensures Bounded(View(), arena.base)
    {
      hide Valid, View, IsBlock, Len, InArena;
      forall q | InArena(View(), q) ensures arena.base <= q {
        InSegment(q);
      }
      forall q | IsBlock(View(), q) && !InArena(View(), q) ensures q + Len(View(), q) <= self {
        BelowObject(q);
      }
      ObjectBelow();
    }

    lemma ObjectBelow()
      requires Valid()
      ensures View().self == self < arena.base
    {
    }

    lemma InSegment(a: int)
      requires Valid() && InArena(View(), a)
      ensures arena.base < a
    {
      hide Arenas.Arena.Sound, Arenas.Arena.Live;
      arena.LiveAbove(a - 8);
    }

    lemma ChunkHolds(addr: int, size: nat)
      requires arena.Valid() && addr - 8 in arena.Live() && size < 0xA000_0000
      ensures size <= arena.Live()[addr - 8] - 4 ==> Arenas.Request2Size(size) <= arena.Live()[addr - 8]
    {
      hide Arenas.Arena.Live, Tags.Ok;
      arena.LiveAbove(addr - 8);
      arena.LiveAligned(addr - 8);
    }
  }

  ghost predicate Disjoint(v: Store) {
    forall x, y {:trigger IsBlock(v, x), IsBlock(v, y)} :: IsBlock(v, x) && IsBlock(v, y) && x < y ==> x + Len(v, x) <= y
  }

  lemma StillThere(v: Store, w: Store, b: int, a: int)
    requires Gained(v, w, b) && IsBlock(v, a)
    ensures a != b && IsBlock(w, b) && IsBlock(w, a) && Len(w, a) == Len(v, a)
  {
    hide IsBlock, Len;
  }

  lemma LiesApart(v: Store, a: int, b: int)
    requires Disjoint(v) && IsBlock(v, a) && IsBlock(v, b) && a != b
    ensures a + Len(v, a) <= b || b + Len(v, b) <= a
  {
    hide IsBlock, Len;
  }

  lemma KeptLess(v: Store, was: map<int, int>, now: map<int, int>, a: int, b: int, n: int, m: int)
    requires m <= n
    ensures Kept(v, was, now, a, b, n) ==> Kept(v, was, now, a, b, m)
  {
  }

  lemma KeptSame(v: Store, was: map<int, int>, a: int, n: int)
    ensures Kept(v, was, was, a, a, n)
  {
    hide Holds;
  }

  /** The bytes of a have been copied into the new block b. */
  lemma KeptByCopy(v: Store, w: Store, was: map<int, int>, now: map<int, int>, a: int, b: int, n: int, m: int)
    requires Became(v, w, a, b) && a != b && Disjoint(w) && n <= m <= Len(w, b)
    requires forall x :: ByteAt(now, x) == Copied(was, b, a, m, x)
    ensures Kept(v, was, now, a, b, n)
  {
    hide IsBlock, Len;
    forall i | 0 <= i < n ensures SameByte(was, now, a, b, i) {
      var x := b + i;
      assert ByteAt(now, x) == Copied(was, b, a, m, x);
    }
    forall q, i | q != a && Holds(v, q, i) ensures SameByte(was, now, q, q, i) {
      assert q != b && IsBlock(w, q) && Len(w, q) == Len(v, q);
      var x := q + i;
      assert ByteAt(now, x) == Copied(was, b, a, m, x);
    }
  }

  /** The blocks outside of the arena lie below it. */
  ghost predicate Bounded(v: Store, base: int) {
    && (forall q :: InArena(v, q) ==> base <= q)
    && (forall q {:trigger IsBlock(v, q)} :: IsBlock(v, q) && !InArena(v, q) ==> q + Len(v, q) <= v.self)
  }

  function Least(x: int, y: int): int {
    if x < y then x else y
  }

  lemma ArenaKept(v: Store, w: Store, was: map<int, int>, now: map<int, int>, a: int, b: int, size: int, base: int)
    requires 0 <= size < SizeBits.WORD && Zoned(v) && Arenas.Resized(v.dl, w.dl, a, b, size) && Arenas.Moved(v.dl, w.dl, was, now, a, b, size) && v.self < base
    requires Bounded(v, base)
    requires forall x :: x < base ==> ByteAt(now, x) == ByteAt(was, x)
    ensures Kept(v, was, now, a, b, Least(Len(v, a), size))
  {
    hide SlabHeaps.IsLiveCell, SlabHeaps.CellSize, Zoned;
    var n := Least(Len(v, a), size);
    assert InArena(v, a);
    forall i | 0 <= i < n ensures SameByte(was, now, a, b, i) {
      var x := b + i;
      assert ByteAt(now, x) == ByteAt(was, a + (x - b));
    }
    forall q, i | q != a && Holds(v, q, i) ensures SameByte(was, now, q, q, i) {
      if InArena(v, q) {
        assert Arenas.InBlock(v.dl, q - 8, q + i);
      } else {
        assert q + i < base;
      }
    }
  }

  lemma SomeOf(x: nat, p: nat)
    requires p > 0
    ensures x / p != 0 <==> x >= p
  {
  }

  lemma GainedLater(v: Store, w: Store, x: Store, addr: int)
    requires Same(v, w) && (if addr == 0 then x == w else Gained(w, x, addr))
    ensures if addr == 0 then Same(v, x) else Gained(v, x, addr)
  {
    hide IsBlock, Len;
    if addr == 0 {
    } else {
      forall q | q != addr ensures (IsBlock(x, q) <==> IsBlock(v, q)) && Len(x, q) == Len(v, q) {
        assert IsBlock(w, q) <==> IsBlock(v, q);
      }
      assert IsBlock(w, addr) <==> IsBlock(v, addr);
    }
  }

  lemma SameSelf(v: Store)
    ensures Same(v, v)
  {
  }
}
