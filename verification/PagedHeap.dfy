/** The page allocator: large blocks are whole pages below the heap object, recorded in the page bitmap. */
module PagedHeaps {
  import opened BitStrings
  import opened Bitmaps
  import opened Memories
  import opened PageCodes
  import opened PageMaps
  import opened Words

  const PAGESIZE: nat := 4096
  const MAXSMALLPAGEBITS: nat := 544
  /** Pages of the smallest request that goes to this allocator, 1 << MINPAGEPOWER bytes. */
  const MINPAGES: nat := 4

  /** The pages needed for this many bytes, in 32-bit arithmetic. */
  function Pages(size: nat): nat {
    AlignUp(size, PAGESIZE) / PAGESIZE
  }

  lemma PagesIs(size: nat)
    requires size < WORD
    ensures AlignUp(size, PAGESIZE) == Pages(size) * PAGESIZE
    ensures if size <= WORD - PAGESIZE then size <= Pages(size) * PAGESIZE < size + PAGESIZE else Pages(size) == 0
  {
    Power12();
    AlignUpPages(size, PAGESIZE, 12);
    if size <= WORD - PAGESIZE {
      AlignUpReaches(size, PAGESIZE);
    } else {
      assert (size + PAGESIZE - 1) % WORD == size + PAGESIZE - 1 - WORD;
    }
  }

  lemma PagesHold(size: nat)
    ensures size == 0 ==> Pages(size) == 0
    ensures 0 < size <= WORD - PAGESIZE ==> 0 < Pages(size) && PAGESIZE * (Pages(size) - 1) < size <= PAGESIZE * Pages(size)
  {
    if size <= WORD - PAGESIZE {
      PagesIs(size);
    }
  }

  lemma Power12()
    ensures Pow2(12) == 4096
  {
    Powers();
    PowAdd(4, 4);
    PowAdd(8, 4);
  }

  /** The pages a block of o pages has after a reallocation: none at all is not possible. */
  function NewPages(size: nat, o: nat): (n: nat)
    ensures size == 0 ==> n <= o && n <= 4 && (n == o || n == 4)
    ensures 0 < size <= WORD - PAGESIZE ==> PAGESIZE * (n - 1) < size <= PAGESIZE * n
  {
    PagesHold(size);
    if Pages(size) == 0 then if MINPAGES < o then MINPAGES else o else Pages(size)
  }

  /** Exactly the sizes that do not wrap around when they are rounded up fit into the reallocated block. */
  lemma NewPagesFit(size: nat, o: nat)
    requires size < WORD && 1 <= o < MAX_PAGES
    ensures size <= NewPages(size, o) * PAGESIZE <==> size <= WORD - PAGESIZE
  {
    PagesIs(size);
  }

  lemma PagesOf(n: nat)
    requires n * PAGESIZE <= WORD - PAGESIZE
    ensures Pages(n * PAGESIZE) == n
  {
    PagesIs(n * PAGESIZE);
  }

  lemma RunSame(runs: Runs, p: nat)
    requires p in runs && runs[p] > 0 && Clear(runs, p, runs[p])
    ensures Moved(runs, runs, p, p, runs[p])
  {
    assert runs == (runs - {p})[p := runs[p]];
  }

  lemma GrownRun(runs: Runs, p: nat, n: nat)
    requires p in runs && n > 0 && Clear(runs, p, n)
    ensures Moved(runs, runs[p := n], p, p, n)
  {
    assert runs[p := n] == (runs - {p})[p := n];
  }

  lemma MovedRun(before: Runs, both: Runs, p: nat, q: nat, n: nat)
    requires p in before && Gained(before, both, q, n)
    ensures Moved(before, both - {p}, p, q, n)
  {
    assert both - {p} == (before - {p})[q := n];
  }

  /** The blocks of more than one page that begin before page a, in order: address and length. */
  function Listed(base: int, runs: Runs, a: nat): seq<(int, int)> {
    if a == 0 then [] else
      Listed(base, runs, a - 1) + if a - 1 in runs && runs[a - 1] > 1 then [Bounds(base, a - 1, runs[a - 1])] else []
  }

  function Bounds(base: int, p: nat, n: nat): (int, int) {
    (base + PAGESIZE * p, PAGESIZE * n)
  }

  function SumLengths(l: seq<(int, int)>): int {
    if l == [] then 0 else SumLengths(l[..|l| - 1]) + l[|l| - 1].1
  }

  lemma {:induction false} ListedSkip(base: int, runs: Runs, a: nat, b: nat)
    requires a <= b && forall q :: q in runs ==> q < a || b <= q
    ensures Listed(base, runs, a) == Listed(base, runs, b)
  {
    if a < b {
      ListedSkip(base, runs, a, b - 1);
    }
  }

  /** Each block of more than one page is listed once, in the order of the addresses, and nothing else is. */
  lemma {:induction false} ListedOnce(base: int, runs: Runs, a: nat)
    ensures forall i, j :: 0 <= i < j < |Listed(base, runs, a)| ==> Listed(base, runs, a)[i].0 < Listed(base, runs, a)[j].0
    ensures forall i :: 0 <= i < |Listed(base, runs, a)| ==> Listed(base, runs, a)[i].0 < base + PAGESIZE * a
    ensures forall p :: p in runs && runs[p] > 1 && p < a ==> Bounds(base, p, runs[p]) in Listed(base, runs, a)
    ensures forall x :: x in Listed(base, runs, a) ==> exists p :: p in runs && runs[p] > 1 && p < a && x == Bounds(base, p, runs[p])
  {
    if a > 0 {
      ListedOnce(base, runs, a - 1);
      var l := Listed(base, runs, a - 1);
      if a - 1 in runs && runs[a - 1] > 1 {
        assert Listed(base, runs, a) == l + [Bounds(base, a - 1, runs[a - 1])];
      } else {
        assert Listed(base, runs, a) == l;
      }
    }
  }

  /** The scan has found block p behind page a. */
  lemma ListedNext(base: int, runs: Runs, a: nat, p: nat)
    requires a <= p && p in runs && runs[p] > 0 && forall q :: q in runs ==> q < a || p <= q
    requires forall q :: q in runs && p < q ==> p + runs[p] <= q
    ensures Listed(base, runs, p + runs[p]) == Listed(base, runs, a) + if runs[p] > 1 then [Bounds(base, p, runs[p])] else []
    ensures Total(runs, p + runs[p]) == Total(runs, a) + runs[p]
  {
    hide Bounds;
    ListedSkip(base, runs, a, p);
    ListedSkip(base, runs, p + 1, p + runs[p]);
    TotalSkip(runs, a, p);
    TotalSkip(runs, p + 1, p + runs[p]);
  }

  /** The bits of the old buffer, followed by the zeros of the new one. */
  lemma CopiedBits(old0: seq<bv8>, clear: seq<bv8>, now: seq<bv8>)
    requires |old0| >= MAXSMALLPAGEBITS / 8 && |clear| == |now| > MAXSMALLPAGEBITS / 8
    requires BitsIn(clear, 8 * |clear|) == Repeat(8 * |clear|, false)
    requires forall k :: 0 <= k < MAXSMALLPAGEBITS / 8 ==> now[k] == old0[k]
    requires forall k :: MAXSMALLPAGEBITS / 8 <= k < |now| ==> now[k] == clear[k]
    ensures var b := BitsIn(now, 8 * |now|);
      && b[..MAXSMALLPAGEBITS] == BitsIn(old0, MAXSMALLPAGEBITS)
      && forall i :: MAXSMALLPAGEBITS <= i < 8 * |now| ==> !b[i]
  {
    var b := BitsIn(now, 8 * |now|);
    forall i | MAXSMALLPAGEBITS <= i < 8 * |now| ensures !b[i] {
      assert b[i] == BitAt(clear, i) == BitsIn(clear, 8 * |clear|)[i];
    }
    forall i | 0 <= i < MAXSMALLPAGEBITS ensures b[..MAXSMALLPAGEBITS][i] == BitsIn(old0, MAXSMALLPAGEBITS)[i] {
      assert b[i] == BitAt(now, i) == BitAt(old0, i);
    }
  }

  lemma TwoBits(s: seq<bool>, ix: nat)
    requires ix + 2 <= |s|
    ensures Val(s[ix..ix + 2]) == (if s[ix] then 1 else 0) + (if s[ix + 1] then 2 else 0)
  {
    var t := s[ix..ix + 2];
    assert t == [s[ix]] + [s[ix + 1]];
    ValCons(s[ix], [s[ix + 1]]);
  }

  lemma TheBits(n: nat)
    ensures Low(CodeValue(n), CodeLen(n)) == Code(n)
  {
  }

  class PagedHeap {
    const bitmap: Bitmap
    const memory: Memory
    /** The lowest address of the chunk. */
    const memBase: int
    ghost var runs: Runs
    /** The pages of the enlarged bitmap, none at first. */
    ghost var mapAt: nat
    ghost var mapPages: nat

    /** The heap object is at this page, above the pages for blocks. */
    function Limit(): nat {
      (if memory.maxLength < 0 then 0 else memory.maxLength + PAGESIZE - 1) / PAGESIZE
    }

    predicate Clean()
    {
      0 < memBase && memBase % PAGESIZE == 0 && 0 <= memory.maxLength < 0x4000_0000 - PAGESIZE
      && memBase + PAGESIZE * Limit() <= WORD && (Limit() % 16384 == 0 || Limit() % 16384 >= 4)
    }

    ghost predicate MapIs()
      reads this, bitmap
    {
      if mapPages == 0 then bitmap.nbits == MAXSMALLPAGEBITS else
        && bitmap.nbits == 8 * GrownBytes(Limit()) && mapPages * PAGESIZE == GrownBytes(Limit())
        && mapAt + mapPages <= Limit() && Vacant(mapAt, mapPages)
    }

    /** These pages belong to no block. */
    ghost predicate Vacant(p: nat, n: nat)
      reads this`runs
    {
      p !in runs && Clear(runs, p, n)
    }

    /** These pages do not belong to the bitmap. */
    ghost predicate OffMap(p: nat, n: nat)
      reads this`mapAt, this`mapPages
    {
      mapPages == 0 || p + n <= mapAt || mapAt + mapPages <= p
    }

    ghost predicate Valid()
      reads this, bitmap, bitmap.base
    {
      && Clean() && bitmap.Valid() && Ok(bitmap.View(), runs) && MapIs()
      && (forall p :: p in runs ==> p + runs[p] <= Limit() && OffMap(p, runs[p]))
    }

    /** What the kernel may answer when it is asked for n pages anywhere: a refusal, or pages that are not in use.
        Pages above the heap object are not taken. */
    ghost predicate Offer(at: int, n: nat)
      reads this`runs, this`mapAt, this`mapPages
    {
      0 <= at <= Limit() ==> at + n <= Limit() && Vacant(at, n) && OffMap(at, n)
    }

    /** The memory of the blocks and of the enlarged bitmap. */
    ghost function Held(): int
      reads this`runs, this`mapPages
    {
      PAGESIZE * (Total(runs, Limit()) + mapPages)
    }

    function Page(p: int): int {
      (p - memBase) / PAGESIZE
    }

    function Address(page: int): int {
      memBase + PAGESIZE * page
    }

    /** PtrDiff(p, iMemBase) >> (PAGESHIFT - 1) */
    function Pos(p: int): int {
      (p - memBase) / (PAGESIZE / 2)
    }

    lemma AddressIs(page: nat)
      requires Clean()
      ensures var p := Address(page); Page(p) == page && Pos(p) == 2 * page && p > 0 && p % PAGESIZE == 0
    {
    }

    /** PagedInit: an empty bitmap in the buffer of the heap object. */
    constructor (memory: Memory, memBase: int, buffer: array<bv8>)
      requires buffer.Length == MAXSMALLPAGEBITS / 8
      requires 0 < memBase && memBase % PAGESIZE == 0 && 0 <= memory.maxLength < 0x4000_0000 - PAGESIZE
      requires var pages := (memory.maxLength + PAGESIZE - 1) / PAGESIZE; 
        (pages % 16384 == 0 || pages % 16384 >= 4) && memBase + PAGESIZE * pages <= WORD
      modifies buffer
      ensures Valid() && runs == map[] && mapPages == 0 && fresh(bitmap) && bitmap.base == buffer
      ensures this.memory == memory && this.memBase == memBase
    {
      this.memory, this.memBase := memory, memBase;
      bitmap := new Bitmap(buffer, MAXSMALLPAGEBITS, false);
      runs, mapAt, mapPages := map[], 0, 0;
    }

    /** Map(0, ...): n pages somewhere below the heap object. */
    method MapNew(n: nat, at: int) returns (p: int)
      modifies memory`size
      ensures p != -1 ==> 0 <= p == at <= Limit() && memory.size == old(memory.size) + PAGESIZE * n <= memory.maxLength
      ensures p == -1 ==> memory.size == old(memory.size)
      ensures 0 <= at <= Limit() && old(memory.size) + PAGESIZE * n <= memory.maxLength ==> p == at
    {
      var ok := memory.Map(PAGESIZE * n, 0 <= at <= Limit());
      p := if ok then at else -1;
    }

    /** The bitmap moves to pages of its own, enough for all pages below the heap object. */
    method Enlarge(ghost p: nat, ghost n: nat, at: int) returns (ok: bool)
      requires Valid() && p + n <= Limit() && 2 * (p + n) > bitmap.nbits
      requires Offer(at, GrownBytes(Limit()) / PAGESIZE)
      requires 0 <= at <= Limit() ==> p + n <= at || at + GrownBytes(Limit()) / PAGESIZE <= p
      modifies this`mapAt, this`mapPages, bitmap, memory`size
      ensures Valid() && memory.size == old(memory.size) + PAGESIZE * (mapPages - old(mapPages))
      ensures old(memory.size) <= memory.maxLength ==> old(memory.size) <= memory.size <= memory.maxLength
      ensures ok <==> 0 <= at <= Limit() && old(memory.size) + GrownBytes(Limit()) <= memory.maxLength
      ensures if ok then fresh(bitmap.base) && 2 * (p + n) <= bitmap.nbits && OffMap(p, n)
              else bitmap.base == old(bitmap.base) && mapAt == old(mapAt) && mapPages == old(mapPages) && bitmap.nbits == old(bitmap.nbits)
    {
      hide Ok, BitsIn, BitAt, RunOk, Apart;
      OneGrowthIsEnough(Limit());
      ghost var bits := bitmap.View();
      var bytes := GrownBytes(Limit());
      ok := memory.Map(bytes, 0 <= at <= Limit());
      if ok {
        var newb := new bv8[bytes];
        var oldb := bitmap.base;
        bitmap.Init(newb, 8 * bytes, false);
        ghost var clear := newb[..];
        for i := 0 to MAXSMALLPAGEBITS / 8
          modifies newb
          invariant forall k :: 0 <= k < i ==> newb[k] == oldb[k]
          invariant forall k :: MAXSMALLPAGEBITS / 8 <= k < bytes ==> newb[k] == clear[k]
        {
          newb[i] := oldb[i];
        }
        mapAt, mapPages := at, bytes / PAGESIZE;
        CopiedBits(oldb[..], clear, newb[..]);
        GrowOk(bits, runs, bitmap.View());
      }
    }

    /** The code for n pages at bit pos fits into the bitmap, or the bitmap can be enlarged. */
    predicate Recorded(mapped: int, nbits: int, pos: int, n: nat, mapAt: int) {
      pos + CodeLen(n) <= nbits || (0 <= mapAt <= Limit() && mapped + GrownBytes(Limit()) <= memory.maxLength)
    }

    /** The kernel has put n pages below the heap object, the heap may grow by them, and their code can be recorded. */
    predicate Placed(mapped: int, nbits: int, n: nat, at: int, mapAt: int) {
      0 <= at <= Limit() && mapped + PAGESIZE * n <= memory.maxLength && Recorded(mapped + PAGESIZE * n, nbits, 2 * at, n, mapAt)
    }

    /** PagedEncode: the bitmap may have to be enlarged first. The block keeps its length if that fails. */
    method PagedEncode(pos: nat, n: nat, at: int) returns (ok: bool)
      requires Valid() && pos % 2 == 0 && 1 <= n < MAX_PAGES
      requires var p := pos / 2; p + n <= Limit() && Clear(runs, p, n) && OffMap(p, n) && (p in runs ==> runs[p] <= n)
      requires pos + CodeLen(n) <= bitmap.nbits || MapOffer(at, pos / 2, n)
      modifies this, bitmap, bitmap.base, memory`size
      ensures Valid() && runs == (if ok then old(runs)[pos / 2 := n] else old(runs))
      ensures bitmap.base == old(bitmap.base) || fresh(bitmap.base)
      ensures memory.size == old(memory.size) + PAGESIZE * (mapPages - old(mapPages))
      ensures old(memory.size) <= memory.maxLength ==> old(memory.size) <= memory.size <= memory.maxLength
      ensures !ok ==> mapPages == old(mapPages) && mapAt == old(mapAt)
      ensures ok <==> Recorded(old(memory.size), old(bitmap.nbits), pos, n, at)
      ensures pos + CodeLen(n) <= old(bitmap.nbits) ==> ok && mapPages == old(mapPages) && bitmap.base == old(bitmap.base)
    {
      hide CodeLen, CodeValue, Code, Low, BitsIn, BitAt, GrownBytes, Ok, Over, RunOk, Apart, Clear, Coding;
      CodeFits(n);
      ok := true;
      if pos + CodeLen(n) > bitmap.nbits {
        ok := Enlarge(pos / 2, n, at);
      }
      if ok {
        WriteCode(pos, n);
      }
    }

    /** The code of a block is written. */
    method WriteCode(pos: nat, n: nat)
      requires Valid() && pos % 2 == 0 && 1 <= n < MAX_PAGES && pos + CodeLen(n) <= bitmap.nbits
      requires var p := pos / 2; p + n <= Limit() && Clear(runs, p, n) && OffMap(p, n) && (p in runs ==> runs[p] <= n)
      modifies this`runs, bitmap.base
      ensures Valid() && runs == old(runs)[pos / 2 := n]
    {
      hide CodeValue, Code, Low, BitsIn, BitAt, GrownBytes, Ok, Over, RunOk, Apart, Coding;
      SetOk(bitmap.View(), runs, pos / 2, n);
      TheBits(n);
      bitmap.SetValue(pos, CodeLen(n), CodeValue(n));
      runs := runs[pos / 2 := n];
    }

    /** PagedDecode; None stands for the panics. */
    method PagedDecode(pos: nat) returns (n: Option<nat>)
      requires Valid() && pos <= bitmap.nbits
      ensures n == Read(bitmap.View()[pos..])
    {
      hide Ok, BitsIn, BitAt, MapIs;
      if pos + 2 > bitmap.nbits {
        return None;
      }
      var bits := bitmap.Bits(pos, 2);
      TwoBits(bitmap.View(), pos);
      if bits % 2 == 0 {
        return None;
      }
      if bits / 2 == 0 {
        return Some(1);
      }
      if pos + 4 > bitmap.nbits {
        return None;
      }
      bits := bitmap.Bits(pos + 2, 2);
      TwoBits(bitmap.View(), pos + 2);
      ghost var s := bitmap.View()[pos..];
      if bits % 2 == 0 {
        return Some(2 + bits / 2);
      } else if bits / 2 == 0 {
        if pos + 8 > bitmap.nbits {
          return None;
        }
        bits := bitmap.Bits(pos + 4, 4);
        assert s[4..8] == bitmap.View()[pos + 4..pos + 8];
      } else {
        if pos + 22 > bitmap.nbits {
          return None;
        }
        bits := bitmap.Bits(pos + 4, 18);
        assert s[4..22] == bitmap.View()[pos + 4..pos + 22];
      }
      n := Some(bits);
    }

    /** PagedSize: the length of a block. */
    method PagedSize(p: int) returns (size: nat)
      requires Valid() && Page(p) >= 0 && Page(p) in runs && p == Address(Page(p))
      ensures size == runs[Page(p)] * PAGESIZE
    {
      hide Ok, BitsIn, MapIs, Read;
      AddressIs(Page(p));
      FirstBit(bitmap.View(), runs, Page(p));
      var n := PagedDecode(Pos(p));
      size := n.value * PAGESIZE;
    }

    /** PagedZapSize: the code of a block of this size is cleared. */
    method PagedZapSize(p: int, size: nat)
      requires Valid() && Page(p) >= 0 && Page(p) in runs && p == Address(Page(p)) && size == runs[Page(p)] * PAGESIZE
      modifies this`runs, bitmap.base
      ensures Valid() && runs == old(runs) - {Page(p)}
    {
      hide Ok, BitsIn, BitAt, CodeLen, Over, Repeat, ZapLen;
      AddressIs(Page(p));
      ZapOk(bitmap.View(), runs, Page(p));
      RunIs(Page(p));
      ZapsItsCode(runs[Page(p)], PAGESIZE);
      bitmap.Setn(Pos(p), ZapLen(size, PAGESIZE), false);
      runs := runs - {Page(p)};
    }

    lemma RunIs(p: nat)
      requires Valid() && p in runs
      ensures 1 <= runs[p] < MAX_PAGES && p + runs[p] <= Limit() && OffMap(p, runs[p]) && Clear(runs, p, runs[p])
    {
      assert RunOk(bitmap.View(), runs, p);
    }

    /** PagedSetSize */
    method PagedSetSize(p: int, size: nat, at: int) returns (ok: bool)
      requires Valid() && Page(p) >= 0 && p == Address(Page(p)) && 0 < size < MAX_PAGES * PAGESIZE && size % PAGESIZE == 0
      requires CanHold(Page(p), size / PAGESIZE)
      requires Pos(p) + CodeLen(size / PAGESIZE) <= bitmap.nbits || MapOffer(at, Page(p), size / PAGESIZE)
      modifies this, bitmap, bitmap.base, memory`size
      ensures Valid() && runs == (if ok then old(runs)[Page(p) := size / PAGESIZE] else old(runs))
      ensures bitmap.base == old(bitmap.base) || fresh(bitmap.base)
      ensures memory.size == old(memory.size) + PAGESIZE * (mapPages - old(mapPages))
      ensures old(memory.size) <= memory.maxLength ==> old(memory.size) <= memory.size <= memory.maxLength
      ensures !ok ==> mapPages == old(mapPages) && mapAt == old(mapAt)
      ensures ok <==> Recorded(old(memory.size), old(bitmap.nbits), Pos(p), size / PAGESIZE, at)
      ensures Pos(p) + CodeLen(size / PAGESIZE) <= old(bitmap.nbits) ==> ok && mapPages == old(mapPages)
    {
      hide Ok, BitsIn, CodeLen, GrownBytes, Clear;
      AddressIs(Page(p));
      ok := PagedEncode(Pos(p), size / PAGESIZE, at);
    }

    /** n pages from p on may become a block, or the one at p may become as large. */
    ghost predicate CanHold(p: nat, n: nat)
      reads this`runs, this`mapAt, this`mapPages
    {
      p + n <= Limit() && Clear(runs, p, n) && OffMap(p, n) && (p in runs ==> runs[p] <= n)
    }

    /** What the kernel may answer when it is asked for the pages of an enlarged bitmap, while these n pages are
        in use. */
    ghost predicate MapOffer(at: int, p: nat, n: nat)
      reads this`runs, this`mapAt, this`mapPages
    {
      var m := GrownBytes(Limit()) / PAGESIZE;
      Offer(at, m) && (0 <= at <= Limit() ==> p + n <= at || at + m <= p)
    }

    /** PagedAllocate: a block of whole pages. */
    method PagedAllocate(size: nat, at: int, mapAt: int) returns (p: int)
      requires Valid() && 0 < size <= WORD - PAGESIZE && 0 <= memory.size
      requires Offer(at, Pages(size)) && (at >= 0 ==> MapOffer(mapAt, at, Pages(size)))
      modifies this, bitmap, bitmap.base, memory`size
      ensures Valid() && memory.size - Held() == old(memory.size - Held())
      ensures bitmap.base == old(bitmap.base) || fresh(bitmap.base)
      ensures p != 0 ==> Gained(old(runs), runs, Page(p), Pages(size)) && p == Address(Page(p)) > 0
      ensures p == 0 ==> runs == old(runs) && memory.size == old(memory.size)
      ensures p != 0 ==> Page(p) == at
      ensures p != 0 <==> Placed(old(memory.size), old(bitmap.nbits), Pages(size), at, mapAt)
      ensures old(memory.size) <= memory.maxLength ==> old(memory.size) <= memory.size <= memory.maxLength
    {
      hide Ok, BitsIn, BitAt, RunOk, Apart, CodeLen, GrownBytes, Clear, AlignUp, Total;
      PagesIs(size);
      var n := Pages(size);
      var page := MapNew(n, at);
      if page == -1 {
        return 0;
      }
      AddressIs(page);
      p := Address(page);
      var ok := PagedSetSize(p, n * PAGESIZE, mapAt);
      if !ok {
        memory.Unmap(n * PAGESIZE);
        return 0;
      }
      TotalWith(old(runs), page, n, Limit());
    }

    /** PagedFree */
    method PagedFree(p: int)
      requires Valid() && Page(p) >= 0 && Page(p) in runs && p == Address(Page(p))
      modifies this, bitmap, bitmap.base, memory`size
      ensures Valid() && runs == old(runs) - {Page(p)} && memory.size - Held() == old(memory.size - Held())
      ensures bitmap.base == old(bitmap.base) && mapPages == old(mapPages) && memory.size <= old(memory.size)
    {
      hide Ok, BitsIn, Total;
      RunIs(Page(p));
      TotalWithout(runs, Page(p), Limit());
      var size := PagedSize(p);
      PagedZapSize(p, size);
      memory.Unmap(size);
    }

    /** The memory held with one more block. */
    lemma TotalMore(before: Runs, p: nat, n: nat)
      requires p < Limit()
      ensures Total(before[p := n], Limit()) == Total(before, Limit()) + n - if p in before then before[p] else 0
    {
      TotalWith(before, p, n, Limit());
    }

    /** The memory held without a block. */
    lemma TotalLess(p: nat)
      requires Valid() && p in runs
      ensures Total(runs - {p}, Limit()) == Total(runs, Limit()) - runs[p]
    {
      RunIs(p);
      TotalWithout(runs, p, Limit());
    }

    /** What the kernel may answer when a block is to have n pages. */
    ghost predicate Answers(k: Kernel, page: nat, n: nat)
      reads this`runs, this`mapAt, this`mapPages
    {
      && (k.commit ==> CanHold(page, n) && MapOffer(k.mapAt, page, n))
      && Offer(k.at, n) && (k.at >= 0 ==> MapOffer(k.mapAtMoved, k.at, n))
    }

    /** The pages at the end of a block go back to the kernel, and the code is written again; that cannot fail. */
    method ShrinkInPlace(p: int, osize: nat, nbytes: nat)
      requires Valid() && Page(p) >= 0 && Page(p) in runs && p == Address(Page(p)) && osize == runs[Page(p)] * PAGESIZE
      requires 0 < nbytes < osize && nbytes % PAGESIZE == 0
      modifies this, bitmap, bitmap.base, memory`size
      ensures Valid() && Moved(old(runs), runs, Page(p), Page(p), nbytes / PAGESIZE) && memory.size <= old(memory.size)
      ensures memory.size - Held() == old(memory.size - Held())
      ensures bitmap.base == old(bitmap.base) || fresh(bitmap.base)
    {
      hide Ok, BitsIn, CodeLen, GrownBytes, Total;
      ghost var page, before := Page(p), runs;
      var n := nbytes / PAGESIZE;
      RunIs(page);
      AddressIs(page);
      CodeRoom(page);
      CodeGrows(n, runs[page]);
      memory.Unmap(osize - nbytes);
      PagedZapSize(p, osize);
      var check := PagedSetSize(p, nbytes, -1);
      assert check;
      TotalWithout(before, page, Limit());
      TotalWith(before - {page}, page, n, Limit());
    }

    lemma CodeRoom(p: nat)
      requires Valid() && p in runs
      ensures 2 * p + CodeLen(runs[p]) <= bitmap.nbits
    {
      assert RunOk(bitmap.View(), runs, p);
    }

    /** A new block, with the contents of the old one. */
    method Move(p: int, osize: nat, nbytes: nat, kernel: Kernel) returns (newp: int)
      requires Valid() && Page(p) >= 0 && Page(p) in runs && p == Address(Page(p)) && osize == runs[Page(p)] * PAGESIZE
      requires osize < nbytes <= WORD - PAGESIZE && nbytes % PAGESIZE == 0 && 0 <= memory.size <= memory.maxLength
      requires Answers(kernel, Page(p), nbytes / PAGESIZE)
      modifies this, bitmap, bitmap.base, memory
      ensures Valid() && memory.size - Held() == old(memory.size - Held()) && memory.size <= memory.maxLength
      ensures bitmap.base == old(bitmap.base) || fresh(bitmap.base)
      ensures newp == 0 ==> runs == old(runs) && memory.data == old(memory.data)
      ensures newp != 0 ==> newp != p && newp == Address(Page(newp)) && Moved(old(runs), runs, Page(p), Page(newp), nbytes / PAGESIZE)
      ensures newp != 0 ==> forall a :: ByteAt(memory.data, a) == Copied(old(memory.data), newp, p, osize, a)
      ensures newp != 0 <==> Placed(old(memory.size), old(bitmap.nbits), nbytes / PAGESIZE, kernel.at, kernel.mapAtMoved)
    {
      hide Ok, BitsIn, CodeLen, GrownBytes, Total, AlignUp;
      ghost var before := runs;
      PagesOf(nbytes / PAGESIZE);
      newp := PagedAllocate(nbytes, kernel.at, kernel.mapAtMoved);
      if newp != 0 {
        ghost var both := runs;
        RunIs(Page(p));
        memory.CopyBytes(newp, p, osize);
        PagedFree(p);
        MovedRun(before, both, Page(p), Page(newp), nbytes / PAGESIZE);
      }
    }

    /** The pages behind the block have been committed; they are given back if the length cannot be recorded. */
    method ExtendInPlace(p: int, osize: nat, nbytes: nat, mapAt: int) returns (newp: int)
      requires Valid() && Page(p) >= 0 && Page(p) in runs && p == Address(Page(p)) && osize == runs[Page(p)] * PAGESIZE
      requires osize < nbytes < MAX_PAGES * PAGESIZE && nbytes % PAGESIZE == 0 && memory.size <= memory.maxLength
      requires CanHold(Page(p), nbytes / PAGESIZE) && MapOffer(mapAt, Page(p), nbytes / PAGESIZE)
      modifies this, bitmap, bitmap.base, memory`size
      ensures Valid() && memory.size - Held() == old(memory.size - Held()) - (nbytes - osize) && memory.size <= memory.maxLength
      ensures bitmap.base == old(bitmap.base) || fresh(bitmap.base)
      ensures if newp == 0 then runs == old(runs) else newp == p && Moved(old(runs), runs, Page(p), Page(p), nbytes / PAGESIZE)
      ensures newp == p <==> Recorded(old(memory.size), old(bitmap.nbits), Pos(p), nbytes / PAGESIZE, mapAt)
    {
      hide Ok, BitsIn, BitAt, RunOk, Apart, CodeLen, GrownBytes, Total;
      ghost var page, before, n := Page(p), runs, nbytes / PAGESIZE;
      AddressIs(page);
      RunIs(page);
      var ok := PagedSetSize(p, nbytes, mapAt);
      if !ok {
        memory.Unmap(nbytes - osize);
        return 0;
      }
      TotalWith(before, page, n, Limit());
      GrownRun(before, page, n);
      newp := p;
    }

    /** How a block of o pages that is to have n becomes larger: in place when the kernel commits the pages behind it,
        otherwise elsewhere; and when it does not. */
    predicate Regrown(p: int, newp: int, o: nat, n: nat, mapped: int, nbits: int, neverMove: bool, kernel: Kernel) {
      n > o ==>
        if kernel.commit && mapped + PAGESIZE * (n - o) <= memory.maxLength then
          newp == if Recorded(mapped + PAGESIZE * (n - o), nbits, Pos(p), n, kernel.mapAt) then p else 0
        else if neverMove then newp == 0
        else newp != p && (newp != 0 <==> Placed(mapped, nbits, n, kernel.at, kernel.mapAtMoved))
    }

    /** PagedReallocate: a block is shrunk in place, or grown in place when the kernel commits the pages behind it,
        or moved. */
    method PagedReallocate(p: int, size: nat, neverMove: bool, kernel: Kernel) returns (newp: int)
      requires Valid() && Page(p) >= 0 && Page(p) in runs && p == Address(Page(p)) && size < WORD && 0 <= memory.size <= memory.maxLength
      requires Answers(kernel, Page(p), NewPages(size, runs[Page(p)]))
      modifies this, bitmap, bitmap.base, memory
      ensures Valid() && memory.size - Held() == old(memory.size - Held()) && memory.size <= memory.maxLength
      ensures bitmap.base == old(bitmap.base) || fresh(bitmap.base)
      ensures newp == 0 ==> runs == old(runs) && memory.data == old(memory.data)
      ensures newp != 0 ==> newp == Address(Page(newp)) && Moved(old(runs), runs, Page(p), Page(newp), NewPages(size, old(runs)[Page(p)]))
      ensures newp == p ==> memory.data == old(memory.data)
      ensures newp != 0 && newp != p ==> forall a :: ByteAt(memory.data, a) == Copied(old(memory.data), newp, p, old(runs)[Page(p)] * PAGESIZE, a)
      ensures neverMove ==> newp == p || newp == 0
      ensures NewPages(size, old(runs)[Page(p)]) <= old(runs)[Page(p)] ==> newp == p
      ensures var o := old(runs)[Page(p)]; Regrown(p, newp, o, NewPages(size, o), old(memory.size), old(bitmap.nbits), neverMove, kernel)
    {
      hide Ok, BitsIn, BitAt, RunOk, Apart, CodeLen, GrownBytes, Clear, AlignUp, Total;
      ghost var page, before := Page(p), runs;
      RunIs(page);
      AddressIs(page);
      PagesIs(size);
      ghost var n := NewPages(size, runs[page]);
      var nbytes := AlignUp(size, PAGESIZE);
      var osize := PagedSize(p);
      if nbytes == 0 {
        nbytes := if MINPAGES * PAGESIZE < osize then MINPAGES * PAGESIZE else osize;
      }
      assert nbytes == n * PAGESIZE;
      if osize == nbytes {
        RunSame(before, page);
        return p;
      }
      if nbytes < osize {
        ShrinkInPlace(p, osize, nbytes);
        return p;
      }
      var ok := memory.Map(nbytes - osize, kernel.commit);
      if ok {
        newp := ExtendInPlace(p, osize, nbytes, kernel.mapAt);
        return;
      }
      if neverMove {
        return 0;
      }
      newp := Move(p, osize, nbytes, kernel);
    }

    /** Bitmap2addr */
    function AddressAt(pos: int): int {
      memBase + PAGESIZE / 2 * pos
    }

    /** The scan of PagedInfo and CheckBitmap has come to bit ix, a block boundary. */
    ghost predicate At(ix: int)
      reads this`runs, bitmap
    {
      ix >= 0 && ix % 2 == 0 && Boundary(runs, ix / 2)
    }

    /** The next one in the bitmap is the next block. */
    method NextBlock(ix: int) returns (pos: int, npage: nat)
      requires Valid() && At(ix)
      ensures forall q :: q in runs ==> q < ix / 2 || (pos != -1 && pos / 2 <= q)
      ensures pos != -1 ==> ix <= pos < bitmap.nbits && pos % 2 == 0 && pos / 2 in runs && npage == runs[pos / 2] > 0 && At(pos + 2 * npage)
      ensures pos != -1 ==> (forall q :: q in runs && pos / 2 < q ==> pos / 2 + npage <= q) && pos / 2 + npage <= Limit()
    {
      hide BitsIn, Read, CodeLen, CodedAt, Ok, RunOk, MapIs, Apart, Clear, Boundary, OffMap;
      npage := 0;
      pos := bitmap.Find(ix, true);
      NextRun(bitmap.View(), runs, ix / 2, pos);
      if pos != -1 {
        FirstBit(bitmap.View(), runs, pos / 2);
        RunIs(pos / 2);
        var n := PagedDecode(pos);
        npage := n.value;
        Halved(pos, npage);
      }
    }

    lemma Halved(pos: nat, npage: nat)
      requires pos % 2 == 0
      ensures (pos + 2 * npage) % 2 == 0 && (pos + 2 * npage) / 2 == pos / 2 + npage
    {
    }

    /** PagedInfo: what is told to the walk function, and the totals. A block of one page is taken for a slab page. */
    method PagedInfo() returns (allocBytes: nat, allocN: nat, walked: seq<(int, int)>)
      requires Valid()
      ensures walked == Listed(memBase, runs, Limit()) && allocN == |walked| && allocBytes == SumLengths(walked)
    {
      hide Ok, BitsIn, Listed, Boundary, MapIs;
      allocBytes, allocN, walked := 0, 0, [];
      ListedNone();
      var ix := 0;
      while true
        invariant At(ix) && ix / 2 <= Limit() && walked == Listed(memBase, runs, ix / 2)
        invariant allocN == |walked| && allocBytes == SumLengths(walked)
        decreases bitmap.nbits - ix
      {
        var pos, npage := NextBlock(ix);
        if pos == -1 {
          break;
        }
        ListedNext(memBase, runs, ix / 2, pos / 2);
        var len := npage * PAGESIZE;
        if len > PAGESIZE {
          allocBytes := allocBytes + len;
          allocN := allocN + 1;
          walked := walked + [(AddressAt(pos), len)];
        }
        ix := pos + 2 * npage;
      }
      ListedSkip(memBase, runs, ix / 2, Limit());
    }

    lemma ListedNone()
      ensures At(0) <==> Boundary(runs, 0)
      ensures Boundary(runs, 0) && Listed(memBase, runs, 0) == [] && SumLengths([]) == 0 && Total(runs, 0) == 0
    {
    }

    /** CheckBitmap without a buffer: the pages of all blocks and of the enlarged bitmap. */
    method CheckBitmap() returns (npages: nat)
      requires Valid()
      ensures npages * PAGESIZE == Held()
    {
      hide Ok, BitsIn, Listed, Boundary, Total, GrownBytes;
      npages := 0;
      ListedNone();
      var ix := 0;
      while true
        invariant At(ix) && ix / 2 <= Limit() && npages == Total(runs, ix / 2)
        decreases bitmap.nbits - ix
      {
        var pos, npage := NextBlock(ix);
        if pos == -1 {
          break;
        }
        ListedNext(memBase, runs, ix / 2, pos / 2);
        npages := npages + npage;
        ix := pos + 2 * npage;
      }
      TotalSkip(runs, ix / 2, Limit());
      if bitmap.nbits > MAXSMALLPAGEBITS {
        npages := npages + bitmap.nbits / 8 / PAGESIZE;
      }
      BigMap();
    }

    /** An enlarged bitmap is larger than the first one. */
    lemma BigMap()
      requires Clean() && MapIs()
      ensures mapPages > 0 <==> bitmap.nbits > MAXSMALLPAGEBITS
      ensures mapPages > 0 ==> bitmap.nbits / 8 == mapPages * PAGESIZE
    {
    }

    /** ResetBitmap and PagedInit: all blocks and the enlarged bitmap go back to the kernel. */
    method Reset(buffer: array<bv8>)
      requires Valid() && buffer.Length == MAXSMALLPAGEBITS / 8
      modifies this, bitmap, bitmap.base, buffer, memory`size
      ensures Valid() && runs == map[] && mapPages == 0 && memory.size == old(memory.size - Held()) && bitmap.base == buffer
    {
      hide Ok, BitsIn, BitAt, RunOk, Apart, Boundary, Total, GrownBytes, Repeat;
      ListedNone();
      ghost var was := memory.size - Held();
      var ix := 0;
      while true
        invariant Valid() && At(ix) && (forall q :: q in runs ==> ix / 2 <= q)
        invariant memory.size - Held() == was && mapPages == old(mapPages) && bitmap.nbits == old(bitmap.nbits) && bitmap.base == old(bitmap.base)
        decreases bitmap.nbits - ix
      {
        var pos, npage := NextBlock(ix);
        if pos == -1 {
          break;
        }
        var p := AddressAt(pos);
        AddressIs(pos / 2);
        ghost var before := runs;
        PagedFree(p);
        BoundaryLess(before, pos / 2, pos / 2 + npage);
        ix := pos + 2 * npage;
      }
      NoRuns();
      BigMap();
      if bitmap.nbits > MAXSMALLPAGEBITS {
        memory.Unmap(bitmap.nbits / 8);
      }
      bitmap.Init(buffer, MAXSMALLPAGEBITS, false);
      mapAt, mapPages := 0, 0;
      NoBits(bitmap.View());
    }

    lemma NoRuns()
      requires forall q :: q !in runs
      ensures runs == map[] && Total(runs, Limit()) == 0
    {
      assert runs == map[];
      TotalSkip(runs, 0, Limit());
    }
  }

  lemma {:induction false} NoTotal(a: nat)
    ensures Total(map[], a) == 0
  {
    TotalSkip(map[], 0, a);
  }

  lemma NoBits(bits: seq<bool>)
    requires bits == Repeat(|bits|, false)
    ensures Ok(bits, map[])
  {
  }

  lemma BoundaryLess(runs: Runs, p: nat, a: nat)
    requires p in runs && Boundary(runs, a)
    ensures Boundary(runs - {p}, a)
  {
  }

  /** What the kernel answers to a reallocation: whether it commits the pages behind the block, where it puts a new
      block, and where it puts the enlarged bitmap in each case. */
  datatype Kernel = Kernel(commit: bool, mapAt: int, at: int, mapAtMoved: int)

  /** The block at p has become one of n pages at q. */
  ghost predicate Moved(before: Runs, after: Runs, p: int, q: int, n: nat) {
    p >= 0 && q >= 0 && n > 0 && p in before && after == (before - {p})[q := n] && Clear(before, q, n) && (q == p || q !in before)
  }

  /** A block of n pages has come into use that overlaps no other. */
  ghost predicate Gained(before: Runs, after: Runs, p: int, n: nat) {
    p >= 0 && n > 0 && p !in before && Clear(before, p, n) && after == before[p := n]
  }
}
