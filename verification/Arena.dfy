/** The arena for large requests: one segment, cut into chunks by boundary tags, with the free chunks in bins,
    one designated victim (dv) from the last split, and top, the uncut rest. */
module Arenas {
  import opened BitStrings
  import opened SizeBits
  import opened Tags
  import opened Words
  import Bins
  import SmallBins
  import TreeBins
  import opened Memories

  const CHUNK_OVERHEAD: int := 4
  const MEM_OFFSET: int := 8
  const TOP_FOOT_SIZE: int := 32
  const SYS_ALLOC_PADDING: int := 40
  const MAX_SMALL_REQUEST: int := 244
  const MIN_REQUEST: int := 11
  const MAX_REQUEST: int := 0xFFFF_FFC0
  const MAX_SIZE_T: int := 0xFFFF_FFFF

  /** PAD_REQUEST for a request that does not wrap. */
  function PadRequest(bytes: int): int {
    (bytes + CHUNK_OVERHEAD + 7) / 8 * 8
  }

  /** REQUEST2SIZE: the chunk size for a request; the largest requests wrap around. */
  function Request2Size(bytes: int): (nb: int)
    requires 0 <= bytes < WORD
  {
    if bytes < MIN_REQUEST then MIN_CHUNK_SIZE else PadRequest(bytes) % WORD
  }

  lemma PadIs(bytes: int)
    requires 0 <= bytes < MAX_REQUEST
    ensures var nb := if bytes < MIN_REQUEST then MIN_CHUNK_SIZE else PadRequest(bytes);
            MIN_CHUNK_SIZE <= nb <= WORD - 0x38 && nb % 8 == 0 && bytes + CHUNK_OVERHEAD <= nb < bytes + 20
            && (bytes <= MAX_SMALL_REQUEST ==> nb < MIN_LARGE_SIZE)
            && (bytes > MAX_SMALL_REQUEST ==> nb >= MIN_LARGE_SIZE)
  {
  }

  /** The chunk at mem - 8 came into use, with room for nb bytes of chunk and less than 16 more. */
  ghost predicate Took(before: map<int, int>, after: map<int, int>, mem: int, nb: int) {
    var p := mem - MEM_OFFSET;
    p !in before && p in after && after == before[p := after[p]] && nb <= after[p] < nb + MIN_CHUNK_SIZE
  }

  /** If any of these chunks can hold nb, p is one that can, and none that can is smaller. */
  ghost predicate BestOf(free: map<int, int>, p: int, nb: int) {
    forall x :: x in free && nb <= free[x] ==> p in free && nb <= free[p] <= free[x]
  }

  /** x is a chunk of c that can hold nb, and no smaller one can. */
  ghost predicate Smallest(c: map<int, int>, x: int, nb: int) {
    x in c && nb <= c[x] && forall y :: y in c && nb <= c[y] ==> c[x] <= c[y]
  }

  /** A small request takes the binned chunk x: one of exactly nb bytes, or else of eight more, in a small bin; or else,
      when the victim is too small, the smallest one that fits. */
  ghost predicate SmallBinned(c: map<int, int>, dvs: int, x: int, nb: int) {
    if Bins.Has(c, nb) then x in c && c[x] == nb
    else if Bins.Has(c, nb + 8) then x in c && c[x] == nb + 8
    else dvs < nb && Smallest(c, x, nb)
  }

  /** A small request takes no binned chunk. */
  ghost predicate NotBinned(c: map<int, int>, dvs: int, nb: int) {
    !Bins.Has(c, nb) && !Bins.Has(c, nb + 8) && (nb <= dvs || NoneFits(c, nb))
  }

  /** Where a request for nb bytes of chunk is met, when the bins hold c, the victim is dv and top begins at top: in the
      chunk x. Large requests take the smallest binned chunk that fits, unless the victim fits at least as tightly. Only
      if nothing fits is top cut. */
  ghost predicate Met(c: map<int, int>, dv: int, dvs: int, top: int, nb: int, x: int) {
    if nb < MIN_LARGE_SIZE then
      if x in c then SmallBinned(c, dvs, x, nb)
      else NotBinned(c, dvs, nb) && x == if nb <= dvs then dv else top
    else
      if x in c then Smallest(c, x, nb) && (nb <= dvs ==> c[x] < dvs)
      else if nb <= dvs then (forall y :: y in c && nb <= c[y] ==> dvs <= c[y]) && x == dv
      else NoneFits(c, nb) && x == top
  }

  /** The victim and its size once the request has been met in x: what a small request leaves of a binned chunk becomes
      the victim, and so does what is left of the victim. */
  function VictimThen(c: map<int, int>, dv: int, dvs: int, nb: int, x: int): (int, int) {
    if x in c then if nb < MIN_LARGE_SIZE then Rest(x, c[x], nb, dv, dvs) else (dv, dvs)
    else if nb <= dvs then Rest(x, dvs, nb, 0, 0)
    else (dv, dvs)
  }

  /** The victim and its size after a chunk of size s at x has been cut to nb bytes and the rest made the victim; a rest
      that is too small goes with the chunk. */
  function Rest(x: int, s: int, nb: int, dv: int, dvs: int): (int, int) {
    if s - nb >= MIN_CHUNK_SIZE then (x + nb, s - nb) else (dv, dvs)
  }

  /** The block at p is large enough for nb bytes of chunk, or it is the last one and top can make it so. */
  predicate Roomy(live: map<int, int>, top: int, topSize: int, p: int, nb: int) {
    p in live && (nb <= live[p] || (p + live[p] == top && nb < live[p] + topSize))
  }

  ghost predicate NoneFits(free: map<int, int>, nb: int) {
    forall x :: x in free ==> free[x] < nb
  }

  // ---------- who holds a free chunk ----------

  /** The free chunks are those in bins and the victim, each held once. */
  ghost predicate Kept(binned: map<int, int>, victim: map<int, int>, free: map<int, int>) {
    free == binned + victim && (forall x {:trigger x in binned} {:trigger x in victim} :: !(x in binned && x in victim))
  }

  /** The same, but nothing holds p, a free chunk of size s. */
  ghost predicate Owed(binned: map<int, int>, victim: map<int, int>, free: map<int, int>, p: int, s: int) {
    p in free && free[p] == s && Kept(binned, victim, free - {p})
  }

  lemma Unbinned(c: map<int, int>, f: map<int, int>, free: map<int, int>, p: int)
    requires Kept(c, f, free) && p in c
    ensures p in free && Owed(c - {p}, f, free, p, c[p])
  {
    SameMap(free - {p}, (c - {p}) + f);
  }

  lemma Rebinned(c: map<int, int>, f: map<int, int>, free: map<int, int>, p: int, s: int)
    requires Owed(c, f, free, p, s)
    ensures p !in c && p !in f && Kept(c[p := s], f, free)
  {
    assert p !in free - {p};
    forall x ensures x in free <==> x in c[p := s] + f {
      assert x in free - {p} <==> x in c + f;
    }
    forall x | x in free ensures free[x] == (c[p := s] + f)[x] {
      assert x in free - {p} ==> (free - {p})[x] == (c + f)[x];
    }
    SameMap(free, c[p := s] + f);
  }

  lemma SplitOwed(c: map<int, int>, f: map<int, int>, free: map<int, int>, p: int, s: int, q: int, t: int)
    requires Owed(c, f, free, p, s) && q !in free
    ensures Owed(c, f, (free - {p})[q := t], q, t)
  {
    SameMap((free - {p})[q := t] - {q}, c + f);
  }

  /** The victim changes places with nothing. */
  lemma VictimOwed(c: map<int, int>, free: map<int, int>, p: int, s: int)
    ensures Kept(c, map[p := s], free) <==> Owed(c, map[], free, p, s)
  {
    if Kept(c, map[p := s], free) {
      SameMap(free - {p}, c + map[]);
    } else if Owed(c, map[], free, p, s) {
      assert p !in c + map[];
      SameMap(free, c + map[p := s]);
    }
  }

  /** A segment that is all top. */
  lemma FirstSegment(base: int, size: int)
    requires 0 < base && base % 8 == 0 && size > 0 && size % 8 == 0
    ensures var v := Segment(map[base := Head(size, true, false)][base + size := FOOT], map[], {}, map[], base, base);
      Ok(v) && H(v, base).size == size && Frees(v) == map[] && Lives(v) == map[]
  {
    var v := Segment(map[base := Head(size, true, false)][base + size := FOOT], map[], {}, map[], base, base);
    SameMap(Frees(v), map[]);
    SameMap(Lives(v), map[]);
  }

  // ---------- what a reallocation promises ----------

  /** Exactly the requests that do not wrap get a chunk that can hold them. */
  lemma RequestFits(bytes: int)
    requires 0 <= bytes < WORD
    ensures bytes + MIN_REQUEST < WORD <==> Request2Size(bytes) >= bytes + CHUNK_OVERHEAD
    ensures bytes + MIN_REQUEST < WORD ==> Request2Size(bytes) >= MIN_CHUNK_SIZE
    ensures bytes + MIN_REQUEST >= WORD ==> Request2Size(bytes) <= 8
    ensures Request2Size(bytes) % 8 == 0
  {
  }

  /** The block at oldmem has become one at mem that can hold the new size and little more; the other blocks stay. */
  ghost predicate Resized(before: map<int, int>, after: map<int, int>, oldmem: int, mem: int, bytes: int)
    requires 0 <= bytes < WORD
  {
    var p, q := oldmem - MEM_OFFSET, mem - MEM_OFFSET;
    && p in before && q in after && after == (before - {p})[q := after[q]] && bytes + CHUNK_OVERHEAD <= after[q]
    && Request2Size(bytes) <= after[q] < Request2Size(bytes) + MIN_CHUNK_SIZE && (q == p || q !in before)
  }

  /** The block keeps its bytes, as many as it had and still has, and so do all other blocks. */
  ghost predicate Moved(before: map<int, int>, after: map<int, int>, was: map<int, int>, now: map<int, int>,
                        oldmem: int, mem: int, bytes: int) {
    var p := oldmem - MEM_OFFSET;
    && p in before
    && (forall a :: mem <= a < mem + bytes && a < mem + before[p] - CHUNK_OVERHEAD ==> ByteAt(now, a) == ByteAt(was, oldmem + (a - mem)))
    && (forall x, a {:trigger InBlock(before, x, a)} :: x != p && InBlock(before, x, a) ==> ByteAt(now, a) == ByteAt(was, a))
  }

  /** The links of a binned chunk x of this size: two words on a ring, and four more in a trie. */
  predicate LinkAt(x: int, size: int, a: int) {
    a % 4 == x % 4 && x + MEM_OFFSET <= a < x + MEM_OFFSET + (if Bins.IsSmall(size) then 8 else 24)
  }

  /** The bytes of block x as its owner sees them; the last four lie in the foot word of the next chunk. */
  predicate InBlock(live: map<int, int>, x: int, a: int) {
    x in live && x + MEM_OFFSET <= a < x + live[x] + CHUNK_OVERHEAD
  }

  lemma InPlace(before: map<int, int>, after: map<int, int>, was: map<int, int>, now: map<int, int>, mem: int, bytes: int)
    requires var p := mem - MEM_OFFSET; p in before && p in after && after == before[p := after[p]] && bytes + CHUNK_OVERHEAD <= after[p]
    requires now == was && 0 <= bytes < WORD
    requires Request2Size(bytes) <= after[mem - MEM_OFFSET] < Request2Size(bytes) + MIN_CHUNK_SIZE
    ensures Resized(before, after, mem, mem, bytes) && Moved(before, after, was, now, mem, mem, bytes)
  {
    var p := mem - MEM_OFFSET;
    SameMap(after, (before - {p})[p := after[p]]);
  }

  lemma CutBack(before: map<int, int>, cut: map<int, int>, after: map<int, int>, p: int, nb: int, rsize: int)
    requires p in before && p + nb !in before && cut == before[p := nb][p + nb := rsize] && after == cut - {p + nb}
    ensures after == before[p := nb]
  {
    SameMap(after, before[p := nb]);
  }

  class Arena {
    var heads: map<int, Head>
    var feet: map<int, int>
    var top: int
    var topSize: int
    var dv: int
    var dvSize: int
    var trimCheck: int
    var segSize: int
    const base: int
    /** The memory of the whole heap, of which this segment is a part. */
    const memory: Memory
    const minSeg: int
    const growBy: int
    const pageBits: nat
    const fixed: bool
    const hysteresis: int
    const bins: Bins.BinSet
    ghost var starts: set<int>
    ghost var prev: map<int, int>

    ghost function Seg(): Segment
      reads this`heads, this`feet, this`starts, this`prev, this`top
    {
      Segment(heads, feet, starts, prev, base, top)
    }

    /** The designated victim. */
    ghost function Victim(): map<int, int>
      reads this`dv, this`dvSize
    {
      if dvSize != 0 then map[dv := dvSize] else map[]
    }

    predicate VictimOk()
      reads this`dv, this`dvSize
    {
      dvSize >= 0 && (dvSize == 0 ==> dv == 0)
    }

    /** The tags are in order and the segment ends where it should. */
    ghost predicate Sound()
      reads this`heads, this`feet, this`starts, this`prev, this`top, this`topSize, this`segSize
    {
      && Ok(Seg()) && H(Seg(), top).size == topSize
      && top + topSize + TOP_FOOT_SIZE == base + segSize
      && base + segSize <= WORD
      && 3 <= pageBits <= 31 && growBy >= 0 && growBy % Pow2(pageBits) == 0 && (base + segSize) % Pow2(pageBits) == 0
    }

    /** The segment is part of what the heap has committed, within the address space reserved for it. */
    predicate Committed()
      reads this`segSize, this`trimCheck, memory`size
    {
      segSize <= memory.size <= memory.maxLength && base + memory.maxLength <= WORD && trimCheck == TrimCheck()
    }

    /** The size of top from which on it is trimmed. */
    function TrimCheck(): int {
      hysteresis * (growBy / 256)
    }

    /** The free chunks are exactly the victim and the contents of the bins, each once. */
    ghost predicate Intact()
      reads this, bins, bins.small, bins.trees
    {
      Sound() && bins.Valid() && Kept(bins.Contents(), Victim(), Free()) && VictimOk()
    }

    ghost predicate Valid()
      reads this, memory`size, bins, bins.small, bins.trees
    {
      Intact() && Committed()
    }

    /** The blocks in use: chunk and size. */
    ghost function Live(): map<int, int>
      reads this`heads, this`feet, this`starts, this`prev, this`top
    {
      Lives(Seg())
    }

    ghost function Free(): map<int, int>
      reads this`heads, this`feet, this`starts, this`prev, this`top
    {
      Frees(Seg())
    }

    /** InitDlMalloc: one segment of this capacity, all of it top except for its foot. The heap has committed
        its memory before. */
    constructor (memory: Memory, base: int, capacity: int, minSeg: int, growBy: int, pageBits: nat, fixed: bool,
                 hysteresis: int)
      requires 0 < base && base % 8 == 0 && capacity > TOP_FOOT_SIZE && capacity % 8 == 0
      requires capacity <= memory.size <= memory.maxLength && base + memory.maxLength <= WORD
      requires 3 <= pageBits <= 31 && growBy >= 0 && growBy % Pow2(pageBits) == 0 && (base + capacity) % Pow2(pageBits) == 0
      ensures Valid() && Live() == map[] && Free() == map[] && segSize == capacity
      ensures this.base == base && this.memory == memory && this.minSeg == minSeg && fresh(bins) && fresh(bins.small) && fresh(bins.trees)
    {
      this.memory, this.base, this.minSeg, this.growBy := memory, base, minSeg, growBy;
      this.pageBits, this.fixed, this.hysteresis := pageBits, fixed, hysteresis;
      bins := new Bins.BinSet();
      segSize := capacity;
      dv, dvSize := 0, 0;
      top, topSize := base, capacity - TOP_FOOT_SIZE;
      heads := map[base := Head(capacity - TOP_FOOT_SIZE, true, false)][base + capacity - TOP_FOOT_SIZE := FOOT];
      feet := map[];
      trimCheck := hysteresis * (growBy / 256);
      starts, prev := {}, map[];
      new;
      hide *;
      FirstState(capacity);
    }

    lemma FirstState(capacity: int)
      requires 0 < base && base % 8 == 0 && capacity > TOP_FOOT_SIZE && capacity % 8 == 0
      requires capacity <= memory.size <= memory.maxLength && base + memory.maxLength <= WORD
      requires 3 <= pageBits <= 31 && growBy >= 0 && growBy % Pow2(pageBits) == 0 && (base + capacity) % Pow2(pageBits) == 0
      requires bins.Valid() && bins.Contents() == map[] && segSize == capacity && dv == 0 && dvSize == 0 && trimCheck == TrimCheck()
      requires top == base && topSize == capacity - TOP_FOOT_SIZE && feet == map[] && starts == {} && prev == map[]
      requires heads == map[base := Head(topSize, true, false)][base + topSize := FOOT]
      ensures Valid() && Live() == map[] && Free() == map[]
    {
      hide Bins.BinSet.Contents, Bins.BinSet.Valid, Frees, Lives, Pow2, Ok, H;
      FirstSegment(base, topSize);
      SameMap(bins.Contents() + Victim(), map[]);
    }

    /** SET_INUSE_AND_PINUSE on a free chunk. */
    method SetInuse(p: int, s: int)
      requires Sound() && FreeAt(Seg(), p) && H(Seg(), p).size == s
      modifies this`heads
      ensures Sound() && Free() == old(Free()) - {p} && Live() == old(Live())[p := s] && p !in old(Live())
    {
      hide Ok, Pow2, Frees, Lives, Used, H, FreeAt, HeadAt;
      ghost var v := Seg();
      UsedTop(v, p);
      UsedOk(v, p);
      UsedMaps(v, p);
      UsedIs(v, p);
      heads := heads[p := Head(s, true, true)];
      heads := heads[p + s := HeadAt(heads, p + s).(pinuse := true)];
      assert Seg() == Used(v, p);
    }

    /** A free chunk is split: the front is in use, the rest is free. */
    method Split(p: int, nb: int, rsize: int)
      requires Sound() && FreeAt(Seg(), p) && H(Seg(), p).size == nb + rsize
      requires MIN_CHUNK_SIZE <= nb && MIN_CHUNK_SIZE <= rsize && nb % 8 == 0
      modifies this`heads, this`feet, this`starts, this`prev
      ensures Sound() && Free() == (old(Free()) - {p})[p + nb := rsize]
      ensures Live() == old(Live())[p := nb] && p !in old(Live()) && p + nb !in old(Free())
    {
      hide Ok, Pow2, Frees, Lives, Cut, H, FreeAt, HeadAt;
      ghost var v := Seg();
      SplitIs(v, p, nb);
      heads := heads[p := Head(nb, true, true)];
      var r := p + nb;
      heads := heads[r := Head(rsize, true, false)];
      feet := feet[r + rsize := rsize];
      starts, prev := starts + {r}, prev[r := p][r + rsize := r];
    }

    /** A chunk is taken from the front of top. */
    method SplitTop(nb: int) returns (p: int)
      requires Sound() && MIN_CHUNK_SIZE <= nb < topSize && nb % 8 == 0
      modifies this`heads, this`starts, this`prev, this`top, this`topSize
      ensures Sound() && Free() == old(Free()) && Live() == old(Live())[p := nb] && p !in old(Live()) && p == old(top)
    {
      hide Ok, Pow2, Frees, Lives, TopCut, H, FreeAt, HeadAt;
      ghost var v := Seg();
      TopCutIs(v, nb);
      var rsize := topSize - nb;
      topSize := rsize;
      p := top;
      var r := p + nb;
      top := r;
      heads := heads[r := Head(rsize, true, false)];
      heads := heads[p := Head(nb, true, true)];
      starts, prev := starts + {p}, prev[r := p];
    }

    /** Everything is in order except that the free chunk p is neither the victim nor in a bin. */
    ghost predicate Owes(p: int, s: int)
      reads this, memory`size, bins, bins.small, bins.trees
    {
      Sound() && bins.Valid() && Owed(bins.Contents(), Victim(), Free(), p, s) && VictimOk() && Committed()
    }

    /** A free chunk lies within the segment. */
    lemma FreeSize(p: int)
      requires Sound() && p in Free()
      ensures 0 < p && MIN_CHUNK_SIZE <= Free()[p] && p + Free()[p] <= top && Free()[p] < WORD - TOP_FOOT_SIZE
      ensures Free()[p] % 8 == 0
      ensures FreeAt(Seg(), p) && H(Seg(), p).size == Free()[p]
    {
      TopIs(Seg());
      ChunkIs(Seg(), p);
      Disjoint(Seg(), p, top);
    }

    /** UnlinkChunk for a chunk that is about to be used or merged. */
    method Unbin(p: int, s: int)
      requires Valid() && p in bins.Contents() && bins.Contents()[p] == s
      modifies bins.small, bins.trees
      ensures Owes(p, s)
    {
      hide Sound, Bins.BinSet.Valid, Bins.BinSet.Contents, Free, Live, Seg, Victim, Kept, Owed;
      Unbinned(bins.Contents(), Victim(), Free(), p);
      bins.UnlinkChunk(p, s);
    }

    /** InsertChunk */
    method Rebin(p: int, s: int)
      requires Owes(p, s)
      modifies bins.small, bins.trees
      ensures Valid()
    {
      hide Sound, Bins.BinSet.Valid, Bins.BinSet.Contents, Free, Live, Seg, Victim, Kept;
      FreeSize(p);
      Rebinned(bins.Contents(), Victim(), Free(), p, s);
      bins.InsertChunk(p, s);
    }

    /** ReplaceDv: p becomes the victim, and the old victim, which is known to be small, goes to its bin. */
    method ReplaceDv(p: int, s: int)
      requires Owes(p, s) && dvSize < MIN_LARGE_SIZE
      modifies this`dv, this`dvSize, bins.small
      ensures Valid() && dv == p && dvSize == s
    {
      hide Sound, Bins.BinSet.Valid, Bins.BinSet.Contents, Free, Live, Seg, Kept;
      ghost var c, free := bins.Contents(), Free();
      FreeSize(p);
      if dvSize != 0 {
        VictimBinned(c, dv, dvSize, free, p, s);
        FreeSize(dv);
        bins.InsertSmall(dv, dvSize);
      }
      dvSize := s;
      dv := p;
      VictimOwed(bins.Contents(), free, p, s);
      assert Free() == free;
    }

    /** A free chunk that is in no bin comes into use, whole or its front; a rest is binned. */
    method Use(p: int, nb: int, rsize: int) returns (mem: int)
      requires Owes(p, nb + rsize) && MIN_CHUNK_SIZE <= nb && 0 <= rsize && nb % 8 == 0
      modifies this`heads, this`feet, this`starts, this`prev, bins.small, bins.trees
      ensures Valid() && Took(old(Live()), Live(), mem, nb) && mem == p + MEM_OFFSET
    {
      hide Sound, Bins.BinSet.Valid, Bins.BinSet.Contents, Free, Live, Seg, Kept, Victim;
      FreeSize(p);
      ghost var free := Free();
      if rsize < MIN_CHUNK_SIZE {
        SetInuse(p, rsize + nb);
      } else {
        Split(p, nb, rsize);
        SplitOwed(bins.Contents(), Victim(), free, p, nb + rsize, p + nb, rsize);
        Rebin(p + nb, rsize);
      }
      mem := p + MEM_OFFSET;
    }

    /** TmallocLarge: the best fitting tree chunk, unless the victim fits at least as well; 0 when there is none. */
    method TmallocLarge(nb: int) returns (mem: int)
      requires Valid() && MIN_LARGE_SIZE <= nb < WORD && nb % 8 == 0
      modifies this`heads, this`feet, this`starts, this`prev, bins.small, bins.trees
      ensures Valid()
      ensures mem != 0 ==> Took(old(Live()), Live(), mem, nb) && BestOf(old(Free()), mem - MEM_OFFSET, nb)
      ensures mem != 0 ==> var c, x := old(bins.Contents()), mem - MEM_OFFSET; x in c && Smallest(c, x, nb) && (nb <= dvSize ==> c[x] < dvSize)
      ensures mem == 0 ==> Live() == old(Live()) && Free() == old(Free()) && Victim() == old(Victim())
      ensures mem == 0 ==> forall x :: x in Free() && nb <= Free()[x] ==> nb <= dvSize <= Free()[x]
    {
      hide Sound, Bins.BinSet.Valid, Bins.BinSet.Contents, Free, Live, Seg, Kept, Victim, BestOf, Took;
      ghost var c, f, free := bins.Contents(), Victim(), Free();
      var v, rsize := bins.FindLarge(nb);
      BoundedVictim(v, rsize, nb);
      if v != 0 && rsize < (dvSize - nb) % WORD {
        BestBinned(c, f, free, v, nb, dv, dvSize);
        Unbin(v, nb + rsize);
        mem := Use(v, nb, rsize);
        return;
      }
      mem := 0;
      BetterVictim(c, f, free, v, nb, rsize, dv, dvSize);
    }

    /** A free chunk that is in no bin comes into use, whole or its front; a rest becomes the victim. */
    method UseForVictim(p: int, nb: int, rsize: int) returns (mem: int)
      requires Owes(p, nb + rsize) && MIN_CHUNK_SIZE <= nb && 0 <= rsize && nb % 8 == 0 && dvSize < MIN_LARGE_SIZE
      modifies this`heads, this`feet, this`starts, this`prev, this`dv, this`dvSize, bins.small
      ensures Valid() && Took(old(Live()), Live(), mem, nb) && mem == p + MEM_OFFSET
      ensures (dv, dvSize) == Rest(p, nb + rsize, nb, old(dv), old(dvSize))
    {
      hide Sound, Bins.BinSet.Valid, Bins.BinSet.Contents, Free, Live, Seg, Kept, Victim;
      FreeSize(p);
      ghost var free := Free();
      if rsize < MIN_CHUNK_SIZE {
        SetInuse(p, rsize + nb);
      } else {
        Split(p, nb, rsize);
        SplitOwed(bins.Contents(), Victim(), free, p, nb + rsize, p + nb, rsize);
        ReplaceDv(p + nb, rsize);
      }
      mem := p + MEM_OFFSET;
    }

    /** A request of at most MAX_SMALL_REQUEST bytes is met from a bin: from the bin of its size or the next one
        without a rest, or, when the victim is too small, from the next small bin or the smallest large chunk.
        0 when the victim is to be used or nothing in the bins fits. */
    method SmallRequest(nb: int) returns (mem: int)
      requires Valid() && MIN_CHUNK_SIZE <= nb < MIN_LARGE_SIZE && nb % 8 == 0
      modifies this`heads, this`feet, this`starts, this`prev, this`dv, this`dvSize, bins.small, bins.trees
      ensures Valid()
      ensures mem != 0 ==> Took(old(Live()), Live(), mem, nb)
      ensures mem == 0 ==> Live() == old(Live()) && Free() == old(Free()) && dvSize == old(dvSize)
      ensures mem == 0 ==> nb <= dvSize || NoneFits(Free(), nb)
      ensures var c, x := old(bins.Contents()), mem - MEM_OFFSET;
        if mem == 0 then NotBinned(c, old(dvSize), nb) && dv == old(dv) && dvSize == old(dvSize)
        else x in c && SmallBinned(c, old(dvSize), x, nb) && (dv, dvSize) == Rest(x, c[x], nb, old(dv), old(dvSize))
    {
      hide Sound, Bins.BinSet.Valid, Bins.BinSet.Contents, Free, Live, Seg, Kept, Victim, Took, NoneFits, Bins.Has, Smallest;
      var idx := nb / 8;
      mem := 0;
      bins.MarkedHas(idx);
      bins.MarkedHas(idx + 1);
      if idx in bins.small.marked || idx + 1 in bins.small.marked {
        if idx !in bins.small.marked {
          idx := idx + 1;
        }
        mem := FirstOf(idx, nb);
      } else if nb > dvSize {
        var i := bins.FirstSmall(idx);
        ghost var c := bins.Contents();
        if i >= 0 {
          bins.LeastMarked(idx, i);
          mem := FirstOf(i, nb);
          SmallestIs(c, mem - MEM_OFFSET, nb);
        } else if bins.trees.marked != {} {
          var v, rsize := bins.FindSmallest(nb);
          bins.NoneSmall(idx);
          SmallestIs(c, v, nb);
          Unbin(v, nb + rsize);
          OwedIs(v, nb + rsize);
          mem := UseForVictim(v, nb, rsize);
        } else {
          SmallFails(idx, nb);
          bins.NothingFits(idx);
          NoneFitsIs(c, nb);
        }
      }
    }

    /** The front chunk of small bin i is used for the request. */
    method FirstOf(i: int, nb: int) returns (mem: int)
      requires Valid() && i in bins.small.marked && MIN_CHUNK_SIZE <= nb <= 8 * i && nb % 8 == 0
      requires 8 * i - nb < MIN_CHUNK_SIZE || dvSize < MIN_LARGE_SIZE
      modifies this`heads, this`feet, this`starts, this`prev, this`dv, this`dvSize, bins.small
      ensures Valid() && mem != 0 && Took(old(Live()), Live(), mem, nb)
      ensures var c, p := old(bins.Contents()), mem - MEM_OFFSET;
        p in c && c[p] == 8 * i && (dv, dvSize) == Rest(p, 8 * i, nb, old(dv), old(dvSize))
    {
      hide Sound, Bins.BinSet.Valid, Bins.BinSet.Contents, Free, Live, Seg, Kept, Victim, Took, Owed;
      ghost var c, f, free := bins.Contents(), Victim(), Free();
      var p := bins.TakeFirst(i);
      Unbinned(c, f, free, p);
      OwedIs(p, 8 * i);
      if 8 * i - nb < MIN_CHUNK_SIZE {
        SetInuse(p, 8 * i);
        mem := p + MEM_OFFSET;
        UsedUp(bins.Contents(), Victim(), free, p, 8 * i);
        assert Took(old(Live()), Live(), mem, nb) by { TookIs(old(Live()), p, 8 * i, nb); }
      } else {
        mem := UseForVictim(p, nb, 8 * i - nb);
      }
    }

    lemma OwedIs(p: int, s: int)
      requires Owes(p, s)
      ensures p in Free() && Free()[p] == s && p > 0 && FreeAt(Seg(), p) && H(Seg(), p).size == s
    {
      hide Sound, Bins.BinSet.Valid, Bins.BinSet.Contents, Free, Seg, Kept;
      FreeSize(p);
    }

    lemma SmallFails(idx: int, nb: int)
      requires Valid() && nb == 8 * idx && 0 <= idx && dvSize < nb
      requires (forall j :: idx <= j ==> j !in bins.small.marked) && bins.trees.marked == {}
      ensures NoneFits(Free(), nb)
    {
      hide Sound, Bins.BinSet.Valid, Bins.BinSet.Contents, Free;
      bins.NothingFits(idx);
      forall x | x in Free() ensures Free()[x] < nb {
        assert x in bins.Contents() + Victim();
      }
    }

    /** The victim is split, or used up when too little would be left. */
    method FromVictim(nb: int) returns (mem: int)
      requires Valid() && MIN_CHUNK_SIZE <= nb <= dvSize && nb % 8 == 0
      modifies this`heads, this`feet, this`starts, this`prev, this`dv, this`dvSize
      ensures Valid() && mem != 0 && Took(old(Live()), Live(), mem, nb) && mem == old(dv) + MEM_OFFSET
      ensures (dv, dvSize) == Rest(old(dv), old(dvSize), nb, 0, 0)
    {
      hide Sound, Bins.BinSet.Valid, Bins.BinSet.Contents, Free, Live, Seg, Kept, Took;
      ghost var c, free := bins.Contents(), Free();
      var p, dvs := dv, dvSize;
      VictimOwed(c, free, dv, dvSize);
      FreeSize(p);
      var rsize := dvSize - nb;
      if rsize >= MIN_CHUNK_SIZE {
        var r := p + nb;
        dv, dvSize := r, rsize;
        Split(p, nb, rsize);
        SplitOwed(c, map[], free, p, dvs, r, rsize);
        VictimOwed(c, Free(), r, rsize);
        TookIs(old(Live()), p, nb, nb);
      } else {
        dv, dvSize := 0, 0;
        SetInuse(p, dvs);
        TookIs(old(Live()), p, dvs, nb);
      }
      mem := p + MEM_OFFSET;
    }

    /** Top is split. */
    method FromTop(nb: int) returns (mem: int)
      requires Valid() && MIN_CHUNK_SIZE <= nb < topSize && nb % 8 == 0
      modifies this`heads, this`starts, this`prev, this`top, this`topSize
      ensures Valid() && mem != 0 && Took(old(Live()), Live(), mem, nb) && mem == old(top) + MEM_OFFSET
    {
      hide Sound, Bins.BinSet.Valid, Bins.BinSet.Contents, Free, Live, Seg, Kept, Took;
      TopPositive();
      var p := SplitTop(nb);
      TookIs(old(Live()), p, nb, nb);
      mem := p + MEM_OFFSET;
    }

    lemma TopPositive()
      requires Sound()
      ensures top > 0 && top % 8 == 0 && topSize > 0 && topSize % 8 == 0 && topSize < WORD - TOP_FOOT_SIZE && base + segSize >= 0 && segSize > TOP_FOOT_SIZE
    {
      TopIs(Seg());
      TopAligned(Seg());
    }

    /** InitTop: top gets the given size, and the head word behind it marks the foot. */
    method InitTop(psize: int)
      requires Ok(Seg()) && psize > 0 && psize % 8 == 0
      modifies this`heads, this`topSize, this`trimCheck
      ensures Ok(Seg()) && H(Seg(), top).size == topSize == psize && Free() == old(Free()) && Live() == old(Live())
      ensures trimCheck == TrimCheck()
    {
      hide Ok, Frees, Lives, H, HeadAt;
      ghost var v := Seg();
      TopSizedIs(v, psize);
      topSize := psize;
      heads := heads[top := Head(psize, true, false)];
      heads := heads[top + psize := FOOT];
      trimCheck := hysteresis * (growBy / 256);
    }

    /** SysAlloc: the segment grows by enough whole growth steps for the request, which is then cut from top. */
    method SysAlloc(nb: int, grant: bool) returns (mem: int)
      requires Valid() && topSize <= nb
      requires nb == MAX_SIZE_T || (MIN_CHUNK_SIZE <= nb <= WORD - 0x38 && nb % 8 == 0)
      modifies this`heads, this`starts, this`prev, this`top, this`topSize, this`trimCheck, this`segSize, memory`size
      ensures Valid() && memory.size - segSize == old(memory.size - segSize)
      ensures mem != 0 ==> Took(old(Live()), Live(), mem, nb) && segSize >= old(segSize) && nb != MAX_SIZE_T && mem == old(top) + MEM_OFFSET
      ensures mem == 0 ==> Live() == old(Live()) && Free() == old(Free())
      ensures segSize == old(segSize) || segSize == old(segSize) + AlignUp(nb - old(topSize) + SYS_ALLOC_PADDING, growBy)
      ensures mem == 0 && nb - old(topSize) + SYS_ALLOC_PADDING + growBy <= WORD ==> segSize == old(segSize)
      ensures mem == 0 && grant && growBy > 0 && nb - old(topSize) + SYS_ALLOC_PADDING + growBy <= 0x8000_0000 ==>
                old(memory.size) + AlignUp(nb - old(topSize) + SYS_ALLOC_PADDING, growBy) > memory.maxLength
    {
      hide Sound, Bins.BinSet.Valid, Bins.BinSet.Contents, Free, Live, Seg, Kept, Took, Pow2, Victim;
      TopPositive();
      var a := AlignUp(nb - topSize + SYS_ALLOC_PADDING, growBy);
      var asize := if a >= 0x8000_0000 then a - WORD else a;
      GrowthIs(nb, a, asize);
      mem := 0;
      var ok := memory.Map(asize, grant);
      if ok {
        Grow(asize);
        TopPositive();
        if nb < topSize {
          mem := FromTop(nb);
        }
      }
    }

    /** The segment and top grow by memory that has been committed. */
    method Grow(asize: int)
      requires Sound() && 0 <= asize && asize % Pow2(pageBits) == 0 && base + segSize + asize <= WORD
      modifies this`heads, this`topSize, this`trimCheck, this`segSize
      ensures Sound() && segSize == old(segSize) + asize && topSize == old(topSize) + asize && trimCheck == TrimCheck()
      ensures Free() == old(Free()) && Live() == old(Live())
    {
      hide Ok, Pow2, Frees, Lives, H, HeadAt, TrimCheck;
      SizesGrow(asize);
      segSize := segSize + asize;
      InitTop(topSize + asize);
    }

    /** The growth step is a whole number of pages and, but for the marker of an impossible request, more than
        top lacks. */
    lemma GrowthIs(nb: int, a: nat, asize: int)
      requires Sound() && topSize <= nb
      requires nb == MAX_SIZE_T || (MIN_CHUNK_SIZE <= nb <= WORD - 0x38 && nb % 8 == 0)
      requires a == AlignUp(nb - topSize + SYS_ALLOC_PADDING, growBy)
      requires asize == if a >= 0x8000_0000 then a - WORD else a
      ensures 0 <= asize ==> asize % Pow2(pageBits) == 0
      ensures 0 <= asize && nb - topSize + SYS_ALLOC_PADDING + growBy <= WORD ==> asize == 0 || nb < topSize + asize
      ensures growBy > 0 && nb - topSize + SYS_ALLOC_PADDING + growBy <= 0x8000_0000 ==> asize == a && nb < topSize + asize
    {
      hide AlignUp, Ok, Pow2;
      TopPositive();
      AlignUpPages(nb - topSize + SYS_ALLOC_PADDING, growBy, pageBits);
      if growBy == 0 {
        AlignUpNone(nb - topSize + SYS_ALLOC_PADDING);
      } else if nb - topSize + SYS_ALLOC_PADDING + growBy <= WORD {
        AlignUpReaches(nb - topSize + SYS_ALLOC_PADDING, growBy);
      }
    }

    /** DlMalloc: a block for the request. Small requests prefer a bin without a rest, then the victim; large
        ones take the best fit of all free chunks; then top serves, and then more memory. It fails only when no
        free chunk fits, top is too small and the segment cannot grow. */
    method DlMalloc(bytes: nat, grant: bool) returns (mem: int)
      requires Valid() && bytes < WORD
      modifies this`heads, this`feet, this`starts, this`prev, this`top, this`topSize, this`dv, this`dvSize
      modifies this`trimCheck, this`segSize, memory`size, bins.small, bins.trees
      ensures Valid() && memory.size - segSize == old(memory.size - segSize)
      ensures mem != 0 ==> bytes < MAX_REQUEST && Took(old(Live()), Live(), mem, Request2Size(bytes))
      ensures mem != 0 && bytes > MAX_SMALL_REQUEST ==> BestOf(old(Free()), mem - MEM_OFFSET, Request2Size(bytes))
      ensures mem != 0 ==> var c, nb, x := old(bins.Contents()), Request2Size(bytes), mem - MEM_OFFSET;
        Met(c, old(dv), old(dvSize), old(top), nb, x) && (dv, dvSize) == VictimThen(c, old(dv), old(dvSize), nb, x)
      ensures mem == 0 ==> Live() == old(Live()) && Free() == old(Free())
      ensures mem == 0 && bytes < MAX_REQUEST ==> NoneFits(old(Free()), Request2Size(bytes)) && old(topSize) <= Request2Size(bytes)
      ensures segSize != old(segSize) ==> var nb := if bytes < MAX_REQUEST then Request2Size(bytes) else MAX_SIZE_T;
        (bytes < MAX_REQUEST ==> NoneFits(old(Free()), nb)) && old(topSize) <= nb && segSize == old(segSize) + AlignUp(nb - old(topSize) + SYS_ALLOC_PADDING, growBy)
      ensures var need := Request2Size(bytes) - old(topSize) + SYS_ALLOC_PADDING;
        mem == 0 && bytes < MAX_REQUEST && grant && growBy > 0 && need + growBy <= 0x8000_0000 ==>
          old(memory.size) + AlignUp(need, growBy) > memory.maxLength
    {
      hide Sound, Committed, Bins.BinSet.Valid, Bins.BinSet.Contents, Free, Live, Seg, Kept, Took, Pow2, Victim, BestOf, NoneFits;
      hide Rest, SmallBinned, NotBinned, Smallest;
      ghost var free, dvs, c := Free(), dvSize, bins.Contents();
      Holders();
      mem := 0;
      var nb;
      SizeIs(bytes);
      if bytes <= MAX_SMALL_REQUEST {
        nb := if bytes < MIN_REQUEST then MIN_CHUNK_SIZE else PadRequest(bytes);
        mem := SmallRequest(nb);
      } else if bytes >= MAX_REQUEST {
        nb := MAX_SIZE_T;
        BoundedVictim(0, WORD - nb, nb);
        TopPositive();
      } else {
        nb := PadRequest(bytes);
        if bins.trees.marked != {} {
          mem := TmallocLarge(nb);
        } else {
          OnlyVictimFits(nb);
        }
      }
      if mem == 0 {
        if MAX_SMALL_REQUEST < bytes < MAX_REQUEST {
          VictimServes(c, free, nb, dvs);
        }
        if nb <= dvSize {
          VictimBest(free, nb);
          mem := FromVictim(nb);
        } else {
          NoVictimFits(free, nb, dvSize);
          if nb < topSize {
            mem := FromTop(nb);
          } else {
            mem := SysAlloc(nb, grant);
          }
        }
      }
    }

    /** The victim and top are not in a bin. */
    lemma Holders()
      requires Valid()
      ensures top > 0 && top !in bins.Contents() && dv !in bins.Contents() && (dv != 0 <==> dvSize != 0)
      ensures forall y :: y in bins.Contents() ==> y in Free() && bins.Contents()[y] == Free()[y]
    {
      hide Sound, Committed, Bins.BinSet.Valid, Bins.BinSet.Contents, Free, Victim;
      TopPositive();
      HoldsNone();
      VictimFree({});
      VictimIs();
      assert forall x :: x in Free() <==> x in bins.Contents() + Victim();
      forall y | y in bins.Contents() ensures y in Free() && bins.Contents()[y] == Free()[y] {
        assert y in bins.Contents() + Victim() && (bins.Contents() + Victim())[y] == Free()[y];
      }
      TopNotFree();
      if 0 in bins.Contents() {
        bins.SizesOk(0);
      }
    }

    lemma TopNotFree()
      requires Sound()
      ensures top !in Free()
    {
    }

    lemma SizeIs(bytes: int)
      requires 0 <= bytes < WORD
      ensures bytes < MAX_REQUEST ==>
                var nb := if bytes < MIN_REQUEST then MIN_CHUNK_SIZE else PadRequest(bytes);
                nb == Request2Size(bytes) && MIN_CHUNK_SIZE <= nb <= WORD - 0x38 && nb % 8 == 0
                && bytes + CHUNK_OVERHEAD <= nb && (nb < MIN_LARGE_SIZE <==> bytes <= MAX_SMALL_REQUEST)
    {
      if bytes < MAX_REQUEST {
        PadIs(bytes);
      }
    }

    lemma OnlyVictimFits(nb: int)
      requires Valid() && bins.trees.marked == {} && nb >= MIN_LARGE_SIZE
      ensures forall x :: x in Free() && nb <= Free()[x] ==> nb <= dvSize <= Free()[x]
    {
      hide Sound, Committed, Bins.BinSet.Valid, Bins.BinSet.Contents, Free, Victim, Seg;
      VictimIs();
      forall x | x in Free() && nb <= Free()[x] ensures nb <= dvSize <= Free()[x] {
        assert x in bins.Contents() + Victim();
        if x in bins.Contents() {
          bins.SizesOk(x);
          bins.NoTrees(x);
        }
      }
    }

    lemma VictimIs()
      ensures Victim() == if dvSize != 0 then map[dv := dvSize] else map[]
    {
    }

    lemma VictimBest(free: map<int, int>, nb: int)
      requires Valid() && Free() == free && 0 < nb <= dvSize
      ensures (forall x :: x in free && nb <= free[x] ==> nb <= dvSize <= free[x]) ==> BestOf(free, dv, nb)
    {
      hide Sound, Committed, Bins.BinSet.Valid, Bins.BinSet.Contents, Free, Seg;
      assert dv in bins.Contents() + Victim();
      assert (bins.Contents() + Victim())[dv] == dvSize;
    }

    /** The span around the freed chunk q becomes one free chunk. */
    method Merge(ghost q: int, p: int, psize: int, next: int, clear: bool)
      requires Sound() && UsedAt(Seg(), q) && p == FrontOf(Seg(), q) && p + psize == BackOf(Seg(), q) != top
      requires clear ==> next == p + psize
      requires clear <==> BackOf(Seg(), q) == End(Seg(), q)
      modifies this`heads, this`feet, this`starts, this`prev
      ensures Sound() && Free() == (old(Free()) - old(Swallowed(Seg(), q)))[p := psize] && Live() == old(Live()) - {q}
    {
      hide Ok, Pow2, Frees, Lives, HeadAt, FrontOf, BackOf, Swallowed;
      ghost var v := Seg();
      MergedIs(v, q);
      if clear {
        heads := heads[next := HeadAt(heads, next).(pinuse := false)];
      }
      heads := heads[p := Head(psize, true, false)];
      feet := feet[p + psize := psize];
      starts, prev := starts - Swallowed(v, q), prev[p + psize := p];
    }

    /** The span around the freed chunk q becomes part of top. */
    method MergeTop(ghost q: int, p: int, psize: int)
      requires Sound() && UsedAt(Seg(), q) && p == FrontOf(Seg(), q) && p + psize == End(Seg(), q) == top
      modifies this`heads, this`starts, this`prev, this`top, this`topSize
      ensures Sound() && Free() == old(Free()) - old(FreeParts(Seg(), q)) && Live() == old(Live()) - {q}
      ensures top == p && topSize == old(topSize) + psize
    {
      hide Ok, Pow2, Frees, Lives, H, HeadAt, FrontOf, BackOf, Swallowed, FreeParts;
      ghost var v := Seg();
      TopMergedIs(v, q);
      topSize := topSize + psize;
      top := p;
      heads := heads[p := Head(topSize, true, false)];
      starts := starts - Swallowed(v, q) - {p};
    }

    /** SysTrim: as many whole pages at the end of top go back to the kernel as pad and the minimum of the segment allow. */
    method SysTrim(pad: nat) returns (extra: int)
      requires Valid()
      modifies this`heads, this`topSize, this`trimCheck, this`segSize, memory`size
      ensures Valid() && Live() == old(Live()) && Free() == old(Free())
      ensures 0 <= extra && segSize == old(segSize) - extra && memory.size == old(memory.size) - extra
      ensures extra > 0 ==> segSize >= minSeg && topSize >= pad + TOP_FOOT_SIZE
      ensures top == old(top) && topSize == old(topSize) - extra
      ensures topSize < pad + TOP_FOOT_SIZE + PageSize() || segSize < minSeg + PageSize()
    {
      hide Sound, Bins.BinSet.Valid, Bins.BinSet.Contents, Free, Live, Seg, Kept, Victim, Pow2;
      TopPositive();
      extra := 0;
      var room := pad + TOP_FOOT_SIZE;
      var page := PageSize();
      if topSize > room {
        extra := topSize - room - (topSize - room) % page;
        FloorIs(topSize - room, pageBits);
        if segSize - extra < minSeg {
          if segSize > minSeg {
            extra := segSize - minSeg - (segSize - minSeg) % page;
            FloorIs(segSize - minSeg, pageBits);
          } else {
            extra := 0;
          }
        }
        if extra != 0 {
          memory.Unmap(extra);
          Shrink(extra);
        }
      }
    }

    function PageSize(): (p: nat)
      ensures p == Pow2(pageBits)
    {
      Pow2(pageBits)
    }

    /** The segment and top shrink. */
    method Shrink(extra: int)
      requires Sound() && 0 <= extra < topSize && extra % Pow2(pageBits) == 0
      modifies this`heads, this`topSize, this`trimCheck, this`segSize
      ensures Sound() && segSize == old(segSize) - extra && topSize == old(topSize) - extra && trimCheck == TrimCheck()
      ensures Free() == old(Free()) && Live() == old(Live())
    {
      hide Ok, Pow2, Frees, Lives, H, HeadAt, TrimCheck;
      SizesShrink(extra);
      segSize := segSize - extra;
      InitTop(topSize - extra);
    }

    /** A whole number of pages more or less keeps the sizes multiples of what they have to be. */
    lemma SizesGrow(more: nat)
      requires Sound() && more % Pow2(pageBits) == 0
      ensures topSize > 0 && (topSize + more) % 8 == 0 && (base + segSize + more) % Pow2(pageBits) == 0
    {
      hide Ok, Pow2, Frees, Lives, H, HeadAt;
      TopPositive();
      assert (topSize + more) % 8 == 0 by { Eights(more, pageBits); }
      assert (base + segSize + more) % Pow2(pageBits) == 0 by { Pages(base + segSize, more, pageBits); }
    }

    lemma SizesShrink(less: nat)
      requires Sound() && less < topSize && less % Pow2(pageBits) == 0
      ensures (topSize - less) % 8 == 0 && (base + segSize - less) % Pow2(pageBits) == 0
    {
      hide Ok, Pow2, Frees, Lives, H, HeadAt;
      TopPositive();
      assert (topSize - less) % 8 == 0 by { Eights(less, pageBits); }
      assert (base + segSize - less) % Pow2(pageBits) == 0 by { PagesLess(base + segSize, less, pageBits); }
    }

    /** What holds while the chunks of gone, still free by their tags, have been taken from the bins. */
    ghost predicate Holds(gone: set<int>)
      reads this, memory`size, bins, bins.small, bins.trees
    {
      Sound() && bins.Valid() && Kept(bins.Contents(), Victim(), Free() - gone) && VictimOk() && Committed()
    }

    /** UnlinkChunk for one more chunk. */
    method Drop(ghost gone: set<int>, x: int, s: int)
      requires Holds(gone) && x in bins.Contents() && bins.Contents()[x] == s
      modifies bins.small, bins.trees
      ensures Holds(gone + {x})
    {
      hide Sound, Bins.BinSet.Valid, Bins.BinSet.Contents, Free, Live, Seg, Victim, Kept, Owed;
      Unbinned(bins.Contents(), Victim(), Free() - gone, x);
      OwedLess(bins.Contents() - {x}, Victim(), Free(), gone, x, s);
      bins.UnlinkChunk(x, s);
    }

    lemma HoldsNone()
      ensures Valid() <==> Holds({})
    {
      hide Sound, Bins.BinSet.Valid, Bins.BinSet.Contents, Free, Victim, Kept;
      assert Free() - {} == Free();
    }

    /** A free chunk that has not been taken yet is the victim or in a bin. */
    lemma HeldIs(gone: set<int>, x: int)
      requires Holds(gone) && x in Free() && x !in gone
      ensures x > 0 && (if x == dv then dvSize == Free()[x] else x in bins.Contents() && bins.Contents()[x] == Free()[x])
    {
      hide Sound, Bins.BinSet.Valid, Bins.BinSet.Contents, Free;
      FreeSize(x);
      assert x in Free() - gone;
      assert (Free() - gone)[x] == Free()[x];
      assert x in bins.Contents() + Victim();
    }

    /** The victim is a free chunk. */
    lemma VictimFree(gone: set<int>)
      requires Holds(gone)
      ensures dv != 0 <==> dvSize != 0
      ensures dv != 0 ==> dv in Free() && dv !in gone
    {
      hide Sound, Bins.BinSet.Valid, Bins.BinSet.Contents, Free;
      if dvSize != 0 {
        assert dv in bins.Contents() + Victim();
        assert dv in Free() - gone;
        FreeSize(dv);
      }
    }

    /** What the words around a block in use say: the front of the free space it becomes part of, */
    lemma AroundFront(q: int)
      requires Sound() && UsedAt(Seg(), q)
      ensures var h := HeadAt(heads, q); var n := q + h.size;
        && h.size > 0 && n == End(Seg(), q) && HeadAt(heads, n).pinuse && q !in Free() && q > 0
        && (h.pinuse ==> FrontOf(Seg(), q) == q)
        && (!h.pinuse ==> q in feet && FrontOf(Seg(), q) == q - feet[q] && q - feet[q] in Free()
                          && feet[q] == Free()[q - feet[q]] && feet[q] > 0)
    {
      hide Ok, Pow2;
      var v := Seg();
      ChunkIs(v, q);
      TopIs(v);
      FrontIs(v, q);
      if !H(v, q).pinuse {
        FootPresent(v, q);
      }
      if End(v, q) != top {
        ChunkIs(v, End(v, q));
      }
    }

    /** its back, */
    lemma AroundBack(q: int)
      requires Sound() && UsedAt(Seg(), q)
      ensures var n := q + HeadAt(heads, q).size;
        && (HeadAt(heads, n).cinuse ==> n !in Free() && n != top && BackOf(Seg(), q) == n)
        && (n == top ==> n !in Free())
        && (!HeadAt(heads, n).cinuse && n != top ==> n in Free() && HeadAt(heads, n).size == Free()[n]
                                                     && BackOf(Seg(), q) == n + Free()[n] != n && BackOf(Seg(), q) != top)
    {
      hide Ok, Pow2;
      var v := Seg();
      ChunkIs(v, q);
      TopIs(v);
      BackIs(v, q);
      if FreeAt(v, End(v, q)) {
        ChunkIs(v, End(v, q));
      }
    }

    /** and the free chunks in it. */
    lemma AroundParts(q: int)
      requires Sound() && UsedAt(Seg(), q)
      ensures var n := q + HeadAt(heads, q).size; var p := FrontOf(Seg(), q);
        && FreeParts(Seg(), q) == (if p == q then {} else {p}) + (if n in Free() then {n} else {})
        && Free() - Swallowed(Seg(), q) - {p} == Free() - FreeParts(Seg(), q) && p < n
    {
      hide Ok, Pow2, Frees;
      FrontIs(Seg(), q);
      ChunkIs(Seg(), q);
      FreeInSpan(Seg(), q);
    }

    /** The victim after block q, behind the front p of its span and before next, has been freed: the whole span when
        it holds the old victim, unless the span becomes part of top, and else the old victim. */
    ghost function VictimAfter(q: int, p: int, next: int): (int, int)
      reads this`heads, this`feet, this`starts, this`prev, this`top, this`dv, this`dvSize
    {
      if next == top then if p == dv then (0, 0) else (dv, dvSize)
      else if p == dv || next == dv then (p, BackOf(Seg(), q) - p)
      else (dv, dvSize)
    }

    /** A top of size `merged` in a segment of size `was` is trimmed if and only if it has become too large: then it
        keeps less than a page more than its foot, or the segment less than a page more than its minimum. */
    predicate Trimmed(merged: int, was: int)
      reads this`topSize, this`segSize
    {
      && segSize <= was
      && (segSize < was ==> !fixed && merged > TrimCheck() && segSize >= minSeg && topSize >= TOP_FOOT_SIZE)
      && (!fixed && merged > TrimCheck() ==> topSize < TOP_FOOT_SIZE + PageSize() || segSize < minSeg + PageSize())
    }

    /** DlFree: the block is merged with free neighbours, and the resulting chunk becomes part of top, the
        victim, or a member of a bin. */
    method DlFree(mem: int)
      requires Valid() && mem - MEM_OFFSET in Live()
      modifies this`heads, this`feet, this`starts, this`prev, this`top, this`topSize, this`dv, this`dvSize
      modifies this`trimCheck, this`segSize, memory`size, bins.small, bins.trees
      ensures Valid() && Live() == old(Live()) - {mem - MEM_OFFSET} && memory.size - segSize == old(memory.size - segSize)
      ensures segSize == old(segSize) || minSeg <= segSize < old(segSize)
      ensures var q, next := mem - MEM_OFFSET, mem - MEM_OFFSET + old(Live())[mem - MEM_OFFSET];
        if next == old(top) then
          var merged := old(topSize) + next - old(FrontOf(Seg(), q));
          top == old(FrontOf(Seg(), q)) && topSize - segSize == merged - old(segSize) && Trimmed(merged, old(segSize))
        else top == old(top) && topSize == old(topSize) && segSize == old(segSize)
      ensures var q, next := mem - MEM_OFFSET, mem - MEM_OFFSET + old(Live())[mem - MEM_OFFSET];
        dv == old(VictimAfter(q, FrontOf(Seg(), q), next)).0 && dvSize == old(VictimAfter(q, FrontOf(Seg(), q), next)).1
    {
      var q := mem - MEM_OFFSET;
      hide Sound, Bins.BinSet.Valid, Bins.BinSet.Contents, Free, Live, Seg, Victim, Kept, Frees, Lives;
      hide FrontOf, BackOf, FreeParts, Swallowed, H, HeadAt, UsedAt, Ok, End;
      LiveIs(q);
      TopUnused();
      HoldsNone();
      VictimFree({});
      AroundFront(q);
      var p, psize := q, HeadAt(heads, q).size;
      var next := q + psize;
      ghost var gone: set<int> := {};
      if !HeadAt(heads, q).pinuse {
        var prevsize := if q in feet then feet[q] else 0;
        p := q - prevsize;
        psize := psize + prevsize;
        HeldIs({}, p);
        if p != dv {
          Drop({}, p, prevsize);
          gone := {} + {p};
        } else if HeadAt(heads, next).pinuse && HeadAt(heads, next).cinuse {
          JoinVictim(q, p, psize, next);
          return;
        }
      }
      FreeForward(q, p, psize, next, gone);
    }

    lemma LiveIs(q: int)
      ensures q in Live() <==> UsedAt(Seg(), q)
      ensures q in Live() ==> Live()[q] == HeadAt(heads, q).size
    {
    }

    lemma TopUnused()
      requires Sound()
      ensures !HeadAt(heads, top).cinuse
    {
    }

    /** The block behind the victim is freed, and the chunk behind it is in use: the victim takes it over. */
    method JoinVictim(ghost q: int, p: int, psize: int, next: int)
      requires Valid() && UsedAt(Seg(), q) && p == dv == FrontOf(Seg(), q) && next == p + psize == End(Seg(), q)
      requires HeadAt(heads, next).cinuse && dv != 0 && p != q
      modifies this`heads, this`feet, this`starts, this`prev, this`dvSize
      ensures Valid() && Live() == old(Live()) - {q} && dvSize == psize && BackOf(old(Seg()), q) == next
    {
      hide Sound, Bins.BinSet.Valid, Bins.BinSet.Contents, Free, Live, Seg, Kept, Frees, Lives;
      hide FrontOf, BackOf, FreeParts, Swallowed, H, HeadAt, UsedAt, Ok, End;
      ghost var c, free, sw, parts := bins.Contents(), Free(), Swallowed(Seg(), q), FreeParts(Seg(), q);
      HoldsNone();
      AroundFront(q);
      AroundBack(q);
      AroundParts(q);
      VictimGone(c, free, {}, dv, dvSize);
      Merge(q, p, psize, next, true);
      SpanOwed(c, map[], free, parts, sw, p, psize, Free());
      dvSize := psize;
      VictimOwed(c, Free(), p, psize);
    }

    /** The second half of DlFree: the free space p, which ends where next begins, is merged with what follows. */
    method FreeForward(ghost q: int, p: int, psize: int, next: int, ghost gone: set<int>)
      requires Holds(gone) && UsedAt(Seg(), q) && p == FrontOf(Seg(), q) && next == p + psize == End(Seg(), q)
      requires gone == (if p == q || p == dv then {} else {p})
      requires p == dv ==> !HeadAt(heads, next).cinuse
      modifies this`heads, this`feet, this`starts, this`prev, this`top, this`topSize, this`dv, this`dvSize
      modifies this`trimCheck, this`segSize, memory`size, bins.small, bins.trees
      ensures Valid() && Live() == old(Live()) - {q} && memory.size - segSize == old(memory.size - segSize)
      ensures segSize == old(segSize) || minSeg <= segSize < old(segSize)
      ensures if next == old(top) then
                top == p && topSize - segSize == old(topSize) + psize - old(segSize) && Trimmed(old(topSize) + psize, old(segSize))
              else top == old(top) && topSize == old(topSize) && segSize == old(segSize)
      ensures dv == old(VictimAfter(q, p, next)).0 && dvSize == old(VictimAfter(q, p, next)).1
    {
      hide Sound, Bins.BinSet.Valid, Bins.BinSet.Contents, Free, Live, Seg, Victim, Kept, Frees, Lives, Owed;
      hide FrontOf, BackOf, FreeParts, Swallowed, H, HeadAt, UsedAt, Ok, End;
      ghost var c, free, sw, parts := bins.Contents(), Free(), Swallowed(Seg(), q), FreeParts(Seg(), q);
      AroundFront(q);
      AroundBack(q);
      AroundParts(q);
      VictimFree(gone);
      VictimIs();
      assert next !in Free() && p != dv ==> parts == gone;
      if HeadAt(heads, next).cinuse {
        Merge(q, p, psize, next, true);
        SpanOwed(c, Victim(), free, parts, sw, p, psize, Free());
        Rebin(p, psize);
      } else if next == top {
        assert parts == if p == q then {} else {p};
        FreeTop(q, p, psize, gone);
      } else if next == dv {
        HeldIs(gone, next);
        var dsize := dvSize + psize;
        VictimGone(c, free, gone, dv, dvSize);
        dvSize, dv := dsize, p;
        Merge(q, p, dsize, next, false);
        SpanOwed(c, map[], free, parts, sw, p, dsize, Free());
        VictimOwed(c, Free(), p, dsize);
        VictimIs();
      } else {
        var nsize := HeadAt(heads, next).size;
        HeldIs(gone, next);
        Drop(gone, next, nsize);
        FreeBetween(q, p, psize + nsize, next, gone + {next});
      }
    }

    /** The span ends with a free chunk next that has left its bin: it is the victim's when it begins with the
        victim, and else goes to a bin. */
    method FreeBetween(ghost q: int, p: int, psize: int, next: int, ghost gone: set<int>)
      requires Holds(gone) && UsedAt(Seg(), q) && p == FrontOf(Seg(), q) && p + psize == BackOf(Seg(), q) != top
      requires BackOf(Seg(), q) != End(Seg(), q) == next
      requires FreeParts(Seg(), q) == (if p == dv then gone + {dv} else gone)
      requires Free() - Swallowed(Seg(), q) - {p} == Free() - FreeParts(Seg(), q)
      modifies this`heads, this`feet, this`starts, this`prev, this`dvSize, bins.small, bins.trees
      ensures Valid() && Live() == old(Live()) - {q} && dvSize == if p == dv then psize else old(dvSize)
    {
      hide Sound, Bins.BinSet.Valid, Bins.BinSet.Contents, Free, Live, Seg, Victim, Kept, Frees, Lives, Owed;
      hide FrontOf, BackOf, FreeParts, Swallowed, H, HeadAt, UsedAt, Ok, End;
      ghost var c, free, sw, parts := bins.Contents(), Free(), Swallowed(Seg(), q), FreeParts(Seg(), q);
      VictimFree(gone);
      VictimIs();
      if p == dv {
        FrontPositive(q);
        VictimGone(c, free, gone, dv, dvSize);
        Merge(q, p, psize, next, false);
        SpanOwed(c, map[], free, parts, sw, p, psize, Free());
        dvSize := psize;
        VictimOwed(c, Free(), p, psize);
        VictimIs();
      } else {
        Merge(q, p, psize, next, false);
        SpanOwed(c, Victim(), free, parts, sw, p, psize, Free());
        Rebin(p, psize);
      }
    }

    lemma FrontPositive(q: int)
      requires Sound() && UsedAt(Seg(), q)
      ensures FrontOf(Seg(), q) > 0 && FrontOf(Seg(), q) < BackOf(Seg(), q)
    {
      FrontIs(Seg(), q);
      TopIs(Seg());
      ChunkIs(Seg(), FrontOf(Seg(), q));
      BackIs(Seg(), q);
    }

    /** The span reaches top and becomes part of it; a top that has become too large is trimmed. */
    method FreeTop(ghost q: int, p: int, psize: int, ghost gone: set<int>)
      requires Holds(gone) && UsedAt(Seg(), q) && p == FrontOf(Seg(), q) && p + psize == End(Seg(), q) == top
      requires gone == (if p == q || p == dv then {} else {p})
      requires top !in Free() && FreeParts(Seg(), q) == if p == q then {} else {p}
      modifies this`heads, this`starts, this`prev, this`top, this`topSize, this`dv, this`dvSize
      modifies this`trimCheck, this`segSize, memory`size
      ensures Valid() && Live() == old(Live()) - {q} && memory.size - segSize == old(memory.size - segSize)
      ensures segSize == old(segSize) || minSeg <= segSize < old(segSize)
      ensures top == p && topSize - segSize == old(topSize) + psize - old(segSize)
      ensures Trimmed(old(topSize) + psize, old(segSize))
      ensures if p == old(dv) then dv == dvSize == 0 else dv == old(dv) && dvSize == old(dvSize)
    {
      hide Sound, Bins.BinSet.Valid, Bins.BinSet.Contents, Free, Live, Seg, Victim, Kept, Frees, Lives;
      hide FrontOf, BackOf, FreeParts, Swallowed, H, HeadAt, UsedAt, Ok, End;
      ghost var c := bins.Contents();
      AroundFront(q);
      VictimFree(gone);
      VictimIs();
      FrontPositive(q);
      ghost var parts := FreeParts(Seg(), q);
      if p == dv {
        VictimGone(c, Free(), gone, dv, dvSize);
        assert parts == gone + {dv};
      }
      MergeTop(q, p, psize);
      if p == dv {
        dv := 0;
        dvSize := 0;
        VictimIs();
      }
      if !fixed && topSize > trimCheck {
        var _ := SysTrim(0);
      }
    }

    /** A block in use is cut in two blocks in use. */
    method CutUsed(p: int, nb: int, rsize: int)
      requires Valid() && p in Live() && Live()[p] == nb + rsize
      requires MIN_CHUNK_SIZE <= nb && MIN_CHUNK_SIZE <= rsize && nb % 8 == 0
      modifies this`heads, this`starts, this`prev
      ensures Valid() && p + nb !in old(Live()) && Live() == old(Live())[p := nb][p + nb := rsize]
    {
      hide Bins.BinSet.Valid, Bins.BinSet.Contents, Kept, Victim, Ok, Pow2, Frees, Lives, H, HeadAt, Cut, UsedAt;
      ghost var v := Seg();
      LiveIs(p);
      CutUsedIs(v, p, nb);
      heads := heads[p := HeadAt(heads, p).(size := nb, cinuse := true)];
      heads := heads[p + nb := HeadAt(heads, p + nb).(pinuse := true)];
      var r := p + nb;
      heads := heads[r := Head(rsize, true, true)];
      heads := heads[r + rsize := HeadAt(heads, r + rsize).(pinuse := true)];
      starts, prev := starts + {r}, prev[r := p][r + rsize := r];
    }

    /** The last block before top takes its new size from top. */
    method ExpandIntoTop(p: int, nb: int)
      requires Valid() && p in Live() && p + Live()[p] == top && Live()[p] < nb < Live()[p] + topSize && nb % 8 == 0
      modifies this`heads, this`prev, this`top, this`topSize
      ensures Valid() && Live() == old(Live())[p := nb]
    {
      hide Bins.BinSet.Valid, Bins.BinSet.Contents, Kept, Victim, Ok, Pow2, Frees, Lives, Grown, UsedAt;
      ghost var v := Seg();
      LiveIs(p);
      GrownIs(v, p, nb);
      var newtopsize := HeadAt(heads, p).size + topSize - nb;
      var newtop := p + nb;
      heads := heads[p := HeadAt(heads, p).(size := nb, cinuse := true)];
      heads := heads[newtop := HeadAt(heads, newtop).(pinuse := true)];
      heads := heads[newtop := Head(newtopsize, true, false)];
      prev := prev[newtop := p];
      top := newtop;
      topSize := newtopsize;
    }

    /** DlRealloc: the block is shrunk in place, extended into top, or moved. A block that cannot get the new size
        stays as it is. The requests that a caller must not make are those whose padded size wraps to 0 or 8. */
    method DlRealloc(oldmem: int, bytes: nat, neverMove: bool, grant: bool) returns (mem: int)
      requires Valid() && oldmem - MEM_OFFSET in Live() && bytes + MIN_REQUEST < WORD
      modifies this`heads, this`feet, this`starts, this`prev, this`top, this`topSize, this`dv, this`dvSize, memory`data
      modifies this`trimCheck, this`segSize, memory`size, bins.small, bins.trees
      ensures Valid() && memory.size - segSize == old(memory.size - segSize)
      ensures mem == 0 ==> Live() == old(Live()) && memory.data == old(memory.data)
      ensures mem != 0 ==> Resized(old(Live()), Live(), oldmem, mem, bytes) && Moved(old(Live()), Live(), old(memory.data), memory.data, oldmem, mem, bytes)
      ensures forall a :: a < base ==> ByteAt(memory.data, a) == ByteAt(old(memory.data), a)
      ensures neverMove ==> mem == oldmem || mem == 0
      ensures mem == oldmem <==> Roomy(old(Live()), old(top), old(topSize), oldmem - MEM_OFFSET, Request2Size(bytes))
      ensures mem != 0 && mem != oldmem ==>
        bytes < MAX_REQUEST && Met(old(bins.Contents()), old(dv), old(dvSize), old(top), Request2Size(bytes), mem - MEM_OFFSET)
      ensures mem == 0 && !neverMove && bytes < MAX_REQUEST ==> NoneFits(old(Free()), Request2Size(bytes)) && old(topSize) <= Request2Size(bytes)
      ensures var need := Request2Size(bytes) - old(topSize) + SYS_ALLOC_PADDING;
        mem == 0 && !neverMove && bytes < MAX_REQUEST && grant && growBy > 0 && need + growBy <= 0x8000_0000 ==>
          old(memory.size) + AlignUp(need, growBy) > memory.maxLength
    {
      hide Sound, Committed, Bins.BinSet.Valid, Bins.BinSet.Contents, Free, Seg, Kept, Victim, Pow2, H, Frees, Lives, Live, UsedAt, Ok, Met, AlignUp, NoneFits;
      ghost var live, d := Live(), memory.data;
      var oldp := oldmem - MEM_OFFSET;
      LiveIs(oldp);
      LiveSize(oldp);
      var oldsize := HeadAt(heads, oldp).size;
      var next := oldp + oldsize;
      var nb := Request2Size(bytes);
      RequestFits(bytes);
      if oldsize >= nb {
        var rsize := oldsize - nb;
        if rsize >= MIN_CHUNK_SIZE {
          CutUsed(oldp, nb, rsize);
          ghost var cut := Live();
          DlFree(oldp + nb + MEM_OFFSET);
          CutBack(live, cut, Live(), oldp, nb, rsize);
        } else {
          assert live[oldp := oldsize] == live;
        }
        mem := oldmem;
        InPlace(live, Live(), d, memory.data, oldmem, bytes);
      } else if next == top && oldsize + topSize > nb {
        ExpandIntoTop(oldp, nb);
        mem := oldmem;
        InPlace(live, Live(), d, memory.data, oldmem, bytes);
      } else if neverMove {
        mem := 0;
      } else {
        mem := MoveChunk(oldmem, bytes, grant);
      }
    }

    /** A new chunk gets the contents of the old one, which is freed. */
    method MoveChunk(oldmem: int, bytes: nat, grant: bool) returns (mem: int)
      requires Valid() && oldmem - MEM_OFFSET in Live() && bytes + MIN_REQUEST < WORD && Request2Size(bytes) > Live()[oldmem - MEM_OFFSET]
      modifies this`heads, this`feet, this`starts, this`prev, this`top, this`topSize, this`dv, this`dvSize, memory`data
      modifies this`trimCheck, this`segSize, memory`size, bins.small, bins.trees
      ensures Valid() && memory.size - segSize == old(memory.size - segSize)
      ensures mem == 0 ==> Live() == old(Live()) && memory.data == old(memory.data)
      ensures mem != 0 ==> Resized(old(Live()), Live(), oldmem, mem, bytes) && Moved(old(Live()), Live(), old(memory.data), memory.data, oldmem, mem, bytes)
      ensures forall a :: a < base ==> ByteAt(memory.data, a) == ByteAt(old(memory.data), a)
      ensures mem != oldmem
      ensures mem != 0 ==>
        bytes < MAX_REQUEST && Met(old(bins.Contents()), old(dv), old(dvSize), old(top), Request2Size(bytes), mem - MEM_OFFSET)
      ensures mem == 0 && bytes < MAX_REQUEST ==> NoneFits(old(Free()), Request2Size(bytes)) && old(topSize) <= Request2Size(bytes)
      ensures var need := Request2Size(bytes) - old(topSize) + SYS_ALLOC_PADDING;
        mem == 0 && bytes < MAX_REQUEST && grant && growBy > 0 && need + growBy <= 0x8000_0000 ==>
          old(memory.size) + AlignUp(need, growBy) > memory.maxLength
    {
      hide Sound, Committed, Bins.BinSet.Valid, Bins.BinSet.Contents, Free, Seg, Kept, Victim, Pow2, H, Frees, Lives, Live, UsedAt, Ok, Met, AlignUp, NoneFits;
      ghost var live, d := Live(), memory.data;
      var oldp := oldmem - MEM_OFFSET;
      LiveIs(oldp);
      LiveSize(oldp);
      var oldsize := HeadAt(heads, oldp).size;
      RequestFits(bytes);
      mem := DlMalloc(bytes, grant);
      if mem != 0 {
        ghost var both := Live();
        ApartNow();
        LivesApart(oldp, mem - MEM_OFFSET);
        LiveAbove(mem - MEM_OFFSET);
        var oc := oldsize - CHUNK_OVERHEAD;
        memory.CopyBytes(mem, oldmem, if oc < bytes then oc else bytes);
        DlFree(oldmem);
        MovedIs(live, both, Live(), d, memory.data, oldmem, mem, bytes);
      }
    }

    lemma LiveSize(p: int)
      requires Sound() && p in Live()
      ensures var s := HeadAt(heads, p).size; s == Live()[p] && s >= MIN_CHUNK_SIZE && p > 0
    {
      hide Ok, Pow2;
      ChunkIs(Seg(), p);
      TopIs(Seg());
    }

    lemma LiveAligned(p: int)
      requires Sound() && p in Live()
      ensures Live()[p] % 8 == 0
    {
      hide Ok, Pow2;
      ChunkIs(Seg(), p);
      TopIs(Seg());
    }

    /** Blocks lie within the segment. */
    lemma LiveAbove(p: int)
      requires Sound() && p in Live()
      ensures base <= p && p + Live()[p] <= top <= base + segSize - TOP_FOOT_SIZE && Live()[p] >= MIN_CHUNK_SIZE
    {
      hide Ok, Pow2;
      ChunkIs(Seg(), p);
      TopIs(Seg());
      Disjoint(Seg(), p, top);
    }

    lemma ApartNow()
      requires Sound()
      ensures AllApart(Live())
    {
      hide Sound, Live;
      forall x, y | x in Live() && y in Live() && x < y ensures x + Live()[x] <= y {
        LivesApart(x, y);
        LiveSize(x);
        LiveSize(y);
      }
    }

    /** Blocks in use do not overlap. */
    lemma LivesApart(x: int, y: int)
      requires Sound() && x in Live() && y in Live() && x != y
      ensures x + Live()[x] <= y || y + Live()[y] <= x
    {
      hide Ok, Pow2;
      if x < y {
        Disjoint(Seg(), x, y);
      } else {
        Disjoint(Seg(), y, x);
      }
    }

    /** The arena keeps a word at address a of the memory that it hands out: the head of a chunk, of top or of the
        foot, the size behind a free chunk, or a link of a chunk in a bin. */
    ghost predicate OwnWord(a: int)
      reads this, bins, bins.small, bins.trees
    {
      || Boundary(Seg(), a - 4) || a - 4 == top + topSize
      || (a in prev && FreeAt(Seg(), prev[a]) && End(Seg(), prev[a]) == a)
      || (exists x {:trigger x in bins.Contents()} :: x in bins.Contents() && LinkAt(x, bins.Contents()[x], a))
    }

    /** No word that the arena keeps lies in a block in use, whose bytes are those of its owner. */
    lemma WordsApart(p: int, a: int)
      requires Valid() && p in Live() && OwnWord(a)
      ensures forall y :: a <= y < a + 4 ==> !InBlock(Live(), p, y)
    {
      hide Ok, Pow2, Bins.BinSet.Valid, Bins.BinSet.Contents, Frees, Kept, VictimOk;
      ChunkIs(Seg(), p);
      TopIs(Seg());
      Disjoint(Seg(), p, top);
      if Boundary(Seg(), a - 4) {
        if a - 4 > p {
          Disjoint(Seg(), p, a - 4);
        }
      } else if a - 4 == top + topSize {
      } else if a in prev && FreeAt(Seg(), prev[a]) && End(Seg(), prev[a]) == a {
        FreeApart(p, prev[a]);
      } else {
        var x :| x in bins.Contents() && LinkAt(x, bins.Contents()[x], a);
        ChecksPass();
        bins.SizesOk(x);
        FreeApart(p, x);
      }
    }

    lemma FreeApart(p: int, x: int)
      requires Sound() && p in Live() && FreeAt(Seg(), x)
      ensures End(Seg(), x) >= x + MIN_CHUNK_SIZE && (End(Seg(), x) <= p || p + Live()[p] <= x)
    {
      hide Ok, Pow2;
      ChunkIs(Seg(), x);
      if x < p {
        Disjoint(Seg(), x, p);
      } else {
        Disjoint(Seg(), p, x);
      }
    }

    /** What the checks of DoCheckMallocState and TraverseAndCheck look for, in every state that the operations
        leave behind: the chunks, top and the foot add up to the segment, a free chunk has chunks in use on
        both sides, and each free chunk is held exactly once. */
    lemma ChecksPass()
      requires Valid()
      ensures Ok(Seg()) && Total(Seg(), base) + topSize + TOP_FOOT_SIZE == segSize
      ensures forall x :: FreeAt(Seg(), x) ==>
                UsedAt(Seg(), End(Seg(), x)) && (x != base ==> UsedAt(Seg(), Prev(Seg(), x)) && End(Seg(), Prev(Seg(), x)) == x)
      ensures forall x :: FreeAt(Seg(), x) <==> x in bins.Contents() || (x == dv && dv != 0)
      ensures forall x :: x in bins.Contents() ==> bins.Contents()[x] == H(Seg(), x).size && x != dv
      ensures dv != 0 ==> H(Seg(), dv).size == dvSize
    {
      hide Pow2, Bins.BinSet.Valid, Bins.BinSet.Contents, Ok, Frees;
      var v := Seg();
      TopIs(v);
      Tiling(v, base);
      HoldsNone();
      VictimFree({});
      forall x | FreeAt(v, x)
        ensures UsedAt(v, End(v, x)) && (x != base ==> UsedAt(v, Prev(v, x)) && End(v, Prev(v, x)) == x)
      {
        ChunkIs(v, x);
      }
      forall x ensures FreeAt(v, x) <==> x in bins.Contents() || (x == dv && dv != 0) {
        assert x in Free() <==> x in bins.Contents() + Victim();
      }
      forall x | x in bins.Contents() ensures bins.Contents()[x] == H(v, x).size && x != dv {
        bins.SizesOk(x);
        assert dv != 0 ==> dv in Victim();
        assert x in bins.Contents() + Victim() && (bins.Contents() + Victim())[x] == Free()[x];
      }
    }

    /** The comparison with the victim is made in unsigned arithmetic: a victim that is too small compares as
        very large. */
    lemma BoundedVictim(v: int, rsize: int, nb: int)
      requires Valid() && 0 < nb < WORD
      requires if v == 0 then rsize == WORD - nb else v in bins.Contents() && bins.Contents()[v] == nb + rsize && 0 <= rsize
      ensures 0 <= dvSize < WORD - TOP_FOOT_SIZE
      ensures v != 0 ==> v in Free() && Free()[v] == nb + rsize && v > 0
      ensures Victim() == if dvSize != 0 then map[dv := dvSize] else map[]
      ensures v != 0 && dvSize < nb ==> rsize < (dvSize - nb) % WORD
      ensures v != 0 && dvSize >= nb ==> (dvSize - nb) % WORD == dvSize - nb
      ensures Free() == bins.Contents() + Victim()
    {
      hide Sound, Bins.BinSet.Valid, Bins.BinSet.Contents, Free, Live, Seg;
      if dvSize != 0 {
        assert dv in Victim();
        FreeSize(dv);
      }
      if v != 0 {
        assert v in bins.Contents() + Victim();
        FreeSize(v);
        if dvSize < nb {
          assert (dvSize - nb) % WORD == dvSize - nb + WORD;
        }
      }
    }
  }

  lemma NoVictimFits(free: map<int, int>, nb: int, dvs: int)
    ensures dvs < nb && (forall x :: x in free && nb <= free[x] ==> nb <= dvs <= free[x]) ==> NoneFits(free, nb)
    ensures NoneFits(free, nb) ==> forall p :: BestOf(free, p, nb)
  {
  }

  lemma VictimServes(c: map<int, int>, free: map<int, int>, nb: int, dvs: int)
    requires forall y :: y in c ==> y in free && c[y] == free[y]
    requires forall x :: x in free && nb <= free[x] ==> nb <= dvs <= free[x]
    ensures forall y :: y in c && nb <= c[y] ==> dvs <= c[y]
    ensures dvs < nb ==> NoneFits(c, nb)
  {
  }

  lemma SmallestIs(c: map<int, int>, x: int, nb: int)
    requires x in c && nb <= c[x] && forall y :: y in c && nb <= c[y] ==> c[x] <= c[y]
    ensures Smallest(c, x, nb) && !NoneFits(c, nb)
  {
  }

  lemma NoneFitsIs(c: map<int, int>, nb: int)
    requires forall y :: y in c ==> c[y] < nb
    ensures NoneFits(c, nb)
  {
  }

  lemma TookIs(live: map<int, int>, p: int, s: int, nb: int)
    requires p !in live && nb <= s < nb + MIN_CHUNK_SIZE
    ensures Took(live, live[p := s], p + MEM_OFFSET, nb)
  {
  }

  lemma UsedUp(c: map<int, int>, f: map<int, int>, free: map<int, int>, p: int, s: int)
    requires Owed(c, f, free, p, s)
    ensures Kept(c, f, free - {p})
  {
  }

  lemma TopSizedIs(v: Segment, s: int)
    requires Ok(v) && s > 0 && s % 8 == 0
    ensures var w := v.(heads := v.heads[v.top := Head(s, true, false)][v.top + s := FOOT]);
            Ok(w) && H(w, v.top).size == s && Frees(w) == Frees(v) && Lives(w) == Lives(v)
  {
    hide Ok, Frees, Lives;
    TopIs(v);
    if v.top + s in v.starts {
      ChunkIs(v, v.top + s);
    }
    TopSizedOk(v, s);
    TopSizedMaps(v, s);
  }

  lemma {:induction false} Eights(x: nat, k: nat)
    requires 3 <= k && x % Pow2(k) == 0
    ensures x % 8 == 0
  {
    if k == 3 {
      Powers();
    } else {
      PowNext(k - 1);
      hide Pow2;
      var p := Pow2(k - 1);
      Euclid(x, 2 * p);
      assert x == x / (2 * p) * 2 * p;
      DivModUnique(x, p, x / (2 * p) * 2, 0);
      Eights(x, k - 1);
    }
  }

  lemma Pages(x: nat, y: nat, k: nat)
    requires x % Pow2(k) == 0 && y % Pow2(k) == 0
    ensures (x + y) % Pow2(k) == 0
  {
    hide Pow2;
    var p := Pow2(k);
    Euclid(x, p);
    Euclid(y, p);
    assert x + y == (x / p + y / p) * p;
    DivModUnique(x + y, p, x / p + y / p, 0);
  }

  lemma MergedIs(v: Segment, q: int)
    requires Ok(v) && UsedAt(v, q) && BackOf(v, q) != v.top
    ensures var a, d, e := FrontOf(v, q), Swallowed(v, q), BackOf(v, q);
            var h := if e == End(v, q) then v.heads[e := H(v, e).(pinuse := false)] else v.heads;
            var w := v.(heads := h[a := Head(e - a, true, false)], feet := v.feet[e := e - a], starts := v.starts - d,
                        prev := v.prev[e := a]);
      Ok(w) && Frees(w) == (Frees(v) - d)[a := e - a] && Lives(w) == Lives(v) - {q} && H(w, v.top).size == H(v, v.top).size
  {
    hide Ok, Frees, Lives, Merged, H, HeadAt, FrontOf, BackOf, Swallowed;
    var a, d, e := FrontOf(v, q), Swallowed(v, q), BackOf(v, q);
    SpanIs(v, q);
    TopIs(v);
    MergedOk(v, a, d, e);
    MergedMaps(v, a, d, e);
    MergedBody(v, a, d, e);
    LiveInSpan(v, q);
    if e == End(v, q) {
      Commute(v.heads, a, Head(e - a, true, false), e, H(v, e).(pinuse := false));
    } else {
      BackPresent(v, q);
      Same(v.heads, a, Head(e - a, true, false), e);
    }
  }

  lemma MergedBody(v: Segment, a: int, d: set<int>, e: int)
    requires a != e
    ensures Merged(v, a, d, e) ==
            Segment(v.heads[a := Head(e - a, true, false)][e := H(v, e).(pinuse := false)], v.feet[e := e - a],
                    v.starts - d, v.prev[e := a], v.base, v.top)
  {
  }

  lemma Commute(m: map<int, Head>, a: int, h: Head, e: int, k: Head)
    requires a != e
    ensures m[a := h][e := k] == m[e := k][a := h]
  {
  }

  lemma Same(m: map<int, Head>, a: int, h: Head, e: int)
    requires a != e && e in m && !m[e].pinuse
    ensures m[a := h][e := HeadAt(m, e).(pinuse := false)] == m[a := h]
  {
    var m1 := m[a := h];
    assert m1[e := m1[e]] == m1;
  }

  /** The boundary behind a free next chunk says already that the chunk before it is free. */
  lemma BackPresent(v: Segment, q: int)
    requires Ok(v) && UsedAt(v, q) && BackOf(v, q) != End(v, q)
    ensures var e := BackOf(v, q); e in v.heads && !v.heads[e].pinuse && H(v, e) == HeadAt(v.heads, e)
  {
    hide Ok;
    BehindFree(v, End(v, q));
  }

  lemma LiveInSpan(v: Segment, q: int)
    requires Ok(v) && UsedAt(v, q)
    ensures Lives(v) - Swallowed(v, q) - {FrontOf(v, q)} == Lives(v) - {q}
  {
    hide Ok, Lives;
    FrontIs(v, q);
    SameMap(Lives(v) - Swallowed(v, q) - {FrontOf(v, q)}, Lives(v) - {q});
  }

  lemma FreeInSpan(v: Segment, q: int)
    requires Ok(v) && UsedAt(v, q)
    ensures Frees(v) - Swallowed(v, q) - {FrontOf(v, q)} == Frees(v) - FreeParts(v, q)
  {
    hide Ok, Frees;
    FrontIs(v, q);
    SameMap(Frees(v) - Swallowed(v, q) - {FrontOf(v, q)}, Frees(v) - FreeParts(v, q));
  }

  lemma TopMergedIs(v: Segment, q: int)
    requires Ok(v) && UsedAt(v, q) && End(v, q) == v.top
    ensures var a, d := FrontOf(v, q), Swallowed(v, q);
            var w := v.(heads := v.heads[a := Head(v.top + H(v, v.top).size - a, true, false)], starts := v.starts - d - {a},
                        top := a);
      Ok(w) && Frees(w) == Frees(v) - FreeParts(v, q) && Lives(w) == Lives(v) - {q} && H(w, a).size == v.top + H(v, v.top).size - a
  {
    hide Ok, Frees, Lives, H, HeadAt, FrontOf, BackOf, Swallowed, FreeParts;
    var a, d := FrontOf(v, q), Swallowed(v, q);
    SpanIs(v, q);
    TopMergedOk(v, a, d);
    TopMergedMaps(v, a, d);
    LiveInSpan(v, q);
    FreeInSpan(v, q);
    TopMergedBody(v, a, d);
  }

  lemma TopMergedBody(v: Segment, a: int, d: set<int>)
    ensures TopMerged(v, a, d) ==
            Segment(v.heads[a := Head(v.top + H(v, v.top).size - a, true, false)], v.feet, v.starts - d - {a}, v.prev, v.base, a)
  {
  }

  lemma OwedLess(c: map<int, int>, f: map<int, int>, free: map<int, int>, gone: set<int>, x: int, s: int)
    requires Owed(c, f, free - gone, x, s)
    ensures Kept(c, f, free - (gone + {x}))
  {
    SameMap(free - gone - {x}, free - (gone + {x}));
  }

  lemma FloorIs(x: nat, k: nat)
    ensures 0 <= x - x % Pow2(k) <= x && (x - x % Pow2(k)) % Pow2(k) == 0 && x % Pow2(k) < Pow2(k)
  {
    hide Pow2;
    var p := Pow2(k);
    Euclid(x, p);
    DivModUnique(x - x % p, p, x / p, 0);
  }

  lemma PagesLess(x: nat, y: nat, k: nat)
    requires y <= x && x % Pow2(k) == 0 && y % Pow2(k) == 0
    ensures (x - y) % Pow2(k) == 0
  {
    hide Pow2;
    var p := Pow2(k);
    Euclid(x, p);
    Euclid(y, p);
    BlockOrder(y, x, k);
    assert x - y == (x / p - y / p) * p;
    DivModUnique(x - y, p, x / p - y / p, 0);
  }

  /** After a merge the span is a free chunk that nothing holds. */
  lemma SpanOwed(c: map<int, int>, f: map<int, int>, free0: map<int, int>, parts: set<int>, sw: set<int>, p: int, s: int,
                 free: map<int, int>)
    requires free0 - sw - {p} == free0 - parts && Kept(c, f, free0 - parts) && free == (free0 - sw)[p := s]
    ensures Owed(c, f, free, p, s)
  {
    SameMap(free - {p}, free0 - sw - {p});
  }

  lemma VictimGone(c: map<int, int>, free: map<int, int>, gone: set<int>, dv: int, dvs: int)
    requires Kept(c, map[dv := dvs], free - gone)
    ensures Kept(c, map[], free - (gone + {dv}))
  {
    VictimOwed(c, free - gone, dv, dvs);
    SameMap(free - gone - {dv}, free - (gone + {dv}));
  }

  lemma FootPresent(v: Segment, q: int)
    requires Ok(v) && UsedAt(v, q) && !H(v, q).pinuse
    ensures q in v.feet
  {
    FrontIs(v, q);
    ChunkIs(v, FrontOf(v, q));
  }

  lemma CutUsedIs(v: Segment, p: int, nb: int)
    requires Ok(v) && UsedAt(v, p) && MIN_CHUNK_SIZE <= nb <= H(v, p).size - MIN_CHUNK_SIZE && nb % 8 == 0
    ensures var r, rs := p + nb, H(v, p).size - nb;
            var m := v.heads[p := HeadAt(v.heads, p).(size := nb, cinuse := true)];
            var m1 := m[r := HeadAt(m, r).(pinuse := true)];
            var m2 := m1[r := Head(rs, true, true)];
            var w := v.(heads := m2[r + rs := HeadAt(m2, r + rs).(pinuse := true)], starts := v.starts + {r},
                        prev := v.prev[r := p][r + rs := r]);
      && Ok(w) && Frees(w) == Frees(v) && Lives(w) == Lives(v)[p := nb][r := rs] && r !in Lives(v)
      && H(w, v.top).size == H(v, v.top).size && Lives(v)[p] == H(v, p).size
  {
    hide Ok, Frees, Lives;
    ChunkIs(v, p);
    TopIs(v);
    CutOk(v, p, nb, true);
    CutMaps(v, p, nb, true);
    CutUsedBody(v, p, nb);
  }

  lemma CutUsedBody(v: Segment, p: int, nb: int)
    requires 0 < nb < H(v, p).size && H(v, p).cinuse
    ensures var r, rs := p + nb, H(v, p).size - nb;
            var m := v.heads[p := HeadAt(v.heads, p).(size := nb, cinuse := true)];
            var m1 := m[r := HeadAt(m, r).(pinuse := true)];
            var m2 := m1[r := Head(rs, true, true)];
      Cut(v, p, nb, Head(nb, H(v, p).pinuse, true), Head(rs, true, true)) ==
      Segment(m2[r + rs := HeadAt(m2, r + rs).(pinuse := true)], v.feet, v.starts + {r}, v.prev[r := p][r + rs := r], v.base, v.top)
  {
    var r, rs, e := p + nb, H(v, p).size - nb, End(v, p);
    var m := v.heads[p := HeadAt(v.heads, p).(size := nb, cinuse := true)];
    var k := HeadAt(m, e).(pinuse := true);
    assert m[e := k][r := Head(rs, true, true)] == m[r := HeadAt(m, r).(pinuse := true)][r := Head(rs, true, true)][e := k];
  }

  lemma GrownIs(v: Segment, p: int, nb: int)
    requires Ok(v) && UsedAt(v, p) && End(v, p) == v.top && H(v, p).size < nb < H(v, p).size + H(v, v.top).size && nb % 8 == 0
    ensures var t, ts := p + nb, H(v, p).size + H(v, v.top).size - nb;
            var m := v.heads[p := HeadAt(v.heads, p).(size := nb, cinuse := true)];
            var m1 := m[t := HeadAt(m, t).(pinuse := true)];
            var w := v.(heads := m1[t := Head(ts, true, false)], prev := v.prev[t := p], top := t);
      && Ok(w) && Frees(w) == Frees(v) && Lives(w) == Lives(v)[p := nb] && H(w, t).size == ts
      && Lives(v)[p] == H(v, p).size
  {
    hide Ok, Frees, Lives;
    ChunkIs(v, p);
    TopIs(v);
    if p + nb in v.starts {
      ChunkIs(v, p + nb);
    }
    GrownOk(v, p, nb);
    GrownMaps(v, p, nb);
    GrownBody(v, p, nb);
  }

  lemma GrownBody(v: Segment, p: int, nb: int)
    requires 0 < nb && H(v, p).cinuse && End(v, p) == v.top
    ensures var t, ts := p + nb, H(v, p).size + H(v, v.top).size - nb;
            var m := v.heads[p := HeadAt(v.heads, p).(size := nb, cinuse := true)];
            var m1 := m[t := HeadAt(m, t).(pinuse := true)];
            Grown(v, p, nb) == Segment(m1[t := Head(ts, true, false)], v.feet, v.starts, v.prev[t := p], v.base, t)
  {
    var t, ts := p + nb, H(v, p).size + H(v, v.top).size - nb;
    var m := v.heads[p := HeadAt(v.heads, p).(size := nb, cinuse := true)];
    assert m[t := HeadAt(m, t).(pinuse := true)][t := Head(ts, true, false)] == m[t := Head(ts, true, false)];
  }

  /** The new block and the old one, and the others, do not overlap. */
  ghost predicate AllApart(live: map<int, int>) {
    forall x, y {:trigger x in live, y in live} :: x in live && y in live && x < y ==> x + live[x] <= y
  }

  lemma MovedIs(before: map<int, int>, both: map<int, int>, after: map<int, int>, was: map<int, int>, now: map<int, int>,
                oldmem: int, mem: int, bytes: int)
    requires var p, q := oldmem - MEM_OFFSET, mem - MEM_OFFSET;
      && p in before && q !in before && q in both && both == before[q := both[q]] && after == both - {p}
      && bytes + CHUNK_OVERHEAD <= both[q] && AllApart(both)
      && 0 <= bytes < WORD && Request2Size(bytes) <= both[q] < Request2Size(bytes) + MIN_CHUNK_SIZE
      && forall a :: ByteAt(now, a) == Copied(was, mem, oldmem, if before[p] - CHUNK_OVERHEAD < bytes then before[p] - CHUNK_OVERHEAD else bytes, a)
    ensures Resized(before, after, oldmem, mem, bytes) && Moved(before, after, was, now, oldmem, mem, bytes)
  {
    var p, q := oldmem - MEM_OFFSET, mem - MEM_OFFSET;
    SameMap(after, (before - {p})[q := after[q]]);
    forall x, a | x != p && InBlock(before, x, a) ensures ByteAt(now, a) == ByteAt(was, a) {
      assert x in both && q in both;
    }
  }

  lemma BestBinned(c: map<int, int>, f: map<int, int>, free: map<int, int>, v: int, nb: int, dv: int, dvs: int)
    requires free == c + f && f == (if dvs != 0 then map[dv := dvs] else map[]) && v in c && nb <= c[v] && v in free && free[v] == c[v]
    requires forall x :: x in c && nb <= c[x] ==> c[v] <= c[x]
    requires nb <= dvs ==> c[v] < dvs
    ensures BestOf(free, v, nb)
  {
    forall x | x in free && nb <= free[x] ensures v in free && nb <= free[v] <= free[x] {
      assert x in c + f;
    }
  }

  lemma BetterVictim(c: map<int, int>, f: map<int, int>, free: map<int, int>, v: int, nb: int, rsize: int, dv: int, dvs: int)
    requires free == c + f && f == (if dvs != 0 then map[dv := dvs] else map[])
    requires forall x :: x in c && nb <= c[x] ==> v != 0 && nb + rsize <= c[x] && nb <= dvs <= nb + rsize
    ensures forall x :: x in free && nb <= free[x] ==> nb <= dvs <= free[x]
  {
    forall x | x in free && nb <= free[x] ensures nb <= dvs <= free[x] {
      assert x in c + f;
    }
  }

  lemma VictimBinned(c: map<int, int>, dv: int, dvs: int, free: map<int, int>, p: int, s: int)
    requires Owed(c, map[dv := dvs], free, p, s)
    ensures dv !in c && dv in free && free[dv] == dvs && Owed(c[dv := dvs], map[], free, p, s)
  {
    SameMap(free - {p}, c[dv := dvs] + map[]);
    assert dv in free - {p};
  }

  lemma SplitIs(v: Segment, p: int, nb: int)
    requires Ok(v) && FreeAt(v, p) && MIN_CHUNK_SIZE <= nb <= H(v, p).size - MIN_CHUNK_SIZE && nb % 8 == 0
    ensures var r, rs := p + nb, H(v, p).size - nb;
            var w := v.(heads := v.heads[p := Head(nb, true, true)][r := Head(rs, true, false)], feet := v.feet[r + rs := rs],
                        starts := v.starts + {r}, prev := v.prev[r := p][r + rs := r]);
      && Ok(w) && Frees(w) == (Frees(v) - {p})[r := rs] && Lives(w) == Lives(v)[p := nb] && p !in Lives(v)
      && r !in Frees(v) && H(w, v.top).size == H(v, v.top).size
  {
    hide Ok, Frees, Lives, Cut;
    ChunkIs(v, p);
    TopIs(v);
    CutOk(v, p, nb, false);
    CutMaps(v, p, nb, false);
    var r, rs := p + nb, H(v, p).size - nb;
    var w := v.(heads := v.heads[p := Head(nb, true, true)][r := Head(rs, true, false)], feet := v.feet[r + rs := rs],
                starts := v.starts + {r}, prev := v.prev[r := p][r + rs := r]);
    CutIs(v, p, nb);
  }

  /** The boundary behind a free chunk says so already. */
  lemma CutIs(v: Segment, p: int, nb: int)
    requires Ok(v) && FreeAt(v, p) && 0 < nb < H(v, p).size
    ensures var r, rs := p + nb, H(v, p).size - nb;
      Cut(v, p, nb, Head(nb, H(v, p).pinuse, true), Head(rs, true, false)) ==
      v.(heads := v.heads[p := Head(nb, true, true)][r := Head(rs, true, false)], feet := v.feet[r + rs := rs],
         starts := v.starts + {r}, prev := v.prev[r := p][r + rs := r])
  {
    hide Ok, FreeAt, Cut;
    BehindFree(v, p);
    var r, rs := p + nb, H(v, p).size - nb;
    Rewrite(v.heads, p, Head(nb, true, true), End(v, p), r, Head(rs, true, false));
    CutBody(v, p, nb, Head(nb, true, true), Head(rs, true, false));
  }

  lemma CutBody(v: Segment, p: int, n: int, h: Head, rest: Head)
    requires 0 < n < H(v, p).size && !rest.cinuse
    ensures var e := End(v, p);
      Cut(v, p, n, h, rest) == Segment(v.heads[p := h][e := H(v, e).(pinuse := false)][p + n := rest], v.feet[e := rest.size],
                                       v.starts + {p + n}, v.prev[p + n := p][e := p + n], v.base, v.top)
  {
  }

  lemma BehindFree(v: Segment, p: int)
    requires Ok(v) && FreeAt(v, p)
    ensures var e := End(v, p); e in v.heads && !v.heads[e].pinuse && e != p && H(v, p).pinuse
  {
    ChunkIs(v, p);
    ChunkIs(v, End(v, p));
  }

  lemma Rewrite(m: map<int, Head>, p: int, h: Head, e: int, r: int, rest: Head)
    requires e in m && !m[e].pinuse && e != p
    ensures m[p := h][e := m[e].(pinuse := false)][r := rest] == m[p := h][r := rest]
  {
    var m1 := m[p := h];
    assert m1[e := m1[e]] == m1;
  }

  lemma TopCutIs(v: Segment, nb: int)
    requires Ok(v) && MIN_CHUNK_SIZE <= nb < H(v, v.top).size && nb % 8 == 0
    ensures var rs := H(v, v.top).size - nb;
            var w := v.(heads := v.heads[v.top + nb := Head(rs, true, false)][v.top := Head(nb, true, true)],
                        starts := v.starts + {v.top}, prev := v.prev[v.top + nb := v.top], top := v.top + nb);
      && Ok(w) && Frees(w) == Frees(v) && Lives(w) == Lives(v)[v.top := nb] && v.top !in Lives(v)
      && H(w, w.top).size == rs
  {
    hide Ok, Frees, Lives;
    TopIs(v);
    if v.top + nb in v.starts {
      ChunkIs(v, v.top + nb);
    }
    TopCutOk(v, nb);
    TopCutMaps(v, nb);
  }

  lemma UsedTop(v: Segment, p: int)
    requires Ok(v) && FreeAt(v, p)
    ensures H(v, p).size > 0 && H(Used(v, p), v.top).size == H(v, v.top).size && p !in Lives(v)
  {
    ChunkIs(v, p);
    TopIs(v);
  }

  lemma UsedIs(v: Segment, p: int)
    requires H(v, p).size > 0
    ensures var s := H(v, p).size;
            var m := v.heads[p := Head(s, true, true)];
            Used(v, p) == v.(heads := m[p + s := HeadAt(m, p + s).(pinuse := true)])
  {
  }
}
