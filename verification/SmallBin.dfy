/** The bins of small free chunks: for each size one ring through a list head that lies among the bins. The
    ring of an empty bin is stale; only the mark of the bin says that it is empty. */
module SmallBins {

  const NSMALLBINS: int := 32
  const MIN_CHUNK_SIZE: int := 16

  datatype Link = Link(fd: int, bk: int)

  /** A snapshot of the links of chunks and list heads, with the order of arrival for the proof. */
  datatype Rings = Rings(links: map<int, Link>, sizes: map<int, int>, marked: set<int>, stamps: map<int, int>, now: int)

  /** SMALLBIN_AT: the list head of bin i, which is not the address of a chunk. */
  function BinPtr(i: int): int {
    -1 - i
  }

  function Of(m: map<int, Link>, p: int): Link {
    if p in m then m[p] else Link(0, 0)
  }

  function At(m: map<int, int>, p: int): int {
    if p in m then m[p] else 0
  }

  function Fd(v: Rings, p: int): int { Of(v.links, p).fd }
  function Bk(v: Rings, p: int): int { Of(v.links, p).bk }

  /** SMALL_INDEX */
  function Index(s: int): (i: int)
    ensures 0 <= s ==> 0 <= i
    ensures MIN_CHUNK_SIZE <= s < 8 * NSMALLBINS && s % 8 == 0 ==> 2 <= i < NSMALLBINS && s == 8 * i
  {
    s / 8
  }

  /** q is the list head of bin i or a chunk of it. */
  predicate OnRing(v: Rings, q: int, i: int) {
    q == BinPtr(i) || InBin(v, q, i)
  }

  predicate InBin(v: Rings, q: int, i: int) {
    q in v.sizes && Index(v.sizes[q]) == i
  }

  predicate Linked(v: Rings, q: int, i: int) {
    && OnRing(v, Fd(v, q), i) && Bk(v, Fd(v, q)) == q
    && OnRing(v, Bk(v, q), i) && Fd(v, Bk(v, q)) == q
  }

  /** A chunk is on the ring of the bin of its size, and behind it there is only what arrived later. */
  predicate ChunkOk(v: Rings, p: int) {
    && p in v.sizes && p > 0 && MIN_CHUNK_SIZE <= v.sizes[p] < 8 * NSMALLBINS && v.sizes[p] % 8 == 0
    && Index(v.sizes[p]) in v.marked && Linked(v, p, Index(v.sizes[p]))
    && At(v.stamps, p) < v.now
    && (Bk(v, p) == BinPtr(Index(v.sizes[p])) || At(v.stamps, p) < At(v.stamps, Bk(v, p)))
  }

  predicate BinOk(v: Rings, i: int) {
    && 0 <= i < NSMALLBINS && Linked(v, BinPtr(i), i)
    && InBin(v, Fd(v, BinPtr(i)), i) && InBin(v, Bk(v, BinPtr(i)), i)
  }

  ghost predicate Ok(v: Rings) {
    && (forall p {:trigger ChunkOk(v, p)} {:trigger p in v.sizes} :: p in v.sizes ==> ChunkOk(v, p))
    && (forall i {:trigger BinOk(v, i)} {:trigger i in v.marked} :: i in v.marked ==> BinOk(v, i))
  }

  /** The front chunk of a bin is the only one when the list head follows it. */
  lemma {:induction false} OnlyOne(v: Rings, i: int, q: int)
    requires Ok(v) && i in v.marked && Fd(v, Fd(v, BinPtr(i))) == BinPtr(i) && InBin(v, q, i)
    ensures q == Fd(v, BinPtr(i))
    decreases v.now - At(v.stamps, q)
  {
    assert ChunkOk(v, q) && BinOk(v, i);
    if Bk(v, q) != BinPtr(i) {
      OnlyOne(v, i, Bk(v, q));
    }
  }

  /** A chunk whose two neighbours coincide has the list head on both sides. */
  lemma Alone(v: Rings, p: int)
    requires Ok(v) && p in v.sizes && Fd(v, p) == Bk(v, p)
    ensures Fd(v, p) == BinPtr(Index(v.sizes[p]))
  {
    assert ChunkOk(v, p);
    if Fd(v, p) in v.sizes {
      assert ChunkOk(v, Fd(v, p));
    }
  }

  lemma ChunkIs(v: Rings, p: int)
    requires Ok(v) && p in v.sizes
    ensures ChunkOk(v, p)
  {
  }

  lemma BinIs(v: Rings, i: int)
    requires Ok(v) && 0 <= i
    ensures i in v.marked ==> BinOk(v, i)
    ensures BinPtr(i) !in v.sizes
  {
  }

  lemma MarkedIs(v: Rings, i: int)
    requires Ok(v) && i in v.marked
    ensures 0 <= i < NSMALLBINS
  {
    assert BinOk(v, i);
  }

  // ---------- insertion ----------

  function Linkage(v: Rings, b: int, f: int, p: int): (m: map<int, Link>)
    requires p != b && p != f
    ensures forall q :: Of(m, q) == if q == p then Link(f, b)
                                    else Link(if q == b then p else Fd(v, q), if q == f then p else Bk(v, q))
  {
    var m1 := v.links[b := Of(v.links, b).(fd := p)];
    var m2 := m1[f := Of(m1, f).(bk := p)];
    m2[p := Link(f, b)]
  }

  function Front(v: Rings, i: int): int {
    if i in v.marked then Fd(v, BinPtr(i)) else BinPtr(i)
  }

  function Inserted(v: Rings, p: int, s: int): Rings
    requires p > 0 && p !in v.sizes && 0 <= s && (Index(s) in v.marked ==> BinOk(v, Index(s)))
  {
    var i := Index(s);
    Rings(Linkage(v, BinPtr(i), Front(v, i), p), v.sizes[p := s], v.marked + {i}, v.stamps[p := v.now], v.now + 1)
  }

  lemma InsertedOk(v: Rings, p: int, s: int)
    requires Ok(v) && p > 0 && p !in v.sizes && MIN_CHUNK_SIZE <= s < 8 * NSMALLBINS && s % 8 == 0
    ensures Index(s) in v.marked ==> BinOk(v, Index(s))
    ensures Ok(Inserted(v, p, s))
  {
    hide ChunkOk, BinOk, Linkage;
    var w := Inserted(v, p, s);
    forall q | q in w.sizes ensures ChunkOk(w, q) {
      InsertedChunk(v, p, s, q);
    }
    forall i | i in w.marked ensures BinOk(w, i) {
      InsertedBin(v, p, s, i);
    }
  }

  lemma InsertedChunk(v: Rings, p: int, s: int, q: int)
    requires Ok(v) && p > 0 && p !in v.sizes && MIN_CHUNK_SIZE <= s < 8 * NSMALLBINS && s % 8 == 0
    requires q == p || q in v.sizes
    ensures Index(s) in v.marked ==> BinOk(v, Index(s))
    ensures ChunkOk(Inserted(v, p, s), q)
  {
    hide Linkage, Of, Index, Ok;
    BinIs(v, Index(s));
    if q != p {
      ChunkIs(v, q);
    }
  }

  lemma InsertedBin(v: Rings, p: int, s: int, j: int)
    requires Ok(v) && p > 0 && p !in v.sizes && MIN_CHUNK_SIZE <= s < 8 * NSMALLBINS && s % 8 == 0
    requires j == Index(s) || j in v.marked
    ensures Index(s) in v.marked ==> BinOk(v, Index(s))
    ensures BinOk(Inserted(v, p, s), j)
  {
    hide Linkage, Of, At, Index, Ok;
    BinIs(v, Index(s));
    if j in v.marked {
      MarkedIs(v, j);
      BinIs(v, j);
    }
  }

  // ---------- removal ----------

  /** f->iBk = b, b->iFd = f */
  function Bridge(v: Rings, f: int, b: int): (m: map<int, Link>)
    ensures forall q :: Of(m, q) == Link(if q == b then f else Fd(v, q), if q == f then b else Bk(v, q))
  {
    var m1 := v.links[f := Of(v.links, f).(bk := b)];
    m1[b := Of(m1, b).(fd := f)]
  }

  /** Chunk p has left the ring of its bin i; the ring of a bin that becomes empty is left as it is. */
  function Removed(v: Rings, p: int, i: int): Rings
  {
    if Fd(v, p) == Bk(v, p) then v.(sizes := v.sizes - {p}, marked := v.marked - {i})
    else v.(links := Bridge(v, Fd(v, p), Bk(v, p)), sizes := v.sizes - {p})
  }

  lemma RemovedOk(v: Rings, p: int)
    requires Ok(v) && p in v.sizes
    ensures Ok(Removed(v, p, Index(v.sizes[p])))
  {
    hide ChunkOk, BinOk, Bridge;
    var i := Index(v.sizes[p]);
    var w := Removed(v, p, i);
    forall q | q in w.sizes ensures ChunkOk(w, q) {
      RemovedChunk(v, p, q);
    }
    forall j | j in w.marked ensures BinOk(w, j) {
      RemovedBin(v, p, j);
    }
  }

  lemma RemovedChunk(v: Rings, p: int, q: int)
    requires Ok(v) && p in v.sizes && q in v.sizes && q != p
    ensures ChunkOk(Removed(v, p, Index(v.sizes[p])), q)
  {
    hide Bridge, Of, Index, Ok;
    var i := Index(v.sizes[p]);
    ChunkIs(v, p);
    ChunkIs(v, q);
    if Fd(v, p) == Bk(v, p) {
      Alone(v, p);
      BinIs(v, i);
      if Index(v.sizes[q]) == i {
        OnlyOne(v, i, q);
      }
    }
  }

  lemma RemovedBin(v: Rings, p: int, j: int)
    requires Ok(v) && p in v.sizes && j in Removed(v, p, Index(v.sizes[p])).marked
    ensures BinOk(Removed(v, p, Index(v.sizes[p])), j)
  {
    hide Bridge, Of, Index, Ok;
    var i := Index(v.sizes[p]);
    ChunkIs(v, p);
    MarkedIs(v, j);
    BinIs(v, j);
    BinIs(v, i);
  }

  class SmallBin {
    var links: map<int, Link>
    var sizes: map<int, int>
    var marked: set<int>
    ghost var stamps: map<int, int>
    ghost var now: int

    ghost function View(): Rings
      reads this
    {
      Rings(links, sizes, marked, stamps, now)
    }

    /** InitBins: no bin is marked, and each list head is alone on its ring. */
    constructor ()
      ensures Ok(View()) && sizes == map[]
    {
      links := map i | 0 <= i < NSMALLBINS :: BinPtr(i) := Link(BinPtr(i), BinPtr(i));
      sizes, marked, stamps, now := map[], {}, map[], 0;
    }

    /** InsertSmallChunk: p goes to the front of the bin of its size. */
    method InsertSmallChunk(p: int, s: int)
      requires Ok(View()) && p > 0 && p !in sizes && MIN_CHUNK_SIZE <= s < 8 * NSMALLBINS && s % 8 == 0
      modifies this
      ensures Ok(View()) && sizes == old(sizes)[p := s]
    {
      ghost var v := View();
      hide Ok, BinOk;
      InsertedOk(v, p, s);
      var i := Index(s);
      var b := BinPtr(i);
      var f := b;
      if i !in marked {
        marked := marked + {i};
      } else {
        f := Of(links, b).fd;
      }
      links := links[b := Of(links, b).(fd := p)];
      links := links[f := Of(links, f).(bk := p)];
      links := links[p := Link(f, b)];
      sizes := sizes[p := s];
      stamps, now := stamps[p := now], now + 1;
      assert marked == v.marked + {i};
      assert View() == Inserted(v, p, s);
    }

    /** UnlinkSmallChunk: p leaves its bin, which becomes unmarked when p was alone. */
    method UnlinkSmallChunk(p: int, s: int)
      requires Ok(View()) && p in sizes && sizes[p] == s
      modifies this
      ensures Ok(View()) && sizes == old(sizes) - {p}
    {
      ghost var v := View();
      hide Ok, ChunkOk;
      RemovedOk(v, p);
      var f, b := Of(links, p).fd, Of(links, p).bk;
      var i := Index(s);
      if f == b {
        marked := marked - {i};
      } else {
        links := links[f := Of(links, f).(bk := b)];
        links := links[b := Of(links, b).(fd := f)];
      }
      sizes := sizes - {p};
      assert View() == Removed(v, p, i);
    }

    /** UnlinkFirstSmallChunk: the front chunk of a marked bin leaves it. */
    method UnlinkFirstSmallChunk(i: int) returns (p: int)
      requires Ok(View()) && i in marked
      modifies this
      ensures p in old(sizes) && old(sizes)[p] == 8 * i
      ensures Ok(View()) && sizes == old(sizes) - {p}
    {
      ghost var v := View();
      hide Ok;
      var b := BinPtr(i);
      p := Of(links, b).fd;
      FrontIs(v, i);
      RemovedOk(v, p);
      var f := Of(links, p).fd;
      if b == f {
        marked := marked - {i};
      } else {
        links := links[f := Of(links, f).(bk := b)];
        links := links[b := Of(links, b).(fd := f)];
      }
      sizes := sizes - {p};
      assert View() == Removed(v, p, i);
    }
  }

  lemma FrontIs(v: Rings, i: int)
    requires Ok(v) && i in v.marked
    ensures var p := Fd(v, BinPtr(i)); p in v.sizes && v.sizes[p] == 8 * i && Bk(v, p) == BinPtr(i) && 0 <= i < NSMALLBINS
  {
    assert BinOk(v, i);
  }
}
