/** Boundary tags: a segment cut into chunks, each with its size and two in-use bits in its head word, and
    with a copy of its size behind it when it is free. */
module Tags {

  const MIN_CHUNK_SIZE: int := 16

  /** A head word: the size of the chunk, and whether the chunk before it and the chunk itself are in use. */
  datatype Head = Head(size: int, pinuse: bool, cinuse: bool)

  /** A snapshot: the head words and previous-foot words by address, the chunks (without the top chunk), and
      for each boundary the chunk that ends there. */
  datatype Segment = Segment(heads: map<int, Head>, feet: map<int, int>, starts: set<int>, prev: map<int, int>,
                             base: int, top: int)

  function HeadAt(m: map<int, Head>, x: int): Head {
    if x in m then m[x] else Head(0, false, false)
  }

  function H(v: Segment, x: int): Head {
    HeadAt(v.heads, x)
  }

  function Foot(v: Segment, x: int): int {
    if x in v.feet then v.feet[x] else 0
  }

  function Prev(v: Segment, x: int): int {
    if x in v.prev then v.prev[x] else 0
  }

  function End(v: Segment, x: int): int {
    x + H(v, x).size
  }

  predicate Boundary(v: Segment, x: int) {
    x in v.starts || x == v.top
  }

  /** A free chunk, other than top. */
  predicate FreeAt(v: Segment, x: int) {
    x in v.starts && !H(v, x).cinuse
  }

  predicate UsedAt(v: Segment, x: int) {
    x in v.starts && H(v, x).cinuse
  }

  /** What lies before a boundary: nothing before the first, which counts as in use, or one chunk that ends there. */
  predicate LeftOk(v: Segment, x: int) {
    if x == v.base then H(v, x).pinuse
    else Prev(v, x) in v.starts && End(v, Prev(v, x)) == x && H(v, x).pinuse == H(v, Prev(v, x)).cinuse
  }

  /** A chunk ends at a boundary that knows it. A free chunk has its size behind it, and the chunks on both
      sides of it are in use. */
  predicate RightOk(v: Segment, x: int) {
    && v.base <= x < v.top && x % 8 == 0 && H(v, x).size >= MIN_CHUNK_SIZE && H(v, x).size % 8 == 0
    && Boundary(v, End(v, x)) && End(v, x) != v.base && Prev(v, End(v, x)) == x
    && (!H(v, x).cinuse ==> Foot(v, End(v, x)) == H(v, x).size && H(v, x).pinuse && UsedAt(v, End(v, x)))
  }

  predicate ChunkOk(v: Segment, x: int) {
    LeftOk(v, x) && RightOk(v, x)
  }

  predicate TopOk(v: Segment) {
    && 0 < v.base <= v.top && v.base % 8 == 0 && v.top !in v.starts && LeftOk(v, v.top)
    && H(v, v.top).size > 0 && H(v, v.top).size % 8 == 0 && H(v, v.top).pinuse && !H(v, v.top).cinuse
    && Boundary(v, v.base)
  }

  ghost predicate Ok(v: Segment) {
    && TopOk(v)
    && (forall x {:trigger ChunkOk(v, x)} {:trigger x in v.starts} :: x in v.starts ==> ChunkOk(v, x))
  }

  lemma ChunkIs(v: Segment, x: int)
    requires Ok(v) && x in v.starts
    ensures ChunkOk(v, x)
  {
  }

  // ---------- what the tags mean ----------

  /** Chunks do not overlap, and the last one ends at top. */
  lemma {:induction false} Disjoint(v: Segment, x: int, y: int)
    requires Ok(v) && x in v.starts && Boundary(v, y) && x < y
    ensures End(v, x) <= y <= v.top
    decreases y
  {
    hide H, Foot, Prev;
    ChunkIs(v, x);
    if y != v.top {
      ChunkIs(v, y);
    }
    var p := Prev(v, y);
    ChunkIs(v, p);
    if p != x {
      if x < p {
        Disjoint(v, x, p);
      } else {
        Disjoint(v, p, x);
      }
    }
  }

  /** The sizes of the chunks from x on. */
  ghost function Total(v: Segment, x: int): int
    requires Ok(v) && Boundary(v, x)
    decreases v.top - x
  {
    if x == v.top then 0 else ChunkIs(v, x); H(v, x).size + Total(v, End(v, x))
  }

  /** The chunks fill the segment up to top, without gaps. */
  lemma {:induction false} Tiling(v: Segment, x: int)
    requires Ok(v) && Boundary(v, x)
    ensures Total(v, x) == v.top - x
    decreases v.top - x
  {
    hide H, Foot, Prev;
    if x != v.top {
      ChunkIs(v, x);
      Tiling(v, End(v, x));
    }
  }

  // ---------- what the allocator does to the tags ----------

  /** The words of one chunk and of the boundary behind it. */
  function Tagged(v: Segment, p: int, h: Head, e: int, ph: bool): (m: map<int, Head>)
    requires p != e
    ensures forall x :: HeadAt(m, x) == if x == p then h else if x == e then H(v, e).(pinuse := ph) else H(v, x)
  {
    v.heads[p := h][e := H(v, e).(pinuse := ph)]
  }

  /** A free chunk is taken whole. */
  function Used(v: Segment, p: int): (w: Segment)
    requires H(v, p).size > 0
    ensures forall x :: H(w, x) == if x == p then Head(H(v, p).size, true, true)
                                   else if x == End(v, p) then H(v, x).(pinuse := true) else H(v, x)
    ensures w.feet == v.feet && w.starts == v.starts && w.prev == v.prev && w.base == v.base && w.top == v.top
  {
    v.(heads := Tagged(v, p, Head(H(v, p).size, true, true), End(v, p), true))
  }

  lemma UsedOk(v: Segment, p: int)
    requires Ok(v) && FreeAt(v, p)
    ensures H(v, p).size > 0 && Ok(Used(v, p))
  {
    hide H, Used, Ok;
    ChunkIs(v, p);
    TopIs(v);
    var w := Used(v, p);
    forall x | x in w.starts ensures ChunkOk(w, x) {
      ChunkIs(v, x);
      assert FreeAt(v, x) && x != p ==> End(v, x) != p;
    }
    AllOk(w);
  }

  lemma TopIs(v: Segment)
    requires Ok(v)
    ensures TopOk(v)
  {
  }

  lemma AllOk(v: Segment)
    requires TopOk(v) && forall x {:trigger ChunkOk(v, x)} :: x in v.starts ==> ChunkOk(v, x)
    ensures Ok(v)
  {
  }

  /** A chunk of size n is cut off the front of chunk p, with these head words for the two parts; the rest
      gets its size behind it when it is free. */
  function Cut(v: Segment, p: int, n: int, h: Head, rest: Head): (w: Segment)
    requires 0 < n < H(v, p).size
    ensures forall x :: H(w, x) == if x == p then h else if x == p + n then rest
                                   else if x == End(v, p) then H(v, x).(pinuse := rest.cinuse) else H(v, x)
    ensures forall x :: Foot(w, x) == if x == End(v, p) && !rest.cinuse then rest.size else Foot(v, x)
    ensures forall x :: Prev(w, x) == if x == p + n then p else if x == End(v, p) then p + n else Prev(v, x)
    ensures w.starts == v.starts + {p + n} && w.base == v.base && w.top == v.top
  {
    var e := End(v, p);
    var m := Tagged(v, p, h, e, rest.cinuse);
    v.(heads := m[p + n := rest], feet := if rest.cinuse then v.feet else v.feet[e := rest.size],
       starts := v.starts + {p + n}, prev := v.prev[p + n := p][e := p + n])
  }

  /** The front part is in use, and the rest is free (when p was) or in use. */
  lemma CutOk(v: Segment, p: int, n: int, c: bool)
    requires Ok(v) && p in v.starts && (c || FreeAt(v, p))
    requires MIN_CHUNK_SIZE <= n <= H(v, p).size - MIN_CHUNK_SIZE && n % 8 == 0
    ensures p + n !in v.starts && p + n != v.top && p + n != v.base
    ensures Ok(Cut(v, p, n, Head(n, H(v, p).pinuse, true), Head(H(v, p).size - n, true, c)))
  {
    hide H, Cut, Ok, Foot, Prev;
    ChunkIs(v, p);
    TopIs(v);
    var r := p + n;
    Mod8(p, n, H(v, p).size);
    if Boundary(v, r) {
      Disjoint(v, p, r);
    } else {
      var w := Cut(v, p, n, Head(n, H(v, p).pinuse, true), Head(H(v, p).size - n, true, c));
      forall x | x in w.starts ensures ChunkOk(w, x) {
        CutChunk(v, p, n, c, x);
      }
      AllOk(w);
    }
  }

  lemma CutChunk(v: Segment, p: int, n: int, c: bool, x: int)
    requires Ok(v) && p in v.starts && (c || FreeAt(v, p)) && !Boundary(v, p + n) && p + n != v.base
    requires MIN_CHUNK_SIZE <= n <= H(v, p).size - MIN_CHUNK_SIZE && n % 8 == 0
    requires x in v.starts || x == p + n
    ensures ChunkOk(Cut(v, p, n, Head(n, H(v, p).pinuse, true), Head(H(v, p).size - n, true, c)), x)
  {
    hide H, Cut, Ok, Foot, Prev;
    ChunkIs(v, p);
    TopIs(v);
    var r, w := p + n, Cut(v, p, n, Head(n, H(v, p).pinuse, true), Head(H(v, p).size - n, true, c));
    Mod8(p, n, H(v, p).size);
    Disjoint(v, p, End(v, p));
    if x != r {
      ChunkIs(v, x);
      if x != v.base {
        ChunkIs(v, Prev(v, x));
      }
    }
    assert LeftOk(w, x);
    assert RightOk(w, x);
  }

  /** A chunk of size n is taken from the front of top. */
  function TopCut(v: Segment, n: int): (w: Segment)
    requires 0 < n
    ensures forall x :: H(w, x) == if x == v.top then Head(n, true, true)
                                   else if x == v.top + n then Head(H(v, v.top).size - n, true, false) else H(v, x)
    ensures forall x :: Prev(w, x) == if x == v.top + n then v.top else Prev(v, x)
    ensures w.starts == v.starts + {v.top} && w.base == v.base && w.top == v.top + n && w.feet == v.feet
  {
    v.(heads := v.heads[v.top + n := Head(H(v, v.top).size - n, true, false)][v.top := Head(n, true, true)],
       starts := v.starts + {v.top}, prev := v.prev[v.top + n := v.top], top := v.top + n)
  }

  lemma TopCutOk(v: Segment, n: int)
    requires Ok(v) && MIN_CHUNK_SIZE <= n < H(v, v.top).size && n % 8 == 0
    ensures Ok(TopCut(v, n))
  {
    hide H, TopCut, Ok, Prev;
    TopIs(v);
    TopAligned(v);
    Mod8(v.top, n, H(v, v.top).size);
    var w := TopCut(v, n);
    forall x | x in w.starts ensures ChunkOk(w, x) {
      if x != v.top {
        ChunkIs(v, x);
        Disjoint(v, x, v.top);
      }
      if x != v.base {
        ChunkIs(v, Prev(v, x));
      }
    }
    AllOk(w);
  }

  lemma TopAligned(v: Segment)
    requires Ok(v)
    ensures v.top % 8 == 0
  {
    hide H, Ok, Prev;
    TopIs(v);
    if v.top != v.base {
      ChunkIs(v, Prev(v, v.top));
    }
  }

  /** The head word behind top, which stands for the foot of the segment. */
  const FOOT := Head(32, false, false)

  /** Top gets another size, and the foot of the segment its head word. */
  function TopSized(v: Segment, s: int): (w: Segment)
    requires s > 0
    ensures forall x :: H(w, x) == if x == v.top then Head(s, true, false) else if x == v.top + s then FOOT else H(v, x)
    ensures w == v.(heads := w.heads)
  {
    v.(heads := v.heads[v.top := Head(s, true, false)][v.top + s := FOOT])
  }

  lemma TopSizedOk(v: Segment, s: int)
    requires Ok(v) && s > 0 && s % 8 == 0
    ensures Ok(TopSized(v, s))
  {
    hide H, TopSized, Ok;
    TopIs(v);
    var w := TopSized(v, s);
    forall x | x in w.starts ensures ChunkOk(w, x) {
      ChunkIs(v, x);
      Disjoint(v, x, v.top);
      if x != v.base {
        ChunkIs(v, Prev(v, x));
      }
    }
    if v.top != v.base {
      ChunkIs(v, Prev(v, v.top));
    }
    AllOk(w);
  }

  // ---------- merging ----------

  /** The neighbours of chunk x are in d, or a and e. */
  predicate Inner(v: Segment, a: int, d: set<int>, e: int, x: int) {
    (Prev(v, x) in d || Prev(v, x) == a) && (End(v, x) in d || End(v, x) == e) && x != v.base
  }

  lemma InnerIs(v: Segment, a: int, d: set<int>, e: int, x: int)
    requires Ok(v) && Between(v, a, d, e)
    ensures x in d ==> Inner(v, a, d, e, x) && ChunkOk(v, x)
  {
    assert x in d ==> Inner(v, a, d, e, x);
  }

  /** The chunks of d lie between chunk a and boundary e, without gaps. */
  ghost predicate Between(v: Segment, a: int, d: set<int>, e: int) {
    && a in v.starts && a !in d && e !in d && a != e && Boundary(v, e) && d <= v.starts
    && (forall x {:trigger Inner(v, a, d, e, x)} :: x in d ==> Inner(v, a, d, e, x))
    && (End(v, a) in d || End(v, a) == e) && (Prev(v, e) in d || Prev(v, e) == a)
  }

  /** They become one free chunk. */
  function Merged(v: Segment, a: int, d: set<int>, e: int): (w: Segment)
    requires a != e
    ensures forall x :: H(w, x) == if x == a then Head(e - a, true, false)
                                   else if x == e then H(v, x).(pinuse := false) else H(v, x)
    ensures forall x :: Foot(w, x) == if x == e then e - a else Foot(v, x)
    ensures forall x :: Prev(w, x) == if x == e then a else Prev(v, x)
    ensures w.starts == v.starts - d && w.base == v.base && w.top == v.top
  {
    v.(heads := Tagged(v, a, Head(e - a, true, false), e, false), feet := v.feet[e := e - a],
       starts := v.starts - d, prev := v.prev[e := a])
  }

  lemma MergedOk(v: Segment, a: int, d: set<int>, e: int)
    requires Ok(v) && Between(v, a, d, e) && a < e && H(v, a).pinuse && UsedAt(v, e)
    ensures Ok(Merged(v, a, d, e))
  {
    hide H, Merged, Ok, Foot, Prev, ChunkOk, LeftOk;
    var w := Merged(v, a, d, e);
    MergedTop(v, a, d, e);
    MergedSize(v, a, e);
    forall x | x in w.starts ensures ChunkOk(w, x) {
      if x == a {
        MergedFront(v, a, d, e);
      } else if x == e {
        MergedBack(v, a, d, e);
      } else {
        MergedOther(v, a, d, e, x);
      }
    }
    AllOk(w);
  }

  lemma MergedTop(v: Segment, a: int, d: set<int>, e: int)
    requires Ok(v) && Between(v, a, d, e) && a < e && UsedAt(v, e)
    ensures TopOk(Merged(v, a, d, e))
  {
    hide H, Merged, Ok, Foot, Prev;
    TopIs(v);
    ChunkIs(v, a);
    if v.top != v.base {
      ChunkIs(v, Prev(v, v.top));
    }
    InnerIs(v, a, d, e, Prev(v, v.top));
    InnerIs(v, a, d, e, v.base);
  }

  /** A gap between boundaries holds a whole chunk. */
  lemma MergedSize(v: Segment, a: int, e: int)
    requires Ok(v) && a in v.starts && Boundary(v, e) && a < e
    ensures e - a >= MIN_CHUNK_SIZE && (e - a) % 8 == 0
  {
    hide H, Ok, Foot, Prev;
    Disjoint(v, a, e);
    ChunkIs(v, a);
    if e == v.top {
      TopAligned(v);
    } else {
      ChunkIs(v, e);
    }
    Mod8(a, a, e);
  }

  lemma Mod8(a: int, b: int, e: int)
    requires a % 8 == 0 && b % 8 == 0 && e % 8 == 0
    ensures (e - a) % 8 == 0 && (e - b) % 8 == 0 && (a + b) % 8 == 0 && (b + e - a) % 8 == 0 && (e + b - a) % 8 == 0
  {
  }

  lemma MergedFront(v: Segment, a: int, d: set<int>, e: int)
    requires Ok(v) && Between(v, a, d, e) && a < e && H(v, a).pinuse && UsedAt(v, e)
    requires e - a >= MIN_CHUNK_SIZE && (e - a) % 8 == 0
    ensures ChunkOk(Merged(v, a, d, e), a)
  {
    hide H, Merged, Ok, Foot, Prev;
    ChunkIs(v, a);
    ChunkIs(v, e);
    if a != v.base {
      ChunkIs(v, Prev(v, a));
    }
    InnerIs(v, a, d, e, Prev(v, a));
    InnerIs(v, a, d, e, End(v, a));
  }

  lemma MergedBack(v: Segment, a: int, d: set<int>, e: int)
    requires Ok(v) && Between(v, a, d, e) && a < e && UsedAt(v, e)
    ensures ChunkOk(Merged(v, a, d, e), e)
  {
    hide H, Merged, Ok, Foot, Prev;
    ChunkIs(v, a);
    ChunkIs(v, e);
    InnerIs(v, a, d, e, Prev(v, e));
    InnerIs(v, a, d, e, End(v, e));
  }

  lemma MergedOther(v: Segment, a: int, d: set<int>, e: int, x: int)
    requires Ok(v) && Between(v, a, d, e) && a < e && H(v, a).pinuse && UsedAt(v, e)
    requires x in v.starts && x !in d && x != a && x != e
    ensures ChunkOk(Merged(v, a, d, e), x)
  {
    hide H, Merged, Ok, Foot, Prev;
    ChunkIs(v, x);
    ChunkIs(v, a);
    if x != v.base {
      ChunkIs(v, Prev(v, x));
    }
    InnerIs(v, a, d, e, Prev(v, x));
    InnerIs(v, a, d, e, End(v, x));
  }

  /** They become part of top. */
  function TopMerged(v: Segment, a: int, d: set<int>): (w: Segment)
    ensures forall x :: H(w, x) == if x == a then Head(v.top + H(v, v.top).size - a, true, false) else H(v, x)
    ensures w.starts == v.starts - d - {a} && w.base == v.base && w.top == a && w.feet == v.feet && w.prev == v.prev
  {
    v.(heads := v.heads[a := Head(v.top + H(v, v.top).size - a, true, false)], starts := v.starts - d - {a}, top := a)
  }

  lemma TopMergedOk(v: Segment, a: int, d: set<int>)
    requires Ok(v) && Between(v, a, d, v.top) && H(v, a).pinuse
    ensures Ok(TopMerged(v, a, d))
  {
    hide H, TopMerged, Ok, Foot, Prev, ChunkOk, Between, TopOk;
    var w := TopMerged(v, a, d);
    TopMergedTop(v, a, d);
    forall x | x in w.starts ensures ChunkOk(w, x) {
      TopMergedBelow(v, a, d, x);
      TopMergedOther(v, a, d, x);
    }
    AllOk(w);
  }

  lemma TopMergedTop(v: Segment, a: int, d: set<int>)
    requires Ok(v) && Between(v, a, d, v.top) && H(v, a).pinuse
    ensures TopOk(TopMerged(v, a, d))
  {
    hide H, TopMerged, Ok;
    TopIs(v);
    ChunkIs(v, a);
    TopAligned(v);
    Mod8(a, H(v, v.top).size, v.top);
    InnerIs(v, a, d, v.top, v.base);
    if a != v.base {
      ChunkIs(v, Prev(v, a));
    }
    InnerIs(v, a, d, v.top, Prev(v, a));
  }

  lemma TopMergedOther(v: Segment, a: int, d: set<int>, x: int)
    requires Ok(v) && Between(v, a, d, v.top) && H(v, a).pinuse && x in v.starts && x !in d && x < a
    ensures ChunkOk(TopMerged(v, a, d), x)
  {
    hide H, TopMerged, Ok;
    ChunkIs(v, x);
    ChunkIs(v, a);
    if x != v.base {
      ChunkIs(v, Prev(v, x));
    }
    InnerIs(v, a, d, v.top, Prev(v, x));
    InnerIs(v, a, d, v.top, End(v, x));
  }

  /** What is left lies below a. */
  lemma {:induction false} TopMergedBelow(v: Segment, a: int, d: set<int>, x: int)
    requires Ok(v) && Between(v, a, d, v.top) && x in v.starts && x !in d && x != a
    ensures x < a
    decreases v.top - x
  {
    hide H, Ok;
    ChunkIs(v, x);
    var n := End(v, x);
    InnerIs(v, a, d, v.top, n);
    if n in d {
    } else if n != v.top && n != a {
      TopMergedBelow(v, a, d, n);
    }
  }

  /** Chunk p, the last one, takes its new size from top. */
  function Grown(v: Segment, p: int, n: int): (w: Segment)
    requires 0 < n
    ensures forall x :: H(w, x) == if x == p then Head(n, H(v, p).pinuse, true)
                                   else if x == p + n then Head(v.top + H(v, v.top).size - (p + n), true, false) else H(v, x)
    ensures forall x :: Prev(w, x) == if x == p + n then p else Prev(v, x)
    ensures w.starts == v.starts && w.base == v.base && w.top == p + n && w.feet == v.feet
  {
    v.(heads := v.heads[p := Head(n, H(v, p).pinuse, true)][p + n := Head(v.top + H(v, v.top).size - (p + n), true, false)],
       prev := v.prev[p + n := p], top := p + n)
  }

  lemma GrownOk(v: Segment, p: int, n: int)
    requires Ok(v) && UsedAt(v, p) && End(v, p) == v.top
    requires H(v, p).size < n < H(v, p).size + H(v, v.top).size && n % 8 == 0
    ensures Ok(Grown(v, p, n))
  {
    hide H, Grown, Ok, Prev;
    TopIs(v);
    ChunkIs(v, p);
    TopAligned(v);
    Mod8(p, n, v.top);
    Mod8(p + n, H(v, v.top).size, v.top);
    var w := Grown(v, p, n);
    forall x | x in w.starts ensures ChunkOk(w, x) {
      GrownChunk(v, p, n, x);
    }
    AllOk(w);
  }

  lemma GrownChunk(v: Segment, p: int, n: int, x: int)
    requires Ok(v) && UsedAt(v, p) && End(v, p) == v.top && x in v.starts
    requires H(v, p).size < n < H(v, p).size + H(v, v.top).size && n % 8 == 0
    ensures ChunkOk(Grown(v, p, n), x)
  {
    hide H, Grown, Ok, Prev;
    ChunkIs(v, x);
    ChunkIs(v, p);
    Disjoint(v, x, v.top);
    if x != v.base {
      ChunkIs(v, Prev(v, x));
    }
  }

  // ---------- the span of free space a freed chunk becomes part of ----------

  /** The chunk before q when it is free, or q. */
  function FrontOf(v: Segment, q: int): int {
    if H(v, q).pinuse then q else q - Foot(v, q)
  }

  /** The boundary behind q, or behind the next chunk when that is free. */
  function BackOf(v: Segment, q: int): int {
    if FreeAt(v, End(v, q)) then End(v, End(v, q)) else End(v, q)
  }

  /** The chunks that the span swallows, besides its front. */
  function Swallowed(v: Segment, q: int): set<int> {
    (if H(v, q).pinuse then {} else {q}) + (if FreeAt(v, End(v, q)) then {End(v, q)} else {})
  }

  /** The free chunks of the span. */
  function FreeParts(v: Segment, q: int): set<int> {
    (if H(v, q).pinuse then {} else {FrontOf(v, q)}) + (if FreeAt(v, End(v, q)) then {End(v, q)} else {})
  }

  lemma FrontIs(v: Segment, q: int)
    requires Ok(v) && UsedAt(v, q)
    ensures var a := FrontOf(v, q);
      && a in v.starts && H(v, a).pinuse && a <= q && Prev(v, End(v, q)) == q
      && (!H(v, q).pinuse ==> FreeAt(v, a) && End(v, a) == q && a < q && q != v.base && Prev(v, q) == a
                              && H(v, a).size == Foot(v, q))
  {
    hide H, Foot, Prev, Ok;
    ChunkIs(v, q);
    if !H(v, q).pinuse {
      TopIs(v);
      ChunkIs(v, Prev(v, q));
    }
  }

  lemma BackIs(v: Segment, q: int)
    requires Ok(v) && UsedAt(v, q)
    ensures var n := End(v, q); var e := BackOf(v, q);
      && q < n && Boundary(v, n) && n != v.base && (FreeAt(v, n) ==> n != v.top && Prev(v, n) == q && Prev(v, e) == n && n < e)
      && (e == v.top <==> n == v.top) && (e != v.top ==> UsedAt(v, e)) && ((e != n && FreeAt(v, n)) || e == n)
  {
    hide H, Foot, Prev, Ok;
    ChunkIs(v, q);
    TopIs(v);
    if FreeAt(v, End(v, q)) {
      ChunkIs(v, End(v, q));
    }
  }

  lemma SpanIs(v: Segment, q: int)
    requires Ok(v) && UsedAt(v, q)
    ensures var a, d, e := FrontOf(v, q), Swallowed(v, q), BackOf(v, q);
      && Between(v, a, d, e) && a < e && H(v, a).pinuse && (e != v.top ==> UsedAt(v, e))
      && (e == v.top <==> End(v, q) == v.top) && e - a >= MIN_CHUNK_SIZE
  {
    hide H, Foot, Prev, Ok;
    FrontIs(v, q);
    BackIs(v, q);
    ChunkIs(v, q);
    var a, d, e := FrontOf(v, q), Swallowed(v, q), BackOf(v, q);
    assert forall x :: x in d ==> Inner(v, a, d, e, x);
  }

  // ---------- what is free and what is in use ----------

  /** The free chunks, without top. */
  function Frees(v: Segment): (m: map<int, int>)
    ensures forall x :: x in m <==> FreeAt(v, x)
    ensures forall x :: x in m ==> m[x] == H(v, x).size
  {
    map x | x in v.starts && FreeAt(v, x) :: H(v, x).size
  }

  /** The chunks in use. */
  function Lives(v: Segment): (m: map<int, int>)
    ensures forall x :: x in m <==> UsedAt(v, x)
    ensures forall x :: x in m ==> m[x] == H(v, x).size
  {
    map x | x in v.starts && UsedAt(v, x) :: H(v, x).size
  }

  lemma SameMap(m: map<int, int>, n: map<int, int>)
    requires forall x :: x in m <==> x in n
    requires forall x :: x in m ==> m[x] == n[x]
    ensures m == n
  {
    assert forall x :: x in m <==> x in n;
    assert forall x :: x in m ==> m[x] == n[x];
  }

  lemma UsedMaps(v: Segment, p: int)
    requires FreeAt(v, p) && H(v, p).size > 0
    ensures Frees(Used(v, p)) == Frees(v) - {p}
    ensures Lives(Used(v, p)) == Lives(v)[p := H(v, p).size]
  {
    hide H, Used, Frees, Lives;
    SameMap(Frees(Used(v, p)), Frees(v) - {p});
    SameMap(Lives(Used(v, p)), Lives(v)[p := H(v, p).size]);
  }

  lemma CutMaps(v: Segment, p: int, n: int, c: bool)
    requires p in v.starts && 0 < n < H(v, p).size && p + n !in v.starts && (c ==> UsedAt(v, p)) && (!c ==> FreeAt(v, p))
    ensures var r := H(v, p).size - n; var w := Cut(v, p, n, Head(n, H(v, p).pinuse, true), Head(r, true, c));
            && Frees(w) == (if c then Frees(v) else (Frees(v) - {p})[p + n := r])
            && Lives(w) == (if c then Lives(v)[p := n][p + n := r] else Lives(v)[p := n])
  {
    hide H, Cut, Frees, Lives;
    var r := H(v, p).size - n;
    var w := Cut(v, p, n, Head(n, H(v, p).pinuse, true), Head(r, true, c));
    SameMap(Frees(w), if c then Frees(v) else (Frees(v) - {p})[p + n := r]);
    SameMap(Lives(w), if c then Lives(v)[p := n][p + n := r] else Lives(v)[p := n]);
  }

  lemma TopCutMaps(v: Segment, n: int)
    requires v.top !in v.starts && 0 < n && v.top + n !in v.starts
    ensures Frees(TopCut(v, n)) == Frees(v) && Lives(TopCut(v, n)) == Lives(v)[v.top := n]
  {
    hide H, TopCut, Frees, Lives;
    SameMap(Frees(TopCut(v, n)), Frees(v));
    SameMap(Lives(TopCut(v, n)), Lives(v)[v.top := n]);
  }

  lemma TopSizedMaps(v: Segment, s: int)
    requires v.top !in v.starts && s > 0 && v.top + s !in v.starts
    ensures Frees(TopSized(v, s)) == Frees(v) && Lives(TopSized(v, s)) == Lives(v)
  {
    hide H, TopSized, Frees, Lives;
    SameMap(Frees(TopSized(v, s)), Frees(v));
    SameMap(Lives(TopSized(v, s)), Lives(v));
  }

  lemma MergedMaps(v: Segment, a: int, d: set<int>, e: int)
    requires a in v.starts && a !in d && a != e && UsedAt(v, e) && e !in d
    ensures Frees(Merged(v, a, d, e)) == (Frees(v) - d)[a := e - a]
    ensures Lives(Merged(v, a, d, e)) == Lives(v) - d - {a}
  {
    hide H, Merged, Frees, Lives;
    SameMap(Frees(Merged(v, a, d, e)), (Frees(v) - d)[a := e - a]);
    SameMap(Lives(Merged(v, a, d, e)), Lives(v) - d - {a});
  }

  lemma TopMergedMaps(v: Segment, a: int, d: set<int>)
    ensures Frees(TopMerged(v, a, d)) == Frees(v) - d - {a}
    ensures Lives(TopMerged(v, a, d)) == Lives(v) - d - {a}
  {
    hide H, TopMerged, Frees, Lives;
    SameMap(Frees(TopMerged(v, a, d)), Frees(v) - d - {a});
    SameMap(Lives(TopMerged(v, a, d)), Lives(v) - d - {a});
  }

  lemma GrownMaps(v: Segment, p: int, n: int)
    requires UsedAt(v, p) && 0 < n && p + n !in v.starts
    ensures Frees(Grown(v, p, n)) == Frees(v) && Lives(Grown(v, p, n)) == Lives(v)[p := n]
  {
    hide H, Grown, Frees, Lives;
    SameMap(Frees(Grown(v, p, n)), Frees(v));
    SameMap(Lives(Grown(v, p, n)), Lives(v)[p := n]);
  }
}
