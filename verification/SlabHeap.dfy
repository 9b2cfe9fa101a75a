/** The slab allocator: pages of four slabs, each slab empty or filled with cells of one size. A slab with cells
    is in the tree of its size or, once it has been found full, in the full list; of the empty slabs of a page
    the highest one is in the tree of pages with room. */
module SlabHeaps {
  import opened SlabCells
  import PagedHeaps
  import PageCodes
  import PageMaps
  import SlabTrees

  const SLABSIZE: int := 1024
  const PAGESIZE: int := 4096
  const LIMIT: int := 0x1_0000_0000
  const MAXSLABSIZE: int := 56
  const FULL: int := SlabTrees.FULL
  const PARTIAL_PAGE: int := 100

  // ---------- addresses ----------

  /** page::PageFor */
  function PageOf(s: int): int {
    s - s % PAGESIZE
  }

  /** The place of a slab in its page. */
  function Ix(s: int): (i: int)
    ensures 0 <= i < 4
  {
    s % PAGESIZE / SLABSIZE
  }

  /** slab::SlabFor */
  function SlabFor(p: int): int {
    p - p % SLABSIZE
  }

  lemma SlabAddress(s: int)
    requires s % SLABSIZE == 0
    ensures s == PageOf(s) + SLABSIZE * Ix(s) && PageOf(s) % PAGESIZE == 0 && PageOf(s) % SLABSIZE == 0
  {
    Quarters(s / SLABSIZE);
  }

  /** Slab t of the address space is slab t % 4 of page t / 4. */
  lemma Quarters(t: int)
    ensures SLABSIZE * t % PAGESIZE == SLABSIZE * (t % 4)
    ensures SLABSIZE * (t % 4) / SLABSIZE == t % 4
    ensures PAGESIZE * (t / 4) % PAGESIZE == 0 && PAGESIZE * (t / 4) % SLABSIZE == 0
  {
    assert SLABSIZE * t == PAGESIZE * (t / 4) + SLABSIZE * (t % 4);
  }

  lemma PageAddress(page: int, i: int)
    requires page % PAGESIZE == 0 && 0 <= i < 4
    ensures var s := page + SLABSIZE * i; PageOf(s) == page && Ix(s) == i && s % SLABSIZE == 0
  {
    var q := page / PAGESIZE;
    var t := 4 * q + i;
    var s := page + SLABSIZE * i;
    assert page == PAGESIZE * q;
    assert s == SLABSIZE * t;
    FourAnd(q, i);
    Quarters(t);
    assert s % PAGESIZE == SLABSIZE * i;
    Multiple(t);
  }

  lemma FourAnd(q: int, i: int)
    requires 0 <= i < 4
    ensures (4 * q + i) % 4 == i
  {
  }

  lemma Multiple(t: int)
    ensures SLABSIZE * t % SLABSIZE == 0
  {
  }

  lemma CellAddress(s: int, o: int)
    requires s % SLABSIZE == 0 && 0 <= o < SLABSIZE
    ensures SlabFor(s + o) == s
  {
  }

  // ---------- the map of empty slabs ----------

  predicate HasBit(map4: int, i: int) {
    if i == 0 then map4 % 2 == 1
    else if i == 1 then map4 / 2 % 2 == 1
    else if i == 2 then map4 / 4 % 2 == 1
    else map4 / 8 % 2 == 1
  }

  /** 1 << i for a slab of a page. */
  function BitOf(i: int): (b: int)
    ensures 0 < b <= 8
  {
    if i == 0 then 1 else if i == 1 then 2 else if i == 2 then 4 else 8
  }

  /** HIBIT */
  function HiBit(map4: int): (i: int)
    ensures 0 <= map4 < 16 ==> 0 <= i < 4
  {
    if map4 / 4 % 4 != 0 then 2 + map4 / 8 else map4 / 2
  }

  /** LOWBIT */
  function LowBit(map4: int): int {
    if map4 % 4 != 0 then 1 - map4 % 2 else 3 - map4 / 4 % 2
  }

  lemma HiBitIs(m: int)
    requires 0 < m < 16
    ensures 0 <= HiBit(m) < 4 && HasBit(m, HiBit(m)) && forall i :: HiBit(m) < i < 4 ==> !HasBit(m, i)
  {
  }

  lemma LowBitIs(m: int)
    requires 0 < m < 16
    ensures 0 <= LowBit(m) < 4 && HasBit(m, LowBit(m)) && forall i :: 0 <= i < LowBit(m) ==> !HasBit(m, i)
  {
  }

  /** Setting a clear bit. */
  lemma SetBit(m: int, i: int)
    requires 0 <= m < 16 && 0 <= i < 4 && !HasBit(m, i)
    ensures m + BitOf(i) < 16 && forall j :: 0 <= j < 4 ==> (HasBit(m + BitOf(i), j) <==> HasBit(m, j) || j == i)
    ensures m > 0 ==> HiBit(m + BitOf(i)) == if i > HiBit(m) then i else HiBit(m)
    ensures m == 0 ==> HiBit(BitOf(i)) == i
  {
  }

  /** Clearing a set bit. */
  lemma ClearBit(m: int, i: int)
    requires 0 <= m < 16 && 0 <= i < 4 && HasBit(m, i)
    ensures 0 <= m - BitOf(i) && forall j :: 0 <= j < 4 ==> (HasBit(m - BitOf(i), j) <==> HasBit(m, j) && j != i)
    ensures m - BitOf(i) > 0 && i < HiBit(m) ==> HiBit(m - BitOf(i)) == HiBit(m)
    ensures i == LowBit(m) && m - BitOf(i) > 0 ==> i < HiBit(m)
    ensures m - BitOf(i) == 0 ==> HiBit(m) == i == LowBit(m)
  {
    HiAfter(m, i);
    hide HiBit, LowBit;
  }

  lemma HiAfter(m: int, i: int)
    requires 0 <= m < 16 && 0 <= i < 4 && HasBit(m, i)
    ensures m - BitOf(i) > 0 && i < HiBit(m) ==> HiBit(m - BitOf(i)) == HiBit(m)
    ensures i == LowBit(m) && m - BitOf(i) > 0 ==> i < HiBit(m)
    ensures m - BitOf(i) == 0 ==> HiBit(m) == i == LowBit(m)
  {
  }

  // ---------- the state ----------

  /** A snapshot: header words and bytes by address, the tree each linked slab is in, the slab pages outside the
      spare cache, that cached page or 0, and for the proof the carved cells and the free list of each slab. */
  datatype Slabs = Slabs(header: map<int, int>, bytes: map<int, int>, tree: map<int, int>, pages: set<int>, spare: int,
                         count: map<int, int>, lists: map<int, seq<int>>)

  function Header(v: Slabs, s: int): int {
    if s in v.header then v.header[s] else 0
  }

  function Count(v: Slabs, s: int): int {
    if s in v.count then v.count[s] else 0
  }

  function List(v: Slabs, s: int): seq<int> {
    if s in v.lists then v.lists[s] else []
  }

  function CellsOf(v: Slabs, s: int): Cells {
    Cells(Header(v, s), Count(v, s), List(v, s))
  }

  predicate IsSlab(v: Slabs, s: int) {
    s % SLABSIZE == 0 && PageOf(s) in v.pages
  }

  /** The map of the empty slabs of a page, which is in the header of its first slab. */
  function MapOf(v: Slabs, page: int): int {
    Pagemap(Header(v, page))
  }

  predicate Empty(v: Slabs, s: int) {
    HasBit(MapOf(v, PageOf(s)), Ix(s))
  }

  /** An empty slab of a slab page. */
  predicate Vacant(v: Slabs, s: int) {
    IsSlab(v, s) && Empty(v, s)
  }

  ghost predicate SameVacant(v: Slabs, w: Slabs) {
    forall s {:trigger Vacant(v, s)} {:trigger Vacant(w, s)} :: Vacant(w, s) <==> Vacant(v, s)
  }

  /** The tree for partly used slabs of a cell size. */
  function SizeTree(size: int): int {
    size / 4
  }

  /** Where a slab is: if it is empty, marked so, and in the tree of pages with room just when it is the highest
      empty slab of its page; or filled with cells, and in the tree of its size or in the full list. */
  ghost predicate SlabAt(v: Slabs, s: int) {
    if Empty(v, s) then
      (s in v.tree <==> Ix(s) == HiBit(MapOf(v, PageOf(s)))) && (s in v.tree ==> v.tree[s] == PARTIAL_PAGE)
    else
      var h := Header(v, s);
      && CellsOk(s, CellsOf(v, s), v.bytes) && Size(h) <= MAXSLABSIZE
      && s in v.tree && v.tree[s] == (if Floating(h) then FULL else SizeTree(Size(h)))
      && (Floating(h) ==> List(v, s) == [] && Times(Count(v, s) + 1, Size(h)) > PAYLOAD)
  }

  predicate PageAt(v: Slabs, page: int) {
    IsHeader(Header(v, page)) && page % PAGESIZE == 0 && 0 < page && page + PAGESIZE <= LIMIT && MapOf(v, page) < 15 && page != v.spare
  }

  predicate LinkedAt(v: Slabs, s: int) {
    s in v.tree ==> IsSlab(v, s)
  }

  predicate SpareOk(v: Slabs) {
    v.spare == 0 || (v.spare % PAGESIZE == 0 && 0 < v.spare && v.spare + PAGESIZE <= LIMIT)
  }

  ghost predicate Ok(v: Slabs) {
    && (forall s {:trigger SlabAt(v, s)} :: IsSlab(v, s) ==> SlabAt(v, s))
    && (forall p {:trigger PageAt(v, p)} :: p in v.pages ==> PageAt(v, p))
    && (forall s {:trigger LinkedAt(v, s)} :: LinkedAt(v, s))
    && SpareOk(v)
  }

  lemma SlabIs(v: Slabs, s: int)
    requires Ok(v) && IsSlab(v, s)
    ensures SlabAt(v, s) && PageAt(v, PageOf(s)) && 0 < s < LIMIT
    ensures s == PageOf(s) + SLABSIZE * Ix(s) && PageOf(s) % SLABSIZE == 0
  {
    hide SlabAt, PageOf, Ix;
    assert PageAt(v, PageOf(s));
    SlabAddress(s);
  }

  lemma LinkedIs(v: Slabs, s: int)
    requires Ok(v) && s in v.tree
    ensures IsSlab(v, s)
  {
    hide SlabAt, PageAt;
    assert LinkedAt(v, s);
  }

  /** A cell at address p belongs to a user. */
  ghost predicate IsLiveCell(v: Slabs, p: int) {
    var s := SlabFor(p);
    IsSlab(v, s) && !Empty(v, s) && LiveIn(v, s, p)
  }

  ghost predicate LiveIn(v: Slabs, s: int, p: int) {
    exists k {:trigger IsLive(CellsOf(v, s), k)} :: IsLive(CellsOf(v, s), k) && p == s + Offset(Size(Header(v, s)), k)
  }

  // ---------- one slab changes ----------

  /** Slab s has other cells, and perhaps another byte and another place. */
  function WithSlab(v: Slabs, s: int, c: Cells, bytes: map<int, int>, tree: map<int, int>): (w: Slabs)
    ensures forall x :: Header(w, x) == if x == s then c.h else Header(v, x)
    ensures forall x :: CellsOf(w, x) == if x == s then c else CellsOf(v, x)
    ensures w.bytes == bytes && w.tree == tree && w.pages == v.pages && w.spare == v.spare
  {
    v.(header := v.header[s := c.h], count := v.count[s := c.n], lists := v.lists[s := c.list], bytes := bytes, tree := tree)
  }

  /** The bytes differ only within the cells of slab s. */
  predicate SameOutside(bytes: map<int, int>, bytes': map<int, int>, s: int, o: int, x: int) {
    bytes' == bytes || (bytes' == bytes[s + o := x] && 0 <= o < SLABSIZE)
  }

  lemma WithSlabOk(v: Slabs, s: int, c: Cells, bytes: map<int, int>, id: int, o: int, x: int)
    requires Ok(v) && IsSlab(v, s) && !Empty(v, s) && SameOutside(v.bytes, bytes, s, o, x)
    requires CellsOk(s, c, bytes) && Pagemap(c.h) == Pagemap(Header(v, s)) && Size(c.h) <= MAXSLABSIZE
    requires id == if Floating(c.h) then FULL else SizeTree(Size(c.h))
    requires Floating(c.h) ==> c.list == [] && Times(c.n + 1, Size(c.h)) > PAYLOAD
    ensures Ok(WithSlab(v, s, c, bytes, v.tree[s := id]))
  {
    hide SlabAt, PageAt, WithSlab, Ok, PageOf, Ix, CellsOk, HasBit, HiBit, Pagemap, Size, Floating, Header, CellsOf;
    var w := WithSlab(v, s, c, bytes, v.tree[s := id]);
    MapsStay(v, w, s);
    forall t | IsSlab(w, t) ensures SlabAt(w, t) {
      WithSlabAt(v, s, c, bytes, id, o, x, t);
    }
    forall p | p in w.pages ensures PageAt(w, p) {
      PageIs(v, p);
      HeaderIs(v, p);
      HeaderOfCells(s, c, bytes);
      PageStays(v, w, p);
    }
    forall t ensures LinkedAt(w, t) {
      if t in v.tree {
        LinkedIs(v, t);
      }
    }
    SpareIs(v);
    AllAt(w);
  }

  lemma HeaderOfCells(s: int, c: Cells, bytes: map<int, int>)
    requires CellsOk(s, c, bytes)
    ensures IsHeader(c.h)
  {
  }

  lemma AllAt(w: Slabs)
    requires forall s {:trigger SlabAt(w, s)} :: IsSlab(w, s) ==> SlabAt(w, s)
    requires forall p {:trigger PageAt(w, p)} :: p in w.pages ==> PageAt(w, p)
    requires forall s {:trigger LinkedAt(w, s)} :: LinkedAt(w, s)
    requires SpareOk(w)
    ensures Ok(w)
  {
    hide SlabAt, PageAt, LinkedAt, IsSlab;
  }

  lemma SpareIs(v: Slabs)
    requires Ok(v)
    ensures SpareOk(v)
  {
    hide SlabAt, PageAt, LinkedAt, IsSlab;
  }

  lemma PageIs(v: Slabs, p: int)
    requires Ok(v) && p in v.pages
    ensures PageAt(v, p)
  {
    hide SlabAt;
  }

  lemma PageStays(v: Slabs, w: Slabs, p: int)
    requires PageAt(v, p) && MapOf(w, p) == MapOf(v, p) && w.spare == v.spare && IsHeader(Header(w, p))
    ensures PageAt(w, p)
  {
    hide MapOf, IsHeader, Header;
  }

  /** The maps of the pages stay when the header that changes keeps its map. */
  lemma MapsStay(v: Slabs, w: Slabs, s: int)
    requires (forall x :: Header(w, x) == if x == s then Header(w, s) else Header(v, x)) && Pagemap(Header(w, s)) == Pagemap(Header(v, s))
    ensures forall p {:trigger MapOf(w, p)} :: MapOf(w, p) == MapOf(v, p)
    ensures forall t {:trigger Empty(w, t)} :: Empty(w, t) <==> Empty(v, t)
  {
    hide Pagemap, Header, HasBit;
  }

  lemma VacantStay(v: Slabs, w: Slabs, s: int)
    requires (forall x :: Header(w, x) == if x == s then Header(w, s) else Header(v, x)) && Pagemap(Header(w, s)) == Pagemap(Header(v, s))
    requires w.pages == v.pages
    ensures SameVacant(v, w)
  {
    hide Pagemap, Header, HasBit, Empty;
    MapsStay(v, w, s);
  }

  lemma WithSlabAt(v: Slabs, s: int, c: Cells, bytes: map<int, int>, id: int, o: int, x: int, t: int)
    requires Ok(v) && IsSlab(v, s) && !Empty(v, s) && SameOutside(v.bytes, bytes, s, o, x) && IsSlab(v, t)
    requires CellsOk(s, c, bytes) && Pagemap(c.h) == Pagemap(Header(v, s)) && Size(c.h) <= MAXSLABSIZE
    requires id == if Floating(c.h) then FULL else SizeTree(Size(c.h))
    requires Floating(c.h) ==> c.list == [] && Times(c.n + 1, Size(c.h)) > PAYLOAD
    ensures SlabAt(WithSlab(v, s, c, bytes, v.tree[s := id]), t)
  {
    hide WithSlab, Ok, PageOf, Ix, CellsOk, HasBit, HiBit, Pagemap, Size, Floating, Header;
    var w := WithSlab(v, s, c, bytes, v.tree[s := id]);
    MapsStay(v, w, s);
    SlabIs(v, t);
    if t != s && !Empty(v, t) {
      OtherBytes(t, CellsOf(v, t), v.bytes, bytes, s, o, x);
    }
  }

  /** A byte of another slab does not matter. */
  lemma OtherBytes(t: int, c: Cells, bytes: map<int, int>, bytes': map<int, int>, s: int, o: int, x: int)
    requires CellsOk(t, c, bytes) && SameOutside(bytes, bytes', s, o, x) && t != s && t % SLABSIZE == 0 && s % SLABSIZE == 0
    ensures CellsOk(t, c, bytes')
  {
    hide CountsOk, ListOk, Entry;
    forall i ensures LinkAt(t, c, bytes', i) {
      ListIs(t, c, bytes, i, 0);
      if 0 <= i < |c.list| {
        OffsetOrEnd(c, i);
        SlabsApart(s, o, t, Entry(c, i));
      }
    }
    AllLinked(t, c, bytes');
  }

  lemma AllLinked(s: int, c: Cells, bytes: map<int, int>)
    requires forall i {:trigger LinkAt(s, c, bytes, i)} :: LinkAt(s, c, bytes, i)
    ensures LinksOk(s, c, bytes)
  {
    hide LinkAt;
  }

  lemma SlabsApart(s: int, o: int, t: int, q: int)
    requires s % SLABSIZE == 0 && t % SLABSIZE == 0 && s != t && 0 <= q < SLABSIZE
    ensures 0 <= o < SLABSIZE ==> s + o != t + q
  {
    if 0 <= o < SLABSIZE {
      CellAddress(s, o);
      CellAddress(t, q);
    }
  }

  // ---------- one page changes ----------

  /** Nothing changes outside the slabs of this page. */
  ghost predicate SameElsewhere(v: Slabs, w: Slabs, page: int) {
    && (forall x {:trigger CellsOf(w, x)} :: PageOf(x) != page ==> CellsOf(w, x) == CellsOf(v, x))
    && (forall x {:trigger Header(w, x)} :: PageOf(x) != page ==> Header(w, x) == Header(v, x))
    && (forall x {:trigger x in w.tree} {:trigger x in v.tree} :: PageOf(x) != page ==>
          (x in w.tree <==> x in v.tree) && (x in w.tree ==> w.tree[x] == v.tree[x]))
    && (forall p {:trigger p in w.pages} {:trigger p in v.pages} :: p != page ==> (p in w.pages <==> p in v.pages))
    && w.bytes == v.bytes
  }

  lemma PageChanged(v: Slabs, w: Slabs, page: int)
    requires Ok(v) && SameElsewhere(v, w, page) && page % PAGESIZE == 0 && SpareOk(w)
    requires w.spare == v.spare || (w.spare !in w.pages)
    requires page in w.pages ==> PageAt(w, page)
    requires page in w.pages ==> forall t {:trigger SlabAt(w, t)} :: t % SLABSIZE == 0 && PageOf(t) == page ==> SlabAt(w, t)
    requires forall t {:trigger LinkedAt(w, t)} :: PageOf(t) == page ==> LinkedAt(w, t)
    ensures Ok(w)
  {
    hide SlabAt, PageAt, Ok, PageOf, SameElsewhere, Header;
    forall t | IsSlab(w, t) ensures SlabAt(w, t) {
      SlabAddress(t);
      if PageOf(t) != page {
        ElsewhereAt(v, w, page, t);
      }
    }
    forall p | p in w.pages ensures PageAt(w, p) {
      if p != page {
        ElsewherePage(v, w, page, p);
      }
    }
    forall t ensures LinkedAt(w, t) {
      if PageOf(t) != page && t in w.tree {
        ElsewhereLinked(v, w, page, t);
      }
    }
    AllAt(w);
  }

  lemma ElsewhereAt(v: Slabs, w: Slabs, page: int, t: int)
    requires Ok(v) && SameElsewhere(v, w, page) && IsSlab(w, t) && PageOf(t) != page
    ensures SlabAt(w, t)
  {
    hide Ok, PageOf, Ix, CellsOk, HasBit, HiBit, Pagemap, Size, Floating, Header;
    SlabIs(v, t);
    SlabAddress(t);
    hide PageAt;
    PageAddressOf(PageOf(t));
  }

  lemma PageAddressOf(p: int)
    requires p % PAGESIZE == 0
    ensures PageOf(p) == p
  {
  }

  lemma ElsewherePage(v: Slabs, w: Slabs, page: int, p: int)
    requires Ok(v) && SameElsewhere(v, w, page) && p in w.pages && p != page
    requires w.spare == v.spare || (w.spare !in w.pages)
    ensures PageAt(w, p)
  {
    hide Ok, Header;
    PageIs(v, p);
    PageAddressOf(p);
    hide PageOf;
  }

  lemma ElsewhereLinked(v: Slabs, w: Slabs, page: int, t: int)
    requires Ok(v) && SameElsewhere(v, w, page) && t in w.tree && PageOf(t) != page
    ensures IsSlab(w, t)
  {
    hide Ok, Header, PageOf;
    LinkedIs(v, t);
  }

  /** Cells on other pages stay as they are. */
  lemma LiveElsewhere(v: Slabs, w: Slabs, page: int, q: int)
    requires SameElsewhere(v, w, page) && PageOf(SlabFor(q)) != page && page % PAGESIZE == 0
    ensures IsLiveCell(w, q) <==> IsLiveCell(v, q)
    ensures Header(w, SlabFor(q)) == Header(v, SlabFor(q))
  {
    hide Header, HasBit, Pagemap, Size, IsLive, Offset, CellsOf;
    var s := SlabFor(q);
    SlabForAligned(q);
    SlabAddress(s);
    PageAddressOf(PageOf(s));
    hide PageOf, Ix;
    if LiveIn(v, s, q) {
      assert LiveIn(w, s, q) by { SameLive(v, w, s, q); }
    }
    if LiveIn(w, s, q) {
      SameLive(w, v, s, q);
    }
  }

  lemma SlabForAligned(q: int)
    ensures SlabFor(q) % SLABSIZE == 0
  {
    var t := q / SLABSIZE;
    assert SlabFor(q) == SLABSIZE * t;
  }

  lemma SameLive(v: Slabs, w: Slabs, s: int, q: int)
    requires CellsOf(w, s) == CellsOf(v, s) && Header(w, s) == Header(v, s) && LiveIn(v, s, q)
    ensures LiveIn(w, s, q)
  {
    hide CellsOf, Header, IsLive, Offset;
  }

  // ---------- a slab becomes empty ----------

  /** The slab that links a page into the tree of pages with room. */
  function LinkSlab(v: Slabs, page: int): int {
    page + SLABSIZE * HiBit(MapOf(v, page))
  }

  /** The header of a page with one more bit in its map, or one less. */
  function MapChanged(v: Slabs, page: int, m: int): int {
    Header(v, page) + (m - MapOf(v, page)) * 0x100
  }

  function EmptiedTree(v: Slabs, s: int): map<int, int> {
    var link := LinkSlab(v, PageOf(s));
    if MapOf(v, PageOf(s)) == 0 then (v.tree - {s})[s := PARTIAL_PAGE]
    else if s > link then (v.tree - {s} - {link})[s := PARTIAL_PAGE]
    else v.tree - {s}
  }

  /** Slab s, whose last cell has gone, is marked empty, and other slabs of its page are still in use. */
  function Emptied(v: Slabs, s: int): (w: Slabs)
    ensures forall x {:trigger Header(w, x)} :: Header(w, x) ==
              if x == PageOf(s) then MapChanged(v, x, MapOf(v, x) + BitOf(Ix(s))) else Header(v, x)
    ensures forall x {:trigger CellsOf(w, x)} :: CellsOf(w, x) == CellsOf(v, x).(h := Header(w, x))
    ensures w.bytes == v.bytes && w.tree == EmptiedTree(v, s) && w.pages == v.pages && w.spare == v.spare
  {
    var p := PageOf(s);
    v.(header := v.header[p := MapChanged(v, p, MapOf(v, p) + BitOf(Ix(s)))], tree := EmptiedTree(v, s))
  }

  lemma EmptiedOk(v: Slabs, s: int)
    requires Ok(v) && IsSlab(v, s) && !Empty(v, s) && MapOf(v, PageOf(s)) + BitOf(Ix(s)) != 15
    ensures Ok(Emptied(v, s))
  {
    hide SlabAt, Ok, PageOf, Ix, HiBit, HasBit, Pagemap, Header, CellsOf, EmptiedTree, BitOf, MapChanged, Emptied, SameElsewhere;
    var w, page := Emptied(v, s), PageOf(s);
    EmptiedMap(v, s);
    SlabIs(v, s);
    SpareIs(v);
    EmptiedElsewhere(v, s);
    forall t | t % SLABSIZE == 0 && PageOf(t) == page ensures SlabAt(w, t) {
      EmptiedAt(v, s, t);
    }
    forall t | PageOf(t) == page ensures LinkedAt(w, t) {
      EmptiedLinked(v, s, t);
    }
    PageChanged(v, w, page);
  }

  /** The map of the page after the change. */
  lemma EmptiedMap(v: Slabs, s: int)
    requires Ok(v) && IsSlab(v, s) && !Empty(v, s)
    ensures var p := PageOf(s); var m := MapOf(v, p) + BitOf(Ix(s));
      && MapOf(Emptied(v, s), p) == m && 0 < m < 16 && IsHeader(MapChanged(v, p, m)) && p % PAGESIZE == 0 && PageOf(p) == p
      && Size(MapChanged(v, p, m)) == Size(Header(v, p)) && Free(MapChanged(v, p, m)) == Free(Header(v, p))
      && Usedm4(MapChanged(v, p, m)) == Usedm4(Header(v, p)) && (Floating(MapChanged(v, p, m)) <==> Floating(Header(v, p)))
  {
    hide Ok, PageOf, Ix, HiBit, Header, CellsOf, EmptiedTree, BitOf, HasBit, Emptied, Pagemap, Size, Free, Usedm4, Floating, IsHeader;
    SlabIs(v, s);
    PageAddressOf(PageOf(s));
    HeaderIs(v, PageOf(s));
    SetBit(MapOf(v, PageOf(s)), Ix(s));
    WordMap(Header(v, PageOf(s)), MapOf(v, PageOf(s)) + BitOf(Ix(s)));
  }

  lemma EmptiedElsewhere(v: Slabs, s: int)
    requires Ok(v) && IsSlab(v, s) && PageOf(PageOf(s)) == PageOf(s)
    ensures SameElsewhere(v, Emptied(v, s), PageOf(s))
  {
    hide Ok, Ix, HiBit, HasBit, Header, BitOf, Emptied, MapOf, PageOf, MapChanged;
    SlabIs(v, s);
    LinkPage(v, PageOf(s));
  }

  lemma LinkPage(v: Slabs, p: int)
    requires p % PAGESIZE == 0
    ensures var l := LinkSlab(v, p); PageOf(l) == p && Ix(l) == HiBit(MapOf(v, p)) && l % SLABSIZE == 0
  {
    hide HiBit, Header;
    PageAddress(p, HiBit(MapOf(v, p)));
  }

  /** The word of every page is a header word whose map field has room. */
  lemma HeaderIs(v: Slabs, page: int)
    requires Ok(v) && page in v.pages
    ensures IsHeader(Header(v, page)) && 0 <= MapOf(v, page) < 15
  {
    hide SlabAt;
    assert PageAt(v, page);
  }

  lemma EmptiedAt(v: Slabs, s: int, t: int)
    requires Ok(v) && IsSlab(v, s) && !Empty(v, s) && MapOf(v, PageOf(s)) + BitOf(Ix(s)) != 15
    requires t % SLABSIZE == 0 && PageOf(t) == PageOf(s)
    ensures SlabAt(Emptied(v, s), t)
  {
    hide Ok, PageOf, Ix, HiBit, HasBit, Pagemap, Header, BitOf, MapChanged, Emptied, CellsOk, Size, Floating, Free, Usedm4, IsHeader;
    var w, page := Emptied(v, s), PageOf(s);
    EmptiedMap(v, s);
    SlabIs(v, s);
    SlabIs(v, t);
    LinkPage(v, page);
    HeaderIs(v, page);
    var m := MapOf(v, page);
    SetBit(m, Ix(s));
    if m > 0 {
      HiBitIs(m);
    }
    if t != s {
      assert Ix(t) != Ix(s);
      if Empty(v, t) {
        EmptiedLink(v, s, t);
      } else {
        EmptiedCells(v, s, t);
        SameLists(v, w, t);
      }
    }
  }

  /** The headers of the other slabs keep their cells. */
  lemma EmptiedCells(v: Slabs, s: int, t: int)
    requires Ok(v) && IsSlab(v, s) && !Empty(v, s) && IsSlab(v, t) && PageOf(t) == PageOf(s) && !Empty(v, t)
    ensures var h := Header(Emptied(v, s), t);
      && CellsOk(t, CellsOf(Emptied(v, s), t), v.bytes) && Size(h) == Size(Header(v, t)) && (Floating(h) <==> Floating(Header(v, t)))
  {
    hide Ok, PageOf, Ix, HiBit, HasBit, Pagemap, Header, BitOf, MapChanged, Emptied, CellsOk, Size, Floating, Free, Usedm4, IsHeader;
    EmptiedMap(v, s);
    SlabIs(v, t);
    HeaderOfCells(t, CellsOf(v, t), v.bytes);
    CellsHeader(v, t);
    MapDoesNotMatter(t, CellsOf(v, t), Header(Emptied(v, s), t), v.bytes);
  }

  /** An empty slab that was not the link, or no longer is. */
  lemma EmptiedLink(v: Slabs, s: int, t: int)
    requires Ok(v) && IsSlab(v, s) && !Empty(v, s) && IsSlab(v, t) && PageOf(t) == PageOf(s) && Empty(v, t) && t != s
    ensures var w := Emptied(v, s); t in w.tree <==> Ix(t) == HiBit(MapOf(v, PageOf(s)) + BitOf(Ix(s)))
    ensures t in Emptied(v, s).tree ==> Emptied(v, s).tree[t] == PARTIAL_PAGE
  {
    hide Ok, PageOf, Ix, HiBit, HasBit, Pagemap, Header, BitOf, MapChanged, Emptied;
    var page := PageOf(s);
    SlabIs(v, s);
    SlabIs(v, t);
    LinkPage(v, page);
    HeaderIs(v, page);
    SetBit(MapOf(v, page), Ix(s));
    if MapOf(v, page) == 0 {
      NoBits(Ix(t));
    }
  }

  lemma SameLists(v: Slabs, w: Slabs, t: int)
    requires CellsOf(w, t) == CellsOf(v, t).(h := Header(w, t))
    ensures List(w, t) == List(v, t) && Count(w, t) == Count(v, t)
  {
  }

  lemma CellsHeader(v: Slabs, t: int)
    ensures CellsOf(v, t).h == Header(v, t)
  {
  }

  lemma NoBits(i: int)
    requires 0 <= i < 4
    ensures !HasBit(0, i)
  {
  }

  lemma EmptiedLinked(v: Slabs, s: int, t: int)
    requires Ok(v) && IsSlab(v, s) && PageOf(t) == PageOf(s)
    ensures LinkedAt(Emptied(v, s), t)
  {
    hide Ok, PageOf, Ix, HiBit, HasBit, Pagemap, Header, BitOf, MapChanged, Emptied;
    if t in v.tree {
      LinkedIs(v, t);
    }
  }

  // ---------- a page becomes empty ----------

  /** The last slab in use of its page has become empty, and the page is not a slab page any more. */
  function PageGone(v: Slabs, s: int, spare: int): Slabs {
    var page := PageOf(s);
    v.(header := v.header[page := MapChanged(v, page, MapOf(v, page) + BitOf(Ix(s)))], pages := v.pages - {page},
       tree := v.tree - {s} - {LinkSlab(v, page)}, spare := spare)
  }

  lemma PageGoneOk(v: Slabs, s: int)
    requires Ok(v) && IsSlab(v, s) && !Empty(v, s) && MapOf(v, PageOf(s)) + BitOf(Ix(s)) == 15
    ensures Ok(PageGone(v, s, if v.spare == 0 then PageOf(s) else v.spare))
    ensures forall t :: IsSlab(v, t) && PageOf(t) == PageOf(s) && t != s ==> Empty(v, t)
  {
    hide SlabAt, Ok, Ix, HiBit, HasBit, Pagemap, Header, CellsOf, BitOf, SameElsewhere, MapOf;
    var page := PageOf(s);
    var w := PageGone(v, s, if v.spare == 0 then page else v.spare);
    SlabIs(v, s);
    SpareIs(v);
    PageIs(v, page);
    PageGoneElsewhere(v, s, w.spare);
    forall t | t % SLABSIZE == 0 && PageOf(t) == page && t != s ensures Empty(v, t) {
      OthersEmpty(v, s, t);
    }
    forall t | PageOf(t) == page ensures LinkedAt(w, t) {
      PageGoneUnlinked(v, s, t);
    }
    PageChanged(v, w, page);
  }

  lemma PageGoneElsewhere(v: Slabs, s: int, spare: int)
    requires Ok(v) && IsSlab(v, s)
    ensures SameElsewhere(v, PageGone(v, s, spare), PageOf(s))
  {
    hide Ok, Ix, HiBit, HasBit, BitOf, PageOf, Pagemap, MapChanged;
    SlabIs(v, s);
    SlabAddress(s);
    LinkPage(v, PageOf(s));
    PageAddressOf(PageOf(s));
  }

  lemma OthersEmpty(v: Slabs, s: int, t: int)
    requires Ok(v) && IsSlab(v, s) && !Empty(v, s) && MapOf(v, PageOf(s)) + BitOf(Ix(s)) == 15
    requires t % SLABSIZE == 0 && PageOf(t) == PageOf(s) && t != s
    ensures Empty(v, t)
  {
    hide Ok, Header, PageOf, Pagemap;
    SlabIs(v, s);
    SlabIs(v, t);
    HeaderIs(v, PageOf(s));
    SlabAddress(s);
    SlabAddress(t);
    AllButOne(MapOf(v, PageOf(s)), Ix(s), Ix(t));
  }

  lemma AllButOne(m: int, i: int, j: int)
    requires 0 <= m < 16 && 0 <= i < 4 && 0 <= j < 4 && m + BitOf(i) == 15 && !HasBit(m, i) && j != i
    ensures HasBit(m, j)
  {
  }

  lemma PageGoneUnlinked(v: Slabs, s: int, t: int)
    requires Ok(v) && IsSlab(v, s) && !Empty(v, s) && MapOf(v, PageOf(s)) + BitOf(Ix(s)) == 15 && PageOf(t) == PageOf(s)
    ensures t !in PageGone(v, s, 0).tree
  {
    hide Ok, Header, PageOf, Pagemap, Ix, HiBit, HasBit, BitOf;
    if t in v.tree && t != s {
      LinkedIs(v, t);
      SlabIs(v, s);
      SlabIs(v, t);
      SlabAddress(t);
      OthersEmpty(v, s, t);
      LinkPage(v, PageOf(s));
      SlabAddress(LinkSlab(v, PageOf(s)));
    }
  }

  // ---------- an empty slab is filled ----------

  /** Slab s, the lowest empty slab of its page, holds one cell in use. */
  function Filled(v: Slabs, s: int, size: int): (w: Slabs)
    ensures forall x {:trigger Header(w, x)} :: Header(w, x) ==
              if x == s then FilledHeader(v, s, size)
              else if x == PageOf(s) then MapChanged(v, x, MapOf(v, x) - BitOf(Ix(s))) else Header(v, x)
    ensures forall x {:trigger CellsOf(w, x)} :: CellsOf(w, x) ==
              if x == s then Cells(FilledHeader(v, s, size), 1, []) else CellsOf(v, x).(h := Header(w, x))
    ensures w.bytes == v.bytes && w.tree == FilledTree(v, s, size) && w.pages == v.pages && w.spare == v.spare
  {
    var p := PageOf(s);
    v.(header := v.header[p := MapChanged(v, p, MapOf(v, p) - BitOf(Ix(s)))][s := FilledHeader(v, s, size)],
       count := v.count[s := 1], lists := v.lists[s := []], tree := FilledTree(v, s, size))
  }

  function FilledHeader(v: Slabs, s: int, size: int): int {
    var p := PageOf(s);
    Fresh(if s == p then MapChanged(v, p, MapOf(v, p) - BitOf(Ix(s))) else Header(v, s), size).h
  }

  function FilledTree(v: Slabs, s: int, size: int): map<int, int> {
    (if MapOf(v, PageOf(s)) == BitOf(Ix(s)) then v.tree - {s} else v.tree)[s := SizeTree(size)]
  }

  predicate CanFill(v: Slabs, s: int, size: int) {
    IsSlab(v, s) && Empty(v, s) && Ix(s) == LowBit(MapOf(v, PageOf(s))) && size % 4 == 0 && 4 <= size <= MAXSLABSIZE
  }

  lemma FilledOk(v: Slabs, s: int, size: int)
    requires Ok(v) && CanFill(v, s, size)
    ensures Ok(Filled(v, s, size))
  {
    hide SlabAt, Ok, PageOf, Ix, HiBit, LowBit, HasBit, Pagemap, Header, CellsOf, FilledTree, FilledHeader, BitOf, MapChanged, Filled;
    hide SameElsewhere;
    var w, page := Filled(v, s, size), PageOf(s);
    FilledMap(v, s, size);
    SlabIs(v, s);
    SpareIs(v);
    FilledElsewhere(v, s, size);
    forall t | t % SLABSIZE == 0 && PageOf(t) == page ensures SlabAt(w, t) {
      FilledAt(v, s, size, t);
    }
    forall t | PageOf(t) == page ensures LinkedAt(w, t) {
      FilledLinked(v, s, size, t);
    }
    PageChanged(v, w, page);
  }

  lemma FilledMap(v: Slabs, s: int, size: int)
    requires Ok(v) && CanFill(v, s, size)
    ensures var p := PageOf(s); var m := MapOf(v, p) - BitOf(Ix(s)); var g := MapChanged(v, p, m); var w := Filled(v, s, size);
      && MapOf(w, p) == m && 0 <= m < 15 && IsHeader(g) && IsHeader(Header(w, p)) && PageOf(p) == p && p % PAGESIZE == 0
      && Size(g) == Size(Header(v, p)) && Free(g) == Free(Header(v, p))
      && Usedm4(g) == Usedm4(Header(v, p)) && (Floating(g) <==> Floating(Header(v, p)))
      && CellsOk(s, CellsOf(w, s), v.bytes) && Size(Header(w, s)) == size && !Floating(Header(w, s))
  {
    hide Ok, PageOf, Ix, HiBit, LowBit, Header, CellsOf, FilledTree, BitOf, HasBit, Filled, Pagemap, Size, Free, Usedm4, Floating;
    hide IsHeader, Fresh;
    var p := PageOf(s);
    SlabIs(v, s);
    PageAddressOf(p);
    HeaderIs(v, p);
    ClearBit(MapOf(v, p), Ix(s));
    WordMap(Header(v, p), MapOf(v, p) - BitOf(Ix(s)));
    var h := if s == p then MapChanged(v, p, MapOf(v, p) - BitOf(Ix(s))) else Header(v, s);
    FreshOk(s, h, size, v.bytes);
    FreshIs(h, size);
    HeaderOfCells(s, Fresh(h, size), v.bytes);
  }

  lemma FreshIs(h: int, size: int)
    ensures Fresh(h, size) == Cells(Fresh(h, size).h, 1, [])
  {
  }

  lemma FilledElsewhere(v: Slabs, s: int, size: int)
    requires Ok(v) && IsSlab(v, s) && PageOf(PageOf(s)) == PageOf(s)
    ensures SameElsewhere(v, Filled(v, s, size), PageOf(s))
  {
    hide Ok, Ix, HiBit, HasBit, Header, BitOf, Filled, MapOf, PageOf, MapChanged, FilledHeader;
  }

  lemma FilledAt(v: Slabs, s: int, size: int, t: int)
    requires Ok(v) && CanFill(v, s, size) && t % SLABSIZE == 0 && PageOf(t) == PageOf(s)
    ensures SlabAt(Filled(v, s, size), t)
  {
    hide Ok, PageOf, Ix, HiBit, LowBit, HasBit, Pagemap, Header, BitOf, MapChanged, Filled, FilledHeader, CellsOf, Size, Floating, Free, Usedm4;
    hide IsHeader;
    var w, page := Filled(v, s, size), PageOf(s);
    FilledMap(v, s, size);
    SlabIs(v, s);
    SlabIs(v, t);
    LinkPage(v, page);
    HeaderIs(v, page);
    var m := MapOf(v, page);
    ClearBit(m, Ix(s));
    NoBits(Ix(t));
    if t != s {
      if !Empty(v, t) {
        FilledCells(v, s, size, t);
        SameLists(v, w, t);
      }
    }
  }

  lemma FilledCells(v: Slabs, s: int, size: int, t: int)
    requires Ok(v) && CanFill(v, s, size) && IsSlab(v, t) && PageOf(t) == PageOf(s) && !Empty(v, t) && t != s
    ensures var h := Header(Filled(v, s, size), t);
      && CellsOk(t, CellsOf(Filled(v, s, size), t), v.bytes) && Size(h) == Size(Header(v, t)) && (Floating(h) <==> Floating(Header(v, t)))
  {
    hide Ok, PageOf, Ix, HiBit, LowBit, HasBit, Pagemap, Header, BitOf, MapChanged, Filled, FilledHeader, CellsOk, Size, Floating, Free, Usedm4, IsHeader;
    FilledMap(v, s, size);
    SlabIs(v, t);
    HeaderOfCells(t, CellsOf(v, t), v.bytes);
    CellsHeader(v, t);
    MapDoesNotMatter(t, CellsOf(v, t), Header(Filled(v, s, size), t), v.bytes);
  }

  lemma FilledLinked(v: Slabs, s: int, size: int, t: int)
    requires Ok(v) && IsSlab(v, s) && PageOf(t) == PageOf(s)
    ensures LinkedAt(Filled(v, s, size), t)
  {
    hide Ok, PageOf, Ix, HiBit, HasBit, Pagemap, Header, BitOf, MapChanged, Filled, FilledHeader;
    if t in v.tree {
      LinkedIs(v, t);
    }
  }

  // ---------- a new page ----------

  /** A page that was not a slab page has its first slab in use and the other three empty. */
  function NewPage(v: Slabs, page: int, size: int, spare: int): (w: Slabs)
    ensures forall x {:trigger Header(w, x)} :: Header(w, x) == if x == page then Fresh(0xE00, size).h else Header(v, x)
    ensures forall x {:trigger CellsOf(w, x)} :: CellsOf(w, x) == if x == page then Fresh(0xE00, size) else CellsOf(v, x)
    ensures w.bytes == v.bytes && w.tree == v.tree[page + 3 * SLABSIZE := PARTIAL_PAGE][page := SizeTree(size)]
    ensures w.pages == v.pages + {page} && w.spare == spare
  {
    v.(header := v.header[page := Fresh(0xE00, size).h], count := v.count[page := 1], lists := v.lists[page := []],
       tree := v.tree[page + 3 * SLABSIZE := PARTIAL_PAGE][page := SizeTree(size)], pages := v.pages + {page}, spare := spare)
  }

  predicate CanAdd(v: Slabs, page: int) {
    page % PAGESIZE == 0 && 0 < page && page + PAGESIZE <= LIMIT && page !in v.pages
  }

  lemma NewPageOk(v: Slabs, page: int, size: int, spare: int)
    requires Ok(v) && CanAdd(v, page) && size % 4 == 0 && 4 <= size <= MAXSLABSIZE
    requires spare == 0 || (spare == v.spare && spare != page)
    ensures Ok(NewPage(v, page, size, spare))
  {
    hide SlabAt, Ok, PageOf, Ix, HiBit, HasBit, Pagemap, Header, CellsOf, NewPage, SameElsewhere, Fresh;
    var w := NewPage(v, page, size, spare);
    SpareIs(v);
    PageAddressOf(page);
    NewPageElsewhere(v, page, size, spare);
    NewPageMap(v, page, size, spare);
    forall t | t % SLABSIZE == 0 && PageOf(t) == page ensures SlabAt(w, t) {
      NewPageAt(v, page, size, spare, t);
    }
    forall t | PageOf(t) == page ensures LinkedAt(w, t) {
      NewPageLinked(v, page, size, spare, t);
    }
    NoPageZero(v, w);
    PageChanged(v, w, page);
  }

  lemma NoPageZero(v: Slabs, w: Slabs)
    requires Ok(v) && w.pages > v.pages && (forall p :: p in w.pages && p !in v.pages ==> p > 0)
    ensures 0 !in w.pages
  {
    hide SlabAt;
    if 0 in v.pages {
      PageIs(v, 0);
    }
  }

  lemma NewPageElsewhere(v: Slabs, page: int, size: int, spare: int)
    requires Ok(v) && CanAdd(v, page) && PageOf(page) == page
    ensures SameElsewhere(v, NewPage(v, page, size, spare), page)
  {
    hide Ok, Header, NewPage, PageOf, CellsOf, Fresh;
    PageAddress(page, 3);
  }

  lemma NewPageMap(v: Slabs, page: int, size: int, spare: int)
    requires Ok(v) && CanAdd(v, page) && size % 4 == 0 && 4 <= size <= MAXSLABSIZE
    ensures var w := NewPage(v, page, size, spare);
      && MapOf(w, page) == 14 && IsHeader(Header(w, page)) && CellsOk(page, CellsOf(w, page), v.bytes)
      && Size(Header(w, page)) == size && !Floating(Header(w, page))
  {
    hide Ok, Header, NewPage, CellsOf, Fresh, Size, Floating, IsHeader;
    FreshOk(page, 0xE00, size, v.bytes);
    HeaderOfCells(page, Fresh(0xE00, size), v.bytes);
  }

  lemma NewPageAt(v: Slabs, page: int, size: int, spare: int, t: int)
    requires Ok(v) && CanAdd(v, page) && size % 4 == 0 && 4 <= size <= MAXSLABSIZE
    requires t % SLABSIZE == 0 && PageOf(t) == page
    ensures SlabAt(NewPage(v, page, size, spare), t)
  {
    hide Ok, Header, NewPage, CellsOf, Fresh, Size, Floating, PageOf, Ix, HasBit, HiBit, Pagemap, CellsOk;
    NewPageMap(v, page, size, spare);
    SlabAddress(t);
    Fourteen(Ix(t));
    if t in v.tree {
      LinkedIs(v, t);
    }
  }

  lemma Fourteen(i: int)
    requires 0 <= i < 4
    ensures (HasBit(14, i) <==> i != 0) && HiBit(14) == 3
  {
  }

  lemma NewPageLinked(v: Slabs, page: int, size: int, spare: int, t: int)
    requires Ok(v) && CanAdd(v, page) && PageOf(t) == page
    ensures LinkedAt(NewPage(v, page, size, spare), t)
  {
    hide Ok, Header, NewPage, CellsOf, Fresh, PageOf;
    PageAddress(page, 3);
    PageAddress(page, 0);
    if t in v.tree {
      LinkedIs(v, t);
    }
  }

  // ---------- which cells are in use ----------

  function CellSize(v: Slabs, q: int): int {
    Size(Header(v, SlabFor(q)))
  }

  /** The cells in use are the same but for p, which has become one. */
  ghost predicate Gained(v: Slabs, w: Slabs, p: int) {
    && !IsLiveCell(v, p)
    && (forall q {:trigger IsLiveCell(w, q)} :: IsLiveCell(w, q) <==> IsLiveCell(v, q) || q == p)
    && (forall q {:trigger IsLiveCell(v, q)} :: IsLiveCell(v, q) ==> CellSize(w, q) == CellSize(v, q))
  }

  /** The cells in use are the same but for p, which is one no more. */
  ghost predicate Lost(v: Slabs, w: Slabs, p: int) {
    && IsLiveCell(v, p)
    && (forall q {:trigger IsLiveCell(w, q)} :: IsLiveCell(w, q) <==> IsLiveCell(v, q) && q != p)
    && (forall q {:trigger IsLiveCell(w, q)} :: IsLiveCell(w, q) ==> CellSize(w, q) == CellSize(v, q))
  }

  ghost predicate SameLives(v: Slabs, w: Slabs) {
    && (forall q {:trigger IsLiveCell(w, q)} :: IsLiveCell(w, q) <==> IsLiveCell(v, q))
    && (forall q {:trigger IsLiveCell(w, q)} :: IsLiveCell(w, q) ==> CellSize(w, q) == CellSize(v, q))
  }

  /** Cell k of these cells is at q. */
  ghost predicate LiveAt(c: Cells, s: int, q: int) {
    exists k {:trigger IsLive(c, k)} :: IsLive(c, k) && q == s + Offset(Size(c.h), k)
  }

  lemma WithSlabCell(v: Slabs, s: int, c: Cells, bytes: map<int, int>, tree: map<int, int>, q: int)
    requires IsSlab(v, s) && !Empty(v, s) && Pagemap(c.h) == Pagemap(Header(v, s))
    ensures var w := WithSlab(v, s, c, bytes, tree);
      && (SlabFor(q) != s ==> (IsLiveCell(w, q) <==> IsLiveCell(v, q)) && CellSize(w, q) == CellSize(v, q))
      && (SlabFor(q) == s ==> (IsLiveCell(w, q) <==> LiveAt(c, s, q)) && (IsLiveCell(v, q) <==> LiveAt(CellsOf(v, s), s, q))
                              && CellSize(w, q) == Size(c.h))
  {
    hide WithSlab, Pagemap, PageOf, Ix, HasBit, IsLive, Offset, Header, CellsOf, SlabFor, Size;
    var w := WithSlab(v, s, c, bytes, tree);
    MapsStay(v, w, s);
    CellsHeader(v, s);
    CellsHeader(w, s);
    var t := SlabFor(q);
    if t != s {
      if LiveIn(v, t, q) { SameLive(v, w, t, q); }
      if LiveIn(w, t, q) { SameLive(w, v, t, q); }
    }
  }

  /** A cell of a slab lies in that slab. */
  lemma CellIn(c: Cells, s: int, bytes: map<int, int>, q: int)
    requires CellsOk(s, c, bytes) && LiveAt(c, s, q) && s % SLABSIZE == 0
    ensures SlabFor(q) == s
  {
    hide Offset, SlabFor, Size, ListOk, LinksOk;
    var k :| IsLive(c, k) && q == s + Offset(Size(c.h), k);
    OffsetIs(c, k);
    CellAddress(s, Offset(Size(c.h), k));
  }

  lemma GainedOne(v: Slabs, s: int, c: Cells, bytes: map<int, int>, tree: map<int, int>, k0: int)
    requires IsSlab(v, s) && !Empty(v, s) && Pagemap(c.h) == Pagemap(Header(v, s)) && Size(c.h) == Size(Header(v, s))
    requires CellsOk(s, CellsOf(v, s), v.bytes) && CellsOk(s, c, bytes)
    requires !IsLive(CellsOf(v, s), k0) && forall k {:trigger IsLive(c, k)} :: IsLive(c, k) <==> IsLive(CellsOf(v, s), k) || k == k0
    ensures Gained(v, WithSlab(v, s, c, bytes, tree), s + Offset(Size(c.h), k0))
  {
    hide WithSlab, Pagemap, IsLive, Offset, Header, CellsOf, SlabFor, Size, IsLiveCell, CellsOk, Empty, IsSlab, LiveAt, CellSize;
    var w, d := WithSlab(v, s, c, bytes, tree), CellsOf(v, s);
    var p := s + Offset(Size(c.h), k0);
    SizeOfCells(c, s, bytes);
    CellsHeader(v, s);
    assert IsLive(c, k0);
    assert LiveAt(c, s, p) by { LiveAtIs(c, s, k0); }
    SlabIsAligned(v, s);
    CellIn(c, s, bytes, p);
    WithSlabCell(v, s, c, bytes, tree, p);
    if LiveAt(d, s, p) {
      OneCell(d, c, s, k0);
    }
    forall q ensures IsLiveCell(w, q) <==> IsLiveCell(v, q) || q == p {
      WithSlabCell(v, s, c, bytes, tree, q);
      if SlabFor(q) == s {
        MoreLive(d, c, s, k0, q);
      }
    }
    forall q | IsLiveCell(v, q) ensures CellSize(w, q) == CellSize(v, q) {
      WithSlabCell(v, s, c, bytes, tree, q);
      SizeAt(v, s, q);
    }
  }

  lemma SizeAt(v: Slabs, s: int, q: int)
    ensures SlabFor(q) == s ==> CellSize(v, q) == Size(Header(v, s))
  {
  }

  lemma SlabIsAligned(v: Slabs, s: int)
    requires IsSlab(v, s)
    ensures s % SLABSIZE == 0
  {
  }

  lemma LiveAtIs(c: Cells, s: int, k: int)
    requires IsLive(c, k)
    ensures LiveAt(c, s, s + Offset(Size(c.h), k))
  {
    hide IsLive, Offset, Size;
  }

  lemma SizeOfCells(c: Cells, s: int, bytes: map<int, int>)
    requires CellsOk(s, c, bytes)
    ensures Size(c.h) >= 4
  {
  }

  /** Two cells at one place are one cell. */
  lemma OneCell(d: Cells, c: Cells, s: int, k0: int)
    requires LiveAt(d, s, s + Offset(Size(c.h), k0)) && Size(d.h) == Size(c.h) >= 4
    ensures IsLive(d, k0)
  {
    hide IsLive, Offset, Size;
    var k :| IsLive(d, k) && s + Offset(Size(c.h), k0) == s + Offset(Size(d.h), k);
    if k != k0 {
      DifferentCells(c, k, k0);
    }
  }

  lemma MoreLive(d: Cells, c: Cells, s: int, k0: int, q: int)
    requires Size(d.h) == Size(c.h) && forall k {:trigger IsLive(c, k)} :: IsLive(c, k) <==> IsLive(d, k) || k == k0
    ensures LiveAt(c, s, q) <==> LiveAt(d, s, q) || q == s + Offset(Size(c.h), k0)
  {
    hide IsLive, Offset, Size;
    if LiveAt(c, s, q) {
      var k :| IsLive(c, k) && q == s + Offset(Size(c.h), k);
      assert IsLive(d, k) || k == k0;
    }
    if LiveAt(d, s, q) {
      var k :| IsLive(d, k) && q == s + Offset(Size(d.h), k);
      assert IsLive(c, k);
    }
    if q == s + Offset(Size(c.h), k0) {
      assert IsLive(c, k0);
    }
  }

  lemma LostOne(v: Slabs, s: int, c: Cells, bytes: map<int, int>, tree: map<int, int>, k0: int)
    requires IsSlab(v, s) && !Empty(v, s) && Pagemap(c.h) == Pagemap(Header(v, s)) && Size(c.h) == Size(Header(v, s))
    requires CellsOk(s, CellsOf(v, s), v.bytes) && IsLive(CellsOf(v, s), k0)
    requires forall k {:trigger IsLive(c, k)} :: IsLive(c, k) <==> IsLive(CellsOf(v, s), k) && k != k0
    ensures Lost(v, WithSlab(v, s, c, bytes, tree), s + Offset(Size(c.h), k0))
  {
    hide WithSlab, Pagemap, IsLive, Offset, Header, CellsOf, SlabFor, Size, IsLiveCell, CellsOk, Empty, IsSlab, LiveAt, CellSize;
    var w, d := WithSlab(v, s, c, bytes, tree), CellsOf(v, s);
    var p := s + Offset(Size(c.h), k0);
    SizeOfCells(d, s, v.bytes);
    CellsHeader(v, s);
    assert LiveAt(d, s, p) by { LiveAtIs(d, s, k0); }
    SlabIsAligned(v, s);
    CellIn(d, s, v.bytes, p);
    WithSlabCell(v, s, c, bytes, tree, p);
    forall q ensures IsLiveCell(w, q) <==> IsLiveCell(v, q) && q != p {
      WithSlabCell(v, s, c, bytes, tree, q);
      if SlabFor(q) == s {
        LessLive(d, c, s, k0, q);
      }
    }
    forall q | IsLiveCell(w, q) ensures CellSize(w, q) == CellSize(v, q) {
      WithSlabCell(v, s, c, bytes, tree, q);
      SizeAt(v, s, q);
    }
  }

  lemma LessLive(d: Cells, c: Cells, s: int, k0: int, q: int)
    requires Size(d.h) == Size(c.h) >= 4 && forall k {:trigger IsLive(c, k)} :: IsLive(c, k) <==> IsLive(d, k) && k != k0
    ensures LiveAt(c, s, q) <==> LiveAt(d, s, q) && q != s + Offset(Size(c.h), k0)
  {
    hide IsLive, Offset, Size;
    if LiveAt(c, s, q) {
      var k :| IsLive(c, k) && q == s + Offset(Size(c.h), k);
      assert IsLive(d, k) && k != k0;
      DifferentCells(c, k, k0);
    }
    if LiveAt(d, s, q) && q != s + Offset(Size(c.h), k0) {
      var k :| IsLive(d, k) && q == s + Offset(Size(d.h), k);
      assert IsLive(c, k);
    }
  }

  lemma LostNone(v: Slabs, s: int, c: Cells, tree: map<int, int>)
    requires IsSlab(v, s) && !Empty(v, s) && Pagemap(c.h) == Pagemap(Header(v, s)) && Size(c.h) == Size(Header(v, s))
    requires c.n == Count(v, s) && c.list == List(v, s)
    ensures SameLives(v, WithSlab(v, s, c, v.bytes, tree))
  {
    hide WithSlab, Pagemap, Offset, Header, SlabFor, Size, IsLiveCell, CellsOk, Empty, IsSlab, CellSize;
    var w, d := WithSlab(v, s, c, v.bytes, tree), CellsOf(v, s);
    CellsHeader(v, s);
    forall q ensures (IsLiveCell(w, q) <==> IsLiveCell(v, q)) && CellSize(w, q) == CellSize(v, q) {
      WithSlabCell(v, s, c, v.bytes, tree, q);
      SizeAt(v, s, q);
      SameAt(d, c, s, q);
    }
  }

  lemma SameAt(d: Cells, c: Cells, s: int, q: int)
    requires c.n == d.n && c.list == d.list && Size(c.h) == Size(d.h)
    ensures LiveAt(c, s, q) <==> LiveAt(d, s, q)
  {
    hide Size, Offset;
    if LiveAt(c, s, q) {
      var k :| IsLive(c, k) && q == s + Offset(Size(c.h), k);
      assert IsLive(d, k);
    }
    if LiveAt(d, s, q) {
      var k :| IsLive(d, k) && q == s + Offset(Size(d.h), k);
      assert IsLive(c, k);
    }
  }

  /** LiveIn in terms of the cells of the slab. */
  lemma LiveInIs(v: Slabs, s: int, q: int)
    ensures LiveIn(v, s, q) <==> LiveAt(CellsOf(v, s), s, q)
  {
    hide IsLive, Offset, Size, Header;
    CellsHeader(v, s);
  }

  lemma EmptiedLive(v: Slabs, s: int, q: int)
    requires Ok(v) && IsSlab(v, s) && !Empty(v, s)
    ensures var w := Emptied(v, s); (IsLiveCell(w, q) <==> IsLiveCell(v, q) && SlabFor(q) != s) && CellSize(w, q) == CellSize(v, q)
  {
    hide Ok, Ix, HiBit, HasBit, Header, BitOf, Emptied, SlabFor, MapChanged, EmptiedTree, Pagemap, Size, LiveIn, CellsOf, PageOf, Free, Usedm4, Floating, IsHeader;
    var t, page := SlabFor(q), PageOf(s);
    EmptiedMap(v, s);
    SlabIs(v, s);
    SlabForAligned(q);
    SlabAddress(t);
    HeaderIs(v, page);
    SetBit(MapOf(v, page), Ix(s));
    PageAddressOf(PageOf(t));
    var w := Emptied(v, s);
    LiveInIs(v, t, q);
    LiveInIs(w, t, q);
    CellsHeader(v, t);
    SameAt(CellsOf(v, t), CellsOf(w, t), t, q);
  }

  lemma PageGoneLive(v: Slabs, s: int, spare: int, q: int)
    requires Ok(v) && IsSlab(v, s) && forall t :: IsSlab(v, t) && PageOf(t) == PageOf(s) && t != s ==> Empty(v, t)
    ensures var w := PageGone(v, s, spare);
            (IsLiveCell(w, q) <==> IsLiveCell(v, q) && SlabFor(q) != s) && (IsLiveCell(w, q) ==> CellSize(w, q) == CellSize(v, q))
  {
    hide Ok, Ix, HiBit, HasBit, BitOf, SlabFor, Pagemap, PageOf, Size, MapChanged, SameElsewhere, LiveIn;
    var t, w := SlabFor(q), PageGone(v, s, spare);
    SlabIs(v, s);
    SlabAddress(s);
    PageGoneElsewhere(v, s, spare);
    if PageOf(t) != PageOf(s) {
      LiveElsewhere(v, w, PageOf(s), q);
    }
  }

  lemma FilledLive(v: Slabs, s: int, size: int, q: int)
    requires Ok(v) && CanFill(v, s, size)
    ensures var w := Filled(v, s, size);
      && (IsLiveCell(w, q) <==> IsLiveCell(v, q) || q == s + HEADER) && (IsLiveCell(v, q) ==> q != s + HEADER)
      && (SlabFor(q) != s ==> CellSize(w, q) == CellSize(v, q)) && (IsLiveCell(v, q) ==> SlabFor(q) != s)
  {
    hide Ok, Ix, HiBit, LowBit, HasBit, Header, BitOf, Filled, MapChanged, FilledTree, FilledHeader, Pagemap, Size, LiveIn, CellsOf, PageOf;
    hide Free, Usedm4, Floating, IsHeader, CellsOk, SlabFor;
    var t, page, w := SlabFor(q), PageOf(s), Filled(v, s, size);
    FilledMap(v, s, size);
    SlabIs(v, s);
    SlabForAligned(q);
    SlabAddress(t);
    HeaderIs(v, page);
    ClearBit(MapOf(v, page), Ix(s));
    PageAddressOf(PageOf(t));
    LiveInIs(v, t, q);
    LiveInIs(w, t, q);
    CellsHeader(v, t);
    CellAddress(s, HEADER);
    if t == s {
      FirstCell(CellsOf(w, s), s, size, q);
    } else {
      SameAt(CellsOf(v, t), CellsOf(w, t), t, q);
    }
  }

  lemma FirstCell(c: Cells, s: int, size: int, q: int)
    requires c.n == 1 && c.list == [] && Size(c.h) == size
    ensures LiveAt(c, s, q) <==> q == s + HEADER
  {
    hide Size;
    TimesNext(0, size);
    if q == s + HEADER {
      assert IsLive(c, 0);
    }
  }

  lemma NewPageLive(v: Slabs, page: int, size: int, spare: int, q: int)
    requires Ok(v) && CanAdd(v, page) && size % 4 == 0 && 4 <= size <= MAXSLABSIZE
    ensures var w := NewPage(v, page, size, spare);
      && (IsLiveCell(w, q) <==> IsLiveCell(v, q) || q == page + HEADER) && (IsLiveCell(v, q) ==> q != page + HEADER && SlabFor(q) != page)
      && (SlabFor(q) != page ==> CellSize(w, q) == CellSize(v, q))
  {
    hide Ok, Ix, HiBit, HasBit, Header, NewPage, Pagemap, Size, LiveIn, CellsOf, PageOf, Fresh, CellsOk, SlabFor, Floating, IsHeader;
    var t, w := SlabFor(q), NewPage(v, page, size, spare);
    NewPageMap(v, page, size, spare);
    SlabForAligned(q);
    SlabAddress(t);
    PageAddressOf(page);
    PageAddressOf(PageOf(t));
    LiveInIs(v, t, q);
    LiveInIs(w, t, q);
    CellsHeader(v, t);
    CellAddress(page, HEADER);
    if t == page {
      FreshIs(0xE00, size);
      FirstCell(CellsOf(w, page), page, size, q);
      Fourteen(Ix(t));
    } else {
      SameAt(CellsOf(v, t), CellsOf(w, t), t, q);
      Fourteen(Ix(t));
    }
  }

  /** A slab of this tree has a free cell, or space for one more. */
  predicate RoomIn(tree: map<int, int>, header: map<int, int>, id: int, t: int) {
    t in tree && tree[t] == id && t in header && (Free(header[t]) != 0 || header[t] + SizeField(header[t]) * 64 < MAXUSEDM4BITS)
  }

  /** At most this page has been given up: it is cached when no page is, and given back otherwise. */
  predicate GaveUp(pages: set<int>, spare: int, after: set<int>, cached: int, page: int) {
    if after == pages then cached == spare else after == pages - {page} && cached == if spare == 0 then page else spare
  }

  /** At most one page has become a slab page, with the cell at p in front: the cached one when there is one. */
  predicate GotPage(pages: set<int>, spare: int, after: set<int>, cached: int, p: int) {
    if after == pages then cached == spare else after == pages + {p - HEADER} && cached == 0 && (spare != 0 ==> p - HEADER == spare)
  }

  // ---------- the allocator ----------

  class SlabHeap {
    var header: map<int, int>
    var bytes: map<int, int>
    var spare: int
    const links: SlabTrees.SlabLinks
    /** Slab pages are blocks of one page there. */
    const paged: PagedHeaps.PagedHeap
    ghost var pages: set<int>
    ghost var count: map<int, int>
    ghost var lists: map<int, seq<int>>

    ghost function View(): Slabs
      reads this, links
    {
      Slabs(header, bytes, links.tree, pages, spare, count, lists)
    }

    ghost predicate Roots()
      reads links
    {
      FULL in links.root && PARTIAL_PAGE in links.root && forall id :: 1 <= id <= SizeTree(MAXSLABSIZE) ==> id in links.root
    }

    ghost predicate Valid()
      reads this, links
    {
      links.Valid() && Roots() && Ok(View())
    }

    /** A page that the page allocator has given to this one. */
    predicate BackedIn(runs: PageMaps.Runs, page: int) {
      var r := paged.Page(page);
      r >= 0 && r in runs && runs[r] == 1 && page == paged.Address(r)
    }

    ghost predicate BackedAt(page: int)
      reads paged`runs
    {
      BackedIn(paged.runs, page)
    }

    /** The slab pages and the cached page. */
    ghost function Taken(): set<int>
      reads this`pages, this`spare
    {
      pages + if spare != 0 then {spare} else {}
    }

    ghost predicate BackedBy(taken: set<int>)
      reads paged, paged.bitmap, paged.bitmap.base
    {
      paged.Valid() && forall page :: page in taken ==> BackedAt(page)
    }

    /** The page bitmap records all these pages. */
    ghost predicate Backed()
      reads this`pages, this`spare, paged, paged.bitmap, paged.bitmap.base
    {
      BackedBy(Taken())
    }

    ghost predicate Whole()
      reads this, links, paged, paged.bitmap, paged.bitmap.base
    {
      Valid() && Backed()
    }

    function BlocksOf(runs: PageMaps.Runs, taken: set<int>): PageMaps.Runs {
      map r | r in runs && paged.Address(r) !in taken :: runs[r]
    }

    ghost function BlocksBut(taken: set<int>): PageMaps.Runs
      reads paged`runs
    {
      BlocksOf(paged.runs, taken)
    }

    /** A block that is no slab page comes, */
    lemma BlockComes(runs: PageMaps.Runs, taken: set<int>, p: nat, n: nat)
      requires (forall t :: t in taken ==> BackedIn(runs, t)) && p !in runs && paged.Clean()
      ensures forall t :: t in taken ==> BackedIn(runs[p := n], t)
      ensures p !in BlocksOf(runs, taken) && BlocksOf(runs[p := n], taken) == BlocksOf(runs, taken)[p := n]
    {
      paged.AddressIs(p);
      assert BlocksOf(runs[p := n], taken) == BlocksOf(runs, taken)[p := n];
    }

    /** or goes. */
    lemma BlockGoes(runs: PageMaps.Runs, taken: set<int>, p: nat)
      requires (forall t :: t in taken ==> BackedIn(runs, t)) && p in BlocksOf(runs, taken)
      ensures forall t :: t in taken ==> BackedIn(runs - {p}, t)
      ensures BlocksOf(runs - {p}, taken) == BlocksOf(runs, taken) - {p}
    {
      assert BlocksOf(runs - {p}, taken) == BlocksOf(runs, taken) - {p};
    }

    /** The blocks of the page allocator that are not slab pages. */
    ghost function Blocks(): PageMaps.Runs
      reads this`pages, this`spare, paged`runs
    {
      BlocksBut(Taken())
    }

    /** The bytes committed for all other parts of the heap. */
    ghost function Others(): int
      reads paged, paged.memory`size
    {
      paged.memory.size - paged.Held()
    }

    constructor (paged: PagedHeaps.PagedHeap)
      requires paged.Valid()
      ensures Whole() && pages == {} && spare == 0 && fresh(links) && this.paged == paged
      ensures forall q :: !IsLiveCell(View(), q)
    {
      this.paged := paged;
      var ids := Upto(SizeTree(MAXSLABSIZE) + 1) + {PARTIAL_PAGE};
      links := new SlabTrees.SlabLinks(ids);
      header, bytes, spare := map[], map[], 0;
      pages, count, lists := {}, map[], map[];
    }

    /** One slab gets other cells. */
    method Rewrite(s: int, ghost c: Cells, h: int)
      requires h == c.h
      modifies this`header, this`count, this`lists
      ensures View() == WithSlab(old(View()), s, c, bytes, links.tree)
    {
      header := header[s := h];
      count, lists := count[s := c.n], lists[s := c.list];
    }

    /** A slab that is in the tree for cells of this size. */
    lemma InSizeTree(s: int, size: int)
      requires Valid() && s in links.tree && links.tree[s] == SizeTree(size) && size % 4 == 0 && 4 <= size <= MAXSLABSIZE
      ensures IsSlab(View(), s) && !Empty(View(), s) && CellsOk(s, CellsOf(View(), s), bytes) && s in header && s % SLABSIZE == 0
      ensures header[s] == Header(View(), s) && Size(header[s]) == size && !Floating(header[s]) && 0 < s < LIMIT
    {
      hide Ok, HasBit, PageOf, Ix, HiBit, Pagemap, CellsOk, Size;
      LinkedIs(View(), s);
      SlabIs(View(), s);
      FourTimes(View(), s, size);
    }

    /** Take the first cell of the free list of slab s. */
    method TakeFree(s: int, size: int) returns (p: int)
      requires Valid() && s in links.tree && links.tree[s] == SizeTree(size) && size % 4 == 0 && 4 <= size <= MAXSLABSIZE
      requires s in header && Free(header[s]) != 0
      modifies this`header, this`count, this`lists
      ensures Valid() && Gained(old(View()), View(), p) && CellSize(View(), p) == size && SlabFor(p) == s
    {
      ghost var v, c := View(), CellsOf(View(), s);
      InSizeTree(s, size);
      hide Ok, IsSlab, Empty, CellsOk, Size, Pagemap, Gained, CellSize, WithSlab, Offset, SizeField, Free;
      CellsHeader(v, s);
      FreeNotEmpty(s, c, bytes);
      PopOk(s, c, bytes);
      var h := header[s];
      var free := Free(h);
      p := s + free * 4;
      free := ByteAt(bytes, p);
      h := h + SizeField(h) * 64;
      h := h - h % 0x100;
      h := h + free;
      ghost var d := Popped(c, free);
      WithSlabOk(v, s, d, bytes, SizeTree(size), 0, 0);
      GainedOne(v, s, d, bytes, links.tree[s := SizeTree(size)], c.list[0]);
      LiveCellIn(d, s, bytes, c.list[0]);
      TreeSame(links.tree, s);
      Rewrite(s, d, h);
      SizeAt(View(), s, p);
    }

    /** Carve a cell off the unused end of slab s. */
    method CarveNew(s: int, size: int) returns (p: int)
      requires Valid() && s in links.tree && links.tree[s] == SizeTree(size) && size % 4 == 0 && 4 <= size <= MAXSLABSIZE
      requires s in header && Free(header[s]) == 0 && header[s] + SizeField(header[s]) * 64 < MAXUSEDM4BITS
      modifies this`header, this`count, this`lists
      ensures Valid() && Gained(old(View()), View(), p) && CellSize(View(), p) == size && SlabFor(p) == s
    {
      ghost var v, c := View(), CellsOf(View(), s);
      InSizeTree(s, size);
      hide Ok, IsSlab, Empty, CellsOk, Size, Pagemap, Gained, CellSize, WithSlab, Offset, SizeField, Free;
      CellsHeader(v, s);
      FreeNotEmpty(s, c, bytes);
      CarveOk(s, c, bytes);
      var h := header[s];
      p := s + h / 0x4_0000 + 4 + HEADER;
      ghost var d := Carved(c);
      WithSlabOk(v, s, d, bytes, SizeTree(size), 0, 0);
      GainedOne(v, s, d, bytes, links.tree[s := SizeTree(size)], c.n);
      LiveCellIn(d, s, bytes, c.n);
      TreeSame(links.tree, s);
      Rewrite(s, d, h + SizeField(h) * 64);
      SizeAt(View(), s, p);
    }

    /** A slab without a free cell leaves the tree of its size for the full list. */
    method Float(s: int, size: int)
      requires Valid() && s in links.tree && links.tree[s] == SizeTree(size) && size % 4 == 0 && 4 <= size <= MAXSLABSIZE
      requires s in header && Free(header[s]) == 0 && header[s] + SizeField(header[s]) * 64 >= MAXUSEDM4BITS
      modifies this`header, this`count, this`lists, links
      ensures Valid() && SameLives(old(View()), View()) && links.tree == old(links.tree)[s := FULL]
      ensures header == old(header)[s := old(header[s]) + FLOATING_BIT] && SameVacant(old(View()), View())
    {
      ghost var v, c := View(), CellsOf(View(), s);
      InSizeTree(s, size);
      hide Ok, IsSlab, Empty, CellsOk, Size, Pagemap, SameLives, WithSlab, SizeField, Free, Floating, Times;
      CellsHeader(v, s);
      FreeNotEmpty(s, c, bytes);
      FloatOk(s, c, bytes);
      ghost var d := Cells(c.h + FLOATING_BIT, c.n, c.list);
      WithSlabOk(v, s, d, bytes, FULL, 0, 0);
      LostNone(v, s, d, links.tree[s := FULL]);
      var h := header[s] + FLOATING_BIT;
      links.TreeRemove(s);
      links.FullPush(s);
      TreeMoved(v.tree, s, FULL);
      Rewrite(s, d, h);
      VacantStay(v, View(), s);
    }

    /** A cell from the lowest slab with cells of this size that has one left; slabs found full on the way go to
        the full list. */
    method FromPartial(size: int) returns (p: int)
      requires Valid() && size % 4 == 0 && 4 <= size <= MAXSLABSIZE
      modifies this`header, this`count, this`lists, links
      ensures Valid()
      ensures p != 0 ==> Gained(old(View()), View(), p) && CellSize(View(), p) == size
      ensures p == 0 ==> SameLives(old(View()), View()) && SameVacant(old(View()), View()) && links.root[SizeTree(size)] == 0
      ensures p != 0 ==> RoomIn(old(links.tree), old(header), SizeTree(size), SlabFor(p))
      ensures forall t :: RoomIn(old(links.tree), old(header), SizeTree(size), t) ==> p != 0 && SlabFor(p) <= t
    {
      ghost var v0 := View();
      var id := SizeTree(size);
      SameLivesSelf(v0);
      while true
        invariant Valid() && SameLives(v0, View()) && SameVacant(v0, View())
        invariant forall t :: RoomIn(v0.tree, v0.header, id, t) <==> RoomIn(links.tree, header, id, t)
        decreases |Members(links.tree, id)|
      {
        hide Ok, Gained, SameLives, CellSize, IsLiveCell, Size, SizeField, Free, SlabFor, Vacant;
        SlabTrees.RootSlab(links.View(), id);
        var s := links.root[id];
        LowestRoomIn(id);
        if s == 0 {
          return 0;
        }
        InSizeTree(s, size);
        ghost var v := View();
        if Free(header[s]) != 0 {
          p := TakeFree(s, size);
          GainedAfter(v0, v, View(), p);
          GainedPositive(View(), p);
          return;
        }
        if header[s] + SizeField(header[s]) * 64 < MAXUSEDM4BITS {
          p := CarveNew(s, size);
          GainedAfter(v0, v, View(), p);
          GainedPositive(View(), p);
          return;
        }
        FewerMembers(links.tree, s, id);
        NoRoomAfter(links.tree, header, s, header[s] + FLOATING_BIT, id);
        Float(s, size);
        SameLivesAfter(v0, v, View());
      }
    }

    /** The root of a tree is its lowest slab. */
    lemma LowestRoomIn(id: int)
      requires links.Valid() && id in links.root && id != FULL
      ensures forall t :: RoomIn(links.tree, header, id, t) ==> links.root[id] != 0 && links.root[id] <= t
    {
      forall t | RoomIn(links.tree, header, id, t) ensures links.root[id] != 0 && links.root[id] <= t {
        SlabTrees.RootSlab(links.View(), id);
        SlabTrees.RootIsLowest(links.View(), t);
      }
    }

    /** SlabAllocate: a cell from a slab that has one, or, when there is none, from a new slab. */
    method SlabAllocate(size: int, at: int, mapAt: int) returns (p: int)
      requires Whole() && size % 4 == 0 && 4 <= size <= MAXSLABSIZE
      requires PageOffer(at, mapAt)
      modifies this`header, this`count, this`lists, this`pages, this`spare, links, paged, paged.bitmap, paged.bitmap.base, paged.memory`size
      ensures Whole() && Blocks() == old(Blocks()) && Others() == old(Others())
      ensures paged.bitmap.base == old(paged.bitmap.base) || fresh(paged.bitmap.base)
      ensures old(paged.memory.size) <= paged.memory.maxLength ==> old(paged.memory.size) <= paged.memory.size <= paged.memory.maxLength
      ensures p != 0 ==> Gained(old(View()), View(), p) && CellSize(View(), p) == size
      ensures GotPage(old(pages), old(spare), pages, spare, p)
      ensures p == 0 ==> SameLives(old(View()), View()) && paged.memory.size == old(paged.memory.size)
      ensures forall t :: RoomIn(old(links.tree), old(header), SizeTree(size), t) ==> p != 0 && SlabFor(p) <= t
      ensures forall e :: Vacant(old(View()), e) ==>
                p != 0 && (RoomIn(old(links.tree), old(header), SizeTree(size), SlabFor(p)) || p - HEADER <= e)
      ensures p != 0 ==> RoomIn(old(links.tree), old(header), SizeTree(size), SlabFor(p)) || Vacant(old(View()), p - HEADER) ||
                         old(spare) != 0 || PageRoom(old(paged.memory.size), old(paged.bitmap.nbits), at, mapAt)
      ensures old(spare) != 0 || PageRoom(old(paged.memory.size), old(paged.bitmap.nbits), at, mapAt) ==> p != 0
    {
      hide Vacant, PageRoom, Ok, Gained, SameLives, CellSize, IsLiveCell, Size, SizeField, Free, SlabFor, RoomIn, BackedBy, BlocksBut, Taken, Others, PageOffer;
      ghost var v0 := View();
      p := FromPartial(size);
      if p == 0 {
        ghost var v := View();
        p := AllocNewSlab(size, at, mapAt);
        if p == 0 {
          SameLivesAfter(v0, v, View());
        } else {
          GainedAfter(v0, v, View(), p);
        }
      }
    }

    /** AllocNewSlab: the lowest empty slab of the lowest page that has one is filled, or a new page is taken. */
    method AllocNewSlab(size: int, at: int, mapAt: int) returns (p: int)
      requires Whole() && size % 4 == 0 && 4 <= size <= MAXSLABSIZE && links.root[SizeTree(size)] == 0
      requires PageOffer(at, mapAt)
      modifies this`header, this`count, this`lists, this`pages, this`spare, links, paged, paged.bitmap, paged.bitmap.base, paged.memory`size
      ensures Whole() && Blocks() == old(Blocks()) && Others() == old(Others())
      ensures paged.bitmap.base == old(paged.bitmap.base) || fresh(paged.bitmap.base)
      ensures old(paged.memory.size) <= paged.memory.maxLength ==> old(paged.memory.size) <= paged.memory.size <= paged.memory.maxLength
      ensures p != 0 ==> Gained(old(View()), View(), p) && CellSize(View(), p) == size
      ensures GotPage(old(pages), old(spare), pages, spare, p)
      ensures p == 0 ==> SameLives(old(View()), View()) && paged.memory.size == old(paged.memory.size)
      ensures forall e :: Vacant(old(View()), e) ==> p != 0 && p - HEADER <= e
      ensures old(links.root[PARTIAL_PAGE]) != 0 ==> Vacant(old(View()), p - HEADER)
      ensures p != 0 ==> Vacant(old(View()), p - HEADER) || old(spare) != 0 || PageRoom(old(paged.memory.size), old(paged.bitmap.nbits), at, mapAt)
      ensures old(spare) != 0 || PageRoom(old(paged.memory.size), old(paged.bitmap.nbits), at, mapAt) ==> p != 0
    {
      hide PageRoom, Ok, Gained, SameLives, CellSize, IsLiveCell, CanAdd, Size, Filled, BitOf, LowBit, HasBit, Pagemap, PageOf, Ix, Backed, Blocks, Others, PageOffer, BackedBy, BlocksBut, Taken;
      ghost var v := View();
      RootUnused(SizeTree(size));
      SlabTrees.RootSlab(links.View(), PARTIAL_PAGE);
      var r := links.root[PARTIAL_PAGE];
      if r == 0 {
        NoneVacant();
        p := AllocNewPage(size, at, mapAt);
        return;
      }
      LowestRoom(r);
      var page := PageOf(r);
      var h := header[page];
      var slabix := LowBit(Pagemap(h));
      var s := page + SLABSIZE * slabix;
      FilledOk(v, s, size);
      FilledGained(v, s, size);
      FilledIs(v, s, size);
      SlabIs(v, s);
      header := header[page := h - 0x100 * BitOf(slabix)];
      if Pagemap(h) == BitOf(slabix) {
        links.TreeRemove(r);
      }
      p := InitNewSlab(s, size);
    }

    /** A tree whose root cell is null has no slab. */
    lemma RootUnused(id: int)
      requires links.Valid() && id in links.root && links.root[id] == 0
      ensures Unused(links.tree, id)
    {
      forall s | s in links.tree ensures links.tree[s] != id {
        if links.tree[s] == id {
          SlabTrees.EmptyTree(links.View(), id, s);
        }
      }
    }

    /** The root of the tree of pages with room belongs to the lowest page that has an empty slab. */
    lemma LowestRoom(r: int)
      requires Valid() && r == links.root[PARTIAL_PAGE] && r != 0
      ensures r in links.tree && PageOf(r) in header
      ensures var page := PageOf(r); var m := Pagemap(header[page]); var s := page + SLABSIZE * LowBit(m);
        && header[page] == Header(View(), page) && m == MapOf(View(), page)
        && IsSlab(View(), s) && Empty(View(), s) && Ix(s) == LowBit(m) && PageOf(s) == page
        && (s !in links.tree || s == r) && (m == BitOf(LowBit(m)) ==> s == r) && (m != BitOf(LowBit(m)) ==> s !in links.tree)
        && (forall e {:trigger Empty(View(), e)} :: IsSlab(View(), e) && Empty(View(), e) ==> s <= e)
    {
      hide Ok, PageOf, Ix, HasBit, HiBit, LowBit, BitOf, Pagemap, Header, CellsOk, Size, Floating;
      var v := View();
      SlabTrees.RootSlab(links.View(), PARTIAL_PAGE);
      LinkedIs(v, r);
      SlabIs(v, r);
      RoomIs(v, r);
      var page := PageOf(r);
      var m := MapOf(v, page);
      var s := page + SLABSIZE * LowBit(m);
      forall e | IsSlab(v, e) && Empty(v, e) ensures s <= e {
        SlabIs(v, e);
        RoomLink(v, e);
        SlabTrees.RootIsLowest(links.View(), LinkSlab(v, PageOf(e)));
        LowerPage(v, r, e);
      }
    }

    /** InitNewSlab: the header of an empty slab is made out for one cell in use, and the slab becomes the only
        one in the tree of its size. */
    method InitNewSlab(s: int, size: int) returns (p: int)
      requires size % 4 == 0 && 4 <= size <= MAXSLABSIZE
      requires links.Valid() && Roots() && Unused(links.tree, SizeTree(size)) && s !in links.tree && 0 < s < LIMIT
      modifies this`header, this`count, this`lists, links
      ensures links.Valid() && Roots() && p == s + HEADER && links.tree == old(links.tree)[s := SizeTree(size)]
      ensures header == old(header)[s := Fresh(if s in old(header) then old(header)[s] else 0, size).h]
      ensures count == old(count)[s := 1] && lists == old(lists)[s := []]
    {
      var h := (if s in header then header[s] else 0) / 0x100 % 16 * 0x100;
      h := h + size * 0x1000;
      h := h + (size - 4) * 0x4_0000;
      header := header[s := h];
      count, lists := count[s := 1], lists[s := []];
      SlabTrees.RootSlab(links.View(), SizeTree(size));
      links.Plant(s, SizeTree(size));
      p := s + HEADER;
    }

    /** A new page can be had and recorded. */
    predicate PageRoom(mapped: int, nbits: int, at: int, mapAt: int) {
      paged.Placed(mapped, nbits, 1, at, mapAt)
    }

    /** Without a page in the tree of pages with room there is no empty slab. */
    lemma NoneVacant()
      requires Valid() && links.root[PARTIAL_PAGE] == 0
      ensures forall e :: !Vacant(View(), e)
    {
      hide Ok, PageOf, Ix, HasBit, HiBit, Pagemap, Empty;
      RootUnused(PARTIAL_PAGE);
      forall e ensures !Vacant(View(), e) {
        if Vacant(View(), e) {
          RoomLink(View(), e);
        }
      }
    }

    /** A new page that the page bitmap records; 0 when there is none. */
    method MapPage(at: int, mapAt: int) returns (page: int)
      requires Whole() && PageOffer(at, mapAt) && spare == 0
      modifies paged, paged.bitmap, paged.bitmap.base, paged.memory`size
      ensures Backed() && Others() == old(Others()) && (paged.bitmap.base == old(paged.bitmap.base) || fresh(paged.bitmap.base))
      ensures old(paged.memory.size) <= paged.memory.maxLength ==> old(paged.memory.size) <= paged.memory.size <= paged.memory.maxLength
      ensures page == 0 ==> Blocks() == old(Blocks()) && paged.memory.size == old(paged.memory.size)
      ensures page != 0 ==> BackedBy(Taken() + {page}) && BlocksBut(Taken() + {page}) == old(Blocks()) && CanAdd(View(), page)
      ensures page != 0 <==> PageRoom(old(paged.memory.size), old(paged.bitmap.nbits), at, mapAt)
    {
      hide Ok, PagedHeaps.PagedHeap.MapIs, PagedHeaps.PagedHeap.Clean, PageMaps.Ok, PageMaps.Clear, PageMaps.Total, PageCodes.CodeLen;
      hide PageMaps.RunOk, PageMaps.Apart, PageMaps.GrownBytes, SlabTrees.SlabLinks.Valid, Roots;
      var r := paged.MapNew(1, at);
      if r == -1 {
        return 0;
      }
      page := paged.Address(r);
      PageFits(r);
      var ok := paged.PagedSetSize(page, PAGESIZE, mapAt);
      if !ok {
        paged.memory.Unmap(PAGESIZE);
        return 0;
      }
      paged.TotalMore(old(paged.runs), r, 1);
      assert BlocksBut(Taken() + {page}) == old(Blocks());
    }

    /** The cached page is recorded once more, which changes nothing. */
    method TakeSpare(mapAt: int) returns (page: int)
      requires Whole() && spare != 0
      modifies this`spare, paged, paged.bitmap, paged.bitmap.base, paged.memory`size
      ensures Backed() && Others() == old(Others()) && (paged.bitmap.base == old(paged.bitmap.base) || fresh(paged.bitmap.base))
      ensures old(paged.memory.size) <= paged.memory.maxLength ==> old(paged.memory.size) <= paged.memory.size <= paged.memory.maxLength
      ensures spare == 0 && page == old(spare) && BackedBy(Taken() + {page}) && BlocksBut(Taken() + {page}) == old(Blocks()) && CanAdd(View(), page)
    {
      hide Ok, PagedHeaps.PagedHeap.MapIs, PagedHeaps.PagedHeap.Clean, PageMaps.Ok, PageMaps.Clear, PageMaps.Total, PageCodes.CodeLen;
      SpareAdds(View());
      page := spare;
      PageIs(page);
      spare := 0;
      var ok := paged.PagedSetSize(page, PAGESIZE, mapAt);
      assert ok;
      paged.TotalMore(old(paged.runs), paged.Page(page), 1);
      assert BlocksBut(Taken() + {page}) == old(Blocks());
    }

    /** AllocNewPage: the cached page or a new one; its highest slab links it into the tree of pages with room,
        and its lowest one is filled. */
    method AllocNewPage(size: int, at: int, mapAt: int) returns (p: int)
      requires Whole() && size % 4 == 0 && 4 <= size <= MAXSLABSIZE
      requires Unused(links.tree, SizeTree(size)) && links.root[PARTIAL_PAGE] == 0
      requires PageOffer(at, mapAt)
      modifies this`header, this`count, this`lists, this`pages, this`spare, links, paged, paged.bitmap, paged.bitmap.base, paged.memory`size
      ensures Whole() && Blocks() == old(Blocks()) && Others() == old(Others())
      ensures paged.bitmap.base == old(paged.bitmap.base) || fresh(paged.bitmap.base)
      ensures old(paged.memory.size) <= paged.memory.maxLength ==> old(paged.memory.size) <= paged.memory.size <= paged.memory.maxLength
      ensures p != 0 ==> Gained(old(View()), View(), p) && CellSize(View(), p) == size
      ensures GotPage(old(pages), old(spare), pages, spare, p)
      ensures p == 0 ==> SameLives(old(View()), View()) && paged.memory.size == old(paged.memory.size)
      ensures p != 0 <==> old(spare) != 0 || PageRoom(old(paged.memory.size), old(paged.bitmap.nbits), at, mapAt)
    {
      hide PageRoom, Ok, Gained, SameLives, CellSize, IsLiveCell, BackedBy, BlocksBut, Taken, Others, PageOffer, Roots, Unused;
      ghost var v := View();
      SpareAdds(v);
      SpareGone(v);
      SameLivesSelf(v);
      var page;
      if spare != 0 {
        page := TakeSpare(mapAt);
      } else {
        page := MapPage(at, mapAt);
        if page == 0 {
          return 0;
        }
      }
      ghost var v1 := View();
      p := OpenPage(page, size);
      GainedAfter(v, v1, View(), p);
    }

    /** What the kernel may answer when it is asked for a page. */
    ghost predicate PageOffer(at: int, mapAt: int)
      reads paged
    {
      paged.Offer(at, 1) && (at >= 0 ==> paged.MapOffer(mapAt, at, 1))
    }

    lemma PageIs(page: int)
      requires Whole() && page in Taken()
      ensures BackedAt(page) && paged.CanHold(paged.Page(page), 1) && page > 0 && page % PAGESIZE == 0 && page + PAGESIZE <= LIMIT
      ensures paged.Pos(page) + PageCodes.CodeLen(1) <= paged.bitmap.nbits
    {
      paged.RunIs(paged.Page(page));
      paged.CodeRoom(paged.Page(page));
      paged.AddressIs(paged.Page(page));
    }

    lemma PageFits(r: nat)
      requires paged.Clean() && r + 1 <= paged.Limit()
      ensures var page := paged.Address(r);
        paged.Page(page) == r && paged.Pos(page) == 2 * r && page > 0 && page % PAGESIZE == 0 && page + PAGESIZE <= LIMIT
    {
      paged.AddressIs(r);
    }

    /** A page becomes a slab page. */
    method OpenPage(page: int, size: int) returns (p: int)
      requires Valid() && CanAdd(View(), page) && page != spare && size % 4 == 0 && 4 <= size <= MAXSLABSIZE
      requires Unused(links.tree, SizeTree(size)) && links.root[PARTIAL_PAGE] == 0
      modifies this`header, this`count, this`lists, this`pages, this`spare, links
      ensures Valid() && p > 0 && Gained(old(View()), View(), p) && CellSize(View(), p) == size
      ensures pages == old(pages) + {page} && p == page + HEADER && spare == old(spare) && Taken() == old(Taken()) + {page}
    {
      hide Ok, Gained, CellSize, IsLiveCell, CanAdd, Size, NewPage, Fresh, PageOf, Ix, Header, CellsOf;
      ghost var v := View();
      NewPageOk(v, page, size, spare);
      NewPageGained(v, page, size, spare);
      NewPageIs(v, page, size, spare);
      NotLinked(v, page, 0);
      NotLinked(v, page, 3);
      header := header[page := 0xE00];
      links.Plant(page + 3 * SLABSIZE, PARTIAL_PAGE);
      pages := pages + {page};
      p := InitNewSlab(page, size);
      assert View() == NewPage(v, page, size, spare);
    }

    /** FreePage: an unused page is kept for reuse when there is no such page yet, or else given back. */
    method FreePage(page: int)
      requires paged.Valid() && BackedAt(page)
      modifies this`spare, paged, paged.bitmap, paged.bitmap.base, paged.memory`size
      ensures paged.Valid() && Others() == old(Others()) && paged.bitmap.base == old(paged.bitmap.base)
      ensures if old(spare) == 0 then spare == page && unchanged(paged) else spare == old(spare) && paged.runs == old(paged.runs) - {paged.Page(page)}
      ensures paged.memory.size <= old(paged.memory.size)
    {
      if spare == 0 {
        spare := page;
      } else {
        paged.TotalLess(paged.Page(page));
        paged.PagedZapSize(page, PAGESIZE);
        paged.memory.Unmap(PAGESIZE);
      }
    }

    /** An unused page is no slab page any more. */
    method DropPage(page: int)
      requires Backed() && page in pages && page != 0 && page != spare
      modifies this`pages, this`spare, paged, paged.bitmap, paged.bitmap.base, paged.memory`size
      ensures Backed() && Blocks() == old(Blocks()) && Others() == old(Others()) && paged.bitmap.base == old(paged.bitmap.base)
      ensures paged.memory.size <= old(paged.memory.size)
      ensures pages == old(pages) - {page} && spare == if old(spare) == 0 then page else old(spare)
    {
      hide PagedHeaps.PagedHeap.Valid, PagedHeaps.PagedHeap.Held, Others;
      assert BackedAt(page);
      pages := pages - {page};
      FreePage(page);
      forall q | q in Taken() ensures BackedAt(q) {
        assert old(q in Taken() && BackedAt(q)) || q == page;
      }
      assert Blocks() == old(Blocks());
    }

    /** The page of s, now empty, is no slab page any more. */
    method GivePage(ghost v: Slabs, ghost s: int, page: int, sl: int)
      requires Ok(v) && IsSlab(v, s) && !Empty(v, s) && MapOf(v, PageOf(s)) + BitOf(Ix(s)) == 15
      requires PageOf(s) in v.header && page == PageOf(s) && sl == LinkSlab(v, page)
      requires View() == v.(header := v.header[page := v.header[page] + 0x100 * BitOf(Ix(s))], tree := v.tree - {s})
      requires Backed() && links.Valid() && Roots() && sl in links.tree && links.tree[sl] != FULL && page in pages && page != 0
      modifies this`header, this`count, this`lists, this`pages, this`spare, links, paged, paged.bitmap, paged.bitmap.base, paged.memory`size
      ensures Whole() && Blocks() == old(Blocks()) && Others() == old(Others()) && paged.bitmap.base == old(paged.bitmap.base)
      ensures paged.memory.size <= old(paged.memory.size)
      ensures GaveUp(old(pages), old(spare), pages, spare, page)
      ensures Dropped(v, View(), s)
    {
      hide Ok, IsSlab, Empty, Size, Pagemap, PageGone, BitOf, HiBit, HasBit, PageOf, Ix, Dropped, MapChanged, Backed, Blocks, Others;
      PageGoneOk(v, s);
      PageGoneDrops(v, s, if spare == 0 then page else spare);
      PageGoneIs(v, s, if spare == 0 then page else spare);
      links.TreeRemove(sl);
      SpareAdds(v);
      DropPage(page);
    }

    /** FreeSlab: a slab whose cells have all gone is marked empty; it links its page into the tree of pages with
        room when it is the highest empty slab of the page. A page that becomes empty is given up. */
    method FreeSlab(s: int)
      requires Whole() && IsSlab(View(), s) && !Empty(View(), s) && s in links.tree && links.tree[s] != FULL
      modifies this`header, this`count, this`lists, this`pages, this`spare, links, paged, paged.bitmap, paged.bitmap.base, paged.memory`size
      ensures Whole() && Blocks() == old(Blocks()) && Others() == old(Others()) && paged.bitmap.base == old(paged.bitmap.base)
      ensures paged.memory.size <= old(paged.memory.size)
      ensures GaveUp(old(pages), old(spare), pages, spare, PageOf(s))
      ensures Dropped(old(View()), View(), s)
    {
      hide Ok, IsSlab, Empty, Size, Pagemap, Emptied, PageGone, BitOf, HiBit, HasBit, PageOf, Ix, Dropped, MapChanged, Backed, Blocks, Others, PageOffer, BackedBy, BlocksBut, Taken, SlabTrees.Ok, SlabTrees.SlabLinks.Valid, CellsOk, Header, IsLive, Offset, SlabFor;
      ghost var v := View();
      SlabIs(v, s);
      PageWord(v, s);
      var page := PageOf(s);
      var h := header[page];
      var slabix := Ix(s);
      var pagemap := Pagemap(h);
      links.TreeRemove(s);
      header := header[page := h + 0x100 * BitOf(slabix)];
      if pagemap == 0 {
        EmptiedOk(v, s);
        EmptiedDrops(v, s);
        EmptiedIs(v, s);
        links.TreeInsert(s, PARTIAL_PAGE);
        assert View() == Emptied(v, s);
        return;
      }
      var sl := page + SLABSIZE * HiBit(pagemap);
      LinkFacts(v, s);
      if pagemap + BitOf(slabix) == 0xF {
        GivePage(v, s, page, sl);
        return;
      }
      EmptiedOk(v, s);
      EmptiedDrops(v, s);
      EmptiedIs(v, s);
      if s > sl {
        links.Replace(sl, s);
      }
      assert View() == Emptied(v, s);
    }

    /** The slab of cell k at p, its only one in use, is given up. */
    method GiveUp(ghost v: Slabs, s: int, ghost k: int, p: int)
      requires Backed() && links.Valid() && Roots() && Ok(v) && IsSlab(v, s) && !Empty(v, s) && s in links.tree && links.tree[s] != FULL
      requires View() == v.(bytes := v.bytes[p := Free(Header(v, s))]) && p == s + Offset(Size(Header(v, s)), k)
      requires CellsOk(s, CellsOf(v, s), v.bytes) && IsLive(CellsOf(v, s), k) && |CellsOf(v, s).list| + 1 == CellsOf(v, s).n
      modifies this`header, this`count, this`lists, this`pages, this`spare, links, paged, paged.bitmap, paged.bitmap.base, paged.memory`size
      ensures Whole() && Blocks() == old(Blocks()) && Others() == old(Others()) && paged.bitmap.base == old(paged.bitmap.base)
      ensures paged.memory.size <= old(paged.memory.size)
      ensures GaveUp(old(pages), old(spare), pages, spare, PageOf(s))
      ensures Lost(v, View(), p)
    {
      hide Ok, IsSlab, Empty, CellsOk, Size, Free, Offset, IsLive, Lost, Dropped, Header, CellsOf, Backed, Blocks, Others, PageOffer, BackedBy, BlocksBut, Taken;
      LiveByte(v, s, k, p, Free(Header(v, s)));
      ghost var v1 := View();
      FreeSlab(s);
      LostLast(v, v1, View(), s, k, p);
    }

    /** SlabFree: the cell goes to the front of the free list of its slab. A slab that was full is in the tree of
        its size again; a slab whose last cell has gone is given up. */
    method SlabFree(p: int)
      requires Whole() && IsLiveCell(View(), p)
      modifies this, links, paged, paged.bitmap, paged.bitmap.base, paged.memory`size
      ensures forall a :: a != p ==> ByteAt(bytes, a) == old(ByteAt(bytes, a))
      ensures Whole() && Blocks() == old(Blocks()) && Others() == old(Others()) && paged.bitmap.base == old(paged.bitmap.base)
      ensures paged.memory.size <= old(paged.memory.size)
      ensures GaveUp(old(pages), old(spare), pages, spare, PageOf(SlabFor(p)))
      ensures Lost(old(View()), View(), p)
    {
      hide Ok, Lost, CellSize, IsSlab, Empty, CellsOk, Size, Usedm4, Free, SizeField, Pagemap, Floating, Offset, SlabFor, IsLive, Backed, Blocks, Others, PageOffer, BackedBy, BlocksBut, Taken;
      ghost var v := View();
      var s := SlabFor(p);
      ghost var c := CellsOf(v, s);
      ghost var k := WhichCell(v, p);
      var pos := p - s;
      var h := header[s];
      bytes := bytes[p := Free(h)];
      h := h - h % 0x100 + pos / 4;
      WordsOfFree(v, s, c, k, h);
      if h < FLOATING_BIT {
        h := (h - SizeField(h) * 64) % WORD;
        if h < FLOATING_BIT {
          PushLost(v, s, c, k);
          TreeSame(links.tree, s);
          Rewrite(s, Pushed(c, k), h);
          return;
        }
        GiveUp(v, s, k, p);
        return;
      }
      h := h - SizeField(h) * 64;
      h := h - FLOATING_BIT;
      PushLost(v, s, c, k);
      TreeMoved(links.tree, s, SizeTree(Size(c.h)));
      links.FullRemove(s);
      links.TreeInsert(s, SizeTree(Size(header[s])));
      Rewrite(s, Pushed(c, k), h);
    }
  }

  /** A slab without room leaves its tree. */
  lemma NoRoomAfter(tree: map<int, int>, header: map<int, int>, s: int, h: int, id: int)
    requires !RoomIn(tree, header, id, s) && id != FULL
    ensures forall t :: RoomIn(tree[s := FULL], header[s := h], id, t) <==> RoomIn(tree, header, id, t)
  {
    hide Free, SizeField;
  }

  lemma TreeSame(tree: map<int, int>, s: int)
    requires s in tree
    ensures tree[s := tree[s]] == tree
  {
  }

  lemma FourTimes(v: Slabs, s: int, size: int)
    requires SlabAt(v, s) && s in v.tree && v.tree[s] == SizeTree(size) && size % 4 == 0 && 4 <= size <= MAXSLABSIZE
    ensures !Empty(v, s) && CellsOk(s, CellsOf(v, s), v.bytes) && Size(Header(v, s)) == size && !Floating(Header(v, s))
    ensures s in v.header && v.header[s] == Header(v, s)
  {
    hide HasBit, PageOf, Ix, HiBit, Pagemap, ListOk, LinksOk, Size;
    SizeOfCells(CellsOf(v, s), s, v.bytes);
    SizeZero();
  }

  lemma SizeZero()
    ensures Size(0) == 0
  {
  }

  lemma FreeNotEmpty(s: int, c: Cells, bytes: map<int, int>)
    requires CellsOk(s, c, bytes)
    ensures Free(c.h) != 0 <==> c.list != []
  {
    hide Size, Usedm4, ListOk, LinksOk;
    if c.list != [] {
      ListFirst(s, c, bytes);
      OffsetIs(c, c.list[0]);
    }
  }

  lemma LiveCellIn(c: Cells, s: int, bytes: map<int, int>, k: int)
    requires CellsOk(s, c, bytes) && IsLive(c, k) && s % SLABSIZE == 0
    ensures SlabFor(s + Offset(Size(c.h), k)) == s
  {
    hide Offset, Size, SlabFor, CellsOk;
    LiveAtIs(c, s, k);
    CellIn(c, s, bytes, s + Offset(Size(c.h), k));
  }

  predicate Unused(tree: map<int, int>, id: int) {
    forall s :: s in tree ==> tree[s] != id
  }

  function Members(tree: map<int, int>, id: int): set<int> {
    set s | s in tree && tree[s] == id
  }

  lemma TreeMoved(tree: map<int, int>, s: int, id: int)
    requires s in tree
    ensures (tree - {s})[s := id] == tree[s := id]
  {
  }

  lemma FloatOk(s: int, c: Cells, bytes: map<int, int>)
    requires CellsOk(s, c, bytes) && c.list == [] && !Floating(c.h) && c.h + SizeField(c.h) * 64 >= MAXUSEDM4BITS
    ensures var d := Cells(c.h + FLOATING_BIT, c.n, c.list);
      && CellsOk(s, d, bytes) && Pagemap(d.h) == Pagemap(c.h) && Size(d.h) == Size(c.h) && Floating(d.h)
      && Times(d.n + 1, Size(d.h)) > PAYLOAD
  {
    hide Size, Free, Usedm4, Pagemap, Times, SizeField, IsHeader, Floating, ListOk, LinksOk;
    FullIs(c);
    WordFloat(c.h);
    MapDoesNotMatter(s, c, c.h + FLOATING_BIT, bytes);
  }

  lemma SameLivesSelf(v: Slabs)
    ensures SameLives(v, v)
  {
  }

  lemma GainedAfter(v0: Slabs, v: Slabs, w: Slabs, p: int)
    requires SameLives(v0, v) && Gained(v, w, p)
    ensures Gained(v0, w, p)
  {
    hide IsLiveCell, CellSize;
    forall q ensures IsLiveCell(w, q) <==> IsLiveCell(v0, q) || q == p {
      assert IsLiveCell(v, q) <==> IsLiveCell(v0, q);
    }
    forall q | IsLiveCell(v0, q) ensures CellSize(w, q) == CellSize(v0, q) {
      assert IsLiveCell(v, q);
    }
    assert !IsLiveCell(v, p);
  }

  lemma SameLivesAfter(v0: Slabs, v: Slabs, w: Slabs)
    requires SameLives(v0, v) && SameLives(v, w)
    ensures SameLives(v0, w)
  {
    hide IsLiveCell, CellSize;
    forall q ensures IsLiveCell(w, q) <==> IsLiveCell(v0, q) {
      assert IsLiveCell(v, q) <==> IsLiveCell(v0, q);
    }
    forall q | IsLiveCell(w, q) ensures CellSize(w, q) == CellSize(v0, q) {
      assert IsLiveCell(v, q);
    }
  }

  lemma GainedPositive(w: Slabs, p: int)
    requires Ok(w) && SlabFor(p) in w.tree
    ensures p != 0
  {
    hide SlabAt, PageAt, Ok;
    LinkedIs(w, SlabFor(p));
    SlabIs(w, SlabFor(p));
  }

  lemma FewerMembers(tree: map<int, int>, s: int, id: int)
    requires s in tree && tree[s] == id && id != FULL
    ensures |Members(tree[s := FULL], id)| < |Members(tree, id)|
  {
    assert forall x :: x in Members(tree[s := FULL], id) + {s} <==> x in Members(tree, id);
    assert Members(tree[s := FULL], id) + {s} == Members(tree, id);
  }

  lemma FilledGained(v: Slabs, s: int, size: int)
    requires Ok(v) && CanFill(v, s, size)
    ensures Gained(v, Filled(v, s, size), s + HEADER) && CellSize(Filled(v, s, size), s + HEADER) == size && s + HEADER > 0
  {
    hide Ok, IsLiveCell, Filled, PageOf, Ix, LowBit, HasBit, CellSize, SlabFor;
    var w, p := Filled(v, s, size), s + HEADER;
    FilledLive(v, s, size, p);
    forall q ensures IsLiveCell(w, q) <==> IsLiveCell(v, q) || q == p {
      FilledLive(v, s, size, q);
    }
    forall q | IsLiveCell(v, q) ensures CellSize(w, q) == CellSize(v, q) {
      FilledLive(v, s, size, q);
    }
    FilledMap(v, s, size);
    SlabIs(v, s);
    CellAddress(s, HEADER);
    SizeAt(w, s, p);
  }

  lemma FilledIs(v: Slabs, s: int, size: int)
    requires CanFill(v, s, size) && PageOf(s) in v.header
    ensures var p, b := PageOf(s), BitOf(Ix(s)); var m := v.header[p := v.header[p] - 0x100 * b];
      Filled(v, s, size) == v.(header := m[s := Fresh(if s in m then m[s] else 0, size).h], count := v.count[s := 1], lists := v.lists[s := []],
                               tree := (if Pagemap(v.header[p]) == b then v.tree - {s} else v.tree)[s := SizeTree(size)])
  {
  }

  lemma NewPageGained(v: Slabs, page: int, size: int, spare: int)
    requires Ok(v) && CanAdd(v, page) && size % 4 == 0 && 4 <= size <= MAXSLABSIZE
    ensures var w := NewPage(v, page, size, spare);
            Gained(v, w, page + HEADER) && CellSize(w, page + HEADER) == size && page + HEADER > 0
  {
    hide Ok, IsLiveCell, NewPage, PageOf, CellSize, SlabFor;
    var w, p := NewPage(v, page, size, spare), page + HEADER;
    NewPageLive(v, page, size, spare, p);
    forall q ensures IsLiveCell(w, q) <==> IsLiveCell(v, q) || q == p {
      NewPageLive(v, page, size, spare, q);
    }
    forall q | IsLiveCell(v, q) ensures CellSize(w, q) == CellSize(v, q) {
      NewPageLive(v, page, size, spare, q);
    }
    NewPageMap(v, page, size, spare);
    PageAddress(page, 0);
    CellAddress(page, HEADER);
    SizeAt(w, page, p);
  }

  lemma NewPageIs(v: Slabs, page: int, size: int, spare: int)
    requires size % 4 == 0
    ensures NewPage(v, page, size, spare) ==
      v.(header := v.header[page := 0xE00][page := Fresh(0xE00, size).h], count := v.count[page := 1], lists := v.lists[page := []],
         tree := v.tree[page + 3 * SLABSIZE := PARTIAL_PAGE][page := SizeTree(size)], pages := v.pages + {page}, spare := spare)
  {
  }

  /** The cached page can become a slab page again. */
  lemma SpareAdds(v: Slabs)
    requires Ok(v)
    ensures v.spare != 0 ==> CanAdd(v, v.spare)
  {
    hide SlabAt;
    if v.spare in v.pages {
      PageIs(v, v.spare);
    }
  }

  /** No slab of a page that is no slab page is linked. */
  lemma NotLinked(v: Slabs, page: int, i: int)
    requires Ok(v) && CanAdd(v, page) && 0 <= i < 4
    ensures var s := page + SLABSIZE * i; s !in v.tree && 0 < s < LIMIT
  {
    hide Ok, PageOf, Ix;
    PageAddress(page, i);
    if page + SLABSIZE * i in v.tree {
      LinkedIs(v, page + SLABSIZE * i);
    }
  }

  /** The cached page has been given back. */
  lemma SpareGone(v: Slabs)
    requires Ok(v)
    ensures Ok(v.(spare := 0)) && SameLives(v, v.(spare := 0))
  {
    hide Ok, CellsOk, HasBit, HiBit, PageOf, Ix, Pagemap, Size, Offset, IsLive;
    var w := v.(spare := 0);
    forall t | IsSlab(w, t) ensures SlabAt(w, t) {
      SlabIs(v, t);
    }
    forall p | p in w.pages ensures PageAt(w, p) {
      PageIs(v, p);
    }
    forall t ensures LinkedAt(w, t) {
      if t in v.tree {
        LinkedIs(v, t);
      }
    }
    AllAt(w);
    forall q ensures IsLiveCell(w, q) <==> IsLiveCell(v, q) {
      var t := SlabFor(q);
      if LiveIn(v, t, q) { SameLive(v, w, t, q); }
      if LiveIn(w, t, q) { SameLive(w, v, t, q); }
    }
  }

  /** The slab in the tree of pages with room is the highest empty one of its page; the lowest one is empty too. */
  lemma RoomIs(v: Slabs, r: int)
    requires Ok(v) && r in v.tree && v.tree[r] == PARTIAL_PAGE
    ensures var page := PageOf(r); var m := MapOf(v, page); var s := page + SLABSIZE * LowBit(m);
      && page in v.header && v.header[page] == Header(v, page) && m == Pagemap(v.header[page]) && 0 < m < 16
      && IsSlab(v, r) && r == LinkSlab(v, page)
      && IsSlab(v, s) && Empty(v, s) && Ix(s) == LowBit(m) && PageOf(s) == page && page % PAGESIZE == 0
      && (s in v.tree ==> s == r) && (m == BitOf(LowBit(m)) ==> s == r) && (m != BitOf(LowBit(m)) ==> s !in v.tree)
  {
    hide Ok, PageOf, Ix, HasBit, HiBit, LowBit, BitOf, Pagemap, CellsOk, Size;
    LinkedIs(v, r);
    SlabIs(v, r);
    SlabAddress(r);
    var page := PageOf(r);
    HeaderIs(v, page);
    var m := MapOf(v, page);
    EmptyRoom(v, r);
    LowBitIs(m);
    LinkPage(v, page);
    PageAddress(page, LowBit(m));
    var s := page + SLABSIZE * LowBit(m);
    SlabIs(v, s);
    ClearBit(m, LowBit(m));
    if m == BitOf(LowBit(m)) {
      SlabAddress(LinkSlab(v, page));
    }
  }

  lemma EmptyRoom(v: Slabs, r: int)
    requires Ok(v) && IsSlab(v, r) && r in v.tree && v.tree[r] == PARTIAL_PAGE
    ensures Empty(v, r) && Ix(r) == HiBit(MapOf(v, PageOf(r))) && 0 < MapOf(v, PageOf(r)) && PageOf(r) in v.header
  {
    hide Ok, PageOf, Ix, HasBit, HiBit, CellsOk, Pagemap;
    SlabIs(v, r);
    HeaderIs(v, PageOf(r));
    NoBits(Ix(r));
    PagemapZero();
  }

  lemma PagemapZero()
    ensures Pagemap(0) == 0
  {
  }

  /** The page of an empty slab is linked. */
  lemma RoomLink(v: Slabs, e: int)
    requires Ok(v) && IsSlab(v, e) && Empty(v, e)
    ensures var l := LinkSlab(v, PageOf(e)); l in v.tree && v.tree[l] == PARTIAL_PAGE && PageOf(l) == PageOf(e) && l >= e && l % SLABSIZE == 0
  {
    hide Ok, PageOf, Ix, HasBit, HiBit, CellsOk, Pagemap;
    SlabIs(v, e);
    HeaderIs(v, PageOf(e));
    NoBits(Ix(e));
    HiBitIs(MapOf(v, PageOf(e)));
    LinkPage(v, PageOf(e));
    SlabIs(v, LinkSlab(v, PageOf(e)));
  }

  /** An empty slab lies above the lowest empty slab of the lowest page with room. */
  lemma LowerPage(v: Slabs, r: int, e: int)
    requires Ok(v) && IsSlab(v, e) && Empty(v, e) && IsSlab(v, r) && r == LinkSlab(v, PageOf(r)) && r <= LinkSlab(v, PageOf(e))
    requires 0 < MapOf(v, PageOf(r)) < 16
    ensures PageOf(r) + SLABSIZE * LowBit(MapOf(v, PageOf(r))) <= e
  {
    hide Ok, PageOf, Ix, HasBit, HiBit, LowBit, Pagemap;
    SlabIs(v, e);
    HeaderIs(v, PageOf(e));
    LowBitIs(MapOf(v, PageOf(r)));
    SlabAddress(e);
    SlabAddress(r);
    HeaderIs(v, PageOf(r));
    PagesApart(PageOf(r), PageOf(e));
  }

  lemma PagesApart(p: int, q: int)
    requires p % PAGESIZE == 0 && q % PAGESIZE == 0
    ensures p == q || p + PAGESIZE <= q || q + PAGESIZE <= p
  {
  }

  /** The cell at p of its slab. */
  lemma WhichCell(v: Slabs, p: int) returns (k: int)
    requires Ok(v) && IsLiveCell(v, p)
    ensures var s := SlabFor(p);
      && IsSlab(v, s) && !Empty(v, s) && CellsOk(s, CellsOf(v, s), v.bytes) && IsLive(CellsOf(v, s), k)
      && p == s + Offset(Size(Header(v, s)), k) && s in v.header && v.header[s] == Header(v, s) && CellsOf(v, s).h == Header(v, s)
      && 0 < s < LIMIT && s % SLABSIZE == 0 && s in v.tree && 4 <= Size(Header(v, s)) <= MAXSLABSIZE && Size(Header(v, s)) % 4 == 0
      && v.tree[s] == (if Floating(Header(v, s)) then FULL else SizeTree(Size(Header(v, s))))
      && (Floating(Header(v, s)) ==> CellsOf(v, s).list == [] && CellsOf(v, s).n >= 2)
      && |CellsOf(v, s).list| < CellsOf(v, s).n
  {
    hide Ok, HasBit, HiBit, PageOf, Ix, ListOk, LinksOk, SlabFor, Offset, IsLive, Size;
    var s := SlabFor(p);
    SlabIs(v, s);
    SlabForAligned(p);
    k :| IsLive(CellsOf(v, s), k) && p == s + Offset(Size(Header(v, s)), k);
    SizeZero();
    SizeOfCells(CellsOf(v, s), s, v.bytes);
    if Floating(Header(v, s)) {
      ManyCells(Count(v, s), Size(Header(v, s)));
    }
  }

  /** A full slab has many cells. */
  lemma ManyCells(n: int, size: int)
    requires Times(n + 1, size) > PAYLOAD && 4 <= size <= MAXSLABSIZE
    ensures n >= 2
  {
    hide Times;
    TimesNext(0, size);
    TimesNext(1, size);
    if n + 1 < 2 {
      TimesOrder(n + 1, 2, size);
    }
  }

  /** What the words of SlabFree say. */
  lemma WordsOfFree(v: Slabs, s: int, c: Cells, k: int, h: int)
    requires CellsOk(s, c, v.bytes) && IsLive(c, k) && h == c.h - c.h % 0x100 + Offset(Size(c.h), k) / 4
    ensures h < FLOATING_BIT <==> !Floating(c.h)
    ensures !Floating(c.h) ==> var g := (h - SizeField(h) * 64) % WORD;
              (g < FLOATING_BIT <==> |c.list| + 1 < c.n) && (|c.list| + 1 < c.n ==> g == Pushed(c, k).h)
    ensures Floating(c.h) && |c.list| + 1 < c.n ==> h - SizeField(h) * 64 - FLOATING_BIT == Pushed(c, k).h
    ensures Offset(Size(c.h), k) / 4 * 4 == Offset(Size(c.h), k) && 0 <= Offset(Size(c.h), k) < 1024
  {
    hide ListOk, LinksOk, Size, Usedm4, Free, SizeField, Pagemap, Offset, IsHeader, Times;
    OffsetIs(c, k);
    WordFree(c.h, Offset(Size(c.h), k) / 4);
    LastUsed(c);
    if !Floating(c.h) {
      WordBorrow(h);
    }
    if |c.list| + 1 < c.n {
      ManyUsed(c);
      WordSub(h);
    }
  }

  lemma PushLost(v: Slabs, s: int, c: Cells, k: int)
    requires Ok(v) && IsSlab(v, s) && !Empty(v, s) && c == CellsOf(v, s) && CellsOk(s, c, v.bytes) && IsLive(c, k)
    requires |c.list| + 1 < c.n && Size(c.h) <= MAXSLABSIZE
    ensures var p := s + Offset(Size(c.h), k); var id := SizeTree(Size(c.h));
            var w := WithSlab(v, s, Pushed(c, k), v.bytes[p := Free(c.h)], v.tree[s := id]);
            Ok(w) && Lost(v, w, p)
  {
    hide Ok, IsSlab, Empty, CellsOk, Size, Usedm4, Free, SizeField, Pagemap, Floating, Offset, Lost, WithSlab, IsLive;
    var o := Offset(Size(c.h), k);
    var b := v.bytes[s + o := Free(c.h)];
    CellsHeader(v, s);
    CountsOfCells(s, c, v.bytes);
    OffsetOf(c, k);
    PushOk(s, c, v.bytes, k);
    WithSlabOk(v, s, Pushed(c, k), b, SizeTree(Size(c.h)), o, Free(c.h));
    LostOne(v, s, Pushed(c, k), b, v.tree[s := SizeTree(Size(c.h))], k);
  }

  lemma CountsOfCells(s: int, c: Cells, bytes: map<int, int>)
    requires CellsOk(s, c, bytes)
    ensures CountsOk(c)
  {
  }

  lemma OffsetOf(c: Cells, k: int)
    requires CountsOk(c) && IsLive(c, k)
    ensures 0 <= Offset(Size(c.h), k) < SLABSIZE
  {
    hide Offset, Size;
    OffsetIs(c, k);
  }

  /** The cells in use are the same but for those of slab s, which are no more. */
  ghost predicate Dropped(v: Slabs, w: Slabs, s: int) {
    && (forall q {:trigger IsLiveCell(w, q)} :: IsLiveCell(w, q) <==> IsLiveCell(v, q) && SlabFor(q) != s)
    && (forall q {:trigger IsLiveCell(w, q)} :: IsLiveCell(w, q) ==> CellSize(w, q) == CellSize(v, q))
  }

  lemma EmptiedDrops(v: Slabs, s: int)
    requires Ok(v) && IsSlab(v, s) && !Empty(v, s)
    ensures Dropped(v, Emptied(v, s), s)
  {
    hide Ok, IsSlab, Empty, Emptied, IsLiveCell, SlabFor, CellSize;
    forall q ensures (IsLiveCell(Emptied(v, s), q) <==> IsLiveCell(v, q) && SlabFor(q) != s)
                     && CellSize(Emptied(v, s), q) == CellSize(v, q) {
      EmptiedLive(v, s, q);
    }
  }

  lemma PageGoneDrops(v: Slabs, s: int, spare: int)
    requires Ok(v) && IsSlab(v, s) && forall t :: IsSlab(v, t) && PageOf(t) == PageOf(s) && t != s ==> Empty(v, t)
    ensures Dropped(v, PageGone(v, s, spare), s)
  {
    hide Ok, IsSlab, Empty, PageGone, IsLiveCell, SlabFor, CellSize;
    var w := PageGone(v, s, spare);
    forall q ensures (IsLiveCell(w, q) <==> IsLiveCell(v, q) && SlabFor(q) != s) && (IsLiveCell(w, q) ==> CellSize(w, q) == CellSize(v, q)) {
      PageGoneLive(v, s, spare, q);
    }
  }

  lemma PageWord(v: Slabs, s: int)
    requires Ok(v) && IsSlab(v, s) && !Empty(v, s)
    ensures var p := PageOf(s);
      && p in v.header && v.header[p] == Header(v, p) && Pagemap(v.header[p]) == MapOf(v, p) && 0 <= MapOf(v, p) < 15
      && !HasBit(MapOf(v, p), Ix(s)) && p in v.pages && MapOf(v, p) + BitOf(Ix(s)) < 16
  {
    hide Ok, PageOf, Ix, HasBit, HiBit, Pagemap, Size, CellsOk, BitOf;
    var p := PageOf(s);
    SlabIs(v, s);
    HeaderIs(v, p);
    SetBit(MapOf(v, p), Ix(s));
    PagemapZero();
    SizeZero();
    SlabAddress(s);
    PageAddress(p, 0);
    NoBits(Ix(p));
    SlabIs(v, p);
    if !Empty(v, p) {
      SizeOfCells(CellsOf(v, p), p, v.bytes);
      CellsHeader(v, p);
    }
  }

  lemma EmptiedIs(v: Slabs, s: int)
    requires PageOf(s) in v.header
    ensures var p := PageOf(s);
      Emptied(v, s) == v.(header := v.header[p := v.header[p] + 0x100 * BitOf(Ix(s))], tree := EmptiedTree(v, s))
  {
  }

  lemma PageGoneIs(v: Slabs, s: int, spare: int)
    requires PageOf(s) in v.header
    ensures var p := PageOf(s);
      PageGone(v, s, spare) == v.(header := v.header[p := v.header[p] + 0x100 * BitOf(Ix(s))], pages := v.pages - {p},
                                  tree := v.tree - {s} - {LinkSlab(v, p)}, spare := spare)
  {
  }

  /** The link of a page with room, seen from another slab of the page. */
  lemma LinkFacts(v: Slabs, s: int)
    requires Ok(v) && IsSlab(v, s) && !Empty(v, s) && MapOf(v, PageOf(s)) > 0
    ensures var l := LinkSlab(v, PageOf(s));
      && l in v.tree && v.tree[l] == PARTIAL_PAGE && l != s && l == PageOf(s) + SLABSIZE * HiBit(MapOf(v, PageOf(s)))
      && forall c :: c in v.tree && v.tree[c] == PARTIAL_PAGE && c > l ==> c > s
  {
    hide Ok, PageOf, Ix, HasBit, HiBit, LowBit, Pagemap, CellsOk, BitOf;
    var page := PageOf(s);
    SlabIs(v, s);
    HeaderIs(v, page);
    HiBitIs(MapOf(v, page));
    LinkPage(v, page);
    SlabIs(v, LinkSlab(v, page));
    forall c | c in v.tree && v.tree[c] == PARTIAL_PAGE && c > LinkSlab(v, page) ensures c > s {
      RoomIs(v, c);
      SlabIs(v, c);
      SlabAddress(s);
      PagesApart(page, PageOf(c));
    }
  }

  /** A user may write to a cell in use. */
  lemma LiveByte(v: Slabs, s: int, k: int, p: int, x: int)
    requires Ok(v) && IsSlab(v, s) && !Empty(v, s) && CellsOk(s, CellsOf(v, s), v.bytes) && IsLive(CellsOf(v, s), k)
    requires p == s + Offset(Size(Header(v, s)), k)
    ensures var w := v.(bytes := v.bytes[p := x]); Ok(w) && SameLives(v, w) && IsSlab(w, s) && !Empty(w, s)
  {
    hide Ok, PageOf, Ix, HasBit, HiBit, Pagemap, CellsOk, Size, IsLive, Offset;
    var w := v.(bytes := v.bytes[p := x]);
    SlabIs(v, s);
    CountsOfCells(s, CellsOf(v, s), v.bytes);
    CellsHeader(v, s);
    OffsetOf(CellsOf(v, s), k);
    forall t | IsSlab(w, t) ensures SlabAt(w, t) {
      SlabIs(v, t);
      if !Empty(v, t) {
        if t == s {
          LiveByteSelf(s, CellsOf(v, s), v.bytes, k, x);
        } else {
          OtherBytes(t, CellsOf(v, t), v.bytes, w.bytes, s, Offset(Size(Header(v, s)), k), x);
        }
      }
    }
    forall t | t in w.pages ensures PageAt(w, t) {
      PageIs(v, t);
    }
    forall t ensures LinkedAt(w, t) {
      if t in v.tree {
        LinkedIs(v, t);
      }
    }
    SpareIs(v);
    AllAt(w);
    forall q ensures IsLiveCell(w, q) <==> IsLiveCell(v, q) {
      var t := SlabFor(q);
      if LiveIn(v, t, q) { SameLive(v, w, t, q); }
      if LiveIn(w, t, q) { SameLive(w, v, t, q); }
    }
  }

  lemma LiveByteSelf(s: int, c: Cells, bytes: map<int, int>, k: int, x: int)
    requires CellsOk(s, c, bytes) && IsLive(c, k)
    ensures CellsOk(s, c, bytes[s + Offset(Size(c.h), k) := x])
  {
    hide CountsOk, ListOk, LinksOk, Offset, Size;
    FreeIs(c);
    var b := bytes[s + Offset(Size(c.h), k) := x];
    forall i ensures LinkAt(s, c, b, i) {
      ListIs(s, c, bytes, i, 0);
      if 0 <= i < |c.list| {
        assert c.list[i] in c.list;
        DifferentCells(c, c.list[i], k);
      }
    }
    AllLinked(s, c, b);
  }

  lemma LostLast(v: Slabs, v1: Slabs, w: Slabs, s: int, k: int, p: int)
    requires Ok(v) && IsSlab(v, s) && !Empty(v, s) && CellsOk(s, CellsOf(v, s), v.bytes) && IsLive(CellsOf(v, s), k)
    requires |CellsOf(v, s).list| + 1 == CellsOf(v, s).n && p == s + Offset(Size(Header(v, s)), k)
    requires SameLives(v, v1) && Dropped(v1, w, s)
    ensures Lost(v, w, p)
  {
    hide Ok, IsSlab, Empty, CellsOk, Size, Offset, IsLive, IsLiveCell, SlabFor, CellSize, Header, CellsOf, LiveAt;
    var c := CellsOf(v, s);
    CellsHeader(v, s);
    LiveAtIs(c, s, k);
    SlabIsAligned(v, s);
    CellIn(c, s, v.bytes, p);
    LiveCellIs(v, s, p);
    forall q ensures IsLiveCell(w, q) <==> IsLiveCell(v, q) && q != p {
      assert IsLiveCell(v1, q) <==> IsLiveCell(v, q);
      if SlabFor(q) == s && IsLiveCell(v, q) {
        LiveCellIs(v, s, q);
        OnlyAt(c, s, v.bytes, k, q);
      }
    }
    forall q | IsLiveCell(w, q) ensures CellSize(w, q) == CellSize(v, q) {
      assert IsLiveCell(v1, q);
    }
  }

  lemma LiveCellIs(v: Slabs, s: int, q: int)
    requires IsSlab(v, s) && !Empty(v, s) && SlabFor(q) == s
    ensures IsLiveCell(v, q) <==> LiveAt(CellsOf(v, s), s, q)
  {
    hide IsSlab, Empty, Size, Offset, IsLive, Header, CellsOf;
    LiveInIs(v, s, q);
  }

  lemma OnlyAt(c: Cells, s: int, bytes: map<int, int>, k: int, q: int)
    requires CellsOk(s, c, bytes) && IsLive(c, k) && |c.list| + 1 == c.n && LiveAt(c, s, q)
    ensures q == s + Offset(Size(c.h), k)
  {
    hide Size, Offset, IsLive, ListOk, LinksOk;
    var j :| IsLive(c, j) && q == s + Offset(Size(c.h), j);
    OnlyLive(c, j, k);
  }
}
