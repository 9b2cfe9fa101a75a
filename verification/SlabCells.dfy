/** One slab: 1 KB with a 16-byte header and cells of one size behind it. The header word packs the position of
    the first free cell, the map of empty slabs of the page (in the first slab of the page), the cell size, the
    number of bytes in use less four, and the flag of a slab that was found full. */
module SlabCells {

  const HEADER: int := 16
  const PAYLOAD: int := 1008
  const WORD: int := 0x1_0000_0000
  const FLOATING_BIT: int := 0x8000_0000
  const MAXUSEDM4BITS: int := 0x0FC0_0000

  // ---------- the header word ----------

  function Pack(free: int, pagemap: int, size: int, usedm4: int, floating: bool): int {
    free + 0x100 * pagemap + 0x1000 * size + 0x4_0000 * usedm4 + if floating then FLOATING_BIT else 0
  }

  /** h & 0xff */
  function Free(h: int): int { h % 0x100 }

  function Pagemap(h: int): int { h / 0x100 % 16 }

  function Size(h: int): int { h / 0x1000 % 64 }

  function Usedm4(h: int): int { h / 0x4_0000 % 1024 }

  function Floating(h: int): bool { h >= FLOATING_BIT }

  predicate InFields(free: int, pagemap: int, size: int, usedm4: int) {
    0 <= free < 256 && 0 <= pagemap < 16 && 0 <= size < 64 && 0 <= usedm4 < 1024
  }

  /** A word with bits 28 to 30 clear is made of its fields. */
  predicate IsHeader(h: int) {
    0 <= h < 0x1000_0000 || FLOATING_BIT <= h < FLOATING_BIT + 0x1000_0000
  }

  lemma Unpack(free: int, pagemap: int, size: int, usedm4: int, floating: bool)
    requires InFields(free, pagemap, size, usedm4)
    ensures var h := Pack(free, pagemap, size, usedm4, floating);
      && IsHeader(h) && Free(h) == free && Pagemap(h) == pagemap && Size(h) == size && Usedm4(h) == usedm4
      && (Floating(h) <==> floating)
  {
    var top := usedm4 + if floating then 0x2000 else 0;
    var h := Pack(free, pagemap, size, usedm4, floating);
    UnpackLow(free, pagemap, size + 0x40 * top);
    UnpackHigh(size, top);
    assert h == free + 0x100 * (pagemap + 0x10 * (size + 0x40 * top));
    hide Free, Pagemap, Size, Usedm4;
    FieldsOf(h);
  }

  lemma UnpackLow(free: int, pagemap: int, rest: int)
    requires 0 <= free < 256 && 0 <= pagemap < 16
    ensures var h := free + 0x100 * (pagemap + 0x10 * rest); h % 0x100 == free && h / 0x100 % 16 == pagemap && h / 0x1000 == rest
  {
  }

  lemma UnpackHigh(size: int, top: int)
    requires 0 <= size < 64
    ensures (size + 0x40 * top) % 64 == size && (size + 0x40 * top) / 64 == top
  {
  }

  lemma FieldsOf(h: int)
    ensures Free(h) == h % 0x100 && Pagemap(h) == h / 0x100 % 16 && Size(h) == h / 0x1000 % 64
    ensures Usedm4(h) == h / 0x1000 / 64 % 1024
  {
  }

  lemma Repack(h: int)
    requires IsHeader(h)
    ensures h == Pack(Free(h), Pagemap(h), Size(h), Usedm4(h), Floating(h))
    ensures InFields(Free(h), Pagemap(h), Size(h), Usedm4(h))
  {
    FieldsOf(h);
    hide Free, Pagemap, Size, Usedm4;
    var rest := h / 0x1000;
    RepackLow(h);
    RepackHigh(rest);
    var top := rest / 64;
    assert top < 1024 || 0x2000 <= top < 0x2000 + 1024;
  }

  lemma RepackLow(h: int)
    ensures h == h % 0x100 + 0x100 * (h / 0x100 % 16) + 0x1000 * (h / 0x1000)
  {
  }

  lemma RepackHigh(rest: int)
    ensures rest == rest % 64 + 64 * (rest / 64)
  {
  }

  /** h & 0x3C000: four times the cell size in units of four bytes, in place. */
  function SizeField(h: int): int {
    h / 0x4000 % 16 * 0x4000
  }

  lemma SizeFieldIs(h: int)
    requires IsHeader(h) && Size(h) % 4 == 0
    ensures SizeField(h) * 64 == Size(h) * 0x4_0000
  {
    var t := h / 0x1000;
    FieldsOf(h);
    Quarter(h);
    QuarterOf64(t);
    hide Size;
    assert t % 64 == Size(h);
  }

  lemma Quarter(h: int)
    ensures h / 0x4000 == h / 0x1000 / 4
  {
  }

  lemma QuarterOf64(t: int)
    requires t % 64 % 4 == 0
    ensures t / 4 % 16 * 4 == t % 64
  {
  }

  /** The same word with another free position, and with other bytes in use. */
  predicate WordLike(h: int, g: int, free: int, usedm4: int, floating: bool) {
    && IsHeader(g) && Size(g) == Size(h) && Pagemap(g) == Pagemap(h)
    && Free(g) == free && Usedm4(g) == usedm4 && (Floating(g) <==> floating)
  }

  lemma WordAdd(h: int)
    requires IsHeader(h) && Size(h) % 4 == 0 && Usedm4(h) + Size(h) < 1024
    ensures WordLike(h, h + SizeField(h) * 64, Free(h), Usedm4(h) + Size(h), Floating(h))
  {
    SizeFieldIs(h);
    Repack(h);
    hide Free, Pagemap, Size, Usedm4, SizeField, IsHeader, Floating;
    Unpack(Free(h), Pagemap(h), Size(h), Usedm4(h) + Size(h), Floating(h));
  }

  lemma WordSub(h: int)
    requires IsHeader(h) && Size(h) % 4 == 0 && Size(h) <= Usedm4(h)
    ensures WordLike(h, h - SizeField(h) * 64, Free(h), Usedm4(h) - Size(h), Floating(h))
  {
    SizeFieldIs(h);
    Repack(h);
    hide Free, Pagemap, Size, Usedm4, SizeField, IsHeader, Floating;
    Unpack(Free(h), Pagemap(h), Size(h), Usedm4(h) - Size(h), Floating(h));
  }

  /** When the last cell goes, the subtraction borrows from the sign bit. */
  lemma WordBorrow(h: int)
    requires IsHeader(h) && Size(h) % 4 == 0 && !Floating(h)
    ensures (h - SizeField(h) * 64) % WORD >= FLOATING_BIT <==> Usedm4(h) < Size(h)
    ensures Usedm4(h) >= Size(h) ==> (h - SizeField(h) * 64) % WORD == h - SizeField(h) * 64
  {
    SizeFieldIs(h);
    Repack(h);
    hide Free, Pagemap, Size, Usedm4, SizeField, IsHeader;
    var g := h - SizeField(h) * 64;
    if Usedm4(h) < Size(h) {
      assert g < 0;
      assert g % WORD == g + WORD;
    }
  }

  lemma WordFree(h: int, free: int)
    requires IsHeader(h) && 0 <= free < 256
    ensures WordLike(h, h - h % 0x100 + free, free, Usedm4(h), Floating(h))
  {
    Repack(h);
    assert h % 0x100 == Free(h);
    hide Free, Pagemap, Size, Usedm4, IsHeader, Floating;
    Unpack(free, Pagemap(h), Size(h), Usedm4(h), Floating(h));
  }

  lemma WordFloat(h: int)
    requires IsHeader(h)
    ensures Floating(h) ==> WordLike(h, h - FLOATING_BIT, Free(h), Usedm4(h), false)
    ensures !Floating(h) ==> WordLike(h, h + FLOATING_BIT, Free(h), Usedm4(h), true)
  {
    Repack(h);
    hide Free, Pagemap, Size, Usedm4, IsHeader;
    Unpack(Free(h), Pagemap(h), Size(h), Usedm4(h), !Floating(h));
  }

  /** A bit of the map of empty slabs is set or cleared: h | 0x100 << i, h & ~(0x100 << i). */
  lemma WordMap(h: int, pagemap: int)
    requires IsHeader(h) && 0 <= pagemap < 16
    ensures var g := h + (pagemap - Pagemap(h)) * 0x100;
      && IsHeader(g) && Pagemap(g) == pagemap && Size(g) == Size(h) && Free(g) == Free(h) && Usedm4(g) == Usedm4(h)
      && (Floating(g) <==> Floating(h))
  {
    Repack(h);
    hide Free, Pagemap, Size, Usedm4, IsHeader, Floating;
    Unpack(Free(h), pagemap, Size(h), Usedm4(h), Floating(h));
  }

  /** A word that fits the test for room has room for another cell. */
  lemma WordRoom(h: int)
    requires IsHeader(h) && Size(h) % 4 == 0 && !Floating(h)
    ensures h + SizeField(h) * 64 < MAXUSEDM4BITS <==> Usedm4(h) + Size(h) < PAYLOAD
  {
    SizeFieldIs(h);
    Repack(h);
    hide Free, Pagemap, Size, Usedm4, SizeField, IsHeader;
  }

  lemma WordUsed(h: int)
    requires IsHeader(h) && !Floating(h)
    ensures h / 0x4_0000 == Usedm4(h)
  {
  }

  // ---------- the cells ----------

  /** What a slab holds: its header word, how many cells have been carved off, and which of them are on the
      free list, first to last. */
  datatype Cells = Cells(h: int, n: int, list: seq<int>)

  function Times(k: int, size: int): int {
    k * size
  }

  /** The offset of cell k from the start of the slab. */
  function Offset(size: int, k: int): int {
    HEADER + Times(k, size)
  }

  /** The offset of entry i of the free list, or 0 at its end. */
  function Entry(c: Cells, i: int): int
    requires 0 <= i <= |c.list|
  {
    if i < |c.list| then Offset(Size(c.h), c.list[i]) else 0
  }

  function ByteAt(m: map<int, int>, a: int): int {
    if a in m then m[a] else 0
  }

  predicate Listed(c: Cells, i: int) {
    0 <= i < |c.list| ==> 0 <= c.list[i] < c.n
  }

  predicate Differ(c: Cells, i: int, j: int) {
    0 <= i < j < |c.list| ==> c.list[i] != c.list[j]
  }

  /** Cells on the free list are carved, and there is no cycle. */
  ghost predicate ListOk(c: Cells) {
    (forall i {:trigger Listed(c, i)} :: Listed(c, i)) && (forall i, j {:trigger Differ(c, i, j)} :: Differ(c, i, j))
  }

  /** The first byte of a free cell leads to the next one. */
  predicate LinkAt(s: int, c: Cells, bytes: map<int, int>, i: int) {
    0 <= i < |c.list| ==> ByteAt(bytes, s + Entry(c, i)) * 4 == Entry(c, i + 1)
  }

  ghost predicate LinksOk(s: int, c: Cells, bytes: map<int, int>) {
    forall i {:trigger LinkAt(s, c, bytes, i)} :: LinkAt(s, c, bytes, i)
  }

  predicate CountsOk(c: Cells) {
    var size := Size(c.h);
    && IsHeader(c.h) && size % 4 == 0 && 4 <= size && |c.list| < c.n && Times(c.n, size) <= PAYLOAD
    && Usedm4(c.h) + 4 == Times(c.n - |c.list|, size)
    && Free(c.h) * 4 == Entry(c, 0)
  }

  ghost predicate CellsOk(s: int, c: Cells, bytes: map<int, int>) {
    CountsOk(c) && ListOk(c) && LinksOk(s, c, bytes)
  }

  /** Cell k of the slab belongs to a user. */
  predicate IsLive(c: Cells, k: int) {
    0 <= k < c.n && k !in c.list
  }

  lemma TimesOrder(j: int, k: int, size: int)
    requires 4 <= size && j < k
    ensures Times(j, size) + size <= Times(k, size)
  {
    var d := k - j - 1;
    assert k * size == j * size + size + d * size;
    NonNeg(d, size);
  }

  lemma NonNeg(d: int, size: int)
    requires 0 <= d && 0 <= size
    ensures 0 <= d * size
  {
  }

  lemma TimesNext(k: int, size: int)
    ensures Times(k + 1, size) == Times(k, size) + size && Times(0, size) == 0
  {
  }

  lemma TimesFour(k: int, size: int)
    requires size % 4 == 0
    ensures Times(k, size) % 4 == 0
  {
    var q := size / 4;
    assert size == 4 * q;
    assert k * size == 4 * (k * q);
  }

  /** A carved cell lies within the slab, at an offset that fits the free field. */
  lemma OffsetIs(c: Cells, k: int)
    requires CountsOk(c) && 0 <= k < c.n
    ensures var o := Offset(Size(c.h), k); HEADER <= o && o + Size(c.h) <= 1024 && o % 4 == 0
  {
    hide Size, Times, IsHeader, Free, Usedm4;
    var size := Size(c.h);
    TimesFour(k, size);
    TimesNext(0, size);
    if k > 0 {
      TimesOrder(0, k, size);
    }
    if k + 1 < c.n {
      TimesOrder(k + 1, c.n, size);
    }
    TimesNext(k, size);
  }

  /** The cell is popped from the front of the free list. */
  function Popped(c: Cells, next: int): Cells
    requires c.list != []
  {
    var h := c.h + SizeField(c.h) * 64;
    Cells(h - h % 0x100 + next, c.n, c.list[1..])
  }

  lemma PopOk(s: int, c: Cells, bytes: map<int, int>)
    requires CellsOk(s, c, bytes) && c.list != [] && !Floating(c.h)
    ensures var c' := Popped(c, ByteAt(bytes, s + Free(c.h) * 4));
      && CellsOk(s, c', bytes) && Size(c'.h) == Size(c.h) && Pagemap(c'.h) == Pagemap(c.h) && !Floating(c'.h)
      && Free(c.h) * 4 == Offset(Size(c.h), c.list[0])
      && forall k {:trigger IsLive(c', k)} :: IsLive(c', k) <==> IsLive(c, k) || k == c.list[0]
    ensures !IsLive(c, c.list[0])
  {
    hide Size, Usedm4, Pagemap, Free, SizeField, Times, IsHeader, Floating, ListOk, LinksOk;
    var size, next := Size(c.h), ByteAt(bytes, s + Free(c.h) * 4);
    ListFirst(s, c, bytes);
    OffsetOrEnd(c, 1);
    UsedRoom(c);
    WordAdd(c.h);
    WordFree(c.h + SizeField(c.h) * 64, next);
    var c' := Popped(c, next);
    TimesNext(c.n - |c.list|, size);
    PopList(s, c, c', bytes);
  }

  lemma ListFirst(s: int, c: Cells, bytes: map<int, int>)
    requires CellsOk(s, c, bytes) && c.list != []
    ensures ByteAt(bytes, s + Entry(c, 0)) * 4 == Entry(c, 1) && c.list[0] in c.list && 0 <= c.list[0] < c.n
  {
    hide Entry;
    assert LinkAt(s, c, bytes, 0) && Listed(c, 0);
  }

  lemma OffsetOrEnd(c: Cells, i: int)
    requires CountsOk(c) && ListOk(c) && 0 <= i <= |c.list|
    ensures 0 <= Entry(c, i) < 1024 && Entry(c, i) % 4 == 0 && Entry(c, i) / 4 < 256
  {
    hide Size, Usedm4, Pagemap, Free, Times, IsHeader, Offset;
    if i < |c.list| {
      assert Listed(c, i);
      OffsetIs(c, c.list[i]);
    }
  }

  lemma UsedRoom(c: Cells)
    requires CountsOk(c) && c.list != []
    ensures Usedm4(c.h) + Size(c.h) < PAYLOAD
  {
    hide Size, Usedm4, Pagemap, Free, Times, IsHeader, Offset;
    TimesOrder(c.n - |c.list|, c.n, Size(c.h));
  }

  lemma PopList(s: int, c: Cells, c': Cells, bytes: map<int, int>)
    requires ListOk(c) && LinksOk(s, c, bytes) && c.list != []
    requires c'.list == c.list[1..] && c'.n == c.n && Size(c'.h) == Size(c.h)
    ensures ListOk(c') && LinksOk(s, c', bytes) && Entry(c', 0) == Entry(c, 1)
    ensures forall k {:trigger IsLive(c', k)} :: IsLive(c', k) <==> IsLive(c, k) || k == c.list[0]
  {
    hide ListOk, LinksOk;
    forall i ensures Listed(c', i) {
      ListIs(s, c, bytes, i + 1, 0);
    }
    forall i, j ensures Differ(c', i, j) {
      ListIs(s, c, bytes, i + 1, j + 1);
    }
    forall i ensures LinkAt(s, c', bytes, i) {
      ListIs(s, c, bytes, i + 1, 0);
    }
    AllListed(s, c', bytes);
    forall k ensures IsLive(c', k) <==> IsLive(c, k) || k == c.list[0] {
      assert c.list == [c.list[0]] + c'.list;
      ListIs(s, c, bytes, 0, 0);
      if k == c.list[0] && k in c'.list {
        NotTwice(s, c, bytes);
      }
    }
  }

  lemma ListIs(s: int, c: Cells, bytes: map<int, int>, i: int, j: int)
    requires ListOk(c) && LinksOk(s, c, bytes)
    ensures Listed(c, i) && Differ(c, i, j) && LinkAt(s, c, bytes, i)
  {
    hide Listed, Differ, LinkAt;
  }

  lemma AllListed(s: int, c: Cells, bytes: map<int, int>)
    requires (forall i {:trigger Listed(c, i)} :: Listed(c, i)) && (forall i, j {:trigger Differ(c, i, j)} :: Differ(c, i, j))
    requires forall i {:trigger LinkAt(s, c, bytes, i)} :: LinkAt(s, c, bytes, i)
    ensures ListOk(c) && LinksOk(s, c, bytes)
  {
    hide Listed, Differ, LinkAt;
  }

  /** The first cell of the list is not on the rest of it. */
  lemma NotTwice(s: int, c: Cells, bytes: map<int, int>)
    requires ListOk(c) && LinksOk(s, c, bytes) && c.list != []
    ensures c.list[0] !in c.list[1..]
  {
    hide ListOk, LinksOk;
    forall i | 0 <= i < |c.list[1..]| ensures c.list[1..][i] != c.list[0] {
      ListIs(s, c, bytes, 0, i + 1);
    }
  }

  /** A new cell is carved off behind the others. */
  function Carved(c: Cells): Cells {
    Cells(c.h + SizeField(c.h) * 64, c.n + 1, [])
  }

  lemma CarveOk(s: int, c: Cells, bytes: map<int, int>)
    requires CellsOk(s, c, bytes) && c.list == [] && !Floating(c.h) && c.h + SizeField(c.h) * 64 < MAXUSEDM4BITS
    ensures var c' := Carved(c);
      && CellsOk(s, c', bytes) && Size(c'.h) == Size(c.h) && Pagemap(c'.h) == Pagemap(c.h) && !Floating(c'.h)
      && c.h / 0x4_0000 + 4 + HEADER == Offset(Size(c.h), c.n)
      && forall k {:trigger IsLive(c', k)} :: IsLive(c', k) <==> IsLive(c, k) || k == c.n
    ensures !IsLive(c, c.n)
  {
    hide Size, Usedm4, Pagemap, Free, SizeField, Times, IsHeader, Floating;
    WordRoom(c.h);
    WordAdd(c.h);
    WordUsed(c.h);
    TimesNext(c.n, Size(c.h));
    OffsetOrEnd(c, 0);
    TimesFour(c.n + 1, Size(c.h));
  }

  /** Without a free list and without room the slab has no cell left. */
  lemma FullIs(c: Cells)
    requires CountsOk(c) && c.list == [] && !Floating(c.h) && c.h + SizeField(c.h) * 64 >= MAXUSEDM4BITS
    ensures Times(c.n + 1, Size(c.h)) > PAYLOAD
  {
    hide Size, Usedm4, Pagemap, Free, SizeField, Times, IsHeader, Floating;
    WordRoom(c.h);
    TimesNext(c.n, Size(c.h));
    TimesFour(c.n, Size(c.h));
  }

  /** A live cell is pushed on the free list; a full slab is full no more. */
  function Pushed(c: Cells, k: int): Cells {
    var h := c.h - c.h % 0x100 + Offset(Size(c.h), k) / 4;
    var g := h - SizeField(h) * 64;
    Cells(if Floating(g) then g - FLOATING_BIT else g, c.n, [k] + c.list)
  }

  lemma PushOk(s: int, c: Cells, bytes: map<int, int>, k: int)
    requires CellsOk(s, c, bytes) && IsLive(c, k) && |c.list| + 1 < c.n
    ensures var c' := Pushed(c, k);
      && CellsOk(s, c', bytes[s + Offset(Size(c.h), k) := Free(c.h)])
      && Size(c'.h) == Size(c.h) && Pagemap(c'.h) == Pagemap(c.h) && !Floating(c'.h)
      && forall j {:trigger IsLive(c', j)} :: IsLive(c', j) <==> IsLive(c, j) && j != k
  {
    hide Size, Usedm4, Pagemap, Free, SizeField, Times, IsHeader, Floating, ListOk, LinksOk, Offset;
    var size := Size(c.h);
    OffsetIs(c, k);
    var free := Offset(size, k) / 4;
    WordFree(c.h, free);
    var h := c.h - c.h % 0x100 + free;
    ManyUsed(c);
    WordSub(h);
    WordFloat(h - SizeField(h) * 64);
    TimesNext(c.n - |c.list| - 1, size);
    PushList(s, c, Pushed(c, k), bytes, k);
  }

  /** Two live cells or more: the bytes in use do not run out with one of them. */
  lemma ManyUsed(c: Cells)
    requires CountsOk(c) && |c.list| + 1 < c.n
    ensures Size(c.h) <= Usedm4(c.h)
  {
    hide Size, Usedm4, Pagemap, Free, Times, IsHeader, Offset;
    var m, size := c.n - |c.list|, Size(c.h);
    TimesNext(0, size);
    TimesNext(1, size);
    if m > 2 {
      TimesOrder(2, m, size);
    }
  }

  /** One live cell: the slab becomes empty with it, and only then does the subtraction borrow. */
  lemma LastUsed(c: Cells)
    requires CountsOk(c)
    ensures Usedm4(c.h) < Size(c.h) <==> |c.list| + 1 == c.n
  {
    hide Size, Usedm4, Pagemap, Free, Times, IsHeader, Offset;
    if |c.list| + 1 < c.n {
      ManyUsed(c);
    } else {
      TimesNext(0, Size(c.h));
    }
  }

  lemma PushList(s: int, c: Cells, c': Cells, bytes: map<int, int>, k: int)
    requires ListOk(c) && LinksOk(s, c, bytes) && IsLive(c, k) && CountsOk(c)
    requires c'.list == [k] + c.list && c'.n == c.n && Size(c'.h) == Size(c.h)
    ensures ListOk(c') && LinksOk(s, c', bytes[s + Offset(Size(c.h), k) := Free(c.h)])
    ensures forall j {:trigger IsLive(c', j)} :: IsLive(c', j) <==> IsLive(c, j) && j != k
  {
    hide Size, Offset, CountsOk, ListOk, LinksOk;
    FreeIs(c);
    var b := bytes[s + Offset(Size(c.h), k) := Free(c.h)];
    forall i ensures Listed(c', i) {
      ListIs(s, c, bytes, i - 1, 0);
    }
    forall i, j ensures Differ(c', i, j) {
      ListIs(s, c, bytes, i - 1, j - 1);
    }
    forall i ensures LinkAt(s, c', b, i) {
      ListIs(s, c, bytes, i - 1, 0);
      if 0 < i < |c'.list| {
        DifferentCells(c, c.list[i - 1], k);
      }
    }
    AllListed(s, c', b);
  }

  lemma FreeIs(c: Cells)
    requires CountsOk(c)
    ensures Free(c.h) * 4 == Entry(c, 0) && Size(c.h) >= 4
  {
  }

  lemma DifferentCells(c: Cells, j: int, k: int)
    requires Size(c.h) >= 4 && j != k
    ensures Offset(Size(c.h), j) != Offset(Size(c.h), k)
  {
    hide Size, Times;
    if j < k {
      TimesOrder(j, k, Size(c.h));
    } else {
      TimesOrder(k, j, Size(c.h));
    }
  }

  /** A new slab with its first cell in use; only the map of the page is kept of the old word. */
  function Fresh(h: int, size: int): Cells {
    Cells(h / 0x100 % 16 * 0x100 + size * 0x1000 + (size - 4) * 0x4_0000, 1, [])
  }

  lemma FreshOk(s: int, h: int, size: int, bytes: map<int, int>)
    requires size % 4 == 0 && 4 <= size < 64
    ensures var c := Fresh(h, size);
      && CellsOk(s, c, bytes) && Size(c.h) == size && Pagemap(c.h) == Pagemap(h) && !Floating(c.h)
      && Offset(size, 0) == HEADER && forall k {:trigger IsLive(c, k)} :: IsLive(c, k) <==> k == 0
  {
    TimesNext(0, size);
    Unpack(0, Pagemap(h), size, size - 4, false);
    hide Size, Usedm4, Free, Times, IsHeader, Floating;
  }

  /** The cells do not depend on the map of empty slabs. */
  lemma MapDoesNotMatter(s: int, c: Cells, g: int, bytes: map<int, int>)
    requires CellsOk(s, c, bytes) && IsHeader(g) && Size(g) == Size(c.h) && Free(g) == Free(c.h) && Usedm4(g) == Usedm4(c.h)
    ensures CellsOk(s, c.(h := g), bytes)
    ensures forall k {:trigger IsLive(c.(h := g), k)} :: IsLive(c.(h := g), k) <==> IsLive(c, k)
  {
    hide Size, Free, Usedm4, IsHeader, ListOk, LinksOk, Offset, Times;
    var c' := c.(h := g);
    forall i ensures Listed(c', i) && LinkAt(s, c', bytes, i) {
      ListIs(s, c, bytes, i, 0);
    }
    forall i, j ensures Differ(c', i, j) {
      ListIs(s, c, bytes, i, j);
    }
    AllListed(s, c', bytes);
  }

  // ---------- counting ----------

  /** The cells on the free list from entry i on. */
  function Listing(c: Cells, i: nat): set<int>
    requires i <= |c.list|
    decreases |c.list| - i
  {
    if i == |c.list| then {} else {c.list[i]} + Listing(c, i + 1)
  }

  lemma {:induction false} ListingIs(c: Cells, i: nat)
    requires ListOk(c) && i <= |c.list|
    ensures |Listing(c, i)| == |c.list| - i
    ensures forall k {:trigger k in Listing(c, i)} :: k in Listing(c, i) <==> exists j {:trigger c.list[j]} :: i <= j < |c.list| && c.list[j] == k
    decreases |c.list| - i
  {
    if i < |c.list| {
      ListingIs(c, i + 1);
      forall j | i + 1 <= j < |c.list| ensures c.list[j] != c.list[i] {
        assert Differ(c, i, j);
      }
    }
  }

  function Upto(n: nat): (r: set<int>)
    ensures |r| == n && forall k :: k in r <==> 0 <= k < n
  {
    if n == 0 then {} else Upto(n - 1) + {n - 1}
  }

  lemma SubsetSize(a: set<int>, b: set<int>)
    requires forall k :: k in a ==> k in b
    ensures |a| <= |b|
  {
    assert forall k :: k in a + (b - a) <==> k in b;
    assert a + (b - a) == b;
  }

  /** When all cells but one are on the free list, there is no other live cell. */
  lemma OnlyLive(c: Cells, j: int, k: int)
    requires ListOk(c) && |c.list| + 1 == c.n && IsLive(c, j) && IsLive(c, k)
    ensures j == k
  {
    if j != k {
      ListingIs(c, 0);
      var rest := Upto(c.n) - {j} - {k};
      forall x | x in Listing(c, 0) ensures x in rest {
        var i :| 0 <= i < |c.list| && c.list[i] == x;
        assert Listed(c, i);
      }
      SubsetSize(Listing(c, 0), rest);
    }
  }
}
