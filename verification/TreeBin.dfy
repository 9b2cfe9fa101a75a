/** The bins of large free chunks: one bitwise trie of sizes for each bin. A node of a trie carries the ring
    of all free chunks of its size; only the head of the ring is linked into the trie. */
module TreeBins {
  import opened SizeBits
  import BinMaps

  /** A pointer to a tree chunk that can be assigned to: a bin, or child 0 or 1 of a chunk. */
  datatype Cell = BinCell(i: int) | Kid(of: int, one: bool)

  /** The fields of a chunk in a bin. */
  datatype Chunk = Chunk(size: int, fd: int, bk: int, child0: int, child1: int, parent: int, index: int)

  /** The book-keeping of the proof: the head of the ring a chunk is on, the depth of a head in its trie, and
      the order of arrival on the ring. */
  datatype Note = Note(head: int, depth: nat, stamp: int)

  /** A snapshot of the bins. 0 is the null chunk. */
  datatype Trie = Trie(chunks: map<int, Chunk>, bins: map<int, int>, marked: set<int>, notes: map<int, Note>, now: int)

  function At(m: map<int, int>, k: int): int {
    if k in m then m[k] else 0
  }

  const NONE := Chunk(0, 0, 0, 0, 0, 0, 0)

  function Of(m: map<int, Chunk>, t: int): Chunk {
    if t in m then m[t] else NONE
  }

  function On(m: map<int, Note>, t: int): Note {
    if t in m then m[t] else Note(0, 0, 0)
  }

  /** The parent of a root is the address of its bin, which is not that of a chunk. */
  function BinPtr(i: int): int {
    -1 - i
  }

  function Content(v: Trie, c: Cell): int {
    match c
    case BinCell(i) => At(v.bins, i)
    case Kid(t, one) => if one then Of(v.chunks, t).child1 else Of(v.chunks, t).child0
  }

  function Fd(v: Trie, t: int): int { Of(v.chunks, t).fd }
  function Bk(v: Trie, t: int): int { Of(v.chunks, t).bk }
  function Parent(v: Trie, t: int): int { Of(v.chunks, t).parent }
  function Index(v: Trie, t: int): int { Of(v.chunks, t).index }
  function Head(v: Trie, t: int): int { On(v.notes, t).head }
  function Depth(v: Trie, t: int): nat { On(v.notes, t).depth }
  function Stamp(v: Trie, t: int): int { On(v.notes, t).stamp }

  /** CHUNKSIZE(t), or 0 when t is no chunk of the bins. */
  function Size(v: Trie, t: int): (s: nat)
    ensures s < WORD
  {
    var z := Of(v.chunks, t).size;
    if 0 <= z < WORD then z else 0
  }

  /** One cell is assigned. */
  function WithChild(c: Chunk, one: bool, x: int): Chunk {
    if one then c.(child1 := x) else c.(child0 := x)
  }

  // ---------- the shape of a set of tries ----------

  predicate IsHead(v: Trie, t: int) {
    t in v.chunks && Head(v, t) == t
  }

  /** The bin of chunk t. */
  function Bin(v: Trie, t: int): (i: nat)
    ensures i < NTREEBINS
  {
    TreeIndex(Size(v, t))
  }

  /** The subtree of a node at depth d agrees on the size bits from this one upwards. */
  function Low(v: Trie, t: int, d: int): (n: nat)
    ensures d <= Width(Bin(v, t)) ==> n == Width(Bin(v, t)) - d
  {
    if d <= Width(Bin(v, t)) then Width(Bin(v, t)) - d else 0
  }

  /** The block of sizes in the subtree of t. */
  function Own(v: Trie, t: int): nat {
    Low(v, t, Depth(v, t))
  }

  /** The cell that has to point to head t. */
  function UpCell(v: Trie, t: int): (c: Cell)
  {
    if Depth(v, t) == 0 then BinCell(Bin(v, t)) else Kid(Parent(v, t), Bit(Size(v, t), Own(v, t)) == 1)
  }

  /** A chunk of a bin, whether linked into a trie or only on a ring. */
  predicate ChunkOk(v: Trie, t: int) {
    && t in v.chunks && t > 0 && Of(v.chunks, t).size == Size(v, t) && MIN_LARGE_SIZE <= Size(v, t) && Size(v, t) % 8 == 0
    && Index(v, t) == Bin(v, t)
    && IsHead(v, Head(v, t)) && Size(v, Head(v, t)) == Size(v, t)
  }

  /** The ring: both neighbours are on the ring of the same head and point back; going forward from the head
      the chunks are met from the newest to the oldest. */
  predicate RingOk(v: Trie, t: int) {
    && Fd(v, t) in v.chunks && Head(v, Fd(v, t)) == Head(v, t) && Bk(v, Fd(v, t)) == t
    && Bk(v, t) in v.chunks && Head(v, Bk(v, t)) == Head(v, t) && Fd(v, Bk(v, t)) == t
    && Stamp(v, t) < v.now
    && (Head(v, t) != t ==>
          && (Bk(v, t) == Head(v, t) || Stamp(v, t) < Stamp(v, Bk(v, t)))
          && Parent(v, t) == 0 && Content(v, Kid(t, false)) == 0 && Content(v, Kid(t, true)) == 0)
  }

  /** The place of head t in its trie. */
  predicate PlaceOk(v: Trie, t: int) {
    && Depth(v, t) + 3 <= Width(Bin(v, t))
    && Content(v, UpCell(v, t)) == t
    && (if Depth(v, t) == 0 then Parent(v, t) == BinPtr(Bin(v, t)) else UnderOk(v, t, Parent(v, t)))
  }

  /** Head t, at depth 1 or more, is a child of head p. */
  predicate UnderOk(v: Trie, t: int, p: int) {
    && IsHead(v, p) && Bin(v, p) == Bin(v, t) && Depth(v, p) == Depth(v, t) - 1
    && Block(Size(v, t), Own(v, p)) == Block(Size(v, p), Own(v, p))
  }

  predicate IsCell(v: Trie, c: Cell) {
    match c
    case BinCell(i) => 0 <= i < NTREEBINS
    case Kid(t, _) => IsHead(v, t)
  }

  predicate CellOk(v: Trie, c: Cell) {
    && (Content(v, c) != 0 ==> IsHead(v, Content(v, c)) && UpCell(v, Content(v, c)) == c)
    && (c.BinCell? ==> (c.i in v.marked <==> Content(v, c) != 0))
  }

  predicate NodeOk(v: Trie, t: int) {
    ChunkOk(v, t) && RingOk(v, t) && (IsHead(v, t) ==> PlaceOk(v, t))
  }

  /** There is one head for each size. */
  predicate Apart(v: Trie, t: int, u: int) {
    IsHead(v, t) && IsHead(v, u) && Size(v, t) == Size(v, u) ==> t == u
  }

  ghost predicate Ok(v: Trie) {
    && (forall t {:trigger NodeOk(v, t)} {:trigger IsHead(v, t)} :: t in v.chunks ==> NodeOk(v, t))
    && (forall c {:trigger CellOk(v, c)} :: IsCell(v, c) ==> CellOk(v, c))
    && (forall t, u {:trigger Apart(v, t, u)} :: Apart(v, t, u))
  }

  // ---------- what the shape means ----------

  /** u is in the subtree of t, judging by its size. */
  predicate InSub(v: Trie, u: int, t: int) {
    && Bin(v, u) == Bin(v, t) && Depth(v, t) <= Depth(v, u)
    && Block(Size(v, u), Own(v, t)) == Block(Size(v, t), Own(v, t))
  }

  /** The ancestor of u at depth k. */
  lemma {:induction false} Ancestor(v: Trie, u: int, k: nat) returns (a: int)
    requires Ok(v) && IsHead(v, u) && k <= Depth(v, u)
    ensures IsHead(v, a) && Depth(v, a) == k && InSub(v, u, a)
    decreases Depth(v, u)
  {
    hide Block, TreeIndex;
    assert NodeOk(v, u);
    if k == Depth(v, u) {
      a := u;
    } else {
      var p := Parent(v, u);
      a := Ancestor(v, p, k);
      assert NodeOk(v, p);
      BlockCoarser(Size(v, u), Size(v, p), Own(v, p), Own(v, a));
    }
  }

  /** What is known about the parent of a node below the root. */
  lemma AboveIt(v: Trie, t: int)
    requires Ok(v) && IsHead(v, t) && Depth(v, t) > 0
    ensures var p := Parent(v, t);
      && IsHead(v, p) && NodeOk(v, p) && Bin(v, p) == Bin(v, t) && Depth(v, p) == Depth(v, t) - 1
      && Own(v, p) == Own(v, t) + 1
      && Block(Size(v, t), Own(v, p)) == Block(Size(v, p), Own(v, p))
      && Content(v, Kid(p, Bit(Size(v, t), Own(v, t)) == 1)) == t
  {
    hide Block, TreeIndex, Bit;
    assert NodeOk(v, t);
    assert NodeOk(v, Parent(v, t));
  }

  lemma RootOf(v: Trie, t: int)
    requires Ok(v) && IsHead(v, t) && Depth(v, t) == 0
    ensures Content(v, BinCell(Bin(v, t))) == t
  {
    assert NodeOk(v, t);
  }

  /** There is one node at each depth for each block of sizes. */
  lemma {:induction false} Unique(v: Trie, t: int, u: int)
    requires Ok(v) && IsHead(v, t) && IsHead(v, u) && Depth(v, t) == Depth(v, u) && InSub(v, u, t)
    ensures t == u
    decreases Depth(v, t)
  {
    hide Block, TreeIndex, Bit, Ok, Content, NodeOk;
    if Depth(v, t) == 0 {
      RootOf(v, t);
      RootOf(v, u);
    } else {
      AboveIt(v, t);
      AboveIt(v, u);
      var p, q := Parent(v, t), Parent(v, u);
      BlockStep(Size(v, t), Own(v, t));
      BlockStep(Size(v, u), Own(v, t));
      Unique(v, p, q);
    }
  }

  /** A node of the subtree of t is t itself or in the subtree of the child its next size bit selects. */
  lemma SubtreeStep(v: Trie, u: int, t: int)
    requires Ok(v) && IsHead(v, t) && IsHead(v, u) && InSub(v, u, t) && u != t
    ensures Own(v, t) > 0
    ensures var c := Content(v, Kid(t, Bit(Size(v, u), Own(v, t) - 1) == 1));
            IsHead(v, c) && InSub(v, u, c) && Depth(v, c) == Depth(v, t) + 1
  {
    hide TreeIndex, Ok, Block, Bit, NodeOk;
    if Depth(v, u) == Depth(v, t) {
      Unique(v, t, u);
    } else {
      var a := Ancestor(v, u, Depth(v, t) + 1);
      AboveIt(v, a);
      var p, n := Parent(v, a), Own(v, a);
      BlockStep(Size(v, u), n);
      BlockStep(Size(v, a), n);
      Unique(v, t, p);
    }
  }

  /** Every node is below the root of its bin. */
  lemma UnderRoot(v: Trie, u: int)
    requires Ok(v) && IsHead(v, u)
    ensures var r := Content(v, BinCell(Bin(v, u))); IsHead(v, r) && Depth(v, r) == 0 && InSub(v, u, r)
  {
    hide Block, TreeIndex;
    var a := Ancestor(v, u, 0);
    assert NodeOk(v, a);
  }

  /** A child cell that is not null holds a head one level down, whose size has the bit that names the cell. */
  lemma ChildOf(v: Trie, t: int, one: bool)
    requires Ok(v) && IsHead(v, t) && Content(v, Kid(t, one)) != 0
    ensures var c := Content(v, Kid(t, one));
      && IsHead(v, c) && Bin(v, c) == Bin(v, t) && Depth(v, c) == Depth(v, t) + 1 && Own(v, c) + 1 == Own(v, t)
      && Block(Size(v, c), Own(v, t)) == Block(Size(v, t), Own(v, t)) && Parent(v, c) == t
      && (Bit(Size(v, c), Own(v, c)) == 1 <==> one)
  {
    hide Block, TreeIndex, Bit;
    assert CellOk(v, Kid(t, one));
    var c := Content(v, Kid(t, one));
    assert NodeOk(v, c) && NodeOk(v, t);
  }

  // ---------- the best fit ----------

  /** Size s is greater than every size in the subtree of t. */
  predicate Above(v: Trie, s: nat, t: int)
    requires s < WORD
  {
    Bin(v, t) < TreeIndex(s) || (Bin(v, t) == TreeIndex(s) && Block(Size(v, t), Own(v, t)) < Block(s, Own(v, t)))
  }

  /** Every size in the subtree of t is greater than s. */
  predicate Beyond(v: Trie, t: int, s: nat)
    requires s < WORD
  {
    TreeIndex(s) < Bin(v, t) || (Bin(v, t) == TreeIndex(s) && Block(s, Own(v, t)) < Block(Size(v, t), Own(v, t)))
  }

  lemma AboveIsGreater(v: Trie, s: nat, t: int)
    requires MIN_LARGE_SIZE <= s < WORD && MIN_LARGE_SIZE <= Size(v, t) && Above(v, s, t)
    ensures Size(v, t) < s
  {
    hide TreeIndex, Block;
    if s <= Size(v, t) {
      BlockOrder(s, Size(v, t), Own(v, t));
      BinOrder(s, Size(v, t));
    }
  }

  lemma BeyondIsGreater(v: Trie, t: int, s: nat)
    requires MIN_LARGE_SIZE <= s < WORD && MIN_LARGE_SIZE <= Size(v, t) && Beyond(v, t, s)
    ensures s < Size(v, t)
  {
    hide TreeIndex, Block;
    if Size(v, t) <= s {
      BlockOrder(Size(v, t), s, Own(v, t));
      BinOrder(Size(v, t), s);
    }
  }

  /** Chunk u can hold the request, and the best remainder so far is greater than that of u. */
  predicate Better(v: Trie, u: int, nb: nat, rsize: nat) {
    IsHead(v, u) && nb <= Size(v, u) && Size(v, u) - nb < rsize
  }

  /** A better chunk than the best one so far is in the subtree of t, or greater than all of it. */
  predicate Waits(v: Trie, u: int, t: int) {
    t != 0 && (InSub(v, u, t) || Above(v, Size(v, u), t))
  }

  /** CHUNKSIZE(t) - nb in unsigned arithmetic. */
  function Remainder(v: Trie, t: int, nb: nat): nat
    requires nb < WORD
  {
    (Size(v, t) + WORD - nb) % WORD
  }

  lemma RemainderIs(v: Trie, t: int, nb: nat, rsize: nat)
    requires 0 < nb < WORD && rsize <= WORD - nb
    ensures Remainder(v, t, nb) < rsize <==> nb <= Size(v, t) && Size(v, t) - nb < rsize
    ensures Remainder(v, t, nb) < rsize ==> Remainder(v, t, nb) == Size(v, t) - nb
  {
  }

  /** What the search knows about the best chunk so far. */
  predicate Found(v: Trie, best: int, nb: nat, rsize: nat) {
    if best == 0 then rsize == WORD - nb else IsHead(v, best) && nb <= Size(v, best) && rsize == Size(v, best) - nb
  }

  /** The descent by the bits of nb goes on from t: no better chunk is outside the subtree of t and the
      deepest right subtree that was not taken. */
  predicate Descending(v: Trie, nb: nat, rsize: nat, t: int, rst: int)
    requires nb < WORD
  {
    && IsHead(v, t) && Bin(v, t) == TreeIndex(nb) && Block(Size(v, t), Own(v, t)) == Block(nb, Own(v, t))
    && (rst != 0 ==> RightOf(v, nb, rst) && Own(v, t) <= Own(v, rst))
  }

  predicate RightOf(v: Trie, nb: nat, rst: int)
    requires nb < WORD
  {
    IsHead(v, rst) && Bin(v, rst) == TreeIndex(nb) && Block(nb, Own(v, rst)) < Block(Size(v, rst), Own(v, rst))
  }

  /** One level down: a better chunk that was in the subtree of t, but not t, is below the child that the next
      bit of nb selects, or below the right child when that one is not taken. */
  lemma DescendInside(v: Trie, nb: nat, t: int, u: int)
    requires Ok(v) && MIN_LARGE_SIZE <= nb < WORD && IsHead(v, t) && IsHead(v, u) && nb <= Size(v, u)
    requires Block(Size(v, t), Own(v, t)) == Block(nb, Own(v, t)) && InSub(v, u, t) && u != t
    ensures Own(v, t) > 0
    ensures var one := Bit(nb, Own(v, t) - 1) == 1; var c, r := Content(v, Kid(t, one)), Content(v, Kid(t, true));
      (c != 0 && InSub(v, u, c)) || (!one && r != 0 && InSub(v, u, r))
  {
    hide TreeIndex, Block, Bit, Ok, Content;
    SubtreeStep(v, u, t);
    var n := Own(v, t) - 1;
    BlockStep(Size(v, u), n);
    BlockStep(nb, n);
    BlockOrder(nb, Size(v, u), n);
    NotNull(v, Content(v, Kid(t, Bit(Size(v, u), n) == 1)));
  }

  lemma NotNull(v: Trie, t: int)
    requires Ok(v) && t in v.chunks
    ensures t > 0 && MIN_LARGE_SIZE <= Size(v, t) && IsHead(v, Head(v, t)) && Size(v, Head(v, t)) == Size(v, t)
  {
    assert NodeOk(v, t);
  }

  /** The child on the path of nb agrees with nb one bit further. */
  lemma DescendTaken(v: Trie, nb: nat, t: int, one: bool)
    requires Ok(v) && nb < WORD && IsHead(v, t) && Bin(v, t) == TreeIndex(nb) && Own(v, t) > 0
    requires Block(Size(v, t), Own(v, t)) == Block(nb, Own(v, t)) && Content(v, Kid(t, one)) != 0
    ensures var c := Content(v, Kid(t, one)); var b := Bit(nb, Own(v, t) - 1) == 1;
      && IsHead(v, c) && Bin(v, c) == TreeIndex(nb) && Own(v, c) == Own(v, t) - 1
      && (b == one ==> Block(Size(v, c), Own(v, c)) == Block(nb, Own(v, c)))
      && (!b && one ==> RightOf(v, nb, c))
  {
    hide TreeIndex, Block, Bit, Ok, Content;
    ChildOf(v, t, one);
    var c := Content(v, Kid(t, one));
    BlockStep(Size(v, c), Own(v, c));
    BlockStep(nb, Own(v, c));
  }

  /** What waits for an older right subtree is above the new, deeper one. */
  lemma OlderRight(v: Trie, nb: nat, u: int, rst: int, rt: int)
    requires nb < WORD && RightOf(v, nb, rst) && RightOf(v, nb, rt) && IsHead(v, u) && Waits(v, u, rst)
    requires Own(v, rt) < Own(v, rst) && Block(Size(v, rt), Own(v, rt) + 1) == Block(nb, Own(v, rt) + 1)
    ensures Above(v, Size(v, u), rt)
  {
    hide TreeIndex, Block;
    var n := Own(v, rt);
    BlockCoarser(Size(v, rt), nb, n + 1, Own(v, rst));
    if Block(Size(v, u), n) <= Block(Size(v, rt), n) {
      BlockCoarser(Size(v, u), Size(v, rt), n, Own(v, rst));
    }
  }

  /** Every better chunk of bin i waits for t or for the deepest right subtree not taken. */
  ghost predicate BinCovered(v: Trie, i: nat, nb: nat, rsize: nat, t: int, rst: int) {
    forall u {:trigger Better(v, u, nb, rsize)} :: Better(v, u, nb, rsize) && Bin(v, u) == i ==>
      (t != 0 && InSub(v, u, t)) || Waits(v, u, rst)
  }

  lemma DescendCovered(v: Trie, nb: nat, rsize: nat, rsize': nat, t: int, rst: int)
    requires Ok(v) && MIN_LARGE_SIZE <= nb < WORD && Descending(v, nb, rsize, t, rst)
    requires BinCovered(v, TreeIndex(nb), nb, rsize, t, rst) && rsize' <= rsize && !Better(v, t, nb, rsize')
    ensures Own(v, t) > 0
    ensures var one := Bit(nb, Own(v, t) - 1) == 1;
            var c, r := Content(v, Kid(t, one)), Content(v, Kid(t, true));
            var rst' := if r != 0 && r != c then r else rst;
            && BinCovered(v, TreeIndex(nb), nb, rsize', c, rst')
            && (c != 0 ==> Descending(v, nb, rsize', c, rst') && Depth(v, c) == Depth(v, t) + 1)
            && (rst' != 0 ==> RightOf(v, nb, rst'))
  {
    hide TreeIndex, Block, Bit, Ok, Content, Above, InSub;
    OwnPositive(v, t);
    var one := Bit(nb, Own(v, t) - 1) == 1;
    var c, r := Content(v, Kid(t, one)), Content(v, Kid(t, true));
    var rst' := if r != 0 && r != c then r else rst;
    if r != 0 && r != c {
      assert !one;
      DescendTaken(v, nb, t, true);
      ChildOf(v, t, true);
      SameBlocks(v, nb, t, r);
    }
    if c != 0 {
      DescendTaken(v, nb, t, one);
      ChildOf(v, t, one);
    }
    forall u | Better(v, u, nb, rsize') && Bin(v, u) == TreeIndex(nb)
      ensures (c != 0 && InSub(v, u, c)) || Waits(v, u, rst')
    {
      assert Better(v, u, nb, rsize);
      if InSub(v, u, t) {
        DescendInside(v, nb, t, u);
      } else if rst' == r && r != 0 && r != c {
        OlderRight(v, nb, u, rst, r);
      }
    }
  }

  lemma OwnPositive(v: Trie, t: int)
    requires Ok(v) && IsHead(v, t)
    ensures Own(v, t) >= 3
  {
    assert NodeOk(v, t);
  }

  lemma SameBlocks(v: Trie, nb: nat, t: int, r: int)
    requires Own(v, r) + 1 == Own(v, t) && Block(Size(v, r), Own(v, t)) == Block(Size(v, t), Own(v, t))
    requires Block(Size(v, t), Own(v, t)) == Block(nb, Own(v, t))
    ensures Block(Size(v, r), Own(v, r) + 1) == Block(nb, Own(v, r) + 1)
  {
  }

  /** Every better chunk waits for t. */
  ghost predicate AllCovered(v: Trie, nb: nat, rsize: nat, t: int) {
    forall u {:trigger Better(v, u, nb, rsize)} :: Better(v, u, nb, rsize) ==> Waits(v, u, t)
  }

  /** LEFTMOST_CHILD */
  function LeftmostChild(v: Trie, t: int): int {
    var c := Content(v, Kid(t, false));
    if c != 0 then c else Content(v, Kid(t, true))
  }

  /** After t itself has been looked at, only its left subtree can hold a better chunk, or its right subtree
      when there is no left one. */
  lemma LeftmostCovered(v: Trie, nb: nat, rsize: nat, rsize': nat, t: int)
    requires Ok(v) && IsHead(v, t) && nb <= Size(v, t)
    requires AllCovered(v, nb, rsize, t) && rsize' <= rsize && rsize' <= Size(v, t) - nb
    ensures AllCovered(v, nb, rsize', LeftmostChild(v, t))
  {
    hide TreeIndex, Block, Bit, Ok, Content;
    var c := LeftmostChild(v, t);
    NotNull(v, t);
    forall u | Better(v, u, nb, rsize') ensures Waits(v, u, c) {
      assert Better(v, u, nb, rsize);
      NotNull(v, u);
      if Above(v, Size(v, u), t) {
        AboveIsGreater(v, Size(v, u), t);
        assert false;
      } else {
        LeftmostInside(v, t, u);
      }
    }
  }

  lemma LeftmostInside(v: Trie, t: int, u: int)
    requires Ok(v) && IsHead(v, t) && IsHead(v, u) && InSub(v, u, t) && u != t
    ensures Waits(v, u, LeftmostChild(v, t))
  {
    hide TreeIndex, Block, Bit, Ok, Content;
    SubtreeStep(v, u, t);
    var l, r := Content(v, Kid(t, false)), Content(v, Kid(t, true));
    var n := Own(v, t) - 1;
    NotNull(v, Content(v, Kid(t, Bit(Size(v, u), n) == 1)));
    if Bit(Size(v, u), n) == 1 && l != 0 {
      ChildOf(v, t, false);
      BlockStep(Size(v, u), n);
      BlockStep(Size(v, l), n);
    }
  }

  lemma BeyondChild(v: Trie, nb: nat, t: int, one: bool)
    requires Ok(v) && nb < WORD && IsHead(v, t) && Beyond(v, t, nb) && Content(v, Kid(t, one)) != 0
    ensures Beyond(v, Content(v, Kid(t, one)), nb)
  {
    hide TreeIndex, Block, Bit, Ok, Content;
    ChildOf(v, t, one);
    var c := Content(v, Kid(t, one));
    if Bin(v, t) == TreeIndex(nb) && Block(Size(v, c), Own(v, c)) <= Block(nb, Own(v, c)) {
      BlockCoarser(Size(v, c), nb, Own(v, c), Own(v, t));
    }
  }

  /** No member of the bins that can hold the request is smaller than best. */
  ghost predicate BestFit(v: Trie, best: int, nb: nat) {
    forall u {:trigger u in v.chunks} :: u in v.chunks && nb <= Size(v, u) ==> best != 0 && Size(v, best) <= Size(v, u)
  }

  lemma FoundIsBest(v: Trie, best: int, nb: nat, rsize: nat)
    requires Ok(v) && nb < WORD && Found(v, best, nb, rsize) && AllCovered(v, nb, rsize, 0)
    ensures BestFit(v, best, nb)
  {
    forall u | u in v.chunks && nb <= Size(v, u) ensures best != 0 && Size(v, best) <= Size(v, u) {
      NotNull(v, u);
      assert !Better(v, Head(v, u), nb, rsize);
    }
  }

  lemma RootIn(v: Trie, i: int)
    requires Ok(v) && 0 <= i < NTREEBINS && Content(v, BinCell(i)) != 0
    ensures var r := Content(v, BinCell(i)); IsHead(v, r) && Bin(v, r) == i && Depth(v, r) == 0
  {
    assert CellOk(v, BinCell(i));
  }

  /** The chunks of the request's own bin have been covered, and none is left waiting: a greater bin takes
      over, or the best chunk found is better than all that is in greater bins. */
  lemma NextBin(v: Trie, nb: nat, rsize: nat, best: int, i: int)
    requires Ok(v) && MIN_LARGE_SIZE <= nb < WORD && Found(v, best, nb, rsize)
    requires BinCovered(v, TreeIndex(nb), nb, rsize, 0, 0)
    requires best != 0 ==> Bin(v, best) == TreeIndex(nb)
    requires best == 0 && 0 <= i ==> TreeIndex(nb) < i < NTREEBINS && Content(v, BinCell(i)) != 0
    requires best == 0 ==> forall j :: TreeIndex(nb) < j < NTREEBINS && (i < 0 || j < i) ==> Content(v, BinCell(j)) == 0
    ensures best == 0 && 0 <= i ==> AllCovered(v, nb, rsize, Content(v, BinCell(i)))
    ensures best != 0 || i < 0 ==> AllCovered(v, nb, rsize, 0)
  {
    hide TreeIndex, Block, Ok, Content;
    var t := if best == 0 && 0 <= i then Content(v, BinCell(i)) else 0;
    forall u | Better(v, u, nb, rsize) ensures Waits(v, u, t) {
      NotNull(v, u);
      BinOrder(nb, Size(v, u));
      UnderRoot(v, u);
      NotNull(v, Content(v, BinCell(Bin(v, u))));
      if best != 0 {
        BinOrder(Size(v, u), Size(v, best));
      } else if i >= 0 {
        RootIn(v, i);
      }
    }
  }

  // ---------- insertion ----------

  /** A chunk of size s may be linked at cell c, depth d, under p. */
  predicate Slot(v: Trie, s: nat, c: Cell, p: int, d: nat)
    requires MIN_LARGE_SIZE <= s < WORD
  {
    match c
    case BinCell(i) => i == TreeIndex(s) && d == 0 && p == BinPtr(i)
    case Kid(t, one) =>
      && t == p && IsHead(v, p) && Bin(v, p) == TreeIndex(s) && d == Depth(v, p) + 1 && Own(v, p) > 3
      && Block(s, Own(v, p)) == Block(Size(v, p), Own(v, p))
      && one == (Bit(s, Own(v, p) - 1) == 1)
  }

  ghost predicate NoHead(v: Trie, s: nat) {
    forall u {:trigger IsHead(v, u)} :: IsHead(v, u) ==> Size(v, u) != s
  }

  function Linked(m: map<int, Chunk>, c: Cell, x: int): (m': map<int, Chunk>)
    ensures forall t :: Of(m', t) == if c.Kid? && c.of == t then WithChild(Of(m, t), c.one, x) else Of(m, t)
    ensures forall t :: t in m' <==> t in m || (c.Kid? && c.of == t)
  {
    if c.Kid? then m[c.of := WithChild(Of(m, c.of), c.one, x)] else m
  }

  function LeafedChunk(v: Trie, x: int, s: nat, c: Cell, p: int, t: int): Chunk
    requires s < WORD
  {
    if t == x then Chunk(s, x, x, 0, 0, p, TreeIndex(s))
    else if c.Kid? && c.of == t then WithChild(Of(v.chunks, t), c.one, x) else Of(v.chunks, t)
  }

  function RingedChunk(v: Trie, x: int, s: nat, t: int, u: int): Chunk
    requires s < WORD
  {
    if u == x then Chunk(s, Fd(v, t), t, 0, 0, 0, TreeIndex(s))
    else Of(v.chunks, u).(fd := if u == t then x else Fd(v, u), bk := if u == Fd(v, t) then x else Bk(v, u))
  }

  predicate CellIn(v: Trie, x: int, c: Cell) {
    c.Kid? ==> c.of in v.chunks && c.of != x
  }

  predicate RingIn(v: Trie, x: int, t: int) {
    t in v.chunks && Fd(v, t) in v.chunks && x !in v.chunks
  }

  /** x has become a leaf at cell c. */
  function Leafed(v: Trie, x: int, s: nat, c: Cell, p: int, d: nat): (w: Trie)
    requires s < WORD && CellIn(v, x, c)
    ensures forall q :: Content(w, q) == if q == c then x else if q.Kid? && q.of == x then 0 else Content(v, q)
    ensures forall t :: Of(w.chunks, t) == LeafedChunk(v, x, s, c, p, t)
    ensures w.marked == if c.BinCell? then v.marked + {c.i} else v.marked
    ensures forall t :: t in w.chunks <==> t in v.chunks || t == x
    ensures forall t :: On(w.notes, t) == if t == x then Note(x, d, v.now) else On(v.notes, t)
    ensures w.now == v.now + 1
  {
    hide TreeIndex;
    Trie(Linked(v.chunks[x := Chunk(s, x, x, 0, 0, p, TreeIndex(s))], c, x),
         if c.BinCell? then v.bins[c.i := x] else v.bins, if c.BinCell? then v.marked + {c.i} else v.marked,
         v.notes[x := Note(x, d, v.now)], v.now + 1)
  }

  lemma LeafedOk(v: Trie, x: int, s: nat, c: Cell, p: int, d: nat)
    requires CellIn(v, x, c)
    requires Ok(v) && x > 0 && x !in v.chunks && MIN_LARGE_SIZE <= s < WORD && s % 8 == 0
    requires Slot(v, s, c, p, d) && Content(v, c) == 0 && NoHead(v, s)
    ensures Ok(Leafed(v, x, s, c, p, d))
  {
    hide NodeOk, CellOk, Apart, Content, Leafed, TreeIndex, Block, Bit, Slot;
    var w := Leafed(v, x, s, c, p, d);
    forall t | t in w.chunks ensures NodeOk(w, t) {
      if t == x {
        LeafedSelf(v, x, s, c, p, d);
      } else {
        LeafedNode(v, x, s, c, p, d, t);
      }
    }
    forall q | IsCell(w, q) ensures CellOk(w, q) {
      LeafedCell(v, x, s, c, p, d, q);
    }
    forall t, u ensures Apart(w, t, u) {
      LeafedApart(v, x, s, c, p, d, t, u);
    }
  }

  lemma LeafedSelf(v: Trie, x: int, s: nat, c: Cell, p: int, d: nat)
    requires CellIn(v, x, c)
    requires Ok(v) && x > 0 && x !in v.chunks && MIN_LARGE_SIZE <= s < WORD && s % 8 == 0
    requires Slot(v, s, c, p, d)
    ensures NodeOk(Leafed(v, x, s, c, p, d), x) && UpCell(Leafed(v, x, s, c, p, d), x) == c
  {
    hide Content, Leafed, Of, On, TreeIndex, Block, Bit, Ok;
  }

  lemma LeafedNode(v: Trie, x: int, s: nat, c: Cell, p: int, d: nat, t: int)
    requires CellIn(v, x, c)
    requires Ok(v) && x > 0 && x !in v.chunks && MIN_LARGE_SIZE <= s < WORD && t in v.chunks
    requires Slot(v, s, c, p, d) && Content(v, c) == 0
    ensures NodeOk(Leafed(v, x, s, c, p, d), t)
  {
    hide Content, Leafed, Of, On, TreeIndex, Block, Bit, Ok;
    var w := Leafed(v, x, s, c, p, d);
    NodeIs(v, t);
    assert ChunkOk(w, t);
    assert RingOk(w, t);
    if IsHead(v, t) {
      if Depth(v, t) > 0 {
        AboveIt(v, t);
      }
      assert UpCell(w, t) == UpCell(v, t);
      assert PlaceOk(w, t);
    }
  }

  lemma NodeIs(v: Trie, t: int)
    requires Ok(v) && t in v.chunks
    ensures NodeOk(v, t)
  {
    hide NodeOk, CellOk, Content;
  }

  lemma LeafedCell(v: Trie, x: int, s: nat, c: Cell, p: int, d: nat, q: Cell)
    requires CellIn(v, x, c) && s % 8 == 0
    requires Ok(v) && x > 0 && x !in v.chunks && MIN_LARGE_SIZE <= s < WORD && IsCell(Leafed(v, x, s, c, p, d), q)
    requires Slot(v, s, c, p, d)
    ensures CellOk(Leafed(v, x, s, c, p, d), q)
  {
    hide Content, Leafed, Of, On, TreeIndex, Block, Bit, Ok, Slot;
    var w := Leafed(v, x, s, c, p, d);
    if q == c {
      LeafedSelf(v, x, s, c, p, d);
    } else if !(q.Kid? && q.of == x) {
      assert IsCell(v, q);
      CellIs(v, q);
      var n := Content(v, q);
      assert UpCell(w, n) == UpCell(v, n) || n == x;
    }
  }

  lemma CellIs(v: Trie, q: Cell)
    requires Ok(v) && IsCell(v, q)
    ensures CellOk(v, q)
  {
    hide NodeOk, CellOk, Content;
  }

  lemma LeafedApart(v: Trie, x: int, s: nat, c: Cell, p: int, d: nat, t: int, u: int)
    requires CellIn(v, x, c)
    requires Ok(v) && x !in v.chunks && s < WORD && NoHead(v, s)
    ensures Apart(Leafed(v, x, s, c, p, d), t, u)
  {
    hide Content, Leafed, Of, On, TreeIndex, Block, Bit;
    assert IsHead(v, t) ==> Size(v, t) != s;
    assert IsHead(v, u) ==> Size(v, u) != s;
    assert Apart(v, t, u);
  }

  /** x has joined the ring of head t, right behind it. */
  function Ringed(v: Trie, x: int, s: nat, t: int): (w: Trie)
    requires s < WORD && RingIn(v, x, t)
    ensures forall q :: Content(w, q) == if q.Kid? && q.of == x then 0 else Content(v, q)
    ensures forall u :: Of(w.chunks, u) == RingedChunk(v, x, s, t, u)
    ensures w.marked == v.marked && w.now == v.now + 1
    ensures forall u :: u in w.chunks <==> u in v.chunks || u == x
    ensures forall u :: On(w.notes, u) == if u == x then Note(t, 0, v.now) else On(v.notes, u)
  {
    hide TreeIndex;
    var f := Fd(v, t);
    var m := v.chunks[x := Chunk(s, f, t, 0, 0, 0, TreeIndex(s))];
    var m1 := m[t := m[t].(fd := x)];
    Trie(m1[f := m1[f].(bk := x)], v.bins, v.marked, v.notes[x := Note(t, 0, v.now)], v.now + 1)
  }

  lemma RingedOk(v: Trie, x: int, s: nat, t: int)
    requires RingIn(v, x, t)
    requires Ok(v) && x > 0 && x !in v.chunks && s < WORD && IsHead(v, t) && Size(v, t) == s
    ensures Ok(Ringed(v, x, s, t))
  {
    hide NodeOk, CellOk, Apart, Content, Ringed, TreeIndex, Block, Bit;
    var w := Ringed(v, x, s, t);
    forall u | u in w.chunks ensures NodeOk(w, u) {
      if u == x {
        RingedSelf(v, x, s, t);
      } else {
        RingedNode(v, x, s, t, u);
      }
    }
    forall q | IsCell(w, q) ensures CellOk(w, q) {
      RingedCell(v, x, s, t, q);
    }
    forall u, y ensures Apart(w, u, y) {
      RingedApart(v, x, s, t, u, y);
    }
  }

  lemma RingedSelf(v: Trie, x: int, s: nat, t: int)
    requires RingIn(v, x, t)
    requires Ok(v) && x > 0 && x !in v.chunks && s < WORD && IsHead(v, t) && Size(v, t) == s
    ensures NodeOk(Ringed(v, x, s, t), x)
  {
    hide Content, Ringed, Of, On, TreeIndex, Block, Bit, Ok;
    NodeIs(v, t);
    NodeIs(v, Fd(v, t));
    SizeIs(v, t);
  }

  lemma SizeIs(v: Trie, t: int)
    requires Ok(v) && t in v.chunks
    ensures v.chunks[t].size == Size(v, t) && t != 0
  {
    assert NodeOk(v, t);
  }

  lemma RingedNode(v: Trie, x: int, s: nat, t: int, u: int)
    requires RingIn(v, x, t)
    requires Ok(v) && x > 0 && x !in v.chunks && s < WORD && IsHead(v, t) && Size(v, t) == s && u in v.chunks
    ensures NodeOk(Ringed(v, x, s, t), u)
  {
    hide Content, Ringed, Of, On, TreeIndex, Block, Bit, Ok;
    var w := Ringed(v, x, s, t);
    NodeIs(v, u);
    NodeIs(v, t);
    assert ChunkOk(w, u);
    assert RingOk(w, u);
    if IsHead(v, u) {
      if Depth(v, u) > 0 {
        AboveIt(v, u);
      }
      assert UpCell(w, u) == UpCell(v, u);
      assert PlaceOk(w, u);
    }
  }

  lemma RingedCell(v: Trie, x: int, s: nat, t: int, q: Cell)
    requires RingIn(v, x, t)
    requires Ok(v) && x > 0 && x !in v.chunks && s < WORD && IsHead(v, t) && Size(v, t) == s
    requires IsCell(Ringed(v, x, s, t), q)
    ensures CellOk(Ringed(v, x, s, t), q)
  {
    hide Content, Ringed, Of, On, TreeIndex, Block, Bit, Ok;
    var w := Ringed(v, x, s, t);
    if !(q.Kid? && q.of == x) {
      CellIs(v, q);
      var n := Content(v, q);
      assert UpCell(w, n) == UpCell(v, n) || n == x;
    }
  }

  lemma RingedApart(v: Trie, x: int, s: nat, t: int, u: int, y: int)
    requires RingIn(v, x, t)
    requires Ok(v) && x !in v.chunks && s < WORD && t in v.chunks
    ensures Apart(Ringed(v, x, s, t), u, y)
  {
    hide Content, Ringed, TreeIndex, Block, Bit;
    assert Apart(v, u, y);
  }

  // ---------- removal ----------

  /** The chunk x, not the head of its ring, has left the ring. */
  function RingOut(v: Trie, x: int): (w: Trie)
    requires RingIs(v, x)
    ensures forall q :: Content(w, q) == if q.Kid? && q.of == x then 0 else Content(v, q)
    ensures forall u :: Of(w.chunks, u) == if u == x then NONE else Bridged(v, x, u)
    ensures forall u :: u in w.chunks <==> u in v.chunks && u != x
    ensures w.marked == v.marked && w.notes == v.notes && w.now == v.now
  {
    v.(chunks := Bridge(v.chunks, Fd(v, x), Bk(v, x)) - {x})
  }

  predicate RingIs(v: Trie, x: int) {
    x in v.chunks && Fd(v, x) in v.chunks && Bk(v, x) in v.chunks && Fd(v, x) != x && Bk(v, x) != x
  }

  /** f->iBk = r, r->iFd = f */
  function Bridge(m: map<int, Chunk>, f: int, r: int): map<int, Chunk>
    requires f in m && r in m
  {
    var m1 := m[f := m[f].(bk := r)];
    m1[r := m1[r].(fd := f)]
  }

  function Bridged(v: Trie, x: int, u: int): Chunk {
    Of(v.chunks, u).(fd := if u == Bk(v, x) then Fd(v, x) else Fd(v, u), bk := if u == Fd(v, x) then Bk(v, x) else Bk(v, u))
  }

  lemma RingOutOk(v: Trie, x: int)
    requires Ok(v) && RingIs(v, x) && !IsHead(v, x)
    ensures Ok(RingOut(v, x))
  {
    hide NodeOk, CellOk, Apart, Content, RingOut, TreeIndex, Block, Bit;
    var w := RingOut(v, x);
    forall u | u in w.chunks ensures NodeOk(w, u) {
      RingOutNode(v, x, u);
    }
    forall q | IsCell(w, q) ensures CellOk(w, q) {
      RingOutCell(v, x, q);
    }
    forall u, y ensures Apart(w, u, y) {
      RingOutApart(v, x, u, y);
    }
  }

  lemma RingOutNode(v: Trie, x: int, u: int)
    requires Ok(v) && RingIs(v, x) && !IsHead(v, x) && u in v.chunks && u != x
    ensures NodeOk(RingOut(v, x), u)
  {
    hide Content, RingOut, Of, On, TreeIndex, Block, Bit, Ok;
    var w := RingOut(v, x);
    NodeIs(v, u);
    NodeIs(v, x);
    assert ChunkOk(w, u);
    assert RingOk(w, u);
    if IsHead(v, u) {
      if Depth(v, u) > 0 {
        AboveIt(v, u);
      }
      assert UpCell(w, u) == UpCell(v, u);
      assert PlaceOk(w, u);
    }
  }

  lemma RingOutCell(v: Trie, x: int, q: Cell)
    requires Ok(v) && RingIs(v, x) && !IsHead(v, x) && IsCell(RingOut(v, x), q)
    ensures CellOk(RingOut(v, x), q)
  {
    hide Content, RingOut, Of, On, TreeIndex, Block, Bit, Ok;
    var w := RingOut(v, x);
    CellIs(v, q);
    var n := Content(v, q);
    if n != 0 {
      assert UpCell(w, n) == UpCell(v, n);
    }
  }

  lemma RingOutApart(v: Trie, x: int, u: int, y: int)
    requires Ok(v) && RingIs(v, x)
    ensures Apart(RingOut(v, x), u, y)
  {
    hide Content, RingOut, TreeIndex, Block, Bit;
    assert Apart(v, u, y);
  }

  /** Head x, alone on its ring and without children, is gone. */
  function LeafOut(v: Trie, x: int, c: Cell): (w: Trie)
    requires CellIn(v, x, c)
    ensures forall q :: Content(w, q) == if q == c || (q.Kid? && q.of == x) then 0 else Content(v, q)
    ensures forall u :: Of(w.chunks, u) ==
                        if u == x then NONE
                        else if c.Kid? && c.of == u then WithChild(Of(v.chunks, u), c.one, 0) else Of(v.chunks, u)
    ensures forall u :: u in w.chunks <==> u in v.chunks && u != x
    ensures w.marked == if c.BinCell? then v.marked - {c.i} else v.marked
    ensures w.notes == v.notes && w.now == v.now
  {
    v.(chunks := Linked(v.chunks, c, 0) - {x}, bins := if c.BinCell? then v.bins[c.i := 0] else v.bins,
       marked := if c.BinCell? then v.marked - {c.i} else v.marked)
  }

  /** Head x is alone on its ring and has no child, and c is the cell that points to it. */
  predicate IsLeaf(v: Trie, x: int, c: Cell) {
    && IsHead(v, x) && Bk(v, x) == x && c == UpCell(v, x)
    && Content(v, Kid(x, false)) == 0 && Content(v, Kid(x, true)) == 0
  }

  lemma LeafOutOk(v: Trie, x: int, c: Cell)
    requires Ok(v) && IsLeaf(v, x, c)
    ensures CellIn(v, x, c) && Ok(LeafOut(v, x, c))
  {
    hide NodeOk, CellOk, Apart, Content, LeafOut, TreeIndex, Block, Bit, IsLeaf;
    LeafIs(v, x, c);
    UpIn(v, x);
    var w := LeafOut(v, x, c);
    forall u | u in w.chunks ensures NodeOk(w, u) {
      LeafOutNode(v, x, c, u);
    }
    forall q | IsCell(w, q) ensures CellOk(w, q) {
      LeafOutCell(v, x, c, q);
    }
    forall u, y ensures Apart(w, u, y) {
      LeafOutApart(v, x, c, u, y);
    }
  }

  lemma LeafIs(v: Trie, x: int, c: Cell)
    requires IsLeaf(v, x, c)
    ensures c == UpCell(v, x) && IsHead(v, x)
  {
  }

  lemma UpIn(v: Trie, x: int)
    requires Ok(v) && IsHead(v, x)
    ensures CellIn(v, x, UpCell(v, x)) && Content(v, UpCell(v, x)) == x && IsCell(v, UpCell(v, x))
    ensures UpCell(v, x).Kid? ==> Parent(v, x) == UpCell(v, x).of && Parent(v, x) > 0
    ensures UpCell(v, x).BinCell? ==> Parent(v, x) == BinPtr(UpCell(v, x).i) && Parent(v, x) < 0
    ensures Content(v, BinCell(Bin(v, x))) == x <==> UpCell(v, x) == BinCell(Bin(v, x))
  {
    hide Content, TreeIndex, Block, Bit;
    NodeIs(v, x);
    if Depth(v, x) > 0 {
      AboveIt(v, x);
      CellIs(v, BinCell(Bin(v, x)));
    }
  }

  lemma LeafOutNode(v: Trie, x: int, c: Cell, u: int)
    requires Ok(v) && IsLeaf(v, x, c) && CellIn(v, x, c) && u in v.chunks && u != x
    ensures NodeOk(LeafOut(v, x, c), u)
  {
    hide Content, LeafOut, Of, On, TreeIndex, Block, Bit, Ok;
    var w := LeafOut(v, x, c);
    NodeIs(v, u);
    NodeIs(v, x);
    LeafRing(v, x, u);
    assert ChunkOk(w, u);
    assert RingOk(w, u);
    if IsHead(v, u) {
      if Depth(v, u) > 0 {
        AboveIt(v, u);
      }
      assert UpCell(w, u) == UpCell(v, u);
      assert PlaceOk(w, u);
    }
  }

  /** A ring of one has no other member. */
  lemma {:induction false} LeafRing(v: Trie, x: int, u: int)
    requires Ok(v) && IsHead(v, x) && Bk(v, x) == x && u in v.chunks && u != x
    ensures Head(v, u) != x
    decreases v.now - Stamp(v, u)
  {
    hide Content, TreeIndex, Block, Bit, PlaceOk;
    assert NodeOk(v, u) && NodeOk(v, x);
    if Head(v, u) == x && Bk(v, u) != x {
      LeafRing(v, x, Bk(v, u));
    }
  }

  lemma LeafOutCell(v: Trie, x: int, c: Cell, q: Cell)
    requires Ok(v) && IsLeaf(v, x, c) && CellIn(v, x, c) && IsCell(LeafOut(v, x, c), q)
    ensures CellOk(LeafOut(v, x, c), q)
  {
    hide Content, LeafOut, Of, On, TreeIndex, Block, Bit, Ok;
    var w := LeafOut(v, x, c);
    CellIs(v, q);
    UpIn(v, x);
    var n := Content(v, q);
    if q != c && n != 0 {
      assert n != x;
      assert UpCell(w, n) == UpCell(v, n);
    }
  }

  lemma LeafOutApart(v: Trie, x: int, c: Cell, u: int, y: int)
    requires Ok(v) && CellIn(v, x, c)
    ensures Apart(LeafOut(v, x, c), u, y)
  {
    hide Content, LeafOut, TreeIndex, Block, Bit;
    assert Apart(v, u, y);
  }

  // ---------- one node takes the place of another ----------

  /** x still has its place in the trie, but is on no ring that counts, and r, a head without children and of
      x's block of sizes, has no place. */
  ghost predicate HoleOk(v: Trie, x: int, r: int) {
    && Heir(v, x, r)
    && (forall t {:trigger RestOk(v, x, r, t)} :: t in v.chunks && t != x ==> RestOk(v, x, r, t))
    && (forall q {:trigger CellOk(v, q)} :: IsCell(v, q) ==> CellOk(v, q) && Content(v, q) != r)
    && (forall t, u {:trigger Apart(v, t, u)} :: t != x && u != x ==> Apart(v, t, u))
  }

  predicate Heir(v: Trie, x: int, r: int) {
    && IsHead(v, x) && IsHead(v, r) && r != x && x > 0 && PlaceOk(v, x) && Index(v, x) == Bin(v, x) && Bin(v, r) == Bin(v, x)
    && Block(Size(v, r), Own(v, x)) == Block(Size(v, x), Own(v, x))
    && Content(v, Kid(r, false)) == 0 && Content(v, Kid(r, true)) == 0
  }

  predicate RestOk(v: Trie, x: int, r: int, t: int) {
    && ChunkOk(v, t) && RingOk(v, t) && Head(v, t) != x && Fd(v, t) != x && Bk(v, t) != x
    && (IsHead(v, t) && t != r ==> PlaceOk(v, t))
  }

  /** The cells and the parents that change hands. */
  predicate PlaceIn(v: Trie, x: int, r: int, c: Cell) {
    var k0, k1 := Content(v, Kid(x, false)), Content(v, Kid(x, true));
    && x in v.chunks && r in v.chunks && r != x && (c.Kid? ==> c.of in v.chunks && c.of != x && c.of != r)
    && (k0 != 0 ==> k0 in v.chunks && k0 != x && k0 != r) && (k1 != 0 ==> k1 in v.chunks && k1 != x && k1 != r)
    && Content(v, Kid(r, false)) == 0 && Content(v, Kid(r, true)) == 0
  }

  function Adopted(m: map<int, Chunk>, r: int, k: int, one: bool): (m': map<int, Chunk>)
    requires r in m && (k != 0 ==> k in m && k != r)
    ensures forall t :: Of(m', t) == if k == 0 then Of(m, t) else if t == k then Of(m, t).(parent := r)
                                     else if t == r then WithChild(Of(m, t), one, k) else Of(m, t)
    ensures forall t :: t in m' <==> t in m
  {
    if k == 0 then m
    else var m1 := m[r := WithChild(m[r], one, k)]; m1[k := m1[k].(parent := r)]
  }

  function PlacedChunk(v: Trie, x: int, r: int, c: Cell, t: int): Chunk {
    var k0, k1 := Content(v, Kid(x, false)), Content(v, Kid(x, true));
    var z := Of(v.chunks, t);
    if t == x then NONE
    else if t == r then z.(parent := Parent(v, x), child0 := k0, child1 := k1)
    else if t != 0 && (t == k0 || t == k1) then (if c.Kid? && c.of == t then WithChild(z, c.one, r) else z).(parent := r)
    else if c.Kid? && c.of == t then WithChild(z, c.one, r) else z
  }

  function PlacedChunks(v: Trie, x: int, r: int, c: Cell): (m: map<int, Chunk>)
    requires PlaceIn(v, x, r, c)
    ensures forall t :: Of(m, t) == PlacedChunk(v, x, r, c, t)
    ensures forall t :: t in m <==> t in v.chunks && t != x
  {
    hide Linked, Adopted;
    var m := Linked(v.chunks, c, r);
    var m1 := m[r := m[r].(parent := Parent(v, x))];
    var m2 := Adopted(m1, r, Content(v, Kid(x, false)), false);
    var m3 := Adopted(m2, r, Content(v, Kid(x, true)), true);
    assert forall t :: t != x ==> Of(m3 - {x}, t) == Of(m3, t);
    m3 - {x}
  }

  /** r has taken the place of x, whose cell is c, and x is gone. */
  function Placed(v: Trie, x: int, r: int, c: Cell): (w: Trie)
    requires PlaceIn(v, x, r, c)
    ensures forall q :: Content(w, q) ==
                        if q == c then r else if q.Kid? && q.of == r then Content(v, Kid(x, q.one))
                        else if q.Kid? && q.of == x then 0 else Content(v, q)
    ensures forall t :: Of(w.chunks, t) == PlacedChunk(v, x, r, c, t)
    ensures forall t :: t in w.chunks <==> t in v.chunks && t != x
    ensures forall t :: On(w.notes, t) == if t == r then Note(r, Depth(v, x), Stamp(v, r)) else On(v.notes, t)
    ensures w.marked == v.marked && w.now == v.now
  {
    hide PlacedChunks, Of;
    Trie(PlacedChunks(v, x, r, c), if c.BinCell? then v.bins[c.i := r] else v.bins, v.marked,
         v.notes[r := Note(r, Depth(v, x), Stamp(v, r))], v.now)
  }

  lemma PlacedOk(v: Trie, x: int, r: int)
    requires HoleOk(v, x, r)
    ensures PlaceIn(v, x, r, UpCell(v, x)) && Ok(Placed(v, x, r, UpCell(v, x)))
  {
    hide NodeOk, CellOk, Apart, Content, Placed, TreeIndex, Block, Bit, RestOk, Heir, PlaceIn, UpCell, HoleOk;
    var c := UpCell(v, x);
    PlacedIn(v, x, r);
    var w := Placed(v, x, r, c);
    forall t | t in w.chunks ensures NodeOk(w, t) {
      PlacedNode(v, x, r, t);
    }
    forall q | IsCell(w, q) ensures CellOk(w, q) {
      PlacedCell(v, x, r, q);
    }
    forall t, u ensures Apart(w, t, u) {
      PlacedApart(v, x, r, t, u);
    }
  }

  lemma RestIs(v: Trie, x: int, r: int, t: int)
    requires HoleOk(v, x, r) && t in v.chunks && t != x
    ensures RestOk(v, x, r, t)
  {
    hide Content, CellOk, Apart, Heir, RestOk;
  }

  lemma HoleCell(v: Trie, x: int, r: int, q: Cell)
    requires HoleOk(v, x, r) && IsCell(v, q)
    ensures CellOk(v, q) && Content(v, q) != r
  {
    hide Content, CellOk, Apart, Heir, RestOk;
  }

  /** The children of x, and the cell that holds it. */
  lemma AroundHole(v: Trie, x: int, r: int)
    requires HoleOk(v, x, r)
    ensures Heir(v, x, r) && HeadUnder(v, x, Kid(x, false)) && HeadUnder(v, x, Kid(x, true))
    ensures var c := UpCell(v, x); c.Kid? ==> IsHead(v, c.of) && c.of != x && c.of != r
    ensures Content(v, UpCell(v, x)) == x
  {
    hide TreeIndex, Block, Bit, Content, ChunkOk, RingOk;
    HoleCell(v, x, r, Kid(x, false));
    HoleCell(v, x, r, Kid(x, true));
  }

  predicate HeadUnder(v: Trie, x: int, q: Cell) {
    var k := Content(v, q);
    k != 0 ==> IsHead(v, k) && k != x && UpCell(v, k) == q
  }

  lemma PlacedIn(v: Trie, x: int, r: int)
    requires HoleOk(v, x, r)
    ensures PlaceIn(v, x, r, UpCell(v, x))
  {
    hide TreeIndex, Block, Bit, Content, ChunkOk, RingOk, PlaceOk, HoleOk;
    AroundHole(v, x, r);
    assert Heir(v, x, r);
    HoleCell(v, x, r, Kid(x, false));
    HoleCell(v, x, r, Kid(x, true));
  }

  lemma PlacedNode(v: Trie, x: int, r: int, t: int)
    requires HoleOk(v, x, r) && PlaceIn(v, x, r, UpCell(v, x)) && t in v.chunks && t != x
    ensures NodeOk(Placed(v, x, r, UpCell(v, x)), t)
  {
    hide TreeIndex, Block, Bit, Content, HoleOk, Placed, PlaceIn, PlaceOk, ChunkOk, RingOk, Own, UpCell, Of, On;
    RestIs(v, x, r, t);
    PlacedRest(v, x, r, t);
    if t == r {
      PlacedSelf(v, x, r);
    } else if IsHead(v, t) {
      if Depth(v, t) > 0 && Parent(v, t) == x {
        PlacedChild(v, x, r, t);
      } else {
        PlacedOther(v, x, r, t);
      }
    }
  }

  lemma PlacedRest(v: Trie, x: int, r: int, t: int)
    requires HoleOk(v, x, r) && PlaceIn(v, x, r, UpCell(v, x)) && t in v.chunks && t != x
    ensures var w := Placed(v, x, r, UpCell(v, x)); ChunkOk(w, t) && RingOk(w, t) && (IsHead(v, t) <==> IsHead(w, t))
  {
    hide TreeIndex, Block, Bit, Content, HoleOk, Placed, PlaceIn, PlaceOk, UpCell, Of, On;
    RestIs(v, x, r, t);
    AroundHole(v, x, r);
    assert Heir(v, x, r);
    RestIs(v, x, r, r);
    var w := Placed(v, x, r, UpCell(v, x));
    assert Head(w, t) == Head(v, t);
  }

  lemma BitOf(x: nat, y: nat, n: nat)
    requires Block(x, n) == Block(y, n)
    ensures Bit(x, n) == Bit(y, n) && Block(x, n + 1) == Block(y, n + 1)
  {
    hide Block;
    BlockStep(x, n);
    BlockStep(y, n);
  }

  lemma PlacedSelf(v: Trie, x: int, r: int)
    requires HoleOk(v, x, r) && PlaceIn(v, x, r, UpCell(v, x))
    ensures PlaceOk(Placed(v, x, r, UpCell(v, x)), r) && UpCell(Placed(v, x, r, UpCell(v, x)), r) == UpCell(v, x)
  {
    hide TreeIndex, Block, Bit, Content, HoleOk, Placed, PlaceIn, Of, On;
    AroundHole(v, x, r);
    BitOf(Size(v, r), Size(v, x), Own(v, x));
    var w := Placed(v, x, r, UpCell(v, x));
    assert Size(w, r) == Size(v, r) && Depth(w, r) == Depth(v, x) && Parent(w, r) == Parent(v, x);
    assert UpCell(w, r) == UpCell(v, x);
  }

  lemma PlacedChild(v: Trie, x: int, r: int, t: int)
    requires HoleOk(v, x, r) && PlaceIn(v, x, r, UpCell(v, x)) && IsHead(v, t) && t != x && t != r
    requires Depth(v, t) > 0 && Parent(v, t) == x
    ensures PlaceOk(Placed(v, x, r, UpCell(v, x)), t)
    ensures UpCell(Placed(v, x, r, UpCell(v, x)), t) == Kid(r, Bit(Size(v, t), Own(v, t)) == 1)
  {
    hide TreeIndex, Block, Bit, Content, HoleOk, Placed, PlaceIn, Of, On, ChunkOk, RingOk;
    RestIs(v, x, r, t);
    AroundHole(v, x, r);
    var w := Placed(v, x, r, UpCell(v, x));
    var one := Bit(Size(v, t), Own(v, t)) == 1;
    assert Content(v, Kid(x, one)) == t;
    assert Size(w, t) == Size(v, t) && Depth(w, t) == Depth(v, t);
    assert Size(w, r) == Size(v, r) && Depth(w, r) == Depth(v, x);
    assert t > 0 by { ChunkIs(v, t); }
    assert Parent(w, t) == r;
    assert UpCell(w, t) == Kid(r, one);
  }

  lemma ChunkIs(v: Trie, t: int)
    requires ChunkOk(v, t)
    ensures t > 0
  {
  }

  lemma PlacedOther(v: Trie, x: int, r: int, t: int)
    requires HoleOk(v, x, r) && PlaceIn(v, x, r, UpCell(v, x)) && IsHead(v, t) && t != x && t != r
    requires Depth(v, t) == 0 || Parent(v, t) != x
    ensures PlaceOk(Placed(v, x, r, UpCell(v, x)), t) && UpCell(Placed(v, x, r, UpCell(v, x)), t) == UpCell(v, t)
  {
    hide TreeIndex, Block, Bit, Content, HoleOk, Placed, PlaceIn, Of, On, ChunkOk, RingOk;
    RestIs(v, x, r, t);
    AroundHole(v, x, r);
    var w := Placed(v, x, r, UpCell(v, x));
    ChunkIs(v, t);
    assert t != Content(v, Kid(x, false)) && t != Content(v, Kid(x, true));
    assert Size(w, t) == Size(v, t) && Depth(w, t) == Depth(v, t) && Parent(w, t) == Parent(v, t);
    assert UpCell(w, t) == UpCell(v, t);
    if Depth(v, t) > 0 {
      var p := Parent(v, t);
      assert p != r;
      assert Size(w, p) == Size(v, p) && Depth(w, p) == Depth(v, p);
    }
  }

  lemma PlacedCell(v: Trie, x: int, r: int, q: Cell)
    requires HoleOk(v, x, r) && PlaceIn(v, x, r, UpCell(v, x)) && IsCell(Placed(v, x, r, UpCell(v, x)), q)
    ensures CellOk(Placed(v, x, r, UpCell(v, x)), q)
  {
    hide TreeIndex, Block, Bit, Content, HoleOk, Placed, PlaceIn, PlaceOk, ChunkOk, RingOk, Of, On, Own, Bin;
    AroundHole(v, x, r);
    var c := UpCell(v, x);
    var w := Placed(v, x, r, c);
    HeadsStay(v, x, r);
    if q == c {
      PlacedSelf(v, x, r);
      RestIs(v, x, r, r);
      ChunkIs(v, r);
      assert IsCell(v, c);
      HoleCell(v, x, r, c);
    } else if q.Kid? && q.of == r {
      var k := Content(v, Kid(x, q.one));
      HoleCell(v, x, r, Kid(x, q.one));
      if k != 0 {
        PlacedChild(v, x, r, k);
      }
    } else {
      assert IsCell(v, q);
      HoleCell(v, x, r, q);
      var k := Content(v, q);
      if k != 0 {
        PlacedOther(v, x, r, k);
      }
    }
  }

  lemma HeadsStay(v: Trie, x: int, r: int)
    requires HoleOk(v, x, r) && PlaceIn(v, x, r, UpCell(v, x))
    ensures forall t {:trigger IsHead(Placed(v, x, r, UpCell(v, x)), t)} ::
              IsHead(Placed(v, x, r, UpCell(v, x)), t) <==> t != x && IsHead(v, t)
  {
    hide TreeIndex, Block, Bit, Content, HoleOk, Placed, PlaceIn, PlaceOk, ChunkOk, RingOk, Of, UpCell;
    AroundHole(v, x, r);
  }

  lemma PlacedApart(v: Trie, x: int, r: int, t: int, u: int)
    requires HoleOk(v, x, r) && PlaceIn(v, x, r, UpCell(v, x))
    ensures Apart(Placed(v, x, r, UpCell(v, x)), t, u)
  {
    hide TreeIndex, Block, Bit, Content, Placed, PlaceIn, UpCell, ChunkOk, RingOk, PlaceOk;
    if t != x && u != x {
      assert Apart(v, t, u);
    }
  }

  // ---------- how the hole comes about ----------

  function Relabelled(m: map<int, Note>, x: int, r: int): (m': map<int, Note>)
    ensures forall t :: On(m', t) == if t != x && t in m && m[t].head == x then m[t].(head := r) else On(m, t)
  {
    map t | t in m :: if t != x && m[t].head == x then m[t].(head := r) else m[t]
  }

  /** Head x has left its ring to the chunk behind it, which becomes the head. */
  function RingMoved(v: Trie, x: int): (w: Trie)
    requires RingIs(v, x)
    ensures forall q :: Content(w, q) == Content(v, q)
    ensures forall u :: Of(w.chunks, u) == Bridged(v, x, u)
    ensures forall u :: u in w.chunks <==> u in v.chunks
    ensures forall u :: u in v.chunks && x != 0 ==>
                          On(w.notes, u) == if u != x && Head(v, u) == x then On(v.notes, u).(head := Bk(v, x)) else On(v.notes, u)
    ensures w.marked == v.marked && w.now == v.now
  {
    v.(chunks := Bridge(v.chunks, Fd(v, x), Bk(v, x)), notes := Relabelled(v.notes, x, Bk(v, x)))
  }

  lemma RingMovedOk(v: Trie, x: int)
    requires Ok(v) && RingIs(v, x) && IsHead(v, x)
    ensures HoleOk(RingMoved(v, x), x, Bk(v, x))
    ensures UpCell(RingMoved(v, x), x) == UpCell(v, x)
  {
    hide NodeOk, CellOk, Apart, Content, RingMoved, TreeIndex, Block, Bit, Ok, Heir, RestOk, UpCell;
    var w, r := RingMoved(v, x), Bk(v, x);
    RingMovedHeir(v, x);
    forall t | t in w.chunks && t != x ensures RestOk(w, x, r, t) {
      RingMovedRest(v, x, t);
    }
    forall q | IsCell(w, q) ensures CellOk(w, q) && Content(w, q) != r {
      RingMovedCell(v, x, q);
    }
    forall t, u | t != x && u != x ensures Apart(w, t, u) {
      RingMovedApart(v, x, t, u);
    }
  }

  lemma RingMovedHeir(v: Trie, x: int)
    requires Ok(v) && RingIs(v, x) && IsHead(v, x)
    ensures Heir(RingMoved(v, x), x, Bk(v, x)) && UpCell(RingMoved(v, x), x) == UpCell(v, x)
  {
    hide TreeIndex, Block, Bit, Content, RingMoved, Of, On, Ok;
    var w, r := RingMoved(v, x), Bk(v, x);
    NodeIs(v, x);
    NodeIs(v, r);
    assert Size(w, r) == Size(v, r) && Size(w, x) == Size(v, x) && Depth(w, x) == Depth(v, x);
    if Depth(v, x) > 0 {
      AboveIt(v, x);
      NodeIs(v, Parent(v, x));
    }
    assert UpCell(w, x) == UpCell(v, x);
    assert PlaceOk(w, x);
  }

  lemma RingMovedRest(v: Trie, x: int, t: int)
    requires Ok(v) && RingIs(v, x) && IsHead(v, x) && t in v.chunks && t != x
    ensures RestOk(RingMoved(v, x), x, Bk(v, x), t)
  {
    hide TreeIndex, Block, Bit, Content, RingMoved, Of, On, Ok;
    var w, r := RingMoved(v, x), Bk(v, x);
    NodeIs(v, x);
    NodeIs(v, r);
    NodeIs(v, t);
    assert ChunkOk(w, t);
    assert RingOk(w, t);
    if IsHead(v, t) {
      if Depth(v, t) > 0 {
        AboveIt(v, t);
        NodeIs(v, Parent(v, t));
      }
      assert UpCell(w, t) == UpCell(v, t);
      assert PlaceOk(w, t);
    }
  }

  lemma RingMovedCell(v: Trie, x: int, q: Cell)
    requires Ok(v) && RingIs(v, x) && IsHead(v, x) && IsCell(RingMoved(v, x), q)
    ensures CellOk(RingMoved(v, x), q) && Content(RingMoved(v, x), q) != Bk(v, x)
  {
    hide TreeIndex, Block, Bit, Content, RingMoved, Of, On, Ok;
    var w, r := RingMoved(v, x), Bk(v, x);
    NodeIs(v, x);
    NodeIs(v, r);
    if q.Kid? && q.of == r {
    } else {
      assert IsCell(v, q);
      CellIs(v, q);
      var n := Content(v, q);
      if n != 0 {
        assert UpCell(w, n) == UpCell(v, n);
      }
    }
  }

  lemma RingMovedApart(v: Trie, x: int, t: int, u: int)
    requires Ok(v) && RingIs(v, x) && IsHead(v, x) && t != x && u != x
    ensures Apart(RingMoved(v, x), t, u)
  {
    hide TreeIndex, Block, Bit, Content, RingMoved, Of, On, Ok;
    var w, r := RingMoved(v, x), Bk(v, x);
    NodeIs(v, x);
    NodeIs(v, r);
    ApartIs(v, t, u);
    ApartIs(v, x, t);
    ApartIs(v, x, u);
    assert t in v.chunks ==> Size(w, t) == Size(v, t);
    assert u in v.chunks ==> Size(w, u) == Size(v, u);
  }

  lemma ApartIs(v: Trie, t: int, u: int)
    requires Ok(v)
    ensures Apart(v, t, u)
  {
    hide NodeOk, CellOk, Content;
  }

  /** The leaf r below x has left its cell c. */
  function Detached(v: Trie, c: Cell): (w: Trie)
    requires c.Kid? && c.of in v.chunks
    ensures forall q :: Content(w, q) == if q == c then 0 else Content(v, q)
    ensures forall u :: Of(w.chunks, u) == if c.of == u then WithChild(Of(v.chunks, u), c.one, 0) else Of(v.chunks, u)
    ensures forall u :: u in w.chunks <==> u in v.chunks
    ensures w.marked == v.marked && w.notes == v.notes && w.now == v.now
  {
    v.(chunks := Linked(v.chunks, c, 0))
  }

  /** r is a leaf below head x, which is alone on its ring. */
  predicate LeafBelow(v: Trie, x: int, r: int) {
    && IsHead(v, x) && IsHead(v, r) && Bk(v, x) == x && InSub(v, r, x) && Depth(v, x) < Depth(v, r)
    && Content(v, Kid(r, false)) == 0 && Content(v, Kid(r, true)) == 0
  }

  lemma DetachedOk(v: Trie, x: int, r: int)
    requires Ok(v) && LeafBelow(v, x, r)
    ensures UpCell(v, r).Kid? && UpCell(v, r).of in v.chunks
    ensures HoleOk(Detached(v, UpCell(v, r)), x, r) && UpCell(Detached(v, UpCell(v, r)), x) == UpCell(v, x)
  {
    hide NodeOk, CellOk, Apart, Content, Detached, TreeIndex, Block, Bit, Ok, Heir, RestOk, UpCell, LeafBelow;
    LeafCell(v, x, r);
    var c := UpCell(v, r);
    var w := Detached(v, c);
    DetachedHeir(v, x, r);
    forall t | t in w.chunks && t != x ensures RestOk(w, x, r, t) {
      DetachedRest(v, x, r, t);
    }
    forall q | IsCell(w, q) ensures CellOk(w, q) && Content(w, q) != r {
      DetachedCell(v, x, r, q);
    }
    forall t, u | t != x && u != x ensures Apart(w, t, u) {
      ApartIs(v, t, u);
      DetachedApart(v, c, t, u);
    }
  }

  lemma LeafCell(v: Trie, x: int, r: int)
    requires Ok(v) && LeafBelow(v, x, r)
    ensures UpCell(v, r).Kid? && UpCell(v, r).of in v.chunks && UpCell(v, r).of != r && Content(v, UpCell(v, r)) == r && r > 0
  {
    hide TreeIndex, Block, Bit, Content, Ok;
    NodeIs(v, r);
    AboveIt(v, r);
  }

  lemma DetachedHeir(v: Trie, x: int, r: int)
    requires Ok(v) && LeafBelow(v, x, r) && UpCell(v, r).Kid? && UpCell(v, r).of in v.chunks
    ensures Heir(Detached(v, UpCell(v, r)), x, r) && UpCell(Detached(v, UpCell(v, r)), x) == UpCell(v, x)
  {
    hide TreeIndex, Block, Bit, Content, Detached, Of, On, Ok;
    LeafCell(v, x, r);
    var w := Detached(v, UpCell(v, r));
    NodeIs(v, x);
    NodeIs(v, r);
    assert Size(w, r) == Size(v, r) && Size(w, x) == Size(v, x) && Depth(w, x) == Depth(v, x);
    if Depth(v, x) > 0 {
      AboveIt(v, x);
    }
    assert UpCell(w, x) == UpCell(v, x);
    assert PlaceOk(w, x);
  }

  lemma DetachedRest(v: Trie, x: int, r: int, t: int)
    requires Ok(v) && LeafBelow(v, x, r) && UpCell(v, r).Kid? && UpCell(v, r).of in v.chunks && t in v.chunks && t != x
    ensures RestOk(Detached(v, UpCell(v, r)), x, r, t)
  {
    hide TreeIndex, Block, Bit, Content, Detached, Of, On, Ok, LeafBelow;
    LeafCell(v, x, r);
    var w := Detached(v, UpCell(v, r));
    NodeIs(v, t);
    BelowIs(v, x, r);
    NodeIs(v, x);
    LeafRing(v, x, t);
    assert ChunkOk(w, t);
    assert RingOk(w, t);
    if IsHead(v, t) && t != r {
      if Depth(v, t) > 0 {
        AboveIt(v, t);
      }
      assert UpCell(w, t) == UpCell(v, t);
      assert PlaceOk(w, t);
    }
  }

  lemma BelowIs(v: Trie, x: int, r: int)
    requires LeafBelow(v, x, r)
    ensures IsHead(v, x) && IsHead(v, r) && Bk(v, x) == x
  {
  }

  lemma DetachedCell(v: Trie, x: int, r: int, q: Cell)
    requires Ok(v) && LeafBelow(v, x, r) && UpCell(v, r).Kid? && UpCell(v, r).of in v.chunks
    requires IsCell(Detached(v, UpCell(v, r)), q)
    ensures CellOk(Detached(v, UpCell(v, r)), q) && Content(Detached(v, UpCell(v, r)), q) != r
  {
    hide TreeIndex, Block, Bit, Content, Detached, Of, On, Ok, LeafBelow;
    LeafCell(v, x, r);
    var w := Detached(v, UpCell(v, r));
    CellIs(v, q);
    var n := Content(v, q);
    if n != 0 {
      assert UpCell(w, n) == UpCell(v, n);
    }
  }

  lemma DetachedApart(v: Trie, c: Cell, t: int, u: int)
    requires c.Kid? && c.of in v.chunks && Apart(v, t, u)
    ensures Apart(Detached(v, c), t, u)
  {
    hide TreeIndex, Block, Bit, Content, Detached, Of, On;
    var w := Detached(v, c);
    assert Size(w, t) == Size(v, t) && Size(w, u) == Size(v, u);
  }

  // The steps above as records.

  lemma RingOutIs(v: Trie, x: int)
    requires RingIs(v, x)
    ensures RingOut(v, x) == Trie(Bridge(v.chunks, v.chunks[x].fd, v.chunks[x].bk) - {x}, v.bins, v.marked, v.notes, v.now)
  {
  }

  lemma RingMovedIs(v: Trie, x: int)
    requires RingIs(v, x)
    ensures RingMoved(v, x) == Trie(Bridge(v.chunks, v.chunks[x].fd, v.chunks[x].bk), v.bins, v.marked,
                                    Relabelled(v.notes, x, v.chunks[x].bk), v.now)
  {
  }

  lemma DetachedIs(v: Trie, q: int, one: bool)
    requires q in v.chunks
    ensures Detached(v, Kid(q, one)) ==
            Trie(v.chunks[q := WithChild(v.chunks[q], one, 0)], v.bins, v.marked, v.notes, v.now)
  {
  }

  lemma LeafOutIs(v: Trie, x: int, c: Cell)
    requires CellIn(v, x, c)
    ensures LeafOut(v, x, c) == match c
      case BinCell(i) => Trie(v.chunks - {x}, v.bins[i := 0], v.marked - {i}, v.notes, v.now)
      case Kid(q, one) => Trie(v.chunks[q := WithChild(v.chunks[q], one, 0)] - {x}, v.bins, v.marked, v.notes, v.now)
  {
  }

  lemma PlacedIs(v: Trie, x: int, r: int, c: Cell)
    requires PlaceIn(v, x, r, c)
    ensures Placed(v, x, r, c) ==
      var m := if c.Kid? then v.chunks[c.of := WithChild(v.chunks[c.of], c.one, r)] else v.chunks;
      var m1 := m[r := m[r].(parent := v.chunks[x].parent)];
      var m2 := Adopted(m1, r, v.chunks[x].child0, false);
      Trie(Adopted(m2, r, v.chunks[x].child1, true) - {x}, if c.BinCell? then v.bins[c.i := r] else v.bins, v.marked,
           v.notes[r := Note(r, Depth(v, x), Stamp(v, r))], v.now)
  {
    KidsAre(v, x);
    hide Content;
  }

  /** What the bins hold: the size of each chunk. */
  function Sizes(v: Trie): (m: map<int, int>)
    ensures forall t :: t in m <==> t in v.chunks
    ensures forall t :: t in m ==> m[t] == v.chunks[t].size
  {
    map t | t in v.chunks :: v.chunks[t].size
  }

  lemma LeafedSizes(v: Trie, x: int, s: nat, c: Cell, p: int, d: nat)
    requires s < WORD && CellIn(v, x, c)
    ensures Sizes(Leafed(v, x, s, c, p, d)) == Sizes(v)[x := s]
  {
    hide Leafed, Content, On, Sizes;
    var w := Leafed(v, x, s, c, p, d);
    forall t | t in w.chunks ensures Sizes(w)[t] == Sizes(v)[x := s][t] {
      assert Of(w.chunks, t) == w.chunks[t];
    }
  }

  lemma PlacedSizes(v: Trie, x: int, r: int, c: Cell)
    requires PlaceIn(v, x, r, c)
    ensures Sizes(Placed(v, x, r, c)) == Sizes(v) - {x}
  {
    hide Placed, Content, On, Sizes;
    var w := Placed(v, x, r, c);
    forall t | t in w.chunks ensures Sizes(w)[t] == (Sizes(v) - {x})[t] {
      assert Of(w.chunks, t) == w.chunks[t];
    }
  }

  lemma RingOutSizes(v: Trie, x: int)
    requires RingIs(v, x)
    ensures Sizes(RingOut(v, x)) == Sizes(v) - {x}
  {
    hide RingOut, Content, On, Sizes;
    var w := RingOut(v, x);
    forall t | t in w.chunks ensures Sizes(w)[t] == (Sizes(v) - {x})[t] {
      assert Of(w.chunks, t) == w.chunks[t];
    }
  }

  lemma RingMovedSizes(v: Trie, x: int)
    requires RingIs(v, x)
    ensures Sizes(RingMoved(v, x)) == Sizes(v)
  {
    hide RingMoved, Content, On, Sizes;
    var w := RingMoved(v, x);
    forall t | t in w.chunks ensures Sizes(w)[t] == (Sizes(v))[t] {
      assert Of(w.chunks, t) == w.chunks[t];
    }
  }

  lemma LeafOutSizes(v: Trie, x: int, c: Cell)
    requires CellIn(v, x, c)
    ensures Sizes(LeafOut(v, x, c)) == Sizes(v) - {x}
  {
    hide LeafOut, Content, On, Sizes;
    var w := LeafOut(v, x, c);
    forall t | t in w.chunks ensures Sizes(w)[t] == (Sizes(v) - {x})[t] {
      assert Of(w.chunks, t) == w.chunks[t];
    }
  }

  lemma DetachedSizes(v: Trie, c: Cell)
    requires c.Kid? && c.of in v.chunks
    ensures Sizes(Detached(v, c)) == Sizes(v)
  {
    hide Detached, Content, On, Sizes;
    var w := Detached(v, c);
    forall t | t in w.chunks ensures Sizes(w)[t] == (Sizes(v))[t] {
      assert Of(w.chunks, t) == w.chunks[t];
    }
  }

  lemma RingedSizes(v: Trie, x: int, s: nat, t: int)
    requires s < WORD && RingIn(v, x, t)
    ensures Sizes(Ringed(v, x, s, t)) == Sizes(v)[x := s]
  {
    hide Ringed, Content, On, Sizes;
    var w := Ringed(v, x, s, t);
    forall u | u in w.chunks ensures Sizes(w)[u] == Sizes(v)[x := s][u] {
      assert Of(w.chunks, u) == w.chunks[u];
    }
  }

  class TreeBin {
    var chunks: map<int, Chunk>
    var bins: map<int, int>
    var marked: set<int>
    ghost var notes: map<int, Note>
    ghost var now: int

    ghost function View(): Trie
      reads this
    {
      Trie(chunks, bins, marked, notes, now)
    }

    /** No chunk in any bin. */
    constructor ()
      ensures Ok(View()) && chunks == map[] && marked == {}
    {
      chunks, bins, marked, notes, now := map[], map[], {}, map[], 0;
    }

    /** InsertLargeChunk: a free chunk enters the bins. The other chunks and their sizes stay. */
    method InsertLargeChunk(x: int, s: nat)
      requires Ok(View()) && x > 0 && x !in chunks && MIN_LARGE_SIZE <= s < WORD && s % 8 == 0
      modifies this
      ensures Ok(View()) && Sizes(View()) == Sizes(old(View()))[x := s]
      ensures marked <= old(marked) + {TreeIndex(s)}
    {
      ghost var v := View();
      hide Ok, Content, TreeIndex, Block, Bit, Slot, NoHead, IsHead, Shifted, LeftShift, Seeking, Leafed, Ringed, Sizes;
      var i := TreeIndex(s);
      MarkedIs(v, i);
      BinIs(v, i);
      if i !in marked {
        EmptyBin(v, s);
        LeafAtBin(v, x, s);
        chunks := chunks[x := Chunk(s, x, x, 0, 0, BinPtr(i), i)];
        bins := bins[i := x];
        marked := marked + {i};
        notes, now := notes[x := Note(x, 0, now)], now + 1;
      } else {
        var t := At(bins, i);
        var k: nat := Shifted(s, LeftShift(i));
        SeekStarts(v, s);
        while chunks[t].size != s
          invariant View() == v && t in chunks && Seeking(v, s, t, k) && IsHead(v, t) && chunks[t].size == Size(v, t)
          decreases Own(v, t)
        {
          var one := k / 0x8000_0000 % 2 == 1;
          SeekDown(v, s, t, k);
          KidIs(v, t, one);
          k := k * 2 % WORD;
          var n := if one then chunks[t].child1 else chunks[t].child0;
          if n != 0 {
            t := n;
          } else {
            LeafAtKid(v, x, s, t, one);
            chunks := chunks[x := Chunk(s, x, x, 0, 0, t, i)];
            chunks := chunks[t := WithChild(chunks[t], one, x)];
            notes, now := notes[x := Note(x, Depth(v, t) + 1, now)], now + 1;
            return;
          }
        }
        JoinRing(v, x, s, t);
        var f := chunks[t].fd;
        chunks := chunks[x := Chunk(s, f, t, 0, 0, 0, i)];
        chunks := chunks[t := chunks[t].(fd := x)];
        chunks := chunks[f := chunks[f].(bk := x)];
        notes, now := notes[x := Note(t, 0, now)], now + 1;
      }
    }

    /** The rightmost descendant of x, with the cell that points to it; 0 when x has no child. */
    method RightmostLeaf(x: int) returns (r: int, q: int, one: bool)
      requires Ok(View()) && x in chunks && IsHead(View(), x) && chunks[x].bk == x
      ensures r == 0 ==> IsLeaf(View(), x, UpCell(View(), x))
      ensures r != 0 ==> LeafBelow(View(), x, r) && UpCell(View(), r) == Kid(q, one) && q in chunks && r in chunks
    {
      ghost var v := View();
      hide Ok, Content, TreeIndex, Block, Bit, InSub, UpCell, IsHead, Own;
      KidsAre(v, x);
      q, one := x, true;
      r := chunks[x].child1;
      if r == 0 {
        one := false;
        r := chunks[x].child0;
      }
      if r != 0 {
        FirstBelow(v, x, one);
        while chunks[r].child1 != 0 || chunks[r].child0 != 0
          invariant r in chunks && q in chunks && Below(v, x, r) && UpCell(v, r) == Kid(q, one)
          decreases Own(v, r)
        {
          KidsAre(v, r);
          NextBelow(v, x, r, chunks[r].child1 != 0);
          q, one := r, chunks[r].child1 != 0;
          r := if one then chunks[r].child1 else chunks[r].child0;
        }
        KidsAre(v, r);
        NotNull(v, r);
      }
    }

    /** r takes the cell, the parent and the children of x. */
    method TakePlace(x: int, r: int)
      requires HoleOk(View(), x, r) && x in chunks && r in chunks
      modifies this
      ensures Ok(View()) && Sizes(View()) == Sizes(old(View())) - {x} && marked == old(marked)
    {
      ghost var v := View();
      ghost var c := UpCell(v, x);
      hide HoleOk, Ok, Content, TreeIndex, Block, Bit, UpCell, IsHead, Own, Sizes, Placed;
      PlacedOk(v, x, r);
      PlacedSizes(v, x, r, c);
      PlacedIs(v, x, r, c);
      CellOfHole(v, x, r);
      var p := chunks[x].parent;
      var i := chunks[x].index;
      KidsAre(v, x);
      if x == At(bins, i) {
        bins := bins[i := r];
      } else if chunks[p].child0 == x {
        chunks := chunks[p := chunks[p].(child0 := r)];
      } else {
        chunks := chunks[p := chunks[p].(child1 := r)];
      }
      chunks := chunks[r := chunks[r].(parent := p)];
      var c0 := chunks[x].child0;
      if c0 != 0 {
        chunks := chunks[r := chunks[r].(child0 := c0)];
        chunks := chunks[c0 := chunks[c0].(parent := r)];
      }
      var c1 := chunks[x].child1;
      if c1 != 0 {
        chunks := chunks[r := chunks[r].(child1 := c1)];
        chunks := chunks[c1 := chunks[c1].(parent := r)];
      }
      chunks := chunks - {x};
      notes := notes[r := Note(r, Depth(v, x), Stamp(v, r))];
      assert View() == Placed(v, x, r, c);
    }

    /** UnlinkLargeChunk: one chunk leaves the bins. The other chunks and their sizes stay. */
    method UnlinkLargeChunk(x: int)
      requires Ok(View()) && x in chunks
      modifies this
      ensures Ok(View()) && Sizes(View()) == Sizes(old(View())) - {x} && marked <= old(marked)
    {
      ghost var v := View();
      hide Ok, HoleOk, Content, TreeIndex, Block, Bit, UpCell, IsHead, Own, Sizes, RingOut, LeafOut, Detached, RingMoved, LeafBelow;
      NodeKind(v, x);
      if chunks[x].bk != x {
        var f, r := chunks[x].fd, chunks[x].bk;
        chunks := chunks[f := chunks[f].(bk := r)];
        chunks := chunks[r := chunks[r].(fd := f)];
        if chunks[x].parent != 0 {
          RingMovedOk(v, x);
          RingMovedSizes(v, x);
          RingMovedIs(v, x);
          notes := Relabelled(notes, x, r);
          assert View() == RingMoved(v, x);
          TakePlace(x, r);
        } else {
          RingOutOk(v, x);
          RingOutSizes(v, x);
          RingOutIs(v, x);
          chunks := chunks - {x};
          assert View() == RingOut(v, x);
        }
      } else {
        var r, q, one := RightmostLeaf(x);
        if r != 0 {
          DetachedOk(v, x, r);
          DetachedSizes(v, Kid(q, one));
          DetachedIs(v, q, one);
          chunks := chunks[q := WithChild(chunks[q], one, 0)];
          assert View() == Detached(v, Kid(q, one));
          TakePlace(x, r);
        } else {
          LeafOutOk(v, x, UpCell(v, x));
          LeafOutSizes(v, x, UpCell(v, x));
          LeafOutIs(v, x, UpCell(v, x));
          CellOfHead(v, x);
          var p, i := chunks[x].parent, chunks[x].index;
          if x == At(bins, i) {
            bins := bins[i := 0];
            marked := marked - {i};
          } else if chunks[p].child0 == x {
            chunks := chunks[p := chunks[p].(child0 := 0)];
          } else {
            chunks := chunks[p := chunks[p].(child1 := 0)];
          }
          chunks := chunks - {x};
          assert View() == LeafOut(v, x, UpCell(v, x));
        }
      }
    }

    /** The descent through the bin of the request, bit by bit. */
    method SearchBin(nb: nat, idx: nat) returns (best: int, rsize: nat, t: int)
      requires Ok(View()) && MIN_LARGE_SIZE <= nb < WORD && idx == TreeIndex(nb)
      ensures Found(View(), best, nb, rsize) && (best != 0 ==> Bin(View(), best) == idx)
      ensures BinCovered(View(), idx, nb, rsize, 0, t)
      ensures t != 0 ==> IsHead(View(), t) && Bin(View(), t) == idx && (rsize == 0 || Beyond(View(), t, nb))
      ensures t == 0 ==> rsize > 0
    {
      ghost var v := View();
      hide TreeIndex, Block, Bit, Ok, Above, InSub, BinCovered, Content, LeftShift, Shifted, Walking, RightOf, Beyond;
      best, rsize, t := 0, WORD - nb, At(bins, idx);
      StartCovered(v, nb);
      assert t == Content(v, BinCell(idx)) by { BinIs(v, idx); }
      if t != 0 {
        var k: nat := Shifted(nb, LeftShift(idx));
        var rst := 0;
        assert Walking(v, nb, rsize, t, rst, k) by { WalkStarts(v, nb, t); }
        while true
          invariant Walking(v, nb, rsize, t, rst, k)
          invariant Found(v, best, nb, rsize) && (best != 0 ==> Bin(v, best) == idx) && 0 < rsize
          decreases Own(v, t)
        {
          WalkIn(v, nb, rsize, t, rst, k);
          var trem := (chunks[t].size + WORD - nb) % WORD;
          RemainderIs(v, t, nb, rsize);
          ghost var rsize0 := rsize;
          if trem < rsize {
            best, rsize := t, trem;
            if rsize == 0 {
              ExactCovers(v, idx, nb, t);
              break;
            }
          }
          WalkDown(v, nb, rsize0, rsize, t, rst, k);
          KidsAre(v, t);
          var rt := chunks[t].child1;
          t := if k / 0x8000_0000 % 2 == 1 then chunks[t].child1 else chunks[t].child0;
          if rt != 0 && rt != t {
            rst := rt;
          }
          if t == 0 {
            t := rst;
            break;
          }
          k := k * 2 % WORD;
        }
      }
    }

    /** The walk along the leftmost path from t, which looks for less than the best remainder so far. */
    method WalkLeft(nb: nat, start: int, best0: int, rsize0: nat) returns (best: int, rsize: nat)
      requires Ok(View()) && 0 < nb < WORD && Found(View(), best0, nb, rsize0) && AllCovered(View(), nb, rsize0, start)
      requires start != 0 ==> IsHead(View(), start) && (rsize0 == 0 || AllFit(View(), start, nb))
      ensures Found(View(), best, nb, rsize) && AllCovered(View(), nb, rsize, 0)
    {
      ghost var v := View();
      hide TreeIndex, Block, Bit, Ok, InSub, Content, AllFit, AllCovered, Own, Waits;
      var t := start;
      best, rsize := best0, rsize0;
      while t != 0
        invariant Found(v, best, nb, rsize) && AllCovered(v, nb, rsize, t)
        invariant t != 0 ==> IsHead(v, t) && (rsize == 0 || AllFit(v, t, nb))
        decreases if t == 0 then -1 else Own(v, t) as int
      {
        NotNull(v, t);
        var trem := (chunks[t].size + WORD - nb) % WORD;
        RemainderIs(v, t, nb, rsize);
        LeftmostStep(v, nb, rsize, if trem < rsize then trem else rsize, t);
        KidsAre(v, t);
        if trem < rsize {
          rsize, best := trem, t;
        }
        t := if chunks[t].child0 != 0 then chunks[t].child0 else chunks[t].child1;
      }
    }

    /** The root of the next bin that is not empty, when the request's own bin had nothing. */
    method NextTree(nb: nat, idx: nat, best: int, rsize: nat) returns (t: int)
      requires Ok(View()) && MIN_LARGE_SIZE <= nb < WORD && idx == TreeIndex(nb) && Found(View(), best, nb, rsize)
      requires best != 0 ==> Bin(View(), best) == idx
      requires BinCovered(View(), idx, nb, rsize, 0, 0)
      ensures AllCovered(View(), nb, rsize, t)
      ensures t != 0 ==> IsHead(View(), t) && AllFit(View(), t, nb)
    {
      ghost var v := View();
      hide TreeIndex, Block, Bit, Ok, Content, AllFit, AllCovered, BinCovered, Found, Depth;
      t := 0;
      var i := -1;
      if best == 0 {
        i := LeastAbove(idx);
        if i >= 0 {
          RootIn(v, i);
          t := At(bins, i);
          BinIs(v, i);
          RootFits(v, nb, t);
        }
      }
      NextBin(v, nb, rsize, best, i);
    }

    /** Where the walk to the left starts, and what the descent has found before it. */
    method StartLarge(nb: nat) returns (best: int, rsize: nat, t: int)
      requires Ok(View()) && MIN_LARGE_SIZE <= nb < WORD
      ensures Found(View(), best, nb, rsize) && AllCovered(View(), nb, rsize, t)
      ensures t != 0 ==> IsHead(View(), t) && (rsize == 0 || AllFit(View(), t, nb))
    {
      hide TreeIndex, Ok, BinCovered, AllCovered, Beyond, AllFit, Found, Bin, IsHead, Content;
      var idx := TreeIndex(nb);
      best, rsize, t := SearchBin(nb, idx);
      if t == 0 {
        t := NextTree(nb, idx, best, rsize);
      } else {
        WaitsAll(View(), nb, rsize, best, t);
      }
    }

    /** The search of TmallocLarge: the best fit among all chunks of the bins, and what it leaves over. */
    method FindLarge(nb: nat) returns (best: int, rsize: nat)
      requires Ok(View()) && MIN_LARGE_SIZE <= nb < WORD
      ensures Found(View(), best, nb, rsize) && BestFit(View(), best, nb)
    {
      hide TreeIndex, Ok, AllCovered, AllFit, Found, IsHead;
      var t;
      best, rsize, t := StartLarge(nb);
      best, rsize := WalkLeft(nb, t, best, rsize);
      FoundIsBest(View(), best, nb, rsize);
    }

    /** The search of TmallocSmall: all binned chunks are large enough, and the smallest one is on the leftmost
        path of the first bin that is not empty. */
    method FindSmallest(nb: nat) returns (best: int, rsize: nat)
      requires Ok(View()) && 0 < nb < MIN_LARGE_SIZE && marked != {}
      requires forall i :: i in marked ==> 0 <= i < NTREEBINS
      ensures best != 0 && Found(View(), best, nb, rsize) && BestFit(View(), best, nb)
    {
      ghost var v := View();
      hide TreeIndex, Ok, AllCovered, Beyond, Block, Content;
      var i := LeastAbove(-1);
      SomeMarked(v, i);
      RootIn(v, i);
      var t := At(bins, i);
      BinIs(v, i);
      NotNull(v, t);
      RootFits(v, nb, t);
      best, rsize := t, chunks[t].size - nb;
      FirstBin(v, nb, rsize, i);
      LeftmostStep(v, nb, WORD - nb, rsize, t);
      KidsAre(v, t);
      t := if chunks[t].child0 != 0 then chunks[t].child0 else chunks[t].child1;
      best, rsize := WalkLeft(nb, t, best, rsize);
      FoundIsBest(v, best, nb, rsize);
    }

    /** The first marked bin above idx, or -1. */
    method LeastAbove(idx: int) returns (i: int)
      requires Ok(View()) && -1 <= idx < NTREEBINS
      ensures 0 <= i ==> idx < i < NTREEBINS && Content(View(), BinCell(i)) != 0
      ensures forall j :: 0 <= j < NTREEBINS && idx < j && (i < 0 || j < i) ==> Content(View(), BinCell(j)) == 0
    {
      hide Ok, Content;
      ghost var v := View();
      i := BinMaps.FirstMarked(marked, idx);
      if i >= 0 {
        MarkedIs(v, i);
      }
      forall j | 0 <= j < NTREEBINS && idx < j && (i < 0 || j < i) ensures Content(v, BinCell(j)) == 0 {
        MarkedIs(v, j);
      }
    }
  }

  /** The state of the descent. */
  ghost predicate Walking(v: Trie, nb: nat, rsize: nat, t: int, rst: int, k: nat)
    requires nb < WORD
  {
    && Descending(v, nb, rsize, t, rst) && BinCovered(v, TreeIndex(nb), nb, rsize, t, rst)
    && k == Shifted(nb, LeftShift(TreeIndex(nb)) + Depth(v, t))
  }

  lemma WalkStarts(v: Trie, nb: nat, t: int)
    requires nb < WORD && Depth(v, t) == 0 && Descending(v, nb, WORD - nb, t, 0)
    requires BinCovered(v, TreeIndex(nb), nb, WORD - nb, t, 0)
    ensures Walking(v, nb, WORD - nb, t, 0, Shifted(nb, LeftShift(TreeIndex(nb))))
  {
  }

  lemma WalkIn(v: Trie, nb: nat, rsize: nat, t: int, rst: int, k: nat)
    requires Ok(v) && nb < WORD && Walking(v, nb, rsize, t, rst, k)
    ensures t in v.chunks && IsHead(v, t) && v.chunks[t].size == Size(v, t) && t > 0 && Bin(v, t) == TreeIndex(nb)
  {
    hide TreeIndex, Block, Shifted;
    assert NodeOk(v, t);
  }

  lemma WalkDown(v: Trie, nb: nat, rsize: nat, rsize': nat, t: int, rst: int, k: nat)
    requires Ok(v) && MIN_LARGE_SIZE <= nb < WORD && Walking(v, nb, rsize, t, rst, k)
    requires rsize' <= rsize && !Better(v, t, nb, rsize')
    ensures var r := Content(v, Kid(t, true)); var c := if k / 0x8000_0000 % 2 == 1 then r else Content(v, Kid(t, false));
            var rst' := if r != 0 && r != c then r else rst;
            && (c != 0 ==> Walking(v, nb, rsize', c, rst', k * 2 % WORD) && Own(v, c) < Own(v, t))
            && (c == 0 ==> BinCovered(v, TreeIndex(nb), nb, rsize', 0, rst'))
            && (c == 0 && rst' != 0 ==> IsHead(v, rst') && Bin(v, rst') == TreeIndex(nb) && Beyond(v, rst', nb))
  {
    hide TreeIndex, Block, Bit, Ok, Content, Shifted, BinCovered, LeftShift;
    KidsAre(v, t);
    OwnPositive(v, t);
    SignOf(v, nb, t, k);
    DescendCovered(v, nb, rsize, rsize', t, rst);
    ShiftOnce(nb, LeftShift(TreeIndex(nb)) + Depth(v, t));
    var one := Bit(nb, Own(v, t) - 1) == 1;
    var c := Content(v, Kid(t, one));
    if c != 0 {
      OwnPositive(v, c);
    }
  }

  lemma BinIs(v: Trie, i: int)
    ensures Content(v, BinCell(i)) == At(v.bins, i)
  {
  }

  lemma KidIs(v: Trie, t: int, one: bool)
    requires t in v.chunks
    ensures Content(v, Kid(t, one)) == if one then v.chunks[t].child1 else v.chunks[t].child0
  {
  }

  /** The three ways to insert. */
  lemma LeafAtBin(v: Trie, x: int, s: nat)
    requires Ok(v) && x > 0 && x !in v.chunks && MIN_LARGE_SIZE <= s < WORD && s % 8 == 0
    requires var i := TreeIndex(s); Content(v, BinCell(i)) == 0 && NoHead(v, s) && Slot(v, s, BinCell(i), BinPtr(i), 0)
    ensures var i := TreeIndex(s);
            var w := Trie(v.chunks[x := Chunk(s, x, x, 0, 0, BinPtr(i), i)], v.bins[i := x], v.marked + {i},
                          v.notes[x := Note(x, 0, v.now)], v.now + 1);
            Ok(w) && Sizes(w) == Sizes(v)[x := s]
  {
    hide Ok, TreeIndex, Block, Bit, NoHead, IsHead, Slot, Content, Sizes;
    var i := TreeIndex(s);
    LeafedOk(v, x, s, BinCell(i), BinPtr(i), 0);
    LeafedSizes(v, x, s, BinCell(i), BinPtr(i), 0);
  }

  lemma LeafAtKid(v: Trie, x: int, s: nat, t: int, one: bool)
    requires Ok(v) && x > 0 && x !in v.chunks && MIN_LARGE_SIZE <= s < WORD && s % 8 == 0 && t in v.chunks
    requires Content(v, Kid(t, one)) == 0 && NoHead(v, s) && Slot(v, s, Kid(t, one), t, Depth(v, t) + 1)
    ensures var m := v.chunks[x := Chunk(s, x, x, 0, 0, t, TreeIndex(s))];
            var w := Trie(m[t := WithChild(m[t], one, x)], v.bins, v.marked,
                          v.notes[x := Note(x, Depth(v, t) + 1, v.now)], v.now + 1);
            Ok(w) && Sizes(w) == Sizes(v)[x := s]
  {
    hide Ok, TreeIndex, Block, Bit, NoHead, IsHead, Slot, Content, Sizes;
    LeafedOk(v, x, s, Kid(t, one), t, Depth(v, t) + 1);
    LeafedSizes(v, x, s, Kid(t, one), t, Depth(v, t) + 1);
  }

  lemma JoinRing(v: Trie, x: int, s: nat, t: int)
    requires Ok(v) && x > 0 && x !in v.chunks && s < WORD && IsHead(v, t) && Size(v, t) == s
    ensures t in v.chunks && v.chunks[t].fd in v.chunks
    ensures var f := v.chunks[t].fd;
            var m := v.chunks[x := Chunk(s, f, t, 0, 0, 0, TreeIndex(s))];
            var m1 := m[t := m[t].(fd := x)];
            var w := Trie(m1[f := m1[f].(bk := x)], v.bins, v.marked, v.notes[x := Note(t, 0, v.now)], v.now + 1);
            Ok(w) && Sizes(w) == Sizes(v)[x := s]
  {
    hide Ok, TreeIndex, Block, Bit, Content, Sizes;
    NodeIs(v, t);
    RingedOk(v, x, s, t);
    RingedSizes(v, x, s, t);
  }

  lemma KidsAre(v: Trie, t: int)
    requires t in v.chunks
    ensures Content(v, Kid(t, true)) == v.chunks[t].child1 && Content(v, Kid(t, false)) == v.chunks[t].child0
  {
  }

  /** Before the first step all of the bin waits for its root. */
  lemma StartCovered(v: Trie, nb: nat)
    requires Ok(v) && MIN_LARGE_SIZE <= nb < WORD
    ensures var t := Content(v, BinCell(TreeIndex(nb)));
      && (t != 0 ==> Descending(v, nb, WORD - nb, t, 0) && Depth(v, t) == 0)
      && BinCovered(v, TreeIndex(nb), nb, WORD - nb, t, 0)
  {
    hide TreeIndex, Block, Bit, Ok, Content;
    var t := Content(v, BinCell(TreeIndex(nb)));
    if t != 0 {
      RootIn(v, TreeIndex(nb));
      NotNull(v, t);
      SameBin(nb, Size(v, t));
    }
    forall u | Better(v, u, nb, WORD - nb) && Bin(v, u) == TreeIndex(nb) ensures t != 0 && InSub(v, u, t) {
      UnderRoot(v, u);
      NotNull(v, t);
    }
  }

  /** Nothing is better than an exact fit. */
  lemma ExactCovers(v: Trie, i: nat, nb: nat, t: int)
    ensures BinCovered(v, i, nb, 0, 0, t) && AllCovered(v, nb, 0, t)
  {
  }

  /** The sign bit of the shifted request is the bit that selects the child. */
  lemma SignOf(v: Trie, nb: nat, t: int, k: nat)
    requires nb < WORD && Bin(v, t) == TreeIndex(nb) && Own(v, t) > 0
    requires k == Shifted(nb, LeftShift(TreeIndex(nb)) + Depth(v, t))
    ensures k / 0x8000_0000 == Bit(nb, Own(v, t) - 1) && k / 0x8000_0000 % 2 == k / 0x8000_0000
  {
    hide TreeIndex, Block, Bit, Shifted;
    SignBit(nb, LeftShift(TreeIndex(nb)) + Depth(v, t));
  }

  lemma MarkedIs(v: Trie, i: int)
    requires Ok(v) && 0 <= i < NTREEBINS
    ensures i in v.marked <==> Content(v, BinCell(i)) != 0
  {
    assert CellOk(v, BinCell(i));
  }

  /** What the descent leaves waiting for t is all that is better. */
  lemma WaitsAll(v: Trie, nb: nat, rsize: nat, best: int, t: int)
    requires Ok(v) && MIN_LARGE_SIZE <= nb < WORD && BinCovered(v, TreeIndex(nb), nb, rsize, 0, t)
    requires t != 0 ==> IsHead(v, t) && Bin(v, t) == TreeIndex(nb) && (rsize == 0 || Beyond(v, t, nb))
    ensures t != 0 ==> AllCovered(v, nb, rsize, t) && (rsize == 0 || AllFit(v, t, nb))
  {
    hide TreeIndex, Block, Ok;
    if t != 0 {
      forall u | Better(v, u, nb, rsize) ensures Waits(v, u, t) {
        NotNull(v, u);
        BinOrder(nb, Size(v, u));
      }
    }
  }

  /** The whole subtree of t can hold the request. */
  predicate AllFit(v: Trie, t: int, nb: nat)
    requires nb < WORD
  {
    nb < MIN_LARGE_SIZE || Beyond(v, t, nb)
  }

  lemma RootFits(v: Trie, nb: nat, t: int)
    requires nb < WORD && (nb < MIN_LARGE_SIZE || TreeIndex(nb) < Bin(v, t))
    ensures AllFit(v, t, nb)
  {
  }

  /** One step of the walk to the left. */
  lemma LeftmostStep(v: Trie, nb: nat, rsize: nat, rsize': nat, t: int)
    requires Ok(v) && 0 < nb < WORD && IsHead(v, t) && AllCovered(v, nb, rsize, t)
    requires rsize == 0 || AllFit(v, t, nb)
    requires rsize' <= rsize && !Better(v, t, nb, rsize')
    ensures var c := if Content(v, Kid(t, false)) != 0 then Content(v, Kid(t, false)) else Content(v, Kid(t, true));
      && AllCovered(v, nb, rsize', c)
      && (c != 0 ==> IsHead(v, c) && (rsize' == 0 || AllFit(v, c, nb)) && Own(v, c) < Own(v, t))
  {
    hide TreeIndex, Block, Ok, Content, Beyond, AllCovered;
    KidsAre(v, t);
    NotNull(v, t);
    var c := LeftmostChild(v, t);
    if c != 0 {
      var one := Content(v, Kid(t, false)) == 0;
      ChildOf(v, t, one);
    }
    if rsize' == 0 {
      ExactCovers(v, 0, nb, c);
    } else {
      if nb >= MIN_LARGE_SIZE {
        BeyondIsGreater(v, t, nb);
        if c != 0 {
          BeyondChild(v, nb, t, Content(v, Kid(t, false)) == 0);
        }
      }
      LeftmostCovered(v, nb, rsize, rsize', t);
    }
  }

  lemma NoneIn(s: set<int>)
    requires forall j :: j !in s
    ensures s == {}
  {
    assert forall j :: j in s <==> j in {};
  }

  lemma SomeMarked(v: Trie, i: int)
    requires Ok(v) && v.marked != {} && (forall j :: j in v.marked ==> 0 <= j < NTREEBINS)
    requires forall j :: 0 <= j < NTREEBINS && -1 < j && (i < 0 || j < i) ==> Content(v, BinCell(j)) == 0
    ensures 0 <= i
  {
    hide Ok, Content;
    if i < 0 {
      forall j ensures j !in v.marked {
        if j in v.marked {
          MarkedIs(v, j);
        }
      }
      NoneIn(v.marked);
    }
  }

  /** All chunks wait for the root of the first bin that is not empty. */
  lemma FirstBin(v: Trie, nb: nat, rsize: nat, i: int)
    requires Ok(v) && 0 < nb < MIN_LARGE_SIZE && 0 <= i < NTREEBINS && Content(v, BinCell(i)) != 0
    requires forall j :: 0 <= j < i ==> Content(v, BinCell(j)) == 0
    ensures AllCovered(v, nb, WORD - nb, Content(v, BinCell(i)))
  {
    hide TreeIndex, Block, Ok, Content;
    RootIn(v, i);
    forall u | Better(v, u, nb, WORD - nb) ensures Waits(v, u, Content(v, BinCell(i))) {
      UnderRoot(v, u);
      NotNull(v, Content(v, BinCell(Bin(v, u))));
    }
  }

  // ---------- the descent of an insertion ----------

  lemma EmptyBin(v: Trie, s: nat)
    requires Ok(v) && MIN_LARGE_SIZE <= s < WORD && Content(v, BinCell(TreeIndex(s))) == 0
    ensures NoHead(v, s) && Slot(v, s, BinCell(TreeIndex(s)), BinPtr(TreeIndex(s)), 0)
  {
    hide Ok, Content, TreeIndex, Block, Bit;
    forall u | IsHead(v, u) ensures Size(v, u) != s {
      UnderRoot(v, u);
      NotNull(v, Content(v, BinCell(Bin(v, u))));
    }
  }

  /** The descent has come to t: the path so far is that of size s, and a head of size s can only be below t. */
  ghost predicate Seeking(v: Trie, s: nat, t: int, k: nat)
    requires s < WORD
  {
    && IsHead(v, t) && Bin(v, t) == TreeIndex(s) && Block(Size(v, t), Own(v, t)) == Block(s, Own(v, t))
    && (forall u {:trigger IsHead(v, u)} :: IsHead(v, u) && Size(v, u) == s ==> InSub(v, u, t))
    && k == Shifted(s, LeftShift(TreeIndex(s)) + Depth(v, t))
  }

  lemma SeekStarts(v: Trie, s: nat)
    requires Ok(v) && MIN_LARGE_SIZE <= s < WORD && Content(v, BinCell(TreeIndex(s))) != 0
    ensures var t := Content(v, BinCell(TreeIndex(s)));
      IsHead(v, t) && t in v.chunks && v.chunks[t].size == Size(v, t) && Seeking(v, s, t, Shifted(s, LeftShift(TreeIndex(s))))
  {
    hide Ok, Content, TreeIndex, Block, Bit, LeftShift, Shifted;
    var t := Content(v, BinCell(TreeIndex(s)));
    RootIn(v, TreeIndex(s));
    NotNull(v, t);
    SizeIs(v, t);
    SameBin(s, Size(v, t));
    forall u | IsHead(v, u) && Size(v, u) == s ensures InSub(v, u, t) {
      UnderRoot(v, u);
    }
  }

  /** One level down, or an empty cell where size s belongs. */
  lemma SeekDown(v: Trie, s: nat, t: int, k: nat)
    requires Ok(v) && MIN_LARGE_SIZE <= s < WORD && s % 8 == 0 && Seeking(v, s, t, k) && v.chunks[t].size != s
    ensures t in v.chunks
    ensures var c := Kid(t, k / 0x8000_0000 % 2 == 1); var n := Content(v, c);
      if n != 0 then IsHead(v, n) && n in v.chunks && v.chunks[n].size == Size(v, n) && Seeking(v, s, n, k * 2 % WORD) && Own(v, n) < Own(v, t)
      else NoHead(v, s) && Slot(v, s, c, t, Depth(v, t) + 1) 
  {
    hide Ok, Content, TreeIndex, Block, Bit, LeftShift, Shifted;
    OwnPositive(v, t);
    SignOf(v, s, t, k);
    SizeIs(v, t);
    NodeIs(v, t);
    var one := Bit(s, Own(v, t) - 1) == 1;
    var n := Content(v, Kid(t, one));
    if n != 0 {
      DescendTaken(v, s, t, one);
      ChildOf(v, t, one);
      SizeIs(v, n);
      ShiftOnce(s, LeftShift(TreeIndex(s)) + Depth(v, t));
      forall u | IsHead(v, u) && Size(v, u) == s ensures InSub(v, u, n) {
        SubtreeStep(v, u, t);
      }
    } else {
      DeepEnough(v, s, t);
      forall u | IsHead(v, u) ensures Size(v, u) != s {
        if Size(v, u) == s {
          SubtreeStep(v, u, t);
          NotNull(v, n);
        }
      }
    }
  }

  /** Two different sizes differ in a bit above bit 2, so there is room for one more level. */
  lemma DeepEnough(v: Trie, s: nat, t: int)
    requires s % 8 == 0 && Size(v, t) % 8 == 0 && s != Size(v, t) && Block(Size(v, t), Own(v, t)) == Block(s, Own(v, t))
    ensures Own(v, t) > 3
  {
    hide Block, TreeIndex;
    if Own(v, t) <= 3 {
      BlockCoarser(s, Size(v, t), Own(v, t), 3);
      BlockEight(s, Size(v, t));
    }
  }

  // ---------- the walk to the rightmost leaf ----------

  predicate Below(v: Trie, x: int, r: int) {
    IsHead(v, x) && IsHead(v, r) && InSub(v, r, x) && Depth(v, x) < Depth(v, r)
  }

  lemma FirstBelow(v: Trie, x: int, one: bool)
    requires Ok(v) && IsHead(v, x) && Content(v, Kid(x, one)) != 0
    ensures var r := Content(v, Kid(x, one)); r in v.chunks && Below(v, x, r) && UpCell(v, r) == Kid(x, one)
  {
    hide Ok, Content, TreeIndex, Block, Bit;
    ChildOf(v, x, one);
    CellIs(v, Kid(x, one));
  }

  lemma NextBelow(v: Trie, x: int, r: int, one: bool)
    requires Ok(v) && Below(v, x, r) && Content(v, Kid(r, one)) != 0
    ensures var t := Content(v, Kid(r, one));
            t in v.chunks && Below(v, x, t) && UpCell(v, t) == Kid(r, one) && Own(v, t) < Own(v, r)
  {
    hide Ok, Content, TreeIndex, Block, Bit;
    ChildOf(v, r, one);
    CellIs(v, Kid(r, one));
    OwnPositive(v, r);
    var t := Content(v, Kid(r, one));
    BlockCoarser(Size(v, t), Size(v, r), Own(v, r), Own(v, x));
  }

  lemma CellOfHole(v: Trie, x: int, r: int)
    requires HoleOk(v, x, r)
    ensures var c := UpCell(v, x);
      && x in v.chunks && 0 <= v.chunks[x].index < NTREEBINS
      && (c.BinCell? ==> c.i == v.chunks[x].index && At(v.bins, c.i) == x)
      && (c.Kid? ==> At(v.bins, v.chunks[x].index) != x && c.of == v.chunks[x].parent && c.of in v.chunks
                     && (c.one <==> v.chunks[c.of].child0 != x))
  {
    hide HoleOk, Content, TreeIndex, Block, Bit, ChunkOk, RingOk, UnderOk;
    AroundHole(v, x, r);
    assert Heir(v, x, r);
    BinIs(v, Bin(v, x));
    HoleCell(v, x, r, BinCell(Bin(v, x)));
    var c := UpCell(v, x);
    if c.Kid? {
      KidsAre(v, c.of);
      HoleCell(v, x, r, Kid(c.of, false));
    }
  }

  lemma CellOfHead(v: Trie, x: int)
    requires Ok(v) && IsHead(v, x)
    ensures var c := UpCell(v, x);
      && x in v.chunks && 0 <= v.chunks[x].index < NTREEBINS
      && (c.BinCell? ==> c.i == v.chunks[x].index && At(v.bins, c.i) == x)
      && (c.Kid? ==> At(v.bins, v.chunks[x].index) != x && c.of == v.chunks[x].parent && c.of in v.chunks
                     && (c.one <==> v.chunks[c.of].child0 != x))
  {
    hide Ok, Content, TreeIndex, Block, Bit, RingOk, UnderOk;
    NodeIs(v, x);
    UpIn(v, x);
    BinIs(v, Bin(v, x));
    CellIs(v, BinCell(Bin(v, x)));
    var c := UpCell(v, x);
    if c.Kid? {
      KidsAre(v, c.of);
      CellIs(v, Kid(c.of, false));
    }
  }

  /** The parent field tells the head of a ring from the other chunks on it. */
  lemma NodeKind(v: Trie, x: int)
    requires Ok(v) && x in v.chunks
    ensures v.chunks[x].parent != 0 <==> IsHead(v, x)
    ensures v.chunks[x].bk != x ==> RingIs(v, x)
    ensures v.chunks[x].bk == x ==> IsHead(v, x)
  {
    hide Ok, Content, TreeIndex, Block, Bit;
    NodeIs(v, x);
    if IsHead(v, x) {
      UpIn(v, x);
    }
  }
}
