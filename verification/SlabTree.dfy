/** The slab trees: address-ordered binary heaps threaded through the slab headers. A slab knows its two
    children and, through iParent, the very pointer cell that points to it, so it can be unlinked without a
    search. The list of full slabs uses the same cells as a chain of first children. */
module SlabTrees {

  const SLABSIZE: int := 1024
  const LIMIT: int := 0x1_0000_0000

  /** The tree of full slabs is a chain that is not ordered by address. */
  const FULL: int := 0

  /** A pointer to a pointer: the root cell of a tree, or a child cell of a slab. 0 is the null slab. */
  datatype Slot = Root(id: int) | Kid1(of: int) | Kid2(of: int)

  /** A snapshot of all link cells, and which tree each linked slab is in. Along every path the rank grows:
      it is the address in the ordered trees and the reverse order of arrival in the full list. */
  datatype Links = Links(parent: map<int, Slot>, child1: map<int, int>, child2: map<int, int>,
                         root: map<int, int>, tree: map<int, int>, rank: map<int, int>, low: int)

  function At<K, V>(m: map<K, V>, k: K, d: V): V {
    if k in m then m[k] else d
  }

  /** *r */
  function Content(v: Links, r: Slot): int {
    match r
    case Root(id) => At(v.root, id, 0)
    case Kid1(s) => At(v.child1, s, 0)
    case Kid2(s) => At(v.child2, s, 0)
  }

  /** s->iParent */
  function Parent(v: Links, s: int): Slot {
    At(v.parent, s, Root(-1))
  }

  /** *r = x */
  function Put(v: Links, r: Slot, x: int): (w: Links)
    ensures forall q :: Content(w, q) == if q == r then x else Content(v, q)
    ensures forall y :: Parent(w, y) == Parent(v, y)
    ensures w.tree == v.tree && w.rank == v.rank && w.low == v.low
    ensures forall i :: i in w.root <==> i in v.root || r == Root(i)
  {
    match r
    case Root(id) => v.(root := v.root[id := x])
    case Kid1(s) => v.(child1 := v.child1[s := x])
    case Kid2(s) => v.(child2 := v.child2[s := x])
  }

  /** s->iParent = r */
  function SetParent(v: Links, s: int, r: Slot): (w: Links)
    ensures forall q :: Content(w, q) == Content(v, q)
    ensures forall y :: Parent(w, y) == if y == s then r else Parent(v, y)
    ensures w.tree == v.tree && w.rank == v.rank && w.low == v.low && w.root == v.root
  {
    v.(parent := v.parent[s := r])
  }

  /** A change of the book-keeping only. */
  function Filed(v: Links, tree: map<int, int>, rank: map<int, int>, low: int): (w: Links)
    ensures forall q :: Content(w, q) == Content(v, q)
    ensures forall y :: Parent(w, y) == Parent(v, y)
    ensures w.tree == tree && w.rank == rank && w.low == low && w.root == v.root
  {
    v.(tree := tree, rank := rank, low := low)
  }

  /** r is a cell of tree id. */
  predicate CellOf(v: Links, r: Slot, id: int) {
    match r
    case Root(i) => i == id && i in v.root
    case Kid1(s) => s in v.tree && v.tree[s] == id
    case Kid2(s) => s in v.tree && v.tree[s] == id
  }

  /** The slab that owns cell r, if any, ranks below k. */
  predicate RanksUnder(v: Links, r: Slot, k: int) {
    match r
    case Root(_) => true
    case Kid1(s) => At(v.rank, s, 0) < k
    case Kid2(s) => At(v.rank, s, 0) < k
  }

  predicate SlabOk(v: Links, s: int)
    requires s in v.tree
  {
    && 0 < s < LIMIT && s in v.rank && v.low <= v.rank[s] < LIMIT
    && (if v.tree[s] != FULL then v.rank[s] == s else Content(v, Kid2(s)) == 0)
  }

  /** The back-pointer of s names the one cell of its tree that points to s, and the order holds there. */
  predicate UpOk(v: Links, s: int)
    requires s in v.tree
  {
    && SlabOk(v, s)
    && CellOf(v, Parent(v, s), v.tree[s])
    && Content(v, Parent(v, s)) == s
    && RanksUnder(v, Parent(v, s), v.rank[s])
  }

  /** Cell r is null or points to a slab whose back-pointer is r. */
  predicate DownOk(v: Links, r: Slot) {
    Content(v, r) == 0 || (Content(v, r) in v.tree && Parent(v, Content(v, r)) == r)
  }

  /** Every linked slab is where its back-pointer says, and every cell points to a slab that says so. */
  ghost predicate Ok(v: Links) {
    && (forall s {:trigger UpOk(v, s)} :: s in v.tree ==> UpOk(v, s))
    && (forall r {:trigger DownOk(v, r)} :: IsCell(v, r) ==> DownOk(v, r))
  }

  predicate IsCell(v: Links, r: Slot) {
    match r
    case Root(i) => i in v.root
    case Kid1(s) => s in v.tree
    case Kid2(s) => s in v.tree
  }

  /** In an ordered tree the root is the slab with the lowest address. */
  lemma {:induction false} RootIsLowest(v: Links, s: int)
    requires Ok(v) && s in v.tree && v.tree[s] != FULL
    ensures 0 < Content(v, Root(v.tree[s])) <= s
    ensures Content(v, Root(v.tree[s])) in v.tree && v.tree[Content(v, Root(v.tree[s]))] == v.tree[s]
    decreases s
  {
    assert UpOk(v, s);
    match Parent(v, s) {
      case Root(id) =>
      case Kid1(o) => assert UpOk(v, o); RootIsLowest(v, o);
      case Kid2(o) => assert UpOk(v, o); RootIsLowest(v, o);
    }
  }

  /** A tree whose root cell is null has no slab. */
  lemma {:induction false} EmptyTree(v: Links, id: int, s: int)
    requires Ok(v) && s in v.tree && v.tree[s] == id
    ensures Content(v, Root(id)) != 0
    decreases if s in v.rank then v.rank[s] - v.low else 0
  {
    assert UpOk(v, s);
    match Parent(v, s) {
      case Root(_) =>
      case Kid1(o) => assert UpOk(v, o); EmptyTree(v, id, o);
      case Kid2(o) => assert UpOk(v, o); EmptyTree(v, id, o);
    }
  }

  // ---------- what insertion and removal do to a snapshot ----------

  /** s takes cell r; what was there becomes its first child. */
  function Inserted(v: Links, s: int, r: Slot, id: int, k: int): Links {
    var n := Content(v, r);
    var w := SetParent(Put(Put(Put(v, r, s), Kid1(s), n), Kid2(s), 0), s, r);
    Filed(if n == 0 then w else SetParent(w, n, Kid1(s)),
          v.tree[s := id], v.rank[s := k], if k < v.low then k else v.low)
  }

  lemma InsertedOk(v: Links, s: int, r: Slot, id: int, k: int)
    requires Ok(v) && s !in v.tree && 0 < s < LIMIT && k < LIMIT && (if id != FULL then k == s else r == Root(FULL))
    requires IsCell(v, r) && CellOf(v, r, id) && RanksUnder(v, r, k)
    requires var n := Content(v, r); n != 0 ==> k < At(v.rank, n, k)
    ensures Ok(Inserted(v, s, r, id, k))
  {
    var w := Inserted(v, s, r, id, k);
    forall x | x in w.tree ensures UpOk(w, x) {
      InsertedUp(v, s, r, id, k, x);
    }
    forall q | IsCell(w, q) ensures DownOk(w, q) {
      InsertedDown(v, s, r, id, k, q);
    }
  }

  lemma InsertedUp(v: Links, s: int, r: Slot, id: int, k: int, x: int)
    requires Ok(v) && s !in v.tree && 0 < s < LIMIT && k < LIMIT && (if id != FULL then k == s else r == Root(FULL))
    requires IsCell(v, r) && CellOf(v, r, id) && RanksUnder(v, r, k)
    requires var n := Content(v, r); n != 0 ==> k < At(v.rank, n, k)
    requires x in v.tree || x == s
    ensures UpOk(Inserted(v, s, r, id, k), x)
  {
    hide Put, SetParent, Filed, Content, Parent;
    var n := Content(v, r);
    assert DownOk(v, r);
    if x != s {
      assert UpOk(v, x);
    }
  }

  lemma InsertedDown(v: Links, s: int, r: Slot, id: int, k: int, q: Slot)
    requires Ok(v) && s !in v.tree && IsCell(v, r)
    requires IsCell(v, q) || q == Kid1(s) || q == Kid2(s)
    ensures DownOk(Inserted(v, s, r, id, k), q)
  {
    hide Put, SetParent, Filed, Content, Parent;
    assert DownOk(v, r);
    if q != Kid1(s) && q != Kid2(s) && q != r {
      assert DownOk(v, q);
    }
  }

  /** A tree with a hole: cell r waits for a slab, c1 and c2 are subtrees without a cell that points to them,
      and everything else is in order. */
  ghost predicate HoleOk(v: Links, r: Slot, c1: int, c2: int, id: int) {
    && (forall s {:trigger UpOk(v, s)} {:trigger SlabOk(v, s)} :: s in v.tree ==>
          if s == c1 || s == c2 then SlabOk(v, s) else UpOk(v, s) && Parent(v, s) != r)
    && (forall q {:trigger DownOk(v, q)} :: IsCell(v, q) && q != r ==>
          DownOk(v, q) && (Content(v, q) == 0 || (Content(v, q) != c1 && Content(v, q) != c2)))
    && CellOf(v, r, id) && IsCell(v, r) && (id == FULL ==> !r.Kid2? && c2 == 0)
    && Orphan(v, r, c1, id) && Orphan(v, r, c2, id) && (c1 == c2 ==> c1 == 0)
  }

  predicate Orphan(v: Links, r: Slot, c: int, id: int) {
    c == 0 || (c in v.tree && v.tree[c] == id && RanksUnder(v, r, At(v.rank, c, 0)))
  }

  /** Taking slab s out leaves a hole where it was. */
  lemma TakenOut(v: Links, s: int)
    requires Ok(v) && s in v.tree
    ensures HoleOk(Filed(v, v.tree - {s}, v.rank, v.low), Parent(v, s), Content(v, Kid1(s)), Content(v, Kid2(s)), v.tree[s])
  {
    hide Put, SetParent, Filed, Content, Parent;
    assert UpOk(v, s) && DownOk(v, Kid1(s)) && DownOk(v, Kid2(s));
    var w := Filed(v, v.tree - {s}, v.rank, v.low);
    var r, c1, c2 := Parent(v, s), Content(v, Kid1(s)), Content(v, Kid2(s));
    assert c1 != 0 ==> UpOk(v, c1);
    assert c2 != 0 ==> UpOk(v, c2);
    assert r.Kid2? ==> UpOk(v, r.of);
    forall x | x in w.tree
      ensures if x == c1 || x == c2 then SlabOk(w, x) else UpOk(w, x) && Parent(w, x) != r
    {
      assert UpOk(v, x);
    }
    forall q | IsCell(w, q) && q != r
      ensures DownOk(w, q) && (Content(w, q) == 0 || (Content(w, q) != c1 && Content(w, q) != c2))
    {
      assert DownOk(v, q);
    }
  }

  /** Closing the hole with c when there is no other orphan. */
  function Closed(v: Links, r: Slot, c: int): Links {
    var w := Put(v, r, c);
    if c == 0 then w else SetParent(w, c, r)
  }

  lemma ClosedOk(v: Links, r: Slot, c: int, id: int)
    requires HoleOk(v, r, c, 0, id) || HoleOk(v, r, 0, c, id)
    ensures Ok(Closed(v, r, c))
  {
    hide Put, SetParent, Filed, Content, Parent;
    var w := Closed(v, r, c);
    forall x | x in w.tree ensures UpOk(w, x) {
      assert SlabOk(v, x);
    }
    forall q | IsCell(w, q) ensures DownOk(w, q) {
      if q != r {
        assert DownOk(v, q);
      }
    }
  }

  /** The smaller orphan m moves into the hole, the other one becomes its second child, and its own former
      children are the new orphans under its first-child cell. */
  function Sunk(v: Links, r: Slot, m: int, o: int): Links {
    SetParent(SetParent(Put(Put(v, r, m), Kid2(m), o), m, r), o, Kid2(m))
  }

  lemma SunkOk(v: Links, r: Slot, m: int, o: int, id: int)
    requires HoleOk(v, r, m, o, id) || HoleOk(v, r, o, m, id)
    requires 0 < m < o && id != FULL
    ensures HoleOk(Sunk(v, r, m, o), Kid1(m), Content(v, Kid1(m)), Content(v, Kid2(m)), id)
  {
    hide Put, SetParent, Filed, Content, Parent, UpOk, DownOk;
    var w := Sunk(v, r, m, o);
    SunkOrphans(v, r, m, o, id);
    forall x | x in w.tree ensures SunkUpOk(v, r, m, o, x) {
      SunkUp(v, r, m, o, id, x);
    }
    forall q | IsCell(w, q) && q != Kid1(m) ensures SunkDownOk(v, r, m, o, q) {
      SunkDown(v, r, m, o, id, q);
    }
  }

  ghost predicate SunkUpOk(v: Links, r: Slot, m: int, o: int, x: int)
    requires x in v.tree
  {
    var w := Sunk(v, r, m, o);
    if x == Content(v, Kid1(m)) || x == Content(v, Kid2(m)) then SlabOk(w, x)
    else UpOk(w, x) && Parent(w, x) != Kid1(m)
  }

  ghost predicate SunkDownOk(v: Links, r: Slot, m: int, o: int, q: Slot) {
    var w := Sunk(v, r, m, o);
    DownOk(w, q) && (Content(w, q) == 0 || (Content(w, q) != Content(v, Kid1(m)) && Content(w, q) != Content(v, Kid2(m))))
  }

  lemma SunkOrphans(v: Links, r: Slot, m: int, o: int, id: int)
    requires HoleOk(v, r, m, o, id) || HoleOk(v, r, o, m, id)
    requires 0 < m < o && id != FULL
    ensures r != Kid1(m) && r != Kid2(m)
    ensures var w := Sunk(v, r, m, o);
            && Orphan(w, Kid1(m), Content(v, Kid1(m)), id) && Orphan(w, Kid1(m), Content(v, Kid2(m)), id)
            && (Content(v, Kid1(m)) == Content(v, Kid2(m)) ==> Content(v, Kid1(m)) == 0)
  {
    hide Put, SetParent, Filed, Content, Parent;
    assert SlabOk(v, m) && SlabOk(v, o);
    assert IsCell(v, Kid1(m)) && IsCell(v, Kid2(m));
    assert r != Kid1(m) && r != Kid2(m);
    assert DownOk(v, Kid1(m)) && DownOk(v, Kid2(m));
    assert Content(v, Kid1(m)) != 0 ==> UpOk(v, Content(v, Kid1(m)));
    assert Content(v, Kid2(m)) != 0 ==> UpOk(v, Content(v, Kid2(m)));
  }

  lemma SunkUp(v: Links, r: Slot, m: int, o: int, id: int, x: int)
    requires HoleOk(v, r, m, o, id) || HoleOk(v, r, o, m, id)
    requires 0 < m < o && id != FULL && x in v.tree
    requires r != Kid1(m) && r != Kid2(m)
    ensures SunkUpOk(v, r, m, o, x)
  {
    hide Put, SetParent, Filed, Content, Parent;
    assert SlabOk(v, m) && SlabOk(v, o) && SlabOk(v, x);
  }

  lemma SunkDown(v: Links, r: Slot, m: int, o: int, id: int, q: Slot)
    requires HoleOk(v, r, m, o, id) || HoleOk(v, r, o, m, id)
    requires 0 < m < o && id != FULL && IsCell(v, q) && q != Kid1(m)
    requires r != Kid1(m) && r != Kid2(m)
    ensures SunkDownOk(v, r, m, o, q)
  {
    hide Put, SetParent, Filed, Content, Parent;
    assert SlabOk(v, m) && SlabOk(v, o);
    assert DownOk(v, Kid1(m)) && DownOk(v, Kid2(m));
    if q != r {
      assert DownOk(v, q);
    }
  }

  /** The hole is filled by a slab s that takes both orphans as its children. */
  function Filled(v: Links, r: Slot, s: int, c1: int, c2: int, id: int): Links {
    var w := Put(Put(Put(SetParent(v, s, r), Kid1(s), c1), Kid2(s), c2), r, s);
    var x := if c1 == 0 then w else SetParent(w, c1, Kid1(s));
    Filed(if c2 == 0 then x else SetParent(x, c2, Kid2(s)),
          v.tree[s := id], v.rank[s := s], if s < v.low then s else v.low)
  }

  lemma FilledOk(v: Links, r: Slot, s: int, c1: int, c2: int, id: int)
    requires HoleOk(v, r, c1, c2, id) && id != FULL
    requires s !in v.tree && 0 < s < LIMIT && RanksUnder(v, r, s)
    requires (c1 != 0 ==> s < c1) && (c2 != 0 ==> s < c2)
    ensures Ok(Filled(v, r, s, c1, c2, id))
  {
    hide Put, SetParent, Filed, Content, Parent, UpOk, DownOk;
    var w := Filled(v, r, s, c1, c2, id);
    forall x | x in w.tree ensures UpOk(w, x) {
      FilledUp(v, r, s, c1, c2, id, x);
    }
    forall q | IsCell(w, q) ensures DownOk(w, q) {
      FilledDown(v, r, s, c1, c2, id, q);
    }
  }

  lemma FilledUp(v: Links, r: Slot, s: int, c1: int, c2: int, id: int, x: int)
    requires HoleOk(v, r, c1, c2, id) && id != FULL
    requires s !in v.tree && 0 < s < LIMIT && RanksUnder(v, r, s)
    requires (c1 != 0 ==> s < c1) && (c2 != 0 ==> s < c2)
    requires x == s || x in v.tree
    ensures UpOk(Filled(v, r, s, c1, c2, id), x)
  {
    hide Put, SetParent, Filed, Content, Parent;
    assert x != s ==> SlabOk(v, x);
  }

  lemma FilledDown(v: Links, r: Slot, s: int, c1: int, c2: int, id: int, q: Slot)
    requires HoleOk(v, r, c1, c2, id) && s !in v.tree
    requires IsCell(v, q) || q == Kid1(s) || q == Kid2(s)
    ensures DownOk(Filled(v, r, s, c1, c2, id), q)
  {
    hide Put, SetParent, Filed, Content, Parent;
    if q != r && q != Kid1(s) && q != Kid2(s) {
      assert DownOk(v, q);
    }
  }

  // ---------- the tree operations ----------

  /** The link cells of all slabs and the root cells. */
  class SlabLinks {
    var parent: map<int, Slot>
    var child1: map<int, int>
    var child2: map<int, int>
    var root: map<int, int>
    ghost var tree: map<int, int>
    ghost var rank: map<int, int>
    ghost var low: int

    ghost function View(): Links
      reads this
    {
      Links(parent, child1, child2, root, tree, rank, low)
    }

    ghost predicate Valid()
      reads this
    {
      Ok(View()) && low <= 0
    }

    constructor (ids: set<int>)
      ensures Valid() && tree == map[] && root.Keys == ids
      ensures forall id :: id in ids ==> root[id] == 0
    {
      parent, child1, child2 := map[], map[], map[];
      root := map id | id in ids :: 0;
      tree, rank, low := map[], map[], 0;
    }

    method Store(r: Slot, x: int)
      modifies this`root, this`child1, this`child2
      ensures View() == Put(old(View()), r, x)
    {
      match r {
        case Root(id) => root := root[id := x];
        case Kid1(s) => child1 := child1[s := x];
        case Kid2(s) => child2 := child2[s := x];
      }
    }

    /** Insert slab s into the ordered tree id, keeping the address order. */
    method TreeInsert(s: int, id: int)
      requires Valid() && s !in tree && 0 < s < LIMIT && id != FULL && id in root
      modifies this
      ensures Valid() && tree == old(tree)[s := id] && root.Keys == old(root.Keys)
    {
      hide Ok, UpOk, DownOk, Put, SetParent, Filed;
      ghost var v := View();
      var r := Root(id);
      var n := At(root, id, 0);
      NextDown(v, r, id);
      while true
        invariant View() == v && n == Content(v, r) && IsCell(v, r) && CellOf(v, r, id) && RanksUnder(v, r, s)
        invariant n != 0 ==> n in v.tree && v.tree[n] == id && n < LIMIT && At(v.rank, n, 0) == n && RanksUnder(v, r, n)
        decreases if n == 0 then 0 else LIMIT - n
      {
        if n == 0 {
          InsertedOk(v, s, r, id, s);
          Link(s, r, id, 0);
          break;
        }
        if s < n {
          InsertedOk(v, s, r, id, s);
          Link(s, r, id, n);
          break;
        }
        var c1, c2 := At(child1, n, 0), At(child2, n, 0);
        // a null child compares highest, so an empty child cell is preferred
        if (c1 - SLABSIZE) % LIMIT > (c2 - SLABSIZE) % LIMIT {
          r, n := Kid1(n), c1;
        } else {
          r, n := Kid2(n), c2;
        }
        NextDown(v, r, id);
      }
    }

    /** Slab s becomes the only one of tree id. */
    method Plant(s: int, id: int)
      requires Valid() && s !in tree && 0 < s < LIMIT && id != FULL && id in root && root[id] == 0
      modifies this
      ensures Valid() && tree == old(tree)[s := id] && root.Keys == old(root.Keys)
    {
      hide Ok, UpOk, DownOk, Put, SetParent, Filed;
      InsertedOk(View(), s, Root(id), id, s);
      Link(s, Root(id), id, 0);
    }

    /** The stores that put s into cell r above n. */
    method Link(s: int, r: Slot, id: int, n: int)
      requires n == Content(View(), r) && r != Kid1(s) && r != Kid2(s) && (r.Root? ==> r.id in root)
      modifies this
      ensures tree == old(tree)[s := id] && root.Keys == old(root.Keys)
      ensures View() == Inserted(old(View()), s, r, id, if id == FULL then old(low) - 1 else s)
    {
      Store(r, s);
      parent := parent[s := r];
      child1 := child1[s := n];
      child2 := child2[s := 0];
      if n != 0 {
        parent := parent[n := Kid1(s)];
      }
      ghost var k := if id == FULL then low - 1 else s;
      tree, rank, low := tree[s := id], rank[s := k], if k < low then k else low;
    }

    /** Unlink slab s, which need not be a root, from its ordered tree, keeping the address order. */
    method TreeRemove(s: int)
      requires Valid() && s in tree && tree[s] != FULL
      modifies this
      ensures Valid() && tree == old(tree) - {s} && root.Keys == old(root.Keys)
    {
      hide Ok, UpOk, DownOk, Put, SetParent, HoleOk;
      ghost var id := tree[s];
      TakenOut(View(), s);
      var r, c1, c2 := At(parent, s, Root(-1)), At(child1, s, 0), At(child2, s, 0);
      tree := tree - {s};
      while true
        invariant HoleOk(View(), r, c1, c2, id) && low <= 0
        invariant tree == old(tree) - {s} && root.Keys == old(root.Keys)
        decreases match r case Root(_) => LIMIT + 1 case Kid1(o) => LIMIT - o case Kid2(o) => LIMIT - o
      {
        HoleFacts(View(), r, c1, c2, id);
        if c2 == 0 {
          ClosedOk(View(), r, c1, id);
          Close(r, c1);
          return;
        }
        if c1 == 0 {
          ClosedOk(View(), r, c2, id);
          Close(r, c2);
          return;
        }
        if c1 > c2 {
          c1, c2 := c2, c1;
        }
        SunkOk(View(), r, c1, c2, id);
        var newc1, newc2 := At(child1, c1, 0), At(child2, c1, 0);
        Sink(r, c1, c2);
        r, c1, c2 := Kid1(c1), newc1, newc2;
      }
    }

    /** The stores that put subtree c, which may be empty, into cell r. */
    method Close(r: Slot, c: int)
      requires r.Root? ==> r.id in root
      modifies this`parent, this`child1, this`child2, this`root
      ensures View() == Closed(old(View()), r, c) && root.Keys == old(root.Keys)
    {
      Store(r, c);
      if c != 0 {
        parent := parent[c := r];
      }
    }

    /** The stores that move m into cell r with o as its second child. */
    method Sink(r: Slot, m: int, o: int)
      requires r.Root? ==> r.id in root
      modifies this`parent, this`child1, this`child2, this`root
      ensures View() == Sunk(old(View()), r, m, o) && root.Keys == old(root.Keys)
    {
      Store(r, m);
      parent := parent[m := r];
      child2 := child2[m := o];
      parent := parent[o := Kid2(m)];
    }

    /** Put a slab that has just been found full at the front of the full list. */
    method FullPush(s: int)
      requires Valid() && s !in tree && 0 < s < LIMIT && FULL in root
      modifies this
      ensures Valid() && tree == old(tree)[s := FULL] && root.Keys == old(root.Keys)
    {
      hide Ok, UpOk, DownOk, Put, SetParent, Filed;
      FullFront(View());
      InsertedOk(View(), s, Root(FULL), FULL, low - 1);
      var c := At(root, FULL, 0);
      Link(s, Root(FULL), FULL, c);
    }

    /** Take a slab that is no longer full out of the full list. */
    method FullRemove(s: int)
      requires Valid() && s in tree && tree[s] == FULL
      modifies this
      ensures Valid() && tree == old(tree) - {s} && root.Keys == old(root.Keys)
    {
      hide Ok, UpOk, DownOk, Put, SetParent, HoleOk;
      TakenOut(View(), s);
      FullHole(View(), s);
      var full, c := At(parent, s, Root(-1)), At(child1, s, 0);
      tree := tree - {s};
      ClosedOk(View(), full, c, FULL);
      Close(full, c);
    }

    /** Slab s takes over the place of slab sl, which is not above it in address but has all its children
        above it. */
    method Replace(sl: int, s: int)
      requires Valid() && sl in tree && tree[sl] != FULL && s !in tree && sl < s < LIMIT
      requires forall c :: c in tree && tree[c] == tree[sl] && c > sl ==> c > s
      modifies this
      ensures Valid() && tree == (old(tree) - {sl})[s := old(tree)[sl]] && root.Keys == old(root.Keys)
    {
      hide Ok, UpOk, DownOk, Put, SetParent, HoleOk;
      ghost var id := tree[sl];
      TakenOut(View(), sl);
      ReplaceHole(View(), sl);
      var r, c1, c2 := At(parent, sl, Root(-1)), At(child1, sl, 0), At(child2, sl, 0);
      tree := tree - {sl};
      FilledOk(View(), r, s, c1, c2, id);
      Fill(r, s, c1, c2, id);
    }

    method Fill(r: Slot, s: int, c1: int, c2: int, ghost id: int)
      requires r.Root? ==> r.id in root
      modifies this
      ensures View() == Filled(old(View()), r, s, c1, c2, id)
      ensures tree == old(tree)[s := id] && root.Keys == old(root.Keys)
    {
      parent := parent[s := r];
      child1 := child1[s := c1];
      child2 := child2[s := c2];
      Store(r, s);
      if c1 != 0 {
        parent := parent[c1 := Kid1(s)];
      }
      if c2 != 0 {
        parent := parent[c2 := Kid2(s)];
      }
      tree, rank, low := tree[s := id], rank[s := s], if s < low then s else low;
    }
  }

  /** The root cell of a tree holds null or a slab of the tree. */
  lemma RootSlab(v: Links, id: int)
    requires Ok(v) && id in v.root
    ensures var s := Content(v, Root(id)); s != 0 ==> s in v.tree && v.tree[s] == id && 0 < s < LIMIT
  {
    assert DownOk(v, Root(id));
    if Content(v, Root(id)) != 0 {
      assert UpOk(v, Content(v, Root(id)));
    }
  }

  lemma FullFront(v: Links)
    requires Ok(v) && FULL in v.root
    ensures var n := Content(v, Root(FULL)); n != 0 ==> v.low - 1 < At(v.rank, n, v.low - 1)
  {
    assert DownOk(v, Root(FULL));
    var n := Content(v, Root(FULL));
    assert n != 0 ==> UpOk(v, n);
  }

  lemma FullHole(v: Links, s: int)
    requires Ok(v) && s in v.tree && v.tree[s] == FULL
    ensures Content(v, Kid2(s)) == 0 && (Parent(v, s).Root? ==> Parent(v, s).id in v.root)
  {
    assert UpOk(v, s);
  }

  lemma ReplaceHole(v: Links, sl: int)
    requires Ok(v) && sl in v.tree && v.tree[sl] != FULL
    ensures var r := Parent(v, sl); (r.Root? ==> r.id in v.root) && RanksUnder(v, r, sl) && 0 < sl
    ensures var c := Content(v, Kid1(sl)); c != 0 ==> c in v.tree && v.tree[c] == v.tree[sl] && c > sl
    ensures var c := Content(v, Kid2(sl)); c != 0 ==> c in v.tree && v.tree[c] == v.tree[sl] && c > sl
  {
    assert UpOk(v, sl) && DownOk(v, Kid1(sl)) && DownOk(v, Kid2(sl));
    assert Content(v, Kid1(sl)) != 0 ==> UpOk(v, Content(v, Kid1(sl)));
    assert Content(v, Kid2(sl)) != 0 ==> UpOk(v, Content(v, Kid2(sl)));
  }

  lemma NextDown(v: Links, r: Slot, id: int)
    requires Ok(v) && IsCell(v, r) && CellOf(v, r, id) && id != FULL
    ensures var n := Content(v, r);
            n != 0 ==> n in v.tree && v.tree[n] == id && 0 < n < LIMIT && At(v.rank, n, 0) == n && RanksUnder(v, r, n)
  {
    assert DownOk(v, r);
    assert Content(v, r) != 0 ==> UpOk(v, Content(v, r));
  }

  lemma HoleFacts(v: Links, r: Slot, c1: int, c2: int, id: int)
    requires HoleOk(v, r, c1, c2, id) && id != FULL
    ensures c1 >= 0 && c2 >= 0
    ensures r.Kid1? || r.Kid2? ==> (c1 != 0 ==> r.of < c1 < LIMIT) && (c2 != 0 ==> r.of < c2 < LIMIT)
    ensures (c1 == c2 ==> c1 == 0) && (r.Root? ==> r.id in v.root)
  {
    assert c1 != 0 ==> SlabOk(v, c1);
    assert c2 != 0 ==> SlabOk(v, c2);
    assert r.Kid1? || r.Kid2? ==> SlabOk(v, r.of);
  }

  // ---------- walking a tree without a stack ----------

  /** The slabs of the subtree at s, in order. */
  ghost function InOrder(v: Links, s: int): seq<int>
    requires Ok(v) && (s == 0 || s in v.tree)
    decreases if s == 0 then 0 else LIMIT - At(v.rank, s, 0)
  {
    if s == 0 then [] else
      KidFacts(v, s);
      InOrder(v, Content(v, Kid1(s))) + [s] + InOrder(v, Content(v, Kid2(s)))
  }

  /** What an in-order walk still has to visit after the subtree at s. */
  ghost function Rest(v: Links, s: int): seq<int>
    requires Ok(v) && s in v.tree
    decreases At(v.rank, s, 0) - v.low
  {
    UpFacts(v, s);
    match Parent(v, s)
    case Root(_) => []
    case Kid1(o) => KidFacts(v, o); [o] + InOrder(v, Content(v, Kid2(o))) + Rest(v, o)
    case Kid2(o) => Rest(v, o)
  }

  lemma KidFacts(v: Links, s: int)
    requires Ok(v) && s in v.tree
    ensures v.low <= At(v.rank, s, 0) < LIMIT && 0 < s
    ensures var c := Content(v, Kid1(s));
            c != 0 ==> c in v.tree && v.tree[c] == v.tree[s] && Parent(v, c) == Kid1(s) && At(v.rank, s, 0) < At(v.rank, c, 0) < LIMIT
    ensures var c := Content(v, Kid2(s));
            c != 0 ==> c in v.tree && v.tree[c] == v.tree[s] && Parent(v, c) == Kid2(s) && At(v.rank, s, 0) < At(v.rank, c, 0) < LIMIT
  {
    assert UpOk(v, s) && DownOk(v, Kid1(s)) && DownOk(v, Kid2(s));
    assert Content(v, Kid1(s)) != 0 ==> UpOk(v, Content(v, Kid1(s)));
    assert Content(v, Kid2(s)) != 0 ==> UpOk(v, Content(v, Kid2(s)));
  }

  lemma UpFacts(v: Links, s: int)
    requires Ok(v) && s in v.tree
    ensures v.low <= At(v.rank, s, 0) < LIMIT && 0 < s
    ensures match Parent(v, s)
            case Root(i) => i == v.tree[s] && i in v.root && Content(v, Root(i)) == s
            case Kid1(o) => o in v.tree && v.tree[o] == v.tree[s] && Content(v, Kid1(o)) == s
                            && v.low <= At(v.rank, o, 0) < At(v.rank, s, 0)
            case Kid2(o) => o in v.tree && v.tree[o] == v.tree[s] && Content(v, Kid2(o)) == s
                            && v.low <= At(v.rank, o, 0) < At(v.rank, s, 0)
  {
    assert UpOk(v, s);
    match Parent(v, s) {
      case Root(_) =>
      case Kid1(o) => assert UpOk(v, o);
      case Kid2(o) => assert UpOk(v, o);
    }
  }

  /** x is s or one of its ancestors is. */
  ghost predicate Under(v: Links, x: int, s: int)
    requires Ok(v) && x in v.tree
    decreases At(v.rank, x, 0) - v.low
  {
    UpFacts(v, x);
    x == s || match Parent(v, x)
              case Root(_) => false
              case Kid1(o) => Under(v, o, s)
              case Kid2(o) => Under(v, o, s)
  }

  /** An ancestor ranks no higher. */
  lemma {:induction false} UnderRank(v: Links, x: int, s: int)
    requires Ok(v) && x in v.tree && Under(v, x, s)
    ensures s in v.tree && v.tree[s] == v.tree[x] && At(v.rank, s, 0) <= At(v.rank, x, 0)
    decreases At(v.rank, x, 0) - v.low
  {
    UpFacts(v, x);
    if x != s {
      UnderRank(v, Parent(v, x).of, s);
    }
  }

  /** No slab is below two siblings. */
  lemma {:induction false} SiblingsApart(v: Links, x: int, s: int)
    requires Ok(v) && s in v.tree && x in v.tree
    requires Content(v, Kid1(s)) != 0 && Content(v, Kid2(s)) != 0
    ensures !(Under(v, x, Content(v, Kid1(s))) && Under(v, x, Content(v, Kid2(s))))
    decreases At(v.rank, x, 0) - v.low
  {
    KidFacts(v, s);
    UpFacts(v, x);
    if Under(v, x, Content(v, Kid1(s))) && Under(v, x, Content(v, Kid2(s))) {
      if x == Content(v, Kid1(s)) {
        UnderRank(v, s, Content(v, Kid2(s)));
      } else if x == Content(v, Kid2(s)) {
        UnderRank(v, s, Content(v, Kid1(s)));
      } else {
        SiblingsApart(v, Parent(v, x).of, s);
      }
    }
  }

  /** The in-order sequence of a subtree holds exactly the slabs below its root, each once. */
  lemma {:induction false} InOrderOnce(v: Links, s: int, x: int)
    requires Ok(v) && s in v.tree && x in v.tree
    ensures multiset(InOrder(v, s))[x] == if Under(v, x, s) then 1 else 0
    decreases LIMIT - At(v.rank, s, 0)
  {
    KidFacts(v, s);
    var c1, c2 := Content(v, Kid1(s)), Content(v, Kid2(s));
    UnderSplits(v, x, s);
    if c1 != 0 {
      InOrderOnce(v, c1, x);
    }
    if c2 != 0 {
      InOrderOnce(v, c2, x);
    }
    if c1 != 0 && c2 != 0 {
      SiblingsApart(v, x, s);
    }
    NotUnderKids(v, s);
  }

  lemma NotUnderKids(v: Links, s: int)
    requires Ok(v) && s in v.tree
    ensures forall c :: (c == Content(v, Kid1(s)) || c == Content(v, Kid2(s))) && c != 0 ==> !Under(v, s, c)
  {
    KidFacts(v, s);
    forall c | (c == Content(v, Kid1(s)) || c == Content(v, Kid2(s))) && c != 0 ensures !Under(v, s, c) {
      if Under(v, s, c) {
        UnderRank(v, s, c);
      }
    }
  }

  /** Below s means: s itself, or below one of its children. */
  lemma {:induction false} UnderSplits(v: Links, x: int, s: int)
    requires Ok(v) && s in v.tree && x in v.tree
    ensures Under(v, x, s) <==>
      x == s || (Content(v, Kid1(s)) != 0 && Under(v, x, Content(v, Kid1(s))))
             || (Content(v, Kid2(s)) != 0 && Under(v, x, Content(v, Kid2(s))))
    decreases At(v.rank, x, 0) - v.low
  {
    UpFacts(v, x);
    KidFacts(v, s);
    var c1, c2 := Content(v, Kid1(s)), Content(v, Kid2(s));
    if x != s && !Parent(v, x).Root? {
      UnderSplits(v, Parent(v, x).of, s);
      if c1 != 0 { UpFacts(v, c1); }
      if c2 != 0 { UpFacts(v, c2); }
    }
  }

  /** Every slab of a tree is below the slab its root cell points to. */
  lemma {:induction false} AllUnderRoot(v: Links, x: int)
    requires Ok(v) && x in v.tree
    ensures Content(v, Root(v.tree[x])) in v.tree && Under(v, x, Content(v, Root(v.tree[x])))
    decreases At(v.rank, x, 0) - v.low
  {
    UpFacts(v, x);
    if !Parent(v, x).Root? {
      AllUnderRoot(v, Parent(v, x).of);
    }
  }

  /** The walk of tree id visits every slab of the tree exactly once and no other slab. */
  lemma WalkVisitsOnce(v: Links, id: int, x: int)
    requires Ok(v) && id in v.root && x in v.tree
    ensures Content(v, Root(id)) == 0 || Content(v, Root(id)) in v.tree
    ensures multiset(InOrder(v, Content(v, Root(id))))[x] == if v.tree[x] == id then 1 else 0
  {
    var n := Content(v, Root(id));
    assert DownOk(v, Root(id));
    if n == 0 {
      if v.tree[x] == id {
        EmptyTree(v, id, x);
      }
    } else {
      UpFacts(v, n);
      InOrderOnce(v, n, x);
      if v.tree[x] == id {
        AllUnderRoot(v, x);
      } else if Under(v, x, n) {
        UnderRank(v, x, n);
      }
    }
  }

  lemma {:induction false} InOrderInTree(v: Links, s: int)
    requires Ok(v) && s in v.tree
    ensures forall x :: x in InOrder(v, s) ==> x in v.tree
    decreases LIMIT - At(v.rank, s, 0)
  {
    KidFacts(v, s);
    if Content(v, Kid1(s)) != 0 {
      InOrderInTree(v, Content(v, Kid1(s)));
    }
    if Content(v, Kid2(s)) != 0 {
      InOrderInTree(v, Content(v, Kid2(s)));
    }
  }

  /** Call f on every slab of tree id; the result lists the calls. The walk keeps no stack: it goes down by
      the child cells and up by the back-pointers. */
  method TreeWalk(links: SlabLinks, id: int) returns (calls: seq<int>)
    requires links.Valid() && id in links.root
    ensures links.root[id] == 0 || links.root[id] in links.tree
    ensures calls == InOrder(links.View(), links.root[id])
  {
    ghost var v := links.View();
    hide Ok, InOrder, Rest, InOrderOf2;
    RootFacts(v, id);
    ghost var all := InOrder(v, links.root[id]);
    calls := [];
    var s := links.root[id];
    if s == 0 {
      return;
    }
    while true
      invariant s in v.tree && v.tree[s] == id
      invariant all == calls + (InOrder(v, s) + Rest(v, s))
      decreases |all| - |calls|
    {
      s := DownLeft(links, s);
      LeftEnd(v, s);
      ghost var before := |calls|;
      while true
        invariant s in v.tree && v.tree[s] == id && |calls| >= before
        invariant all == calls + [s] + (InOrderOf2(v, s) + Rest(v, s))
        decreases |all| - |calls|
      {
        calls := calls + [s];
        RightEnd(v, s);
        var c := At(links.child2, s, 0);
        if c != 0 {
          s := c;
          break;
        }
        var done;
        s, done := UpRight(links, s, id);
        if done {
          return;
        }
      }
    }
  }

  lemma LeftEnd(v: Links, s: int)
    requires Ok(v) && s in v.tree && Content(v, Kid1(s)) == 0
    ensures InOrder(v, s) == [s] + InOrderOf2(v, s)
  {
    KidFacts(v, s);
  }

  lemma RightEnd(v: Links, s: int)
    requires Ok(v) && s in v.tree
    ensures var c := Content(v, Kid2(s));
            if c == 0 then InOrderOf2(v, s) == []
            else c in v.tree && v.tree[c] == v.tree[s] && InOrder(v, c) + Rest(v, c) == InOrderOf2(v, s) + Rest(v, s)
  {
    KidFacts(v, s);
  }

  lemma RootFacts(v: Links, id: int)
    requires Ok(v) && id in v.root
    ensures var s := Content(v, Root(id));
            if s == 0 then InOrder(v, 0) == [] else s in v.tree && v.tree[s] == id && Rest(v, s) == []
  {
    assert DownOk(v, Root(id));
    if Content(v, Root(id)) != 0 {
      UpFacts(v, Content(v, Root(id)));
    }
  }

  /** Walk down the left side to its end. */
  method DownLeft(links: SlabLinks, s0: int) returns (s: int)
    requires links.Valid() && s0 in links.tree
    ensures s in links.tree && links.tree[s] == links.tree[s0] && At(links.child1, s, 0) == 0
    ensures InOrder(links.View(), s) + Rest(links.View(), s) == InOrder(links.View(), s0) + Rest(links.View(), s0)
  {
    ghost var v := links.View();
    hide Ok;
    s := s0;
    KidFacts(v, s);
    while At(links.child1, s, 0) != 0
      invariant s in v.tree && v.tree[s] == v.tree[s0]
      invariant InOrder(v, s) + Rest(v, s) == InOrder(v, s0) + Rest(v, s0)
      decreases LIMIT - At(v.rank, s, 0)
    {
      KidFacts(v, s);
      var c := At(links.child1, s, 0);
      assert Rest(v, c) == [s] + InOrder(v, Content(v, Kid2(s))) + Rest(v, s);
      s := c;
      KidFacts(v, s);
    }
  }

  /** Walk up the right side: to the first slab reached from its first child, or out of the tree. */
  method UpRight(links: SlabLinks, s0: int, id: int) returns (s: int, done: bool)
    requires links.Valid() && s0 in links.tree && links.tree[s0] == id
    ensures s in links.tree && links.tree[s] == id
    ensures if done then Rest(links.View(), s0) == []
            else Rest(links.View(), s0) == [s] + (InOrderOf2(links.View(), s) + Rest(links.View(), s))
  {
    ghost var v := links.View();
    hide Ok;
    s := s0;
    while true
      invariant s in v.tree && v.tree[s] == id && Rest(v, s) == Rest(v, s0)
      decreases At(v.rank, s, 0) - v.low
    {
      UpFacts(v, s);
      var pp := At(links.parent, s, Root(-1));
      if pp == Root(id) {
        return s, true;
      }
      s := pp.of;
      KidFacts(v, s);
      if pp == Kid1(s) {
        return s, false;
      }
    }
  }

  ghost function InOrderOf2(v: Links, s: int): seq<int>
    requires Ok(v) && s in v.tree
  {
    KidFacts(v, s);
    InOrder(v, Content(v, Kid2(s)))
  }
}
