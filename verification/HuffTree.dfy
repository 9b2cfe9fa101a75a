/** Decoding trees of canonical codes, and how they are laid out in an array of words. */
module HuffTrees {
  import opened BitStrings

  const MAX_LENGTH: nat := 27

  datatype Tree = Leaf(sym: nat) | Node(zero: Tree, one: Tree)

  datatype Option<T> = None | Some(value: T)

  /** The coded symbols in code order, and the lengths of their codes. */
  datatype Order = Order(syms: seq<nat>, lens: seq<nat>)

  function Leaves(t: Tree): (n: nat)
    ensures n > 0 && (t.Node? ==> n > 1)
  {
    match t
    case Leaf(_) => 1
    case Node(z, o) => Leaves(z) + Leaves(o)
  }

  /** The leaves below depth d are the symbols from index i on, each as deep as its code is long. */
  predicate Fits(q: Order, t: Tree, d: nat, i: nat) {
    match t
    case Leaf(s) => i < |q.lens| == |q.syms| && q.lens[i] == d && q.syms[i] == s
    case Node(z, o) => Fits(q, z, d + 1, i) && Fits(q, o, d + 1, i + Leaves(z))
  }

  // ---------- the place of a code in the code space 0..2^27 ----------

  /** The space used up by the first i codes. */
  function Place(lens: seq<nat>, i: nat): nat
    requires i <= |lens|
  {
    if i == 0 then 0 else Place(lens, i - 1) + U(MAX_LENGTH, lens[i - 1])
  }

  /** Lengths do not fall, are at most 27, and the codes use up all of the code space. */
  ghost predicate Complete(q: Order) {
    && |q.syms| == |q.lens| > 1
    && (forall i :: 0 <= i < |q.lens| ==> 1 <= q.lens[i] <= MAX_LENGTH)
    && (forall i, j :: 0 <= i < j < |q.lens| ==> q.lens[i] <= q.lens[j])
    && Place(q.lens, |q.lens|) == Pow2(MAX_LENGTH)
  }

  lemma {:induction false} PlaceMono(lens: seq<nat>, i: nat, j: nat)
    requires i <= j <= |lens|
    ensures Place(lens, i) <= Place(lens, j)
    ensures i < j ==> Place(lens, i) < Place(lens, j)
  {
    if i < j {
      PlaceMono(lens, i, j - 1);
    }
  }

  lemma UHalf(d: nat)
    requires d < MAX_LENGTH
    ensures U(MAX_LENGTH, d) == 2 * U(MAX_LENGTH, d + 1)
  {
  }

  /** A tree at depth d takes up the space of one code of d bits. */
  lemma {:induction false} TreeSpace(q: Order, t: Tree, d: nat, i: nat)
    requires Fits(q, t, d, i) && (forall j :: 0 <= j < |q.lens| ==> q.lens[j] <= MAX_LENGTH)
    ensures d <= MAX_LENGTH && i + Leaves(t) <= |q.lens|
    ensures Place(q.lens, i + Leaves(t)) == Place(q.lens, i) + U(MAX_LENGTH, d)
    decreases t
  {
    match t
    case Leaf(s) =>
    case Node(z, o) =>
      hide U;
      TreeSpace(q, z, d + 1, i);
      TreeSpace(q, o, d + 1, i + Leaves(z));
      UHalf(d);
  }

  // ---------- reading a tree ----------

  /** The symbol that a stream leads to, and the bits used. */
  datatype Found = Found(sym: nat, used: nat)

  function Deeper(r: Option<Found>): Option<Found> {
    match r
    case None => None
    case Some(f) => Some(Found(f.sym, f.used + 1))
  }

  function Follow(t: Tree, s: seq<bool>): Option<Found> {
    match t
    case Leaf(x) => Some(Found(x, 0))
    case Node(z, o) =>
      if s == [] then None
      else Deeper(Follow(if s[0] then o else z, s[1..]))
  }

  /** Stream s begins with code j. */
  predicate Begins(q: Order, s: seq<bool>, j: nat) {
    && MAX_LENGTH <= |s| && j < |q.lens| == |q.syms|
    && Place(q.lens, j) <= X(MAX_LENGTH, s) < Place(q.lens, j) + U(MAX_LENGTH, q.lens[j])
  }

  lemma BeginsOnce(q: Order, s: seq<bool>, j: nat, k: nat)
    requires Begins(q, s, j) && Begins(q, s, k)
    ensures j == k
  {
    if j < k {
      PlaceMono(q.lens, j + 1, k);
    } else if k < j {
      PlaceMono(q.lens, k + 1, j);
    }
  }

  /** One more bit of a stream. */
  lemma NextBit(s: seq<bool>, d: nat)
    requires d < MAX_LENGTH <= |s|
    ensures Left(MAX_LENGTH, s[..d + 1]) == Left(MAX_LENGTH, s[..d]) + if s[d] then U(MAX_LENGTH, d + 1) else 0
  {
    var a, b := s[..d], s[..d + 1];
    assert b[..|b| - 1] == a && b[|b| - 1] == s[d];
    assert Msb(b) == 2 * Msb(a) + if s[d] then 1 else 0;
    UHalf(d);
    hide U, Msb;
    TwiceMore(Msb(a), if s[d] then 1 else 0, U(MAX_LENGTH, d + 1));
  }

  lemma TwiceMore(a: nat, b: nat, u: nat)
    requires b <= 1
    ensures (2 * a + b) * u == a * (2 * u) + if b == 1 then u else 0
  {
  }

  /** Following a tree from depth d on, on a stream that has led there, finds the code the stream begins with. */
  lemma {:induction false} FollowIsCode(q: Order, t: Tree, d: nat, i: nat, s: seq<bool>) returns (j: nat)
    requires Fits(q, t, d, i) && (forall k :: 0 <= k < |q.lens| ==> q.lens[k] <= MAX_LENGTH)
    requires MAX_LENGTH <= |s| && d <= MAX_LENGTH && i <= |q.lens| && Place(q.lens, i) == Left(MAX_LENGTH, s[..d])
    ensures Begins(q, s, j) && d <= q.lens[j] && Follow(t, s[d..]) == Some(Found(q.syms[j], q.lens[j] - d))
    decreases t
  {
    hide U, Left, X;
    match t
    case Leaf(x) =>
      InOwnPrefix(MAX_LENGTH, s, d);
      j := i;
    case Node(z, o) =>
      TreeSpace(q, t, d, i);
      TreeSpace(q, z, d + 1, i);
      NextBit(s, d);
      assert s[d..][1..] == s[d + 1..];
      if s[d] {
        j := FollowIsCode(q, o, d + 1, i + Leaves(z), s);
      } else {
        j := FollowIsCode(q, z, d + 1, i, s);
      }
  }

  // ---------- the words of a tree ----------

  /** The mark for a branch that goes on with the next word, in the upper half. */
  const BRANCH1: nat := 0x4_0000

  /** The half word for a symbol. */
  function Half(s: nat): nat {
    2 * s + 1
  }

  /** The word of a node: a half word for each branch, the upper one for 1. The node of the 1-branch comes next; the
      distance to the node of the 0-branch, in bytes, may be too long for its half. */
  function Word(z: Tree, o: Tree): nat {
    match z
    case Leaf(x) => (if o.Leaf? then Half(o.sym) * 0x1_0000 else BRANCH1) + Half(x)
    case Node(_, _) => BRANCH1 + 4 * Leaves(o)
  }

  function Layout(t: Tree): (w: seq<nat>)
    ensures |w| == Leaves(t) - 1
  {
    match t
    case Leaf(_) => []
    case Node(z, o) => [Word(z, o)] + Layout(o) + Layout(z)
  }

  /** What HuffmanL reads, starting at word p: None when the stream ends first. */
  function Read(words: seq<nat>, p: nat, s: seq<bool>): Option<Found>
    decreases s
  {
    if s == [] || p >= |words| then None
    else
      var h := if s[0] then words[p] / 0x1_0000 else words[p] % 0x1_0000;
      if h % 2 == 1 then Some(Found(h / 2, 1)) else Deeper(Read(words, p + h / 4, s[1..]))
  }

  /** Longer codes are to the right of shorter ones, and symbols fit into 15 bits. */
  predicate Canonical(t: Tree) {
    match t
    case Leaf(x) => x < 0x8000
    case Node(z, o) => (z.Node? ==> o.Node?) && Canonical(z) && Canonical(o)
  }

  /** No distance is too long. */
  predicate Near(t: Tree) {
    match t
    case Leaf(_) => true
    case Node(z, o) => (z.Node? ==> Leaves(o) < 0x4000) && Near(z) && Near(o)
  }

  predicate LaidOut(words: seq<nat>, p: nat, t: Tree) {
    p + Leaves(t) - 1 <= |words| && words[p..p + Leaves(t) - 1] == Layout(t)
  }

  lemma Parts(words: seq<nat>, p: nat, t: Tree)
    requires LaidOut(words, p, t) && t.Node?
    ensures p < |words| && words[p] == Word(t.zero, t.one)
    ensures LaidOut(words, p + 1, t.one) && LaidOut(words, p + Leaves(t.one), t.zero)
  {
    var z, o := t.zero, t.one;
    LayoutIs(z, o);
    hide Word, Layout;
    Slices(words, p, Word(z, o), Layout(o), Layout(z));
  }

  lemma LayoutIs(z: Tree, o: Tree)
    ensures Layout(Node(z, o)) == [Word(z, o)] + Layout(o) + Layout(z) && Leaves(Node(z, o)) == Leaves(z) + Leaves(o)
  {
  }

  /** A word, and two stretches behind it. */
  lemma Slices(words: seq<nat>, p: nat, x: nat, a: seq<nat>, b: seq<nat>)
    requires p + 1 + |a| + |b| <= |words|
    ensures words[p..p + 1 + |a| + |b|] == [x] + a + b <==>
              words[p] == x && words[p + 1..p + 1 + |a|] == a && words[p + 1 + |a|..p + 1 + |a| + |b|] == b
  {
    var m, e := p + 1 + |a|, p + 1 + |a| + |b|;
    assert words[p..e] == [words[p]] + words[p + 1..m] + words[m..e];
    if words[p..e] == [x] + a + b {
      SameParts([words[p]] + words[p + 1..m], words[m..e], [x] + a, b);
      SameParts([words[p]], words[p + 1..m], [x], a);
    }
  }

  lemma SameParts(a: seq<nat>, b: seq<nat>, c: seq<nat>, d: seq<nat>)
    requires |a| == |c| && a + b == c + d
    ensures a == c && b == d
  {
    assert a == (a + b)[..|a|] && c == (c + d)[..|a|];
    assert b == (a + b)[|a|..] && d == (c + d)[|a|..];
  }

  /** The two halves of a word. */
  lemma Halves(z: Tree, o: Tree)
    requires (z.Leaf? ==> z.sym < 0x8000) && (o.Leaf? ==> o.sym < 0x8000) && Leaves(o) < 0x8000
    ensures z.Leaf? ==> Word(z, o) % 0x1_0000 == Half(z.sym) && Word(z, o) / 0x1_0000 == if o.Leaf? then Half(o.sym) else 4
    ensures z.Node? && Leaves(o) < 0x4000 ==> Word(z, o) % 0x1_0000 == 4 * Leaves(o) && Word(z, o) / 0x1_0000 == 4
    ensures z.Node? && Leaves(o) >= 0x4000 ==> Word(z, o) / 0x1_0000 == 5
  {
  }

  /** Reading the words of a tree without too long distances is following the tree. */
  lemma {:induction false} ReadIsFollow(words: seq<nat>, p: nat, t: Tree, s: seq<bool>)
    requires t.Node? && LaidOut(words, p, t) && Canonical(t) && Near(t) && Leaves(t) <= 0x8000
    ensures Read(words, p, s) == Follow(t, s)
    decreases t
  {
    hide Word, Layout, LaidOut, Read;
    if s == [] {
      NothingRead(words, p);
    } else {
      var z, o := t.zero, t.one;
      Branches(words, p, t);
      if s[0] && o.Node? {
        ReadDeeper(words, p, 1, s);
        ReadIsFollow(words, p + 1, o, s[1..]);
      } else if !s[0] && z.Node? {
        ReadDeeper(words, p, Leaves(o), s);
        ReadIsFollow(words, p + Leaves(o), z, s[1..]);
      } else {
        ReadLeaf(words, p, if s[0] then o.sym else z.sym, s);
      }
    }
  }

  lemma NothingRead(words: seq<nat>, p: nat)
    ensures Read(words, p, []) == None
  {
  }

  lemma ReadDeeper(words: seq<nat>, p: nat, k: nat, s: seq<bool>)
    requires s != [] && p < |words| && (if s[0] then words[p] / 0x1_0000 else words[p] % 0x1_0000) == 4 * k
    ensures Read(words, p, s) == Deeper(Read(words, p + k, s[1..]))
  {
  }

  lemma ReadLeaf(words: seq<nat>, p: nat, sym: nat, s: seq<bool>)
    requires s != [] && p < |words| && (if s[0] then words[p] / 0x1_0000 else words[p] % 0x1_0000) == Half(sym)
    ensures Read(words, p, s) == Some(Found(sym, 1))
  {
  }

  /** Otherwise a stream that leads to the node with the first such distance, and takes its 1-branch, ends there. */
  lemma {:induction false} ReadFails(words: seq<nat>, p: nat, t: Tree) returns (s: seq<bool>)
    requires t.Node? && LaidOut(words, p, t) && Canonical(t) && !Near(t) && Leaves(t) <= 0x8000
    ensures forall x :: Ends(words, p, t, s, x)
    decreases t
  {
    hide Word, Layout, LaidOut, Read, Follow, Ends;
    var z, o := t.zero, t.one;
    Branches(words, p, t);
    if z.Node? && Leaves(o) >= 0x4000 {
      s := [true];
      forall x ensures Ends(words, p, t, s, x) {
        EndsHere(words, p, t, x);
      }
    } else if !Near(o) {
      var u := ReadFails(words, p + 1, o);
      s := [true] + u;
      forall x ensures Ends(words, p, t, s, x) {
        assert Ends(words, p + 1, o, u, x);
        EndsDeeper(words, p, t, 1, true, u, x);
      }
    } else {
      var u := ReadFails(words, p + Leaves(o), z);
      s := [false] + u;
      forall x ensures Ends(words, p, t, s, x) {
        assert Ends(words, p + Leaves(o), z, u, x);
        EndsDeeper(words, p, t, Leaves(o), false, u, x);
      }
    }
  }

  /** The branches of a node. */
  lemma Branches(words: seq<nat>, p: nat, t: Tree)
    requires t.Node? && LaidOut(words, p, t) && Canonical(t) && Leaves(t) <= 0x8000
    ensures p < |words| && LaidOut(words, p + 1, t.one) && LaidOut(words, p + Leaves(t.one), t.zero)
    ensures Canonical(t.zero) && Canonical(t.one) && Leaves(t.zero) < 0x8000 && Leaves(t.one) < 0x8000
    ensures t.zero.Node? && Leaves(t.one) >= 0x4000 ==> t.one.Node? && words[p] / 0x1_0000 == 5
    ensures !(t.zero.Node? && Leaves(t.one) >= 0x4000) && t.one.Node? ==> words[p] / 0x1_0000 == 4 * 1
    ensures t.zero.Node? && Leaves(t.one) < 0x4000 ==> words[p] % 0x1_0000 == 4 * Leaves(t.one)
    ensures t.zero.Leaf? ==> words[p] % 0x1_0000 == Half(t.zero.sym)
    ensures t.one.Leaf? ==> words[p] / 0x1_0000 == Half(t.one.sym)
  {
    hide Layout, LaidOut;
    Parts(words, p, t);
    Halves(t.zero, t.one);
    hide Word;
  }

  lemma EndsHere(words: seq<nat>, p: nat, t: Tree, x: seq<bool>)
    requires t.Node? && t.one.Node? && p < |words| && words[p] / 0x1_0000 == 5
    ensures Ends(words, p, t, [true], x)
  {
    assert ([true] + x)[1..] == x;
    UsesBits(t.one, x);
  }

  lemma EndsDeeper(words: seq<nat>, p: nat, t: Tree, k: nat, bit: bool, u: seq<bool>, x: seq<bool>)
    requires t.Node? && p < |words| && Ends(words, p + k, if bit then t.one else t.zero, u, x)
    requires (if bit then words[p] / 0x1_0000 else words[p] % 0x1_0000) == 4 * k
    ensures Ends(words, p, t, [bit] + u, x)
  {
    assert ([bit] + u + x)[1..] == u + x;
  }

  lemma UsesBits(t: Tree, x: seq<bool>)
    requires t.Node?
    ensures Follow(t, x).Some? ==> Follow(t, x).value.used > 0
  {
  }

  /** Reading ends with the last bit of s, too early. */
  predicate Ends(words: seq<nat>, p: nat, t: Tree, s: seq<bool>, x: seq<bool>) {
    var r, f := Read(words, p, s + x), Follow(t, s + x);
    r.Some? && r.value.used == |s| && (f == None || f.value.used > |s|)
  }

  // ---------- the condition in terms of the lengths ----------

  /** At depth d, behind m whole subtrees, there is one whose 0-branch, with the codes from i to j, is no leaf and
      whose 1-branch has the codes from j to k. */
  predicate Fork(q: Order, d: nat, m: nat, i: nat, j: nat, k: nat) {
    && d < MAX_LENGTH && i < j < k <= |q.lens| && q.lens[i] > d + 1
    && Place(q.lens, i) == m * U(MAX_LENGTH, d)
    && Place(q.lens, j) == Place(q.lens, i) + U(MAX_LENGTH, d + 1)
    && Place(q.lens, k) == Place(q.lens, i) + U(MAX_LENGTH, d)
  }

  ghost predicate Narrow(q: Order) {
    forall d, m, i, j, k {:trigger Fork(q, d, m, i, j, k)} :: Fork(q, d, m, i, j, k) ==> k < j + 0x4000
  }

  predicate Short(q: Order) {
    forall j :: 0 <= j < |q.lens| ==> q.lens[j] <= MAX_LENGTH
  }

  lemma {:induction false} NarrowIsNear(q: Order, t: Tree, d: nat, m: nat, i: nat)
    requires Fits(q, t, d, i) && Short(q) && Narrow(q) && i <= |q.lens| && Place(q.lens, i) == m * U(MAX_LENGTH, d)
    ensures Near(t)
    decreases t
  {
    match t
    case Leaf(_) =>
    case Node(z, o) =>
      TreeSpace(q, t, d, i);
      TreeSpace(q, z, d + 1, i);
      TreeSpace(q, o, d + 1, i + Leaves(z));
      UHalf(d);
      TwiceMore(m, 0, U(MAX_LENGTH, d + 1));
      TwiceMore(m, 1, U(MAX_LENGTH, d + 1));
      hide U, Narrow;
      NarrowIsNear(q, z, d + 1, 2 * m, i);
      NarrowIsNear(q, o, d + 1, 2 * m + 1, i + Leaves(z));
      if z.Node? {
        Deep(q, z, d + 1, i);
        var j, k := i + Leaves(z), i + Leaves(t);
        assert Fork(q, d, m, i, j, k);
        NarrowAt(q, d, m, i, j, k);
      }
  }

  lemma NarrowAt(q: Order, d: nat, m: nat, i: nat, j: nat, k: nat)
    requires Narrow(q) && Fork(q, d, m, i, j, k)
    ensures k < j + 0x4000
  {
    hide Fork;
  }

  /** The first code of a tree that is no leaf is longer than the tree is deep. */
  lemma {:induction false} Deep(q: Order, t: Tree, d: nat, i: nat)
    requires Fits(q, t, d, i)
    ensures i < |q.lens| && q.lens[i] >= d && (t.Node? ==> q.lens[i] > d)
    decreases t
  {
    if t.Node? {
      Deep(q, t.zero, d + 1, i);
    }
  }

  /** A fork is a node of the tree. */
  lemma {:induction false} ForkIsNear(q: Order, t: Tree, d0: nat, m0: nat, i0: nat, d: nat, m: nat, i: nat, j: nat, k: nat)
    requires Fits(q, t, d0, i0) && Short(q) && Near(t) && i0 <= |q.lens| && Place(q.lens, i0) == m0 * U(MAX_LENGTH, d0)
    requires d0 <= d && i0 <= i < i0 + Leaves(t) && Fork(q, d, m, i, j, k)
    ensures k < j + 0x4000
    decreases t
  {
    hide U, Place, Fork;
    if d0 == d {
      ForkHere(q, t, m0, i0, d, m, i, j, k);
    } else {
      ForkBelow(q, t, d0, m0, i0, d, m, i, j, k);
      var z, o := t.zero, t.one;
      if i < i0 + Leaves(z) {
        ForkIsNear(q, z, d0 + 1, 2 * m0, i0, d, m, i, j, k);
      } else {
        ForkIsNear(q, o, d0 + 1, 2 * m0 + 1, i0 + Leaves(z), d, m, i, j, k);
      }
    }
  }

  lemma ForkHere(q: Order, t: Tree, m0: nat, i0: nat, d: nat, m: nat, i: nat, j: nat, k: nat)
    requires Fits(q, t, d, i0) && Short(q) && Near(t) && i0 <= |q.lens| && Place(q.lens, i0) == m0 * U(MAX_LENGTH, d)
    requires i0 <= i < i0 + Leaves(t) && Fork(q, d, m, i, j, k)
    ensures k < j + 0x4000
  {
    hide U, Place;
    TreeSpace(q, t, d, i0);
    PlaceMono(q.lens, i0, i);
    PlaceMono(q.lens, i, i0 + Leaves(t));
    SameQuotient(m0, m, U(MAX_LENGTH, d), Place(q.lens, i));
    PlaceOnce(q, i, i0);
    TreeSpace(q, t.zero, d + 1, i);
    PlaceOnce(q, j, i + Leaves(t.zero));
    PlaceOnce(q, k, i + Leaves(t));
  }

  /** A deeper fork is in one of the branches, each of which begins on a boundary. */
  lemma ForkBelow(q: Order, t: Tree, d0: nat, m0: nat, i0: nat, d: nat, m: nat, i: nat, j: nat, k: nat)
    requires Fits(q, t, d0, i0) && Short(q) && i0 <= |q.lens| && Place(q.lens, i0) == m0 * U(MAX_LENGTH, d0)
    requires d0 < d && i0 <= i < i0 + Leaves(t) && Fork(q, d, m, i, j, k)
    ensures t.Node? && i0 + Leaves(t.zero) <= |q.lens| && Place(q.lens, i0) == 2 * m0 * U(MAX_LENGTH, d0 + 1)
    ensures Place(q.lens, i0 + Leaves(t.zero)) == (2 * m0 + 1) * U(MAX_LENGTH, d0 + 1)
  {
    hide U, Place;
    assert t.Node?;
    TreeSpace(q, t.zero, d0 + 1, i0);
    UHalf(d0);
    TwiceMore(m0, 0, U(MAX_LENGTH, d0 + 1));
    TwiceMore(m0, 1, U(MAX_LENGTH, d0 + 1));
  }

  lemma PlaceOnce(q: Order, i: nat, j: nat)
    requires i <= |q.lens| && j <= |q.lens| && Place(q.lens, i) == Place(q.lens, j)
    ensures i == j
  {
    if i < j {
      PlaceMono(q.lens, i, j);
    } else if j < i {
      PlaceMono(q.lens, j, i);
    }
  }

  /** For the tree of a whole code. */
  lemma NarrowIff(q: Order, t: Tree)
    requires Fits(q, t, 0, 0) && Short(q) && Leaves(t) == |q.lens|
    ensures Near(t) <==> Narrow(q)
  {
    hide Fork, Near, Fits, U;
    if Narrow(q) {
      NarrowIsNear(q, t, 0, 0, 0);
    } else {
      var d: nat, m: nat, i: nat, j: nat, k: nat :| Fork(q, d, m, i, j, k) && k >= j + 0x4000;
      ForkRange(q, d, m, i, j, k);
      if Near(t) {
        ForkIsNear(q, t, 0, 0, 0, d, m, i, j, k);
      }
    }
  }

  lemma ForkRange(q: Order, d: nat, m: nat, i: nat, j: nat, k: nat)
    requires Fork(q, d, m, i, j, k)
    ensures i < |q.lens|
  {
  }

  /** Up to 16385 codes are always narrow. */
  lemma FewIsNarrow(q: Order)
    requires |q.lens| <= 0x4001 && Short(q)
    ensures Narrow(q)
  {
    forall d: nat, m: nat, i: nat, j: nat, k: nat | Fork(q, d, m, i, j, k) ensures k < j + 0x4000 {
      TwoBefore(q, d, m, i, j, k);
    }
  }

  lemma TwoBefore(q: Order, d: nat, m: nat, i: nat, j: nat, k: nat)
    requires Fork(q, d, m, i, j, k) && Short(q)
    ensures i + 2 <= j < k <= |q.lens|
  {
    UFalls(d + 1, q.lens[i]);
  }

  lemma {:induction false} UFalls(a: nat, b: nat)
    requires a < b <= MAX_LENGTH
    ensures U(MAX_LENGTH, b) < U(MAX_LENGTH, a)
    decreases b - a
  {
    UHalf(a);
    if a + 1 < b {
      UFalls(a + 1, b);
    }
  }
}
