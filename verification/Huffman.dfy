/** The builder of decoding trees for canonical codes, which works in the table of code lengths itself. */
module Huffmans {
  import opened BitStrings
  import opened CodeOrders
  import opened HuffTrees
  import Hufts

  const MAX_CODES: nat := 0x8000

  // ---------- is there a code with these lengths? ----------

  function Total(lens: seq<nat>, p: nat): nat
    requires p <= |lens|
    decreases |lens| - p
  {
    if p == |lens| then 0 else lens[p] + Total(lens, p + 1)
  }

  function Used(lens: seq<nat>, p: nat): nat
    requires p <= |lens|
    decreases |lens| - p
  {
    if p == |lens| then 0 else Used(lens, p + 1) + if lens[p] > 0 then U(MAX_LENGTH, lens[p]) else 0
  }

  lemma {:induction false} UsedIsKraft(lens: seq<nat>, p: nat)
    requires p <= |lens|
    ensures Kraft(lens[..p]) + Used(lens, p) == Kraft(lens)
    decreases |lens| - p
  {
    if p == |lens| {
      assert lens[..p] == lens;
    } else {
      UsedIsKraft(lens, p + 1);
      assert lens[..p + 1][..p] == lens[..p];
    }
  }

  predicate AllShort(lens: seq<nat>) {
    forall i :: 0 <= i < |lens| ==> lens[i] <= MAX_LENGTH
  }

  /** A complete code, or a single symbol with a code of one bit, or none at all. */
  ghost predicate IsCode(lens: seq<nat>) {
    (AllShort(lens) && Kraft(lens) == Pow2(MAX_LENGTH)) || Total(lens, 0) <= 1
  }

  lemma {:induction false} TotalParts(lens: seq<nat>, p: nat, i: nat)
    requires p <= i < |lens|
    ensures Total(lens, p) >= lens[i] && Total(lens, p) >= Total(lens, i)
    decreases i - p
  {
    if p < i {
      TotalParts(lens, p + 1, i);
    }
  }

  lemma {:induction false} UsedParts(lens: seq<nat>, p: nat, i: nat)
    requires p <= i <= |lens|
    ensures Used(lens, p) >= Used(lens, i) && Total(lens, p) >= Total(lens, i)
    decreases i - p
  {
    if p < i {
      UsedParts(lens, p + 1, i);
    }
  }

  lemma UBound(len: nat)
    requires 0 < len <= MAX_LENGTH
    ensures U(MAX_LENGTH, len) <= U(MAX_LENGTH, 1) && 2 * U(MAX_LENGTH, 1) == Pow2(MAX_LENGTH)
    ensures U(MAX_LENGTH, len) == Pow2(MAX_LENGTH - len)
  {
    UHalf(0);
    if len > 1 {
      UFalls(1, len);
    }
  }

  /** IsValid */
  method IsValid(huff: array<nat>, n: nat) returns (ok: bool)
    requires n <= huff.Length
    ensures ok <==> IsCode(huff[..n])
  {
    hide U, Kraft, Pow2;
    ghost var lens := huff[..n];
    var remain := Pow2(MAX_LENGTH);
    var totlen := 0;
    var p := n;
    UsedIsKraft(lens, 0);
    KraftNone();
    assert lens[..0] == [];
    while p > 0
      invariant 0 <= p <= n && totlen == Total(lens, p) && remain + Used(lens, p) == Pow2(MAX_LENGTH)
      invariant forall i :: p <= i < n ==> lens[i] <= MAX_LENGTH
      invariant remain < Pow2(MAX_LENGTH) ==> totlen > 0
    {
      p := p - 1;
      var len := huff[p];
      assert len == lens[p];
      UsedParts(lens, 0, p);
      if len > 0 {
        totlen := totlen + len;
        if len > MAX_LENGTH {
          return false;
        }
        UBound(len);
        var c := Pow2(MAX_LENGTH - len);
        if c > remain {
          return false;
        }
        remain := remain - c;
      }
    }
    ok := remain == 0 || totlen <= 1;
  }

  lemma KraftNone()
    ensures Kraft([]) == 0
  {
  }

  // ---------- building the tree ----------

  /** level[k] is where the codes of at most k + 1 bits end, counted from the top. */
  ghost predicate LevelsOk(q: Order, level: seq<nat>) {
    && |level| == MAX_LENGTH
    && (forall k {:trigger level[k]} :: 0 <= k < MAX_LENGTH ==> level[k] <= |q.lens|)
    && (forall k, x {:trigger level[k], q.lens[x]} :: 0 <= k < MAX_LENGTH && 0 <= x < |q.lens| ==> (q.lens[x] <= k + 1 <==> x < |q.lens| - level[k]))
  }

  /** The values of the codes from i on are still in place, in the upper halves, from the top down. */
  predicate Unread(words: seq<nat>, q: Order, i: nat) {
    |q.syms| == |q.lens| <= |words| && forall x :: i <= x < |q.syms| ==> words[|q.syms| - 1 - x] / 0x1_0000 == Half(q.syms[x])
  }

  ghost predicate SmallSymbols(q: Order) {
    forall x :: 0 <= x < |q.syms| ==> q.syms[x] < 0x8000
  }

  /** Half of a subtree is not all of the rest. */
  lemma MoreCodes(q: Order, d: nat, m: nat, i: nat)
    requires Complete(q) && d < MAX_LENGTH && i <= |q.lens| && Place(q.lens, i) == (2 * m + 1) * U(MAX_LENGTH, d + 1)
    ensures i < |q.lens|
  {
    hide Place, U, Pow2;
    OddIsNotAll(d, m);
  }

  lemma OddIsNotAll(d: nat, m: nat)
    requires d < MAX_LENGTH
    ensures (2 * m + 1) * U(MAX_LENGTH, d + 1) != Pow2(MAX_LENGTH)
  {
    UStep(MAX_LENGTH, 0, d + 1);
    assert Pow2(d + 1) == 2 * Pow2(d);
    NotAll(2 * m + 1, Pow2(d + 1), U(MAX_LENGTH, d + 1));
  }

  lemma NotAll(a: nat, n: nat, u: nat)
    requires a != n && u > 0
    ensures a * u != n * u
  {
    if a * u == n * u {
      SameQuotient(a, n, u, n * u);
    }
  }

  lemma Split(m: nat, d: nat)
    requires d < MAX_LENGTH
    ensures m * U(MAX_LENGTH, d) == 2 * m * U(MAX_LENGTH, d + 1)
    ensures m * U(MAX_LENGTH, d) + U(MAX_LENGTH, d + 1) == (2 * m + 1) * U(MAX_LENGTH, d + 1)
  {
    UHalf(d);
    hide U;
    TwiceMore(m, 0, U(MAX_LENGTH, d + 1));
    TwiceMore(m, 1, U(MAX_LENGTH, d + 1));
  }

  lemma UnreadKept(words: seq<nat>, words': seq<nat>, q: Order, i: nat, j: nat, lo: nat)
    requires Unread(words, q, i) && i <= j && |words| == |words'| && |q.syms| - j <= lo
    requires forall x :: 0 <= x < lo && x < |words| ==> words'[x] == words[x]
    ensures Unread(words', q, j)
  {
  }

  lemma LaidOutKept(words: seq<nat>, words': seq<nat>, p: nat, t: Tree)
    requires LaidOut(words, p, t) && |words| == |words'|
    requires forall x :: p <= x < p + Leaves(t) - 1 ==> words'[x] == words[x]
    ensures LaidOut(words', p, t)
  {
    hide Layout;
    var n := p + Leaves(t) - 1;
    assert words'[p..n] == words[p..n];
  }

  /** The word of a node, its 1-branch behind it, and then its 0-branch. */
  lemma Joined(words: seq<nat>, p: nat, z: Tree, o: Tree)
    requires p < |words| && words[p] == Word(z, o) && LaidOut(words, p + 1, o) && LaidOut(words, p + Leaves(o), z)
    ensures LaidOut(words, p, Node(z, o))
  {
    LayoutIs(z, o);
    hide Word, Layout;
    Slices(words, p, Word(z, o), Layout(o), Layout(z));
  }

  lemma JoinedFits(q: Order, z: Tree, o: Tree, d: nat, i: nat)
    requires Fits(q, z, d + 1, i) && Fits(q, o, d + 1, i + Leaves(z)) && Canonical(z) && Canonical(o) && (z.Node? ==> o.Node?)
    ensures var t := Node(z, o); Fits(q, t, d, i) && Canonical(t) && Leaves(t) == Leaves(z) + Leaves(o)
  {
  }

  lemma LeafFits(q: Order, d: nat, i: nat)
    requires i < |q.lens| == |q.syms| && q.lens[i] == d && q.syms[i] < 0x8000
    ensures var t := Leaf(q.syms[i]); Fits(q, t, d, i) && Canonical(t) && Leaves(t) == 1
    ensures forall words: seq<nat>, p: nat :: p <= |words| ==> LaidOut(words, p, Leaf(q.syms[i]))
  {
  }

  /** HuffmanSubTree: the tree for the codes from i on, at a depth where they have come to fill a whole subtree. Its
      words are written below ptr, over values that have been read. */
  method HuffmanSubTree(tree: array<nat>, ptr: nat, value: int, level: seq<nat>, depth: nat, ghost q: Order, ghost i: nat, ghost m: nat)
    returns (head: nat, ghost t: Tree)
    requires Complete(q) && LevelsOk(q, level) && SmallSymbols(q) && |q.lens| <= MAX_CODES
    requires depth < MAX_LENGTH && i < |q.lens| && q.lens[i] > depth && Place(q.lens, i) == m * U(MAX_LENGTH, depth)
    requires value == |q.lens| - 1 - i && value <= ptr < |q.lens| <= tree.Length && Unread(tree[..], q, i)
    modifies tree
    ensures t.Node? && Fits(q, t, depth, i) && Canonical(t) && i + Leaves(t) <= |q.lens|
    ensures head + Leaves(t) - 1 == ptr && LaidOut(tree[..], head, t)
    ensures forall x :: 0 <= x < tree.Length && !(head <= x < ptr) ==> tree[x] == old(tree[x])
    decreases MAX_LENGTH - depth, 1
  {
    hide U, Place, Layout, Word, LaidOut, Fits, Canonical, Unread;
    var l := level[depth];
    if l > value {
      head, t := TwoTrees(tree, ptr, value, level, depth, q, i, m);
    } else if l == value {
      head, t := TermAndTree(tree, ptr, value, level, depth, q, i, m);
    } else {
      head, t := TwoTerms(tree, ptr, value, depth, q, i);
    }
  }

  /** No code ends here: two deeper trees. */
  method TwoTrees(tree: array<nat>, ptr: nat, value: int, level: seq<nat>, depth: nat, ghost q: Order, ghost i: nat, ghost m: nat)
    returns (head: nat, ghost t: Tree)
    requires Complete(q) && LevelsOk(q, level) && SmallSymbols(q) && |q.lens| <= MAX_CODES
    requires depth < MAX_LENGTH && i < |q.lens| && q.lens[i] > depth && Place(q.lens, i) == m * U(MAX_LENGTH, depth)
    requires value == |q.lens| - 1 - i && value <= ptr < |q.lens| <= tree.Length && Unread(tree[..], q, i)
    requires q.lens[i] > depth + 1
    modifies tree
    ensures t.Node? && Fits(q, t, depth, i) && Canonical(t) && i + Leaves(t) <= |q.lens|
    ensures head + Leaves(t) - 1 == ptr && LaidOut(tree[..], head, t)
    ensures forall x :: 0 <= x < tree.Length && !(head <= x < ptr) ==> tree[x] == old(tree[x])
    decreases MAX_LENGTH - depth, 0
  {
    hide U, Place, Layout, LaidOut, Fits, Canonical, Unread, LevelsOk;
    Split(m, depth);
    ghost var w0 := tree[..];
    ghost var z;
    var sub0;
    sub0, z := HuffmanSubTree(tree, ptr, value, level, depth + 1, q, i, 2 * m);
    ghost var w1 := tree[..];
    ghost var j := i + Leaves(z);
    TreeSpace(q, z, depth + 1, i);
    MoreCodes(q, depth, m, j);
    UnreadKept(w0, w1, q, i, j, sub0);
    ghost var o;
    var head1;
    head1, o := HuffmanSubTree(tree, sub0, value - (ptr - sub0) - 1, level, depth + 1, q, j, 2 * m + 1);
    ghost var w2 := tree[..];
    LaidOutKept(w1, w2, sub0, z);
    var branch0 := 4 * (sub0 - (head1 - 1));
    assert branch0 < BRANCH1;
    head := head1 - 1;
    tree[head] := BRANCH1 + branch0;
    LaidOutKept(w2, tree[..], sub0, z);
    LaidOutKept(w2, tree[..], head1, o);
    t := Node(z, o);
    Joined(tree[..], head, z, o);
    JoinedFits(q, z, o, depth, i);
  }

  /** One code ends here: a symbol, and a deeper tree. */
  method TermAndTree(tree: array<nat>, ptr: nat, value: int, level: seq<nat>, depth: nat, ghost q: Order, ghost i: nat, ghost m: nat)
    returns (head: nat, ghost t: Tree)
    requires Complete(q) && LevelsOk(q, level) && SmallSymbols(q) && |q.lens| <= MAX_CODES
    requires depth < MAX_LENGTH && i < |q.lens| && q.lens[i] > depth && Place(q.lens, i) == m * U(MAX_LENGTH, depth)
    requires value == |q.lens| - 1 - i && value <= ptr < |q.lens| <= tree.Length && Unread(tree[..], q, i)
    requires q.lens[i] == depth + 1 && (i + 1 < |q.lens| ==> q.lens[i + 1] > depth + 1)
    modifies tree
    ensures t.Node? && Fits(q, t, depth, i) && Canonical(t) && i + Leaves(t) <= |q.lens|
    ensures head + Leaves(t) - 1 == ptr && LaidOut(tree[..], head, t)
    ensures forall x :: 0 <= x < tree.Length && !(head <= x < ptr) ==> tree[x] == old(tree[x])
    decreases MAX_LENGTH - depth, 0
  {
    hide U, Layout, LaidOut, Fits, Canonical, Unread, LevelsOk;
    Split(m, depth);
    MoreCodes(q, depth, m, i + 1);
    ghost var w0 := tree[..];
    UnreadIs(w0, q, i);
    var term0 := tree[value];
    UnreadKept(w0, w0, q, i, i + 1, ptr);
    ghost var o;
    var head1;
    head1, o := HuffmanSubTree(tree, ptr, value - 1, level, depth + 1, q, i + 1, 2 * m + 1);
    ghost var w2 := tree[..];
    head := head1 - 1;
    tree[head] := BRANCH1 + term0 / 0x1_0000;
    LaidOutKept(w2, tree[..], head1, o);
    ghost var z := Leaf(q.syms[i]);
    LeafFits(q, depth + 1, i);
    t := Node(z, o);
    Joined(tree[..], head, z, o);
    JoinedFits(q, z, o, depth, i);
  }

  /** Two codes end here. */
  method TwoTerms(tree: array<nat>, ptr: nat, value: int, depth: nat, ghost q: Order, ghost i: nat)
    returns (head: nat, ghost t: Tree)
    requires Complete(q) && SmallSymbols(q) && i + 1 < |q.lens| && q.lens[i] == q.lens[i + 1] == depth + 1
    requires value == |q.lens| - 1 - i && value <= ptr < |q.lens| <= tree.Length && Unread(tree[..], q, i)
    modifies tree
    ensures t.Node? && Fits(q, t, depth, i) && Canonical(t) && i + Leaves(t) <= |q.lens|
    ensures head + Leaves(t) - 1 == ptr && LaidOut(tree[..], head, t)
    ensures forall x :: 0 <= x < tree.Length && !(head <= x < ptr) ==> tree[x] == old(tree[x])
  {
    hide U, Layout, LaidOut, Fits, Canonical, Unread, Place;
    ghost var w0 := tree[..];
    UnreadIs(w0, q, i);
    var term0 := tree[value];
    UnreadKept(w0, w0, q, i, i + 1, ptr);
    UnreadIs(w0, q, i + 1);
    var term1 := tree[value - 1];
    head := ptr - 1;
    tree[head] := term1 / 0x1_0000 * 0x1_0000 + term0 / 0x1_0000;
    LeafFits(q, depth + 1, i);
    LeafFits(q, depth + 1, i + 1);
    ghost var z, o := Leaf(q.syms[i]), Leaf(q.syms[i + 1]);
    t := Node(z, o);
    Joined(tree[..], head, z, o);
    JoinedFits(q, z, o, depth, i);
  }

  lemma UnreadIs(words: seq<nat>, q: Order, i: nat)
    requires Unread(words, q, i) && i < |q.syms|
    ensures words[|q.syms| - 1 - i] / 0x1_0000 == Half(q.syms[i])
  {
  }

  // ---------- the whole table ----------

  lemma {:induction false} TotalAtLeast(lens: seq<nat>, p: nat)
    requires p <= |lens|
    ensures Total(lens, p) + NonZero(lens[..p]) >= NonZero(lens)
    decreases |lens| - p
  {
    if p == |lens| {
      assert lens[..p] == lens;
    } else {
      TotalAtLeast(lens, p + 1);
      assert lens[..p + 1][..p] == lens[..p];
    }
  }

  /** A table that is accepted has no length above 27, and uses up the code space if it has more than one code. */
  lemma CodeFacts(lens: seq<nat>, base: nat)
    requires IsCode(lens)
    ensures AllShort(lens) && Codes(lens, MAX_LENGTH) == NonZero(lens)
    ensures NonZero(lens) > 1 ==> Complete(OrderOf(lens, base))
  {
    hide Kraft, Pow2, U, Ordered, Place;
    forall i | 0 <= i < |lens| ensures lens[i] <= MAX_LENGTH {
      if Total(lens, 0) <= 1 {
        TotalParts(lens, 0, i);
      }
    }
    CodesIsNonZero(lens);
    if NonZero(lens) > 1 {
      TotalAtLeast(lens, 0);
      assert lens[..0] == [];
      SpaceIsPlace(lens, MAX_LENGTH, base);
      KraftIsSpace(lens);
      var q := OrderOf(lens, base);
      forall x | 0 <= x < |q.lens| ensures 1 <= q.lens[x] <= MAX_LENGTH {
        OrderedIs(lens, MAX_LENGTH, base, x);
      }
      forall x, y | 0 <= x < y < |q.lens| ensures q.lens[x] <= q.lens[y] {
        LengthsRise(lens, base, x, y);
      }
    }
  }

  /** t is the tree of the code, and these are its words. */
  ghost predicate IsTree(q: Order, t: Tree, words: seq<nat>) {
    t.Node? && Fits(q, t, 0, 0) && Canonical(t) && Leaves(t) == |q.lens| && LaidOut(words, 0, t)
  }

  /** The decoding tree for a table of lengths: none, a single word that leads to the one symbol in both ways, or
      the words of the tree of the code. */
  ghost predicate Built(lens: seq<nat>, base: nat, words: seq<nat>) {
    var q := OrderOf(lens, base);
    if |q.lens| == 0 then true
    else if |q.lens| == 1 then words != [] && words[0] == Half(q.syms[0]) * 0x1_0001
    else exists t :: IsTree(q, t, words)
  }

  /** What word j holds when the first i symbols have been put in their places: its own length in the lower half, and
      perhaps the value of a symbol in the upper one. */
  function WordAt(lens: seq<nat>, q: Order, i: nat, j: nat): nat
    requires j < |lens| && |q.syms| <= |lens|
  {
    lens[j] + if j < |q.syms| && q.syms[|q.syms| - 1 - j] < i then 0x1_0000 * Half(q.syms[|q.syms| - 1 - j]) else 0
  }

  lemma {:induction false} FewCodes(lens: seq<nat>)
    ensures NonZero(lens) <= |lens|
  {
    if lens != [] {
      FewCodes(lens[..|lens| - 1]);
    }
  }

  /** Copy the lengths and count them. */
  method CountCodes(huff: array<nat>, n: nat, tree: array<nat>) returns (counts: seq<nat>, codes: nat)
    requires n <= huff.Length && n <= tree.Length && AllShort(huff[..n])
    modifies tree
    ensures |counts| == MAX_LENGTH && (forall k {:trigger counts[k]} :: 0 <= k < MAX_LENGTH ==> counts[k] == Hufts.Count(old(huff[..n]), k + 1))
    ensures codes == NonZero(old(huff[..n])) && tree[..n] == old(huff[..n])
  {
    hide Hufts.Count, NonZero;
    ghost var lens := huff[..n];
    counts, codes := Same(0, MAX_LENGTH), 0;
    NothingYet(lens);
    for ii := 0 to n
      invariant huff[..n] == lens && tree[..ii] == lens[..ii]
      invariant |counts| == MAX_LENGTH && codes == NonZero(lens[..ii])
      invariant forall k {:trigger counts[k]} :: 0 <= k < MAX_LENGTH ==> counts[k] == Hufts.Count(lens[..ii], k + 1)
    {
      var len := huff[ii];
      assert len == lens[ii];
      tree[ii] := len;
      OneCounted(lens, ii);
      if len > 0 {
        counts := counts[len - 1 := counts[len - 1] + 1];
        codes := codes + 1;
      }
    }
    assert lens[..n] == lens;
  }

  lemma NothingYet(lens: seq<nat>)
    ensures NonZero(lens[..0]) == 0 && forall k {:trigger Hufts.Count(lens[..0], k)} :: Hufts.Count(lens[..0], k) == 0
  {
  }

  lemma OneCounted(lens: seq<nat>, i: nat)
    requires i < |lens|
    ensures NonZero(lens[..i + 1]) == NonZero(lens[..i]) + if lens[i] > 0 then 1 else 0
    ensures forall k {:trigger Hufts.Count(lens[..i + 1], k)} :: Hufts.Count(lens[..i + 1], k) == Hufts.Count(lens[..i], k) + if lens[i] == k then 1 else 0
  {
    assert lens[..i + 1][..i] == lens[..i];
  }

  /** level[k] is where the values of the codes of k + 1 bits begin, when those that have at most that many bits among
      the first symbols are in place. */
  ghost predicate LevelAt(lens: seq<nat>, i: nat, level: seq<nat>, k: nat)
    requires k < |level| && i <= |lens|
  {
    Codes(lens, k) + Hufts.Count(lens[..i], k + 1) <= Codes(lens, MAX_LENGTH)
    && level[k] == Codes(lens, MAX_LENGTH) - Codes(lens, k) - Hufts.Count(lens[..i], k + 1)
  }

  /** Where the values of each length begin, from the top down. */
  method Levels(counts: seq<nat>, codes: nat, ghost lens: seq<nat>) returns (level: seq<nat>)
    requires |counts| == MAX_LENGTH && forall k {:trigger counts[k]} :: 0 <= k < MAX_LENGTH ==> counts[k] == Hufts.Count(lens, k + 1)
    requires codes == Codes(lens, MAX_LENGTH)
    ensures |level| == MAX_LENGTH && forall k :: 0 <= k < MAX_LENGTH ==> LevelAt(lens, 0, level, k)
  {
    hide Hufts.Count, Codes;
    NothingYet(lens);
    NoCodes(lens);
    level := [];
    var lit := codes;
    for ii := 0 to MAX_LENGTH
      invariant |level| == ii && Codes(lens, ii) <= codes && lit == codes - Codes(lens, ii)
      invariant forall k :: 0 <= k < ii ==> LevelAt(lens, 0, level, k)
    {
      ghost var was := level;
      level := level + [lit];
      forall k | 0 <= k < ii + 1 ensures LevelAt(lens, 0, level, k) {
        if k < ii {
          assert LevelAt(lens, 0, was, k);
        }
      }
      CodesNext(lens, ii + 1);
      CodesMono(lens, ii + 1, MAX_LENGTH);
      lit := lit - counts[ii];
    }
  }

  /** A symbol is filed in its place; the word there held its length only. */
  lemma Filed(lens: seq<nat>, base: nat, i: nat)
    requires i < |lens| && AllShort(lens) && Codes(lens, MAX_LENGTH) <= |lens| && lens[i] > 0
    ensures Index(lens, i) < Codes(lens, MAX_LENGTH)
    ensures var q := OrderOf(lens, base);
      var p := |q.syms| - 1 - Index(lens, i);
      && WordAt(lens, q, base + i, p) == lens[p] && WordAt(lens, q, base + i + 1, p) == lens[p] + 0x1_0000 * Half(base + i)
      && forall j {:trigger WordAt(lens, q, base + i, j)} {:trigger WordAt(lens, q, base + i + 1, j)} :: 0 <= j < |lens| && j != p ==>
           WordAt(lens, q, base + i + 1, j) == WordAt(lens, q, base + i, j)
  {
    hide Ordered, Index, Codes;
    IndexIs(lens, i, MAX_LENGTH, base);
    var q := OrderOf(lens, base);
    var p := |q.syms| - 1 - Index(lens, i);
    forall j {:trigger WordAt(lens, q, base + i, j)} | 0 <= j < |lens| && j != p ensures WordAt(lens, q, base + i + 1, j) == WordAt(lens, q, base + i, j) {
      if j < |q.syms| {
        IndexOf(lens, MAX_LENGTH, base, |q.syms| - 1 - j);
      }
    }
  }

  lemma NotFiled(lens: seq<nat>, base: nat, i: nat)
    requires i < |lens| && AllShort(lens) && Codes(lens, MAX_LENGTH) <= |lens| && lens[i] == 0
    ensures var q := OrderOf(lens, base);
      forall j {:trigger WordAt(lens, q, base + i, j)} {:trigger WordAt(lens, q, base + i + 1, j)} :: 0 <= j < |lens| ==>
        WordAt(lens, q, base + i + 1, j) == WordAt(lens, q, base + i, j)
  {
    hide Ordered, Index, Codes;
    var q := OrderOf(lens, base);
    forall j {:trigger WordAt(lens, q, base + i, j)} | 0 <= j < |lens| ensures WordAt(lens, q, base + i + 1, j) == WordAt(lens, q, base + i, j) {
      if j < |q.syms| {
        IndexOf(lens, MAX_LENGTH, base, |q.syms| - 1 - j);
      }
    }
  }

  lemma WordFirst(lens: seq<nat>, base: nat)
    requires Codes(lens, MAX_LENGTH) <= |lens|
    ensures var q := OrderOf(lens, base); forall j {:trigger WordAt(lens, q, base, j)} :: 0 <= j < |lens| ==> WordAt(lens, q, base, j) == lens[j]
  {
    hide Ordered, Codes;
    var q := OrderOf(lens, base);
    forall j | 0 <= j < |lens| ensures WordAt(lens, q, base, j) == lens[j] {
      if j < |q.syms| {
        OrderedIs(lens, MAX_LENGTH, base, |q.syms| - 1 - j);
      }
    }
  }

  /** The two halves of a word. */
  lemma WordHalves(lens: seq<nat>, q: Order, i: nat, j: nat)
    requires j < |lens| && |q.syms| <= |lens| && lens[j] <= MAX_LENGTH
    ensures WordAt(lens, q, i, j) % 256 == lens[j]
    ensures j < |q.syms| && q.syms[|q.syms| - 1 - j] < i ==> WordAt(lens, q, i, j) / 0x1_0000 == Half(q.syms[|q.syms| - 1 - j])
  {
    TwoHalves(lens[j], if j < |q.syms| && q.syms[|q.syms| - 1 - j] < i then Half(q.syms[|q.syms| - 1 - j]) else 0);
  }

  lemma TwoHalves(len: nat, h: nat)
    requires len < 256
    ensures (len + 0x1_0000 * h) % 256 == len && (len + 0x1_0000 * h) / 0x1_0000 == h
  {
    DivModUnique(len + 0x1_0000 * h, 0x1_0000, h, len);
    DivModUnique(len + 0x1_0000 * h, 256, 256 * h, len);
  }

  /** All values are put in code order, from the top of the table down. */
  method FileValues(tree: array<nat>, n: nat, base: nat, level0: seq<nat>, ghost lens: seq<nat>) returns (level: seq<nat>)
    requires n <= tree.Length && tree[..n] == lens && AllShort(lens) && Codes(lens, MAX_LENGTH) <= |lens|
    requires |level0| == MAX_LENGTH && forall k :: 0 <= k < MAX_LENGTH ==> LevelAt(lens, 0, level0, k)
    modifies tree
    ensures |level| == MAX_LENGTH && forall k :: 0 <= k < MAX_LENGTH ==> LevelAt(lens, |lens|, level, k)
    ensures forall j {:trigger tree[j]} :: 0 <= j < n ==> tree[j] == WordAt(lens, OrderOf(lens, base), base + n, j)
  {
    hide Hufts.Count, Ordered, Codes, WordAt, Half, Index;
    ghost var q := OrderOf(lens, base);
    level := level0;
    WordFirst(lens, base);
    NothingYet(lens);
    assert forall j :: 0 <= j < n ==> tree[j] == tree[..n][j];
    for ii := 0 to n
      invariant |level| == MAX_LENGTH && forall k :: 0 <= k < MAX_LENGTH ==> LevelAt(lens, ii, level, k)
      invariant forall j {:trigger tree[j]} :: 0 <= j < n ==> tree[j] == WordAt(lens, q, base + ii, j)
    {
      WordHalves(lens, q, base + ii, ii);
      var len := tree[ii] % 256;
      OneCounted(lens, ii);
      ghost var was := level;
      if len != 0 {
        Filed(lens, base, ii);
        IndexHere(lens, ii);
        assert LevelAt(lens, ii, level, len - 1);
        var p := level[len - 1] - 1;
        level := level[len - 1 := p];
        assert tree[p] < 0x1_0000;
        tree[p] := tree[p] + 0x1_0000 * Half(base + ii);
      } else {
        NotFiled(lens, base, ii);
      }
      ghost var next := ii + 1;
      forall k | 0 <= k < MAX_LENGTH ensures LevelAt(lens, next, level, k) {
        assert LevelAt(lens, ii, was, k);
      }
    }
    assert lens[..n] == lens;
  }

  lemma IndexHere(lens: seq<nat>, i: nat)
    requires i < |lens| && lens[i] > 0
    ensures Index(lens, i) == Codes(lens, lens[i] - 1) + Hufts.Count(lens[..i], lens[i])
  {
  }

  lemma LevelsAreOk(lens: seq<nat>, base: nat, level: seq<nat>)
    requires |level| == MAX_LENGTH && forall k :: 0 <= k < MAX_LENGTH ==> LevelAt(lens, |lens|, level, k)
    ensures LevelsOk(OrderOf(lens, base), level)
  {
    hide Ordered, Codes, Hufts.Count;
    var q := OrderOf(lens, base);
    assert lens[..|lens|] == lens;
    forall k {:trigger level[k]} | 0 <= k < MAX_LENGTH
      ensures level[k] <= |q.lens|
      ensures forall x {:trigger q.lens[x]} :: 0 <= x < |q.lens| ==> (q.lens[x] <= k + 1 <==> x < |q.lens| - level[k])
    {
      assert LevelAt(lens, |lens|, level, k);
      CodesNext(lens, k + 1);
      forall x {:trigger q.lens[x]} | 0 <= x < |q.lens| ensures q.lens[x] <= k + 1 <==> x < |q.lens| - level[k] {
        LevelIs(lens, k + 1, MAX_LENGTH, base, x);
      }
    }
  }

  lemma ValuesInPlace(words: seq<nat>, lens: seq<nat>, base: nat)
    requires AllShort(lens) && |lens| <= |words| && Codes(lens, MAX_LENGTH) <= |lens|
    requires forall j {:trigger words[j]} :: 0 <= j < |lens| ==> words[j] == WordAt(lens, OrderOf(lens, base), base + |lens|, j)
    ensures Unread(words, OrderOf(lens, base), 0)
  {
    hide Ordered, Codes, WordAt, Half;
    var q := OrderOf(lens, base);
    forall x | 0 <= x < |q.syms| ensures words[|q.syms| - 1 - x] / 0x1_0000 == Half(q.syms[x]) {
      var j := |q.syms| - 1 - x;
      assert words[j] == WordAt(lens, q, base + |lens|, j);
      ValueAt(lens, base, x);
    }
  }

  lemma ValueAt(lens: seq<nat>, base: nat, x: nat)
    requires AllShort(lens) && Codes(lens, MAX_LENGTH) <= |lens| && x < |OrderOf(lens, base).syms|
    ensures var q := OrderOf(lens, base); var j := |q.syms| - 1 - x;
      j < |lens| && WordAt(lens, q, base + |lens|, j) / 0x1_0000 == Half(q.syms[x])
  {
    hide Ordered, Codes, WordAt, Half;
    var q := OrderOf(lens, base);
    OrderedIs(lens, MAX_LENGTH, base, x);
    WordHalves(lens, q, base + |lens|, |q.syms| - 1 - x);
  }

  lemma SymbolsSmall(lens: seq<nat>, base: nat)
    requires base + |lens| <= MAX_CODES
    ensures SmallSymbols(OrderOf(lens, base))
  {
    hide Ordered, Codes;
    var q := OrderOf(lens, base);
    forall x | 0 <= x < |q.syms| ensures q.syms[x] < 0x8000 {
      OrderedIs(lens, MAX_LENGTH, base, x);
    }
  }

  /** The tree of all codes takes up the whole code space. */
  lemma WholeTree(q: Order, t: Tree)
    requires Complete(q) && Fits(q, t, 0, 0)
    ensures Leaves(t) == |q.lens|
  {
    TreeSpace(q, t, 0, 0);
    PlaceOnce(q, Leaves(t), |q.lens|);
  }

  /** Decoding: the table of lengths becomes the decoding tree; it may be the same memory. */
  method Decoding(huff: array<nat>, n: nat, tree: array<nat>, base: nat)
    requires n <= huff.Length && n <= tree.Length && base + n <= MAX_CODES && IsCode(huff[..n])
    modifies tree
    ensures Built(old(huff[..n]), base, tree[..])
  {
    hide Ordered, Codes, Kraft, Fits, Canonical, Layout, LaidOut, Unread, LevelsOk, Place, Hufts.Count, WordAt;
    ghost var lens := huff[..n];
    ghost var q := OrderOf(lens, base);
    CodeFacts(lens, base);
    FewCodes(lens);
    SymbolsSmall(lens, base);
    var counts, codes := CountCodes(huff, n, tree);
    var level := Levels(counts, codes, lens);
    level := FileValues(tree, n, base, level, lens);
    ValuesInPlace(tree[..], lens, base);
    LevelsAreOk(lens, base, level);
    if codes == 1 {
      UnreadIs(tree[..], q, 0);
      var term := tree[0] / 0x1_0000;
      tree[0] := term + term * 0x1_0000;
    } else if codes > 1 {
      NoPlace(q);
      ghost var t;
      var head;
      head, t := HuffmanSubTree(tree, codes - 1, codes - 1, level, 0, q, 0, 0);
      WholeTree(q, t);
      assert IsTree(q, t, tree[..]);
    }
  }

  lemma NoPlace(q: Order)
    ensures Place(q.lens, 0) == 0 * U(MAX_LENGTH, 0)
  {
  }

  // ---------- what the tree decodes ----------

  /** Every stream that begins with the code of a symbol, as section 3.2.2 of RFC 1951 assigns it, is decoded to that
      symbol, and exactly the bits of the code are used. */
  ghost predicate RightTree(lens: seq<nat>, base: nat, words: seq<nat>) {
    forall s: seq<bool>, i: nat {:trigger Hufts.Decodes(lens, s, i)} :: MAX_LENGTH <= |s| && Hufts.Decodes(lens, s, i) ==>
      Read(words, 0, s) == Some(Found(base + i, lens[i]))
  }

  lemma FollowDecodes(lens: seq<nat>, base: nat, t: Tree, s: seq<bool>, i: nat)
    requires AllShort(lens) && MAX_LENGTH <= |s| && Hufts.Decodes(lens, s, i)
    requires var q := OrderOf(lens, base); Fits(q, t, 0, 0) && Short(q)
    ensures Follow(t, s) == Some(Found(base + i, lens[i]))
  {
    hide Ordered, Codes, Fits, Follow, Place, U, X, Begins;
    var q := OrderOf(lens, base);
    Nowhere(q, s);
    var j := FollowIsCode(q, t, 0, 0, s);
    assert s[0..] == s;
    DecodesCoded(lens, s, i);
    BeginsIsDecodes(lens, i, base, s);
    BeginsOnce(q, s, j, Index(lens, i));
    IndexIs(lens, i, MAX_LENGTH, base);
  }

  lemma DecodesCoded(lens: seq<nat>, s: seq<bool>, i: nat)
    requires Hufts.Decodes(lens, s, i)
    ensures i < |lens| && lens[i] > 0
  {
  }

  lemma Nowhere(q: Order, s: seq<bool>)
    ensures Place(q.lens, 0) == Left(MAX_LENGTH, s[..0])
  {
    assert s[..0] == [];
  }

  lemma OrderShort(lens: seq<nat>, base: nat)
    ensures Short(OrderOf(lens, base))
  {
    hide Ordered, Codes;
    var q := OrderOf(lens, base);
    forall x | 0 <= x < |q.lens| ensures q.lens[x] <= MAX_LENGTH {
      OrderedIs(lens, MAX_LENGTH, base, x);
    }
  }

  /** A table of more than one code is decoded rightly if and only if no subtree is too far away. */
  lemma TreeRightIff(lens: seq<nat>, base: nat, words: seq<nat>, t: Tree)
    requires AllShort(lens) && base + |lens| <= MAX_CODES && Codes(lens, MAX_LENGTH) <= |lens| && IsTree(OrderOf(lens, base), t, words)
    ensures RightTree(lens, base, words) <==> Narrow(OrderOf(lens, base))
  {
    hide Ordered, Codes, Fits, Canonical, LaidOut, Narrow, Near, Read, Follow, Place, Msb, Hufts.NextCode, Hufts.Rank;
    var q := OrderOf(lens, base);
    OrderShort(lens, base);
    NarrowIff(q, t);
    if Near(t) {
      forall s: seq<bool>, i: nat {:trigger Hufts.Decodes(lens, s, i)} | MAX_LENGTH <= |s| && Hufts.Decodes(lens, s, i)
        ensures Read(words, 0, s) == Some(Found(base + i, lens[i]))
      {
        FollowDecodes(lens, base, t, s, i);
        ReadIsFollow(words, 0, t, s);
      }
    } else {
      var u := ReadFails(words, 0, t);
      WrongStream(lens, base, words, t, u);
    }
  }

  lemma WrongStream(lens: seq<nat>, base: nat, words: seq<nat>, t: Tree, u: seq<bool>)
    requires AllShort(lens) && IsTree(OrderOf(lens, base), t, words) && Short(OrderOf(lens, base))
    requires forall x :: Ends(words, 0, t, u, x)
    ensures !RightTree(lens, base, words)
  {
    hide Ordered, Codes, Fits, Canonical, LaidOut, Read, Follow, Place, U, X, Begins, Hufts.Decodes;
    var q := OrderOf(lens, base);
    var x := seq(MAX_LENGTH, k => false);
    var s := u + x;
    Nowhere(q, s);
    var j := FollowIsCode(q, t, 0, 0, s);
    assert s[0..] == s;
    assert Ends(words, 0, t, u, x);
    BeginsRange(q, s, j);
    IndexOf(lens, MAX_LENGTH, base, j);
    var i := q.syms[j] - base;
    BeginsIsDecodes(lens, i, base, s);
    IndexIs(lens, i, MAX_LENGTH, base);
    assert Hufts.Decodes(lens, s, i);
  }

  lemma BeginsRange(q: Order, s: seq<bool>, j: nat)
    requires Begins(q, s, j)
    ensures j < |q.lens|
  {
  }

  /** Decoding makes a right tree for every table of lengths it is made for, if and only if no subtree is too far
      away. */
  lemma BuiltIsRightIff(lens: seq<nat>, base: nat, words: seq<nat>)
    requires IsCode(lens) && base + |lens| <= MAX_CODES && Built(lens, base, words)
    ensures RightTree(lens, base, words) <==> Narrow(OrderOf(lens, base))
  {
    hide Ordered, Codes, IsTree, Narrow, RightTree;
    var q := OrderOf(lens, base);
    CodeFacts(lens, base);
    FewCodes(lens);
    OrderShort(lens, base);
    if |q.lens| > 1 {
      var t :| IsTree(q, t, words);
      TreeRightIff(lens, base, words, t);
    } else {
      FewIsNarrow(q);
      OneIsRight(lens, base, words);
    }
  }

  /** A single code, of one bit. */
  lemma OneIsRight(lens: seq<nat>, base: nat, words: seq<nat>)
    requires IsCode(lens) && base + |lens| <= MAX_CODES && Built(lens, base, words) && |OrderOf(lens, base).lens| <= 1
    ensures RightTree(lens, base, words)
  {
    hide Ordered, Codes, Kraft, Pow2, U, Hufts.NextCode, Hufts.Rank, Index, Read, Built, IsCode, Msb, Total;
    forall s: seq<bool>, i: nat {:trigger Hufts.Decodes(lens, s, i)} | MAX_LENGTH <= |s| && Hufts.Decodes(lens, s, i)
      ensures Read(words, 0, s) == Some(Found(base + i, lens[i]))
    {
      OneDecodes(lens, base, words, s, i);
    }
  }

  lemma OneDecodes(lens: seq<nat>, base: nat, words: seq<nat>, s: seq<bool>, i: nat)
    requires IsCode(lens) && base + |lens| <= MAX_CODES && Built(lens, base, words) && |OrderOf(lens, base).lens| <= 1
    requires MAX_LENGTH <= |s| && Hufts.Decodes(lens, s, i)
    ensures Read(words, 0, s) == Some(Found(base + i, lens[i]))
  {
    hide Ordered, Codes, Kraft, Pow2, U, Hufts.NextCode, Hufts.Rank, Hufts.Count, Index, Msb, Total, Place;
    CodeFacts(lens, base);
    IndexIs(lens, i, MAX_LENGTH, base);
    OnlyLength(lens, base, i);
    OneWord(words, OrderOf(lens, base).syms[0], s);
  }

  lemma OneWord(words: seq<nat>, sym: nat, s: seq<bool>)
    requires words != [] && words[0] == Half(sym) * 0x1_0001 && s != [] && sym < 0x8000
    ensures Read(words, 0, s) == Some(Found(sym, 1))
  {
    assert words[0] / 0x1_0000 == Half(sym) && words[0] % 0x1_0000 == Half(sym);
  }

  lemma OnlyLength(lens: seq<nat>, base: nat, i: nat)
    requires IsCode(lens) && i < |lens| && lens[i] > 0 && |OrderOf(lens, base).lens| <= 1
    ensures lens[i] == 1
  {
    hide Ordered, Codes, Kraft, Pow2, U, Total, Index;
    TotalParts(lens, 0, i);
    if AllShort(lens) && Kraft(lens) == Pow2(MAX_LENGTH) {
      KraftIsSpace(lens);
      SpaceIsPlace(lens, MAX_LENGTH, base);
      IndexIs(lens, i, MAX_LENGTH, base);
      UBound(lens[i]);
      OnePlace(OrderOf(lens, base).lens);
    }
  }

  lemma OnePlace(lens: seq<nat>)
    requires |lens| == 1
    ensures Place(lens, 1) == U(MAX_LENGTH, lens[0])
  {
    assert Place(lens, 0) == 0;
  }

  // ---------- a table that is accepted and not decoded rightly ----------

  lemma {:induction false} KraftSame(k: nat, n: nat)
    requires 0 < k <= MAX_LENGTH
    ensures Kraft(Same(k, n)) == n * U(MAX_LENGTH, k)
  {
    if n > 0 {
      KraftSame(k, n - 1);
      assert Same(k, n)[..n - 1] == Same(k, n - 1);
      Plus(n - 1, 1, U(MAX_LENGTH, k));
    }
  }

  lemma {:induction false} PlaceOfSame(lens: seq<nat>, k: nat, i: nat)
    requires i <= |lens| && forall x :: 0 <= x < |lens| ==> lens[x] == k
    ensures Place(lens, i) == i * U(MAX_LENGTH, k)
  {
    if i > 0 {
      PlaceOfSame(lens, k, i - 1);
      Plus(i - 1, 1, U(MAX_LENGTH, k));
    }
  }

  lemma {:induction false} NonZeroSame(k: nat, n: nat)
    requires 0 < k
    ensures NonZero(Same(k, n)) == n
  {
    if n > 0 {
      NonZeroSame(k, n - 1);
      assert Same(k, n)[..n - 1] == Same(k, n - 1);
    }
  }

  lemma Powers15()
    ensures Pow2(1) == 2 && U(MAX_LENGTH, 15) == 4096 && U(MAX_LENGTH, 1) == 0x400_0000 && U(MAX_LENGTH, 0) == Pow2(MAX_LENGTH) == 0x800_0000
  {
    assert Pow2(4) == 16;
    PowAdd(4, 4);
    PowAdd(8, 4);
    PowAdd(12, 12);
    PowAdd(24, 2);
    PowAdd(26, 1);
  }

  /** All 32768 symbols with codes of 15 bits: the half with the ones is 16384 words away from the root. */
  lemma ManyCodesAreWrong(words: seq<nat>)
    requires Built(Same(15, MAX_CODES), 0, words)
    ensures IsCode(Same(15, MAX_CODES)) && !RightTree(Same(15, MAX_CODES), 0, words)
  {
    hide Ordered, Codes, Kraft, Pow2, U, Total, Place, Built, RightTree;
    var lens := Same(15, MAX_CODES);
    Powers15();
    KraftSame(15, MAX_CODES);
    CodesIsNonZero(lens);
    NonZeroSame(15, MAX_CODES);
    var q := OrderOf(lens, 0);
    forall x | 0 <= x < |q.lens| ensures q.lens[x] == 15 {
      OrderedIs(lens, MAX_LENGTH, 0, x);
    }
    PlaceOfSame(q.lens, 15, 0);
    PlaceOfSame(q.lens, 15, 0x4000);
    PlaceOfSame(q.lens, 15, 0x8000);
    assert Fork(q, 0, 0, 0, 0x4000, 0x8000);
    BuiltIsRightIff(lens, 0, words);
  }

  /** Tables of up to 16385 symbols are decoded rightly. */
  lemma FewCodesAreRight(lens: seq<nat>, base: nat, words: seq<nat>)
    requires IsCode(lens) && base + |lens| <= MAX_CODES && Built(lens, base, words) && |lens| <= 0x4001
    ensures RightTree(lens, base, words)
  {
    hide Ordered, Codes, Kraft, Pow2, U, Total, Place, Built, RightTree, Narrow;
    CodeFacts(lens, base);
    FewCodes(lens);
    OrderShort(lens, base);
    FewIsNarrow(OrderOf(lens, base));
    BuiltIsRightIff(lens, base, words);
  }
}
