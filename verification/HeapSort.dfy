/** The in-place heap sort of the pointer arrays: one merged loop that first builds the heap and then
    takes it apart, sifting a hole down instead of swapping. */
module HeapSorts {

  /** One call of the comparison. */
  function Cmp<T>(order: (T, T) -> int, x: T, y: T): int {
    order(x, y)
  }

  predicate AntisymmetricAt<T>(order: (T, T) -> int, x: T, y: T) {
    order(x, y) > 0 <==> order(y, x) < 0
  }

  predicate TransitiveAt<T>(order: (T, T) -> int, x: T, y: T, z: T) {
    order(x, y) <= 0 && order(y, z) <= 0 ==> order(x, z) <= 0
  }

  /** What a caller-supplied comparison has to be: the sign tells the order, ties are allowed. */
  ghost predicate LinearOrder<T(!new)>(order: (T, T) -> int) {
    && (forall x, y :: AntisymmetricAt(order, x, y))
    && (forall x, y, z :: TransitiveAt(order, x, y, z))
  }

  ghost predicate Sorted<T>(s: seq<T>, order: (T, T) -> int) {
    forall i, j {:trigger Cmp(order, s[i], s[j])} :: 0 <= i < j < |s| ==> order(s[i], s[j]) <= 0
  }

  /** Every entry before `mid` is at most every entry from `mid` on. */
  ghost predicate Below<T>(s: seq<T>, mid: int, order: (T, T) -> int) {
    forall i, j {:trigger Cmp(order, s[i], s[j])} :: 0 <= i < mid <= j < |s| ==> Cmp(order, s[i], s[j]) <= 0
  }

  /** Entry c is a child of entry p in the implicit tree. */
  predicate ChildOf(c: int, p: int) {
    c == 2 * p + 1 || c == 2 * p + 2
  }

  /** The max-heap property of s[lo..hi]. */
  ghost predicate Heap<T>(s: seq<T>, lo: int, hi: int, order: (T, T) -> int)
    requires 0 <= lo && hi <= |s|
  {
    forall p, c :: lo <= p < hi && p < c < hi && ChildOf(c, p) ==> Cmp(order, s[c], s[p]) <= 0
  }

  /** The same with a hole at `hole` into which `v` is to go: v and everything below the hole fit under the
      parent of the hole, and every other parent dominates its children. */
  ghost predicate Holed<T>(s: seq<T>, lo: int, hi: int, hole: int, v: T, order: (T, T) -> int)
    requires 0 <= lo && hi <= |s|
  {
    && lo <= hole < hi
    && (forall p, c :: lo <= p < hi && p < c < hi && p != hole && c != hole && ChildOf(c, p) ==> Cmp(order, s[c], s[p]) <= 0)
    && (forall p, c :: lo <= p < hi && hole < c < hi && ChildOf(hole, p) && ChildOf(c, hole) ==> Cmp(order, s[c], s[p]) <= 0)
    && (forall p :: lo <= p < hi && ChildOf(hole, p) ==> Cmp(order, v, s[p]) <= 0)
  }

  /** The root of a heap is a largest element: the fact that lets the second phase move it to the end. */
  lemma {:induction false} RootIsGreatest<T(!new)>(s: seq<T>, hi: nat, k: nat, order: (T, T) -> int)
    requires LinearOrder(order) && k < hi <= |s| && Heap(s, 0, hi, order)
    ensures Cmp(order, s[k], s[0]) <= 0
  {
    if k == 0 {
      assert AntisymmetricAt(order, s[0], s[0]);
    } else {
      var p := (k - 1) / 2;
      RootIsGreatest(s, hi, p, order);
      assert ChildOf(k, p);
      assert TransitiveAt(order, s[k], s[p], s[0]);
    }
  }

  /** The child the sift looks at: the right one unless it is missing or smaller than the left one. */
  function Greater<T>(s: seq<T>, hi: int, i: nat, order: (T, T) -> int): (j: nat)
    requires hi <= |s|
    ensures ChildOf(j, i)
  {
    if 2 * i + 2 >= hi || Cmp(order, s[2 * i + 1], s[2 * i + 2]) > 0 then 2 * i + 1 else 2 * i + 2
  }

  /** Moving the greater child up into the hole. */
  lemma HoleMoves<T(!new)>(s: seq<T>, lo: nat, hi: nat, i: nat, j: nat, v: T, order: (T, T) -> int)
    requires LinearOrder(order) && hi <= |s| && Holed(s, lo, hi, i, v, order)
    requires j == Greater(s, hi, i, order) && j < hi && Cmp(order, s[j], v) > 0
    ensures Holed(s[i := s[j]], lo, hi, j, v, order)
    ensures multiset(s[i := s[j]][j := v]) == multiset(s[i := v])
  {
    var t := s[i := s[j]];
    assert s[i := s[j]][j := v] == s[i := v][i := s[j]][j := v];
    forall p, c | lo <= p < hi && p < c < hi && p != j && c != j && ChildOf(c, p)
      ensures Cmp(order, t[c], t[p]) <= 0
    {
      if p == i {
        assert AntisymmetricAt(order, s[j], s[c]) && AntisymmetricAt(order, s[c], s[j]);
      }
    }
    assert AntisymmetricAt(order, s[j], v);
    assert forall p :: ChildOf(j, p) ==> p == i;
  }

  /** Filling the hole once the greater child does not exceed the value. */
  lemma HoleFilled<T(!new)>(s: seq<T>, lo: nat, hi: nat, i: nat, v: T, order: (T, T) -> int)
    requires LinearOrder(order) && hi <= |s| && Holed(s, lo, hi, i, v, order)
    requires var j := Greater(s, hi, i, order); j >= hi || Cmp(order, s[j], v) <= 0
    ensures Heap(s[i := v], lo, hi, order)
  {
    var t := s[i := v];
    forall p, c | lo <= p < hi && p < c < hi && ChildOf(c, p)
      ensures Cmp(order, t[c], t[p]) <= 0
    {
      var j := Greater(s, hi, i, order);
      if p == i && c != j {
        assert AntisymmetricAt(order, s[j], s[c]) && AntisymmetricAt(order, s[c], s[j]);
        assert TransitiveAt(order, s[c], s[j], v);
      }
    }
  }

  /** Sift the value si, whose place is the hole at sh, down the heap a[sh..ss]. */
  method SiftDown<T(!new)>(a: array<T>, sh: nat, ss: nat, si: T, order: (T, T) -> int)
    requires LinearOrder(order)
    requires sh < ss <= a.Length
    requires Holed(a[..], sh, ss, sh, si, order)
    modifies a
    ensures Heap(a[..], sh, ss, order)
    ensures multiset(a[..]) == multiset(old(a[..])[sh := si])
    ensures a[ss..] == old(a[ss..])
  {
    hide Holed, Heap, LinearOrder;
    ghost var was := a[..];
    var ii, jj := sh, sh;
    while true
      invariant sh <= ii < ss && jj == ii
      invariant Holed(a[..], sh, ss, ii, si, order)
      invariant multiset(a[..][ii := si]) == multiset(was[sh := si])
      invariant a[ss..] == was[ss..]
      decreases ss - ii
    {
      ghost var s := a[..];
      jj := (jj + 1) * 2;
      if jj >= ss || Cmp(order, a[jj - 1], a[jj]) > 0 {
        jj := jj - 1;
      }
      assert jj == Greater(s, ss, ii, order);
      if jj >= ss || Cmp(order, a[jj], si) <= 0 {
        HoleFilled(s, sh, ss, ii, si, order);
        break;
      }
      HoleMoves(s, sh, ss, ii, jj, si, order);
      a[ii] := a[jj];
      assert a[..] == s[ii := s[jj]];
      ii := jj;
    }
    ghost var s := a[..];
    assert Heap(s[ii := si], sh, ss, order);
    a[ii] := si;
    assert a[..] == s[ii := si];
  }

  /** The loop invariant of the sort: a heap from sh to ss under a sorted tail. */
  ghost predicate Phase<T>(s: seq<T>, sh: int, ss: int, order: (T, T) -> int) {
    && 0 <= sh <= ss <= |s|
    && Heap(s, sh, ss, order)
    && Sorted(s[ss..], order)
    && Below(s, ss, order)
  }

  /** First phase: one more entry joins the heap as a hole. */
  lemma Grow<T>(s: seq<T>, sh: nat, ss: nat, order: (T, T) -> int)
    requires 0 < sh && Phase(s, sh, ss, order)
    ensures Holed(s, sh - 1, ss, sh - 1, s[sh - 1], order)
  {
  }

  /** Second phase: the root moves behind the heap and leaves a hole at 0. */
  lemma Take<T(!new)>(s: seq<T>, ss: nat, order: (T, T) -> int)
    requires LinearOrder(order) && 1 <= ss && Phase(s, 0, ss + 1, order)
    ensures var t := s[ss := s[0]];
            && Holed(t, 0, ss, 0, s[ss], order)
            && Sorted(t[ss..], order)
            && Below(t, ss, order)
            && Below(t[0 := s[ss]], ss, order)
            && multiset(t[0 := s[ss]]) == multiset(s)
  {
    forall k | 0 <= k < ss + 1 ensures Cmp(order, s[k], s[0]) <= 0 {
      RootIsGreatest(s, ss + 1, k, order);
    }
    assert s[ss := s[0]][0 := s[ss]] == s[0 := s[ss]][ss := s[0]];
    var t := s[ss := s[0]];
    assert t[ss..] == [s[0]] + s[ss + 1..];
    forall j | ss < j < |t| ensures Cmp(order, s[0], t[j]) <= 0 {
      assert t[j] == s[j];
    }
  }

  /** Permuting the front of a sequence below its tail leaves the front below the tail. */
  lemma TailStays<T(!new)>(s: seq<T>, t: seq<T>, sh: nat, ss: nat, order: (T, T) -> int)
    requires |s| == |t| && sh < ss <= |s|
    requires multiset(s) == multiset(t) && s[ss..] == t[ss..]
    requires Sorted(s[ss..], order) && Heap(t, sh, ss, order)
    requires Below(s, ss, order)
    ensures Phase(t, sh, ss, order)
  {
    hide Sorted, Heap;
    forall i, j | 0 <= i < ss <= j < |t| ensures Cmp(order, t[i], t[j]) <= 0 {
      var k := FrontHas(s, t, ss, i);
      assert t[ss..][j - ss] == s[ss..][j - ss];
      assert Cmp(order, s[k], s[j]) <= 0;
    }
  }

  /** Every value in front of the tail was in front of it before. */
  lemma FrontHas<T(!new)>(s: seq<T>, t: seq<T>, ss: nat, i: nat) returns (k: nat)
    requires |s| == |t| && i < ss <= |s| && multiset(s) == multiset(t) && s[ss..] == t[ss..]
    ensures k < ss && s[k] == t[i]
  {
    FrontOf(s, ss);
    FrontOf(t, ss);
    assert t[..ss][i] in multiset(s[..ss]);
    k :| 0 <= k < ss && s[..ss][k] == t[i];
  }

  lemma FrontOf<T(!new)>(s: seq<T>, ss: nat)
    requires ss <= |s|
    ensures multiset(s[..ss]) == multiset(s) - multiset(s[ss..])
  {
    assert s == s[..ss] + s[ss..];
  }

  /** The last step: one value is left, and it goes to the front. */
  lemma AllSorted<T>(s: seq<T>, v: T, order: (T, T) -> int)
    requires 1 <= |s| && Sorted(s[1..], order) && Below(s[0 := v], 1, order)
    ensures Sorted(s[0 := v], order)
  {
    var t := s[0 := v];
    forall i, j | 0 <= i < j < |t| ensures order(t[i], t[j]) <= 0 {
      if i == 0 {
        assert Cmp(order, t[i], t[j]) <= 0;
      } else {
        assert Cmp(order, s[1..][i - 1], s[1..][j - 1]) <= 0;
      }
    }
  }

  /** Both phases of the sort in the one loop of the source. */
  method HeapSort<T(!new)>(entries: array<T>, order: (T, T) -> int)
    requires LinearOrder(order)
    modifies entries
    ensures Sorted(entries[..], order)
    ensures multiset(entries[..]) == multiset(old(entries[..]))
  {
    var ss := entries.Length;
    if ss > 1 {
      var sh := ss / 2;
      while true
        invariant 2 <= ss <= entries.Length && 0 <= sh <= ss / 2
        invariant sh > 0 ==> ss == entries.Length
        invariant Phase(entries[..], sh, ss, order)
        invariant multiset(entries[..]) == multiset(old(entries[..]))
        decreases ss + sh
      {
        var si: T;
        ghost var was := entries[..];
        if sh != 0 {
          Grow(was, sh, ss, order);
          sh := sh - 1;
          si := entries[sh];
          assert was[sh := si] == was;
        } else {
          ss := ss - 1;
          si := entries[ss];
          Take(was, ss, order);
          entries[ss] := entries[0];
          assert entries[..] == was[ss := was[0]];
          if ss == 1 {
            AllSorted(entries[..], si, order);
            ghost var mid := entries[..];
            entries[0] := si;
            assert entries[..] == mid[0 := si];
            break;
          }
        }
        ghost var mid := entries[..];
        SiftDown(entries, sh, ss, si, order);
        assert mid[sh := si][ss..] == mid[ss..];
        TailStays(mid[sh := si], entries[..], sh, ss, order);
      }
    } else {
      assert |entries[..]| <= 1;
    }
  }
}
