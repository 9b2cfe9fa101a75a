/** The symbols of a list of code lengths in the order of their canonical codes. */
module CodeOrders {
  import opened BitStrings
  import opened HuffTrees
  import Hufts

  /** The symbols with a code of k bits. */
  function Symbols(lens: seq<nat>, k: nat): (r: seq<nat>)
    ensures |r| == Hufts.Count(lens, k)
    ensures forall t :: 0 <= t < |r| ==> r[t] < |lens| && lens[r[t]] == k
  {
    if lens == [] then []
    else
      var n := |lens| - 1;
      Symbols(lens[..n], k) + if lens[n] == k then [n] else []
  }

  lemma {:induction false} SymbolAt(lens: seq<nat>, i: nat)
    requires i < |lens|
    ensures Hufts.Rank(lens, i) < |Symbols(lens, lens[i])| && Symbols(lens, lens[i])[Hufts.Rank(lens, i)] == i
  {
    var n := |lens| - 1;
    Hufts.RankBound(lens, i);
    if i < n {
      SymbolAt(lens[..n], i);
      assert lens[..n][..i] == lens[..i];
    }
  }

  /** The number of symbols with codes of 1 to k bits. */
  function Codes(lens: seq<nat>, k: nat): nat {
    if k == 0 then 0 else Codes(lens, k - 1) + Hufts.Count(lens, k)
  }

  function Same(k: nat, n: nat): (r: seq<nat>)
    ensures |r| == n && forall i :: 0 <= i < n ==> r[i] == k
  {
    seq(n, i => k)
  }

  function Shifted(s: seq<nat>, base: nat): (r: seq<nat>)
    ensures |r| == |s| && forall i :: 0 <= i < |s| ==> r[i] == base + s[i]
  {
    seq(|s|, i requires 0 <= i < |s| => base + s[i])
  }

  /** The symbols with codes of 1 to k bits, in code order; the first symbol is called base. */
  function Ordered(lens: seq<nat>, k: nat, base: nat): (q: Order)
    ensures |q.syms| == |q.lens| == Codes(lens, k)
  {
    if k == 0 then Order([], [])
    else
      var q := Ordered(lens, k - 1, base);
      Order(q.syms + Shifted(Symbols(lens, k), base), q.lens + Same(k, Hufts.Count(lens, k)))
  }

  function OrderOf(lens: seq<nat>, base: nat): Order {
    Ordered(lens, MAX_LENGTH, base)
  }

  /** What the order says at index x of the codes of up to k bits. */
  lemma OrderedAt(lens: seq<nat>, k: nat, base: nat, x: nat)
    requires k > 0 && x < Codes(lens, k)
    ensures var q, p, t := Ordered(lens, k, base), Ordered(lens, k - 1, base), x - Codes(lens, k - 1);
      if t < 0 then q.syms[x] == p.syms[x] && q.lens[x] == p.lens[x]
      else t < Hufts.Count(lens, k) && q.syms[x] == base + Symbols(lens, k)[t] && q.lens[x] == k
  {
    hide Hufts.Count, Symbols;
  }

  lemma OrderedNext(lens: seq<nat>, k: nat, base: nat)
    requires k > 0
    ensures Ordered(lens, k, base).lens == Ordered(lens, k - 1, base).lens + Same(k, Hufts.Count(lens, k))
    ensures Codes(lens, k) == Codes(lens, k - 1) + Hufts.Count(lens, k)
  {
  }

  /** The place of symbol i in code order. */
  function Index(lens: seq<nat>, i: nat): nat
    requires i < |lens| && lens[i] > 0
  {
    Codes(lens, lens[i] - 1) + Hufts.Rank(lens, i)
  }

  lemma {:induction false} IndexIs(lens: seq<nat>, i: nat, k: nat, base: nat)
    requires i < |lens| && 0 < lens[i] <= k
    ensures var q := Ordered(lens, k, base); Index(lens, i) < |q.syms| && q.syms[Index(lens, i)] == base + i && q.lens[Index(lens, i)] == lens[i]
    decreases k
  {
    hide Ordered, Symbols, Hufts.Count, Hufts.Rank, Codes;
    OrderedNext(lens, k, base);
    if lens[i] == k {
      SymbolAt(lens, i);
    } else {
      IndexIs(lens, i, k - 1, base);
    }
    OrderedAt(lens, k, base, Index(lens, i));
  }

  /** Everything in the order is a symbol with its length. */
  lemma {:induction false} OrderedIs(lens: seq<nat>, k: nat, base: nat, x: nat)
    requires x < Codes(lens, k)
    ensures var q := Ordered(lens, k, base);
      base <= q.syms[x] < base + |lens| && q.lens[x] == lens[q.syms[x] - base] && 1 <= q.lens[x] <= k
    decreases k
  {
    hide Ordered, Symbols, Hufts.Count, Codes;
    NoCodes(lens);
    OrderedAt(lens, k, base, x);
    if x < Codes(lens, k - 1) {
      OrderedIs(lens, k - 1, base, x);
    }
  }

  lemma {:induction false} SymbolRank(lens: seq<nat>, k: nat, t: nat)
    requires t < Hufts.Count(lens, k)
    ensures Hufts.Rank(lens, Symbols(lens, k)[t]) == t
  {
    var n := |lens| - 1;
    var a := lens[..n];
    if t < Hufts.Count(a, k) {
      SymbolRank(a, k, t);
      assert a[..Symbols(a, k)[t]] == lens[..Symbols(a, k)[t]];
    }
  }

  /** No symbol is in the order twice. */
  lemma {:induction false} IndexOf(lens: seq<nat>, k: nat, base: nat, x: nat)
    requires x < Codes(lens, k)
    ensures var i := Ordered(lens, k, base).syms[x] - base; 0 <= i < |lens| && lens[i] > 0 && Index(lens, i) == x
    decreases k
  {
    hide Ordered, Symbols, Hufts.Count, Hufts.Rank, Codes;
    NoCodes(lens);
    OrderedAt(lens, k, base, x);
    OrderedIs(lens, k, base, x);
    if x < Codes(lens, k - 1) {
      IndexOf(lens, k - 1, base, x);
    } else {
      SymbolRank(lens, k, x - Codes(lens, k - 1));
    }
  }

  /** The number of symbols that have a code. */
  function NonZero(lens: seq<nat>): nat {
    if lens == [] then 0 else NonZero(lens[..|lens| - 1]) + if lens[|lens| - 1] > 0 then 1 else 0
  }

  lemma {:induction false} CodesLast(lens: seq<nat>, k: nat)
    requires lens != []
    ensures Codes(lens, k) == Codes(lens[..|lens| - 1], k) + if 0 < lens[|lens| - 1] <= k then 1 else 0
  {
    if k > 0 {
      CodesLast(lens, k - 1);
    }
  }

  lemma {:induction false} CodesIsNonZero(lens: seq<nat>)
    requires forall i :: 0 <= i < |lens| ==> lens[i] <= MAX_LENGTH
    ensures Codes(lens, MAX_LENGTH) == NonZero(lens)
  {
    if lens == [] {
      NoneCoded(MAX_LENGTH);
    } else {
      CodesIsNonZero(lens[..|lens| - 1]);
      CodesLast(lens, MAX_LENGTH);
    }
  }

  lemma {:induction false} NoneCoded(k: nat)
    ensures Codes([], k) == 0
  {
    if k > 0 {
      NoneCoded(k - 1);
    }
  }

  /** Which of the codes have at most k bits. */
  lemma {:induction false} LevelIs(lens: seq<nat>, k: nat, n: nat, base: nat, x: nat)
    requires k <= n && x < Codes(lens, n)
    ensures Ordered(lens, n, base).lens[x] <= k <==> x < Codes(lens, k)
    decreases n
  {
    if x < Codes(lens, n - 1) && k < n {
      LevelIs(lens, k, n - 1, base, x);
    } else if k < n {
      CodesMono(lens, k, n - 1);
    } else {
      OrderedIs(lens, n, base, x);
    }
  }

  lemma {:induction false} CodesMono(lens: seq<nat>, a: nat, b: nat)
    requires a <= b
    ensures Codes(lens, a) <= Codes(lens, b)
  {
    if a < b {
      CodesMono(lens, a, b - 1);
    }
  }

  lemma NoCodes(lens: seq<nat>)
    ensures Codes(lens, 0) == 0
  {
  }

  lemma CodesNext(lens: seq<nat>, k: nat)
    requires k > 0
    ensures Codes(lens, k) == Codes(lens, k - 1) + Hufts.Count(lens, k)
  {
  }

  lemma LengthsRise(lens: seq<nat>, base: nat, i: nat, j: nat)
    requires i < j < Codes(lens, MAX_LENGTH)
    ensures OrderOf(lens, base).lens[i] <= OrderOf(lens, base).lens[j]
  {
    var k := OrderOf(lens, base).lens[j];
    OrderedIs(lens, MAX_LENGTH, base, j);
    LevelIs(lens, k, MAX_LENGTH, base, j);
    LevelIs(lens, k, MAX_LENGTH, base, i);
  }

  // ---------- the places of the codes ----------

  lemma {:induction false} PlacePrefix(a: seq<nat>, b: seq<nat>, i: nat)
    requires i <= |a|
    ensures Place(a + b, i) == Place(a, i)
  {
    if i > 0 {
      PlacePrefix(a, b, i - 1);
    }
  }

  lemma {:induction false} PlaceSame(a: seq<nat>, k: nat, n: nat, t: nat)
    requires t <= n
    ensures Place(a + Same(k, n), |a| + t) == Place(a, |a|) + t * U(MAX_LENGTH, k)
  {
    if t == 0 {
      PlacePrefix(a, Same(k, n), |a|);
    } else {
      PlaceSame(a, k, n, t - 1);
      assert t * U(MAX_LENGTH, k) == (t - 1) * U(MAX_LENGTH, k) + U(MAX_LENGTH, k);
    }
  }

  /** The t-th code of k bits is the number that section 3.2.2 of RFC 1951 gives it. */
  lemma {:induction false} PlaceIs(lens: seq<nat>, k: nat, base: nat, t: nat)
    requires 1 <= k <= MAX_LENGTH && t <= Hufts.Count(lens, k)
    ensures Place(Ordered(lens, k, base).lens, Codes(lens, k - 1) + t) == (Hufts.NextCode(lens, k) + t) * U(MAX_LENGTH, k)
    decreases k
  {
    hide U, Ordered, Hufts.Count, Hufts.NextCode, Place, Codes, Same;
    var a := Ordered(lens, k - 1, base).lens;
    OrderedNext(lens, k, base);
    PlaceSame(a, k, Hufts.Count(lens, k), t);
    Plus(Hufts.NextCode(lens, k), t, U(MAX_LENGTH, k));
    if k == 1 {
      FirstPlace(lens, base);
    } else {
      OrderedNext(lens, k - 1, base);
      PlaceIs(lens, k - 1, base, Hufts.Count(lens, k - 1));
      Doubled(lens, k);
    }
  }

  /** The first code of k bits is where the codes of k - 1 bits end. */
  lemma Doubled(lens: seq<nat>, k: nat)
    requires 1 < k <= MAX_LENGTH
    ensures Hufts.NextCode(lens, k) * U(MAX_LENGTH, k) == (Hufts.NextCode(lens, k - 1) + Hufts.Count(lens, k - 1)) * U(MAX_LENGTH, k - 1)
  {
    UHalf(k - 1);
    assert Hufts.NextCode(lens, k) == 2 * (Hufts.NextCode(lens, k - 1) + Hufts.Count(lens, k - 1));
    hide U, Hufts.NextCode, Hufts.Count;
    TwiceMore(Hufts.NextCode(lens, k - 1) + Hufts.Count(lens, k - 1), 0, U(MAX_LENGTH, k));
  }

  lemma FirstPlace(lens: seq<nat>, base: nat)
    ensures Codes(lens, 0) == 0 && Ordered(lens, 0, base).lens == [] && Place([], 0) == 0
    ensures Hufts.NextCode(lens, 1) * U(MAX_LENGTH, 1) == 0
  {
    NoTimes(U(MAX_LENGTH, 1));
  }

  lemma NoTimes(u: nat)
    ensures 0 * u == 0
  {
  }

  lemma Plus(a: nat, b: nat, u: nat)
    ensures (a + b) * u == a * u + b * u
  {
  }

  lemma {:induction false} PlaceLater(lens: seq<nat>, k: nat, n: nat, base: nat, x: nat)
    requires k <= n && x <= Codes(lens, k)
    ensures x <= Codes(lens, n) && Place(Ordered(lens, n, base).lens, x) == Place(Ordered(lens, k, base).lens, x)
    decreases n
  {
    hide U, Place, Same, Hufts.Count, Symbols, Ordered, Codes;
    if k < n {
      OrderedNext(lens, n, base);
      PlaceLater(lens, k, n - 1, base, x);
      PlacePrefix(Ordered(lens, n - 1, base).lens, Same(n, Hufts.Count(lens, n)), x);
    }
  }

  lemma PlaceOfSymbol(lens: seq<nat>, i: nat, base: nat)
    requires i < |lens| && 0 < lens[i] <= MAX_LENGTH
    ensures Index(lens, i) < Codes(lens, MAX_LENGTH)
    ensures Place(OrderOf(lens, base).lens, Index(lens, i)) == (Hufts.NextCode(lens, lens[i]) + Hufts.Rank(lens, i)) * U(MAX_LENGTH, lens[i])
  {
    hide U, Place, Hufts.Count, Hufts.NextCode, Hufts.Rank, Ordered;
    Hufts.RankBound(lens, i);
    CodesNext(lens, lens[i]);
    CodesMono(lens, lens[i], MAX_LENGTH);
    hide Codes;
    PlaceIs(lens, lens[i], base, Hufts.Rank(lens, i));
    PlaceLater(lens, lens[i], MAX_LENGTH, base, Index(lens, i));
  }

  /** A stream begins with code x if and only if it decodes to the x-th symbol. */
  lemma BeginsIsDecodes(lens: seq<nat>, i: nat, base: nat, s: seq<bool>)
    requires i < |lens| && 0 < lens[i] <= MAX_LENGTH <= |s|
    ensures Begins(OrderOf(lens, base), s, Index(lens, i)) <==> Hufts.Decodes(lens, s, i)
  {
    var k := lens[i];
    IndexIs(lens, i, MAX_LENGTH, base);
    PlaceOfSymbol(lens, i, base);
    InOwnPrefix(MAX_LENGTH, s, k);
    hide X, U, Place, OrderOf, Hufts.NextCode, Hufts.Rank;
    if Begins(OrderOf(lens, base), s, Index(lens, i)) {
      SameQuotient(Hufts.NextCode(lens, k) + Hufts.Rank(lens, i), Msb(s[..k]), U(MAX_LENGTH, k), X(MAX_LENGTH, s));
    }
  }

  // ---------- how much of the code space is used ----------

  function Kraft(lens: seq<nat>): nat {
    if lens == [] then 0
    else Kraft(lens[..|lens| - 1]) + if lens[|lens| - 1] > 0 then U(MAX_LENGTH, lens[|lens| - 1]) else 0
  }

  function Space(lens: seq<nat>, k: nat): nat {
    if k == 0 then 0 else Space(lens, k - 1) + Hufts.Count(lens, k) * U(MAX_LENGTH, k)
  }

  lemma {:induction false} SpaceIsPlace(lens: seq<nat>, k: nat, base: nat)
    requires k <= MAX_LENGTH
    ensures Place(Ordered(lens, k, base).lens, Codes(lens, k)) == Space(lens, k)
  {
    hide U, Place, Same, Hufts.Count, Symbols;
    if k == 0 {
      FirstPlace(lens, base);
    } else {
      OrderedNext(lens, k, base);
      SpaceIsPlace(lens, k - 1, base);
      hide Ordered;
      PlaceSame(Ordered(lens, k - 1, base).lens, k, Hufts.Count(lens, k), Hufts.Count(lens, k));
    }
  }

  lemma {:induction false} SpaceLast(lens: seq<nat>, k: nat)
    requires lens != []
    ensures Space(lens, k) == Space(lens[..|lens| - 1], k) + if 0 < lens[|lens| - 1] <= k then U(MAX_LENGTH, lens[|lens| - 1]) else 0
  {
    if k > 0 {
      SpaceLast(lens, k - 1);
      var n := |lens| - 1;
      hide U;
      Plus(Hufts.Count(lens[..n], k), if lens[n] == k then 1 else 0, U(MAX_LENGTH, k));
    }
  }

  lemma {:induction false} KraftIsSpace(lens: seq<nat>)
    requires forall i :: 0 <= i < |lens| ==> lens[i] <= MAX_LENGTH
    ensures Kraft(lens) == Space(lens, MAX_LENGTH)
  {
    if lens == [] {
      NoSpace(MAX_LENGTH);
    } else {
      KraftIsSpace(lens[..|lens| - 1]);
      SpaceLast(lens, MAX_LENGTH);
    }
  }

  lemma {:induction false} NoSpace(k: nat)
    ensures Space([], k) == 0
  {
    if k > 0 {
      NoSpace(k - 1);
    }
  }
}
