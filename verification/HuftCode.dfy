/** The code space a list of code lengths divides up, and the multi-level decoding tables over it. */
module HuftCodes {
  import opened BitStrings

  const BMAX: nat := 16

  /** What the value table says about one code: an entry flag and value, or nothing because that cell of the
      table was never written. */
  datatype Filling = Stale | Filling(e: nat, n: nat)

  /** The number of codes of each length, with the gap at the greatest length g closed by dummy codes, the
      index width l of the tables, and the value of every code in code order. */
  datatype Book = Book(cc: seq<nat>, g: nat, l: nat, fill: seq<Filling>)

  // ---------- the code space 0..2^g ----------

  /** The code space used up by the codes of at most k bits. */
  function E(c: Book, k: nat): (r: nat)
    requires |c.cc| == BMAX + 1 && c.g <= BMAX
  {
    if k == 0 then 0
    else if k > c.g then E(c, k - 1)
    else E(c, k - 1) + c.cc[k] * U(c.g, k)
  }

  /** The value of the first code of k bits. */
  function First(c: Book, k: nat): nat
    requires |c.cc| == BMAX + 1 && k <= BMAX
  {
    if k <= 1 then 0 else 2 * (First(c, k - 1) + c.cc[k - 1])
  }

  /** The number of codes shorter than k bits. */
  function Off(c: Book, k: nat): nat
    requires |c.cc| == BMAX + 1 && k <= BMAX + 1
  {
    if k <= 1 then 0 else Off(c, k - 1) + c.cc[k - 1]
  }

  /** Where the t-th code of k bits starts. */
  function Pos(c: Book, k: nat, t: nat): nat
    requires |c.cc| == BMAX + 1 && k <= BMAX
  {
    (First(c, k) + t) * U(c.g, k)
  }

  ghost predicate Valid(c: Book) {
    && |c.cc| == BMAX + 1
    && 1 <= c.l <= c.g <= BMAX
    && E(c, c.g) == Pow2(c.g)
    && |c.fill| == Off(c, c.g + 1)
  }

  lemma {:induction false} EMono(c: Book, a: nat, b: nat)
    requires |c.cc| == BMAX + 1 && c.g <= BMAX && a <= b
    ensures E(c, a) <= E(c, b)
  {
    if a < b {
      EMono(c, a, b - 1);
    }
  }

  lemma {:induction false} EBeyond(c: Book, k: nat)
    requires |c.cc| == BMAX + 1 && c.g <= k && c.g <= BMAX
    ensures E(c, k) == E(c, c.g)
  {
    if k > c.g {
      EBeyond(c, k - 1);
    }
  }

  lemma UHalf(g: nat, k: nat)
    requires 1 <= k <= g
    ensures U(g, k - 1) == 2 * U(g, k)
  {
  }

  lemma Twice(a: nat, u: nat)
    ensures (2 * a) * u == a * (2 * u)
  {
  }

  lemma Distribute(a: nat, b: nat, u: nat)
    ensures (a + b) * u == a * u + b * u
  {
  }

  /** The codes of k bits start where the shorter ones end. */
  lemma {:induction false} FirstIsE(c: Book, k: nat)
    requires |c.cc| == BMAX + 1 && 1 <= k <= c.g <= BMAX
    ensures First(c, k) * U(c.g, k) == E(c, k - 1)
  {
    if k > 1 {
      FirstIsE(c, k - 1);
      UHalf(c.g, k);
      Twice(First(c, k - 1) + c.cc[k - 1], U(c.g, k));
      Distribute(First(c, k - 1), c.cc[k - 1], U(c.g, k - 1));
    }
  }

  lemma PosIsE(c: Book, k: nat, t: nat)
    requires |c.cc| == BMAX + 1 && 1 <= k <= c.g <= BMAX
    ensures Pos(c, k, t) == E(c, k - 1) + t * U(c.g, k)
    ensures Pos(c, k, t + 1) == Pos(c, k, t) + U(c.g, k)
    ensures Pos(c, k, c.cc[k]) == E(c, k)
  {
    FirstIsE(c, k);
    Distribute(First(c, k), t, U(c.g, k));
    Distribute(First(c, k) + t, 1, U(c.g, k));
    Distribute(First(c, k), c.cc[k], U(c.g, k));
  }

  lemma PosBounds(c: Book, k: nat, t: nat)
    requires Valid(c) && 1 <= k <= c.g && t < c.cc[k]
    ensures E(c, k - 1) <= Pos(c, k, t)
    ensures Pos(c, k, t) + U(c.g, k) <= E(c, k) <= Pow2(c.g)
  {
    PosIsE(c, k, t);
    MulLess(t, c.cc[k], U(c.g, k));
    EMono(c, k, c.g);
  }

  /** The t-th code of k bits is a prefix of the stream s. */
  ghost predicate InCode(c: Book, s: seq<bool>, k: nat, t: nat) {
    && |c.cc| == BMAX + 1 && c.g <= BMAX && c.g <= |s|
    && 1 <= k <= c.g && t < c.cc[k]
    && Pos(c, k, t) <= X(c.g, s) < Pos(c, k, t) + U(c.g, k)
  }

  lemma InCodeUnique(c: Book, s: seq<bool>, k: nat, t: nat, k': nat, t': nat)
    requires Valid(c) && InCode(c, s, k, t) && InCode(c, s, k', t')
    ensures k == k' && t == t'
  {
    PosBounds(c, k, t);
    PosBounds(c, k', t');
    if k < k' {
      EMono(c, k, k' - 1);
    } else if k' < k {
      EMono(c, k', k - 1);
    } else {
      SameQuotient(First(c, k) + t, First(c, k) + t', U(c.g, k), X(c.g, s));
    }
  }

  /** Every stream has a code, dummy codes included. */
  lemma SomeCode(c: Book, s: seq<bool>) returns (k: nat, t: nat)
    requires Valid(c) && c.g <= |s|
    ensures InCode(c, s, k, t)
  {
    k := SomeLength(c, X(c.g, s), c.g);
    var d: nat := X(c.g, s) - E(c, k - 1);
    assert d < c.cc[k] * U(c.g, k);
    hide U, E, X;
    t := DivBounds(d, U(c.g, k), c.cc[k]);
    PosIsE(c, k, t);
  }

  lemma DivBounds(d: nat, u: nat, n: nat) returns (t: nat)
    requires u > 0 && d < n * u
    ensures t < n && t * u <= d < t * u + u
  {
    t := d / u;
    if n <= t {
      MulMono(n, t, u);
    }
  }

  lemma {:induction false} SomeLength(c: Book, x: nat, k0: nat) returns (k: nat)
    requires |c.cc| == BMAX + 1 && 1 <= c.g <= BMAX && k0 <= c.g && x < E(c, k0)
    ensures 1 <= k <= c.g && E(c, k - 1) <= x < E(c, k)
  {
    if x < E(c, k0 - 1) {
      k := SomeLength(c, x, k0 - 1);
    } else {
      k := k0;
    }
  }

  lemma MulMono(a: nat, b: nat, c: nat)
    requires a <= b
    ensures a * c <= b * c
  {
    if a < b {
      MulLess(a, b, c);
    }
  }

  /** A stream runs through the t-th code of k bits if and only if its first k bits have the code's value. */
  lemma InCodeIsPrefix(c: Book, s: seq<bool>, k: nat, t: nat)
    requires Valid(c) && c.g <= |s| && 1 <= k <= c.g && t < c.cc[k]
    ensures InCode(c, s, k, t) <==> Msb(s[..k]) == First(c, k) + t
  {
    InOwnPrefix(c.g, s, k);
    if InCode(c, s, k, t) {
      SameQuotient(First(c, k) + t, Msb(s[..k]), U(c.g, k), X(c.g, s));
    }
  }

  // ---------- decoding tables ----------

  /** One table cell: never written, a value with the number of bits to drop, or a link to a further table. */
  datatype Entry = Unset | Data(b: nat, e: nat, n: nat) | Link(b: nat, e: nat, t: nat)

  datatype Result = Garbage | Invalid | Found(e: nat, n: nat, bits: nat)

  /** The loop of the decoder: index with q bits, drop the bits of the entry, follow links. */
  function Walk(tabs: seq<seq<Entry>>, t: nat, q: nat, s: seq<bool>, w: nat): Result
    decreases |tabs| - t
  {
    if t >= |tabs| || w + q > |s| || Val(s[w..w + q]) >= |tabs[t]| then Garbage else
    match tabs[t][Val(s[w..w + q])]
    case Unset => Garbage
    case Data(b, e, n) => if b > q then Garbage else if e == 99 then Invalid else Found(e, n, w + b)
    case Link(b, e, t') => if b > q || e <= 16 || e > 16 + BMAX + 1 || t' <= t then Garbage else Walk(tabs, t', e - 16, s, w + b)
  }

  function EntryOf(f: Filling, b: nat): Entry {
    match f
    case Stale => Unset
    case Filling(e, n) => Data(b, e, n)
  }

  function ResultOf(f: Filling, k: nat): Result {
    match f
    case Stale => Garbage
    case Filling(e, n) => if e == 99 then Invalid else Found(e, n, k)
  }

  /** What is known about a table: the code prefix it decodes behind, and the width of its index. */
  datatype Info = Info(pre: seq<bool>, j: nat)

  /** Streams are taken long enough for every look-up. */
  const LONG: nat := 64

  /** The number of bits the decoder looks up table T with: l for the first table, and for any other the
      number the link to it carries. */
  function Look(c: Book, info: seq<Info>, T: nat): nat
    requires T < |info|
  {
    if T == 0 then c.l else info[T].j
  }

  ghost predicate Shape(c: Book, tabs: seq<seq<Entry>>, info: seq<Info>) {
    && |info| == |tabs|
    && forall T {:trigger info[T]} :: 0 <= T < |tabs| ==>
         && |info[T].pre| < c.g && 1 <= info[T].j <= BMAX + 1 && |tabs[T]| == Pow2(info[T].j)
         && (T == 0 ==> info[T].pre == [] && c.l <= info[T].j)
  }

  /** The entry that stream s finds in table T is the right one: the value of the code s starts with, or a
      link to a table for a longer prefix of s. */
  ghost predicate GoodEntry(c: Book, tabs: seq<seq<Entry>>, info: seq<Info>, T: nat, s: seq<bool>)
    requires |s| >= LONG && |info| == |tabs| && T < |tabs|
  {
    var w, q := |info[T].pre|, Look(c, info, T);
    && w + q <= |s| && Val(s[w..w + q]) < |tabs[T]|
    && match tabs[T][Val(s[w..w + q])]
       case Link(b, e, t) =>
         && T < t < |tabs| && b <= q && info[t].pre == s[..w + b] && e == 16 + info[t].j && 1 <= info[t].j <= BMAX + 1
       case x => exists k: nat, t: nat :: InCode(c, s, k, t) && CodeEntry(c, k, t, w, q, x)
  }

  /** x is the entry for the t-th code of k bits in a table behind w bits that is looked up with q bits. */
  ghost predicate CodeEntry(c: Book, k: nat, t: nat, w: nat, q: nat, x: Entry) {
    && |c.cc| == BMAX + 1 && w < k <= BMAX + 1 && k <= w + q && Off(c, k) + t < |c.fill|
    && x == EntryOf(c.fill[Off(c, k) + t], k - w)
  }

  /** No linking table in front of the codes of k bits is too wide: behind no multiple w of l bits, more than l before
      the end of these codes, does a whole w-bit subtree lie beyond the codes shorter than w + l. */
  ghost predicate NarrowTo(c: Book, k: nat)
    requires |c.cc| == BMAX + 1 && c.g <= BMAX && 1 <= c.l
  {
    forall w: nat {:trigger w % c.l} :: 0 < w && w % c.l == 0 && w + c.l < k && w + c.l < c.g ==>
      Pow2(c.g) - E(c, w + c.l - 1) < U(c.g, w)
  }

  /** No table on the way of the code that s starts with is too wide. */
  ghost predicate Plain(c: Book, s: seq<bool>) {
    && |c.cc| == BMAX + 1 && c.g <= BMAX && 1 <= c.l
    && forall k: nat, t: nat {:trigger InCode(c, s, k, t)} :: InCode(c, s, k, t) ==> NarrowTo(c, k)
  }

  lemma PlainIs(c: Book, s: seq<bool>, k: nat, t: nat)
    requires Valid(c) && InCode(c, s, k, t) && NarrowTo(c, k)
    ensures Plain(c, s)
  {
    hide InCode, NarrowTo;
    forall k': nat, t': nat | InCode(c, s, k', t') ensures NarrowTo(c, k') {
      InCodeUnique(c, s, k, t, k', t');
    }
  }

  /** Every stream that lies before P, and meets no table that is too wide, finds good entries. */
  ghost predicate GoodTo(c: Book, tabs: seq<seq<Entry>>, info: seq<Info>, P: nat)
    requires |info| == |tabs|
  {
    forall T: nat, s {:trigger GoodEntry(c, tabs, info, T, s)} ::
      T < |tabs| && |s| >= LONG && c.g <= |s| && |info[T].pre| <= |s| && s[..|info[T].pre|] == info[T].pre && X(c.g, s) < P && Plain(c, s)
      ==> GoodEntry(c, tabs, info, T, s)
  }

  /** Good entries everywhere make the walk return the value and the length of the code. */
  lemma {:induction false} WalkIsCode(c: Book, tabs: seq<seq<Entry>>, info: seq<Info>, T: nat, s: seq<bool>, k: nat, t: nat)
    requires Valid(c) && Shape(c, tabs, info) && GoodTo(c, tabs, info, Pow2(c.g))
    requires T < |tabs| && |s| >= LONG && s[..|info[T].pre|] == info[T].pre
    requires InCode(c, s, k, t) && Off(c, k) + t < |c.fill| && Plain(c, s)
    ensures Walk(tabs, T, Look(c, info, T), s, |info[T].pre|) == ResultOf(c.fill[Off(c, k) + t], k)
    decreases |tabs| - T
  {
    hide InCode, E, Off, Val, U, Plain;
    assert GoodEntry(c, tabs, info, T, s);
    var w, q := |info[T].pre|, Look(c, info, T);
    var x := tabs[T][Val(s[w..w + q])];
    if x.Link? {
      assert |info[x.t].pre| == w + x.b;
      WalkIsCode(c, tabs, info, x.t, s, k, t);
    } else {
      var k': nat, t': nat :| InCode(c, s, k', t') && CodeEntry(c, k', t', w, q, x);
      InCodeUnique(c, s, k, t, k', t');
    }
  }
}
