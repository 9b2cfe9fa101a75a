/** The table builder for Huffman codes given by their lengths, against the canonical code of section 3.2.2
    of RFC 1951. */
module Hufts {
  import opened BitStrings
  import opened HuftCodes
  import opened HuftBuilds
  import opened HuftMakes

  const N_MAX: nat := 288

  // ---------- the canonical code ----------

  /** The number of symbols with a code of k bits. */
  function Count(lens: seq<nat>, k: nat): nat {
    if lens == [] then 0
    else Count(lens[..|lens| - 1], k) + (if lens[|lens| - 1] == k then 1 else 0)
  }

  /** The first code of k bits, as RFC 1951 computes it from the counts. */
  function NextCode(lens: seq<nat>, k: nat): nat {
    if k <= 1 then 0 else 2 * (NextCode(lens, k - 1) + Count(lens, k - 1))
  }

  /** The place of symbol i among the symbols of its length. */
  function Rank(lens: seq<nat>, i: nat): nat
    requires i < |lens|
  {
    Count(lens[..i], lens[i])
  }

  /** The code of symbol i, a number of lens[i] bits that is packed with its most significant bit first, is
      what stream s starts with. */
  ghost predicate Decodes(lens: seq<nat>, s: seq<bool>, i: nat) {
    i < |lens| && 0 < lens[i] <= |s| && Msb(s[..lens[i]]) == NextCode(lens, lens[i]) + Rank(lens, i)
  }

  /** The number of patterns of k bits that no code of at most k bits begins; negative when there are more
      codes than patterns. */
  function LeftOver(lens: seq<nat>, k: nat): int {
    Pow2(k) - (NextCode(lens, k) + Count(lens, k))
  }

  /** The flag and the value of symbol i: a literal, the end of the block, or an entry of the two lists. */
  function SymbolFilling(s: nat, d: seq<nat>, e: seq<nat>, i: nat): Filling
    requires |d| == |e| && i < s + |d|
  {
    if i < s then Filling(if i < 256 then 16 else 15, i) else Filling(e[i - s], d[i - s])
  }

  /** The walk of stream str through the tables ends as the canonical code says: with the value and the exact
      length of the symbol's code, and with the invalid marker where there is no code. */
  ghost predicate RightWalk(lens: seq<nat>, s: nat, d: seq<nat>, e: seq<nat>, l: nat, tabs: seq<seq<Entry>>, str: seq<bool>)
    requires |d| == |e| && |lens| <= s + |d|
  {
    var r := Walk(tabs, 0, l, str, 0);
    && (forall i: nat {:trigger Decodes(lens, str, i)} :: Decodes(lens, str, i) ==> r == ResultOf(SymbolFilling(s, d, e, i), lens[i]))
    && ((forall i: nat {:trigger Decodes(lens, str, i)} :: !Decodes(lens, str, i)) ==> r == Invalid)
  }

  ghost predicate RightTables(lens: seq<nat>, s: nat, d: seq<nat>, e: seq<nat>, l: nat, tabs: seq<seq<Entry>>)
    requires |d| == |e| && |lens| <= s + |d|
  {
    forall str {:trigger RightWalk(lens, s, d, e, l, tabs, str)} :: |str| >= LONG ==> RightWalk(lens, s, d, e, l, tabs, str)
  }

  // ---------- the two conditions ----------

  /** No table on the way to the codes of k bits is too wide: behind no multiple w of the index width l, more than l
      bits before their end, is there room for a whole w-bit subtree of codes of w + l and more bits. */
  ghost predicate NarrowFor(lens: seq<nat>, g: nat, l: nat, k: nat)
    requires 1 <= l
  {
    forall w: nat {:trigger w % l} :: 0 < w && w % l == 0 && w + l < k && w + l < g ==> LeftOver(lens, w + l - 1) < Pow2(l - 1)
  }

  /** No table that links on is too wide. */
  ghost predicate WideFree(lens: seq<nat>, g: nat, l: nat)
    requires 1 <= l
  {
    NarrowFor(lens, g, l, g)
  }

  /** The codes are complete or every symbol has one; otherwise unassigned codes are filled from cells of the
      value table that were never written. */
  ghost predicate StaleFree(lens: seq<nat>, g: nat) {
    LeftOver(lens, g) == 0 || Count(lens, 0) == 0
  }

  // ---------- what every single walk yields ----------

  /** The code of every symbol with no too wide table on its way is decoded to the exact length and the value: for a
      simple symbol the symbol itself, flagged 16 for a literal and 15 from 256 on, for others their list entries. */
  ghost predicate CodedRight(lens: seq<nat>, s: nat, d: seq<nat>, e: seq<nat>, g: nat, l: nat, tabs: seq<seq<Entry>>)
    requires |d| == |e| && |lens| <= s + |d| && 1 <= l
  {
    forall str, i: nat {:trigger Decodes(lens, str, i)} :: |str| >= LONG && Decodes(lens, str, i) && NarrowFor(lens, g, l, lens[i]) ==>
      Walk(tabs, 0, l, str, 0) ==
      if i < s then Found(if i < 256 then 16 else 15, i, lens[i])
      else if e[i - s] == 99 then Invalid
      else Found(e[i - s], d[i - s], lens[i])
  }

  /** Streams that begin with no code: the first unassigned codes, as many as there are symbols without a code, read
      cells never written; the others yield the invalid marker. */
  ghost predicate UncodedAs(lens: seq<nat>, g: nat, l: nat, tabs: seq<seq<Entry>>) {
    forall str {:trigger Uncoded(lens, str)} :: |str| >= LONG && g <= |str| && Uncoded(lens, str) ==>
      Walk(tabs, 0, l, str, 0) == if Msb(str[..g]) < NextCode(lens, g) + Count(lens, g) + Count(lens, 0) then Garbage else Invalid
  }

  ghost predicate Uncoded(lens: seq<nat>, str: seq<bool>) {
    forall i: nat {:trigger Decodes(lens, str, i)} :: !Decodes(lens, str, i)
  }

  /** Behind a prefix of whole index widths some stream goes on with a longer code, or with none. */
  ghost predicate NeedsTable(lens: seq<nat>, g: nat, l: nat, pre: seq<bool>) {
    && l > 0 && |pre| % l == 0 && |pre| < g
    && exists str {:trigger Runs(lens, str, pre)} :: Runs(lens, str, pre)
  }

  ghost predicate Runs(lens: seq<nat>, str: seq<bool>, pre: seq<bool>) {
    |str| >= LONG && |pre| <= |str| && str[..|pre|] == pre && forall i: nat :: Decodes(lens, str, i) ==> |pre| < lens[i]
  }

  /** At least n tables are needed: there are as many such prefixes. */
  ghost predicate NeedsTables(lens: seq<nat>, g: nat, l: nat, n: nat) {
    exists pres {:trigger Distinct(pres)} :: Distinct(pres) && |pres| == n && AllNeed(lens, g, l, pres)
  }

  ghost predicate AllNeed(lens: seq<nat>, g: nat, l: nat, pres: seq<seq<bool>>) {
    forall T {:trigger pres[T]} :: 0 <= T < |pres| ==> NeedsTable(lens, g, l, pres[T])
  }

  // ---------- counting ----------

  lemma {:induction false} CountSplit(lens: seq<nat>, i: nat, k: nat)
    requires i < |lens|
    ensures Count(lens[..i + 1], k) == Count(lens[..i], k) + (if lens[i] == k then 1 else 0)
  {
    assert lens[..i + 1][..i] == lens[..i];
  }

  lemma {:induction false} CountMono(lens: seq<nat>, a: nat, b: nat, k: nat)
    requires a <= b <= |lens|
    ensures Count(lens[..a], k) <= Count(lens[..b], k)
  {
    if a < b {
      CountMono(lens, a, b - 1, k);
      CountSplit(lens, b - 1, k);
    }
  }

  /** Ranks are below the count and tell the symbols of one length apart. */
  lemma RankBound(lens: seq<nat>, i: nat)
    requires i < |lens|
    ensures Rank(lens, i) < Count(lens, lens[i])
  {
    CountSplit(lens, i, lens[i]);
    CountMono(lens, i + 1, |lens|, lens[i]);
    assert lens[..|lens|] == lens;
  }

  lemma RankInjective(lens: seq<nat>, i: nat, i': nat)
    requires i < |lens| && i' < |lens| && lens[i] == lens[i'] && Rank(lens, i) == Rank(lens, i')
    ensures i == i'
  {
    if i < i' {
      CountSplit(lens, i, lens[i]);
      CountMono(lens, i + 1, i', lens[i]);
    } else if i' < i {
      CountSplit(lens, i', lens[i]);
      CountMono(lens, i' + 1, i, lens[i]);
    }
  }

  lemma {:induction false} NthSymbol(lens: seq<nat>, k: nat, t: nat) returns (i: nat)
    requires t < Count(lens, k)
    ensures i < |lens| && lens[i] == k && Rank(lens, i) == t
  {
    var n := |lens| - 1;
    if lens[n] == k && Count(lens[..n], k) == t {
      i := n;
    } else {
      i := NthSymbol(lens[..n], k, t);
      assert lens[..n][..i] == lens[..i];
    }
  }

  /** Every symbol has a length of at most g bits. */
  ghost predicate Bounded(lens: seq<nat>, g: nat) {
    forall i {:trigger lens[i]} :: 0 <= i < |lens| ==> lens[i] <= g
  }

  /** The number of symbols with fewer than k bits, or none. */
  function Total(lens: seq<nat>, k: nat): nat {
    if k == 0 then 0 else Total(lens, k - 1) + Count(lens, k - 1)
  }

  lemma {:induction false} TotalLast(lens: seq<nat>, k: nat)
    requires lens != []
    ensures Total(lens, k) == Total(lens[..|lens| - 1], k) + (if lens[|lens| - 1] < k then 1 else 0)
  {
    if k > 0 {
      TotalLast(lens, k - 1);
    }
  }

  lemma {:induction false} TotalAll(lens: seq<nat>, g: nat)
    requires Bounded(lens, g)
    ensures Total(lens, g + 1) == |lens|
  {
    if lens == [] {
      TotalEmpty(g + 1);
    } else {
      TotalLast(lens, g + 1);
      TotalAll(lens[..|lens| - 1], g);
    }
  }

  lemma {:induction false} TotalEmpty(k: nat)
    ensures Total([], k) == 0
  {
    if k > 0 {
      TotalEmpty(k - 1);
    }
  }

  lemma {:induction false} CountAbove(lens: seq<nat>, g: nat, k: nat)
    requires Bounded(lens, g) && k > g
    ensures Count(lens, k) == 0
  {
    if lens != [] {
      CountAbove(lens[..|lens| - 1], g, k);
    }
  }

  lemma {:induction false} CountPositive(lens: seq<nat>, i: nat)
    requires i < |lens|
    ensures Count(lens, lens[i]) > 0
  {
    RankBound(lens, i);
  }

  // ---------- the book of a list of lengths ----------

  /** The book agrees with the lengths: the counts of the lengths, with the gap closed at the last one, and
      the values of the symbols in code order. */
  ghost predicate BookOf(c: Book, lens: seq<nat>, s: nat, d: seq<nat>, e: seq<nat>)
    requires |d| == |e| && |lens| <= s + |d|
  {
    && Valid(c) && Bounded(lens, c.g)
    && Count(lens, c.g) > 0 && LeftOver(lens, c.g) >= 0
    && (forall k {:trigger c.cc[k]} :: 1 <= k < c.g ==> c.cc[k] == Count(lens, k))
    && c.cc[c.g] == Count(lens, c.g) + LeftOver(lens, c.g)
    && (forall i: nat {:trigger SymbolFilled(c, lens, s, d, e, i)} :: i < |lens| && 0 < lens[i] ==> SymbolFilled(c, lens, s, d, e, i))
    && (forall t: nat {:trigger DummyFilled(c, lens, t)} :: Count(lens, c.g) <= t < c.cc[c.g] ==> DummyFilled(c, lens, t))
  }

  ghost predicate SymbolFilled(c: Book, lens: seq<nat>, s: nat, d: seq<nat>, e: seq<nat>, i: nat)
    requires |c.cc| == BMAX + 1 && |d| == |e| && |lens| <= s + |d| && i < |lens| && lens[i] <= BMAX
  {
    var m := Off(c, lens[i]) + Rank(lens, i);
    m < |c.fill| && c.fill[m] == SymbolFilling(s, d, e, i)
  }

  ghost predicate DummyFilled(c: Book, lens: seq<nat>, t: nat)
    requires |c.cc| == BMAX + 1 && c.g <= BMAX
  {
    var m := Off(c, c.g) + t;
    m < |c.fill| && c.fill[m] == if m < |lens| then Stale else Filling(99, 0)
  }

  lemma {:induction false} FirstIsNext(c: Book, lens: seq<nat>, k: nat)
    requires |c.cc| == BMAX + 1 && k <= c.g <= BMAX
    requires forall y {:trigger c.cc[y]} :: 1 <= y < c.g ==> c.cc[y] == Count(lens, y)
    ensures First(c, k) == NextCode(lens, k)
  {
    if k > 1 {
      FirstIsNext(c, lens, k - 1);
    }
  }

  lemma {:induction false} OffIsTotal(c: Book, lens: seq<nat>, k: nat)
    requires |c.cc| == BMAX + 1 && 1 <= k <= c.g <= BMAX
    requires forall y {:trigger c.cc[y]} :: 1 <= y < c.g ==> c.cc[y] == Count(lens, y)
    ensures Off(c, k) + Count(lens, 0) == Total(lens, k)
  {
    if k > 1 {
      OffIsTotal(c, lens, k - 1);
    } else {
      assert Total(lens, 1) == Total(lens, 0) + Count(lens, 0);
    }
  }

  /** Decoding a symbol is running through its code. */
  lemma DecodesIsInCode(c: Book, lens: seq<nat>, s: nat, d: seq<nat>, e: seq<nat>, str: seq<bool>, i: nat)
    requires |d| == |e| && |lens| <= s + |d| && BookOf(c, lens, s, d, e)
    requires |str| >= LONG && i < |lens| && 0 < lens[i]
    ensures Decodes(lens, str, i) <==> InCode(c, str, lens[i], Rank(lens, i))
    ensures Rank(lens, i) < c.cc[lens[i]]
  {
    RankBound(lens, i);
    FirstIsNext(c, lens, lens[i]);
    hide InCode, E, Off, First, Count, NextCode, Rank, Pow2;
    InCodeIsPrefix(c, str, lens[i], Rank(lens, i));
  }

  /** What the walk yields for a stream that runs through the t-th code of k bits: the value of the symbol,
      and for dummy codes the invalid marker or, where the value table was not written, garbage. */
  lemma CodeResult(c: Book, lens: seq<nat>, s: nat, d: seq<nat>, e: seq<nat>, str: seq<bool>, k: nat, t: nat)
    requires |d| == |e| && |lens| <= s + |d| && BookOf(c, lens, s, d, e)
    requires |str| >= LONG && InCode(c, str, k, t)
    ensures Off(c, k) + t < |c.fill|
    ensures t < Count(lens, k) ==>
      exists i: nat :: Decodes(lens, str, i) && lens[i] == k && c.fill[Off(c, k) + t] == SymbolFilling(s, d, e, i)
    ensures t >= Count(lens, k) ==>
      && (forall i: nat {:trigger Decodes(lens, str, i)} :: !Decodes(lens, str, i))
      && k == c.g && c.fill[Off(c, k) + t] == if Off(c, k) + t < |lens| then Stale else Filling(99, 0)
  {
    hide InCode, E, Off, First, Count, NextCode, Pow2, Decodes, Rank;
    InCodeRange(c, str, k, t);
    if t < Count(lens, k) {
      var i := NthSymbol(lens, k, t);
      DecodesIsInCode(c, lens, s, d, e, str, i);
      assert Decodes(lens, str, i) && SymbolFilled(c, lens, s, d, e, i);
    } else {
      assert k == c.g && DummyFilled(c, lens, t);
      forall i: nat ensures !Decodes(lens, str, i) {
        DecodesRange(lens, str, i);
        if Decodes(lens, str, i) {
          DecodesIsInCode(c, lens, s, d, e, str, i);
          InCodeUnique(c, str, k, t, lens[i], Rank(lens, i));
          RankBound(lens, i);
        }
      }
    }
  }

  lemma InCodeRange(c: Book, str: seq<bool>, k: nat, t: nat)
    requires InCode(c, str, k, t)
    ensures |c.cc| == BMAX + 1 && c.g <= BMAX && 1 <= k <= c.g && t < c.cc[k]
  {
  }

  lemma DecodesRange(lens: seq<nat>, str: seq<bool>, i: nat)
    ensures Decodes(lens, str, i) ==> i < |lens| && 0 < lens[i]
  {
  }

  lemma DecodesOnce(c: Book, lens: seq<nat>, s: nat, d: seq<nat>, e: seq<nat>, str: seq<bool>, i: nat, i': nat)
    requires |d| == |e| && |lens| <= s + |d| && BookOf(c, lens, s, d, e)
    requires |str| >= LONG && Decodes(lens, str, i) && Decodes(lens, str, i')
    ensures i == i'
  {
    hide InCode, E, Off, First, Count, NextCode, Pow2, Decodes, Rank;
    DecodesRange(lens, str, i);
    DecodesRange(lens, str, i');
    DecodesIsInCode(c, lens, s, d, e, str, i);
    DecodesIsInCode(c, lens, s, d, e, str, i');
    InCodeUnique(c, str, lens[i], Rank(lens, i), lens[i'], Rank(lens, i'));
    RankInjective(lens, i, i');
  }

  // ---------- the two directions ----------

  ghost predicate Built1(c: Book, tabs: seq<seq<Entry>>, info: seq<Info>) {
    && |tabs| == |info| > 0 && Valid(c) && c.cc[c.g] > 0
    && Shape(c, tabs, info) && AllBuilt(c, info) && AllOnes(c, tabs, info)
    && GoodTo(c, tabs, info, Pow2(c.g))
  }

  lemma RootWalk(c: Book, tabs: seq<seq<Entry>>, info: seq<Info>, str: seq<bool>, k: nat, t: nat)
    requires Built1(c, tabs, info) && |str| >= LONG && InCode(c, str, k, t) && Off(c, k) + t < |c.fill| && NarrowTo(c, k)
    ensures Walk(tabs, 0, c.l, str, 0) == ResultOf(c.fill[Off(c, k) + t], k)
  {
    hide InCode, E, Off, Pow2, Walk, NarrowTo, Plain, AllBuilt, AllOnes, GoodTo;
    PlainIs(c, str, k, t);
    assert info[0].pre == [];
    WalkIsCode(c, tabs, info, 0, str, k, t);
  }

  /** Without too wide tables every walk is right unless it ends at an unassigned code and stale cells were
      read. */
  lemma RightOrStale(c: Book, lens: seq<nat>, s: nat, d: seq<nat>, e: seq<nat>, tabs: seq<seq<Entry>>, info: seq<Info>, str: seq<bool>)
    requires |d| == |e| && |lens| <= s + |d| && BookOf(c, lens, s, d, e)
    requires Built1(c, tabs, info) && NoWideTable(c) && |str| >= LONG
    requires StaleFree(lens, c.g)
    ensures RightWalk(lens, s, d, e, c.l, tabs, str)
  {
    var k, t := SomeCode(c, str);
    CodeResult(c, lens, s, d, e, str, k, t);
    RootWalk(c, tabs, info, str, k, t);
    DummyPlace(c, lens, s, d, e);
    hide InCode, E, Off, First, Count, NextCode, Pow2, Decodes, Rank, Walk, Built1;
    if t < Count(lens, k) {
      var i: nat :| Decodes(lens, str, i) && lens[i] == k && c.fill[Off(c, k) + t] == SymbolFilling(s, d, e, i);
      forall i': nat | Decodes(lens, str, i') ensures i' == i {
        DecodesOnce(c, lens, s, d, e, str, i, i');
      }
    } else {
      InCodeRange(c, str, k, t);
    }
  }

  /** Whatever becomes of unassigned codes, the codes of symbols are decoded rightly. */
  lemma CodedIsRight(c: Book, lens: seq<nat>, s: nat, d: seq<nat>, e: seq<nat>, tabs: seq<seq<Entry>>, info: seq<Info>)
    requires |d| == |e| && |lens| <= s + |d| && BookOf(c, lens, s, d, e) && Built1(c, tabs, info)
    ensures CodedRight(lens, s, d, e, c.g, c.l, tabs)
  {
    hide InCode, E, Off, First, Count, NextCode, Pow2, Rank, Walk, NarrowFor, Msb;
    forall str, i: nat | |str| >= LONG && Decodes(lens, str, i) && NarrowFor(lens, c.g, c.l, lens[i])
      ensures Walk(tabs, 0, c.l, str, 0) ==
        if i < s then Found(if i < 256 then 16 else 15, i, lens[i])
        else if e[i - s] == 99 then Invalid
        else Found(e[i - s], d[i - s], lens[i])
    {
      CodedWalk(c, lens, s, d, e, tabs, info, str, i);
    }
  }

  lemma CodedWalk(c: Book, lens: seq<nat>, s: nat, d: seq<nat>, e: seq<nat>, tabs: seq<seq<Entry>>, info: seq<Info>, str: seq<bool>, i: nat)
    requires |d| == |e| && |lens| <= s + |d| && BookOf(c, lens, s, d, e) && Built1(c, tabs, info)
    requires |str| >= LONG && Decodes(lens, str, i) && NarrowFor(lens, c.g, c.l, lens[i])
    ensures Walk(tabs, 0, c.l, str, 0) == ResultOf(SymbolFilling(s, d, e, i), lens[i])
  {
    hide InCode, E, Off, First, Count, NextCode, Pow2, Decodes, Rank, Walk, Built1, NarrowFor, NarrowTo;
    DecodesRange(lens, str, i);
    var k, t := lens[i], Rank(lens, i);
    DecodesIsInCode(c, lens, s, d, e, str, i);
    NarrowIsNarrow(c, lens, s, d, e, k);
    assert SymbolFilled(c, lens, s, d, e, i);
    SymbolPlace(c, lens, s, d, e, i);
    RootWalk(c, tabs, info, str, k, t);
  }

  lemma SymbolPlace(c: Book, lens: seq<nat>, s: nat, d: seq<nat>, e: seq<nat>, i: nat)
    requires |d| == |e| && i < |lens| <= s + |d| && |c.cc| == BMAX + 1 && 0 < lens[i] <= BMAX && SymbolFilled(c, lens, s, d, e, i)
    ensures Off(c, lens[i]) + Rank(lens, i) < |c.fill| && c.fill[Off(c, lens[i]) + Rank(lens, i)] == SymbolFilling(s, d, e, i)
  {
  }

  /** Which unassigned codes read stale cells, and which the invalid marker. */
  lemma UncodedIsKnown(c: Book, lens: seq<nat>, s: nat, d: seq<nat>, e: seq<nat>, tabs: seq<seq<Entry>>, info: seq<Info>)
    requires |d| == |e| && |lens| <= s + |d| && BookOf(c, lens, s, d, e) && Built1(c, tabs, info) && NoWideTable(c)
    ensures UncodedAs(lens, c.g, c.l, tabs)
  {
    hide InCode, E, Off, First, Count, NextCode, Pow2, Walk, Built1, BookOf, NarrowTo, Uncoded, Msb;
    forall str | |str| >= LONG && c.g <= |str| && Uncoded(lens, str)
      ensures Walk(tabs, 0, c.l, str, 0) == if Msb(str[..c.g]) < NextCode(lens, c.g) + Count(lens, c.g) + Count(lens, 0) then Garbage else Invalid
    {
      UncodedWalk(c, lens, s, d, e, tabs, info, str);
    }
  }

  lemma UncodedWalk(c: Book, lens: seq<nat>, s: nat, d: seq<nat>, e: seq<nat>, tabs: seq<seq<Entry>>, info: seq<Info>, str: seq<bool>)
    requires |d| == |e| && |lens| <= s + |d| && BookOf(c, lens, s, d, e) && Built1(c, tabs, info) && NoWideTable(c)
    requires |str| >= LONG && c.g <= |str| && Uncoded(lens, str)
    ensures Walk(tabs, 0, c.l, str, 0) == if Msb(str[..c.g]) < NextCode(lens, c.g) + Count(lens, c.g) + Count(lens, 0) then Garbage else Invalid
  {
    hide BookOf, Uncoded, Walk, Count, NextCode, Msb, InCode, First, Off, E, Built1, NarrowTo;
    BookValid(c, lens, s, d, e);
    var t := DummyCode(c, lens, s, d, e, str);
    RootWalk(c, tabs, info, str, c.g, t);
    DummyPlace(c, lens, s, d, e);
    InCodeIsPrefix(c, str, c.g, t);
  }

  lemma BookValid(c: Book, lens: seq<nat>, s: nat, d: seq<nat>, e: seq<nat>)
    requires |d| == |e| && |lens| <= s + |d| && BookOf(c, lens, s, d, e)
    ensures |c.cc| == BMAX + 1 && 1 <= c.l <= c.g <= BMAX && Valid(c)
  {
  }

  /** A stream without a code of a symbol runs through a dummy code. */
  lemma DummyCode(c: Book, lens: seq<nat>, s: nat, d: seq<nat>, e: seq<nat>, str: seq<bool>) returns (t: nat)
    requires |d| == |e| && |lens| <= s + |d| && BookOf(c, lens, s, d, e) && |str| >= LONG && c.g <= |str| && Uncoded(lens, str)
    ensures t < c.cc[c.g] && InCode(c, str, c.g, t) && Off(c, c.g) + t < |c.fill|
    ensures c.fill[Off(c, c.g) + t] == if Off(c, c.g) + t < |lens| then Stale else Filling(99, 0)
  {
    hide Decodes, Count, NextCode, Msb, First, Off, E, Pow2;
    var k;
    k, t := SomeCode(c, str);
    CodeResult(c, lens, s, d, e, str, k, t);
    InCodeRange(c, str, k, t);
  }

  /** The first dummy code comes right behind the coded symbols. */
  lemma DummyPlace(c: Book, lens: seq<nat>, s: nat, d: seq<nat>, e: seq<nat>)
    requires |d| == |e| && |lens| <= s + |d| && BookOf(c, lens, s, d, e)
    ensures Off(c, c.g) + Count(lens, c.g) + Count(lens, 0) == |lens| && First(c, c.g) == NextCode(lens, c.g)
  {
    FirstIsNext(c, lens, c.g);
    OffIsTotal(c, lens, c.g);
    TotalAll(lens, c.g);
    assert Total(lens, c.g + 1) == Total(lens, c.g) + Count(lens, c.g);
  }

  /** A table that a code of the book needs is needed for the lengths. */
  lemma NeededIs(c: Book, lens: seq<nat>, s: nat, d: seq<nat>, e: seq<nat>, pre: seq<bool>)
    requires |d| == |e| && |lens| <= s + |d| && BookOf(c, lens, s, d, e) && NeededAt(c, pre)
    ensures NeedsTable(lens, c.g, c.l, pre)
  {
    var code, t: nat :| IsCode(c, code, t) && |pre| < |code| && pre == code[..|pre|];
    var str := code + seq(LONG, _ => false);
    assert str[..|code|] == code && str[..|pre|] == pre;
    forall i: nat | Decodes(lens, str, i) ensures lens[i] == |code| {
      hide E, Off, First, Count, NextCode, Rank, Pow2, Msb;
      InCodeIsPrefix(c, str, |code|, t);
      DecodesRange(lens, str, i);
      DecodesIsInCode(c, lens, s, d, e, str, i);
      InCodeUnique(c, str, |code|, t, lens[i], Rank(lens, i));
    }
    assert Runs(lens, str, pre);
  }

  lemma NeededAre(c: Book, lens: seq<nat>, s: nat, d: seq<nat>, e: seq<nat>, pres: seq<seq<bool>>)
    requires |d| == |e| && |lens| <= s + |d| && BookOf(c, lens, s, d, e) && Needed(c, pres)
    ensures NeedsTables(lens, c.g, c.l, |pres|)
  {
    hide BookOf, NeededAt, NeedsTable;
    forall T | 0 <= T < |pres| ensures NeedsTable(lens, c.g, c.l, pres[T]) {
      NeededIs(c, lens, s, d, e, pres[T]);
    }
    assert AllNeed(lens, c.g, c.l, pres);
  }

  lemma GarbageIsWrong(lens: seq<nat>, s: nat, d: seq<nat>, e: seq<nat>, l: nat, tabs: seq<seq<Entry>>, str: seq<bool>)
    requires |d| == |e| && |lens| <= s + |d| && |str| >= LONG && Walk(tabs, 0, l, str, 0) == Garbage
    ensures !RightTables(lens, s, d, e, l, tabs)
  {
    hide Decodes, Walk;
    assert !RightWalk(lens, s, d, e, l, tabs, str);
  }

  /** A string of n bits with a given value. */
  function Digits(x: nat, n: nat): (b: seq<bool>)
    requires x < Pow2(n)
    ensures |b| == n && Msb(b) == x
  {
    if n == 0 then [] else Digits(x / 2, n - 1) + [x % 2 == 1]
  }

  /** Stale cells: the stream of the first dummy code ends in one. */
  lemma StaleFail(c: Book, lens: seq<nat>, s: nat, d: seq<nat>, e: seq<nat>, tabs: seq<seq<Entry>>, info: seq<Info>)
    requires |d| == |e| && |lens| <= s + |d| && BookOf(c, lens, s, d, e)
    requires Built1(c, tabs, info) && NoWideTable(c) && !StaleFree(lens, c.g)
    ensures !RightTables(lens, s, d, e, c.l, tabs)
  {
    var t := Count(lens, c.g);
    PosBounds(c, c.g, t);
    hide E, Count, Off, First, Pow2, NoWideTable, Msb, Walk;
    var str := Digits(Pos(c, c.g, t), c.g) + Ones(LONG);
    assert str[..c.g] == Digits(Pos(c, c.g, t), c.g);
    assert InCode(c, str, c.g, t);
    assert DummyFilled(c, lens, t);
    DummyPlace(c, lens, s, d, e);
    RootWalk(c, tabs, info, str, c.g, t);
    GarbageIsWrong(lens, s, d, e, c.l, tabs, str);
  }

  /** A too wide table: the stream of ones ends in a cell that was never written. */
  lemma WideFail(c: Book, lens: seq<nat>, s: nat, d: seq<nat>, e: seq<nat>, tabs: seq<seq<Entry>>, info: seq<Info>)
    requires |d| == |e| && |lens| <= s + |d| && BookOf(c, lens, s, d, e)
    requires Built1(c, tabs, info) && !NoWideTable(c)
    ensures !RightTables(lens, s, d, e, c.l, tabs)
  {
    hide E, Count, Off, First, Pow2, Msb, Walk, BookOf, U, AllBuilt, AllOnes;
    var W: nat :| 0 < W && W % c.l == 0 && W + c.l < c.g && Pow2(c.g) - E(c, W + c.l - 1) >= U(c.g, W);
    assert info[0].pre == [] == Ones(0);
    OnesFail(c, tabs, info, 0, W);
    GarbageIsWrong(lens, s, d, e, c.l, tabs, Ones(LONG));
  }

  /** The condition on the book is the condition on the lengths. */
  lemma WideIsWide(c: Book, lens: seq<nat>, s: nat, d: seq<nat>, e: seq<nat>)
    requires |d| == |e| && |lens| <= s + |d| && BookOf(c, lens, s, d, e)
    ensures NoWideTable(c) <==> WideFree(lens, c.g, c.l)
  {
    NarrowIsNarrow(c, lens, s, d, e, c.g);
  }

  lemma NarrowIsNarrow(c: Book, lens: seq<nat>, s: nat, d: seq<nat>, e: seq<nat>, k: nat)
    requires |d| == |e| && |lens| <= s + |d| && BookOf(c, lens, s, d, e)
    ensures NarrowTo(c, k) <==> NarrowFor(lens, c.g, c.l, k)
  {
    hide E, Count, Off, First, Pow2, U, NextCode;
    forall w: nat | 0 < w && w % c.l == 0 && w + c.l < c.g
      ensures Pow2(c.g) - E(c, w + c.l - 1) < U(c.g, w) <==> LeftOver(lens, w + c.l - 1) < Pow2(c.l - 1)
    {
      LeftIsGap(c, lens, s, d, e, w + c.l - 1);
      UStep(c.g, w, c.l - 1);
      Cancel(LeftOver(lens, w + c.l - 1), Pow2(c.l - 1), U(c.g, w + c.l - 1));
    }
  }

  lemma Cancel(a: int, b: int, u: nat)
    requires u > 0
    ensures a * u < b * u <==> a < b
  {
    Minus(b, a, u);
    Sign(b - a, u);
  }

  lemma LeftIsGap(c: Book, lens: seq<nat>, s: nat, d: seq<nat>, e: seq<nat>, k: nat)
    requires |d| == |e| && |lens| <= s + |d| && BookOf(c, lens, s, d, e) && 1 <= k < c.g
    ensures LeftOver(lens, k) * U(c.g, k) == Pow2(c.g) - E(c, k)
  {
    FirstIsNext(c, lens, k);
    PosIsE(c, k, 0);
    UStep(c.g, 0, k);
    assert U(c.g, 0) == Pow2(c.g);
    hide E, Count, First, Pow2, U, NextCode;
    Minus(Pow2(k), First(c, k) + c.cc[k], U(c.g, k));
  }

  /** The tables are right for every stream if and only if both conditions hold. */
  lemma TablesRightIff(c: Book, lens: seq<nat>, s: nat, d: seq<nat>, e: seq<nat>, tabs: seq<seq<Entry>>, info: seq<Info>)
    requires |d| == |e| && |lens| <= s + |d| && BookOf(c, lens, s, d, e) && Built1(c, tabs, info)
    ensures RightTables(lens, s, d, e, c.l, tabs) <==> WideFree(lens, c.g, c.l) && StaleFree(lens, c.g)
  {
    WideIsWide(c, lens, s, d, e);
    hide NoWideTable, WideFree, StaleFree, BookOf, Built1, RightWalk;
    if !NoWideTable(c) {
      WideFail(c, lens, s, d, e, tabs, info);
    } else if !StaleFree(lens, c.g) {
      StaleFail(c, lens, s, d, e, tabs, info);
    } else {
      forall str: seq<bool> | |str| >= LONG ensures RightWalk(lens, s, d, e, c.l, tabs, str) {
        RightOrStale(c, lens, s, d, e, tabs, info, str);
      }
    }
  }

  // ---------- the builder ----------

  ghost predicate GreatestLength(lens: seq<nat>, g: nat) {
    Bounded(lens, g) && exists i {:trigger lens[i]} :: 0 <= i < |lens| && lens[i] == g
  }

  /** Generate counts for each bit length. */
  method CountLengths(b: seq<nat>) returns (c: seq<nat>)
    requires Bounded(b, BMAX)
    ensures |c| == BMAX + 1 && forall k :: 0 <= k <= BMAX ==> c[k] == Count(b, k)
  {
    c := seq(BMAX + 1, _ => 0);
    assert b[..0] == [];
    for i := 0 to |b|
      invariant |c| == BMAX + 1 && forall k :: 0 <= k <= BMAX ==> c[k] == Count(b[..i], k)
    {
      forall k: nat ensures Count(b[..i + 1], k) == Count(b[..i], k) + (if b[i] == k then 1 else 0) {
        CountSplit(b, i, k);
      }
      c := c[b[i] := c[b[i]] + 1];
    }
    assert b[..|b|] == b;
  }

  /** Find minimum and maximum length and bound l by those. */
  method FindLengths(b: seq<nat>, c: seq<nat>, m: nat) returns (k: nat, g: nat, l: nat)
    requires Bounded(b, BMAX) && |c| == BMAX + 1 && forall y :: 0 <= y <= BMAX ==> c[y] == Count(b, y)
    requires exists i {:trigger b[i]} :: 0 <= i < |b| && b[i] > 0
    ensures 1 <= k <= l <= g <= BMAX && c[k] > 0 && c[g] > 0 && GreatestLength(b, g)
    ensures forall y :: 1 <= y < k ==> c[y] == 0
    ensures l == if m < k then k else if m > g then g else m
  {
    l := m;
    var i0 :| 0 <= i0 < |b| && b[i0] > 0;
    CountPositive(b, i0);
    k := 1;
    while c[k] == 0
      invariant 1 <= k <= b[i0] && forall y :: 1 <= y < k ==> c[y] == 0
      decreases b[i0] - k
    {
      k := k + 1;
    }
    if l < k {
      l := k;
    }
    g := BMAX;
    while c[g] == 0
      invariant b[i0] <= g <= BMAX && forall y :: g < y <= BMAX ==> c[y] == 0
      decreases g
    {
      g := g - 1;
    }
    if l > g {
      l := g;
    }
    forall i {:trigger b[i]} | 0 <= i < |b| ensures b[i] <= g {
      CountPositive(b, i);
    }
    var j := NthSymbol(b, g, 0);
    assert b[j] == g;
  }

  lemma {:induction false} NextZero(lens: seq<nat>, k: nat)
    requires forall y :: 1 <= y < k ==> Count(lens, y) == 0
    ensures NextCode(lens, k) == 0
  {
    if k > 1 {
      NextZero(lens, k - 1);
    }
  }

  lemma LeftOverStep(lens: seq<nat>, k: nat)
    requires 1 <= k
    ensures LeftOver(lens, k + 1) == 2 * LeftOver(lens, k) - Count(lens, k + 1)
  {
  }

  lemma {:induction false} LeftOverNegative(lens: seq<nat>, k: nat, g: nat)
    requires 1 <= k <= g && LeftOver(lens, k) < 0
    ensures LeftOver(lens, g) < 0
    decreases g - k
  {
    if k < g {
      LeftOverStep(lens, k);
      LeftOverNegative(lens, k + 1, g);
    }
  }

  /** The number of dummy codes that fill out the code; negative when it is oversubscribed. */
  method FillOut(b: seq<nat>, c: seq<nat>, k: nat, g: nat) returns (y: int)
    requires |c| == BMAX + 1 && forall y :: 0 <= y <= BMAX ==> c[y] == Count(b, y)
    requires 1 <= k <= g <= BMAX && forall y :: 1 <= y < k ==> c[y] == 0
    ensures y < 0 <==> LeftOver(b, g) < 0
    ensures y >= 0 ==> y == LeftOver(b, g)
  {
    hide Pow2, Count, NextCode;
    var j := k;
    y := Pow2(j);
    NextZero(b, k);
    while j < g
      invariant k <= j <= g && y - c[j] == LeftOver(b, j)
    {
      y := y - c[j];
      if y < 0 {
        LeftOverNegative(b, j, g);
        return;
      }
      LeftOverStep(b, j);
      y := 2 * y;
      j := j + 1;
    }
    y := y - c[g];
  }

  /** Offsets into the value table for each length. */
  method Offsets(c: Book) returns (x: seq<nat>)
    requires |c.cc| == BMAX + 1 && 1 <= c.g <= BMAX
    ensures |x| == BMAX + 1 && forall k {:trigger x[k]} :: 1 <= k <= c.g ==> x[k] == Off(c, k)
  {
    x := seq(BMAX + 1, _ => 0);
    var j := 0;
    for i := 1 to c.g
      invariant |x| == BMAX + 1 && j == Off(c, i)
      invariant forall k {:trigger x[k]} :: 1 <= k <= i ==> x[k] == Off(c, k)
    {
      j := j + c.cc[i];
      x := x[i + 1 := j];
    }
  }

  /** Where the symbols of the list up to i have been put. */
  ghost predicate Sorted(c: Book, b: seq<nat>, v: seq<Option<nat>>, i: nat)
    requires |c.cc| == BMAX + 1 && c.g <= BMAX && Bounded(b, c.g) && i <= |b|
  {
    && (forall y {:trigger b[y]} :: 0 <= y < i && 0 < b[y] ==> Off(c, b[y]) + Rank(b, y) < |v| && v[Off(c, b[y]) + Rank(b, y)] == Some(y))
    && (forall m {:trigger v[m]} :: Off(c, c.g) + Count(b, c.g) <= m < |v| ==> v[m] == None)
  }

  /** Make a table of values in order of bit lengths. */
  method SortValues(c: Book, b: seq<nat>) returns (v: seq<Option<nat>>)
    requires |c.cc| == BMAX + 1 && 1 <= c.g <= BMAX && Bounded(b, c.g)
    requires forall k {:trigger c.cc[k]} :: 1 <= k < c.g ==> c.cc[k] == Count(b, k)
    ensures |v| == |b| && Sorted(c, b, v, |b|)
  {
    hide Off, Count, Rank, Sorted;
    var x := Offsets(c);
    v := seq(|b|, _ => None);
    StartSort(c, b, v, x);
    for i := 0 to |b|
      invariant |v| == |b| && |x| == BMAX + 1 && Sorted(c, b, v, i)
      invariant forall k {:trigger x[k]} :: 1 <= k <= c.g ==> x[k] == Off(c, k) + Count(b[..i], k)
    {
      var j := b[i];
      forall k: nat ensures Count(b[..i + 1], k) == Count(b[..i], k) + (if b[i] == k then 1 else 0) {
        CountSplit(b, i, k);
      }
      if j != 0 {
        SortOne(c, b, v, i, x[j]);
        v := v[x[j] := Some(i)];
        x := x[j := x[j] + 1];
      } else {
        SortNone(c, b, v, i);
      }
    }
  }

  lemma StartSort(c: Book, b: seq<nat>, v: seq<Option<nat>>, x: seq<nat>)
    requires |c.cc| == BMAX + 1 && 1 <= c.g <= BMAX && Bounded(b, c.g) && |v| == |b|
    requires forall m :: 0 <= m < |v| ==> v[m] == None
    ensures Sorted(c, b, v, 0)
    ensures forall k: nat :: Count(b[..0], k) == 0
  {
  }

  lemma SortNone(c: Book, b: seq<nat>, v: seq<Option<nat>>, i: nat)
    requires |c.cc| == BMAX + 1 && c.g <= BMAX && Bounded(b, c.g) && i < |b| && b[i] == 0 && Sorted(c, b, v, i)
    ensures Sorted(c, b, v, i + 1)
  {
  }

  /** Where symbol i goes: inside the table, and not where another symbol has been put. */
  lemma SortOne(c: Book, b: seq<nat>, v: seq<Option<nat>>, i: nat, m: nat)
    requires |c.cc| == BMAX + 1 && 1 <= c.g <= BMAX && Bounded(b, c.g) && i < |b| == |v| && b[i] > 0
    requires forall k {:trigger c.cc[k]} :: 1 <= k < c.g ==> c.cc[k] == Count(b, k)
    requires Sorted(c, b, v, i) && m == Off(c, b[i]) + Count(b[..i], b[i])
    ensures m < |v| && Sorted(c, b, v[m := Some(i)], i + 1)
  {
    hide Off, Count;
    PlaceBound(c, b, i);
    var v' := v[m := Some(i)];
    forall y {:trigger b[y]} | 0 <= y < i + 1 && 0 < b[y]
      ensures Off(c, b[y]) + Rank(b, y) < |v'| && v'[Off(c, b[y]) + Rank(b, y)] == Some(y)
    {
      PlaceApart(c, b, i, y);
    }
  }

  lemma PlaceBound(c: Book, b: seq<nat>, i: nat)
    requires |c.cc| == BMAX + 1 && 1 <= c.g <= BMAX && Bounded(b, c.g) && i < |b| && b[i] > 0
    requires forall k {:trigger c.cc[k]} :: 1 <= k < c.g ==> c.cc[k] == Count(b, k)
    ensures Off(c, b[i]) + Rank(b, i) < Off(c, c.g) + Count(b, c.g) <= |b|
  {
    RankBound(b, i);
    OffIsTotal(c, b, c.g);
    TotalAll(b, c.g);
    assert Total(b, c.g + 1) == Total(b, c.g) + Count(b, c.g);
    if b[i] < c.g {
      OffStep(c, b[i]);
      OffMono(c, b[i] + 1, c.g);
    }
  }

  lemma PlaceApart(c: Book, b: seq<nat>, i: nat, y: nat)
    requires |c.cc| == BMAX + 1 && 1 <= c.g <= BMAX && Bounded(b, c.g) && i < |b| && b[i] > 0 && y < |b| && b[y] > 0
    requires forall k {:trigger c.cc[k]} :: 1 <= k < c.g ==> c.cc[k] == Count(b, k)
    ensures Off(c, b[i]) + Rank(b, i) == Off(c, b[y]) + Rank(b, y) ==> i == y
  {
    RankBound(b, i);
    RankBound(b, y);
    hide Off, Count, Rank;
    if b[i] < b[y] {
      OffStep(c, b[i]);
      OffMono(c, b[i] + 1, b[y]);
    } else if b[y] < b[i] {
      OffStep(c, b[y]);
      OffMono(c, b[y] + 1, b[i]);
    } else if Rank(b, i) == Rank(b, y) {
      RankInjective(b, i, y);
    }
  }

  /** The least code length of a list, 0 left aside. */
  ghost predicate LeastLength(lens: seq<nat>, k: nat) {
    0 < k && (exists i {:trigger lens[i]} :: 0 <= i < |lens| && lens[i] == k)
    && forall i {:trigger lens[i]} :: 0 <= i < |lens| && 0 < lens[i] ==> k <= lens[i]
  }

  lemma {:induction false} AllZero(b: seq<nat>)
    ensures Count(b, 0) <= |b|
    ensures Count(b, 0) == |b| <==> forall i {:trigger b[i]} :: 0 <= i < |b| ==> b[i] == 0
  {
    if b != [] {
      AllZero(b[..|b| - 1]);
    }
  }

  /** The book the sorted values and the adjusted counts make up. */
  lemma BookIsOf(c: Book, b: seq<nat>, s: nat, d: seq<nat>, e: seq<nat>, v: seq<Option<nat>>)
    requires |d| == |e| && |b| <= s + |d| && |c.cc| == BMAX + 1 && 1 <= c.l <= c.g <= BMAX && Bounded(b, c.g)
    requires Count(b, c.g) > 0 && LeftOver(b, c.g) >= 0
    requires forall k {:trigger c.cc[k]} :: 1 <= k < c.g ==> c.cc[k] == Count(b, k)
    requires c.cc[c.g] == Count(b, c.g) + LeftOver(b, c.g)
    requires |v| == |b| && Sorted(c, b, v, |b|) && |c.fill| == Off(c, c.g + 1)
    requires forall m {:trigger c.fill[m]} :: 0 <= m < |c.fill| ==> c.fill[m] == FillingOf(v, |b|, s, d, e, m)
    ensures BookOf(c, b, s, d, e)
  {
    hide E, Off, Count, NextCode, First, Pow2, FillingOf, Sorted, LeftOver;
    BookFills(c, b);
    OffStep(c, c.g);
    forall i: nat | i < |b| && 0 < b[i] ensures SymbolFilled(c, b, s, d, e, i) {
      PlaceBound(c, b, i);
      SymbolIsFilled(c, b, s, d, e, v, i);
    }
    forall t: nat | Count(b, c.g) <= t < c.cc[c.g] ensures DummyFilled(c, b, t) {
      DummyIsFilled(c, b, s, d, e, v, t);
    }
  }

  /** The book uses up the code space. */
  lemma BookFills(c: Book, b: seq<nat>)
    requires |c.cc| == BMAX + 1 && 1 <= c.g <= BMAX && c.cc[c.g] == Count(b, c.g) + LeftOver(b, c.g)
    requires forall k {:trigger c.cc[k]} :: 1 <= k < c.g ==> c.cc[k] == Count(b, k)
    ensures E(c, c.g) == Pow2(c.g)
  {
    FirstIsNext(c, b, c.g);
    PosIsE(c, c.g, 0);
    hide E, Off, Count, NextCode, First, Pow2;
    assert U(c.g, c.g) == Pow2(0);
    Pow2Zero();
  }

  lemma SymbolIsFilled(c: Book, b: seq<nat>, s: nat, d: seq<nat>, e: seq<nat>, v: seq<Option<nat>>, i: nat)
    requires |d| == |e| && |b| <= s + |d| && |c.cc| == BMAX + 1 && 1 <= c.g <= BMAX && Bounded(b, c.g)
    requires |v| == |b| && Sorted(c, b, v, |b|) && i < |b| && 0 < b[i]
    requires Off(c, b[i]) + Rank(b, i) < |c.fill| && Off(c, b[i]) + Rank(b, i) < |b|
    requires forall m {:trigger c.fill[m]} :: 0 <= m < |c.fill| ==> c.fill[m] == FillingOf(v, |b|, s, d, e, m)
    ensures SymbolFilled(c, b, s, d, e, i)
  {
    hide E, Off, Count, NextCode, First, Pow2, Rank;
  }

  lemma DummyIsFilled(c: Book, b: seq<nat>, s: nat, d: seq<nat>, e: seq<nat>, v: seq<Option<nat>>, t: nat)
    requires |d| == |e| && |b| <= s + |d| && |c.cc| == BMAX + 1 && 1 <= c.g <= BMAX && Bounded(b, c.g)
    requires Count(b, c.g) <= t < c.cc[c.g] && |c.fill| == Off(c, c.g) + c.cc[c.g]
    requires forall k {:trigger c.cc[k]} :: 1 <= k < c.g ==> c.cc[k] == Count(b, k)
    requires |v| == |b| && Sorted(c, b, v, |b|)
    requires forall m {:trigger c.fill[m]} :: 0 <= m < |c.fill| ==> c.fill[m] == FillingOf(v, |b|, s, d, e, m)
    ensures DummyFilled(c, b, t)
  {
    hide E, Off, Count, NextCode, First, Pow2, Rank;
  }

  /** Build the tables for the code lengths b; the first s symbols are simple, for the others d and e hold
      values and flags; m is the wanted index width, room the number of tables there is memory for. Returns 0,
      or 1 for an incomplete code, 2 for an oversubscribed one, 3 when memory is out; l is the width in use
      and g the greatest length. */
  method HuftBuild(b: seq<nat>, s: nat, d: seq<nat>, e: seq<nat>, m: nat, room: nat)
    returns (r: nat, l: nat, tabs: seq<seq<Entry>>, ghost g: nat)
    requires 1 <= |b| <= N_MAX && Bounded(b, BMAX)
    requires |d| == |e| && |b| <= s + |d| && forall y :: 0 <= y < |e| ==> e[y] < 15 || e[y] == 99
    ensures GreatestLength(b, g) && r <= 3
    ensures g == 0 ==> r == 0 && l == 0 && tabs == []
    ensures g > 0 ==> (r == 2 <==> LeftOver(b, g) < 0)
    ensures if r == 3 then |tabs| == room && NeedsTables(b, g, l, room + 1) else |tabs| <= room
    ensures g > 0 && r <= 1 ==>
      && NeedsTables(b, g, l, |tabs|)
      && (r == 1 <==> LeftOver(b, g) > 0 && g != 1)
      && 1 <= l <= g && (forall k: nat {:trigger LeastLength(b, k)} :: LeastLength(b, k) ==> l == if m < k then k else if m > g then g else m)
      && CodedRight(b, s, d, e, g, l, tabs) && (WideFree(b, g, l) ==> UncodedAs(b, g, l, tabs))
      && (RightTables(b, s, d, e, l, tabs) <==> WideFree(b, g, l) && StaleFree(b, g))
  {
    hide Count, NextCode, Off, E, First, Pow2, FillingOf, NoWideTable, AllOnes, AllBuilt, GoodTo, RightTables, WideFree, Sorted, StaleFree, Needed, NeedsTables;
    tabs := [];
    var c := CountLengths(b);
    AllZero(b);
    if c[0] == |b| {
      assert b[0] == 0;
      return 0, 0, [], 0;
    }
    var k, g0 := 0, 0;
    k, g0, l := FindLengths(b, c, m);
    g := g0;
    LeastIs(b, k);
    var y := FillOut(b, c, k, g0);
    if y < 0 {
      return 2, l, [], g;
    }
    c := c[g0 := c[g0] + y];
    var bk := Book(c, g0, l, []);
    var v := SortValues(bk, b);
    bk := bk.(fill := seq(Off(bk, g0 + 1), i requires 0 <= i => FillingOf(v, |b|, s, d, e, i)));
    SameCode(bk, Book(c, g0, l, []), b, v);
    BookIsOf(bk, b, s, d, e, v);
    var ok;
    ghost var info;
    ghost var pres;
    ok, tabs, info, pres := Make(bk, k, v, |b|, s, d, e, room);
    NeededAre(bk, b, s, d, e, pres);
    if !ok {
      return 3, l, tabs, g;
    }
    TablesRightIff(bk, b, s, d, e, tabs, info);
    CodedIsRight(bk, b, s, d, e, tabs, info);
    WideIsWide(bk, b, s, d, e);
    if NoWideTable(bk) {
      UncodedIsKnown(bk, b, s, d, e, tabs, info);
    }
    r := if y != 0 && g0 != 1 then 1 else 0;
  }

  lemma LeastIs(b: seq<nat>, k: nat)
    requires 1 <= k && Count(b, k) > 0 && forall y :: 1 <= y < k ==> Count(b, y) == 0
    ensures forall k' :: LeastLength(b, k') ==> k' == k
  {
    var j := NthSymbol(b, k, 0);
    forall k' | LeastLength(b, k') ensures k' == k {
      var i :| 0 <= i < |b| && b[i] == k';
      CountPositive(b, i);
      assert b[j] == k;
    }
  }

  /** The values do not matter for the code space and the offsets. */
  lemma SameCode(c: Book, c': Book, b: seq<nat>, v: seq<Option<nat>>)
    requires c == c'.(fill := c.fill) && |c.cc| == BMAX + 1 && 1 <= c.g <= BMAX && Bounded(b, c.g)
    requires Sorted(c', b, v, |b|)
    ensures Sorted(c, b, v, |b|) && forall k {:trigger Off(c, k)} :: 0 <= k <= BMAX + 1 ==> Off(c, k) == Off(c', k)
  {
    hide Rank, Count;
    forall k | 0 <= k <= BMAX + 1 ensures Off(c, k) == Off(c', k) {
      SameOff(c, c', k);
    }
  }

  lemma {:induction false} SameOff(c: Book, c': Book, k: nat)
    requires c == c'.(fill := c.fill) && |c.cc| == BMAX + 1 && k <= BMAX + 1
    ensures Off(c, k) == Off(c', k)
  {
    if k > 1 {
      SameOff(c, c', k - 1);
    }
  }

  // ---------- the callers ----------

  /** The symbols with more than j and at most g bits. */
  function Longer(lens: seq<nat>, j: nat, g: nat): nat
    decreases g - j
  {
    if j >= g then 0 else Count(lens, j + 1) + Longer(lens, j + 1, g)
  }

  /** Filling each pattern left over takes at least two codes. */
  lemma {:induction false} TwoEach(lens: seq<nat>, j: nat, g: nat)
    requires 1 <= j <= g && LeftOver(lens, g) == 0
    ensures Longer(lens, j, g) >= 2 * LeftOver(lens, j)
    decreases g - j
  {
    if j < g {
      LeftOverStep(lens, j);
      TwoEach(lens, j + 1, g);
      if LeftOver(lens, j + 1) < 0 {
        LeftOverNegative(lens, j + 1, g);
      }
    }
  }

  lemma {:induction false} LongerTotal(lens: seq<nat>, j: nat, g: nat)
    requires j <= g
    ensures Total(lens, j + 1) + Longer(lens, j, g) == Total(lens, g + 1)
    decreases g - j
  {
    if j < g {
      LongerTotal(lens, j + 1, g);
      assert Total(lens, j + 2) == Total(lens, j + 1) + Count(lens, j + 1);
    }
  }

  /** For a complete code both conditions hold as soon as the index is as wide as the longest code, or at
      least 8 bits wide, or there are fewer than 2^l symbols. This covers every table the inflater keeps: 9
      bits for literals and lengths, 7 for the code lengths, which are at most 7, and 6 for the at most 30
      distances. */
  lemma CompleteIsRight(lens: seq<nat>, g: nat, l: nat)
    requires Bounded(lens, g) && 1 <= l <= g <= BMAX && LeftOver(lens, g) == 0
    requires l == g || l >= 8 || |lens| < Pow2(l)
    ensures WideFree(lens, g, l) && StaleFree(lens, g)
  {
    forall w: nat | 0 < w && w % l == 0 && w + l < g ensures LeftOver(lens, w + l - 1) < Pow2(l - 1) {
      NextMultiple(0, w, l);
      TwoEach(lens, w + l - 1, g);
      LongerTotal(lens, w + l - 1, g);
      TotalAll(lens, g);
    }
  }

  /** An incomplete code with an unused symbol: the one code of one bit that is accepted as complete enough.
      Its other bit reads a stale cell. */
  lemma OneCodeIsStale()
    ensures var lens := [1, 0]; Bounded(lens, 1) && LeftOver(lens, 1) == 1 && !StaleFree(lens, 1)
  {
    var lens := [1, 0];
    assert lens[..1] == [1] && lens[..1][..0] == [];
    assert Count([1], 1) == 1 && Count(lens, 1) == 1;
    assert Count([1], 0) == 0 && Count(lens, 0) == 1;
    assert Pow2(1) == 2;
  }

  /** A complete code of five symbols that a caller who asks for one index bit gets wrong tables for. */
  lemma WideExample()
    ensures var lens := [1, 3, 3, 3, 3]; Bounded(lens, 3) && LeftOver(lens, 3) == 0 && !WideFree(lens, 3, 1)
  {
    var lens := [1, 3, 3, 3, 3];
    Counts5(1, 1, 0);
    Counts5(2, 0, 0);
    Counts5(3, 0, 1);
    assert NextCode(lens, 1) == 0 && NextCode(lens, 2) == 2 && NextCode(lens, 3) == 4;
    assert Pow2(0) == 1 && Pow2(1) == 2 && Pow2(2) == 4 && Pow2(3) == 8;
    assert 1 % 1 == 0 && LeftOver(lens, 1) == 1;
  }

  lemma Counts5(k: nat, a: nat, b: nat)
    requires a == (if k == 1 then 1 else 0) && b == (if k == 3 then 1 else 0)
    ensures Count([1, 3, 3, 3, 3], k) == a + 4 * b
  {
    assert [1, 3, 3, 3, 3][..4] == [1, 3, 3, 3] && [1, 3, 3, 3][..3] == [1, 3, 3];
    assert [1, 3, 3][..2] == [1, 3] && [1, 3][..1] == [1] && [1][..0] == [];
    assert Count([1], k) == a;
    assert Count([1, 3], k) == a + b;
    assert Count([1, 3, 3], k) == a + 2 * b;
    assert Count([1, 3, 3, 3], k) == a + 3 * b;
  }
}
