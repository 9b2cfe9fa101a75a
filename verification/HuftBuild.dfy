/** Building the multi-level decoding tables. */
module HuftBuilds {
  import opened BitStrings
  import opened HuftCodes

  /** The end of the code space below a prefix. */
  function Right(c: Book, pre: seq<bool>): nat {
    Left(c.g, pre) + U(c.g, |pre|)
  }

  /** What the choice of a table's width guarantees. Wide enough: the table reaches the end of the code, or
      the width l after which codes go to a further table, or the codes short enough for it use up
      everything below its prefix. And when exactly it is wider than l. */
  ghost predicate Built(c: Book, i: Info) {
    var w := |i.pre|;
    && |c.cc| == BMAX + 1 && w < c.g <= BMAX && 1 <= c.l && w % c.l == 0
    && 1 <= i.j <= BMAX + 1
    && (i.j >= c.g - w || i.j >= c.l || E(c, w + i.j) >= Right(c, i.pre))
    && (i.j > c.l ==> E(c, w + c.l - 1) <= Left(c.g, i.pre))
    && (E(c, w + c.l - 1) <= Left(c.g, i.pre) && E(c, w + c.l) < Right(c, i.pre) ==> i.j > c.l)
  }

  /** No linking table at all is too wide. */
  ghost predicate NoWideTable(c: Book)
    requires |c.cc| == BMAX + 1 && c.g <= BMAX && 1 <= c.l
  {
    NarrowTo(c, c.g)
  }

  // ---------- the width of a table ----------

  lemma Minus(p: int, n: int, u: int)
    ensures (p - n) * u == p * u - n * u
  {
  }

  lemma TwiceInt(f: int, u: int)
    ensures f * 2 * u == f * (2 * u)
  {
  }

  lemma Sign(f: int, u: int)
    requires u > 0
    ensures f > 0 ==> f * u > 0
    ensures f <= 0 ==> f * u <= 0
  {
    if f > 0 {
      MulLess(0, f, u);
    } else {
      MulMono(0, -f, u);
      assert f * u == -(-f * u);
    }
  }

  lemma PosPlus(c: Book, k: nat, t: nat, n: nat)
    requires |c.cc| == BMAX + 1 && k <= BMAX
    ensures Pos(c, k, t + n) == Pos(c, k, t) + n * U(c.g, k)
  {
    Distribute(First(c, k) + t, n, U(c.g, k));
  }

  /** The patterns of k bits left below the prefix once the a + 1 remaining codes of k bits are taken off. */
  lemma FirstWidth(c: Book, k: nat, t: nat, a: nat, w: nat, pre: seq<bool>)
    requires Valid(c) && |pre| == w && w < k <= c.g
    requires a + 1 + t == c.cc[k] && Pos(c, k, t) == Left(c.g, pre)
    ensures (Pow2(k - w) - (a + 1)) * U(c.g, k) == Right(c, pre) - E(c, k)
    ensures a + 1 < Pow2(k - w) <==> E(c, k) < Right(c, pre)
  {
    UStep(c.g, w, k - w);
    PosPlus(c, k, t, a + 1);
    PosIsE(c, k, 0);
    hide E, U, Pos, Left, Pow2;
    Minus(Pow2(k - w), a + 1, U(c.g, k));
    Sign(Pow2(k - w) - (a + 1), U(c.g, k));
  }

  lemma WidthStep(c: Book, f: int, k: nat)
    requires Valid(c) && 1 <= k <= c.g
    ensures (f * 2 - c.cc[k]) * U(c.g, k) == f * U(c.g, k - 1) - (E(c, k) - E(c, k - 1))
  {
    UHalf(c.g, k);
    assert E(c, k) - E(c, k - 1) == c.cc[k] * U(c.g, k);
    hide E, U;
    Minus(f * 2, c.cc[k], U(c.g, k));
    TwiceInt(f, U(c.g, k));
  }

  lemma WidthBuilt(c: Book, k: nat, t: nat, a: nat, w: nat, pre: seq<bool>, j: nat)
    requires Valid(c) && |pre| == w && w < k <= c.g && w % c.l == 0
    requires a + 1 + t == c.cc[k] && Pos(c, k, t) == Left(c.g, pre)
    requires k - w <= j
    requires j >= c.l || j >= c.g - w || E(c, w + j) >= Right(c, pre)
    requires (j <= c.l && j <= c.g - w) || j == k - w || j == k - w + 1
    requires a + 1 < Pow2(k - w) && k - w >= c.l ==> j == k - w + 1
    ensures Built(c, Info(pre, j))
  {
    FirstWidth(c, k, t, a, w, pre);
    PosBounds(c, k, t);
    if E(c, w + c.l - 1) <= Left(c.g, pre) && k < w + c.l {
      EMono(c, k, w + c.l - 1);
    }
    if k >= w + c.l {
      EMono(c, w + c.l - 1, k - 1);
    }
    hide E, Pos, Pow2, U, Left;
  }

  /** The width of a table behind the prefix pre, whose first code is the t-th one of k bits; a codes of k
      bits follow it. */
  method ChooseBits(c: Book, k: nat, ghost t: nat, a: nat, w: nat, ghost pre: seq<bool>) returns (j: nat)
    requires Valid(c) && |pre| == w && w < k <= c.g && w % c.l == 0
    requires a + 1 + t == c.cc[k] && Pos(c, k, t) == Left(c.g, pre)
    ensures k - w <= j && Built(c, Info(pre, j))
  {
    hide E, U, Pos, Left, Pow2, Right, Built;
    ghost var end := Right(c, pre);
    var z: nat := c.g - w;
    if z > c.l {
      z := c.l;
    }
    j := k - w;
    var f: int := Pow2(j);
    FirstWidth(c, k, t, a, w, pre);
    if f > a + 1 {
      f := f - (a + 1);
      j := j + 1;
      while j < z
        invariant k - w < j && (j <= z || j == k - w + 1)
        invariant 0 < f && f * U(c.g, w + j - 1) == end - E(c, w + j - 1)
      {
        WidthStep(c, f, w + j);
        Sign(f * 2 - c.cc[w + j], U(c.g, w + j));
        f := f * 2;
        if f <= c.cc[w + j] {
          break;
        }
        f := f - c.cc[w + j];
        j := j + 1;
      }
    }
    WidthBuilt(c, k, t, a, w, pre, j);
  }

  // ---------- the stack of open tables ----------

  /** Table b hangs below table a: its prefix is l bits longer, and the cell of a that those bits index links
      to it. */
  ghost predicate Linked(c: Book, tabs: seq<seq<Entry>>, info: seq<Info>, a: nat, b: nat)
    requires |info| == |tabs|
  {
    && a < b < |tabs|
    && |info[b].pre| == |info[a].pre| + c.l
    && info[b].pre[..|info[a].pre|] == info[a].pre
    && Val(info[b].pre[|info[a].pre|..]) < |tabs[a]|
    && tabs[a][Val(info[b].pre[|info[a].pre|..])] == Link(c.l, 16 + info[b].j, b)
  }

  /** The open tables u, from the first one down, are those on the path of the current code, which starts at
      P; x holds their prefixes as numbers. Every other table lies before P. */
  ghost predicate Stack(c: Book, tabs: seq<seq<Entry>>, info: seq<Info>, u: seq<nat>, x: seq<nat>, P: nat)
    requires |info| == |tabs|
  {
    && |u| == |x| && (|u| > 0 ==> u[0] == 0)
    && Prefixes(info, u, x)
    && Chain(c, tabs, info, u)
    && OthersClosed(c, info, u, P)
  }

  ghost predicate Prefixes(info: seq<Info>, u: seq<nat>, x: seq<nat>) {
    |u| == |x| &&
    forall m {:trigger u[m]} :: 0 <= m < |u| ==> u[m] < |info| && x[m] == Val(info[u[m]].pre) && m <= |info[u[m]].pre|
  }

  ghost predicate Chain(c: Book, tabs: seq<seq<Entry>>, info: seq<Info>, u: seq<nat>)
    requires |info| == |tabs|
  {
    forall m {:trigger Deeper(m)} :: 0 <= m && m + 1 < |u| && Deeper(m) ==> Linked(c, tabs, info, u[m], u[m + 1])
  }

  ghost predicate OthersClosed(c: Book, info: seq<Info>, u: seq<nat>, P: nat) {
    forall T {:trigger Closed(c, info, T, P)} :: 0 <= T < |info| && T !in u ==> Closed(c, info, T, P)
  }

  predicate Deeper(m: int) { true }

  ghost predicate Closed(c: Book, info: seq<Info>, T: nat, P: nat)
    requires T < |info|
  {
    Right(c, info[T].pre) <= P
  }

  /** The prefixes of the open tables are prefixes of the current code. */
  ghost predicate OnPath(info: seq<Info>, u: seq<nat>, code: seq<bool>) {
    forall m {:trigger u[m]} :: 0 <= m < |u| ==>
      u[m] < |info| && |info[u[m]].pre| < |code| && info[u[m]].pre == code[..|info[u[m]].pre|]
  }

  ghost predicate AllBuilt(c: Book, info: seq<Info>) {
    forall T {:trigger info[T]} :: 0 <= T < |info| ==> Built(c, info[T])
  }

  /** In the top table the current code fits the index. */
  lemma CodeFits(c: Book, i: Info, k: nat, t: nat)
    requires Valid(c) && Built(c, i) && 1 <= k <= c.g && t < c.cc[k]
    requires Pos(c, k, t) < Right(c, i.pre)
    ensures k <= |i.pre| + c.l ==> k <= |i.pre| + i.j
    ensures k > |i.pre| + c.l ==> i.j >= c.l
  {
    PosBounds(c, k, t);
    if k > |i.pre| + i.j {
      EMono(c, |i.pre| + i.j, k - 1);
    }
    hide E, Pos, U, Left, Right;
  }

  /** In a linking table of width l or less: exactly l, unless the table is too wide. */
  lemma LinkWidth(c: Book, i: Info, k: nat, t: nat)
    requires Valid(c) && Built(c, i) && 1 <= k <= c.g && t < c.cc[k]
    requires Pos(c, k, t) < Right(c, i.pre) && k > |i.pre| + c.l
    requires NarrowTo(c, k) && 0 < |i.pre|
    ensures i.j == c.l
  {
    CodeFits(c, i, k, t);
    LeftBound(c.g, i.pre);
    assert |i.pre| % c.l == 0;
  }

  // ---------- filling in one code ----------

  /** A stream with the prefix of table T that runs through the code finds the cells filled with r, and only
      such streams do. */
  lemma FilledCell(s: seq<bool>, code: seq<bool>, w: nat, q: nat)
    requires w < |code| <= w + q <= |s| && s[..w] == code[..w]
    ensures (Val(s[w..w + q]) % Pow2(|code| - w) == Val(code[w..])) <==> s[..|code|] == code
  {
    hide Val, Pow2;
    var k := |code|;
    ValSplit(s[w..w + q], k - w);
    assert s[w..w + q][..k - w] == s[w..k];
    if Val(s[w..k]) == Val(code[w..]) {
      ValInjective(s[w..k], code[w..]);
      assert s[..k] == s[..w] + s[w..k] && code == code[..w] + code[w..];
    }
    if s[..k] == code {
      assert s[w..k] == s[..k][w..];
    }
  }

  /** The row of the top table after every cell that begins with the code's last bits got the entry r. */
  predicate FillsRow(was: seq<Entry>, row: seq<Entry>, start: nat, step: nat, r: Entry)
    requires step > 0
  {
    |row| == |was| && forall x {:trigger row[x]} :: 0 <= x < |was| ==> row[x] == if x % step == start then r else was[x]
  }

  ghost predicate Step(c: Book, tabs: seq<seq<Entry>>, info: seq<Info>, u: seq<nat>, x: seq<nat>,
                       code: seq<bool>, k: nat, t: nat, row: seq<Entry>)
    requires |info| == |tabs|
  {
    && Valid(c) && Shape(c, tabs, info) && AllBuilt(c, info)
    && 1 <= k <= c.g && t < c.cc[k] && |code| == k && Msb(code) == First(c, k) + t
    && Off(c, k) + t < |c.fill|
    && Stack(c, tabs, info, u, x, Pos(c, k, t)) && OnPath(info, u, code) && |u| > 0
    && var top := u[|u| - 1]; var w := |info[top].pre|;
       && k <= w + c.l
       && FillsRow(tabs[top], row, Val(code[w..]), Pow2(k - w), EntryOf(c.fill[Off(c, k) + t], k - w))
  }

  /** Streams through the new code find good entries. */
  lemma NewCodeGood(c: Book, tabs: seq<seq<Entry>>, info: seq<Info>, u: seq<nat>, x: seq<nat>,
                    code: seq<bool>, k: nat, t: nat, row: seq<Entry>, T: nat, s: seq<bool>)
    requires |info| == |tabs| && Step(c, tabs, info, u, x, code, k, t, row) && NarrowTo(c, k)
    requires T < |tabs| && |s| >= LONG && s[..|info[T].pre|] == info[T].pre && InCode(c, s, k, t)
    ensures GoodEntry(c, tabs[u[|u| - 1] := row], info, T, s)
  {
    hide E, U, Off, First, Val, Pow2, Linked, AllBuilt, OnPath, FillsRow, Msb, GoodEntry, NarrowTo;
    InCodeIsPrefix(c, s, k, t);
    MsbInjective(s[..k], code);
    InOwnPrefix(c.g, s, |info[T].pre|);
    assert T in u by { assert T !in u ==> Closed(c, info, T, Pos(c, k, t)); }
    var m :| 0 <= m < |u| && u[m] == T;
    if m == |u| - 1 {
      TopEntryGood(c, tabs, info, u, x, code, k, t, row, s);
    } else {
      LinkEntryGood(c, tabs, info, u, x, code, k, t, row, m, s);
    }
  }

  lemma TopEntryGood(c: Book, tabs: seq<seq<Entry>>, info: seq<Info>, u: seq<nat>, x: seq<nat>,
                     code: seq<bool>, k: nat, t: nat, row: seq<Entry>, s: seq<bool>)
    requires |info| == |tabs| && Step(c, tabs, info, u, x, code, k, t, row)
    requires |s| >= LONG && InCode(c, s, k, t) && s[..k] == code
    ensures GoodEntry(c, tabs[u[|u| - 1] := row], info, u[|u| - 1], s)
  {
    hide E, U, Off, First, Msb, Val, Pow2, Linked, Left, Pos;
    var top := u[|u| - 1];
    var w, q := |info[top].pre|, Look(c, info, top);
    assert s[..w] == code[..w];
    FitsOrBefore(c, info[top], code, k, t);
    CodeFits(c, info[top], k, t);
    FilledCell(s, code, w, q);
    PowMono(q, info[top].j);
    var e := row[Val(s[w..w + q])];
    assert CodeEntry(c, k, t, w, q, e);
  }

  lemma LinkEntryGood(c: Book, tabs: seq<seq<Entry>>, info: seq<Info>, u: seq<nat>, x: seq<nat>,
                      code: seq<bool>, k: nat, t: nat, row: seq<Entry>, m: nat, s: seq<bool>)
    requires |info| == |tabs| && Step(c, tabs, info, u, x, code, k, t, row) && NarrowTo(c, k)
    requires |s| >= LONG && c.g <= |s| && s[..k] == code && m + 1 < |u|
    ensures GoodEntry(c, tabs[u[|u| - 1] := row], info, u[m], s)
  {
    hide InCode, E, U, Off, First, Msb, Pos, Val, Pow2, FillsRow, NarrowTo, Right, Left;
    assert Deeper(m) && Linked(c, tabs, info, u[m], u[m + 1]);
    var a, b := u[m], u[m + 1];
    var w := |info[a].pre|;
    if a != 0 {
      FitsOrBefore(c, info[a], code, k, t);
      LinkWidth(c, info[a], k, t);
    }
    assert info[b].pre == code[..w + c.l] == s[..w + c.l];
    assert info[b].pre[w..] == s[w..w + c.l];
    StackIncreases(c, tabs, info, u, x, Pos(c, k, t), m, |u| - 1);
  }

  lemma {:induction false} StackIncreases(c: Book, tabs: seq<seq<Entry>>, info: seq<Info>, u: seq<nat>, x: seq<nat>, P: nat, m: nat, n: nat)
    requires |info| == |tabs| && Stack(c, tabs, info, u, x, P) && m < n < |u|
    ensures u[m] < u[n]
  {
    assert Deeper(n - 1);
    if m + 1 < n {
      StackIncreases(c, tabs, info, u, x, P, m, n - 1);
    }
  }

  /** Streams before the new code keep their good entries. */
  lemma OldCodeGood(c: Book, tabs: seq<seq<Entry>>, info: seq<Info>, u: seq<nat>, x: seq<nat>,
                    code: seq<bool>, k: nat, t: nat, row: seq<Entry>, T: nat, s: seq<bool>)
    requires |info| == |tabs| && Step(c, tabs, info, u, x, code, k, t, row)
    requires T < |tabs| && |s| >= LONG && s[..|info[T].pre|] == info[T].pre && X(c.g, s) < Pos(c, k, t)
    requires GoodEntry(c, tabs, info, T, s)
    ensures GoodEntry(c, tabs[u[|u| - 1] := row], info, T, s)
  {
    hide InCode, E, U, Off, First, Msb, Pos, Val, Pow2, Linked, Left, Right, X, GoodEntry, Valid, AllBuilt, OnPath;
    var top := u[|u| - 1];
    if T == top {
      TopCellKept(c, tabs, info, u, x, code, k, t, row, s);
    }
    SameCell(c, tabs, tabs[top := row], info, T, s);
  }

  lemma SameCell(c: Book, tabs: seq<seq<Entry>>, tabs': seq<seq<Entry>>, info: seq<Info>, T: nat, s: seq<bool>)
    requires |info| == |tabs| == |tabs'| && T < |tabs| && |s| >= LONG && GoodEntry(c, tabs, info, T, s)
    requires |tabs'[T]| == |tabs[T]|
    requires var w, q := |info[T].pre|, Look(c, info, T); tabs'[T][Val(s[w..w + q])] == tabs[T][Val(s[w..w + q])]
    ensures GoodEntry(c, tabs', info, T, s)
  {
    hide InCode, CodeEntry, Val;
  }

  lemma TopCellKept(c: Book, tabs: seq<seq<Entry>>, info: seq<Info>, u: seq<nat>, x: seq<nat>,
                    code: seq<bool>, k: nat, t: nat, row: seq<Entry>, s: seq<bool>)
    requires |info| == |tabs| && Step(c, tabs, info, u, x, code, k, t, row)
    requires var top := u[|u| - 1]; |s| >= LONG && s[..|info[top].pre|] == info[top].pre && X(c.g, s) < Pos(c, k, t)
    requires GoodEntry(c, tabs, info, u[|u| - 1], s)
    ensures var top := u[|u| - 1]; var w, q := |info[top].pre|, Look(c, info, top);
            w + q <= |s| && Val(s[w..w + q]) < |tabs[top]| && row[Val(s[w..w + q])] == tabs[top][Val(s[w..w + q])]
  {
    hide GoodEntry, E, U, Off, First, Msb, Pos, Val, Pow2, Left, Right, X, Stack, OnPath, Shape, AllBuilt, Built;
    TopIs(c, tabs, info, u, x, code, k, t, row);
    var top := u[|u| - 1];
    var w, q := |info[top].pre|, Look(c, info, top);
    GoodLook(c, tabs, info, top, s);
    CodeStarts(c, s, code, k, t);
    FitsOrBefore(c, info[top], code, k, t);
    CodeFits(c, info[top], k, t);
    FilledCell(s, code, w, q);
  }

  /** What a step knows of the top table. */
  lemma TopIs(c: Book, tabs: seq<seq<Entry>>, info: seq<Info>, u: seq<nat>, x: seq<nat>,
              code: seq<bool>, k: nat, t: nat, row: seq<Entry>)
    requires |info| == |tabs| && Step(c, tabs, info, u, x, code, k, t, row)
    ensures var top := u[|u| - 1];
      && top < |info| && |info[top].pre| < k && info[top].pre == code[..|info[top].pre|] && Built(c, info[top])
      && (top == 0 ==> c.l <= info[top].j)
  {
    hide E, U, Off, First, Msb, Pos, Val, Pow2, Chain, OthersClosed, Prefixes, Built;
  }

  /** The bits that a table is looked up with find one of its cells. */
  lemma GoodLook(c: Book, tabs: seq<seq<Entry>>, info: seq<Info>, T: nat, s: seq<bool>)
    requires |s| >= LONG && |info| == |tabs| && T < |tabs| && GoodEntry(c, tabs, info, T, s)
    ensures var w, q := |info[T].pre|, Look(c, info, T); w + q <= |s| && Val(s[w..w + q]) < |tabs[T]|
  {
  }

  lemma CodeStarts(c: Book, s: seq<bool>, code: seq<bool>, k: nat, t: nat)
    requires Valid(c) && c.g <= |s| && 1 <= k <= c.g && t < c.cc[k] && |code| == k && Msb(code) == First(c, k) + t
    requires X(c.g, s) < Pos(c, k, t)
    ensures s[..k] != code
  {
    InOwnPrefix(c.g, s, k);
  }

  /** The current code starts inside the subtree of each of its prefixes. */
  lemma FitsOrBefore(c: Book, i: Info, code: seq<bool>, k: nat, t: nat)
    requires Valid(c) && 1 <= k <= c.g && t < c.cc[k] && |code| == k && Msb(code) == First(c, k) + t
    requires |i.pre| <= k && i.pre == code[..|i.pre|]
    ensures Left(c.g, i.pre) <= Pos(c, k, t) < Right(c, i.pre)
  {
    hide E, First, Msb, Pow2;
    var s := code + seq(c.g - k, _ => false);
    assert s[..|i.pre|] == i.pre && s[..c.g] == s;
    InOwnPrefix(c.g, s, |i.pre|);
    Zeros(code, c.g - k);
  }

  lemma {:induction false} Zeros(code: seq<bool>, n: nat)
    ensures Msb(code + seq(n, _ => false)) == Msb(code) * Pow2(n)
  {
    MsbCat(code, seq(n, _ => false));
    ZeroMsb(n);
  }

  lemma {:induction false} ZeroMsb(n: nat)
    ensures Msb(seq(n, _ => false)) == 0
  {
    if n > 0 {
      ZeroMsb(n - 1);
      assert seq(n, _ => false)[..n - 1] == seq(n - 1, _ => false);
    }
  }

  /** After the fill every stream up to the end of the new code finds good entries. */
  lemma StepGood(c: Book, tabs: seq<seq<Entry>>, info: seq<Info>, u: seq<nat>, x: seq<nat>,
                 code: seq<bool>, k: nat, t: nat, row: seq<Entry>)
    requires |info| == |tabs| && Step(c, tabs, info, u, x, code, k, t, row)
    requires GoodTo(c, tabs, info, Pos(c, k, t))
    ensures GoodTo(c, tabs[u[|u| - 1] := row], info, Pos(c, k, t + 1))
  {
    hide E, U, Off, First, Msb, Pos, Val, Pow2, Left, Right, X, GoodEntry, NarrowTo, FillsRow, OnPath, AllBuilt, Linked;
    var tabs' := tabs[u[|u| - 1] := row];
    PosIsE(c, k, t);
    forall T: nat, s | T < |tabs| && |s| >= LONG && c.g <= |s| && |info[T].pre| <= |s| && s[..|info[T].pre|] == info[T].pre && X(c.g, s) < Pos(c, k, t + 1) && Plain(c, s)
      ensures GoodEntry(c, tabs', info, T, s)
    {
      if X(c.g, s) < Pos(c, k, t) {
        assert GoodEntry(c, tabs, info, T, s);
        OldCodeGood(c, tabs, info, u, x, code, k, t, row, T, s);
      } else {
        assert InCode(c, s, k, t);
        NewCodeGood(c, tabs, info, u, x, code, k, t, row, T, s);
      }
    }
  }

  // ---------- the stream of ones, which finds out a table that is too wide ----------

  function Ones(n: nat): (b: seq<bool>)
    ensures |b| == n
    ensures forall i :: 0 <= i < n ==> b[i]
  {
    seq(n, _ => true)
  }

  lemma {:induction false} OnesVal(n: nat)
    ensures Val(Ones(n)) == Pow2(n) - 1 == Msb(Ones(n))
  {
    if n > 0 {
      OnesVal(n - 1);
      assert Ones(n)[1..] == Ones(n - 1) == Ones(n)[..n - 1];
    }
  }

  /** The cell of table T that the stream of ones looks up: a value there only when no code is longer than
      w + l bits, and a link there only from a table that is not too wide, to a table behind ones. */
  ghost predicate OnesCell(c: Book, tabs: seq<seq<Entry>>, info: seq<Info>, T: nat)
    requires |info| == |tabs| && T < |tabs| && |c.cc| == BMAX + 1 && c.g <= BMAX
  {
    var w, q := |info[T].pre|, Look(c, info, T);
    info[T].pre == Ones(w) && Pow2(q) - 1 < |tabs[T]| ==>
      match tabs[T][Pow2(q) - 1]
      case Unset => true
      case Data(_, _, _) => E(c, w + c.l) == Pow2(c.g)
      case Link(b, e, t) => q <= c.l && T < t < |tabs| && info[t].pre == Ones(w + c.l) && b == c.l && e == 16 + info[t].j
  }

  ghost predicate AllOnes(c: Book, tabs: seq<seq<Entry>>, info: seq<Info>)
    requires |info| == |tabs| && |c.cc| == BMAX + 1 && c.g <= BMAX
  {
    forall T {:trigger OnesCell(c, tabs, info, T)} :: 0 <= T < |tabs| ==> OnesCell(c, tabs, info, T)
  }

  /** A table behind w bits that is too wide to link from, on the path of the ones. */
  ghost predicate WideAt(c: Book, W: nat)
    requires |c.cc| == BMAX + 1 && c.g <= BMAX && 1 <= c.l
  {
    0 < W && W % c.l == 0 && W + c.l < c.g && Pow2(c.g) - E(c, W + c.l - 1) >= U(c.g, W)
  }

  /** With a too wide table on its path the stream of ones ends in a cell that was never written. */
  lemma {:induction false} OnesFail(c: Book, tabs: seq<seq<Entry>>, info: seq<Info>, T: nat, W: nat)
    requires Valid(c) && c.cc[c.g] > 0 && Shape(c, tabs, info) && AllBuilt(c, info) && AllOnes(c, tabs, info)
    requires WideAt(c, W) && T < |tabs| && |info[T].pre| <= W && info[T].pre == Ones(|info[T].pre|)
    ensures Walk(tabs, T, Look(c, info, T), Ones(LONG), |info[T].pre|) == Garbage
    decreases |tabs| - T
  {
    hide E, U, Val, Msb, Built, Pow2;
    var w, q := |info[T].pre|, Look(c, info, T);
    assert Built(c, info[T]) && OnesCell(c, tabs, info, T);
    BuiltIs(c, info[T]);
    PowMono(q, info[T].j);
    assert Ones(LONG)[w..w + q] == Ones(q);
    OnesVal(q);
    ShortOfFull(c, w + c.l);
    if tabs[T][Pow2(q) - 1].Link? {
      if w == W {
        OnesWide(c, info[T]);
      } else {
        NextMultiple(w, W, c.l);
        OnesFail(c, tabs, info, tabs[T][Pow2(q) - 1].t, W);
      }
    }
  }

  lemma BuiltIs(c: Book, i: Info)
    requires Built(c, i)
    ensures |i.pre| < c.g && |i.pre| % c.l == 0 && 1 <= i.j <= BMAX + 1
  {
  }

  /** The wide table on the path of the ones. */
  lemma OnesWide(c: Book, i: Info)
    requires Valid(c) && c.cc[c.g] > 0 && Built(c, i) && i.pre == Ones(|i.pre|) && WideAt(c, |i.pre|)
    ensures i.j > c.l
  {
    hide E, U, Val, Msb;
    OnesLeft(c, |i.pre|);
    ShortOfFull(c, |i.pre| + c.l);
  }

  lemma OnesLeft(c: Book, w: nat)
    requires Valid(c) && w <= c.g
    ensures Left(c.g, Ones(w)) == Pow2(c.g) - U(c.g, w)
  {
    OnesVal(w);
    UStep(c.g, 0, w);
    hide U, Pow2, Msb;
    Minus(Pow2(w), 1, U(c.g, w));
  }

  lemma ShortOfFull(c: Book, k: nat)
    requires Valid(c) && c.cc[c.g] > 0
    ensures k < c.g ==> E(c, k) < Pow2(c.g)
  {
    if k < c.g {
      EMono(c, k, c.g - 1);
      Sign(c.cc[c.g], U(c.g, c.g));
    }
  }

  lemma NextMultiple(w: nat, W: nat, l: nat)
    requires l > 0 && w < W && w % l == 0 && W % l == 0
    ensures w + l <= W
  {
    var a, b := w / l, W / l;
    assert w == a * l && W == b * l;
    if b <= a {
      MulMono(b, a, l);
    }
    MulLess(a, b, l);
  }

  // ---------- opening a further table ----------

  /** A table may be opened at the current code: the code is longer than the top table reaches, and starts
      the subtree below its first |pre| bits. */
  ghost predicate Opening(c: Book, tabs: seq<seq<Entry>>, info: seq<Info>, u: seq<nat>, x: seq<nat>,
                          code: seq<bool>, k: nat, t: nat, pre: seq<bool>, j: nat)
    requires |info| == |tabs|
  {
    && Valid(c) && Shape(c, tabs, info) && AllBuilt(c, info)
    && 1 <= k <= c.g && t < c.cc[k] && |code| == k && Msb(code) == First(c, k) + t
    && Stack(c, tabs, info, u, x, Pos(c, k, t)) && OnPath(info, u, code)
    && |pre| < k && pre == code[..|pre|] && Left(c.g, pre) == Pos(c, k, t)
    && Built(c, Info(pre, j))
    && (if |u| == 0 then tabs == [] && pre == [] && c.l <= j
        else |pre| == |info[u[|u| - 1]].pre| + c.l)
  }

  /** The tables after a new one with j index bits has been linked to the top one. */
  function Opened(c: Book, tabs: seq<seq<Entry>>, info: seq<Info>, u: seq<nat>, pre: seq<bool>, j: nat): (r: seq<seq<Entry>>)
    requires |info| == |tabs|
    requires |u| > 0 ==> u[|u| - 1] < |tabs| && |info[u[|u| - 1]].pre| <= |pre|
                         && Val(pre[|info[u[|u| - 1]].pre|..]) < |tabs[u[|u| - 1]]|
  {
    (if |u| == 0 then tabs
     else var top := u[|u| - 1];
          tabs[top := tabs[top][Val(pre[|info[top].pre|..]) := Link(c.l, 16 + j, |tabs|)]])
    + [seq(Pow2(j), _ => Unset)]
  }

  lemma OpeningFits(c: Book, tabs: seq<seq<Entry>>, info: seq<Info>, u: seq<nat>, x: seq<nat>,
                    code: seq<bool>, k: nat, t: nat, pre: seq<bool>, j: nat)
    requires |info| == |tabs| && Opening(c, tabs, info, u, x, code, k, t, pre, j)
    ensures |u| > 0 ==>
      var top := u[|u| - 1]; var w := |info[top].pre|;
      && top < |tabs| && w + c.l == |pre| && |pre[w..]| == c.l && pre[..w] == info[top].pre
      && c.l <= info[top].j && Val(pre[w..]) < Pow2(c.l) <= |tabs[top]|
      && c.l <= Look(c, info, top)
  {
    hide E, U, Off, First, Msb, Pos, Val, Pow2, Linked, Left, Right;
    if |u| > 0 {
      var top := u[|u| - 1];
      FitsOrBefore(c, info[top], code, k, t);
      CodeFits(c, info[top], k, t);
      PowMono(c.l, info[top].j);
    }
  }

  /** Only the first table has an empty prefix. */
  lemma StackRootOnly(c: Book, tabs: seq<seq<Entry>>, info: seq<Info>, u: seq<nat>, x: seq<nat>, P: nat)
    requires |info| == |tabs| && Stack(c, tabs, info, u, x, P) && |u| > 0 && 1 <= c.l
    ensures u[|u| - 1] != 0 ==> |info[u[|u| - 1]].pre| > 0
  {
    assert u[|u| - 1] < |tabs|;
  }

  /** No stream before the current code runs below the new prefix. */
  lemma BeforePrefix(c: Book, s: seq<bool>, pre: seq<bool>)
    requires |pre| <= c.g <= |s| && X(c.g, s) < Left(c.g, pre)
    ensures s[..|pre|] != pre
  {
    InOwnPrefix(c.g, s, |pre|);
  }

  lemma OpenGood(c: Book, tabs: seq<seq<Entry>>, info: seq<Info>, u: seq<nat>, x: seq<nat>,
                 code: seq<bool>, k: nat, t: nat, pre: seq<bool>, j: nat)
    requires |info| == |tabs| && Opening(c, tabs, info, u, x, code, k, t, pre, j)
    requires GoodTo(c, tabs, info, Pos(c, k, t))
    requires |u| > 0 ==> u[|u| - 1] < |tabs| && |info[u[|u| - 1]].pre| <= |pre|
                         && Val(pre[|info[u[|u| - 1]].pre|..]) < |tabs[u[|u| - 1]]|
    ensures GoodTo(c, Opened(c, tabs, info, u, pre, j), info + [Info(pre, j)], Pos(c, k, t))
  {
    hide E, U, Off, First, Msb, Pos, Val, Pow2, Left, Right, X, GoodEntry, Plain, OnPath, AllBuilt, Linked, Built, Stack, Opened;
    var tabs', info' := Opened(c, tabs, info, u, pre, j), info + [Info(pre, j)];
    OpeningFits(c, tabs, info, u, x, code, k, t, pre, j);
    OpenedSize(c, tabs, info, u, pre, j);
    forall T: nat, s | T < |tabs'| && |s| >= LONG && c.g <= |s| && |info'[T].pre| <= |s| && s[..|info'[T].pre|] == info'[T].pre && X(c.g, s) < Pos(c, k, t) && Plain(c, s)
      ensures GoodEntry(c, tabs', info', T, s)
    {
      BeforePrefix(c, s, pre);
      assert T < |tabs|;
      assert GoodEntry(c, tabs, info, T, s);
      OpenCellKept(c, tabs, info, u, pre, j, T, s);
      SameCellMore(c, tabs, tabs', info, info', T, s);
    }
  }

  lemma OpenedSize(c: Book, tabs: seq<seq<Entry>>, info: seq<Info>, u: seq<nat>, pre: seq<bool>, j: nat)
    requires |info| == |tabs|
    requires |u| > 0 ==> u[|u| - 1] < |tabs| && |info[u[|u| - 1]].pre| <= |pre|
                         && Val(pre[|info[u[|u| - 1]].pre|..]) < |tabs[u[|u| - 1]]|
    ensures var r := Opened(c, tabs, info, u, pre, j);
            && |r| == |tabs| + 1 && |r[|tabs|]| == Pow2(j)
            && (forall x :: 0 <= x < Pow2(j) ==> r[|tabs|][x] == Unset)
            && (forall T {:trigger r[T]} :: 0 <= T < |tabs| ==> |r[T]| == |tabs[T]|)
            && (forall T {:trigger r[T]} :: 0 <= T < |tabs| && (|u| == 0 || T != u[|u| - 1]) ==> r[T] == tabs[T])
            && (|u| > 0 ==> var top := u[|u| - 1];
                            r[top] == tabs[top][Val(pre[|info[top].pre|..]) := Link(c.l, 16 + j, |tabs|)])
  {
  }

  /** The cell that gets the link is not one that an earlier stream looks up. */
  lemma OpenCellKept(c: Book, tabs: seq<seq<Entry>>, info: seq<Info>, u: seq<nat>, pre: seq<bool>, j: nat, T: nat, s: seq<bool>)
    requires |info| == |tabs| && T < |tabs| && |s| >= LONG && GoodEntry(c, tabs, info, T, s)
    requires |info[T].pre| <= |s| && s[..|info[T].pre|] == info[T].pre
    requires |pre| <= |s| && s[..|pre|] != pre
    requires |u| > 0 ==> var top := u[|u| - 1];
                         top < |tabs| && |info[top].pre| + c.l == |pre| && pre[..|info[top].pre|] == info[top].pre
                         && c.l <= Look(c, info, top) && Val(pre[|info[top].pre|..]) < |tabs[top]|
    ensures var r := Opened(c, tabs, info, u, pre, j); var w, q := |info[T].pre|, Look(c, info, T);
            T < |r| && |r[T]| == |tabs[T]| && w + q <= |s| && Val(s[w..w + q]) < |r[T]|
            && r[T][Val(s[w..w + q])] == tabs[T][Val(s[w..w + q])]
  {
    hide InCode, CodeEntry, Val, Pow2, Opened;
    OpenedSize(c, tabs, info, u, pre, j);
    var w, q := |info[T].pre|, Look(c, info, T);
    if |u| > 0 && T == u[|u| - 1] && Val(s[w..w + q]) == Val(pre[w..]) {
      var r := s[w..w + q];
      assert r[..c.l] == s[w..w + c.l];
      ValSplit(r, c.l);
      SmallMod(Val(pre[w..]), Pow2(c.l));
      assert s[..|pre|] == s[..w] + s[w..w + c.l] && pre == pre[..w] + pre[w..];
      ValInjective(s[w..w + c.l], pre[w..]);
    }
  }

  lemma SmallMod(x: nat, p: nat)
    requires x < p
    ensures x % p == x
  {
  }

  lemma SameCellMore(c: Book, tabs: seq<seq<Entry>>, tabs': seq<seq<Entry>>, info: seq<Info>, info': seq<Info>, T: nat, s: seq<bool>)
    requires |info| == |tabs| <= |tabs'| == |info'| && info == info'[..|info|]
    requires T < |tabs| && |s| >= LONG && GoodEntry(c, tabs, info, T, s)
    requires |tabs'[T]| == |tabs[T]|
    requires var w, q := |info[T].pre|, Look(c, info, T); tabs'[T][Val(s[w..w + q])] == tabs[T][Val(s[w..w + q])]
    ensures GoodEntry(c, tabs', info', T, s)
  {
    hide InCode, CodeEntry, Val;
    assert info'[T] == info[T];
  }

  lemma OpenShape(c: Book, tabs: seq<seq<Entry>>, info: seq<Info>, u: seq<nat>, x: seq<nat>,
                  code: seq<bool>, k: nat, t: nat, pre: seq<bool>, j: nat)
    requires |info| == |tabs| && Opening(c, tabs, info, u, x, code, k, t, pre, j)
    requires |u| > 0 ==> u[|u| - 1] < |tabs| && |info[u[|u| - 1]].pre| <= |pre|
                         && Val(pre[|info[u[|u| - 1]].pre|..]) < |tabs[u[|u| - 1]]|
    ensures var tabs', info' := Opened(c, tabs, info, u, pre, j), info + [Info(pre, j)];
            Shape(c, tabs', info') && AllBuilt(c, info') && OnPath(info', u + [|tabs|], code)
  {
    hide E, U, Off, First, Msb, Pos, Val, Pow2, Left, Right, X, NarrowTo, Linked, Opened;
    OpenedSize(c, tabs, info, u, pre, j);
    var tabs', info' := Opened(c, tabs, info, u, pre, j), info + [Info(pre, j)];
    forall T | 0 <= T < |tabs'| ensures
      |info'[T].pre| < c.g && 1 <= info'[T].j <= BMAX + 1 && |tabs'[T]| == Pow2(info'[T].j)
      && (T == 0 ==> info'[T].pre == [] && c.l <= info'[T].j) && Built(c, info'[T])
    {
      if T < |tabs| {
        assert info'[T] == info[T];
      }
    }
    forall m | 0 <= m <= |u| ensures
      var T := (u + [|tabs|])[m]; T < |info'| && |info'[T].pre| < |code| && info'[T].pre == code[..|info'[T].pre|]
    {
      if m < |u| {
        assert u[m] < |info|;
      }
    }
  }

  lemma OpenStack(c: Book, tabs: seq<seq<Entry>>, info: seq<Info>, u: seq<nat>, x: seq<nat>,
                  code: seq<bool>, k: nat, t: nat, pre: seq<bool>, j: nat)
    requires |info| == |tabs| && Opening(c, tabs, info, u, x, code, k, t, pre, j)
    requires |u| > 0 ==> u[|u| - 1] < |tabs| && |info[u[|u| - 1]].pre| <= |pre|
                         && Val(pre[|info[u[|u| - 1]].pre|..]) < |tabs[u[|u| - 1]]|
    ensures Stack(c, Opened(c, tabs, info, u, pre, j), info + [Info(pre, j)], u + [|tabs|], x + [Val(pre)], Pos(c, k, t))
  {
    hide E, U, Off, First, Msb, Pos, Val, Pow2, Left, X, NarrowTo, Opened, Shape, AllBuilt, OnPath, Built, Linked, Closed;
    hide OthersClosed;
    OpenedSize(c, tabs, info, u, pre, j);
    var tabs', info', u' := Opened(c, tabs, info, u, pre, j), info + [Info(pre, j)], u + [|tabs|];
    forall m | 0 <= m && m + 1 < |u'| && Deeper(m) ensures Linked(c, tabs', info', u'[m], u'[m + 1]) {
      OpenLinked(c, tabs, info, u, x, code, k, t, pre, j, m);
    }
    OpenPrefixes(c, tabs, info, u, x, Pos(c, k, t), Info(pre, j));
    OpenClosed(c, tabs, info, u, x, Pos(c, k, t), Info(pre, j));
  }

  lemma OpenLinked(c: Book, tabs: seq<seq<Entry>>, info: seq<Info>, u: seq<nat>, x: seq<nat>,
                   code: seq<bool>, k: nat, t: nat, pre: seq<bool>, j: nat, m: nat)
    requires |info| == |tabs| && Opening(c, tabs, info, u, x, code, k, t, pre, j)
    requires |u| > 0 ==> u[|u| - 1] < |tabs| && |info[u[|u| - 1]].pre| <= |pre|
                         && Val(pre[|info[u[|u| - 1]].pre|..]) < |tabs[u[|u| - 1]]|
    requires m < |u|
    ensures Linked(c, Opened(c, tabs, info, u, pre, j), info + [Info(pre, j)], u[m], (u + [|tabs|])[m + 1])
  {
    hide E, U, Off, First, Msb, Pos, Val, Pow2, Left, X, NarrowTo, Opened, Shape, AllBuilt, OnPath, Built;
    OpenedSize(c, tabs, info, u, pre, j);
    OpeningFits(c, tabs, info, u, x, code, k, t, pre, j);
    var info' := info + [Info(pre, j)];
    assert u[m] < |tabs| && info'[u[m]] == info[u[m]];
    if m + 1 < |u| {
      assert Deeper(m) && Linked(c, tabs, info, u[m], u[m + 1]);
      StackIncreases(c, tabs, info, u, x, Pos(c, k, t), m, |u| - 1);
      assert info'[u[m + 1]] == info[u[m + 1]];
    }
  }

  lemma InAppend(u: seq<nat>, n: nat, T: nat)
    ensures T in u + [n] <==> T in u || T == n
  {
    assert (u + [n])[|u|] == n;
  }

  lemma OpenPrefixes(c: Book, tabs: seq<seq<Entry>>, info: seq<Info>, u: seq<nat>, x: seq<nat>, P: nat, i: Info)
    requires |info| == |tabs| && Stack(c, tabs, info, u, x, P) && 1 <= c.l
    requires if |u| == 0 then i.pre == [] else |i.pre| == |info[u[|u| - 1]].pre| + c.l
    ensures Prefixes(info + [i], u + [|tabs|], x + [Val(i.pre)])
  {
    hide Val, Linked, Closed;
    forall m | 0 <= m <= |u| ensures
      var T := (u + [|tabs|])[m];
      T <= |tabs| && (x + [Val(i.pre)])[m] == Val((info + [i])[T].pre) && m <= |(info + [i])[T].pre|
    {
      if m < |u| {
        assert u[m] < |tabs|;
      } else if m > 0 {
        assert u[m - 1] < |tabs| && m - 1 <= |info[u[m - 1]].pre|;
      }
    }
  }

  lemma OpenClosed(c: Book, tabs: seq<seq<Entry>>, info: seq<Info>, u: seq<nat>, x: seq<nat>, P: nat, i: Info)
    requires |info| == |tabs| && Stack(c, tabs, info, u, x, P)
    ensures OthersClosed(c, info + [i], u + [|tabs|], P)
  {
    hide Right, Linked;
    forall T | 0 <= T <= |tabs| && T !in u + [|tabs|] ensures Closed(c, info + [i], T, P) {
      InAppend(u, |tabs|, T);
      assert Closed(c, info, T, P);
    }
  }

  lemma OpenOnes(c: Book, tabs: seq<seq<Entry>>, info: seq<Info>, u: seq<nat>, x: seq<nat>,
                 code: seq<bool>, k: nat, t: nat, pre: seq<bool>, j: nat)
    requires |info| == |tabs| && Opening(c, tabs, info, u, x, code, k, t, pre, j)
    requires |u| > 0 ==> u[|u| - 1] < |tabs| && |info[u[|u| - 1]].pre| <= |pre|
                         && Val(pre[|info[u[|u| - 1]].pre|..]) < |tabs[u[|u| - 1]]|
    requires AllOnes(c, tabs, info)
    ensures AllOnes(c, Opened(c, tabs, info, u, pre, j), info + [Info(pre, j)])
  {
    hide E, U, Off, First, Msb, Pos, Val, Left, X, NarrowTo, Opened, OnPath, Built, Pow2, Stack;
    OpenedSize(c, tabs, info, u, pre, j);
    OpeningFits(c, tabs, info, u, x, code, k, t, pre, j);
    var tabs', info' := Opened(c, tabs, info, u, pre, j), info + [Info(pre, j)];
    forall T | 0 <= T < |tabs'| ensures OnesCell(c, tabs', info', T) {
      if T < |tabs| {
        assert info'[T] == info[T] && OnesCell(c, tabs, info, T);
        if |u| > 0 && T == u[|u| - 1] {
          OpenOnesTop(c, tabs, tabs', info, info', T, pre, j);
        }
      } else {
        OnesVal(Look(c, info', T));
      }
    }
  }

  lemma OpenOnesTop(c: Book, tabs: seq<seq<Entry>>, tabs': seq<seq<Entry>>, info: seq<Info>, info': seq<Info>, T: nat, pre: seq<bool>, j: nat)
    requires |info| == |tabs| && T < |tabs| && |c.cc| == BMAX + 1 && c.g <= BMAX && OnesCell(c, tabs, info, T)
    requires |info[T].pre| + c.l == |pre| && pre[..|info[T].pre|] == info[T].pre
    requires c.l <= info[T].j && Val(pre[|info[T].pre|..]) < Pow2(c.l) <= |tabs[T]|
    requires |tabs'| == |info'| == |tabs| + 1 && info'[T] == info[T] && info'[|tabs|] == Info(pre, j)
    requires forall t {:trigger info'[t]} :: 0 <= t < |tabs| ==> info'[t] == info[t]
    requires tabs'[T] == tabs[T][Val(pre[|info[T].pre|..]) := Link(c.l, 16 + j, |tabs|)]
    ensures OnesCell(c, tabs', info', T)
  {
    hide E, Val, Pow2, Msb;
    var w, q := |info[T].pre|, Look(c, info, T);
    OnesVal(q);
    if Val(pre[w..]) == Pow2(q) - 1 && info[T].pre == Ones(w) {
      if q > c.l {
        PowMono(c.l + 1, q);
        PowDouble(c.l);
      } else {
        OnesOnes(pre, w, q);
      }
    }
  }

  lemma OnesOnes(pre: seq<bool>, w: nat, q: nat)
    requires |pre| == w + q && pre[..w] == Ones(w) && Val(pre[w..]) == Pow2(q) - 1
    ensures pre == Ones(w + q)
  {
    hide Val, Pow2;
    OnesVal(q);
    ValInjective(pre[w..], Ones(q));
    assert pre == pre[..w] + pre[w..];
  }

  lemma PowDouble(n: nat)
    ensures Pow2(n + 1) == 2 * Pow2(n) && Pow2(n) >= 1
  {
  }

  // ---------- the rest of a step ----------

  /** The fill keeps the shape of the tables and the links between the open ones. */
  lemma StepKeeps(c: Book, tabs: seq<seq<Entry>>, info: seq<Info>, u: seq<nat>, x: seq<nat>,
                  code: seq<bool>, k: nat, t: nat, row: seq<Entry>)
    requires |info| == |tabs| && Step(c, tabs, info, u, x, code, k, t, row)
    ensures u[|u| - 1] < |tabs|
    ensures var tabs' := tabs[u[|u| - 1] := row];
            Shape(c, tabs', info) && Stack(c, tabs', info, u, x, Pos(c, k, t))
  {
    hide E, U, Off, First, Msb, Pos, Val, Left, X, NarrowTo, Opened, OnPath, Built, Pow2, Right, EntryOf;
    var tabs' := tabs[u[|u| - 1] := row];
    forall m | 0 <= m && m + 1 < |u| && Deeper(m) ensures Linked(c, tabs', info, u[m], u[m + 1]) {
      assert Deeper(m) && Linked(c, tabs, info, u[m], u[m + 1]);
      StackIncreases(c, tabs, info, u, x, Pos(c, k, t), m, |u| - 1);
    }
    forall T | 0 <= T < |tabs'| && T !in u ensures Closed(c, info, T, Pos(c, k, t)) {
      assert Closed(c, info, T, Pos(c, k, t));
    }
  }

  /** A code that ends on the stream of ones is the last one. */
  lemma StepOnes(c: Book, tabs: seq<seq<Entry>>, info: seq<Info>, u: seq<nat>, x: seq<nat>,
                 code: seq<bool>, k: nat, t: nat, row: seq<Entry>)
    requires |info| == |tabs| && Step(c, tabs, info, u, x, code, k, t, row) && AllOnes(c, tabs, info)
    ensures u[|u| - 1] < |tabs| && AllOnes(c, tabs[u[|u| - 1] := row], info)
  {
    hide E, U, Off, First, Msb, Pos, Val, Left, X, NarrowTo, OnPath, Built, Pow2, Right, Linked;
    var top := u[|u| - 1];
    var tabs' := tabs[top := row];
    forall T | 0 <= T < |tabs'| ensures OnesCell(c, tabs', info, T) {
      assert OnesCell(c, tabs, info, T);
      if T == top {
        StepOnesTop(c, tabs, info, u, x, code, k, t, row);
      }
    }
  }

  lemma StepOnesTop(c: Book, tabs: seq<seq<Entry>>, info: seq<Info>, u: seq<nat>, x: seq<nat>,
                    code: seq<bool>, k: nat, t: nat, row: seq<Entry>)
    requires |info| == |tabs| && Step(c, tabs, info, u, x, code, k, t, row)
    requires u[|u| - 1] < |tabs| && OnesCell(c, tabs, info, u[|u| - 1])
    ensures OnesCell(c, tabs[u[|u| - 1] := row], info, u[|u| - 1])
  {
    hide E, U, Off, First, Pos, Val, Left, NarrowTo, Built, Pow2, Right, Linked, Msb;
    var top := u[|u| - 1];
    var w, q := |info[top].pre|, Look(c, info, top);
    FitsOrBefore(c, info[top], code, k, t);
    CodeFits(c, info[top], k, t);
    PowMono(q, info[top].j);
    OnesVal(q);
    if info[top].pre == Ones(w) && (Pow2(q) - 1) % Pow2(k - w) == Val(code[w..]) {
      assert Ones(LONG)[w..w + q] == Ones(q);
      assert Ones(LONG)[..w] == code[..w];
      FilledCell(Ones(LONG), code, w, q);
      OnesLast(c, code, k, t, w + c.l);
    }
  }

  lemma OnesLast(c: Book, code: seq<bool>, k: nat, t: nat, m: nat)
    requires Valid(c) && 1 <= k <= c.g && t < c.cc[k] && |code| == k && Msb(code) == First(c, k) + t
    requires Ones(LONG)[..k] == code && k <= m
    ensures E(c, m) == Pow2(c.g)
  {
    hide E, Msb, Pow2;
    assert code == Ones(k);
    OnesLeft(c, k);
    PosBounds(c, k, t);
    EMono(c, k, m);
    if m > c.g {
      EBeyond(c, m);
    } else {
      EMono(c, m, c.g);
    }
  }
}
