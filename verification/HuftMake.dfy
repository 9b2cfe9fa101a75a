/** The main loop of the table builder: one code after the other, opening and closing tables on the way. */
module HuftMakes {
  import opened BitStrings
  import opened HuftCodes
  import opened HuftBuilds

  /** The bits behind which the top table starts; -l before there is one. */
  function Top(c: Book, info: seq<Info>, u: seq<nat>): int
    requires forall m :: 0 <= m < |u| ==> u[m] < |info|
  {
    if |u| == 0 then 0 - c.l else |info[u[|u| - 1]].pre|
  }

  /** The code register i at the t-th code of k bits: the code with its first bit least significant, on the
      path of the open tables. */
  ghost predicate AtCode(c: Book, info: seq<Info>, u: seq<nat>, k: nat, t: nat, i: nat, code: seq<bool>)
    requires |c.cc| == BMAX + 1 && k <= BMAX
  {
    |code| == k && Msb(code) == First(c, k) + t && i == Val(code) && OnPath(info, u, code)
  }

  /** The tables when all codes before P are in. */
  ghost predicate Tables(c: Book, tabs: seq<seq<Entry>>, info: seq<Info>, u: seq<nat>, x: seq<nat>, P: nat) {
    && |info| == |tabs| && |c.cc| == BMAX + 1 && 1 <= c.l <= c.g <= BMAX
    && Shape(c, tabs, info) && AllBuilt(c, info) && AllOnes(c, tabs, info)
    && Stack(c, tabs, info, u, x, P)
    && GoodTo(c, tabs, info, P)
    && (|u| == 0 ==> tabs == [] && P == 0)
  }

  /** What holds whenever the next code is the t-th one of k bits, or all codes of k bits are done. */
  ghost predicate Inv(c: Book, tabs: seq<seq<Entry>>, info: seq<Info>, u: seq<nat>, x: seq<nat>, w: int,
                      k: nat, t: nat, i: nat, code: seq<bool>) {
    && Valid(c) && c.cc[c.g] > 0 && 1 <= k <= c.g && t <= c.cc[k]
    && Tables(c, tabs, info, u, x, Pos(c, k, t))
    && w == Top(c, info, u) && Pos(c, k, t) % U(c.g, w + c.l) == 0
    && (Pos(c, k, t) < Pow2(c.g) ==> AtCode(c, info, u, k, t, i, code))
  }

  /** The t-th code of its length. */
  ghost predicate IsCode(c: Book, code: seq<bool>, t: nat) {
    |c.cc| == BMAX + 1 && 1 <= |code| <= c.g <= BMAX && t < c.cc[|code|] && Msb(code) == First(c, |code|) + t
  }

  /** Some code runs through the prefix, which is whole index widths long, and is longer. */
  ghost predicate NeededAt(c: Book, pre: seq<bool>) {
    && c.l > 0 && |pre| % c.l == 0
    && exists code, t: nat {:trigger IsCode(c, code, t)} :: IsCode(c, code, t) && |pre| < |code| && pre == code[..|pre|]
  }

  ghost predicate Distinct(pres: seq<seq<bool>>) {
    forall T, R :: 0 <= T < R < |pres| ==> pres[T] != pres[R]
  }

  /** Different prefixes, all of which need a table. */
  ghost predicate Needed(c: Book, pres: seq<seq<bool>>) {
    Distinct(pres) && forall T {:trigger pres[T]} :: 0 <= T < |pres| ==> NeededAt(c, pres[T])
  }

  /** The prefixes of the tables. */
  ghost predicate Prefixed(info: seq<Info>, pres: seq<seq<bool>>) {
    |pres| == |info| && forall T {:trigger pres[T]} :: 0 <= T < |pres| ==> pres[T] == info[T].pre
  }

  // ---------- where the code sits ----------

  lemma MsbSplit(g: nat, code: seq<bool>, m: nat)
    requires m <= |code| <= g
    ensures Msb(code) * U(g, |code|) == Left(g, code[..m]) + Msb(code[m..]) * U(g, |code|)
    ensures Msb(code[m..]) * U(g, |code|) < U(g, m)
  {
    hide Msb, U, Pow2;
    var k := |code|;
    assert code == code[..m] + code[m..];
    MsbCat(code[..m], code[m..]);
    UStep(g, m, k - m);
    SplitTimes(Msb(code[..m]), Pow2(k - m), Msb(code[m..]), U(g, k));
  }

  lemma SplitTimes(a: nat, p: nat, b: nat, u: nat)
    requires b < p && u > 0
    ensures (a * p + b) * u == a * (p * u) + b * u && b * u < p * u
  {
    Distribute(a * p, b, u);
    Assoc(a, p, u);
    MulLess(b, p, u);
  }

  lemma Assoc(a: nat, b: nat, c: nat)
    ensures (a * b) * c == a * (b * c)
  {
  }

  /** A code that starts on a multiple of the subtree width at m has only zeros behind its first m bits. */
  lemma AtBoundary(g: nat, code: seq<bool>, m: nat)
    requires m <= |code| <= g && (Msb(code) * U(g, |code|)) % U(g, m) == 0
    ensures Left(g, code[..m]) == Msb(code) * U(g, |code|)
    ensures Val(code) == Val(code[..m])
    ensures forall w :: 0 <= w <= m ==> Val(code) / Pow2(w) == Val(code[..m][w..])
  {
    hide Msb, U, Pow2, Val, Left;
    BehindBoundary(g, code, m);
    ZeroBits(code[m..]);
    assert code == code[..m] + code[m..];
    ValCat(code[..m], code[m..]);
    ZeroTimes(Pow2(m));
    AllSplits(code[..m]);
  }

  lemma AllSplits(b: seq<bool>)
    ensures forall w :: 0 <= w <= |b| ==> Val(b) / Pow2(w) == Val(b[w..])
  {
    hide Val, Pow2;
    forall w | 0 <= w <= |b| ensures Val(b) / Pow2(w) == Val(b[w..]) {
      ValSplit(b, w);
    }
  }

  lemma ZeroTimes(p: nat)
    ensures 0 * p == 0
  {
  }

  lemma BehindBoundary(g: nat, code: seq<bool>, m: nat)
    requires m <= |code| <= g && (Msb(code) * U(g, |code|)) % U(g, m) == 0
    ensures Left(g, code[..m]) == Msb(code) * U(g, |code|) && Msb(code[m..]) == 0
  {
    hide Msb, U, Pow2, Left;
    MsbSplit(g, code, m);
    var b, u := Msb(code[m..]), U(g, |code|);
    LeftMod(g, code[..m], b * u);
    Sign(b, u);
  }

  lemma LeftMod(g: nat, pre: seq<bool>, r: nat)
    requires |pre| <= g && r < U(g, |pre|)
    ensures (Left(g, pre) + r) % U(g, |pre|) == r
  {
    hide Msb, U;
    DivModUnique(Left(g, pre) + r, U(g, |pre|), Msb(pre), r);
  }

  lemma {:induction false} ZeroBits(b: seq<bool>)
    requires Msb(b) == 0
    ensures Val(b) == 0
  {
    if b != [] {
      var c := b[..|b| - 1];
      ZeroBits(c);
      assert b == c + [false];
      ValCat(c, [false]);
      assert Val([false]) == 0;
    }
  }

  /** A multiple of the subtree width at a is a multiple of the width further down. */
  lemma ModFiner(g: nat, P: nat, a: nat, b: nat)
    requires a <= b && P % U(g, a) == 0
    ensures P % U(g, b) == 0
  {
    var q := P / U(g, a);
    assert P == q * U(g, a);
    if b <= g {
      UStep(g, a, b - a);
      hide U, Pow2;
      Assoc(q, Pow2(b - a), U(g, b));
      DivModUnique(P, U(g, b), q * Pow2(b - a), 0);
    } else {
      assert U(g, b) == 1;
    }
  }

  // ---------- opening tables ----------

  /** Make tables up to the required level: as long as the code is longer than the top table reaches. a codes
      of k bits follow the current one. There is room for `room` tables. */
  method OpenTables(c: Book, k: nat, ghost t: nat, a: nat, i: nat, ghost code: seq<bool>, room: nat,
                    tabs0: seq<seq<Entry>>, ghost info0: seq<Info>, u0: seq<nat>, x0: seq<nat>, w0: int,
                    ghost pres0: seq<seq<bool>>)
    returns (ok: bool, tabs: seq<seq<Entry>>, ghost info: seq<Info>, u: seq<nat>, x: seq<nat>, w: int,
             ghost pres: seq<seq<bool>>)
    requires Inv(c, tabs0, info0, u0, x0, w0, k, t, i, code) && a + 1 + t == c.cc[k]
    requires (|u0| == 0 ==> k <= c.l) && |tabs0| <= room
    requires Prefixed(info0, pres0) && Needed(c, pres0)
    ensures if ok then |tabs| <= room else |tabs| == room
    ensures Needed(c, pres) && if ok then Prefixed(info, pres) else |pres| == room + 1
    ensures ok ==> Inv(c, tabs, info, u, x, w, k, t, i, code) && k <= w + c.l && |u| > 0
  {
    ok, tabs, info, u, x, w, pres := true, tabs0, info0, u0, x0, w0, pres0;
    hide Inv, U, E, Val, Msb, Pow2, First, Left, Opened, Built, Needed;
    FirstTable(c, tabs, info, u, x, w, k, t, i, code);
    while k > w + c.l
      invariant Inv(c, tabs, info, u, x, w, k, t, i, code)
      invariant |u| == 0 ==> w + c.l == 0 && k <= c.l
      invariant 0 - c.l <= w && |tabs| <= room && Prefixed(info, pres) && Needed(c, pres)
      decreases k - w
    {
      OpenNew(c, tabs, info, u, x, w, k, t, a, i, code, pres);
      pres := pres + [code[..w + c.l]];
      if |tabs| >= room {
        return false, tabs, info, u, x, w, pres;
      }
      OpenAt(c, tabs, info, u, x, w, k, t, a, i, code);
      ghost var pre := code[..w + c.l];
      w := w + c.l;
      var j := ChooseBits(c, k, t, a, w, pre);
      OpenInv(c, tabs, info, u, x, w - c.l, k, t, a, i, code, j);
      ghost var tabs', info' := Opened(c, tabs, info, u, pre, j), info + [Info(pre, j)];
      OpenedIs(c, tabs, info, u, pre, j);
      var z := Pow2(j);
      var q := |tabs|;
      if |u| > 0 {
        // connect to the last table
        var h, y := u[|u| - 1], i / Pow2(w - c.l);
        tabs := tabs[h := tabs[h][y := Link(c.l, 16 + j, q)]];
      }
      tabs := tabs + [seq(z, _ => Unset)];
      u, x := u + [q], x + [i];
      info := info';
    }
  }

  lemma OpenedIs(c: Book, tabs: seq<seq<Entry>>, info: seq<Info>, u: seq<nat>, pre: seq<bool>, j: nat)
    requires |info| == |tabs|
    requires |u| > 0 ==> u[|u| - 1] < |tabs| && |info[u[|u| - 1]].pre| <= |pre|
                         && Val(pre[|info[u[|u| - 1]].pre|..]) < |tabs[u[|u| - 1]]|
    ensures Opened(c, tabs, info, u, pre, j) ==
      (if |u| == 0 then tabs
       else var top := u[|u| - 1];
            tabs[top := tabs[top][Val(pre[|info[top].pre|..]) := Link(c.l, 16 + j, |tabs|)]])
      + [seq(Pow2(j), _ => Unset)]
  {
  }

  lemma FirstTable(c: Book, tabs: seq<seq<Entry>>, info: seq<Info>, u: seq<nat>, x: seq<nat>, w: int,
                   k: nat, t: nat, i: nat, code: seq<bool>)
    requires Inv(c, tabs, info, u, x, w, k, t, i, code)
    ensures 0 - c.l <= w && (|u| == 0 ==> w == 0 - c.l) && 1 <= c.l && 1 <= k <= c.g
  {
  }

  lemma OpenAt(c: Book, tabs: seq<seq<Entry>>, info: seq<Info>, u: seq<nat>, x: seq<nat>, w: int,
               k: nat, t: nat, a: nat, i: nat, code: seq<bool>)
    requires Inv(c, tabs, info, u, x, w, k, t, i, code) && a + 1 + t == c.cc[k]
    requires k > w + c.l >= 0
    ensures Valid(c) && |code| == k && |c.cc| == BMAX + 1 && k <= c.g
    ensures var pre := code[..w + c.l];
            (w + c.l) % c.l == 0 && Pos(c, k, t) == Left(c.g, pre)
  {
    hide E, U, First, Off, Val, Msb, Left, X, Pow2, Tables;
    PosBounds(c, k, t);
    TopMultiple(c, tabs, info, u, x, Pos(c, k, t));
    AtBoundary(c.g, code, w + c.l);
  }

  /** No open table lies deeper than the top one. */
  lemma {:induction false} TopIsDeepest(c: Book, tabs: seq<seq<Entry>>, info: seq<Info>, u: seq<nat>, m: nat)
    requires |info| == |tabs| && Chain(c, tabs, info, u) && m < |u| && forall n :: 0 <= n < |u| ==> u[n] < |info|
    ensures |info[u[m]].pre| <= |info[u[|u| - 1]].pre|
    decreases |u| - m
  {
    if m + 1 < |u| {
      assert Deeper(m);
      TopIsDeepest(c, tabs, info, u, m + 1);
    }
  }

  /** The table that is to be opened is not there yet, and a code needs it. */
  lemma OpenNew(c: Book, tabs: seq<seq<Entry>>, info: seq<Info>, u: seq<nat>, x: seq<nat>, w: int,
                k: nat, t: nat, a: nat, i: nat, code: seq<bool>, pres: seq<seq<bool>>)
    requires Inv(c, tabs, info, u, x, w, k, t, i, code) && a + 1 + t == c.cc[k]
    requires k > w + c.l >= 0 && Prefixed(info, pres) && Needed(c, pres)
    ensures |info| == |tabs| && |code| == k && Needed(c, pres + [code[..w + c.l]])
  {
    hide Inv, E, U, First, Val, Msb, Pow2, Left, Pos, Chain, OthersClosed, Needed, NeededAt, Right;
    OpenAt(c, tabs, info, u, x, w, k, t, a, i, code);
    InvParts(c, tabs, info, u, x, w, k, t, i, code);
    var n: nat := w + c.l;
    assert NeededAt(c, code[..n]) by { LongerCode(c, code, t, n); }
    forall T | 0 <= T < |info| ensures info[T].pre != code[..n] {
      NotOpened(c, tabs, info, u, code[..n], Pos(c, k, t), T);
    }
    OneMore(c, pres, code[..n]);
  }

  lemma LongerCode(c: Book, code: seq<bool>, t: nat, n: nat)
    requires IsCode(c, code, t) && n < |code| && c.l > 0 && n % c.l == 0
    ensures NeededAt(c, code[..n])
  {
    hide IsCode;
  }

  /** A table for the prefix is neither open, as that is longer than those, nor closed, as the code has come to it. */
  lemma NotOpened(c: Book, tabs: seq<seq<Entry>>, info: seq<Info>, u: seq<nat>, pre: seq<bool>, P: nat, T: nat)
    requires |info| == |tabs| && Chain(c, tabs, info, u) && OthersClosed(c, info, u, P) && T < |info|
    requires (forall n :: 0 <= n < |u| ==> u[n] < |info|) && (|u| > 0 ==> |info[u[|u| - 1]].pre| < |pre|)
    requires P == Left(c.g, pre) && |pre| <= c.g
    ensures info[T].pre != pre
  {
    hide Chain, Left, U;
    if T in u {
      var m :| 0 <= m < |u| && u[m] == T;
      TopIsDeepest(c, tabs, info, u, m);
    } else {
      assert Closed(c, info, T, P);
      UPositive(c.g, |pre|);
    }
  }

  lemma UPositive(g: nat, n: nat)
    requires n <= g
    ensures U(g, n) > 0
  {
  }

  lemma OneMore(c: Book, pres: seq<seq<bool>>, pre: seq<bool>)
    requires Needed(c, pres) && NeededAt(c, pre) && forall T {:trigger pres[T]} :: 0 <= T < |pres| ==> pres[T] != pre
    ensures Needed(c, pres + [pre])
  {
    hide NeededAt;
  }

  lemma InvParts(c: Book, tabs: seq<seq<Entry>>, info: seq<Info>, u: seq<nat>, x: seq<nat>, w: int,
                 k: nat, t: nat, i: nat, code: seq<bool>)
    requires Inv(c, tabs, info, u, x, w, k, t, i, code) && t < c.cc[k]
    ensures Valid(c) && 1 <= k <= c.g && |info| == |tabs| && Chain(c, tabs, info, u) && OthersClosed(c, info, u, Pos(c, k, t))
    ensures |code| == k && Msb(code) == First(c, k) + t && (forall n :: 0 <= n < |u| ==> u[n] < |info|)
    ensures |u| > 0 ==> w == |info[u[|u| - 1]].pre|
  {
    PosBounds(c, k, t);
    hide E, U, First, Val, Msb, Left, X, Pow2, Chain, OthersClosed, Shape, AllBuilt, AllOnes, GoodTo;
  }

  lemma TopMultiple(c: Book, tabs: seq<seq<Entry>>, info: seq<Info>, u: seq<nat>, x: seq<nat>, P: nat)
    requires Tables(c, tabs, info, u, x, P)
    ensures Top(c, info, u) + c.l >= 0 && (Top(c, info, u) + c.l) % c.l == 0
  {
    hide AllOnes, GoodTo, NarrowTo, Chain, OthersClosed, Shape, E, Left, Right, U, Val, Pow2;
    if |u| > 0 {
      assert u[|u| - 1] < |info|;
      assert Built(c, info[u[|u| - 1]]);
      AddMultiple(Top(c, info, u), c.l);
    }
  }

  lemma AddMultiple(w: nat, l: nat)
    requires l > 0 && w % l == 0
    ensures (w + l) % l == 0
  {
    DivModUnique(w + l, l, w / l + 1, 0);
  }

  lemma OpenInv(c: Book, tabs: seq<seq<Entry>>, info: seq<Info>, u: seq<nat>, x: seq<nat>, w: int,
                k: nat, t: nat, a: nat, i: nat, code: seq<bool>, j: nat)
    requires Inv(c, tabs, info, u, x, w, k, t, i, code) && a + 1 + t == c.cc[k]
    requires k > w + c.l >= 0 && |code| == k && Left(c.g, code[..w + c.l]) == Pos(c, k, t)
    requires Built(c, Info(code[..w + c.l], j)) && k - (w + c.l) <= j
    requires |u| == 0 ==> k <= c.l
    ensures |info| == |tabs|
    ensures |u| > 0 ==> u[|u| - 1] < |tabs| && |info[u[|u| - 1]].pre| == w && 0 <= w
                        && i / Pow2(w) == Val(code[..w + c.l][w..]) < |tabs[u[|u| - 1]]|
    ensures Val(code[..w + c.l]) == i
    ensures Inv(c, Opened(c, tabs, info, u, code[..w + c.l], j), info + [Info(code[..w + c.l], j)],
                u + [|tabs|], x + [i], w + c.l, k, t, i, code)
  {
    hide E, U, First, Off, Val, Msb, Left, X, Pow2, Pos, Tables, Opened, Built, OnPath, Opening;
    var pre := code[..w + c.l];
    OpenReady(c, tabs, info, u, x, w, k, t, a, i, code, j);
    OpenTablesInv(c, tabs, info, u, x, code, k, t, pre, j);
    OpenedSize(c, tabs, info, u, pre, j);
    ModFiner(c.g, Pos(c, k, t), w + c.l, w + c.l + c.l);
  }

  lemma OpenReady(c: Book, tabs: seq<seq<Entry>>, info: seq<Info>, u: seq<nat>, x: seq<nat>, w: int,
                  k: nat, t: nat, a: nat, i: nat, code: seq<bool>, j: nat)
    requires Inv(c, tabs, info, u, x, w, k, t, i, code) && a + 1 + t == c.cc[k]
    requires k > w + c.l >= 0 && |code| == k && Left(c.g, code[..w + c.l]) == Pos(c, k, t)
    requires Built(c, Info(code[..w + c.l], j)) && k - (w + c.l) <= j
    requires |u| == 0 ==> k <= c.l
    ensures |info| == |tabs| && Opening(c, tabs, info, u, x, code, k, t, code[..w + c.l], j)
    ensures Pos(c, k, t) < Pow2(c.g) && AtCode(c, info, u, k, t, i, code)
    ensures Val(code[..w + c.l]) == i && (|u| > 0 ==> 0 <= w && i / Pow2(w) == Val(code[..w + c.l][w..]))
  {
    hide E, U, First, Off, Val, Msb, Left, X, Pow2, Pos, Tables, OnPath, Opening, Built;
    PosBounds(c, k, t);
    PosOfCode(c, k, t, code);
    AtBoundary(c.g, code, w + c.l);
    OpeningHolds(c, tabs, info, u, x, code, k, t, code[..w + c.l], j);
  }

  lemma PosOfCode(c: Book, k: nat, t: nat, code: seq<bool>)
    requires |c.cc| == BMAX + 1 && k <= BMAX && |code| == k && Msb(code) == First(c, k) + t
    ensures Msb(code) * U(c.g, |code|) == Pos(c, k, t)
  {
  }

  lemma OpeningHolds(c: Book, tabs: seq<seq<Entry>>, info: seq<Info>, u: seq<nat>, x: seq<nat>,
                     code: seq<bool>, k: nat, t: nat, pre: seq<bool>, j: nat)
    requires Valid(c) && c.cc[c.g] > 0 && 1 <= k <= c.g && t < c.cc[k] && |code| == k && Msb(code) == First(c, k) + t
    requires Tables(c, tabs, info, u, x, Pos(c, k, t)) && OnPath(info, u, code)
    requires |pre| < k && pre == code[..|pre|] && Left(c.g, pre) == Pos(c, k, t) && Built(c, Info(pre, j))
    requires |pre| == Top(c, info, u) + c.l
    ensures |info| == |tabs| && Opening(c, tabs, info, u, x, code, k, t, pre, j)
  {
    hide E, U, First, Off, Val, Msb, Left, X, Pow2, Pos, NarrowTo, AllOnes, Chain, OthersClosed, GoodTo, Shape, AllBuilt, Built, OnPath;
    if |u| == 0 {
      RootWide(c, k, t, Info(pre, j));
    }
  }

  lemma OpenTablesInv(c: Book, tabs: seq<seq<Entry>>, info: seq<Info>, u: seq<nat>, x: seq<nat>,
                      code: seq<bool>, k: nat, t: nat, pre: seq<bool>, j: nat)
    requires |info| == |tabs| && Opening(c, tabs, info, u, x, code, k, t, pre, j) && Tables(c, tabs, info, u, x, Pos(c, k, t))
    ensures |u| > 0 ==> u[|u| - 1] < |tabs| && |info[u[|u| - 1]].pre| + c.l == |pre|
                        && Val(pre[|info[u[|u| - 1]].pre|..]) < |tabs[u[|u| - 1]]|
    ensures var tabs', info' := Opened(c, tabs, info, u, pre, j), info + [Info(pre, j)];
            Tables(c, tabs', info', u + [|tabs|], x + [Val(pre)], Pos(c, k, t)) && OnPath(info', u + [|tabs|], code)
  {
    hide E, U, First, Off, Val, Msb, Left, X, Pow2, Pos, NarrowTo, AllOnes, Prefixes, Chain, OthersClosed, Opened, GoodTo, AllBuilt, Built, OnPath;
    OpeningFits(c, tabs, info, u, x, code, k, t, pre, j);
    OpenShape(c, tabs, info, u, x, code, k, t, pre, j);
    OpenStack(c, tabs, info, u, x, code, k, t, pre, j);
    OpenOnes(c, tabs, info, u, x, code, k, t, pre, j);
    OpenGood(c, tabs, info, u, x, code, k, t, pre, j);
    OpenedSize(c, tabs, info, u, pre, j);
  }

  /** The first table is at least as wide as the look-ups into it. */
  lemma RootWide(c: Book, k: nat, t: nat, i: Info)
    requires Valid(c) && c.cc[c.g] > 0 && Built(c, i) && i.pre == [] && 1 <= k <= c.g
    ensures c.l <= i.j
  {
    if i.j < c.l {
      ShortOfFull(c, i.j);
    }
  }

  // ---------- the cells of one code ----------

  /** Fill the code-like cells of a table: every step-th one from start on. */
  method FillRow(row0: seq<Entry>, start: nat, step: nat, r: Entry) returns (row: seq<Entry>)
    requires start < step
    ensures FillsRow(row0, row, start, step, r)
  {
    row := row0;
    var j := start;
    FirstFill(step, start);
    while j < |row0|
      invariant |row| == |row0| && j % step == start
      invariant forall y {:trigger row[y]} :: 0 <= y < |row| ==> row[y] == if y < j && y % step == start then r else row0[y]
      decreases |row0| - j
    {
      NextFill(j, step, start);
      row := row[j := r];
      NextRow(row0, row, j, step, start, r);
      j := j + step;
    }
  }

  lemma FirstFill(step: nat, start: nat)
    requires start < step
    ensures start % step == start && forall y {:trigger y % step} :: 0 <= y < start ==> y % step != start
  {
    forall y {:trigger y % step} | 0 <= y < start ensures y % step != start {
      DivModUnique(y, step, 0, y);
    }
    DivModUnique(start, step, 0, start);
  }

  /** Between one code-like cell and the next there is none. */
  lemma NextRow(row0: seq<Entry>, row: seq<Entry>, j: nat, step: nat, start: nat, r: Entry)
    requires start < step && |row| == |row0| && j < |row| && row[j] == r && j % step == start
    requires forall y {:trigger row[y]} :: 0 <= y < |row| && y != j ==> row[y] == if y < j && y % step == start then r else row0[y]
    requires forall y {:trigger y % step} :: j < y < j + step ==> y % step != start
    ensures forall y {:trigger row[y]} :: 0 <= y < |row| ==> row[y] == if y < j + step && y % step == start then r else row0[y]
  {
  }

  lemma NextFill(j: nat, step: nat, start: nat)
    requires start < step && j % step == start
    ensures (j + step) % step == start
    ensures forall y {:trigger y % step} :: j < y < j + step ==> y % step != start
  {
    var q := j / step;
    assert j == q * step + start;
    MulLess(q, q + 1, step);
    DivModUnique(j + step, step, q + 1, start);
    forall y: nat {:trigger y % step} | j < y < j + step ensures y % step != start {
      if y - q * step < step {
        DivModUnique(y, step, q, y - q * step);
      } else {
        DivModUnique(y, step, q + 1, y - q * step - step);
      }
    }
  }

  // ---------- the next code ----------

  /** i & j for a single-bit mask j. */
  predicate And(i: nat, j: nat) {
    j > 0 && (i / j) % 2 == 1
  }

  /** Backwards increment the k-bit code i, whose first bit is the least significant one. */
  method AdvanceCode(i0: nat, k: nat, ghost code: seq<bool>) returns (i: nat, ghost code': seq<bool>)
    requires 1 <= k && |code| == k && i0 == Val(code)
    ensures code != Ones(k) ==> |code'| == k && Msb(code') == Msb(code) + 1 && i == Val(code')
    ensures code == Ones(k) ==> i == 0
  {
    hide Val, Msb, Pow2;
    i, code' := i0, code;
    PowPos(k - 1);
    var j := Pow2(k - 1);
    ghost var p := k - 1;
    assert code[..k] == code;
    BitOf(code, p);
    while And(i, j)
      invariant -1 <= p < k && j == (if p < 0 then 0 else Pow2(p))
      invariant i == Val(code[..p + 1])
      invariant forall y :: p < y < k ==> code[y]
      invariant p >= 0 ==> (And(i, j) <==> code[p]) && (code[p] ==> i >= j && i - j == Val(code[..p]))
      decreases p
    {
      i := i - j;
      if p > 0 {
        PowHalf(p);
        assert code[..p + 1][..p] == code[..p];
        BitOf(code[..p], p - 1);
        assert code[..p][..p - 1] == code[..p - 1];
      } else {
        Pow2Zero();
      }
      j := j / 2;
      p := p - 1;
    }
    if p >= 0 {
      code' := code[..p] + [true] + seq(k - p - 1, _ => false);
      Incremented(code, p);
    } else {
      assert code == Ones(k);
      assert code[..0] == [];
      ValEmpty();
    }
    i := i + j;
  }

  lemma ValEmpty()
    ensures Val([]) == 0
  {
  }

  lemma Pow2Zero()
    ensures Pow2(0) == 1
  {
  }

  lemma PowPos(n: nat)
    ensures Pow2(n) > 0
  {
  }

  lemma PowHalf(p: nat)
    requires p > 0
    ensures Pow2(p) / 2 == Pow2(p - 1)
  {
  }

  /** The last bit of b is the top bit of its value. */
  lemma BitOf(b: seq<bool>, p: nat)
    requires |b| == p + 1
    ensures And(Val(b), Pow2(p)) <==> b[p]
    ensures b[p] ==> Val(b) >= Pow2(p) && Val(b) - Pow2(p) == Val(b[..p])
    ensures !b[p] ==> Val(b) == Val(b[..p])
  {
    hide Val, Pow2;
    assert b == b[..p] + [b[p]];
    ValCat(b[..p], [b[p]]);
    ValOne(b[p]);
    var v, m := Val(b[..p]), Pow2(p);
    if b[p] {
      assert Val(b) == v + m;
      DivModUnique(v + m, m, 1, v);
    } else {
      ZeroTimes(m);
      DivModUnique(v, m, 0, v);
    }
  }

  lemma ValOne(x: bool)
    ensures Val([x]) == if x then 1 else 0
  {
  }

  lemma Incremented(code: seq<bool>, p: nat)
    requires p < |code| && !code[p] && forall y :: p < y < |code| ==> code[y]
    ensures var code' := code[..p] + [true] + seq(|code| - p - 1, _ => false);
            Msb(code') == Msb(code) + 1 && Val(code') == Val(code[..p + 1]) + Pow2(p)
  {
    var r := |code| - p - 1;
    var zs := seq(r, _ => false);
    assert code == code[..p] + [false] + Ones(r);
    MsbCat(code[..p] + [false], Ones(r));
    MsbCat(code[..p] + [true], zs);
    MsbLast(code[..p]);
    OnesVal(r);
    ZeroMsb(r);
    ZeroBits(zs);
    ValCat(code[..p] + [true], zs);
    BitOf(code[..p] + [true], p);
    assert (code[..p] + [true])[..p] == code[..p];
    BitOf(code[..p + 1], p);
    assert code[..p + 1][..p] == code[..p];
    hide Msb, Val, Pow2;
    ZeroTimes(Pow2(|code[..p] + [true]|));
    var a, m := Msb(code[..p] + [false]), Pow2(r);
    Distribute(a, 1, m);
  }

  lemma MsbLast(b: seq<bool>)
    ensures Msb(b + [true]) == Msb(b + [false]) + 1
  {
    assert (b + [true])[..|b|] == b && (b + [false])[..|b|] == b;
  }

  // ---------- closing tables ----------

  /** Every open table contains the old code and does not end before P. */
  ghost predicate Spans(c: Book, info: seq<Info>, u: seq<nat>, Q: nat, P: nat) {
    forall m {:trigger u[m]} :: 0 <= m < |u| ==>
      u[m] < |info| && Left(c.g, info[u[m]].pre) <= Q && P <= Right(c, info[u[m]].pre)
  }

  /** The part of the invariant that matters while tables are closed: Q is the start of the code just done,
      P that of the next one. */
  ghost predicate Backing(c: Book, tabs: seq<seq<Entry>>, info: seq<Info>, u: seq<nat>, x: seq<nat>, w: int, k: nat, Q: nat, P: nat) {
    && |info| == |tabs| && |c.cc| == BMAX + 1 && 1 <= c.l <= c.g <= BMAX && 0 < |u|
    && Stack(c, tabs, info, u, x, P) && Shape(c, tabs, info) && Q < P && Spans(c, info, u, Q, P)
    && w == Top(c, info, u) && P % U(c.g, w + c.l) == 0
    && (forall m {:trigger u[m]} :: 0 <= m < |u| ==> |info[u[m]].pre| < k)
  }

  /** Back up over finished tables: those whose prefix is not that of the next code. */
  method BackUp(c: Book, i: nat, ghost code: seq<bool>, k: nat, ghost Q: nat, ghost P: nat,
                ghost tabs: seq<seq<Entry>>, ghost info: seq<Info>, u0: seq<nat>, x0: seq<nat>, w0: int)
    returns (u: seq<nat>, x: seq<nat>, w: int)
    requires Backing(c, tabs, info, u0, x0, w0, k, Q, P)
    requires P < Pow2(c.g) ==> |code| == k <= c.g && Msb(code) * U(c.g, k) == P && i == Val(code)
    requires P <= Pow2(c.g)
    ensures Backing(c, tabs, info, u, x, w, k, Q, P)
    ensures P < Pow2(c.g) ==> OnPath(info, u, code)
  {
    hide Backing, Val, U, Pow2, Msb, OnPath;
    u, x, w := u0, x0, w0;
    BackFacts(c, tabs, info, u, x, w, k, Q, P, i, code);
    while i % Pow2(w) != x[|x| - 1]
      invariant Backing(c, tabs, info, u, x, w, k, Q, P)
      invariant |x| == |u| > 0 && 0 <= w
      decreases |u|
    {
      ClosePop(c, tabs, info, u, x, w, k, Q, P, i, code);
      u, x := u[..|u| - 1], x[..|x| - 1];
      w := w - c.l;
      BackFacts(c, tabs, info, u, x, w, k, Q, P, i, code);
    }
    if P < Pow2(c.g) {
      PathFromTop(c, tabs, info, u, x, w, k, Q, P, i, code);
    }
  }

  lemma BackFacts(c: Book, tabs: seq<seq<Entry>>, info: seq<Info>, u: seq<nat>, x: seq<nat>, w: int, k: nat, Q: nat, P: nat, i: nat, code: seq<bool>)
    requires Backing(c, tabs, info, u, x, w, k, Q, P)
    ensures |x| == |u| > 0 && 0 <= w && |info| == |tabs|
  {
  }

  lemma ClosePop(c: Book, tabs: seq<seq<Entry>>, info: seq<Info>, u: seq<nat>, x: seq<nat>, w: int, k: nat, Q: nat, P: nat, i: nat, code: seq<bool>)
    requires Backing(c, tabs, info, u, x, w, k, Q, P)
    requires P < Pow2(c.g) ==> |code| == k <= c.g && Msb(code) * U(c.g, k) == P && i == Val(code)
    requires P <= Pow2(c.g)
    requires 0 <= w && i % Pow2(w) != x[|x| - 1]
    ensures Backing(c, tabs, info, u[..|u| - 1], x[..|x| - 1], w - c.l, k, Q, P)
  {
    hide Val, U, Pow2, Msb, Left, Right, Linked, Stack, Shape;
    TopEnds(c, tabs, info, u, x, w, k, Q, P, i, code);
    TopLink(c, tabs, info, u, x, P);
    StackPop(c, tabs, info, u, x, P);
    BackFacts(c, tabs, info, u, x, w, k, Q, P, i, code);
  }

  lemma TopLink(c: Book, tabs: seq<seq<Entry>>, info: seq<Info>, u: seq<nat>, x: seq<nat>, P: nat)
    requires |info| == |tabs| && Stack(c, tabs, info, u, x, P) && |u| > 1
    ensures u[|u| - 1] < |info| && u[|u| - 2] < |info| && |info[u[|u| - 1]].pre| == |info[u[|u| - 2]].pre| + c.l
  {
    hide Val, Right, OthersClosed;
    assert Deeper(|u| - 2) && Linked(c, tabs, info, u[|u| - 2], u[|u| - 1]);
  }

  lemma StackPop(c: Book, tabs: seq<seq<Entry>>, info: seq<Info>, u: seq<nat>, x: seq<nat>, P: nat)
    requires |info| == |tabs| && Stack(c, tabs, info, u, x, P) && |u| > 1
    requires u[|u| - 1] < |info| && Right(c, info[u[|u| - 1]].pre) <= P
    ensures Stack(c, tabs, info, u[..|u| - 1], x[..|x| - 1], P)
  {
    hide Val, Right, Linked;
    var v := u[..|u| - 1];
    forall m | 0 <= m && m + 1 < |v| && Deeper(m) ensures Linked(c, tabs, info, v[m], v[m + 1]) {
      assert Linked(c, tabs, info, u[m], u[m + 1]);
    }
    forall T | 0 <= T < |info| && T !in v ensures Closed(c, info, T, P) {
      assert u == v + [u[|u| - 1]];
      InAppend(v, u[|u| - 1], T);
      if T !in u {
        assert Closed(c, info, T, P);
      }
    }
  }

  /** A top table that the next code does not run through ends just before it, and is not the first table. */
  lemma TopEnds(c: Book, tabs: seq<seq<Entry>>, info: seq<Info>, u: seq<nat>, x: seq<nat>, w: int, k: nat, Q: nat, P: nat, i: nat, code: seq<bool>)
    requires Backing(c, tabs, info, u, x, w, k, Q, P)
    requires P < Pow2(c.g) ==> |code| == k <= c.g && Msb(code) * U(c.g, k) == P && i == Val(code)
    requires P <= Pow2(c.g)
    requires 0 <= w && i % Pow2(w) != x[|x| - 1]
    ensures |u| > 1 && u[|u| - 1] < |info| && P == Right(c, info[u[|u| - 1]].pre) && P % U(c.g, w) == 0
  {
    hide Val, U, Pow2, Msb, Left, Chain, OthersClosed;
    var pre := info[u[|u| - 1]].pre;
    RightMod(c, pre);
    LeftBound(c.g, pre);
    if |u| == 1 {
      Pow2Zero();
      ValEmpty();
    }
    if P < Right(c, pre) {
      NextPrefix(c, code, pre, P);
      ValSplit(code, w);
    }
  }

  lemma RightMod(c: Book, pre: seq<bool>)
    ensures Right(c, pre) % U(c.g, |pre|) == 0
  {
    hide U, Msb;
    Distribute(Msb(pre), 1, U(c.g, |pre|));
    DivModUnique(Right(c, pre), U(c.g, |pre|), Msb(pre) + 1, 0);
  }

  /** The next code starts with every prefix in whose subtree it lies. */
  lemma NextPrefix(c: Book, code: seq<bool>, pre: seq<bool>, P: nat)
    requires |pre| <= |code| <= c.g && Msb(code) * U(c.g, |code|) == P && Left(c.g, pre) <= P < Right(c, pre)
    ensures code[..|pre|] == pre
  {
    hide Msb, U, Pow2, Left;
    var n := c.g - |code|;
    var s := code + seq(n, _ => false);
    Zeros(code, n);
    UIsPow(c.g, |code|);
    assert s[..c.g] == s;
    XIs(c.g, s);
    PrefixFromPlace(c.g, s, pre);
    assert s[..|pre|] == code[..|pre|];
  }

  lemma UIsPow(g: nat, k: nat)
    requires k <= g
    ensures U(g, k) == Pow2(g - k)
  {
  }

  lemma XIs(g: nat, s: seq<bool>)
    requires g <= |s|
    ensures X(g, s) == Msb(s[..g])
  {
  }

  /** When the top prefix is that of the code, so are all others. */
  lemma PathFromTop(c: Book, tabs: seq<seq<Entry>>, info: seq<Info>, u: seq<nat>, x: seq<nat>, w: int, k: nat, Q: nat, P: nat, i: nat, code: seq<bool>)
    requires Backing(c, tabs, info, u, x, w, k, Q, P)
    requires |code| == k <= c.g && i == Val(code)
    requires 0 <= w && i % Pow2(w) == x[|x| - 1]
    ensures OnPath(info, u, code)
  {
    hide Val, U, Pow2, Msb, Left, Chain, OthersClosed, Spans;
    var pre := info[u[|u| - 1]].pre;
    ValSplit(code, w);
    ValInjective(code[..w], pre);
    forall m | 0 <= m < |u| ensures u[m] < |info| && |info[u[m]].pre| < |code| && info[u[m]].pre == code[..|info[u[m]].pre|] {
      PrefixChain(c, tabs, info, u, x, P, m, |u| - 1);
    }
  }

  lemma {:induction false} PrefixChain(c: Book, tabs: seq<seq<Entry>>, info: seq<Info>, u: seq<nat>, x: seq<nat>, P: nat, m: nat, n: nat)
    requires |info| == |tabs| && Stack(c, tabs, info, u, x, P) && m <= n < |u|
    ensures u[m] < |info| && u[n] < |info| && |info[u[m]].pre| <= |info[u[n]].pre|
    ensures info[u[m]].pre == info[u[n]].pre[..|info[u[m]].pre|]
  {
    hide Val, OthersClosed;
    if m < n {
      assert Deeper(n - 1) && Linked(c, tabs, info, u[n - 1], u[n]);
      PrefixChain(c, tabs, info, u, x, P, m, n - 1);
    }
  }

  // ---------- one code ----------

  lemma {:induction false} OffMono(c: Book, a: nat, b: nat)
    requires |c.cc| == BMAX + 1 && a <= b <= BMAX + 1
    ensures Off(c, a) <= Off(c, b)
  {
    if a < b {
      OffMono(c, a, b - 1);
    }
  }

  /** The code fits under every open prefix. */
  lemma CodeSpans(c: Book, i: Info, code: seq<bool>, k: nat, t: nat)
    requires Valid(c) && 1 <= k <= c.g && t < c.cc[k] && |code| == k && Msb(code) == First(c, k) + t
    requires |i.pre| < k && i.pre == code[..|i.pre|]
    ensures Left(c.g, i.pre) <= Pos(c, k, t) && Pos(c, k, t + 1) <= Right(c, i.pre)
  {
    hide E, First, Msb, U, Pow2, Left, Pos;
    var m := |i.pre|;
    MsbSplit(c.g, code, m);
    PosOfCode(c, k, t, code);
    PosIsE(c, k, t);
    UStep(c.g, m, k - m);
    MsbBelow(code, m);
    MulLess(Msb(code[m..]), Pow2(k - m), U(c.g, k));
  }

  lemma MsbBelow(code: seq<bool>, m: nat)
    requires m <= |code|
    ensures Msb(code[m..]) < Pow2(|code| - m)
  {
  }

  lemma AllSpans(c: Book, info: seq<Info>, u: seq<nat>, code: seq<bool>, k: nat, t: nat)
    requires Valid(c) && 1 <= k <= c.g && t < c.cc[k] && |code| == k && Msb(code) == First(c, k) + t
    requires OnPath(info, u, code)
    ensures Spans(c, info, u, Pos(c, k, t), Pos(c, k, t + 1))
    ensures forall m {:trigger u[m]} :: 0 <= m < |u| ==> u[m] < |info| && |info[u[m]].pre| < k
  {
    hide Left, Right, Pos, First, Msb, E, U;
    forall m | 0 <= m < |u| ensures u[m] < |info| && Left(c.g, info[u[m]].pre) <= Pos(c, k, t) && Pos(c, k, t + 1) <= Right(c, info[u[m]].pre) {
      CodeSpans(c, info[u[m]], code, k, t);
    }
  }

  lemma StackLater(c: Book, tabs: seq<seq<Entry>>, info: seq<Info>, u: seq<nat>, x: seq<nat>, P: nat, P': nat)
    requires |info| == |tabs| && Stack(c, tabs, info, u, x, P) && P <= P'
    ensures Stack(c, tabs, info, u, x, P')
  {
    hide Val, Right, Linked, Chain, Prefixes;
    forall T | 0 <= T < |info| && T !in u ensures Closed(c, info, T, P') {
      assert Closed(c, info, T, P);
    }
  }

  /** After the fill: everything up to the end of the code is in, and tables may be closed. */
  lemma Placed(c: Book, tabs: seq<seq<Entry>>, info: seq<Info>, u: seq<nat>, x: seq<nat>, w: int,
               k: nat, t: nat, i: nat, code: seq<bool>, row: seq<Entry>)
    requires Inv(c, tabs, info, u, x, w, k, t, i, code) && t < c.cc[k] && k <= w + c.l && |u| > 0
    requires 0 <= w < k && u[|u| - 1] < |tabs| && Off(c, k) + t < |c.fill| && |code| == k
    requires FillsRow(tabs[u[|u| - 1]], row, Val(code[w..]), Pow2(k - w), EntryOf(c.fill[Off(c, k) + t], k - w))
    ensures var tabs', P := tabs[u[|u| - 1] := row], Pos(c, k, t + 1);
            && Backing(c, tabs', info, u, x, w, k, Pos(c, k, t), P)
            && AllBuilt(c, info) && AllOnes(c, tabs', info)
            && GoodTo(c, tabs', info, P)
            && P <= Pow2(c.g)
  {
    hide E, First, Msb, U, Pow2, Val, NarrowTo, GoodTo, AllOnes, AllBuilt, Shape, Stack, OnPath, Spans, Pos, FillsRow, EntryOf;
    PosBounds(c, k, t);
    PosIsE(c, k, t);
    PosMod(c, k, t, w + c.l);
    assert Step(c, tabs, info, u, x, code, k, t, row);
    StepKeeps(c, tabs, info, u, x, code, k, t, row);
    StepOnes(c, tabs, info, u, x, code, k, t, row);
    StepGood(c, tabs, info, u, x, code, k, t, row);
    AllSpans(c, info, u, code, k, t);
    StackLater(c, tabs[u[|u| - 1] := row], info, u, x, Pos(c, k, t), Pos(c, k, t + 1));
  }

  lemma PosMod(c: Book, k: nat, t: nat, m: nat)
    requires |c.cc| == BMAX + 1 && 1 <= k <= c.g <= BMAX && k <= m
    ensures Pos(c, k, t + 1) % U(c.g, m) == 0
  {
    hide U, First;
    DivModUnique(Pos(c, k, t + 1), U(c.g, k), First(c, k) + t + 1, 0);
    ModFiner(c.g, Pos(c, k, t + 1), k, m);
  }

  /** The next code in place. */
  lemma Advanced(c: Book, tabs: seq<seq<Entry>>, info: seq<Info>, u: seq<nat>, x: seq<nat>, w: int,
                 k: nat, t: nat, i: nat, code: seq<bool>)
    requires Valid(c) && c.cc[c.g] > 0 && 1 <= k <= c.g && t < c.cc[k]
    requires Backing(c, tabs, info, u, x, w, k, Pos(c, k, t), Pos(c, k, t + 1))
    requires AllBuilt(c, info) && AllOnes(c, tabs, info)
    requires GoodTo(c, tabs, info, Pos(c, k, t + 1))
    requires Pos(c, k, t + 1) < Pow2(c.g) ==>
               |code| == k && Msb(code) == First(c, k) + t + 1 && i == Val(code) && OnPath(info, u, code)
    ensures Inv(c, tabs, info, u, x, w, k, t + 1, i, code)
  {
    hide E, First, Msb, U, Pow2, Val, NarrowTo, GoodTo, AllOnes, AllBuilt, Shape, Stack, OnPath, Spans, Pos;
  }

  /** The step from the codes of k bits to those of k + 1 bits. */
  lemma NextLength(c: Book, tabs: seq<seq<Entry>>, info: seq<Info>, u: seq<nat>, x: seq<nat>, w: int,
                   k: nat, i: nat, code: seq<bool>)
    requires |c.cc| == BMAX + 1 && k < c.g <= BMAX && Inv(c, tabs, info, u, x, w, k, c.cc[k], i, code)
    ensures Inv(c, tabs, info, u, x, w, k + 1, 0, i, code + [false])
  {
    hide E, First, Msb, U, Pow2, Val, Tables, Pos, OnPath;
    LengthFacts(c, k, code);
    if AtCode(c, info, u, k, c.cc[k], i, code) {
      PathLonger(info, u, code);
    }
  }

  lemma LengthFacts(c: Book, k: nat, code: seq<bool>)
    requires |c.cc| == BMAX + 1 && 1 <= k < c.g <= BMAX
    ensures Pos(c, k + 1, 0) == Pos(c, k, c.cc[k])
    ensures First(c, k + 1) == 2 * (First(c, k) + c.cc[k])
    ensures Msb(code + [false]) == 2 * Msb(code) && Val(code + [false]) == Val(code)
  {
    PosIsE(c, k, 0);
    PosIsE(c, k + 1, 0);
    hide E, U, Pow2, Val, Pos;
    ZeroTimes(U(c.g, k + 1));
    ZeroTimes(Pow2(|code|));
    ValCat(code, [false]);
    ValOne(false);
    assert (code + [false])[..|code|] == code;
  }

  lemma PathLonger(info: seq<Info>, u: seq<nat>, code: seq<bool>)
    requires OnPath(info, u, code)
    ensures OnPath(info, u, code + [false])
  {
    forall m | 0 <= m < |u| ensures
      u[m] < |info| && |info[u[m]].pre| < |code| + 1 && info[u[m]].pre == (code + [false])[..|info[u[m]].pre|]
    {
      assert (code + [false])[..|info[u[m]].pre|] == code[..|info[u[m]].pre|];
    }
  }

  // ---------- the loop ----------

  datatype Option<T> = None | Some(value: T)

  /** What the builder puts into the cells of the m-th code: v holds the values in code order as far as they
      were written, n is where the program stops looking, s the number of simple values, d and e the values
      and flags of the others. */
  function FillingOf(v: seq<Option<nat>>, n: nat, s: nat, d: seq<nat>, e: seq<nat>, m: nat): Filling
    requires n <= |v|
  {
    if m >= n then Filling(99, 0)
    else match v[m]
         case None => Stale
         case Some(y) =>
           if y < s then Filling(if y < 256 then 16 else 15, y)
           else if y - s < |e| && y - s < |d| then Filling(e[y - s], d[y - s]) else Stale
  }

  /** Tables for all codes of the book; kmin is the least code length. */
  method Make(c: Book, kmin: nat, v: seq<Option<nat>>, n: nat, s: nat, d: seq<nat>, e: seq<nat>, room: nat)
    returns (ok: bool, tabs: seq<seq<Entry>>, ghost info: seq<Info>, ghost pres: seq<seq<bool>>)
    requires Valid(c) && c.cc[c.g] > 0 && 1 <= kmin <= c.l && c.cc[kmin] > 0 && n <= |v|
    requires forall k :: 1 <= k < kmin ==> c.cc[k] == 0
    requires forall m {:trigger c.fill[m]} :: 0 <= m < |c.fill| ==> c.fill[m] == FillingOf(v, n, s, d, e, m)
    ensures if ok then |tabs| <= room else |tabs| == room
    ensures Needed(c, pres) && |pres| == if ok then |tabs| else room + 1
    ensures ok ==>
      && |tabs| == |info| > 0 && Shape(c, tabs, info) && AllBuilt(c, info) && AllOnes(c, tabs, info)
      && GoodTo(c, tabs, info, Pow2(c.g))
  {
    hide Inv, E, First, Msb, U, Pow2, Val, Pos, Off, EntryOf, FillingOf, FillsRow, Shape, AllBuilt, AllOnes, GoodTo, NarrowTo, Backing, NeededAt;
    ok, tabs, info, pres := true, [], [], [];
    var u, x: seq<nat> := [], [];
    var w: int := 0 - c.l;
    var i: nat, p: nat, k: nat := 0, 0, kmin;
    ghost var code := seq(kmin, _ => false);
    StartInv(c, kmin, code);
    while k <= c.g
      invariant kmin <= k <= c.g + 1
      invariant k <= c.g ==> Inv(c, tabs, info, u, x, w, k, 0, i, code) && p == Off(c, k)
      invariant k > c.g ==> Inv(c, tabs, info, u, x, w, c.g, c.cc[c.g], i, code)
      invariant |tabs| <= room && Prefixed(info, pres) && Needed(c, pres)
      invariant |u| == 0 ==> k <= c.g && forall y :: 1 <= y < k ==> c.cc[y] == 0
    {
      var a := c.cc[k];
      ghost var t: nat := 0;
      while a != 0
        invariant 0 <= a && a + t == c.cc[k] && p == Off(c, k) + t
        invariant Inv(c, tabs, info, u, x, w, k, t, i, code)
        invariant |tabs| <= room && Prefixed(info, pres) && Needed(c, pres)
        invariant |u| == 0 ==> t == 0 && forall y :: 1 <= y < k ==> c.cc[y] == 0
        decreases a
      {
        a := a - 1;
        ghost var info';
        FirstCodeFits(c, tabs, info, u, x, w, k, kmin, i, code, t);
        ok, tabs, info', u, x, w, pres := OpenTables(c, k, t, a, i, code, room, tabs, info, u, x, w, pres);
        if !ok {
          return;
        }
        info := info';
        CodeReady(c, tabs, info, u, x, w, k, t, i, code);
        var row := FillRow(tabs[u[|u| - 1]], i / Pow2(w), Pow2(k - w), EntryOf(FillingOf(v, n, s, d, e, p), k - w));
        p := p + 1;
        Placed(c, tabs, info, u, x, w, k, t, i, code, row);
        tabs := tabs[u[|u| - 1] := row];
        ghost var code';
        i, code' := AdvanceCode(i, k, code);
        AfterCode(c, k, t, code, code');
        code := code';
        u, x, w := BackUp(c, i, code, k, Pos(c, k, t), Pos(c, k, t + 1), tabs, info, u, x, w);
        Advanced(c, tabs, info, u, x, w, k, t, i, code);
        t := t + 1;
        NotEmpty(c, tabs, info, u, x, w, k, t, Pos(c, k, t - 1), Pos(c, k, t));
      }
      if k < c.g {
        NextLength(c, tabs, info, u, x, w, k, i, code);
        code := code + [false];
      }
      OffStep(c, k);
      k := k + 1;
    }
    Done(c, tabs, info, u, x, w, i, code);
  }

  lemma OffStep(c: Book, k: nat)
    requires |c.cc| == BMAX + 1 && 1 <= k <= BMAX
    ensures Off(c, k + 1) == Off(c, k) + c.cc[k]
  {
  }

  lemma NotEmpty(c: Book, tabs: seq<seq<Entry>>, info: seq<Info>, u: seq<nat>, x: seq<nat>, w: int, k: nat, t: nat, Q: nat, P: nat)
    requires Backing(c, tabs, info, u, x, w, k, Q, P)
    ensures |u| > 0
  {
  }

  lemma {:induction false} FirstZero(c: Book, k: nat)
    requires |c.cc| == BMAX + 1 && 1 <= k <= BMAX && forall y :: 1 <= y < k ==> c.cc[y] == 0
    ensures First(c, k) == 0 && Off(c, k) == 0
  {
    if k > 1 {
      FirstZero(c, k - 1);
    }
  }

  lemma StartInv(c: Book, k: nat, code: seq<bool>)
    requires Valid(c) && c.cc[c.g] > 0 && 1 <= k <= c.l && forall y :: 1 <= y < k ==> c.cc[y] == 0
    requires code == seq(k, _ => false)
    ensures Inv(c, [], [], [], [], 0 - c.l, k, 0, 0, code) && Off(c, k) == 0
  {
    FirstZero(c, k);
    ZeroMsb(k);
    ZeroBits(code);
    hide E, Val, Msb, Pow2, U;
    ZeroTimes(U(c.g, k));
  }

  lemma FirstCodeFits(c: Book, tabs: seq<seq<Entry>>, info: seq<Info>, u: seq<nat>, x: seq<nat>, w: int, k: nat, kmin: nat, i: nat, code: seq<bool>, t: nat)
    requires Inv(c, tabs, info, u, x, w, k, t, i, code) && t < c.cc[k]
    requires |u| == 0 ==> forall y :: 1 <= y < k ==> c.cc[y] == 0
    requires |c.cc| == BMAX + 1 && c.g <= BMAX && 1 <= kmin <= c.l <= c.g && c.cc[kmin] > 0
    ensures |u| == 0 ==> k <= c.l
  {
  }

  lemma CodeReady(c: Book, tabs: seq<seq<Entry>>, info: seq<Info>, u: seq<nat>, x: seq<nat>, w: int, k: nat, t: nat, i: nat, code: seq<bool>)
    requires Inv(c, tabs, info, u, x, w, k, t, i, code) && t < c.cc[k] && k <= w + c.l && |u| > 0
    ensures 0 <= w < k && u[|u| - 1] < |tabs| && Off(c, k) + t < |c.fill| && |code| == k && 1 <= k && i == Val(code)
    ensures Msb(code) == First(c, k) + t
    ensures i / Pow2(w) == Val(code[w..]) < Pow2(k - w)
  {
    PosBounds(c, k, t);
    OffStep(c, k);
    OffMono(c, k + 1, c.g + 1);
    hide E, First, Msb, U, Pow2, Val, Pos, Off, NarrowTo, GoodTo, AllOnes, AllBuilt, Shape, Chain, OthersClosed;
    IndexBehind(code, w);
  }

  lemma IndexBehind(code: seq<bool>, w: nat)
    requires w <= |code|
    ensures Val(code) / Pow2(w) == Val(code[w..]) < Pow2(|code| - w)
  {
    hide Val, Pow2;
    ValSplit(code, w);
  }

  /** After the last code the register wraps; before, the code value goes up by one. */
  lemma AfterCode(c: Book, k: nat, t: nat, code: seq<bool>, code': seq<bool>)
    requires Valid(c) && 1 <= k <= c.g && t < c.cc[k] && |code| == k && Msb(code) == First(c, k) + t
    requires code != Ones(k) ==> |code'| == k && Msb(code') == Msb(code) + 1
    ensures Pos(c, k, t + 1) < Pow2(c.g) ==>
              |code'| == k && Msb(code') == First(c, k) + t + 1 && Msb(code') * U(c.g, k) == Pos(c, k, t + 1)
    ensures Pos(c, k, t + 1) <= Pow2(c.g)
    ensures Pos(c, k, t + 1) < Pow2(c.g) ==> code != Ones(k)
  {
    PosBounds(c, k, t);
    PosIsE(c, k, t);
    PosOfCode(c, k, t, code);
    if code == Ones(k) {
      OnesLeft(c, k);
    } else {
      PosOfCode(c, k, t + 1, code');
    }
    hide First, U, E, Pos, Msb, Pow2, Valid;
  }

  lemma Done(c: Book, tabs: seq<seq<Entry>>, info: seq<Info>, u: seq<nat>, x: seq<nat>, w: int, i: nat, code: seq<bool>)
    requires Valid(c) && Inv(c, tabs, info, u, x, w, c.g, c.cc[c.g], i, code) && |u| > 0
    ensures |tabs| == |info| > 0 && Shape(c, tabs, info) && AllBuilt(c, info) && AllOnes(c, tabs, info)
    ensures GoodTo(c, tabs, info, Pow2(c.g))
  {
    PosIsE(c, c.g, 0);
    assert u[|u| - 1] < |info|;
  }
}
