/** Bit strings read in the two orders that meet in a Huffman decoder: Val takes the first bit as the least
    significant one (the order in which the input is packed and in which decoding tables are indexed), Msb
    takes it as the most significant one (the order in which code values are counted). */
module BitStrings {

  function Pow2(n: nat): (r: nat)
    ensures r > 0
  {
    if n == 0 then 1 else 2 * Pow2(n - 1)
  }

  function Quot(x: nat, p: nat): nat
    requires p > 0
  {
    x / p
  }

  function Val(b: seq<bool>): (r: nat)
    ensures r < Pow2(|b|)
  {
    if b == [] then 0 else (if b[0] then 1 else 0) + 2 * Val(b[1..])
  }

  function Msb(b: seq<bool>): (r: nat)
    ensures r < Pow2(|b|)
  {
    if b == [] then 0 else 2 * Msb(b[..|b| - 1]) + (if b[|b| - 1] then 1 else 0)
  }

  lemma {:induction false} PowAdd(a: nat, b: nat)
    ensures Pow2(a + b) == Pow2(a) * Pow2(b)
  {
    if b > 0 {
      PowAdd(a, b - 1);
      assert Pow2(a) * Pow2(b) == 2 * (Pow2(a) * Pow2(b - 1));
    }
  }

  lemma {:induction false} PowMono(a: nat, b: nat)
    requires a <= b
    ensures Pow2(a) <= Pow2(b)
  {
    if a < b {
      PowMono(a, b - 1);
    }
  }

  lemma PowTimes(n: nat, v: int)
    requires n > 0
    ensures v * Pow2(n) == 2 * (v * Pow2(n - 1))
  {
  }

  lemma ValCons(x: bool, b: seq<bool>)
    ensures Val([x] + b) == (if x then 1 else 0) + 2 * Val(b)
  {
    assert ([x] + b)[1..] == b;
  }

  lemma {:induction false} ValCat(a: seq<bool>, b: seq<bool>)
    ensures Val(a + b) == Val(a) + Val(b) * Pow2(|a|)
  {
    if a == [] {
      assert a + b == b;
    } else {
      hide Val, Pow2;
      var x, c := a[0], a[1..];
      ValCat(c, b);
      assert a == [x] + c && a + b == [x] + (c + b);
      ValCons(x, c);
      ValCons(x, c + b);
      PowTimes(|a|, Val(b));
    }
  }

  lemma {:induction false} MsbCat(a: seq<bool>, b: seq<bool>)
    ensures Msb(a + b) == Msb(a) * Pow2(|b|) + Msb(b)
  {
    if b == [] {
      assert a + b == a;
    } else {
      hide Pow2;
      var c := b[..|b| - 1];
      MsbCat(a, c);
      assert (a + b)[..|a| + |c|] == a + c;
      PowTimes(|b|, Msb(a));
      assert |c| == |b| - 1;
    }
  }

  lemma {:induction false} ValInjective(a: seq<bool>, b: seq<bool>)
    requires |a| == |b| && Val(a) == Val(b)
    ensures a == b
  {
    if a != [] {
      assert a[0] == b[0];
      ValInjective(a[1..], b[1..]);
      assert a == [a[0]] + a[1..] && b == [b[0]] + b[1..];
    }
  }

  lemma {:induction false} MsbInjective(a: seq<bool>, b: seq<bool>)
    requires |a| == |b| && Msb(a) == Msb(b)
    ensures a == b
  {
    if a != [] {
      var n := |a| - 1;
      assert a[n] == b[n];
      MsbInjective(a[..n], b[..n]);
      assert a == a[..n] + [a[n]] && b == b[..n] + [b[n]];
    }
  }

  /** Splitting an index: the low bits are the first bits. */
  lemma ValSplit(b: seq<bool>, k: nat)
    requires k <= |b|
    ensures Val(b) % Pow2(k) == Val(b[..k])
    ensures Val(b) / Pow2(k) == Val(b[k..])
  {
    assert b == b[..k] + b[k..];
    ValCat(b[..k], b[k..]);
    DivModUnique(Val(b), Pow2(k), Val(b[k..]), Val(b[..k]));
  }

  lemma DivModUnique(x: nat, m: nat, q: nat, r: nat)
    requires m > 0 && r < m && x == r + q * m
    ensures x / m == q && x % m == r
  {
    SameQuotient(x / m, q, m, x);
  }

  lemma MulLess(a: nat, b: nat, c: nat)
    requires a < b
    ensures a * c + c <= b * c
  {
    var d := b - a - 1;
    assert b * c == a * c + c + d * c;
  }

  lemma SameQuotient(a: nat, b: nat, u: nat, x: nat)
    requires a * u <= x < a * u + u && b * u <= x < b * u + u
    ensures a == b
  {
    if a < b {
      MulLess(a, b, u);
    } else if b < a {
      MulLess(b, a, u);
    }
  }

  // ---------- positions: a string of g bits as a point of the code space 0..2^g ----------

  /** The width of the subtree below a prefix of k bits. */
  function U(g: nat, k: nat): (r: nat)
    ensures r > 0
  {
    if k <= g then Pow2(g - k) else 1
  }

  lemma UStep(g: nat, k: nat, n: nat)
    requires k + n <= g
    ensures U(g, k) == Pow2(n) * U(g, k + n)
  {
    PowAdd(n, g - k - n);
  }

  /** Where a stream lies. */
  function X(g: nat, s: seq<bool>): (r: nat)
    requires g <= |s|
    ensures r < Pow2(g)
  {
    Msb(s[..g])
  }

  /** The start of the subtree below a prefix. */
  function Left(g: nat, pre: seq<bool>): nat {
    Msb(pre) * U(g, |pre|)
  }

  lemma LeftBound(g: nat, pre: seq<bool>)
    requires |pre| <= g
    ensures Left(g, pre) + U(g, |pre|) <= Pow2(g)
  {
    UStep(g, 0, |pre|);
    MulLess(Msb(pre), Pow2(|pre|), U(g, |pre|));
  }

  /** A stream lies in the subtree below each of its prefixes. */
  lemma InOwnPrefix(g: nat, s: seq<bool>, k: nat)
    requires k <= g <= |s|
    ensures Left(g, s[..k]) <= X(g, s) < Left(g, s[..k]) + U(g, k)
  {
    assert s[..g] == s[..k] + s[k..g];
    MsbCat(s[..k], s[k..g]);
  }

  /** And a prefix is determined by lying in its subtree. */
  lemma PrefixFromPlace(g: nat, s: seq<bool>, pre: seq<bool>)
    requires |pre| <= g <= |s|
    requires Left(g, pre) <= X(g, s) < Left(g, pre) + U(g, |pre|)
    ensures s[..|pre|] == pre
  {
    var k := |pre|;
    InOwnPrefix(g, s, k);
    SameQuotient(Msb(pre), Msb(s[..k]), U(g, k), X(g, s));
    MsbInjective(pre, s[..k]);
  }
}
