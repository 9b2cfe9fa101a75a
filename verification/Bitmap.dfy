/** A bitmap over a byte buffer, bit k of a byte being bit 8 * i + k of the map. */
module Bitmaps {
  import opened BitStrings

  predicate GetBit(b: bv8, k: bv3) {
    1 & (b >> k) == 1
  }

  function SetBit(b: bv8, k: bv3, on: bool): bv8 {
    if on then b | (1 << k) else b & !(1 << k)
  }

  lemma GetSet(b: bv8, k: bv3, j: bv3, on: bool)
    ensures GetBit(SetBit(b, k, on), j) == if j == k then on else GetBit(b, j)
  {
  }

  lemma AllBits(j: bv3, on: bool)
    ensures GetBit(if on then 0xff else 0, j) == on
  {
  }

  /** The place of a bit in its byte. */
  function Place(ix: nat): bv3 {
    (ix % 8) as bv3
  }

  lemma PlaceInjective(x: nat, y: nat)
    requires Place(x) == Place(y) && x / 8 == y / 8
    ensures x == y
  {
  }

  predicate BitAt(bytes: seq<bv8>, ix: nat)
    requires ix < 8 * |bytes|
  {
    GetBit(bytes[ix / 8], Place(ix))
  }

  function BitsIn(bytes: seq<bv8>, n: nat): (r: seq<bool>)
    requires n <= 8 * |bytes|
    ensures |r| == n
    ensures forall i :: 0 <= i < n ==> r[i] == BitAt(bytes, i)
  {
    seq(n, i requires 0 <= i < n => BitAt(bytes, i))
  }

  /** t written over s from position ix on. */
  function Over(s: seq<bool>, ix: nat, t: seq<bool>): (r: seq<bool>)
    requires ix + |t| <= |s|
    ensures |r| == |s|
    ensures forall i :: 0 <= i < |s| ==> r[i] == if ix <= i < ix + |t| then t[i - ix] else s[i]
  {
    s[..ix] + t + s[ix + |t|..]
  }

  function Repeat(len: nat, bit: bool): (r: seq<bool>)
    ensures |r| == len && forall i :: 0 <= i < len ==> r[i] == bit
  {
    seq(len, i => bit)
  }

  /** The low bits of a value, the least significant one first. */
  function Low(val: nat, len: nat): (r: seq<bool>)
    ensures |r| == len
  {
    if len == 0 then [] else [val % 2 == 1] + Low(val / 2, len - 1)
  }

  lemma {:induction false} LowIs(val: nat, len: nat, i: nat)
    requires i < len
    ensures Low(val, len)[i] == (Shifted(val, i) % 2 == 1)
  {
    if i > 0 {
      LowIs(val / 2, len - 1, i - 1);
    }
  }

  /** val after n shifts to the right. */
  function Shifted(val: nat, n: nat): nat {
    if n == 0 then val else Shifted(val / 2, n - 1)
  }

  lemma {:induction false} ShiftedNext(val: nat, n: nat)
    ensures Shifted(val, n + 1) == Shifted(val, n) / 2
  {
    if n > 0 {
      ShiftedNext(val / 2, n - 1);
    }
  }

  lemma {:induction false} LowVal(val: nat, len: nat)
    ensures Val(Low(val, len)) == val % Pow2(len)
  {
    if len > 0 {
      LowVal(val / 2, len - 1);
      var s := Low(val, len);
      assert s[1..] == Low(val / 2, len - 1);
      var p := Pow2(len - 1);
      hide Pow2, Low, Val;
      ModTwice(val, p);
    }
  }

  lemma ModTwice(x: nat, p: nat)
    requires p > 0
    ensures x % (2 * p) == x % 2 + 2 * (x / 2 % p)
  {
    var h := x / 2;
    var q, r := h / p, h % p;
    Twice(q, p);
    assert x == q * (2 * p) + (2 * r + x % 2);
    DivModUnique(x, 2 * p, q, 2 * r + x % 2);
  }

  lemma Twice(q: nat, p: nat)
    ensures 2 * (q * p) == q * (2 * p)
  {
  }

  lemma ValEnd(b: seq<bool>, n: nat)
    requires n < |b|
    ensures Val(b[..n + 1]) == Val(b[..n]) + (if b[n] then Pow2(n) else 0)
  {
    hide Pow2;
    assert b[..n + 1] == b[..n] + [b[n]];
    ValCat(b[..n], [b[n]]);
    assert Val([b[n]]) == if b[n] then 1 else 0;
  }

  class Bitmap {
    var base: array<bv8>
    var nbits: nat

    ghost predicate Valid()
      reads this
    {
      nbits <= 8 * base.Length
    }

    ghost function View(): (s: seq<bool>)
      requires Valid()
      reads this, base
      ensures |s| == nbits
    {
      BitsIn(base[..], nbits)
    }

    constructor (p: array<bv8>, size: nat, bit: bool)
      requires size <= 8 * p.Length
      modifies p
      ensures Valid() && base == p && nbits == size && View() == Repeat(size, bit)
    {
      base, nbits := p, 0;
      new;
      Init(p, size, bit);
    }

    method Init(p: array<bv8>, size: nat, bit: bool)
      requires size <= 8 * p.Length
      modifies this, p
      ensures Valid() && base == p && nbits == size && View() == Repeat(size, bit)
    {
      base := p;
      nbits := size;
      var bytes := (size + 7) / 8;
      for i := 0 to bytes
        modifies p
        invariant forall k :: 0 <= k < i ==> p[k] == if bit then 0xff else 0
      {
        p[i] := if bit then 0xff else 0;
      }
      forall i | 0 <= i < size ensures BitAt(p[..], i) == bit {
        AllBits(Place(i), bit);
      }
    }

    /** operator[] */
    predicate At(ix: nat)
      requires Valid() && ix < nbits
      reads this, base
      ensures At(ix) == View()[ix]
    {
      GetBit(base[ix / 8], Place(ix))
    }

    /** One bit. */
    method Set(ix: nat, bit: bool)
      requires Valid() && ix < nbits
      modifies base
      ensures View() == old(View())[ix := bit]
    {
      ghost var s := base[..];
      base[ix / 8] := SetBit(base[ix / 8], Place(ix), bit);
      forall i | 0 <= i < nbits ensures BitAt(base[..], i) == if i == ix then bit else BitAt(s, i) {
        GetSet(s[ix / 8], Place(ix), Place(i), bit);
        if i / 8 == ix / 8 && Place(i) == Place(ix) {
          PlaceInjective(i, ix);
        }
      }
    }

    /** Setn: len equal bits. */
    method Setn(ix: nat, len: nat, bit: bool)
      requires Valid() && ix + len <= nbits
      modifies base
      ensures View() == Over(old(View()), ix, Repeat(len, bit))
    {
      hide BitsIn, BitAt;
      var l := 0;
      while l < len
        invariant l <= len && View() == Over(old(View()), ix, Repeat(l, bit))
      {
        Set(ix + l, bit);
        l := l + 1;
      }
    }

    /** The len low bits of val. */
    method SetValue(ix: nat, len: nat, val: nat)
      requires Valid() && ix + len <= nbits
      modifies base
      ensures View() == Over(old(View()), ix, Low(val, len))
    {
      hide BitsIn, BitAt, Low;
      var l, v := 0, val;
      while l < len
        invariant l <= len && v == Shifted(val, l) && View() == Over(old(View()), ix, Low(val, len)[..l])
      {
        LowIs(val, len, l);
        ShiftedNext(val, l);
        Set(ix + l, v % 2 == 1);
        v := v / 2;
        l := l + 1;
      }
    }

    /** The value of len bits, the first one the least significant. */
    method Bits(ix: nat, len: nat) returns (val: nat)
      requires Valid() && ix + len <= nbits
      ensures val == Val(View()[ix..ix + len])
    {
      hide BitsIn, BitAt, Val;
      ghost var s := View()[ix..ix + len];
      val := 0;
      var bit := 1;
      assert Val(s[..0]) == 0 by { ValEmpty(); }
      for l := 0 to len
        invariant val == Val(s[..l]) && bit == Pow2(l)
      {
        ValEnd(s, l);
        val := val + (if At(ix + l) then bit else 0);
        bit := 2 * bit;
      }
      assert s[..len] == s;
    }

    /** The first bit from start on with this value. */
    method Find(start: nat, bit: bool) returns (ix: int)
      requires Valid()
      ensures ix == -1 || start <= ix < nbits
      ensures ix != -1 ==> View()[ix] == bit
      ensures forall i :: start <= i < (if ix == -1 then nbits else ix) ==> View()[i] != bit
    {
      hide BitsIn, BitAt;
      ix := start;
      while ix < nbits
        invariant start <= ix && forall i :: start <= i < ix && i < nbits ==> View()[i] != bit
      {
        if At(ix) == bit {
          return;
        }
        ix := ix + 1;
      }
      ix := -1;
    }
  }

  lemma ValEmpty()
    ensures Val([]) == 0
  {
  }
}
