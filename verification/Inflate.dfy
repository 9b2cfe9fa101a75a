/** The bit buffer of the inflater and its table look-up loop. */
module Inflates {
  import opened BitStrings
  import opened HuftCodes
  import opened HuftBuilds
  import opened HuftMakes

  /** The k low bits of x, the least significant one first. */
  function LowBits(x: nat, k: nat): (b: seq<bool>)
    requires x < Pow2(k)
    ensures |b| == k && Val(b) == x
  {
    if k == 0 then [] else
      assert ([x % 2 == 1] + LowBits(x / 2, k - 1))[1..] == LowBits(x / 2, k - 1);
      [x % 2 == 1] + LowBits(x / 2, k - 1)
  }

  type byte = x: nat | x < 256

  function Eight(x: byte): (b: seq<bool>)
    ensures |b| == 8 && Val(b) == x
  {
    assert Pow2(8) == 256 by { Pow8(); }
    LowBits(x, 8)
  }

  lemma Pow8()
    ensures Pow2(8) == 256
  {
    assert Pow2(4) == 16;
    PowAdd(4, 4);
  }

  /** The input as a bit string, least significant bit of each byte first. */
  function BitsOf(input: seq<byte>): (b: seq<bool>)
    ensures |b| == 8 * |input|
  {
    if input == [] then [] else Eight(input[0]) + BitsOf(input[1..])
  }

  lemma LowBitsUnique(b: seq<bool>, x: nat)
    requires Val(b) == x
    ensures x < Pow2(|b|) && LowBits(x, |b|) == b
  {
    ValInjective(b, LowBits(x, |b|));
  }

  /** The bit buffer b of k bits and the bytes still to be read. */
  class BitReader {
    var b: nat
    var k: nat
    var input: seq<byte>

    ghost predicate Valid()
      reads this
    {
      b < Pow2(k) && k <= 32
    }

    /** The bits still to be decoded. */
    ghost function Pending(): (s: seq<bool>)
      reads this
      requires Valid()
    {
      LowBits(b, k) + BitsOf(input)
    }

    constructor (bytes: seq<byte>)
      ensures Valid() && Pending() == BitsOf(bytes)
    {
      b, k, input := 0, 0, bytes;
      new;
      assert LowBits(0, 0) == [];
    }

    /** NEEDBITS: at least n bits in the buffer; the bits to come do not change. */
    method NeedBits(n: nat)
      requires Valid() && n <= 24 && n <= |Pending()|
      modifies this
      ensures Valid() && Pending() == old(Pending()) && k >= n
    {
      hide LowBits, Val, Pow2, BitsOf;
      while k < n
        invariant Valid() && Pending() == old(Pending())
        decreases n - k
      {
        MoreInput(b, k, input);
        TakeByte(b, k, input);
        b := b + input[0] * Pow2(k);
        k := k + 8;
        input := input[1..];
      }
    }

    /** DUMPBITS: the first n bits are done. */
    method DumpBits(n: nat)
      requires Valid() && n <= k
      modifies this
      ensures Valid() && n <= |old(Pending())| && Pending() == old(Pending())[n..] && k == old(k) - n
    {
      hide LowBits, Val, Pow2, BitsOf, Shr;
      DropBits(b, k, n, input);
      b := Shr(b, n);
      k := k - n;
    }

    /** The table index: the first n bits of the buffer. */
    method Peek(n: nat) returns (x: nat)
      requires Valid() && n <= k
      ensures n <= |Pending()| && x == Val(Pending()[..n])
    {
      hide LowBits, Val, Pow2, BitsOf;
      PeekBits(b, k, n, input);
      x := b % Pow2(n);
    }
  }

  lemma MoreInput(b: nat, k: nat, input: seq<byte>)
    requires b < Pow2(k) && |LowBits(b, k) + BitsOf(input)| > k
    ensures input != []
  {
  }

  lemma TakeByte(b: nat, k: nat, input: seq<byte>)
    requires b < Pow2(k) && input != []
    ensures b + input[0] * Pow2(k) < Pow2(k + 8)
    ensures LowBits(b + input[0] * Pow2(k), k + 8) + BitsOf(input[1..]) == LowBits(b, k) + BitsOf(input)
  {
    var l, e, rest := LowBits(b, k), Eight(input[0]), BitsOf(input[1..]);
    assert BitsOf(input) == e + rest;
    hide *;
    ValCat(l, e);
    LowBitsUnique(l + e, b + input[0] * Pow2(k));
    assert l + e + rest == l + (e + rest);
  }

  /** x >> n */
  function Shr(x: nat, n: nat): nat {
    Quot(x, Pow2(n))
  }

  lemma DropBits(b: nat, k: nat, n: nat, input: seq<byte>)
    requires b < Pow2(k) && n <= k
    ensures Shr(b, n) < Pow2(k - n)
    ensures LowBits(Shr(b, n), k - n) + BitsOf(input) == (LowBits(b, k) + BitsOf(input))[n..]
  {
    var l := LowBits(b, k);
    ValSplit(l, n);
    LowBitsUnique(l[n..], Shr(b, n));
    assert (l + BitsOf(input))[n..] == l[n..] + BitsOf(input);
  }

  lemma PeekBits(b: nat, k: nat, n: nat, input: seq<byte>)
    requires b < Pow2(k) && n <= k
    ensures b % Pow2(n) == Val((LowBits(b, k) + BitsOf(input))[..n])
  {
    var l := LowBits(b, k);
    ValSplit(l, n);
    assert (l + BitsOf(input))[..n] == l[..n];
  }

  /** One look-up of a walk that is not garbage. */
  lemma OneLook(tabs: seq<seq<Entry>>, t: nat, q: nat, s: seq<bool>, w: nat)
    requires Walk(tabs, t, q, s, w) != Garbage
    ensures t < |tabs| && w + q <= |s| && Val(s[w..w + q]) < |tabs[t]|
    ensures match tabs[t][Val(s[w..w + q])]
            case Unset => false
            case Data(b, e, n) => b <= q && Walk(tabs, t, q, s, w) == if e == 99 then Invalid else Found(e, n, w + b)
            case Link(b, e, t') => b <= q && 16 < e <= 17 + BMAX && t < t' < |tabs|
                                   && Walk(tabs, t, q, s, w) == Walk(tabs, t', e - 16, s, w + b)
  {
  }

  /** The look-up loop of the decoder, for streams whose walk stays within written cells: index the first
      table with bl bits and follow links until an entry that is none. It returns an error for the invalid
      marker, and otherwise flag and value of the entry, with the bits of the code taken off the input. */
  method Decode(tabs: seq<seq<Entry>>, bl: nat, reader: BitReader) returns (ok: bool, e: nat, n: nat)
    requires reader.Valid() && bl <= BMAX + 1
    requires Walk(tabs, 0, bl, reader.Pending(), 0) != Garbage
    modifies reader
    ensures reader.Valid()
    ensures var s := old(reader.Pending());
            match Walk(tabs, 0, bl, s, 0)
            case Found(e', n', bits) => ok && e == e' && n == n' && bits <= |s| && reader.Pending() == s[bits..]
            case Invalid => !ok
            case Garbage => false
  {
    hide Val, Walk;
    ghost var s := reader.Pending();
    ghost var w: nat := 0;
    var t: nat, q: nat := 0, bl;
    while true
      invariant reader.Valid() && w <= |s| && reader.Pending() == s[w..] && q <= BMAX + 1
      invariant Walk(tabs, 0, bl, s, 0) == Walk(tabs, t, q, s, w) != Garbage
      decreases |tabs| - t
    {
      OneLook(tabs, t, q, s, w);
      reader.NeedBits(q);
      var x := reader.Peek(q);
      assert s[w..][..q] == s[w..w + q];
      match tabs[t][x] {
        case Data(b, e', n') =>
          if e' == 99 {
            return false, e', n';
          }
          reader.DumpBits(b);
          assert s[w..][b..] == s[w + b..];
          return true, e', n';
        case Link(b, e', t') =>
          reader.DumpBits(b);
          assert s[w..][b..] == s[w + b..];
          w := w + b;
          t, q := t', e' - 16;
      }
    }
  }
}
