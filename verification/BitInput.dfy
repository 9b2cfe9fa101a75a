/** The bit stream of the second inflater: a 32-bit register that is read from its top, and the words behind it. */
module BitInputs {
  import opened BitStrings
  import opened HuffTrees
  import Hufts

  const REGISTER: nat := 32

  /** The byte order of a word is reversed, so that the first byte in memory comes to the top. */
  function Reverse(a: bv32): (r: bv32)
    ensures r == (a << 24) | ((a & 0xff00) << 8) | ((a >> 8) & 0xff00) | (a >> 24)
  {
    var v := (((a << 16) | (a >> 16)) ^ a) & 0xff00_ffff;
    ((a >> 8) | (a << 24)) ^ (v >> 8)
  }

  /** The bits of a word, from the top. */
  function Bits(w: nat): (b: seq<bool>)
    requires w < Pow2(REGISTER)
    ensures |b| == REGISTER && Msb(b) == w
  {
    Hufts.Digits(w, REGISTER)
  }

  predicate AreWords(words: seq<nat>) {
    forall i :: 0 <= i < |words| ==> words[i] < Pow2(REGISTER)
  }

  function Stream(words: seq<nat>): (b: seq<bool>)
    requires AreWords(words)
    ensures |b| == REGISTER * |words|
  {
    if words == [] then [] else Bits(words[0]) + Stream(words[1..])
  }

  function Zero(n: nat): (b: seq<bool>)
    ensures |b| == n && Msb(b) == 0
  {
    if n == 0 then [] else
      assert (Zero(n - 1) + [false])[..n - 1] == Zero(n - 1);
      Zero(n - 1) + [false]
  }

  /** x >> (32 - k): the top k bits. */
  lemma TopBits(x: nat, k: nat)
    requires x < Pow2(REGISTER) && k <= REGISTER
    ensures Msb(Bits(x)[..k]) == x / Pow2(REGISTER - k)
  {
    hide Pow2, Hufts.Digits;
    var b := Bits(x);
    assert b == b[..k] + b[k..];
    MsbCat(b[..k], b[k..]);
    DivModUnique(x, Pow2(REGISTER - k), Msb(b[..k]), Msb(b[k..]));
  }

  /** x << k in the register: the top k bits are gone. */
  lemma ShiftBits(x: nat, k: nat)
    requires x < Pow2(REGISTER) && k <= REGISTER
    ensures var y := x * Pow2(k) % Pow2(REGISTER); Bits(y) == Bits(x)[k..] + Zero(k)
  {
    hide Pow2, Hufts.Digits, Msb, Zero;
    var b := Bits(x);
    var rest := Msb(b[k..]);
    SplitBits(x, k);
    PowAdd(REGISTER - k, k);
    Moved(Msb(b[..k]), rest, Pow2(REGISTER - k), Pow2(k), x, Pow2(REGISTER));
    ZerosBehind(b[k..], k);
    MsbInjective(Bits(x * Pow2(k) % Pow2(REGISTER)), b[k..] + Zero(k));
  }

  lemma SplitBits(x: nat, k: nat)
    requires x < Pow2(REGISTER) && k <= REGISTER
    ensures var b := Bits(x); x == Msb(b[..k]) * Pow2(REGISTER - k) + Msb(b[k..]) && Msb(b[k..]) < Pow2(REGISTER - k)
  {
    hide Pow2, Hufts.Digits, Msb;
    var b := Bits(x);
    assert b == b[..k] + b[k..];
    MsbCat(b[..k], b[k..]);
  }

  lemma ZerosBehind(b: seq<bool>, k: nat)
    ensures Msb(b + Zero(k)) == Msb(b) * Pow2(k)
  {
    hide Pow2, Msb;
    MsbCat(b, Zero(k));
  }

  lemma Moved(pre: nat, rest: nat, u: nat, p: nat, x: nat, w: nat)
    requires x == pre * u + rest && rest < u && p > 0 && w == u * p
    ensures x * p % w == rest * p < w
  {
    MulLess(rest, u, p);
    Spread(pre, u, rest, p);
    DivModUnique(x * p, w, pre, rest * p);
  }

  lemma Spread(a: nat, u: nat, b: nat, p: nat)
    ensures (a * u + b) * p == b * p + a * (u * p)
  {
  }

  class BitInput {
    /** Bits in the register; bits that remain in memory, possibly fewer than none; and the words there. */
    var count: int
    var bits: nat
    var remain: int
    var words: seq<nat>

    ghost predicate Valid()
      reads this
    {
      0 <= count <= REGISTER && bits < Pow2(REGISTER) && AreWords(words) && remain <= REGISTER * |words|
    }

    /** The bits still to be read. */
    ghost function Pending(): seq<bool>
      requires Valid()
      reads this
    {
      Rest(bits, count, words, remain)
    }

    /** Set: the stream begins at a bit offset within the first word. */
    constructor (memory: seq<nat>, length: nat, offset: nat)
      requires AreWords(memory) && offset < REGISTER && offset + length <= REGISTER * |memory|
      ensures Valid() && Pending() == Stream(memory)[offset..offset + length]
    {
      if length == 0 {
        count, bits, remain, words := 0, 0, 0, memory;
      } else {
        var first, left: int := REGISTER - offset, length - (REGISTER - offset);
        if left < 0 {
          first := first + left;
        }
        count, bits, remain, words := first, memory[0] * Pow2(offset) % Pow2(REGISTER), left, memory[1..];
        ShiftBits(memory[0], offset);
      }
      new;
      hide Bits, Zero;
      PowPositive();
      SetIs(memory, length, offset, bits, count, remain, words);
    }

    /** ReadL for several bits: the number they stand for, the last bit being the least significant. */
    method ReadBits(size0: nat) returns (value: nat)
      requires Valid() && size0 <= REGISTER && size0 <= |Pending()|
      modifies this
      ensures Valid() && value == Msb(old(Pending())[..size0]) && Pending() == old(Pending())[size0..]
    {
      hide Pow2, Bits, Msb, Stream, Rest, AreWords, Reading, Shl, Shr;
      ghost var p := Pending();
      NoBits(p);
      if size0 == 0 {
        return 0;
      }
      var size: nat, val: nat, b: nat := size0, 0, bits;
      ghost var taken: seq<bool> := [];
      ReadingFirst(p, size, b, count, words, remain);
      count := count - size;
      while count < 0
        invariant 0 <= count + size <= REGISTER && size <= REGISTER && |taken| + size == size0
        invariant Reading(p, taken, val, size, b, count + size, words, remain)
        decreases |words|
      {
        ReadingStep(p, taken, val, size, b, count + size, words, remain);
        ghost var avail := count + size;
        val := val + Shl(Shr(b, REGISTER - (count + size)), -count);
        taken := taken + Bits(b)[..avail];
        size := -count;
        b := words[0];
        words := words[1..];
        count := count + REGISTER;
        remain := remain - REGISTER;
        if remain < 0 {
          count := count + remain;
        }
      }
      ReadingLast(p, taken, val, size, b, count + size, words, remain);
      bits := Shl(b, size) % Modulus();
      value := val + Shr(b, REGISTER - size);
    }

    /** ReadL for one bit. */
    method ReadBit() returns (bit: nat)
      requires Valid() && |Pending()| > 0
      modifies this
      ensures Valid() && bit == (if old(Pending())[0] then 1 else 0) && Pending() == old(Pending())[1..]
    {
      hide Pow2, Bits, Stream, Msb;
      var c := count - 1;
      ghost var p := Pending();
      OneBit(p);
      if c < 0 {
        bit := ReadBits(1);
        return;
      }
      TopBits(bits, 1);
      ShiftBits(bits, 1);
      assert Bits(bits)[..1] == p[..1];
      TakeLast(p, [], bits, 1, c, words, remain);
      PowOne();
      bit := bits / Pow2(REGISTER - 1);
      count := c;
      bits := bits * 2 % Pow2(REGISTER);
    }
  }

  /** What is left: the top of the register, and the words in memory. */
  ghost function Rest(b: nat, avail: int, words: seq<nat>, remain: int): (s: seq<bool>)
    requires 0 <= avail <= REGISTER && b < Pow2(REGISTER) && AreWords(words) && remain <= REGISTER * |words|
    ensures |s| == avail + if remain > 0 then remain else 0
  {
    Bits(b)[..avail] + Stream(words)[..if remain > 0 then remain else 0]
  }

  lemma SetIs(memory: seq<nat>, length: nat, offset: nat, bits: nat, count: int, remain: int, words: seq<nat>)
    requires AreWords(memory) && offset < REGISTER && offset + length <= REGISTER * |memory| && bits < Pow2(REGISTER) && AreWords(words)
    requires 0 <= count <= REGISTER && remain <= REGISTER * |words|
    requires length == 0 ==> count == 0 && remain == 0
    requires length > 0 ==> words == memory[1..] && remain == length - (REGISTER - offset)
    requires length > 0 ==> count == if remain < 0 then length else REGISTER - offset
    requires length > 0 ==> Bits(bits) == Bits(memory[0])[offset..] + Zero(offset)
    ensures Rest(bits, count, words, remain) == Stream(memory)[offset..offset + length]
  {
    if length > 0 {
      assert Stream(memory) == Bits(memory[0]) + Stream(words);
      hide Bits, Zero, Stream, Pow2;
      SetParts(Bits(memory[0]), Stream(words), Bits(bits), offset, length, count, remain);
    }
  }

  lemma SetParts(first: seq<bool>, rest: seq<bool>, reg: seq<bool>, offset: nat, length: nat, count: int, remain: int)
    requires |first| == |reg| == REGISTER && offset < REGISTER && 0 < length && offset + length <= REGISTER + |rest|
    requires reg[..REGISTER - offset] == first[offset..] && remain == length - (REGISTER - offset)
    requires count == if remain < 0 then length else REGISTER - offset
    ensures reg[..count] + rest[..if remain > 0 then remain else 0] == (first + rest)[offset..offset + length]
  {
    assert reg[..count] == reg[..REGISTER - offset][..count] == first[offset..offset + count];
    if remain < 0 {
      assert rest[..0] == [];
    }
  }

  function Shl(x: nat, n: nat): nat { x * Pow2(n) }

  function Shr(x: nat, n: nat): nat { Quot(x, Pow2(n)) }

  function Modulus(): nat { Pow2(REGISTER) }

  /** While bits are read: those taken so far have been put into val, shifted up by the bits still to come. */
  ghost predicate Reading(p: seq<bool>, taken: seq<bool>, val: nat, size: nat, b: nat, avail: int, words: seq<nat>, remain: int) {
    && 0 <= avail <= REGISTER && b < Pow2(REGISTER) && AreWords(words) && remain <= REGISTER * |words|
    && p == taken + Rest(b, avail, words, remain) && val == Msb(taken) * Pow2(size)
  }

  lemma ReadingFirst(p: seq<bool>, size: nat, b: nat, avail: int, words: seq<nat>, remain: int)
    requires 0 <= avail <= REGISTER && b < Pow2(REGISTER) && AreWords(words) && remain <= REGISTER * |words|
    requires p == Rest(b, avail, words, remain)
    ensures Reading(p, [], 0, size, b, avail, words, remain)
  {
    hide Rest, Pow2;
    NoBits(p);
  }

  lemma ReadingStep(p: seq<bool>, taken: seq<bool>, val: nat, size: nat, b: nat, avail: int, words: seq<nat>, remain: int)
    requires Reading(p, taken, val, size, b, avail, words, remain) && avail < size && |taken| + size <= |p|
    ensures words != [] && b < Pow2(REGISTER) && 0 < remain
    ensures Reading(p, taken + Bits(b)[..avail], val + Shl(Shr(b, REGISTER - avail), size - avail), size - avail, words[0],
                    if remain < REGISTER then remain else REGISTER, words[1..], remain - REGISTER)
  {
    hide Pow2, Bits, Msb, Stream, Rest, AreWords;
    RestLength(b, avail, words, remain);
    TopBits(b, avail);
    TakeMore(taken, Bits(b)[..avail], size);
    Refill(b, avail, words, remain);
    assert p == (taken + Bits(b)[..avail]) + Rest(words[0], if remain < REGISTER then remain else REGISTER, words[1..], remain - REGISTER);
  }

  lemma ReadingLast(p: seq<bool>, taken: seq<bool>, val: nat, size: nat, b: nat, avail: int, words: seq<nat>, remain: int)
    requires Reading(p, taken, val, size, b, avail, words, remain) && size <= avail <= REGISTER
    ensures AreWords(words) && remain <= REGISTER * |words| && Modulus() == Pow2(REGISTER) > 0 && |taken| + size <= |p|
    ensures var y := Shl(b, size) % Modulus(); y < Modulus() && Rest(y, avail - size, words, remain) == p[|taken| + size..]
    ensures val + Shr(b, REGISTER - size) == Msb(p[..|taken| + size])
  {
    hide Pow2, Bits, Msb, Stream, Rest, AreWords;
    TopBits(b, size);
    ShiftBits(b, size);
    TakeMore(taken, Bits(b)[..size], size);
    TakeLast(p, taken, b, size, avail - size, words, remain);
    TimesOne(Msb(Bits(b)[..size]));
    TimesOne(Msb(taken + Bits(b)[..size]));
  }

  lemma TimesOne(x: nat)
    ensures x * Pow2(0) == x
  {
  }

  lemma PowPositive()
    ensures 0 < Pow2(REGISTER)
  {
  }

  lemma PowOne()
    ensures Pow2(1) == 2
  {
  }

  lemma NoBits(p: seq<bool>)
    ensures Msb(p[..0]) == 0 && Msb([]) == 0 && p[0..] == p && forall n: nat :: 0 * Pow2(n) == 0
  {
  }

  lemma OneBit(p: seq<bool>)
    requires |p| > 0
    ensures Msb(p[..1]) == if p[0] then 1 else 0
  {
    assert p[..1] == [p[0]];
  }

  lemma RestLength(b: nat, avail: int, words: seq<nat>, remain: int)
    requires 0 <= avail <= REGISTER && b < Pow2(REGISTER) && AreWords(words) && remain <= REGISTER * |words|
    ensures |Rest(b, avail, words, remain)| == avail + if remain > 0 then remain else 0
  {
  }

  /** The bits of t are added to those taken. */
  lemma TakeMore(taken: seq<bool>, t: seq<bool>, size: nat)
    requires |t| <= size
    ensures Msb(taken + t) * Pow2(size - |t|) == Msb(taken) * Pow2(size) + Msb(t) * Pow2(size - |t|)
  {
    hide Msb, Pow2;
    MsbCat(taken, t);
    PowAdd(|t|, size - |t|);
    Regroup(Msb(taken), Pow2(|t|), Msb(t), Pow2(size - |t|));
  }

  lemma Regroup(a: nat, p: nat, b: nat, q: nat)
    ensures (a * p + b) * q == a * (p * q) + b * q
  {
  }

  /** The register is empty, and is filled from memory. */
  lemma Refill(b: nat, avail: int, words: seq<nat>, remain: int)
    requires 0 <= avail <= REGISTER && b < Pow2(REGISTER) && AreWords(words) && 0 < remain <= REGISTER * |words|
    ensures words != [] && words[0] < Pow2(REGISTER) && AreWords(words[1..]) && remain - REGISTER <= REGISTER * |words[1..]|
    ensures var left := remain - REGISTER;
      Rest(b, avail, words, remain) == Bits(b)[..avail] + Rest(words[0], if left < 0 then remain else REGISTER, words[1..], left)
  {
    hide Pow2, Bits;
    var left := remain - REGISTER;
    var s := Stream(words)[..remain];
    assert s == Bits(words[0])[..if left < 0 then remain else REGISTER] + Stream(words[1..])[..if left > 0 then left else 0];
  }

  /** The last bits come from the register. */
  lemma TakeLast(p: seq<bool>, taken: seq<bool>, b: nat, size: nat, count: int, words: seq<nat>, remain: int)
    requires 0 <= count && count + size <= REGISTER && b < Pow2(REGISTER) && AreWords(words) && remain <= REGISTER * |words|
    requires p == taken + Rest(b, count + size, words, remain)
    requires var y := b * Pow2(size) % Pow2(REGISTER); Bits(y) == Bits(b)[size..] + Zero(size)
    ensures |taken| + size <= |p| && p[..|taken| + size] == taken + Bits(b)[..size]
    ensures p[|taken| + size..] == Rest(b * Pow2(size) % Pow2(REGISTER), count, words, remain)
  {
    hide Pow2, Bits, Stream, Zero;
    var y := b * Pow2(size) % Pow2(REGISTER);
    assert Bits(y)[..count] == Bits(b)[size..count + size];
  }

  // ---------- reading a code ----------

  /** What a look-up finds after some bits have been used. */
  function After(r: Option<Found>, used: nat): Option<Found> {
    match r
    case None => None
    case Some(f) => Some(Found(f.sym, f.used + used))
  }

  /** HuffmanL: the symbol that the next bits lead to in a decoding tree. */
  method HuffmanL(tree: seq<nat>, input: BitInput) returns (sym: nat)
    requires input.Valid() && Read(tree, 0, input.Pending()).Some?
    modifies input
    ensures input.Valid()
    ensures var r := Read(tree, 0, old(input.Pending())).value;
      sym == r.sym && r.used <= |old(input.Pending())| && input.Pending() == old(input.Pending())[r.used..]
  {
    hide Read;
    ghost var s := input.Pending();
    ghost var used := 0;
    var huff, p: nat := 0, 0;
    while true
      invariant input.Valid() && used <= |s| && input.Pending() == s[used..]
      invariant Read(tree, 0, s) == After(Read(tree, p + huff / 0x1_0000 / 4, input.Pending()), used) && Read(tree, 0, s).Some?
      decreases |s| - used
    {
      p := p + huff / 0x1_0000 / 4;
      ReadOnce(tree, p, input.Pending());
      huff := tree[p];
      ghost var rest := input.Pending();
      var bit := input.ReadBit();
      used := used + 1;
      assert rest[1..] == s[used..];
      if bit == 0 {
        LowHalf(huff);
        huff := huff % 0x1_0000 * 0x1_0000;
      }
      if huff / 0x1_0000 % 2 == 1 {
        return huff / 0x1_0000 / 2;
      }
    }
  }

  lemma LowHalf(huff: nat)
    ensures huff % 0x1_0000 * 0x1_0000 / 0x1_0000 == huff % 0x1_0000
  {
  }

  /** One step down the tree. */
  lemma ReadOnce(tree: seq<nat>, p: nat, s: seq<bool>)
    requires Read(tree, p, s).Some?
    ensures s != [] && p < |tree|
    ensures var h := if s[0] then tree[p] / 0x1_0000 else tree[p] % 0x1_0000;
      Read(tree, p, s) == if h % 2 == 1 then Some(Found(h / 2, 1)) else After(Read(tree, p + h / 4, s[1..]), 1)
  {
    var h := if s[0] then tree[p] / 0x1_0000 else tree[p] % 0x1_0000;
    assert h / 2 / 2 == h / 4;
  }
}
