/** The prefix code for the length of a block of pages. The code of a block begins at the first of the two bits
    of its first page:
      10          one page
      110n        2 + n pages
      1110nnnn    4 to 15 pages
      1111n[18]   16 pages and more, below 2^18 */
module PageCodes {
  import opened BitStrings
  import opened Bitmaps

  const WORD: nat := 0x1_0000_0000
  const MAX_PAGES: nat := 0x4_0000

  /** One row of encode_table. */
  datatype Etab = Etab(offset: nat, len: nat, codelen: nat, code: nat)

  /** paged_coding */
  function Coding(n: nat): Etab {
    if n < 2 then Etab(1, 2, 2, 0x1)
    else if n < 4 then Etab(2, 4, 3, 0x3)
    else if n < 16 then Etab(0, 8, 4, 0x7)
    else Etab(0, 22, 4, 0xf)
  }

  function CodeLen(n: nat): nat {
    Coding(n).len
  }

  /** paged_codelen, from a size in bytes. */
  function ZapLen(size: nat, page: nat): nat {
    if size == page then 2 else if size < 4 * page then 4 else if size < 16 * page then 8 else 22
  }

  /** The value that is written, in 32-bit arithmetic; the parts have no bit in common. */
  function CodeValue(n: nat): nat {
    var e := Coding(n);
    e.code + ((n - e.offset) % WORD * Pow2(e.codelen)) % WORD
  }

  function Code(n: nat): (s: seq<bool>)
    ensures |s| == CodeLen(n)
  {
    Low(CodeValue(n), CodeLen(n))
  }

  /** The code as it is described. */
  function Described(n: nat): seq<bool> {
    if n == 1 then [true, false]
    else if n < 4 then [true, true, false, n == 3]
    else if n < 16 then [true, true, true, false] + Low(n, 4)
    else [true, true, true, true] + Low(n, 18)
  }

  lemma TheCode(n: nat)
    requires 1 <= n < MAX_PAGES
    ensures Code(n) == Described(n)
  {
    Powers();
    hide Pow2, Low;
    TimesCodeLen(n - Coding(n).offset, Coding(n).codelen);
    if n < 2 {
      LowTwo(1);
    } else if n < 4 {
      LowTwo(3 + 8 * (n - 2));
      LowTwo((3 + 8 * (n - 2)) / 4);
    } else if n < 16 {
      LowFour(7, n, 4);
    } else {
      LowFour(15, n, 18);
    }
  }

  /** The shift loses nothing. */
  lemma TimesCodeLen(x: nat, k: nat)
    requires x < MAX_PAGES && 2 <= k <= 4
    ensures (x % WORD * Pow2(k)) % WORD == x * (if k == 2 then 4 else if k == 3 then 8 else 16)
  {
    Powers();
    hide Pow2;
  }

  lemma Powers()
    ensures Pow2(1) == 2 && Pow2(2) == 4 && Pow2(3) == 8 && Pow2(4) == 16 && Pow2(18) == MAX_PAGES
  {
    assert Pow2(2) == 4;
    assert Pow2(3) == 8;
    assert Pow2(4) == 16;
    assert Pow2(8) == 256 by {
      PowAdd(4, 4);
    }
    assert Pow2(16) == 0x1_0000 by {
      PowAdd(8, 8);
    }
    PowAdd(16, 2);
  }

  lemma LowStep(x: nat, len: nat)
    ensures Low(x, len + 1) == [x % 2 == 1] + Low(x / 2, len)
  {
  }

  lemma LowTwo(x: nat)
    ensures Low(x, 2) == [x % 2 == 1, x / 2 % 2 == 1]
    ensures Low(x, 4) == [x % 2 == 1, x / 2 % 2 == 1] + Low(x / 4, 2)
  {
    hide Low;
    LowStep(x, 1);
    LowStep(x, 3);
    LowStep(x / 2, 0);
    LowStep(x / 2, 2);
    assert x / 2 / 2 == x / 4;
    assert |Low(x / 2 / 2, 0)| == 0;
  }

  /** A marker of four bits, and behind it a number. */
  lemma LowFour(marker: nat, n: nat, len: nat)
    requires marker == 7 || marker == 15
    ensures Low(marker + 16 * n, len + 4) == [true, true, true, marker == 15] + Low(n, len)
  {
    hide Low;
    var b := if marker == 15 then 1 else 0;
    LowBit(b, n, len);
    LowBit(1, b + 2 * n, len + 1);
    LowBit(1, 1 + 2 * (b + 2 * n), len + 2);
    LowBit(1, 1 + 2 * (1 + 2 * (b + 2 * n)), len + 3);
    assert marker + 16 * n == 1 + 2 * (1 + 2 * (1 + 2 * (b + 2 * n)));
  }

  lemma LowBit(c: nat, m: nat, len: nat)
    requires c < 2
    ensures Low(c + 2 * m, len + 1) == [c == 1] + Low(m, len)
  {
    hide Low;
    LowStep(c + 2 * m, len);
    assert (c + 2 * m) / 2 == m && (c + 2 * m) % 2 == c;
  }

  /** What PagedDecode reads from a string of bits; None where it would panic. */
  datatype Option<T> = None | Some(value: T)

  function Read(s: seq<bool>): Option<nat> {
    if |s| < 2 || !s[0] then None
    else if !s[1] then Some(1)
    else if |s| < 4 then None
    else if !s[2] then Some(if s[3] then 3 else 2)
    else if !s[3] then if |s| < 8 then None else Some(Val(s[4..8]))
    else if |s| < 22 then None else Some(Val(s[4..22]))
  }

  /** Decoding inverts encoding, whatever follows the code, for all lengths that the code has room for and for
      no others. */
  lemma RoundTrip(n: nat, rest: seq<bool>)
    ensures Read(Code(n) + rest) == Some(n) <==> 1 <= n < MAX_PAGES
  {
    if n == 0 {
      ZeroReadsOne(rest);
    } else if n < MAX_PAGES {
      TheCode(n);
      Powers();
      DescribedReads(n, rest);
    } else {
      BigReads(n, rest);
    }
  }

  lemma DescribedReads(n: nat, rest: seq<bool>)
    requires 1 <= n < MAX_PAGES
    ensures Read(Described(n) + rest) == Some(n)
  {
    var s := Described(n) + rest;
    Powers();
    if 4 <= n < 16 {
      LowVal(n, 4);
      assert s[4..8] == Low(n, 4);
    } else if 16 <= n {
      LowVal(n, 18);
      assert s[4..22] == Low(n, 18);
    }
  }

  lemma ZeroReadsOne(rest: seq<bool>)
    ensures Read(Code(0) + rest) == Some(1)
  {
    Powers();
    LowTwo(CodeValue(0));
  }

  /** Longer blocks lose their high bits. */
  lemma BigReads(n: nat, rest: seq<bool>)
    requires n >= MAX_PAGES
    ensures Read(Code(n) + rest) == Some(n % MAX_PAGES)
  {
    Powers();
    hide Pow2, Low, Val;
    var x := n % WORD % 0x1000_0000;
    TimesSixteen(n % WORD);
    assert CodeValue(n) == 15 + 16 * x;
    LowFour(15, x, 18);
    LowVal(x, 18);
    var s := Code(n) + rest;
    assert s[4..22] == Low(x, 18);
    assert x % MAX_PAGES == n % MAX_PAGES;
  }

  lemma TimesSixteen(n: nat)
    ensures n * 16 % WORD == 16 * (n % 0x1000_0000)
  {
  }

  /** No code is the beginning of another one. */
  lemma PrefixFree(m: nat, n: nat, s: seq<bool>)
    requires 1 <= m < MAX_PAGES && 1 <= n < MAX_PAGES
    requires CodeLen(m) <= |s| && s[..CodeLen(m)] == Code(m) && CodeLen(n) <= |s| && s[..CodeLen(n)] == Code(n)
    ensures m == n
  {
    hide Read, Code, CodeLen;
    assert s == Code(m) + s[CodeLen(m)..] && s == Code(n) + s[CodeLen(n)..];
    RoundTrip(m, s[CodeLen(m)..]);
    RoundTrip(n, s[CodeLen(n)..]);
  }

  /** A code begins with a one and takes no more than two bits for each page of its block. */
  lemma CodeFits(n: nat)
    requires 1 <= n < MAX_PAGES
    ensures 2 <= CodeLen(n) <= 2 * n && Code(n)[0]
  {
    TheCode(n);
  }

  /** A longer block has a code that is at least as long. */
  lemma CodeGrows(m: nat, n: nat)
    requires m <= n
    ensures CodeLen(m) <= CodeLen(n)
  {
  }

  /** Clearing a code clears as many bits as were written. */
  lemma ZapsItsCode(n: nat, page: nat)
    requires n > 0 && page > 0
    ensures ZapLen(n * page, page) == CodeLen(n)
  {
    if n > 1 { Above(n, 1, page); }
    if n < 4 { Above(4, n, page); } else { Above(n + 1, 4, page); }
    if n < 16 { Above(16, n, page); } else { Above(n + 1, 16, page); }
  }

  lemma AtLeast(d: nat, p: nat)
    requires d > 0
    ensures d * p >= p
  {
    assert d * p == (d - 1) * p + p;
  }

  lemma Above(n: nat, k: nat, page: nat)
    requires n > k && page > 0
    ensures n * page >= k * page + page
  {
    AtLeast(n - k, page);
    assert n * page == k * page + (n - k) * page;
  }
}
