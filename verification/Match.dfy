/** The wildcard matcher of the 16-bit descriptors: `*` stands for any string, `?` for any one character.
    The matcher keeps one position in the text and commits to the earliest place where each star-free
    segment of the pattern fits; it never goes back over a star. */
module Wildcards {

  const ANY: int := 42  // '*'
  const ONE: int := 63  // '?'

  /** The conversion applied to every character of both descriptors before it is looked at. */
  function Conv(fold: int -> int, c: int): int {
    fold(c)
  }

  function Folded(fold: int -> int, s: seq<int>): (r: seq<int>)
    ensures |r| == |s|
    ensures forall i :: 0 <= i < |s| ==> r[i] == Conv(fold, s[i])
  {
    seq(|s|, i requires 0 <= i < |s| => fold(s[i]))
  }

  // ---------- what matching means ----------

  /** p[i..] matches the whole of t[j..]. */
  ghost predicate MatchAt(p: seq<int>, i: nat, t: seq<int>, j: nat)
    requires i <= |p| && j <= |t|
    decreases |p| - i, |t| - j
  {
    if i == |p| then j == |t|
    else if p[i] == ANY then MatchAt(p, i + 1, t, j) || (j < |t| && MatchAt(p, i, t, j + 1))
    else j < |t| && (p[i] == ONE || p[i] == t[j]) && MatchAt(p, i + 1, t, j + 1)
  }

  ghost predicate Matches(p: seq<int>, t: seq<int>) {
    MatchAt(p, 0, t, 0)
  }

  /** The number of stars the pattern starts with. */
  ghost function Stars(p: seq<int>): (m: nat)
    ensures m <= |p|
    ensures forall k :: 0 <= k < m ==> p[k] == ANY
    ensures m < |p| ==> p[m] != ANY
  {
    if p == [] || p[0] != ANY then 0 else 1 + Stars(p[1..])
  }

  /** The offset promised for a match: where the part of the pattern behind its leading stars first
      matches the rest of the text; 0 when the pattern is anchored or consists of stars only. */
  ghost predicate Result(p: seq<int>, t: seq<int>, r: int) {
    if !Matches(p, t) then r == -1
    else if Stars(p) == 0 || Stars(p) == |p| then r == 0
    else 0 <= r <= |t| && Least(p, Stars(p), t, r)
  }

  ghost predicate Least(p: seq<int>, i: nat, t: seq<int>, r: nat)
    requires i <= |p| && r <= |t|
  {
    MatchAt(p, i, t, r) && NoneIn(p, i, t, 0, r)
  }

  // ---------- a star, and what may follow it ----------

  /** p[i..] matches some suffix of t[j..]: the meaning of a star before p[i]. */
  ghost predicate After(p: seq<int>, i: nat, t: seq<int>, j: nat)
    requires i <= |p| && j <= |t|
  {
    exists k :: j <= k <= |t| && MatchAt(p, i, t, k)
  }

  ghost predicate NoneIn(p: seq<int>, i: nat, t: seq<int>, lo: nat, hi: int)
    requires i <= |p| && hi <= |t| + 1
  {
    forall k :: lo <= k < hi ==> !MatchAt(p, i, t, k)
  }

  lemma {:induction false} StarIsAfter(p: seq<int>, i: nat, t: seq<int>, j: nat)
    requires i < |p| && j <= |t| && p[i] == ANY
    ensures MatchAt(p, i, t, j) <==> After(p, i + 1, t, j)
    decreases |t| - j
  {
    if j < |t| {
      StarIsAfter(p, i, t, j + 1);
    }
  }

  lemma StarAbsorbsStar(p: seq<int>, i: nat, t: seq<int>, j: nat)
    requires i < |p| && j <= |t| && p[i] == ANY
    ensures After(p, i, t, j) <==> After(p, i + 1, t, j)
  {
    forall k | j <= k <= |t| ensures MatchAt(p, i, t, k) <==> After(p, i + 1, t, k) {
      StarIsAfter(p, i, t, k);
    }
    if After(p, i + 1, t, j) {
      assert MatchAt(p, i, t, j);
    }
  }

  lemma StarThenOne(p: seq<int>, i: nat, t: seq<int>, j: nat)
    requires i < |p| && j <= |t| && p[i] == ONE
    ensures After(p, i, t, j) <==> j < |t| && After(p, i + 1, t, j + 1)
  {
    if j < |t| && After(p, i + 1, t, j + 1) {
      var k :| j + 1 <= k <= |t| && MatchAt(p, i + 1, t, k);
      assert MatchAt(p, i, t, k - 1);
    }
    if After(p, i, t, j) {
      var k :| j <= k <= |t| && MatchAt(p, i, t, k);
      assert MatchAt(p, i + 1, t, k + 1);
    }
  }

  // ---------- star-free segments ----------

  ghost predicate StarFree(p: seq<int>, i: nat, n: nat)
    requires i + n <= |p|
  {
    forall k {:trigger p[k]} :: i <= k < i + n ==> p[k] != ANY
  }

  /** The n pattern characters from i on fit the text at j. */
  ghost predicate Fits(p: seq<int>, i: nat, t: seq<int>, j: nat, n: nat)
    requires i + n <= |p| && j + n <= |t|
  {
    forall k {:trigger p[k]} :: i <= k < i + n ==> p[k] == ONE || p[k] == t[j + (k - i)]
  }

  lemma {:induction false} SegmentThenRest(p: seq<int>, i: nat, t: seq<int>, j: nat, n: nat)
    requires i + n <= |p| && j <= |t| && StarFree(p, i, n)
    ensures MatchAt(p, i, t, j) <==> j + n <= |t| && Fits(p, i, t, j, n) && MatchAt(p, i + n, t, j + n)
    decreases n
  {
    if n > 0 && j < |t| {
      SegmentThenRest(p, i + 1, t, j + 1, n - 1);
      if j + n <= |t| {
        assert Fits(p, i, t, j, n) <==> (p[i] == ONE || p[i] == t[j]) && Fits(p, i + 1, t, j + 1, n - 1);
      }
    }
  }

  /** A star-free piece that no longer fits into the text fits nowhere further on either. */
  lemma OutOfInput(p: seq<int>, i: nat, t: seq<int>, j: nat, n: nat)
    requires i + n <= |p| && j <= |t| && StarFree(p, i, n) && j + n > |t|
    ensures !After(p, i, t, j)
  {
    forall k | j <= k <= |t| ensures !MatchAt(p, i, t, k) {
      SegmentThenRest(p, i, t, k, n);
    }
  }

  /** The greedy step. If a segment that is followed by a star fits at jb and nowhere in j..jb, then
      taking it at jb loses no match. */
  lemma CommitToEarliest(p: seq<int>, i: nat, t: seq<int>, j: nat, jb: nat, n: nat)
    requires i + n < |p| && StarFree(p, i, n) && p[i + n] == ANY
    requires j <= jb && jb + n <= |t| && Fits(p, i, t, jb, n)
    requires NoneIn(p, i, t, j, jb)
    ensures MatchAt(p, i, t, jb) <==> After(p, i + n + 1, t, jb + n)
    ensures After(p, i, t, j) <==> MatchAt(p, i, t, jb)
  {
    StarIsAfter(p, i + n, t, jb + n);
    SegmentThenRest(p, i, t, jb, n);
    forall k | jb <= k <= |t| && MatchAt(p, i, t, k) ensures MatchAt(p, i, t, jb) {
      SegmentThenRest(p, i, t, k, n);
      StarIsAfter(p, i + n, t, k + n);
    }
  }

  // ---------- the matcher ----------

  /** What one attempt to match up to the next star found. */
  datatype Attempt = ToStar(pb: nat, pm: nat) | Matched | NoInput | Mismatch

  /** The innermost loop: the segment that starts with p[m-1], already matched by the text at b-1. */
  method TrySegment(text: seq<int>, pattern: seq<int>, fold: int -> int, b: nat, m: nat) returns (r: Attempt)
    requires 0 < b <= |text| && 0 < m <= |pattern|
    requires var p, t := Folded(fold, pattern), Folded(fold, text);
             p[m - 1] != ANY && p[m - 1] == t[b - 1]
    ensures var p, t := Folded(fold, pattern), Folded(fold, text);
            match r
            case ToStar(pb, pm) =>
              && m < pm <= |p| && p[pm - 1] == ANY && StarFree(p, m - 1, pm - m)
              && pb == b - 1 + (pm - m) <= |t| && Fits(p, m - 1, t, b - 1, pm - m)
            case Matched => MatchAt(p, m - 1, t, b - 1)
            case NoInput => !After(p, m - 1, t, b - 1)
            case Mismatch => b < |t| && !MatchAt(p, m - 1, t, b - 1)
  {
    ghost var p, t := Folded(fold, pattern), Folded(fold, text);
    hide MatchAt, After;
    var pb, pm := b, m;
    while true
      invariant m <= pm <= |pattern| && pb == b + (pm - m) <= |text|
      invariant StarFree(p, m - 1, pm - m + 1) && Fits(p, m - 1, t, b - 1, pm - m + 1)
      decreases |pattern| - pm
    {
      if pm < |pattern| {
        var cc := Conv(fold, pattern[pm]);
        pm := pm + 1;
        if cc == ANY {
          return ToStar(pb, pm);
        }
        if pb == |text| {
          OutOfInput(p, m - 1, t, b - 1, pm - m + 1);
          return NoInput;
        }
        pb := pb + 1;
        if cc != Conv(fold, text[pb - 1]) && cc != ONE {
          SegmentThenRest(p, m - 1, t, b - 1, pm - m + 1);
          return Mismatch;
        }
      } else {
        EndOfPattern(p, m - 1, t, b - 1);
        return if pb == |text| then Matched else Mismatch;
      }
    }
  }

  lemma EndOfPattern(p: seq<int>, i: nat, t: seq<int>, j: nat)
    requires i <= |p| && j <= |t| && StarFree(p, i, |p| - i)
    requires j + (|p| - i) <= |t| && Fits(p, i, t, j, |p| - i)
    ensures MatchAt(p, i, t, j) <==> j + (|p| - i) == |t|
  {
    SegmentThenRest(p, i, t, j, |p| - i);
  }

  /** The search for the place of the segment that starts with the plain character c = p[m-1]: the first
      position from b on where it fits. On ToStar or Matched the segment begins at b' - 1. */
  method FindSegment(text: seq<int>, pattern: seq<int>, fold: int -> int, b: nat, m: nat)
    returns (r: Attempt, b': nat)
    requires b < |text| && 0 < m <= |pattern|
    requires var c := Folded(fold, pattern)[m - 1]; c != ANY && c != ONE
    ensures var p, t := Folded(fold, pattern), Folded(fold, text);
            && b < b' <= |t|
            && NoneIn(p, m - 1, t, b, b' - 1)
            && match r
               case ToStar(pb, pm) =>
                 && m < pm <= |p| && p[pm - 1] == ANY && StarFree(p, m - 1, pm - m)
                 && pb == b' - 1 + (pm - m) <= |t| && Fits(p, m - 1, t, b' - 1, pm - m)
               case Matched => MatchAt(p, m - 1, t, b' - 1)
               case NoInput => !After(p, m - 1, t, b)
               case Mismatch => false
  {
    ghost var p, t := Folded(fold, pattern), Folded(fold, text);
    hide After;
    var c := Conv(fold, pattern[m - 1]);
    b' := b;
    while true
      invariant b <= b' < |text|
      invariant NoneIn(p, m - 1, t, b, b')
      decreases |text| - b'
    {
      b' := b' + 1;
      while Conv(fold, text[b' - 1]) != c
        invariant b < b' <= |text|
        invariant NoneIn(p, m - 1, t, b, b' - 1)
        decreases |text| - b'
      {
        assert !MatchAt(p, m - 1, t, b' - 1);
        if b' == |text| {
          NotAnywhere(p, m - 1, t, b);
          return NoInput, b';
        }
        b' := b' + 1;
      }
      r := TrySegment(text, pattern, fold, b', m);
      if r == NoInput {
        NotBefore(p, m - 1, t, b, b' - 1);
      }
      if r != Mismatch {
        return r, b';
      }
    }
  }

  lemma NotAnywhere(p: seq<int>, i: nat, t: seq<int>, j: nat)
    requires i < |p| && j <= |t| && p[i] != ANY
    requires NoneIn(p, i, t, j, |t|)
    ensures !After(p, i, t, j)
  {
  }

  lemma NotBefore(p: seq<int>, i: nat, t: seq<int>, j: nat, jb: nat)
    requires i <= |p| && j <= jb <= |t| && !After(p, i, t, jb)
    requires NoneIn(p, i, t, j, jb)
    ensures !After(p, i, t, j)
  {
  }

  /** Before the first star the pattern is anchored. */
  method UpToFirstStar(text: seq<int>, pattern: seq<int>, fold: int -> int)
    returns (done: bool, r: int, b: nat, m: nat)
    ensures var p, t := Folded(fold, pattern), Folded(fold, text);
            if done then Result(p, t, r)
            else 0 < m <= |p| && b == m - 1 <= |t| && p[m - 1] == ANY && StarFree(p, 0, m - 1)
                 && (Matches(p, t) <==> After(p, m, t, b))
  {
    ghost var p, t := Folded(fold, pattern), Folded(fold, text);
    hide After, Least;
    done, r, b, m := false, 0, 0, 0;
    while true
      invariant 0 <= m == b <= |pattern| && b <= |text|
      invariant StarFree(p, 0, m) && Fits(p, 0, t, 0, m)
      decreases |pattern| - m
    {
      SegmentThenRest(p, 0, t, 0, m);
      if m == |pattern| {
        return true, if b == |text| then 0 else -1, b, m;
      }
      var c := Conv(fold, pattern[m]);
      m := m + 1;
      if c == ANY {
        StarIsAfter(p, m - 1, t, b);
        break;
      }
      if b == |text| {
        return true, -1, b, m;
      }
      b := b + 1;
      if c != Conv(fold, text[b - 1]) && c != ONE {
        return true, -1, b, m;
      }
    }
  }

  // ---------- the whole match ----------

  /** What the main loop keeps: pattern and text consumed up to i and j behind a star, and r, which counts
      the `?` skipped so far as -1 - r while it is negative and is the offset once it is not. */
  ghost predicate State(p: seq<int>, t: seq<int>, i: nat, j: nat, r: int) {
    && i <= |p| && j <= |t|
    && (Matches(p, t) <==> After(p, i, t, j))
    && var m := Stars(p);
       if m == 0 then r == 0
       else if r == -1 then i <= m && j == 0
       else if r < 0 then j == -1 - r && i == m + j && Shifted(p, m, t, i, j)
       else m < |p| && r <= |t| && NoneIn(p, m, t, 0, r) && (MatchAt(p, m, t, r) <==> After(p, i, t, j))
  }

  /** The q pattern characters from m on are `?`: p[m..] matches at k if and only if p[i..] does at k + q. */
  ghost predicate Shifted(p: seq<int>, m: nat, t: seq<int>, i: nat, q: nat)
    requires i <= |p| && m <= |p|
  {
    forall k {:trigger MatchAt(p, m, t, k)} :: 0 <= k <= |t| ==>
      (MatchAt(p, m, t, k) <==> k + q <= |t| && MatchAt(p, i, t, k + q))
  }

  /** The state when r is still negative, seen as one case. */
  lemma Skipped(p: seq<int>, t: seq<int>, i: nat, j: nat, r: int)
    requires State(p, t, i, j, r) && r < 0 && i < |p| && p[i] != ANY
    ensures 0 < Stars(p) < |p| && j == -1 - r && i == Stars(p) + j && Shifted(p, Stars(p), t, i, j)
  {
  }

  lemma FirstState(p: seq<int>, t: seq<int>, i: nat, j: nat)
    requires 0 < i <= |p| && j == i - 1 <= |t| && p[i - 1] == ANY && StarFree(p, 0, i - 1)
    requires Matches(p, t) <==> After(p, i, t, j)
    ensures State(p, t, i, j, if i == 1 then -1 else 0)
    ensures i == |p| ==> Result(p, t, 0)
  {
    if i == |p| {
      assert MatchAt(p, i, t, |t|);
    }
  }

  /** A star in the pattern. */
  lemma StepStar(p: seq<int>, t: seq<int>, i: nat, j: nat, r: int)
    requires State(p, t, i, j, r) && i < |p| && p[i] == ANY
    ensures State(p, t, i + 1, j, if r < -1 then 0 else r)
    ensures i + 1 == |p| ==> Result(p, t, if r < 0 then 0 else r)
  {
    StarAbsorbsStar(p, i, t, j);
    if r < -1 {
      StarIsAfter(p, i, t, j);
      assert MatchAt(p, Stars(p), t, 0) <==> MatchAt(p, i, t, j);
    }
    if i + 1 == |p| {
      assert MatchAt(p, i + 1, t, |t|);
    }
  }

  /** A `?` in the pattern and a character of the text to spend on it. */
  lemma StepOne(p: seq<int>, t: seq<int>, i: nat, j: nat, r: int)
    requires State(p, t, i, j, r) && i < |p| && p[i] == ONE && j < |t|
    ensures State(p, t, i + 1, j + 1, if r < 0 then r - 1 else r)
    ensures i + 1 == |p| ==> Result(p, t, if r < 0 then r + |t| else r)
  {
    StarThenOne(p, i, t, j);
    if r < 0 {
      Skipped(p, t, i, j, r);
      var m := Stars(p);
      forall k | 0 <= k <= |t|
        ensures MatchAt(p, m, t, k) <==> k + (j + 1) <= |t| && MatchAt(p, i + 1, t, k + (j + 1))
      {
      }
    }
    if i + 1 == |p| {
      assert MatchAt(p, i + 1, t, |t|);
      if r < 0 {
        assert MatchAt(p, Stars(p), t, |t| - j - 1);
      }
    }
  }

  /** The segment at p[i] was found at jb, with the next star behind it. */
  lemma StepSegment(p: seq<int>, t: seq<int>, i: nat, j: nat, r: int, jb: nat, n: nat)
    requires State(p, t, i, j, r) && i + n < |p| && 0 < n && StarFree(p, i, n) && p[i + n] == ANY
    requires j <= jb && jb + n <= |t| && Fits(p, i, t, jb, n) && NoneIn(p, i, t, j, jb)
    ensures State(p, t, i + n + 1, jb + n, if r < 0 then r + jb + 1 else r)
    ensures (if r < 0 then r + jb + 1 else r) >= 0
    ensures i + n + 1 == |p| ==> Result(p, t, if r < 0 then r + jb + 1 else r)
  {
    CommitToEarliest(p, i, t, j, jb, n);
    if r < 0 {
      SegmentOffset(p, t, i, j, r, jb);
    }
    if i + n + 1 == |p| {
      assert MatchAt(p, i + n + 1, t, |t|);
    }
  }

  lemma SegmentOffset(p: seq<int>, t: seq<int>, i: nat, j: nat, r: int, jb: nat)
    requires State(p, t, i, j, r) && r < 0 && i < |p| && p[i] != ANY
    requires j <= jb <= |t| && NoneIn(p, i, t, j, jb)
    ensures 0 <= r + jb + 1 <= |t|
    ensures NoneIn(p, Stars(p), t, 0, r + jb + 1)
    ensures MatchAt(p, Stars(p), t, r + jb + 1) <==> MatchAt(p, i, t, jb)
  {
    Skipped(p, t, i, j, r);
  }

  /** The last segment was found at jb and ends with the text. */
  lemma StepLast(p: seq<int>, t: seq<int>, i: nat, j: nat, r: int, jb: nat)
    requires State(p, t, i, j, r) && i < |p| && p[i] != ANY
    requires j <= jb <= |t| && MatchAt(p, i, t, jb) && NoneIn(p, i, t, j, jb)
    ensures Result(p, t, if r < 0 then r + jb + 1 else r)
  {
    assert After(p, i, t, j);
    if r < 0 {
      SegmentOffset(p, t, i, j, r, jb);
    }
  }

  lemma StepEmpty(p: seq<int>, t: seq<int>, i: nat, r: int)
    requires State(p, t, i, |t|, r) && i < |p| && p[i] != ANY
    ensures Result(p, t, -1)
  {
    NotAnywhere(p, i, t, |t|);
  }

  /** The matcher: -1 for no match, otherwise the offset of the match. */
  method DoMatch16(text: seq<int>, pattern: seq<int>, fold: int -> int) returns (res: int)
    ensures Result(Folded(fold, pattern), Folded(fold, text), res)
  {
    ghost var p, t := Folded(fold, pattern), Folded(fold, text);
    hide State, After, Matches, MatchAt, Result, NoneIn, Fits, StarFree;
    var done, r, b, m := UpToFirstStar(text, pattern, fold);
    if done {
      return r;
    }
    FirstState(p, t, m, b);
    if m == |pattern| {
      return 0;
    }
    r := if m == 1 then -1 else 0;
    while true
      invariant 0 < m < |pattern| && 0 <= b <= |text|
      invariant State(p, t, m, b, r)
      decreases |pattern| - m
    {
      var c := Conv(fold, pattern[m]);
      m := m + 1;
      if c == ANY {
        StepStar(p, t, m - 1, b, r);
        if m == |pattern| {
          return if r < 0 then 0 else r;
        }
        if r < -1 {
          r := 0;
        }
        continue;
      }
      if b == |text| {
        StepEmpty(p, t, m - 1, r);
        return -1;
      }
      if c == ONE {
        StepOne(p, t, m - 1, b, r);
        if m == |pattern| {
          return if r >= 0 then r else r + |text|;
        }
        b := b + 1;
        if r < 0 {
          r := r - 1;
        }
        continue;
      }
      var found, b' := FindSegment(text, pattern, fold, b, m);
      match found {
        case NoInput =>
          NoSegment(p, t, m - 1, b, r);
          return -1;
        case Matched =>
          StepLast(p, t, m - 1, b, r, b' - 1);
          return if r >= 0 then r else r + b';
        case ToStar(pb, pm) =>
          StepSegment(p, t, m - 1, b, r, b' - 1, pm - m);
          r := if r >= 0 then r else r + b';
          b, m := pb, pm;
          if m == |pattern| {
            return r;
          }
      }
    }
  }

  lemma NoSegment(p: seq<int>, t: seq<int>, i: nat, j: nat, r: int)
    requires State(p, t, i, j, r) && !After(p, i, t, j)
    ensures Result(p, t, -1)
  {
  }

  /** Matching without conversion: a non-negative result if and only if the whole text matches, and then the
      offset behind the leading stars where the match first occurs. */
  method Match(text: seq<int>, pattern: seq<int>) returns (res: int)
    ensures res >= 0 <==> Matches(pattern, text)
    ensures Result(pattern, text, res)
  {
    var id := (c: int) => c;
    assert Folded(id, text) == text && Folded(id, pattern) == pattern;
    res := DoMatch16(text, pattern, id);
  }
}
