/** The ring buffer between the thread that downloads a file and the thread that unzips it, step by step. */
module Rings {

  const BLOCK: int := 0x2000
  const RING: int := 4 * BLOCK
  const WORD: int := 0x1_0000_0000

  /** The file, the number of bytes that each read of it brings, and how many bytes its zip header needs. */
  datatype Feed = Feed(file: seq<int>, lens: seq<int>, head: int)

  /** Where the downloading thread is: before the test for a full ring, reading a block of n bytes of which k have
      arrived, about to signal the other thread, waiting until that has read the header, or done. */
  datatype Producer = Test | Fill(k: int, n: int) | Signal | Gate | Stop

  /** Where the unzipping thread is: waiting for a block, woken up, copying n bytes of which k are done, about to read
      the header from n bytes, waiting until it has been processed, using what it has, or dead of a bad header. */
  datatype Consumer = Wait | Woken | Copy(k: int, n: int) | Parse(n: int) | Parsed | Use | Dead

  /** The shared counters, flag and buffer, the requests completed and not yet waited for, the reads begun, and what
      the inflater has got; `spilt` records that a byte outside of the ring has been read or written. */
  datatype State = State(w: int, r: int, ring: seq<int>, remain: int, header: int, signals: int, begun: int,
                         p: Producer, c: Consumer, inbuf: seq<int>, handed: seq<int>, spilt: bool)

  function Min(x: int, y: int): int {
    if x < y then x else y
  }

  /** Difference of the counters, in unsigned arithmetic. */
  function Diff(w: int, r: int): int {
    (w - r) % WORD
  }

  /** An index into the ring; its size is a power of 2. */
  function Slot(i: int): (x: int)
    ensures 0 <= x < RING
  {
    i % RING
  }

  /** The bytes that the first i reads bring. */
  function Sum(lens: seq<int>, i: int): int
    requires i <= |lens|
    decreases i
  {
    if i <= 0 then 0 else Sum(lens, i - 1) + lens[i - 1]
  }

  /** No read brings more than a block, and together they bring the file; the last one is not idle. */
  predicate Schedule(f: Feed) {
    && |f.file| < 0x8000_0000 && f.head > 0 && Sum(f.lens, |f.lens|) == |f.file|
    && (forall i :: 0 <= i < |f.lens| ==> 0 <= f.lens[i] <= BLOCK)
    && (f.lens != [] ==> f.lens[|f.lens| - 1] > 0)
  }

  predicate Init(f: Feed, s: State) {
    && s.w == s.r == s.signals == s.begun == s.header == 0 && |s.ring| == RING && s.remain == |f.file|
    && s.p == Test && s.c == Wait && |s.inbuf| == BLOCK && s.handed == [] && !s.spilt
  }

  // ---------- the steps of the downloading thread ----------

  /** The ring is not full: a block is asked for. */
  predicate StartFill(f: Feed, s: State, t: State) {
    && s.p == Test && s.c != Dead && s.remain > 0 && Diff(s.w, s.r) != RING && 0 <= s.begun < |f.lens|
    && t == s.(p := Fill(0, f.lens[s.begun]), begun := s.begun + 1)
  }

  /** One byte of the block arrives, in the ring or behind its end. */
  predicate FillByte(f: Feed, s: State, t: State) {
    && s.p.Fill? && 0 <= s.p.k < s.p.n && 0 <= s.w && s.w + s.p.k < |f.file|
    && t == Filled(f, s)
  }

  function Filled(f: Feed, s: State): State
    requires s.p.Fill? && 0 <= s.p.k && 0 <= s.w && s.w + s.p.k < |f.file|
  {
    var x := Slot(s.w) + s.p.k;
    if x < |s.ring| then s.(p := Fill(s.p.k + 1, s.p.n), ring := s.ring[x := f.file[s.w + s.p.k]])
    else s.(p := Fill(s.p.k + 1, s.p.n), spilt := true)
  }

  predicate Publish(s: State, t: State) {
    s.p.Fill? && s.p.k == s.p.n && t == s.(p := Signal, w := s.w + s.p.n, remain := s.remain - s.p.n)
  }

  predicate SendSignal(s: State, t: State) {
    s.p == Signal && t == s.(p := Gate, signals := s.signals + 1)
  }

  /** The next block has to wait until the header has been read; it is processed here. */
  predicate PassGate(s: State, t: State) {
    s.p == Gate && if s.c == Dead then t == s.(p := Stop) else s.header > 0 && t == s.(p := Test, header := 2)
  }

  predicate Finish(s: State, t: State) {
    s.p == Test && (s.remain == 0 || s.c == Dead) && t == s.(p := Stop)
  }

  // ---------- the steps of the unzipping thread ----------

  predicate WakeUp(s: State, t: State) {
    s.c == Wait && s.signals > 0 && t == s.(c := Woken, signals := s.signals - 1)
  }

  predicate StartCopy(s: State, t: State) {
    s.c == Woken && t == s.(c := Copy(0, Min(Diff(s.w, s.r), BLOCK)))
  }

  /** One byte is copied, from the ring, or whatever is behind its end. */
  predicate CopyByte(s: State, t: State) {
    && s.c.Copy? && 0 <= s.c.k < s.c.n && s.c.k < |s.inbuf|
    && var x := Slot(s.r) + s.c.k;
      if x < |s.ring| then t == s.(c := Copy(s.c.k + 1, s.c.n), inbuf := s.inbuf[s.c.k := s.ring[x]])
      else |t.inbuf| == |s.inbuf| && t == s.(c := Copy(s.c.k + 1, s.c.n), inbuf := t.inbuf, spilt := true)
  }

  /** The bytes go to the inflater. The first byte of the buffer goes there without a look at their number, except
      that the first block is only looked at for its header. */
  predicate HandOver(s: State, t: State) {
    && s.c.Copy? && s.c.k == s.c.n && 0 <= s.c.n <= |s.inbuf| && |s.inbuf| > 0
    && t == s.(c := if s.header == 0 then Parse(s.c.n) else Use, r := s.r + s.c.n,
               handed := s.handed + s.inbuf[..if s.c.n == 0 && s.header != 0 then 1 else s.c.n])
  }

  predicate ReadHeader(f: Feed, s: State, t: State) {
    s.c.Parse? && t == if s.c.n < f.head then s.(c := Dead) else s.(c := Parsed, header := 1)
  }

  predicate Inflate(s: State, t: State) {
    s.c == Parsed && s.header == 2 && t == s.(c := Use)
  }

  predicate AskForMore(s: State, t: State) {
    s.c == Use && t == s.(c := Wait)
  }

  /** Any step of either thread. */
  predicate Step(f: Feed, s: State, t: State) {
    || StartFill(f, s, t) || FillByte(f, s, t) || Publish(s, t) || SendSignal(s, t) || PassGate(s, t) || Finish(s, t)
    || WakeUp(s, t) || StartCopy(s, t) || CopyByte(s, t) || HandOver(s, t)
    || ReadHeader(f, s, t) || Inflate(s, t) || AskForMore(s, t)
  }

  /** Any interleaving of the two threads. */
  ghost predicate Run(f: Feed, states: seq<State>) {
    states != [] && Init(f, states[0]) && forall i {:trigger states[i]} :: 0 < i < |states| ==> Step(f, states[i - 1], states[i])
  }

  /** The ring holds byte i of the file. */
  predicate Holds(file: seq<int>, ring: seq<int>, i: int)
    requires |ring| == RING && 0 <= i < |file|
  {
    ring[Slot(i)] == file[i]
  }

  /** No unread byte has been overwritten, nothing outside the ring has been touched, and the inflater has got the
      beginning of the file, in order. */
  predicate Safe(file: seq<int>, s: State) {
    && s.r <= s.w <= s.r + RING && s.w <= |file| && 0 <= s.r && |s.ring| == RING && !s.spilt
    && (forall i {:trigger Holds(file, s.ring, i)} :: s.r <= i < s.w ==> Holds(file, s.ring, i))
    && s.handed == file[..s.r]
  }

  /** The number of blocks that x bytes make. */
  function Blocks(x: int): int {
    (x + BLOCK - 1) / BLOCK
  }

  /** Every read but the last fills a block. */
  predicate Whole(f: Feed) {
    forall i :: 0 <= i < |f.lens| - 1 ==> f.lens[i] == BLOCK
  }

  /** The file fits into the ring, and is read in as few reads as are possible after the first one. */
  predicate Small(f: Feed) {
    |f.file| <= RING && f.lens != [] && |f.lens| - 1 == Blocks(|f.file| - f.lens[0])
  }

  /** The first read does not bring the header, and the unzipping thread gives up. */
  predicate Cut(f: Feed) {
    f.lens != [] && f.lens[0] < f.head
  }

  // ---------- what holds in between ----------

  /** A block boundary, or the end of the file. */
  predicate Even(f: Feed, x: int) {
    x % BLOCK == 0 || x == |f.file|
  }

  function Sending(p: Producer): int {
    if p == Signal then 1 else 0
  }

  function Busy(c: Consumer): int {
    if c == Woken || c.Copy? then 1 else 0
  }

  /** The blocks published, and those handed over. */
  function Published(s: State): int {
    s.begun - if s.p.Fill? then 1 else 0
  }

  function Done(s: State): int {
    Published(s) - s.signals - Sending(s.p) - Busy(s.c)
  }

  predicate CountersOk(f: Feed, s: State) {
    && Schedule(f) && |s.ring| == RING && |s.inbuf| == BLOCK
    && 0 <= Published(s) <= s.begun <= |f.lens| && s.w == Sum(f.lens, Published(s)) && s.w + s.remain == |f.file|
    && 0 <= s.r <= s.w <= s.r + RING && s.w <= |f.file|
    && s.signals >= 0 && (s.p == Stop ==> s.remain == 0 || s.c == Dead)
    && (Whole(f) ==> Even(f, s.w) && Even(f, s.r))
  }

  /** Where the threads are while the header is read, and afterwards. */
  predicate PhaseOk(f: Feed, s: State)
    requires CountersOk(f, s)
  {
    if s.header == 2 then
      && !s.c.Parse? && s.c != Dead && !Cut(f) && Done(s) >= 1 && f.lens != []
      && Sum(f.lens, Done(s)) <= s.r <= f.lens[0] + BLOCK * (Done(s) - 1)
    else if s.header == 1 then
      s.c == Parsed && s.p == Gate && Published(s) == 1 && Done(s) == 1 && s.r == s.w && !Cut(f)
    else if s.c.Parse? || s.c == Dead then
      && s.header == 0 && Published(s) == 1 && Done(s) == 1 && s.r == s.w
      && (s.p == Gate || (s.p == Stop && s.c == Dead)) && (if s.c == Dead then Cut(f) else s.c.n == s.w)
    else
      && s.header == 0 && (s.c == Wait || s.c == Woken || s.c.Copy?) && s.r == 0 && Done(s) == 0
      && if Published(s) == 0 then s.p == Test || s.p == Stop || s.p.Fill? else Published(s) == 1 && (s.p == Signal || s.p == Gate)
  }

  predicate ProducerOk(f: Feed, s: State)
    requires CountersOk(f, s)
  {
    s.p.Fill? ==>
      && 0 <= s.p.k <= s.p.n == f.lens[s.begun - 1] && s.w + s.p.n <= s.r + RING && s.w + s.p.n <= |f.file|
      && (s.header == 0 ==> s.w == 0) && s.remain > 0
      && forall i {:trigger Holds(f.file, s.ring, i)} :: s.w <= i < s.w + s.p.k ==> Holds(f.file, s.ring, i)
  }

  predicate ConsumerOk(f: Feed, s: State)
    requires CountersOk(f, s)
  {
    s.c.Copy? ==>
      && 0 <= s.c.k <= s.c.n <= BLOCK && s.r + s.c.n <= s.w && (Whole(f) ==> Even(f, s.r + s.c.n))
      && (if s.header == 0 then s.c.n == s.w else s.c.n > 0 && Sum(f.lens, Done(s) + 1) <= s.r + s.c.n)
      && s.inbuf[..s.c.k] == f.file[s.r..s.r + s.c.k]
  }

  predicate DataOk(f: Feed, s: State)
    requires CountersOk(f, s)
  {
    && (forall i {:trigger Holds(f.file, s.ring, i)} :: s.r <= i < s.w ==> Holds(f.file, s.ring, i))
    && s.handed == f.file[..s.r] && !s.spilt
  }

  predicate Inv(f: Feed, s: State) {
    CountersOk(f, s) && PhaseOk(f, s) && ProducerOk(f, s) && ConsumerOk(f, s) && DataOk(f, s)
  }

  // ---------- arithmetic of blocks, slots and sums ----------

  lemma SlotsApart(i: int, j: int)
    requires i < j < i + RING
    ensures Slot(i) != Slot(j)
  {
  }

  /** Within a block the slots follow each other; at the beginning of the ring they do anyway. */
  lemma SlotInBlock(x: int, k: int)
    requires 0 <= k && ((x % BLOCK == 0 && k < BLOCK) || (0 <= x && x + k < RING))
    ensures Slot(x + k) == Slot(x) + k < RING
  {
    if x % BLOCK == 0 && k < BLOCK {
      var q := x / BLOCK;
      assert x == BLOCK * q;
      assert Slot(x) == BLOCK * (q % 4);
    }
  }

  /** Two block boundaries less than a ring apart are a block less than a ring apart. */
  lemma RoomForBlock(w: int, r: int)
    requires w % BLOCK == 0 && r % BLOCK == 0 && w - r < RING
    ensures w + BLOCK <= r + RING
  {
    var a, b := w / BLOCK, r / BLOCK;
    assert w == BLOCK * a && r == BLOCK * b;
  }

  lemma BlockApart(w: int, r: int)
    requires w % BLOCK == 0 && r % BLOCK == 0 && r < w
    ensures r + BLOCK <= w
  {
    var a, b := w / BLOCK, r / BLOCK;
    assert w == BLOCK * a && r == BLOCK * b;
  }

  lemma BlocksIs(x: int, q: int)
    requires BLOCK * (q - 1) < x <= BLOCK * q
    ensures Blocks(x) == q
  {
  }

  /** Later reads bring no less than nothing, and no more than a block each. */
  lemma {:induction false} SumBounds(f: Feed, i: int, j: int)
    requires Schedule(f) && 0 <= i <= j <= |f.lens|
    ensures Sum(f.lens, i) <= Sum(f.lens, j) <= Sum(f.lens, i) + BLOCK * (j - i)
    decreases j - i
  {
    if i < j {
      SumBounds(f, i, j - 1);
    }
  }

  /** Before the last read there is something left. */
  lemma SumLess(f: Feed, i: int)
    requires Schedule(f) && 0 <= i < |f.lens|
    ensures 0 <= Sum(f.lens, i) < |f.file|
  {
    SumBounds(f, 0, i);
    SumBounds(f, i, |f.lens| - 1);
  }

  lemma {:induction false} SumFull(f: Feed, i: int)
    requires 0 <= i <= |f.lens| && forall x :: 0 <= x < i ==> f.lens[x] == BLOCK
    ensures Sum(f.lens, i) == BLOCK * i
    decreases i
  {
    if i > 0 {
      SumFull(f, i - 1);
    }
  }

  /** Whole blocks are as few reads as possible. */
  lemma WholeIsFew(f: Feed)
    requires Schedule(f) && Whole(f) && f.lens != []
    ensures |f.lens| - 1 == Blocks(|f.file| - f.lens[0])
  {
    var m := |f.lens|;
    SumFull(f, m - 1);
    BlocksIs(|f.file| - f.lens[0], m - 1);
  }

  /** With few reads, no block less than those published is enough for what they have brought. */
  lemma NoneIdle(f: Feed, i: int)
    requires Schedule(f) && f.lens != [] && |f.lens| - 1 == Blocks(|f.file| - f.lens[0]) && 1 <= i <= |f.lens|
    ensures Sum(f.lens, i) > f.lens[0] + BLOCK * (i - 2)
  {
    SumBounds(f, i, |f.lens|);
  }

  // ---------- every step keeps it ----------

  predicate Good(f: Feed) {
    Schedule(f) && (Cut(f) || Whole(f) || Small(f))
  }

  lemma InitInv(f: Feed, s: State)
    requires Init(f, s) && Schedule(f)
    ensures Inv(f, s)
  {
  }

  lemma StartFillInv(f: Feed, s: State, t: State)
    requires Good(f) && Inv(f, s) && StartFill(f, s, t)
    ensures Inv(f, t)
  {
    hide Slot, Holds, Cut, Schedule, Sum, Whole, Good;
    ReadFits(f, s);
    RoomToRead(f, s);
  }

  lemma ReadFits(f: Feed, s: State)
    requires CountersOk(f, s) && s.p == Test && s.begun < |f.lens|
    ensures s.w + f.lens[s.begun] <= |f.file| && 0 <= f.lens[s.begun] <= BLOCK && (s.begun == 0 ==> s.w == 0)
  {
    SumBounds(f, s.begun + 1, |f.lens|);
  }

  /** When the ring is not full, there is room for the next read. */
  lemma RoomToRead(f: Feed, s: State)
    requires Good(f) && Inv(f, s) && s.p == Test && s.c != Dead && s.remain > 0 && Diff(s.w, s.r) != RING && s.begun < |f.lens|
    ensures s.w + f.lens[s.begun] <= s.r + RING
  {
    hide Slot, Holds, Schedule, Sum;
    ReadFits(f, s);
    if s.header == 2 && Whole(f) {
      RoomForBlock(s.w, s.r);
    }
  }

  lemma FillByteInv(f: Feed, s: State, t: State)
    requires Good(f) && Inv(f, s) && FillByte(f, s, t)
    ensures Inv(f, t)
  {
    hide Whole, Slot, Schedule, Sum, Cut, Good, Even;
    var i := s.w + s.p.k;
    FillSlot(f, s);
    forall j {:trigger Holds(f.file, t.ring, j)} | s.r <= j < i ensures Holds(f.file, t.ring, j) {
      assert Holds(f.file, s.ring, j);
      SlotsApart(j, i);
    }
  }

  /** The byte that arrives goes to its place in the ring. */
  lemma FillSlot(f: Feed, s: State)
    requires Good(f) && Inv(f, s) && s.p.Fill? && s.p.k < s.p.n
    ensures Slot(s.w) + s.p.k == Slot(s.w + s.p.k)
  {
    hide Sum, Slot;
    SlotInBlock(s.w, s.p.k);
  }

  lemma PublishInv(f: Feed, s: State, t: State)
    requires Good(f) && Inv(f, s) && Publish(s, t)
    ensures Inv(f, t)
  {
    hide Slot, Holds;
  }

  lemma StartCopyInv(f: Feed, s: State, t: State)
    requires Good(f) && Inv(f, s) && StartCopy(s, t)
    ensures Inv(f, t)
  {
    hide Slot, Holds, Sum, Good;
    if s.header == 2 {
      TakesSome(f, s);
    } else {
      FirstIs(f);
    }
    if Whole(f) {
      TakesWhole(f, s);
    }
    hide Whole, Schedule, Even;
    assert s.inbuf[..0] == f.file[s.r..s.r];
  }

  /** Between whole blocks whole blocks are taken. */
  lemma TakesWhole(f: Feed, s: State)
    requires 0 <= s.r <= s.w <= |f.file| && Even(f, s.r) && Even(f, s.w)
    ensures Even(f, s.r + Min(s.w - s.r, BLOCK))
  {
    if s.r < s.w && s.w % BLOCK == 0 {
      BlockApart(s.w, s.r);
    }
  }

  /** Whoever wakes up finds bytes, at least those of the next read. */
  lemma TakesSome(f: Feed, s: State)
    requires Good(f) && Inv(f, s) && s.c == Woken && s.header == 2
    ensures s.r < s.w && Done(s) + 1 <= Published(s) && Sum(f.lens, Done(s) + 1) <= s.r + Min(s.w - s.r, BLOCK)
  {
    hide Slot, Holds, Sum;
    if Whole(f) {
      WholeIsFew(f);
    }
    NoneIdle(f, Published(s));
    SumBounds(f, Done(s), Done(s) + 1);
    SumBounds(f, Done(s) + 1, Published(s));
  }

  lemma CopyByteInv(f: Feed, s: State, t: State)
    requires Good(f) && Inv(f, s) && CopyByte(s, t)
    ensures Inv(f, t)
  {
    hide Whole, Slot, Schedule, Sum, Cut, Good, Even, Holds;
    CopySlot(f, s);
    OneMore(f.file, s.inbuf, s.r, s.c.k, s.ring[Slot(s.r) + s.c.k]);
  }

  /** The byte that is copied is in the ring, and is the next one of the file. */
  lemma CopySlot(f: Feed, s: State)
    requires Good(f) && Inv(f, s) && s.c.Copy? && s.c.k < s.c.n
    ensures Slot(s.r) + s.c.k < RING && s.ring[Slot(s.r) + s.c.k] == f.file[s.r + s.c.k]
  {
    hide Sum, Schedule, Slot;
    if s.header == 0 {
      FirstBlock(f, s);
    }
    SlotInBlock(s.r, s.c.k);
    assert Holds(f.file, s.ring, s.r + s.c.k);
  }

  lemma FirstBlock(f: Feed, s: State)
    requires CountersOk(f, s) && Published(s) <= 1
    ensures s.w <= BLOCK
  {
    if Published(s) == 1 {
      FirstIs(f);
    }
  }

  lemma OneMore(file: seq<int>, inbuf: seq<int>, r: int, k: int, x: int)
    requires 0 <= r && 0 <= k < |inbuf| && r + k < |file| && inbuf[..k] == file[r..r + k] && x == file[r + k]
    ensures inbuf[k := x][..k + 1] == file[r..r + (k + 1)]
  {
    assert inbuf[k := x][..k + 1] == inbuf[..k] + [x];
    assert file[r..r + (k + 1)] == file[r..r + k] + [file[r + k]];
  }

  lemma HandOverInv(f: Feed, s: State, t: State)
    requires Good(f) && Inv(f, s) && HandOver(s, t)
    ensures Inv(f, t)
  {
    hide Slot, Holds, Sum, Schedule, Whole, Even, Cut, Good;
    assert f.file[..t.r] == f.file[..s.r] + f.file[s.r..s.r + s.c.n];
  }

  lemma ToldInv(f: Feed, s: State, t: State)
    requires Inv(f, s) && (SendSignal(s, t) || PassGate(s, t) || Finish(s, t))
    ensures Inv(f, t)
  {
    hide Slot, Holds, Whole, Schedule, Even;
    if f.lens != [] {
      FirstIs(f);
    }
    hide Sum;
  }

  lemma QuietInv(f: Feed, s: State, t: State)
    requires Inv(f, s) && (WakeUp(s, t) || ReadHeader(f, s, t) || Inflate(s, t) || AskForMore(s, t))
    ensures Inv(f, t)
  {
    hide Slot, Holds, Whole, Schedule, Even;
    if f.lens != [] {
      FirstIs(f);
    }
    hide Sum;
  }

  lemma StepInv(f: Feed, s: State, t: State)
    requires Good(f) && Inv(f, s) && Step(f, s, t)
    ensures Inv(f, t)
  {
    hide Inv, Good;
    if StartFill(f, s, t) {
      StartFillInv(f, s, t);
    } else if FillByte(f, s, t) {
      FillByteInv(f, s, t);
    } else if Publish(s, t) {
      PublishInv(f, s, t);
    } else if StartCopy(s, t) {
      StartCopyInv(f, s, t);
    } else if CopyByte(s, t) {
      CopyByteInv(f, s, t);
    } else if HandOver(s, t) {
      HandOverInv(f, s, t);
    } else if SendSignal(s, t) || PassGate(s, t) || Finish(s, t) {
      ToldInv(f, s, t);
    } else {
      QuietInv(f, s, t);
    }
  }

  lemma {:induction false} RunsKeepInv(f: Feed, states: seq<State>, i: nat)
    requires Good(f) && Run(f, states) && i < |states|
    ensures Inv(f, states[i])
  {
    hide Inv, Step;
    if i == 0 {
      InitInv(f, states[0]);
    } else {
      RunsKeepInv(f, states, i - 1);
      StepInv(f, states[i - 1], states[i]);
    }
  }

  // ---------- runs that go wrong ----------

  ghost predicate Leads(f: Feed, states: seq<State>, t: State) {
    Run(f, states) && states[|states| - 1] == t
  }

  /** Some run ends in t. */
  ghost predicate Reached(f: Feed, t: State) {
    exists states :: Leads(f, states, t)
  }

  lemma OneStep(f: Feed, t: State, u: State)
    requires Reached(f, t) && Step(f, t, u)
    ensures Reached(f, u)
  {
    hide Step;
    var states :| Leads(f, states, t);
    var all := states + [u];
    forall i {:trigger all[i]} | 0 < i < |all| ensures Step(f, all[i - 1], all[i]) {
      if i < |states| {
        assert states[i] == all[i];
      }
    }
    assert Leads(f, all, u);
  }

  /** The header is done, i blocks have been read, and both threads are at the beginnings of their loops. */
  predicate Calm(f: Feed, s: State, i: int) {
    && Schedule(f) && 0 <= i <= |f.lens| && s.p == Test && s.c == Wait && s.header == 2 && s.begun == i
    && s.w == Sum(f.lens, i) && s.remain == |f.file| - s.w && 0 <= s.r <= s.w <= |f.file| && |s.handed| == s.r
    && |s.ring| == RING && |s.inbuf| == BLOCK && s.signals >= 0
  }

  /** The rest of a block arrives. */
  lemma {:induction false} FillRest(f: Feed, t: State) returns (u: State)
    requires Reached(f, t) && t.p.Fill? && 0 <= t.p.k <= t.p.n && 0 <= t.w && t.w + t.p.n <= |f.file| && |t.ring| == RING
    ensures Reached(f, u) && u == t.(p := Fill(t.p.n, t.p.n), ring := u.ring, spilt := u.spilt) && |u.ring| == RING
    ensures t.spilt || (t.p.k < t.p.n && Slot(t.w) + t.p.n > RING) ==> u.spilt
    decreases t.p.n - t.p.k
  {
    hide Reached;
    if t.p.k == t.p.n {
      u := t;
    } else {
      var v := Filled(f, t);
      assert FillByte(f, t, v);
      OneStep(f, t, v);
      u := FillRest(f, v);
    }
  }

  /** A block is read, and the other thread is told. */
  lemma ReadOne(f: Feed, t: State) returns (u: State)
    requires Reached(f, t) && Schedule(f) && t.p == Test && t.c == Wait && 0 <= t.begun < |f.lens| && Diff(t.w, t.r) != RING
    requires t.w == Sum(f.lens, t.begun) && t.remain == |f.file| - t.w && |t.ring| == RING
    ensures Reached(f, u) && |u.ring| == RING
    ensures u == t.(p := Gate, w := Sum(f.lens, t.begun + 1), remain := |f.file| - u.w, signals := t.signals + 1, begun := t.begun + 1,
                    ring := u.ring, spilt := u.spilt)
    ensures Sum(f.lens, t.begun + 1) <= |f.file|
    ensures t.spilt || Slot(t.w) + f.lens[t.begun] > RING ==> u.spilt
  {
    hide Reached, Slot;
    SumLess(f, t.begun);
    SumBounds(f, t.begun + 1, |f.lens|);
    var n := f.lens[t.begun];
    var a := t.(p := Fill(0, n), begun := t.begun + 1);
    assert StartFill(f, t, a);
    OneStep(f, t, a);
    SlotRange(t.w);
    var b := FillRest(f, a);
    var c := b.(p := Signal, w := b.w + n, remain := b.remain - n);
    assert Publish(b, c);
    OneStep(f, b, c);
    u := c.(p := Gate, signals := c.signals + 1);
    assert SendSignal(c, u);
    OneStep(f, c, u);
  }

  lemma SlotRange(x: int)
    ensures 0 <= Slot(x) < RING
  {
  }

  /** The downloading thread reads a block, and the other one does nothing. */
  lemma ReadRound(f: Feed, t: State, i: int) returns (u: State)
    requires Reached(f, t) && Calm(f, t, i) && i < |f.lens| && Sum(f.lens, i) - t.r != RING
    ensures Reached(f, u) && Calm(f, u, i + 1) && u.r == t.r && u.signals == t.signals + 1
    ensures t.spilt || Slot(Sum(f.lens, i)) + f.lens[i] > RING ==> u.spilt
  {
    hide Reached, Slot;
    SumBounds(f, i, i + 1);
    var a := ReadOne(f, t);
    u := a.(p := Test);
    assert PassGate(a, u);
    OneStep(f, a, u);
  }

  /** Blocks up to the e-th one. */
  lemma {:induction false} ReadOn(f: Feed, t: State, i: int, e: int) returns (u: State)
    requires Reached(f, t) && Calm(f, t, i) && i <= e <= |f.lens| && forall x {:trigger Sum(f.lens, x)} :: i <= x < e ==> Sum(f.lens, x) - t.r != RING
    ensures Reached(f, u) && Calm(f, u, e) && u.r == t.r && u.signals == t.signals + (e - i) && (t.spilt ==> u.spilt)
    decreases e - i
  {
    hide Reached, Slot, Schedule;
    if i == e {
      u := t;
    } else {
      u := ReadRound(f, t, i);
      u := ReadOn(f, u, i + 1, e);
    }
  }

  /** The rest of the bytes are copied. */
  lemma {:induction false} CopyRest(f: Feed, t: State) returns (u: State)
    requires Reached(f, t) && t.c.Copy? && 0 <= t.c.k <= t.c.n <= BLOCK == |t.inbuf|
    ensures Reached(f, u) && u == t.(c := Copy(t.c.n, t.c.n), inbuf := u.inbuf, spilt := u.spilt) && |u.inbuf| == BLOCK
    ensures t.spilt ==> u.spilt
    decreases t.c.n - t.c.k
  {
    hide Reached;
    if t.c.k == t.c.n {
      u := t;
    } else {
      var k, x := t.c.k, Slot(t.r) + t.c.k;
      SlotRange(t.r);
      var v := if x < |t.ring| then t.(c := Copy(k + 1, t.c.n), inbuf := t.inbuf[k := t.ring[x]])
               else t.(c := Copy(k + 1, t.c.n), spilt := true);
      assert CopyByte(t, v);
      OneStep(f, t, v);
      u := CopyRest(f, v);
    }
  }

  /** The unzipping thread wakes up and takes what it gets. */
  lemma TakeOne(f: Feed, t: State) returns (u: State)
    requires Reached(f, t) && t.c == Wait && t.signals > 0 && |t.inbuf| == BLOCK && 0 <= t.r <= t.w < WORD
    ensures var n := Min(t.w - t.r, BLOCK);
      && Reached(f, u) && |u.inbuf| == BLOCK
      && u == t.(c := if t.header == 0 then Parse(n) else Use, r := t.r + n, signals := t.signals - 1,
                 inbuf := u.inbuf, handed := u.handed, spilt := u.spilt)
      && |u.handed| == |t.handed| + (if n == 0 && t.header != 0 then 1 else n)
  {
    hide Reached, Slot;
    var n := Min(t.w - t.r, BLOCK);
    var a := t.(c := Woken, signals := t.signals - 1);
    assert WakeUp(t, a);
    OneStep(f, t, a);
    var b := a.(c := Copy(0, n));
    assert StartCopy(a, b);
    OneStep(f, a, b);
    var c := CopyRest(f, b);
    u := c.(c := if c.header == 0 then Parse(n) else Use, r := c.r + n,
            handed := c.handed + c.inbuf[..if n == 0 && c.header != 0 then 1 else n]);
    assert HandOver(c, u);
    OneStep(f, c, u);
  }

  /** A wake-up that finds bytes. */
  lemma TakeRound(f: Feed, t: State, i: int) returns (u: State)
    requires Reached(f, t) && Calm(f, t, i) && t.signals > 0 && t.r < t.w
    ensures Reached(f, u) && Calm(f, u, i) && u.r == t.r + Min(t.w - t.r, BLOCK) && u.signals == t.signals - 1
  {
    hide Reached;
    var a := TakeOne(f, t);
    u := a.(c := Wait);
    assert AskForMore(a, u);
    OneStep(f, a, u);
  }

  /** More signals than blocks: in the end a wake-up finds no bytes, and a stale one goes to the inflater. */
  lemma {:induction false} StaleByte(f: Feed, t: State, i: int) returns (u: State)
    requires Reached(f, t) && Calm(f, t, i) && t.signals > 0 && t.w - t.r <= BLOCK * (t.signals - 1)
    ensures Reached(f, u) && !Safe(f.file, u)
    decreases t.signals
  {
    hide Reached;
    if t.r == t.w {
      u := TakeOne(f, t);
      assert |u.handed| == u.r + 1;
    } else {
      u := TakeRound(f, t, i);
      u := StaleByte(f, u, i);
    }
  }

  /** The first read brings the header and is taken alone: both threads are calm afterwards, */
  lemma FirstRound(f: Feed) returns (u: State)
    requires Schedule(f) && f.lens != [] && !Cut(f)
    ensures Reached(f, u) && Calm(f, u, 1) && u.r == u.w && u.signals == 0
  {
    hide Slot, Reached, Step;
    var s := Beginning(f);
    FirstIs(f);
    var a := ReadOne(f, s);
    var b := TakeOne(f, a);
    u := HeaderDone(f, b);
  }

  lemma Beginning(f: Feed) returns (s: State)
    ensures Init(f, s) && Reached(f, s)
  {
    s := State(0, 0, seq(RING, _ => 0), |f.file|, 0, 0, 0, Test, Wait, seq(BLOCK, _ => 0), [], false);
    assert Leads(f, [s], s);
  }

  lemma HeaderDone(f: Feed, b: State) returns (u: State)
    requires Reached(f, b) && b.c.Parse? && b.c.n >= f.head && b.p == Gate
    ensures Reached(f, u) && u == b.(p := Test, c := Wait, header := 2)
  {
    hide Reached;
    var c := b.(c := Parsed, header := 1);
    assert ReadHeader(f, b, c);
    OneStep(f, b, c);
    var d := c.(p := Test, header := 2);
    assert PassGate(c, d);
    OneStep(f, c, d);
    var e := d.(c := Use);
    assert Inflate(d, e);
    OneStep(f, d, e);
    u := e.(c := Wait);
    assert AskForMore(e, u);
    OneStep(f, e, u);
  }

  /** and after each further read when it, too, is taken at once. */
  lemma {:induction false} InStep(f: Feed, j: int) returns (u: State)
    requires Schedule(f) && 1 <= j <= |f.lens| && !Cut(f) && forall x :: 0 < x < j ==> f.lens[x] > 0
    ensures Reached(f, u) && Calm(f, u, j) && u.r == u.w && u.signals == 0
    decreases j
  {
    hide Reached, Slot, Cut;
    if j == 1 {
      u := FirstRound(f);
    } else {
      u := InStep(f, j - 1);
      u := ReadRound(f, u, j - 1);
      u := TakeRound(f, u, j);
    }
  }

  /** The inflater has taken c blocks, one by one, and the downloading thread has got ahead to the e-th one. */
  lemma Lag(f: Feed, c: int, e: int) returns (u: State)
    requires Schedule(f) && !Cut(f) && 1 <= c <= e <= |f.lens| && forall x :: 0 < x < c ==> f.lens[x] > 0
    requires forall x {:trigger Sum(f.lens, x)} :: c <= x < e ==> Sum(f.lens, x) - Sum(f.lens, c) < RING
    ensures Reached(f, u) && Calm(f, u, e) && u.r == Sum(f.lens, c) && u.signals == e - c
  {
    u := InStep(f, c);
    u := ReadOn(f, u, c, e);
  }

  /** The fifth read runs across the end of the ring. */
  lemma Crosses(f: Feed) returns (u: State)
    requires Schedule(f) && !Cut(f) && |f.lens| >= 5 && Sum(f.lens, 4) < RING < Sum(f.lens, 5)
    ensures Reached(f, u) && !Safe(f.file, u)
  {
    hide Reached, Slot, Schedule, Cut;
    FirstThree(f);
    u := Lag(f, 1, 4);
    InRing(Sum(f.lens, 4));
    u := ReadRound(f, u, 4);
  }

  lemma FirstThree(f: Feed)
    requires Schedule(f) && |f.lens| >= 5 && Sum(f.lens, 4) < RING
    ensures forall x {:trigger Sum(f.lens, x)} :: 1 <= x <= 4 ==> 0 <= Sum(f.lens, x) - Sum(f.lens, 1) < RING
    ensures Sum(f.lens, 4) >= 0 && Sum(f.lens, 5) == Sum(f.lens, 4) + f.lens[4]
  {
    SumBounds(f, 0, 1);
    SumBounds(f, 0, 4);
    forall x {:trigger Sum(f.lens, x)} | 1 <= x <= 4 ensures 0 <= Sum(f.lens, x) - Sum(f.lens, 1) < RING {
      SumBounds(f, 1, x);
      SumBounds(f, x, 4);
    }
  }

  lemma InRing(x: int)
    requires 0 <= x < RING
    ensures Slot(x) == x
  {
  }

  lemma FirstIs(f: Feed)
    requires f.lens != []
    ensures Sum(f.lens, 1) == f.lens[0]
  {
    assert Sum(f.lens, 0) == 0;
  }

  /** The downloading thread gets five reads ahead: it writes over bytes not yet taken, or sends too many signals. */
  lemma Overruns(f: Feed, c: int) returns (u: State)
    requires Schedule(f) && !Cut(f) && 1 <= c && c + 5 <= |f.lens| && forall x :: 0 < x < c ==> f.lens[x] > 0
    requires forall x {:trigger Sum(f.lens, x)} :: c <= x < c + 5 ==> Sum(f.lens, x) - Sum(f.lens, c) < RING
    ensures Reached(f, u) && !Safe(f.file, u)
  {
    u := Lag(f, c, c + 5);
    if u.w <= u.r + RING {
      u := StaleByte(f, u, c + 5);
    }
  }

  /** The first read is short. */
  lemma FirstShort(f: Feed) returns (u: State)
    requires Schedule(f) && !Cut(f) && !Small(f) && |f.lens| >= 2 && f.lens[0] < BLOCK
    ensures Reached(f, u) && !Safe(f.file, u)
  {
    var m := |f.lens|;
    FirstIs(f);
    SumBounds(f, 1, m);
    if |f.file| <= RING {
      if |f.file| - f.lens[0] > BLOCK * (m - 2) {
        BlocksIs(|f.file| - f.lens[0], m - 1);
      }
      forall x {:trigger Sum(f.lens, x)} | 1 <= x < m ensures Sum(f.lens, x) - Sum(f.lens, 1) < RING {
        SumLess(f, x);
      }
      u := Lag(f, 1, m);
      u := StaleByte(f, u, m);
    } else {
      SumBounds(f, 1, 4);
      SumBounds(f, 1, 5);
      if Sum(f.lens, 5) > RING {
        u := Crosses(f);
      } else {
        forall x {:trigger Sum(f.lens, x)} | 1 <= x < 6 ensures Sum(f.lens, x) - Sum(f.lens, 1) < RING {
          SumBounds(f, x, 5);
        }
        u := Overruns(f, 1);
      }
    }
  }

  /** What the reads from c on bring before the x-th one, when the j-th is short. */
  lemma ShortSum(f: Feed, j: int, c: int, x: int)
    requires Schedule(f) && 0 <= c <= j < |f.lens| && f.lens[j] < BLOCK && c <= x <= |f.lens|
    ensures Sum(f.lens, x) - Sum(f.lens, c) <= BLOCK * (x - c) && (x > j ==> Sum(f.lens, x) - Sum(f.lens, c) < BLOCK * (x - c))
  {
    SumBounds(f, c, x);
    if x > j {
      SumBounds(f, c, j);
      SumBounds(f, j + 1, x);
    }
  }

  /** The j-th read is the first short one. */
  lemma LaterShort(f: Feed, j: int) returns (u: State)
    requires Schedule(f) && !Cut(f) && !Small(f) && 1 <= j < |f.lens| - 1 && f.lens[j] < BLOCK && forall x :: 0 <= x < j ==> f.lens[x] == BLOCK
    ensures Reached(f, u) && !Safe(f.file, u)
  {
    var m := |f.lens|;
    SumFull(f, j);
    ShortSum(f, j, j, m);
    if m >= j + 5 {
      forall x {:trigger Sum(f.lens, x)} | j <= x < j + 5 ensures Sum(f.lens, x) - Sum(f.lens, j) < RING {
        ShortSum(f, j, j, x);
      }
      u := Overruns(f, j);
    } else if |f.file| - BLOCK * j <= BLOCK * (m - j - 1) {
      forall x {:trigger Sum(f.lens, x)} | j <= x < m ensures Sum(f.lens, x) - Sum(f.lens, j) < RING {
        ShortSum(f, j, j, x);
      }
      u := Lag(f, j, m);
      u := StaleByte(f, u, m);
    } else {
      BlocksIs(|f.file| - BLOCK, m - 1);
      u := LastOverruns(f, j);
    }
  }

  /** A file that does not fit into the ring, and a short read among the last four: the last read writes over bytes
      that have not been taken, or across the end of the ring. */
  lemma LastOverruns(f: Feed, j: int) returns (u: State)
    requires Schedule(f) && !Cut(f) && 1 <= j < |f.lens| - 1 <= j + 3 && f.lens[j] < BLOCK && forall x :: 0 <= x < j ==> f.lens[x] == BLOCK
    requires |f.file| > RING && |f.file| > BLOCK * (|f.lens| - 1)
    ensures Reached(f, u) && !Safe(f.file, u)
  {
    var m := |f.lens|;
    SumBounds(f, 0, m);
    if m == 5 {
      ShortSum(f, j, 0, 4);
      u := Crosses(f);
    } else {
      var c := m - 5;
      SumFull(f, c);
      forall x {:trigger Sum(f.lens, x)} | c <= x < m ensures Sum(f.lens, x) - Sum(f.lens, c) < RING {
        ShortSum(f, j, c, x);
      }
      u := Lag(f, c, m);
    }
  }

  /** Some run goes wrong. */
  lemma GoesWrong(f: Feed) returns (u: State)
    requires Schedule(f) && !Cut(f) && !Whole(f) && !Small(f)
    ensures Reached(f, u) && !Safe(f.file, u)
  {
    if f.lens[0] < BLOCK {
      u := FirstShort(f);
    } else {
      var j := FirstGap(f, 1);
      u := LaterShort(f, j);
    }
  }

  lemma {:induction false} FirstGap(f: Feed, i: int) returns (j: int)
    requires Schedule(f) && !Whole(f) && 0 <= i < |f.lens| && forall x :: 0 <= x < i ==> f.lens[x] == BLOCK
    ensures i <= j < |f.lens| - 1 && f.lens[j] < BLOCK && forall x :: 0 <= x < j ==> f.lens[x] == BLOCK
    decreases |f.lens| - i
  {
    if f.lens[i] < BLOCK && i < |f.lens| - 1 {
      j := i;
    } else {
      j := FirstGap(f, i + 1);
    }
  }

  // ---------- whole runs ----------

  /** Whatever the threads do, nothing goes wrong. */
  ghost predicate AlwaysSafe(f: Feed) {
    forall t :: Reached(f, t) ==> Safe(f.file, t)
  }

  /** Exactly when every interleaving is safe: every read but the last fills a block, or the first one does not bring
      the header, or the file fits into the ring and is read in as few reads as possible. */
  lemma SafeIff(f: Feed)
    requires Schedule(f)
    ensures AlwaysSafe(f) <==> Whole(f) || Cut(f) || Small(f)
  {
    hide Step, Init, Safe, Whole, Cut, Small;
    if Whole(f) || Cut(f) || Small(f) {
      forall t | Reached(f, t) ensures Safe(f.file, t) {
        var states :| Leads(f, states, t);
        RunsKeepInv(f, states, |states| - 1);
        InvIsSafe(f, t);
      }
    } else {
      var t := GoesWrong(f);
    }
  }

  lemma InvIsSafe(f: Feed, s: State)
    requires Inv(f, s)
    ensures Safe(f.file, s)
  {
  }

  /** Reads of whole blocks: every state of every run is safe. */
  lemma RunsAreSafe(f: Feed, states: seq<State>)
    requires Schedule(f) && Whole(f) && Run(f, states)
    ensures forall i {:trigger states[i]} :: 0 <= i < |states| ==> Safe(f.file, states[i])
  {
    forall i {:trigger states[i]} | 0 <= i < |states| ensures Safe(f.file, states[i]) {
      RunsKeepInv(f, states, i);
    }
  }

  /** Two reads of 4096 bytes, both of which arrive before the inflater asks for more, after a first whole block. */
  lemma TwoHalves(file: seq<int>)
    requires |file| == BLOCK + 0x2000
    ensures !AlwaysSafe(Feed(file, [BLOCK, 0x1000, 0x1000], 30))
  {
    var f := Feed(file, [BLOCK, 0x1000, 0x1000], 30);
    assert Sum(f.lens, 1) == BLOCK && Sum(f.lens, 2) == BLOCK + 0x1000 && Sum(f.lens, 3) == |file|;
    SafeIff(f);
  }

  /** Every signal stands for bytes: whoever wakes up finds some to hand over. */
  lemma WokenFindsBytes(f: Feed, s: State, t: State)
    requires Good(f) && !Cut(f) && Inv(f, s) && StartCopy(s, t)
    ensures t.c.n > 0
  {
    if s.header == 2 {
      TakesSome(f, s);
    } else {
      FirstIs(f);
    }
  }

  /** No signal is left: all that has been published has been handed over. */
  lemma NothingLeft(f: Feed, s: State)
    requires Inv(f, s) && s.c == Wait && s.signals == 0 && Sending(s.p) == 0
    ensures s.r == s.w && (s.remain == 0 ==> s.handed == f.file)
  {
    hide Slot, Holds;
    assert f.file[..|f.file|] == f.file;
  }

  /** The threads never wait for each other: as long as the file is not handed over, one of them can go on, unless
      the unzipping thread has given up. */
  lemma NoDeadlock(f: Feed, s: State) returns (t: State)
    requires Good(f) && Inv(f, s)
    ensures Step(f, s, t) || (s.p == Stop && if s.c == Dead then Cut(f) else s.c == Wait && s.handed == f.file)
  {
    hide Holds, Slot, Good, Whole;
    t := s;
    if s.p == Signal {
      t := s.(p := Gate, signals := s.signals + 1);
    } else if s.p.Fill? {
      t := if s.p.k == s.p.n then s.(p := Signal, w := s.w + s.p.n, remain := s.remain - s.p.n) else Filled(f, s);
    } else if s.c == Use {
      t := s.(c := Wait);
    } else if s.c == Woken {
      t := s.(c := Copy(0, Min(Diff(s.w, s.r), BLOCK)));
    } else if s.c.Copy? {
      t := NextCopy(s);
    } else if s.c.Parse? {
      t := if s.c.n < f.head then s.(c := Dead) else s.(c := Parsed, header := 1);
    } else if s.p == Gate && s.c == Dead {
      t := s.(p := Stop);
    } else if s.p == Gate && s.header > 0 {
      t := s.(p := Test, header := 2);
    } else if s.c == Parsed {
      t := s.(c := Use);
    } else if s.c == Wait && s.signals > 0 {
      t := s.(c := Woken, signals := s.signals - 1);
    } else if s.c == Wait {
      NothingLeft(f, s);
      if s.p == Test {
        t := Onward(f, s);
      }
    }
  }

  lemma NextCopy(s: State) returns (t: State)
    requires s.c.Copy? && 0 <= s.c.k <= s.c.n <= BLOCK == |s.inbuf|
    ensures CopyByte(s, t) || HandOver(s, t)
  {
    var x := Slot(s.r) + s.c.k;
    if s.c.k == s.c.n {
      t := s.(c := if s.header == 0 then Parse(s.c.n) else Use, r := s.r + s.c.n,
              handed := s.handed + s.inbuf[..if s.c.n == 0 && s.header != 0 then 1 else s.c.n]);
    } else if x < |s.ring| {
      t := s.(c := Copy(s.c.k + 1, s.c.n), inbuf := s.inbuf[s.c.k := s.ring[x]]);
    } else {
      t := s.(c := Copy(s.c.k + 1, s.c.n), spilt := true);
    }
  }

  /** All that has been read is handed over: the next block is read, or there is none. */
  lemma Onward(f: Feed, s: State) returns (t: State)
    requires Inv(f, s) && s.p == Test && s.c == Wait && s.r == s.w
    ensures StartFill(f, s, t) || Finish(s, t)
  {
    hide Holds, Slot, Whole;
    if s.remain == 0 {
      t := s.(p := Stop);
    } else {
      t := s.(p := Fill(0, f.lens[s.begun]), begun := s.begun + 1);
    }
  }
}
