/** The byte-level frame parser of the CSE7766 power meter: 24-byte frames, no escape, resynchronised
    by the two header bytes and by silence on the line. */
module Cse7766Frames {
  import opened Options
  import opened Words

  const SYNC_INTERVAL := 300
  const CLOCK := 0x1_0000_0000
  const FRAME := 24

  type Frame = f: seq<byte> | |f| == FRAME witness seq<byte>(FRAME, _ => 0)

  /** A byte and the reading of the 32-bit millisecond clock when it is taken from the line. */
  datatype Timed = Timed(time: int, data: byte)

  /** Bytes of the frame being collected, and the time of the last byte seen. */
  datatype Parser = Parser(buffer: seq<byte>, last: int)

  predicate Legal(p: Parser) {
    |p.buffer| < FRAME && LegalPrefix(p.buffer)
  }

  predicate LegalPrefix(b: seq<byte>) {
    (|b| > 0 ==> b[0] == 0x55 || b[0] >= 0xF0) && (|b| > 1 ==> b[1] == 0x5A)
  }

  predicate Gap(before: int, now: int) {
    (now - before) % CLOCK > SYNC_INTERVAL
  }

  /** What is still collected when a byte arrives at `now`. */
  function Kept(p: Parser, now: int): seq<byte> {
    if Gap(p.last, now) then [] else p.buffer
  }

  /** One byte from the line: the parser after it, and the frame it completes, if any. */
  function Feed(p: Parser, x: Timed): (r: (Parser, Option<Frame>))
    requires Legal(p)
    ensures Legal(r.0) && r.0.last == x.time
  {
    var kept := Kept(p, x.time);
    if |kept| == 0 && x.data != 0x55 && x.data < 0xF0 then (Parser([], x.time), None)
    else if |kept| == 1 && x.data != 0x5A then (Parser([], x.time), None)
    else
      var grown := kept + [x.data];
      if |grown| == FRAME then (Parser([], x.time), Some(grown)) else (Parser(grown, x.time), None)
  }

  function After(p: Parser, s: seq<Timed>, k: nat): (r: Parser)
    requires Legal(p) && k <= |s|
    ensures Legal(r) && (k > 0 ==> r.last == s[k - 1].time)
  {
    if k == 0 then p else Feed(After(p, s, k - 1), s[k - 1]).0
  }

  /** The frame completed by byte `k` of the stream. */
  function Emitted(p: Parser, s: seq<Timed>, k: nat): Option<Frame>
    requires Legal(p) && k < |s|
  {
    Feed(After(p, s, k), s[k]).1
  }

  /** All frames completed by the first `k` bytes. */
  function Frames(p: Parser, s: seq<Timed>, k: nat): seq<Frame>
    requires Legal(p) && k <= |s|
  {
    if k == 0 then []
    else if Emitted(p, s, k - 1).Some? then Frames(p, s, k - 1) + [Emitted(p, s, k - 1).value]
    else Frames(p, s, k - 1)
  }

  function Bytes(s: seq<Timed>, from: nat, to: nat): (b: seq<byte>)
    requires from <= to <= |s|
    ensures |b| == to - from && forall i | 0 <= i < |b| :: b[i] == s[from + i].data
  {
    seq<byte>(to - from, i requires 0 <= i < to - from => s[from + i].data)
  }

  /** No silence longer than the sync interval inside the stretch. */
  predicate Steady(s: seq<Timed>, from: nat, to: nat)
    requires to <= |s|
  {
    forall j | from < j < to :: !Gap(s[j - 1].time, s[j].time)
  }

  // ----- Soundness -----

  /** A byte is dropped, starts a frame, or comes without silence after what was collected. */
  lemma FeedGrows(p: Parser, x: Timed)
    requires Legal(p)
    ensures var b := Feed(p, x).0.buffer;
            b == [] || b == [x.data] || (!Gap(p.last, x.time) && b == p.buffer + [x.data])
  {
  }

  /** The last `|b|` of the first `k` bytes, without silence in them. */
  predicate IsTail(s: seq<Timed>, k: nat, b: seq<byte>)
    requires k <= |s|
  {
    |b| <= k && b == Bytes(s, k - |b|, k) && Steady(s, k - |b|, k)
  }

  lemma TailGrows(s: seq<Timed>, k: nat, b: seq<byte>)
    requires k < |s| && IsTail(s, k, b) && (b != [] ==> !Gap(s[k - 1].time, s[k].time))
    ensures IsTail(s, k + 1, b + [s[k].data])
  {
  }

  lemma FeedKeepsTail(p: Parser, s: seq<Timed>, k: nat)
    requires Legal(p) && k < |s| && IsTail(s, k, p.buffer) && (k > 0 ==> p.last == s[k - 1].time)
    ensures IsTail(s, k + 1, Feed(p, s[k]).0.buffer)
  {
    var x := s[k];
    var b := Feed(p, x).0.buffer;
    FeedGrows(p, x);
    if b == [x.data] {
      TailGrows(s, k, []);
      assert [] + [x.data] == [x.data];
    } else if b != [] {
      TailGrows(s, k, p.buffer);
    }
  }

  /** What is being collected is the end of what was received, without silence in it. */
  lemma {:induction false} BufferIsTail(p: Parser, s: seq<Timed>, k: nat)
    requires Legal(p) && p.buffer == [] && k <= |s|
    ensures IsTail(s, k, After(p, s, k).buffer)
    decreases k
  {
    if k > 0 {
      BufferIsTail(p, s, k - 1);
      FeedKeepsTail(After(p, s, k - 1), s, k - 1);
    }
  }

  lemma EmittedIsTail(p: Parser, s: seq<Timed>, k: nat)
    requires Legal(p) && k < |s| && IsTail(s, k, p.buffer) && (k > 0 ==> p.last == s[k - 1].time)
    requires Feed(p, s[k]).1.Some?
    ensures IsTail(s, k + 1, Feed(p, s[k]).1.value) && LegalPrefix(Feed(p, s[k]).1.value)
  {
    assert Feed(p, s[k]).1.value == p.buffer + [s[k].data];
    TailGrows(s, k, p.buffer);
  }

  /** Every frame handed on is 24 consecutive bytes of the stream, with a legal header and no silence
      longer than the sync interval between them. */
  lemma FrameIsFromStream(p: Parser, s: seq<Timed>, k: nat)
    requires Legal(p) && p.buffer == [] && k < |s| && Emitted(p, s, k).Some?
    ensures k + 1 >= FRAME
    ensures var f := Emitted(p, s, k).value;
            && f == Bytes(s, k + 1 - FRAME, k + 1) && LegalPrefix(f) && Steady(s, k + 1 - FRAME, k + 1)
            && (f[0] == 0x55 || f[0] >= 0xF0) && f[1] == 0x5A
    ensures forall j | k + 1 - FRAME < j <= k :: (s[j].time - s[j - 1].time) % 0x1_0000_0000 <= 300
  {
    BufferIsTail(p, s, k);
    EmittedIsTail(After(p, s, k), s, k);
  }

  /** Between two frames at least 24 bytes are read, so frames do not overlap. */
  lemma {:induction false} BufferSinceFrame(p: Parser, s: seq<Timed>, j: nat, k: nat)
    requires Legal(p) && j < k <= |s| && Emitted(p, s, j).Some?
    ensures |After(p, s, k).buffer| <= k - j - 1
    decreases k
  {
    if k > j + 1 {
      BufferSinceFrame(p, s, j, k - 1);
    }
  }

  lemma FramesDisjoint(p: Parser, s: seq<Timed>, j: nat, k: nat)
    requires Legal(p) && j < k < |s| && Emitted(p, s, j).Some? && Emitted(p, s, k).Some?
    ensures k - j >= FRAME
  {
    BufferSinceFrame(p, s, j, k);
  }

  // ----- Completeness -----

  /** What a frame on the line has to look like. */
  lemma WellFormedIs(s: seq<Timed>, k: nat)
    ensures WellFormedAt(s, k) <==>
              && k + 24 <= |s| && (s[k].data == 0x55 || s[k].data >= 0xF0) && s[k + 1].data == 0x5A
              && forall j | k < j < k + 24 :: (s[j].time - s[j - 1].time) % 0x1_0000_0000 <= 300
  {
    if k + 24 <= |s| {
      var b := Bytes(s, k, k + 24);
      assert b[0] == s[k].data && b[1] == s[k + 1].data;
    }
  }

  /** Bytes `k .. k + 23` form a frame that the parser could accept. */
  predicate WellFormedAt(s: seq<Timed>, k: nat) {
    k + FRAME <= |s| && LegalPrefix(Bytes(s, k, k + FRAME)) && Steady(s, k, k + FRAME)
  }

  /** The parser is between frames when byte `k` arrives. */
  predicate IdleAt(p: Parser, s: seq<Timed>, k: nat)
    requires Legal(p) && k < |s|
  {
    Kept(After(p, s, k), s[k].time) == []
  }

  lemma {:induction false} Collecting(p: Parser, s: seq<Timed>, k: nat, n: nat)
    requires Legal(p) && WellFormedAt(s, k) && IdleAt(p, s, k) && 1 <= n < FRAME
    ensures After(p, s, k + n).buffer == Bytes(s, k, k + n)
    decreases n
  {
    var whole := Bytes(s, k, k + FRAME);
    assert s[k].data == whole[0] && s[k + 1].data == whole[1];
    if n > 1 {
      Collecting(p, s, k, n - 1);
      assert !Gap(s[k + n - 2].time, s[k + n - 1].time);
    }
    assert Bytes(s, k, k + n) == Bytes(s, k, k + n - 1) + [s[k + n - 1].data];
  }

  lemma {:induction false} StartedAt(p: Parser, s: seq<Timed>, k: nat, n: nat)
    requires Legal(p) && k + n <= |s| && 1 <= n && |After(p, s, k + n).buffer| == n
    ensures IdleAt(p, s, k)
    decreases n
  {
    if n > 1 {
      StartedAt(p, s, k, n - 1);
    }
  }

  /** A well-formed frame on the line is delivered exactly when the parser is idle at its first byte. */
  lemma DeliveredIffIdle(p: Parser, s: seq<Timed>, k: nat)
    requires Legal(p) && WellFormedAt(s, k)
    ensures IdleAt(p, s, k) <==> Emitted(p, s, k + FRAME - 1).Some?
    ensures IdleAt(p, s, k) ==> Emitted(p, s, k + FRAME - 1) == Some(Bytes(s, k, k + FRAME))
    ensures IdleAt(p, s, k) ==> After(p, s, k + FRAME).buffer == []
  {
    if IdleAt(p, s, k) {
      Collecting(p, s, k, FRAME - 1);
      assert !Gap(s[k + FRAME - 2].time, s[k + FRAME - 1].time);
      assert Bytes(s, k, k + FRAME) == Bytes(s, k, k + FRAME - 1) + [s[k + FRAME - 1].data];
    }
    if Emitted(p, s, k + FRAME - 1).Some? {
      var kept := Kept(After(p, s, k + FRAME - 1), s[k + FRAME - 1].time);
      assert |kept| == FRAME - 1;
      StartedAt(p, s, k, FRAME - 1);
    }
  }

  /** Silence brings the parser back to idle, whatever it was collecting. */
  lemma SilenceResynchronises(p: Parser, s: seq<Timed>, k: nat)
    requires Legal(p) && k < |s| && (s[k].time - After(p, s, k).last) % 0x1_0000_0000 > 300
    ensures IdleAt(p, s, k)
  {
    assert Gap(After(p, s, k).last, s[k].time);
  }

  lemma ShortIsQuiet(p: Parser, x: Timed)
    requires Legal(p) && |Kept(p, x.time)| + 1 < FRAME
    ensures Feed(p, x).1 == None
  {
  }

  /** The first 23 bytes of a frame complete none. */
  lemma QuietAt(p: Parser, s: seq<Timed>, k: nat, j: nat)
    requires Legal(p) && WellFormedAt(s, k) && IdleAt(p, s, k) && k <= j < k + FRAME - 1
    ensures Emitted(p, s, j) == None
  {
    if j > k {
      var n := j - k;
      Collecting(p, s, k, n);
      assert k + n == j;
    }
    ShortIsQuiet(After(p, s, j), s[j]);
  }

  predicate Quiet(p: Parser, s: seq<Timed>, k: nat, end: nat)
    requires Legal(p) && end <= |s|
  {
    forall j | k <= j < end :: Emitted(p, s, j) == None
  }

  /** No frame ends inside another. */
  lemma QuietInside(p: Parser, s: seq<Timed>, k: nat)
    requires Legal(p) && WellFormedAt(s, k) && IdleAt(p, s, k)
    ensures Quiet(p, s, k, k + FRAME - 1)
  {
    forall j | k <= j < k + FRAME - 1 ensures Emitted(p, s, j) == None { QuietAt(p, s, k, j); }
  }

  lemma {:induction false} NoFrames(p: Parser, s: seq<Timed>, k: nat, end: nat)
    requires Legal(p) && k <= end <= |s| && Quiet(p, s, k, end)
    ensures Frames(p, s, end) == Frames(p, s, k)
    decreases end
  {
    if end > k {
      assert Emitted(p, s, end - 1) == None;
      NoFrames(p, s, k, end - 1);
    }
  }

  /** The next frame of a run: one more frame delivered, and the parser idle again. */
  lemma OneMore(p: Parser, s: seq<Timed>, k: nat)
    requires Legal(p) && WellFormedAt(s, k) && IdleAt(p, s, k)
    ensures Frames(p, s, k + FRAME) == Frames(p, s, k) + [Bytes(s, k, k + FRAME)]
    ensures After(p, s, k + FRAME).buffer == []
  {
    DeliveredIffIdle(p, s, k);
    QuietInside(p, s, k);
    NoFrames(p, s, k, k + FRAME - 1);
  }

  /** `n` frames back to back from byte `k` on. */
  function Packets(s: seq<Timed>, k: nat, n: nat): seq<Frame>
    requires k + n * FRAME <= |s|
  {
    if n == 0 then [] else Packets(s, k, n - 1) + [Bytes(s, k + (n - 1) * FRAME, k + n * FRAME)]
  }

  predicate RunAt(s: seq<Timed>, k: nat, n: nat) {
    n == 0 || (RunAt(s, k, n - 1) && WellFormedAt(s, k + (n - 1) * FRAME))
  }

  lemma OneMoreOfRun(p: Parser, s: seq<Timed>, k: nat, n: nat, start: nat, end: nat)
    requires Legal(p) && n > 0 && start == k + (n - 1) * FRAME && end == start + FRAME
    requires WellFormedAt(s, start) && k <= start < |s|
    requires IdleAt(p, s, start)
    requires Frames(p, s, start) == Frames(p, s, k) + Packets(s, k, n - 1)
    ensures Frames(p, s, end) == Frames(p, s, k) + Packets(s, k, n)
    ensures After(p, s, end).buffer == []
  {
    OneMore(p, s, start);
    assert Packets(s, k, n) == Packets(s, k, n - 1) + [Bytes(s, start, end)];
  }

  lemma EmptyIsIdle(p: Parser, s: seq<Timed>, k: nat)
    requires Legal(p) && k < |s| && After(p, s, k).buffer == []
    ensures IdleAt(p, s, k)
  {
  }

  /** A run of `n` back-to-back well-formed frames is delivered frame for frame, provided the parser
      is idle at its first byte. */
  lemma {:induction false} RunDelivered(p: Parser, s: seq<Timed>, k: nat, n: nat, end: nat)
    requires Legal(p) && k < |s| && IdleAt(p, s, k) && end == k + n * FRAME <= |s| && RunAt(s, k, n)
    ensures Frames(p, s, end) == Frames(p, s, k) + Packets(s, k, n)
    ensures n > 0 ==> After(p, s, end).buffer == []
    decreases n
  {
    if n > 0 {
      var start := end - FRAME;
      RunDelivered(p, s, k, n - 1, start);
      if n > 1 {
        EmptyIsIdle(p, s, start);
      }
      OneMoreOfRun(p, s, k, n, start, end);
    }
  }
}
