/** The CSE7766 power meter: acceptance of frames and the pulse counter behind the energy total. */
module Cse7766Pulses {
  import opened Words
  import opened Cse7766Frames

  datatype Status = Ok | CrcError | CalibrationError | OtherError

  // ----- Acceptance -----

  function Sum(f: seq<byte>, from: nat, to: nat): nat
    requires from <= to <= |f|
  {
    if from == to then 0 else Sum(f, from, to - 1) + f[to - 1] as int
  }

  predicate Checksum(f: Frame) {
    Sum(f, 2, 23) % 0x100 == f[23]
  }

  function Verdict(f: Frame): Status {
    if !Checksum(f) then CrcError
    else if f[0] == 0xAA then CalibrationError
    else if f[0] - f[0] % 4 > 0xF0 then OtherError
    else Ok
  }

  /** Of the frames that the parser hands on, those with a correct sum and a first byte of 0x55 or
      0xF0 to 0xF3 count; the calibration error is never reported. */
  lemma AcceptedHeaders(f: Frame)
    requires LegalPrefix(f)
    ensures Verdict(f) == Ok <==> Checksum(f) && (f[0] == 0x55 || 0xF0 <= f[0] <= 0xF3)
    ensures Verdict(f) != CalibrationError && (Verdict(f) == CrcError <==> !Checksum(f))
  {
  }

  lemma {:induction false} SumFrom(f: seq<byte>, from: nat, end: nat)
    requires from < end <= |f|
    ensures Sum(f, from, end) == f[from] as int + Sum(f, from + 1, end)
    decreases end
  {
    if from + 1 < end { SumFrom(f, from, end - 1); }
  }

  lemma {:induction false} SumChanges(f: seq<byte>, from: nat, end: nat, i: nat, b: byte)
    requires from <= end <= |f| && i < |f|
    ensures Sum(f[i := b], from, end) == Sum(f, from, end) + if from <= i < end then b as int - f[i] as int else 0
    decreases end
  {
    if from < end { SumChanges(f, from, end - 1, i, b); }
  }

  /** An accepted checksum fails after any change of one byte from the third on; the two header bytes are not
      covered by it. */
  lemma ByteChangeDetected(f: Frame, i: nat, b: byte)
    requires i < FRAME && Checksum(f)
    ensures Checksum(f[i := b]) <==> i < 2 || b == f[i]
    ensures Verdict(f[i := b]) == CrcError <==> i >= 2 && b != f[i]
  {
    SumChanges(f, 2, 23, i, b);
  }

  /** The checksum in full. */
  lemma ChecksumIs(f: Frame)
    ensures Checksum(f) <==>
              (f[2] as int + f[3] + f[4] + f[5] + f[6] + f[7] + f[8] + f[9] + f[10] + f[11] + f[12] + f[13] + f[14]
               + f[15] + f[16] + f[17] + f[18] + f[19] + f[20] + f[21] + f[22]) % 0x100 == f[23]
  {
    SumOfSeven(f, 2);
    SumOfSeven(f, 9);
    SumOfSeven(f, 16);
    SumSplit(f, 2, 9, 23);
    SumSplit(f, 9, 16, 23);
  }

  lemma {:induction false} SumSplit(f: seq<byte>, from: nat, mid: nat, end: nat)
    requires from <= mid <= end <= |f|
    ensures Sum(f, from, end) == Sum(f, from, mid) + Sum(f, mid, end)
    decreases end
  {
    if mid < end { SumSplit(f, from, mid, end - 1); }
  }

  lemma SumOfSeven(f: seq<byte>, k: nat)
    requires k + 7 <= |f|
    ensures Sum(f, k, k + 7) == f[k] as int + f[k + 1] + f[k + 2] + f[k + 3] + f[k + 4] + f[k + 5] + f[k + 6]
  {
    SumFrom(f, k, k + 7);
    SumFrom(f, k + 1, k + 7);
    SumFrom(f, k + 2, k + 7);
    SumFrom(f, k + 3, k + 7);
    SumFrom(f, k + 4, k + 7);
    SumFrom(f, k + 5, k + 7);
    SumFrom(f, k + 6, k + 7);
  }

  // ----- Pulses -----

  const WRAP := 0x1_0000

  function CfPulses(f: Frame): (n: nat)
    ensures n < WRAP
  {
    f[21] as int * 0x100 + f[22] as int
  }

  function CoefP(f: Frame): nat {
    f[14] as int * 0x1_0000 + f[15] as int * 0x100 + f[16] as int
  }

  /** Last counter value, pulses counted, and energy in millionths. */
  datatype Meter = Meter(last: nat, pulses: nat, energy: nat)

  /** Pulses since the previous accepted frame; 0 as previous value counts as "no previous frame". */
  function Difference(last: nat, now: nat): nat
    requires last < WRAP
  {
    var since := if last == 0 then now else last;
    if now < since then now + (0xFFFF - since) + 1 else now - since
  }

  /** The energy of some pulses, in millionths. */
  function Charge(pulses: nat, coefP: nat): nat {
    pulses * coefP
  }

  function Process(m: Meter, f: Frame): (r: Meter)
    requires m.last < WRAP
    ensures r.last < WRAP
  {
    if Verdict(f) != Ok then m
    else
      var d := Difference(m.last, CfPulses(f));
      Meter(CfPulses(f), m.pulses + d, m.energy + Charge(d, CoefP(f)))
  }

  function ProcessAll(m: Meter, fs: seq<Frame>): (r: Meter)
    requires m.last < WRAP
    ensures r.last < WRAP
  {
    if fs == [] then m else Process(ProcessAll(m, fs[..|fs| - 1]), fs[|fs| - 1])
  }

  /** The error that is left after a call that processed the frames `fs`: that of the last one refused. */
  function ErrorOf(fs: seq<Frame>): (e: Status)
    ensures e == Ok <==> forall i | 0 <= i < |fs| :: Verdict(fs[i]) == Ok
  {
    if fs == [] then Ok
    else if Verdict(fs[|fs| - 1]) != Ok then Verdict(fs[|fs| - 1])
    else ErrorOf(fs[..|fs| - 1])
  }

  /** The frames that count. */
  function Accepted(fs: seq<Frame>): (r: seq<Frame>)
    ensures forall i | 0 <= i < |r| :: Verdict(r[i]) == Ok && r[i] in fs
  {
    if fs == [] then []
    else
      var before := Accepted(fs[..|fs| - 1]);
      if Verdict(fs[|fs| - 1]) == Ok then before + [fs[|fs| - 1]] else before
  }

  /** Bytes 21 (high) and 22 (low) of a frame are the last 16 bits of a count. */
  predicate Shows(f: Frame, count: nat) {
    0x100 * f[21] as int + f[22] as int == count % 0x1_0000
  }

  /** Counts that never fall and grow by less than 65536 from one to the next. */
  predicate Growing(counts: seq<nat>) {
    forall i | 0 < i < |counts| :: counts[i - 1] <= counts[i] < counts[i - 1] + 0x1_0000
  }

  /** True counts behind frames: each frame shows what 16 bits hold of its count. */
  predicate TrueCounts(counts: seq<nat>, fs: seq<Frame>) {
    && |counts| == |fs| && Growing(counts)
    && forall i | 0 <= i < |counts| :: Shows(fs[i], counts[i])
  }

  /** Growth that follows a reading of 0. */
  function Lost(counts: seq<nat>): nat
    requires forall i | 0 < i < |counts| :: counts[i - 1] <= counts[i]
  {
    if |counts| <= 1 then 0
    else
      var n := |counts| - 1;
      Lost(counts[..n]) + if counts[n - 1] % WRAP == 0 then counts[n] - counts[n - 1] else 0
  }

  lemma DifferenceIsGrowth(before: nat, now: nat)
    requires before <= now < before + WRAP
    ensures Difference(before % WRAP, now % WRAP) == if before % WRAP == 0 then 0 else now - before
  {
    var (q, r) := (before / WRAP, before % WRAP);
    var g := now - before;
    assert now == WRAP * q + (r + g);
    if r + g < WRAP {
      assert now % WRAP == r + g;
    } else {
      assert now == WRAP * (q + 1) + (r + g - WRAP);
      assert now % WRAP == r + g - WRAP;
    }
  }

  /** The meter holds the last count's 16 bits, and its total and what is lost make up the growth. */
  predicate Counted(m: Meter, counts: seq<nat>)
    requires Growing(counts)
  {
    if counts == [] then m.last == 0 && m.pulses == 0
    else m.last == counts[|counts| - 1] % WRAP && m.pulses + Lost(counts) + counts[0] == counts[|counts| - 1]
  }

  lemma CountFrame(m: Meter, f: Frame, counts: seq<nat>, n: nat)
    requires m.last < WRAP && Verdict(f) == Ok && Growing(counts) && n == |counts| - 1
    requires Growing(counts[..n]) && Counted(m, counts[..n]) && CfPulses(f) == counts[n] % WRAP
    ensures Counted(Process(m, f), counts)
  {
    if n > 0 {
      DifferenceIsGrowth(counts[n - 1], counts[n]);
    }
  }

  lemma FrontCounts(counts: seq<nat>, fs: seq<Frame>, front: seq<Frame>)
    requires counts != [] && TrueCounts(counts, fs) && front == fs[..|fs| - 1]
    ensures TrueCounts(counts[..|counts| - 1], front) && CfPulses(fs[|fs| - 1]) == counts[|counts| - 1] % WRAP
  {
    var n := |counts| - 1;
    assert Shows(fs[n], counts[n]);
    forall i | 0 <= i < n ensures Shows(front[i], counts[..n][i]) {
      assert Shows(fs[i], counts[i]);
    }
  }

  lemma {:induction false} FramesCounted(fs: seq<Frame>, counts: seq<nat>)
    requires TrueCounts(counts, Accepted(fs))
    ensures Counted(ProcessAll(Meter(0, 0, 0), fs), counts)
    decreases |fs|
  {
    if fs != [] {
      var (front, last, n) := (fs[..|fs| - 1], fs[|fs| - 1], |counts| - 1);
      if Verdict(last) == Ok {
        assert Accepted(fs)[..n] == Accepted(front);
        FrontCounts(counts, Accepted(fs), Accepted(front));
        FramesCounted(front, counts[..n]);
        CountFrame(ProcessAll(Meter(0, 0, 0), front), last, counts, n);
      } else {
        FramesCounted(front, counts);
      }
    }
  }

  /** After any frames, accepted or not, the meter holds the last accepted reading, and its total is
      the true growth less what grew after readings of 0. */
  lemma PulseConservation(fs: seq<Frame>, counts: seq<nat>)
    requires TrueCounts(counts, Accepted(fs))
    ensures var m := ProcessAll(Meter(0, 0, 0), fs);
            if counts == [] then m.last == 0 && m.pulses == 0
            else m.last == counts[|counts| - 1] % WRAP
                 && m.pulses + Lost(counts) + counts[0] == counts[|counts| - 1]
  {
    FramesCounted(fs, counts);
  }

  lemma {:induction false} NothingLost(counts: seq<nat>)
    requires forall i | 0 < i < |counts| :: counts[i - 1] <= counts[i]
    ensures Lost(counts) == 0
            <==> forall i | 0 < i < |counts| :: counts[i - 1] % WRAP == 0 ==> counts[i] == counts[i - 1]
    decreases |counts|
  {
    if |counts| > 1 {
      var n := |counts| - 1;
      NothingLost(counts[..n]);
      var front := counts[..n];
      assert forall i | 0 <= i < n :: front[i] == counts[i];
    }
  }

  /** The energy of one frame: its pulses times the coefficient in bytes 14 to 16, highest first. */
  lemma FrameEnergy(m: Meter, f: Frame)
    requires m.last < WRAP
    ensures var r := Process(m, f);
            && r.pulses >= m.pulses
            && r.energy == m.energy
                           + (r.pulses - m.pulses) * (0x1_0000 * f[14] as int + 0x100 * f[15] as int + f[16] as int)
  {
  }

  /** While the coefficient stays the same, the energy is the total of the pulses times it. */
  lemma {:induction false} EnergyIsPulses(fs: seq<Frame>, k: nat)
    requires forall i | 0 <= i < |fs| ::
               0x1_0000 * fs[i][14] as int + 0x100 * fs[i][15] as int + fs[i][16] as int == k
    ensures ProcessAll(Meter(0, 0, 0), fs).energy == k * ProcessAll(Meter(0, 0, 0), fs).pulses
    decreases |fs|
  {
    if fs != [] {
      var front := fs[..|fs| - 1];
      var m := ProcessAll(Meter(0, 0, 0), front);
      EnergyIsPulses(front, k);
      SameCoefficient(m, fs[|fs| - 1], k);
    }
  }

  lemma SameCoefficient(m: Meter, f: Frame, k: nat)
    requires m.last < WRAP && m.energy == k * m.pulses
    requires 0x1_0000 * f[14] as int + 0x100 * f[15] as int + f[16] as int == k
    ensures Process(m, f).energy == k * Process(m, f).pulses
  {
    FrameEnergy(m, f);
    Distribute(k, m.pulses, Process(m, f).pulses - m.pulses);
  }

  lemma Distribute(k: int, a: int, b: int)
    ensures k * (a + b) == k * a + b * k
  {
  }

  /** The total never exceeds the true growth, and equals it exactly when no accepted frame with a
      counter of 0 is followed by one with a larger count. */
  lemma TotalIsGrowthIff(fs: seq<Frame>, counts: seq<nat>)
    requires TrueCounts(counts, Accepted(fs)) && counts != []
    ensures var total := ProcessAll(Meter(0, 0, 0), fs).pulses;
            var growth: int := counts[|counts| - 1] as int - counts[0] as int;
            && total <= growth
            && (total == growth
                <==> forall i | 0 < i < |counts| :: counts[i - 1] % WRAP == 0 ==> counts[i] == counts[i - 1])
  {
    PulseConservation(fs, counts);
    NothingLost(counts);
  }
}

/** The driver object: it takes bytes as they arrive and feeds complete frames to the meter. */
module Cse7766 {
  import opened Words
  import opened Cse7766Frames
  import opened Cse7766Pulses

  class Cse7766 {
    const data: array<byte>
    var index: nat
    var last: int
    var cfPulsesLast: nat
    var pulses: nat
    var energy: nat
    var error: Status

    ghost predicate Valid()
      reads this, data
    {
      data.Length == FRAME && index < FRAME && LegalPrefix(data[..index]) && cfPulsesLast < WRAP
    }

    ghost function State(): (p: Parser)
      requires Valid()
      reads this, data
      ensures Legal(p)
    {
      Parser(data[..index], last)
    }

    ghost function Total(): (m: Meter)
      reads this
    {
      Meter(cfPulsesLast, pulses, energy)
    }

    constructor (now: int)
      ensures Valid() && State() == Parser([], now) && Total() == Meter(0, 0, 0) && fresh(data)
    {
      data := new byte[FRAME];
      index, last, cfPulsesLast, pulses, energy, error := 0, now, 0, 0, 0, Ok;
    }

    method ChecksumOk() returns (ok: bool)
      requires Valid()
      ensures ok <==> Checksum(data[..])
    {
      var checksum: int := 0;
      for i := 2 to 23
        invariant checksum == Sum(data[..], 2, i) % 0x100
      {
        checksum := (checksum + data[i] as int) % 0x100;
      }
      ok := checksum == data[23];
    }

    /** The counter of an accepted frame: 0 as last value starts afresh, a smaller value has wrapped. */
    method AddPulses(cfPulses: nat, coefP: nat)
      requires Valid() && cfPulses < WRAP
      modifies this`cfPulsesLast, this`pulses, this`energy
      ensures Valid()
      ensures var d := Difference(old(cfPulsesLast), cfPulses);
              Total() == Meter(cfPulses, old(pulses) + d, old(energy) + Charge(d, coefP))
    {
      if cfPulsesLast == 0 {
        cfPulsesLast := cfPulses;
      }
      var difference;
      if cfPulses < cfPulsesLast {
        difference := cfPulses + (0xFFFF - cfPulsesLast) + 1;
      } else {
        difference := cfPulses - cfPulsesLast;
      }
      pulses := pulses + difference;
      energy := energy + difference * coefP;
      cfPulsesLast := cfPulses;
    }

    /** A complete frame is checked and its pulses are added. */
    method ProcessFrame()
      requires Valid()
      modifies this`cfPulsesLast, this`pulses, this`energy, this`error
      ensures Valid() && Total() == Process(old(Total()), data[..])
      ensures error == if Verdict(data[..]) == Ok then old(error) else Verdict(data[..])
      ensures Verdict(data[..]) == Ok ==>
                && cfPulsesLast == 0x100 * data[21] as int + data[22] as int
                && energy == old(energy)
                             + (pulses - old(pulses))
                               * (0x1_0000 * data[14] as int + 0x100 * data[15] as int + data[16] as int)
    {
      ghost var m := Total();
      FrameEnergy(m, data[..]);
      var ok := ChecksumOk();
      if !ok {
        error := CrcError;
        return;
      }
      if data[0] == 0xAA {
        error := CalibrationError;
        return;
      }
      if data[0] - data[0] % 4 > 0xF0 {
        error := OtherError;
        return;
      }
      ghost var f := data[..];
      assert Verdict(f) == Ok;
      var coefP: nat := data[14] as int * 0x1_0000 + data[15] as int * 0x100 + data[16] as int;
      var cfPulses: nat := data[21] as int * 0x100 + data[22] as int;
      assert coefP == CoefP(f) && cfPulses == CfPulses(f);
      AddPulses(cfPulses, coefP);
    }

    /** One byte: silence first, then the header checks, then storing. */
    method Take(x: Timed)
      requires Valid()
      modifies this, data
      ensures Valid() && State() == Feed(old(State()), x).0
      ensures Total() == match Feed(old(State()), x).1
                         case None => old(Total())
                         case Some(f) => Process(old(Total()), f)
      ensures error == match Feed(old(State()), x).1
                       case None => old(error)
                       case Some(f) => if Verdict(f) == Ok then old(error) else Verdict(f)
    {
      ghost var kept := Kept(State(), x.time);
      if (x.time - last) % CLOCK > SYNC_INTERVAL {
        index := 0;
      }
      last := x.time;
      assert data[..index] == kept;
      if index == 0 {
        if x.data != 0x55 && x.data < 0xF0 {
          return;
        }
      } else if index == 1 {
        if x.data != 0x5A {
          index := 0;
          return;
        }
      }
      data[index] := x.data;
      index := index + 1;
      assert data[..index] == kept + [x.data];
      if index == FRAME {
        assert data[..] == data[..index];
        index := 0;
        ProcessFrame();
      }
    }

    /** Everything that has arrived; the error is that of the last frame refused in this call. */
    method Read(arrived: seq<Timed>)
      requires Valid()
      modifies this, data
      ensures Valid() && State() == After(old(State()), arrived, |arrived|)
      ensures Total() == ProcessAll(old(Total()), Frames(old(State()), arrived, |arrived|))
      ensures error == ErrorOf(Frames(old(State()), arrived, |arrived|))
    {
      error := Ok;
      ghost var p, m := State(), Total();
      for k := 0 to |arrived|
        invariant Valid() && State() == After(p, arrived, k)
        invariant Total() == ProcessAll(m, Frames(p, arrived, k))
        invariant error == ErrorOf(Frames(p, arrived, k))
      {
        ghost var fs := Frames(p, arrived, k);
        assert Emitted(p, arrived, k).Some? ==> (fs + [Emitted(p, arrived, k).value])[..|fs|] == fs;
        Take(arrived[k]);
      }
    }
  }
}
