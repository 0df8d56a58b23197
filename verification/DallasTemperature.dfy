/** The alarm search of the thermometer library: a second walk over the same tree of codes, with its
    own bookkeeping, and the proof that it simulates the search of the bus driver. */
module AlarmWalk {
  import opened Options
  import opened RomCode
  import opened RomSearch

  /** What `alarmSearch` keeps between calls; `junction` counts bits from 0, -1 stands for none. */
  datatype AlarmState = AlarmState(address: Code, junction: int, exhausted: bool)

  ghost predicate Initial(a: AlarmState) {
    a.junction == -1 && !a.exhausted
  }

  /** The fork at the remembered junction was met, or a later one was left at 0. */
  ghost predicate Moved(S: set<Code>, code: Code, junction: int, z: nat)
    requires -1 <= junction < BITS
  {
    z > junction + 1 || (junction >= 0 && Fork(S, code, junction))
  }

  /** One call with alarmed devices `S`. */
  ghost function AlarmCall(S: set<Code>, a: AlarmState): (AlarmState, Option<Code>)
    requires -1 <= a.junction < BITS
  {
    if a.exhausted || S == {} then (a, None)
    else
      var r := Chosen(S, a.address, a.junction + 1);
      var z := LastZero(S, r, BITS);
      (AlarmState(r, if Moved(S, r, a.junction, z) then z - 1 else a.junction, z == 0), Some(r))
  }

  /** A full pass from `a` over the devices `S` has settled the code `r` and left these marks. */
  ghost predicate PassFrom(S: set<Code>, a: AlarmState, r: Code, junction: int, done: bool)
    requires -1 <= a.junction < BITS && S != {}
  {
    var z := LastZero(S, r, BITS);
    && r == Chosen(S, a.address, a.junction + 1)
    && (done <==> z == 0)
    && junction == if Moved(S, r, a.junction, z) then z - 1 else a.junction
  }

  lemma PassIsCall(S: set<Code>, a: AlarmState, r: Code, junction: int, done: bool)
    requires -1 <= a.junction < BITS && S != {} && !a.exhausted && PassFrom(S, a, r, junction, done)
    ensures AlarmCall(S, a) == (AlarmState(r, junction, done), Some(r))
  {
  }

  ghost function AlarmAfter(S: set<Code>, a: AlarmState, k: nat): (r: AlarmState)
    requires -1 <= a.junction < BITS
    ensures -1 <= r.junction < BITS
  {
    if k == 0 then a else AlarmCall(S, AlarmAfter(S, a, k - 1)).0
  }

  ghost function AlarmReported(S: set<Code>, a: AlarmState, k: nat): Option<Code>
    requires -1 <= a.junction < BITS
  {
    AlarmCall(S, AlarmAfter(S, a, k)).1
  }

  // ----- Inside one pass -----

  /** The junction after `w.n` bits of a pass that started with `junction`. */
  ghost predicate JunctionAt(w: Walk, junction: int, current: int)
    requires -1 <= junction < BITS
  {
    current == if w.n > junction && Moved(w.S, w.code, junction, w.z) then w.z - 1 else junction
  }

  lemma JunctionStep(w: Walk, junction: int, current: int)
    requires -1 <= junction < BITS && w.Valid() && w.n < BITS && w.ld == junction + 1
    requires JunctionAt(w, junction, current)
    ensures var fork := !AllOnes(w.selected, w.n) && !AllZeros(w.selected, w.n);
            JunctionAt(w.Next(), junction,
                       if fork && w.n == current then w.z - 1
                       else if fork && w.n > current then w.n
                       else current)
  {
    var next := w.Next();
    SelectionStep(w.S, w.n, w.code, w.selected, w.Dir());
    assert Agree(w.code, next.code, w.n);
    ForkAgrees(w.S, w.code, next.code, w.n);
    if 0 <= junction < w.n {
      ForkAgrees(w.S, w.code, next.code, junction);
    }
  }

  // ----- Runs -----

  /** The state in which `q[i]` was the last device reported. */
  ghost predicate AlarmAt(S: set<Code>, q: seq<Code>, i: nat, a: AlarmState)
    requires i < |q|
  {
    a.address == q[i] && a.junction + 1 == LastZero(S, q[i], BITS) && (a.exhausted <==> i == |q| - 1)
  }

  lemma AlarmFirstStep(S: set<Code>, a: AlarmState, q: seq<Code>)
    requires Initial(a) && Lists(q, S) && S != {}
    ensures |q| > 0 && AlarmCall(S, a).1 == Some(q[0]) && AlarmAt(S, q, 0, AlarmCall(S, a).0)
  {
    FirstOfListing(S, q, a.address);
    LastOfListing(S, q, 0);
  }

  lemma AlarmNextStep(S: set<Code>, a: AlarmState, q: seq<Code>, i: nat)
    requires Lists(q, S) && i + 1 < |q| && AlarmAt(S, q, i, a)
    ensures AlarmCall(S, a).1 == Some(q[i + 1]) && AlarmAt(S, q, i + 1, AlarmCall(S, a).0)
  {
    LastOfListing(S, q, i);
    NeighbourIsSuccessor(S, q, i);
    LastOfListing(S, q, i + 1);
    ResumedPassTurns(S, q[i]);
    ForkAgrees(S, q[i], q[i + 1], a.junction);
  }

  lemma {:induction false} AlarmProgress(S: set<Code>, a: AlarmState, q: seq<Code>, k: nat)
    requires Initial(a) && Lists(q, S) && k < |q|
    ensures AlarmReported(S, a, k) == Some(q[k]) && AlarmAt(S, q, k, AlarmAfter(S, a, k + 1))
    decreases k
  {
    assert q[0] in S;
    if k == 0 {
      AlarmFirstStep(S, a, q);
      assert AlarmAfter(S, a, 0) == a;
    } else {
      AlarmProgress(S, a, q, k - 1);
      AlarmNextStep(S, AlarmAfter(S, a, k), q, k - 1);
    }
  }

  lemma {:induction false} NothingAfterLast(S: set<Code>, a: AlarmState, q: seq<Code>, k: nat)
    requires Initial(a) && Lists(q, S) && k >= |q|
    ensures AlarmReported(S, a, k) == None
    ensures S != {} ==> AlarmAfter(S, a, k).exhausted
    decreases k
  {
    if S == {} {
      assert AlarmCall(S, AlarmAfter(S, a, k)).1 == None;
    } else {
      AlarmFirstStep(S, a, q);
      if k == |q| {
        AlarmProgress(S, a, q, k - 1);
      } else {
        NothingAfterLast(S, a, q, k - 1);
      }
    }
  }

  /** Every alarmed device is reported once, in ascending order, and then nothing ever again. */
  lemma AlarmEnumeration(S: set<Code>, a: AlarmState, q: seq<Code>, k: nat)
    requires Initial(a) && Lists(q, S)
    ensures AlarmReported(S, a, k) == if k < |q| then Some(q[k]) else None
  {
    if k < |q| {
      AlarmProgress(S, a, q, k);
    } else {
      NothingAfterLast(S, a, q, k);
    }
  }

  /** Both searches have last reported the same device and stand at the same fork (counted from 0
      and from 1), with the same end mark. */
  predicate InStep(st: SearchState, a: AlarmState) {
    st.rom == a.address && st.lastDiscrepancy == a.junction + 1 && st.lastDevice == a.exhausted
  }

  lemma BothAt(S: set<Code>, q: seq<Code>, k: nat, st: SearchState, a: AlarmState)
    requires k < |q| && At(S, q, k, st) && AlarmAt(S, q, k, a)
    ensures InStep(st, a)
  {
  }

  /** Simulation: as long as there are devices to report, the two searches report the same ones and
      are in step after every call that reports one. */
  lemma AlarmSimulatesSearch(S: set<Code>, st: SearchState, a: AlarmState, q: seq<Code>, k: nat)
    requires Cleared(st) && Initial(a) && Lists(q, S) && NoZeroFamily(S) && k < |q|
    ensures Reported(S, st, k) == AlarmReported(S, a, k)
    ensures InStep(After(S, st, k + 1), AlarmAfter(S, a, k + 1))
  {
    Progress(S, st, q, k);
    AlarmProgress(S, a, q, k);
    BothAt(S, q, k, After(S, st, k + 1), AlarmAfter(S, a, k + 1));
  }

  /** The alarm search does not refuse family byte 0. So the two searches report the same over a whole
      cycle, the closing empty call included, exactly when no device has that family byte. */
  lemma AlarmAgreesIff(S: set<Code>, st: SearchState, a: AlarmState, q: seq<Code>)
    requires Cleared(st) && Initial(a) && Lists(q, S)
    ensures NoZeroFamily(S) <==> forall k | 0 <= k <= |q| :: Reported(S, st, k) == AlarmReported(S, a, k)
  {
    if NoZeroFamily(S) {
      forall k | 0 <= k <= |q| ensures Reported(S, st, k) == AlarmReported(S, a, k) {
        Enumeration(S, st, q);
        AlarmEnumeration(S, a, q, k);
      }
    } else {
      var z :| z in S && ZeroFamily(z);
      assert z in q;
      ZeroFamilyHidesAll(S, st, z, 0);
      AlarmEnumeration(S, a, q, 0);
    }
  }
}

/** Device bookkeeping of the thermometer library on top of the bus driver. */
module DallasTemperature {
  import opened Options
  import opened RomCode
  import opened RomBytes
  import opened RomSearch
  import opened RomFamily
  import opened OneWireBus
  import opened OneWire
  import opened AlarmWalk
  import Words
  import Crc8

  function Numbers(r: seq<bv8>): (m: seq<Words.byte>)
    ensures |m| == |r| && forall i | 0 <= i < |r| :: m[i] == r[i] as int
  {
    seq(|r|, i requires 0 <= i < |r| => r[i] as int)
  }

  /** Eight bits, least significant first, as a number. */
  function Weigh(b0: bool, b1: bool, b2: bool, b3: bool, b4: bool, b5: bool, b6: bool, b7: bool): Words.byte {
    (if b0 then 1 else 0) + (if b1 then 2 else 0) + (if b2 then 4 else 0) + (if b3 then 8 else 0)
    + (if b4 then 16 else 0) + (if b5 then 32 else 0) + (if b6 then 64 else 0) + (if b7 then 128 else 0)
  }

  /** Byte `k` of a code as a number. */
  function CodeByte(c: Code, k: nat): Words.byte
    requires k < 8
  {
    var b := 8 * k;
    Weigh(c[b], c[b + 1], c[b + 2], c[b + 3], c[b + 4], c[b + 5], c[b + 6], c[b + 7])
  }

  function CodeBytes(c: Code): (m: seq<Words.byte>)
    ensures |m| == 8
  {
    seq(8, k requires 0 <= k < 8 => CodeByte(c, k))
  }

  /** A code whose last byte is the CRC of the others. */
  predicate ValidCode(c: Code) {
    Crc8.ValidAddress(CodeBytes(c))
  }

  /** Place `index` of a listing holds a valid code. */
  predicate ValidPlace(q: seq<Code>, index: nat) {
    index < |q| && ValidCode(q[index])
  }

  lemma ByteByBits(x: bv8)
    ensures x as int == Weigh(x & 1 != 0, x & 2 != 0, x & 4 != 0, x & 8 != 0,
                              x & 16 != 0, x & 32 != 0, x & 64 != 0, x & 128 != 0)
  {
  }

  /** `c` holds the bits of `x` from `b` on. */
  ghost predicate Holds(c: Code, b: nat, x: bv8)
    requires b + 8 <= BITS
  {
    && c[b] == (x & 1 != 0) && c[b + 1] == (x & 2 != 0) && c[b + 2] == (x & 4 != 0) && c[b + 3] == (x & 8 != 0)
    && c[b + 4] == (x & 16 != 0) && c[b + 5] == (x & 32 != 0) && c[b + 6] == (x & 64 != 0) && c[b + 7] == (x & 128 != 0)
  }

  ghost predicate Masked(c: Code, b: nat, x: bv8, l: nat)
    requires b + 8 <= BITS && l < 8
  {
    c[b + l] == (x & Mask(l) != 0)
  }

  lemma MaskedHold(c: Code, b: nat, x: bv8)
    requires b + 8 <= BITS && forall l | 0 <= l < 8 :: Masked(c, b, x, l)
    ensures Holds(c, b, x)
  {
    assert Masked(c, b, x, 0) && Masked(c, b, x, 1) && Masked(c, b, x, 2) && Masked(c, b, x, 3);
    assert Masked(c, b, x, 4) && Masked(c, b, x, 5) && Masked(c, b, x, 6) && Masked(c, b, x, 7);
  }

  lemma BitsHold(r: seq<bv8>, k: nat, c: Code, x: bv8)
    requires |r| == 8 && k < 8 && c == Bits(r) && x == r[k]
    ensures Holds(c, 8 * k, x)
  {
    forall l | 0 <= l < 8 ensures Masked(c, 8 * k, x, l) { BitOfByte(r, k, l); }
    MaskedHold(c, 8 * k, x);
  }

  lemma HeldByte(c: Code, k: nat, x: bv8)
    requires k < 8 && Holds(c, 8 * k, x)
    ensures CodeByte(c, k) == x as int
  {
    ByteByBits(x);
  }

  lemma CodeByteOfBytes(r: seq<bv8>, k: nat)
    requires |r| == 8 && k < 8
    ensures CodeByte(Bits(r), k) == r[k] as int
  {
    BitsHold(r, k, Bits(r), r[k]);
    HeldByte(Bits(r), k, r[k]);
  }

  lemma CodeBytesOfBytes(r: seq<bv8>)
    requires |r| == 8
    ensures CodeBytes(Bits(r)) == Numbers(r)
  {
    forall k | 0 <= k < 8 ensures CodeBytes(Bits(r))[k] == Numbers(r)[k] { CodeByteOfBytes(r, k); }
  }

  /** The CRC tells a code from its twin. */
  lemma TwinIsInvalid(c: Code)
    requires ValidCode(c)
    ensures !ValidCode(Twin(c))
  {
    var (m, n) := (CodeBytes(c), CodeBytes(Twin(c)));
    forall k | 0 <= k < 7 ensures n[k] == m[k] {
      assert CodeByte(Twin(c), k) == CodeByte(c, k);
    }
    assert n == m[7 := n[7]];
    Crc8.OneByteCorruption(m, 7, n[7]);
  }

  /** With valid codes on the wire, a targeted search lists the whole family, each device once and in order. */
  lemma ValidFamilyListed(S: set<Code>, st: SearchState, q: seq<Code>, i: nat, n: nat)
    requires Targeted(st) && Lists(q, S) && FamilyAt(q, st.rom, i, n)
    requires forall c | c in S :: ValidCode(c)
    ensures forall k | 0 <= k < n :: Reported(S, st, k) == Some(q[i + k])
  {
    assert q[i] in S;
    TwinIsInvalid(q[i]);
    FamilyListedIff(S, st, q, i, n);
  }

  class DallasTemperature {
    const wire: OneWire
    const alarmSearchAddress: array<bv8>
    var alarmSearchJunction: int
    var alarmSearchExhausted: bool
    var devices: nat

    ghost predicate Valid()
      reads this, wire
    {
      && wire.Valid()
      && alarmSearchAddress.Length == 8 && alarmSearchAddress != wire.romNo
      && -1 <= alarmSearchJunction < BITS
    }

    ghost function Alarm(): (a: AlarmState)
      requires Valid()
      reads this, wire, alarmSearchAddress
      ensures -1 <= a.junction < BITS
    {
      AlarmState(Bits(alarmSearchAddress[..]), alarmSearchJunction, alarmSearchExhausted)
    }

    constructor (wire: OneWire)
      requires wire.Valid()
      ensures Valid() && Initial(Alarm()) && this.wire == wire && fresh(alarmSearchAddress)
    {
      this.wire := wire;
      alarmSearchAddress := new bv8[8];
      alarmSearchJunction, alarmSearchExhausted, devices := -1, false, 0;
    }

    /** Clears the junction and seven of the eight address bytes. */
    method ResetAlarmSearch()
      requires Valid()
      modifies this`alarmSearchJunction, this`alarmSearchExhausted, alarmSearchAddress
      ensures Valid() && Initial(Alarm())
      ensures forall j | 0 <= j < 7 :: alarmSearchAddress[j] == 0
      ensures alarmSearchAddress[7] == old(alarmSearchAddress[7])
    {
      alarmSearchJunction, alarmSearchExhausted := -1, false;
      for i := 0 to 7
        modifies alarmSearchAddress
        invariant forall j | 0 <= j < i :: alarmSearchAddress[j] == 0
        invariant alarmSearchAddress[7] == old(alarmSearchAddress[7])
      {
        alarmSearchAddress[i] := 0;
      }
    }

    method StoreBit(byte: nat, mask: bv8, v: bool, ghost k: nat)
      requires Valid() && byte < 8 && k < 8 && mask == Mask(k)
      modifies alarmSearchAddress
      ensures Bits(alarmSearchAddress[..]) == old(Bits(alarmSearchAddress[..]))[8 * byte + k := v]
    {
      if v {
        alarmSearchAddress[byte] := alarmSearchAddress[byte] | mask;
      } else {
        alarmSearchAddress[byte] := alarmSearchAddress[byte] & !mask;
      }
      PutBit(old(alarmSearchAddress[..]), byte, k, v, alarmSearchAddress[..]);
    }

    /** The branch after both answers `a` and `nota`, and what it leaves in the junction. */
    method AlarmDecide(i: nat, a: bool, nota: bool, lastJunction: int, ghost w: Walk)
      returns (direction: bool, zeroTaken: bool, lastJunction': int)
      requires Valid() && i == w.n < BITS && a == AllOnes(w.selected, w.n) && nota == AllZeros(w.selected, w.n)
      requires !(a && nota) && (alarmSearchAddress[i / 8] & Mask(i % 8) != 0) == w.prefer[i]
      requires w.n < w.ld ==> alarmSearchJunction == w.ld - 1 && lastJunction == w.z - 1
      requires w.n >= w.ld ==> alarmSearchJunction < i
      requires w.z <= w.n
      modifies this`alarmSearchJunction
      ensures Valid() && direction == w.Dir() && zeroTaken == w.ZeroTaken()
      ensures w.n + 1 < w.ld ==> lastJunction' == w.Next().z - 1
      ensures alarmSearchJunction == if !a && !nota && i == old(alarmSearchJunction) then w.z - 1
                                     else if !a && !nota && i > old(alarmSearchJunction) then i
                                     else old(alarmSearchJunction)
    {
      direction, lastJunction', zeroTaken := a, lastJunction, false;
      if !a && !nota {
        if i == alarmSearchJunction {
          direction := true;
          alarmSearchJunction := lastJunction;
        } else if i < alarmSearchJunction {
          if alarmSearchAddress[i / 8] & Mask(i % 8) != 0 {
            direction := true;
          } else {
            direction := false;
            zeroTaken := true;
            lastJunction' := i;
          }
        } else {
          direction := false;
          alarmSearchJunction := i;
          zeroTaken := true;
        }
      }
    }

    /** The bit is stored and written to the wire. */
    method TakeBit(i: nat, direction: bool, ghost w: Walk)
      requires Valid() && i == w.n < BITS && wire.bus.Ready(w.selected, w.n) && direction == w.Dir()
      requires w.code == Bits(alarmSearchAddress[..])
      modifies alarmSearchAddress, wire.bus
      ensures wire.bus.Ready(w.Next().selected, w.n + 1) && Bits(alarmSearchAddress[..]) == w.Next().code
    {
      StoreBit(i / 8, Mask(i % 8), direction, i % 8);
      wire.bus.WriteBit(direction);
    }

    /** One bit of the pass: both answers, the branch at a fork, the stored and written bit. */
    method AlarmBit(i: nat, lastJunction: int, ghost w: Walk)
      returns (answered: bool, zeroTaken: bool, lastJunction': int)
      requires Valid() && i == w.n < BITS && wire.bus.Ready(w.selected, w.n)
      requires w.code == Bits(alarmSearchAddress[..]) && w.code[i] == w.prefer[i]
      requires w.n < w.ld ==> alarmSearchJunction == w.ld - 1 && lastJunction == w.z - 1
      requires w.n >= w.ld ==> alarmSearchJunction < i
      requires w.z <= w.n
      modifies this`alarmSearchJunction, alarmSearchAddress, wire.bus
      ensures Valid()
      ensures answered <==> !(AllOnes(w.selected, w.n) && AllZeros(w.selected, w.n))
      ensures !answered ==> Bits(alarmSearchAddress[..]) == w.code && alarmSearchJunction == old(alarmSearchJunction)
      ensures var fork := !AllOnes(w.selected, w.n) && !AllZeros(w.selected, w.n);
              answered ==>
                && zeroTaken == w.ZeroTaken()
                && wire.bus.Ready(w.Next().selected, w.n + 1) && Bits(alarmSearchAddress[..]) == w.Next().code
                && (w.n + 1 < w.ld ==> lastJunction' == w.Next().z - 1)
                && alarmSearchJunction == if fork && i == old(alarmSearchJunction) then w.z - 1
                                          else if fork && i > old(alarmSearchJunction) then i
                                          else old(alarmSearchJunction)
    {
      lastJunction', zeroTaken := lastJunction, false;
      var a := wire.bus.ReadBit();
      var nota := wire.bus.ReadBit();
      answered := !(a && nota);
      if answered {
        var direction;
        BitOfByte(alarmSearchAddress[..], i / 8, i % 8);
        direction, zeroTaken, lastJunction' := AlarmDecide(i, a, nota, lastJunction, w);
        TakeBit(i, direction, w);
      }
    }

    /** The bookkeeping of a pass that started at `junction` and has settled the bits of `w`. */
    ghost predicate Tracks(w: Walk, junction: int, lastJunction: int, done: bool)
      requires Valid()
      reads this, wire, wire.bus, alarmSearchAddress
    {
      && -1 <= junction < BITS && w.ld == junction + 1
      && w.n <= BITS && wire.bus.Ready(w.selected, w.n) && w.code == Bits(alarmSearchAddress[..])
      && (forall j | w.n <= j < BITS :: w.code[j] == w.prefer[j])
      && (if w.n < w.ld then alarmSearchJunction == junction && lastJunction == w.z - 1 else alarmSearchJunction < w.n)
      && w.z <= w.n && (done <==> w.z == 0)
      && (w.S != {} ==> w.Valid() && JunctionAt(w, junction, alarmSearchJunction))
      && (w.S == {} ==> w.n == 0 && w.selected == {})
    }

    method AlarmStep(i: nat, lastJunction: int, done: bool, ghost w: Walk, ghost junction: int)
      returns (answered: bool, lastJunction': int, done': bool)
      requires Valid() && Tracks(w, junction, lastJunction, done) && i == w.n < BITS
      modifies this`alarmSearchJunction, alarmSearchAddress, wire.bus
      ensures Valid()
      ensures answered <==> w.S != {}
      ensures answered ==> Tracks(w.Next(), junction, lastJunction', done')
      ensures !answered ==> Alarm() == old(Alarm())
    {
      var zeroTaken;
      answered, zeroTaken, lastJunction' := AlarmBit(i, lastJunction, w);
      done' := done && !zeroTaken;
      if answered {
        assert w.S != {} && w.Valid();
        JunctionStep(w, junction, old(alarmSearchJunction));
        WalkStep(w);
      } else {
        SomeAnswer(w);
      }
    }

    /** The 64 bits of a pass; `complete` is false when nobody answered. */
    method AlarmPass() returns (complete: bool, done: bool)
      requires Valid() && wire.bus.Ready(wire.bus.selected, 0)
      modifies this`alarmSearchJunction, alarmSearchAddress, wire.bus
      ensures Valid()
      ensures old(wire.bus.selected) == {} ==> !complete && Alarm() == old(Alarm())
      ensures var S, a := old(wire.bus.selected), old(Alarm());
              S != {} ==> complete && PassFrom(S, a, Bits(alarmSearchAddress[..]), alarmSearchJunction, done)
    {
      done, complete := true, false;
      var lastJunction := -1;
      ghost var S, junction, code := wire.bus.selected, alarmSearchJunction, Bits(alarmSearchAddress[..]);
      ghost var w := Walk(S, code, junction + 1, 0, code, S, 0, 0);
      if S != {} { WalkStart(S, code, junction + 1); }
      for i := 0 to 64
        invariant Valid() && w.n == i && w.S == S && w.prefer == code
        invariant Tracks(w, junction, lastJunction, done)
        invariant S == {} ==> Alarm() == old(Alarm())
      {
        var answered;
        answered, lastJunction, done := AlarmStep(i, lastJunction, done, w, junction);
        if !answered {
          return;
        }
        w := w.Next();
      }
      WalkEnd(w);
      complete := true;
    }

    method CopyAddress(newAddr: array<bv8>)
      requires Valid() && newAddr.Length == 8 && newAddr != alarmSearchAddress
      modifies newAddr
      ensures newAddr[..] == alarmSearchAddress[..]
    {
      for i := 0 to 8
        invariant newAddr[..i] == alarmSearchAddress[..i]
      {
        newAddr[i] := alarmSearchAddress[i];
      }
      assert newAddr[..] == newAddr[..8] && alarmSearchAddress[..] == alarmSearchAddress[..8];
    }

    /** The call without the copy to the caller. */
    method AlarmNext() returns (found: bool)
      requires Valid()
      modifies this`alarmSearchJunction, this`alarmSearchExhausted, alarmSearchAddress, wire.bus
      ensures Valid()
      ensures var (a, reported) := AlarmCall(wire.bus.alarmed, old(Alarm()));
              Alarm() == a && found == reported.Some? && (found ==> a.address == reported.value)
    {
      if alarmSearchExhausted {
        return false;
      }
      var presence := wire.bus.Reset();
      if !presence {
        assert wire.bus.alarmed <= wire.bus.present == {};
        return false;
      }
      wire.bus.Write(ALARM_SEARCH);
      var complete, done := AlarmPass();
      if complete {
        PassIsCall(wire.bus.alarmed, old(Alarm()), Bits(alarmSearchAddress[..]), alarmSearchJunction, done);
        if done {
          alarmSearchExhausted := true;
        }
      }
      return complete;
    }

    method AlarmSearch(newAddr: array<bv8>) returns (found: bool)
      requires Valid() && newAddr.Length == 8 && newAddr != alarmSearchAddress
      modifies this`alarmSearchJunction, this`alarmSearchExhausted, alarmSearchAddress, newAddr, wire.bus
      ensures Valid()
      ensures var (a, reported) := AlarmCall(wire.bus.alarmed, old(Alarm()));
              && Alarm() == a
              && found == reported.Some?
              && if found then Bits(newAddr[..]) == reported.value else newAddr[..] == old(newAddr[..])
    {
      found := AlarmNext();
      if found {
        CopyAddress(newAddr);
      }
    }

    // ----- Addresses -----

    method ValidAddress(deviceAddress: array<bv8>) returns (ok: bool)
      requires deviceAddress.Length == 8
      ensures ok <==> ValidCode(Bits(deviceAddress[..]))
    {
      CodeBytesOfBytes(deviceAddress[..]);
      var crc := Crc8.Crc8Table(Numbers(deviceAddress[..7]));
      assert Numbers(deviceAddress[..])[..7] == Numbers(deviceAddress[..7]);
      ok := crc == deviceAddress[7] as int;
    }

    /** The first `k` places of the listing `q` of the bus have been reported. */
    ghost predicate Standing(q: seq<Code>, k: nat)
      requires Valid()
      reads this, wire, wire.romNo, wire.bus
    {
      StandsAt(wire.bus.present, q, k, wire.State())
    }

    method SearchCall(deviceAddress: array<bv8>, k: nat, ghost q: seq<Code>) returns (more: bool)
      requires Valid() && deviceAddress.Length == 8 && deviceAddress != wire.romNo && Standing(q, k)
      modifies wire, wire.romNo, wire.bus, deviceAddress
      ensures Valid()
      ensures more <==> NoZeroFamily(wire.bus.present) && k < |q|
      ensures more ==> Standing(q, k + 1) && Bits(deviceAddress[..]) == q[k]
    {
      CallAt(wire.bus.present, q, k, wire.State());
      more := wire.Search(deviceAddress, true);
    }

    /** A search call, and the check of its address if it is the one asked for. */
    method SearchAndCheck(deviceAddress: array<bv8>, k: nat, index: nat, ghost q: seq<Code>)
      returns (more: bool, hit: bool)
      requires Valid() && deviceAddress.Length == 8 && deviceAddress != wire.romNo && Standing(q, k)
      modifies wire, wire.romNo, wire.bus, deviceAddress
      ensures Valid()
      ensures more <==> NoZeroFamily(wire.bus.present) && k < |q|
      ensures hit <==> more && k == index && ValidPlace(q, index)
      ensures more ==> Standing(q, k + 1) && Bits(deviceAddress[..]) == q[k]
    {
      more := SearchCall(deviceAddress, k, q);
      hit := false;
      if more && k == index {
        hit := ValidAddress(deviceAddress);
      }
    }

    /** The calls of `GetAddress`. */
    method FindPlace(deviceAddress: array<bv8>, index: nat, ghost q: seq<Code>) returns (found: bool)
      requires Valid() && deviceAddress.Length == 8 && deviceAddress != wire.romNo && Standing(q, 0)
      modifies wire, wire.romNo, wire.bus, deviceAddress
      ensures Valid()
      ensures found <==> NoZeroFamily(wire.bus.present) && ValidPlace(q, index)
      ensures found ==> Bits(deviceAddress[..]) == q[index]
    {
      var depth := 0;
      while depth <= index
        invariant depth <= index + 1 && Valid() && Standing(q, depth)
        invariant depth == index + 1 ==> !ValidPlace(q, index)
        decreases index + 1 - depth
      {
        var more, hit := SearchAndCheck(deviceAddress, depth, index, q);
        if hit || !more {
          return hit;
        }
        depth := depth + 1;
      }
      return false;
    }

    /** Finds a device by its place in the search order: place `index` of the ascending listing `q` of
        the bus, provided that code is valid. */
    method GetAddress(deviceAddress: array<bv8>, index: nat, ghost q: seq<Code>) returns (found: bool)
      requires Valid() && deviceAddress.Length == 8 && deviceAddress != wire.romNo
      requires Lists(q, wire.bus.present)
      modifies wire, wire.romNo, wire.bus, deviceAddress
      ensures Valid()
      ensures found <==> index < devices && NoZeroFamily(wire.bus.present) && ValidPlace(q, index)
      ensures found ==> Bits(deviceAddress[..]) == q[index]
    {
      if index >= devices {
        return false;
      }
      wire.ResetSearch();
      found := FindPlace(deviceAddress, index, q);
    }
  }

  /** The first `k` devices of the listing `q` have been reported from a cleared state. */
  ghost predicate StandsAt(S: set<Code>, q: seq<Code>, k: nat, st: SearchState) {
    && Lists(q, S) && k <= |q|
    && if k == 0 then Cleared(st) else NoZeroFamily(S) && At(S, q, k - 1, st)
  }

  /** The next call reports place `k`, as long as there is one and no family byte is 0. */
  lemma CallAt(S: set<Code>, q: seq<Code>, k: nat, st: SearchState)
    requires StandsAt(S, q, k, st)
    ensures var (next, reported) := Call(S, st);
            if NoZeroFamily(S) && k < |q| then reported == Some(q[k]) && StandsAt(S, q, k + 1, next)
            else reported == None
  {
    if !NoZeroFamily(S) {
      var z :| z in S && ZeroFamily(z);
      ZeroFamilyIsRefused(S, st, z);
    } else if 0 < k < |q| {
      assert q[k] in S;
      NextStep(S, st, q, k - 1);
    } else if k < |q| {
      assert q[0] in S;
      FirstStep(S, st, q);
    }
  }

  /** With devices selected, some bit is answered. */
  lemma SomeAnswer(w: Walk)
    requires w.n < BITS
    ensures AllOnes(w.selected, w.n) && AllZeros(w.selected, w.n) <==> w.selected == {}
  {
    if c :| c in w.selected {
      assert c[w.n] || !c[w.n];
    }
  }
}
