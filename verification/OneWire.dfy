/** ROM codes in the master's memory: eight bytes, bit by bit behind a moving mask. */
module RomBytes {
  import opened RomCode
  import opened RomSearch

  function Mask(k: nat): bv8
    requires k < 8
  {
    [1, 2, 4, 8, 16, 32, 64, 128][k]
  }

  predicate Bit(r: seq<bv8>, i: nat)
    requires i < 8 * |r|
  {
    r[i / 8] & Mask(i % 8) != 0
  }

  function FirstBits(r: seq<bv8>, n: nat): (c: seq<bool>)
    requires n <= 8 * |r|
    ensures |c| == n
  {
    if n == 0 then [] else FirstBits(r, n - 1) + [Bit(r, n - 1)]
  }

  /** The code that eight bytes stand for. */
  function Bits(r: seq<bv8>): (c: Code)
    requires |r| == 8
  {
    FirstBits(r, BITS)
  }

  lemma {:induction false} FirstBitsAt(r: seq<bv8>, n: nat, i: nat)
    requires i < n <= 8 * |r|
    ensures FirstBits(r, n)[i] == Bit(r, i)
    decreases n
  {
    if i < n - 1 { FirstBitsAt(r, n - 1, i); }
  }

  /** The byte with the bits of `mask` set or cleared. */
  function Put(b: bv8, mask: bv8, v: bool): bv8 {
    if v then b | mask else b & !mask
  }

  lemma PutEffect(b: bv8, v: bool, k: nat, l: nat)
    requires k < 8 && l < 8
    ensures (Put(b, Mask(k), v) & Mask(l) != 0) == if k == l then v else b & Mask(l) != 0
  {
    if k == 0 {} else if k == 1 {} else if k == 2 {} else if k == 3 {}
    else if k == 4 {} else if k == 5 {} else if k == 6 {} else {}
  }

  lemma BitOfByte(r: seq<bv8>, byte: nat, k: nat)
    requires |r| == 8 && byte < 8 && k < 8
    ensures Bits(r)[8 * byte + k] == (r[byte] & Mask(k) != 0)
  {
    FirstBitsAt(r, BITS, 8 * byte + k);
    assert (8 * byte + k) / 8 == byte && (8 * byte + k) % 8 == k;
  }

  lemma PutBitAt(r: seq<bv8>, byte: nat, k: nat, v: bool, s: seq<bv8>, b: nat, l: nat)
    requires |r| == 8 && byte < 8 && k < 8 && s == r[byte := Put(r[byte], Mask(k), v)] && b < 8 && l < 8
    ensures Bits(s)[8 * b + l] == if b == byte && l == k then v else Bits(r)[8 * b + l]
  {
    BitOfByte(r, b, l);
    BitOfByte(s, b, l);
    PutEffect(r[byte], v, k, l);
  }

  /** Writing one bit of the bytes changes that bit of the code and no other. */
  lemma PutBit(r: seq<bv8>, byte: nat, k: nat, v: bool, s: seq<bv8>)
    requires |r| == 8 && byte < 8 && k < 8 && s == r[byte := Put(r[byte], Mask(k), v)]
    ensures Bits(s) == Bits(r)[8 * byte + k := v]
  {
    forall j | 0 <= j < BITS
      ensures Bits(s)[j] == if j == 8 * byte + k then v else Bits(r)[j]
    {
      var (b, l) := (j / 8, j % 8);
      assert j == 8 * b + l && (j == 8 * byte + k <==> b == byte && l == k);
      PutBitAt(r, byte, k, v, s, b, l);
    }
  }

  lemma ShiftedMask(k: nat)
    requires k < 8
    ensures Mask(k) != 0 && Mask(k) << 1 == if k == 7 then 0 else Mask(k + 1)
  {
    if k == 0 {} else if k == 1 {} else if k == 2 {} else if k == 3 {}
    else if k == 4 {} else if k == 5 {} else if k == 6 {} else {}
  }

  lemma SameByte(b: bv8, c: bv8)
    requires forall k | 0 <= k < 8 :: (b & Mask(k) != 0) == (c & Mask(k) != 0)
    ensures b == c
  {
    assert (b & Mask(0) != 0) == (c & Mask(0) != 0);
    assert (b & Mask(1) != 0) == (c & Mask(1) != 0);
    assert (b & Mask(2) != 0) == (c & Mask(2) != 0);
    assert (b & Mask(3) != 0) == (c & Mask(3) != 0);
    assert (b & Mask(4) != 0) == (c & Mask(4) != 0);
    assert (b & Mask(5) != 0) == (c & Mask(5) != 0);
    assert (b & Mask(6) != 0) == (c & Mask(6) != 0);
    assert (b & Mask(7) != 0) == (c & Mask(7) != 0);
  }

  /** Bytes of 0 are bits of 0. */
  lemma ZeroBytes(r: seq<bv8>)
    requires |r| == 8 && forall k | 1 <= k < 8 :: r[k] == 0
    ensures forall i | 8 <= i < BITS :: !Bits(r)[i]
  {
    forall i | 8 <= i < BITS ensures !Bits(r)[i] {
      var (k, l) := (i / 8, i % 8);
      assert i == 8 * k + l && 1 <= k < 8;
      BitOfByte(r, k, l);
      PutEffect(0, false, l, l);
    }
  }

  /** The family byte is 0 exactly when the first eight bits are. */
  lemma FamilyByte(r: seq<bv8>)
    requires |r| == 8
    ensures ZeroFamily(Bits(r)) <==> r[0] == 0
  {
    forall l | 0 <= l < 8 ensures Bits(r)[l] == (r[0] & Mask(l) != 0) { BitOfByte(r, 0, l); }
    if ZeroFamily(Bits(r)) {
      forall l | 0 <= l < 8 ensures (r[0] & Mask(l) != 0) == (0 & Mask(l) != 0) {
        assert !Bits(r)[l];
      }
      SameByte(r[0], 0);
    }
  }
}

/** The wire and the devices on it. A device answers bit slot by bit slot: its bit, then the
    complement, then it listens and drops out when the master writes the other bit. The wire is
    low as soon as one answering device pulls it low. */
module OneWireBus {
  import opened RomCode
  import opened RomSearch

  const SEARCH_ROM: bv8 := 0xF0
  const ALARM_SEARCH: bv8 := 0xEC

  class Bus {
    const present: set<Code>
    const alarmed: set<Code>
    var selected: set<Code>
    var slot: nat
    var complement: bool

    constructor (present: set<Code>, alarmed: set<Code>)
      ensures this.present == present && this.alarmed == alarmed
    {
      this.present, this.alarmed := present, alarmed;
      selected, slot, complement := {}, 0, false;
    }

    ghost predicate Valid() {
      alarmed <= present
    }

    ghost predicate Ready(sel: set<Code>, n: nat)
      reads this
    {
      selected == sel && slot == n && !complement
    }

    /** The presence pulse: some device answers. */
    method Reset() returns (presence: bool)
      modifies this
      ensures presence == (present != {})
    {
      selected, slot, complement := {}, 0, false;
      presence := present != {};
    }

    function Participants(command: bv8): set<Code> {
      if command == SEARCH_ROM then present else if command == ALARM_SEARCH then alarmed else {}
    }

    method Write(command: bv8)
      modifies this
      ensures Ready(Participants(command), 0)
    {
      selected, slot, complement := Participants(command), 0, false;
    }

    /** Wired AND of the answers; an idle wire reads 1. */
    method ReadBit() returns (b: bool)
      requires slot < BITS
      modifies this`complement
      ensures complement == !old(complement)
      ensures b == if old(complement) then AllZeros(selected, slot) else AllOnes(selected, slot)
    {
      b := if complement then AllZeros(selected, slot) else AllOnes(selected, slot);
      complement := !complement;
    }

    method WriteBit(v: bool)
      requires slot < BITS
      modifies this
      ensures Ready(Answering(old(selected), old(slot), v), old(slot) + 1)
    {
      selected, slot, complement := Answering(selected, slot, v), slot + 1, false;
    }
  }
}

module OneWire {
  import opened RomCode
  import opened RomBytes
  import opened RomSearch
  import opened RomFamily
  import opened OneWireBus

  class OneWire {
    const bus: Bus
    const romNo: array<bv8>
    var lastDiscrepancy: nat
    var lastFamilyDiscrepancy: nat
    var lastDeviceFlag: bool

    ghost predicate Valid()
      reads this
    {
      romNo.Length == 8 && bus.Valid() && lastDiscrepancy <= BITS
    }

    /** The search state as a value. */
    ghost function State(): SearchState
      requires Valid()
      reads this, romNo
    {
      SearchState(Bits(romNo[..]), lastDiscrepancy, lastFamilyDiscrepancy, lastDeviceFlag)
    }

    constructor (bus: Bus)
      requires bus.Valid()
      ensures Valid() && this.bus == bus && fresh(romNo)
      ensures Cleared(State())
    {
      this.bus := bus;
      romNo := new bv8[8](_ => 0);
      lastDiscrepancy, lastFamilyDiscrepancy, lastDeviceFlag := 0, 0, false;
    }

    method ResetSearch()
      requires Valid()
      modifies this, romNo
      ensures Valid() && Cleared(State()) && lastFamilyDiscrepancy == 0
      ensures forall i | 0 <= i < 8 :: romNo[i] == 0
    {
      lastDiscrepancy, lastDeviceFlag, lastFamilyDiscrepancy := 0, false, 0;
      for i := 8 downto 0
        modifies romNo
        invariant forall j | i <= j < 8 :: romNo[j] == 0
      {
        romNo[i] := 0;
      }
    }

    method TargetSearch(familyCode: bv8)
      requires Valid()
      modifies this, romNo
      ensures Valid() && romNo[0] == familyCode && forall i | 1 <= i < 8 :: romNo[i] == 0
      ensures lastDiscrepancy == BITS && lastFamilyDiscrepancy == 0 && !lastDeviceFlag
      ensures familyCode != 0 ==> Targeted(State())
    {
      romNo[0] := familyCode;
      for i := 1 to 8
        invariant romNo[0] == familyCode && forall j | 1 <= j < i :: romNo[j] == 0
      {
        romNo[i] := 0;
      }
      lastDiscrepancy, lastFamilyDiscrepancy, lastDeviceFlag := BITS, 0, false;
      ZeroBytes(romNo[..]);
      FamilyByte(romNo[..]);
    }

    /** Sets or clears the bit of ROM_NO under the mask. */
    method StoreBit(byte: nat, mask: bv8, v: bool, ghost k: nat)
      requires Valid() && byte < 8 && k < 8 && mask == Mask(k)
      modifies romNo
      ensures Bits(romNo[..]) == old(Bits(romNo[..]))[8 * byte + k := v]
    {
      if v {
        romNo[byte] := romNo[byte] | mask;
      } else {
        romNo[byte] := romNo[byte] & !mask;
      }
      PutBit(old(romNo[..]), byte, k, v, romNo[..]);
    }

    /** Shifts the mask; past bit 7 it moves on to bit 0 of the next byte. */
    method Advance(byte: nat, mask: bv8, ghost k: nat) returns (byte': nat, mask': bv8, ghost k': nat)
      requires k < 8 && mask == Mask(k)
      ensures k' < 8 && mask' == Mask(k') && 8 * byte' + k' == 8 * byte + k + 1
    {
      ShiftedMask(k);
      if k < 7 { ShiftedMask(k + 1); }
      byte', mask', k' := byte, mask << 1, k + 1;
      if mask' == 0 {
        byte', mask', k' := byte + 1, 1, 0;
      }
    }

    /** The direction at one bit, from the two answers and, at a fork, from the previous pass. */
    method Decide(idBit: bool, cmpIdBit: bool, idBitNumber: nat, byte: nat, mask: bv8, ghost k: nat)
      returns (dir: bool)
      requires Valid() && !(idBit && cmpIdBit)
      requires byte < 8 && k < 8 && idBitNumber == 8 * byte + k + 1 && mask == Mask(k)
      ensures dir == if idBit != cmpIdBit then idBit else Choice(Bits(romNo[..]), lastDiscrepancy, idBitNumber - 1)
    {
      if idBit != cmpIdBit {
        dir := idBit;
      } else if idBitNumber < lastDiscrepancy {
        BitOfByte(romNo[..], byte, k);
        dir := romNo[byte] & mask > 0;
      } else {
        dir := idBitNumber == lastDiscrepancy;
      }
    }

    /** One bit of the search: both answers are read, the direction is stored and written. */
    method Exchange(idBitNumber: nat, byte: nat, mask: bv8, ghost k: nat, ghost w: Walk)
      returns (answered: bool, fork: bool, dir: bool)
      requires Valid() && byte < 8 && k < 8 && mask == Mask(k)
      requires idBitNumber == 8 * byte + k + 1 == w.n + 1 && bus.Ready(w.selected, w.n)
      requires w.code == Bits(romNo[..]) && w.code[w.n] == w.prefer[w.n] && w.ld == lastDiscrepancy
      modifies romNo, bus
      ensures answered <==> !(AllOnes(w.selected, w.n) && AllZeros(w.selected, w.n))
      ensures !answered ==> Bits(romNo[..]) == w.code
      ensures answered ==>
                && dir == w.Dir() && (fork && !dir) == w.ZeroTaken()
                && bus.Ready(w.Next().selected, w.n + 1) && Bits(romNo[..]) == w.Next().code
    {
      var idBit := bus.ReadBit();
      var cmpIdBit := bus.ReadBit();
      answered, fork, dir := !(idBit && cmpIdBit), idBit == cmpIdBit, false;
      if answered {
        dir := Decide(idBit, cmpIdBit, idBitNumber, byte, mask, k);
        StoreBit(byte, mask, dir, k);
        bus.WriteBit(dir);
      }
    }

    /** The loop of the search: reads and writes the bus bit by bit until all 64 bits are settled or
        nobody answers. */
    method Pass() returns (idBitNumber: nat, lastZero: nat)
      requires Valid() && bus.Ready(bus.selected, 0)
      modifies this`lastFamilyDiscrepancy, romNo, bus
      ensures old(bus.selected) == {} ==> idBitNumber == 1 && State() == old(State())
      ensures old(bus.selected) != {} ==>
                && idBitNumber == BITS + 1
                && SearchState(Bits(romNo[..]), lastZero, lastFamilyDiscrepancy, lastZero == 0)
                   == Passed(old(bus.selected), old(State()))
    {
      idBitNumber, lastZero := 1, 0;
      var romByteNumber, romByteMask := 0, 1 as bv8;
      ghost var S := bus.selected;
      ghost var w, k: nat := Walk(S, Bits(romNo[..]), lastDiscrepancy, 0, Bits(romNo[..]), S, 0, 0), 0;
      if S != {} { WalkStart(S, w.prefer, w.ld); }
      while romByteNumber < 8
        invariant romByteNumber <= 8 && k < 8 && (romByteNumber == 8 ==> k == 0) && romByteMask == Mask(k)
        invariant idBitNumber == 8 * romByteNumber + k + 1 == w.n + 1
        invariant bus.Ready(w.selected, w.n) && w.code == Bits(romNo[..]) && w.z == lastZero
        invariant w.S == S && w.prefer == old(Bits(romNo[..])) && w.ld == lastDiscrepancy
        invariant S != {} ==> w.Valid()
        invariant S == {} ==> w.n == 0 && w.selected == {} && w.code == w.prefer && w.f == 0
        invariant lastFamilyDiscrepancy == if w.f > 0 then w.f else old(lastFamilyDiscrepancy)
        decreases BITS + 1 - idBitNumber
      {
        var answered, fork, searchDirection := Exchange(idBitNumber, romByteNumber, romByteMask, k, w);
        if !answered {
          break;
        }
        WalkStep(w);
        w := w.Next();
        if fork && !searchDirection {
          lastZero := idBitNumber;
          if lastZero < 9 {
            lastFamilyDiscrepancy := lastZero;
          }
        }
        idBitNumber := idBitNumber + 1;
        romByteNumber, romByteMask, k := Advance(romByteNumber, romByteMask, k);
      }
      if S != {} {
        WalkEnd(w);
      }
    }

    method CopyRom(newAddr: array<bv8>)
      requires Valid() && newAddr.Length == 8 && newAddr != romNo
      modifies newAddr
      ensures newAddr[..] == romNo[..]
    {
      for i := 0 to 8
        invariant newAddr[..i] == romNo[..i]
      {
        newAddr[i] := romNo[i];
      }
      assert newAddr[..] == newAddr[..8] && romNo[..] == romNo[..8];
    }

    /** One call of the search, over all devices or over the alarmed ones. */
    method Search(newAddr: array<bv8>, searchMode: bool) returns (found: bool)
      requires Valid() && newAddr.Length == 8 && newAddr != romNo
      modifies this, romNo, newAddr, bus
      ensures Valid()
      ensures var S := if searchMode then bus.present else bus.alarmed;
              var (st, reported) := Call(S, old(State()));
              && State() == st
              && found == reported.Some?
              && if found then Bits(newAddr[..]) == reported.value else newAddr[..] == old(newAddr[..])
    {
      var searchResult := false;
      if !lastDeviceFlag {
        var presence := bus.Reset();
        if !presence {
          lastDiscrepancy, lastDeviceFlag, lastFamilyDiscrepancy := 0, false, 0;
          return false;
        }
        if searchMode {
          bus.Write(SEARCH_ROM);
        } else {
          bus.Write(ALARM_SEARCH);
        }
        var idBitNumber, lastZero := Pass();
        if !(idBitNumber < 65) {
          lastDiscrepancy := lastZero;
          if lastDiscrepancy == 0 {
            lastDeviceFlag := true;
          }
          searchResult := true;
        }
      }
      FamilyByte(romNo[..]);
      if !searchResult || romNo[0] == 0 {
        lastDiscrepancy, lastDeviceFlag, lastFamilyDiscrepancy := 0, false, 0;
        searchResult := false;
      } else {
        CopyRom(newAddr);
      }
      return searchResult;
    }
  }
}
