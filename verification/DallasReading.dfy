/** Raw temperatures (1/128 degree) from the scratchpad of a thermometer. */
module DallasReading {
  import opened CInteger
  import opened Words

  // Scratchpad layout.
  const TEMP_LSB := 0
  const TEMP_MSB := 1
  const HIGH_ALARM_TEMP := 2
  const CONFIGURATION := 4
  const COUNT_REMAIN := 6
  const COUNT_PER_C := 7

  const DS18S20MODEL: byte := 0x10
  const DS18B20MODEL: byte := 0x28
  const DS1825MODEL: byte := 0x3B

  const DEVICE_DISCONNECTED_RAW := -7040
  const DEVICE_FAULT_OPEN_RAW := -32512
  const DEVICE_FAULT_SHORTGND_RAW := -32384
  const DEVICE_FAULT_SHORTVDD_RAW := -32256
  const DEVICE_POWER_ON_RESET_RAW := -32128
  const DEVICE_INSUFFICIENT_POWER_RAW := -32000

  type ScratchPad = s: seq<byte> | |s| == 9 witness [0, 0, 0, 0, 0, 0, 0, 0, 0]

  const SIGN_BIT := 0x8_0000

  /** `x | neg`: with `neg == 0xFFF80000` the upper 13 of 32 bits become 1, with 0 nothing changes. */
  function OrSign(x: int, negative: bool): int {
    if negative then x % SIGN_BIT - SIGN_BIT else x
  }

  predicate MaxThermocouple(family: byte, s: ScratchPad) {
    family == DS1825MODEL && s[CONFIGURATION] >= 0x80
  }

  /** The temperature register with the sign in place, eight times its value. */
  function RegisterRaw(family: byte, s: ScratchPad): int {
    var msb: int := s[TEMP_MSB];
    var lsb: int := if MaxThermocouple(family, s) then s[TEMP_LSB] - s[TEMP_LSB] % 4 else s[TEMP_LSB];
    OrSign(msb * 0x800 + lsb * 8, msb >= 0x80)
  }

  function FaultCode(s: ScratchPad): int {
    if s[HIGH_ALARM_TEMP] % 2 == 1 then DEVICE_FAULT_OPEN_RAW
    else if (s[HIGH_ALARM_TEMP] / 2) % 2 == 1 then DEVICE_FAULT_SHORTGND_RAW
    else if (s[HIGH_ALARM_TEMP] / 4) % 2 == 1 then DEVICE_FAULT_SHORTVDD_RAW
    else DEVICE_DISCONNECTED_RAW
  }

  predicate PowerOnReset(s: ScratchPad) {
    s[0] == 0x50 && s[1] == 0x05 && s[6] == 0x0C
  }

  predicate InsufficientPower(s: ScratchPad) {
    s[0] == 0xFF && s[1] == 0x07
  }

  /** Part of a degree left to count, in 1/128 degree. */
  function Fraction(perC: int, remain: int): int
    requires perC != 0
  {
    TruncDiv((perC - remain) * 0x80, perC)
  }

  function CalculateTemperature(family: byte, s: ScratchPad): int {
    if MaxThermocouple(family, s) && s[TEMP_LSB] % 2 == 1 then FaultCode(s)
    else if family == DS18B20MODEL && PowerOnReset(s) then DEVICE_POWER_ON_RESET_RAW
    else if family == DS18B20MODEL && InsufficientPower(s) then DEVICE_INSUFFICIENT_POWER_RAW
    else
      var fp := RegisterRaw(family, s);
      if family == DS18S20MODEL && s[COUNT_PER_C] != 0 then
        var masked := fp % 0x1_0000 - fp % 0x10;  // fp & 0xfff0
        var fraction := Fraction(s[COUNT_PER_C], s[COUNT_REMAIN]);
        OrSign(masked * 8 - 32 + fraction, s[TEMP_MSB] >= 0x80)
      else fp
  }

  // ----- What the numbers mean -----

  function Signed16(lsb: byte, msb: byte): int {
    if msb >= 0x80 then msb * 0x100 + lsb - 0x1_0000 else msb * 0x100 + lsb
  }

  /** The register is a two's complement number. */
  lemma Signed16Is(lsb: byte, msb: byte)
    ensures -0x8000 <= Signed16(lsb, msb) < 0x8000
    ensures Signed16(lsb, msb) % 0x1_0000 == 0x100 * msb + lsb
  {
  }

  /** A thermocouple converter (family 0x3B, top bit of byte 4) that flags a fault reports the lowest fault bit
      that is set: open, short to ground, short to supply; or none. */
  lemma FaultReading(s: ScratchPad)
    requires s[4] >= 0x80 && s[0] % 2 == 1
    ensures CalculateTemperature(0x3B, s)
            == if s[2] % 2 == 1 then -32512 else if s[2] % 4 >= 2 then -32384
               else if s[2] % 8 >= 4 then -32256 else -7040
  {
  }

  /** The two diagnostic patterns of a DS18B20 (family 0x28). */
  lemma DiagnosticReading(s: ScratchPad)
    ensures s[0] == 0x50 && s[1] == 0x05 && s[6] == 0x0C ==> CalculateTemperature(0x28, s) == -32128
    ensures s[0] == 0xFF && s[1] == 0x07 ==> CalculateTemperature(0x28, s) == -32000
  {
  }

  /** Outside the fault and diagnostic codes a plain reading is eight times the signed register (its
      two status bits cleared on a thermocouple). */
  lemma PlainReading(family: byte, s: ScratchPad)
    requires !(family == 0x3B && s[4] >= 0x80 && s[0] % 2 == 1)
    requires !(family == 0x28 && ((s[0] == 0x50 && s[1] == 0x05 && s[6] == 0x0C) || (s[0] == 0xFF && s[1] == 0x07)))
    requires !(family == 0x10 && s[7] != 0)
    ensures CalculateTemperature(family, s)
            == 8 * Signed16(if family == 0x3B && s[4] >= 0x80 then s[0] / 4 * 4 else s[0], s[1])
  {
  }

  /** A legitimate 85 degrees with count-remain 0x0C on a DS18B20 cannot be told from a power-on reset,
      and no other in-range temperature is ever reported as a code. */
  lemma CodesAreApart(family: byte, s: ScratchPad)
    requires family != 0x10 && -55 * 16 <= Signed16(s[0], s[1]) <= 125 * 16
    requires !(family == 0x3B && s[4] >= 0x80)
    ensures CalculateTemperature(family, s) == 8 * Signed16(s[0], s[1])
            <==> !(family == 0x28 && ((s[0] == 0x50 && s[1] == 0x05 && s[6] == 0x0C) || (s[0] == 0xFF && s[1] == 0x07)))
  {
  }

  /** The extended-resolution formula of the data sheet, in 1/128 degree: whole degrees minus a quarter, plus
      the part of a degree that the two counters give, rounded towards zero. */
  predicate IsExtended(e: int, h: int, perC: int, remain: int) {
    var part := e - (128 * (h / 2) - 32);
    if remain <= perC then perC * part <= 128 * (perC - remain) < perC * (part + 1)
    else perC * (part - 1) < 128 * (perC - remain) <= perC * part
  }

  lemma FractionIs(perC: byte, remain: byte, h: int)
    requires perC != 0
    ensures IsExtended(128 * (h / 2) - 32 + Fraction(perC, remain), h, perC, remain)
  {
    var (p, n) := (perC as int, (perC - remain) * 128);
    if n >= 0 {
      assert n == p * (n / p) + n % p;
    } else {
      assert -n == p * (-n / p) + -n % p;
    }
  }

  /** The formula has one value. */
  lemma ExtendedUnique(e: int, f: int, h: int, perC: byte, remain: byte)
    requires perC != 0 && IsExtended(e, h, perC, remain) && IsExtended(f, h, perC, remain)
    ensures e == f
  {
    var (n, whole) := (128 * (perC - remain), 128 * (h / 2) - 32);
    if remain <= perC {
      OneQuotient(perC, n, e - whole, f - whole);
    } else {
      OneQuotient(perC, -n, whole - e, whole - f);
    }
  }

  lemma OneQuotient(p: nat, n: int, a: int, b: int)
    requires p * a <= n < p * (a + 1) && p * b <= n < p * (b + 1)
    ensures a == b
  {
    if a < b {
      ProductOrder(a + 1, b, p);
    } else if b < a {
      ProductOrder(b + 1, a, p);
    }
  }

  lemma FractionBound(perC: byte, remain: byte)
    requires perC != 0
    ensures Fraction(perC, remain) <= 128
    ensures -32512 <= Fraction(perC, remain)
  {
    var p: int := perC;
    var n: int := (p - remain) * 128;
    if n >= 0 {
      QuotientBound(n, p, 128);
    } else {
      QuotientBound(-n, p, 32512);
    }
  }

  lemma QuotientBound(n: int, p: int, k: nat)
    requires 0 <= n <= k * p && p > 0
    ensures 0 <= n / p <= k
  {
    Monotone(n / p, k + 1, p);
  }

  lemma Monotone(a: int, b: int, p: nat)
    ensures a >= b ==> a * p >= b * p
  {
  }

  /** The firmware meets the formula exactly when the reading fits the bits it keeps: below 4096
      degrees, or negative and not below what the sign mask can express. The OR with the sign mask
      never loses a carry. */
  lemma ExtendedReading(s: ScratchPad, e: int)
    requires s[7] != 0 && IsExtended(e, Signed16(s[0], s[1]), s[7], s[6])
    ensures var h := Signed16(s[0], s[1]);
            CalculateTemperature(0x10, s) == e <==> if h >= 0 then h < 0x2000 else e >= -0x8_0000
  {
    var h := Signed16(s[TEMP_LSB], s[TEMP_MSB]);
    FractionIs(s[COUNT_PER_C], s[COUNT_REMAIN], h);
    ExtendedUnique(e, 128 * (h / 2) - 32 + Fraction(s[COUNT_PER_C], s[COUNT_REMAIN]), h, s[7], s[6]);
    var q := Fraction(s[COUNT_PER_C], s[COUNT_REMAIN]);
    FractionBound(s[COUNT_PER_C], s[COUNT_REMAIN]);
    assert RegisterRaw(DS18S20MODEL, s) == 8 * h;
    MaskKeepsWholeDegrees(h);
    WholeDegreesKept(h / 2, q, h < 0);
  }

  lemma WholeDegreesKept(m: int, q: int, negative: bool)
    requires -0x4000 <= m < 0x4000 && (negative <==> m < 0) && q <= 128
    ensures var e := 128 * m - 32 + q;
            OrSign(16 * (m % 0x1000) * 8 - 32 + q, negative) == e
            <==> if negative then e >= -SIGN_BIT else m < 0x1000
  {
    var e := 128 * m - 32 + q;
    var k := m / 0x1000;
    var t := 16 * (m % 0x1000) * 8 - 32 + q;
    assert e == SIGN_BIT * k + t;
    if negative {
      var (a, r) := (e / SIGN_BIT, e % SIGN_BIT);
      QuotientIs(t, SIGN_BIT, a - k, r);
    }
  }

  lemma MaskKeepsWholeDegrees(h: int)
    ensures (8 * h) % 0x1_0000 - (8 * h) % 0x10 == 16 * ((h / 2) % 0x1000)
  {
    var (m, r) := (h / 2, h % 2);
    var (a, b) := (m / 0x1000, m % 0x1000);
    QuotientIs(8 * h, 0x1_0000, a, 16 * b + 8 * r);
    QuotientIs(8 * h, 0x10, m, 8 * r);
  }

  /** In the working range of the device, -55 to 125 degrees, the formula always holds. */
  lemma ExtendedInRange(s: ScratchPad)
    requires s[7] != 0 && -110 <= Signed16(s[0], s[1]) <= 250
    ensures IsExtended(CalculateTemperature(0x10, s), Signed16(s[0], s[1]), s[7], s[6])
  {
    var h := Signed16(s[0], s[1]);
    FractionBound(s[COUNT_PER_C], s[COUNT_REMAIN]);
    FractionIs(s[COUNT_PER_C], s[COUNT_REMAIN], h);
    ExtendedReading(s, 128 * (h / 2) - 32 + Fraction(s[COUNT_PER_C], s[COUNT_REMAIN]));
  }
}
