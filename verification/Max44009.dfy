/** Threshold registers of the MAX44009 light sensor: a byte holds a 4-bit exponent and the upper
    four bits of an 8-bit mantissa. Lux values are exact reals, register contents are counts of the
    smallest step. */
module Max44009 {

  const MIN_LUX: real := 0.045
  const MAX_LUX: real := 188006.0

  function Pow2(n: nat): (p: nat)
    ensures p > 0
  {
    if n == 0 then 1 else 2 * Pow2(n - 1)
  }

  function Exponent(reg: nat): nat {
    reg / 16
  }

  /** The mantissa that a register stands for, its four lost bits taken as 0. */
  function Mantissa(reg: nat): nat {
    16 * (reg % 16)
  }

  /** Nearest number of steps, halves away from zero. */
  function Count(value: real): int
    requires value >= 0.0
  {
    (value / MIN_LUX + 0.5).Floor
  }

  /** `reg` is the code of `count`: the count lies in the interval of the code, and the exponent is
      the smallest that makes the mantissa fit eight bits. */
  predicate Encodes(count: int, reg: nat) {
    && reg < 0x100
    && Mantissa(reg) * Pow2(Exponent(reg)) <= count < (Mantissa(reg) + 16) * Pow2(Exponent(reg))
    && (Exponent(reg) > 0 ==> Mantissa(reg) >= 0x80)
  }

  lemma Halve(m: nat, p: nat, count: int)
    requires m * p <= count < (m + 1) * p
    ensures (m / 2) * (2 * p) <= count < (m / 2 + 1) * (2 * p)
  {
    assert (m / 2) * (2 * p) == (2 * (m / 2)) * p;
    assert (m / 2 + 1) * (2 * p) == (2 * (m / 2) + 2) * p;
    Times(2 * (m / 2), m, p);
    Times(m + 1, 2 * (m / 2) + 2, p);
  }

  lemma Times(a: int, b: int, p: nat)
    ensures a <= b ==> a * p <= b * p
    ensures a < b && p > 0 ==> a * p < b * p
  {
  }

  lemma {:induction false} Pow2Increases(a: nat, b: nat)
    ensures a < b ==> 2 * Pow2(a) <= Pow2(b)
    decreases b
  {
    if a + 1 < b { Pow2Increases(a, b - 1); }
  }

  lemma Pow2Of14(n: nat)
    requires n == 14
    ensures Pow2(n) == 0x4000
  {
    assert Pow2(n - 12) == 4;
    assert Pow2(n - 10) == 16;
    assert Pow2(n - 8) == 64;
    assert Pow2(n - 6) == 256;
    assert Pow2(n - 4) == 1024;
    assert Pow2(n - 2) == 4096;
  }

  lemma CountRange(value: real)
    requires 0.0 <= value <= MAX_LUX
    ensures 0 <= Count(value) < 0xFF * 0x4000
  {
    assert value / MIN_LUX <= MAX_LUX / MIN_LUX;
  }

  lemma FitsAt14(mantissa: nat, exponent: nat, count: int)
    requires mantissa * Pow2(exponent) <= count < 0xFF * 0x4000 && exponent >= 14
    ensures mantissa <= 255
  {
    Pow2Of14(14);
    Pow2Increases(14, exponent);
    Times(255, mantissa, Pow2(exponent));
    Times(Pow2(14), Pow2(exponent), 255);
  }

  /** The normalising loop. */
  method Normalise(count: nat) returns (mantissa: nat, exponent: nat)
    requires count < 0xFF * 0x4000
    ensures mantissa <= 255 && exponent <= 14 && (exponent > 0 ==> mantissa >= 128)
    ensures mantissa * Pow2(exponent) <= count < (mantissa + 1) * Pow2(exponent)
  {
    mantissa, exponent := count, 0;
    while mantissa > 255
      invariant mantissa * Pow2(exponent) <= count < (mantissa + 1) * Pow2(exponent)
      invariant exponent > 0 ==> mantissa >= 128
      invariant exponent <= 14
      decreases mantissa
    {
      Halve(mantissa, Pow2(exponent), count);
      if exponent >= 14 { FitsAt14(mantissa, exponent, count); }
      mantissa := mantissa / 2;
      exponent := exponent + 1;
    }
  }

  lemma DropLowBits(mantissa: nat, exponent: nat, count: int, reg: nat)
    requires mantissa <= 255 && exponent < 16 && (exponent > 0 ==> mantissa >= 128)
    requires mantissa * Pow2(exponent) <= count < (mantissa + 1) * Pow2(exponent)
    requires reg == exponent * 16 + mantissa / 16
    ensures Encodes(count, reg) && Exponent(reg) == exponent
  {
    var k := mantissa / 16;
    assert Exponent(reg) == exponent && Mantissa(reg) == 16 * k;
    Times(16 * k, mantissa, Pow2(exponent));
    Times(mantissa + 1, 16 * k + 16, Pow2(exponent));
  }

  method EncodeCount(count: nat) returns (reg: nat)
    requires count < 0xFF * 0x4000
    ensures Encodes(count, reg) && Exponent(reg) <= 14
  {
    var mantissa, exponent := Normalise(count);
    reg := exponent * 16 + (mantissa / 16) % 16;
    DropLowBits(mantissa, exponent, count, reg);
  }

  /** The register written for a lux value; out-of-range values are refused. */
  method SetThreshold(value: real) returns (ok: bool, reg: nat)
    ensures ok <==> 0.0 <= value <= 188006.0
    ensures ok ==> Encodes(Count(value), reg) && Exponent(reg) <= 14
  {
    if value < 0.0 || value > MAX_LUX {
      return false, 0;
    }
    CountRange(value);
    reg := EncodeCount(Count(value));
    ok := true;
  }

  /** Reading back adds half of what the register cannot hold. */
  function DecodedCount(reg: nat): nat {
    (Mantissa(reg) + 8) * Pow2(Exponent(reg))
  }

  function ConvertToLux(dataHigh: nat, dataLow: nat): real {
    (Pow2(dataHigh / 16) as real * MIN_LUX) * (((dataHigh % 16) * 16 + dataLow % 16) as real)
  }

  function GetThreshold(reg: nat): real {
    ConvertToLux(reg, 0x08)
  }

  lemma GetThresholdIsDecoded(reg: nat)
    ensures GetThreshold(reg) == DecodedCount(reg) as real * MIN_LUX
  {
    var (p, m) := (Pow2(Exponent(reg)), Mantissa(reg) + 8);
    assert (m * p) as real == m as real * p as real;
  }

  lemma Spread(m: int, p: nat)
    ensures (m + 16) * p == m * p + 16 * p && (m + 8) * p == m * p + 8 * p
  {
  }

  /** What is read back differs from the count by at most eight steps of the exponent, and by at most
      one sixteenth of the count once an exponent is used. */
  lemma DecodeError(count: int, reg: nat)
    requires Encodes(count, reg)
    ensures var d := DecodedCount(reg) - count;
            && -8 * Pow2(Exponent(reg)) < d <= 8 * Pow2(Exponent(reg))
            && (Exponent(reg) > 0 ==> -count <= 16 * d <= count)
  {
    var (p, m) := (Pow2(Exponent(reg)), Mantissa(reg));
    Spread(m, p);
    Times(0x80, m, p);
  }

  /** A count has only one code. */
  lemma EncodingUnique(count: int, a: nat, b: nat)
    requires Encodes(count, a) && Encodes(count, b)
    ensures a == b
  {
    if Exponent(a) == Exponent(b) {
      SameExponent(count, a, b);
    } else if Exponent(a) < Exponent(b) {
      SmallerExponent(count, a, b);
      assert false;
    } else {
      SmallerExponent(count, b, a);
      assert false;
    }
  }

  lemma SameExponent(count: int, a: nat, b: nat)
    requires Encodes(count, a) && Encodes(count, b) && Exponent(a) == Exponent(b)
    ensures a == b
  {
    var p := Pow2(Exponent(a));
    Times(Mantissa(a) + 16, Mantissa(b), p);
    Times(Mantissa(b) + 16, Mantissa(a), p);
  }

  lemma SmallerExponent(count: int, a: nat, b: nat)
    requires Encodes(count, a) && Exponent(a) < Exponent(b)
    ensures !Encodes(count, b)
  {
    var (p, q) := (Pow2(Exponent(a)), Pow2(Exponent(b)));
    Pow2Increases(Exponent(a), Exponent(b));
    Times(Mantissa(a) + 16, 256, p);
    Times(0x80, Mantissa(b), q);
  }

  lemma Reencode(reg: nat)
    requires reg < 0x100 && (Exponent(reg) > 0 ==> Mantissa(reg) >= 0x80)
    ensures Encodes(DecodedCount(reg), reg)
  {
    Spread(Mantissa(reg), Pow2(Exponent(reg)));
  }

  lemma Rounding(count: nat)
    ensures Count(count as real * MIN_LUX) == count
  {
    assert count as real * MIN_LUX / MIN_LUX == count as real;
  }

  /** The count is within half a step of the value. */
  lemma NearestCount(value: real)
    requires value >= 0.0
    ensures Count(value) as real * 0.045 - 0.0225 <= value < Count(value) as real * 0.045 + 0.0225
  {
    var steps := value / MIN_LUX;
    assert Count(value) as real <= steps + 0.5 < Count(value) as real + 1.0;
    assert steps * MIN_LUX == value;
  }

  /** From a lux value through the register and back: within eight steps of the exponent and the half step of
      the rounding. */
  lemma ReadBackError(value: real, reg: nat)
    requires value >= 0.0 && Encodes(Count(value), reg)
    ensures var bound := 0.045 * (8 * Pow2(Exponent(reg))) as real + 0.0225;
            -bound <= GetThreshold(reg) - value <= bound
  {
    NearestCount(value);
    DecodeError(Count(value), reg);
    GetThresholdIsDecoded(reg);
    var (d, n) := (DecodedCount(reg) - Count(value), 8 * Pow2(Exponent(reg)));
    assert -(n as real) <= d as real <= n as real;
  }

  /** The lux value of a normalised register is in range exactly when its exponent is at most 14. */
  lemma DecodedInRange(reg: nat)
    requires reg < 0x100 && (Exponent(reg) > 0 ==> Mantissa(reg) >= 0x80)
    ensures GetThreshold(reg) <= MAX_LUX <==> Exponent(reg) <= 14
  {
    GetThresholdIsDecoded(reg);
    var (e, m) := (Exponent(reg), Mantissa(reg) + 8);
    Pow2Of14(14);
    Pow2Increases(e, 14);
    Pow2Increases(14, e);
    if e <= 14 {
      Times(m, 248, Pow2(e));
      Times(Pow2(e), 0x4000, 248);
      assert DecodedCount(reg) <= 248 * 0x4000;
    } else {
      Times(136, m, Pow2(e));
      Times(0x8000, Pow2(e), 136);
      assert DecodedCount(reg) >= 136 * 0x8000;
    }
  }

  /** Writing back what was read from a normalised register gives the same register. */
  lemma WriteBack(reg: nat, reg': nat)
    requires reg < 0x100 && (Exponent(reg) > 0 ==> Mantissa(reg) >= 0x80)
    ensures GetThreshold(reg) >= 0.0
    ensures Encodes(Count(GetThreshold(reg)), reg') <==> reg' == reg
  {
    GetThresholdIsDecoded(reg);
    Rounding(DecodedCount(reg));
    Reencode(reg);
    if Encodes(DecodedCount(reg), reg') {
      EncodingUnique(DecodedCount(reg), reg, reg');
    }
  }
}
