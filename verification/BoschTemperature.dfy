/** The temperature polynomial of the Bosch sensors, written twice in the firmware: with divisions
    (BME280) and with shifts (BMP280). All intermediates are 32-bit signed. */
module BoschTemperature {
  import opened CInteger

  /** The fine temperature, in 1/5120 degree, and the result in hundredths of a degree. */
  datatype Reading = Reading(fine: int, centi: int)

  /** Calibration words: `t1` unsigned, the others signed 16-bit. */
  datatype Calibration = Calibration(t1: int, t2: int, t3: int) {
    predicate Valid() {
      0 <= t1 < 0x1_0000 && -0x8000 <= t2 < 0x8000 && -0x8000 <= t3 < 0x8000
    }

    /** The products that the two formulas scale down. */
    function Linear(adc: int): int {
      (adc / 8 - 2 * t1) * t2
    }

    function Square(adc: int): int {
      (adc / 16 - t1) * (adc / 16 - t1)
    }

    function Quadratic(adc: int): int {
      (Square(adc) / 0x1000) * t3
    }

    /** The data sheet's polynomial (adc / 2^14 - t1 / 2^10) t2 + (adc / 2^17 - t1 / 2^13)^2 t3, in units of 2 to
        the power -34, of the reading without the bits that the two differences drop. */
    function Exact(adc: int): int {
      var (u, v) := (adc - adc % 8 - 16 * t1, adc - adc % 16 - 16 * t1);
      0x10_0000 * u * t2 + v * v * t3
    }

    /** Rounding down at every step. */
    function ByShift(adc: int): int {
      Linear(adc) / 0x800 + Quadratic(adc) / 0x4000
    }

    /** Rounding towards zero at every step. */
    function ByDivision(adc: int): int {
      TruncDiv((TruncDiv(adc, 8) - t1 * 2) * t2, 0x800)
      + TruncDiv(TruncDiv((TruncDiv(adc, 16) - t1) * (TruncDiv(adc, 16) - t1), 0x1000) * t3, 0x4000)
    }

    /** No intermediate of either formula overflows. */
    predicate Fits(adc: int, adjust: int) {
      && Int32(Linear(adc)) && Int32(Square(adc)) && Int32(Quadratic(adc))
      && Int32(ByShift(adc) * 5 + 128) && Int32(ByDivision(adc) + adjust) && Int32((ByDivision(adc) + adjust) * 5 + 128)
    }

    /** What the BMP280 driver makes of a raw reading. */
    function Bmp280Reading(raw: int): Reading {
      var fine := ByShift(raw / 16);
      Reading(fine, (fine * 5 + 128) / 256)
    }

    /** What the BME280 driver makes of it; `adjust` is its compensation. */
    function Bme280Reading(raw: int, adjust: int): Reading {
      var fine := ByDivision(raw / 16) + adjust;
      Reading(fine, TruncDiv(fine * 5 + 128, 256))
    }
  }

  /** Less than four units too low and less than two too high against the exact polynomial. */
  predicate Accurate(c: Calibration, adc: int, fine: int) {
    -2 * 0x4_0000_0000 < c.Exact(adc) - 0x4_0000_0000 * fine < 4 * 0x4_0000_0000
  }

  class Bme280 {
    const calib: Calibration
    var tFine: int
    var tFineAdjust: int

    constructor (calib: Calibration)
      ensures this.calib == calib && tFineAdjust == 0
    {
      this.calib, tFine, tFineAdjust := calib, 0, 0;
    }

    /** Division form; a disabled measurement reads 0x800000 and gives no temperature. */
    method ReadTemperature(raw: int) returns (valid: bool, centi: int)
      requires 0 <= raw < 0x100_0000 && calib.Valid() && calib.Fits(raw / 16, tFineAdjust)
      modifies this`tFine
      ensures valid <==> raw != 0x80_0000
      ensures if valid then Reading(tFine, centi) == calib.Bme280Reading(raw, tFineAdjust) else tFine == old(tFine)
    {
      if raw == 0x80_0000 {
        return false, 0;
      }
      var adc := raw / 16;
      var var1 := TruncDiv(adc, 8) - calib.t1 * 2;
      var1 := TruncDiv(var1 * calib.t2, 0x800);
      var var2 := TruncDiv(adc, 16) - calib.t1;
      var2 := TruncDiv(TruncDiv(var2 * var2, 0x1000) * calib.t3, 0x4000);
      tFine := var1 + var2 + tFineAdjust;
      return true, TruncDiv(tFine * 5 + 128, 256);
    }
  }

  class Bmp280 {
    const calib: Calibration
    var tFine: int

    constructor (calib: Calibration)
      ensures this.calib == calib
    {
      this.calib, tFine := calib, 0;
    }

    /** Shift form; a right shift of a signed word rounds down, as division does here. */
    method ReadTemperature(raw: int) returns (centi: int)
      requires 0 <= raw < 0x100_0000 && calib.Valid() && calib.Fits(raw / 16, 0)
      modifies this
      ensures Reading(tFine, centi) == calib.Bmp280Reading(raw) && Accurate(calib, raw / 16, tFine)
    {
      var adc := raw / 16;
      var var1 := ((adc / 8 - calib.t1 * 2) * calib.t2) / 0x800;
      var var2 := ((((adc / 16 - calib.t1) * (adc / 16 - calib.t1)) / 0x1000) * calib.t3) / 0x4000;
      tFine := var1 + var2;
      centi := (tFine * 5 + 128) / 256;
      ShiftIsAccurate(calib, adc);
    }
  }

  // ----- Against the exact polynomial -----

  lemma Bounded(r: int, t3: int)
    requires 0 <= r < 0x1000 && -0x8000 <= t3 < 0x8000
    ensures -2 * 0x400_0000 < r * t3 < 2 * 0x400_0000
  {
    ProductOrder(-0x8000, t3, r);
    ProductOrder(t3, 0x8000, r);
  }

  /** The polynomial in terms of the products that are scaled down. */
  lemma ExactIs(c: Calibration, adc: int)
    ensures c.Exact(adc) == 0x100 * (0x8000 * c.Linear(adc) + c.Square(adc) * c.t3)
  {
    var (m, n) := (adc / 8 - 2 * c.t1, adc / 16 - c.t1);
    assert adc - adc % 8 - 16 * c.t1 == 8 * m && adc - adc % 16 - 16 * c.t1 == 16 * n;
    assert 0x10_0000 * (8 * m) * c.t2 == 0x100 * (0x8000 * (m * c.t2));
    assert (16 * n) * (16 * n) * c.t3 == 0x100 * ((n * n) * c.t3);
  }

  /** What the shift form drops: three remainders. */
  lemma Dropped(c: Calibration, adc: int)
    ensures 0x8000 * c.Linear(adc) + c.Square(adc) * c.t3 - 0x400_0000 * c.ByShift(adc)
            == 0x8000 * (c.Linear(adc) % 0x800) + 0x1000 * (c.Quadratic(adc) % 0x4000) + (c.Square(adc) % 0x1000) * c.t3
  {
    var (q, r) := (c.Square(adc) / 0x1000, c.Square(adc) % 0x1000);
    assert c.Square(adc) * c.t3 == 0x1000 * (q * c.t3) + r * c.t3 by {
      assert c.Square(adc) == 0x1000 * q + r;
    }
  }

  /** The shift form is accurate for every calibration and reading. */
  lemma ShiftIsAccurate(c: Calibration, adc: int)
    requires c.Valid()
    ensures Accurate(c, adc, c.ByShift(adc))
  {
    ExactIs(c, adc);
    Dropped(c, adc);
    Bounded(c.Square(adc) % 0x1000, c.t3);
  }

  // ----- Against each other -----

  lemma PositiveDivision(n: int, d: nat)
    requires n >= 0 && d > 0
    ensures TruncDiv(n, d) == n / d
  {
  }

  lemma SquarePositive(x: int)
    ensures x * x >= 0
  {
  }

  /** Rounding towards zero adds one for each negative inexact term. */
  lemma DivisionAgainstShift(c: Calibration, adc: nat)
    ensures c.ByDivision(adc) == c.ByShift(adc) + RoundedUp(c.Linear(adc), 0x800) + RoundedUp(c.Quadratic(adc), 0x4000)
  {
    PositiveDivision(adc, 8);
    PositiveDivision(adc, 16);
    SquarePositive(adc / 16 - c.t1);
    PositiveDivision(c.Square(adc), 0x1000);
    TruncAgainstFloor(c.Linear(adc), 0x800);
    TruncAgainstFloor(c.Quadratic(adc), 0x4000);
  }

  /** Results in hundredths, when the fine temperatures differ by `d`. */
  lemma CentiApart(fine: int, d: int)
    ensures 5 * d / 256 <= TruncDiv((fine + d) * 5 + 128, 256) - (fine * 5 + 128) / 256 <= 5 * d / 256 + 2
  {
    TruncAgainstFloor((fine + d) * 5 + 128, 256);
  }

  /** The results are the fine temperatures in hundredths, to the nearest one; below zero the division form may
      be one higher. */
  lemma Hundredths(c: Calibration, raw: nat, adjust: int)
    ensures var r := c.Bmp280Reading(raw);
            256 * r.centi <= 5 * r.fine + 128 < 256 * (r.centi + 1)
    ensures var r := c.Bme280Reading(raw, adjust);
            if 5 * r.fine + 128 >= 0 then 256 * r.centi <= 5 * r.fine + 128 < 256 * (r.centi + 1)
            else 256 * (r.centi - 1) < 5 * r.fine + 128 <= 256 * r.centi
  {
  }

  /** What the two drivers return for one raw reading: without compensation the fine temperatures differ by
      0 to 2, by 0 exactly when no scaled-down term is negative and inexact, and the results by 0 to 2
      hundredths; a compensation comes on top. */
  lemma FormsAgree(c: Calibration, raw: nat, adjust: int)
    ensures var (bme, bmp, adc) := (c.Bme280Reading(raw, adjust), c.Bmp280Reading(raw), raw / 16);
            var d := bme.fine - adjust - bmp.fine;
            && 0 <= d <= 2
            && (d == 0 <==> && (c.Linear(adc) >= 0 || c.Linear(adc) % 0x800 == 0)
                            && (c.Quadratic(adc) >= 0 || c.Quadratic(adc) % 0x4000 == 0))
            && 5 * (d + adjust) / 256 <= bme.centi - bmp.centi <= 5 * (d + adjust) / 256 + 2
            && (adjust == 0 ==> 0 <= bme.centi - bmp.centi <= 2)
  {
    DivisionAgainstShift(c, raw / 16);
    CentiApart(c.Bmp280Reading(raw).fine, c.Bme280Reading(raw, adjust).fine - c.Bmp280Reading(raw).fine);
  }
}
