/** What the pulse for a brightness looks like. */
module ServoMapping {
  import opened CInteger
  import opened ServoMotion

  /** A continuous servo, not used as a relay, with room for the 40 us steps on both sides of its
      stand-still pulse and pulses small enough for 32-bit products. */
  predicate Proper(c: Config) {
    && c.kind == CONTINUOUS && c.Mode() == RollerShutter && c.deadband >= 0
    && c.minUs <= c.midUs - 40 && c.midUs + 40 <= c.maxUs && 255 * (c.maxUs - c.minUs) < TWO32 / 2
  }

  lemma LongKeeps(x: int)
    requires Int32(x)
    ensures Long(x) == x
  {
  }

  /** `map` between its two ends: inside them, and monotone. */
  lemma MapWithin(x: int, y: int, a: int, b: int, low: int, high: int)
    requires a <= x <= y <= b && a < b && low <= high && (b - a) * (high - low) < TWO32 / 2
    ensures low <= Map(x, a, b, low, high) <= Map(y, a, b, low, high) <= high
    ensures Map(b, a, b, low, high) == high && Map(a, a, b, low, high) == low
  {
    var (d, r) := (b - a, high - low);
    Products(x - a, y - a, d, r);
    Products(y - a, d, d, r);
    LongKeeps((x - a) * r);
    LongKeeps((y - a) * r);
    LongKeeps(d * r);
    LongKeeps(0 * r);
    QuotientOrder((x - a) * r, (y - a) * r, d);
    QuotientOrder((y - a) * r, d * r, d);
    QuotientIs(d * r, d, r, 0);
  }

  lemma Products(x: nat, y: nat, d: nat, r: nat)
    requires x <= y <= d
    ensures 0 <= x * r <= y * r <= d * r
  {
    ProductOrder(x, y, r);
    ProductOrder(y, d, r);
    ProductOrder(0, x, r);
  }

  lemma QuotientOrder(m: nat, n: nat, d: nat)
    requires m <= n && d > 0
    ensures 0 <= m / d <= n / d
  {
    assert n == d * (n / d) + n % d && m == d * (m / d) + m % d;
    if m / d > n / d {
      ProductOrder(n / d + 1, m / d, d);
    }
  }

  /** The 8-bit brightness of a 10-bit one: 255/1023 of it, rounded down; larger values count as 1023. */
  lemma ScaleIs(brightness: nat)
    ensures var x := if brightness < 1023 then brightness else 1023;
            1023 * Scale(brightness) <= 255 * x < 1023 * (Scale(brightness) + 1)
  {
    LongKeeps(255 * Constrain(brightness, 0, 1023));
  }

  /** Outside the dead band a brightness lies within the range that its side is mapped from. */
  lemma OutsideDeadband(c: Config, b: nat)
    requires c.deadband >= 0 && b <= 255 && !c.InDeadband(b)
    ensures 0 <= c.Offset() < 127
    ensures if 200 * b > 25500 then 128 + c.Offset() <= b else b <= 127 - c.Offset()
  {
  }

  /** The pulse of a continuous servo: on one side of stand-still by at least 40 us, or stand-still. */
  lemma ContinuousSides(c: Config, b: nat)
    requires Proper(c) && b <= 255
    ensures if c.InDeadband(b) then c.Continuous(b) == c.midUs
            else if b >= 128 then c.midUs + 40 <= c.Continuous(b) <= c.maxUs
            else c.minUs <= c.Continuous(b) <= c.midUs - 40
  {
    if !c.InDeadband(b) {
      OutsideDeadband(c, b);
      if b >= 128 {
        SmallerProduct(127 - c.Offset(), c.maxUs - c.midUs - 40, c.maxUs - c.minUs);
        MapWithin(b, b, 128 + c.Offset(), 255, c.midUs + 40, c.maxUs);
      } else {
        SmallerProduct(127 - c.Offset(), c.midUs - 40 - c.minUs, c.maxUs - c.minUs);
        MapWithin(b, b, 0, 127 - c.Offset(), c.minUs, c.midUs - 40);
      }
    }
  }

  lemma SmallerProduct(d: nat, r: nat, range: nat)
    requires d <= 255 && r <= range && 255 * range < TWO32 / 2
    ensures d * r < TWO32 / 2
  {
    ProductOrder(r, range, d);
    ProductOrder(d, 255, range);
  }

  lemma MapIs(x: int, a: int, b: int, low: int, high: int)
    requires a <= x <= b && a < b && low <= high && (b - a) * (high - low) < TWO32 / 2
    ensures Map(x, a, b, low, high) == low + (x - a) * (high - low) / (b - a)
  {
    Products(x - a, b - a, b - a, high - low);
    LongKeeps((x - a) * (high - low));
  }

  /** The pulse of a continuous servo outside the dead band: its share of the way from 40 us beside
      stand-still to the end, by how far the brightness is beyond the band. */
  lemma ContinuousIs(c: Config, b: nat)
    requires Proper(c) && b <= 255 && !(-255 * c.deadband <= 200 * b - 25500 <= 255 * c.deadband)
    ensures var band := c.deadband * 255 / 200;
            && band < 127
            && c.Continuous(b) == if b >= 128 then
                                    c.midUs + 40 + (b - 128 - band) * (c.maxUs - c.midUs - 40) / (127 - band)
                                  else c.minUs + b * (c.midUs - 40 - c.minUs) / (127 - band)
  {
    OutsideDeadband(c, b);
    if b >= 128 {
      SmallerProduct(127 - c.Offset(), c.maxUs - c.midUs - 40, c.maxUs - c.minUs);
      MapIs(b, 128 + c.Offset(), 255, c.midUs + 40, c.maxUs);
    } else {
      SmallerProduct(127 - c.Offset(), c.midUs - 40 - c.minUs, c.maxUs - c.minUs);
      MapIs(b, 0, 127 - c.Offset(), c.minUs, c.midUs - 40);
    }
  }

  lemma ContinuousMonotone(c: Config, a: nat, b: nat)
    requires Proper(c) && a <= b <= 255
    ensures c.Continuous(a) <= c.Continuous(b)
  {
    ContinuousSides(c, a);
    ContinuousSides(c, b);
    if !c.InDeadband(a) && !c.InDeadband(b) {
      OutsideDeadband(c, a);
      OutsideDeadband(c, b);
      if a >= 128 {
        SmallerProduct(127 - c.Offset(), c.maxUs - c.midUs - 40, c.maxUs - c.minUs);
        MapWithin(a, b, 128 + c.Offset(), 255, c.midUs + 40, c.maxUs);
      } else if b < 128 {
        SmallerProduct(127 - c.Offset(), c.midUs - 40 - c.minUs, c.maxUs - c.minUs);
        MapWithin(a, b, 0, 127 - c.Offset(), c.minUs, c.midUs - 40);
      }
    }
  }

  /** The pulse of a continuous servo stays in range, follows the brightness (against it when
      inverted), and is stand-still exactly on the dead band. */
  lemma ContinuousMapping(c: Config, a: nat, b: nat)
    requires Proper(c) && a <= b <= 255
    ensures c.minUs <= c.MicroSec(a) <= c.maxUs
    ensures if c.inverted then c.MicroSec(a) >= c.MicroSec(b) else c.MicroSec(a) <= c.MicroSec(b)
    ensures c.MicroSec(a) == c.midUs <==> Abs(200 * a - 25500) <= 255 * c.deadband
  {
    ContinuousSides(c, c.Safe(a));
    if c.inverted {
      ContinuousMonotone(c, 255 - b, 255 - a);
    } else {
      ContinuousMonotone(c, a, b);
    }
  }

  /** An angular servo whose pulses and times fit 32-bit arithmetic. */
  predicate AngularProper(c: Config) {
    && c.kind == ANGULAR && 0 <= c.minUs <= c.maxUs < TWO32 / 2
    && 255 * (c.maxUs - c.minUs) < TWO32 / 2
    && (c.maxUs - c.minUs) * c.transitionMs < TWO32 / 2
  }

  lemma AngularIs(c: Config, b: nat)
    requires AngularProper(c) && b <= 255
    ensures c.Angular(b) == b * (c.maxUs - c.minUs) / 255 + c.minUs && c.minUs <= c.Angular(b) <= c.maxUs
  {
    var r := c.maxUs - c.minUs;
    assert r % TWO32 == r;
    Products(b, 255, 255, r);
    assert (b * r) % TWO32 == b * r;
    QuotientOrder(b * r, 255 * r, 255);
    LongKeeps(b * r / 255 + c.minUs);
  }

  /** The pulse of an angular servo stays in range and follows the brightness. */
  lemma AngularMapping(c: Config, a: nat, b: nat)
    requires AngularProper(c) && c.Mode() != Relay && a <= b <= 255
    ensures c.minUs <= c.MicroSec(a) <= c.maxUs
    ensures if c.inverted then c.MicroSec(a) >= c.MicroSec(b) else c.MicroSec(a) <= c.MicroSec(b)
    ensures c.MicroSec(if c.inverted then 255 else 0) == c.minUs && c.MicroSec(if c.inverted then 0 else 255) == c.maxUs
  {
    var r := c.maxUs - c.minUs;
    AngularIs(c, 0);
    AngularIs(c, 255);
    AngularIs(c, c.Safe(a));
    AngularIs(c, c.Safe(b));
    var (x, y) := if c.inverted then (c.Safe(b), c.Safe(a)) else (c.Safe(a), c.Safe(b));
    Products(x, y, 255, r);
    QuotientOrder(x * r, y * r, 255);
  }

  /** Where a command sends an angular servo: the share of the way for the brightness, or one end as a relay. */
  lemma AngularTargetIs(c: Config, b: nat)
    requires AngularProper(c) && b <= 255
    ensures c.Target(b) == if c.channel == 2 then (if (b > 0) != c.inverted then c.maxUs else c.minUs)
                           else c.minUs + (if c.inverted then 255 - b else b) * (c.maxUs - c.minUs) / 255
  {
    AngularIs(c, c.Safe(b));
  }

  /** A roller takes its share of the transition time, the same in both directions; stand-still, and a
      continuous servo as a relay, take none. */
  lemma ContinuousDuration(c: Config, start: int, target: int, current: nat, brightness: nat)
    requires c.kind != ANGULAR
    ensures var d := Duration(c, start, target, current, brightness);
            var way := if brightness < current then current - brightness else brightness - current;
            if c.channel == 0 || brightness == 127 then d == 0
            else 255 * d <= c.transitionMs * way < 255 * (d + 1)
  {
  }

  /** A brightness above 255 counts as 255. */
  lemma BrighterIsFull(c: Config, b: nat)
    requires b > 255
    ensures c.MicroSec(b) == c.MicroSec(255) && c.Target(b) == c.Target(255)
  {
  }

  lemma TargetInRange(c: Config, b: nat)
    requires AngularProper(c)
    ensures c.minUs <= c.Target(b) <= c.maxUs && c.minUs <= c.MicroSec(b) <= c.maxUs
  {
    AngularIs(c, c.Safe(b));
  }

  /** `n` scaled down by 255 and up again by `r`, rounding down: at most one below `b`. */
  lemma DownAndUp(b: nat, r: nat, n: nat)
    requires b <= 255 && r >= 255 && n == b * r / 255
    ensures b - 1 <= n * 255 / r <= b
  {
    var q := n * 255 / r;
    assert b * r == 255 * n + b * r % 255 && n * 255 == r * q + n * 255 % r;
    if q > b {
      ProductOrder(b + 1, q, r);
    }
    if q < b - 1 {
      ProductOrder(q + 2, b, r);
    }
  }

  /** The same, rounding up before. */
  lemma UpAndDown(b: nat, r: nat, m: nat)
    requires b <= 255 && r >= 255 && m == r - (255 - b) * r / 255
    ensures m * 255 / r == b
  {
    var n := (255 - b) * r / 255;
    var rest := (255 - b) * r % 255;
    assert (255 - b) * r == 255 * n + rest;
    assert m * 255 == r * b + rest;
    QuotientIs(m * 255, r, b, rest);
  }

  lemma BrightnessIs(c: Config, us: int)
    requires AngularProper(c) && c.minUs < c.maxUs && c.minUs <= us <= c.maxUs
    ensures c.Brightness(us) == (if c.inverted then c.maxUs - us else us - c.minUs) * 255 / (c.maxUs - c.minUs)
  {
    var r := c.maxUs - c.minUs;
    var n := if c.inverted then c.maxUs - us else us - c.minUs;
    Products(n, r, r, 255);
    LongKeeps(n * 255);
    LongKeeps(-(n * 255));
    QuotientOrder(n * 255, r * 255, r);
    QuotientIs(r * 255, r, 255, 0);
  }

  lemma MicroSecIs(c: Config, b: nat, r: int, n: int)
    requires AngularProper(c) && c.Mode() != Relay && b <= 255 && r == c.maxUs - c.minUs && n == c.Safe(b) * r / 255
    ensures c.MicroSec(b) == n + c.minUs && 0 <= n <= r
  {
    AngularIs(c, c.Safe(b));
  }

  /** The brightness of a pulse that is `way` away from the dark end. */
  lemma BrightnessAt(c: Config, us: int, way: int, r: int)
    requires AngularProper(c) && r == c.maxUs - c.minUs > 0 && 0 <= way <= r
    requires us == if c.inverted then c.maxUs - way else c.minUs + way
    ensures c.Brightness(us) == way * 255 / r
  {
    BrightnessIs(c, us);
  }

  /** Reading the brightness back from a pulse, as a stop does: exact when inverted, and at most one too
      low otherwise, if the servo has at least 255 us of way. */
  lemma BrightnessBack(c: Config, b: nat)
    requires AngularProper(c) && c.Mode() != Relay && b <= 255 && c.maxUs - c.minUs >= 255
    ensures if c.inverted then c.Brightness(c.MicroSec(b)) == b else b - 1 <= c.Brightness(c.MicroSec(b)) <= b
  {
    var r := c.maxUs - c.minUs;
    var n := c.Safe(b) * r / 255;
    var way := if c.inverted then r - n else n;
    MicroSecIs(c, b, r, n);
    BrightnessAt(c, c.MicroSec(b), way, r);
    if c.inverted {
      UpAndDown(b, r, way);
    } else {
      DownAndUp(b, r, way);
    }
  }

  /** A relay servo is told where it is by one formula and sent there by another; they agree unless it is
      inverted. */
  lemma RelaySyncIff(c: Config, b: nat)
    requires c.Mode() == Relay
    ensures c.MicroSec(b) == c.Target(b)
            <==> !c.inverted || c.minUs == c.maxUs || (b == 0 && c.kind == CONTINUOUS)
  {
  }
}
