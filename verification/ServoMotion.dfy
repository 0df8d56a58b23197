/** The motion of a servo, on values: the pulse for a brightness, and one step per command, stop or poll. */
module ServoMotion {
  import opened CInteger

  // ----- Arithmetic of the controller -----

  /** `millis()` after `t` milliseconds. */
  function Tick(t: nat): nat {
    t % TWO32
  }

  /** Unsigned 32-bit difference. */
  function Since(now: nat, before: nat): nat {
    (now - before) % TWO32
  }

  /** A value stored in a signed 32-bit word. */
  function Long(x: int): int {
    (x + TWO32 / 2) % TWO32 - TWO32 / 2
  }

  /** The reference formula of Arduino's `map`. */
  function Map(x: int, inMin: int, inMax: int, outMin: int, outMax: int): int
    requires inMin != inMax
  {
    TruncDiv(Long((x - inMin) * (outMax - outMin)), inMax - inMin) + outMin
  }

  function Abs(x: int): nat {
    if x < 0 then -x else x
  }

  function Constrain(x: int, low: int, high: int): int {
    if x < low then low else if x > high then high else x
  }

  // ----- Configuration -----

  datatype Mode = Dimmer | Relay | RollerShutter

  const ANGULAR := 0
  const CONTINUOUS := 1

  datatype Config = Config(kind: nat, channel: nat, inverted: bool, minUs: int, midUs: int, maxUs: int,
                           transitionMs: nat, detachDelayMs: nat, deadband: int)
  {
    function Mode(): Mode {
      if kind == ANGULAR then
        if channel == 2 then Relay else if channel == 0 then RollerShutter else Dimmer
      else if channel == 0 then Relay else RollerShutter
    }

    function Span(): nat {
      Abs(maxUs - minUs)
    }

    /** Brightness as the servo sees it. */
    function Safe(brightness: nat): (b: nat)
      ensures b <= 255
    {
      var b := if brightness > 255 then 255 else brightness;
      if inverted then 255 - b else b
    }

    /** At most half the dead band, in percent, away from 50 %; in units of 1/510 percent. */
    predicate InDeadband(b: nat) {
      Abs(200 * b - 25500) <= 255 * deadband
    }

    function Offset(): int {
      TruncDiv(deadband * 255, 200)
    }

    function Continuous(b: nat): int
      requires b <= 255
    {
      if InDeadband(b) then midUs
      else if 200 * b > 25500 then
        assert Offset() != 127;
        Map(b, 128 + Offset(), 255, midUs + 40, maxUs)
      else
        assert Offset() != 127;
        Map(b, 0, 127 - Offset(), minUs, midUs - 40)
    }

    /** 32-bit unsigned arithmetic, stored in a signed word. */
    function Angular(b: nat): int
      requires b <= 255
    {
      Long((b * ((maxUs - minUs) % TWO32)) % TWO32 / 255 + minUs)
    }

    /** `calculateMicroSec`: the pulse for a brightness. */
    function MicroSec(brightness: nat): int {
      if Mode() == Relay then
        if brightness == 0 then (if kind == CONTINUOUS then midUs else minUs) else maxUs
      else if kind == CONTINUOUS then Continuous(Safe(brightness))
      else Angular(Safe(brightness))
    }

    /** `calculateBrightnessFromMicroSec`. */
    function Brightness(us: int): (b: nat)
      ensures b <= 255
    {
      if maxUs == minUs then 0
      else
        var (low, high) := if inverted then (maxUs, minUs) else (minUs, maxUs);
        Constrain(Map(us, low, high, 0, 255), 0, 255)
    }

    /** Where a command sends the servo. */
    function Target(brightness: nat): int {
      if Mode() == Relay then
        if brightness > 0 then (if inverted then minUs else maxUs)
        else if kind == CONTINUOUS then midUs
        else if inverted then maxUs else minUs
      else MicroSec(brightness)
    }
  }

  // ----- State and steps -----

  datatype Servo = Servo(moving: bool, attached: bool, firstSync: bool, waiting: bool,
                         currentBrightness: nat, targetBrightness: nat,
                         currentUs: int, targetUs: int, startUs: int, lastWrittenUs: int,
                         moveStart: nat, moveDuration: nat, reachedAt: nat, lastPoll: nat,
                         pulses: seq<int>)

  /** After start-up with `brightness` read from the channel. */
  function Initial(c: Config, brightness: nat): Servo {
    var us := c.MicroSec(brightness);
    Servo(false, false, true, false, brightness, brightness, us, us, us, 0, 0, 0, 0, 0, [])
  }

  datatype Event =
    | SetValue(brightness: nat, now: nat)
    | Stop(now: nat)
    | Poll(now: nat, stopTime: nat, up: bool, down: bool)

  /** 10-bit brightness on the 8-bit scale. */
  function Scale(brightness: nat): (b: nat)
    ensures b <= 255
  {
    Map(Constrain(brightness, 0, 1023), 0, 1023, 0, 255)
  }

  /** How long a move takes: by the way in microseconds, or by the way in brightness. */
  function Duration(c: Config, start: int, target: int, current: nat, brightness: nat): (d: nat) {
    if c.kind == ANGULAR then
      if c.Span() > 0 then (Abs(target - start) * c.transitionMs) % TWO32 / c.Span() else 0
    else if c.Mode() == RollerShutter && brightness != 127 then
      c.transitionMs * Abs(brightness - current) / 255
    else 0
  }

  /** The first value only tells where the servo is. */
  function Synced(c: Config, s: Servo, b: nat): Servo {
    var us := c.MicroSec(b);
    s.(firstSync := false, currentBrightness := b, targetUs := us, currentUs := us, startUs := us)
  }

  /** A later value starts a move. */
  function Sent(c: Config, s: Servo, b: nat, now: nat): Servo {
    var target := c.Target(b);
    s.(targetBrightness := b, startUs := s.currentUs, targetUs := target,
       moveDuration := Duration(c, s.currentUs, target, s.currentBrightness, b), moveStart := now,
       moving := true, waiting := false, attached := true)
  }

  /** `setRGBWValueOnDevice`. */
  function Command(c: Config, s: Servo, brightness: nat, now: nat): Servo {
    if s.firstSync then Synced(c, s, Scale(brightness)) else Sent(c, s, Scale(brightness), now)
  }

  /** `forceStopAndSync`. */
  function ForceStop(c: Config, s: Servo, brightness: nat, now: nat): Servo {
    var us := if c.kind == CONTINUOUS then c.midUs else s.currentUs;
    s.(targetUs := us, pulses := if s.attached then s.pulses + [us] else s.pulses,
       currentBrightness := brightness, targetBrightness := brightness,
       moving := false, waiting := true, reachedAt := now)
  }

  /** A stop action; in the other modes actions only lead to commands. */
  function StopAction(c: Config, s: Servo, now: nat): Servo {
    if c.Mode() == RollerShutter then
      ForceStop(c, s, if c.kind == CONTINUOUS then 127 else c.Brightness(s.currentUs), now)
    else s
  }

  function LimitCheck(c: Config, s: Servo, now: nat, up: bool, down: bool): Servo {
    if !s.attached || c.kind == ANGULAR then s
    else if up && s.targetUs > c.midUs then ForceStop(c, s, 255, now)
    else if down && s.targetUs < c.midUs then ForceStop(c, s, 0, now)
    else s
  }

  /** Where an angular servo is `elapsed` milliseconds into its move. */
  function Position(s: Servo, elapsed: nat): int {
    if elapsed < s.moveDuration then Map(elapsed, 0, s.moveDuration, s.startUs, s.targetUs) else s.targetUs
  }

  /** A pulse is written when it differs from the last one written here. */
  function Write(s: Servo, us: int): Servo {
    if us != s.lastWrittenUs then s.(pulses := s.pulses + [us], lastWrittenUs := us) else s
  }

  predicate TimedStop(c: Config, s: Servo, now: nat) {
    && c.Mode() == RollerShutter && s.targetUs != c.midUs && Since(now, s.moveStart) >= s.moveDuration
  }

  predicate Reached(c: Config, s: Servo, now: nat) {
    if c.kind == ANGULAR then Since(now, s.moveStart) >= s.moveDuration
    else TimedStop(c, s, now) || s.targetUs == c.midUs
  }

  /** The move part of a poll. */
  function Advance(c: Config, s: Servo, now: nat, stopTime: nat): Servo {
    if c.kind == ANGULAR then
      var us := Position(s, Since(now, s.moveStart));
      Write(s.(currentUs := us), us)
    else
      var t := s.(currentUs := s.targetUs);
      var u := if TimedStop(c, s, now) then ForceStop(c, t, 127, stopTime) else t;
      Write(u, s.targetUs)
  }

  function Arrive(s: Servo, now: nat): Servo {
    if s.waiting then s.(moving := false) else s.(moving := false, waiting := true, reachedAt := now)
  }

  function Detach(s: Servo): Servo {
    if s.attached then s.(attached := false, lastWrittenUs := 0) else s
  }

  /** Delayed detach: a continuous servo is detached only where it stands still. */
  function Settle(c: Config, s: Servo, now: nat): Servo {
    if s.waiting && c.detachDelayMs > 0 && Since(now, s.reachedAt) >= c.detachDelayMs then
      var d := if c.kind == ANGULAR || (c.kind == CONTINUOUS && s.currentUs == c.midUs) then Detach(s) else s;
      d.(waiting := false)
    else s
  }

  function Tend(c: Config, s: Servo, now: nat, stopTime: nat): Servo {
    if s.moving then
      var a := Advance(c, s, now, stopTime);
      Settle(c, if Reached(c, s, now) then Arrive(a, now) else a, now)
    else Settle(c, s, now)
  }

  /** `iterateAlways`: at most every 20 ms. */
  function OnPoll(c: Config, s: Servo, now: nat, stopTime: nat, up: bool, down: bool): Servo {
    if !s.attached then s
    else
      var l := LimitCheck(c, s, stopTime, up, down);
      if Since(now, l.lastPoll) < 20 then l else Tend(c, l.(lastPoll := now), now, stopTime)
  }

  function Step(c: Config, s: Servo, e: Event): Servo {
    match e
    case SetValue(b, now) => Command(c, s, b, now)
    case Stop(now) => StopAction(c, s, now)
    case Poll(now, stopTime, up, down) => OnPoll(c, s, now, stopTime, up, down)
  }

  function Run(c: Config, s: Servo, events: seq<Event>): Servo {
    if events == [] then s else Step(c, Run(c, s, events[..|events| - 1]), events[|events| - 1])
  }
}
