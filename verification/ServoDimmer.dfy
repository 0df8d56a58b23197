/** The servo object: its methods do what the steps of `ServoMotion` say. */
module ServoDimmer {
  import opened CInteger
  import opened ServoMotion
  import opened ServoRange

  class SuplaServoDimmer {
    const c: Config

    var isMoving: bool
    var isAttached: bool
    var firstCloudSync: bool
    var isWaitingToDetach: bool
    var currentBrightness: nat
    var targetBrightness: nat
    var currentMicroSec: int
    var targetMicroSec: int
    var startMicroSec: int
    var lastWrittenMicroSec: int
    var moveStartTimeMs: nat
    var moveDurationMs: nat
    var targetReachedTime: nat
    var lastIterateTime: nat
    /** The pulses that went to the servo. */
    var pulses: seq<int>

    ghost function State(): Servo
      reads this
    {
      Servo(isMoving, isAttached, firstCloudSync, isWaitingToDetach, currentBrightness, targetBrightness,
            currentMicroSec, targetMicroSec, startMicroSec, lastWrittenMicroSec,
            moveStartTimeMs, moveDurationMs, targetReachedTime, lastIterateTime, pulses)
    }

    /** Safe, and in range if the configuration is proper. */
    ghost predicate Valid()
      reads this
    {
      Good(c, State())
    }

    constructor (c: Config, brightness: nat)
      ensures Valid() && this.c == c && State() == Initial(c, brightness)
      ensures !isMoving && !isAttached && firstCloudSync && !isWaitingToDetach && pulses == []
      ensures currentBrightness == targetBrightness == brightness && lastWrittenMicroSec == 0
      ensures currentMicroSec == targetMicroSec == startMicroSec == c.MicroSec(brightness)
    {
      this.c := c;
      isMoving, isAttached, firstCloudSync, isWaitingToDetach := false, false, true, false;
      currentBrightness, targetBrightness := brightness, brightness;
      targetMicroSec, lastWrittenMicroSec := c.MicroSec(brightness), 0;
      currentMicroSec, startMicroSec := c.MicroSec(brightness), c.MicroSec(brightness);
      moveStartTimeMs, moveDurationMs, targetReachedTime, lastIterateTime, pulses := 0, 0, 0, 0, [];
      InitialGood(c, brightness);
    }

    method WriteMicroseconds(us: int)
      modifies this`pulses
      ensures pulses == old(pulses) + [us]
    {
      pulses := pulses + [us];
    }

    method DetachServoSafe()
      modifies this
      ensures State() == Detach(old(State()))
    {
      if isAttached {
        isAttached := false;
        lastWrittenMicroSec := 0;
      }
    }

    method ForceStopAndSync(brightness: nat, now: nat)
      modifies this
      ensures State() == ForceStop(c, old(State()), brightness, now)
    {
      targetMicroSec := if c.kind == CONTINUOUS then c.midUs else currentMicroSec;
      if isAttached {
        WriteMicroseconds(targetMicroSec);
      }
      currentBrightness, targetBrightness := brightness, brightness;
      isMoving := false;
      isWaitingToDetach := true;
      targetReachedTime := now;
    }

    method LimitSwitchCheck360(now: nat, hitUp: bool, hitDown: bool)
      modifies this
      ensures State() == LimitCheck(c, old(State()), now, hitUp, hitDown)
    {
      if !isAttached || c.kind == ANGULAR {
        return;
      }
      if hitUp && targetMicroSec > c.midUs {
        ForceStopAndSync(255, now);
      } else if hitDown && targetMicroSec < c.midUs {
        ForceStopAndSync(0, now);
      }
    }

    /** The stop actions. */
    method HandleStop(now: nat)
      requires Valid()
      modifies this
      ensures Valid() && State() == Step(c, old(State()), Stop(now))
    {
      StepGood(c, State(), Stop(now));
      if c.Mode() == RollerShutter {
        var b := if c.kind == CONTINUOUS then 127 else c.Brightness(currentMicroSec);
        ForceStopAndSync(b, now);
      }
    }

    method TargetPulse() returns (us: int)
      ensures us == c.Target(targetBrightness)
    {
      match c.Mode()
      case Dimmer => us := c.MicroSec(targetBrightness);
      case RollerShutter => us := c.MicroSec(targetBrightness);
      case Relay =>
        if targetBrightness > 0 {
          us := if c.inverted then c.minUs else c.maxUs;
        } else {
          us := if c.kind == CONTINUOUS then c.midUs else if c.inverted then c.maxUs else c.minUs;
        }
    }

    method PlanDuration()
      modifies this`moveDurationMs
      ensures moveDurationMs == Duration(c, startMicroSec, targetMicroSec, currentBrightness, targetBrightness)
    {
      if c.kind == ANGULAR {
        var deltaUs := Abs(targetMicroSec - startMicroSec);
        var spanUs := Abs(c.maxUs - c.minUs);
        moveDurationMs := if spanUs > 0 then (deltaUs * c.transitionMs) % TWO32 / spanUs else 0;
      } else {
        var isRoller := c.Mode() == RollerShutter;
        if isRoller && targetBrightness != 127 {
          moveDurationMs := c.transitionMs * Abs(targetBrightness - currentBrightness) / 255;
        } else {
          moveDurationMs := 0;
        }
      }
    }

    method SyncWith(target255: nat)
      modifies this
      ensures State() == Synced(c, old(State()), target255)
    {
      currentBrightness := target255;
      targetMicroSec := c.MicroSec(currentBrightness);
      currentMicroSec := targetMicroSec;
      startMicroSec := currentMicroSec;
      firstCloudSync := false;
    }

    method BeginMove(now: nat)
      modifies this
      ensures State() == old(State()).(moveStart := now, moving := true, waiting := false, attached := true)
    {
      moveStartTimeMs := now;
      isMoving := true;
      isWaitingToDetach := false;
      if !isAttached {
        isAttached := true;
      }
    }

    method MoveTo(target255: nat, now: nat)
      modifies this
      ensures State() == Sent(c, old(State()), target255, now)
    {
      targetBrightness := target255;
      startMicroSec := currentMicroSec;
      targetMicroSec := TargetPulse();
      PlanDuration();
      BeginMove(now);
    }

    method SetRGBWValueOnDevice(brightness: nat, now: nat)
      requires Valid()
      modifies this
      ensures Valid() && State() == Step(c, old(State()), SetValue(brightness, now))
    {
      StepGood(c, State(), SetValue(brightness, now));
      var target255 := Scale(brightness);
      if firstCloudSync {
        SyncWith(target255);
      } else {
        MoveTo(target255, now);
      }
    }

    method AdvanceAngular(now: nat) returns (reached: bool)
      requires c.kind == ANGULAR
      modifies this
      ensures State() == Advance(c, old(State()), now, 0) && reached == Reached(c, old(State()), now)
    {
      var elapsed := Since(now, moveStartTimeMs);
      if elapsed < moveDurationMs {
        currentMicroSec := Map(elapsed, 0, moveDurationMs, startMicroSec, targetMicroSec);
        reached := false;
      } else {
        currentMicroSec := targetMicroSec;
        reached := true;
      }
      WriteIfChanged();
    }

    method AdvanceContinuous(now: nat, stopTime: nat) returns (reached: bool)
      requires c.kind != ANGULAR
      modifies this
      ensures State() == Advance(c, old(State()), now, stopTime) && reached == Reached(c, old(State()), now)
    {
      currentMicroSec := targetMicroSec;
      reached := false;
      if c.Mode() == RollerShutter && targetMicroSec != c.midUs {
        if Since(now, moveStartTimeMs) >= moveDurationMs {
          ForceStopAndSync(127, stopTime);
          reached := true;
        }
      } else if targetMicroSec == c.midUs {
        reached := true;
      }
      WriteIfChanged();
    }

    method WriteIfChanged()
      modifies this`pulses, this`lastWrittenMicroSec
      ensures State() == Write(old(State()), old(currentMicroSec))
    {
      if currentMicroSec != lastWrittenMicroSec {
        WriteMicroseconds(currentMicroSec);
        lastWrittenMicroSec := currentMicroSec;
      }
    }

    /** The move part of a poll, and the mark that the target is reached. */
    method Move(now: nat, stopTime: nat)
      modifies this
      ensures State() == if old(isMoving) then
                           var a := Advance(c, old(State()), now, stopTime);
                           if Reached(c, old(State()), now) then Arrive(a, now) else a
                         else old(State())
    {
      var reached := false;
      if isMoving {
        if c.kind == ANGULAR {
          reached := AdvanceAngular(now);
        } else {
          reached := AdvanceContinuous(now, stopTime);
        }
      }
      if reached {
        isMoving := false;
        if !isWaitingToDetach {
          targetReachedTime := now;
          isWaitingToDetach := true;
        }
      }
    }

    /** The delayed detach. */
    method DetachWhenDue(now: nat)
      modifies this
      ensures State() == Settle(c, old(State()), now)
    {
      if isWaitingToDetach && c.detachDelayMs > 0 {
        if Since(now, targetReachedTime) >= c.detachDelayMs {
          if c.kind == ANGULAR || (c.kind == CONTINUOUS && currentMicroSec == c.midUs) {
            DetachServoSafe();
          }
          isWaitingToDetach := false;
        }
      }
    }

    method IterateAlways(now: nat, stopTime: nat, hitUp: bool, hitDown: bool)
      requires Valid()
      modifies this
      ensures Valid() && State() == Step(c, old(State()), Poll(now, stopTime, hitUp, hitDown))
    {
      StepGood(c, State(), Poll(now, stopTime, hitUp, hitDown));
      if !isAttached {
        return;
      }
      LimitSwitchCheck360(stopTime, hitUp, hitDown);
      if Since(now, lastIterateTime) < 20 {
        return;
      }
      lastIterateTime := now;
      Move(now, stopTime);
      DetachWhenDue(now);
    }
  }
}
