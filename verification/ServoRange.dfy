/** Every pulse in range, for both kinds of servo. */
module ServoRange {
  import opened ServoMotion
  import opened ServoMapping
  import opened ServoSafety
  import opened ServoAngular

  /** A continuous servo with stand-still between its ends; as a roller with a proper mapping. */
  predicate ContinuousProper(c: Config) {
    && c.kind == CONTINUOUS && c.minUs <= c.midUs <= c.maxUs
    && (c.Mode() == RollerShutter ==> Proper(c))
  }

  lemma ContinuousTargets(c: Config, b: nat)
    requires ContinuousProper(c)
    ensures Within(c, c.MicroSec(b)) && Within(c, c.Target(b))
  {
    if c.Mode() == RollerShutter {
      ContinuousSides(c, c.Safe(b));
    }
  }

  predicate ContinuousInRange(c: Config, s: Servo) {
    && Within(c, s.currentUs) && Within(c, s.targetUs)
    && forall i | 0 <= i < |s.pulses| :: Within(c, s.pulses[i])
  }

  /** What every method of the servo keeps: safe, and in range if the configuration is proper. */
  predicate Good(c: Config, s: Servo) {
    && Safe(s)
    && (AngularProper(c) ==> InRange(c, s))
    && (ContinuousProper(c) ==> ContinuousInRange(c, s))
  }

  lemma InitialGood(c: Config, brightness: nat)
    ensures Good(c, Initial(c, brightness))
  {
    if AngularProper(c) { TargetInRange(c, brightness); }
    if ContinuousProper(c) { ContinuousTargets(c, brightness); }
  }

  lemma AdvanceInRange(c: Config, s: Servo, now: nat, stopTime: nat)
    requires ContinuousProper(c) && ContinuousInRange(c, s)
    ensures ContinuousInRange(c, Advance(c, s, now, stopTime))
  {
  }

  lemma LimitInRange(c: Config, s: Servo, now: nat, up: bool, down: bool)
    requires ContinuousProper(c) && ContinuousInRange(c, s)
    ensures ContinuousInRange(c, LimitCheck(c, s, now, up, down))
  {
  }

  lemma TendInRange(c: Config, s: Servo, now: nat, stopTime: nat)
    requires ContinuousProper(c) && ContinuousInRange(c, s)
    ensures ContinuousInRange(c, Tend(c, s, now, stopTime))
  {
    if s.moving {
      var a := Advance(c, s, now, stopTime);
      AdvanceInRange(c, s, now, stopTime);
      SettleSends(c, if Reached(c, s, now) then Arrive(a, now) else a, now);
    } else {
      SettleSends(c, s, now);
    }
  }

  lemma PollInRangeContinuous(c: Config, s: Servo, now: nat, stopTime: nat, up: bool, down: bool)
    requires ContinuousProper(c) && ContinuousInRange(c, s)
    ensures ContinuousInRange(c, OnPoll(c, s, now, stopTime, up, down))
  {
    if s.attached {
      LimitInRange(c, s, stopTime, up, down);
      TendInRange(c, LimitCheck(c, s, stopTime, up, down).(lastPoll := now), now, stopTime);
    }
  }

  lemma ContinuousStep(c: Config, s: Servo, e: Event)
    requires ContinuousProper(c) && ContinuousInRange(c, s)
    ensures ContinuousInRange(c, Step(c, s, e))
  {
    match e {
      case SetValue(b, now) => ContinuousTargets(c, Scale(b));
      case Stop(now) =>
      case Poll(now, stopTime, up, down) => PollInRangeContinuous(c, s, now, stopTime, up, down);
    }
  }

  lemma AngularStep(c: Config, s: Servo, e: Event)
    requires AngularProper(c) && InRange(c, s)
    ensures InRange(c, Step(c, s, e))
  {
    match e {
      case SetValue(b, now) => CommandInRange(c, s, b, now);
      case Stop(now) =>
      case Poll(now, stopTime, up, down) => PollInRange(c, s, now, stopTime, up, down);
    }
  }

  lemma StepGood(c: Config, s: Servo, e: Event)
    requires Good(c, s)
    ensures Good(c, Step(c, s, e))
  {
    StepSafe(c, s, e);
    if AngularProper(c) { AngularStep(c, s, e); }
    if ContinuousProper(c) { ContinuousStep(c, s, e); }
  }

  /** Whatever commands, stops and polls arrive, a servo only gets pulses in its range, and it is attached
      and not waiting to be detached while it moves. */
  lemma {:induction false} PulsesInRange(c: Config, brightness: nat, events: seq<Event>, i: nat)
    requires AngularProper(c) || ContinuousProper(c)
    ensures var s := Run(c, Initial(c, brightness), events);
            Good(c, s) && (i < |s.pulses| ==> c.minUs <= s.pulses[i] <= c.maxUs)
    decreases |events|
  {
    if events == [] {
      InitialGood(c, brightness);
    } else {
      var m := |events| - 1;
      PulsesInRange(c, brightness, events[..m], i);
      StepGood(c, Run(c, Initial(c, brightness), events[..m]), events[m]);
    }
  }
}
