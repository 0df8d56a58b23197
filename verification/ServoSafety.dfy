/** What holds in every reachable state of a servo, and how a continuous servo stops. */
module ServoSafety {
  import opened ServoMotion

  predicate Safe(s: Servo) {
    && (s.moving ==> s.attached && !s.waiting)
    && (s.firstSync ==> !s.moving)
  }

  lemma PollSafe(c: Config, s: Servo, now: nat, stopTime: nat, up: bool, down: bool)
    requires Safe(s)
    ensures Safe(OnPoll(c, s, now, stopTime, up, down))
  {
  }

  lemma StepSafe(c: Config, s: Servo, e: Event)
    requires Safe(s)
    ensures Safe(Step(c, s, e))
  {
    if e.Poll? { PollSafe(c, s, e.now, e.stopTime, e.up, e.down); }
  }

  /** In every run the servo is attached and not waiting to be detached while it moves. */
  lemma {:induction false} RunSafe(c: Config, brightness: nat, events: seq<Event>)
    ensures Safe(Run(c, Initial(c, brightness), events))
    decreases |events|
  {
    if events != [] {
      RunSafe(c, brightness, events[..|events| - 1]);
      StepSafe(c, Run(c, Initial(c, brightness), events[..|events| - 1]), events[|events| - 1]);
    }
  }

  lemma TendAttachment(c: Config, s: Servo, now: nat, stopTime: nat)
    requires Safe(s) && s.attached
    ensures var t := Tend(c, s, now, stopTime);
            && (!t.attached ==> !t.moving && (c.kind == ANGULAR || t.currentUs == c.midUs))
            && (!t.attached ==> 0 < c.detachDelayMs <= Since(now, t.reachedAt))
            && s.pulses <= t.pulses
  {
  }

  lemma LimitKeeps(c: Config, s: Servo, now: nat, up: bool, down: bool)
    requires Safe(s)
    ensures var l := LimitCheck(c, s, now, up, down);
            Safe(l) && l.attached == s.attached && s.pulses <= l.pulses
  {
  }

  /** A step detaches the servo only in a poll that leaves it at rest for the detach delay, a continuous
      one only at its stand-still pulse; pulses only go to an attached servo, and none is ever taken back. */
  lemma StepAttachment(c: Config, s: Servo, e: Event)
    requires Safe(s)
    ensures var t := Step(c, s, e);
            && (s.attached && !t.attached ==>
                  && e.Poll? && !t.moving && (c.kind == ANGULAR || t.currentUs == c.midUs)
                  && 0 < c.detachDelayMs <= Since(e.now, t.reachedAt))
            && (t.attached && !s.attached ==> e.SetValue?)
            && (t.pulses != s.pulses ==> s.attached) && s.pulses <= t.pulses
  {
    if e.Poll? && s.attached {
      LimitKeeps(c, s, e.stopTime, e.up, e.down);
      TendAttachment(c, LimitCheck(c, s, e.stopTime, e.up, e.down).(lastPoll := e.now), e.now, e.stopTime);
    }
  }

  // ----- A continuous servo that was stopped -----

  /** Only stand-still pulses from `n` on. */
  predicate OnlyMid(c: Config, pulses: seq<int>, n: nat) {
    n <= |pulses| && forall i | n <= i < |pulses| :: pulses[i] == c.midUs
  }

  predicate Resting(c: Config, s: Servo) {
    !s.moving && s.targetUs == c.midUs
  }

  lemma StepResting(c: Config, s: Servo, e: Event, n: nat)
    requires c.kind == CONTINUOUS && Resting(c, s) && OnlyMid(c, s.pulses, n) && !e.SetValue?
    ensures Resting(c, Step(c, s, e)) && OnlyMid(c, Step(c, s, e).pulses, n)
    ensures s.currentUs != c.midUs && s.attached ==>
              var t := Step(c, s, e);
              && t.attached && t.currentUs == s.currentUs && t.lastWrittenUs == s.lastWrittenUs
              && t.firstSync == s.firstSync
  {
  }

  /** Until the next command a resting servo gets no other pulse than stand-still; and unless it was
      sent there, it stays attached for good. */
  lemma {:induction false} RunResting(c: Config, s: Servo, events: seq<Event>, n: nat)
    requires c.kind == CONTINUOUS && Resting(c, s) && OnlyMid(c, s.pulses, n)
    requires forall i | 0 <= i < |events| :: !events[i].SetValue?
    ensures Resting(c, Run(c, s, events)) && OnlyMid(c, Run(c, s, events).pulses, n)
    ensures s.currentUs != c.midUs && s.attached ==>
              var t := Run(c, s, events);
              && t.attached && t.currentUs == s.currentUs && t.lastWrittenUs == s.lastWrittenUs
              && t.firstSync == s.firstSync
    decreases |events|
  {
    if events != [] {
      var m := |events| - 1;
      RunResting(c, s, events[..m], n);
      StepResting(c, Run(c, s, events[..m]), events[m], n);
    }
  }

  /** The limit switch ahead of the servo is closed. */
  predicate AtLimit(c: Config, s: Servo, up: bool, down: bool) {
    (up && s.targetUs > c.midUs) || (down && s.targetUs < c.midUs)
  }

  /** A limit switch stops an attached continuous servo in the very poll that sees it, and only
      stand-still pulses follow until the next command. */
  lemma LimitStop(c: Config, s: Servo, now: nat, stopTime: nat, up: bool, down: bool, events: seq<Event>)
    requires c.kind == CONTINUOUS && s.attached && AtLimit(c, s, up, down)
    requires forall i | 0 <= i < |events| :: !events[i].SetValue?
    ensures var stopped := OnPoll(c, s, now, stopTime, up, down);
            && stopped.pulses == s.pulses + [c.midUs]
            && OnlyMid(c, Run(c, stopped, events).pulses, |s.pulses|) && !Run(c, stopped, events).moving
  {
    var stopped := OnPoll(c, s, now, stopTime, up, down);
    RunResting(c, stopped, events, |s.pulses|);
  }

  // ----- Timed moves of a continuous roller -----

  predicate Effective(s: Servo, now: nat) {
    s.attached && Since(now, s.lastPoll) >= 20
  }

  /** A roller on a timed move to `target`. */
  predicate Rolling(c: Config, s: Servo, target: int) {
    && c.kind == CONTINUOUS && c.Mode() == RollerShutter && target != c.midUs
    && s.moving && s.attached && !s.waiting && s.targetUs == target
  }

  predicate Due(s: Servo, now: nat) {
    Since(now, s.moveStart) >= s.moveDuration
  }

  /** A poll during the move sends the pulse of the target, unless that was the last one written by a
      poll. */
  lemma RollingPoll(c: Config, s: Servo, target: int, now: nat, stopTime: nat, up: bool, down: bool)
    requires Rolling(c, s, target) && !AtLimit(c, s, up, down) && Effective(s, now) && !Due(s, now)
    ensures var t := OnPoll(c, s, now, stopTime, up, down);
            && Rolling(c, t, target) && t.lastWrittenUs == target
            && t.moveStart == s.moveStart && t.moveDuration == s.moveDuration
            && t.lastPoll == now && t.firstSync == s.firstSync
            && t.pulses == if s.lastWrittenUs == target then s.pulses else s.pulses + [target]
  {
  }

  /** The poll that ends a timed move sends stand-still, and then once more the pulse of the target if no
      poll had sent it before: the last pulse is stand-still exactly when one had. */
  lemma TimedStopIff(c: Config, s: Servo, target: int, now: nat, stopTime: nat, up: bool, down: bool)
    requires Rolling(c, s, target) && !AtLimit(c, s, up, down) && Effective(s, now) && Due(s, now)
    ensures var t := OnPoll(c, s, now, stopTime, up, down);
            && t.firstSync == s.firstSync && t.lastPoll == now && t.currentBrightness == 127
            && Resting(c, t) && t.attached && t.currentUs == t.lastWrittenUs == target && t.pulses != []
            && t.pulses == s.pulses + (if s.lastWrittenUs == target then [c.midUs] else [c.midUs, target])
            && (t.pulses[|t.pulses| - 1] == c.midUs <==> s.lastWrittenUs == target)
            && t.reachedAt == stopTime && t.targetUs == c.midUs
  {
  }

  /** Polls of a timed move, none of them at a limit switch. */
  predicate FreePolls(c: Config, target: int, events: seq<Event>) {
    forall i | 0 <= i < |events| ::
      events[i].Poll? && !(events[i].up && target > c.midUs) && !(events[i].down && target < c.midUs)
  }

  lemma RollingStep(c: Config, s: Servo, target: int, e: Event, n: nat)
    requires FreePolls(c, target, [e]) && n <= |s.pulses|
    requires || (Rolling(c, s, target) && s.lastWrittenUs == target)
             || (c.kind == CONTINUOUS && Resting(c, s) && OnlyMid(c, s.pulses, n))
    requires Rolling(c, s, target) ==> n == |s.pulses|
    ensures var t := Step(c, s, e);
            || (Rolling(c, t, target) && t.lastWrittenUs == target && t.pulses == s.pulses && n == |s.pulses|)
            || (Resting(c, t) && OnlyMid(c, t.pulses, n))
  {
    var e0 := [e][0];
    if Rolling(c, s, target) {
      if Effective(s, e.now) {
        if Due(s, e.now) {
          TimedStopIff(c, s, target, e.now, e.stopTime, e.up, e.down);
        } else {
          RollingPoll(c, s, target, e.now, e.stopTime, e.up, e.down);
        }
      }
    } else {
      StepResting(c, s, e, n);
    }
  }

  /** Once a poll has sent the pulse of the target, a timed move ends in stand-still: whatever polls
      follow, all further pulses are stand-still. */
  lemma {:induction false} TimedMoveEndsAtRest(c: Config, s: Servo, target: int, events: seq<Event>)
    requires Rolling(c, s, target) && s.lastWrittenUs == target && FreePolls(c, target, events)
    ensures var t := Run(c, s, events);
            || (Rolling(c, t, target) && t.lastWrittenUs == target && t.pulses == s.pulses)
            || (Resting(c, t) && OnlyMid(c, t.pulses, |s.pulses|))
    decreases |events|
  {
    if events != [] {
      var m := |events| - 1;
      TimedMoveEndsAtRest(c, s, target, events[..m]);
      assert FreePolls(c, target, [events[m]]);
      RollingStep(c, Run(c, s, events[..m]), target, events[m], |s.pulses|);
    }
  }

  // ----- A command that repeats the last one -----

  function Last(pulses: seq<int>, otherwise: int): int {
    if pulses == [] then otherwise else pulses[|pulses| - 1]
  }

  /** A command to a roller, then a poll before the move is over: the servo has got the pulse exactly if
      it is not the one that a poll wrote last, or the servo has it still. Stops do not count as
      written: repeating the command that a stop ended has no effect. */
  lemma CommandReachesIff(c: Config, s: Servo, brightness: nat, start: nat,
                          now: nat, stopTime: nat, up: bool, down: bool)
    requires c.kind == CONTINUOUS && c.Mode() == RollerShutter && !s.firstSync
    requires var u := Command(c, s, brightness, start);
             u.targetUs != c.midUs && !AtLimit(c, u, up, down) && Effective(u, now) && !Due(u, now)
    ensures var u := Command(c, s, brightness, start);
            var t := OnPoll(c, u, now, stopTime, up, down);
            Last(t.pulses, 0) == u.targetUs <==> s.lastWrittenUs != u.targetUs || Last(s.pulses, 0) == u.targetUs
  {
    var u := Command(c, s, brightness, start);
    RollingPoll(c, u, u.targetUs, now, stopTime, up, down);
  }

  /** A stopped roller whose last move went to `target`. */
  predicate StoppedFrom(c: Config, s: Servo, target: int) {
    && c.kind == CONTINUOUS && c.Mode() == RollerShutter && target != c.midUs
    && Resting(c, s) && s.attached && s.currentUs == s.lastWrittenUs == target && Last(s.pulses, 0) == c.midUs
  }

  /** Stops and polls keep it so. */
  lemma StaysStopped(c: Config, s: Servo, target: int, events: seq<Event>)
    requires StoppedFrom(c, s, target) && s.pulses != []
    requires forall i | 0 <= i < |events| :: !events[i].SetValue?
    ensures StoppedFrom(c, Run(c, s, events), target) && Run(c, s, events).firstSync == s.firstSync
  {
    RunResting(c, s, events, |s.pulses| - 1);
  }

  /** Sending a stopped roller where it last went does nothing: in a poll during the new move its last
      pulse is still stand-still. */
  lemma RepeatedCommandIsLost(c: Config, s: Servo, target: int, brightness: nat, start: nat,
                              now: nat, stopTime: nat, up: bool, down: bool)
    requires StoppedFrom(c, s, target) && !s.firstSync && c.Target(Scale(brightness)) == target
    requires var u := Command(c, s, brightness, start);
             !AtLimit(c, u, up, down) && Effective(u, now) && !Due(u, now)
    ensures var t := OnPoll(c, Command(c, s, brightness, start), now, stopTime, up, down);
            t.moving && t.targetUs == target && Last(t.pulses, 0) == c.midUs
  {
    RollingPoll(c, Command(c, s, brightness, start), target, now, stopTime, up, down);
  }

  /** Nor does the whole move: however it is polled, all it sends is stand-still. */
  lemma RepeatedMoveIsLost(c: Config, s: Servo, target: int, brightness: nat, start: nat, events: seq<Event>)
    requires StoppedFrom(c, s, target) && !s.firstSync && c.Target(Scale(brightness)) == target
    requires FreePolls(c, target, events)
    ensures OnlyMid(c, Run(c, Command(c, s, brightness, start), events).pulses, |s.pulses|)
  {
    TimedMoveEndsAtRest(c, Command(c, s, brightness, start), target, events);
  }

  /** The whole story: a timed move whose pulse a poll had sent ends by time; stops and polls go by; the
      same command is given again and polled in any way. From the end of the first move on, the servo gets
      nothing but stand-still. */
  lemma RollOnce(c: Config, s: Servo, target: int, end: Event, between: seq<Event>, brightness: nat, start: nat,
                 events: seq<Event>)
    requires Rolling(c, s, target) && s.lastWrittenUs == target && !s.firstSync
    requires end.Poll? && !AtLimit(c, s, end.up, end.down) && Effective(s, end.now) && Due(s, end.now)
    requires forall i | 0 <= i < |between| :: !between[i].SetValue?
    requires c.Target(Scale(brightness)) == target && FreePolls(c, target, events)
    ensures var stopped := Run(c, Step(c, s, end), between);
            OnlyMid(c, Run(c, Command(c, stopped, brightness, start), events).pulses, |s.pulses|)
  {
    var ended := Step(c, s, end);
    TimedStopIff(c, s, target, end.now, end.stopTime, end.up, end.down);
    StaysStopped(c, ended, target, between);
    RunResting(c, ended, between, |s.pulses|);
    var stopped := Run(c, ended, between);
    RepeatedMoveIsLost(c, stopped, target, brightness, start, events);
    AppendOnly(c, Command(c, stopped, brightness, start), events);
  }

  lemma {:induction false} AppendOnly(c: Config, s: Servo, events: seq<Event>)
    ensures s.pulses <= Run(c, s, events).pulses
    decreases |events|
  {
    if events != [] {
      var m := |events| - 1;
      AppendOnly(c, s, events[..m]);
      StepAppends(c, Run(c, s, events[..m]), events[m]);
    }
  }

  lemma AdvanceAppends(c: Config, s: Servo, now: nat, stopTime: nat)
    ensures s.pulses <= Advance(c, s, now, stopTime).pulses
  {
  }

  lemma SettleSends(c: Config, s: Servo, now: nat)
    ensures var t := Settle(c, s, now);
            t.pulses == s.pulses && t.currentUs == s.currentUs && t.targetUs == s.targetUs
  {
  }

  lemma TendAppends(c: Config, s: Servo, now: nat, stopTime: nat)
    ensures s.pulses <= Tend(c, s, now, stopTime).pulses
  {
    if s.moving {
      var a := Advance(c, s, now, stopTime);
      AdvanceAppends(c, s, now, stopTime);
      SettleSends(c, if Reached(c, s, now) then Arrive(a, now) else a, now);
    } else {
      SettleSends(c, s, now);
    }
  }

  lemma StepAppends(c: Config, s: Servo, e: Event)
    ensures s.pulses <= Step(c, s, e).pulses
  {
    if e.Poll? && s.attached {
      TendAppends(c, LimitCheck(c, s, e.stopTime, e.up, e.down).(lastPoll := e.now), e.now, e.stopTime);
    }
  }

  /** A command, a poll on the way, a poll when the time is over, the same command, a poll on the way. */
  function RollTwice(c: Config, s: Servo, brightness: nat, t: seq<nat>): Servo
    requires |t| == 5
  {
    var sent := OnPoll(c, Command(c, s, brightness, t[0]), t[1], t[1], false, false);
    var stopped := OnPoll(c, sent, t[2], t[2], false, false);
    OnPoll(c, Command(c, stopped, brightness, t[3]), t[4], t[4], false, false)
  }

  predicate OnTime(s: Servo, t: seq<nat>, first: nat, second: nat) {
    && |t| == 5
    && Since(t[1], s.lastPoll) >= 20 && Since(t[1], t[0]) < first
    && Since(t[2], t[1]) >= 20 && Since(t[2], t[0]) >= first
    && Since(t[4], t[2]) >= 20 && Since(t[4], t[3]) < second
  }

  /** The first move sends the target's pulse and stand-still; the second one sends nothing. */
  lemma SecondRollIsLost(c: Config, s: Servo, brightness: nat, t: seq<nat>)
    requires c.kind == CONTINUOUS && c.Mode() == RollerShutter && !s.firstSync
    requires c.Target(Scale(brightness)) != c.midUs && s.lastWrittenUs != c.Target(Scale(brightness))
    requires OnTime(s, t, Duration(c, 0, 0, s.currentBrightness, Scale(brightness)),
                    Duration(c, 0, 0, 127, Scale(brightness)))
    ensures var u := RollTwice(c, s, brightness, t);
            && u.moving && u.targetUs == c.Target(Scale(brightness))
            && u.pulses == s.pulses + [c.Target(Scale(brightness)), c.midUs]
  {
    var target := c.Target(Scale(brightness));
    var up := Command(c, s, brightness, t[0]);
    RollingPoll(c, up, target, t[1], t[1], false, false);
    var sent := OnPoll(c, up, t[1], t[1], false, false);
    TimedStopIff(c, sent, target, t[2], t[2], false, false);
    var stopped := OnPoll(c, sent, t[2], t[2], false, false);
    RollingPoll(c, Command(c, stopped, brightness, t[3]), target, t[4], t[4], false, false);
  }
}

/** A repeated command on concrete numbers. */
module ServoExample {
  import opened ServoMotion
  import opened ServoSafety

  /** A roller: 1000 to 2000 us, stand-still at 1500, a second for the whole way, never detached. */
  predicate IsRoller(c: Config) {
    && c.kind == CONTINUOUS && c.channel == 1 && !c.inverted && c.deadband == 0
    && c.minUs == 1000 && c.midUs == 1500 && c.maxUs == 2000 && c.transitionMs == 1000 && c.detachDelayMs == 0
  }

  lemma FullScale(b: nat)
    requires b == 1023
    ensures Scale(b) == 255
  {
    assert Long(b * 255) == b * 255;
  }

  lemma FullPulse(c: Config, b: nat)
    requires IsRoller(c) && b == 255
    ensures c.Target(b) == 2000
  {
    assert c.Offset() == 0 && !c.InDeadband(b);
    assert Long((b - 128) * 460) == (b - 128) * 460;
    assert c.Continuous(b) == Map(b, 128, 255, 1540, 2000);
  }

  lemma Durations(c: Config, current: nat, b: nat)
    requires IsRoller(c) && b == 255
    ensures current == 0 ==> Duration(c, 0, 0, current, b) == 1000
    ensures current == 127 ==> Duration(c, 0, 0, current, b) == 501
  {
  }

  /** From the lower end: sent fully up, stopped when the second is over, sent fully up again. The servo
      counts as moving, but its last pulse is stand-still. */
  lemma SecondRollExample(c: Config, s: Servo, brightness: nat, t: seq<nat>)
    requires IsRoller(c) && brightness == 1023 && t == [100, 120, 1200, 2000, 2020]
    requires !s.firstSync && s.currentBrightness == 0 && s.lastWrittenUs == 0 && s.lastPoll == 0 && s.pulses == []
    ensures RollTwice(c, s, brightness, t).moving && RollTwice(c, s, brightness, t).pulses == [2000, 1500]
  {
    FullScale(brightness);
    FullPulse(c, Scale(brightness));
    Durations(c, 0, Scale(brightness));
    Durations(c, 127, Scale(brightness));
    SecondRollIsLost(c, s, brightness, t);
  }
}
