/** What single steps do, in both kinds of servo: the first value, later commands, stops, skipped polls and
    the polls of a continuous servo. */
module ServoSteps {
  import opened ServoMotion
  import opened ServoMapping
  import opened ServoSafety
  import opened ServoAngular

  // ----- Commands -----

  /** The first value only tells the servo where it is: nothing is sent and nothing moves. */
  lemma FirstValue(c: Config, s: Servo, brightness: nat, now: nat)
    requires s.firstSync
    ensures var t := Command(c, s, brightness, now);
            var x := if brightness < 1023 then brightness else 1023;
            && 1023 * t.currentBrightness <= 255 * x < 1023 * (t.currentBrightness + 1)
            && t.currentUs == t.targetUs == t.startUs == c.MicroSec(t.currentBrightness) && !t.firstSync
            && t.moving == s.moving && t.attached == s.attached && t.waiting == s.waiting && t.pulses == s.pulses
  {
    ScaleIs(brightness);
  }

  /** A later command to a continuous servo: it moves from the next poll on, to the pulse of the brightness, for
      its share of the transition time. */
  lemma ContinuousCommand(c: Config, s: Servo, brightness: nat, now: nat)
    requires c.kind == CONTINUOUS && !s.firstSync
    ensures var t := Command(c, s, brightness, now);
            var (x, b) := (if brightness < 1023 then brightness else 1023, t.targetBrightness);
            var way := if b < s.currentBrightness then s.currentBrightness - b else b - s.currentBrightness;
            && 1023 * b <= 255 * x < 1023 * (b + 1)
            && t.moving && t.attached && !t.waiting && t.moveStart == now && t.pulses == s.pulses
            && (if c.channel == 0 then
                  t.moveDuration == 0
                  && t.targetUs == if b == 0 then c.midUs else if c.inverted then c.minUs else c.maxUs
                else
                  && t.targetUs == c.Continuous(if c.inverted then 255 - b else b)
                  && if b == 127 then t.moveDuration == 0
                     else 255 * t.moveDuration <= c.transitionMs * way < 255 * (t.moveDuration + 1))
  {
    ScaleIs(brightness);
    ContinuousDuration(c, s.currentUs, c.Target(Scale(brightness)), s.currentBrightness, Scale(brightness));
  }

  // ----- Stops -----

  /** A stop action reaches rollers only: an angular servo stays where it is, a continuous one gets its
      stand-still pulse, and the count-down to the detach begins. */
  lemma StopIs(c: Config, s: Servo, now: nat)
    ensures var t := Step(c, s, Stop(now));
            if c.kind == ANGULAR && c.channel == 0 then
              && t.targetUs == t.currentUs == s.currentUs && t.currentBrightness == c.Brightness(s.currentUs)
              && Stopped(s, t, s.currentUs, now)
            else if c.kind != ANGULAR && c.channel != 0 then
              c.kind == CONTINUOUS ==>
                && t.targetUs == c.midUs && t.currentUs == s.currentUs && t.currentBrightness == 127
                && Stopped(s, t, c.midUs, now)
            else t == s
  {
  }

  /** The parts of a stop that are the same for all: `us` is sent to an attached servo. */
  predicate Stopped(s: Servo, t: Servo, us: int, now: nat) {
    && !t.moving && t.waiting && t.reachedAt == now && t.attached == s.attached
    && t.targetBrightness == t.currentBrightness && t.lastWrittenUs == s.lastWrittenUs
    && t.pulses == if s.attached then s.pulses + [us] else s.pulses
  }

  /** At a limit switch the servo knows where it is: fully up or fully down. */
  lemma LimitBrightness(c: Config, s: Servo, now: nat, stopTime: nat, up: bool, down: bool)
    requires c.kind == CONTINUOUS && s.attached && AtLimit(c, s, up, down)
    ensures var t := OnPoll(c, s, now, stopTime, up, down);
            && t.currentBrightness == t.targetBrightness == (if s.targetUs > c.midUs then 255 else 0)
            && t.reachedAt == stopTime && t.targetUs == c.midUs && !t.moving
  {
  }

  // ----- Polls -----

  /** A poll of a detached servo, or one within 20 ms of the last one, does nothing. */
  lemma SkippedPoll(c: Config, s: Servo, now: nat, stopTime: nat, up: bool, down: bool)
    requires !s.attached || (Since(now, s.lastPoll) < 20 && (c.kind == ANGULAR || !AtLimit(c, s, up, down)))
    ensures OnPoll(c, s, now, stopTime, up, down) == s
  {
  }

  /** A continuous servo sent to stand-still has arrived in its first poll, and the count-down begins; one that
      runs as a relay keeps running. Either way its pulse is sent unless a poll wrote it last. */
  lemma UntimedPoll(c: Config, s: Servo, now: nat, stopTime: nat, up: bool, down: bool)
    requires c.kind == CONTINUOUS && s.moving && s.attached && !s.waiting && !AtLimit(c, s, up, down)
    requires Effective(s, now) && (s.targetUs == c.midUs || c.channel == 0)
    ensures var t := OnPoll(c, s, now, stopTime, up, down);
            && t.currentUs == t.lastWrittenUs == s.targetUs && t.targetUs == s.targetUs && t.attached
            && t.pulses == (if s.lastWrittenUs == s.targetUs then s.pulses else s.pulses + [s.targetUs])
            && t.moving == (s.targetUs != c.midUs)
            && (s.targetUs == c.midUs ==> t.waiting && t.reachedAt == now)
  {
  }

  /** A servo that is not attached has no pulse on record, in every run; so after a detach the first pulse of
      the next move is sent, whatever was sent before. */
  lemma {:induction false} DetachedForgets(c: Config, brightness: nat, events: seq<Event>)
    ensures var s := Run(c, Initial(c, brightness), events);
            !s.attached ==> s.lastWrittenUs == 0
    decreases |events|
  {
    if events != [] {
      var m := |events| - 1;
      DetachedForgets(c, brightness, events[..m]);
      StepForgets(c, Run(c, Initial(c, brightness), events[..m]), events[m]);
    }
  }

  lemma StepForgets(c: Config, s: Servo, e: Event)
    requires !s.attached ==> s.lastWrittenUs == 0
    ensures !Step(c, s, e).attached ==> Step(c, s, e).lastWrittenUs == 0
  {
    if e.Poll? && s.attached {
      TendForgets(c, LimitCheck(c, s, e.stopTime, e.up, e.down).(lastPoll := e.now), e.now, e.stopTime);
    }
  }

  lemma TendForgets(c: Config, s: Servo, now: nat, stopTime: nat)
    requires s.attached
    ensures !Tend(c, s, now, stopTime).attached ==> Tend(c, s, now, stopTime).lastWrittenUs == 0
  {
  }

  // ----- The last pulse of a move -----

  /** Since `n` pulses were on record, the servo was sent where it is; if nothing was sent, `written` had
      put it there. */
  predicate Shown(s: Servo, n: nat, written: int) {
    && n <= |s.pulses|
    && if |s.pulses| == n then s.currentUs == written else s.pulses[|s.pulses| - 1] == s.currentUs
  }

  /** What the polls of a move keep: either none of them was effective yet, or the servo shows its position. */
  predicate ShowsCourse(u: Servo, move: Servo) {
    && (u.moving || u.currentUs == u.targetUs) && u.targetUs == move.targetUs
    && (u.moving ==> && u.attached && !u.waiting
                     && (u.pulses == move.pulses ==> u.lastWrittenUs == move.lastWrittenUs)
                     && (u.pulses != move.pulses ==> u.lastWrittenUs == u.currentUs))
    && move.pulses <= u.pulses
    && (!u.moving || u.pulses != move.pulses ==> Shown(u, |move.pulses|, move.lastWrittenUs))
  }

  lemma ShowsPoll(c: Config, u: Servo, move: Servo, now: nat, stopTime: nat, up: bool, down: bool)
    requires c.kind == ANGULAR && ShowsCourse(u, move)
    ensures ShowsCourse(OnPoll(c, u, now, stopTime, up, down), move)
  {
    if u.moving && Effective(u, now) {
      TendMoving(c, u.(lastPoll := now), now, stopTime);
    }
  }

  /** However the move of an angular servo is polled: once it has arrived, the last pulse sent in it is the
      target's, or none was sent because the target's was on record already. */
  lemma {:induction false} ArrivalIsSent(c: Config, move: Servo, events: seq<Event>)
    requires c.kind == ANGULAR && move.moving && move.attached && !move.waiting
    requires forall i | 0 <= i < |events| :: events[i].Poll?
    ensures var u := Run(c, move, events);
            && ShowsCourse(u, move)
            && (!u.moving ==> u.currentUs == move.targetUs && Shown(u, |move.pulses|, move.lastWrittenUs))
    decreases |events|
  {
    if events != [] {
      var m := |events| - 1;
      var e := events[m];
      ArrivalIsSent(c, move, events[..m]);
      ShowsPoll(c, Run(c, move, events[..m]), move, e.now, e.stopTime, e.up, e.down);
    }
  }
}
