/** Runs of consecutive ticks: how long the work phase and the break last,
    when the cue plays, and the steady cycle between two breaks. */
module TimerRuns {
  import opened Timer

  /** One tick per element of `draws`, in order; element `i` is the interval
      drawn if tick `i` ends a break. The effects are those of the ticks,
      concatenated in order. */
  function Run(s: Session, draws: seq<BreakInterval>): (out: Step)
    requires s.isRunning
    ensures out.next.isRunning
    ensures out.next.seconds == s.seconds + |draws|
    decreases |draws|
  {
    if |draws| == 0 then Step(s, [])
    else
      var first := Tick(s, draws[0]);
      var rest := Run(first.next, draws[1..]);
      Step(rest.next, first.effects + rest.effects)
  }

  /** Any number of ticks keeps the invariants. */
  lemma {:induction false} RunKeepsValid(s: Session, draws: seq<BreakInterval>)
    requires s.isRunning
    ensures Consistent(s) ==> Consistent(Run(s, draws).next)
    ensures Valid(s) ==> Valid(Run(s, draws).next)
    decreases |draws|
  {
    if |draws| > 0 {
      TickKeepsValid(s, draws[0]);
      RunKeepsValid(Tick(s, draws[0]).next, draws[1..]);
    }
  }

  /** Ticks that leave a break running only count it down: seconds still
      advance, nothing else changes and no effect is triggered. */
  lemma {:induction false} BreakCountsDown(s: Session, draws: seq<BreakInterval>)
    requires s.isRunning && s.isBreak
    requires |draws| < s.breakTimeLeft
    ensures Run(s, draws)
      == Step(s.(seconds := s.seconds + |draws|, breakTimeLeft := s.breakTimeLeft - |draws|), [])
    decreases |draws|
  {
    if |draws| > 0 {
      BreakCountsDown(Tick(s, draws[0]).next, draws[1..]);
    }
  }

  /** The tick that finds one second left ends the break: the countdown is
      back at 10, the next threshold is the drawn interval after the
      seconds value that tick read, and the ambient loop stops. */
  lemma {:induction false} BreakEnds(s: Session, draws: seq<BreakInterval>)
    requires s.isRunning && s.isBreak
    requires 1 <= s.breakTimeLeft == |draws|
    ensures var last := s.seconds + |draws| - 1;
      Run(s, draws) == Step(
        s.(seconds := last + 1, isBreak := false, breakTimeLeft := BreakLength,
           nextBreakTime := last + draws[|draws| - 1]),
        [StopAmbient])
    decreases |draws|
  {
    if |draws| > 1 {
      BreakEnds(Tick(s, draws[0]).next, draws[1..]);
      assert draws[1..][|draws| - 2] == draws[|draws| - 1];
    }
  }

  /** A break entered with a full countdown is on for the next nine ticks
      and over on exactly the tenth. */
  lemma BreakLastsTenTicks(s: Session, draws: seq<BreakInterval>)
    requires s.isRunning && s.isBreak && s.breakTimeLeft == BreakLength
    requires |draws| == BreakLength
    ensures forall j :: 0 <= j < BreakLength ==> Run(s, draws[..j]).next.isBreak
    ensures !Run(s, draws).next.isBreak
    ensures Run(s, draws).effects == [StopAmbient]
  {
    forall j | 0 <= j < BreakLength
      ensures Run(s, draws[..j]).next.isBreak
    {
      BreakCountsDown(s, draws[..j]);
    }
    BreakEnds(s, draws);
  }

  /** Ticks of the work phase that stay short of the threshold only count
      seconds; the cue plays once if one of them lands on `threshold - 4`. */
  lemma {:induction false} WorkTicks(s: Session, draws: seq<BreakInterval>)
    requires s.isRunning && !s.isBreak
    requires 0 < s.nextBreakTime && s.seconds + |draws| < s.nextBreakTime
    ensures var cueAt := s.nextBreakTime - CueLead;
      Run(s, draws) == Step(
        s.(seconds := s.seconds + |draws|),
        if s.seconds < cueAt <= s.seconds + |draws| then [StartCueAndAmbient] else [])
    decreases |draws|
  {
    if |draws| > 0 {
      WorkTicks(Tick(s, draws[0]).next, draws[1..]);
    }
  }

  /** The work phase ends on the tick that reaches the threshold: the break
      starts with a full countdown, and the cue has played exactly once if
      the phase began before `threshold - 4`. */
  lemma {:induction false} BreakStarts(s: Session, draws: seq<BreakInterval>)
    requires s.isRunning && !s.isBreak
    requires 0 < s.nextBreakTime && s.seconds + |draws| == s.nextBreakTime
    requires s.seconds < s.nextBreakTime
    ensures Run(s, draws) == Step(
      s.(seconds := s.nextBreakTime, isBreak := true, breakTimeLeft := BreakLength),
      if s.seconds < s.nextBreakTime - CueLead then [StartCueAndAmbient] else [])
    decreases |draws|
  {
    if |draws| > 1 {
      BreakStarts(Tick(s, draws[0]).next, draws[1..]);
    }
  }

  /** From reset, a start followed by `r` ticks plays the cue once, at
      `r - 4` seconds, and enters the first break at `r` seconds. */
  lemma FirstBreak(r: BreakInterval, draws: seq<BreakInterval>)
    requires |draws| == r
    ensures var started := Toggle(Initial, r).next;
      && started.nextBreakTime == r
      && Run(started, draws) == Step(Session(r, true, true, BreakLength, r), [StartCueAndAmbient])
  {
    BreakStarts(Toggle(Initial, r).next, draws);
  }

  /** From any point of a break, the remaining break ticks and then `d - 1`
      work ticks, where `d` is the interval drawn when the break ends, lead
      into the next break, with the ambient loop stopped and the cue played
      once on the way. */
  lemma {:induction false} BreakThenWork(s: Session, draws: seq<BreakInterval>)
    requires s.isRunning && s.isBreak && 1 <= s.breakTimeLeft <= |draws|
    requires |draws| == s.breakTimeLeft + draws[s.breakTimeLeft - 1] - 1
    ensures var n := s.seconds + |draws|;
      Run(s, draws) == Step(
        s.(seconds := n, breakTimeLeft := BreakLength, nextBreakTime := n),
        [StopAmbient, StartCueAndAmbient])
    decreases |draws|
  {
    var head := Tick(s, draws[0]);
    if s.breakTimeLeft > 1 {
      assert draws[1..][head.next.breakTimeLeft - 1] == draws[s.breakTimeLeft - 1];
      BreakThenWork(head.next, draws[1..]);
    } else {
      BreakStarts(head.next, draws[1..]);
    }
  }

  /** The steady cycle: from the tick that enters a break, ten break ticks
      and then `d - 1` work ticks, where `d` is the interval drawn when the
      break ends, lead into the next break. The threshold is taken from the
      seconds value before the break's last tick, so the work phase between
      breaks is one tick shorter than the drawn interval. */
  lemma BreakCycle(s: Session, draws: seq<BreakInterval>)
    requires s.isRunning && s.isBreak && s.breakTimeLeft == BreakLength
    requires |draws| > BreakLength
    requires |draws| == BreakLength + draws[BreakLength - 1] - 1
    ensures var n := s.seconds + |draws|;
      Run(s, draws) == Step(s.(seconds := n, nextBreakTime := n), [StopAmbient, StartCueAndAmbient])
  {
    BreakThenWork(s, draws);
  }
}
