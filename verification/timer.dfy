/** The Pomodoro timer's state machine: the session record the component
    keeps in five state hooks, the start/pause toggle, the reset, and the
    once-a-second tick, each a pure function from the committed state to the
    next state plus the audio effects it triggers. */
module Timer {

  /** Length of a break in ticks (`setBreakTimeLeft(10)`). */
  const BreakLength: nat := 10

  /** The pre-break cue plays this many seconds before the threshold. */
  const CueLead: nat := 4

  /** Bounds of the randomly drawn interval until the next break, in seconds. */
  const MinInterval: nat := 180
  const MaxInterval: nat := 300

  /** A value the break-interval draw can produce. */
  type BreakInterval = r: int | MinInterval <= r <= MaxInterval witness MinInterval

  /** `Math.floor(u * (300 - 180 + 1) + 180)` for the value `u` of
      `Math.random()`, which lies in [0, 1). */
  function GenerateBreakTime(u: real): (r: int)
    requires 0.0 <= u < 1.0
    ensures MinInterval <= r <= MaxInterval
  {
    var x := u * (MaxInterval - MinInterval + 1) as real + MinInterval as real;
    assert MinInterval as real <= x < (MaxInterval + 1) as real;
    x.Floor
  }

  /** Every interval in the range is drawn for some value of `Math.random()`,
      so both endpoints are reachable. */
  lemma EveryIntervalDrawable(k: int)
    requires MinInterval <= k <= MaxInterval
    ensures var u := (k - MinInterval) as real / (MaxInterval - MinInterval + 1) as real;
      0.0 <= u < 1.0 && GenerateBreakTime(u) == k
  {
    var u := (k - MinInterval) as real / (MaxInterval - MinInterval + 1) as real;
    assert u * (MaxInterval - MinInterval + 1) as real == (k - MinInterval) as real;
  }

  /** The component's timer state: elapsed seconds, whether the interval
      runs, whether a break is on, the seconds left in the break, and the
      elapsed-seconds value at which the next break starts (0 = none set). */
  datatype Session = Session(
    seconds: nat,
    isRunning: bool,
    isBreak: bool,
    breakTimeLeft: nat,
    nextBreakTime: nat)

  /** Audio side effects, abstracted from the two `<audio>` elements:
      play the countdown cue and start the ambient loop fading in, or pause
      and rewind the ambient loop. */
  datatype Effect = StartCueAndAmbient | StopAmbient

  /** The state after an operation together with the effects it triggered, in order. */
  datatype Step = Step(next: Session, effects: seq<Effect>)

  /** The state at mount: the initial values of the five state hooks. */
  const Initial: Session := Session(0, false, false, BreakLength, 0)

  /** The two invariants a running timer keeps: the break countdown stays
      within 1..10, and outside a break a set threshold lies ahead. */
  predicate Consistent(s: Session)
  {
    && 1 <= s.breakTimeLeft <= BreakLength
    && (!s.isBreak && s.nextBreakTime > 0 ==> s.seconds < s.nextBreakTime)
  }

  /** Everything the reachable states satisfy: consistency, a full countdown
      outside a break, a break that started exactly at its threshold and has
      run `BreakLength - breakTimeLeft` ticks, and a threshold set whenever
      the timer has run or runs. */
  predicate Valid(s: Session)
  {
    && Consistent(s)
    && (!s.isBreak ==> s.breakTimeLeft == BreakLength)
    && (s.isBreak ==> s.nextBreakTime > 0 && s.seconds == s.nextBreakTime + (BreakLength - s.breakTimeLeft))
    && (s.isRunning || s.isBreak || s.seconds > 0 ==> s.nextBreakTime > 0)
  }

  /** A start from zero: the only case in which toggling draws a threshold. */
  predicate FreshStart(s: Session)
  {
    !s.isRunning && !s.isBreak && s.seconds == 0
  }

  lemma InitialValid()
    ensures Valid(Initial)
  {
  }

  /** The start/pause button. Starting from zero elapsed seconds outside a
      break sets the threshold to the drawn interval `r`; every press flips
      the running flag. */
  function Toggle(s: Session, r: BreakInterval): (out: Step)
    ensures out.next.isRunning == !s.isRunning
    ensures FreshStart(s) ==> out.next.nextBreakTime == r
    ensures !FreshStart(s) ==> out.next.nextBreakTime == s.nextBreakTime
    ensures out.next.seconds == s.seconds
    ensures out.next.isBreak == s.isBreak
    ensures out.next.breakTimeLeft == s.breakTimeLeft
    ensures out.effects == []
  {
    var drawn := if !s.isRunning && !s.isBreak && s.seconds == 0 then r else s.nextBreakTime;
    Step(s.(nextBreakTime := drawn, isRunning := !s.isRunning), [])
  }

  /** The reset button: every hook back to its initial value, and the
      ambient loop paused and rewound. */
  function Reset(s: Session): (out: Step)
    ensures out.next == Initial
    ensures out.effects == [StopAmbient]
    ensures Valid(out.next)
  {
    var stopped := s.(isRunning := false, isBreak := false, seconds := 0);
    Step(stopped.(breakTimeLeft := 10, nextBreakTime := 0), [StopAmbient])
  }

  /** What the `setSeconds` updater of a tick decides, from the seconds it
      is handed and the `isBreak` and `nextBreakTime` the interval captured. */
  datatype SecondsUpdate = SecondsUpdate(newSeconds: nat, playCue: bool, startBreak: bool)

  function SecondsUpdater(isBreak: bool, nextBreakTime: nat, prevSeconds: nat): (u: SecondsUpdate)
    ensures u.newSeconds == prevSeconds + 1
    ensures u.playCue <==> !isBreak && nextBreakTime > 0 && prevSeconds + 1 == nextBreakTime - CueLead
    ensures u.startBreak <==> !isBreak && nextBreakTime > 0 && prevSeconds + 1 >= nextBreakTime
    ensures isBreak ==> !u.playCue && !u.startBreak
    ensures !(u.playCue && u.startBreak)
  {
    var newSeconds := prevSeconds + 1;
    SecondsUpdate(
      newSeconds,
      !isBreak && nextBreakTime > 0 && newSeconds == nextBreakTime - CueLead,
      !isBreak && newSeconds >= nextBreakTime && nextBreakTime > 0)
  }

  /** What the `setBreakTimeLeft` updater of a tick decides: count down, or
      end the break and start the countdown over. */
  datatype CountdownUpdate = CountdownUpdate(newTimeLeft: nat, breakOver: bool)

  function CountdownUpdater(prevTime: nat): (u: CountdownUpdate)
    ensures u.breakOver <==> prevTime <= 1
    ensures u.breakOver ==> u.newTimeLeft == BreakLength
    ensures !u.breakOver ==> u.newTimeLeft == prevTime - 1
    ensures prevTime <= BreakLength ==> 1 <= u.newTimeLeft <= BreakLength
  {
    if prevTime <= 1 then CountdownUpdate(BreakLength, true)
    else CountdownUpdate(prevTime - 1, false)
  }

  /** One firing of the one-second interval. The effect that registers the
      interval depends on every field it reads, so it is registered afresh
      after each state change and the callback sees the committed state `s`.
      The seconds updater runs first and may start a break; the countdown
      updater is queued only when the captured `isBreak` is true, and on
      ending the break sets the threshold from the captured (pre-tick)
      `seconds`. `r` is the interval drawn if the break ends. */
  function Tick(s: Session, r: BreakInterval): (out: Step)
    requires s.isRunning
    ensures out.next.seconds == s.seconds + 1
    ensures out.next.isRunning
    ensures StartCueAndAmbient in out.effects
      <==> !s.isBreak && s.nextBreakTime > 0 && s.seconds + 1 == s.nextBreakTime - CueLead
    ensures !s.isBreak ==> (out.next.isBreak <==> s.nextBreakTime > 0 && s.seconds + 1 >= s.nextBreakTime)
    ensures !s.isBreak && out.next.isBreak ==> out.next.breakTimeLeft == BreakLength
    ensures !s.isBreak ==> out.next.nextBreakTime == s.nextBreakTime && StopAmbient !in out.effects
    ensures !s.isBreak ==>
      && out.effects == (if s.nextBreakTime > 0 && s.seconds + 1 == s.nextBreakTime - CueLead
                         then [StartCueAndAmbient] else [])
      && (!out.next.isBreak ==> out.next == s.(seconds := s.seconds + 1))
      && (out.next.isBreak ==> out.next == s.(seconds := s.seconds + 1, isBreak := true, breakTimeLeft := BreakLength))
    ensures s.isBreak && s.breakTimeLeft > 1 ==>
      out.next == s.(seconds := s.seconds + 1, breakTimeLeft := s.breakTimeLeft - 1) && out.effects == []
    ensures s.isBreak && s.breakTimeLeft <= 1 ==>
      && !out.next.isBreak
      && out.next.breakTimeLeft == BreakLength
      && out.next.nextBreakTime == s.seconds + r > out.next.seconds
      && out.effects == [StopAmbient]
  {
    var su := SecondsUpdater(s.isBreak, s.nextBreakTime, s.seconds);
    var cue := if su.playCue then [StartCueAndAmbient] else [];
    var counted := if su.startBreak
      then s.(seconds := su.newSeconds, isBreak := true, breakTimeLeft := BreakLength)
      else s.(seconds := su.newSeconds);
    if !s.isBreak then
      Step(counted, cue)
    else
      var cu := CountdownUpdater(s.breakTimeLeft);
      if cu.breakOver then
        Step(counted.(isBreak := false, nextBreakTime := s.seconds + r, breakTimeLeft := cu.newTimeLeft),
             cue + [StopAmbient])
      else
        Step(counted.(breakTimeLeft := cu.newTimeLeft), cue)
  }

  /** Toggling keeps both the two running invariants and the full reachable
      invariant, even with a break on (the button is disabled then, but
      toggling would not break them). */
  lemma ToggleKeepsValid(s: Session, r: BreakInterval)
    ensures Consistent(s) ==> Consistent(Toggle(s, r).next)
    ensures Valid(s) ==> Valid(Toggle(s, r).next)
  {
  }

  /** A tick keeps both the two running invariants and the full reachable
      invariant. */
  lemma TickKeepsValid(s: Session, r: BreakInterval)
    requires s.isRunning
    ensures Consistent(s) ==> Consistent(Tick(s, r).next)
    ensures Valid(s) ==> Valid(Tick(s, r).next)
  {
  }

  /** Two presses with no tick between restore the state exactly when the
      first press is not a fresh start, or the threshold drawn by the fresh
      start happens to equal the one already there. */
  lemma ToggleTwice(s: Session, r1: BreakInterval, r2: BreakInterval)
    ensures var once := Toggle(s, r1).next;
      Toggle(once, r2).next == s
      <==> (s.isBreak || s.seconds > 0
            || (s.isRunning && r2 == s.nextBreakTime)
            || (!s.isRunning && r1 == s.nextBreakTime))
  {
  }

  /** On the resume path, pausing and resuming (or resuming and pausing)
      with no tick between is the identity and triggers no effect. */
  lemma ToggleTwiceResumes(s: Session, r1: BreakInterval, r2: BreakInterval)
    requires s.seconds > 0
    ensures Toggle(Toggle(s, r1).next, r2) == Step(s, [])
  {
  }

  /** Reset forgets the state it is applied to, so applying it twice is
      applying it once. */
  lemma ResetIdempotent(s: Session)
    ensures Reset(Reset(s).next) == Reset(s)
  {
  }
}
