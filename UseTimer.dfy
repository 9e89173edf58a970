/**
 * The Pomodoro session state machine of the `useTimer` hook: a session is a
 * mode, a countdown, a running flag and a count of finished work rounds, and a
 * configuration gives the length of each mode in whole minutes.
 *
 * The pure functions below specify one advance, one elapsed second and runs of
 * either; the class `Timer` holds the hook's state fields and has one method
 * per command, each proved against those functions.
 */
module UseTimer {
  import opened Wrappers

  datatype Mode = Work | Short | Long

  datatype TimerConfig = TimerConfig(
    workMinutes: int,
    shortBreakMinutes: int,
    longBreakMinutes: int,
    roundsBeforeLongBreak: int)

  /** Every field at least 1, which is what the settings form's clamp guarantees. */
  predicate ConfigValid(cfg: TimerConfig)
  {
    cfg.workMinutes >= 1 && cfg.shortBreakMinutes >= 1 &&
    cfg.longBreakMinutes >= 1 && cfg.roundsBeforeLongBreak >= 1
  }

  /** Length of a session of the given mode, in seconds. */
  function SecondsForMode(mode: Mode, cfg: TimerConfig): (r: int)
    ensures r % 60 == 0
    ensures mode == Work && cfg.workMinutes >= 1 ==> r >= 60
    ensures mode == Short && cfg.shortBreakMinutes >= 1 ==> r >= 60
    ensures mode == Long && cfg.longBreakMinutes >= 1 ==> r >= 60
  {
    match mode
    case Work => cfg.workMinutes * 60
    case Short => cfg.shortBreakMinutes * 60
    case Long => cfg.longBreakMinutes * 60
  }

  datatype Session = Session(mode: Mode, secondsLeft: int, isRunning: bool, roundsCompleted: int)

  /** The countdown lies within the current mode's duration and no round count is negative. */
  predicate SessionValid(s: Session, cfg: TimerConfig)
  {
    s.roundsCompleted >= 0 && 0 <= s.secondsLeft <= SecondsForMode(s.mode, cfg)
  }

  /**
   * The `nextRounds % roundsBeforeLongBreak === 0` test. In JavaScript a zero
   * divisor yields NaN, which equals nothing, so no long break is ever due then.
   */
  predicate LongBreakDue(nextRounds: int, roundsBeforeLongBreak: int)
  {
    roundsBeforeLongBreak != 0 && nextRounds % roundsBeforeLongBreak == 0
  }

  /**
   * A long break is due exactly when the divisor is non-zero and the count is a
   * whole multiple of it (`k` is any candidate factor); never with a zero divisor.
   */
  lemma LongBreakDueMultiple(nextRounds: int, roundsBeforeLongBreak: int, k: int)
    ensures LongBreakDue(nextRounds, roundsBeforeLongBreak) ==>
      roundsBeforeLongBreak != 0 && nextRounds == (nextRounds / roundsBeforeLongBreak) * roundsBeforeLongBreak
    ensures roundsBeforeLongBreak != 0 && nextRounds == k * roundsBeforeLongBreak ==>
      LongBreakDue(nextRounds, roundsBeforeLongBreak)
    ensures roundsBeforeLongBreak == 0 ==> !LongBreakDue(nextRounds, roundsBeforeLongBreak)
  {
    var d := roundsBeforeLongBreak;
    if d != 0 && nextRounds == k * d {
      var q := nextRounds / d;
      assert (k - q) * d == nextRounds % d by {
        assert nextRounds == q * d + nextRounds % d;
        assert (k - q) * d == k * d - q * d;
      }
      SmallMultipleIsZero(k - q, d);
    }
  }

  /** The only multiple of `d` that is non-negative and smaller than `|d|` is 0. */
  lemma SmallMultipleIsZero(j: int, d: int)
    requires d != 0 && 0 <= j * d && (d > 0 ==> j * d < d) && (d < 0 ==> j * d < -d)
    ensures j == 0
  {
    if j > 0 && d > 0 {
      MulAtLeast(j, d);
      assert false;
    } else if j < 0 && d < 0 {
      assert false;
    } else if j != 0 {
      assert false;
    }
  }

  lemma {:induction false} MulAtLeast(j: nat, d: nat)
    requires j >= 1
    ensures j * d >= d
  {
    if j > 1 {
      MulAtLeast(j - 1, d);
      assert j * d == (j - 1) * d + d;
    }
  }

  /**
   * The advance step shared by natural expiry and skip, together with the
   * auto-start that both perform once their delayed callback has fired.
   */
  function Advance(s: Session, cfg: TimerConfig): (r: Session)
    ensures r.isRunning
    ensures r.secondsLeft == SecondsForMode(r.mode, cfg)
    ensures s.mode == Work ==>
      r.mode != Work && r.roundsCompleted == s.roundsCompleted + 1 &&
      (r.mode == Long <==> LongBreakDue(s.roundsCompleted + 1, cfg.roundsBeforeLongBreak))
    ensures s.mode != Work ==> r.mode == Work && r.roundsCompleted == s.roundsCompleted
    ensures ConfigValid(cfg) && s.roundsCompleted >= 0 ==> SessionValid(r, cfg) && r.secondsLeft >= 60
  {
    if s.mode == Work then
      var nextRounds := s.roundsCompleted + 1;
      var next := if LongBreakDue(nextRounds, cfg.roundsBeforeLongBreak) then Long else Short;
      Session(next, SecondsForMode(next, cfg), true, nextRounds)
    else
      Session(Work, SecondsForMode(Work, cfg), true, s.roundsCompleted)
  }

  /**
   * One second of a running timer: the interval decrements the countdown, and
   * when that brings it to zero or below the expiry handler advances.
   */
  function Elapse(s: Session, cfg: TimerConfig): (r: Session)
    ensures s.secondsLeft > 1 ==> r == s.(secondsLeft := s.secondsLeft - 1)
    ensures s.secondsLeft <= 1 ==> r == Advance(s, cfg)
    ensures ConfigValid(cfg) && SessionValid(s, cfg) ==> SessionValid(r, cfg) && r.secondsLeft >= 1
  {
    var ticked := s.(secondsLeft := s.secondsLeft - 1);
    if ticked.secondsLeft <= 0 then Advance(ticked, cfg) else ticked
  }

  /** `n` advances in a row, as `n` skips (or `n` expiries) would make. */
  function AdvanceN(s: Session, cfg: TimerConfig, n: nat): (r: Session)
  {
    if n == 0 then s else Advance(AdvanceN(s, cfg, n - 1), cfg)
  }

  /** `n` elapsed seconds of a running timer. */
  function ElapseN(s: Session, cfg: TimerConfig, n: nat): (r: Session)
  {
    if n == 0 then s else Elapse(ElapseN(s, cfg, n - 1), cfg)
  }

  /**
   * A work session and the break after it make one cycle: after `2 * n`
   * advances from work the timer is back at work, with exactly `n` more rounds,
   * whatever mix of short and long breaks came in between.
   */
  lemma {:induction false} WorkCycle(s: Session, cfg: TimerConfig, n: nat)
    requires s.mode == Work
    ensures AdvanceN(s, cfg, 2 * n).mode == Work
    ensures AdvanceN(s, cfg, 2 * n).roundsCompleted == s.roundsCompleted + n
    ensures n > 0 ==> AdvanceN(s, cfg, 2 * n).secondsLeft == SecondsForMode(Work, cfg)
  {
    if n > 0 {
      WorkCycle(s, cfg, n - 1);
      assert AdvanceN(s, cfg, 2 * n - 1) == Advance(AdvanceN(s, cfg, 2 * (n - 1)), cfg);
    }
  }

  /**
   * The break after the `(n + 1)`-th work session counted from `s` is long
   * exactly when the new round count is a multiple of `roundsBeforeLongBreak`.
   */
  lemma BreakAfterWorkSession(s: Session, cfg: TimerConfig, n: nat)
    requires s.mode == Work
    ensures AdvanceN(s, cfg, 2 * n + 1).roundsCompleted == s.roundsCompleted + n + 1
    ensures AdvanceN(s, cfg, 2 * n + 1).mode ==
      if LongBreakDue(s.roundsCompleted + n + 1, cfg.roundsBeforeLongBreak) then Long else Short
    ensures AdvanceN(s, cfg, 2 * n + 1).secondsLeft == SecondsForMode(AdvanceN(s, cfg, 2 * n + 1).mode, cfg)
  {
    WorkCycle(s, cfg, n);
  }

  /** Before the countdown runs out, each second only decrements it. */
  lemma {:induction false} CountdownTicks(s: Session, cfg: TimerConfig, k: nat)
    requires k < s.secondsLeft
    ensures ElapseN(s, cfg, k) == s.(secondsLeft := s.secondsLeft - k)
  {
    if k > 0 {
      CountdownTicks(s, cfg, k - 1);
    }
  }

  /**
   * Reaching zero triggers one advance: a countdown of `d >= 1` seconds keeps
   * its mode for the first `d - 1` seconds and has advanced at second `d`.
   * This is the hook's behaviour when the next mode lasts at least a second;
   * a next mode of zero seconds would fire the expiry handler again.
   */
  lemma CountdownExpires(s: Session, cfg: TimerConfig)
    requires s.secondsLeft >= 1
    ensures forall k :: 0 <= k < s.secondsLeft ==>
      ElapseN(s, cfg, k).mode == s.mode && ElapseN(s, cfg, k).roundsCompleted == s.roundsCompleted
    ensures ElapseN(s, cfg, s.secondsLeft) == Advance(s, cfg)
  {
    forall k | 0 <= k < s.secondsLeft
      ensures ElapseN(s, cfg, k).mode == s.mode && ElapseN(s, cfg, k).roundsCompleted == s.roundsCompleted
    {
      CountdownTicks(s, cfg, k);
    }
    CountdownTicks(s, cfg, s.secondsLeft - 1);
  }

  /** The fields of a restored `pomodoro-state` record; any of them may be missing. */
  datatype SavedState = SavedState(
    mode: Option<Mode>,
    secondsLeft: Option<int>,
    isRunning: Option<bool>,
    roundsCompleted: Option<int>)

  const NothingSaved := SavedState(None, None, None, None)

  /** The hook's state: the four session fields and the configuration in use. */
  class Timer {
    var mode: Mode
    var secondsLeft: int
    var isRunning: bool
    var roundsCompleted: int
    var config: TimerConfig

    function State(): Session
      reads this
    {
      Session(mode, secondsLeft, isRunning, roundsCompleted)
    }

    predicate Valid()
      reads this
    {
      ConfigValid(config) && SessionValid(State(), config)
    }

    /** Initial state: each field from the restored record, else its default. */
    constructor (initialConfig: TimerConfig, saved: SavedState)
      ensures config == initialConfig
      ensures mode == saved.mode.GetOr(Work)
      ensures isRunning == saved.isRunning.GetOr(false)
      ensures secondsLeft == saved.secondsLeft.GetOr(SecondsForMode(saved.mode.GetOr(Work), initialConfig))
      ensures roundsCompleted == saved.roundsCompleted.GetOr(0)
      ensures saved == NothingSaved ==>
        State() == Session(Work, SecondsForMode(Work, initialConfig), false, 0)
      ensures saved == NothingSaved && ConfigValid(initialConfig) ==> Valid()
    {
      config := initialConfig;
      mode := saved.mode.GetOr(Work);
      isRunning := saved.isRunning.GetOr(false);
      secondsLeft := saved.secondsLeft.GetOr(SecondsForMode(saved.mode.GetOr(Work), initialConfig));
      roundsCompleted := saved.roundsCompleted.GetOr(0);
    }

    method Start()
      modifies this
      ensures State() == old(State()).(isRunning := true) && config == old(config)
      ensures old(Valid()) ==> Valid()
    {
      isRunning := true;
    }

    method Pause()
      modifies this
      ensures State() == old(State()).(isRunning := false) && config == old(config)
      ensures old(Valid()) ==> Valid()
    {
      isRunning := false;
    }

    /** Back to a fresh, stopped work session with no rounds, whatever the prior state. */
    method Reset()
      modifies this
      ensures mode == Work && secondsLeft == SecondsForMode(Work, config)
      ensures roundsCompleted == 0 && !isRunning
      ensures config == old(config)
      ensures ConfigValid(config) ==> Valid()
    {
      isRunning := false;
      mode := Work;
      secondsLeft := SecondsForMode(Work, config);
      roundsCompleted := 0;
    }

    /** Advance at once; the delayed restart is taken to fire at the end. */
    method Skip()
      modifies this
      ensures State() == Advance(old(State()), config) && config == old(config)
      ensures old(Valid()) ==> Valid()
    {
      isRunning := false;
      if mode == Work {
        var nextRounds := roundsCompleted + 1;
        roundsCompleted := nextRounds;
        if LongBreakDue(nextRounds, config.roundsBeforeLongBreak) {
          mode := Long;
          secondsLeft := SecondsForMode(Long, config);
        } else {
          mode := Short;
          secondsLeft := SecondsForMode(Short, config);
        }
      } else {
        mode := Work;
        secondsLeft := SecondsForMode(Work, config);
      }
      isRunning := true;
    }

    /** Adopt a new configuration and restart the current mode's countdown under it. */
    method SetCfg(c: TimerConfig)
      modifies this
      ensures config == c
      ensures State() == old(State()).(secondsLeft := SecondsForMode(old(mode), c))
      ensures ConfigValid(c) && old(roundsCompleted) >= 0 ==> Valid()
    {
      config := c;
      secondsLeft := SecondsForMode(mode, c);
    }

    /** The interval callback: one second off the countdown. */
    method Tick()
      modifies this
      ensures State() == old(State()).(secondsLeft := old(secondsLeft) - 1) && config == old(config)
      ensures old(Valid()) && old(secondsLeft) >= 1 ==> Valid()
    {
      secondsLeft := secondsLeft - 1;
    }

    /**
     * The expiry handler: nothing while time is left; otherwise stop, then
     * (the delayed callback, taken to fire at the end) advance and auto-start.
     * A true `expired` marks the run in which the hook plays its beep.
     */
    method Expire() returns (expired: bool)
      modifies this
      ensures expired == (old(secondsLeft) <= 0)
      ensures expired ==> State() == Advance(old(State()), config)
      ensures !expired ==> State() == old(State())
      ensures config == old(config)
      ensures old(Valid()) ==> Valid()
    {
      if secondsLeft > 0 {
        return false;
      }
      isRunning := false;
      if mode == Work {
        var nextRounds := roundsCompleted + 1;
        roundsCompleted := nextRounds;
        if LongBreakDue(nextRounds, config.roundsBeforeLongBreak) {
          mode := Long;
          secondsLeft := SecondsForMode(Long, config);
        } else {
          mode := Short;
          secondsLeft := SecondsForMode(Short, config);
        }
      } else {
        mode := Work;
        secondsLeft := SecondsForMode(Work, config);
      }
      isRunning := true;
      return true;
    }

    /** One second of a running timer: the tick, then the expiry handler it triggers. */
    method ElapseSecond()
      modifies this
      ensures State() == Elapse(old(State()), config) && config == old(config)
      ensures old(Valid()) ==> Valid() && secondsLeft >= 1
    {
      Tick();
      var _ := Expire();
    }
  }

  /**
   * The two copies of the advance rule agree: skipping from a state gives the
   * same session as natural expiry from a state with the same mode and rounds.
   */
  method SkipAgreesWithExpiry(a: Timer, b: Timer)
    requires a != b
    requires a.mode == b.mode && a.roundsCompleted == b.roundsCompleted && a.config == b.config
    requires b.secondsLeft <= 0
    modifies a, b
    ensures a.State() == b.State() && a.isRunning
  {
    a.Skip();
    var expired := b.Expire();
    assert expired;
  }

  /** Pausing twice leaves the same state as pausing once. */
  method PauseIsIdempotent(a: Timer, b: Timer)
    requires a != b && a.State() == b.State() && a.config == b.config
    modifies a, b
    ensures a.State() == b.State() && a.config == b.config && !a.isRunning
  {
    a.Pause();
    a.Pause();
    b.Pause();
  }
}
