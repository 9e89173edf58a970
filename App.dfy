/**
 * The pure helpers of the Pomodoro page: the `mm:ss` rendering of the
 * countdown, the default configuration, and the clamp the settings form
 * applies before a configuration reaches the timer.
 */
module PomodoroApp {
  import opened Wrappers
  import opened UseTimer

  // ---------------------------------------------------------------------------
  // Decimal digits
  // ---------------------------------------------------------------------------

  predicate IsDigit(c: char)
  {
    '0' <= c <= '9'
  }

  predicate AllDigits(s: string)
  {
    forall i :: 0 <= i < |s| ==> IsDigit(s[i])
  }

  function DigitValue(c: char): (d: nat)
    requires IsDigit(c)
    ensures d < 10
  {
    c as int - '0' as int
  }

  function DigitChar(d: nat): (c: char)
    requires d < 10
    ensures IsDigit(c) && DigitValue(c) == d
  {
    ('0' as int + d) as char
  }

  /**
   * The number a string of decimal digits denotes, leading zeros allowed.
   * Only ever applied to strings of digits; any other character would count as 0.
   */
  function DigitsValue(ds: string): (r: nat)
  {
    if ds == [] then 0
    else
      var last := ds[|ds| - 1];
      DigitsValue(ds[..|ds| - 1]) * 10 + (if IsDigit(last) then DigitValue(last) else 0)
  }

  /** `String(n)` of a non-negative integer: its decimal digits, with no leading zero. */
  function NatToString(n: nat): (r: string)
    ensures |r| >= 1 && AllDigits(r)
    ensures |r| == 1 <==> n < 10
    ensures n < 100 ==> |r| <= 2
    ensures r[0] == '0' ==> n == 0
    decreases n
  {
    if n < 10 then [DigitChar(n)]
    else NatToString(n / 10) + [DigitChar(n % 10)]
  }

  /** `s.padStart(width, fill)` for a one-character fill string. */
  function PadStart(s: string, width: nat, fill: char): (r: string)
    ensures |r| == if |s| >= width then |s| else width
    ensures r == Repeat(fill, |r| - |s|) + s
    decreases width - |s|
  {
    if |s| >= width then s
    else
      var r := PadStart([fill] + s, width, fill);
      assert Repeat(fill, |r| - |s|) == Repeat(fill, |r| - |s| - 1) + [fill];
      r
  }

  /** `k` copies of `c`. */
  function Repeat(c: char, k: nat): (r: string)
    ensures |r| == k
  {
    if k == 0 then [] else Repeat(c, k - 1) + [c]
  }

  /** Zeros in front do not change the number digits denote. */
  lemma {:induction false} LeadingZerosValue(k: nat, s: string)
    ensures DigitsValue(Repeat('0', k) + s) == DigitsValue(s)
    decreases |s|
  {
    var z := Repeat('0', k);
    if s == [] {
      assert z + s == z;
      DigitsValueZeros(k);
    } else {
      var s' := s[..|s| - 1];
      assert (z + s)[..|z + s| - 1] == z + s';
      assert (z + s)[|z + s| - 1] == s[|s| - 1];
      LeadingZerosValue(k, s');
    }
  }

  lemma AllDigitsAppend(a: string, b: string)
    requires AllDigits(a) && AllDigits(b)
    ensures AllDigits(a + b)
  {
    forall i | 0 <= i < |a + b| ensures IsDigit((a + b)[i]) {
      if i < |a| { assert (a + b)[i] == a[i]; } else { assert (a + b)[i] == b[i - |a|]; }
    }
  }

  lemma {:induction false} DigitsValueZeros(k: nat)
    ensures AllDigits(Repeat('0', k)) && DigitsValue(Repeat('0', k)) == 0
  {
    if k > 0 {
      DigitsValueZeros(k - 1);
      AllDigitsAppend(Repeat('0', k - 1), ['0']);
      assert Repeat('0', k)[..k - 1] == Repeat('0', k - 1);
    }
  }

  /** Reading back the digits `String(n)` writes gives `n`. */
  lemma {:induction false} NatToStringValue(n: nat)
    ensures DigitsValue(NatToString(n)) == n
    decreases n
  {
    if n >= 10 {
      var r := NatToString(n);
      NatToStringValue(n / 10);
      assert r[..|r| - 1] == NatToString(n / 10);
    }
  }

  /** Left-padding with zeros does not change the number the digits denote. */
  lemma ZeroPaddedValue(s: string, width: nat)
    requires AllDigits(s)
    ensures AllDigits(PadStart(s, width, '0'))
    ensures DigitsValue(PadStart(s, width, '0')) == DigitsValue(s)
  {
    var k := |PadStart(s, width, '0')| - |s|;
    DigitsValueZeros(k);
    AllDigitsAppend(Repeat('0', k), s);
    LeadingZerosValue(k, s);
  }

  // ---------------------------------------------------------------------------
  // formatTime
  // ---------------------------------------------------------------------------

  /**
   * The countdown as shown on the page: whole minutes, left-padded to at least
   * two digits, a colon, and the remaining seconds as exactly two digits.
   */
  function FormatTime(seconds: nat): (r: string)
    ensures |r| >= 5 && r[|r| - 3] == ':'
    ensures |r| - 3 == if seconds / 60 < 100 then 2 else |NatToString(seconds / 60)|
  {
    Label(seconds / 60, seconds % 60)
  }

  /** The two fields of the label, each `String(n).padStart(2, '0')`, joined by a colon. */
  function Label(m: nat, sec: nat): (r: string)
  {
    Field(m) + ":" + Field(sec)
  }

  function Field(n: nat): (r: string)
  {
    PadStart(NatToString(n), 2, '0')
  }

  /**
   * The two fields of `FormatTime(seconds)`: both all digits, the minutes field
   * denoting `seconds / 60` with no zero in front beyond the padding, and the
   * seconds field two digits denoting `seconds % 60`, which is below 60.
   */
  lemma FormatTimeFields(seconds: nat)
    ensures |FormatTime(seconds)| >= 5
    ensures AllDigits(FormatTime(seconds)[..|FormatTime(seconds)| - 3])
    ensures AllDigits(FormatTime(seconds)[|FormatTime(seconds)| - 2..])
    ensures DigitsValue(FormatTime(seconds)[..|FormatTime(seconds)| - 3]) == seconds / 60
    ensures DigitsValue(FormatTime(seconds)[|FormatTime(seconds)| - 2..]) == seconds % 60 < 60
    ensures seconds / 60 >= 10 ==> FormatTime(seconds)[0] != '0'
  {
    var m, sec := seconds / 60, seconds % 60;
    var t := FormatTime(seconds);
    JoinSplit(Field(m), Field(sec), t);
    var minutes, secs := t[..|t| - 3], t[|t| - 2..];
    assert minutes == Field(m) && secs == Field(sec);
    FieldDigits(m);
    FieldDigits(sec);
    assert DigitsValue(minutes) == m && DigitsValue(secs) == sec;
  }

  /** A string built as `a + ":" + b`, with `b` two characters long, splits back into `a` and `b`. */
  lemma JoinSplit(a: string, b: string, t: string)
    requires t == a + ":" + b && |b| == 2
    ensures |t| == |a| + 3 && t[|t| - 3] == ':'
    ensures t[..|t| - 3] == a && t[|t| - 2..] == b
    ensures |a| > 0 ==> t[0] == a[0]
  {
    assert t[..|a|] == a;
    assert t[|a| + 1..] == b;
  }

  /** One field of the label: `String(n)` padded with '0' to two characters. */
  lemma FieldDigits(n: nat)
    ensures AllDigits(Field(n)) && DigitsValue(Field(n)) == n
    ensures n < 100 ==> |Field(n)| == 2
    ensures |Field(n)| >= 2
    ensures n >= 10 ==> Field(n)[0] != '0'
  {
    NatToStringValue(n);
    ZeroPaddedValue(NatToString(n), 2);
  }

  /** Reads a `m...m:ss` label back as a number of seconds. */
  function ParseTime(t: string): (r: Option<nat>)
  {
    if |t| >= 4 && t[|t| - 3] == ':' && AllDigits(t[..|t| - 3]) && AllDigits(t[|t| - 2..])
       && DigitsValue(t[|t| - 2..]) < 60
    then Some(DigitsValue(t[..|t| - 3]) * 60 + DigitsValue(t[|t| - 2..]))
    else None
  }

  /** Reading the label back as `m * 60 + s` recovers the seconds shown. */
  lemma FormatTimeRoundTrip(seconds: nat)
    ensures ParseTime(FormatTime(seconds)) == Some(seconds)
  {
    FormatTimeFields(seconds);
    ParseFields(FormatTime(seconds), seconds / 60, seconds % 60);
  }

  /** A label whose fields are digits denoting `m` and `sec < 60` parses as `m * 60 + sec`. */
  lemma ParseFields(t: string, m: nat, sec: nat)
    requires |t| >= 5 && t[|t| - 3] == ':'
    requires AllDigits(t[..|t| - 3]) && DigitsValue(t[..|t| - 3]) == m
    requires AllDigits(t[|t| - 2..]) && DigitsValue(t[|t| - 2..]) == sec < 60
    ensures ParseTime(t) == Some(m * 60 + sec)
  {
  }

  /** Different countdowns never show the same label. */
  lemma FormatTimeInjective(a: nat, b: nat)
    requires FormatTime(a) == FormatTime(b)
    ensures a == b
  {
    FormatTimeRoundTrip(a);
    FormatTimeRoundTrip(b);
  }

  // ---------------------------------------------------------------------------
  // Configuration
  // ---------------------------------------------------------------------------

  /** 25-minute work sessions, 5- and 15-minute breaks, a long break every 4 rounds. */
  function DefaultConfig(): (c: TimerConfig)
    ensures ConfigValid(c)
    ensures SecondsForMode(Work, c) == 1500 && SecondsForMode(Short, c) == 300
    ensures SecondsForMode(Long, c) == 900 && c.roundsBeforeLongBreak == 4
  {
    TimerConfig(25, 5, 15, 4)
  }

  /** `Math.max(1, Math.floor(x))`: the largest whole number not above `x`, but at least 1. */
  function Clamp(x: real): (r: int)
    ensures r >= 1
    ensures x < 1.0 ==> r == 1
    ensures x >= 1.0 ==> r as real <= x < r as real + 1.0
  {
    if x.Floor < 1 then 1 else x.Floor
  }

  /** A whole number of at least 1 passes the clamp unchanged. */
  lemma ClampOfWhole(n: int)
    requires n >= 1
    ensures Clamp(n as real) == n
  {
  }

  /** Clamping an already clamped value changes nothing. */
  lemma ClampIdempotent(x: real)
    ensures Clamp(Clamp(x) as real) == Clamp(x)
  {
    ClampOfWhole(Clamp(x));
  }

  /** The four numbers in the settings form. */
  datatype SettingsForm = SettingsForm(workM: real, shortM: real, longM: real, roundsBeforeLong: real)

  /** The form filled in from a configuration, as when the page first renders and on Cancel. */
  function FormOf(cfg: TimerConfig): (f: SettingsForm)
    ensures f.workM.Floor == cfg.workMinutes && f.shortM.Floor == cfg.shortBreakMinutes
    ensures f.longM.Floor == cfg.longBreakMinutes && f.roundsBeforeLong.Floor == cfg.roundsBeforeLongBreak
    ensures ConfigValid(cfg) ==> f.workM >= 1.0 && f.shortM >= 1.0 && f.longM >= 1.0 && f.roundsBeforeLong >= 1.0
  {
    SettingsForm(cfg.workMinutes as real, cfg.shortBreakMinutes as real,
                 cfg.longBreakMinutes as real, cfg.roundsBeforeLongBreak as real)
  }

  /** The configuration the Save button hands on: each field clamped. */
  function SavedConfig(f: SettingsForm): (c: TimerConfig)
    ensures ConfigValid(c)
  {
    TimerConfig(Clamp(f.workM), Clamp(f.shortM), Clamp(f.longM), Clamp(f.roundsBeforeLong))
  }

  /** Saving an unedited form of a valid configuration keeps that configuration. */
  lemma SavedConfigOfValid(cfg: TimerConfig)
    requires ConfigValid(cfg)
    ensures SavedConfig(FormOf(cfg)) == cfg
  {
    ClampOfWhole(cfg.workMinutes);
    ClampOfWhole(cfg.shortBreakMinutes);
    ClampOfWhole(cfg.longBreakMinutes);
    ClampOfWhole(cfg.roundsBeforeLongBreak);
  }

  /** Saving the form of a saved configuration again changes nothing. */
  lemma SavedConfigIdempotent(f: SettingsForm)
    ensures SavedConfig(FormOf(SavedConfig(f))) == SavedConfig(f)
  {
    SavedConfigOfValid(SavedConfig(f));
  }

  /**
   * The Save handler as far as the timer sees it: the clamped configuration
   * replaces the timer's, which restarts the current mode under it and leaves
   * the timer in a valid state, so its `% roundsBeforeLongBreak` is safe.
   */
  method HandleSaveConfig(timer: Timer, form: SettingsForm)
    modifies timer
    ensures timer.config == SavedConfig(form)
    ensures timer.State() == old(timer.State()).(secondsLeft := SecondsForMode(old(timer.mode), timer.config))
    ensures old(timer.roundsCompleted) >= 0 ==> timer.Valid()
  {
    timer.SetCfg(SavedConfig(form));
  }

  /**
   * With the default configuration, from a fresh session, the first three
   * work sessions are followed by a short break and the fourth by a long one,
   * by which time four rounds are completed.
   */
  lemma DefaultConfigSchedule(s: Session)
    requires s == Session(Work, SecondsForMode(Work, DefaultConfig()), false, 0)
    ensures AdvanceN(s, DefaultConfig(), 1).mode == Short
    ensures AdvanceN(s, DefaultConfig(), 3).mode == Short
    ensures AdvanceN(s, DefaultConfig(), 5).mode == Short
    ensures AdvanceN(s, DefaultConfig(), 7).mode == Long
    ensures AdvanceN(s, DefaultConfig(), 7).roundsCompleted == 4
    ensures AdvanceN(s, DefaultConfig(), 7).secondsLeft == 900
  {
    BreakAfterWorkSession(s, DefaultConfig(), 0);
    BreakAfterWorkSession(s, DefaultConfig(), 1);
    BreakAfterWorkSession(s, DefaultConfig(), 2);
    BreakAfterWorkSession(s, DefaultConfig(), 3);
  }
}
