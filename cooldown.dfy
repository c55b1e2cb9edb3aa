/**
 * The cooldown rule of index.js: `lockDuration`, `canExecuteCommand` and
 * `formatRemainingTime`. Times are integer milliseconds; the clock reading
 * `Date.now()` is the parameter `now`.
 */
module Cooldown {
  import opened Wrappers
  import opened JsStrings

  /** `lockDuration`: fifteen minutes in milliseconds. */
  const LockDuration: int := 15 * 60 * 1000

  /** JavaScript truthiness of a stored timestamp: `undefined` and `0` are falsy. */
  predicate IsTruthy(lastExecuted: Option<int>) {
    lastExecuted.Some? && lastExecuted.value != 0
  }

  /** `canExecuteCommand(lastExecuted, duration)`: `!lastExecuted || now - lastExecuted > duration`. */
  predicate CanExecuteCommand(lastExecuted: Option<int>, duration: int, now: int) {
    !IsTruthy(lastExecuted) || now - lastExecuted.value > duration
  }

  /**
   * The command is refused exactly when a non-zero timestamp is stored and
   * at most `duration` has passed since it; the boundary itself is refused.
   */
  lemma CanExecuteCommandExactly(lastExecuted: Option<int>, duration: int, now: int)
    ensures lastExecuted == None ==> CanExecuteCommand(lastExecuted, duration, now)
    ensures lastExecuted == Some(0) ==> CanExecuteCommand(lastExecuted, duration, now)
    ensures forall t :: lastExecuted == Some(t) && t != 0 ==>
      (CanExecuteCommand(lastExecuted, duration, now) <==> now - t > duration)
    ensures forall t :: lastExecuted == Some(t) && t != 0 && now - t == duration ==>
      !CanExecuteCommand(lastExecuted, duration, now)
  {
  }

  /** Once the cooldown has run out it stays run out: waiting longer never refuses again. */
  lemma CanExecuteCommandMonotone(lastExecuted: Option<int>, duration: int, now: int, later: int)
    requires now <= later
    requires CanExecuteCommand(lastExecuted, duration, now)
    ensures CanExecuteCommand(lastExecuted, duration, later)
  {
  }

  /** `lockDuration - (Date.now() - lastExecuted)`, the wait reported on a refusal. */
  function RemainingTime(lastExecuted: int, now: int): int {
    LockDuration - (now - lastExecuted)
  }

  /**
   * A refusal always carries a non-negative remaining time, never more than
   * the whole duration when the clock has not gone backwards; conversely a
   * stored non-zero timestamp with a non-negative remaining time refuses.
   */
  lemma RefusalRemainingTime(lastExecuted: Option<int>, now: int)
    ensures !CanExecuteCommand(lastExecuted, LockDuration, now) <==>
      IsTruthy(lastExecuted) && RemainingTime(lastExecuted.value, now) >= 0
    ensures !CanExecuteCommand(lastExecuted, LockDuration, now) && now >= lastExecuted.value ==>
      RemainingTime(lastExecuted.value, now) <= LockDuration
  {
  }

  /** `Math.floor(ms / 1000)` minutes and `% 60` seconds, before they are rendered. */
  datatype MinutesSeconds = MinutesSeconds(minutes: int, seconds: int)

  /** JavaScript `%`: the remainder takes the sign of the dividend. */
  function JsRemainder(a: int, b: int): (r: int)
    requires b > 0
    ensures a >= 0 ==> 0 <= r < b
    ensures a < 0 ==> -b < r <= 0
  {
    if a >= 0 then a % b else -((-a) % b)
  }

  /**
   * The arithmetic of `formatRemainingTime`. Dafny's `/` by a positive
   * divisor rounds down, as `Math.floor` of the quotient does; `%` is
   * JavaScript's. For a non-negative time the seconds are below a minute
   * and minutes and seconds add back up to the whole seconds.
   */
  function SplitRemainingTime(ms: int): (t: MinutesSeconds)
    ensures ms >= 0 ==> t.minutes >= 0 && 0 <= t.seconds < 60
    ensures ms >= 0 ==> t.minutes * 60 + t.seconds == ms / 1000
  {
    var totalSeconds := ms / 1000;
    MinutesSeconds(totalSeconds / 60, JsRemainder(totalSeconds, 60))
  }

  /** The two fields of `${m}m ${sec}s` can be found again when `m` holds no `m`. */
  lemma TemplateReadBack(m: string, sec: string)
    requires 'm' !in m
    ensures var s := m + "m " + sec + "s";
      IndexOf(s, 'm') == |m| && s[|m|..|m| + 2] == "m " && s[|s| - 1] == 's' &&
      s[..|m|] == m && s[|m| + 2..|s| - 1] == sec
  {
    var s := m + "m " + sec + "s";
    IndexOfAfter(m, "m " + sec + "s", 'm');
    assert s == m + ("m " + sec + "s");
  }

  /**
   * `formatRemainingTime(ms)`: the text `${minutes}m ${seconds}s`. Read
   * back, the part before the first `m` is the minutes and the part between
   * `m ` and the closing `s` is the seconds, each printed as JavaScript
   * prints an integer (so, by `CanonicalIntTextIsUnique`, the text is fixed).
   */
  function FormatRemainingTime(ms: int): (s: string)
    ensures var k := IndexOf(s, 'm');
      k + 2 < |s| && s[k..k + 2] == "m " && s[|s| - 1] == 's' &&
      IsCanonicalIntText(s[..k]) && IntTextValue(s[..k]) == SplitRemainingTime(ms).minutes &&
      IsCanonicalIntText(s[k + 2..|s| - 1]) && IntTextValue(s[k + 2..|s| - 1]) == SplitRemainingTime(ms).seconds
  {
    var t := SplitRemainingTime(ms);
    var m := IntToString(t.minutes);
    var sec := IntToString(t.seconds);
    TemplateReadBack(m, sec);
    m + "m " + sec + "s"
  }

  /**
   * When the clock has not gone back since the stored time, the wait a
   * refusal reports shows as at most 15 minutes, and as 15 minutes only with
   * 0 seconds.
   */
  lemma ReportedWaitIsAtMostFifteenMinutes(lastExecuted: Option<int>, now: int)
    requires !CanExecuteCommand(lastExecuted, LockDuration, now)
    requires now >= lastExecuted.value
    ensures var t := SplitRemainingTime(RemainingTime(lastExecuted.value, now));
      0 <= t.minutes <= 15 && 0 <= t.seconds < 60 && (t.minutes == 15 ==> t.seconds == 0)
  {
    RefusalRemainingTime(lastExecuted, now);
  }

  /**
   * A stored time later than the clock (the clock went back) is refused
   * too, and then the reported wait can exceed 15 minutes.
   */
  lemma ClockBackReportsMoreThanFifteenMinutes()
    ensures !CanExecuteCommand(Some(1000), LockDuration, 0)
    ensures SplitRemainingTime(RemainingTime(1000, 0)) == MinutesSeconds(15, 1)
  {
  }

  /**
   * A remaining time just below zero is shown with negative fields: both
   * the floor division and JavaScript's `%` keep the sign.
   */
  lemma NegativeWaitShowsNegativeFields()
    ensures SplitRemainingTime(-1) == MinutesSeconds(-1, -1)
  {
  }
}
