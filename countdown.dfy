/**
  The countdown of a chore card (`ChoreItem` in App.tsx): on mount and on
  every tick the card computes `remaining = Math.max(due - now, 0)` from the
  due instant and the clock, both whole milliseconds, and shows either the
  formatted remaining time or "Overdue".
 */
module Countdown {
  import opened Wrappers
  import opened Decimal
  import opened Duration

  const OverdueText := "Overdue"
  const RemainingSuffix := " remaining"

  /** `Math.max(due - now, 0)`: never negative, zero exactly when the due instant is not in the future. */
  function Remaining(due: int, now: int): (r: nat)
    ensures r >= due - now
    ensures r == 0 || r == due - now
    ensures r == 0 <==> due <= now
  {
    if due - now > 0 then due - now else 0
  }

  /** The text of the countdown line for a remaining time. */
  function CountdownText(remaining: nat): (t: string)
    ensures t == OverdueText <==> remaining == 0
    ensures remaining > 0 ==> t == FormatDuration(remaining) + RemainingSuffix
  {
    if remaining > 0 then
      var t := FormatDuration(remaining) + RemainingSuffix;
      assert IsDigit(t[0]) && !IsDigit(OverdueText[0]);
      t
    else OverdueText
  }

  /** What the card shows at clock reading `now` for a chore due at `due`. */
  function Display(due: int, now: int): string {
    CountdownText(Remaining(due, now))
  }

  /**
    A due instant that has passed always shows exactly "Overdue"; one in the
    future shows the whole seconds left until it, never a negative duration.
   */
  lemma DisplayCases(due: int, now: int)
    ensures Display(due, now) == OverdueText <==> due <= now
    ensures due > now ==> ParseDuration(Display(due, now)[..|Display(due, now)| - |RemainingSuffix|])
                          == Some(Decompose(due - now))
  {
    if due > now {
      var f := FormatDuration(due - now);
      assert (f + RemainingSuffix)[..|f|] == f;
      ParseFormatDuration(due - now);
    }
  }

  lemma DivMonotone(a: nat, b: nat, m: nat)
    requires a <= b && m > 0
    ensures a / m <= b / m
  {
    if a / m > b / m {
      AtLeastOnce(a / m - b / m, m);
    }
  }

  /**
    Between two ticks the clock only moves forward, so the whole seconds
    shown never grow, and once a chore is overdue it stays overdue.
   */
  lemma TickNeverIncreases(due: int, now: int, later: int)
    requires now <= later
    ensures Remaining(due, later) <= Remaining(due, now)
    ensures Seconds(Decompose(Remaining(due, later))) <= Seconds(Decompose(Remaining(due, now)))
    ensures Display(due, now) == OverdueText ==> Display(due, later) == OverdueText
  {
    DivMonotone(Remaining(due, later), Remaining(due, now), MillisPerSecond);
  }
}
