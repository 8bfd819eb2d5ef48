/**
  `formatDuration` of App.tsx: a millisecond count is cut into whole days,
  hours, minutes and seconds and printed as "{d}d {h}h {m}m {s}s". The
  count is a natural number: its only caller passes a clamped, positive
  remaining time, and JavaScript timestamps are whole milliseconds.
 */
module Duration {
  import opened Wrappers
  import opened Decimal

  const SecondsPerMinute := 60
  const SecondsPerHour := 3600
  const SecondsPerDay := 86400
  const MillisPerSecond := 1000

  datatype Parts = Parts(days: nat, hours: nat, minutes: nat, seconds: nat)

  /** The number of seconds the parts stand for. */
  function Seconds(p: Parts): nat {
    p.days * SecondsPerDay + p.hours * SecondsPerHour + p.minutes * SecondsPerMinute + p.seconds
  }

  /** Every part below the one above it is less than one unit of that one. */
  predicate Normalized(p: Parts) {
    p.hours < 24 && p.minutes < 60 && p.seconds < 60
  }

  /**
    The decomposition `formatDuration` computes with `Math.floor` and `%`;
    on natural numbers these are Dafny's `/` and `%`. Its parts are bounded
    and recompose to the whole seconds of `ms`.
   */
  function Decompose(ms: nat): (p: Parts)
    ensures Normalized(p)
    ensures Seconds(p) == ms / MillisPerSecond
  {
    var total := ms / MillisPerSecond;
    var p := Parts(total / SecondsPerDay, (total % SecondsPerDay) / SecondsPerHour,
                   (total % SecondsPerHour) / SecondsPerMinute, total % SecondsPerMinute);
    RecomposeSeconds(total);
    p
  }

  lemma RecomposeSeconds(total: nat)
    ensures (total / 86400) * 86400 + ((total % 86400) / 3600) * 3600
            + ((total % 3600) / 60) * 60 + total % 60 == total
  {
    var d, r := total / 86400, total % 86400;
    var h, r1 := r / 3600, r % 3600;
    var m, sec := r1 / 60, r1 % 60;
    assert total == d * 86400 + h * 3600 + m * 60 + sec;
    DivModUnique(total, 3600, d * 24 + h, m * 60 + sec);
    DivModUnique(total, 60, d * 1440 + h * 60 + m, sec);
  }

  /** Division with remainder has exactly one answer. */
  lemma DivModUnique(n: nat, m: nat, q: nat, r: nat)
    requires m > 0 && r < m && n == q * m + r
    ensures n / m == q && n % m == r
  {
    var q', r' := n / m, n % m;
    assert q' * m + r' == q * m + r;
    if q' < q {
      ShiftedProduct(q', q - q', m);
      assert r' == (q - q') * m + r;
      AtLeastOnce(q - q', m);
    } else if q < q' {
      ShiftedProduct(q, q' - q, m);
      assert r == (q' - q) * m + r';
      AtLeastOnce(q' - q, m);
    }
  }

  lemma ShiftedProduct(a: nat, k: nat, m: nat)
    ensures (a + k) * m == a * m + k * m
  {
  }

  lemma AtLeastOnce(k: nat, m: nat)
    requires k >= 1
    ensures k * m >= m
  {
    ShiftedProduct(1, k - 1, m);
  }

  /** The normalized parts that recompose to the whole seconds of `ms` are the ones `Decompose` gives. */
  lemma DecomposeUnique(ms: nat, p: Parts)
    requires Normalized(p) && Seconds(p) == ms / MillisPerSecond
    ensures p == Decompose(ms)
  {
    var total := ms / MillisPerSecond;
    var hms := p.hours * 3600 + p.minutes * 60 + p.seconds;
    assert hms < 86400;
    DivModUnique(total, 86400, p.days, hms);
    var ms' := p.minutes * 60 + p.seconds;
    assert total == (p.days * 24 + p.hours) * 3600 + ms';
    DivModUnique(total, 3600, p.days * 24 + p.hours, ms');
    DivModUnique(hms, 3600, p.hours, ms');
    DivModUnique(ms', 60, p.minutes, p.seconds);
    assert total == (p.days * 1440 + p.hours * 60 + p.minutes) * 60 + p.seconds;
    DivModUnique(total, 60, p.days * 1440 + p.hours * 60 + p.minutes, p.seconds);
  }

  /** The text of the parts, "{d}d {h}h {m}m {s}s". */
  function Render(p: Parts): string {
    Show(p.days) + "d " + Show(p.hours) + "h " + Show(p.minutes) + "m " + Show(p.seconds) + "s"
  }

  /** `formatDuration(ms)`: starts with a digit and ends with the seconds unit. */
  function FormatDuration(ms: nat): (s: string)
    ensures |s| >= 8 && IsDigit(s[0]) && s[|s| - 1] == 's'
  {
    Render(Decompose(ms))
  }

  /**
    Reads one field "{digits}{unit}" off the front of `s`, returning its
    value and the text after the unit.
   */
  function ReadField(s: string, unit: char): Option<(nat, string)> {
    var k := LeadingDigits(s);
    if k == 0 || k == |s| || s[k] != unit then None
    else Some((Value(s[..k]), s[k + 1..]))
  }

  lemma ReadFieldOfShow(n: nat, unit: char, rest: string)
    requires !IsDigit(unit)
    ensures ReadField(Show(n) + [unit] + rest, unit) == Some((n, rest))
  {
    var s := Show(n) + [unit] + rest;
    assert s == Show(n) + ([unit] + rest);
    LeadingDigitsOfRun(Show(n), [unit] + rest);
    assert s[..|Show(n)|] == Show(n);
    assert s[|Show(n)| + 1..] == rest;
    ValueOfShow(n);
  }

  /** Reads "{digits}{unit} " off the front of `s`: a field and the space after it. */
  function ReadSpaced(s: string, unit: char): Option<(nat, string)> {
    match ReadField(s, unit)
    case None => None
    case Some((v, r)) => if r == [] || r[0] != ' ' then None else Some((v, r[1..]))
  }

  lemma ReadSpacedOfShow(n: nat, unit: char, rest: string)
    requires !IsDigit(unit)
    ensures ReadSpaced(Show(n) + [unit, ' '] + rest, unit) == Some((n, rest))
  {
    assert Show(n) + [unit, ' '] + rest == Show(n) + [unit] + ([' '] + rest);
    ReadFieldOfShow(n, unit, [' '] + rest);
    assert ([' '] + rest)[1..] == rest;
  }

  /** Reads a duration text "{d}d {h}h {m}m {s}s" back into its parts. */
  function ParseDuration(s: string): Option<Parts> {
    match ReadSpaced(s, 'd')
    case None => None
    case Some((d, r1)) =>
      match ReadSpaced(r1, 'h')
      case None => None
      case Some((h, r2)) =>
        match ReadSpaced(r2, 'm')
        case None => None
        case Some((m, r3)) =>
          match ReadField(r3, 's')
          case None => None
          case Some((sec, r4)) => if r4 == [] then Some(Parts(d, h, m, sec)) else None
  }

  /** The rendered text is unambiguous: it reads back to the parts it was made from. */
  lemma ParseRender(p: Parts)
    ensures ParseDuration(Render(p)) == Some(p)
  {
    var r3 := Show(p.seconds) + ['s'] + [];
    var r2 := Show(p.minutes) + ['m', ' '] + r3;
    var r1 := Show(p.hours) + ['h', ' '] + r2;
    assert Render(p) == Show(p.days) + ['d', ' '] + r1;
    ReadSpacedOfShow(p.days, 'd', r1);
    ReadSpacedOfShow(p.hours, 'h', r2);
    ReadSpacedOfShow(p.minutes, 'm', r3);
    ReadFieldOfShow(p.seconds, 's', []);
  }

  /** What `formatDuration` prints determines the whole seconds it was given. */
  lemma {:induction false} ParseFormatDuration(ms: nat)
    ensures ParseDuration(FormatDuration(ms)) == Some(Decompose(ms))
    ensures forall ms': nat :: FormatDuration(ms') == FormatDuration(ms) ==> ms' / MillisPerSecond == ms / MillisPerSecond
  {
    ParseRender(Decompose(ms));
    forall ms': nat | FormatDuration(ms') == FormatDuration(ms)
      ensures ms' / MillisPerSecond == ms / MillisPerSecond
    {
      ParseRender(Decompose(ms'));
    }
  }

  /** Zero, and one of each unit. */
  lemma FormatDurationExamples()
    ensures FormatDuration(0) == "0d 0h 0m 0s"
    ensures FormatDuration(90061000) == "1d 1h 1m 1s"
  {
    DecomposeUnique(0, Parts(0, 0, 0, 0));
    DecomposeUnique(90061000, Parts(1, 1, 1, 1));
  }
}
