/**
 * Urgency classification and the countdown label of a deadline
 * (getUrgencyLevel, getUrgencyColor and getTimeRemaining in
 * src/utils/deadline.ts). Both the due date and the current time are integer
 * milliseconds; the current time is a parameter instead of a clock read.
 */
module Urgency {
  import opened Wrappers
  import opened Decimal

  const SecondMs: int := 1000
  const MinuteMs: int := 60 * SecondMs
  const HourMs: int := 60 * MinuteMs
  const DayMs: int := 24 * HourMs

  datatype UrgencyLevel = Overdue | Urgent | Safe

  /**
   * isPast is a strict comparison with the current time, and the whole hours
   * until the due date (truncated, never negative on this branch) decide
   * between urgent and safe.
   */
  function UrgencyLevelOf(due: int, now: int): (u: UrgencyLevel)
    ensures u == Overdue <==> due < now
    ensures u == Urgent <==> now <= due < now + DayMs
    ensures u == Safe <==> now + DayMs <= due
  {
    if due < now then Overdue
    else if (due - now) / HourMs < 24 then Urgent
    else Safe
  }

  /** The literal of the level in the TypeScript union type. */
  function LevelName(u: UrgencyLevel): string
  {
    match u
    case Overdue => "overdue"
    case Urgent => "urgent"
    case Safe => "safe"
  }

  /** Position of a level in the display order used by the sort. */
  function Rank(u: UrgencyLevel): (r: nat)
    ensures r < 3
  {
    match u
    case Overdue => 0
    case Urgent => 1
    case Safe => 2
  }

  /** The CSS colour of each level: the level's own custom property. */
  function UrgencyColor(u: UrgencyLevel): (c: string)
    ensures c == "hsl(var(--" + LevelName(u) + "))"
  {
    match u
    case Overdue => "hsl(var(--overdue))"
    case Urgent => "hsl(var(--urgent))"
    case Safe => "hsl(var(--safe))"
  }

  /** Distinct levels are drawn in distinct colours. */
  lemma UrgencyColorInjective(u: UrgencyLevel, v: UrgencyLevel)
    ensures UrgencyColor(u) == UrgencyColor(v) ==> u == v
  {
  }

  /** The display order of the levels: overdue 0, urgent 1, safe 2. */
  lemma RankOrder()
    ensures Rank(Overdue) == 0 && Rank(Urgent) == 1 && Rank(Safe) == 2
  {
  }

  /**
   * The rank never decreases as the due date moves later, and it grows
   * whenever the level changes.
   */
  lemma RankMonotone(due1: int, due2: int, now: int)
    requires due1 <= due2
    ensures Rank(UrgencyLevelOf(due1, now)) <= Rank(UrgencyLevelOf(due2, now))
    ensures UrgencyLevelOf(due1, now) != UrgencyLevelOf(due2, now) ==>
      Rank(UrgencyLevelOf(due1, now)) < Rank(UrgencyLevelOf(due2, now))
  {
  }

  /** The label getTimeRemaining builds, before it is turned into text. */
  datatype Countdown =
    | DaysOverdue(days: nat)
    | HoursOverdue(hours: nat)
    | MinutesOverdue(minutes: nat)
    | DaysHours(days: nat, hours: nat)
    | HoursMinutes(hours: nat, minutes: nat)
    | MinutesSeconds(minutes: nat, seconds: nat)
    | Seconds(seconds: nat)
  {
    predicate IsOverdue()
    {
      DaysOverdue? || HoursOverdue? || MinutesOverdue?
    }

    /** Every count is within the range of its unit when shown. */
    predicate WellFormed()
    {
      match this
      case DaysOverdue(d) => 1 <= d
      case HoursOverdue(h) => 1 <= h < 24
      case MinutesOverdue(m) => m < 60
      case DaysHours(d, h) => 1 <= d && h < 24
      case HoursMinutes(h, m) => 1 <= h < 24 && m < 60
      case MinutesSeconds(m, s) => 1 <= m < 60 && s < 60
      case Seconds(s) => s < 60
    }

    /** The duration the label shows, in milliseconds. */
    function Shown(): int
    {
      match this
      case DaysOverdue(d) => d * DayMs
      case HoursOverdue(h) => h * HourMs
      case MinutesOverdue(m) => m * MinuteMs
      case DaysHours(d, h) => d * DayMs + h * HourMs
      case HoursMinutes(h, m) => h * HourMs + m * MinuteMs
      case MinutesSeconds(m, s) => m * MinuteMs + s * SecondMs
      case Seconds(s) => s * SecondMs
    }

    /** The smallest unit the label shows, in milliseconds. */
    function Unit(): int
    {
      match this
      case DaysOverdue(_) => DayMs
      case HoursOverdue(_) => HourMs
      case MinutesOverdue(_) => MinuteMs
      case DaysHours(_, _) => HourMs
      case HoursMinutes(_, _) => MinuteMs
      case MinutesSeconds(_, _) => SecondMs
      case Seconds(_) => SecondMs
    }
  }

  function Distance(due: int, now: int): nat
  {
    if due < now then now - due else due - now
  }

  /** Whole units in x, as date-fns truncates a non-negative difference. */
  lemma WholeUnits(x: nat, unit: int)
    requires unit > 0
    ensures (x / unit) * unit <= x < (x / unit) * unit + unit
  {
  }

  lemma SecondsToMinutes(x: nat)
    ensures x / MinuteMs == (x / SecondMs) / 60
  {
  }

  lemma MinutesToHours(x: nat)
    ensures x / HourMs == (x / MinuteMs) / 60
  {
  }

  lemma DaysOverdueBracket(x: nat)
    requires (x / HourMs) / 24 > 0
    ensures var c := DaysOverdue((x / HourMs) / 24);
      c.WellFormed() && c.Shown() <= x < c.Shown() + c.Unit()
  {
    WholeUnits(x, HourMs);
    WholeUnits(x / HourMs, 24);
  }

  lemma HoursOverdueBracket(x: nat)
    requires (x / HourMs) / 24 == 0 && x / HourMs > 0
    ensures var c := HoursOverdue(x / HourMs);
      c.WellFormed() && c.Shown() <= x < c.Shown() + c.Unit()
  {
    WholeUnits(x, HourMs);
  }

  lemma MinutesOverdueBracket(x: nat)
    requires x / HourMs == 0
    ensures var c := MinutesOverdue(x / MinuteMs);
      c.WellFormed() && c.Shown() <= x < c.Shown() + c.Unit()
  {
    WholeUnits(x, MinuteMs);
  }

  /** The overdue branch of getTimeRemaining, from the elapsed milliseconds. */
  function OverdueCountdown(elapsed: nat): (c: Countdown)
    requires elapsed > 0
    ensures c.IsOverdue() && c.WellFormed()
    ensures c.Shown() <= elapsed < c.Shown() + c.Unit()
  {
    var minutesOverdue := elapsed / MinuteMs;
    var hoursOverdue := elapsed / HourMs;
    var daysOverdue := hoursOverdue / 24;
    if daysOverdue > 0 then
      DaysOverdueBracket(elapsed);
      DaysOverdue(daysOverdue)
    else if hoursOverdue > 0 then
      HoursOverdueBracket(elapsed);
      HoursOverdue(hoursOverdue)
    else
      MinutesOverdueBracket(elapsed);
      MinutesOverdue(minutesOverdue)
  }

  lemma DaysHoursBracket(x: nat)
    requires x / HourMs >= 24
    ensures var c := DaysHours((x / HourMs) / 24, (x / HourMs) % 24);
      c.WellFormed() && c.Shown() <= x < c.Shown() + c.Unit()
  {
    WholeUnits(x, HourMs);
    WholeUnits(x / HourMs, 24);
  }

  lemma HoursMinutesBracket(x: nat)
    requires 0 < x / HourMs < 24
    ensures var c := HoursMinutes(x / HourMs, (x / MinuteMs) % 60);
      c.WellFormed() && c.Shown() <= x < c.Shown() + c.Unit()
  {
    MinutesToHours(x);
    WholeUnits(x, MinuteMs);
    WholeUnits(x / MinuteMs, 60);
  }

  lemma MinutesSecondsBracket(x: nat)
    requires x / HourMs == 0 && (x / MinuteMs) % 60 > 0
    ensures var c := MinutesSeconds((x / MinuteMs) % 60, (x / SecondMs) % 60);
      c.WellFormed() && c.Shown() <= x < c.Shown() + c.Unit()
  {
    SecondsToMinutes(x);
    WholeUnits(x, SecondMs);
    WholeUnits(x / SecondMs, 60);
  }

  lemma SecondsBracket(x: nat)
    requires x / HourMs == 0 && (x / MinuteMs) % 60 == 0
    ensures var c := Seconds((x / SecondMs) % 60);
      c.WellFormed() && c.Shown() <= x < c.Shown() + c.Unit()
  {
    SecondsToMinutes(x);
    WholeUnits(x, SecondMs);
  }

  /** The future branch of getTimeRemaining, from the milliseconds still ahead. */
  function AheadCountdown(ahead: nat): (c: Countdown)
    ensures !c.IsOverdue() && c.WellFormed()
    ensures c.Shown() <= ahead < c.Shown() + c.Unit()
  {
    var hours := ahead / HourMs;
    var minutes := (ahead / MinuteMs) % 60;
    var seconds := (ahead / SecondMs) % 60;
    if hours >= 24 then
      DaysHoursBracket(ahead);
      DaysHours(hours / 24, hours % 24)
    else if hours > 0 then
      HoursMinutesBracket(ahead);
      HoursMinutes(hours, minutes)
    else if minutes > 0 then
      MinutesSecondsBracket(ahead);
      MinutesSeconds(minutes, seconds)
    else
      SecondsBracket(ahead);
      Seconds(seconds)
  }

  /**
   * The countdown of getTimeRemaining. It is overdue exactly when the due
   * date is past, it shows the distance to the due date truncated to its
   * smallest unit, and every count is in its unit's range.
   */
  function CountdownOf(due: int, now: int): (c: Countdown)
    ensures c.IsOverdue() <==> due < now
    ensures c.WellFormed()
    ensures c.Shown() <= Distance(due, now) < c.Shown() + c.Unit()
  {
    if due < now then OverdueCountdown(now - due) else AheadCountdown(due - now)
  }

  const OverdueSuffix: string := " overdue"

  /** The text ends with the word that marks an overdue label. */
  predicate OverdueLabel(s: string)
  {
    |OverdueSuffix| <= |s| && s[|s| - |OverdueSuffix|..] == OverdueSuffix
  }

  /** A text ending in a unit letter is not an overdue label. */
  lemma UnitEndingNotOverdue(p: string, u: char)
    requires u in {'h', 'm', 's'}
    ensures !OverdueLabel(p + [u])
  {
    var s := p + [u];
    assert s[|s| - 1] == u;
    assert |OverdueSuffix| <= |s| ==> s[|s| - |OverdueSuffix|..][|OverdueSuffix| - 1] == s[|s| - 1];
  }

  /**
   * The text of a countdown, with the English unit letters d, h, m and s. It
   * starts with its first count, and it ends in " overdue" exactly when the
   * countdown is an overdue one.
   */
  function Render(c: Countdown): (s: string)
    ensures |s| > 0 && IsDigit(s[0])
    ensures c.IsOverdue() <==> OverdueLabel(s)
  {
    match c
    case DaysOverdue(d) => assert OverdueLabel(NatToString(d) + "d" + OverdueSuffix); NatToString(d) + "d" + OverdueSuffix
    case HoursOverdue(h) => assert OverdueLabel(NatToString(h) + "h" + OverdueSuffix); NatToString(h) + "h" + OverdueSuffix
    case MinutesOverdue(m) => assert OverdueLabel(NatToString(m) + "m" + OverdueSuffix); NatToString(m) + "m" + OverdueSuffix
    case DaysHours(d, h) => UnitEndingNotOverdue(NatToString(d) + "d " + NatToString(h), 'h'); NatToString(d) + "d " + NatToString(h) + "h"
    case HoursMinutes(h, m) => UnitEndingNotOverdue(NatToString(h) + "h " + NatToString(m), 'm'); NatToString(h) + "h " + NatToString(m) + "m"
    case MinutesSeconds(m, s) => UnitEndingNotOverdue(NatToString(m) + "m " + NatToString(s), 's'); NatToString(m) + "m " + NatToString(s) + "s"
    case Seconds(s) => UnitEndingNotOverdue(NatToString(s), 's'); NatToString(s) + "s"
  }

  /**
   * getTimeRemaining: the label of the time left until, or since, the due
   * date. It is marked overdue exactly when the due date is past, and it
   * reads back as the countdown of the same due date and instant.
   */
  function TimeRemaining(due: int, now: int): (s: string)
    ensures OverdueLabel(s) <==> due < now
    ensures ParseCountdown(s) == Some(CountdownOf(due, now))
  {
    RenderReadsBack(CountdownOf(due, now));
    Render(CountdownOf(due, now))
  }

  /**
   * Reads a label back into the countdown it shows; None for any other text.
   * A count must be written as `${n}` writes it, without leading zeros.
   */
  function ParseCountdown(s: string): Option<Countdown>
  {
    var n := DigitRun(s);
    if !Canonical(s[..n]) || n == |s| then None
    else ParseAfterCount(ValueOf(s[..n]), s[n], s[n + 1..])
  }

  /** The rest of a label after its first count and unit letter. */
  function ParseAfterCount(a: nat, unit: char, rest: string): Option<Countdown>
  {
    if rest == OverdueSuffix then
      if unit == 'd' then Some(DaysOverdue(a))
      else if unit == 'h' then Some(HoursOverdue(a))
      else if unit == 'm' then Some(MinutesOverdue(a))
      else None
    else if rest == [] then
      if unit == 's' then Some(Seconds(a)) else None
    else if rest[0] == ' ' then ParseSecondCount(a, unit, rest[1..])
    else None
  }

  /** The second count and unit letter of a two-part label, which ends the text. */
  function ParseSecondCount(a: nat, unit1: char, t: string): Option<Countdown>
  {
    var n := DigitRun(t);
    if !Canonical(t[..n]) || n + 1 != |t| then None
    else PairOf(a, unit1, ValueOf(t[..n]), t[n])
  }

  /** The two-part countdown with these unit letters, if there is one. */
  function PairOf(a: nat, unit1: char, b: nat, unit2: char): Option<Countdown>
  {
    if unit1 == 'd' && unit2 == 'h' then Some(DaysHours(a, b))
    else if unit1 == 'h' && unit2 == 'm' then Some(HoursMinutes(a, b))
    else if unit1 == 'm' && unit2 == 's' then Some(MinutesSeconds(a, b))
    else None
  }

  /** A count followed by a unit letter is read as that count and that letter. */
  lemma CountReadsBack(n: nat, u: char, tail: string)
    requires !IsDigit(u)
    ensures ParseCountdown(NatToString(n) + [u] + tail) == ParseAfterCount(n, u, tail)
  {
    var p := NatToString(n);
    var s := p + [u] + tail;
    assert s == p + ([u] + tail);
    NatToStringReadsBack(n, [u] + tail);
    ValueOfNatToString(n);
    assert s[|p|] == u && s[|p| + 1..] == tail;
  }

  /** The second count of a two-part label is read back with its unit letter. */
  lemma SecondCountReadsBack(a: nat, u1: char, b: nat, u2: char)
    requires !IsDigit(u2)
    ensures ParseSecondCount(a, u1, NatToString(b) + [u2]) == PairOf(a, u1, b, u2)
  {
    var t := NatToString(b) + [u2];
    assert t == NatToString(b) + [u2] + [];
    NatToStringReadsBack(b, [u2]);
    ValueOfNatToString(b);
    assert t[|NatToString(b)|] == u2;
  }

  /** The rest of a two-part label, after its first unit letter, is not " overdue". */
  lemma SpaceCountNotOverdue(b: nat, u: char)
    ensures " " + NatToString(b) + [u] != OverdueSuffix
  {
    var tail := " " + NatToString(b) + [u];
    assert IsDigit(NatToString(b)[0]);
    assert tail[1] == NatToString(b)[0];
  }

  /** After the first unit letter, a space and the second count read back as the pair. */
  lemma SecondPartReadsBack(a: nat, u1: char, b: nat, u2: char)
    requires !IsDigit(u2)
    ensures ParseAfterCount(a, u1, " " + NatToString(b) + [u2]) == PairOf(a, u1, b, u2)
  {
    var tail := " " + NatToString(b) + [u2];
    SpaceCountNotOverdue(b, u2);
    assert tail[1..] == NatToString(b) + [u2];
    SecondCountReadsBack(a, u1, b, u2);
  }

  lemma TwoUnitsReadBack(a: nat, u1: char, b: nat, u2: char)
    requires !IsDigit(u1) && !IsDigit(u2)
    ensures ParseCountdown(NatToString(a) + [u1] + " " + NatToString(b) + [u2]) == PairOf(a, u1, b, u2)
  {
    var tail := " " + NatToString(b) + [u2];
    assert NatToString(a) + [u1] + " " + NatToString(b) + [u2] == NatToString(a) + [u1] + tail;
    CountReadsBack(a, u1, tail);
    SecondPartReadsBack(a, u1, b, u2);
  }

  lemma OverdueReadsBack(c: Countdown)
    requires c.IsOverdue()
    ensures ParseCountdown(Render(c)) == Some(c)
  {
    var (n, u) := match c
      case DaysOverdue(d) => (d, 'd')
      case HoursOverdue(h) => (h, 'h')
      case MinutesOverdue(m) => (m, 'm');
    assert Render(c) == NatToString(n) + [u] + OverdueSuffix;
    CountReadsBack(n, u, OverdueSuffix);
  }

  lemma SecondsReadBack(c: Countdown)
    requires c.Seconds?
    ensures ParseCountdown(Render(c)) == Some(c)
  {
    assert Render(c) == NatToString(c.seconds) + ['s'] + [];
    CountReadsBack(c.seconds, 's', []);
  }

  /** The two counts and unit letters of a two-part countdown. */
  function PairParts(c: Countdown): (nat, char, nat, char)
    requires c.DaysHours? || c.HoursMinutes? || c.MinutesSeconds?
  {
    match c
    case DaysHours(d, h) => (d, 'd', h, 'h')
    case HoursMinutes(h, m) => (h, 'h', m, 'm')
    case MinutesSeconds(m, s) => (m, 'm', s, 's')
  }

  /** A two-part countdown is rendered from its parts, and its parts rebuild it. */
  lemma PairRendering(c: Countdown)
    requires c.DaysHours? || c.HoursMinutes? || c.MinutesSeconds?
    ensures var (a, u1, b, u2) := PairParts(c);
      && Render(c) == NatToString(a) + [u1] + " " + NatToString(b) + [u2]
      && PairOf(a, u1, b, u2) == Some(c) && !IsDigit(u1) && !IsDigit(u2)
  {
  }

  lemma PairReadsBack(c: Countdown)
    requires c.DaysHours? || c.HoursMinutes? || c.MinutesSeconds?
    ensures ParseCountdown(Render(c)) == Some(c)
  {
    var (a, u1, b, u2) := PairParts(c);
    PairRendering(c);
    TwoUnitsReadBack(a, u1, b, u2);
  }

  /** The label is unambiguous: reading it back gives the countdown it renders. */
  lemma {:induction false} RenderReadsBack(c: Countdown)
    ensures ParseCountdown(Render(c)) == Some(c)
  {
    if c.IsOverdue() {
      OverdueReadsBack(c);
    } else if c.Seconds? {
      SecondsReadBack(c);
    } else {
      PairReadsBack(c);
    }
  }

  /** The two-part countdown read from its parts renders as those parts. */
  lemma PairOfRendered(a: nat, u1: char, b: nat, u2: char, c: Countdown)
    requires PairOf(a, u1, b, u2) == Some(c)
    ensures Render(c) == NatToString(a) + [u1] + (" " + (NatToString(b) + [u2]))
  {
    assert PairParts(c) == (a, u1, b, u2);
    PairRendering(c);
  }

  lemma SecondCountRendered(a: nat, u1: char, t: string, c: Countdown)
    requires ParseSecondCount(a, u1, t) == Some(c)
    ensures Render(c) == NatToString(a) + [u1] + (" " + t)
  {
    var n := DigitRun(t);
    var (count, u2) := (t[..n], t[n]);
    assert Canonical(count) && PairOf(a, u1, ValueOf(count), u2) == Some(c);
    NatToStringOfValue(count);
    FirstCountSplit(t, n);
    assert t[n + 1..] == [];
    PairOfRendered(a, u1, ValueOf(count), u2, c);
  }

  lemma OverdueRendered(a: nat, u: char, c: Countdown)
    requires ParseAfterCount(a, u, OverdueSuffix) == Some(c)
    ensures Render(c) == NatToString(a) + [u] + OverdueSuffix
  {
    if u == 'd' {
      assert c == DaysOverdue(a);
    } else if u == 'h' {
      assert c == HoursOverdue(a);
    } else {
      assert c == MinutesOverdue(a);
    }
  }

  lemma AfterCountRendered(a: nat, u: char, rest: string, c: Countdown)
    requires ParseAfterCount(a, u, rest) == Some(c)
    ensures Render(c) == NatToString(a) + [u] + rest
  {
    if rest == OverdueSuffix {
      OverdueRendered(a, u, c);
    } else if rest == [] {
      assert c == Seconds(a) && u == 's';
      assert NatToString(a) + [u] + rest == NatToString(a) + "s";
    } else {
      SecondCountRendered(a, u, rest[1..], c);
      assert rest == " " + rest[1..];
    }
  }

  /** Only the rendered label of a countdown reads back as that countdown. */
  lemma {:induction false} ParseCountdownRendered(s: string, c: Countdown)
    ensures ParseCountdown(s) == Some(c) ==> s == Render(c)
  {
    if ParseCountdown(s) == Some(c) {
      var n := DigitRun(s);
      FirstCountSplit(s, n);
      NatToStringOfValue(s[..n]);
      AfterCountRendered(ValueOf(s[..n]), s[n], s[n + 1..], c);
    }
  }

  /** A label is its first count, its first unit letter and the rest. */
  lemma FirstCountSplit(s: string, n: nat)
    requires n < |s|
    ensures s == s[..n] + [s[n]] + s[n + 1..]
  {
  }

  /**
   * The label of getTimeRemaining is the one text that reads back as the
   * countdown of its due date and instant.
   */
  lemma TimeRemainingOnlyLabel(due: int, now: int, s: string)
    ensures ParseCountdown(s) == Some(CountdownOf(due, now)) <==> s == TimeRemaining(due, now)
  {
    ParseCountdownRendered(s, CountdownOf(due, now));
  }

  /** 1 day, 1 hour, 1 minute and 1 second ahead shows only days and hours. */
  lemma OneDayOneHourExample(now: int)
    ensures TimeRemaining(now + 90061 * SecondMs, now) == "1d 1h"
  {
    assert CountdownOf(now + 90061 * SecondMs, now) == DaysHours(1, 1);
  }

  /** Thirty minutes past the due date. */
  lemma ThirtyMinutesOverdueExample(now: int)
    ensures TimeRemaining(now - 30 * MinuteMs, now) == "30m overdue"
    ensures UrgencyLevelOf(now - 30 * MinuteMs, now) == Overdue
  {
    var c := CountdownOf(now - 30 * MinuteMs, now);
    assert c == MinutesOverdue(30);
    assert NatToString(30) == "30" by {
      assert NatToString(3) == "3";
      assert NatToString(30) == NatToString(3) + [DigitChar(0)];
    }
    assert Render(c) == "30m overdue";
  }

  /** A deadline due exactly now is not yet past: it is urgent and shows "0s". */
  lemma DueNowExample(now: int)
    ensures UrgencyLevelOf(now, now) == Urgent
    ensures TimeRemaining(now, now) == "0s"
  {
    assert CountdownOf(now, now) == Seconds(0);
  }
}
