/**
  `formatRelativeTime`: how long ago a timestamp was, in hour and day
  buckets, with an absolute date after a week. Timestamps are milliseconds
  since the epoch; parsing the date text and formatting an absolute date
  are parameters.
 */
module TimeUtils {
  import opened Wrappers
  import opened Decimal

  const MsPerHour: int := 1000 * 60 * 60
  const HoursPerDay: int := 24
  const HoursPerWeek: int := 168

  datatype RelativeTime =
    | InvalidDate
    | JustNow
    | HoursAgo(hours: nat)
    | DaysAgo(days: nat)
    | Absolute(at: int)

  /**
    The bucket of a date text read at `now`: an empty or unparsable text is
    invalid; otherwise the whole hours elapsed (rounded down, so a future
    date counts as less than one hour) pick the bucket.
   */
  function Bucket(dateText: string, parse: string -> Option<int>, now: int): (r: RelativeTime)
    ensures r == InvalidDate <==> dateText == "" || parse(dateText).None?
    ensures r.JustNow? ==> now - parse(dateText).value < MsPerHour
    ensures r != InvalidDate && now - parse(dateText).value < MsPerHour ==> r == JustNow
    ensures r.HoursAgo? ==> 1 <= r.hours < HoursPerDay
    ensures r.HoursAgo? ==> r.hours * MsPerHour <= now - parse(dateText).value < (r.hours + 1) * MsPerHour
    ensures r.DaysAgo? ==> 1 <= r.days < 7
    ensures r.Absolute? ==> r.at == parse(dateText).value && now - r.at >= HoursPerWeek * MsPerHour
  {
    if dateText == "" then InvalidDate
    else
      match parse(dateText)
      case None => InvalidDate
      case Some(date) =>
        var diffInHours := (now - date) / MsPerHour;
        if diffInHours < 1 then JustNow
        else if diffInHours < HoursPerDay then HoursAgo(diffInHours)
        else if diffInHours < HoursPerWeek then DaysAgo(diffInHours / HoursPerDay)
        else Absolute(date)
  }

  /**
    Whole days elapsed, counted directly in milliseconds, agree with the
    days bucket, which rounds down to hours first and then to days.
   */
  lemma DaysAreWholeDays(dateText: string, parse: string -> Option<int>, now: int)
    requires Bucket(dateText, parse, now).DaysAgo?
    ensures var d := Bucket(dateText, parse, now).days;
            var diff := now - parse(dateText).value;
            d * HoursPerDay * MsPerHour <= diff < (d + 1) * HoursPerDay * MsPerHour
  {
    var diff := now - parse(dateText).value;
    var h := diff / MsPerHour;
    var d := h / HoursPerDay;
    assert h * MsPerHour <= diff < (h + 1) * MsPerHour;
    assert d * HoursPerDay <= h < (d + 1) * HoursPerDay;
    assert d * HoursPerDay * MsPerHour <= h * MsPerHour by {
      MulMonotone(d * HoursPerDay, h, MsPerHour);
    }
    assert (h + 1) * MsPerHour <= (d + 1) * HoursPerDay * MsPerHour by {
      MulMonotone(h + 1, (d + 1) * HoursPerDay, MsPerHour);
    }
  }

  lemma MulMonotone(a: int, b: int, c: nat)
    requires a <= b
    ensures a * c <= b * c
  {
  }

  /** How old a bucket says the date is, in hours. */
  function Freshness(r: RelativeTime): int
  {
    match r
    case InvalidDate => -1
    case JustNow => 0
    case HoursAgo(h) => h
    case DaysAgo(d) => d * HoursPerDay
    case Absolute(_) => HoursPerWeek
  }

  /** Reading later never moves a date to a fresher bucket. */
  lemma BucketMonotone(dateText: string, parse: string -> Option<int>, now1: int, now2: int)
    requires now1 <= now2
    ensures Freshness(Bucket(dateText, parse, now1)) <= Freshness(Bucket(dateText, parse, now2))
  {
    if dateText != "" && parse(dateText).Some? {
      var date := parse(dateText).value;
      DivMonotone(now1 - date, now2 - date, MsPerHour);
      var h1 := (now1 - date) / MsPerHour;
      var h2 := (now2 - date) / MsPerHour;
      if HoursPerDay <= h1 < HoursPerWeek && HoursPerDay <= h2 < HoursPerWeek {
        DivMonotone(h1, h2, HoursPerDay);
      }
      if h1 < HoursPerDay && HoursPerDay <= h2 < HoursPerWeek {
        assert (h2 / HoursPerDay) * HoursPerDay >= HoursPerDay;
      }
      if HoursPerDay <= h1 < HoursPerWeek {
        assert (h1 / HoursPerDay) * HoursPerDay <= h1;
      }
    }
  }

  lemma DivMonotone(a: int, b: int, d: int)
    requires a <= b && d > 0
    ensures a / d <= b / d
  {
    if a / d > b / d {
      assert (a / d) * d >= (b / d + 1) * d by {
        MulMonotone(b / d + 1, a / d, d);
      }
    }
  }

  /** The translated texts the rendering uses; an empty translation counts as missing. */
  datatype Labels = Labels(invalidDate: string, justNow: string, hoursAgo: string, daysAgo: string)

  const InvalidDateFallback: string := "Invalid date"

  /**
    The text shown for a bucket: the invalid-date label (or its English
    fallback when the translation is empty), the just-now label, or the count
    in decimal followed by a space and the hours or days label; an absolute
    date is formatted by `dateText`.
   */
  function Render(r: RelativeTime, labels: Labels, dateText: int -> string): (text: string)
    ensures r.InvalidDate? ==> text != ""
    ensures r.InvalidDate? && labels.invalidDate != "" ==> text == labels.invalidDate
    ensures r.HoursAgo? || r.DaysAgo? ==>
              var n := if r.HoursAgo? then r.hours else r.days;
              var unit := if r.HoursAgo? then labels.hoursAgo else labels.daysAgo;
              text == NatToString(n) + " " + unit
  {
    match r
    case InvalidDate => if labels.invalidDate != "" then labels.invalidDate else InvalidDateFallback
    case JustNow => labels.justNow
    case HoursAgo(h) => NatToString(h) + " " + labels.hoursAgo
    case DaysAgo(d) => NatToString(d) + " " + labels.daysAgo
    case Absolute(at) => dateText(at)
  }

  /**
    `formatRelativeTime` (also exported as `formatTime` and `formatDate`):
    the bucket of `dateText` at `now`, rendered.
   */
  function FormatRelativeTime(dateText: string, parse: string -> Option<int>, now: int,
                              labels: Labels, absolute: int -> string): (text: string)
    ensures dateText == "" ==> text != ""
    ensures parse(dateText).Some? && now - parse(dateText).value >= HoursPerWeek * MsPerHour && dateText != "" ==>
              text == absolute(parse(dateText).value)
  {
    Render(Bucket(dateText, parse, now), labels, absolute)
  }

  /** The count in an hours or days text reads back as the number of hours or days. */
  lemma CountReadsBack(dateText: string, parse: string -> Option<int>, now: int, labels: Labels, absolute: int -> string)
    requires Bucket(dateText, parse, now).HoursAgo?
    ensures var text := FormatRelativeTime(dateText, parse, now, labels, absolute);
            var digits := NatToString(Bucket(dateText, parse, now).hours);
            digits <= text && AllDigits(digits) && Value(digits) == Bucket(dateText, parse, now).hours
            && text[|digits|] == ' '
  {
  }
}
