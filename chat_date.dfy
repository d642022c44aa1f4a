/**
 * `formatChatDate`: how long ago a message was sent, in the chat list's
 * buckets. The current time is a parameter instead of `new Date()`.
 */
module ChatDate {
  import opened Wrappers
  import opened Decimal

  const Minute := 60000
  const Hour := 3600000
  const Day := 86400000
  const Week := 604800000

  /**
   * Largest magnitude of a time value `new Date(t)` accepts; beyond it the
   * date is invalid (TimeClip, section 21.4.1.31 of ECMA-262).
   */
  const MaxTimeValue := 8_640_000_000_000_000

  /** What a message's date is shown as. */
  datatype ChatDate =
    | JustNow
    | MinutesAgo(minutes: nat)
    | HoursAgo(hours: nat)
    | DaysAgo(days: nat)
    | FullDate(time: int)   // a calendar date, written out by the locale
    | InvalidDate           // `new Date(timestamp)` is not a valid date

  predicate ValidTime(t: int) {
    -MaxTimeValue <= t <= MaxTimeValue
  }

  /**
   * The buckets are half open: an elapsed time exactly on a threshold goes
   * to the coarser bucket, and a count is the number of whole units elapsed.
   * A timestamp in the future (negative elapsed time) is "just now".
   */
  function FormatChatDate(timestamp: int, now: int): (r: ChatDate)
    ensures r == InvalidDate <==> !ValidTime(timestamp)
    ensures ValidTime(timestamp) ==> (r == JustNow <==> now - timestamp < Minute)
    ensures r.MinutesAgo? <==> ValidTime(timestamp) && Minute <= now - timestamp < Hour
    ensures r.MinutesAgo? ==>
      1 <= r.minutes <= 59 && r.minutes * Minute <= now - timestamp < (r.minutes + 1) * Minute
    ensures r.HoursAgo? <==> ValidTime(timestamp) && Hour <= now - timestamp < Day
    ensures r.HoursAgo? ==>
      1 <= r.hours <= 23 && r.hours * Hour <= now - timestamp < (r.hours + 1) * Hour
    ensures r.DaysAgo? <==> ValidTime(timestamp) && Day <= now - timestamp < Week
    ensures r.DaysAgo? ==>
      1 <= r.days <= 6 && r.days * Day <= now - timestamp < (r.days + 1) * Day
    ensures r.FullDate? <==> ValidTime(timestamp) && now - timestamp >= Week
    ensures r.FullDate? ==> r.time == timestamp
  {
    if !ValidTime(timestamp) then InvalidDate
    else
      var diff := now - timestamp;
      if diff < Minute then JustNow
      else if diff < Hour then MinutesAgo(diff / Minute)
      else if diff < Day then HoursAgo(diff / Hour)
      else if diff < Week then DaysAgo(diff / Day)
      else FullDate(timestamp)
  }

  /** Order of the buckets from the most recent to the oldest. */
  function Rank(d: ChatDate): nat {
    match d
    case JustNow => 0
    case MinutesAgo(_) => 1
    case HoursAgo(_) => 2
    case DaysAgo(_) => 3
    case FullDate(_) => 4
    case InvalidDate => 5
  }

  /** The count a bucket shows, 0 where it shows none. */
  function Count(d: ChatDate): nat {
    match d
    case MinutesAgo(n) => n
    case HoursAgo(n) => n
    case DaysAgo(n) => n
    case _ => 0
  }

  /**
   * An older message never looks more recent: its bucket is at least as
   * coarse, and in the same bucket its count is at least as large.
   */
  lemma OlderIsNeverNewer(older: int, newer: int, now: int)
    requires ValidTime(older) && ValidTime(newer) && older <= newer
    ensures Rank(FormatChatDate(older, now)) >= Rank(FormatChatDate(newer, now))
    ensures Rank(FormatChatDate(older, now)) == Rank(FormatChatDate(newer, now)) ==>
      Count(FormatChatDate(older, now)) >= Count(FormatChatDate(newer, now))
  {
  }

  /** The thresholds themselves fall into the coarser bucket. */
  lemma Thresholds(now: int)
    requires ValidTime(now - Week) && ValidTime(now + 5000)
    ensures FormatChatDate(now - 30000, now) == JustNow
    ensures FormatChatDate(now + 5000, now) == JustNow
    ensures FormatChatDate(now - Minute + 1, now) == JustNow
    ensures FormatChatDate(now - Minute, now) == MinutesAgo(1)
    ensures FormatChatDate(now - 90000, now) == MinutesAgo(1)
    ensures FormatChatDate(now - Hour, now) == HoursAgo(1)
    ensures FormatChatDate(now - Day, now) == DaysAgo(1)
    ensures FormatChatDate(now - Week + 1, now) == DaysAgo(6)
    ensures FormatChatDate(now - Week, now) == FullDate(now - Week)
  {
  }

  /**
   * The text shown for a bucket (`"${minutes} menit lalu"` and so on). The
   * calendar date depends on the locale and has no text here; an invalid
   * date prints as "Invalid Date".
   */
  function RelativeText(d: ChatDate): (t: Option<string>)
    ensures t.None? <==> d.FullDate?
  {
    match d
    case JustNow => Some("Baru saja")
    case MinutesAgo(n) => Some(NatToString(n) + " menit lalu")
    case HoursAgo(n) => Some(NatToString(n) + " jam lalu")
    case DaysAgo(n) => Some(NatToString(n) + " hari lalu")
    case FullDate(_) => None
    case InvalidDate => Some("Invalid Date")
  }

  /** Splits a bucket's text into its count and its suffix. */
  function Suffix(d: ChatDate): string {
    match d
    case MinutesAgo(_) => " menit lalu"
    case HoursAgo(_) => " jam lalu"
    case DaysAgo(_) => " hari lalu"
    case _ => ""
  }

  /** Different buckets, or different counts, never show the same text. */
  lemma RelativeTextInjective(d1: ChatDate, d2: ChatDate)
    requires RelativeText(d1).Some? && RelativeText(d1) == RelativeText(d2)
    ensures d1 == d2
  {
    var t := RelativeText(d1).value;
    var counted1 := d1.MinutesAgo? || d1.HoursAgo? || d1.DaysAgo?;
    var counted2 := d2.MinutesAgo? || d2.HoursAgo? || d2.DaysAgo?;
    // Only the texts with a count start with a digit.
    assert IsDigit(t[0]) <==> counted1;
    assert IsDigit(t[0]) <==> counted2;
    if counted1 {
      assert t == NatToString(Count(d1)) + Suffix(d1) == NatToString(Count(d2)) + Suffix(d2);
      NatToStringPrefix(Count(d1), Count(d2), Suffix(d1), Suffix(d2));
    }
  }
}
