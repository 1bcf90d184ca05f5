/**
  Duration formatting for the timer display: msToHMS and elapsedNow, which
  src/renderer/lib/time.ts and src/shared/time.ts define identically. The clock
  read by elapsedNow is a parameter here.
*/
module Time {
  import opened Wrappers
  import opened Text

  /** Whole seconds shown for a duration: Math.max(0, Math.floor(ms / 1000)). */
  function Seconds(ms: int): (s: nat)
    ensures ms >= 0 ==> s == ms / 1000
    ensures ms < 1000 ==> s == 0
  {
    var f := ms / 1000;
    if f < 0 then 0 else f
  }

  datatype Hms = Hms(hours: nat, minutes: nat, seconds: nat)

  /** The three clock fields of a duration. */
  function Fields(ms: int): (f: Hms)
    ensures f.minutes < 60 && f.seconds < 60
    ensures f.hours * 3600 + f.minutes * 60 + f.seconds == Seconds(ms)
  {
    var s := Seconds(ms);
    SplitSeconds(s);
    Hms(s / 3600, (s % 3600) / 60, s % 60)
  }

  /** Hours, the minutes left over, and the seconds left over add back up to the count. */
  lemma SplitSeconds(s: nat)
    ensures (s % 3600) / 60 < 60
    ensures (s / 3600) * 3600 + ((s % 3600) / 60) * 60 + s % 60 == s
  {
    var h, rem := s / 3600, s % 3600;
    var m, sec := rem / 60, rem % 60;
    assert s == (h * 60 + m) * 60 + sec;
    RemainderOf(h * 60 + m, sec);
  }

  /** The remainder of q·60 + r by 60 is r, for r below 60. */
  lemma RemainderOf(q: int, r: int)
    requires 0 <= r < 60
    ensures (q * 60 + r) % 60 == r
  {
  }

  /** msToHMS: hours, minutes and seconds, each padded to two digits, joined by ':'. */
  function MsToHMS(ms: int): (r: string)
    ensures |r| >= 8 && r[|r| - 3] == ':' && r[|r| - 6] == ':'
  {
    var f := Fields(ms);
    PadStart2(Decimal(f.hours)) + ":" + PadStart2(Decimal(f.minutes)) + ":" + PadStart2(Decimal(f.seconds))
  }

  /** Reads "H…H:MM:SS" back into its fields; None when the text has another shape. */
  function ParseHMS(r: string): Option<Hms> {
    if |r| < 8 || r[|r| - 6] != ':' || r[|r| - 3] != ':' then None
    else
      var h, m, s := r[..|r| - 6], r[|r| - 5..|r| - 3], r[|r| - 2..];
      if AllDigits(h) && AllDigits(m) && AllDigits(s)
      then Some(Hms(DigitsValue(h), DigitsValue(m), DigitsValue(s)))
      else None
  }

  lemma TwoDigits(n: nat)
    requires n < 100
    ensures |Decimal(n)| <= 2
  {
    if n >= 10 {
      assert |Decimal(n / 10)| == 1;
    }
  }

  /** A padded numeral reads back as the number it prints. */
  lemma PaddedRoundTrip(n: nat)
    ensures AllDigits(PadStart2(Decimal(n))) && DigitsValue(PadStart2(Decimal(n))) == n
  {
    DecimalRoundTrip(n);
    if n < 10 {
      LeadingZero(Decimal(n));
    }
  }

  /** Where the three fields and the two separators of a joined text lie. */
  lemma JoinedSlices(h: string, m: string, s: string)
    requires |m| == 2 && |s| == 2
    ensures var r := h + ":" + m + ":" + s;
      && |r| == |h| + 6 && r[|r| - 6] == ':' && r[|r| - 3] == ':'
      && r[..|r| - 6] == h && r[|r| - 5..|r| - 3] == m && r[|r| - 2..] == s
  {
    var r := h + ":" + m + ":" + s;
    assert r == h + ([':'] + m + [':'] + s);
  }

  /** Joining three digit fields with ':' and parsing the result gives the fields back. */
  lemma ParseJoined(h: string, m: string, s: string)
    requires |h| >= 2 && |m| == 2 && |s| == 2
    requires AllDigits(h) && AllDigits(m) && AllDigits(s)
    ensures ParseHMS(h + ":" + m + ":" + s) == Some(Hms(DigitsValue(h), DigitsValue(m), DigitsValue(s)))
  {
    JoinedSlices(h, m, s);
  }

  /** The formatted text parses back to the duration's fields: the hours are padded but
      never cut, and the minutes and seconds fields are exactly two digits. */
  lemma MsToHMSRoundTrip(ms: int)
    ensures ParseHMS(MsToHMS(ms)) == Some(Fields(ms))
    ensures |MsToHMS(ms)| == |PadStart2(Decimal(Fields(ms).hours))| + 6
  {
    var f := Fields(ms);
    TwoDigits(f.minutes);
    TwoDigits(f.seconds);
    PaddedRoundTrip(f.hours);
    PaddedRoundTrip(f.minutes);
    PaddedRoundTrip(f.seconds);
    ParseJoined(PadStart2(Decimal(f.hours)), PadStart2(Decimal(f.minutes)), PadStart2(Decimal(f.seconds)));
  }

  /** What the display promises: the fields read back add up to the whole seconds of a
      non-negative duration, and a negative one shows zero. */
  lemma MsToHMSTotal(ms: int)
    ensures ParseHMS(MsToHMS(ms)).Some?
    ensures var f := ParseHMS(MsToHMS(ms)).value;
      && f.minutes < 60 && f.seconds < 60
      && f.hours * 3600 + f.minutes * 60 + f.seconds == (if ms < 0 then 0 else ms / 1000)
  {
    MsToHMSRoundTrip(ms);
  }

  /** A duration under ten hours whose fields are single digits prints as "0h:0m:0s". */
  lemma SingleDigitFields(ms: int, h: nat, m: nat, s: nat)
    requires h < 10 && m < 10 && s < 10
    requires Seconds(ms) == h * 3600 + m * 60 + s
    ensures MsToHMS(ms) == ['0', DigitChar(h), ':', '0', DigitChar(m), ':', '0', DigitChar(s)]
  {
    assert Fields(ms) == Hms(h, m, s);
  }

  /** The concrete cases of src/renderer/lib/time.test.ts, and a clamped negative input. */
  lemma MsToHMSExamples()
    ensures MsToHMS(0) == "00:00:00"
    ensures MsToHMS(-5000) == "00:00:00"
    ensures MsToHMS(999) == "00:00:00"
    ensures MsToHMS(1000) == "00:00:01"
    ensures MsToHMS(61000) == "00:01:01"
    ensures MsToHMS(3600000) == "01:00:00"
    ensures MsToHMS(3661000) == "01:01:01"
  {
    SingleDigitFields(0, 0, 0, 0);
    SingleDigitFields(-5000, 0, 0, 0);
    SingleDigitFields(999, 0, 0, 0);
    SingleDigitFields(1000, 0, 0, 1);
    SingleDigitFields(61000, 0, 1, 1);
    SingleDigitFields(3600000, 1, 0, 0);
    SingleDigitFields(3661000, 1, 1, 1);
  }

  /**
    elapsedNow: milliseconds since the start of the running session, 0 when the timer
    is not running or has no (or a zero) start time, as JavaScript's truthiness of
    `state.running && state.startTs` decides.
  */
  function ElapsedNow(running: bool, startTs: Option<int>, now: int): (r: int)
    ensures r != 0 ==> running && startTs.Some? && startTs.value != 0 && startTs.value + r == now
    ensures running && startTs.Some? && startTs.value != 0 ==> startTs.value + r == now
  {
    if running && startTs.Some? && startTs.value != 0 then now - startTs.value else 0
  }

  /** A running timer whose start lies in the past shows a positive elapsed time. */
  lemma ElapsedPositive(startTs: int, now: int)
    requires startTs != 0 && startTs < now
    ensures ElapsedNow(true, Some(startTs), now) > 0
  {
  }
}
