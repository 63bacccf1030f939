/**
 * The civil calendar values the wire format carries as strings: a DATE as
 * "YYYY-MM-DD" (the full-date of section 5.6 of RFC 3339) and a TIMESTAMP as
 * "YYYY-MM-DDTHH:MM:SS.fffffffffZ" in UTC with nanosecond precision.
 */
module CivilTime {
  import opened Wrappers
  import opened Decimal

  datatype Date = Date(year: int, month: int, day: int)

  /** Four-digit years and in-range month and day numbers. */
  predicate ValidDate(d: Date) {
    0 <= d.year <= 9999 && 1 <= d.month <= 12 && 1 <= d.day <= 31
  }

  /** The default date, 1970-01-01. */
  const Epoch: Date := Date(1970, 1, 1)

  datatype Timestamp = Timestamp(date: Date, hour: int, minute: int, second: int, nanos: int)

  predicate ValidTimestamp(t: Timestamp) {
    ValidDate(t.date) && 0 <= t.hour < 24 && 0 <= t.minute < 60 && 0 <= t.second < 60 &&
    0 <= t.nanos < 1_000_000_000
  }

  /** The default timestamp, the Unix epoch. */
  const EpochTimestamp: Timestamp := Timestamp(Epoch, 0, 0, 0, 0)

  lemma Pow10Two()
    ensures Pow10(2) == 100
  {
  }

  lemma Pow10Four()
    ensures Pow10(4) == 10000
  {
    Pow10Two();
  }

  lemma Pow10Nine()
    ensures Pow10(9) == 1_000_000_000
  {
    Pow10Four();
    assert Pow10(6) == 1_000_000;
  }

  function DateToString(d: Date): (s: string)
    requires ValidDate(d)
    ensures |s| == 10 && s[4] == '-' && s[7] == '-'
  {
    Pow10Two();
    Pow10Four();
    PadDigits(d.year, 4) + "-" + PadDigits(d.month, 2) + "-" + PadDigits(d.day, 2)
  }

  /** The value of the digits `s[lo..hi]`, when they are all digits. */
  function DigitsAt(s: string, lo: nat, hi: nat): (r: Option<nat>)
    requires lo <= hi <= |s|
    ensures r.Some? <==> AllDigits(s[lo..hi])
  {
    if AllDigits(s[lo..hi]) then Some(DigitsValue(s[lo..hi])) else None
  }

  /** Reads "YYYY-MM-DD"; anything else, or an out-of-range field, is rejected. */
  function ParseDate(s: string): (r: Option<Date>)
    ensures r.Some? ==> ValidDate(r.value)
  {
    if |s| != 10 || s[4] != '-' || s[7] != '-' then None
    else
      var y :- DigitsAt(s, 0, 4);
      var m :- DigitsAt(s, 5, 7);
      var d :- DigitsAt(s, 8, 10);
      if ValidDate(Date(y, m, d)) then Some(Date(y, m, d)) else None
  }

  /** Reading a date assembled from digit groups of the right widths. */
  lemma ParseDateOfParts(y: string, m: string, dd: string)
    requires |y| == 4 && |m| == 2 && |dd| == 2
    requires AllDigits(y) && AllDigits(m) && AllDigits(dd)
    ensures var s := y + "-" + m + "-" + dd;
      s[0..4] == y && s[5..7] == m && s[8..10] == dd && s[4] == '-' && s[7] == '-'
  {
  }

  /** Round trip: a valid date reads back from its rendering. */
  lemma DateRoundTrip(d: Date)
    requires ValidDate(d)
    ensures ParseDate(DateToString(d)) == Some(d)
  {
    Pow10Two();
    Pow10Four();
    PadDigitsDenotes(d.year, 4);
    PadDigitsDenotes(d.month, 2);
    PadDigitsDenotes(d.day, 2);
    ParseDateOfParts(PadDigits(d.year, 4), PadDigits(d.month, 2), PadDigits(d.day, 2));
  }

  /** Converse round trip: every string the parser accepts is the rendering of its result. */
  lemma DateRendersBack(s: string)
    requires ParseDate(s).Some?
    ensures DateToString(ParseDate(s).value) == s
  {
    PadDigitsOfDigits(s[0..4]);
    PadDigitsOfDigits(s[5..7]);
    PadDigitsOfDigits(s[8..10]);
    assert s == s[0..4] + "-" + s[5..7] + "-" + s[8..10];
  }

  /** Strings that are not dates are rejected. */
  lemma ParseDateRejects()
    ensures ParseDate("blah") == None
    ensures ParseDate("") == None
  {
  }

  function TimestampToString(t: Timestamp): (s: string)
    requires ValidTimestamp(t)
  {
    Pow10Two();
    Pow10Nine();
    DateToString(t.date) + "T" + PadDigits(t.hour, 2) + ":" + PadDigits(t.minute, 2) + ":" +
    PadDigits(t.second, 2) + "." + PadDigits(t.nanos, 9) + "Z"
  }

  /** The fields of a timestamp string, read once its layout is checked. */
  function ParseTimestampFields(date: string, h: string, m: string, sec: string, ns: string): (r: Option<Timestamp>)
    ensures r.Some? ==> ValidTimestamp(r.value)
  {
    var d :- ParseDate(date);
    if AllDigits(h) && AllDigits(m) && AllDigits(sec) && AllDigits(ns) then
      var t := Timestamp(d, DigitsValue(h), DigitsValue(m), DigitsValue(sec), DigitsValue(ns));
      if ValidTimestamp(t) then Some(t) else None
    else None
  }

  /** Reads "YYYY-MM-DDTHH:MM:SS.fffffffffZ"; anything else is rejected. */
  function ParseTimestamp(s: string): (r: Option<Timestamp>)
    ensures r.Some? ==> ValidTimestamp(r.value)
  {
    if |s| != 30 || s[10] != 'T' || s[13] != ':' || s[16] != ':' || s[19] != '.' || s[29] != 'Z' then None
    else ParseTimestampFields(s[..10], s[11..13], s[14..16], s[17..19], s[20..29])
  }

  /** The layout check passes on a joined string and hands back its parts. */
  lemma TimestampOfParts(date: string, h: string, m: string, sec: string, ns: string)
    requires |date| == 10 && |h| == 2 && |m| == 2 && |sec| == 2 && |ns| == 9
    ensures ParseTimestamp(date + "T" + h + ":" + m + ":" + sec + "." + ns + "Z")
         == ParseTimestampFields(date, h, m, sec, ns)
  {
    var s := date + "T" + h + ":" + m + ":" + sec + "." + ns + "Z";
    assert s[..10] == date && s[11..13] == h && s[14..16] == m && s[17..19] == sec && s[20..29] == ns;
  }

  /** Reading a joined string whose parts carry the fields of `t`. */
  lemma ParseJoined(date: string, h: string, m: string, sec: string, ns: string, t: Timestamp)
    requires ValidTimestamp(t)
    requires |date| == 10 && |h| == 2 && |m| == 2 && |sec| == 2 && |ns| == 9
    requires ParseDate(date) == Some(t.date)
    requires AllDigits(h) && AllDigits(m) && AllDigits(sec) && AllDigits(ns)
    requires DigitsValue(h) == t.hour && DigitsValue(m) == t.minute
    requires DigitsValue(sec) == t.second && DigitsValue(ns) == t.nanos
    ensures ParseTimestamp(date + "T" + h + ":" + m + ":" + sec + "." + ns + "Z") == Some(t)
  {
    TimestampOfParts(date, h, m, sec, ns);
  }

  /** Round trip: a valid timestamp reads back from its rendering. */
  lemma TimestampRoundTrip(t: Timestamp)
    requires ValidTimestamp(t)
    ensures ParseTimestamp(TimestampToString(t)) == Some(t)
  {
    Pow10Two();
    Pow10Nine();
    DateRoundTrip(t.date);
    PadDigitsDenotes(t.hour, 2);
    PadDigitsDenotes(t.minute, 2);
    PadDigitsDenotes(t.second, 2);
    PadDigitsDenotes(t.nanos, 9);
    ParseJoined(DateToString(t.date), PadDigits(t.hour, 2), PadDigits(t.minute, 2),
                PadDigits(t.second, 2), PadDigits(t.nanos, 9), t);
  }

  /** Rendering the fields read from a joined string gives the string back. */
  lemma RenderJoined(date: string, h: string, m: string, sec: string, ns: string, t: Timestamp)
    requires |date| == 10 && |h| == 2 && |m| == 2 && |sec| == 2 && |ns| == 9
    requires ParseTimestampFields(date, h, m, sec, ns) == Some(t)
    ensures TimestampToString(t) == date + "T" + h + ":" + m + ":" + sec + "." + ns + "Z"
  {
    DateRendersBack(date);
    PadDigitsOfDigits(h);
    PadDigitsOfDigits(m);
    PadDigitsOfDigits(sec);
    PadDigitsOfDigits(ns);
  }

  /** A string that passes the layout check is its fields joined back together. */
  lemma SplitTimestamp(s: string)
    requires |s| == 30 && s[10] == 'T' && s[13] == ':' && s[16] == ':' && s[19] == '.' && s[29] == 'Z'
    ensures s == s[..10] + "T" + s[11..13] + ":" + s[14..16] + ":" + s[17..19] + "." + s[20..29] + "Z"
  {
  }

  /** Converse round trip for timestamps. */
  lemma TimestampRendersBack(s: string)
    requires ParseTimestamp(s).Some?
    ensures TimestampToString(ParseTimestamp(s).value) == s
  {
    SplitTimestamp(s);
    RenderJoined(s[..10], s[11..13], s[14..16], s[17..19], s[20..29], ParseTimestamp(s).value);
  }
}
