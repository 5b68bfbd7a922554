/**
 `EntryResponse.toEntry(feedKey)` and the date reformatter behind it.

 The source timestamps are RFC 3339 (section 5.6) date-times, as RFC 4287
 (section 3.3) requires. The reformatter first parses the text as a zoned
 date-time and prints it back in its canonical ISO form, then tries three
 fixed patterns on that canonical text, in order, and renders the first
 match as `yyyy-MM-dd, HH:mm:ss`. Everything here is at the level of
 characters and fields; no calendar arithmetic is done beyond checking that
 the day exists in its month.
 */
module EntryMapper {
  import opened Results
  import opened Model

  /** The exception `ZonedDateTime.parse` throws on text it rejects. */
  datatype DateError = DateTimeParseError

  predicate IsDigit(c: char) {
    '0' <= c <= '9'
  }

  predicate AllDigits(s: string) {
    forall i :: 0 <= i < |s| ==> IsDigit(s[i])
  }

  /** The decimal value of a run of digits. */
  function Num(s: string): nat
    requires AllDigits(s)
  {
    if s == [] then 0 else Num(s[..|s| - 1]) * 10 + (s[|s| - 1] as int - '0' as int)
  }

  // ---------------------------------------------------------------------------
  // The zoned date-time as the date library holds it

  /** A zone offset: UTC, or a non-zero `sign hh:mm` offset. */
  datatype Zone = Utc | Offset(sign: char, hours: string, minutes: string)

  /**
   The fields of a parsed zoned date-time, kept as the digits they were
   written with: `date` is `yyyy-MM-dd`, `second` is `"00"` when the text had
   no seconds, and `fraction` holds the digits after the decimal point.
   */
  datatype ZonedTime = ZonedTime(date: string, hour: string, minute: string, second: string,
                                 fraction: string, zone: Zone)

  function IsLeapYear(y: nat): bool {
    y % 4 == 0 && (y % 100 != 0 || y % 400 == 0)
  }

  function DaysInMonth(y: nat, m: nat): nat
    requires 1 <= m <= 12
  {
    if m == 2 then (if IsLeapYear(y) then 29 else 28)
    else if m == 4 || m == 6 || m == 9 || m == 11 then 30
    else 31
  }

  /** `yyyy-MM-dd` naming a day that exists. */
  predicate ValidDate(d: string) {
    && |d| == 10 && AllDigits(d[..4]) && d[4] == '-' && AllDigits(d[5..7]) && d[7] == '-' && AllDigits(d[8..])
    && 1 <= Num(d[5..7]) <= 12 && 1 <= Num(d[8..]) <= DaysInMonth(Num(d[..4]), Num(d[5..7]))
  }

  /** A date written from its year, month and day is valid when the day exists in that month. */
  lemma ValidDateOf(y: string, m: string, d: string)
    requires |y| == 4 && AllDigits(y) && |m| == 2 && AllDigits(m) && |d| == 2 && AllDigits(d)
    requires 1 <= Num(m) <= 12 && 1 <= Num(d) <= DaysInMonth(Num(y), Num(m))
    ensures ValidDate(y + "-" + m + "-" + d)
  {
    var date := y + "-" + m + "-" + d;
    assert date[..4] == y;
    assert date[5..7] == m;
    assert date[8..] == d;
    assert |date| == 10 && date[4] == '-' && date[7] == '-';
    assert Num(date[..4]) == Num(y) && Num(date[5..7]) == Num(m) && Num(date[8..]) == Num(d);
  }

  /** Two digits whose value is at most `max`. */
  predicate TwoDigitsUpTo(s: string, max: nat) {
    |s| == 2 && AllDigits(s) && Num(s) <= max
  }

  predicate ValidZone(z: Zone) {
    z.Offset? ==> && (z.sign == '+' || z.sign == '-')
                  && TwoDigitsUpTo(z.hours, 18) && TwoDigitsUpTo(z.minutes, 59)
                  && (Num(z.hours) == 18 ==> Num(z.minutes) == 0)
                  && Num(z.hours) + Num(z.minutes) > 0
  }

  /** The values `ZonedDateTime.parse` can produce in this model. */
  predicate ValidTime(t: ZonedTime) {
    && ValidDate(t.date)
    && TwoDigitsUpTo(t.hour, 23) && TwoDigitsUpTo(t.minute, 59) && TwoDigitsUpTo(t.second, 59)
    && AllDigits(t.fraction) && |t.fraction| <= 9
    && ValidZone(t.zone)
  }

  /** Whether the fraction is non-zero (the nano-of-second field is positive). */
  predicate HasNanos(fraction: string) {
    exists i :: 0 <= i < |fraction| && fraction[i] != '0'
  }

  /** Whether the canonical text shows seconds: only when seconds or nanos are non-zero. */
  predicate ShowsSeconds(t: ZonedTime) {
    t.second != "00" || HasNanos(t.fraction)
  }

  // ---------------------------------------------------------------------------
  // ZonedDateTime.parse on ISO text `yyyy-MM-ddTHH:mm[:ss[.f]](Z|+hh:mm|-hh:mm)`

  /** The leading digits of `s`. */
  function LeadingDigits(s: string): (r: string)
    ensures |r| <= |s| && r == s[..|r|] && AllDigits(r)
    ensures |r| < |s| ==> !IsDigit(s[|r|])
  {
    if s == [] || !IsDigit(s[0]) then [] else [s[0]] + LeadingDigits(s[1..])
  }

  /** The designators read as UTC: `Z` in either case, and a zero offset with either sign. */
  predicate IsUtcText(s: string) {
    s == "Z" || s == "z" || s == "+00:00" || s == "-00:00"
  }

  /** The zone designator making up the whole of `s`; `+00:00` is UTC. */
  function ParseZone(s: string): (r: Option<Zone>)
    ensures r.Some? ==> ValidZone(r.value)
    ensures r == Some(Utc) <==> IsUtcText(s)
    ensures r.Some? && r.value.Offset? ==> s == ZoneText(r.value)
  {
    if s == "Z" || s == "z" then Some(Utc)
    else if |s| == 6 && (s[0] == '+' || s[0] == '-') && s[3] == ':' then
      var hh, mm := s[1..3], s[4..6];
      ZeroOffsetText(s);
      if !(TwoDigitsUpTo(hh, 18) && TwoDigitsUpTo(mm, 59)) then None
      else if Num(hh) == 18 && Num(mm) != 0 then None
      else
        ZeroDigits(hh);
        ZeroDigits(mm);
        if Num(hh) + Num(mm) == 0 then Some(Utc)
        else Some(Offset(s[0], hh, mm))
    else None
  }

  /** A signed offset designator, and when it reads as zero. */
  lemma ZeroOffsetText(s: string)
    requires |s| == 6 && (s[0] == '+' || s[0] == '-') && s[3] == ':'
    ensures s == [s[0]] + s[1..3] + ":" + s[4..6]
    ensures IsUtcText(s) <==> s[1..3] == "00" && s[4..6] == "00"
    ensures IsUtcText(s) ==> TwoDigitsUpTo(s[1..3], 18) && TwoDigitsUpTo(s[4..6], 59)
  {
    assert "00"[..1] == "0";
  }

  /** Two digits are zero in value exactly when both are `0`. */
  lemma ZeroDigits(x: string)
    requires |x| == 2 && AllDigits(x)
    ensures Num(x) == 0 <==> x == "00"
  {
    NumTwo(x);
  }

  /** Every zone the model holds is read back from its designator. */
  lemma ParseZoneText(z: Zone)
    requires ValidZone(z)
    ensures ParseZone(ZoneText(z)) == Some(z)
  {
    if z.Offset? {
      var s := ZoneText(z);
      assert s[1..3] == z.hours && s[4..6] == z.minutes;
    }
  }

  /**
   `ZonedDateTime.parse`, on the ISO shapes RFC 3339 timestamps take: the
   fields of the text, or `None` where the library throws.
   */
  function ZonedParse(s: string): (r: Option<ZonedTime>)
    ensures r.Some? ==> ValidTime(r.value)
    ensures r.Some? ==> |s| >= 17 && r.value.date == s[..10] && r.value.hour == s[11..13] && r.value.minute == s[14..16]
    ensures r.Some? && s[16] == ':' ==> |s| >= 19 && r.value.second == s[17..19]
    ensures r.Some? && s[16] != ':' ==> r.value.second == "00"
    ensures r.Some? && s[16] != ':' ==> r.value.fraction == "" && ParseZone(s[16..]) == Some(r.value.zone)
    ensures r.Some? && s[16] == ':' ==>
      exists k :: 19 <= k <= |s| && SpellsFraction(s[19..k], r.value.fraction) && ParseZone(s[k..]) == Some(r.value.zone)
  {
    if |s| < 17 then None
    else
      var date, hour, minute := s[..10], s[11..13], s[14..16];
      if !(ValidDate(date) && (s[10] == 'T' || s[10] == 't') && s[13] == ':'
           && TwoDigitsUpTo(hour, 23) && TwoDigitsUpTo(minute, 59)) then None
      else if s[16] == ':' then
        if |s| < 19 || !TwoDigitsUpTo(s[17..19], 59) then None
        else
          var tail := s[19..];
          var fraction := if tail != [] && tail[0] == '.' then LeadingDigits(tail[1..]) else [];
          var zoneText := if tail != [] && tail[0] == '.' then tail[1 + |fraction|..] else tail;
          if |fraction| > 9 then None
          else
            var k := if tail != [] && tail[0] == '.' then 20 + |fraction| else 19;
            assert SpellsFraction(s[19..k], fraction) && s[k..] == zoneText;
            match ParseZone(zoneText)
            case None => None
            case Some(z) => Some(ZonedTime(date, hour, minute, s[17..19], fraction, z))
      else
        match ParseZone(s[16..])
        case None => None
        case Some(z) => Some(ZonedTime(date, hour, minute, "00", "", z))
  }

  /** The text between the seconds and the zone: nothing, or a point followed by the fraction's digits. */
  predicate SpellsFraction(text: string, fraction: string) {
    (text == [] && fraction == []) || text == "." + fraction
  }

  // ---------------------------------------------------------------------------
  // ZonedDateTime.toString

  function Zeros(n: nat): (r: string)
    ensures |r| == n && forall i :: 0 <= i < n ==> r[i] == '0'
  {
    if n == 0 then [] else ['0'] + Zeros(n - 1)
  }

  /** The nano-of-second as printed: 3, 6 or 9 digits, whichever is shortest exact. */
  /** The fraction as nanoseconds: its digits padded with zeros to nine. */
  function Nine(fraction: string): (r: string)
    requires |fraction| <= 9
    ensures |r| == 9 && r[..|fraction|] == fraction
    ensures forall i :: |fraction| <= i < 9 ==> r[i] == '0'
  {
    fraction + Zeros(9 - |fraction|)
  }

  function NanoText(fraction: string): string
    requires |fraction| <= 9
  {
    var nine := Nine(fraction);
    if nine[3..] == Zeros(6) then nine[..3]
    else if nine[6..] == Zeros(3) then nine[..6]
    else nine
  }

  function ZoneText(z: Zone): string {
    match z
    case Utc => "Z"
    case Offset(sign, hh, mm) => [sign] + hh + ":" + mm
  }

  /** The canonical text up to the minutes: `yyyy-MM-ddTHH:mm`. */
  function Head(t: ZonedTime): string {
    t.date + "T" + t.hour + ":" + t.minute
  }

  /** The canonical text after the minutes: seconds and nanos when either is non-zero, then the zone. */
  function Tail(t: ZonedTime): string
    requires |t.fraction| <= 9
  {
    (if ShowsSeconds(t) then ":" + t.second + (if HasNanos(t.fraction) then "." + NanoText(t.fraction) else "") else "")
    + ZoneText(t.zone)
  }

  /** `ZonedDateTime.toString`, the canonical ISO text. */
  function Render(t: ZonedTime): string
    requires |t.fraction| <= 9
  {
    Head(t) + Tail(t)
  }

  // ---------------------------------------------------------------------------
  // Parsing the canonical text back

  /** The nanos as printed are the same nanoseconds, written with 3, 6 or 9 digits. */
  lemma NanoTextValue(fraction: string)
    requires |fraction| <= 9 && AllDigits(fraction)
    ensures var n := NanoText(fraction);
      && 3 <= |n| <= 9 && AllDigits(n) && Nine(n) == Nine(fraction)
  {
    var nine := Nine(fraction);
    assert AllDigits(nine);
    var n := NanoText(fraction);
    if nine[3..] == Zeros(6) {
      assert nine == nine[..3] + nine[3..];
    } else if nine[6..] == Zeros(3) {
      assert nine == nine[..6] + nine[6..];
    }
  }

  /** A fraction of zeros only is the same nanoseconds as no fraction. */
  lemma ZeroFraction(fraction: string)
    requires |fraction| <= 9 && !HasNanos(fraction)
    ensures Nine(fraction) == Nine("")
  {
    assert forall i :: 0 <= i < |fraction| ==> fraction[i] == '0';
    forall i | 0 <= i < 9 ensures Nine(fraction)[i] == '0' {
      if i < |fraction| {
        assert Nine(fraction)[i] == Nine(fraction)[..|fraction|][i];
      }
    }
  }

  /** The digit run at the front of `d + x`, when `x` does not start with a digit. */
  lemma {:induction false} LeadingDigitsOf(d: string, x: string)
    requires AllDigits(d) && (x == [] || !IsDigit(x[0]))
    ensures LeadingDigits(d + x) == d
    decreases |d|
  {
    if d == [] {
      assert d + x == x;
    } else {
      assert (d + x)[1..] == d[1..] + x;
      LeadingDigitsOf(d[1..], x);
    }
  }

  /** A zone designator starts with neither a digit, a point nor a colon. */
  lemma ZoneTextStart(z: Zone)
    requires ValidZone(z)
    ensures var zt := ZoneText(z); zt != [] && !IsDigit(zt[0]) && zt[0] != '.' && zt[0] != ':'
  {
  }

  /** Where the fields of `Head(t)` sit in a text that starts with it. */
  lemma HeadFields(t: ZonedTime, rest: string)
    requires ValidTime(t)
    ensures var s := Head(t) + rest;
      && |s| == 16 + |rest| && s[..10] == t.date && s[10] == 'T' && s[11..13] == t.hour
      && s[13] == ':' && s[14..16] == t.minute && s[16..] == rest
  {
  }

  /** Text without seconds: the zone follows the minutes. */
  lemma ParseWithoutSeconds(t: ZonedTime, zt: string)
    requires ValidTime(t) && t.second == "00"
    requires ParseZone(zt) == Some(t.zone) && zt != [] && zt[0] != ':'
    ensures ZonedParse(Head(t) + zt) == Some(t.(fraction := ""))
  {
    HeadFields(t, zt);
  }

  /** Where the fields sit in a text that has seconds after `Head(t)`. */
  lemma SecondsFields(t: ZonedTime, tail: string)
    requires ValidTime(t)
    ensures var s := Head(t) + (":" + t.second + tail);
      && |s| == 19 + |tail| && s[..10] == t.date && s[10] == 'T' && s[11..13] == t.hour
      && s[13] == ':' && s[14..16] == t.minute && s[16] == ':' && s[17..19] == t.second && s[19..] == tail
  {
  }

  /** A point, digits and a zone designator: the digits are the fraction, the rest the zone. */
  lemma FractionTail(frac: string, zt: string)
    requires AllDigits(frac) && (zt == [] || !IsDigit(zt[0]))
    ensures var tail := "." + frac + zt;
      && tail != [] && tail[0] == '.' && LeadingDigits(tail[1..]) == frac && tail[1 + |frac|..] == zt
  {
    var tail := "." + frac + zt;
    assert tail[1..] == frac + zt;
    LeadingDigitsOf(frac, zt);
  }

  /** Text with seconds and no fraction before the zone. */
  lemma ParseWithSeconds(t: ZonedTime, zt: string)
    requires ValidTime(t)
    requires ParseZone(zt) == Some(t.zone) && zt != [] && zt[0] != '.'
    ensures ZonedParse(Head(t) + (":" + t.second + zt)) == Some(t.(fraction := ""))
  {
    SecondsFields(t, zt);
  }

  /** Text with seconds and a fraction before the zone. */
  lemma ParseWithFraction(t: ZonedTime, frac: string, zt: string)
    requires ValidTime(t) && AllDigits(frac) && |frac| <= 9
    requires ParseZone(zt) == Some(t.zone) && zt != [] && !IsDigit(zt[0])
    ensures ZonedParse(Head(t) + (":" + t.second + ("." + frac + zt))) == Some(t.(fraction := frac))
  {
    SecondsFields(t, "." + frac + zt);
    FractionTail(frac, zt);
  }

  /** The canonical text in each of its three shapes. */
  lemma RenderShape(t: ZonedTime)
    requires |t.fraction| <= 9
    ensures ShowsSeconds(t) && HasNanos(t.fraction) ==>
      Render(t) == Head(t) + (":" + t.second + ("." + NanoText(t.fraction) + ZoneText(t.zone)))
    ensures ShowsSeconds(t) && !HasNanos(t.fraction) ==> Render(t) == Head(t) + (":" + t.second + ZoneText(t.zone))
    ensures !ShowsSeconds(t) ==> Render(t) == Head(t) + ZoneText(t.zone)
  {
  }

  /**
   Parsing the canonical text gives back the same date-time: the same fields,
   with the fraction written as the printer writes it, so the same nanoseconds.
   */
  lemma ZonedParseRender(t: ZonedTime)
    requires ValidTime(t)
    ensures var r := ZonedParse(Render(t));
      && r.Some? && r.value == t.(fraction := r.value.fraction)
      && |r.value.fraction| <= 9 && Nine(r.value.fraction) == Nine(t.fraction)
  {
    ParseZoneText(t.zone);
    ZoneTextStart(t.zone);
    var zt := ZoneText(t.zone);
    RenderShape(t);
    if ShowsSeconds(t) {
      if HasNanos(t.fraction) {
        var frac := NanoText(t.fraction);
        NanoTextValue(t.fraction);
        ParseWithFraction(t, frac, zt);
      } else {
        ParseWithSeconds(t, zt);
        ZeroFraction(t.fraction);
      }
    } else {
      ParseWithoutSeconds(t, zt);
      ZeroFraction(t.fraction);
    }
  }

  // ---------------------------------------------------------------------------
  // The three SimpleDateFormat patterns and the display format

  /**
   A fixed-width parse pattern: `#` stands for one digit, anything else for
   itself. Parsing reads a prefix and ignores what follows it.
   */
  datatype DateFormat = DateFormat(pattern: string, hasSeconds: bool)

  /** `yyyy-MM-dd` */
  const DatePattern := "####-##-##"
  /** `yyyy-MM-dd'T'HH:mm`, the part the three patterns share. */
  const HeadPattern := DatePattern + "T" + "##" + ":" + "##"
  /** `yyyy-MM-dd'T'HH:mm:ss'Z'` */
  const ZonedFormat := DateFormat(HeadPattern + ":##Z", true)
  /** `yyyy-MM-dd'T'HH:mm:ss` */
  const NotZonedFormat := DateFormat(HeadPattern + ":##", true)
  /** `yyyy-MM-dd'T'HH:mm'Z'` */
  const NoSecondsFormat := DateFormat(HeadPattern + "Z", false)

  predicate CharFits(p: char, c: char) {
    if p == '#' then IsDigit(c) else c == p
  }

  /** `s` is written exactly as the pattern `p` says. */
  predicate Matches(p: string, s: string) {
    |p| == |s| && forall i :: 0 <= i < |p| ==> CharFits(p[i], s[i])
  }

  /** The pattern of `f` matches a prefix of `s`. */
  predicate Fits(f: DateFormat, s: string) {
    |s| >= |f.pattern| && Matches(f.pattern, s[..|f.pattern|])
  }

  /** The calendar fields a pattern reads; seconds default to `00`. */
  datatype DateFields = DateFields(date: string, hour: string, minute: string, second: string)

  /** `SimpleDateFormat.parse`: the fields read, or `None` where it throws `ParseException`. */
  function TryFormat(f: DateFormat, s: string): (r: Option<DateFields>)
    requires |f.pattern| >= (if f.hasSeconds then 19 else 17)
    ensures r.Some? <==> Fits(f, s)
    ensures r.Some? ==> r.value.date == s[..10] && r.value.hour == s[11..13] && r.value.minute == s[14..16]
  {
    if !Fits(f, s) then None
    else Some(DateFields(s[..10], s[11..13], s[14..16], if f.hasSeconds then s[17..19] else "00"))
  }

  /** `yyyy-MM-dd, HH:mm:ss` */
  function FormatToDisplay(d: DateFields): string {
    d.date + ", " + d.hour + ":" + d.minute + ":" + d.second
  }

  /** The three patterns tried in order on the canonical text; `""` when none fits. */
  function DisplayOf(zoned: string): string {
    match TryFormat(ZonedFormat, zoned)
    case Some(d) => FormatToDisplay(d)
    case None =>
      match TryFormat(NotZonedFormat, zoned)
      case Some(d) => FormatToDisplay(d)
      case None =>
        match TryFormat(NoSecondsFormat, zoned)
        case Some(d) => FormatToDisplay(d)
        case None => ""
  }

  /**
   `toDisplayableDate`: null stays null; text the zoned parser rejects
   throws; otherwise the reformatted text, which is `""` when no pattern fits.
   */
  function DisplayableDate(published: Option<string>): (r: Result<Option<string>, DateError>)
    ensures published.None? ==> r == Ok(None)
    ensures published.Some? ==> (r.Ok? <==> ZonedParse(published.value).Some?)
    ensures r.Ok? && published.Some? ==> r.value.Some?
  {
    match published
    case None => Ok(None)
    case Some(s) =>
      match ZonedParse(s)
      case None => Fail(DateTimeParseError)
      case Some(t) => Ok(Some(DisplayOf(Render(t))))
  }

  // ---------------------------------------------------------------------------
  // What the reformatter means, field by field

  /**
   The display text stated on the parsed fields: the wall-clock date and time
   with seconds, except for a non-UTC offset with zero seconds and nanos,
   whose canonical text fits none of the three patterns.
   */
  function ExpectedDisplay(t: ZonedTime): string {
    if t.zone.Offset? && !ShowsSeconds(t) then ""
    else t.date + ", " + t.hour + ":" + t.minute + ":" + t.second
  }

  lemma MatchesConcat(p1: string, p2: string, s1: string, s2: string)
    requires |p1| == |s1|
    ensures Matches(p1 + p2, s1 + s2) <==> Matches(p1, s1) && Matches(p2, s2)
  {
    if Matches(p1, s1) && Matches(p2, s2) {
      forall i | 0 <= i < |p1 + p2| ensures CharFits((p1 + p2)[i], (s1 + s2)[i]) {
        if i >= |p1| {
          assert (p1 + p2)[i] == p2[i - |p1|] && (s1 + s2)[i] == s2[i - |s1|];
        }
      }
    }
    if Matches(p1 + p2, s1 + s2) {
      forall i | 0 <= i < |p1| ensures CharFits(p1[i], s1[i]) {
        assert (p1 + p2)[i] == p1[i] && (s1 + s2)[i] == s1[i];
      }
      forall i | 0 <= i < |p2| ensures CharFits(p2[i], s2[i]) {
        assert (p1 + p2)[|p1| + i] == p2[i] && (s1 + s2)[|p1| + i] == s2[i];
      }
    }
  }

  lemma DateMatches(d: string)
    requires ValidDate(d)
    ensures Matches(DatePattern, d)
  {
    forall i | 0 <= i < 10 ensures CharFits(DatePattern[i], d[i]) {
      if i < 4 {
        assert d[i] == d[..4][i];
      } else if 5 <= i < 7 {
        assert d[i] == d[5..7][i - 5];
      } else if 8 <= i {
        assert d[i] == d[8..][i - 8];
      }
    }
  }

  /** The shapes of the fields `Render` lays out, without their ranges. */
  predicate Shaped(t: ZonedTime) {
    && Matches(DatePattern, t.date) && Matches("##", t.hour) && Matches("##", t.minute)
    && Matches("##", t.second) && |t.fraction| <= 9
    && (t.zone.Offset? ==> t.zone.sign == '+' || t.zone.sign == '-')
  }

  lemma ValidShaped(t: ZonedTime)
    requires ValidTime(t)
    ensures Shaped(t)
  {
    DateMatches(t.date);
  }

  lemma HeadMatches(t: ZonedTime)
    requires Shaped(t)
    ensures |Head(t)| == 16 && Matches(HeadPattern, Head(t))
    ensures Render(t)[..10] == t.date && Render(t)[11..13] == t.hour && Render(t)[14..16] == t.minute
  {
    MatchesConcat(DatePattern, "T", t.date, "T");
    MatchesConcat(DatePattern + "T", "##", t.date + "T", t.hour);
    MatchesConcat(DatePattern + "T" + "##", ":", t.date + "T" + t.hour, ":");
    MatchesConcat(DatePattern + "T" + "##" + ":", "##", t.date + "T" + t.hour + ":", t.minute);
    assert Render(t)[..16] == Head(t);
  }

  /** A pattern extending the shared head fits the canonical text exactly when its rest fits the tail. */
  lemma FitsRender(t: ZonedTime, rest: string, hasSeconds: bool)
    requires Shaped(t)
    ensures var f := DateFormat(HeadPattern + rest, hasSeconds);
      Fits(f, Render(t)) <==> |Tail(t)| >= |rest| && Matches(rest, Tail(t)[..|rest|])
  {
    HeadMatches(t);
    var z, tl := Render(t), Tail(t);
    if |tl| >= |rest| {
      assert z[..16 + |rest|] == Head(t) + tl[..|rest|];
      MatchesConcat(HeadPattern, rest, Head(t), tl[..|rest|]);
    }
  }

  /** With seconds shown, the canonical text carries them right after the minutes. */
  lemma RenderSeconds(t: ZonedTime)
    requires Shaped(t) && ShowsSeconds(t)
    ensures Render(t)[17..19] == t.second
  {
    HeadMatches(t);
    var tl := Tail(t);
    assert tl[1..3] == t.second;
    assert Render(t)[16..] == tl;
  }

  /** With seconds shown, the tail opens with `:ss`, then `Z` exactly for a plain UTC time. */
  lemma SecondsTail(t: ZonedTime)
    requires Shaped(t) && ShowsSeconds(t)
    ensures |Tail(t)| >= 4 && Matches(":##", Tail(t)[..3])
    ensures Matches(":##Z", Tail(t)[..4]) <==> t.zone.Utc? && !HasNanos(t.fraction)
  {
    var tl := Tail(t);
    var nanos := if HasNanos(t.fraction) then "." + NanoText(t.fraction) else "";
    assert tl == ":" + t.second + nanos + ZoneText(t.zone);
    assert tl[..3] == ":" + t.second;
    MatchesConcat(":", "##", ":", t.second);
    assert tl[3] == (nanos + ZoneText(t.zone))[0];
    MatchesConcat(":##", "Z", tl[..3], [tl[3]]);
    assert tl[..4] == tl[..3] + [tl[3]];
  }

  /** With seconds shown, the canonical text fits the second pattern, and the first only for a plain UTC time. */
  lemma DisplayShown(t: ZonedTime)
    requires Shaped(t) && ShowsSeconds(t)
    ensures DisplayOf(Render(t)) == ExpectedDisplay(t)
  {
    HeadMatches(t);
    SecondsTail(t);
    FitsRender(t, ":##", true);
    FitsRender(t, ":##Z", true);
    RenderSeconds(t);
    var z := Render(t);
    var fields := DateFields(t.date, t.hour, t.minute, t.second);
    assert TryFormat(NotZonedFormat, z) == Some(fields);
    if t.zone.Utc? && !HasNanos(t.fraction) {
      assert TryFormat(ZonedFormat, z) == Some(fields);
    } else {
      assert TryFormat(ZonedFormat, z) == None;
    }
  }

  /** Without seconds, only the third pattern can fit, and only a UTC time fits it. */
  lemma DisplayElided(t: ZonedTime)
    requires Shaped(t) && !ShowsSeconds(t)
    ensures DisplayOf(Render(t)) == ExpectedDisplay(t)
  {
    HeadMatches(t);
    var z, tl := Render(t), Tail(t);
    assert tl == ZoneText(t.zone);
    assert !CharFits(':', tl[0]);
    FitsRender(t, ":##", true);
    FitsRender(t, ":##Z", true);
    FitsRender(t, "Z", false);
    assert !(|tl| >= 4 && Matches(":##Z", tl[..4])) by {
      if |tl| >= 4 {
        assert tl[..4][0] == tl[0];
      }
    }
    assert !(|tl| >= 3 && Matches(":##", tl[..3])) by {
      if |tl| >= 3 {
        assert tl[..3][0] == tl[0];
      }
    }
    assert TryFormat(ZonedFormat, z) == None;
    assert TryFormat(NotZonedFormat, z) == None;
    assert tl[..1] == [tl[0]];
    if t.zone.Utc? {
      assert Matches("Z", tl[..1]);
      assert TryFormat(NoSecondsFormat, z) == Some(DateFields(t.date, t.hour, t.minute, "00"));
    } else {
      assert !CharFits('Z', tl[0]);
      assert TryFormat(NoSecondsFormat, z) == None;
    }
  }

  /** The string pipeline (print canonically, try three patterns) computes `ExpectedDisplay`. */
  lemma DisplayOfRender(t: ZonedTime)
    requires ValidTime(t)
    ensures DisplayOf(Render(t)) == ExpectedDisplay(t)
  {
    ValidShaped(t);
    if ShowsSeconds(t) {
      DisplayShown(t);
    } else {
      DisplayElided(t);
    }
  }

  /**
   On the input text: a present date that parses becomes `yyyy-MM-dd, HH:mm:ss`
   carrying the input's own date, hour and minute, and its seconds or `00`;
   the only other outcome is `""`.
   */
  lemma DisplayableDateShape(s: string)
    requires DisplayableDate(Some(s)).Ok?
    ensures var d := DisplayableDate(Some(s)).value.value;
      d == "" || d == s[..10] + ", " + s[11..13] + ":" + s[14..16] + ":" + (if s[16] == ':' then s[17..19] else "00")
  {
    var t := ZonedParse(s).value;
    assert DisplayableDate(Some(s)).value.value == DisplayOf(Render(t));
    DisplayOfRender(t);
    if s[16] == ':' {
      assert t.second == s[17..19];
    } else {
      assert t.second == "00";
    }
  }

  /**
   The display is blank exactly for a non-UTC offset whose seconds and nanos
   are zero (`2024-01-02T03:04:00+02:00`); every UTC time gets a display.
   */
  lemma BlankDisplay(s: string)
    requires ZonedParse(s).Some?
    ensures var t := ZonedParse(s).value;
      DisplayableDate(Some(s)) == Ok(Some("")) <==> t.zone.Offset? && !ShowsSeconds(t)
  {
    var t := ZonedParse(s).value;
    assert DisplayableDate(Some(s)) == Ok(Some(DisplayOf(Render(t))));
    DisplayOfRender(t);
  }

  /** The value of two digits. */
  lemma NumTwo(s: string)
    requires |s| == 2 && AllDigits(s)
    ensures Num(s) == (s[0] as int - '0' as int) * 10 + (s[1] as int - '0' as int)
  {
    var first := s[..1];
    assert first[..0] == [] && first[0] == s[0];
    assert Num(first) == s[0] as int - '0' as int;
    assert s[..|s| - 1] == first;
  }

  const ExampleText := "2024-01-02T03:04:05Z"
  const ExampleTime := ZonedTime("2024-01-02", "03", "04", "05", "", Utc)

  lemma ExampleFieldsValid()
    ensures ValidDate(ExampleTime.date)
    ensures TwoDigitsUpTo("03", 23) && TwoDigitsUpTo("04", 59) && TwoDigitsUpTo("05", 59)
  {
    ExampleDateValid();
    ExampleClockValid();
  }

  lemma ExampleDateValid()
    ensures ValidDate(ExampleTime.date)
  {
    ExampleYear();
    NumTwo("01");
    NumTwo("02");
    ValidDateOf("2024", "01", "02");
    assert "2024" + "-" + "01" + "-" + "02" == ExampleTime.date;
  }

  lemma ExampleClockValid()
    ensures TwoDigitsUpTo("03", 23) && TwoDigitsUpTo("04", 59) && TwoDigitsUpTo("05", 59)
  {
    NumTwo("03");
    NumTwo("04");
    NumTwo("05");
  }

  lemma ExampleYear()
    ensures AllDigits("2024") && Num("2024") == 2024
  {
    assert "2024"[..3] == "202" && "202"[..2] == "20";
    NumTwo("20");
  }

  lemma ExampleParses()
    ensures ZonedParse(ExampleText) == Some(ExampleTime)
  {
    var t := ExampleTime;
    ExampleFieldsValid();
    assert ExampleText == Head(t) + (":" + t.second + "Z");
    ParseWithSeconds(t, "Z");
  }

  lemma ExampleExpected()
    ensures ExpectedDisplay(ExampleTime) == "2024-01-02, 03:04:05"
  {
    assert ShowsSeconds(ExampleTime);
  }

  /** The source's worked example: `2024-01-02T03:04:05Z` becomes `2024-01-02, 03:04:05`. */
  lemma DisplayExample()
    ensures DisplayableDate(Some(ExampleText)) == Ok(Some("2024-01-02, 03:04:05"))
  {
    var t := ExampleTime;
    assert ValidTime(t) by {
      ExampleFieldsValid();
    }
    assert DisplayableDate(Some(ExampleText)) == Ok(Some(DisplayOf(Render(t)))) by {
      ExampleParses();
    }
    DisplayOfRender(t);
    ExampleExpected();
  }

  // ---------------------------------------------------------------------------
  // toEntry

  /**
   `EntryResponse.toEntry(feedKey)`: a stored row owned by `feedKey`, the
   response id as `githubId`, the date reformatted and the rest copied.
   Throws when the date does.
   */
  function ToEntry(r: EntryResponse, feedKey: string): (e: Result<Entry, DateError>)
    ensures e.Ok? <==> DisplayableDate(r.published).Ok?
    ensures e.Ok? ==> e.value.id == 0 && e.value.feedKey == feedKey && e.value.githubId == r.id
    ensures e.Ok? ==> && e.value.link == r.link && e.value.title == r.title && e.value.media == r.media
                      && e.value.author == r.author && e.value.content == r.content
    ensures e.Ok? ==> e.value.published == DisplayableDate(r.published).value
    ensures e.Ok? ==> (e.value.published.None? <==> r.published.None?)
  {
    var published :- DisplayableDate(r.published);
    Ok(Entry(0, feedKey, r.id, published, r.link, r.title, r.media, r.author, r.content))
  }
}
