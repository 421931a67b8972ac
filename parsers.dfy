/**
 * The bot's pure input parsers: dates, weekday names, 12- and 24-hour times, and the
 * calendar check applied to parsed dates (bot.py, lines 1258-1428).
 */
module Parsers {
  import opened Base
  import opened Text

  /** `(year, month, day)`, with `year` None when the token has only two parts. */
  datatype DateNums = DateNums(year: Option<nat>, month: nat, day: nat)

  /** The separator a date token uses: `/` or `-`, but not both and not neither. */
  function DateSeparator(date: string): Option<char> {
    if '/' in date && '-' !in date then Some('/')
    else if '-' in date && '/' !in date then Some('-')
    else None
  }

  /** `str_to_date_nums`: "M/D", "Y/M/D" or the same with dashes. */
  function StrToDateNums(date: string): (r: Option<DateNums>)
    ensures r.Some? ==> DateSeparator(date).Some?
    ensures r.Some? ==> forall i :: 0 <= i < |date| ==> IsDigit(date[i]) || date[i] == DateSeparator(date).value
    ensures DateSeparator(date).Some? ==>
              var parts := Split(date, DateSeparator(date).value);
              r.Some? <==> (|parts| == 2 || |parts| == 3) && forall i :: 0 <= i < |parts| ==> IsNumeric(parts[i])
    ensures r.Some? ==>
              var parts := Split(date, DateSeparator(date).value);
              (r.value.year.None? <==> |parts| == 2)
              && (|parts| == 3 ==> r.value.year == Some(ParseNat(parts[0])))
              && r.value.month == ParseNat(parts[|parts| - 2])
              && r.value.day == ParseNat(parts[|parts| - 1])
  {
    match DateSeparator(date)
    case None => None
    case Some(sep) =>
      var nums := Split(date, sep);
      JoinSplit(date, sep);
      if |nums| == 2 && IsNumeric(nums[0]) && IsNumeric(nums[1]) then
        assert date == nums[0] + [sep] + nums[1];
        Some(DateNums(None, ParseNat(nums[0]), ParseNat(nums[1])))
      else if |nums| == 3 && IsNumeric(nums[0]) && IsNumeric(nums[1]) && IsNumeric(nums[2]) then
        assert nums[1..][1..] == [nums[2]];
        assert Join(nums[1..], sep) == nums[1] + [sep] + nums[2];
        assert date == nums[0] + [sep] + (nums[1] + [sep] + nums[2]);
        Some(DateNums(Some(ParseNat(nums[0])), ParseNat(nums[1]), ParseNat(nums[2])))
      else None
  }

  /** Any two digit strings joined by either separator are accepted as a month and a day. */
  lemma MonthDayAccepted(m: string, d: string, sep: char)
    requires sep == '/' || sep == '-'
    requires IsNumeric(m) && IsNumeric(d)
    ensures StrToDateNums(m + [sep] + d) == Some(DateNums(None, ParseNat(m), ParseNat(d)))
  {
    var date := m + [sep] + d;
    NoSepInDigits(m, sep);
    NoSepInDigits(d, sep);
    NoSepInDigits(m, OtherSep(sep));
    NoSepInDigits(d, OtherSep(sep));
    assert sep in date;
    assert DateSeparator(date) == Some(sep);
    SplitJoin([m, d], sep);
  }

  /** Any three digit strings joined by either separator are accepted as a year, month and day. */
  lemma FullDateAccepted(y: string, m: string, d: string, sep: char)
    requires sep == '/' || sep == '-'
    requires IsNumeric(y) && IsNumeric(m) && IsNumeric(d)
    ensures StrToDateNums(y + [sep] + m + [sep] + d) == Some(DateNums(Some(ParseNat(y)), ParseNat(m), ParseNat(d)))
  {
    FullDateParts(y, m, d, sep);
  }

  /** A three-part date token uses its one separator and splits back into its parts. */
  lemma FullDateParts(y: string, m: string, d: string, sep: char)
    requires sep == '/' || sep == '-'
    requires AllDigits(y) && AllDigits(m) && AllDigits(d)
    ensures DateSeparator(y + [sep] + m + [sep] + d) == Some(sep)
    ensures Split(y + [sep] + m + [sep] + d, sep) == [y, m, d]
  {
    var date := y + [sep] + m + [sep] + d;
    NoSepInDigits(y, sep);
    NoSepInDigits(m, sep);
    NoSepInDigits(d, sep);
    NoSepInDigits(y, OtherSep(sep));
    NoSepInDigits(m, OtherSep(sep));
    NoSepInDigits(d, OtherSep(sep));
    assert date == y + [sep] + (m + [sep] + d);
    assert date[|y|] == sep;
    SplitNoSep(d, sep);
    SplitFirst(m, sep, d);
    SplitFirst(y, sep, m + [sep] + d);
  }

  /** Rendering a month and day with either separator and parsing it back gives them back. */
  lemma MonthDayRoundTrip(month: nat, day: nat, sep: char)
    requires sep == '/' || sep == '-'
    ensures StrToDateNums(ShowNat(month) + [sep] + ShowNat(day)) == Some(DateNums(None, month, day))
  {
    MonthDayAccepted(ShowNat(month), ShowNat(day), sep);
    ParseShow(month);
    ParseShow(day);
  }

  /** The same for a full year/month/day date. */
  lemma FullDateRoundTrip(year: nat, month: nat, day: nat, sep: char)
    requires sep == '/' || sep == '-'
    ensures StrToDateNums(ShowNat(year) + [sep] + ShowNat(month) + [sep] + ShowNat(day))
            == Some(DateNums(Some(year), month, day))
  {
    FullDateAccepted(ShowNat(year), ShowNat(month), ShowNat(day), sep);
    ParseShow(year);
    ParseShow(month);
    ParseShow(day);
  }

  function OtherSep(sep: char): char {
    if sep == '/' then '-' else '/'
  }

  lemma NoSepInDigits(s: string, sep: char)
    requires AllDigits(s) && !IsDigit(sep)
    ensures sep !in s
  {
  }

  /** `is_monday`: the lower-cased token is an alias, and every alias is a prefix of "mondays". */
  predicate IsMonday(token: string)
    ensures IsMonday(token) ==> 1 <= |Lower(token)| && Lower(token) <= "mondays"
  {
    Lower(token) in ["m", "mon", "monday", "mondays"]
  }

  /** `is_tuesday`: every alias is a prefix of "tuesdays". */
  predicate IsTuesday(token: string)
    ensures IsTuesday(token) ==> 1 <= |Lower(token)| && Lower(token) <= "tuesdays"
  {
    Lower(token) in ["tu", "tue", "tues", "tuesday", "tuesdays"]
  }

  /** `is_wednesday`: every alias is a prefix of "wednesdays". */
  predicate IsWednesday(token: string)
    ensures IsWednesday(token) ==> 1 <= |Lower(token)| && Lower(token) <= "wednesdays"
  {
    Lower(token) in ["w", "wed", "wednesday", "wednesdays"]
  }

  /** `is_thursday`: every alias is a prefix of "thursdays". */
  predicate IsThursday(token: string)
    ensures IsThursday(token) ==> 1 <= |Lower(token)| && Lower(token) <= "thursdays"
  {
    Lower(token) in ["th", "thu", "thur", "thurs", "thursday", "thursdays"]
  }

  /** `is_friday`: every alias is a prefix of "fridays". */
  predicate IsFriday(token: string)
    ensures IsFriday(token) ==> 1 <= |Lower(token)| && Lower(token) <= "fridays"
  {
    Lower(token) in ["f", "fri", "friday", "fridays"]
  }

  /** `is_saturday`: every alias is a prefix of "saturdays". */
  predicate IsSaturday(token: string)
    ensures IsSaturday(token) ==> 1 <= |Lower(token)| && Lower(token) <= "saturdays"
  {
    Lower(token) in ["sa", "sat", "saturday", "saturdays"]
  }

  /** `is_sunday`: every alias is a prefix of "sundays". */
  predicate IsSunday(token: string)
    ensures IsSunday(token) ==> 1 <= |Lower(token)| && Lower(token) <= "sundays"
  {
    Lower(token) in ["su", "sun", "sunday", "sundays"]
  }

  /** The `is_*` predicate for weekday number `n` (0 is Monday). */
  predicate IsWeekday(token: string, n: nat)
    requires n < 7
  {
    match n
    case 0 => IsMonday(token)
    case 1 => IsTuesday(token)
    case 2 => IsWednesday(token)
    case 3 => IsThursday(token)
    case 4 => IsFriday(token)
    case 5 => IsSaturday(token)
    case _ => IsSunday(token)
  }

  /** `day_to_num`: 0 (Monday) to 6 (Sunday), None for anything else. */
  function DayToNum(day: string): (r: Option<nat>)
    ensures r.Some? ==> r.value < 7 && IsWeekday(day, r.value)
    ensures r.None? ==> forall n :: 0 <= n < 7 ==> !IsWeekday(day, n)
  {
    if IsMonday(day) then Some(0)
    else if IsTuesday(day) then Some(1)
    else if IsWednesday(day) then Some(2)
    else if IsThursday(day) then Some(3)
    else if IsFriday(day) then Some(4)
    else if IsSaturday(day) then Some(5)
    else if IsSunday(day) then Some(6)
    else None
  }

  /** No alias names two weekdays, so the order of the tests in `day_to_num` does not matter. */
  lemma AliasesDisjoint(token: string, m: nat, n: nat)
    requires m < 7 && n < 7
    requires IsWeekday(token, m) && IsWeekday(token, n)
    ensures m == n
  {
  }

  /** Every alias of weekday `n` is recognised as weekday `n`, whatever its case. */
  lemma DayToNumExact(token: string, n: nat)
    requires n < 7 && IsWeekday(token, n)
    ensures DayToNum(token) == Some(n)
  {
    AliasesDisjoint(token, DayToNum(token).value, n);
  }

  /** Only the letters' case is ignored: a token and its lower-case form name the same day. */
  lemma DayToNumCaseInsensitive(token: string)
    ensures DayToNum(token) == DayToNum(Lower(token))
  {
    LowerIdempotent(token);
  }

  /** An hour (0-23) and a minute (0-59) of a day. */
  datatype TimeOfDay = TimeOfDay(hour: nat, minute: nat)

  predicate ValidTime(t: TimeOfDay) {
    t.hour < 24 && t.minute < 60
  }

  /** `str_to_time_24hr`: "H" or "H:M"; anything after a second colon is ignored. */
  function StrToTime24(time: string): (r: Option<TimeOfDay>)
    ensures r.Some? ==> ValidTime(r.value)
    ensures r.Some? ==>
              var nums := Split(time, ':');
              IsNumeric(nums[0]) && r.value.hour == ParseNat(nums[0])
              && (|nums| == 1 ==> r.value.minute == 0)
              && (|nums| > 1 ==> IsNumeric(nums[1]) && r.value.minute == ParseNat(nums[1]))
  {
    var nums := Split(time, ':');
    if |nums| == 1 then
      if IsNumeric(nums[0]) && ParseNat(nums[0]) < 24 then Some(TimeOfDay(ParseNat(nums[0]), 0))
      else None
    else
      if IsNumeric(nums[0]) && IsNumeric(nums[1]) then
        var hour, minute := ParseNat(nums[0]), ParseNat(nums[1]);
        if hour < 24 && minute < 60 then Some(TimeOfDay(hour, minute)) else None
      else None
  }

  /** The 12-hour to 24-hour hour conversion of `str_to_time_12hr`. */
  function To24Hour(hour: nat, ampm: string): nat {
    if ampm == "pm" && hour != 12 then hour + 12
    else if ampm == "am" && hour == 12 then 0
    else hour
  }

  /** `str_to_time_12hr`: "H" or "H:M" with H in 1..12, converted by the am/pm marker. */
  function StrToTime12(time: string, ampm: string): (r: Option<TimeOfDay>)
    ensures r.Some? ==> ValidTime(r.value)
    ensures r.Some? && ampm == "am" ==> r.value.hour < 12
    ensures r.Some? && ampm == "pm" ==> r.value.hour >= 12
    ensures r.Some? ==>
              var nums := Split(time, ':');
              IsNumeric(nums[0]) && 0 < ParseNat(nums[0]) <= 12
              && r.value.hour == To24Hour(ParseNat(nums[0]), ampm)
              && (|nums| == 1 ==> r.value.minute == 0)
              && (|nums| > 1 ==> IsNumeric(nums[1]) && r.value.minute == ParseNat(nums[1]))
  {
    var nums := Split(time, ':');
    if |nums| == 1 then
      if IsNumeric(nums[0]) && 0 < ParseNat(nums[0]) <= 12 then
        Some(TimeOfDay(To24Hour(ParseNat(nums[0]), ampm), 0))
      else None
    else
      if IsNumeric(nums[0]) && IsNumeric(nums[1]) then
        var hour, minute := ParseNat(nums[0]), ParseNat(nums[1]);
        if 0 < hour <= 12 && minute < 60 then Some(TimeOfDay(To24Hour(hour, ampm), minute)) else None
      else None
  }

  /** The 12-hour clock face of a 24-hour hour. */
  function Hour12(hour: nat): nat {
    if hour % 12 == 0 then 12 else hour % 12
  }

  function AmPm(hour: nat): string {
    if hour < 12 then "am" else "pm"
  }

  /** "H" alone is accepted for any digit string naming an hour 0-23, at minute 0. */
  lemma Time24HourAccepted(h: string)
    requires IsNumeric(h) && ParseNat(h) < 24
    ensures StrToTime24(h) == Some(TimeOfDay(ParseNat(h), 0))
  {
    NoSepInDigits(h, ':');
    SplitNoSep(h, ':');
  }

  /** "H:M" is accepted for any digit strings naming an hour 0-23 and a minute 0-59. */
  lemma Time24Accepted(h: string, m: string)
    requires IsNumeric(h) && IsNumeric(m) && ParseNat(h) < 24 && ParseNat(m) < 60
    ensures StrToTime24(h + [':'] + m) == Some(TimeOfDay(ParseNat(h), ParseNat(m)))
  {
    NoSepInDigits(h, ':');
    NoSepInDigits(m, ':');
    SplitJoin([h, m], ':');
  }

  /** "H:M" with an hour 1-12 and a minute 0-59 is accepted and converted by the marker. */
  lemma Time12Accepted(h: string, m: string, ampm: string)
    requires IsNumeric(h) && IsNumeric(m) && 0 < ParseNat(h) <= 12 && ParseNat(m) < 60
    ensures StrToTime12(h + [':'] + m, ampm) == Some(TimeOfDay(To24Hour(ParseNat(h), ampm), ParseNat(m)))
  {
    NoSepInDigits(h, ':');
    NoSepInDigits(m, ':');
    SplitJoin([h, m], ':');
  }

  /** Rendering "H:M" in 24-hour form and parsing it gives the time back. */
  lemma Time24RoundTrip(t: TimeOfDay)
    requires ValidTime(t)
    ensures StrToTime24(ShowNat(t.hour) + [':'] + ShowNat(t.minute)) == Some(t)
  {
    ParseShow(t.hour);
    ParseShow(t.minute);
    Time24Accepted(ShowNat(t.hour), ShowNat(t.minute));
  }

  /** Every valid time is the parse of its own 12-hour rendering, with the matching marker. */
  lemma Time12RoundTrip(t: TimeOfDay)
    requires ValidTime(t)
    ensures StrToTime12(ShowNat(Hour12(t.hour)) + [':'] + ShowNat(t.minute), AmPm(t.hour)) == Some(t)
  {
    ParseShow(Hour12(t.hour));
    ParseShow(t.minute);
    Time12Accepted(ShowNat(Hour12(t.hour)), ShowNat(t.minute), AmPm(t.hour));
  }

  /** 12 am is hour 0, 12 pm is hour 12, and any other pm hour is twelve later. */
  lemma Time12Conversion(hour: nat)
    requires 0 < hour <= 12
    ensures StrToTime12(ShowNat(hour), "am") == Some(TimeOfDay(if hour == 12 then 0 else hour, 0))
    ensures StrToTime12(ShowNat(hour), "pm") == Some(TimeOfDay(if hour == 12 then 12 else hour + 12, 0))
  {
    SplitNoSep(ShowNat(hour), ':');
    ParseShow(hour);
  }

  /** The most days month `month` can have: February is allowed 29 in every year. */
  function MaxDay(month: int): int
    requires 1 <= month <= 12
  {
    [31, 29, 31, 30, 31, 30, 31, 31, 30, 31, 30, 31][month - 1]
  }

  /** `valid_date`: year in `datetime.MINYEAR..MAXYEAR`, a month, a day the month can have. */
  function ValidDate(day: int, month: int, year: int := 1): (r: bool)
    ensures r <==> 1 <= year <= 9999 && 1 <= month <= 12 && 1 <= day <= MaxDay(month)
  {
    if year < 1 || year > 9999 then false
    else if month < 1 || month > 12 then false
    else if day < 1 then false
    else if month == 1 || month == 3 || month == 5 || month == 7 || month == 8 || month == 10 || month == 12 then
      day <= 31
    else if month == 2 then
      day <= 29
    else if month == 4 || month == 6 || month == 9 || month == 11 then
      day <= 30
    else true
  }
}
