/**
 * The decision logic inside the bot's command handlers: when a weekly meeting next occurs
 * (bot.py, lines 808-857) and how `set ... order to` cleans its comma-separated name list
 * (bot.py, lines 1023-1063). The Discord message, its reactions and the clock are parameters.
 */
module Handlers {
  import opened Base
  import opened Text
  import opened Parsers
  import opened Timeline
  import opened Schedule

  /** The clock reading taken by the handler: a day number, its weekday (0 is Monday), the time. */
  datatype Now = Now(today: int, weekday: int, time: TimeOfDay)

  /** `(hour, minute)` strictly later in the day than `(h, m)`. */
  predicate Later(t: TimeOfDay, now: TimeOfDay) {
    t.hour > now.hour || (t.hour == now.hour && t.minute > now.minute)
  }

  /**
   * The days added to today to reach the next weekly meeting on weekday `day` at `t`: later
   * this week, next week, or today when the time is still ahead.
   */
  function DayOffset(day: int, now: Now, t: TimeOfDay): (r: int)
    requires 0 <= day < 7 && 0 <= now.weekday < 7
    ensures 0 <= r <= 7
    ensures (now.weekday + r) % 7 == day
    ensures r == 0 <==> day == now.weekday && Later(t, now.time)
    ensures r == 7 <==> day == now.weekday && !Later(t, now.time)
  {
    if day > now.weekday then day - now.weekday
    else if day < now.weekday
         || (day == now.weekday && (t.hour < now.time.hour || (t.hour == now.time.hour && t.minute <= now.time.minute)))
    then 7 - now.weekday + day
    else 0
  }

  /** A day number and a time of day as minutes on one time line. */
  function Minutes(dayNumber: int, t: TimeOfDay): int {
    dayNumber * 1440 + t.hour * 60 + t.minute
  }

  /** The instant the weekly meeting is stored at. */
  function NextOccurrence(day: int, now: Now, t: TimeOfDay): (instant: int)
    requires 0 <= day < 7 && 0 <= now.weekday < 7
    ensures ValidTime(t) ==> instant % 1440 == t.hour * 60 + t.minute
    ensures ValidTime(t) ==> WeekdayAfter(now.weekday, instant / 1440 - now.today) == day
  {
    Minutes(now.today + DayOffset(day, now, t), t)
  }

  /** The weekday `k` days after weekday `w`. */
  function WeekdayAfter(w: int, k: int): int {
    (w + k) % 7
  }

  /**
   * The stored instant lies strictly after now and at most one week ahead, and no earlier day
   * from today on has the right weekday with the time still ahead: it is the next occurrence.
   */
  lemma NextOccurrenceIsNext(day: int, now: Now, t: TimeOfDay)
    requires 0 <= day < 7 && 0 <= now.weekday < 7
    requires ValidTime(t) && ValidTime(now.time)
    ensures Minutes(now.today, now.time) < NextOccurrence(day, now, t) <= Minutes(now.today, now.time) + 7 * 1440
    ensures forall k :: 0 <= k < DayOffset(day, now, t) && WeekdayAfter(now.weekday, k) == day ==>
              Minutes(now.today + k, t) <= Minutes(now.today, now.time)
  {
    var r := DayOffset(day, now, t);
    forall k | 0 <= k < r && WeekdayAfter(now.weekday, k) == day
      ensures Minutes(now.today + k, t) <= Minutes(now.today, now.time)
    {
      if k > 0 {
        assert false;
      }
    }
  }

  /** On the same weekday, 10:00 against a clock at 10:00 waits a week, against 9:00 it is today. */
  lemma SameWeekdayExamples()
    ensures DayOffset(2, Now(0, 2, TimeOfDay(10, 0)), TimeOfDay(10, 0)) == 7
    ensures DayOffset(2, Now(0, 2, TimeOfDay(9, 0)), TimeOfDay(10, 0)) == 0
  {
  }

  /** The time tokens of the weekly command: 12-hour with a marker, else 24-hour. */
  function CommandTime(time: string, ampm: Option<string>): (r: Option<TimeOfDay>)
    ensures r.Some? ==> ValidTime(r.value)
  {
    match ampm
    case Some(marker) => StrToTime12(time, marker)
    case None => StrToTime24(time)
  }

  /**
   * `add weekly meeting on <day> at <time>` as written: a bad day or time is refused (the
   * cross reaction), but once both parse the handler reads `meeting`, a local of the
   * handler never assigned on this path, and raises `UnboundLocalError`; no list changes.
   */
  method AddWeeklyCommand(sd: ServerData, dayToken: string, time: string, ampm: Option<string>)
    returns (outcome: Outcome)
    ensures DayToNum(dayToken).None? || CommandTime(time, ampm).None? ==> outcome == Returned(false)
    ensures DayToNum(dayToken).Some? && CommandTime(time, ampm).Some? ==> outcome == Raised(UnboundLocalError)
  {
    var day := DayToNum(dayToken);
    if day.None? {
      return Returned(false);
    }
    var t := CommandTime(time, ampm);
    if t.None? {
      return Returned(false);
    }
    outcome := Raised(UnboundLocalError);
  }

  /**
   * The intended weekly command: store the next occurrence, tagged with its weekday, through
   * the corrected weekly insertion.
   */
  method AddWeeklyCommandCorrected(sd: ServerData, dayToken: string, time: string, ampm: Option<string>, now: Now)
    returns (added: bool)
    requires 0 <= now.weekday < 7
    modifies sd`weeklyMeetings
    ensures DayToNum(dayToken).None? || CommandTime(time, ampm).None? ==>
              !added && sd.weeklyMeetings == old(sd.weeklyMeetings)
    ensures added ==>
              DayToNum(dayToken).Some? && CommandTime(time, ampm).Some?
              && var day, t := DayToNum(dayToken).value, CommandTime(time, ampm).value;
                 var entry := WeeklyTime(NextOccurrence(day, now, t), day);
                 multiset(sd.weeklyMeetings) == multiset(old(sd.weeklyMeetings)) + multiset{entry}
    ensures DayToNum(dayToken).Some? && CommandTime(time, ampm).Some? ==>
              var day, t := DayToNum(dayToken).value, CommandTime(time, ampm).value;
              var entry := WeeklyTime(NextOccurrence(day, now, t), day);
              var before := old(sd.weeklyMeetings);
              (added <==> forall i :: 0 <= i < |before| ==>
                            !(before[i].weekday == entry.weekday && before[i].time % 1440 == entry.time % 1440))
              && (added ==> sd.weeklyMeetings == Inserted(before, CountNotAfter(Times(before), entry.time), entry))
    ensures !added ==> sd.weeklyMeetings == old(sd.weeklyMeetings)
    ensures NonDecreasing(Times(old(sd.weeklyMeetings))) ==> NonDecreasing(Times(sd.weeklyMeetings))
    ensures NonDecreasing(Times(old(sd.weeklyMeetings))) && WeeklyDistinct(old(sd.weeklyMeetings)) ==>
              WeeklyDistinct(sd.weeklyMeetings)
  {
    var day := DayToNum(dayToken);
    if day.None? {
      return false;
    }
    var t := CommandTime(time, ampm);
    if t.None? {
      return false;
    }
    var entry := WeeklyTime(NextOccurrence(day.value, now, t.value), day.value);
    added := sd.AddWeeklyMeetingCorrected(entry);
  }

  /**
   * The promise of the weekly help text under the corrected insertion: once a day and time is
   * stored, the same day and time given again on any later day is refused.
   */
  lemma SameWeeklyCommandRefused(w: seq<WeeklyTime>, day: int, t: TimeOfDay, earlier: Now, later: Now)
    requires 0 <= day < 7 && 0 <= earlier.weekday < 7 && 0 <= later.weekday < 7
    requires ValidTime(t)
    requires WeeklyTime(NextOccurrence(day, earlier, t), day) in w
    ensures WeeklySlotCorrected(w, WeeklyTime(NextOccurrence(day, later, t), day)) == Duplicate
  {
    var stored := WeeklyTime(NextOccurrence(day, earlier, t), day);
    var i :| 0 <= i < |w| && w[i] == stored;
    assert SameTimeOfWeek(w[i], WeeklyTime(NextOccurrence(day, later, t), day));
  }

  /**
   * The names `set ... order to` keeps from the comma-separated pieces: blank pieces are
   * dropped and the others stripped, in their order.
   */
  function Cleaned(parts: seq<string>): (names: seq<string>)
    ensures |names| <= |parts|
  {
    if |parts| == 0 then []
    else
      Kept(parts[0]) + Cleaned(parts[1..])
  }

  /** What one piece contributes: nothing when it is blank, else its stripped form. */
  function Kept(piece: string): (r: seq<string>)
    ensures |r| <= 1
  {
    if IsBlank(piece) then [] else [Strip(piece)]
  }

  lemma {:induction false} CleanedAppend(a: seq<string>, b: seq<string>)
    ensures Cleaned(a + b) == Cleaned(a) + Cleaned(b)
  {
    if |a| == 0 {
      assert a + b == b;
    } else {
      assert (a + b)[0] == a[0] && (a + b)[1..] == a[1..] + b;
      CleanedAppend(a[1..], b);
    }
  }

  /** Every kept name is non-empty and already stripped. */
  lemma {:induction false} CleanedNames(parts: seq<string>)
    ensures forall i :: 0 <= i < |Cleaned(parts)| ==>
              Cleaned(parts)[i] != [] && Strip(Cleaned(parts)[i]) == Cleaned(parts)[i]
  {
    if |parts| > 0 {
      CleanedNames(parts[1..]);
      StripIdempotent(parts[0]);
    }
  }

  /** Every non-blank piece contributes its stripped form. */
  lemma {:induction false} CleanedHas(parts: seq<string>, j: nat)
    requires j < |parts| && !IsBlank(parts[j])
    ensures Strip(parts[j]) in Cleaned(parts)
  {
    if j > 0 {
      CleanedHas(parts[1..], j - 1);
    }
  }

  /** Peeling the piece at `i` off the pieces from `i` on. */
  lemma CleanedStep(parts: seq<string>, i: nat)
    requires i < |parts|
    ensures Cleaned(parts[i..]) == Kept(parts[i]) + Cleaned(parts[i + 1..])
  {
    assert parts[i..][1..] == parts[i + 1..];
  }

  /** Reading a list of names made of the raw pieces before `i + 1` and the kept names after. */
  lemma ViewAt(names: seq<string>, parts: seq<string>, later: seq<string>, i: nat)
    requires i < |parts| && names == parts[..i + 1] + later
    ensures names[i] == parts[i]
    ensures names[..i] + names[i + 1..] == parts[..i] + later
  {
    assert names[..i] == parts[..i];
    assert names[i + 1..] == later;
  }

  /**
   * The handler's backward walk over the pieces: blank pieces are popped, the others stripped
   * in place, and the command is refused as soon as a stripped name occurs elsewhere in the
   * list. It refuses exactly when two kept names are equal, and otherwise keeps `Cleaned`.
   */
  method NormaliseNames(nameList: string) returns (r: Option<seq<string>>)
    ensures r.None? <==> !Distinct(Cleaned(Split(nameList, ',')))
    ensures r.Some? ==> r.value == Cleaned(Split(nameList, ','))
  {
    var parts := Split(nameList, ',');
    var names := parts;
    var i := |parts|;
    assert parts[|parts|..] == [];
    assert parts[..|parts|] == parts;
    while i > 0
      invariant 0 <= i <= |parts|
      invariant names == parts[..i] + Cleaned(parts[i..])
      invariant Distinct(Cleaned(parts[i..]))
    {
      i := i - 1;
      CleanedStep(parts, i);
      var later := Cleaned(parts[i + 1..]);
      ViewAt(names, parts, later, i);
      if names[i] == [] || IsBlank(names[i]) {
        names := names[..i] + names[i + 1..];
      } else {
        var name := Strip(names[i]);
        var others := names[..i] + names[i + 1..];
        if name in others {
          NameRepeated(parts, i, name);
          return None;
        }
        KeepStep(parts, i, later);
        names := parts[..i] + ([name] + later);
      }
    }
    assert parts[0..] == parts;
    r := Some(names);
  }

  /** Keeping the stripped piece at `i` in front of the names kept after it, when it is new there. */
  lemma KeepStep(parts: seq<string>, i: nat, later: seq<string>)
    requires i < |parts| && !IsBlank(parts[i]) && later == Cleaned(parts[i + 1..])
    requires Strip(parts[i]) !in later && Distinct(later)
    ensures Cleaned(parts[i..]) == [Strip(parts[i])] + later
    ensures Distinct(Cleaned(parts[i..]))
  {
    CleanedStep(parts, i);
    DistinctCons(Strip(parts[i]), later);
  }

  lemma DistinctCons(x: string, s: seq<string>)
    requires x !in s && Distinct(s)
    ensures Distinct([x] + s)
  {
  }

  /** Splitting the kept names at a non-blank piece. */
  lemma CleanedAt(parts: seq<string>, i: nat)
    requires i < |parts| && !IsBlank(parts[i])
    ensures Cleaned(parts) == Cleaned(parts[..i]) + ([Strip(parts[i])] + Cleaned(parts[i + 1..]))
  {
    assert parts == parts[..i] + parts[i..];
    CleanedAppend(parts[..i], parts[i..]);
    CleanedStep(parts, i);
  }

  /** A stripped name found among the other names is a repeat among the kept names. */
  lemma NameRepeated(parts: seq<string>, i: nat, name: string)
    requires i < |parts| && !IsBlank(parts[i]) && name == Strip(parts[i])
    requires name in parts[..i] + Cleaned(parts[i + 1..])
    ensures !Distinct(Cleaned(parts))
  {
    CleanedAt(parts, i);
    var front, rest := Cleaned(parts[..i]), Cleaned(parts[i + 1..]);
    if name in parts[..i] {
      RepeatEarlier(parts[..i], parts[i], name);
      RepeatAcross(front, rest, name);
    } else {
      RepeatAfter(front, rest, name);
    }
  }

  lemma RepeatAcross(front: seq<string>, rest: seq<string>, name: string)
    requires name in front
    ensures !Distinct(front + ([name] + rest))
  {
    SharedBreaksDistinct(front, [name] + rest, name);
  }

  lemma RepeatAfter(front: seq<string>, rest: seq<string>, name: string)
    requires name in rest
    ensures !Distinct(front + ([name] + rest))
  {
    SharedBreaksDistinct([name], rest, name);
    if Distinct(front + ([name] + rest)) {
      DistinctAppend(front, [name] + rest);
    }
  }

  /** An earlier raw piece equal to a stripped non-blank name is itself kept as that name. */
  lemma RepeatEarlier(front: seq<string>, piece: string, name: string)
    requires !IsBlank(piece) && name == Strip(piece) && name in front
    ensures name in Cleaned(front)
  {
    var j :| 0 <= j < |front| && front[j] == name;
    StripIdempotent(piece);
    assert name != [];
    assert !IsBlank(front[j]) by {
      assert !IsWs(name[0]);
    }
    CleanedHas(front, j);
  }

  /**
   * `set agenda|minutes order to <names>`: a name list with a repeat, or a rotation other
   * than agenda or minutes, is refused with nothing changed; otherwise the chosen rotation is
   * replaced by the cleaned names and restarts at index 0, and the other one is untouched.
   */
  method SetOrderCommand(sd: ServerData, kind: string, nameList: string) returns (ok: bool)
    modifies sd`agendaOrder, sd`agendaIndex, sd`minutesOrder, sd`minutesIndex
    ensures var names := Cleaned(Split(nameList, ','));
            ok <==> Distinct(names) && (Lower(kind) == "agenda" || Lower(kind) == "minutes")
    ensures ok && Lower(kind) == "agenda" ==>
              sd.agendaOrder == Cleaned(Split(nameList, ',')) && sd.agendaIndex == 0
              && sd.minutesOrder == old(sd.minutesOrder) && sd.minutesIndex == old(sd.minutesIndex)
    ensures ok && Lower(kind) == "minutes" ==>
              sd.minutesOrder == Cleaned(Split(nameList, ',')) && sd.minutesIndex == 0
              && sd.agendaOrder == old(sd.agendaOrder) && sd.agendaIndex == old(sd.agendaIndex)
    ensures !ok ==> sd.agendaOrder == old(sd.agendaOrder) && sd.agendaIndex == old(sd.agendaIndex)
                    && sd.minutesOrder == old(sd.minutesOrder) && sd.minutesIndex == old(sd.minutesIndex)
  {
    var kindLower := Lower(kind);
    var names := NormaliseNames(nameList);
    if names.None? {
      return false;
    }
    if kindLower == "agenda" {
      sd.SetAgendaOrder(names.value);
    } else if kindLower == "minutes" {
      sd.SetMinutesOrder(names.value);
    } else {
      return false;
    }
    ok := true;
  }
}
