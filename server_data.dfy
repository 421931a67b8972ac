/**
 * `ServerData` (bot.py, lines 37-318): one server's schedule, kept in memory and updated in
 * place by the bot's commands. The Discord server object, the alert channel and the unused
 * `next_meeting` / `next_weekly_meeting` fields are not part of this model.
 */
module Schedule {
  import opened Base
  import opened Timeline
  import opened Removal

  class ServerData {
    var meetings: seq<int>
    var weeklyMeetings: seq<WeeklyTime>
    var bdays: seq<BDay>
    var agendaOrder: seq<string>
    var agendaIndex: int
    var minutesOrder: seq<string>
    var minutesIndex: int

    /**
     * What the insertions keep: one-time meetings strictly ascending and birthdays in date
     * order. (The weekly list has no such invariant as written; see `AddWeeklyMeeting`.)
     */
    predicate Valid()
      reads this
      ensures Valid() ==> Distinct(meetings)
    {
      StrictlyAscending(meetings) && NonDecreasing(Dates(bdays))
    }

    /** `ServerData.__init__`: every list empty, both duty indexes 0. */
    constructor ()
      ensures meetings == [] && weeklyMeetings == [] && bdays == []
      ensures agendaOrder == [] && agendaIndex == 0
      ensures minutesOrder == [] && minutesIndex == 0
      ensures Valid()
    {
      meetings := [];
      weeklyMeetings := [];
      bdays := [];
      agendaOrder := [];
      agendaIndex := 0;
      minutesOrder := [];
      minutesIndex := 0;
    }

    /**
     * `add_meeting`: a time already listed is refused with no change; any other time is
     * inserted where the list stays strictly ascending.
     */
    method AddMeeting(time: int) returns (added: bool)
      modifies this`meetings
      ensures old(Valid()) ==> Valid()
      ensures var slot := MeetingSlot(old(meetings), time);
              if slot.InsertAt? then added && meetings == Inserted(old(meetings), slot.pos, time)
              else !added && meetings == old(meetings)
      ensures StrictlyAscending(old(meetings)) ==>
                (added <==> time !in old(meetings))
                && StrictlyAscending(meetings)
                && multiset(meetings) == multiset(old(meetings)) + (if added then multiset{time} else multiset{})
    {
      var slot := FindSlot(meetings, time);
      if slot.InsertAt? {
        if StrictlyAscending(meetings) {
          InsertAscending(meetings, slot.pos, time);
        }
        meetings := Inserted(meetings, slot.pos, time);
        added := true;
      } else {
        added := false;
      }
    }

    /**
     * `add_weekly_meeting` as written: the emptiness test reads the one-time list, a single
     * weekly entry is compared by instant, two or more by weekday only, and with one-time
     * meetings present but no weekly entry the final comparison raises `IndexError`.
     */
    method AddWeeklyMeeting(time: WeeklyTime) returns (outcome: Outcome)
      modifies this`weeklyMeetings
      ensures old(Valid()) ==> Valid()
      ensures var slot := WeeklySlot(|meetings| == 0, old(weeklyMeetings), time);
              match slot
              case InsertAt(pos) => outcome == Returned(true) && weeklyMeetings == Inserted(old(weeklyMeetings), pos, time)
              case Duplicate => outcome == Returned(false) && weeklyMeetings == old(weeklyMeetings)
              case OutOfRange => outcome == Raised(IndexError) && weeklyMeetings == old(weeklyMeetings)
    {
      var slot: Slot;
      if |meetings| == 0 {
        slot := InsertAt(|weeklyMeetings|);
      } else if |weeklyMeetings| == 1 {
        slot := FindSlot(Times(weeklyMeetings), time.time);
      } else if |weeklyMeetings| == 0 {
        slot := OutOfRange;
      } else {
        slot := FindSlot(Weekdays(weeklyMeetings), time.weekday);
      }
      match slot
      case InsertAt(pos) =>
        weeklyMeetings := Inserted(weeklyMeetings, pos, time);
        outcome := Returned(true);
      case Duplicate =>
        outcome := Returned(false);
      case OutOfRange =>
        outcome := Raised(IndexError);
    }

    /**
     * The intended `add_weekly_meeting`: refuse exactly an entry on the same weekday at the same
     * time of day as a listed one, and insert any other in instant order after the entries not
     * later than it.
     */
    method AddWeeklyMeetingCorrected(time: WeeklyTime) returns (added: bool)
      modifies this`weeklyMeetings
      ensures old(Valid()) ==> Valid()
      ensures added <==> forall i :: 0 <= i < |old(weeklyMeetings)| ==>
                           !(old(weeklyMeetings)[i].weekday == time.weekday
                             && old(weeklyMeetings)[i].time % 1440 == time.time % 1440)
      ensures added ==>
                weeklyMeetings == Inserted(old(weeklyMeetings), CountNotAfter(Times(old(weeklyMeetings)), time.time), time)
      ensures !added ==> weeklyMeetings == old(weeklyMeetings)
      ensures NonDecreasing(Times(old(weeklyMeetings))) ==> NonDecreasing(Times(weeklyMeetings))
      ensures NonDecreasing(Times(old(weeklyMeetings))) && WeeklyDistinct(old(weeklyMeetings)) ==>
                WeeklyDistinct(weeklyMeetings)
    {
      var slot := WeeklySlotCorrected(weeklyMeetings, time);
      if NonDecreasing(Times(weeklyMeetings)) {
        WeeklySlotCorrectedSpec(weeklyMeetings, time);
      }
      if slot.InsertAt? {
        weeklyMeetings := Inserted(weeklyMeetings, slot.pos, time);
        added := true;
      } else {
        added := false;
      }
    }

    /**
     * `add_bday` as written: binary search on the dates, with a same-date entry under
     * another name appended (one entry) or put before the higher neighbour (two or more).
     */
    method AddBday(bday: BDay) returns (added: bool)
      modifies this`bdays
      ensures old(Valid()) ==> Valid()
      ensures var slot := BdaySlot(old(bdays), bday);
              if slot.InsertAt? then added && bdays == Inserted(old(bdays), slot.pos, bday)
              else !added && bdays == old(bdays)
      ensures |old(bdays)| == 0 ==> added
      ensures |old(bdays)| == 1 ==> (added <==> old(bdays)[0] != bday)
      ensures NonDecreasing(Dates(old(bdays))) ==>
                NonDecreasing(Dates(bdays))
                && ((forall i :: 0 <= i < |old(bdays)| ==> old(bdays)[i].date != bday.date) ==> added)
    {
      var slot := FindBdaySlot(bdays, bday);
      if slot.InsertAt? {
        if NonDecreasing(Dates(bdays)) {
          InsertBdayOrdered(bdays, slot.pos, bday);
        }
        bdays := Inserted(bdays, slot.pos, bday);
        added := true;
      } else {
        added := false;
      }
    }

    /**
     * The intended `add_bday`: refuse exactly a birthday already listed (same date and name)
     * and insert any other after the entries on or before its date.
     */
    method AddBdayCorrected(bday: BDay) returns (added: bool)
      modifies this`bdays
      ensures old(Valid()) ==> Valid()
      ensures added <==> bday !in old(bdays)
      ensures added ==> bdays == Inserted(old(bdays), CountNotAfter(Dates(old(bdays)), bday.date), bday)
      ensures !added ==> bdays == old(bdays)
      ensures NonDecreasing(Dates(old(bdays))) ==> NonDecreasing(Dates(bdays))
    {
      var slot := BdaySlotCorrected(bdays, bday);
      if NonDecreasing(Dates(bdays)) {
        BdaySlotCorrectedSpec(bdays, bday);
      }
      if slot.InsertAt? {
        if NonDecreasing(Dates(bdays)) {
          InsertBdayOrdered(bdays, slot.pos, bday);
        }
        bdays := Inserted(bdays, slot.pos, bday);
        added := true;
      } else {
        added := false;
      }
    }

    /**
     * `remove_meetings`: all-or-nothing validation of the 1-based positions, then the pops
     * in reverse order; the list stays strictly ascending whatever is popped.
     */
    method RemoveMeetings(args: seq<string>) returns (outcome: Outcome)
      modifies this`meetings
      ensures old(Valid()) ==> Valid()
      ensures !AllValid(args, |old(meetings)|) ==> outcome == Returned(false) && meetings == old(meetings)
      ensures AllValid(args, |old(meetings)|) ==>
                var popped := PopEach(old(meetings), PopOrder(args, |old(meetings)|));
                meetings == popped.0 && outcome == (if popped.1 then Returned(true) else Raised(IndexError))
      ensures AllValid(args, |old(meetings)|) && Distinct(Positions(args, |old(meetings)|)) ==>
                outcome == Returned(true)
                && meetings == Without(old(meetings), ZeroBased(Positions(args, |old(meetings)|)))
      ensures StrictlyAscending(old(meetings)) ==> StrictlyAscending(meetings)
    {
      var r;
      outcome, r := RemoveByPositions(meetings, args);
      if AllValid(args, |meetings|) && StrictlyAscending(meetings) {
        PopEachAscending(meetings, PopOrder(args, |meetings|));
      }
      meetings := r;
    }

    /** `remove_weekly_meetings`: the same removal on the weekly list. */
    method RemoveWeeklyMeetings(args: seq<string>) returns (outcome: Outcome)
      modifies this`weeklyMeetings
      ensures old(Valid()) ==> Valid()
      ensures !AllValid(args, |old(weeklyMeetings)|) ==>
                outcome == Returned(false) && weeklyMeetings == old(weeklyMeetings)
      ensures AllValid(args, |old(weeklyMeetings)|) ==>
                var popped := PopEach(old(weeklyMeetings), PopOrder(args, |old(weeklyMeetings)|));
                weeklyMeetings == popped.0 && outcome == (if popped.1 then Returned(true) else Raised(IndexError))
      ensures AllValid(args, |old(weeklyMeetings)|) && Distinct(Positions(args, |old(weeklyMeetings)|)) ==>
                outcome == Returned(true)
                && weeklyMeetings == Without(old(weeklyMeetings), ZeroBased(Positions(args, |old(weeklyMeetings)|)))
    {
      outcome, weeklyMeetings := RemoveByPositions(weeklyMeetings, args);
    }

    /**
     * `remove_bday`: removes the first entry equal in date and name and reports true, or
     * reports false with no change when there is none; date order is kept.
     */
    method RemoveBday(bday: BDay) returns (removed: bool)
      modifies this`bdays
      ensures old(Valid()) ==> Valid()
      ensures removed <==> bday in old(bdays)
      ensures removed ==> bdays == Popped(old(bdays), IndexOf(old(bdays), bday))
                          && multiset(bdays) == multiset(old(bdays)) - multiset{bday}
      ensures !removed ==> bdays == old(bdays)
      ensures NonDecreasing(Dates(old(bdays))) ==> NonDecreasing(Dates(bdays))
    {
      if bday in bdays {
        var index := IndexOf(bdays, bday);
        if NonDecreasing(Dates(bdays)) {
          PoppedBdaysOrdered(bdays, index);
        }
        bdays := Popped(bdays, index);
        removed := true;
      } else {
        removed := false;
      }
    }

    /** `set_agenda_order`: the list is replaced wholesale and the rotation restarts. */
    method SetAgendaOrder(names: seq<string>)
      modifies this`agendaOrder, this`agendaIndex
      ensures old(Valid()) ==> Valid()
      ensures agendaOrder == names && agendaIndex == 0
    {
      agendaOrder := names;
      agendaIndex := 0;
    }

    /** `set_minutes_order`: the same for the minutes rotation. */
    method SetMinutesOrder(names: seq<string>)
      modifies this`minutesOrder, this`minutesIndex
      ensures old(Valid()) ==> Valid()
      ensures minutesOrder == names && minutesIndex == 0
    {
      minutesOrder := names;
      minutesIndex := 0;
    }

    /**
     * `set_agenda_to` as written: a listed name reaches `list.find`, which lists do not have,
     * so the call raises `AttributeError`; an unlisted name returns false. It never succeeds
     * and never changes the index.
     */
    method SetAgendaTo(name: string) returns (outcome: Outcome)
      ensures outcome != Returned(true)
      ensures outcome == Raised(AttributeError) <==> name in agendaOrder
      ensures name !in agendaOrder ==> outcome == Returned(false)
    {
      if name in agendaOrder {
        outcome := Raised(AttributeError);
      } else {
        outcome := Returned(false);
      }
    }

    /** `set_minutes_to` as written: the same fault on the minutes list. */
    method SetMinutesTo(name: string) returns (outcome: Outcome)
      ensures outcome != Returned(true)
      ensures outcome == Raised(AttributeError) <==> name in minutesOrder
      ensures name !in minutesOrder ==> outcome == Returned(false)
    {
      if name in minutesOrder {
        outcome := Raised(AttributeError);
      } else {
        outcome := Returned(false);
      }
    }

    /**
     * The intended `set_agenda_to`: point the rotation at the first occurrence of a listed
     * name; an unlisted name changes nothing.
     */
    method SetAgendaToCorrected(name: string) returns (found: bool)
      modifies this`agendaIndex
      ensures old(Valid()) ==> Valid()
      ensures found <==> name in agendaOrder
      ensures found ==> 0 <= agendaIndex < |agendaOrder| && agendaOrder[agendaIndex] == name
                        && name !in agendaOrder[..agendaIndex]
      ensures !found ==> agendaIndex == old(agendaIndex)
    {
      if name in agendaOrder {
        agendaIndex := IndexOf(agendaOrder, name);
        found := true;
      } else {
        found := false;
      }
    }

    /** The intended `set_minutes_to`. */
    method SetMinutesToCorrected(name: string) returns (found: bool)
      modifies this`minutesIndex
      ensures old(Valid()) ==> Valid()
      ensures found <==> name in minutesOrder
      ensures found ==> 0 <= minutesIndex < |minutesOrder| && minutesOrder[minutesIndex] == name
                        && name !in minutesOrder[..minutesIndex]
      ensures !found ==> minutesIndex == old(minutesIndex)
    {
      if name in minutesOrder {
        minutesIndex := IndexOf(minutesOrder, name);
        found := true;
      } else {
        found := false;
      }
    }

    /** `clear_agenda_order`: no agenda rotation, index 0. */
    method ClearAgendaOrder()
      modifies this`agendaOrder, this`agendaIndex
      ensures old(Valid()) ==> Valid()
      ensures agendaOrder == [] && agendaIndex == 0
    {
      agendaOrder := [];
      agendaIndex := 0;
    }

    /** `clear_minutes_order`: no minutes rotation, index 0. */
    method ClearMinutesOrder()
      modifies this`minutesOrder, this`minutesIndex
      ensures old(Valid()) ==> Valid()
      ensures minutesOrder == [] && minutesIndex == 0
    {
      minutesOrder := [];
      minutesIndex := 0;
    }
  }
}
