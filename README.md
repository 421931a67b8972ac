# Capstone Meeting Bot: a Dafny model of the schedule core

The bot keeps, for each Discord server, a schedule held in a `ServerData` object:

- one-time meetings;
- weekly meetings;
- birthdays;
- two rotating note-taking duty lists, agenda and minutes, each with an index.

Commands typed in the chat parse dates, weekdays and times. They then insert into or remove from the schedule's lists. Replies longer than Discord's 2000-character limit are sent in pieces.

This project models that core of `bot.py` and proves its properties. The modules are:

- `Base`: options, the Python exceptions that can escape (`IndexError`, `AttributeError`, `UnboundLocalError`) and a `Distinct` predicate.
- `Text`: the Python `str` operations the bot uses, over ASCII:
  - `isnumeric`, `int`, `str` and `lower`;
  - `isspace`, `strip`, `split` and `join`.
- `Parsers`: `str_to_date_nums`, the `is_*` weekday predicates, `day_to_num`, `str_to_time_12hr`, `str_to_time_24hr` and `valid_date`.
- `Timeline`: the list algorithms behind `ServerData`:
  - the `while high - low > 1` binary search, as a method proved equal to a recursive definition;
  - the insertion decision of each `add_*` method, as a function of the old list;
  - `BDay.__eq__`, `list.index` and `list.pop`.
- `Removal`: the all-or-nothing removal by 1-based positions, used by `remove_meetings` and `remove_weekly_meetings`.
- `Schedule`: the `ServerData` class.
  - Its fields are updated in place by methods with `modifies` frames.
  - Every method that changes state preserves the invariant `Valid()`: meetings strictly ascending, birthdays in date order.
  - The insertion and removal methods are also tied to the `Timeline`/`Removal` functions. The agenda and minutes methods state their new fields directly.
- `Folders`: `get_server_folder_name`.
- `Handlers`: logic embedded in the command handlers:
  - the weekly "next occurrence" day offset;
  - the weekly add command;
  - the comma-separated name-list cleaning of `set ... order to`.
- `Reply`: the chunking loop of `safe_reply`.

Instants (meeting times, birthday alert times) are integers counting minutes: day number × 1440 + hour × 60 + minute. The code as written uses only their order. The corrected weekly insertion also reads the time of day, as the instant modulo 1440.

- A weekly meeting is a `WeeklyTime(time, weekday)`, because `add_weekly_meeting` compares both the instant and `.weekday()`.
- "Now" is a parameter of type `Now(today, weekday, time)`.
- Python exceptions are results: `Outcome.Raised(error)`.
- Discord's permission checks in `safe_reply` are a parameter: the number of checks that pass before the first refusal. Each send appends to the output sequence.

## Model

| member | source | states |
|---|---|---|
| Timeline.SameBDay | bot.py:32-33 | Two birthdays are equal exactly when both date and name agree. This is value equality of the `BDay` datatype. |
| Timeline.BinarySearch | bot.py:70-85 | The `while high - low > 1` loop from `low = 0`, `high = len - 1` ends with the result of the recursive halving `Narrow`. |
| Timeline.NarrowSound | bot.py:70-85 | On keys in order, the halving never discards a place where the key belongs. `Found` means the key is present. The final `low`/`high` bracket every equal key: all keys before `low` are smaller and all after `high` larger. |
| Timeline.MeetingSlot | bot.py:54-102 | The decision of `add_meeting` as written, as a function of the old list. It never raises, and an insertion position lies within the list. |
| Timeline.MeetingSlotCorrect | bot.py:54-102 | On a strictly ascending list, `add_meeting` never raises. It refuses exactly the keys already present. Any other key is inserted at a position where every earlier key is smaller and every later key larger. |
| Timeline.NeighbourSlot | bot.py:86-100 | The test of the two neighbours left by the search: insert between them, before the lower or after the higher, or refuse an equal key. It never raises, and the position lies between `low` and `high + 1`. |
| Timeline.NeighbourSlotCorrect | bot.py:86-100 | When the search has bracketed every place the key could be, between two adjacent neighbours of a strictly ascending list, the test refuses exactly a present key. Otherwise it inserts where the key fits strictly. |
| Timeline.FindSlot | bot.py:56-100 | The branching and the binary search compute `MeetingSlot`. On a strictly ascending list, the slot is a refusal exactly when the key is present, and an insertion position otherwise, where the key fits strictly. |
| Timeline.InsertAscending | bot.py:88-97 | `list.insert` at a position where the key fits strictly keeps a list strictly ascending. |
| Timeline.Inserted | bot.py:61 | `list.insert(pos, x)`: one more entry, with `x` at `pos`. The multiset gains exactly `x`. |
| Schedule.ServerData.AddMeeting | bot.py:54-102 | Returns true and inserts at `MeetingSlot`'s position, or returns false with the list unchanged. On a strictly ascending list, it returns true exactly when the time was absent. The list stays strictly ascending and gains exactly that time. |
| Timeline.WeeklySlot | bot.py:106-154 | The decision of `add_weekly_meeting` as written: the emptiness test on the one-time list, instants compared against a single entry, weekdays only in the search. An insertion position lies within the list. |
| Timeline.WeeklySlotSingle | bot.py:110-118 | With one weekly entry, whole instants are compared. Only the same instant is refused. Otherwise the entry goes before or after the existing one by instant. |
| Timeline.WeeklySlotByWeekday | bot.py:120-152 | With one-time meetings present and two or more weekly entries in weekday order, a new entry is refused exactly when an entry on the same weekday exists, whatever its time. Otherwise it is inserted in weekday order. |
| Timeline.WeeklyAppendBreaksOrder | bot.py:108-109 | As written: with no one-time meetings, the weekly entry is appended wherever it belongs. [100 on Thursday] plus 50 on Tuesday leaves the list out of order, both by instant and by weekday. |
| Timeline.WeeklyEmptyRaises | bot.py:108-143 | As written: with one-time meetings present and no weekly entry, the final comparison indexes an empty list, which raises `IndexError`. |
| Timeline.WeeklySameWeekdayRefused | bot.py:129-136 | As written: a second Tuesday meeting at another time is refused as a duplicate. |
| Timeline.WeeklySameTimeNextWeekAccepted | bot.py:110-118 | As written: with one weekly entry, Wednesday at 10:00 stored at minute 3480 and the same Wednesday at 10:00 stored a week later (minute 13560) are different instants, so the second is accepted. |
| Timeline.WeeklySlotCorrectedSpec | bot.py:104-154 | Intended insertion, on a list in instant order: it refuses exactly an entry with the same weekday and the same time of day (minutes modulo 1440) as a listed one. Any other entry goes after every entry not later than it and before every later one. The list stays in instant order, and no moment of the week is listed twice if none was. |
| Timeline.WeeklySameTimeNextWeekRefused | bot.py:566 | Intended: the same Wednesday at 10:00 stored a week later than the listed one is refused. |
| Timeline.TimesInserted | bot.py:145-149 | Inserting a weekly entry inserts its instant at the same position of the instant list. |
| Schedule.ServerData.AddWeeklyMeeting | bot.py:106-154 | As written: `Returned(true)` with the entry inserted at `WeeklySlot`'s position, `Returned(false)` for a duplicate, or `Raised(IndexError)` on an empty weekly list. The last two leave the list unchanged. |
| Schedule.ServerData.AddWeeklyMeetingCorrected | bot.py:104-154 | Intended: returns true exactly when no listed entry has the same weekday and the same time of day. An added entry is inserted after the entries not later than it. A refusal changes nothing. A list in instant order stays in order, and one with no moment of the week listed twice keeps that. |
| Timeline.BdaySlot | bot.py:158-213 | The decision of `add_bday` as written. It never raises, and an insertion position lies within the list. |
| Timeline.BdaySlotOrdered | bot.py:158-213 | On a list in date order, `add_bday` never raises. It inserts only where every earlier date is at most, and every later date at least, the new one. It always accepts a date not yet listed. |
| Timeline.FindBdaySlot | bot.py:158-213 | The branching and the binary search on dates compute `BdaySlot`. An empty list gives position 0. On a list in date order, an insertion position keeps the new date between its neighbours, and a date not yet listed always gets one. |
| Timeline.BdaySlotSingle | bot.py:162-173 | With one entry, only the very same birthday (date and name) is refused. A same date with another name is accepted. |
| Timeline.BdayDuplicateAdmitted | bot.py:204-208 | As written: with two entries, an exact copy of the lower one passes the `or` test and is inserted. The list then holds the same birthday twice. |
| Timeline.BdaySameDateRefused | bot.py:188-191 | As written: a new name on a date met at the middle of the search is refused, although no equal birthday is listed. |
| Timeline.CountNotAfterFits | bot.py:156-213 | On dates in order, the number of leading dates not after `d` is a position where `d` fits loosely. |
| Timeline.BdaySlotCorrectedSpec | bot.py:156-213 | Intended insertion: it refuses exactly a birthday already listed (same date and name). Any other is inserted where the list stays in date order. |
| Timeline.InsertBdayOrdered | bot.py:193-208 | Inserting a birthday where its date fits loosely keeps the list in date order. |
| Schedule.ServerData.AddBday | bot.py:158-213 | As written, tied to `BdaySlot`. Into an empty list it always succeeds. With one entry, it fails exactly on an equal birthday. On a list in date order, it keeps date order and accepts every new date. |
| Schedule.ServerData.AddBdayCorrected | bot.py:156-213 | Intended: returns true exactly when the birthday is not listed. It inserts it after the entries on or before its date and keeps date order. A refusal changes nothing. |
| Timeline.IndexOf | bot.py:275 | `list.index`: a position holding the value, with no earlier occurrence. |
| Timeline.Popped | bot.py:276 | `list.pop(i)`: one entry fewer. The multiset loses exactly the entry at `i`. |
| Timeline.PoppedNonDecreasing | bot.py:276 | Popping an entry keeps a list in non-decreasing order. |
| Timeline.PoppedAscending | bot.py:238 | Popping an entry keeps a list strictly ascending. |
| Timeline.PoppedBdaysOrdered | bot.py:276 | Popping a birthday keeps the list in date order. |
| Schedule.ServerData.RemoveBday | bot.py:271-280 | Returns true exactly when an equal birthday is listed. It then removes its first occurrence, so the multiset loses exactly that birthday. Otherwise it returns false with no change. Date order is kept. |
| Removal.Positions | bot.py:220-229 | The numbers the accepted arguments name, one per argument, each between 1 and the list length. |
| Removal.SortDescending | bot.py:235 | `sort(reverse=True)`: the same multiset, largest first. |
| Removal.SortWithin | bot.py:235 | Sorting keeps the numbers within the bounds the input respected. |
| Removal.SortDistinct | bot.py:235 | Distinct positions sort into a strictly descending list. |
| Removal.PopEachDistinct | bot.py:237-238 | Popping strictly descending in-range positions one by one removes exactly the entries at those original positions. The others keep their relative order. |
| Removal.PopEach | bot.py:237-238 | The pops in order, stopping at the first position past the end. They only remove entries: the multiset shrinks. When every pop succeeds, exactly one entry goes per position. |
| Removal.PopAll | bot.py:237-238 | The pop loop computes `PopEach`: the same remaining list, and success exactly when no pop falls past the end. |
| Removal.PopEachAscending | bot.py:237-238 | Whatever positions are popped, a strictly ascending list stays strictly ascending. |
| Removal.RemovalDistinct | bot.py:217-240 | With valid, pairwise different positions, the pops succeed. They remove exactly the entries named. |
| Removal.RemoveByPositions | bot.py:217-240 | If any argument is not all digits or lies outside 1..len, it returns false and the list is untouched. Otherwise the result is the reverse-sorted pops. With distinct positions, it returns true and the list is the old list without exactly those entries, the rest in order. |
| Removal.RepeatedPositionPopsTwice | bot.py:237-238 | As written: positions `1 1` on [10, 20, 30] pop twice and leave [30], although the user named one entry. |
| Removal.RepeatedPositionSorted | bot.py:235 | The reverse sort keeps both copies of a repeated position. |
| Removal.RepeatedPositionNamesOne | bot.py:220-229 | Positions `1 1` name the single 0-based position 0. |
| Removal.RemoveFirstOnly | bot.py:217-240 | Removing only position 1 from [10, 20, 30] leaves [20, 30]. |
| Removal.RepeatedPositionRaises | bot.py:237-238 | As written: positions `1 1` on a one-entry list pop an empty list, which raises `IndexError`. |
| Removal.RemoveAtPositionsSpec | bot.py:215-240 | Intended removal, with repeats dropped before the sort: exactly the entries at the listed positions go, whatever the repeats. |
| Schedule.ServerData.RemoveMeetings | bot.py:217-240 | The `RemoveByPositions` contract on the meeting list. The list also stays strictly ascending, whatever is popped. |
| Schedule.ServerData.RemoveWeeklyMeetings | bot.py:244-267 | The `RemoveByPositions` contract on the weekly list. |
| Schedule.ServerData.Valid | bot.py:37-318 | The invariant every mutating method keeps: one-time meetings strictly ascending and birthdays in date order. It implies that no one-time meeting is listed twice. |
| Schedule.ServerData.constructor | bot.py:38-51 | Every list is empty and both indexes are 0. The invariant holds. |
| Schedule.ServerData.SetAgendaOrder | bot.py:283-286 | The agenda list is replaced wholesale and its index reset to 0. |
| Schedule.ServerData.SetMinutesOrder | bot.py:288-291 | The minutes list is replaced wholesale and its index reset to 0. |
| Schedule.ServerData.ClearAgendaOrder | bot.py:311-314 | The agenda list is emptied and its index reset to 0. |
| Schedule.ServerData.ClearMinutesOrder | bot.py:316-319 | The minutes list is emptied and its index reset to 0. |
| Schedule.ServerData.SetAgendaTo | bot.py:294-299 | As written: it never succeeds and never changes the index. A listed name raises `AttributeError` (lists have no `find`). An unlisted name returns false. |
| Schedule.ServerData.SetMinutesTo | bot.py:303-308 | As written: the same on the minutes list. |
| Schedule.ServerData.SetAgendaToCorrected | bot.py:292-299 | Intended: it returns true exactly when the name is listed. It then points the index at the name's first occurrence. Otherwise nothing changes. |
| Schedule.ServerData.SetMinutesToCorrected | bot.py:301-308 | Intended: the same on the minutes list. |
| Folders.Sanitized | bot.py:446-450 | The sanitized name has length min(len, 128) and contains none of the 22 illegal characters. |
| Folders.SanitizeName | bot.py:444-450 | The cut-then-replace loop computes `Sanitized`. |
| Folders.SanitizedKeepsLegal | bot.py:446-450 | A name already short and legal is kept as it is. |
| Folders.SanitizedIdempotent | bot.py:446-450 | Sanitizing twice is sanitizing once. |
| Folders.ServerFolder | bot.py:452-453 | The folder path is root, `/`, the id's digits, `-` and the sanitised name, so its length is bounded by those parts. `ServerFolderSeparatesIds` below gives the property that matters: distinct ids give distinct folders. |
| Folders.ServerFolderSeparatesIds | bot.py:444-453 | Two servers with different ids never share a data folder, whatever their names. |
| Handlers.DayOffset | bot.py:838-847 | The days added lie in 0..7 and land on the target weekday mod 7. They are 0 exactly for the same weekday at a strictly later time, and 7 exactly for the same weekday at a time not later. |
| Handlers.NextOccurrence | bot.py:833-847 | For a valid time, the stored instant falls at exactly that hour and minute of its day, and that day has the requested weekday. |
| Handlers.NextOccurrenceIsNext | bot.py:833-847 | The stored instant is strictly after now and at most 7 days ahead. No earlier day from today on has the target weekday with the time still ahead. |
| Handlers.SameWeekdayExamples | bot.py:842-847 | Wednesday 10:00 against a clock at Wednesday 10:00 waits 7 days; against 9:00 it is today. |
| Handlers.CommandTime | bot.py:820-826 | A successful time parse of the weekly command is a valid hour and minute. |
| Handlers.AddWeeklyCommand | bot.py:808-857 | As written: a bad day or time is refused. Once both parse, reading the never-assigned local `meeting` raises `UnboundLocalError`, so no list changes. |
| Handlers.AddWeeklyCommandCorrected | bot.py:808-857 | Intended: a bad day or time changes nothing. When both parse, the next occurrence, tagged with its weekday, goes through the corrected insertion. The command succeeds exactly when no listed entry has that weekday and time of day. The new list is the old one with the entry inserted after the entries not later than it, or the old one on a refusal. Instant order and distinct moments of the week are kept. |
| Handlers.SameWeeklyCommandRefused | bot.py:566 | Once an entry for a day and a valid time is stored, the same day and time given again on any later day is refused by the corrected insertion. |
| Handlers.Cleaned | bot.py:1037-1045 | The names kept from the comma-separated pieces, in order: blank pieces dropped and the others stripped. There are never more names than pieces. |
| Handlers.CleanedNames | bot.py:1037-1045 | Every kept name is non-empty and already stripped. |
| Handlers.CleanedHas | bot.py:1037-1045 | Every non-blank piece contributes its stripped form. |
| Handlers.CleanedAppend | bot.py:1037-1045 | Cleaning distributes over concatenation of the pieces. |
| Handlers.NormaliseNames | bot.py:1032-1050 | The backward pop/strip/duplicate walk refuses exactly when two kept names are equal. Otherwise it yields the pieces with blank ones dropped and the rest stripped, in order. |
| Handlers.NameRepeated | bot.py:1046-1050 | A stripped name found elsewhere in the partly cleaned list is a repeat among the kept names. |
| Handlers.SetOrderCommand | bot.py:1026-1063 | A name list with a repeat, or a rotation other than agenda/minutes (case-insensitive), is refused with nothing changed. Otherwise the chosen rotation becomes the cleaned names with index 0, and the other is untouched. |
| Reply.RFind | bot.py:1231 | `rfind(sub, 0, 2000)`: an occurrence lying wholly inside the first 2000 characters with no later one, or -1 when there is none. |
| Reply.SplitIndex | bot.py:1223-1235 | The split index is at least 1 and either at most 2000 or the hard cut. |
| Reply.ChooseSplit | bot.py:1223-1235 | The separator loop computes `SplitIndex`. |
| Reply.HardCutWhenNoBreak | bot.py:1225-1235 | The hard cut is taken exactly when the first 2000 characters hold no line break and no space. |
| Reply.Pieces | bot.py:1219-1246 | The messages `safe_reply` sends, in order. There is at least one. There is exactly one when the reply already fits in 2000 characters. |
| Reply.PiecesConcat | bot.py:1219-1246 | The pieces concatenate back to the reply. |
| Reply.PiecesWithin | bot.py:1219-1246 | Every piece fits in 2000 characters, except a hard-cut piece of exactly `hardCut` characters. |
| Reply.HardCutOverLimit | bot.py:1227-1228 | As written: with no line break or space in reach, the first piece has 2001 characters, one over the limit. |
| Reply.HardCutExample | bot.py:1227-1228 | As written: 2001 letters go out as one 2001-character message. |
| Reply.PiecesFitCorrected | bot.py:1219-1246 | Intended, with a hard cut of 2000: every piece fits, and the pieces still concatenate to the reply. |
| Reply.SafeReply | bot.py:1213-1252 | A refused first check reacts with a cross and sends nothing. Otherwise the pieces are sent in order up to the first refused check, and all of them, concatenating to the reply, when none is refused. |
| Reply.SafeReplyAsWritten | bot.py:1213-1252 | `SafeReply` with the hard cut at 2001. |
| Parsers.StrToDateNums | bot.py:1258-1290 | With exactly one of `/` or `-` in the token, it succeeds exactly when the token splits into 2 or 3 parts that are all non-empty digit strings. The year is `None` exactly for 2 parts. Otherwise it is the first part's value. The month and day are the values of the last two parts. A token with both separators or neither is refused. |
| Parsers.MonthDayAccepted | bot.py:1276-1279 | Any two non-empty digit strings joined by `/` or `-` are accepted, with no year and with their values as month and day. This includes leading zeros, as in "03/07". |
| Parsers.FullDateAccepted | bot.py:1281-1285 | Any three non-empty digit strings joined by `/` or `-` are accepted as year, month and day with their values, as in "2024-01-05". |
| Parsers.MonthDayRoundTrip | bot.py:1258-1290 | "M/D" or "M-D" rendered from numbers parses back to (None, M, D). |
| Parsers.FullDateRoundTrip | bot.py:1258-1290 | "Y/M/D" or "Y-M-D" parses back to (Y, M, D). |
| Parsers.IsMonday | bot.py:1294-1295 | The lower-cased token is one of the aliases of Monday. Every alias is non-empty and a prefix of "mondays". |
| Parsers.IsTuesday | bot.py:1297-1298 | The lower-cased token is one of the aliases of Tuesday. Every alias is non-empty and a prefix of "tuesdays". |
| Parsers.IsWednesday | bot.py:1300-1301 | The lower-cased token is one of the aliases of Wednesday. Every alias is non-empty and a prefix of "wednesdays". |
| Parsers.IsThursday | bot.py:1303-1304 | The lower-cased token is one of the aliases of Thursday. Every alias is non-empty and a prefix of "thursdays". |
| Parsers.IsFriday | bot.py:1306-1307 | The lower-cased token is one of the aliases of Friday. Every alias is non-empty and a prefix of "fridays". |
| Parsers.IsSaturday | bot.py:1309-1310 | The lower-cased token is one of the aliases of Saturday. Every alias is non-empty and a prefix of "saturdays". |
| Parsers.IsSunday | bot.py:1312-1313 | The lower-cased token is one of the aliases of Sunday. Every alias is non-empty and a prefix of "sundays". |
| Parsers.DayToNum | bot.py:1316-1332 | A result lies in 0..6 and the token is an alias of that weekday. `None` means the token is an alias of no weekday. |
| Parsers.AliasesDisjoint | bot.py:1294-1313 | No alias names two weekdays. |
| Parsers.DayToNumExact | bot.py:1316-1332 | Every alias of weekday n, in any letter case, gives n. |
| Parsers.DayToNumCaseInsensitive | bot.py:1294-1332 | A token and its lower-case form give the same weekday. |
| Parsers.StrToTime24 | bot.py:1380-1408 | A success is an hour 0..23 and a minute 0..59. The hour is the value of the first `:`-separated part. The minute is 0 when there is no colon and the second part's value otherwise. Anything after a second colon is ignored. |
| Parsers.Time24HourAccepted | bot.py:1384-1392 | Any digit string naming an hour 0..23 is accepted alone, at minute 0. |
| Parsers.Time24Accepted | bot.py:1397-1405 | Any two digit strings naming an hour 0..23 and a minute 0..59 are accepted as "H:M" with those values, as in "10:05". |
| Parsers.Time24RoundTrip | bot.py:1380-1408 | Every valid time rendered as "H:M" parses back to itself. |
| Parsers.StrToTime12 | bot.py:1335-1377 | A success is a valid time, before noon for "am" and from noon on for "pm". The first part is an hour 1..12 converted by the marker. The minute is 0 or the second part's value. |
| Parsers.Time12Accepted | bot.py:1359-1377 | Any two digit strings naming an hour 1..12 and a minute 0..59 are accepted as "H:M", with the hour converted by the marker. |
| Parsers.Time12RoundTrip | bot.py:1335-1377 | Every valid time is the parse of its own 12-hour rendering with the matching marker. |
| Parsers.Time12Conversion | bot.py:1340-1354 | 12 am is hour 0, 12 pm is hour 12, and H pm is H + 12 otherwise. |
| Parsers.ValidDate | bot.py:1411-1428 | True exactly when 1 <= year <= 9999, 1 <= month <= 12 and the day is 1..31, 30 or 29 by month. February allows 29 in every year. |
| Text.ParseShow | bot.py:452 | `int(str(n)) == n` for the decimal rendering used in the folder path. |
| Text.StripIdempotent | bot.py:1044 | Stripping a stripped name changes nothing. |
| Text.JoinSplit | bot.py:1035 | Joining the pieces of a split gives back the string. |
| Text.SplitJoin | bot.py:1261-1266 | Splitting a join of separator-free pieces gives back the pieces. |

## Left out

- Discord I/O is not modelled: the client, event dispatch, reactions, `message.reply` and permission objects. `safe_reply`'s permission checks are a count parameter, and a send is an append to the output.
- `find_first_message_channel`, the alert channel, `next_meeting`/`next_weekly_meeting` and the `server` field of `ServerData` are not modelled. They hold live Discord objects.
- The file system is not modelled: token file, `startup_server`'s empty files, and `shutil.rmtree`. Only the folder path string is modelled.
- Calendars, time zones and `datetime.now()` are not modelled. Instants are integers, and "now" is a parameter.
  - The one-time and birthday handlers' construction of `datetime` values from parsed numbers is left out.
  - So is the one-time handler's treatment of a past date: with a year given it is refused (bot.py:796-798), and without one it is moved to the next year (bot.py:786-787).
  - So is the non-leap-year February 29 failure of the `datetime` constructor.
- The reply texts, `BDay.__str__` and the `strftime` formats are not modelled. They are display strings.
- Unicode is not modelled. `isnumeric`, `isspace`, `strip` and `lower` are modelled on ASCII only.
- The `set ... to <name>` handler is not modelled. It only rebuilds the name from the tokens and calls `set_agenda_to`/`set_minutes_to`, which are modelled.
- The handler's word tokenizing is not modelled. `NormaliseNames` takes the string `' '.join(command[4:])`.
- Schedule.ServerData.AddWeeklyMeeting: no weekly-order invariant is stated, because as written the list can leave every order (`WeeklyAppendBreaksOrder`).
- Parsers.DayToNum: its `None` case is stated one way (no alias matches), and the converse comes from `DayToNumExact`.
- Schedule.ServerData.Valid: it covers meetings and birthdays only, for the reason given for `AddWeeklyMeeting`.
- Reply.SafeReply: an empty final piece is sent whenever the part still to be sent has exactly 2001 characters and no break within reach, as for a 2001-letter reply or a 4002-letter one. Discord's handling of an empty message is not modelled.

## Findings

| source | as written | input that shows it | evidently intended | confidence | as-written member | corrected member |
|---|---|---|---|---|---|---|
| bot.py:108 | `add_weekly_meeting` tests `self.meetings` for emptiness and appends the weekly entry | no one-time meetings; weekly [Thu at 100] plus Tue at 50 | test the weekly list and insert in order | high; not executed | Timeline.WeeklyAppendBreaksOrder | Timeline.WeeklySlotCorrectedSpec |
| bot.py:108-143 | with one-time meetings and no weekly entry, `weekly_meetings[low]` indexes an empty list | one meeting, empty weekly list | an empty weekly list takes the entry | high; not executed | Timeline.WeeklyEmptyRaises | Timeline.WeeklySlotCorrectedSpec |
| bot.py:129-152 | two or more weekly entries are compared by weekday only | [Mon at 600, Tue at 2000] plus Tue at 2500 | compare weekday and time of day | medium; not executed | Timeline.WeeklySameWeekdayRefused | Schedule.ServerData.AddWeeklyMeetingCorrected |
| bot.py:110-118 | one weekly entry is compared by instant, but stored instants are never moved to the next week | [Wed at 3480] plus Wed at 13560, the same weekday and time stored a week later | compare weekday and time of day | medium; not executed | Timeline.WeeklySameTimeNextWeekAccepted | Timeline.WeeklySlotCorrectedSpec |
| bot.py:852 | the handler passes `meeting`, never assigned on this path, instead of `meeting_time` | `add weekly meeting on wed at 10` | store `meeting_time` | high; not executed | Handlers.AddWeeklyCommand | Handlers.AddWeeklyCommandCorrected |
| bot.py:204-208 | the `or` admits an exact duplicate of one neighbour | [5 Sam, 7 Alex] plus 5 Sam | refuse a birthday already listed | high; not executed | Timeline.BdayDuplicateAdmitted | Timeline.BdaySlotCorrectedSpec |
| bot.py:188-191 | a date equal at the middle of the search is refused whatever the name | [1 Kim, 5 Sam, 9 Lee] plus 5 Alex | accept another name on the same date | high; not executed | Timeline.BdaySameDateRefused | Schedule.ServerData.AddBdayCorrected |
| bot.py:296 | `set_agenda_to` calls `list.find`, which does not exist | a listed agenda name | index of the first occurrence | high; not executed | Schedule.ServerData.SetAgendaTo | Schedule.ServerData.SetAgendaToCorrected |
| bot.py:305 | `set_minutes_to` calls `list.find` | a listed minutes name | index of the first occurrence | high; not executed | Schedule.ServerData.SetMinutesTo | Schedule.ServerData.SetMinutesToCorrected |
| bot.py:235-238 | a repeated position is popped twice | `remove meetings 1 1` on three meetings | remove each named entry once | medium; not executed | Removal.RepeatedPositionPopsTwice | Removal.RemoveAtPositionsSpec |
| bot.py:1228 | with no separator the cut is at 2001 characters | 2001 letters | cut at 2000 | high; not executed | Reply.HardCutExample | Reply.PiecesFitCorrected |
