/**
 * The list algorithms behind `ServerData` (bot.py, lines 52-280): the binary-search
 * insertion shared by `add_meeting`, `add_weekly_meeting` and `add_bday`, removal by
 * 1-based position, and removal of the first equal entry.
 *
 * Instants are ints (only their order matters); a weekly entry is its next occurrence
 * together with that occurrence's weekday, because the weekly insertion compares both.
 */
module Timeline {
  import opened Base
  import opened Text

  predicate StrictlyAscending(s: seq<int>) {
    forall i, j :: 0 <= i < j < |s| ==> s[i] < s[j]
  }

  predicate NonDecreasing(s: seq<int>) {
    forall i, j :: 0 <= i < j < |s| ==> s[i] <= s[j]
  }

  /** `list.insert(pos, x)`. */
  function Inserted<T>(s: seq<T>, pos: nat, x: T): (r: seq<T>)
    requires pos <= |s|
    ensures |r| == |s| + 1 && r[pos] == x
    ensures multiset(r) == multiset(s) + multiset{x}
  {
    assert s == s[..pos] + s[pos..];
    s[..pos] + [x] + s[pos..]
  }

  /** Everything before `pos` is below `k` and everything from `pos` on is above it. */
  predicate FitsStrictly(keys: seq<int>, pos: nat, k: int) {
    pos <= |keys|
    && (forall i :: 0 <= i < pos ==> keys[i] < k)
    && (forall i :: pos <= i < |keys| ==> k < keys[i])
  }

  /** Everything before `pos` is at most `k` and everything from `pos` on is at least `k`. */
  predicate FitsLoosely(keys: seq<int>, pos: nat, k: int) {
    pos <= |keys|
    && (forall i :: 0 <= i < pos ==> keys[i] <= k)
    && (forall i :: pos <= i < |keys| ==> k <= keys[i])
  }

  /** Inserting where a key fits strictly keeps a list strictly ascending. */
  lemma InsertAscending(keys: seq<int>, pos: nat, k: int)
    requires StrictlyAscending(keys) && FitsStrictly(keys, pos, k)
    ensures StrictlyAscending(Inserted(keys, pos, k))
  {
    var r := Inserted(keys, pos, k);
    forall i, j | 0 <= i < j < |r| ensures r[i] < r[j] {
      if j < pos {
        assert r[i] == keys[i] && r[j] == keys[j];
      } else if j == pos {
        assert r[i] == keys[i];
      } else if i > pos {
        assert r[i] == keys[i - 1] && r[j] == keys[j - 1];
      } else if i == pos {
        assert r[j] == keys[j - 1];
      } else {
        assert r[i] == keys[i] && r[j] == keys[j - 1];
      }
    }
  }

  /** Inserting where a key fits loosely keeps a list non-decreasing. */
  lemma InsertNonDecreasing(keys: seq<int>, pos: nat, k: int)
    requires NonDecreasing(keys) && FitsLoosely(keys, pos, k)
    ensures NonDecreasing(Inserted(keys, pos, k))
  {
    var r := Inserted(keys, pos, k);
    forall i, j | 0 <= i < j < |r| ensures r[i] <= r[j] {
      if j < pos {
        assert r[i] == keys[i] && r[j] == keys[j];
      } else if j == pos {
        assert r[i] == keys[i];
      } else if i > pos {
        assert r[i] == keys[i - 1] && r[j] == keys[j - 1];
      } else if i == pos {
        assert r[j] == keys[j - 1];
      } else {
        assert r[i] == keys[i] && r[j] == keys[j - 1];
      }
    }
  }

  /** Where the binary search of an insertion stopped. */
  datatype Probe = Found | Narrowed(low: nat, high: nat)

  /**
   * The `while high - low > 1` loop of the binary insertions, one halving per call:
   * `Found` when the middle key equals `k`, otherwise the final `low` and `high`.
   */
  function Narrow(keys: seq<int>, k: int, low: nat, high: nat): (r: Probe)
    requires low <= high < |keys|
    ensures r.Narrowed? ==> low <= r.low <= r.high <= high && r.high - r.low <= 1
    decreases high - low
  {
    if high - low > 1 then
      var mid := (high - low) / 2 + low;
      if k < keys[mid] then Narrow(keys, k, low, mid - 1)
      else if k > keys[mid] then Narrow(keys, k, mid + 1, high)
      else Found
    else Narrowed(low, high)
  }

  /**
   * On ordered keys the halving never discards a place where `k` belongs: `Found` means
   * `k` is present, and the final `low`/`high` bracket every key equal to `k`.
   */
  lemma {:induction false} NarrowSound(keys: seq<int>, k: int, low: nat, high: nat)
    requires NonDecreasing(keys) && low <= high < |keys|
    requires forall i :: 0 <= i < low ==> keys[i] < k
    requires forall i :: high < i < |keys| ==> k < keys[i]
    ensures Narrow(keys, k, low, high).Found? ==> k in keys
    ensures var r := Narrow(keys, k, low, high);
            r.Narrowed? ==> (forall i :: 0 <= i < r.low ==> keys[i] < k)
                            && (forall i :: r.high < i < |keys| ==> k < keys[i])
    decreases high - low
  {
    if high - low > 1 {
      var mid := (high - low) / 2 + low;
      if k < keys[mid] {
        AboveFrom(keys, k, mid, high);
        NarrowSound(keys, k, low, mid - 1);
      } else if k > keys[mid] {
        BelowUpTo(keys, k, low, mid);
        NarrowSound(keys, k, mid + 1, high);
      } else {
        assert keys[mid] == k;
      }
    }
  }

  /** On ordered keys, a key below `keys[mid]` is below everything from `mid` on. */
  lemma AboveFrom(keys: seq<int>, k: int, mid: nat, high: nat)
    requires NonDecreasing(keys) && mid <= high < |keys| && k < keys[mid]
    requires forall i :: high < i < |keys| ==> k < keys[i]
    ensures forall i :: mid <= i < |keys| ==> k < keys[i]
  {
    forall i | mid <= i <= high
      ensures k < keys[i]
    {
      assert keys[mid] <= keys[i];
    }
  }

  /** On ordered keys, a key above `keys[mid]` is above everything up to `mid`. */
  lemma BelowUpTo(keys: seq<int>, k: int, low: nat, mid: nat)
    requires NonDecreasing(keys) && low <= mid < |keys| && keys[mid] < k
    requires forall i :: 0 <= i < low ==> keys[i] < k
    ensures forall i :: 0 <= i <= mid ==> keys[i] < k
  {
    forall i | low <= i <= mid
      ensures keys[i] < k
    {
      assert keys[i] <= keys[mid];
    }
  }

  /** The binary search loop itself, on `low = 0`, `high = len - 1`. */
  method BinarySearch(keys: seq<int>, k: int) returns (r: Probe)
    requires |keys| >= 1
    ensures r == Narrow(keys, k, 0, |keys| - 1)
  {
    var low, high := 0, |keys| - 1;
    while high - low > 1
      invariant 0 <= low <= high < |keys|
      invariant Narrow(keys, k, low, high) == Narrow(keys, k, 0, |keys| - 1)
      decreases high - low
    {
      var mid := (high - low) / 2 + low;
      if k < keys[mid] {
        high := mid - 1;
      } else if k > keys[mid] {
        low := mid + 1;
      } else {
        return Found;
      }
    }
    return Narrowed(low, high);
  }

  /** What an insertion decides: insert at a position, refuse a duplicate, or raise `IndexError`. */
  datatype Slot = InsertAt(pos: nat) | Duplicate | OutOfRange

  /**
   * The decision of `add_meeting`: append to an empty list, compare with the only entry,
   * or binary-search and test the two remaining neighbours.
   */
  function MeetingSlot(keys: seq<int>, k: int): (r: Slot)
    ensures r != OutOfRange
    ensures r.InsertAt? ==> r.pos <= |keys|
  {
    if |keys| == 0 then InsertAt(0)
    else if |keys| == 1 then
      if k < keys[0] then InsertAt(0) else if k > keys[0] then InsertAt(1) else Duplicate
    else
      match Narrow(keys, k, 0, |keys| - 1)
      case Found => Duplicate
      case Narrowed(low, high) => NeighbourSlot(keys, k, low, high)
  }

  /** The test of the two neighbours the search leaves: between, below, above, or equal. */
  function NeighbourSlot(keys: seq<int>, k: int, low: nat, high: nat): (r: Slot)
    requires low <= high < |keys|
    ensures r != OutOfRange
    ensures r.InsertAt? ==> low <= r.pos <= high + 1
  {
    if k > keys[low] && k < keys[high] then InsertAt(high)
    else if k < keys[low] then InsertAt(low)
    else if k > keys[high] then InsertAt(high + 1)
    else Duplicate
  }

  /**
   * On a strictly ascending list `add_meeting` refuses exactly the keys already present and
   * inserts every other key where the list stays strictly ascending.
   */
  lemma MeetingSlotCorrect(keys: seq<int>, k: int)
    requires StrictlyAscending(keys)
    ensures MeetingSlot(keys, k) != OutOfRange
    ensures MeetingSlot(keys, k) == Duplicate <==> k in keys
    ensures MeetingSlot(keys, k).InsertAt? ==> FitsStrictly(keys, MeetingSlot(keys, k).pos, k)
  {
    if |keys| == 1 {
      assert k in keys <==> k == keys[0];
    } else if |keys| >= 2 {
      MeetingSearchCorrect(keys, k);
    }
  }

  /** The search branch of `MeetingSlotCorrect`, for two or more keys. */
  lemma MeetingSearchCorrect(keys: seq<int>, k: int)
    requires StrictlyAscending(keys) && |keys| >= 2
    ensures MeetingSlot(keys, k) == Duplicate <==> k in keys
    ensures MeetingSlot(keys, k).InsertAt? ==> FitsStrictly(keys, MeetingSlot(keys, k).pos, k)
  {
    NarrowSound(keys, k, 0, |keys| - 1);
    match Narrow(keys, k, 0, |keys| - 1)
    case Found =>
    case Narrowed(low, high) =>
      NeighbourSlotCorrect(keys, k, low, high);
  }

  /**
   * Between two adjacent neighbours that bracket every place `k` could be, the neighbour
   * test refuses exactly a present key and otherwise inserts where `k` fits strictly.
   */
  lemma NeighbourSlotCorrect(keys: seq<int>, k: int, low: nat, high: nat)
    requires StrictlyAscending(keys) && low <= high < |keys| && high - low <= 1
    requires forall i :: 0 <= i < low ==> keys[i] < k
    requires forall i :: high < i < |keys| ==> k < keys[i]
    ensures NeighbourSlot(keys, k, low, high) == Duplicate <==> k in keys
    ensures NeighbourSlot(keys, k, low, high).InsertAt? ==> FitsStrictly(keys, NeighbourSlot(keys, k, low, high).pos, k)
  {
    var slot := NeighbourSlot(keys, k, low, high);
    if slot.InsertAt? {
      assert FitsStrictly(keys, slot.pos, k);
      FitsStrictlyAbsent(keys, slot.pos, k);
    } else {
      assert k == keys[low] || k == keys[high];
    }
  }

  /** A key that fits strictly somewhere is not in the list. */
  lemma FitsStrictlyAbsent(keys: seq<int>, pos: nat, k: int)
    requires FitsStrictly(keys, pos, k)
    ensures k !in keys
  {
    forall i | 0 <= i < |keys|
      ensures keys[i] != k
    {
      if i < pos {
        assert keys[i] < k;
      }
    }
  }

  /** `add_meeting`'s decision as a loop, as the source runs it. */
  method FindSlot(keys: seq<int>, k: int) returns (slot: Slot)
    ensures slot == MeetingSlot(keys, k)
    ensures StrictlyAscending(keys) ==> (slot == Duplicate <==> k in keys)
    ensures StrictlyAscending(keys) && slot.InsertAt? ==> FitsStrictly(keys, slot.pos, k)
  {
    if StrictlyAscending(keys) {
      MeetingSlotCorrect(keys, k);
    }
    if |keys| == 0 {
      slot := InsertAt(0);
    } else if |keys| == 1 {
      if k < keys[0] {
        slot := InsertAt(0);
      } else if k > keys[0] {
        slot := InsertAt(1);
      } else {
        slot := Duplicate;
      }
    } else {
      var probe := BinarySearch(keys, k);
      match probe
      case Found =>
        slot := Duplicate;
      case Narrowed(low, high) =>
        if k > keys[low] && k < keys[high] {
          slot := InsertAt(high);
        } else if k < keys[low] {
          slot := InsertAt(low);
        } else if k > keys[high] {
          slot := InsertAt(high + 1);
        } else {
          slot := Duplicate;
        }
    }
  }

  /** A weekly meeting: its next occurrence and that occurrence's weekday (0 is Monday). */
  datatype WeeklyTime = WeeklyTime(time: int, weekday: int)

  function Times(w: seq<WeeklyTime>): seq<int> {
    seq(|w|, i requires 0 <= i < |w| => w[i].time)
  }

  function Weekdays(w: seq<WeeklyTime>): seq<int> {
    seq(|w|, i requires 0 <= i < |w| => w[i].weekday)
  }

  /**
   * The decision of `add_weekly_meeting` as written: it tests the one-time meeting list for
   * emptiness, compares whole instants against a single entry, and compares only weekdays
   * in the binary search over two or more entries.
   */
  function WeeklySlot(meetingsEmpty: bool, w: seq<WeeklyTime>, t: WeeklyTime): (r: Slot)
    ensures r.InsertAt? ==> r.pos <= |w|
  {
    if meetingsEmpty then InsertAt(|w|)
    else if |w| == 1 then MeetingSlot(Times(w), t.time)
    else if |w| == 0 then OutOfRange
    else MeetingSlot(Weekdays(w), t.weekday)
  }

  /**
   * With one-time meetings present and two or more weekly entries in weekday order, a new
   * entry is refused exactly when some entry falls on the same weekday, whatever its time.
   */
  lemma WeeklySlotByWeekday(w: seq<WeeklyTime>, t: WeeklyTime)
    requires |w| >= 2 && StrictlyAscending(Weekdays(w))
    ensures WeeklySlot(false, w, t) == Duplicate <==> exists i :: 0 <= i < |w| && w[i].weekday == t.weekday
    ensures WeeklySlot(false, w, t).InsertAt? ==> FitsStrictly(Weekdays(w), WeeklySlot(false, w, t).pos, t.weekday)
  {
    MeetingSlotCorrect(Weekdays(w), t.weekday);
    if exists i :: 0 <= i < |w| && w[i].weekday == t.weekday {
      var i :| 0 <= i < |w| && w[i].weekday == t.weekday;
      assert Weekdays(w)[i] == t.weekday;
    }
  }

  /** With one weekly entry, whole instants are compared: only the same instant is refused. */
  lemma WeeklySlotSingle(w: seq<WeeklyTime>, t: WeeklyTime)
    requires |w| == 1
    ensures WeeklySlot(false, w, t) == Duplicate <==> w[0].time == t.time
    ensures WeeklySlot(false, w, t) == InsertAt(if t.time < w[0].time then 0 else 1) || w[0].time == t.time
  {
    assert Times(w)[0] == w[0].time;
  }

  /** Finding: with no one-time meetings, a weekly entry is appended wherever it belongs. */
  lemma WeeklyAppendBreaksOrder()
    ensures var w := [WeeklyTime(100, 3)];
            var t := WeeklyTime(50, 1);
            WeeklySlot(true, w, t) == InsertAt(1)
            && !StrictlyAscending(Times(Inserted(w, 1, t)))
            && !StrictlyAscending(Weekdays(Inserted(w, 1, t)))
  {
    var w := [WeeklyTime(100, 3)];
    var t := WeeklyTime(50, 1);
    var r := Inserted(w, 1, t);
    assert r == [WeeklyTime(100, 3), WeeklyTime(50, 1)];
    assert Times(r)[0] == 100 && Times(r)[1] == 50;
    assert Weekdays(r)[0] == 3 && Weekdays(r)[1] == 1;
  }

  /** Finding: with one-time meetings but no weekly entry, the insertion raises `IndexError`. */
  lemma WeeklyEmptyRaises(t: WeeklyTime)
    ensures WeeklySlot(false, [], t) == OutOfRange
  {
  }

  /** Finding: a second meeting on a weekday already used is refused although its time differs. */
  lemma WeeklySameWeekdayRefused()
    ensures var w := [WeeklyTime(600, 0), WeeklyTime(2000, 1)];
            WeeklySlot(false, w, WeeklyTime(2500, 1)) == Duplicate
  {
    var w := [WeeklyTime(600, 0), WeeklyTime(2000, 1)];
    WeeklySlotByWeekday(w, WeeklyTime(2500, 1));
    assert Weekdays(w)[1] == 1;
  }

  /** Finding: with one weekly entry, the same weekday and time stored a week later is accepted. */
  lemma WeeklySameTimeNextWeekAccepted()
    ensures WeeklySlot(false, [WeeklyTime(3480, 2)], WeeklyTime(13560, 2)) == InsertAt(1)
  {
    WeeklySlotSingle([WeeklyTime(3480, 2)], WeeklyTime(13560, 2));
  }

  const MinutesPerDay := 1440

  /** Two weekly entries recur at the same moment of the week: same weekday, same time of day. */
  predicate SameTimeOfWeek(a: WeeklyTime, b: WeeklyTime) {
    a.weekday == b.weekday && a.time % MinutesPerDay == b.time % MinutesPerDay
  }

  /** Some listed entry recurs at the same moment of the week as `t`. */
  predicate WeeklyTaken(w: seq<WeeklyTime>, t: WeeklyTime) {
    exists i :: 0 <= i < |w| && SameTimeOfWeek(w[i], t)
  }

  /** No two entries recur at the same moment of the week. */
  predicate WeeklyDistinct(w: seq<WeeklyTime>) {
    forall i, j :: 0 <= i < j < |w| ==> !SameTimeOfWeek(w[i], w[j])
  }

  /**
   * The intended weekly insertion: refuse an entry on the same weekday at the same time of
   * day as a listed one, and insert any other after the entries not later than it.
   */
  function WeeklySlotCorrected(w: seq<WeeklyTime>, t: WeeklyTime): (r: Slot)
    ensures r != OutOfRange
    ensures r.InsertAt? ==> r.pos <= |w|
  {
    if WeeklyTaken(w, t) then Duplicate else InsertAt(CountNotAfter(Times(w), t.time))
  }

  /**
   * The corrected weekly insertion refuses exactly an entry whose weekday and time of day are
   * already listed, places any other after the entries not later and before the later ones,
   * and keeps the list in instant order with no moment of the week listed twice.
   */
  lemma WeeklySlotCorrectedSpec(w: seq<WeeklyTime>, t: WeeklyTime)
    requires NonDecreasing(Times(w))
    ensures WeeklySlotCorrected(w, t) == Duplicate <==>
              exists i :: 0 <= i < |w| && w[i].weekday == t.weekday && w[i].time % 1440 == t.time % 1440
    ensures var slot := WeeklySlotCorrected(w, t);
            slot.InsertAt? ==>
              (forall i :: 0 <= i < slot.pos ==> w[i].time <= t.time)
              && (forall i :: slot.pos <= i < |w| ==> t.time < w[i].time)
              && NonDecreasing(Times(Inserted(w, slot.pos, t)))
              && (WeeklyDistinct(w) ==> WeeklyDistinct(Inserted(w, slot.pos, t)))
  {
    if !WeeklyTaken(w, t) {
      var pos := CountNotAfter(Times(w), t.time);
      CountNotAfterFits(Times(w), t.time);
      forall i | 0 <= i < |w| ensures Times(w)[i] == w[i].time {
      }
      assert forall i :: 0 <= i < pos ==> w[i].time <= t.time;
      assert forall i :: pos <= i < |w| ==> t.time < w[i].time;
      InsertNonDecreasing(Times(w), pos, t.time);
      TimesInserted(w, pos, t);
      if WeeklyDistinct(w) {
        InsertWeeklyDistinct(w, pos, t);
      }
    }
  }

  /** Inserting an entry whose moment of the week is free keeps the moments distinct. */
  lemma InsertWeeklyDistinct(w: seq<WeeklyTime>, pos: nat, t: WeeklyTime)
    requires pos <= |w| && WeeklyDistinct(w) && !WeeklyTaken(w, t)
    ensures WeeklyDistinct(Inserted(w, pos, t))
  {
    var r := Inserted(w, pos, t);
    forall i, j | 0 <= i < j < |r| ensures !SameTimeOfWeek(r[i], r[j]) {
      if j < pos {
        assert r[i] == w[i] && r[j] == w[j];
      } else if j == pos {
        assert r[i] == w[i] && !SameTimeOfWeek(w[i], t);
      } else if i > pos {
        assert r[i] == w[i - 1] && r[j] == w[j - 1];
      } else if i == pos {
        assert r[j] == w[j - 1] && !SameTimeOfWeek(w[j - 1], t);
      } else {
        assert r[i] == w[i] && r[j] == w[j - 1];
      }
    }
  }

  /** The corrected insertion refuses the same weekday and time of day stored a week later. */
  lemma WeeklySameTimeNextWeekRefused()
    ensures WeeklySlotCorrected([WeeklyTime(3480, 2)], WeeklyTime(13560, 2)) == Duplicate
  {
    assert SameTimeOfWeek([WeeklyTime(3480, 2)][0], WeeklyTime(13560, 2));
  }

  lemma TimesInserted(w: seq<WeeklyTime>, pos: nat, t: WeeklyTime)
    requires pos <= |w|
    ensures Times(Inserted(w, pos, t)) == Inserted(Times(w), pos, t.time)
  {
  }

  /** A birthday: the instant of its next alert and whose birthday it is. */
  datatype BDay = BDay(date: int, name: string)

  /** `BDay.__eq__`: same instant and same name. */
  predicate SameBDay(a: BDay, b: BDay)
    ensures SameBDay(a, b) <==> a == b
  {
    a.date == b.date && a.name == b.name
  }

  function Dates(s: seq<BDay>): seq<int> {
    seq(|s|, i requires 0 <= i < |s| => s[i].date)
  }

  /**
   * The decision of `add_bday` as written: like `add_meeting` on the dates, except that a
   * same-date entry with another name is appended (one entry) or inserted before the
   * higher neighbour (two or more entries).
   */
  function BdaySlot(s: seq<BDay>, b: BDay): (r: Slot)
    ensures r != OutOfRange
    ensures r.InsertAt? ==> r.pos <= |s|
  {
    if |s| == 0 then InsertAt(0)
    else if |s| == 1 then
      if b.date < s[0].date then InsertAt(0)
      else if b.date > s[0].date then InsertAt(1)
      else if b.name != s[0].name then InsertAt(1)
      else Duplicate
    else
      match Narrow(Dates(s), b.date, 0, |s| - 1)
      case Found => Duplicate
      case Narrowed(low, high) =>
        if b.date > s[low].date && b.date < s[high].date then InsertAt(high)
        else if b.date < s[low].date then InsertAt(low)
        else if b.date > s[high].date then InsertAt(high + 1)
        else if b.name != s[low].name || b.name != s[high].name then InsertAt(high)
        else Duplicate
  }

  /**
   * On a list in date order `add_bday` (which never raises) inserts only where the list stays
   * in date order, and accepts every birthday whose date is not yet listed.
   */
  lemma BdaySlotOrdered(s: seq<BDay>, b: BDay)
    requires NonDecreasing(Dates(s))
    ensures BdaySlot(s, b).InsertAt? ==> FitsLoosely(Dates(s), BdaySlot(s, b).pos, b.date)
    ensures (forall i :: 0 <= i < |s| ==> s[i].date != b.date) ==> BdaySlot(s, b).InsertAt?
  {
    if |s| == 1 {
      assert Dates(s)[0] == s[0].date;
    } else if |s| >= 2 {
      BdaySearch(s, b);
    }
  }

  /** What the halving over the dates tells about the birthday list. */
  lemma BdaySearch(s: seq<BDay>, b: BDay)
    requires |s| >= 2 && NonDecreasing(Dates(s))
    ensures var p := Narrow(Dates(s), b.date, 0, |s| - 1);
            (p.Found? ==> exists i :: 0 <= i < |s| && s[i].date == b.date)
            && (p.Narrowed? ==> (forall i :: 0 <= i < p.low ==> Dates(s)[i] < b.date)
                                && (forall i :: p.high < i < |s| ==> b.date < Dates(s)[i])
                                && Dates(s)[p.low] == s[p.low].date && Dates(s)[p.high] == s[p.high].date)
  {
    var keys := Dates(s);
    var p := Narrow(keys, b.date, 0, |s| - 1);
    NarrowSound(keys, b.date, 0, |s| - 1);
    if p.Found? {
      var i :| 0 <= i < |keys| && keys[i] == b.date;
      assert s[i].date == b.date;
    } else {
      assert keys[p.low] == s[p.low].date && keys[p.high] == s[p.high].date;
    }
  }

  /** `add_bday`'s decision as a loop, as the source runs it. */
  method FindBdaySlot(s: seq<BDay>, b: BDay) returns (slot: Slot)
    ensures slot == BdaySlot(s, b)
    ensures |s| == 0 ==> slot == InsertAt(0)
    ensures NonDecreasing(Dates(s)) && slot.InsertAt? ==> FitsLoosely(Dates(s), slot.pos, b.date)
    ensures NonDecreasing(Dates(s)) && (forall i :: 0 <= i < |s| ==> s[i].date != b.date) ==> slot.InsertAt?
  {
    if NonDecreasing(Dates(s)) {
      BdaySlotOrdered(s, b);
    }
    if |s| == 0 {
      slot := InsertAt(0);
    } else if |s| == 1 {
      if b.date < s[0].date {
        slot := InsertAt(0);
      } else if b.date > s[0].date {
        slot := InsertAt(1);
      } else if b.name != s[0].name {
        slot := InsertAt(1);
      } else {
        slot := Duplicate;
      }
    } else {
      var probe := BinarySearch(Dates(s), b.date);
      match probe
      case Found =>
        slot := Duplicate;
      case Narrowed(low, high) =>
        assert Dates(s)[low] == s[low].date && Dates(s)[high] == s[high].date;
        if b.date > s[low].date && b.date < s[high].date {
          slot := InsertAt(high);
        } else if b.date < s[low].date {
          slot := InsertAt(low);
        } else if b.date > s[high].date {
          slot := InsertAt(high + 1);
        } else if b.name != s[low].name || b.name != s[high].name {
          slot := InsertAt(high);
        } else {
          slot := Duplicate;
        }
    }
  }

  /** With one entry, only the very same birthday is refused. */
  lemma BdaySlotSingle(s: seq<BDay>, b: BDay)
    requires |s| == 1
    ensures BdaySlot(s, b) == Duplicate <==> s[0] == b
  {
  }

  /** Finding: an exact duplicate of the lower of two entries is accepted. */
  lemma BdayDuplicateAdmitted()
    ensures var s := [BDay(5, "Sam"), BDay(7, "Alex")];
            BdaySlot(s, BDay(5, "Sam")) == InsertAt(1)
            && Inserted(s, 1, BDay(5, "Sam")) == [BDay(5, "Sam"), BDay(5, "Sam"), BDay(7, "Alex")]
  {
    var s := [BDay(5, "Sam"), BDay(7, "Alex")];
    assert Dates(s) == [5, 7];
  }

  /** Finding: a new name on a date found at the middle of the search is refused. */
  lemma BdaySameDateRefused()
    ensures var s := [BDay(1, "Kim"), BDay(5, "Sam"), BDay(9, "Lee")];
            BdaySlot(s, BDay(5, "Alex")) == Duplicate && BDay(5, "Alex") !in s
  {
    var s := [BDay(1, "Kim"), BDay(5, "Sam"), BDay(9, "Lee")];
    assert Dates(s) == [1, 5, 9];
  }

  /** How many leading keys are at most `k`. */
  function CountNotAfter(keys: seq<int>, k: int): (n: nat)
    ensures n <= |keys|
  {
    if |keys| == 0 || keys[0] > k then 0 else 1 + CountNotAfter(keys[1..], k)
  }

  lemma {:induction false} CountNotAfterFits(keys: seq<int>, k: int)
    requires NonDecreasing(keys)
    ensures var n := CountNotAfter(keys, k);
            (forall i :: 0 <= i < n ==> keys[i] <= k) && (forall i :: n <= i < |keys| ==> k < keys[i])
  {
    if |keys| > 0 && keys[0] <= k {
      CountNotAfterFits(keys[1..], k);
    }
  }

  /** The intended birthday insertion: refuse the same birthday, insert after equal dates. */
  function BdaySlotCorrected(s: seq<BDay>, b: BDay): (r: Slot)
    ensures r != OutOfRange
    ensures r.InsertAt? ==> r.pos <= |s|
  {
    if b in s then Duplicate else InsertAt(CountNotAfter(Dates(s), b.date))
  }

  /**
   * The corrected insertion refuses exactly a birthday already listed (same date and name)
   * and keeps the list in date order.
   */
  lemma BdaySlotCorrectedSpec(s: seq<BDay>, b: BDay)
    requires NonDecreasing(Dates(s))
    ensures BdaySlotCorrected(s, b) == Duplicate <==> b in s
    ensures BdaySlotCorrected(s, b).InsertAt? ==> FitsLoosely(Dates(s), BdaySlotCorrected(s, b).pos, b.date)
  {
    CountNotAfterFits(Dates(s), b.date);
  }

  /** Inserting a birthday where its date fits loosely keeps the list in date order. */
  lemma InsertBdayOrdered(s: seq<BDay>, pos: nat, b: BDay)
    requires NonDecreasing(Dates(s)) && FitsLoosely(Dates(s), pos, b.date)
    ensures NonDecreasing(Dates(Inserted(s, pos, b)))
  {
    InsertNonDecreasing(Dates(s), pos, b.date);
    assert Dates(Inserted(s, pos, b)) == Inserted(Dates(s), pos, b.date);
  }

  /** `list.index(x)`: the first position holding `x`. */
  function IndexOf<T(==)>(s: seq<T>, x: T): (i: nat)
    requires x in s
    ensures i < |s| && s[i] == x && x !in s[..i]
  {
    if s[0] == x then 0 else 1 + IndexOf(s[1..], x)
  }

  /** `list.pop(i)`: the list without its entry at `i`. */
  function Popped<T>(s: seq<T>, i: nat): (r: seq<T>)
    requires i < |s|
    ensures |r| == |s| - 1
    ensures multiset(r) == multiset(s) - multiset{s[i]}
  {
    assert s == s[..i] + [s[i]] + s[i + 1..];
    s[..i] + s[i + 1..]
  }

  /** Removing an entry keeps a list in its order. */
  lemma PoppedNonDecreasing(s: seq<int>, i: nat)
    requires i < |s| && NonDecreasing(s)
    ensures NonDecreasing(Popped(s, i))
  {
    var r := Popped(s, i);
    forall a, b | 0 <= a < b < |r| ensures r[a] <= r[b] {
      var a' := if a < i then a else a + 1;
      var b' := if b < i then b else b + 1;
      assert r[a] == s[a'] && r[b] == s[b'];
    }
  }

  lemma PoppedAscending(s: seq<int>, i: nat)
    requires i < |s| && StrictlyAscending(s)
    ensures StrictlyAscending(Popped(s, i))
  {
    var r := Popped(s, i);
    forall a, b | 0 <= a < b < |r| ensures r[a] < r[b] {
      var a' := if a < i then a else a + 1;
      var b' := if b < i then b else b + 1;
      assert r[a] == s[a'] && r[b] == s[b'];
    }
  }

  lemma PoppedBdaysOrdered(s: seq<BDay>, i: nat)
    requires i < |s| && NonDecreasing(Dates(s))
    ensures NonDecreasing(Dates(Popped(s, i)))
  {
    PoppedNonDecreasing(Dates(s), i);
    assert Dates(Popped(s, i)) == Popped(Dates(s), i);
  }
}
