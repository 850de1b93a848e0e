/** Choosing what the board shows (`update_display_rows`): the next two
    departures not before `now`, and the departure the announcer keeps
    announcing, which moves only when the first row's `ETD` text changes. */
module Selector {
  import opened Rows
  import opened Timetable

  /** `[row for row in timetable if row['ETD_time'] >= now]`. */
  function Upcoming(timetable: seq<Departure>, now: Time): (r: seq<Departure>)
    ensures forall d :: d in r <==> d in timetable && Key(d) >= Micros(now)
    ensures |r| <= |timetable|
  {
    if |timetable| == 0 then []
    else (if Key(timetable[0]) >= Micros(now) then [timetable[0]] else []) + Upcoming(timetable[1..], now)
  }

  /** On a sorted timetable the upcoming departures are a suffix: every departure
      before it has already left. */
  lemma {:induction false} UpcomingOfSortedIsSuffix(timetable: seq<Departure>, now: Time)
    requires SortedByTime(timetable)
    ensures var j := |timetable| - |Upcoming(timetable, now)|;
      Upcoming(timetable, now) == timetable[j..] &&
      forall i :: 0 <= i < j ==> Key(timetable[i]) < Micros(now)
  {
    if |timetable| == 0 {
    } else if Key(timetable[0]) >= Micros(now) {
      AllUpcoming(timetable, now);
    } else {
      var tail := timetable[1..];
      UpcomingOfSortedIsSuffix(tail, now);
      var j := |tail| - |Upcoming(tail, now)|;
      assert Upcoming(timetable, now) == Upcoming(tail, now);
      assert tail[j..] == timetable[j + 1..];
      forall i | 0 <= i < j + 1
        ensures Key(timetable[i]) < Micros(now)
      {
        if i > 0 {
          assert timetable[i] == tail[i - 1];
        }
      }
    }
  }

  lemma {:induction false} AllUpcoming(timetable: seq<Departure>, now: Time)
    requires SortedByTime(timetable)
    requires |timetable| > 0 && Key(timetable[0]) >= Micros(now)
    ensures Upcoming(timetable, now) == timetable
  {
    if |timetable| > 1 {
      assert SortedByTime(timetable[1..]);
      AllUpcoming(timetable[1..], now);
      assert timetable == [timetable[0]] + timetable[1..];
    }
  }

  /** `future_timetable[:2]`. */
  function NextTwo(timetable: seq<Departure>, now: Time): (r: seq<Departure>)
    ensures |r| == if |Upcoming(timetable, now)| < 2 then |Upcoming(timetable, now)| else 2
    ensures r == Upcoming(timetable, now)[..|r|]
  {
    var future := Upcoming(timetable, now);
    if |future| <= 2 then future else future[..2]
  }

  /** The two globals the selector writes and the announcer and the screen read. */
  datatype Selection = Selection(displayRows: seq<Departure>, announcementInfo: Option<Departure>)

  /** The `ETD` text of a loaded departure. */
  function EtdText(d: Departure): string
    requires WellFormed(d)
  {
    d.row["ETD"]
  }

  /** What the board keeps true between ticks: loaded rows only; an announcement
      target exactly when some row is shown, and then with the first row's `ETD` text. */
  predicate Coherent(s: Selection)
  {
    (forall d :: d in s.displayRows ==> WellFormed(d)) &&
    (s.announcementInfo.Some? ==> WellFormed(s.announcementInfo.value)) &&
    (s.announcementInfo.None? <==> s.displayRows == []) &&
    (s.announcementInfo.Some? ==> EtdText(s.announcementInfo.value) == EtdText(s.displayRows[0]))
  }

  /** One tick of `update_display_rows`, given the previous announcement target. */
  function Select(previous: Option<Departure>, timetable: seq<Departure>, now: Time): (s: Selection)
    requires previous.Some? ==> WellFormed(previous.value)
    requires forall d :: d in timetable ==> WellFormed(d)
    ensures |s.displayRows| == if |Upcoming(timetable, now)| < 2 then |Upcoming(timetable, now)| else 2
    ensures s.displayRows == Upcoming(timetable, now)[..|s.displayRows|]
    ensures forall d :: d in s.displayRows ==> d in timetable && Key(d) >= Micros(now)
    ensures Coherent(s)
  {
    var rows := NextTwo(timetable, now);
    if rows != [] then
      if previous.None? || EtdText(previous.value) != EtdText(rows[0]) then
        Selection(rows, Some(rows[0]))
      else
        Selection(rows, previous)
    else
      Selection([], None)
  }

  /** When the first row's `ETD` text is unchanged the target is kept as it was,
      so a running announcement cycle is not disturbed. */
  lemma SelectKeepsTarget(previous: Option<Departure>, timetable: seq<Departure>, now: Time)
    requires previous.Some? ==> WellFormed(previous.value)
    requires forall d :: d in timetable ==> WellFormed(d)
    requires previous.Some? && Upcoming(timetable, now) != []
    requires EtdText(previous.value) == EtdText(Upcoming(timetable, now)[0])
    ensures Select(previous, timetable, now).announcementInfo == previous
  {
  }

  /** Otherwise, while departures remain, the target becomes the first shown row. */
  lemma SelectRetargets(previous: Option<Departure>, timetable: seq<Departure>, now: Time)
    requires previous.Some? ==> WellFormed(previous.value)
    requires forall d :: d in timetable ==> WellFormed(d)
    requires Upcoming(timetable, now) != []
    requires previous.None? || EtdText(previous.value) != EtdText(Upcoming(timetable, now)[0])
    ensures Select(previous, timetable, now).announcementInfo == Some(Upcoming(timetable, now)[0])
  {
  }

  /** No departure at or after `now` exactly when nothing is shown and there is nothing to announce. */
  lemma SelectAfterLastDeparture(previous: Option<Departure>, timetable: seq<Departure>, now: Time)
    requires previous.Some? ==> WellFormed(previous.value)
    requires forall d :: d in timetable ==> WellFormed(d)
    ensures (forall d :: d in timetable ==> Key(d) < Micros(now)) <==>
      Select(previous, timetable, now) == Selection([], None)
  {
    var s := Select(previous, timetable, now);
    if s.displayRows == [] {
      assert Upcoming(timetable, now) == [];
    } else {
      assert s.displayRows[0] in Upcoming(timetable, now);
    }
  }

  /** A second tick at the same time changes nothing. */
  lemma SelectIdempotent(previous: Option<Departure>, timetable: seq<Departure>, now: Time)
    requires previous.Some? ==> WellFormed(previous.value)
    requires forall d :: d in timetable ==> WellFormed(d)
    ensures Select(Select(previous, timetable, now).announcementInfo, timetable, now) ==
      Select(previous, timetable, now)
  {
  }

  /** Departures at 08:00, 08:30 and 09:00 seen at 08:15 on a fresh board: the
      08:30 and 09:00 rows are shown and 08:30 becomes the announcement target. */
  lemma SelectScenario(d0: Departure, d1: Departure, d2: Departure)
    requires WellFormed(d0) && WellFormed(d1) && WellFormed(d2)
    requires d0.time == Time(8, 0, 0, 0) && d1.time == Time(8, 30, 0, 0) && d2.time == Time(9, 0, 0, 0)
    ensures Select(None, [d0, d1, d2], Time(8, 15, 0, 0)) == Selection([d1, d2], Some(d1))
  {
    var tt := [d0, d1, d2];
    var now := Time(8, 15, 0, 0);
    assert tt[1..] == [d1, d2] && tt[1..][1..] == [d2] && tt[1..][1..][1..] == [];
    assert Upcoming([d2], now) == [d2];
    assert Upcoming([d1, d2], now) == [d1, d2];
  }

  /** The globals `display_rows` and `announcement_info`. Each access happens
      under `announcement_lock`, so each method here is one atomic step. */
  class Board {
    var displayRows: seq<Departure>
    var announcementInfo: Option<Departure>

    ghost predicate Valid()
      reads this
    {
      Coherent(Selection(displayRows, announcementInfo))
    }

    /** The module-level initial values: no rows, no target. */
    constructor ()
      ensures Valid()
      ensures displayRows == [] && announcementInfo == None
    {
      displayRows := [];
      announcementInfo := None;
    }

    /** `update_display_rows(timetable)` with the clock reading `now`. */
    method UpdateDisplayRows(timetable: seq<Departure>, now: Time)
      requires Valid()
      requires forall d :: d in timetable ==> WellFormed(d)
      modifies this
      ensures Valid()
      ensures Selection(displayRows, announcementInfo) == Select(old(announcementInfo), timetable, now)
    {
      var newDisplayRows := NextTwo(timetable, now);
      if newDisplayRows != [] {
        if announcementInfo.None? || EtdText(announcementInfo.value) != EtdText(newDisplayRows[0]) {
          announcementInfo := Some(newDisplayRows[0]);
        }
      } else {
        announcementInfo := None;
      }
      displayRows := newDisplayRows;
    }

    /** The announcer's locked read: a copy of the target when there is one. */
    method Snapshot() returns (snapshot: Option<Row>)
      requires Valid()
      ensures snapshot.Some? <==> displayRows != []
      ensures snapshot.Some? ==> snapshot.value == announcementInfo.value.row && "ETD" in snapshot.value
    {
      if announcementInfo.Some? && announcementInfo.value.row != map[] {
        snapshot := Some(announcementInfo.value.row);
      } else {
        snapshot := None;
      }
    }
  }
}
