/** Loading the timetable (`load_timetable`): every CSV row whose `ETD` cell
    parses as `%H:%M` becomes a departure, the rest are skipped, and the
    departures are stably sorted by time. */
module Timetable {
  import opened Rows
  import opened Text

  /** A `datetime.time`: hour, minute, second, microsecond. */
  datatype Time = Time(hour: nat, minute: nat, second: nat, micro: nat)

  predicate ValidTime(t: Time)
  {
    t.hour < 24 && t.minute < 60 && t.second < 60 && t.micro < 1000000
  }

  /** Microseconds since midnight, the scale on which times are compared. */
  function Micros(t: Time): nat
  {
    ((t.hour * 60 + t.minute) * 60 + t.second) * 1000000 + t.micro
  }

  predicate IsDigit(ch: char)
  {
    '0' <= ch <= '9'
  }

  function DigitValue(ch: char): nat
    requires IsDigit(ch)
  {
    ch as int - '0' as int
  }

  /** One field of `strptime`'s `%H` or `%M`: one decimal digit, or two
      whose value is at most `max` (23 for hours, 59 for minutes). */
  function ParseField(s: string, max: nat): (r: Option<nat>)
    ensures r.Some? ==> r.value <= max
  {
    if |s| == 1 && IsDigit(s[0]) && DigitValue(s[0]) <= max then
      Some(DigitValue(s[0]))
    else if |s| == 2 && IsDigit(s[0]) && IsDigit(s[1]) && 10 * DigitValue(s[0]) + DigitValue(s[1]) <= max then
      Some(10 * DigitValue(s[0]) + DigitValue(s[1]))
    else
      None
  }

  /** `datetime.strptime(s, '%H:%M').time()`, `None` for the `ValueError` case.
      The hour is everything before the colon, the minute everything after it:
      the pattern must consume the whole string. */
  function ParseEtd(s: string): (r: Option<Time>)
    ensures r.Some? ==> ValidTime(r.value) && r.value.second == 0 && r.value.micro == 0
    ensures r.Some? ==> |Split(s, ':')| == 2
  {
    var parts := Split(s, ':');
    if |parts| == 2 then
      match (ParseField(parts[0], 23), ParseField(parts[1], 59))
      case (Some(h), Some(m)) => Some(Time(h, m, 0, 0))
      case _ => None
    else
      None
  }

  /** Two decimal digits with leading zero, as the timetable writes them. */
  function TwoDigits(n: nat): (s: string)
    requires n < 100
  {
    [('0' as int + n / 10) as char, ('0' as int + n % 10) as char]
  }

  function FormatHHMM(t: Time): string
    requires t.hour < 100 && t.minute < 100
  {
    TwoDigits(t.hour) + ":" + TwoDigits(t.minute)
  }

  /** A single decimal digit. */
  function OneDigit(n: nat): (s: string)
    requires n < 10
  {
    [('0' as int + n) as char]
  }

  /** The texts `strptime` reads as the field value `v`: one digit, or two with a leading zero when needed. */
  predicate FieldText(s: string, v: nat)
  {
    (v < 10 && s == OneDigit(v)) || (v < 100 && s == TwoDigits(v))
  }

  /** A field parses to `v` exactly when `v` is within the bound and the text is one
      of the two ways of writing `v`. */
  lemma ParseFieldIff(s: string, max: nat, v: nat)
    requires max < 100
    ensures ParseField(s, max) == Some(v) <==> v <= max && FieldText(s, v)
  {
    if |s| == 2 && IsDigit(s[0]) && IsDigit(s[1]) {
      var n := 10 * DigitValue(s[0]) + DigitValue(s[1]);
      assert n / 10 == DigitValue(s[0]) && n % 10 == DigitValue(s[1]);
      assert TwoDigits(n) == s;
    }
    if v < 100 && s == TwoDigits(v) {
      assert DigitValue(s[0]) == v / 10 && DigitValue(s[1]) == v % 10;
    }
  }

  /** `ETD` text parses to a time exactly when it is an hour field, a colon and a minute
      field, within 23 and 59. */
  lemma ParseEtdIff(hour: string, minute: string, t: Time)
    requires ':' !in hour && ':' !in minute
    ensures ParseEtd(hour + ":" + minute) == Some(t) <==>
      t.hour <= 23 && t.minute <= 59 && t.second == 0 && t.micro == 0 &&
      FieldText(hour, t.hour) && FieldText(minute, t.minute)
  {
    SplitAfterPiece(hour, ':', minute);
    SplitWithoutSeparator(minute, ':');
    assert hour + ":" + minute == hour + [':'] + minute;
    ParseFieldIff(hour, 23, t.hour);
    ParseFieldIff(minute, 59, t.minute);
  }

  /** Every text that parses is an hour field, a colon and a minute field. */
  lemma ParsedEtdShape(s: string)
    requires ParseEtd(s).Some?
    ensures var parts := Split(s, ':');
      s == parts[0] + ":" + parts[1] &&
      FieldText(parts[0], ParseEtd(s).value.hour) && FieldText(parts[1], ParseEtd(s).value.minute)
  {
    var parts := Split(s, ':');
    JoinSplit(s, ':');
    assert parts[1..] == [parts[1]];
    ParseFieldIff(parts[0], 23, ParseEtd(s).value.hour);
    ParseFieldIff(parts[1], 59, ParseEtd(s).value.minute);
  }

  lemma TwoDigitsParse(n: nat, max: nat)
    requires n <= max && n < 100
    ensures ParseField(TwoDigits(n), max) == Some(n)
  {
  }

  /** Every minute of the day, written `HH:MM`, parses back to itself. */
  lemma ParseFormatted(t: Time)
    requires ValidTime(t) && t.second == 0 && t.micro == 0
    ensures ParseEtd(FormatHHMM(t)) == Some(t)
  {
    var h, m := TwoDigits(t.hour), TwoDigits(t.minute);
    assert ':' !in h && ':' !in m by {
      assert h == [h[0], h[1]] && m == [m[0], m[1]];
    }
    SplitAfterPiece(h, ':', m);
    SplitWithoutSeparator(m, ':');
    assert FormatHHMM(t) == h + [':'] + m;
    TwoDigitsParse(t.hour, 23);
    TwoDigitsParse(t.minute, 59);
  }

  /** Like `strptime`, the parser takes one-digit fields. */
  lemma ParseEtdOneDigitFields()
    ensures ParseEtd("9:5") == Some(Time(9, 5, 0, 0))
  {
    SplitAfterPiece("9", ':', "5");
    SplitWithoutSeparator("5", ':');
    assert "9:5" == "9" + [':'] + "5";
  }

  /** An hour past 23 is a `ValueError`. */
  lemma ParseEtdRejectsHour24()
    ensures ParseEtd("24:00") == None
  {
    SplitAfterPiece("24", ':', "00");
    SplitWithoutSeparator("00", ':');
    assert "24:00" == "24" + [':'] + "00";
  }

  /** Text left over after the minutes ("unconverted data remains") is a `ValueError`. */
  lemma ParseEtdRejectsSeconds()
    ensures ParseEtd("12:30:00") == None
  {
    SplitAfterPiece("30", ':', "00");
    SplitWithoutSeparator("00", ':');
    assert "30:00" == "30" + [':'] + "00";
    SplitAfterPiece("12", ':', "30:00");
    assert "12:30:00" == "12" + [':'] + "30:00";
  }

  /** A loaded row: the CSV cells and the `ETD_time` parsed from its `ETD` cell. */
  datatype Departure = Departure(row: Row, time: Time)

  /** The `ETD_time` of a row, `None` when `row['ETD']` raises `KeyError` or
      `strptime` raises `ValueError`. */
  function EtdOf(row: Row): (r: Option<Time>)
    ensures r.Some? ==> "ETD" in row && ParseEtd(row["ETD"]) == r
    ensures "ETD" in row && ParseEtd(row["ETD"]).Some? ==> r.Some?
    ensures r.Some? ==> ValidTime(r.value) && r.value.second == 0 && r.value.micro == 0
  {
    if "ETD" in row then ParseEtd(row["ETD"]) else None
  }

  /** What every departure of a loaded timetable satisfies. */
  predicate WellFormed(d: Departure)
  {
    EtdOf(d.row) == Some(d.time)
  }

  /** The sort key: the departure time in microseconds since midnight. */
  function Key(d: Departure): nat
  {
    Micros(d.time)
  }

  /** The rows kept by the reading loop, in file order, before sorting. */
  function Loaded(rows: seq<Row>): (r: seq<Departure>)
    ensures |r| <= |rows|
    ensures forall i :: 0 <= i < |r| ==> EtdOf(r[i].row) == Some(r[i].time)
  {
    if |rows| == 0 then []
    else
      var row := rows[|rows| - 1];
      match EtdOf(row)
      case Some(t) => Loaded(rows[..|rows| - 1]) + [Departure(row, t)]
      case None => Loaded(rows[..|rows| - 1])
  }

  /** The loop keeps exactly the rows whose `ETD` parses; the others are skipped, not fatal. */
  lemma {:induction false} LoadedKeepsExactly(rows: seq<Row>)
    ensures forall d :: d in Loaded(rows) <==> d.row in rows && EtdOf(d.row) == Some(d.time)
  {
    if |rows| > 0 {
      var init := rows[..|rows| - 1];
      LoadedKeepsExactly(init);
      assert rows == init + [rows[|rows| - 1]];
    }
  }

  /** The rows are read one at a time, in file order: the departures of two parts of
      the file are those of the first part followed by those of the second. */
  lemma {:induction false} LoadedAppend(a: seq<Row>, b: seq<Row>)
    ensures Loaded(a + b) == Loaded(a) + Loaded(b)
    decreases |b|
  {
    if |b| == 0 {
      assert a + b == a;
    } else {
      var init := b[..|b| - 1];
      assert (a + b)[..|a + b| - 1] == a + init && (a + b)[|a + b| - 1] == b[|b| - 1];
      LoadedAppend(a, init);
    }
  }

  predicate SortedByTime(s: seq<Departure>)
  {
    forall i, j :: 0 <= i < j < |s| ==> Key(s[i]) <= Key(s[j])
  }

  /** Places `d` before the first element that is not earlier than it. */
  function Insert(d: Departure, s: seq<Departure>): (r: seq<Departure>)
    ensures multiset(r) == multiset(s) + multiset{d}
    ensures forall x :: x in r <==> x == d || x in s
  {
    if |s| == 0 || Key(d) <= Key(s[0]) then [d] + s
    else
      assert s == [s[0]] + s[1..];
      [s[0]] + Insert(d, s[1..])
  }

  lemma {:induction false} InsertSorted(d: Departure, s: seq<Departure>)
    requires SortedByTime(s)
    ensures SortedByTime(Insert(d, s))
    decreases |s|
  {
    if |s| > 0 && Key(d) > Key(s[0]) {
      var rest := Insert(d, s[1..]);
      InsertSorted(d, s[1..]);
      var k0 := Key(s[0]);
      assert forall i :: 0 <= i < |rest| ==> k0 <= Key(rest[i]) by {
        forall i | 0 <= i < |rest|
          ensures k0 <= Key(rest[i])
        {
          assert rest[i] in rest;
          if rest[i] != d {
            var j :| 0 <= j < |s[1..]| && s[1..][j] == rest[i];
            assert s[j + 1] == rest[i];
          }
        }
      }
      var r := [s[0]] + rest;
      assert r[1..] == rest;
    }
  }

  /** `list.sort(key=ETD_time)`: a stable sort by departure time. */
  function SortByTime(s: seq<Departure>): (r: seq<Departure>)
    ensures SortedByTime(r)
    ensures multiset(r) == multiset(s)
  {
    if |s| == 0 then []
    else
      assert s == [s[0]] + s[1..];
      InsertSorted(s[0], SortByTime(s[1..]));
      Insert(s[0], SortByTime(s[1..]))
  }

  /** The departures of `s` at time `k`, in their order in `s`. */
  function AtKey(s: seq<Departure>, k: nat): seq<Departure>
  {
    if |s| == 0 then []
    else (if Key(s[0]) == k then [s[0]] else []) + AtKey(s[1..], k)
  }

  lemma {:induction false} InsertAtKey(d: Departure, s: seq<Departure>, k: nat)
    ensures AtKey(Insert(d, s), k) == (if Key(d) == k then [d] else []) + AtKey(s, k)
    decreases |s|
  {
    if |s| == 0 || Key(d) <= Key(s[0]) {
      assert ([d] + s)[1..] == s;
    } else {
      InsertAtKey(d, s[1..], k);
      var r := [s[0]] + Insert(d, s[1..]);
      assert r[1..] == Insert(d, s[1..]);
    }
  }

  /** The sort is stable: departures sharing a time keep their input order. */
  lemma {:induction false} SortIsStable(s: seq<Departure>, k: nat)
    ensures AtKey(SortByTime(s), k) == AtKey(s, k)
    decreases |s|
  {
    if |s| > 0 {
      SortIsStable(s[1..], k);
      InsertAtKey(s[0], SortByTime(s[1..]), k);
    }
  }

  lemma {:induction false} AtKeyHasElement(s: seq<Departure>, i: nat)
    requires i < |s|
    ensures s[i] in AtKey(s, Key(s[i]))
  {
    if i > 0 {
      AtKeyHasElement(s[1..], i - 1);
    }
  }

  lemma {:induction false} AtKeyElementsHaveKey(s: seq<Departure>, k: nat)
    ensures forall x :: x in AtKey(s, k) ==> x in s && Key(x) == k
  {
    if |s| > 0 {
      AtKeyElementsHaveKey(s[1..], k);
    }
  }

  lemma SortedHeadIsEarliest(s: seq<Departure>, x: Departure)
    requires SortedByTime(s) && x in s
    ensures Key(s[0]) <= Key(x)
  {
    var i :| 0 <= i < |s| && s[i] == x;
    if i > 0 {
      assert Key(s[0]) <= Key(s[i]);
    }
  }

  /** Two sorted sequences with the same departures at every time start with the same departure. */
  lemma SameHead(a: seq<Departure>, b: seq<Departure>)
    requires SortedByTime(a) && SortedByTime(b) && |a| > 0 && |b| > 0
    requires forall k :: AtKey(a, k) == AtKey(b, k)
    ensures a[0] == b[0]
  {
    AtKeyHasElement(a, 0);
    AtKeyHasElement(b, 0);
    assert b[0] in AtKey(a, Key(b[0]));
    assert a[0] in AtKey(b, Key(a[0]));
    AtKeyElementsHaveKey(a, Key(b[0]));
    AtKeyElementsHaveKey(b, Key(a[0]));
    SortedHeadIsEarliest(a, b[0]);
    SortedHeadIsEarliest(b, a[0]);
    var k0 := Key(a[0]);
    assert AtKey(a, k0)[0] == a[0];
    assert AtKey(b, k0)[0] == b[0];
  }

  lemma AtKeyTail(s: seq<Departure>, k: nat)
    requires |s| > 0
    ensures AtKey(s[1..], k) == if Key(s[0]) == k then AtKey(s, k)[1..] else AtKey(s, k)
  {
    var t := AtKey(s[1..], k);
    if Key(s[0]) == k {
      assert AtKey(s, k) == [s[0]] + t;
      assert ([s[0]] + t)[1..] == t;
    } else {
      assert AtKey(s, k) == [] + t;
    }
  }

  lemma SameTails(a: seq<Departure>, b: seq<Departure>)
    requires |a| > 0 && |b| > 0 && a[0] == b[0]
    requires forall k :: AtKey(a, k) == AtKey(b, k)
    ensures forall k :: AtKey(a[1..], k) == AtKey(b[1..], k)
  {
    forall k
      ensures AtKey(a[1..], k) == AtKey(b[1..], k)
    {
      AtKeyTail(a, k);
      AtKeyTail(b, k);
    }
  }

  /** Sorting and stability together pin the result down: two sorted sequences
      with the same departures at every time are equal. So `SortByTime` is
      the only stable sort. */
  lemma {:induction false} SortedAndStableDetermineOrder(a: seq<Departure>, b: seq<Departure>)
    requires SortedByTime(a) && SortedByTime(b)
    requires forall k :: AtKey(a, k) == AtKey(b, k)
    ensures a == b
    decreases |a|
  {
    if |a| == 0 {
      if |b| > 0 {
        AtKeyHasElement(b, 0);
      }
    } else if |b| == 0 {
      AtKeyHasElement(a, 0);
    } else {
      SameHead(a, b);
      SameTails(a, b);
      SortedAndStableDetermineOrder(a[1..], b[1..]);
      assert a == [a[0]] + a[1..] && b == [b[0]] + b[1..];
    }
  }

  /** `load_timetable` on the rows of an opened file. */
  method LoadTimetable(rows: seq<Row>) returns (timetable: seq<Departure>)
    ensures timetable == SortByTime(Loaded(rows))
    ensures SortedByTime(timetable)
    ensures forall d :: d in timetable <==> d.row in rows && EtdOf(d.row) == Some(d.time)
    ensures forall d :: d in timetable ==> WellFormed(d)
  {
    timetable := [];
    for i := 0 to |rows|
      invariant timetable == Loaded(rows[..i])
    {
      var row := rows[i];
      assert rows[..i + 1][..i] == rows[..i];
      if "ETD" in row {
        var etd := ParseEtd(row["ETD"]);
        if etd.Some? {
          timetable := timetable + [Departure(row, etd.value)];
        }
        // otherwise strptime raised ValueError: warn and skip the row
      }
      // otherwise row['ETD'] raised KeyError: warn and skip the row
    }
    assert rows[..|rows|] == rows;
    LoadedKeepsExactly(rows);
    assert forall d :: d in timetable <==> d in multiset(timetable);
    timetable := SortByTime(timetable);
    assert forall d :: d in timetable <==> d in multiset(timetable);
  }
}
