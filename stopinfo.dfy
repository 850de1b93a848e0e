/** The stop information spoken after every announcement and scrolled under
    each shown row (`create_stop_info`). */
module StopInfo {
  import opened Rows
  import opened Text

  /** Said for a missing or empty row. */
  const NoMoreBuses := "本日のバスは終了しました。"

  /** The six stop positions along the route, in order: the CSV flag column and the
      stop's name. 帆山町 and 国高 are passed twice, outbound and back. */
  const Positions: seq<(string, string)> := [
    ("echizen_takefu", "越前たけふ駅"),
    ("hoyama(1)", "帆山町"),
    ("kunitaka(1)", "国高"),
    ("takefu", "武生駅"),
    ("kunitaka(2)", "国高"),
    ("hoyama(2)", "帆山町")
  ]

  const Jindai := "仁愛大学"
  const Takefu := "武生駅"
  const ToJindai := "終点：仁愛大学"
  const ToTakefu := "終点：武生駅"
  const StopsIntro := "停車駅は、"
  const Separator := "、"
  const CautionEnd := "には停車しません。ご注意ください。"

  /** A position is served when its column holds exactly "1". */
  predicate Served(row: Row, column: string)
  {
    CellIs(row, column, "1")
  }

  /** The names of the served positions, in route order, duplicates kept. */
  function StopsAt(row: Row, ps: seq<(string, string)>): (r: seq<string>)
    ensures forall n :: n in r <==> exists i :: 0 <= i < |ps| && ps[i].1 == n && Served(row, ps[i].0)
  {
    if |ps| == 0 then []
    else
      var rest := StopsAt(row, ps[1..]);
      assert forall i :: 0 < i < |ps| ==> ps[i] == ps[1..][i - 1];
      (if Served(row, ps[0].0) then [ps[0].1] else []) + rest
  }

  /** The names of the positions not served, in route order. */
  function PassedAt(row: Row, ps: seq<(string, string)>): (r: seq<string>)
    ensures forall n :: n in r <==> exists i :: 0 <= i < |ps| && ps[i].1 == n && !Served(row, ps[i].0)
  {
    if |ps| == 0 then []
    else
      var rest := PassedAt(row, ps[1..]);
      assert forall i :: 0 < i < |ps| ==> ps[i] == ps[1..][i - 1];
      (if Served(row, ps[0].0) then [] else [ps[0].1]) + rest
  }

  /** Every position is put in exactly one of the two lists; neither list drops anything. */
  lemma {:induction false} EveryPositionClassifiedOnce(row: Row, ps: seq<(string, string)>)
    ensures |StopsAt(row, ps)| + |PassedAt(row, ps)| == |ps|
  {
    if |ps| > 0 {
      EveryPositionClassifiedOnce(row, ps[1..]);
    }
  }

  /** The positions are classified one by one, in route order: stops of a longer
      route are the stops of its first part followed by those of the rest. */
  lemma {:induction false} StopsAtAppend(row: Row, a: seq<(string, string)>, b: seq<(string, string)>)
    ensures StopsAt(row, a + b) == StopsAt(row, a) + StopsAt(row, b)
    decreases |a|
  {
    if |a| == 0 {
      assert a + b == b;
    } else {
      assert (a + b)[0] == a[0] && (a + b)[1..] == a[1..] + b;
      StopsAtAppend(row, a[1..], b);
    }
  }

  /** The same for the passed positions. */
  lemma {:induction false} PassedAtAppend(row: Row, a: seq<(string, string)>, b: seq<(string, string)>)
    ensures PassedAt(row, a + b) == PassedAt(row, a) + PassedAt(row, b)
    decreases |a|
  {
    if |a| == 0 {
      assert a + b == b;
    } else {
      assert (a + b)[0] == a[0] && (a + b)[1..] == a[1..] + b;
      PassedAtAppend(row, a[1..], b);
    }
  }

  /** `stops` in `create_stop_info`. */
  function Stops(row: Row): seq<string>
  {
    StopsAt(row, Positions)
  }

  /** `ways` before filtering: passed positions, then 仁愛大学 when `jindai` is "0". */
  function PassedNames(row: Row): seq<string>
  {
    PassedAt(row, Positions) + (if CellIs(row, "jindai", "0") then [Jindai] else [])
  }

  /** `ways` after the filter against `stops` and `dict.fromkeys`. */
  function Skips(row: Row): (r: seq<string>)
    ensures NoDuplicates(r)
    ensures forall n :: n in r ==> n !in Stops(row)
  {
    Dedup(Without(PassedNames(row), Stops(row)))
  }

  /** `終点：仁愛大学` when `destination` is "0", `終点：武生駅` otherwise. */
  function DestinationText(row: Row): (r: string)
    ensures r == ToJindai <==> CellIs(row, "destination", "0")
    ensures r == ToJindai || r == ToTakefu
  {
    if CellIs(row, "destination", "0") then ToJindai else ToTakefu
  }

  /** `create_stop_info(row)`; `None` is Python's `None`. */
  function CreateStopInfo(row: Option<Row>): (r: string)
    ensures r == NoMoreBuses <==> row.None? || row.value == map[]
  {
    if row.None? || row.value == map[] then NoMoreBuses
    else
      var stops := Stops(row.value);
      var ways := Skips(row.value);
      var destination := DestinationText(row.value);
      var r :=
        if stops != [] then
          StopsIntro + Join(stops, Separator) + Separator + destination + "です。" +
          (if ways != [] then "　" + Join(ways, Separator) + CautionEnd else "")
        else
          destination + "です。";
      assert r[0] != NoMoreBuses[0];
      r
  }

  /** The skips named in the caution are never stops, each is named once, and a name
      is skipped exactly when it is not a stop and some position of that name is
      passed (or it is 仁愛大学 and `jindai` is "0"). */
  lemma SkipsMembership(row: Row)
    ensures NoDuplicates(Skips(row))
    ensures forall n :: n in Skips(row) ==> n !in Stops(row)
    ensures forall n :: n in Skips(row) <==>
      n !in Stops(row) &&
      ((exists i :: 0 <= i < |Positions| && Positions[i].1 == n && !Served(row, Positions[i].0)) ||
       (n == Jindai && CellIs(row, "jindai", "0")))
  {
  }

  /** Every position's name is announced, either among the stops or among the skips. */
  lemma EveryPositionNamed(row: Row)
    ensures forall i :: 0 <= i < |Positions| ==> Positions[i].1 in Stops(row) || Positions[i].1 in Skips(row)
  {
    forall i | 0 <= i < |Positions|
      ensures Positions[i].1 in Stops(row) || Positions[i].1 in Skips(row)
    {
      if !Served(row, Positions[i].0) {
        assert Positions[i].1 in PassedNames(row);
      }
    }
  }

  predicate EndsWith(s: string, suffix: string)
  {
    |suffix| <= |s| && s[|s| - |suffix|..] == suffix
  }

  /** With no stops the text is only the destination sentence; otherwise it opens
      with the stop list, and the caution ends it exactly when something is skipped. */
  lemma StopInfoShape(row: Row)
    requires row != map[]
    ensures Stops(row) == [] ==> CreateStopInfo(Some(row)) == DestinationText(row) + "です。"
    ensures Stops(row) != [] ==> CreateStopInfo(Some(row))[..|StopsIntro|] == StopsIntro
    ensures EndsWith(CreateStopInfo(Some(row)), CautionEnd) <==> Stops(row) != [] && Skips(row) != []
  {
    var r := CreateStopInfo(Some(row));
    var tail := "です。";
    if Stops(row) != [] && Skips(row) != [] {
      var prefix := StopsIntro + Join(Stops(row), Separator) + Separator + DestinationText(row) + tail + "　" + Join(Skips(row), Separator);
      assert r == prefix + CautionEnd;
      assert r[|r| - |CautionEnd|..] == CautionEnd;
    } else {
      var prefix := if Stops(row) != [] then StopsIntro + Join(Stops(row), Separator) + Separator + DestinationText(row) else DestinationText(row);
      assert r == prefix + tail;
      assert r[|r| - 2] == 'す';
      assert CautionEnd[|CautionEnd| - 2] == 'い';
    }
  }

  /** When every position is served, every name is a stop, in route order, and none is passed. */
  lemma {:induction false} AllServed(row: Row, ps: seq<(string, string)>)
    requires forall i :: 0 <= i < |ps| ==> Served(row, ps[i].0)
    ensures StopsAt(row, ps) == seq(|ps|, i requires 0 <= i < |ps| => ps[i].1)
    ensures PassedAt(row, ps) == []
  {
    if |ps| > 0 {
      AllServed(row, ps[1..]);
    }
  }

  const PositionNames: seq<string> := ["越前たけふ駅", "帆山町", "国高", "武生駅", "国高", "帆山町"]

  lemma StopsWhenAllServed(row: Row)
    requires forall i :: 0 <= i < |Positions| ==> Served(row, Positions[i].0)
    requires !CellIs(row, "jindai", "0")
    ensures Stops(row) == PositionNames && Skips(row) == []
  {
    AllServed(row, Positions);
    var ns := seq(|Positions|, i requires 0 <= i < |Positions| => Positions[i].1);
    assert forall i :: 0 <= i < 6 ==> ns[i] == PositionNames[i];
    assert PassedNames(row) == [];
    assert Without([], Stops(row)) == [];
  }

  lemma JoinCons(x: string, rest: seq<string>, sep: string)
    requires |rest| > 0
    ensures Join([x] + rest, sep) == x + sep + Join(rest, sep)
  {
    assert ([x] + rest)[1..] == rest;
  }

  /** The six names joined as `create_stop_info` joins them. */
  lemma JoinPositionNames()
    ensures Join(PositionNames, Separator) ==
      "越前たけふ駅" + Separator + "帆山町" + Separator + "国高" + Separator +
      "武生駅" + Separator + "国高" + Separator + "帆山町"
  {
    var j5 := ["帆山町"];
    var j4 := ["国高"] + j5;
    var j3 := ["武生駅"] + j4;
    var j2 := ["国高"] + j3;
    var j1 := ["帆山町"] + j2;
    var j0 := ["越前たけふ駅"] + j1;
    assert j0 == PositionNames;
    JoinCons("国高", j5, Separator);
    JoinCons("武生駅", j4, Separator);
    JoinCons("国高", j3, Separator);
    JoinCons("帆山町", j2, Separator);
    JoinCons("越前たけふ駅", j1, Separator);
  }

  /** With stops and nothing skipped, the text is the stop list and the destination sentence. */
  lemma StopInfoWithoutSkips(row: Row)
    requires row != map[] && Stops(row) != [] && Skips(row) == []
    ensures CreateStopInfo(Some(row)) ==
      StopsIntro + Join(Stops(row), Separator) + Separator + DestinationText(row) + "です。"
  {
  }

  /** A row serving all six positions, with `jindai` other than "0", lists every
      position in route order (duplicates included) and carries no caution. */
  lemma AllServedNoCaution(row: Row)
    requires forall i :: 0 <= i < |Positions| ==> Served(row, Positions[i].0)
    requires !CellIs(row, "jindai", "0")
    ensures CreateStopInfo(Some(row)) ==
      StopsIntro + Join(PositionNames, Separator) + Separator + DestinationText(row) + "です。"
  {
    StopsWhenAllServed(row);
    assert "echizen_takefu" in row by {
      assert Served(row, Positions[0].0);
    }
    StopInfoWithoutSkips(row);
  }
}
