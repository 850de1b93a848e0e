/** The announcement thread (`announcement_loop`): every cycle it takes a copy
    of the announcement target, announces it, or plays the end-of-service
    message once when there is none, and then sleeps. Speech synthesis,
    playback and the sleep are abstract actions here. */
module Announcer {
  import opened Rows
  import opened Text
  import opened Timetable
  import opened StopInfo

  const EndOfServiceMessage := "本日のシャトルバスの運行は終了しました。"
  const Unset := "未定"

  /** A string splits into at least two pieces exactly when it contains the separator. */
  lemma SplitsInTwoIffSeparator(s: string, c: char)
    ensures |Split(s, c)| >= 2 <==> c in s
  {
    if c !in s {
      SplitWithoutSeparator(s, c);
    } else {
      JoinSplit(s, c);
    }
  }

  /** `parts = ETD.split(":")`, then `parts[0] + "時" + parts[1] + "分"`: the cell's
      own digits, no zero stripped. `None` is the `IndexError` of a text without a colon. */
  function TimeText(etd: string): (r: Option<string>)
    ensures r.None? <==> ':' !in etd
  {
    SplitsInTwoIffSeparator(etd, ':');
    var parts := Split(etd, ':');
    if |parts| >= 2 then Some(parts[0] + "時" + parts[1] + "分") else None
  }

  /** For a loaded departure the time text is the hour digits, 時, the minute digits, 分,
      exactly the two fields that parsed as the departure time. */
  lemma TimeTextOfLoaded(d: Departure)
    requires WellFormed(d)
    ensures var parts := Split(d.row["ETD"], ':');
      |parts| == 2 &&
      d.row["ETD"] == parts[0] + ":" + parts[1] &&
      ParseField(parts[0], 23) == Some(d.time.hour) &&
      ParseField(parts[1], 59) == Some(d.time.minute) &&
      TimeText(d.row["ETD"]) == Some(parts[0] + "時" + parts[1] + "分")
  {
    var etd := d.row["ETD"];
    var parts := Split(etd, ':');
    JoinSplit(etd, ':');
    assert parts[1..] == [parts[1]];
  }

  /** Hour and minute texts around one colon are read out verbatim, 時 and 分 appended. */
  lemma TimeTextOfFields(hour: string, minute: string)
    requires ':' !in hour && ':' !in minute
    ensures TimeText(hour + ":" + minute) == Some(hour + "時" + minute + "分")
  {
    SplitAfterPiece(hour, ':', minute);
    SplitWithoutSeparator(minute, ':');
    assert hour + ":" + minute == hour + [':'] + minute;
  }

  /** "08:30" is read out as 08時30分, "8:30" as 8時30分. */
  lemma TimeTextExamples()
    ensures TimeText("08:30") == Some("08時30分")
    ensures TimeText("8:30") == Some("8時30分")
  {
    TimeTextOfFields("08", "30");
    assert "08" + ":" + "30" == "08:30";
    assert "08" + "時" + "30" + "分" == "08時30分";
    TimeTextOfFields("8", "30");
    assert "8" + ":" + "30" == "8:30";
    assert "8" + "時" + "30" + "分" == "8時30分";
  }

  /** `row['destination']`: 仁愛大学 for "0", 武生駅 otherwise; `None` is the `KeyError`. */
  function DestinationName(row: Row): (r: Option<string>)
    ensures r.None? <==> "destination" !in row
    ensures r == Some(Jindai) <==> CellIs(row, "destination", "0")
    ensures r.Some? ==> r.value == Jindai || r.value == Takefu
  {
    if "destination" !in row then None
    else if row["destination"] == "0" then Some(Jindai)
    else Some(Takefu)
  }

  /** `row.get('platform', '未定')`. */
  function PlatformText(row: Row): (r: string)
    ensures "platform" !in row ==> r == Unset
    ensures "platform" in row ==> r == row["platform"]
  {
    if "platform" in row then row["platform"] else Unset
  }

  /** The parts the announcement is made of: the time text, the destination name,
      the platform, and the target row the stop information is built from. */
  datatype Announcement = Announcement(time: string, destination: string, platform: string, target: Row)

  const Opening := "次に、仁愛大学から発車します、"
  const BusText := "発、無料シャトルバス、"
  const BoundText := "行きは、"
  const BoardingText := "番乗り場から、発車します。乗車位置で、1列に並んで、お待ちください。"

  /** `stop_info`, spoken at the end of the announcement. */
  function StopInfoOf(a: Announcement): string
  {
    CreateStopInfo(Some(a.target))
  }

  /** Where the four parts of a concatenation sit in it. */
  lemma ConcatFrame(p: string, x: string, m: string, s: string)
    ensures |p + x + m + s| == |p| + |x| + |m| + |s|
    ensures (p + x + m + s)[..|p|] == p
    ensures (p + x + m + s)[|p|..|p| + |x|] == x
    ensures (p + x + m + s)[|p| + |x| + |m|..] == s
  {
    var r := p + x + m + s;
    assert r[..|p|] == p;
    assert r[|p|..|p| + |x|] == x;
  }

  /** Where each of five parts sits in their concatenation. */
  lemma ConcatFrame5(p: string, x: string, q: string, y: string, t: string)
    ensures |p + x + q + y + t| == |p| + |x| + |q| + |y| + |t|
    ensures (p + x + q + y + t)[..|p|] == p
    ensures (p + x + q + y + t)[|p|..|p| + |x|] == x
    ensures (p + x + q + y + t)[|p| + |x|..|p| + |x| + |q|] == q
    ensures (p + x + q + y + t)[|p| + |x| + |q|..|p| + |x| + |q| + |y|] == y
    ensures (p + x + q + y + t)[|p| + |x| + |q| + |y|..] == t
  {
    var r := p + x + q + y + t;
    assert r[..|p|] == p;
    assert r[|p|..|p| + |x|] == x;
    assert r[|p| + |x|..|p| + |x| + |q|] == q;
    assert r[|p| + |x| + |q|..|p| + |x| + |q| + |y|] == y;
  }

  /** The middle of the announcement: the bus, its destination and its platform.
      The destination follows the fixed bus text, and the platform follows 行きは、. */
  function Middle(a: Announcement): (r: string)
    ensures |r| == |BusText| + |a.destination| + |BoundText| + |a.platform| + |BoardingText|
    ensures r[..|BusText|] == BusText
    ensures r[|BusText|..|BusText| + |a.destination|] == a.destination
    ensures r[|BusText| + |a.destination|..|BusText| + |a.destination| + |BoundText|] == BoundText
    ensures r[|BusText| + |a.destination| + |BoundText|..|BusText| + |a.destination| + |BoundText| + |a.platform|] == a.platform
    ensures r[|r| - |BoardingText|..] == BoardingText
  {
    ConcatFrame5(BusText, a.destination, BoundText, a.platform, BoardingText);
    BusText + a.destination + BoundText + a.platform + BoardingText
  }

  /** The f-string of the announcement, filled in with its parts: it opens with the
      fixed opening followed by the time, and closes with the stop information. */
  function Render(a: Announcement): (r: string)
    ensures |r| > |Opening| + |a.time| + |StopInfoOf(a)|
    ensures r[..|Opening|] == Opening
    ensures r[|Opening|..|Opening| + |a.time|] == a.time
    ensures r[|Opening| + |a.time|..|r| - |StopInfoOf(a)|] == Middle(a)
    ensures r[|r| - |StopInfoOf(a)|..] == StopInfoOf(a)
  {
    ConcatFrame(Opening, a.time, Middle(a), StopInfoOf(a));
    var r := Opening + a.time + Middle(a) + StopInfoOf(a);
    assert r[|Opening| + |a.time|..|r| - |StopInfoOf(a)|] == Middle(a);
    r
  }

  /** The announcement for one target, `None` when building it raises
      (`KeyError` on `ETD` or `destination`, `IndexError` on a colon-less `ETD`),
      which ends the announcement thread. */
  function ComposeAnnouncement(row: Row): (r: Option<Announcement>)
    ensures r.Some? <==> "ETD" in row && ':' in row["ETD"] && "destination" in row
    ensures r.Some? ==>
      (Some(r.value.time) == TimeText(row["ETD"]) &&
       Some(r.value.destination) == DestinationName(row) &&
       r.value.platform == PlatformText(row) &&
       r.value.target == row)
  {
    if "ETD" !in row then None
    else
      match (TimeText(row["ETD"]), DestinationName(row))
      case (Some(time), Some(destination)) =>
        Some(Announcement(time, destination, PlatformText(row), row))
      case _ => None
  }

  /** A loaded departure can always be announced unless its row has no `destination` column. */
  lemma ComposeLoaded(d: Departure)
    requires WellFormed(d)
    ensures ComposeAnnouncement(d.row).Some? <==> "destination" in d.row
  {
    TimeTextOfLoaded(d);
    assert d.row["ETD"][|Split(d.row["ETD"], ':')[0]|] == ':';
  }

  /** What one cycle does besides sleeping. */
  datatype Action =
    | Announce(announcement: Announcement)  // chime and speech of Render(announcement)
    | EndOfService            // speech of EndOfServiceMessage
    | Idle                    // nothing to say
    | Crash                   // composing raised: the thread ends

  /** What `play_announcement` is given for an action: the rendered announcement, or
      the end-of-service sentence; `Idle` and `Crash` say nothing. */
  function Spoken(action: Action): (r: Option<string>)
    ensures r.Some? <==> action.Announce? || action == EndOfService
    ensures action == EndOfService ==> r == Some(EndOfServiceMessage)
    ensures action.Announce? ==> r == Some(Render(action.announcement))
  {
    match action
    case Announce(a) => Some(Render(a))
    case EndOfService => Some(EndOfServiceMessage)
    case _ => None
  }

  /** `if current_announcement_info:` on the locked copy. */
  predicate Truthy(snapshot: Option<Row>)
  {
    snapshot.Some? && snapshot.value != map[]
  }

  /** What a cycle makes of its snapshot: no target, or a target together with
      the announcement built from it (`None` when building it raised). */
  datatype Observation = NoTarget | Target(composed: Option<Announcement>)

  function Observe(snapshot: Option<Row>): (o: Observation)
    ensures o.NoTarget? <==> !Truthy(snapshot)
    ensures o.Target? ==> o.composed == ComposeAnnouncement(snapshot.value)
  {
    if Truthy(snapshot) then Target(ComposeAnnouncement(snapshot.value)) else NoTarget
  }

  /** One cycle, from the end-message flag and what the cycle sees, to the action and
      the new flag. The end message plays only when there is no target and the flag is
      clear; after a cycle that does not crash the flag is set exactly when there was no target. */
  function Cycle(announcedEnd: bool, seen: Observation): (r: (Action, bool))
    ensures r.0 == EndOfService <==> seen.NoTarget? && !announcedEnd
    ensures r.0 == Crash <==> seen == Target(None)
    ensures seen.Target? && seen.composed.Some? ==> r.0 == Announce(seen.composed.value)
    ensures r.0.Announce? ==> seen == Target(Some(r.0.announcement))
    ensures r.0 != Crash ==> (r.1 <==> seen.NoTarget?)
    ensures r.0 == Crash ==> r.1 == announcedEnd
  {
    match seen
    case Target(Some(a)) => (Announce(a), false)
    case Target(None) => (Crash, announcedEnd)
    case NoTarget => if !announcedEnd then (EndOfService, true) else (Idle, true)
  }

  /** The actions of successive cycles, one per observation, up to a crash. */
  function Trace(announcedEnd: bool, seen: seq<Observation>): (r: seq<Action>)
    ensures |r| <= |seen|
    decreases |seen|
  {
    if |seen| == 0 then []
    else
      var (action, next) := Cycle(announcedEnd, seen[0]);
      if action == Crash then [Crash] else [action] + Trace(next, seen[1..])
  }

  /** One action per cycle; the run is cut short only by a crash, which is its last action. */
  lemma {:induction false} TraceShape(announcedEnd: bool, seen: seq<Observation>)
    ensures forall i :: 0 <= i < |Trace(announcedEnd, seen)| - 1 ==> Trace(announcedEnd, seen)[i] != Crash
    ensures |Trace(announcedEnd, seen)| < |seen| ==>
      |Trace(announcedEnd, seen)| > 0 && Trace(announcedEnd, seen)[|Trace(announcedEnd, seen)| - 1] == Crash
    decreases |seen|
  {
    if |seen| > 0 {
      var (action, next) := Cycle(announcedEnd, seen[0]);
      TraceShape(next, seen[1..]);
      if action != Crash {
        var t := Trace(announcedEnd, seen);
        assert t[1..] == Trace(next, seen[1..]);
      }
    }
  }

  /** A cycle announces exactly when it sees a target whose announcement could be
      built, and then says that text; a target whose announcement raised crashes it. */
  lemma {:induction false} AnnounceIff(announcedEnd: bool, seen: seq<Observation>, i: nat)
    requires i < |Trace(announcedEnd, seen)|
    ensures Trace(announcedEnd, seen)[i].Announce? <==> seen[i].Target? && seen[i].composed.Some?
    ensures seen[i] == Target(None) ==> Trace(announcedEnd, seen)[i] == Crash
    ensures Trace(announcedEnd, seen)[i].Announce? ==> seen[i].composed == Some(Trace(announcedEnd, seen)[i].announcement)
    decreases i
  {
    if i > 0 {
      var (action, next) := Cycle(announcedEnd, seen[0]);
      var t := Trace(announcedEnd, seen);
      assert action != Crash && t == [action] + Trace(next, seen[1..]);
      assert t[i] == Trace(next, seen[1..])[i - 1];
      assert seen[1..][i - 1] == seen[i];
      AnnounceIff(next, seen[1..], i - 1);
    }
  }

  /** The end message plays exactly in a cycle that sees no target while the
      previous cycle saw one (or, in the first cycle, while the flag is clear). */
  lemma {:induction false} EndOfServiceIff(announcedEnd: bool, seen: seq<Observation>, i: nat)
    requires i < |Trace(announcedEnd, seen)|
    ensures Trace(announcedEnd, seen)[i] == EndOfService <==>
      seen[i].NoTarget? && (if i == 0 then !announcedEnd else seen[i - 1].Target?)
    decreases i
  {
    if i > 0 {
      var (action, next) := Cycle(announcedEnd, seen[0]);
      var t := Trace(announcedEnd, seen);
      assert action != Crash && t == [action] + Trace(next, seen[1..]);
      assert t[i] == Trace(next, seen[1..])[i - 1];
      assert seen[1..][i - 1] == seen[i];
      assert i > 1 ==> seen[1..][i - 2] == seen[i - 1];
      assert !next <==> seen[0].Target?;
      EndOfServiceIff(next, seen[1..], i - 1);
    }
  }

  /** Between two end messages some cycle announced a departure: the end message
      plays once per stretch of cycles without a target. */
  lemma EndOfServiceOncePerStretch(announcedEnd: bool, seen: seq<Observation>, i: nat, j: nat)
    requires i < j < |Trace(announcedEnd, seen)|
    requires Trace(announcedEnd, seen)[i] == EndOfService
    requires Trace(announcedEnd, seen)[j] == EndOfService
    ensures exists k :: i < k < j && Trace(announcedEnd, seen)[k].Announce?
  {
    var t := Trace(announcedEnd, seen);
    EndOfServiceIff(announcedEnd, seen, i);
    EndOfServiceIff(announcedEnd, seen, j);
    assert seen[i].NoTarget? && seen[j - 1].Target?;
    TraceShape(announcedEnd, seen);
    assert t[j - 1] != Crash;
    AnnounceIff(announcedEnd, seen, j - 1);
    assert t[j - 1].Announce?;
  }

  /** What the cycles make of a sequence of snapshots. */
  function ObserveAll(snapshots: seq<Option<Row>>): (seen: seq<Observation>)
    ensures |seen| == |snapshots|
    ensures forall i :: 0 <= i < |snapshots| ==> seen[i] == Observe(snapshots[i])
  {
    seq(|snapshots|, i requires 0 <= i < |snapshots| => Observe(snapshots[i]))
  }

  /** From a clear flag, the end message plays exactly in a cycle whose snapshot is
      empty while the previous cycle's was not. */
  lemma EndOfServiceAfterTarget(snapshots: seq<Option<Row>>, k: nat)
    requires k < |Trace(false, ObserveAll(snapshots))|
    ensures Trace(false, ObserveAll(snapshots))[k] == EndOfService <==>
      !Truthy(snapshots[k]) && (k == 0 || Truthy(snapshots[k - 1]))
  {
    var seen := ObserveAll(snapshots);
    EndOfServiceIff(false, seen, k);
    assert seen[k].NoTarget? <==> !Truthy(snapshots[k]);
    assert k > 0 ==> (seen[k - 1].Target? <==> Truthy(snapshots[k - 1]));
  }

  /** Taking one cycle that does not crash off the front of a run. */
  lemma TraceAdvance(announcedEnd: bool, rest: seq<Observation>, action: Action, next: bool,
                     before: seq<Action>, whole: seq<Action>)
    requires |rest| > 0 && (action, next) == Cycle(announcedEnd, rest[0]) && action != Crash
    requires before + Trace(announcedEnd, rest) == whole
    ensures (before + [action]) + Trace(next, rest[1..]) == whole
  {
    assert Trace(announcedEnd, rest) == [action] + Trace(next, rest[1..]);
    assert before + ([action] + Trace(next, rest[1..])) == (before + [action]) + Trace(next, rest[1..]);
  }

  /** A cycle that crashes ends the run. */
  lemma TraceStops(announcedEnd: bool, rest: seq<Observation>, before: seq<Action>, whole: seq<Action>)
    requires |rest| > 0 && Cycle(announcedEnd, rest[0]).0 == Crash
    requires before + Trace(announcedEnd, rest) == whole
    ensures before + [Crash] == whole
  {
    assert Trace(announcedEnd, rest) == [Crash];
  }

  /** One pass of the loop body of `announcement_loop`: the action taken on the
      locked copy and the new value of `announced_end_message`. */
  method RunCycle(announcedEnd: bool, current: Option<Row>) returns (action: Action, next: bool)
    ensures (action, next) == Cycle(announcedEnd, Observe(current))
  {
    next := announcedEnd;
    if Truthy(current) {
      var announcement := ComposeAnnouncement(current.value);
      if announcement.None? {
        action := Crash;
        return;
      }
      action := Announce(announcement.value);
      next := false;
    } else if !announcedEnd {
      action := EndOfService;
      next := true;
    } else {
      action := Idle;
    }
  }

  /** `announcement_loop`, run for as many cycles as there are snapshots. */
  method AnnouncementLoop(snapshots: seq<Option<Row>>) returns (actions: seq<Action>)
    ensures actions == Trace(false, ObserveAll(snapshots))
  {
    ghost var seen := ObserveAll(snapshots);
    var announcedEndMessage := false;
    actions := [];
    var i := 0;
    while i < |snapshots|
      invariant 0 <= i <= |snapshots| && |actions| == i
      invariant actions + Trace(announcedEndMessage, seen[i..]) == Trace(false, seen)
    {
      assert seen[i..][0] == Observe(snapshots[i]) && seen[i..][1..] == seen[i + 1..];
      var action, next := RunCycle(announcedEndMessage, snapshots[i]);
      if action == Crash {
        TraceStops(announcedEndMessage, seen[i..], actions, Trace(false, seen));
        actions := actions + [Crash];
        break;
      }
      TraceAdvance(announcedEndMessage, seen[i..], action, next, actions, Trace(false, seen));
      actions := actions + [action];
      announcedEndMessage := next;
      i := i + 1;
    }
  }
}
