/** What a replay shows the policy at each row, in terms of the recorded rows and the predictions made before. */
module ReplayShown {
  import opened Collections
  import opened TextLines
  import opened Options
  import opened Replay

  // ----- The time since the last simulated push -----

  /** Prediction `j` is the latest before place `i` that pings, at a dated row. */
  ghost predicate LatestPush(ps: seq<Prediction>, i: int, j: int) {
    && 0 <= j < i <= |ps| && ps[j].decision.action == "notch_ping" && ps[j].ts.Some?
    && forall k :: j < k < i ==> ps[k].decision.action != "notch_ping" || ps[k].ts.None?
  }

  ghost predicate NoPush(ps: seq<Prediction>, i: int) {
    0 <= i <= |ps| && forall k :: 0 <= k < i ==> ps[k].decision.action != "notch_ping" || ps[k].ts.None?
  }

  lemma PushesOfMore(ps: seq<Prediction>, p: Prediction, i: int)
    requires 0 <= i <= |ps|
    ensures NoPush(ps + [p], i) <==> NoPush(ps, i)
    ensures forall j :: LatestPush(ps + [p], i, j) <==> LatestPush(ps, i, j)
  {
    var all := ps + [p];
    assert forall k :: 0 <= k < |ps| ==> all[k] == ps[k];
    if NoPush(all, i) {
      assert forall k :: 0 <= k < i ==> ps[k] == all[k];
    }
    forall j ensures LatestPush(all, i, j) <==> LatestPush(ps, i, j) {
      if LatestPush(all, i, j) {
        assert forall k :: j < k < i ==> ps[k] == all[k];
      }
    }
  }

  /** A new prediction is the latest push if it is one, and else changes nothing. */
  lemma PushesAtEnd(ps: seq<Prediction>, p: Prediction)
    ensures var all, n := ps + [p], |ps|;
            if p.decision.action == "notch_ping" && p.ts.Some? then
              !NoPush(all, |all|) && forall j :: LatestPush(all, |all|, j) <==> j == n
            else
              (NoPush(all, |all|) <==> NoPush(ps, n)) && forall j :: LatestPush(all, |all|, j) <==> LatestPush(ps, n, j)
  {
    var all, n := ps + [p], |ps|;
    PushesOfMore(ps, p, n);
    assert all[n] == p;
  }

  lemma TickPredicts(policy: Policy, redact: Redact, outcomes: seq<Outcome>, s: State, row: Event, clock: Reading)
    ensures var t := Tick(policy, redact, outcomes, s, row, clock);
            var d := policy(Seen(s, row), SnapshotOf(s, row, clock, redact), RecentOutcomes(outcomes, row.ts));
            && t.predictions == s.predictions + [Prediction(row.id, row.ts, row.scene, row.app, d)]
            && t.lastPush == if d.action == "notch_ping" && row.ts.Some? then row.ts else s.lastPush
  {
    hide SnapshotOf, Slide, RecentOutcomes, Seen;
  }

  /** The simulated push time is the date of the latest prediction that pings. */
  lemma {:induction false} LastPushIs(policy: Policy, redact: Redact, outcomes: seq<Outcome>, rows: seq<Event>,
                                      clocks: Clocks)
    ensures var s := Run(policy, redact, outcomes, rows, clocks);
            && (s.lastPush.None? <==> NoPush(s.predictions, |rows|))
            && forall j :: LatestPush(s.predictions, |rows|, j) ==>
                             0 <= j < |rows| && s.lastPush == rows[j].ts && rows[j].ts.Some?
  {
    hide Run, SnapshotOf, Slide, RecentOutcomes, Seen, Tick;
    if rows == [] {
      RunNothing(policy, redact, outcomes, clocks);
      assert rows == [];
    } else {
      hide LatestPush, NoPush;
      var n := |rows| - 1;
      LastPushIs(policy, redact, outcomes, rows[..n], clocks);
      var s, t := Run(policy, redact, outcomes, rows[..n], clocks), Run(policy, redact, outcomes, rows, clocks);
      RunStep(policy, redact, outcomes, rows, clocks, n);
      assert rows[..n + 1] == rows;
      TickPredicts(policy, redact, outcomes, s, rows[n], clocks(n));
      NextPush(s, t, rows, t.predictions[n]);
    }
  }

  lemma NextPush(s: State, t: State, rows: seq<Event>, p: Prediction)
    requires rows != [] && |s.predictions| == |rows| - 1 && t.predictions == s.predictions + [p]
    requires p.ts == rows[|rows| - 1].ts
    requires t.lastPush == if p.decision.action == "notch_ping" && p.ts.Some? then p.ts else s.lastPush
    requires s.lastPush.None? <==> NoPush(s.predictions, |rows| - 1)
    requires forall j :: LatestPush(s.predictions, |s.predictions|, j) ==>
               0 <= j < |rows| - 1 && s.lastPush == rows[..|rows| - 1][j].ts && rows[j].ts.Some?
    ensures t.lastPush.None? <==> NoPush(t.predictions, |rows|)
    ensures forall j :: LatestPush(t.predictions, |rows|, j) ==>
              0 <= j < |rows| && t.lastPush == rows[j].ts && rows[j].ts.Some?
  {
    hide LatestPush, NoPush;
    PushesAtEnd(s.predictions, p);
    assert |t.predictions| == |rows|;
  }

  lemma PushInRange(ps: seq<Prediction>, i: int, j: int)
    requires LatestPush(ps, i, j)
    ensures 0 <= j < i
  {
  }

  lemma {:induction false} PushesOfPrefix(ps: seq<Prediction>, i: int)
    requires 0 <= i <= |ps|
    ensures NoPush(ps, i) <==> NoPush(ps[..i], i)
    ensures forall j :: LatestPush(ps, i, j) <==> LatestPush(ps[..i], i, j)
    decreases |ps|
  {
    if i < |ps| {
      var n := |ps| - 1;
      assert ps == ps[..n] + [ps[n]] && ps[..n][..i] == ps[..i];
      PushesOfMore(ps[..n], ps[n], i);
      PushesOfPrefix(ps[..n], i);
    } else {
      assert ps[..i] == ps;
    }
  }

  /** Main result, over whole runs: the policy decides on the recorded row itself, but for the minutes since the last
      push. At a dated row these are 9999 if no earlier dated row's prediction was a ping, and else the minutes, not
      below zero, from the latest such row; an undated row is shown as recorded. */
  lemma RowIsShown(policy: Policy, redact: Redact, outcomes: seq<Outcome>, rows: seq<Event>, clocks: Clocks, i: nat)
    requires i < |rows|
    ensures var ps, row := Run(policy, redact, outcomes, rows, clocks).predictions, rows[i];
            var s := Run(policy, redact, outcomes, rows[..i], clocks);
            var shown := Seen(s, row);
            && |ps| == |rows| && s.predictions == ps[..i]
            && ps[i] == Prediction(row.id, row.ts, row.scene, row.app,
                                   policy(shown, SnapshotOf(s, row, clocks(i), redact),
                                          RecentOutcomes(outcomes, row.ts)))
            && shown == row.(sincePush := shown.sincePush)
            && (row.ts.None? ==> shown.sincePush == row.sincePush)
            && (row.ts.Some? && NoPush(ps, i) ==> shown.sincePush == 9999.0)
            && (forall j :: row.ts.Some? && LatestPush(ps, i, j) ==>
                  && j < |rows| && rows[j].ts.Some?
                  && shown.sincePush == if row.ts.value <= rows[j].ts.value then 0.0
                                        else (row.ts.value - rows[j].ts.value) as real / 60.0)
            && (NoPush(ps, i) || exists j :: LatestPush(ps, i, j))
  {
    hide Run, SnapshotOf, Slide, RecentOutcomes, Tick, LatestPush, NoPush;
    var ps := Run(policy, redact, outcomes, rows, clocks).predictions;
    RowIsPredicted(policy, redact, outcomes, rows, clocks, i);
    LastPushIs(policy, redact, outcomes, rows[..i], clocks);
    PushesOfPrefix(ps, i);
    PushOrNot(ps, i);
    forall j | LatestPush(ps, i, j) ensures 0 <= j < i && rows[j] == rows[..i][j] {
      PushInRange(ps, i, j);
    }
  }

  lemma RowIsPredicted(policy: Policy, redact: Redact, outcomes: seq<Outcome>, rows: seq<Event>, clocks: Clocks, i: nat)
    requires i < |rows|
    ensures var ps, row := Run(policy, redact, outcomes, rows, clocks).predictions, rows[i];
            var s := Run(policy, redact, outcomes, rows[..i], clocks);
            && |ps| == |rows| && s.predictions == ps[..i]
            && ps[i] == Prediction(row.id, row.ts, row.scene, row.app,
                                   policy(Seen(s, row), SnapshotOf(s, row, clocks(i), redact),
                                          RecentOutcomes(outcomes, row.ts)))
  {
    hide Run, SnapshotOf, Slide, RecentOutcomes, Tick, Seen;
    var ps := Run(policy, redact, outcomes, rows, clocks).predictions;
    RunPrefix(policy, redact, outcomes, rows, clocks, i);
    RunPrefix(policy, redact, outcomes, rows, clocks, i + 1);
    RunStep(policy, redact, outcomes, rows, clocks, i);
    TickPredicts(policy, redact, outcomes, Run(policy, redact, outcomes, rows[..i], clocks), rows[i], clocks(i));
    assert ps[i] == ps[..i + 1][i];
  }

  lemma {:induction false} PushOrNot(ps: seq<Prediction>, i: int)
    requires 0 <= i <= |ps|
    ensures NoPush(ps, i) || exists j :: LatestPush(ps, i, j)
  {
    if i > 0 {
      PushOrNot(ps, i - 1);
      if ps[i - 1].decision.action == "notch_ping" && ps[i - 1].ts.Some? {
        assert LatestPush(ps, i, i - 1);
      } else if !NoPush(ps, i - 1) {
        var j :| LatestPush(ps, i - 1, j);
        assert LatestPush(ps, i, j);
      }
    }
  }

  // ----- The entries that count -----

  /** Valid work, entry by entry and in order: active, not sensitive by flag or label, and a frame at most a minute
      old. */
  lemma {:induction false} ValidOnlyIs(s: seq<Entry>, e: Entry)
    ensures ValidOnly([]) == []
    ensures ValidOnly(s + [e])
            == ValidOnly(s) + if e.event.active && !e.event.sensitive && e.event.scene != "sensitive"
                                 && e.event.frameAge <= 60 then [e] else []
  {
    assert (s + [e])[..|s|] == s;
  }

  // ----- The features of the snapshot -----

  /** What the memory tells of a non-empty window: the apps and scenes of the last thirty valid entries, the pause
      before the last entry, and whether a session boundary lies there. */
  lemma MemoryShows(s: seq<Entry>, recent15m: seq<Entry>, now: Option<int>, redact: Redact, taken: int)
    requires s != []
    ensures var m, valid := MemoryOf(s, recent15m, now, redact, taken), ValidOnly(s);
            var last, n := s[|s| - 1], |m.apps|;
            && m.taken == taken && n == |m.scenes| == (if |valid| > 30 then 30 else |valid|)
            && (forall k :: 0 <= k < n ==>
                  var e := valid[|valid| - n + k].event;
                  m.scenes[k] == e.scene && m.apps[k] == (if e.app.Some? then e.app.value else ""))
            && m.switches == |SwitchPoints(ValidOnly(recent15m))|
            && (|s| == 1 || s[|s| - 2].at >= last.at ==> m.lastGap == 0)
            && (|s| > 1 && s[|s| - 2].at < last.at ==> m.lastGap == last.at - s[|s| - 2].at)
            && (m.boundary == CaptureGap <==> last.event.captureGap > 90)
            && (m.boundary == IdleGap <==>
                  last.event.captureGap <= 90 && |s| > 1 && last.at - s[|s| - 2].at > 90)
  {
    SwitchesCountPoints(ValidOnly(recent15m));
    hide ValidOnly, WorkflowContext, Switches, SwitchPoints, RunSince, Minutes, ValidWork, Or;
  }

  /** Entry `j` links up with the next one: at most ninety seconds apart, work on the app of the last entry, after no
      gap in capture. */
  predicate Link(s: seq<Entry>, j: nat)
    requires j + 1 < |s|
  {
    var e := s[j].event;
    && s[j + 1].at - s[j].at <= 90 && e.app == s[|s| - 1].event.app && e.captureGap <= 90
    && e.active && !e.sensitive && e.scene != "sensitive" && e.frameAge <= 60
  }

  /** The entries from `k` on link up, and the one before them does not. */
  ghost predicate RunFrom(s: seq<Entry>, k: nat) {
    && k < |s| && (forall j: nat :: k <= j && j + 1 < |s| ==> Link(s, j))
    && (k > 0 ==> !Link(s, k - 1))
  }

  /** The minutes on the app, in plain terms: from the first of the entries that link up to the last one, and none
      if that is no work or follows a gap in capture. */
  lemma MinutesExactly(s: seq<Entry>, recent15m: seq<Entry>, now: int, redact: Redact, taken: int, k: nat)
    requires s != [] && s[|s| - 1].at == now && now != 0 && RunFrom(s, k)
    ensures var e := s[|s| - 1].event;
            MemoryOf(s, recent15m, Some(now), redact, taken).minutesOnApp
            == if !e.active || e.sensitive || e.scene == "sensitive" || e.frameAge > 60 || e.captureGap > 90
                  || now <= s[k].at then 0.0
               else (now - s[k].at) as real / 60.0
  {
    hide MemoryOf, RunFrom, Unbroken, LongestRun;
    RunIsLongest(s, k);
    MinutesSpanTheLongestRun(s, recent15m, Some(now), redact, taken, k);
  }

  lemma LinkContinues(s: seq<Entry>, j: nat)
    requires j + 1 < |s|
    ensures Link(s, j) <==> Continues(s[j], s[j + 1].at, s[|s| - 1].event.app)
  {
  }

  lemma RunIsLongest(s: seq<Entry>, k: nat)
    requires RunFrom(s, k)
    ensures LongestRun(s, k)
  {
    hide Link, Continues;
    forall j: nat | j + 1 < |s| ensures Link(s, j) <==> Continues(s[j], s[j + 1].at, s[|s| - 1].event.app) {
      LinkContinues(s, j);
    }
    forall j | k <= j < |s| - 1 ensures Continues(s[j], s[j + 1].at, s[|s| - 1].event.app) {
      assert Link(s, j);
    }
    forall i: nat | i < k ensures !Unbroken(s, i) {
      assert !Link(s, k - 1) && !Continues(s[k - 1], s[k - 1 + 1].at, s[|s| - 1].event.app);
    }
  }

  /** Each quality flag stands for one plain fact about the entry. */
  lemma FlagsExactly(e: Event)
    ensures var flags := FlagsOf(e);
            && (AppUnknown in flags <==> (e.app.None? || e.app.value == "") && e.bundle == "")
            && (WindowUnknown in flags <==> forall i :: 0 <= i < |e.title| ==> e.title[i] in " \t\n\r")
            && (NoOcr in flags <==> forall i :: 0 <= i < |e.ocr| ==> e.ocr[i] in " \t\n\r")
            && (StaleFrame in flags <==> e.frameAge > 60)
            && (GapInCapture in flags <==> e.captureGap > 90)
            && (SensitiveScene in flags <==> e.sensitive || e.scene == "sensitive")
  {
  }

  /** `needle` stands somewhere in `hay`. */
  ghost predicate Occurs(needle: string, hay: string) {
    exists i :: 0 <= i <= |hay| - |needle| && needle <= hay[i..]
  }

  /** A preview takes up a text it does not show yet, after a separator, and never grows over 240 characters. */
  lemma PreviewExactly(shown: string, more: string)
    ensures var p := Merge(shown, more);
            && (more == "" || Occurs(more, shown) ==> p == shown)
            && (more != "" && !Occurs(more, shown) ==>
                  var full := if shown == "" then more else shown + " / " + more;
                  && p <= full && (|full| <= 240 ==> p == full) && (|full| > 240 ==> |p| == 240))
  {
    ContainsIsSubstring(more, shown);
    assert Contains(more, shown) <==> Occurs(more, shown);
    hide Contains, Occurs;
  }

  /** Which entries share a group: those of one workflow; and those without one, of one app and title, in one slot of
      ninety seconds. An absent app and an empty one are the same unknown app. */
  lemma GroupedExactly(a: Entry, b: Entry)
    ensures a.event.workflowId != "" && b.event.workflowId != "" ==>
              (KeyOf(a) == KeyOf(b) <==> a.event.workflowId == b.event.workflowId)
    ensures a.event.workflowId == b.event.workflowId == "" && SameApp(a.event, b.event)
            && a.event.title == b.event.title ==>
              (KeyOf(a) == KeyOf(b) <==> a.at / 90 == b.at / 90)
  {
    if a.event.workflowId == b.event.workflowId == "" && SameApp(a.event, b.event)
       && a.event.title == b.event.title {
      var front := AppOr(a.event, "unknown") + "|" + a.event.title + "|";
      assert KeyOf(a) == front + IntText(a.at / 90) && KeyOf(b) == front + IntText(b.at / 90);
      hide KeyOf, IntText, AppOr;
      if KeyOf(a) == KeyOf(b) {
        assert KeyOf(a)[|front|..] == IntText(a.at / 90) && KeyOf(b)[|front|..] == IntText(b.at / 90);
        NumberTells(a.at / 90, b.at / 90);
      }
    }
  }

  predicate SameApp(a: Event, b: Event) {
    || (a.app.Some? && a.app.value != "" && a.app == b.app)
    || ((a.app.None? || a.app.value == "") && (b.app.None? || b.app.value == ""))
  }

  lemma {:induction false} DecimalStarts(n: nat)
    ensures '0' <= Decimal(n)[0] <= '9' && (|Decimal(n)| == 1 <==> n < 10)
  {
    if n >= 10 {
      DecimalStarts(n / 10);
    }
  }

  lemma {:induction false} DecimalTells(a: nat, b: nat)
    requires Decimal(a) == Decimal(b)
    ensures a == b
  {
    var s, t := Decimal(a), Decimal(b);
    DecimalStarts(a);
    DecimalStarts(b);
    if a >= 10 {
      assert s[..|s| - 1] == Decimal(a / 10) && t[..|t| - 1] == Decimal(b / 10);
      assert s[|s| - 1] == ('0' as int + a % 10) as char && t[|t| - 1] == ('0' as int + b % 10) as char;
      DecimalTells(a / 10, b / 10);
    }
  }

  lemma NumberTells(a: int, b: int)
    requires IntText(a) == IntText(b)
    ensures a == b
  {
    DecimalStarts(if a < 0 then -a else a);
    DecimalStarts(if b < 0 then -b else b);
    hide Decimal;
    assert a < 0 <==> IntText(a)[0] == '-';
    assert b < 0 <==> IntText(b)[0] == '-';
    if a < 0 {
      assert IntText(a)[1..] == Decimal(-a) && IntText(b)[1..] == Decimal(-b);
      DecimalTells(-a, -b);
    } else {
      DecimalTells(a, b);
    }
  }

  /** The texts of a group: app and title are the first entry's, the title redacted and cut at 180 characters; the
      scene is the last one that is not empty; and the preview takes up the redacted texts one after the other. */
  lemma {:induction false} GroupTexts(s: seq<Entry>, redact: Redact)
    requires s != []
    ensures var row, first, last := GroupOf(s, redact).row, s[0].event, s[|s| - 1].event;
            && row.workflowId == first.workflowId
            && row.app == (if first.app.None? || first.app.value == "" then "unknown" else first.app.value)
            && row.title == (var t := redact(first.title); if |t| > 180 then t[..180] else t)
            && (last.scene != "" ==> row.scene == last.scene)
            && (last.scene == "" ==> row.scene == if |s| == 1 then "" else GroupOf(s[..|s| - 1], redact).row.scene)
            && row.preview
               == Merge(if |s| == 1 then "" else GroupOf(s[..|s| - 1], redact).row.preview, redact(last.ocr))
  {
    hide FlagsOf, Merge;
    if |s| > 1 {
      GroupTexts(s[..|s| - 1], redact);
      assert s[..|s| - 1][0] == s[0];
    }
  }

  /** The last entry is no work, or follows a gap in capture. */
  predicate Pausing(s: seq<Entry>)
    requires s != []
  {
    var e := s[|s| - 1].event;
    !e.active || e.sensitive || e.scene == "sensitive" || e.frameAge > 60 || e.captureGap > 90
  }

  /** The time from which the workflow summary looks back: the event's; where that is missing, the last entry's, or,
      at work, the one at which the run on its app began, which also stands in for the epoch. */
  function Looking(s: seq<Entry>, now: Option<int>, k: nat): int
    requires s != [] && k < |s|
  {
    if now.Some? && (now.value != 0 || Pausing(s)) then now.value
    else if Pausing(s) then s[|s| - 1].at
    else s[k].at
  }

  lemma FreshOfKey(s: seq<Entry>, cutoff: int, key: string, e: Entry)
    ensures e in OfKey(s, cutoff, key) <==> e in s && e.at >= cutoff && KeyOf(e) == key
  {
    hide KeyOf;
    if s != [] {
      FreshOfKey(s[..|s| - 1], cutoff, key, e);
      assert s == s[..|s| - 1] + [s[|s| - 1]];
    }
  }

  /** Six rows, or as many as there are groups: the last groups in the order of their first entries, each summed up
      from its own entries alone. */
  ghost predicate LastGroups(rows: seq<WorkflowRow>, s: seq<Entry>, cutoff: int, redact: Redact) {
    var keys := LastN(SpineOf(s, cutoff, redact).order, 6);
    |rows| == |keys| && forall j :: 0 <= j < |rows| ==> SumsUp(rows[j], OfKey(s, cutoff, keys[j]), redact)
  }

  predicate SumsUp(row: WorkflowRow, own: seq<Entry>, redact: Redact) {
    own != [] && row == GroupOf(own, redact).row
  }

  /** The workflow summary: the last six, in the order of their first entries, of the groups that the entries of the
      last five minutes make, each summed up from those entries alone. */
  lemma WorkflowShows(s: seq<Entry>, recent15m: seq<Entry>, now: Option<int>, redact: Redact, taken: int, k: nat)
    requires s != [] && RunFrom(s, k) && (now.Some? ==> s[|s| - 1].at == now.value)
    ensures LastGroups(MemoryOf(s, recent15m, now, redact, taken).workflow, s, Looking(s, now, k) - 300, redact)
  {
    assert k < |s|;
    hide *;
    WorkflowLooks(s, recent15m, now, redact, taken, k);
    GroupsShown(s, Looking(s, now, k) - 300, redact);
  }

  lemma GroupsShown(s: seq<Entry>, cutoff: int, redact: Redact)
    ensures var spine := SpineOf(s, cutoff, redact);
            LastGroups(RowsFor(LastN(spine.order, 6), spine.groups), s, cutoff, redact)
  {
    var spine := SpineOf(s, cutoff, redact);
    var keys := LastN(spine.order, 6);
    forall j | 0 <= j < |keys|
      ensures keys[j] in spine.groups && SumsUp(spine.groups[keys[j]].row, OfKey(s, cutoff, keys[j]), redact)
    {
      LastNIs(spine.order, 6);
      GroupsAreSummaries(s, cutoff, redact, keys[j]);
    }
    hide SpineOf, OfKey, SumsUp, LastN, RowsFor;
    RowsAre(keys, spine.groups);
  }

  lemma LastNIs<T>(s: seq<T>, n: nat)
    ensures forall x :: x in LastN(s, n) ==> x in s
  {
  }

  lemma {:induction false} RowsAre(order: seq<string>, groups: map<string, Group>)
    requires forall key :: key in order ==> key in groups
    ensures var rows := RowsFor(order, groups);
            |rows| == |order| && forall j :: 0 <= j < |rows| ==> rows[j] == groups[order[j]].row
  {
    if order != [] {
      RowsAre(order[..|order| - 1], groups);
    }
  }

  lemma WorkflowLooks(s: seq<Entry>, recent15m: seq<Entry>, now: Option<int>, redact: Redact, taken: int, k: nat)
    requires s != [] && RunFrom(s, k) && (now.Some? ==> s[|s| - 1].at == now.value)
    ensures var spine := SpineOf(s, Looking(s, now, k) - 300, redact);
            MemoryOf(s, recent15m, now, redact, taken).workflow == RowsFor(LastN(spine.order, 6), spine.groups)
  {
    hide SpineOf, RowsFor, MemoryOf, RunSince, WorkflowContext, LastN, Pausing, Link;
    RunBegins(s, now, k);
    MemoryLooks(s, recent15m, now, redact, taken);
    ContextIs(s, if Pausing(s) then now else Some(Or(now, RunSince(s, now))), Looking(s, now, k) - 300, redact);
  }

  lemma ContextIs(s: seq<Entry>, at: Option<int>, cutoff: int, redact: Redact)
    requires s != [] && cutoff == (if at.Some? then at.value else s[|s| - 1].at) - 300
    ensures var spine := SpineOf(s, cutoff, redact);
            WorkflowContext(s, at, redact) == RowsFor(LastN(spine.order, 6), spine.groups)
  {
    hide SpineOf, RowsFor, LastN;
  }

  lemma MemoryLooks(s: seq<Entry>, recent15m: seq<Entry>, now: Option<int>, redact: Redact, taken: int)
    requires s != []
    ensures MemoryOf(s, recent15m, now, redact, taken).workflow
            == WorkflowContext(s, if Pausing(s) then now else Some(Or(now, RunSince(s, now))), redact)
  {
    LastIsValid(s);
    hide WorkflowContext, RunSince, ValidOnly, Switches, AppNames, Scenes, LastGap, SessionBoundary, Minutes, LastN;
  }

  /** Where the event's time is missing or the epoch, the walk starts at the last entry. */
  lemma RunBegins(s: seq<Entry>, now: Option<int>, k: nat)
    requires s != [] && RunFrom(s, k) && (now.Some? ==> s[|s| - 1].at == now.value)
    ensures RunSince(s, now) == s[k].at
  {
    var n := |s| - 1;
    RunIsLongest(s, k);
    LastAlone(s);
    RunStartIsLongest(s, n);
    OneLongest(s, k, RunStart(s, n, s[n].at, s[n].event.app));
    hide RunStart, RunFrom, LongestRun, Unbroken;
  }
}
