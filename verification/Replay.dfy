/** Offline replay of a policy over recorded candidate events: two sliding windows, the memory built
    from them, and the loop that feeds the policy. Times are integer seconds. */
module Replay {
  import opened Collections
  import opened TextLines
  import opened Options

  const TWO_HOURS := 7200
  const QUARTER := 900
  const GAP := 90

  /** One recorded candidate. Absent texts are empty; `ts` is absent when it cannot be parsed. */
  datatype Event = Event(
    id: string, ts: Option<int>,
    active: bool, app: Option<string>, bundle: string, title: string, ocr: string,
    captureGap: int, frameAge: int, sensitive: bool,
    scene: string, workflowId: string, sincePush: real)

  /** A queued event with the time it is filed under. */
  datatype Entry = Entry(event: Event, at: int)

  datatype Outcome = Outcome(id: string, ts: Option<int>)

  datatype Boundary = NoBoundary | CaptureGap | IdleGap

  datatype Flag = AppUnknown | WindowUnknown | NoOcr | StaleFrame | GapInCapture | SensitiveScene

  datatype WorkflowRow = WorkflowRow(
    workflowId: string, startTs: Option<int>, lastTs: Option<int>, duration: int,
    app: string, title: string, scene: string, count: nat, preview: string, flags: set<Flag>)

  /** A row under construction, with the times its duration is computed from. */
  datatype Group = Group(row: WorkflowRow, startAt: int, lastAt: int)

  /** The snapshot shown to the policy; `taken` is the clock when it was built. */
  datatype Memory = Memory(
    taken: int, apps: seq<string>, scenes: seq<string>, switches: nat, minutesOnApp: real,
    lastGap: int, boundary: Boundary, workflow: seq<WorkflowRow>)

  datatype Decision = Decision(action: string, detail: string)

  datatype Prediction = Prediction(id: string, ts: Option<int>, scene: string, app: Option<string>, decision: Decision)

  /** The clock readings of one tick: for filing an undated event, and for stamping the snapshot. */
  datatype Reading = Reading(wall: int, taken: int)

  type Policy = (Event, Memory, seq<Outcome>) -> Decision
  type Redact = string -> string
  type Clocks = nat -> Reading

  // ---------------------------------------------------------------- windows

  /** Drops too-old entries from the front only. */
  function Trim(s: seq<Entry>, cutoff: int): seq<Entry> {
    if s == [] || s[0].at >= cutoff then s else Trim(s[1..], cutoff)
  }

  /** Every entry at or after the cutoff. */
  function Since(s: seq<Entry>, cutoff: int): seq<Entry> {
    if s == [] then [] else if s[0].at >= cutoff then [s[0]] + Since(s[1..], cutoff) else Since(s[1..], cutoff)
  }

  method TrimWindow(events: seq<Entry>, cutoff: int) returns (kept: seq<Entry>)
    ensures kept == Trim(events, cutoff)
  {
    kept := events;
    while kept != []
      invariant Trim(kept, cutoff) == Trim(events, cutoff)
      decreases |kept|
    {
      if kept[0].at >= cutoff {
        break;
      }
      kept := kept[1..];
    }
  }

  predicate OldThenFresh(s: seq<Entry>, cutoff: int) {
    forall i, j :: 0 <= i < j < |s| && s[i].at >= cutoff ==> s[j].at >= cutoff
  }

  lemma {:induction false} SinceLength(s: seq<Entry>, cutoff: int)
    ensures |Since(s, cutoff)| <= |s|
    ensures |Since(s, cutoff)| == |s| <==> forall i :: 0 <= i < |s| ==> s[i].at >= cutoff
    ensures |Since(s, cutoff)| == |s| ==> Since(s, cutoff) == s
  {
    if s != [] {
      SinceLength(s[1..], cutoff);
      assert forall i :: 0 < i < |s| ==> s[i] == s[1..][i - 1];
      assert forall i :: 0 <= i < |s[1..]| ==> s[1..][i] == s[i + 1];
    }
  }

  /** Exact: dropping from the front is filtering exactly when no too-old entry waits behind a fresh one. */
  lemma {:induction false} TrimIsFilterExactly(s: seq<Entry>, cutoff: int)
    ensures Trim(s, cutoff) == Since(s, cutoff) <==> OldThenFresh(s, cutoff)
  {
    if s != [] {
      if s[0].at >= cutoff {
        SinceLength(s, cutoff);
        if OldThenFresh(s, cutoff) {
          assert forall i :: 0 <= i < |s| ==> s[i].at >= cutoff;
        }
      } else {
        TrimIsFilterExactly(s[1..], cutoff);
        if OldThenFresh(s[1..], cutoff) {
          forall i, j | 0 <= i < j < |s| && s[i].at >= cutoff
            ensures s[j].at >= cutoff
          {
            assert s[i] == s[1..][i - 1] && s[j] == s[1..][j - 1];
          }
        }
      }
    }
  }

  lemma {:induction false} SinceTwice(s: seq<Entry>, older: int, newer: int)
    requires older <= newer
    ensures Since(Since(s, older), newer) == Since(s, newer)
  {
    if s != [] {
      SinceTwice(s[1..], older, newer);
      if s[0].at >= older {
        assert ([s[0]] + Since(s[1..], older))[1..] == Since(s[1..], older);
      }
    }
  }

  lemma {:induction false} SinceSnoc(s: seq<Entry>, e: Entry, cutoff: int)
    ensures Since(s + [e], cutoff) == if e.at >= cutoff then Since(s, cutoff) + [e] else Since(s, cutoff)
  {
    if s == [] {
      assert s + [e] == [e] && [e][1..] == [];
    } else {
      assert (s + [e])[0] == s[0] && (s + [e])[1..] == s[1..] + [e];
      SinceSnoc(s[1..], e, cutoff);
    }
  }

  predicate NoLater(s: seq<Entry>, now: int) {
    forall e :: e in s ==> e.at <= now
  }

  predicate Ordered(s: seq<Entry>) {
    forall i, j :: 0 <= i < j < |s| ==> s[i].at <= s[j].at
  }

  lemma {:induction false} SinceOrdered(s: seq<Entry>, cutoff: int)
    requires Ordered(s)
    ensures Ordered(Since(s, cutoff))
    ensures forall e :: e in Since(s, cutoff) ==> e.at >= cutoff && e in s
  {
    if s != [] {
      SinceOrdered(s[1..], cutoff);
      assert forall e :: e in s[1..] ==> s[0].at <= e.at;
    }
  }

  // ---------------------------------------------------------------- derived memory features

  predicate ValidWork(e: Event) {
    e.active && !e.sensitive && e.scene != "sensitive" && e.frameAge <= 60
  }

  function ValidOnly(s: seq<Entry>): seq<Entry> {
    if s == [] then []
    else if ValidWork(s[|s| - 1].event) then ValidOnly(s[..|s| - 1]) + [s[|s| - 1]]
    else ValidOnly(s[..|s| - 1])
  }

  /** The app of the last entry: an unknown app forgets the one before it. */
  function LastApp(s: seq<Entry>): Option<string> {
    if s == [] then None else s[|s| - 1].event.app
  }

  function Switches(s: seq<Entry>): nat {
    if s == [] then 0
    else
      var front := s[..|s| - 1];
      if LastApp(front).Some? && s[|s| - 1].event.app != LastApp(front) then Switches(front) + 1 else Switches(front)
  }

  function AppNames(s: seq<Entry>): seq<string> {
    seq(|s|, i requires 0 <= i < |s| => if s[i].event.app.Some? then s[i].event.app.value else "")
  }

  function Scenes(s: seq<Entry>): seq<string> {
    seq(|s|, i requires 0 <= i < |s| => s[i].event.scene)
  }

  function LastGap(s: seq<Entry>): int {
    if |s| < 2 then 0
    else if s[|s| - 1].at - s[|s| - 2].at > 0 then s[|s| - 1].at - s[|s| - 2].at else 0
  }

  function SessionBoundary(s: seq<Entry>): Boundary {
    if s == [] then NoBoundary
    else if s[|s| - 1].event.captureGap > GAP then CaptureGap
    else if LastGap(s) > GAP then IdleGap
    else NoBoundary
  }

  /** An earlier entry continues the run that reaches back to time `next`. */
  predicate Continues(e: Entry, next: int, app: Option<string>) {
    next - e.at <= GAP && ValidWork(e.event) && e.event.app == app && e.event.captureGap <= GAP
  }

  /** How far back the run reaches: the index of its first entry. */
  function RunStart(s: seq<Entry>, i: nat, next: int, app: Option<string>): (k: nat)
    requires i <= |s|
    ensures k <= i
  {
    if i == 0 || !Continues(s[i - 1], next, app) then i else RunStart(s, i - 1, s[i - 1].at, app)
  }

  /** `now_ts or other`: zero counts as absent. */
  function Or(now: Option<int>, other: int): int {
    if now.Some? && now.value != 0 then now.value else other
  }

  /** The time at which the run on the current app began. */
  function RunSince(s: seq<Entry>, now: Option<int>): int
    requires s != []
  {
    var top := Or(now, s[|s| - 1].at);
    var k := RunStart(s, |s| - 1, top, s[|s| - 1].event.app);
    if k == |s| - 1 then top else s[k].at
  }

  function Minutes(seconds: int): real {
    if seconds <= 0 then 0.0 else seconds as real / 60.0
  }

  // ---------------------------------------------------------------- the workflow spine

  function IntText(n: int): string {
    if n < 0 then "-" + Decimal(-n) else Decimal(n)
  }

  function AppOr(e: Event, other: string): string {
    if e.app.Some? && e.app.value != "" then e.app.value else other
  }

  function KeyOf(e: Entry): string {
    if e.event.workflowId != "" then e.event.workflowId
    else AppOr(e.event, "unknown") + "|" + e.event.title + "|" + IntText(e.at / GAP)
  }

  predicate Blank(s: string) {
    forall i :: 0 <= i < |s| ==> s[i] in " \t\n\r"
  }

  function FlagsOf(e: Event): set<Flag> {
    (if AppOr(e, "") == "" && e.bundle == "" then {AppUnknown} else {})
    + (if Blank(e.title) then {WindowUnknown} else {})
    + (if Blank(e.ocr) then {NoOcr} else {})
    + (if e.frameAge > 60 then {StaleFrame} else {})
    + (if e.captureGap > GAP then {GapInCapture} else {})
    + (if e.sensitive || e.scene == "sensitive" then {SensitiveScene} else {})
  }

  function Merge(shown: string, more: string): string {
    if more == "" || Contains(more, shown) then shown
    else Take(if shown == "" then more else shown + " / " + more, 240)
  }

  function NewGroup(e: Entry, redact: Redact): Group {
    Group(WorkflowRow(e.event.workflowId, e.event.ts, e.event.ts, 0, AppOr(e.event, "unknown"),
                      Take(redact(e.event.title), 180), e.event.scene, 0, "", {}),
          e.at, e.at)
  }

  function Extend(g: Group, e: Entry, redact: Redact): Group {
    Group(g.row.(
          lastTs := e.event.ts,
          duration := if e.at - g.startAt > 0 then e.at - g.startAt else 0,
          scene := if e.event.scene != "" then e.event.scene else g.row.scene,
          count := g.row.count + 1,
          flags := g.row.flags + FlagsOf(e.event),
          preview := Merge(g.row.preview, redact(e.event.ocr))),
          g.startAt, e.at)
  }

  datatype Spine = Spine(order: seq<string>, groups: map<string, Group>)

  function Add(s: Spine, e: Entry, redact: Redact): Spine {
    var key := KeyOf(e);
    if key in s.groups then s.(groups := s.groups[key := Extend(s.groups[key], e, redact)])
    else Spine(s.order + [key], s.groups[key := Extend(NewGroup(e, redact), e, redact)])
  }

  /** The one-pass grouping: a dictionary of rows and the order in which their keys first appeared. */
  function SpineOf(s: seq<Entry>, cutoff: int, redact: Redact): Spine {
    if s == [] then Spine([], map[])
    else
      var front := SpineOf(s[..|s| - 1], cutoff, redact);
      if s[|s| - 1].at < cutoff then front else Add(front, s[|s| - 1], redact)
  }

  /** The entries of one group, in order. */
  function OfKey(s: seq<Entry>, cutoff: int, key: string): seq<Entry> {
    if s == [] then []
    else
      var front := OfKey(s[..|s| - 1], cutoff, key);
      if s[|s| - 1].at >= cutoff && KeyOf(s[|s| - 1]) == key then front + [s[|s| - 1]] else front
  }

  /** The summary of one group on its own. */
  function GroupOf(s: seq<Entry>, redact: Redact): Group
    requires s != []
  {
    Extend(if |s| == 1 then NewGroup(s[0], redact) else GroupOf(s[..|s| - 1], redact), s[|s| - 1], redact)
  }

  /** The rows as they are handed out, without the group's own times. */
  function RowsFor(order: seq<string>, groups: map<string, Group>): seq<WorkflowRow> {
    if order == [] then []
    else
      var front, key := RowsFor(order[..|order| - 1], groups), order[|order| - 1];
      if key in groups then front + [groups[key].row] else front
  }

  function WorkflowContext(s: seq<Entry>, now: Option<int>, redact: Redact): seq<WorkflowRow> {
    if s == [] then []
    else
      var spine := SpineOf(s, (if now.Some? then now.value else s[|s| - 1].at) - 300, redact);
      RowsFor(LastN(spine.order, 6), spine.groups)
  }

  lemma SpineStart(s: seq<Entry>, cutoff: int, redact: Redact)
    ensures SpineOf(s[..0], cutoff, redact) == Spine([], map[])
  {
  }

  lemma SpineStep(s: seq<Entry>, i: nat, cutoff: int, redact: Redact)
    requires i < |s|
    ensures SpineOf(s[..i + 1], cutoff, redact)
            == if s[i].at < cutoff then SpineOf(s[..i], cutoff, redact)
                else Add(SpineOf(s[..i], cutoff, redact), s[i], redact)
  {
    assert s[..i + 1][..i] == s[..i];
  }

  /** A new key gets a fresh group first, which the entry then extends. */
  lemma AddIs(order: seq<string>, groups: map<string, Group>, e: Entry, redact: Redact)
    ensures var key := KeyOf(e);
            Add(Spine(order, groups), e, redact)
            == if key in groups then Spine(order, groups[key := Extend(groups[key], e, redact)])
               else Spine(order + [key],
                          groups[key := NewGroup(e, redact)][key := Extend(NewGroup(e, redact), e, redact)])
  {
    hide KeyOf, Extend, NewGroup;
  }

  method WorkflowContextForRecent(recent: seq<Entry>, now: Option<int>, redact: Redact) returns (out: seq<WorkflowRow>)
    ensures out == WorkflowContext(recent, now, redact)
  {
    if recent == [] {
      return [];
    }
    var cutoff := (if now.Some? then now.value else recent[|recent| - 1].at) - 300;
    SpineStart(recent, cutoff, redact);
    ghost var context := WorkflowContext(recent, now, redact);
    assert context == RowsFor(LastN(SpineOf(recent, cutoff, redact).order, 6), SpineOf(recent, cutoff, redact).groups);
    hide Extend, NewGroup, KeyOf, SpineOf, RowsFor, Add, LastN, WorkflowContext;
    var groups: map<string, Group>, order: seq<string> := map[], [];
    for i := 0 to |recent|
      invariant Spine(order, groups) == SpineOf(recent[..i], cutoff, redact)
    {
      SpineStep(recent, i, cutoff, redact);
      var e := recent[i];
      if e.at < cutoff {
        continue;
      }
      AddIs(order, groups, e, redact);
      var key := KeyOf(e);
      if key !in groups {
        order := order + [key];
        groups := groups[key := NewGroup(e, redact)];
      }
      groups := groups[key := Extend(groups[key], e, redact)];
    }
    assert recent[..|recent|] == recent;
    out := CopyRows(LastN(order, 6), groups);
  }

  /** The closing loop: the rows of the given keys, in their order, without their private times. */
  method CopyRows(order: seq<string>, groups: map<string, Group>) returns (out: seq<WorkflowRow>)
    ensures out == RowsFor(order, groups)
  {
    out := [];
    for i := 0 to |order|
      invariant out == RowsFor(order[..i], groups)
    {
      assert order[..i + 1][..i] == order[..i];
      if order[i] in groups {
        out := out + [groups[order[i]].row];
      }
    }
    assert order[..|order|] == order;
  }

  function MemoryOf(recent2h: seq<Entry>, recent15m: seq<Entry>, now: Option<int>, redact: Redact, taken: int): Memory {
    if recent2h == [] then Memory(taken, [], [], 0, 0.0, 0, NoBoundary, [])
    else
      var valid := LastN(ValidOnly(recent2h), 30);
      var last := recent2h[|recent2h| - 1];
      var idle := ValidOnly(recent2h) == [] || !ValidWork(last.event) || last.event.captureGap > GAP;
      var since := RunSince(recent2h, now);
      Memory(taken, AppNames(valid), Scenes(valid), Switches(ValidOnly(recent15m)),
             if idle then 0.0 else Minutes(Or(now, since) - since),
             LastGap(recent2h), SessionBoundary(recent2h),
             WorkflowContext(recent2h, if idle then now else Some(Or(now, since)), redact))
  }

  method KeepValid(recent: seq<Entry>) returns (valid: seq<Entry>)
    ensures valid == ValidOnly(recent)
  {
    valid := [];
    for i := 0 to |recent|
      invariant valid == ValidOnly(recent[..i])
    {
      assert recent[..i + 1][..i] == recent[..i];
      if ValidWork(recent[i].event) {
        valid := valid + [recent[i]];
      }
    }
    assert recent[..|recent|] == recent;
  }

  method CountSwitches(valid: seq<Entry>) returns (switches: nat)
    ensures switches == Switches(valid)
  {
    switches := 0;
    var prev: Option<string> := None;
    for i := 0 to |valid|
      invariant switches == Switches(valid[..i]) && prev == LastApp(valid[..i])
    {
      assert valid[..i + 1][..i] == valid[..i];
      var app := valid[i].event.app;
      if prev.Some? && app != prev {
        switches := switches + 1;
      }
      prev := app;
    }
    assert valid[..|valid|] == valid;
  }

  method MemoryForWindows(recent2h: seq<Entry>, recent15m: seq<Entry>, now: Option<int>, redact: Redact, taken: int)
    returns (m: Memory)
    ensures m == MemoryOf(recent2h, recent15m, now, redact, taken)
  {
    hide WorkflowContext, Switches, ValidOnly, AppNames, Scenes, Minutes, SessionBoundary, LastGap, ValidWork;
    if recent2h == [] {
      return Memory(taken, [], [], 0, 0.0, 0, NoBoundary, []);
    }
    var valid2h := KeepValid(recent2h);
    var valid15m := KeepValid(recent15m);
    var switches := CountSwitches(valid15m);
    var last := recent2h[|recent2h| - 1];
    var apps, scenes := AppNames(LastN(valid2h, 30)), Scenes(LastN(valid2h, 30));
    if valid2h == [] || !ValidWork(last.event) || last.event.captureGap > GAP {
      var workflow := WorkflowContextForRecent(recent2h, now, redact);
      return Memory(taken, apps, scenes, switches, 0.0, LastGap(recent2h), SessionBoundary(recent2h), workflow);
    }
    var app := last.event.app;
    var startTs := Or(now, last.at);
    var lastTs := startTs;
    var i := |recent2h| - 1;
    while i > 0
      invariant 0 <= i < |recent2h|
      invariant lastTs == startTs
      invariant startTs == if i == |recent2h| - 1 then Or(now, last.at) else recent2h[i].at
      invariant RunStart(recent2h, i, lastTs, app) == RunStart(recent2h, |recent2h| - 1, Or(now, last.at), app)
    {
      var e := recent2h[i - 1];
      if lastTs - e.at > GAP {
        break;
      }
      if !ValidWork(e.event) {
        break;
      }
      if e.event.app != app {
        break;
      }
      if e.event.captureGap > GAP {
        break;
      }
      startTs := e.at;
      lastTs := e.at;
      i := i - 1;
    }
    assert startTs == RunSince(recent2h, now);
    var nowTs := Or(now, startTs);
    var workflow := WorkflowContextForRecent(recent2h, Some(nowTs), redact);
    m := Memory(taken, apps, scenes, switches, Minutes(nowTs - startTs), LastGap(recent2h), SessionBoundary(recent2h),
                workflow);
  }

  // ---------------------------------------------------------------- the replay loop

  function Eligible(outcomes: seq<Outcome>, ts: int): seq<Outcome> {
    if outcomes == [] then []
    else
      var o := outcomes[|outcomes| - 1];
      var front := Eligible(outcomes[..|outcomes| - 1], ts);
      if o.ts.Some? && o.ts.value < ts then front + [o] else front
  }

  /** Exactly the outcomes strictly before the event are eligible. */
  lemma {:induction false} EligibleExactly(outcomes: seq<Outcome>, ts: int, o: Outcome)
    ensures o in Eligible(outcomes, ts) <==> o in outcomes && o.ts.Some? && o.ts.value < ts
  {
    if outcomes != [] {
      var n := |outcomes| - 1;
      EligibleExactly(outcomes[..n], ts, o);
      assert outcomes == outcomes[..n] + [outcomes[n]];
    }
  }

  function RecentOutcomes(outcomes: seq<Outcome>, ts: Option<int>): seq<Outcome> {
    if ts.None? then [] else LastN(Eligible(outcomes, ts.value), 5)
  }

  /** An outcome at the event's own time is not shown, one a second older is. */
  lemma SameTimeIsNotShown(id: string, t: int)
    ensures RecentOutcomes([Outcome(id, Some(t))], Some(t)) == []
    ensures RecentOutcomes([Outcome(id, Some(t))], Some(t + 1)) == [Outcome(id, Some(t))]
  {
    var o := Outcome(id, Some(t));
    assert [o][..0] == [];
    assert Eligible([], t) == [] && Eligible([], t + 1) == [];
    assert Eligible([o], t) == [] && Eligible([o], t + 1) == [] + [o] == [o];
  }

  method RecentOutcomesFor(outcomes: seq<Outcome>, ts: Option<int>) returns (recent: seq<Outcome>)
    ensures recent == RecentOutcomes(outcomes, ts)
  {
    if ts.None? {
      return [];
    }
    var eligible: seq<Outcome> := [];
    for i := 0 to |outcomes|
      invariant eligible == Eligible(outcomes[..i], ts.value)
    {
      assert outcomes[..i + 1][..i] == outcomes[..i];
      if outcomes[i].ts.Some? && outcomes[i].ts.value < ts.value {
        eligible := eligible + [outcomes[i]];
      }
    }
    assert outcomes[..|outcomes|] == outcomes;
    recent := LastN(eligible, 5);
  }

  datatype State = State(recent2h: seq<Entry>, recent15m: seq<Entry>, lastPush: Option<int>,
                         predictions: seq<Prediction>)

  const START := State([], [], None, [])

  /** The event as the policy sees it: with the time since the last simulated push. */
  function Seen(s: State, row: Event): Event {
    if row.ts.None? then row
    else row.(sincePush := if s.lastPush.None? then 9999.0 else Minutes(row.ts.value - s.lastPush.value))
  }

  function Filed(s: State, row: Event, clock: Reading): Entry {
    Entry(Seen(s, row), if row.ts.Some? then row.ts.value else clock.wall)
  }

  function Slide(window: seq<Entry>, row: Event, span: int): seq<Entry> {
    if row.ts.Some? then Trim(window, row.ts.value - span) else window
  }

  function SnapshotOf(s: State, row: Event, clock: Reading, redact: Redact): Memory {
    var e := Filed(s, row, clock);
    MemoryOf(Slide(s.recent2h, row, TWO_HOURS) + [e], Slide(s.recent15m, row, QUARTER) + [e], row.ts, redact,
             clock.taken)
  }

  function Tick(policy: Policy, redact: Redact, outcomes: seq<Outcome>, s: State, row: Event, clock: Reading): State {
    var e := Filed(s, row, clock);
    var d := policy(e.event, SnapshotOf(s, row, clock, redact), RecentOutcomes(outcomes, row.ts));
    State(Slide(s.recent2h, row, TWO_HOURS) + [e], Slide(s.recent15m, row, QUARTER) + [e],
          if d.action == "notch_ping" && row.ts.Some? then row.ts else s.lastPush,
          s.predictions + [Prediction(row.id, row.ts, row.scene, row.app, d)])
  }

  function Run(policy: Policy, redact: Redact, outcomes: seq<Outcome>, rows: seq<Event>, clocks: Clocks): (s: State)
    ensures |s.predictions| == |rows|
  {
    if rows == [] then START
    else
      Tick(policy, redact, outcomes, Run(policy, redact, outcomes, rows[..|rows| - 1], clocks), rows[|rows| - 1],
           clocks(|rows| - 1))
  }

  lemma RunStep(policy: Policy, redact: Redact, outcomes: seq<Outcome>, rows: seq<Event>, clocks: Clocks, i: nat)
    requires i < |rows|
    ensures Run(policy, redact, outcomes, rows[..i + 1], clocks)
            == Tick(policy, redact, outcomes, Run(policy, redact, outcomes, rows[..i], clocks), rows[i], clocks(i))
  {
    hide Tick;
    assert rows[..i + 1][..i] == rows[..i];
  }

  lemma RunNothing(policy: Policy, redact: Redact, outcomes: seq<Outcome>, clocks: Clocks)
    ensures Run(policy, redact, outcomes, [], clocks) == START
  {
  }

  method ReplayAll(policy: Policy, redact: Redact, outcomes: seq<Outcome>, rows: seq<Event>, clocks: Clocks)
    returns (predictions: seq<Prediction>)
    ensures predictions == Run(policy, redact, outcomes, rows, clocks).predictions
  {
    hide MemoryOf, RecentOutcomes, Minutes, Trim, Run;
    predictions := [];
    assert rows[..0] == [];
    RunNothing(policy, redact, outcomes, clocks);
    var recent2h: seq<Entry>, recent15m: seq<Entry>, lastPush: Option<int> := [], [], None;
    for i := 0 to |rows|
      invariant State(recent2h, recent15m, lastPush, predictions) == Run(policy, redact, outcomes, rows[..i], clocks)
    {
      RunStep(policy, redact, outcomes, rows, clocks, i);
      var event := rows[i];
      if event.ts.Some? {
        event := event.(sincePush :=
          if lastPush.None? then 9999.0 else Minutes(event.ts.value - lastPush.value));
        recent2h := TrimWindow(recent2h, event.ts.value - TWO_HOURS);
        recent15m := TrimWindow(recent15m, event.ts.value - QUARTER);
      }
      var at := if event.ts.Some? then event.ts.value else clocks(i).wall;
      recent2h := recent2h + [Entry(event, at)];
      recent15m := recent15m + [Entry(event, at)];
      var mem := MemoryForWindows(recent2h, recent15m, event.ts, redact, clocks(i).taken);
      var recent := RecentOutcomesFor(outcomes, event.ts);
      var decision := policy(event, mem, recent);
      if decision.action == "notch_ping" && event.ts.Some? {
        lastPush := event.ts;
      }
      predictions := predictions + [Prediction(rows[i].id, rows[i].ts, rows[i].scene, rows[i].app, decision)];
    }
    assert rows[..|rows|] == rows;
  }

  // ---------------------------------------------------------------- no future leakage

  lemma {:induction false} EligibleNests(a: seq<Outcome>, b: seq<Outcome>, ts: int, bound: int)
    requires ts <= bound && Eligible(a, bound) == Eligible(b, bound)
    ensures Eligible(a, ts) == Eligible(b, ts)
  {
    EligibleTwice(a, ts, bound);
    EligibleTwice(b, ts, bound);
  }

  lemma {:induction false} EligibleTwice(a: seq<Outcome>, ts: int, bound: int)
    requires ts <= bound
    ensures Eligible(Eligible(a, bound), ts) == Eligible(a, ts)
  {
    if a != [] {
      var front, o := a[..|a| - 1], a[|a| - 1];
      EligibleTwice(front, ts, bound);
      if o.ts.Some? && o.ts.value < bound {
        assert (Eligible(front, bound) + [o])[..|Eligible(front, bound)|] == Eligible(front, bound);
      }
    }
  }

  lemma {:induction false} RunPrefix(policy: Policy, redact: Redact, outcomes: seq<Outcome>, rows: seq<Event>,
                                     clocks: Clocks, n: nat)
    requires n <= |rows|
    ensures Run(policy, redact, outcomes, rows, clocks).predictions[..n]
            == Run(policy, redact, outcomes, rows[..n], clocks).predictions
  {
    hide MemoryOf, RecentOutcomes, Slide, Filed;
    if rows == [] {
    } else if n == |rows| {
      RunPrefix(policy, redact, outcomes, rows[..n - 1], clocks, n - 1);
      assert rows[..n] == rows;
    } else {
      RunPrefix(policy, redact, outcomes, rows[..|rows| - 1], clocks, n);
      assert rows[..|rows| - 1][..n] == rows[..n];
    }
  }

  lemma {:induction false} SameRuns(policy: Policy, redact: Redact, a: seq<Outcome>, b: seq<Outcome>, rows: seq<Event>,
                                    ca: Clocks, cb: Clocks, bound: int)
    requires forall i :: 0 <= i < |rows| ==> ca(i) == cb(i)
    requires forall r :: r in rows && r.ts.Some? ==> r.ts.value <= bound
    requires Eligible(a, bound) == Eligible(b, bound)
    ensures Run(policy, redact, a, rows, ca) == Run(policy, redact, b, rows, cb)
  {
    if rows != [] {
      hide MemoryOf, Slide, Filed, Eligible;
      SameRuns(policy, redact, a, b, rows[..|rows| - 1], ca, cb, bound);
      var row := rows[|rows| - 1];
      assert row in rows;
      if row.ts.Some? {
        EligibleNests(a, b, row.ts.value, bound);
      }
    }
  }

  /** Main result, no future leakage: for any policy, two datasets that agree on the first `n` rows,
      replayed against outcome logs that agree, in order, on everything before the latest of those rows,
      and with the same clock readings, give the same first `n` predictions. */
  lemma NoFutureLeakage(policy: Policy, redact: Redact, a: seq<Outcome>, b: seq<Outcome>, rows: seq<Event>,
                        others: seq<Event>, ca: Clocks, cb: Clocks, n: nat, bound: int)
    requires n <= |rows| && n <= |others| && rows[..n] == others[..n]
    requires forall i :: 0 <= i < n ==> ca(i) == cb(i)
    requires forall r :: r in rows[..n] && r.ts.Some? ==> r.ts.value <= bound
    requires Eligible(a, bound) == Eligible(b, bound)
    ensures Run(policy, redact, a, rows, ca).predictions[..n] == Run(policy, redact, b, others, cb).predictions[..n]
  {
    hide Run, Eligible;
    RunPrefix(policy, redact, a, rows, ca, n);
    RunPrefix(policy, redact, b, others, cb, n);
    SameRuns(policy, redact, a, b, rows[..n], ca, cb, bound);
  }

  // ---------------------------------------------------------------- the deques are filters of the history

  /** Everything ever filed, never trimmed. */
  function History(policy: Policy, redact: Redact, outcomes: seq<Outcome>, rows: seq<Event>,
                   clocks: Clocks): seq<Entry> {
    if rows == [] then []
    else
      var front := rows[..|rows| - 1];
      History(policy, redact, outcomes, front, clocks)
      + [Filed(Run(policy, redact, outcomes, front, clocks), rows[|rows| - 1], clocks(|rows| - 1))]
  }

  predicate Chronological(rows: seq<Event>) {
    && (forall r :: r in rows ==> r.ts.Some?)
    && (forall i, j :: 0 <= i < j < |rows| ==> rows[i].ts.value <= rows[j].ts.value)
  }

  lemma SlideIsFilter(history: seq<Entry>, old0: int, new0: int)
    requires Ordered(history) && old0 <= new0
    ensures Trim(Since(history, old0), new0) == Since(history, new0)
  {
    SinceOrdered(history, old0);
    TrimIsFilterExactly(Since(history, old0), new0);
    SinceTwice(history, old0, new0);
  }

  /** Main result: with nondecreasing event times, at every tick the two deques are the plain filters
      of the whole history by two hours and by fifteen minutes. */
  lemma {:induction false} WindowsAreFilters(policy: Policy, redact: Redact, outcomes: seq<Outcome>, rows: seq<Event>,
                                             clocks: Clocks)
    requires rows != [] && Chronological(rows)
    ensures var s, h := Run(policy, redact, outcomes, rows, clocks), History(policy, redact, outcomes, rows, clocks);
            var now := rows[|rows| - 1].ts.value;
            && s.recent2h == Since(h, now - TWO_HOURS)
            && s.recent15m == Since(h, now - QUARTER)
            && |h| == |rows| && Ordered(h)
            && NoLater(h, now)
            && s.recent2h != [] && s.recent2h[|s.recent2h| - 1].at == now
  {
    hide Trim, Since, Run, History, Filed, Ordered, Chronological, NoLater;
    var front, row := rows[..|rows| - 1], rows[|rows| - 1];
    var s, h := Run(policy, redact, outcomes, front, clocks), History(policy, redact, outcomes, front, clocks);
    var e := Filed(s, row, clocks(|front|));
    LastRow(policy, redact, outcomes, rows, clocks);
    var now := row.ts.value;
    if front == [] {
      StartsEmpty(policy, redact, outcomes, clocks);
      SinceNothing(now - TWO_HOURS);
      SinceNothing(now - QUARTER);
    } else {
      WindowsAreFilters(policy, redact, outcomes, front, clocks);
      LaterStill(h, front[|front| - 1].ts.value, now);
      SlideIsFilter(h, front[|front| - 1].ts.value - TWO_HOURS, now - TWO_HOURS);
      SlideIsFilter(h, front[|front| - 1].ts.value - QUARTER, now - QUARTER);
    }
    SinceSnoc(h, e, now - TWO_HOURS);
    SinceSnoc(h, e, now - QUARTER);
    OrderedSnoc(h, e);
  }

  lemma LastRow(policy: Policy, redact: Redact, outcomes: seq<Outcome>, rows: seq<Event>, clocks: Clocks)
    requires rows != [] && Chronological(rows)
    ensures var front, row := rows[..|rows| - 1], rows[|rows| - 1];
            var s, t := Run(policy, redact, outcomes, front, clocks), Run(policy, redact, outcomes, rows, clocks);
            var e := Filed(s, row, clocks(|front|));
            && Chronological(front) && row.ts.Some? && e.at == row.ts.value
            && (front != [] ==> front[|front| - 1].ts.Some? && front[|front| - 1].ts.value <= row.ts.value)
            && t.recent2h == Trim(s.recent2h, row.ts.value - TWO_HOURS) + [e]
            && t.recent15m == Trim(s.recent15m, row.ts.value - QUARTER) + [e]
            && History(policy, redact, outcomes, rows, clocks) == History(policy, redact, outcomes, front, clocks) + [e]
  {
    hide Trim, SnapshotOf, RecentOutcomes, Seen;
    assert rows[|rows| - 1] in rows;
  }

  lemma StartsEmpty(policy: Policy, redact: Redact, outcomes: seq<Outcome>, clocks: Clocks)
    ensures Run(policy, redact, outcomes, [], clocks) == START && History(policy, redact, outcomes, [], clocks) == []
    ensures Ordered([]) && forall now :: NoLater([], now)
  {
  }

  lemma LaterStill(h: seq<Entry>, t: int, now: int)
    requires NoLater(h, t) && t <= now
    ensures NoLater(h, now)
  {
  }

  lemma OrderedSnoc(h: seq<Entry>, e: Entry)
    requires Ordered(h) && NoLater(h, e.at)
    ensures Ordered(h + [e]) && NoLater(h + [e], e.at)
  {
  }

  lemma SinceNothing(cutoff: int)
    ensures Since([], cutoff) == [] && Trim([], cutoff) == []
  {
  }

  // ---------------------------------------------------------------- the time on the current app

  /** From entry `k` to the last one: one app, all valid, no capture gap and no pause over ninety seconds
      (the last entry's own fields are tested before the walk). */
  predicate Unbroken(s: seq<Entry>, k: nat) {
    k < |s| && forall j {:trigger s[j]} :: k <= j < |s| - 1 ==> Continues(s[j], s[j + 1].at, s[|s| - 1].event.app)
  }

  ghost predicate LongestRun(s: seq<Entry>, k: nat) {
    Unbroken(s, k) && forall i: nat :: Unbroken(s, i) ==> k <= i
  }

  /** Walking back from an unbroken position ends at the start of the longest unbroken run. */
  lemma {:induction false} RunStartIsLongest(s: seq<Entry>, i: nat)
    requires Unbroken(s, i)
    ensures LongestRun(s, RunStart(s, i, s[i].at, s[|s| - 1].event.app))
  {
    hide Continues;
    var app := s[|s| - 1].event.app;
    if i > 0 && Continues(s[i - 1], s[i].at, app) {
      forall j | i - 1 <= j < |s| - 1
        ensures Continues(s[j], s[j + 1].at, app)
      {
        if j == i - 1 {
          assert s[j + 1] == s[i];
        }
      }
      RunStartIsLongest(s, i - 1);
    } else {
      forall k: nat | k < i
        ensures !Unbroken(s, k)
      {
        assert s[i - 1 + 1] == s[i] && !Continues(s[i - 1], s[i - 1 + 1].at, app);
      }
    }
  }

  predicate Idle(s: seq<Entry>)
    requires s != []
  {
    !ValidWork(s[|s| - 1].event) || s[|s| - 1].event.captureGap > GAP
  }

  /** Main result: the reported minutes span exactly the longest unbroken run that ends at the current
      entry. They are zero when the current entry is not valid work or follows a capture gap, and also
      when the row is undated or dated at the epoch, which the code takes for a missing date. */
  lemma MinutesSpanTheLongestRun(s: seq<Entry>, recent15m: seq<Entry>, now: Option<int>, redact: Redact, taken: int,
                                 k: nat)
    requires s != [] && (now.Some? ==> s[|s| - 1].at == now.value) && LongestRun(s, k)
    ensures MemoryOf(s, recent15m, now, redact, taken).minutesOnApp
            == if Idle(s) || now.None? || now.value == 0 then 0.0 else Minutes(now.value - s[k].at)
  {
    hide ValidOnly, WorkflowContext, Switches, AppNames, Scenes, SessionBoundary, LastGap, ValidWork, Minutes,
         LongestRun, RunStart;
    var n := |s| - 1;
    MinutesOfNothing();
    LastAlone(s);
    RunStartIsLongest(s, n);
    OneLongest(s, k, RunStart(s, n, s[n].at, s[n].event.app));
    LastIsValid(s);
  }

  lemma MinutesOfNothing()
    ensures Minutes(0) == 0.0
  {
  }

  lemma LastAlone(s: seq<Entry>)
    requires s != []
    ensures Unbroken(s, |s| - 1)
  {
  }

  lemma OneLongest(s: seq<Entry>, k: nat, l: nat)
    requires LongestRun(s, k) && LongestRun(s, l)
    ensures k == l
  {
  }

  lemma LastIsValid(s: seq<Entry>)
    requires s != []
    ensures ValidWork(s[|s| - 1].event) ==> ValidOnly(s) != []
  {
  }

  /** In a replay with nondecreasing times the minutes lie between 0 and 120 at every tick. */
  lemma MinutesWithinTwoHours(policy: Policy, redact: Redact, outcomes: seq<Outcome>, rows: seq<Event>, clocks: Clocks)
    requires rows != [] && Chronological(rows)
    ensures var s := Run(policy, redact, outcomes, rows[..|rows| - 1], clocks);
            var m := SnapshotOf(s, rows[|rows| - 1], clocks(|rows| - 1), redact);
            0.0 <= m.minutesOnApp <= 120.0
  {
    hide Trim, Since, RecentOutcomes, Seen, MemoryOf, Ordered;
    var front, row := rows[..|rows| - 1], rows[|rows| - 1];
    var s := Run(policy, redact, outcomes, front, clocks);
    var h := History(policy, redact, outcomes, rows, clocks);
    WindowsAreFilters(policy, redact, outcomes, rows, clocks);
    assert row in rows;
    var e := Filed(s, row, clocks(|front|));
    var r2, r15 := Slide(s.recent2h, row, TWO_HOURS) + [e], Slide(s.recent15m, row, QUARTER) + [e];
    assert r2 == Run(policy, redact, outcomes, rows, clocks).recent2h;
    SinceOrdered(h, row.ts.value - TWO_HOURS);
    WithinTwoHours(r2, r15, row.ts, redact, clocks(|front|).taken);
  }

  lemma WithinTwoHours(s: seq<Entry>, recent15m: seq<Entry>, now: Option<int>, redact: Redact, taken: int)
    requires s != [] && now.Some? && s[|s| - 1].at == now.value
    requires forall e :: e in s ==> now.value - TWO_HOURS <= e.at <= now.value
    ensures 0.0 <= MemoryOf(s, recent15m, now, redact, taken).minutesOnApp <= 120.0
  {
    hide MemoryOf, RunStart, ValidWork;
    var n := |s| - 1;
    LastAlone(s);
    RunStartIsLongest(s, n);
    var k := RunStart(s, n, s[n].at, s[n].event.app);
    MinutesSpanTheLongestRun(s, recent15m, now, redact, taken, k);
    assert s[k] in s;
  }

  // ---------------------------------------------------------------- the workflow summary and the switches

  predicate NoRepeat(order: seq<string>) {
    forall i, j :: 0 <= i < j < |order| ==> order[i] != order[j]
  }

  /** The one-pass grouping is a group-by: each key has one row, the summary of its own entries alone. */
  lemma {:induction false} GroupsAreSummaries(s: seq<Entry>, cutoff: int, redact: Redact, key: string)
    ensures var spine := SpineOf(s, cutoff, redact);
            && NoRepeat(spine.order)
            && (key in spine.order <==> OfKey(s, cutoff, key) != [])
            && (key in spine.groups <==> OfKey(s, cutoff, key) != [])
            && (OfKey(s, cutoff, key) != [] ==> spine.groups[key] == GroupOf(OfKey(s, cutoff, key), redact))
  {
    if s != [] {
      hide KeyOf, Extend, NewGroup;
      var front, e := s[..|s| - 1], s[|s| - 1];
      GroupsAreSummaries(front, cutoff, redact, key);
      GroupsAreSummaries(front, cutoff, redact, KeyOf(e));
      var own := OfKey(front, cutoff, key);
      if e.at >= cutoff && KeyOf(e) == key {
        assert (own + [e])[..|own|] == own;
      }
    }
  }

  /** Keys stand in the order in which they first appeared. */
  lemma {:induction false} OrderOnlyGrows(s: seq<Entry>, cutoff: int, redact: Redact, i: nat)
    requires i <= |s|
    ensures SpineOf(s[..i], cutoff, redact).order <= SpineOf(s, cutoff, redact).order
  {
    if i == |s| {
      assert s[..i] == s;
    } else {
      hide KeyOf, Extend, NewGroup;
      OrderOnlyGrows(s[..|s| - 1], cutoff, redact, i);
      assert s[..|s| - 1][..i] == s[..i];
    }
  }

  /** What a group's row says about its entries. */
  lemma {:induction false} RowSummarises(s: seq<Entry>, redact: Redact)
    requires s != []
    ensures var g, first, last := GroupOf(s, redact), s[0], s[|s| - 1];
            var row := g.row;
            && row.count == |s|
            && row.startTs == first.event.ts && row.lastTs == last.event.ts && row.app == AppOr(first.event, "unknown")
            && g.startAt == first.at && g.lastAt == last.at
            && row.duration == (if last.at - first.at > 0 then last.at - first.at else 0)
            && (forall f :: f in row.flags <==> exists e :: e in s && f in FlagsOf(e.event))
  {
    hide FlagsOf, Merge, Take, AppOr;
    var last := s[|s| - 1];
    if |s| > 1 {
      var front := s[..|s| - 1];
      RowSummarises(front, redact);
      assert front[0] == s[0];
      assert forall e :: e in s <==> e in front || e == last;
    } else {
      assert forall e :: e in s <==> e == last;
    }
  }

  predicate SwitchAt(s: seq<Entry>, i: int) {
    0 < i < |s| && s[i - 1].event.app.Some? && s[i].event.app != s[i - 1].event.app
  }

  ghost function SwitchPoints(s: seq<Entry>): set<int> {
    set i | 0 < i < |s| && SwitchAt(s, i)
  }

  lemma SwitchPointsSnoc(s: seq<Entry>)
    requires s != []
    ensures var front, n := SwitchPoints(s[..|s| - 1]), |s| - 1;
            n !in front && SwitchPoints(s) == if SwitchAt(s, n) then front + {n} else front
  {
    var front, n := s[..|s| - 1], |s| - 1;
    forall i | 0 < i < n
      ensures SwitchAt(s, i) <==> SwitchAt(front, i)
    {
    }
    hide SwitchAt;
    if SwitchAt(s, n) {
      assert SwitchPoints(s) == SwitchPoints(front) + {n};
    } else {
      assert SwitchPoints(s) == SwitchPoints(front);
    }
  }

  /** Switches count the places where a known app is followed by a different one. */
  lemma {:induction false} SwitchesCountPoints(s: seq<Entry>)
    ensures Switches(s) == |SwitchPoints(s)|
  {
    if s != [] {
      var front, n := s[..|s| - 1], |s| - 1;
      SwitchesCountPoints(front);
      SwitchPointsSnoc(s);
      assert SwitchAt(s, n) <==> LastApp(front).Some? && s[n].event.app != LastApp(front);
      hide SwitchPoints, SwitchAt, LastApp;
    }
  }
}
