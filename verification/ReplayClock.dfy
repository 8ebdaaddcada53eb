/** When a replay's predictions depend on the clock it runs under. */
module ReplayClock {
  import opened Collections
  import opened Options
  import opened Replay
  import opened TextLines

  /** The policy does not look at when the snapshot was built. */
  ghost predicate IgnoresTaken(policy: Policy) {
    forall e, m: Memory, o, t {:trigger policy(e, m.(taken := t), o)} :: policy(e, m.(taken := t), o) == policy(e, m, o)
  }

  lemma Restamped(s: State, row: Event, a: Reading, b: Reading, redact: Redact)
    requires row.ts.Some?
    ensures SnapshotOf(s, row, b, redact) == SnapshotOf(s, row, a, redact).(taken := b.taken)
  {
    hide Slide, WorkflowContext, Switches, ValidOnly, AppNames, Scenes, Minutes, RunSince, SessionBoundary, LastGap,
         ValidWork, Seen;
  }

  lemma SameDecision(policy: Policy, redact: Redact, outcomes: seq<Outcome>, s: State, row: Event, a: Reading,
                     b: Reading)
    requires IgnoresTaken(policy) && row.ts.Some?
    ensures var o := RecentOutcomes(outcomes, row.ts);
            policy(Seen(s, row), SnapshotOf(s, row, a, redact), o)
                == policy(Seen(s, row), SnapshotOf(s, row, b, redact), o)
  {
    hide SnapshotOf, RecentOutcomes, Seen;
    Restamped(s, row, a, b, redact);
  }

  /** With every row dated, the replay clock can enter only through the snapshot's own stamp. */
  lemma {:induction false} DatedRunsIgnoreTheClock(policy: Policy, redact: Redact, outcomes: seq<Outcome>,
                                                   rows: seq<Event>, ca: Clocks, cb: Clocks)
    requires IgnoresTaken(policy) && forall r :: r in rows ==> r.ts.Some?
    ensures Run(policy, redact, outcomes, rows, ca) == Run(policy, redact, outcomes, rows, cb)
  {
    if rows != [] {
      hide Tick, IgnoresTaken;
      var row, front := rows[|rows| - 1], rows[..|rows| - 1];
      assert row in rows;
      DatedRunsIgnoreTheClock(policy, redact, outcomes, front, ca, cb);
      SameTick(policy, redact, outcomes, Run(policy, redact, outcomes, front, ca), row, ca(|front|), cb(|front|));
    }
  }

  lemma SameTick(policy: Policy, redact: Redact, outcomes: seq<Outcome>, s: State, row: Event, a: Reading, b: Reading)
    requires IgnoresTaken(policy) && row.ts.Some?
    ensures Tick(policy, redact, outcomes, s, row, a) == Tick(policy, redact, outcomes, s, row, b)
  {
    hide RecentOutcomes, SnapshotOf, Slide, Seen, IgnoresTaken;
    SameDecision(policy, redact, outcomes, s, row, a, b);
    assert Filed(s, row, a) == Filed(s, row, b);
  }

  // ---------------------------------------------------------------- when the clock matters

  /** No policy that ignores the snapshot's own stamp predicts anything else at other clock readings. */
  ghost predicate ClockFree(redact: Redact, outcomes: seq<Outcome>, rows: seq<Event>) {
    forall policy: Policy, ca: Clocks, cb: Clocks | IgnoresTaken(policy) ::
      Run(policy, redact, outcomes, rows, ca).predictions == Run(policy, redact, outcomes, rows, cb).predictions
  }

  predicate AllDated(rows: seq<Event>) {
    forall r :: r in rows ==> r.ts.Some?
  }

  /** Prediction `j` is the decision of tick `j`. */
  lemma PredictionAt(policy: Policy, redact: Redact, outcomes: seq<Outcome>, rows: seq<Event>, clocks: Clocks, j: nat)
    requires j < |rows|
    ensures var s := Run(policy, redact, outcomes, rows[..j], clocks);
            Run(policy, redact, outcomes, rows, clocks).predictions[j].decision
            == policy(Seen(s, rows[j]), SnapshotOf(s, rows[j], clocks(j), redact), RecentOutcomes(outcomes, rows[j].ts))
  {
    RunPrefix(policy, redact, outcomes, rows, clocks, j + 1);
    LastPrediction(policy, redact, outcomes, rows, clocks, j);
    hide *;
    var all, upto := Run(policy, redact, outcomes, rows, clocks).predictions,
                     Run(policy, redact, outcomes, rows[..j + 1], clocks).predictions;
    assert all[j] == all[..j + 1][j] == upto[j];
  }

  lemma LastPrediction(policy: Policy, redact: Redact, outcomes: seq<Outcome>, rows: seq<Event>, clocks: Clocks, j: nat)
    requires j < |rows|
    ensures var s := Run(policy, redact, outcomes, rows[..j], clocks);
            Run(policy, redact, outcomes, rows[..j + 1], clocks).predictions[j].decision
            == policy(Seen(s, rows[j]), SnapshotOf(s, rows[j], clocks(j), redact), RecentOutcomes(outcomes, rows[j].ts))
  {
    assert rows[..j + 1][..j] == rows[..j];
    hide SnapshotOf, Slide, RecentOutcomes, Seen;
  }

  /** A policy that acts on the pause since the entry before. */
  function OnPause(pause: int): Policy {
    (e, m: Memory, o) => Decision(if m.lastGap == pause then "notch_ping" else "silent", "")
  }

  lemma OnPauseIgnoresTaken(pause: int)
    ensures IgnoresTaken(OnPause(pause))
  {
  }

  /** The last two entries of the window decide the pause the policy sees. */
  lemma PauseSeen(s: State, row: Event, clock: Reading, redact: Redact)
    requires var w := Slide(s.recent2h, row, TWO_HOURS);
             w != [] && Filed(s, row, clock).at > w[|w| - 1].at
    ensures var w := Slide(s.recent2h, row, TWO_HOURS);
            SnapshotOf(s, row, clock, redact).lastGap == Filed(s, row, clock).at - w[|w| - 1].at
  {
    hide Slide, WorkflowContext, Switches, ValidOnly, AppNames, Scenes, Minutes, RunSince, SessionBoundary, ValidWork;
  }

  lemma LastFiled(policy: Policy, redact: Redact, outcomes: seq<Outcome>, rows: seq<Event>, clocks: Clocks)
    requires rows != []
    ensures var w, row := Run(policy, redact, outcomes, rows, clocks).recent2h, rows[|rows| - 1];
            w != [] && w[|w| - 1].at == if row.ts.Some? then row.ts.value else clocks(|rows| - 1).wall
  {
    hide SnapshotOf, RecentOutcomes, Trim;
  }

  /** Clocks that read `wall` at tick `j`, and zero otherwise. */
  function ClockAt(j: nat, wall: int): Clocks {
    (i: nat) => if i == j then Reading(wall, 0) else Reading(0, 0)
  }

  /** An undated row after another one: the policy sees the pause up to the clock reading. */
  lemma UndatedRowSees(redact: Redact, outcomes: seq<Outcome>, rows: seq<Event>, j: nat, pause: int, base: int)
    requires 0 < j < |rows| && rows[j].ts.None? && pause > 0
    requires base == if rows[j - 1].ts.Some? then rows[j - 1].ts.value else 0
    ensures Run(OnPause(1), redact, outcomes, rows, ClockAt(j, base + pause)).predictions[j].decision
            == Decision(if pause == 1 then "notch_ping" else "silent", "")
  {
    hide Run, SnapshotOf, RecentOutcomes, Seen, MemoryOf;
    var clocks := ClockAt(j, base + pause);
    var s := Run(OnPause(1), redact, outcomes, rows[..j], clocks);
    PredictionAt(OnPause(1), redact, outcomes, rows, clocks, j);
    LastFiled(OnPause(1), redact, outcomes, rows[..j], clocks);
    PauseSeen(s, rows[j], clocks(j), redact);
  }

  /** A dated row after an undated first one: the pause starts at the clock reading. */
  lemma DatedRowSees(redact: Redact, outcomes: seq<Outcome>, rows: seq<Event>, pause: int)
    requires |rows| > 1 && rows[0].ts.None? && rows[1].ts.Some? && 0 < pause < QUARTER
    ensures Run(OnPause(1), redact, outcomes, rows, ClockAt(0, rows[1].ts.value - pause)).predictions[1].decision
            == Decision(if pause == 1 then "notch_ping" else "silent", "")
  {
    hide Run, SnapshotOf, RecentOutcomes, Seen, MemoryOf;
    var clocks := ClockAt(0, rows[1].ts.value - pause);
    var s := Run(OnPause(1), redact, outcomes, rows[..1], clocks);
    PredictionAt(OnPause(1), redact, outcomes, rows, clocks, 1);
    FirstFiled(OnPause(1), redact, outcomes, rows, clocks);
    PauseSeen(s, rows[1], clocks(1), redact);
  }

  lemma FirstFiled(policy: Policy, redact: Redact, outcomes: seq<Outcome>, rows: seq<Event>, clocks: Clocks)
    requires |rows| > 0
    ensures var w := Run(policy, redact, outcomes, rows[..1], clocks).recent2h;
            |w| == 1 && w[0].at == if rows[0].ts.Some? then rows[0].ts.value else clocks(0).wall
  {
    hide SnapshotOf, RecentOutcomes;
    assert rows[..1][..0] == [];
  }

  lemma ClockMatters(redact: Redact, outcomes: seq<Outcome>, rows: seq<Event>)
    requires !AllDated(rows) && |rows| > 1
    ensures !ClockFree(redact, outcomes, rows)
  {
    var r :| r in rows && r.ts.None?;
    var j :| 0 <= j < |rows| && rows[j] == r;
    OnPauseIgnoresTaken(1);
    if exists u :: 0 < u < |rows| && rows[u].ts.None? {
      var u :| 0 < u < |rows| && rows[u].ts.None?;
      var base := if rows[u - 1].ts.Some? then rows[u - 1].ts.value else 0;
      UndatedRowSees(redact, outcomes, rows, u, 1, base);
      UndatedRowSees(redact, outcomes, rows, u, 2, base);
      hide Run, OnPause, ClockAt;
      Differ(redact, outcomes, rows, OnPause(1), ClockAt(u, base + 1), ClockAt(u, base + 2), u);
    } else {
      DatedRowSees(redact, outcomes, rows, 1);
      DatedRowSees(redact, outcomes, rows, 2);
      hide Run, OnPause, ClockAt;
      Differ(redact, outcomes, rows, OnPause(1), ClockAt(0, rows[1].ts.value - 1), ClockAt(0, rows[1].ts.value - 2), 1);
    }
  }

  lemma Differ(redact: Redact, outcomes: seq<Outcome>, rows: seq<Event>, policy: Policy, ca: Clocks, cb: Clocks, j: nat)
    requires IgnoresTaken(policy) && j < |rows|
    requires Run(policy, redact, outcomes, rows, ca).predictions[j]
             != Run(policy, redact, outcomes, rows, cb).predictions[j]
    ensures !ClockFree(redact, outcomes, rows)
  {
    hide Run;
  }

  /** Of a lone undated row nothing the policy sees depends on when it was filed. */
  lemma LoneWorkflow(e: Entry, now: Option<int>, redact: Redact)
    requires now.Some? ==> now.value == e.at
    ensures WorkflowContext([e], now, redact) == [Extend(NewGroup(e, redact), e, redact).row]
  {
    var cutoff, key := e.at - 300, KeyOf(e);
    assert [e][..0] == [];
    assert SpineOf([e][..0], cutoff, redact) == Spine([], map[]);
    AddIs([], map[], e, redact);
    hide Extend, NewGroup, KeyOf, Add;
    var spine := SpineOf([e], cutoff, redact);
    assert spine == Add(Spine([], map[]), e, redact);
    assert spine.order == [] + [key] == [key] && spine.groups[key] == Extend(NewGroup(e, redact), e, redact);
    LoneKey(key, spine.groups);
  }

  lemma LoneKey(key: string, groups: map<string, Group>)
    requires key in groups
    ensures RowsFor([key], groups) == [groups[key].row] && LastN([key], 6) == [key]
  {
    assert [key][..0] == [];
    assert RowsFor([], groups) == [];
    assert RowsFor([key], groups) == [] + [groups[key].row];
  }

  /** The snapshot of a lone undated row, without the time it was filed under. */
  lemma LoneMemory(e: Entry, redact: Redact, taken: int)
    ensures MemoryOf([e], [e], None, redact, taken)
            == Memory(taken,
                      if !ValidWork(e.event) then [] else [if e.event.app.Some? then e.event.app.value else ""],
                      if ValidWork(e.event) then [e.event.scene] else [], 0, 0.0, 0,
                      if e.event.captureGap > GAP then CaptureGap else NoBoundary,
                      [Extend(NewGroup(e, redact), e, redact).row])
  {
    LoneEntry(e);
    LoneWorkflow(e, None, redact);
    LoneWorkflow(e, Some(e.at), redact);
    assert RunSince([e], None) == e.at;
    assert LastN(ValidOnly([e]), 30) == ValidOnly([e]);
    MinutesOfNothing();
    hide WorkflowContext, ValidOnly, Switches, ValidWork, Extend, NewGroup, AppNames, Scenes, RunSince, Minutes, LastN;
  }

  lemma LoneRow(event: Event, a: int, b: int, redact: Redact)
    ensures var x, y := Entry(event, a), Entry(event, b);
            Extend(NewGroup(x, redact), x, redact).row == Extend(NewGroup(y, redact), y, redact).row
  {
    hide Merge, Take, FlagsOf, AppOr;
  }

  lemma LoneEntry(e: Entry)
    ensures ValidOnly([e]) == if ValidWork(e.event) then [e] else []
    ensures Switches(ValidOnly([e])) == 0
    ensures AppNames([e]) == [if e.event.app.Some? then e.event.app.value else ""] && Scenes([e]) == [e.event.scene]
    ensures AppNames([]) == [] && Scenes([]) == []
  {
    assert [e][..0] == [];
  }

  lemma LoneRowIgnoresTheClock(policy: Policy, redact: Redact, outcomes: seq<Outcome>, row: Event, ca: Clocks,
                               cb: Clocks)
    requires IgnoresTaken(policy) && row.ts.None?
    ensures Run(policy, redact, outcomes, [row], ca).predictions == Run(policy, redact, outcomes, [row], cb).predictions
  {
    PredictionAt(policy, redact, outcomes, [row], ca, 0);
    PredictionAt(policy, redact, outcomes, [row], cb, 0);
    LoneSnapshot(row, ca(0), cb(0), redact);
    assert [row][..0] == [];
    hide SnapshotOf, RecentOutcomes;
  }

  lemma LoneSnapshot(row: Event, a: Reading, b: Reading, redact: Redact)
    requires row.ts.None?
    ensures SnapshotOf(START, row, b, redact) == SnapshotOf(START, row, a, redact).(taken := b.taken)
  {
    hide MemoryOf, SnapshotOf, ValidWork, Extend, NewGroup;
    LoneSnapshotIs(row, a, redact);
    LoneSnapshotIs(row, b, redact);
    LoneRow(row, a.wall, b.wall, redact);
    LoneMemory(Entry(row, a.wall), redact, a.taken);
    LoneMemory(Entry(row, b.wall), redact, b.taken);
  }

  lemma LoneSnapshotIs(row: Event, clock: Reading, redact: Redact)
    requires row.ts.None?
    ensures var e := Entry(row, clock.wall);
            SnapshotOf(START, row, clock, redact) == MemoryOf([e], [e], None, redact, clock.taken)
  {
    hide MemoryOf;
    assert [] + [Entry(row, clock.wall)] == [Entry(row, clock.wall)];
  }

  /** Main result, exact: whatever policy replays the rows, as long as it does not look at the stamp of the
      snapshot, its predictions are the same at all clock readings if and only if every row is dated or
      there is at most one row. */
  lemma ClockFreeExactly(redact: Redact, outcomes: seq<Outcome>, rows: seq<Event>)
    ensures ClockFree(redact, outcomes, rows) <==> AllDated(rows) || |rows| <= 1
  {
    hide Run, IgnoresTaken;
    if AllDated(rows) || |rows| <= 1 {
      forall policy: Policy, ca: Clocks, cb: Clocks | IgnoresTaken(policy)
        ensures Run(policy, redact, outcomes, rows, ca).predictions
                == Run(policy, redact, outcomes, rows, cb).predictions
      {
        if AllDated(rows) {
          DatedRunsIgnoreTheClock(policy, redact, outcomes, rows, ca, cb);
        } else {
          assert rows == [rows[0]];
          LoneRowIgnoresTheClock(policy, redact, outcomes, rows[0], ca, cb);
        }
      }
    } else {
      ClockMatters(redact, outcomes, rows);
    }
  }

  // ---------------------------------------------------------------- clocks that run after the recording

  /** The readings never step back, and none is before a date in the rows. */
  ghost predicate Forward(clocks: Clocks, rows: seq<Event>) {
    && (forall i: nat, j: nat :: i <= j ==> clocks(i).wall <= clocks(j).wall)
    && (forall i: nat, r :: r in rows && r.ts.Some? ==> r.ts.value <= clocks(i).wall)
  }

  function Blur(m: Memory): Memory {
    m.(taken := 0, workflow := [])
  }

  /** The policy looks neither at the snapshot's stamp nor at its workflow summary. */
  ghost predicate Blind(policy: Policy) {
    forall e, m: Memory, o {:trigger policy(e, Blur(m), o)} :: policy(e, Blur(m), o) == policy(e, m, o)
  }

  /** No such policy predicts anything else at other readings of that kind. */
  ghost predicate ForwardFree(redact: Redact, outcomes: seq<Outcome>, rows: seq<Event>) {
    forall policy: Policy, ca: Clocks, cb: Clocks | Blind(policy) && Forward(ca, rows) && Forward(cb, rows) ::
      Run(policy, redact, outcomes, rows, ca).predictions == Run(policy, redact, outcomes, rows, cb).predictions
  }

  predicate RestDated(rows: seq<Event>) {
    forall i :: 0 < i < |rows| ==> rows[i].ts.Some?
  }

  // ----- A later undated row shows the clock -----

  /** Clocks that read `start` before tick `j`, and later from there on. */
  function Late(j: nat, start: int, wait: int): Clocks {
    (i: nat) => if i < j then Reading(start, 0) else Reading(start + wait, 0)
  }

  lemma LateIsForward(rows: seq<Event>, j: nat, start: int, wait: int)
    requires wait >= 0 && forall r :: r in rows && r.ts.Some? ==> r.ts.value <= start
    ensures Forward(Late(j, start, wait), rows)
  {
  }

  lemma OnPauseIsBlind(pause: int)
    ensures Blind(OnPause(pause))
  {
  }

  lemma UndatedLate(redact: Redact, outcomes: seq<Outcome>, rows: seq<Event>, j: nat, start: int, wait: int, p: int)
    requires 0 < j < |rows| && rows[j].ts.None? && wait > 0
    requires forall r :: r in rows && r.ts.Some? ==> r.ts.value <= start
    ensures var base := if rows[j - 1].ts.Some? then rows[j - 1].ts.value else start;
            Run(OnPause(p), redact, outcomes, rows, Late(j, start, wait)).predictions[j].decision
            == Decision(if start + wait - base == p then "notch_ping" else "silent", "")
  {
    hide Run, SnapshotOf, RecentOutcomes, Seen, MemoryOf;
    var clocks := Late(j, start, wait);
    var s := Run(OnPause(p), redact, outcomes, rows[..j], clocks);
    assert rows[j - 1] in rows;
    PredictionAt(OnPause(p), redact, outcomes, rows, clocks, j);
    LastFiled(OnPause(p), redact, outcomes, rows[..j], clocks);
    PauseSeen(s, rows[j], clocks(j), redact);
  }

  function LatestDate(rows: seq<Event>): (t: int)
    ensures forall r :: r in rows && r.ts.Some? ==> r.ts.value <= t
  {
    if rows == [] then 0
    else
      var t := LatestDate(rows[1..]);
      if rows[0].ts.Some? && rows[0].ts.value > t then rows[0].ts.value else t
  }

  lemma ForwardMatters(redact: Redact, outcomes: seq<Outcome>, rows: seq<Event>)
    requires !RestDated(rows)
    ensures !ForwardFree(redact, outcomes, rows)
  {
    var j :| 0 < j < |rows| && rows[j].ts.None?;
    var start := LatestDate(rows);
    var base := if rows[j - 1].ts.Some? then rows[j - 1].ts.value else start;
    var p := start + 1 - base;
    OnPauseIsBlind(p);
    LateIsForward(rows, j, start, 1);
    LateIsForward(rows, j, start, 2);
    UndatedLate(redact, outcomes, rows, j, start, 1, p);
    UndatedLate(redact, outcomes, rows, j, start, 2, p);
    hide Run, OnPause, Late, Forward, Blind;
    assert Run(OnPause(p), redact, outcomes, rows, Late(j, start, 1)).predictions[j]
           != Run(OnPause(p), redact, outcomes, rows, Late(j, start, 2)).predictions[j];
  }

  // ----- Only the first row undated -----

  ghost predicate SameEvents(s: seq<Entry>, t: seq<Entry>) {
    |s| == |t| && forall i :: 0 <= i < |s| ==> s[i].event == t[i].event
  }

  /** The windows differ at most in the time of their first entry, which nothing is later than. */
  ghost predicate SameButFirst(s: seq<Entry>, t: seq<Entry>) {
    && SameEvents(s, t) && s != []
    && (forall i :: 0 < i < |s| ==> s[i].at == t[i].at)
    && (forall i :: 0 < i < |s| ==> s[i].at <= s[0].at && s[i].at <= t[0].at)
  }

  lemma {:induction false} ValidSame(s: seq<Entry>, t: seq<Entry>)
    requires SameEvents(s, t)
    ensures SameEvents(ValidOnly(s), ValidOnly(t))
  {
    if s != [] {
      hide ValidWork;
      ValidSame(s[..|s| - 1], t[..|t| - 1]);
    }
  }

  lemma {:induction false} SwitchesSame(s: seq<Entry>, t: seq<Entry>)
    requires SameEvents(s, t)
    ensures Switches(s) == Switches(t)
  {
    if s != [] {
      SwitchesSame(s[..|s| - 1], t[..|t| - 1]);
    }
  }

  lemma NamesSame(s: seq<Entry>, t: seq<Entry>)
    requires SameEvents(s, t)
    ensures AppNames(LastN(s, 30)) == AppNames(LastN(t, 30)) && Scenes(LastN(s, 30)) == Scenes(LastN(t, 30))
  {
  }

  lemma {:induction false} StartSame(s: seq<Entry>, t: seq<Entry>, i: nat, next: int, app: Option<string>)
    requires SameButFirst(s, t) && i < |s| && next <= s[0].at && next <= t[0].at
    ensures RunStart(s, i, next, app) == RunStart(t, i, next, app)
  {
    hide ValidWork;
    if i > 1 {
      StartSame(s, t, i - 1, s[i - 1].at, app);
    }
  }

  /** The minutes on the current app do not show the first entry's time: it is never before the row's own. */
  lemma MinutesSame(s: seq<Entry>, t: seq<Entry>, now: Option<int>)
    requires SameButFirst(s, t) && |s| > 1 && now == Some(s[|s| - 1].at)
    ensures var a, b := RunSince(s, now), RunSince(t, now);
            Minutes(Or(now, a) - a) == Minutes(Or(now, b) - b)
  {
    hide RunStart;
    StartSame(s, t, |s| - 1, Or(now, s[|s| - 1].at), s[|s| - 1].event.app);
  }

  lemma GapSame(s: seq<Entry>, t: seq<Entry>)
    requires SameButFirst(s, t)
    ensures LastGap(s) == LastGap(t) && SessionBoundary(s) == SessionBoundary(t)
  {
  }

  /** But for its stamp and the workflow summary, the snapshot does not show the first entry's time. */
  lemma BlurSame(s: seq<Entry>, t: seq<Entry>, now: Option<int>, redact: Redact, ta: int, tb: int)
    requires SameButFirst(s, t) && |s| > 1 && now == Some(s[|s| - 1].at)
    ensures Blur(MemoryOf(s, s, now, redact, ta)) == Blur(MemoryOf(t, t, now, redact, tb))
  {
    ValidSame(s, t);
    NamesSame(ValidOnly(s), ValidOnly(t));
    SwitchesSame(ValidOnly(s), ValidOnly(t));
    MinutesSame(s, t, now);
    GapSame(s, t);
    hide ValidOnly, WorkflowContext, Switches, AppNames, Scenes, RunSince, SessionBoundary, LastGap, ValidWork, Minutes,
         LastN, Or;
  }

  lemma NothingTrimmed(window: seq<Entry>, row: Event, span: int)
    requires window != [] && span >= 0 && (row.ts.Some? ==> row.ts.value <= window[0].at)
    ensures Slide(window, row, span) == window
  {
  }

  /** After each tick both windows hold everything, the same but for the first entry's time. */
  ghost predicate Alike(s: State, t: State) {
    && s.recent15m == s.recent2h && t.recent15m == t.recent2h && SameButFirst(s.recent2h, t.recent2h)
    && s.lastPush == t.lastPush && s.predictions == t.predictions
  }

  lemma TickAlike(policy: Policy, redact: Redact, outcomes: seq<Outcome>, s: State, t: State, row: Event, a: Reading,
                  b: Reading)
    requires Blind(policy) && Alike(s, t) && row.ts.Some?
    requires row.ts.value <= s.recent2h[0].at && row.ts.value <= t.recent2h[0].at
    ensures Alike(Tick(policy, redact, outcomes, s, row, a), Tick(policy, redact, outcomes, t, row, b))
    ensures Tick(policy, redact, outcomes, s, row, a).recent2h[0] == s.recent2h[0]
    ensures Tick(policy, redact, outcomes, t, row, b).recent2h[0] == t.recent2h[0]
  {
    var e := Filed(s, row, a);
    assert e == Filed(t, row, b) && e.at == row.ts.value;
    NothingTrimmed(s.recent2h, row, TWO_HOURS);
    NothingTrimmed(s.recent15m, row, QUARTER);
    NothingTrimmed(t.recent2h, row, TWO_HOURS);
    NothingTrimmed(t.recent15m, row, QUARTER);
    var v, w := s.recent2h + [e], t.recent2h + [e];
    MoreAlike(s.recent2h, t.recent2h, e);
    BlurSame(v, w, row.ts, redact, a.taken, b.taken);
    hide MemoryOf, Slide, RecentOutcomes, Seen, SameButFirst;
    var o := RecentOutcomes(outcomes, row.ts);
    BlindDecides(policy, e.event, SnapshotOf(s, row, a, redact), SnapshotOf(t, row, b, redact), o);
  }

  lemma MoreAlike(s: seq<Entry>, t: seq<Entry>, e: Entry)
    requires SameButFirst(s, t) && e.at <= s[0].at && e.at <= t[0].at
    ensures SameButFirst(s + [e], t + [e]) && (s + [e])[0] == s[0] && (t + [e])[0] == t[0]
  {
  }

  lemma BlindDecides(policy: Policy, e: Event, m: Memory, n: Memory, o: seq<Outcome>)
    requires Blind(policy) && Blur(m) == Blur(n)
    ensures policy(e, m, o) == policy(e, n, o)
  {
    assert policy(e, Blur(m), o) == policy(e, m, o) && policy(e, Blur(n), o) == policy(e, n, o);
  }

  lemma FirstAlike(policy: Policy, redact: Redact, outcomes: seq<Outcome>, row: Event, ca: Clocks, cb: Clocks)
    requires Blind(policy) && row.ts.None?
    ensures var s, t := Run(policy, redact, outcomes, [row], ca), Run(policy, redact, outcomes, [row], cb);
            Alike(s, t) && s.recent2h[0].at == ca(0).wall && t.recent2h[0].at == cb(0).wall
  {
    BlindIgnoresTaken(policy);
    LoneRowIgnoresTheClock(policy, redact, outcomes, row, ca, cb);
    assert [row][..0] == [];
    hide MemoryOf, RecentOutcomes, IgnoresTaken, Blind;
  }

  lemma BlindIgnoresTaken(policy: Policy)
    requires Blind(policy)
    ensures IgnoresTaken(policy)
  {
    forall e, m: Memory, o, t ensures policy(e, m.(taken := t), o) == policy(e, m, o) {
      BlindDecides(policy, e, m.(taken := t), m, o);
    }
  }

  lemma {:induction false} RunAlike(policy: Policy, redact: Redact, outcomes: seq<Outcome>, rows: seq<Event>,
                                    ca: Clocks, cb: Clocks)
    requires Blind(policy) && rows != [] && rows[0].ts.None? && RestDated(rows)
    requires forall r :: r in rows && r.ts.Some? ==> r.ts.value <= ca(0).wall && r.ts.value <= cb(0).wall
    ensures var s, t := Run(policy, redact, outcomes, rows, ca), Run(policy, redact, outcomes, rows, cb);
            Alike(s, t) && s.recent2h[0].at == ca(0).wall && t.recent2h[0].at == cb(0).wall
  {
    if |rows| == 1 {
      assert rows == [rows[0]];
      FirstAlike(policy, redact, outcomes, rows[0], ca, cb);
    } else {
      hide Tick, Blind, Alike;
      var front, row := rows[..|rows| - 1], rows[|rows| - 1];
      assert row in rows && front[0] == rows[0];
      RunAlike(policy, redact, outcomes, front, ca, cb);
      TickAlike(policy, redact, outcomes, Run(policy, redact, outcomes, front, ca),
                Run(policy, redact, outcomes, front, cb), row, ca(|front|), cb(|front|));
    }
  }

  lemma SamePredictions(s: State, t: State)
    requires Alike(s, t)
    ensures s.predictions == t.predictions
  {
  }

  /** Main result, exact, for clocks as a replay has them, that never step back and run after the recording: the
      predictions of every policy that looks neither at the snapshot's stamp nor at its workflow summary are the
      same at all readings if and only if every row but the first is dated. */
  lemma ForwardFreeExactly(redact: Redact, outcomes: seq<Outcome>, rows: seq<Event>)
    ensures ForwardFree(redact, outcomes, rows) <==> RestDated(rows)
  {
    hide Run, Blind, IgnoresTaken, Alike;
    if RestDated(rows) {
      forall policy: Policy, ca: Clocks, cb: Clocks | Blind(policy) && Forward(ca, rows) && Forward(cb, rows)
        ensures Run(policy, redact, outcomes, rows, ca).predictions
                == Run(policy, redact, outcomes, rows, cb).predictions
      {
        if rows != [] && rows[0].ts.None? {
          RunAlike(policy, redact, outcomes, rows, ca, cb);
          SamePredictions(Run(policy, redact, outcomes, rows, ca), Run(policy, redact, outcomes, rows, cb));
        } else {
          BlindIgnoresTaken(policy);
          DatedRunsIgnoreTheClock(policy, redact, outcomes, rows, ca, cb);
        }
      }
    } else {
      ForwardMatters(redact, outcomes, rows);
    }
  }

  /** The workflow summary does show the time of an undated first row: it groups by slots of ninety seconds, so
      two rows of one window make one group or two. */
  lemma WorkflowShowsTheClock(first: Event, second: Event, redact: Redact)
    requires first.workflowId == second.workflowId == "" && first.title == second.title
    requires AppOr(first, "unknown") == AppOr(second, "unknown")
    ensures |WorkflowContext([Entry(first, 10), Entry(second, 10)], Some(10), redact)| == 1
    ensures |WorkflowContext([Entry(first, 100), Entry(second, 10)], Some(10), redact)| == 2
  {
    var early, late, e := Entry(first, 10), Entry(first, 100), Entry(second, 10);
    assert Decimal(0) == "0" && Decimal(1) == "1";
    SlotsDiffer(AppOr(first, "unknown") + "|" + first.title + "|");
    assert KeyOf(early) == KeyOf(e) && KeyOf(late) != KeyOf(e);
    TwoEntries(early, e, redact);
    TwoEntries(late, e, redact);
  }

  lemma SlotsDiffer(head: string)
    ensures head + "0" != head + "1"
  {
    assert (head + "0")[|head|] == '0' && (head + "1")[|head|] == '1';
  }

  lemma TwoEntries(x: Entry, y: Entry, redact: Redact)
    requires x.at >= -290 && y.at >= -290
    ensures |WorkflowContext([x, y], Some(10), redact)| == if KeyOf(x) == KeyOf(y) then 1 else 2
  {
    hide KeyOf, Extend, NewGroup, Add;
    var cutoff := 10 - 300;
    assert [x, y][..1] == [x] && [x][..0] == [];
    assert SpineOf([], cutoff, redact) == Spine([], map[]);
    var one := SpineOf([x], cutoff, redact);
    assert one == Add(Spine([], map[]), x, redact);
    AddIs([], map[], x, redact);
    assert one.order == [] + [KeyOf(x)] == [KeyOf(x)] && one.groups.Keys == {KeyOf(x)};
    var two := SpineOf([x, y], cutoff, redact);
    assert two == Add(one, y, redact);
    AddIs(one.order, one.groups, y, redact);
    if KeyOf(x) == KeyOf(y) {
      LoneKey(KeyOf(x), two.groups);
    } else {
      assert two.order == [KeyOf(x), KeyOf(y)];
      TwoKeys(KeyOf(x), KeyOf(y), two.groups);
    }
  }

  lemma TwoKeys(a: string, b: string, groups: map<string, Group>)
    requires a in groups && b in groups
    ensures |RowsFor([a, b], groups)| == 2 && LastN([a, b], 6) == [a, b]
  {
    LoneKey(a, groups);
    assert [a, b][..1] == [a];
  }
}
