/** When `last_uploaded_ts` is a safe bound for deleting local rows. */
module UploadBound {
  import opened Collections
  import opened Options
  import opened UploadQueue
  import opened DurableSender

  /** What was ever put in the table, by id: frame timestamp and target. */
  datatype Meta = Meta(frameTs: Option<int>, target: Option<string>)

  function MetaOf(rows: seq<Item>): map<nat, Meta> {
    if rows == [] then map[] else
      var x := rows[|rows| - 1];
      MetaOf(rows[..|rows| - 1])[x.id := Meta(x.frameTs, x.target)]
  }

  function Recorded(h: map<nat, Meta>, s: State, maxItems: nat, a: Action): map<nat, Meta> {
    if a.Append? && maxItems > 0 then h[s.table.lastId + 1 := Meta(a.frameTs, a.target)] else h
  }

  function History(s: State, maxItems: nat, url: string, actions: seq<Action>): map<nat, Meta> {
    if actions == [] then MetaOf(s.table.rows)
    else
      var front := actions[..|actions| - 1];
      Recorded(History(s, maxItems, url, front), Run(s, maxItems, url, front), maxItems, actions[|actions| - 1])
  }

  ghost predicate Known(h: map<nat, Meta>, x: Item) {
    x.id in h && h[x.id] == Meta(x.frameTs, x.target)
  }

  ghost predicate AllKnown(h: map<nat, Meta>, s: State) {
    && (forall x :: x in s.table.rows ==> Known(h, x))
    && (forall x :: x in s.completed ==> Known(h, x))
    && (s.pc.Holding? ==> Known(h, s.pc.item))
    && (forall id :: id in h ==> id <= s.table.lastId)
  }

  lemma AppendKnown(h: map<nat, Meta>, s: State, maxItems: nat, url: string, a: Action)
    requires Inv(s, url) && AllKnown(h, s) && a.Append? && maxItems > 0
    ensures AllKnown(Recorded(h, s, maxItems, a), Apply(s, maxItems, url, a))
  {
    AppendedRows(s.table, maxItems, a.kind, a.payload, a.frameTs, a.target);
    hide Appended, Known, DropsOldest, Valid, Inv, OldOrNew, Recorded, Apply;
    var t, m := Appended(s.table, maxItems, a.kind, a.payload, a.frameTs, a.target), Meta(a.frameTs, a.target);
    ItemsStay(h, s.completed, s.table.lastId, m);
    if s.pc.Holding? {
      KnownStays(h, s.pc.item, s.table.lastId, m);
    }
    RowsKnown(h, s.table, t, a.frameTs, a.target);
    AppendIs(h, s, maxItems, url, a);
  }

  lemma AppendIs(h: map<nat, Meta>, s: State, maxItems: nat, url: string, a: Action)
    requires a.Append? && maxItems > 0
    ensures Recorded(h, s, maxItems, a) == h[s.table.lastId + 1 := Meta(a.frameTs, a.target)]
    ensures Apply(s, maxItems, url, a)
            == s.(table := Appended(s.table, maxItems, a.kind, a.payload, a.frameTs, a.target))
  {
    hide Appended;
  }

  lemma ItemsStay(h: map<nat, Meta>, items: seq<Item>, lastId: nat, m: Meta)
    requires (forall x :: x in items ==> Known(h, x)) && forall id :: id in h ==> id <= lastId
    ensures forall x :: x in items ==> Known(h[lastId + 1 := m], x)
  {
    hide Known;
    forall x | x in items ensures Known(h[lastId + 1 := m], x) {
      KnownStays(h, x, lastId, m);
    }
  }

  lemma RowsKnown(h: map<nat, Meta>, t: Table, u: Table, frameTs: Option<int>, target: Option<string>)
    requires OldOrNew(t, u, frameTs, target) && u.lastId == t.lastId + 1
    requires (forall x :: x in t.rows ==> Known(h, x)) && forall id :: id in h ==> id <= t.lastId
    ensures forall x :: x in u.rows ==> Known(h[u.lastId := Meta(frameTs, target)], x)
  {
    hide Known;
    forall x | x in u.rows ensures Known(h[u.lastId := Meta(frameTs, target)], x) {
      if x in t.rows {
        KnownStays(h, x, t.lastId, Meta(frameTs, target));
      } else {
        KnownNew(h, x, frameTs, target);
      }
    }
  }

  lemma KnownStays(h: map<nat, Meta>, x: Item, lastId: nat, m: Meta)
    requires Known(h, x) && forall id :: id in h ==> id <= lastId
    ensures Known(h[lastId + 1 := m], x)
  {
  }

  lemma KnownNew(h: map<nat, Meta>, x: Item, frameTs: Option<int>, target: Option<string>)
    requires x.frameTs == frameTs && x.target == target
    ensures Known(h[x.id := Meta(frameTs, target)], x)
  {
  }

  lemma SenderKnown(h: map<nat, Meta>, s: State, maxItems: nat, url: string, a: Action)
    requires AllKnown(h, s) && !a.Append?
    ensures AllKnown(h, Apply(s, maxItems, url, a))
  {
    match a
    case Peek =>
      MatchingHead(s.table.rows, Some(url));
    case SendFail(error) =>
      if s.pc.Holding? {
        MarkedSame(s.table.rows, s.pc.item.id, error);
        var rows := Marked(s.table.rows, s.pc.item.id, error);
        forall x | x in rows ensures Known(h, x) {
          var i :| 0 <= i < |rows| && rows[i] == x;
          assert Known(h, s.table.rows[i]);
        }
      }
    case DeleteSent =>
      if s.pc.Sent? {
        forall x | x in Without(s.table.rows, s.pc.item.id) ensures Known(h, x) {
          WithoutMember(s.table.rows, s.pc.item.id, x);
        }
      }
    case _ =>
  }

  lemma {:induction false} MetaOfKnows(t: Table)
    requires Valid(t)
    ensures forall x :: x in t.rows ==> Known(MetaOf(t.rows), x)
    ensures forall id :: id in MetaOf(t.rows) ==> id <= t.lastId
    decreases |t.rows|
  {
    if t.rows != [] {
      var n := |t.rows| - 1;
      MetaOfKnows(t.(rows := t.rows[..n]));
      forall x | x in t.rows ensures Known(MetaOf(t.rows), x) {
        var i :| 0 <= i < |t.rows| && t.rows[i] == x;
        if i < n {
          assert t.rows[..n][i] == x && x in t.rows[..n];
          assert Known(MetaOf(t.rows[..n]), x);
        }
      }
    }
  }

  lemma StepKnown(h: map<nat, Meta>, s: State, maxItems: nat, url: string, a: Action)
    requires Inv(s, url) && AllKnown(h, s)
    ensures AllKnown(Recorded(h, s, maxItems, a), Apply(s, maxItems, url, a))
  {
    hide AllKnown, Inv, Apply, Recorded;
    if a.Append? && maxItems > 0 {
      AppendKnown(h, s, maxItems, url, a);
    } else {
      NothingRecorded(h, s, maxItems, url, a);
      if !a.Append? {
        SenderKnown(h, s, maxItems, url, a);
      }
    }
  }

  lemma NothingRecorded(h: map<nat, Meta>, s: State, maxItems: nat, url: string, a: Action)
    requires !a.Append? || maxItems == 0
    ensures Recorded(h, s, maxItems, a) == h
    ensures a.Append? ==> Apply(s, maxItems, url, a) == s
  {
  }

  lemma HistoryLast(s: State, maxItems: nat, url: string, actions: seq<Action>)
    requires actions != []
    ensures var front := actions[..|actions| - 1];
            History(s, maxItems, url, actions)
            == Recorded(History(s, maxItems, url, front), Run(s, maxItems, url, front), maxItems,
                        actions[|actions| - 1])
  {
  }

  lemma StartKnown(s: State, maxItems: nat, url: string)
    requires Initial(s)
    ensures AllKnown(History(s, maxItems, url, []), Run(s, maxItems, url, []))
  {
    MetaOfKnows(s.table);
  }

  lemma {:induction false} HistoryKnows(s: State, maxItems: nat, url: string, actions: seq<Action>)
    requires Initial(s)
    ensures AllKnown(History(s, maxItems, url, actions), Run(s, maxItems, url, actions))
  {
    hide AllKnown, Inv, Apply, Run, History, Initial, Recorded;
    if actions == [] {
      StartKnown(s, maxItems, url);
    } else {
      var front := actions[..|actions| - 1];
      RunLast(s, maxItems, url, actions);
      HistoryLast(s, maxItems, url, actions);
      HistoryKnows(s, maxItems, url, front);
      InvHolds(s, maxItems, url, front);
      StepKnown(History(s, maxItems, url, front), Run(s, maxItems, url, front), maxItems, url, actions[|actions| - 1]);
    }
  }

  ghost predicate IsFrameOf(h: map<nat, Meta>, url: string, id: nat) {
    id in h && h[id].target == Some(url) && h[id].frameTs.Some?
  }

  /** Frames of this target were captured in the order in which they were queued. */
  ghost predicate CapturedInOrder(h: map<nat, Meta>, url: string) {
    forall i, j :: IsFrameOf(h, url, i) && IsFrameOf(h, url, j) && i < j ==> h[i].frameTs.value < h[j].frameTs.value
  }

  /** The documented use of the timestamp: every frame not later than it has been uploaded. */
  ghost predicate BoundSound(h: map<nat, Meta>, url: string, s: State) {
    s.lastUploaded.Some? ==>
      forall id :: IsFrameOf(h, url, id) && h[id].frameTs.value <= s.lastUploaded.value ==> IsCompleted(s, id)
  }

  lemma CompletedFrame(h: map<nat, Meta>, url: string, t: State, c: Item)
    requires AllKnown(h, t) && Inv(t, url) && c in t.completed && c.frameTs.Some?
    ensures IsFrameOf(h, url, c.id) && h[c.id].frameTs == c.frameTs && c.id <= LastDone(t)
  {
    var i :| 0 <= i < |t.completed| && t.completed[i] == c;
    assert Known(h, c);
  }

  // ----- The steps that matter -----

  /** The item the sender works on. */
  ghost predicate InHand(s: State, id: nat) {
    (s.pc.Holding? || s.pc.Sent?) && s.pc.item.id == id
  }

  /** Step `m` is an append into a full table that drops a frame of this target which is not in hand. */
  ghost predicate Loses(s: State, maxItems: nat, url: string, actions: seq<Action>, m: nat, x: Item) {
    && m < |actions| && actions[m].Append? && x.target == Some(url) && x.frameTs.Some?
    && DropsAt(Run(s, maxItems, url, actions[..m]).table, maxItems, x)
    && !InHand(Run(s, maxItems, url, actions[..m]), x.id)
  }

  /** The row is among the oldest, for which one more row leaves no room. */
  ghost predicate DropsAt(t: Table, maxItems: nat, x: Item) {
    maxItems > 0 && exists i :: 0 <= i < |t.rows| + 1 - maxItems && i < |t.rows| && t.rows[i] == x
  }

  /** Step `k` counts a frame as uploaded. */
  ghost predicate Counts(s: State, maxItems: nat, url: string, actions: seq<Action>, k: nat, c: Item) {
    && k < |actions| && actions[k] == CountSent && c.frameTs.Some?
    && Run(s, maxItems, url, actions[..k]).pc == Deleted(c)
  }

  /** A frame is lost, and a younger one counted. */
  ghost predicate Overtakes(s: State, maxItems: nat, url: string, actions: seq<Action>, m: nat, x: Item, k: nat,
                            c: Item) {
    Loses(s, maxItems, url, actions, m, x) && Counts(s, maxItems, url, actions, k, c) && x.id < c.id
  }

  ghost predicate NeverOvertakes(s: State, maxItems: nat, url: string, actions: seq<Action>) {
    forall m: nat, x, k: nat, c :: !Overtakes(s, maxItems, url, actions, m, x, k, c)
  }

  lemma StepOf(s: State, maxItems: nat, url: string, actions: seq<Action>, m: nat)
    requires m < |actions|
    ensures Run(s, maxItems, url, actions[..m + 1])
            == Apply(Run(s, maxItems, url, actions[..m]), maxItems, url, actions[m])
    ensures History(s, maxItems, url, actions[..m + 1])
            == Recorded(History(s, maxItems, url, actions[..m]), Run(s, maxItems, url, actions[..m]), maxItems,
                        actions[m])
  {
    assert actions[..m + 1][..m] == actions[..m];
  }

  // ----- Counted items -----

  lemma StepCounts(s: State, maxItems: nat, url: string, a: Action)
    requires HandOk(s, url)
    ensures Counted(Apply(s, maxItems, url, a))
            == if a == CountSent && s.pc.Deleted? then Counted(s) + [s.pc.item] else Counted(s)
  {
    hide Appended, Peeked, Marked, Without, Later, LastDone;
    if a == CountSent {
      if s.pc.Deleted? {
        assert s.completed == s.completed[..|s.completed| - 1] + [s.pc.item];
      }
    } else if a == SendOk {
      if s.pc.Holding? && s.connected {
        assert (s.completed + [s.pc.item])[..|s.completed|] == s.completed;
      }
    } else {
      OthersCountNothing(s, maxItems, url, a);
    }
  }

  lemma OthersCountNothing(s: State, maxItems: nat, url: string, a: Action)
    requires a != CountSent && a != SendOk
    ensures Counted(Apply(s, maxItems, url, a)) == Counted(s)
  {
    hide Appended, Peeked, Marked, Without;
  }

  lemma CountStep(s: State, maxItems: nat, url: string, actions: seq<Action>, k: nat)
    requires Initial(s) && k < |actions|
    ensures var t := Run(s, maxItems, url, actions[..k]);
            Counted(Run(s, maxItems, url, actions[..k + 1]))
            == if actions[k] == CountSent && t.pc.Deleted? then Counted(t) + [t.pc.item] else Counted(t)
  {
    StepOf(s, maxItems, url, actions, k);
    InvHolds(s, maxItems, url, actions[..k]);
    hide Run, History, Apply, Counted, Recorded, HandOk;
    StepCounts(Run(s, maxItems, url, actions[..k]), maxItems, url, actions[k]);
  }

  lemma {:induction false} WhichCounts(s: State, maxItems: nat, url: string, actions: seq<Action>, m: nat, c: Item)
    returns (k: nat)
    requires Initial(s) && m <= |actions| && c in Counted(Run(s, maxItems, url, actions[..m])) && c.frameTs.Some?
    ensures Counts(s, maxItems, url, actions, k, c)
  {
    NothingCounted(s, maxItems, url, actions);
    hide Run, Counted, Initial, Counts;
    k := m - 1;
    if c in Counted(Run(s, maxItems, url, actions[..k])) {
      k := WhichCounts(s, maxItems, url, actions, k, c);
    } else {
      CountedNow(s, maxItems, url, actions, k, c);
    }
  }

  lemma CountedNow(s: State, maxItems: nat, url: string, actions: seq<Action>, k: nat, c: Item)
    requires Initial(s) && k < |actions| && c.frameTs.Some?
    requires c in Counted(Run(s, maxItems, url, actions[..k + 1])) && c !in Counted(Run(s, maxItems, url, actions[..k]))
    ensures Counts(s, maxItems, url, actions, k, c)
  {
    hide Run, Counted, Initial;
    CountStep(s, maxItems, url, actions, k);
  }

  lemma NothingCounted(s: State, maxItems: nat, url: string, actions: seq<Action>)
    requires Initial(s)
    ensures Counted(Run(s, maxItems, url, actions[..0])) == []
  {
  }

  lemma {:induction false} CountedStays(s: State, maxItems: nat, url: string, actions: seq<Action>, k: nat, c: Item,
                                        m: nat)
    requires Initial(s) && k < m <= |actions| && Counts(s, maxItems, url, actions, k, c)
    ensures c in Counted(Run(s, maxItems, url, actions[..m]))
    decreases m
  {
    hide Run, Counted, Initial;
    CountStep(s, maxItems, url, actions, m - 1);
    if k < m - 1 {
      CountedStays(s, maxItems, url, actions, k, c, m - 1);
    }
  }

  lemma CountedIsCompleted(s: State, url: string)
    requires Inv(s, url)
    ensures forall c :: c in Counted(s) ==> c in s.completed && c.id <= LastDone(s)
    ensures s.lastUploaded == MaxTs(Counted(s))
  {
    forall c | c in Counted(s) ensures c in s.completed && c.id <= LastDone(s) {
      var i :| 0 <= i < |Counted(s)| && Counted(s)[i] == c;
      assert s.completed[i] == c;
    }
  }

  // ----- Lost frames -----

  /** The item is gone: not in the table, not in hand, not sent, and its id is used up. */
  ghost predicate Gone(s: State, id: nat) {
    id <= s.table.lastId && !HasRow(s.table, id) && !IsCompleted(s, id) && !InHand(s, id)
  }

  lemma LosesNow(s: State, maxItems: nat, url: string, a: Action, x: Item)
    requires Inv(s, url) && a.Append? && x.target == Some(url) && DropsAt(s.table, maxItems, x) && !InHand(s, x.id)
    ensures Gone(Apply(s, maxItems, url, a), x.id)
  {
    DroppedRow(s.table, maxItems, a, x);
    NotCompleted(s, url, x);
    hide Appended;
  }

  /** A queued row of the target that is not in hand was not sent. */
  lemma NotCompleted(s: State, url: string, x: Item)
    requires Inv(s, url) && x in s.table.rows && x.target == Some(url) && !InHand(s, x.id)
    ensures !IsCompleted(s, x.id)
  {
    var i :| 0 <= i < |s.table.rows| && s.table.rows[i] == x;
    forall c | c in s.completed ensures c.id != x.id {
      var j :| 0 <= j < |s.completed| && s.completed[j] == c;
      assert c.id <= LastDone(s);
    }
  }

  lemma DroppedRow(t: Table, maxItems: nat, a: Action, x: Item)
    requires Valid(t) && a.Append? && DropsAt(t, maxItems, x)
    ensures var u := Appended(t, maxItems, a.kind, a.payload, a.frameTs, a.target);
            x.id <= t.lastId < u.lastId && !HasRow(u, x.id)
  {
    var i :| 0 <= i < |t.rows| + 1 - maxItems && i < |t.rows| && t.rows[i] == x;
    var u := Appended(t, maxItems, a.kind, a.payload, a.frameTs, a.target);
    var all := t.rows + [Item(u.lastId, a.kind, a.payload, a.frameTs, a.target, 0, "")];
    forall y | y in u.rows ensures y.id != x.id {
      var j :| 0 <= j < |u.rows| && u.rows[j] == y;
      assert y == all[|all| - maxItems + j] && all[i] == x;
    }
  }

  lemma GoneStays(s: State, maxItems: nat, url: string, a: Action, id: nat)
    requires Inv(s, url) && Gone(s, id)
    ensures Gone(Apply(s, maxItems, url, a), id)
  {
    var t := Apply(s, maxItems, url, a);
    match a
    case Append(kind, payload, frameTs, target) =>
      if maxItems > 0 {
        AppendedRows(s.table, maxItems, kind, payload, frameTs, target);
      }
    case Peek => MatchingHead(s.table.rows, Some(url));
    case SendFail(error) =>
      if s.pc.Holding? {
        MarkedSame(s.table.rows, s.pc.item.id, error);
        assert forall i :: 0 <= i < |s.table.rows| ==> s.table.rows[i].id != id;
      }
    case DeleteSent =>
      if s.pc.Sent? {
        forall x | x in t.table.rows ensures x.id != id {
          WithoutMember(s.table.rows, s.pc.item.id, x);
        }
      }
    case _ =>
  }

  /** A lost frame is never sent. */
  lemma {:induction false} LostForever(s: State, maxItems: nat, url: string, actions: seq<Action>, m: nat, x: Item,
                                       l: nat)
    requires Initial(s) && m < l <= |actions| && Loses(s, maxItems, url, actions, m, x)
    ensures Gone(Run(s, maxItems, url, actions[..l]), x.id)
    decreases l
  {
    var t := Run(s, maxItems, url, actions[..l - 1]);
    StepOf(s, maxItems, url, actions, l - 1);
    InvHolds(s, maxItems, url, actions[..l - 1]);
    hide Run, History, Inv, Apply, Gone, InHand, DropsAt;
    if m < l - 1 {
      LostForever(s, maxItems, url, actions, m, x, l - 1);
      GoneStays(t, maxItems, url, actions[l - 1], x.id);
    } else {
      LosesNow(t, maxItems, url, actions[m], x);
    }
  }

  lemma NewRowStays(s: State, maxItems: nat, url: string, a: Action)
    requires Inv(s, url) && a.Append? && maxItems > 0
    ensures HasRow(Apply(s, maxItems, url, a).table, s.table.lastId + 1)
  {
    AppendedRows(s.table, maxItems, a.kind, a.payload, a.frameTs, a.target);
    var u := Appended(s.table, maxItems, a.kind, a.payload, a.frameTs, a.target);
    hide Appended;
    assert u.rows[|u.rows| - 1] in u.rows;
  }

  lemma InHandStays(s: State, maxItems: nat, url: string, a: Action, id: nat)
    requires Inv(s, url) && InHand(s, id)
    ensures InHand(Apply(s, maxItems, url, a), id) || IsCompleted(Apply(s, maxItems, url, a), id)
  {
    var t := Apply(s, maxItems, url, a);
    if s.pc.Sent? {
      assert s.pc.item in t.completed;
    } else if a == SendOk && s.connected {
      assert t.completed[|t.completed| - 1] == s.pc.item;
    }
  }

  lemma AppendDrops(t: Table, maxItems: nat, a: Action, x: Item)
    requires a.Append? && maxItems > 0 && x in t.rows
    requires !HasRow(Appended(t, maxItems, a.kind, a.payload, a.frameTs, a.target), x.id)
    ensures DropsAt(t, maxItems, x)
  {
    var i :| 0 <= i < |t.rows| && t.rows[i] == x;
    var u := Appended(t, maxItems, a.kind, a.payload, a.frameTs, a.target);
    var all := t.rows + [Item(u.lastId, a.kind, a.payload, a.frameTs, a.target, 0, "")];
    assert u.rows == LastN(all, maxItems) && all[i] == x;
    KeptAt(all, maxItems, i);
  }

  lemma KeptAt(all: seq<Item>, n: nat, i: nat)
    requires i < |all|
    ensures i >= |all| - n ==> all[i] in LastN(all, n)
  {
    var kept := LastN(all, n);
    if i >= |all| - n {
      assert kept[i - (|all| - |kept|)] == all[i];
    }
  }

  /** A row that leaves and is neither sent nor in hand was dropped by an append. */
  lemma RowLost(s: State, maxItems: nat, url: string, a: Action, x: Item)
    requires Inv(s, url) && x in s.table.rows && Gone(Apply(s, maxItems, url, a), x.id)
    ensures a.Append? && DropsAt(s.table, maxItems, x) && !InHand(s, x.id)
  {
    if InHand(s, x.id) {
      InHandStays(s, maxItems, url, a, x.id);
    }
    if !a.Append? {
      OthersKeepUnsent(s, maxItems, url, a, x);
    } else {
      hide Appended, DropsAt, Inv, InHand;
      AppendOrNot(s, maxItems, url, a, x);
      AppendDrops(s.table, maxItems, a, x);
    }
  }

  lemma AppendOrNot(s: State, maxItems: nat, url: string, a: Action, x: Item)
    requires x in s.table.rows && a.Append? && Gone(Apply(s, maxItems, url, a), x.id)
    ensures maxItems > 0
            && !HasRow(Appended(s.table, maxItems, a.kind, a.payload, a.frameTs, a.target), x.id)
  {
  }

  lemma {:induction false} MetaHasRow(rows: seq<Item>, id: nat)
    requires id in MetaOf(rows)
    ensures exists x :: x in rows && x.id == id
  {
    var n := |rows| - 1;
    if id in MetaOf(rows[..n]) {
      MetaHasRow(rows[..n], id);
      var x :| x in rows[..n] && x.id == id;
      assert x in rows;
    } else {
      assert rows[n] in rows;
    }
  }

  lemma RecordedBefore(h: map<nat, Meta>, s: State, maxItems: nat, a: Action, url: string, id: nat)
    requires IsFrameOf(Recorded(h, s, maxItems, a), url, id) && id <= s.table.lastId
    ensures IsFrameOf(h, url, id)
  {
  }

  lemma RecordedNow(h: map<nat, Meta>, s: State, maxItems: nat, a: Action, id: nat)
    requires id in Recorded(h, s, maxItems, a) && id !in h
    ensures a.Append? && maxItems > 0 && id == s.table.lastId + 1
  {
  }

  /** What is gone is still recorded: it was gone before, or a row of its meta was there. */
  lemma GoneBefore(h: map<nat, Meta>, s: State, maxItems: nat, url: string, a: Action, id: nat)
    requires Inv(s, url) && AllKnown(h, s) && IsFrameOf(Recorded(h, s, maxItems, a), url, id)
    requires Gone(Apply(s, maxItems, url, a), id)
    ensures IsFrameOf(h, url, id) && (Gone(s, id) || HasRow(s.table, id))
  {
    if id !in h {
      RecordedNow(h, s, maxItems, a, id);
      NewRowStays(s, maxItems, url, a);
    }
    hide Apply;
    RecordedBefore(h, s, maxItems, a, url, id);
    if IsCompleted(s, id) {
      CompletedGrows(s, maxItems, url, a, id);
    }
    if InHand(s, id) {
      InHandStays(s, maxItems, url, a, id);
    }
  }

  /** Every frame that is gone was lost in some append. */
  lemma {:induction false} FindLoss(s: State, maxItems: nat, url: string, actions: seq<Action>, l: nat, id: nat)
    returns (m: nat, x: Item)
    requires Initial(s) && l <= |actions|
    requires IsFrameOf(History(s, maxItems, url, actions[..l]), url, id)
    requires Gone(Run(s, maxItems, url, actions[..l]), id)
    ensures Loses(s, maxItems, url, actions, m, x) && x.id == id
  {
    if l == 0 {
      MetaHasRow(s.table.rows, id);
    }
    m := l - 1;
    var t, h := Run(s, maxItems, url, actions[..m]), History(s, maxItems, url, actions[..m]);
    StepOf(s, maxItems, url, actions, m);
    InvHolds(s, maxItems, url, actions[..m]);
    HistoryKnows(s, maxItems, url, actions[..m]);
    hide Run, History, Inv, Apply, Gone, InHand, DropsAt, IsFrameOf, Recorded, AllKnown;
    GoneBefore(h, t, maxItems, url, actions[m], id);
    if Gone(t, id) {
      m, x := FindLoss(s, maxItems, url, actions, m, id);
    } else {
      x :| x in t.table.rows && x.id == id;
      RowLost(t, maxItems, url, actions[m], x);
      FrameRow(h, t, url, x);
    }
  }

  lemma FrameRow(h: map<nat, Meta>, s: State, url: string, x: Item)
    requires AllKnown(h, s) && x in s.table.rows
    ensures IsFrameOf(h, url, x.id) <==> x.target == Some(url) && x.frameTs.Some?
    ensures x.id in h && h[x.id].frameTs == x.frameTs
  {
    assert Known(h, x);
  }

  // ----- The bound -----

  lemma {:induction false} HistoryGrows(s: State, maxItems: nat, url: string, actions: seq<Action>, m: nat, l: nat,
                                        id: nat)
    requires Initial(s) && m <= l <= |actions| && id in History(s, maxItems, url, actions[..m])
    ensures id in History(s, maxItems, url, actions[..l])
    ensures History(s, maxItems, url, actions[..l])[id] == History(s, maxItems, url, actions[..m])[id]
    decreases l
  {
    if m < l {
      HistoryGrows(s, maxItems, url, actions, m, l - 1, id);
      StepOf(s, maxItems, url, actions, l - 1);
      HistoryKnows(s, maxItems, url, actions[..l - 1]);
      hide Run, History;
    }
  }

  lemma LostFrame(s: State, maxItems: nat, url: string, actions: seq<Action>, m: nat, x: Item)
    requires Initial(s) && Loses(s, maxItems, url, actions, m, x)
    ensures var h := History(s, maxItems, url, actions);
            IsFrameOf(h, url, x.id) && h[x.id].frameTs == x.frameTs
    ensures !IsCompleted(Run(s, maxItems, url, actions), x.id)
  {
    assert actions[..|actions|] == actions;
    LostForever(s, maxItems, url, actions, m, x, |actions|);
    HistoryKnows(s, maxItems, url, actions[..m]);
    hide Run, History, AllKnown, InHand;
    var t := Run(s, maxItems, url, actions[..m]);
    assert x in t.table.rows;
    FrameRow(History(s, maxItems, url, actions[..m]), t, url, x);
    HistoryGrows(s, maxItems, url, actions, m, |actions|, x.id);
  }

  lemma CountedFrame(s: State, maxItems: nat, url: string, actions: seq<Action>, c: Item)
    requires Initial(s) && c in Counted(Run(s, maxItems, url, actions)) && c.frameTs.Some?
    ensures var t, h := Run(s, maxItems, url, actions), History(s, maxItems, url, actions);
            && IsFrameOf(h, url, c.id) && h[c.id].frameTs == c.frameTs && c.id <= LastDone(t)
            && c in t.completed && t.lastUploaded.Some? && c.frameTs.value <= t.lastUploaded.value
  {
    var t, h := Run(s, maxItems, url, actions), History(s, maxItems, url, actions);
    InvHolds(s, maxItems, url, actions);
    HistoryKnows(s, maxItems, url, actions);
    hide Run, History, AllKnown, Inv, MaxTs, Counted;
    CountedIsCompleted(t, url);
    CompletedFrame(h, url, t, c);
    MaxTsIsMaximum(Counted(t));
  }

  /** A frame was lost, and one not earlier by its timestamp counted. */
  ghost predicate Covers(s: State, maxItems: nat, url: string, actions: seq<Action>, m: nat, x: Item, k: nat, c: Item) {
    && Loses(s, maxItems, url, actions, m, x) && Counts(s, maxItems, url, actions, k, c)
    && x.frameTs.value <= c.frameTs.value
  }

  ghost predicate NeverCovers(s: State, maxItems: nat, url: string, actions: seq<Action>) {
    forall m: nat, x, k: nat, c :: !Covers(s, maxItems, url, actions, m, x, k, c)
  }

  /** A frame of the target that is still to be sent: queued, or in hand. */
  ghost predicate Waits(t: State, url: string, x: Item) {
    && x.target == Some(url) && x.frameTs.Some? && !IsCompleted(t, x.id)
    && (x in t.table.rows || t.pc == Holding(x))
  }

  /** No frame still to be sent is dated up to the timestamp. */
  ghost predicate WaitingAreLater(t: State, url: string) {
    forall x :: Waits(t, url, x) && t.lastUploaded.Some? ==> x.frameTs.value > t.lastUploaded.value
  }

  lemma WaitingFrame(h: map<nat, Meta>, t: State, url: string, x: Item)
    requires AllKnown(h, t) && Waits(t, url, x)
    ensures IsFrameOf(h, url, x.id) && h[x.id].frameTs == x.frameTs && !Gone(t, x.id)
  {
    assert Known(h, x);
  }

  /** Every frame of the target was sent, waits, or is gone. */
  lemma WhereIs(h: map<nat, Meta>, t: State, url: string, id: nat)
    requires AllKnown(h, t) && Inv(t, url) && IsFrameOf(h, url, id) && !IsCompleted(t, id)
    ensures Gone(t, id) || exists x :: Waits(t, url, x) && x.id == id && x.frameTs == h[id].frameTs
  {
    if HasRow(t.table, id) {
      var x :| x in t.table.rows && x.id == id;
      assert Known(h, x);
      assert Waits(t, url, x);
    } else if InHand(t, id) {
      SentIsCompleted(t, url);
      assert Known(h, t.pc.item);
      assert Waits(t, url, t.pc.item);
    }
  }

  lemma SentIsCompleted(t: State, url: string)
    requires Inv(t, url)
    ensures t.pc.Sent? ==> IsCompleted(t, t.pc.item.id)
  {
    if t.pc.Sent? {
      assert t.pc.item in t.completed;
    }
  }

  lemma SoundCovers(s: State, maxItems: nat, url: string, actions: seq<Action>, m: nat, x: Item, k: nat, c: Item)
    requires Initial(s) && BoundSound(History(s, maxItems, url, actions), url, Run(s, maxItems, url, actions))
    ensures !Covers(s, maxItems, url, actions, m, x, k, c)
  {
    hide Run, History, Loses, Counts, Counted, Initial, IsCompleted;
    if Covers(s, maxItems, url, actions, m, x, k, c) {
      FrameLost(s, maxItems, url, actions, m, x);
      LostFrame(s, maxItems, url, actions, m, x);
      CountsInRun(s, maxItems, url, actions, k, c);
      CountedFrame(s, maxItems, url, actions, c);
    }
  }

  lemma FrameLost(s: State, maxItems: nat, url: string, actions: seq<Action>, m: nat, x: Item)
    requires Loses(s, maxItems, url, actions, m, x)
    ensures x.frameTs.Some?
  {
  }

  lemma SoundWaits(h: map<nat, Meta>, t: State, url: string)
    requires AllKnown(h, t) && BoundSound(h, url, t)
    ensures WaitingAreLater(t, url)
  {
    hide AllKnown, IsFrameOf, Gone;
    forall x | Waits(t, url, x) && t.lastUploaded.Some? ensures x.frameTs.value > t.lastUploaded.value {
      WaitingFrame(h, t, url, x);
    }
  }

  lemma CoveredIsSent(s: State, maxItems: nat, url: string, actions: seq<Action>, id: nat)
    requires Initial(s) && NeverCovers(s, maxItems, url, actions)
    requires WaitingAreLater(Run(s, maxItems, url, actions), url)
    requires IsFrameOf(History(s, maxItems, url, actions), url, id)
    requires var last := Run(s, maxItems, url, actions).lastUploaded;
             last.Some? && History(s, maxItems, url, actions)[id].frameTs.value <= last.value
    ensures IsCompleted(Run(s, maxItems, url, actions), id)
  {
    var t, h := Run(s, maxItems, url, actions), History(s, maxItems, url, actions);
    InvHolds(s, maxItems, url, actions);
    HistoryKnows(s, maxItems, url, actions);
    hide Run, History, AllKnown, Inv, MaxTs, Counted, Waits, Gone, NeverCovers, Initial, IsCompleted;
    if !IsCompleted(t, id) {
      WhereIs(h, t, url, id);
      CountedIsCompleted(t, url);
      MaxTsIsMaximum(Counted(t));
      var c :| c in Counted(t) && c.frameTs == t.lastUploaded;
      assert Gone(t, id);
      GoneIsCovered(s, maxItems, url, actions, id, c);
    }
  }

  lemma GoneIsCovered(s: State, maxItems: nat, url: string, actions: seq<Action>, id: nat, c: Item)
    requires Initial(s) && IsFrameOf(History(s, maxItems, url, actions), url, id)
    requires Gone(Run(s, maxItems, url, actions), id)
    requires c in Counted(Run(s, maxItems, url, actions)) && c.frameTs.Some?
    requires History(s, maxItems, url, actions)[id].frameTs.value <= c.frameTs.value
    ensures !NeverCovers(s, maxItems, url, actions)
  {
    assert actions[..|actions|] == actions;
    hide Run, History, Counted, Loses, Counts, Gone, Initial;
    var m, x := FindLoss(s, maxItems, url, actions, |actions|, id);
    LostFrame(s, maxItems, url, actions, m, x);
    var k := WhichCounts(s, maxItems, url, actions, |actions|, c);
    assert Covers(s, maxItems, url, actions, m, x, k, c);
  }

  /** Main result, exact, for any clock: after any run `last_uploaded_ts` is a safe bound for deleting local rows
      if and only if no append into a full table dropped a frame of the target that was not in hand, with a frame
      counted that is not dated earlier, and no frame still to be sent is dated up to the bound. */
  lemma BoundSoundExactly(s: State, maxItems: nat, url: string, actions: seq<Action>)
    requires Initial(s)
    ensures var t := Run(s, maxItems, url, actions);
            BoundSound(History(s, maxItems, url, actions), url, t)
            <==> NeverCovers(s, maxItems, url, actions) && WaitingAreLater(t, url)
  {
    var t, h := Run(s, maxItems, url, actions), History(s, maxItems, url, actions);
    HistoryKnows(s, maxItems, url, actions);
    hide Run, History, Covers, WaitingAreLater, IsCompleted, Initial, AllKnown;
    if BoundSound(h, url, t) {
      forall m: nat, x, k: nat, c ensures !Covers(s, maxItems, url, actions, m, x, k, c) {
        SoundCovers(s, maxItems, url, actions, m, x, k, c);
      }
      SoundWaits(h, t, url);
    }
    if NeverCovers(s, maxItems, url, actions) && WaitingAreLater(t, url) {
      forall id | t.lastUploaded.Some? && IsFrameOf(h, url, id) && h[id].frameTs.value <= t.lastUploaded.value
        ensures IsCompleted(t, id)
      {
        CoveredIsSent(s, maxItems, url, actions, id);
      }
    }
  }

  // ----- Frames captured in order -----

  lemma CountsInRun(s: State, maxItems: nat, url: string, actions: seq<Action>, k: nat, c: Item)
    requires Initial(s) && Counts(s, maxItems, url, actions, k, c)
    ensures c in Counted(Run(s, maxItems, url, actions)) && c.frameTs.Some?
  {
    assert actions[..|actions|] == actions;
    CountedStays(s, maxItems, url, actions, k, c, |actions|);
  }

  /** Nothing older than a counted frame of the target is still queued or in hand. */
  lemma NothingOlder(h: map<nat, Meta>, url: string, t: State, id: nat, done: nat)
    requires AllKnown(h, t) && Inv(t, url) && id < done <= LastDone(t) && IsFrameOf(h, url, id)
    ensures IsCompleted(t, id) || Gone(t, id)
  {
    forall x | x in t.table.rows && x.target == Some(url)
      ensures x.id >= LastDone(t)
    {
      var i :| 0 <= i < |t.table.rows| && t.table.rows[i] == x;
    }
    assert forall x :: x in t.table.rows ==> Known(h, x);
  }

  lemma InOrderCovers(s: State, maxItems: nat, url: string, actions: seq<Action>, m: nat, x: Item, k: nat, c: Item)
    requires Initial(s) && CapturedInOrder(History(s, maxItems, url, actions), url)
    ensures Covers(s, maxItems, url, actions, m, x, k, c) <==> Overtakes(s, maxItems, url, actions, m, x, k, c)
  {
    hide Run, History, Loses, Counts, Counted, Initial;
    if Loses(s, maxItems, url, actions, m, x) && Counts(s, maxItems, url, actions, k, c) {
      FrameLost(s, maxItems, url, actions, m, x);
      LostFrame(s, maxItems, url, actions, m, x);
      CountsInRun(s, maxItems, url, actions, k, c);
      CountedFrame(s, maxItems, url, actions, c);
    }
  }

  lemma InOrderWaits(s: State, maxItems: nat, url: string, actions: seq<Action>)
    requires Initial(s) && CapturedInOrder(History(s, maxItems, url, actions), url)
    ensures WaitingAreLater(Run(s, maxItems, url, actions), url)
  {
    var t, h := Run(s, maxItems, url, actions), History(s, maxItems, url, actions);
    InvHolds(s, maxItems, url, actions);
    HistoryKnows(s, maxItems, url, actions);
    hide Run, History, AllKnown, Inv, MaxTs, Counted, Gone, Initial;
    forall x | Waits(t, url, x) && t.lastUploaded.Some? ensures x.frameTs.value > t.lastUploaded.value {
      CountedIsCompleted(t, url);
      MaxTsIsMaximum(Counted(t));
      var c :| c in Counted(t) && c.frameTs == t.lastUploaded;
      CountedFrame(s, maxItems, url, actions, c);
      WaitingFrame(h, t, url, x);
      if x.id < c.id {
        NothingOlder(h, url, t, x.id, c.id);
      }
    }
  }

  /** For frames captured in the order in which they were queued, the first half is all, and is about ids. */
  lemma InOrderSoundExactly(s: State, maxItems: nat, url: string, actions: seq<Action>)
    requires Initial(s) && CapturedInOrder(History(s, maxItems, url, actions), url)
    ensures BoundSound(History(s, maxItems, url, actions), url, Run(s, maxItems, url, actions))
            <==> NeverOvertakes(s, maxItems, url, actions)
  {
    hide Run, History, Overtakes, Covers, CapturedInOrder, BoundSound, WaitingAreLater, Initial;
    BoundSoundExactly(s, maxItems, url, actions);
    InOrderWaits(s, maxItems, url, actions);
    forall m: nat, x, k: nat, c
      ensures Covers(s, maxItems, url, actions, m, x, k, c) <==> Overtakes(s, maxItems, url, actions, m, x, k, c)
    {
      InOrderCovers(s, maxItems, url, actions, m, x, k, c);
    }
  }

  lemma RunSnoc(s: State, maxItems: nat, url: string, actions: seq<Action>, a: Action)
    ensures Run(s, maxItems, url, actions + [a]) == Apply(Run(s, maxItems, url, actions), maxItems, url, a)
  {
    assert (actions + [a])[..|actions|] == actions;
  }

  lemma RunNothing(s: State, maxItems: nat, url: string)
    ensures Run(s, maxItems, url, []) == s
  {
  }

  /** A producer's append, and then one whole turn of the sender. */
  lemma RunTurn(s: State, n: nat, url: string, a: Action)
    ensures Run(s, n, url, [a, Connect, Peek, SendOk, DeleteSent, CountSent])
            == Apply(Apply(Apply(Apply(Apply(Apply(s, n, url, a), n, url, Connect), n, url, Peek), n, url, SendOk),
                           n, url, DeleteSent), n, url, CountSent)
  {
    hide Run, Apply;
    RunNothing(s, n, url);
    RunSnoc(s, n, url, [], a);
    RunSnoc(s, n, url, [a], Connect);
    RunSnoc(s, n, url, [a, Connect], Peek);
    RunSnoc(s, n, url, [a, Connect, Peek], SendOk);
    RunSnoc(s, n, url, [a, Connect, Peek, SendOk], DeleteSent);
    RunSnoc(s, n, url, [a, Connect, Peek, SendOk, DeleteSent], CountSent);
    assert [] + [a] == [a] && [a] + [Connect] == [a, Connect] && [a, Connect] + [Peek] == [a, Connect, Peek];
    assert [a, Connect, Peek] + [SendOk] == [a, Connect, Peek, SendOk];
    assert [a, Connect, Peek, SendOk] + [DeleteSent] == [a, Connect, Peek, SendOk, DeleteSent];
    assert [a, Connect, Peek, SendOk, DeleteSent] + [CountSent] == [a, Connect, Peek, SendOk, DeleteSent, CountSent];
  }

  /** The bound does fail: with room for one item, a second frame pushes the first out, is sent,
      and its timestamp then covers the lost frame. */
  lemma BoundCanFail(url: string, kind: string, payload: string)
    ensures var first := Item(1, kind, payload, Some(1), Some(url), 0, "");
            var s := State(Table([first], 1), Idle, false, 0, None, []);
            var actions := [Append(kind, payload, Some(2), Some(url)), Connect, Peek, SendOk, DeleteSent, CountSent];
            var t := Run(s, 1, url, actions);
            Initial(s) && t.lastUploaded == Some(2) && !HasRow(t.table, 1) && !IsCompleted(t, 1)
  {
    hide Run, Appended, Matching, Without;
    var first, second := Item(1, kind, payload, Some(1), Some(url), 0, ""),
        Item(2, kind, payload, Some(2), Some(url), 0, "");
    var s0 := State(Table([first], 1), Idle, false, 0, None, []);
    var a0 := Append(kind, payload, Some(2), Some(url));
    RunTurn(s0, 1, url, a0);
    FirstPushedOut(first, second, url);
    var s1 := Apply(s0, 1, url, a0);
    assert s1 == s0.(table := Table([second], 2));
    var s3 := Apply(Apply(s1, 1, url, Connect), 1, url, Peek);
    assert s3 == State(Table([second], 2), Holding(second), true, 0, None, []);
    var s6 := Apply(Apply(Apply(s3, 1, url, SendOk), 1, url, DeleteSent), 1, url, CountSent);
    assert s6.table.rows == [] && s6.completed == [] + [second] && s6.lastUploaded == Some(2);
  }

  lemma FirstPushedOut(first: Item, second: Item, url: string)
    requires first.id == 1 && second == first.(id := 2, frameTs := second.frameTs) && first.target == Some(url)
    requires first.attempts == 0 && first.lastError == ""
    ensures Appended(Table([first], 1), 1, first.kind, first.payload, second.frameTs, Some(url)) == Table([second], 2)
    ensures Peeked(Table([second], 2), 1, Some(url)) == [second] && Without([second], 2) == []
  {
    assert ([first] + [second])[1..] == [second] && [second][1..] == [];
  }

  /** And it fails when the clock steps back: of two frames dated 10 and then 5 the first is sent, and the bound
      of 10 covers the second, which still waits; no row was dropped. */
  lemma ClockStepFails(url: string, kind: string, payload: string)
    ensures var first := Item(1, kind, payload, Some(10), Some(url), 0, "");
            var s := State(Table([first], 1), Idle, false, 0, None, []);
            var actions := [Append(kind, payload, Some(5), Some(url)), Connect, Peek, SendOk, DeleteSent, CountSent];
            var t := Run(s, 2, url, actions);
            && Initial(s) && t.lastUploaded == Some(10)
            && Waits(t, url, Item(2, kind, payload, Some(5), Some(url), 0, "")) && !WaitingAreLater(t, url)
            && forall m: nat, x :: !Loses(s, 2, url, actions, m, x)
  {
    var first := Item(1, kind, payload, Some(10), Some(url), 0, "");
    var second := Item(2, kind, payload, Some(5), Some(url), 0, "");
    var s := State(Table([first], 1), Idle, false, 0, None, []);
    var actions := [Append(kind, payload, Some(5), Some(url)), Connect, Peek, SendOk, DeleteSent, CountSent];
    OneOfTwoSent(first, second, url);
    RunNothing(s, 2, url);
    hide Run;
    assert [second][0] == second && Waits(Run(s, 2, url, actions), url, second);
    forall m: nat, x ensures !Loses(s, 2, url, actions, m, x) {
      assert m < 6 && actions[m].Append? ==> m == 0;
      assert actions[..0] == [];
    }
  }

  lemma OneOfTwoSent(first: Item, second: Item, url: string)
    requires first.id == 1 && second == first.(id := 2, frameTs := Some(5)) && first.target == Some(url)
    requires first.attempts == 0 && first.lastError == "" && first.frameTs == Some(10)
    ensures var s := State(Table([first], 1), Idle, false, 0, None, []);
            var a := Append(first.kind, first.payload, Some(5), Some(url));
            Run(s, 2, url, [a, Connect, Peek, SendOk, DeleteSent, CountSent])
            == State(Table([second], 2), Idle, true, 1, Some(10), [first])
  {
    var s0 := State(Table([first], 1), Idle, false, 0, None, []);
    var a0 := Append(first.kind, first.payload, Some(5), Some(url));
    RunTurn(s0, 2, url, a0);
    BothQueued(first, second, url);
    hide Run, Appended, Peeked, Without;
    var s1 := Apply(s0, 2, url, a0);
    assert s1 == s0.(table := Table([first, second], 2));
    var s3 := Apply(Apply(s1, 2, url, Connect), 2, url, Peek);
    assert s3 == State(Table([first, second], 2), Holding(first), true, 0, None, []);
    assert [] + [first] == [first];
  }

  lemma BothQueued(first: Item, second: Item, url: string)
    requires first.id == 1 && second == first.(id := 2, frameTs := second.frameTs) && first.target == Some(url)
    requires first.attempts == 0 && first.lastError == ""
    ensures Appended(Table([first], 1), 2, first.kind, first.payload, second.frameTs, Some(url))
            == Table([first, second], 2)
    ensures Peeked(Table([first, second], 2), 1, Some(url)) == [first] && Without([first, second], 1) == [second]
  {
    assert [first] + [second] == [first, second] && [first, second][1..] == [second] && [second][1..] == [];
    assert Matching([second], Some(url)) == [second];
    assert Matching([first, second], Some(url)) == [first] + [second];
    assert Without([second], 1) == [second];
  }
}
