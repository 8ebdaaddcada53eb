/** The durable send loop of the streamer, interleaved with producers that append and trim. */
module DurableSender {
  import opened Collections
  import opened Options
  import opened UploadQueue

  /** The sender takes the oldest item of its target, holds it until a send completes, then
      deletes the row and updates its counters. */
  datatype Pc = Idle | Holding(item: Item) | Sent(item: Item) | Deleted(item: Item)

  datatype State = State(table: Table, pc: Pc, connected: bool, framesSent: nat, lastUploaded: Option<int>,
                         completed: seq<Item>)   // completed: items whose send returned, in order

  datatype Action =
    | Append(kind: string, payload: string, frameTs: Option<int>, target: Option<string>)
    | Connect
    | Disconnect
    | Peek
    | SendOk
    | SendFail(error: string)
    | DeleteSent
    | CountSent

  function Later(last: Option<int>, ts: Option<int>): Option<int> {
    if ts.None? then last
    else if last.None? || ts.value > last.value then ts
    else last
  }

  function Apply(s: State, maxItems: nat, url: string, a: Action): State {
    match a
    case Append(kind, payload, frameTs, target) =>
      s.(table := Appended(s.table, maxItems, kind, payload, frameTs, target))
    case Connect => s.(connected := true)
    case Disconnect => s.(connected := false)
    case Peek =>
      if s.pc != Idle || !s.connected then s else
        var items := Peeked(s.table, 1, Some(url));
        if items == [] then s else s.(pc := Holding(items[0]))
    case SendOk =>
      if !s.pc.Holding? || !s.connected then s
      else s.(pc := Sent(s.pc.item), completed := s.completed + [s.pc.item])
    case SendFail(error) =>
      if !s.pc.Holding? || !s.connected then s
      else s.(table := s.table.(rows := Marked(s.table.rows, s.pc.item.id, error)), connected := false)
    case DeleteSent =>
      if !s.pc.Sent? then s
      else s.(table := s.table.(rows := Without(s.table.rows, s.pc.item.id)), pc := Deleted(s.pc.item))
    case CountSent =>
      if !s.pc.Deleted? then s
      else s.(framesSent := s.framesSent + 1, lastUploaded := Later(s.lastUploaded, s.pc.item.frameTs), pc := Idle)
  }

  function Run(s: State, maxItems: nat, url: string, actions: seq<Action>): State {
    if actions == [] then s
    else Apply(Run(s, maxItems, url, actions[..|actions| - 1]), maxItems, url, actions[|actions| - 1])
  }

  /** A freshly started sender over any table left by earlier runs. */
  ghost predicate Initial(s: State) {
    Valid(s.table) && s.pc == Idle && s.framesSent == 0 && s.lastUploaded == None && s.completed == []
  }

  /** The greatest frame timestamp of a list of items. */
  function MaxTs(items: seq<Item>): Option<int> {
    if items == [] then None else Later(MaxTs(items[..|items| - 1]), items[|items| - 1].frameTs)
  }

  function LastDone(s: State): nat {
    if s.completed == [] then 0 else s.completed[|s.completed| - 1].id
  }

  /** Completed sends are for this target only, with strictly increasing ids. */
  ghost predicate CompletedOk(s: State, url: string) {
    && (forall i :: 0 <= i < |s.completed| ==>
          s.completed[i].target == Some(url) && 0 < s.completed[i].id <= s.table.lastId)
    && (forall i, j :: 0 <= i < j < |s.completed| ==> s.completed[i].id < s.completed[j].id)
  }

  /** Rows of this target still in the table come after them, but for one sent and not yet deleted. */
  ghost predicate RowsOk(s: State, url: string) {
    forall i :: 0 <= i < |s.table.rows| && s.table.rows[i].target == Some(url) ==>
      s.table.rows[i].id > LastDone(s) || (s.pc.Sent? && s.table.rows[i].id == LastDone(s))
  }

  /** The item in hand is the oldest of its target, or the one just sent. */
  ghost predicate HandOk(s: State, url: string) {
    && (s.pc.Holding? ==>
          && s.pc.item.target == Some(url) && LastDone(s) < s.pc.item.id <= s.table.lastId
          && forall i :: 0 <= i < |s.table.rows| && s.table.rows[i].target == Some(url) ==>
                           s.table.rows[i].id >= s.pc.item.id)
    && (s.pc.Sent? || s.pc.Deleted? ==> s.completed != [] && s.pc.item == s.completed[|s.completed| - 1])
  }

  /** The completed items that the counters already include. */
  function Counted(s: State): seq<Item> {
    if s.completed != [] && (s.pc.Sent? || s.pc.Deleted?) then s.completed[..|s.completed| - 1] else s.completed
  }

  ghost predicate CountersOk(s: State) {
    var counted := Counted(s);
    s.framesSent == |counted| && s.lastUploaded == MaxTs(counted)
  }

  ghost predicate Inv(s: State, url: string) {
    Valid(s.table) && CompletedOk(s, url) && RowsOk(s, url) && HandOk(s, url) && CountersOk(s)
  }

  ghost predicate OldOrNew(t: Table, u: Table, frameTs: Option<int>, target: Option<string>) {
    forall x :: x in u.rows ==> x in t.rows || (x.id == u.lastId && x.frameTs == frameTs && x.target == target)
  }

  /** An append adds one row with a new id and drops only old rows, oldest first. */
  lemma AppendedRows(t: Table, maxItems: nat, kind: string, payload: string, frameTs: Option<int>,
                     target: Option<string>)
    requires Valid(t) && maxItems > 0
    ensures var u := Appended(t, maxItems, kind, payload, frameTs, target);
            && Valid(u) && u.lastId == t.lastId + 1 && OldOrNew(t, u, frameTs, target)
            && DropsOldest(t.rows, u.rows, maxItems)
            && u.rows != [] && u.rows[|u.rows| - 1].id == u.lastId
  {
    hide Valid, DropsOldest, SomeOf, OldOrNew, LastN;
    var item := Item(t.lastId + 1, kind, payload, frameTs, target, 0, "");
    var all := Table(t.rows + [item], t.lastId + 1);
    OneMoreRow(t, item);
    NewestKeeps(all, maxItems);
    DropsFewer(t.rows, all.rows, LastN(all.rows, maxItems), maxItems);
    SomeOldOrNew(t, Table(LastN(all.rows, maxItems), t.lastId + 1), item);
  }

  lemma OneMoreRow(t: Table, item: Item)
    requires Valid(t) && item.id == t.lastId + 1
    ensures Valid(Table(t.rows + [item], t.lastId + 1)) && SomeOf(t.rows, t.rows + [item])
  {
  }

  lemma SomeOldOrNew(t: Table, u: Table, item: Item)
    requires SomeOf(u.rows, t.rows + [item]) && item.id == u.lastId
    ensures OldOrNew(t, u, item.frameTs, item.target)
  {
  }

  lemma DropsFewer(fewer: seq<Item>, rows: seq<Item>, kept: seq<Item>, n: nat)
    requires DropsOldest(rows, kept, n) && SomeOf(fewer, rows)
    ensures DropsOldest(fewer, kept, n)
  {
  }

  lemma AppendInv(s: State, maxItems: nat, url: string, a: Action)
    requires Inv(s, url) && a.Append?
    ensures Inv(Apply(s, maxItems, url, a), url)
  {
    var t := Appended(s.table, maxItems, a.kind, a.payload, a.frameTs, a.target);
    if maxItems > 0 {
      AppendedRows(s.table, maxItems, a.kind, a.payload, a.frameTs, a.target);
      hide Appended, Valid, RowsOk, HandOk, CompletedOk, CountersOk, OldOrNew, DropsOldest;
      AppendKeepsRows(s, t, url, a.frameTs, a.target);
      AppendKeepsCounters(s, t, url);
    } else {
      NoAppend(s, url, a);
    }
  }

  lemma NoAppend(s: State, url: string, a: Action)
    requires a.Append?
    ensures Apply(s, 0, url, a) == s
  {
  }

  lemma AppendKeepsCounters(s: State, t: Table, url: string)
    requires CompletedOk(s, url) && CountersOk(s) && t.lastId == s.table.lastId + 1
    ensures CompletedOk(s.(table := t), url) && CountersOk(s.(table := t))
  {
    hide MaxTs;
  }

  lemma AppendKeepsRows(s: State, t: Table, url: string, frameTs: Option<int>, target: Option<string>)
    requires CompletedOk(s, url) && RowsOk(s, url) && HandOk(s, url) && t.lastId == s.table.lastId + 1
    requires OldOrNew(s.table, t, frameTs, target)
    ensures RowsOk(s.(table := t), url) && HandOk(s.(table := t), url)
  {
    forall i | 0 <= i < |t.rows| && t.rows[i].target == Some(url)
      ensures t.rows[i].id > LastDone(s) || (s.pc.Sent? && t.rows[i].id == LastDone(s))
      ensures s.pc.Holding? ==> t.rows[i].id >= s.pc.item.id
    {
      RowBound(s, url, t.rows[i], t.lastId);
    }
  }

  lemma RowBound(s: State, url: string, x: Item, newId: nat)
    requires CompletedOk(s, url) && RowsOk(s, url) && HandOk(s, url) && newId == s.table.lastId + 1
    requires x in s.table.rows || x.id == newId
    requires x.target == Some(url)
    ensures x.id > LastDone(s) || (s.pc.Sent? && x.id == LastDone(s))
    ensures s.pc.Holding? ==> x.id >= s.pc.item.id
  {
    if x in s.table.rows {
      var j :| 0 <= j < |s.table.rows| && s.table.rows[j] == x;
    }
  }

  lemma PeekInv(s: State, maxItems: nat, url: string)
    requires Inv(s, url)
    ensures Inv(Apply(s, maxItems, url, Peek), url)
  {
    var t := Apply(s, maxItems, url, Peek);
    if t != s {
      MatchingHead(s.table.rows, Some(url));
      hide Valid, MaxTs, Matching;
      PeekHand(s, url, t.pc.item);
      PeekRest(s, t, url);
    }
  }

  lemma PeekHand(s: State, url: string, x: Item)
    requires Inv(s, url) && s.pc.Idle? && Matching(s.table.rows, Some(url)) != []
    requires x == Matching(s.table.rows, Some(url))[0]
    ensures HandOk(s.(pc := Holding(x)), url)
  {
    MatchingHead(s.table.rows, Some(url));
    hide Matching, MaxTs;
  }

  lemma PeekRest(s: State, t: State, url: string)
    requires Inv(s, url) && s.pc.Idle? && t.pc.Holding? && t == s.(pc := t.pc) && HandOk(t, url)
    ensures Inv(t, url)
  {
    hide Valid, MaxTs, HandOk;
  }

  lemma SendOkInv(s: State, maxItems: nat, url: string)
    requires Inv(s, url)
    ensures Inv(Apply(s, maxItems, url, SendOk), url)
  {
    if s.pc.Holding? && s.connected {
      var t := Apply(s, maxItems, url, SendOk);
      hide MaxTs, Valid;
      SentCounters(s, t, url);
      SentCompleted(s, t, url);
      SentRows(s, t, url);
    }
  }

  lemma SentCounters(s: State, t: State, url: string)
    requires s.pc.Holding? && CountersOk(s)
    requires t == s.(pc := Sent(s.pc.item), completed := s.completed + [s.pc.item])
    ensures CountersOk(t) && LastDone(t) == s.pc.item.id
  {
    hide MaxTs;
    assert (s.completed + [s.pc.item])[..|s.completed|] == s.completed;
  }

  lemma SentCompleted(s: State, t: State, url: string)
    requires s.pc.Holding? && CompletedOk(s, url) && HandOk(s, url)
    requires t == s.(pc := Sent(s.pc.item), completed := s.completed + [s.pc.item])
    ensures CompletedOk(t, url)
  {
  }

  lemma SentRows(s: State, t: State, url: string)
    requires s.pc.Holding? && HandOk(s, url) && LastDone(t) == s.pc.item.id
    requires t == s.(pc := Sent(s.pc.item), completed := s.completed + [s.pc.item])
    ensures RowsOk(t, url) && HandOk(t, url)
  {
    hide LastDone;
  }

  lemma SendFailInv(s: State, maxItems: nat, url: string, error: string)
    requires Inv(s, url)
    ensures Inv(Apply(s, maxItems, url, SendFail(error)), url)
  {
    if s.pc.Holding? && s.connected {
      hide MaxTs, Valid, Marked, CompletedOk;
      MarkedSame(s.table.rows, s.pc.item.id, error);
      MarkedValid(s.table, s.pc.item.id, error);
      SameCompleted(s, Apply(s, maxItems, url, SendFail(error)), url);
    }
  }

  lemma SameCompleted(s: State, t: State, url: string)
    requires CompletedOk(s, url) && t.completed == s.completed && t.table.lastId == s.table.lastId
    ensures CompletedOk(t, url)
  {
  }

  lemma DeleteInv(s: State, maxItems: nat, url: string)
    requires Inv(s, url)
    ensures Inv(Apply(s, maxItems, url, DeleteSent), url)
  {
    if s.pc.Sent? {
      var rows := Without(s.table.rows, s.pc.item.id);
      WithoutValid(s.table, s.pc.item.id);
      forall i | 0 <= i < |rows| && rows[i].target == Some(url) ensures rows[i].id > LastDone(s) {
        WithoutMember(s.table.rows, s.pc.item.id, rows[i]);
      }
    }
  }

  /** The sender invariant holds after every interleaving. */
  lemma {:induction false} InvHolds(s: State, maxItems: nat, url: string, actions: seq<Action>)
    requires Initial(s)
    ensures Inv(Run(s, maxItems, url, actions), url)
  {
    if actions != [] {
      var n := |actions| - 1;
      InvHolds(s, maxItems, url, actions[..n]);
      var t, a := Run(s, maxItems, url, actions[..n]), actions[n];
      hide Run, Inv, Apply;
      RunLast(s, maxItems, url, actions);
      match a
      case Append(_, _, _, _) => AppendInv(t, maxItems, url, a);
      case Connect => QuietInv(t, maxItems, url, a);
      case Disconnect => QuietInv(t, maxItems, url, a);
      case Peek => PeekInv(t, maxItems, url);
      case SendOk => SendOkInv(t, maxItems, url);
      case SendFail(error) => SendFailInv(t, maxItems, url, error);
      case DeleteSent => DeleteInv(t, maxItems, url);
      case CountSent => QuietInv(t, maxItems, url, a);
    } else {
      StartInv(s, maxItems, url);
    }
  }

  lemma RunLast(s: State, maxItems: nat, url: string, actions: seq<Action>)
    requires actions != []
    ensures Run(s, maxItems, url, actions)
            == Apply(Run(s, maxItems, url, actions[..|actions| - 1]), maxItems, url, actions[|actions| - 1])
  {
  }

  lemma StartInv(s: State, maxItems: nat, url: string)
    requires Initial(s)
    ensures Inv(Run(s, maxItems, url, []), url)
  {
  }

  lemma QuietInv(s: State, maxItems: nat, url: string, a: Action)
    requires Inv(s, url) && (a.Connect? || a.Disconnect? || a.CountSent?)
    ensures Inv(Apply(s, maxItems, url, a), url)
  {
    hide Valid;
  }

  // ----- Main results -----

  /** In every interleaving completed sends are for this target only, in strictly increasing id
      order (so none repeats), and the counters describe exactly the completed sends. */
  lemma CompletedInOrder(s: State, maxItems: nat, url: string, actions: seq<Action>)
    requires Initial(s)
    ensures var t := Run(s, maxItems, url, actions);
            && (forall i :: 0 <= i < |t.completed| ==> t.completed[i].target == Some(url))
            && (forall i, j :: 0 <= i < j < |t.completed| ==> t.completed[i].id < t.completed[j].id)
            && (t.pc.Idle? || t.pc.Holding? ==>
                  t.framesSent == |t.completed| && IsMaximum(t.lastUploaded, t.completed))
  {
    InvHolds(s, maxItems, url, actions);
    MaxTsIsMaximum(Run(s, maxItems, url, actions).completed);
  }

  /** `max` is the greatest timestamp among the items that have one. */
  ghost predicate IsMaximum(max: Option<int>, items: seq<Item>) {
    match max
    case None => forall x :: x in items ==> x.frameTs.None?
    case Some(m) =>
      && (forall x :: x in items && x.frameTs.Some? ==> x.frameTs.value <= m)
      && (exists x :: x in items && x.frameTs == Some(m))
  }

  /** The running maximum is the maximum. */
  lemma {:induction false} MaxTsIsMaximum(items: seq<Item>)
    ensures IsMaximum(MaxTs(items), items)
  {
    if items != [] {
      var n := |items| - 1;
      MaxTsIsMaximum(items[..n]);
      assert items == items[..n] + [items[n]];
      if MaxTs(items[..n]).Some? {
        var x :| x in items[..n] && x.frameTs == MaxTs(items[..n]);
        assert x in items;
      }
      assert items[n] in items;
    }
  }

  ghost predicate HasRow(t: Table, id: nat) {
    exists x :: x in t.rows && x.id == id
  }

  ghost predicate IsCompleted(s: State, id: nat) {
    exists x :: x in s.completed && x.id == id
  }

  /** A row that is not sent leaves the table only when `maxItems` newer rows fill it. */
  lemma LeavesUnsentOnlyWhenFull(s: State, maxItems: nat, url: string, a: Action, id: nat)
    requires Inv(s, url) && HasRow(s.table, id) && !HasRow(Apply(s, maxItems, url, a).table, id)
    requires !IsCompleted(Apply(s, maxItems, url, a), id)
    ensures var rows := Apply(s, maxItems, url, a).table.rows;
            a.Append? && |rows| == maxItems && forall i :: 0 <= i < |rows| ==> rows[i].id > id
  {
    var x :| x in s.table.rows && x.id == id;
    if a.Append? {
      if maxItems > 0 {
        AppendedRows(s.table, maxItems, a.kind, a.payload, a.frameTs, a.target);
      }
    } else {
      OthersKeepUnsent(s, maxItems, url, a, x);
    }
  }

  /** No other step removes a row that was not sent. */
  lemma OthersKeepUnsent(s: State, maxItems: nat, url: string, a: Action, x: Item)
    requires Inv(s, url) && x in s.table.rows && !a.Append?
    ensures HasRow(Apply(s, maxItems, url, a).table, x.id) || IsCompleted(Apply(s, maxItems, url, a), x.id)
  {
    var t := Apply(s, maxItems, url, a);
    match a
    case SendFail(error) =>
      if s.pc.Holding? && s.connected {
        MarkedSame(s.table.rows, s.pc.item.id, error);
        var i :| 0 <= i < |s.table.rows| && s.table.rows[i] == x;
        assert t.table.rows[i].id == x.id;
        assert t.table.rows[i] in t.table.rows;
      }
    case DeleteSent =>
      if s.pc.Sent? {
        WithoutMember(s.table.rows, s.pc.item.id, x);
        assert s.pc.item in t.completed;
      }
    case _ =>
  }

  lemma {:induction false} IdsSpread(rows: seq<Item>, low: nat, lastId: nat)
    requires Valid(Table(rows, lastId)) && forall i :: 0 <= i < |rows| ==> rows[i].id > low
    ensures rows != [] ==> low + |rows| <= rows[|rows| - 1].id
  {
    if |rows| > 1 {
      var front := rows[..|rows| - 1];
      IdsSpread(front, low, lastId);
    }
  }

  /** Over whole runs: every row ever in the table or appended is still there, was sent, or has
      been overtaken by at least `maxItems` newer appends. */
  lemma {:induction false} NothingLostEarly(s: State, maxItems: nat, url: string, actions: seq<Action>, id: nat)
    requires Initial(s) && maxItems > 0
    requires HasRow(s.table, id) || s.table.lastId < id <= Run(s, maxItems, url, actions).table.lastId
    ensures var t := Run(s, maxItems, url, actions);
            HasRow(t.table, id) || IsCompleted(t, id) || id + maxItems <= t.table.lastId
  {
    if actions != [] {
      var n := |actions| - 1;
      var t, a := Run(s, maxItems, url, actions[..n]), actions[n];
      var u := Apply(t, maxItems, url, a);
      InvHolds(s, maxItems, url, actions[..n]);
      StepIds(t, maxItems, url, a);
      if a.Append? && id == u.table.lastId {
        AppendedRows(t.table, maxItems, a.kind, a.payload, a.frameTs, a.target);
        assert u.table.rows[|u.table.rows| - 1] in u.table.rows;
        assert HasRow(u.table, id);
      } else {
        NothingLostEarly(s, maxItems, url, actions[..n], id);
        if IsCompleted(t, id) { CompletedGrows(t, maxItems, url, a, id); }
        if HasRow(t.table, id) && !HasRow(u.table, id) && !IsCompleted(u, id) {
          LeavesUnsentOnlyWhenFull(t, maxItems, url, a, id);
          InvHolds(s, maxItems, url, actions);
          IdsSpread(u.table.rows, id, u.table.lastId);
        }
      }
    }
  }

  lemma StepIds(t: State, maxItems: nat, url: string, a: Action)
    requires maxItems > 0
    ensures Apply(t, maxItems, url, a).table.lastId == t.table.lastId + (if a.Append? then 1 else 0)
  {
  }

  lemma CompletedGrows(t: State, maxItems: nat, url: string, a: Action, id: nat)
    requires IsCompleted(t, id)
    ensures IsCompleted(Apply(t, maxItems, url, a), id)
  {
    var x :| x in t.completed && x.id == id;
    assert x in Apply(t, maxItems, url, a).completed;
  }
}
