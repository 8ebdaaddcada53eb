/** What the SQL event store retains over whole runs, against everything ever appended. */
module StoreRetention {
  import opened Collections
  import opened EventStores
  import opened Options

  /** The batch answer, computed from everything ever appended under (author, tag): the newest n
      by (ts, id), of these the unexpired ones after `since`, of these the first `limit`. */
  function Batch(ops: seq<Op>, n: nat, author: string, tag: Option<string>, cutoff: int, since: Option<int>,
                 limit: nat): seq<Event> {
    Take(Visible(ops, n, KeyQuery(author, tag), FreshQuery(cutoff, since)), limit)
  }

  /** The batch answer without its limit. */
  function Visible(ops: seq<Op>, n: nat, k: Query, live: Query): seq<Event> {
    Select(Take(SortNewest(Select(Appended(ops), k)), n), live)
  }

  // ----- Everything ever appended -----

  lemma {:induction false} AppendedIds(ops: seq<Op>)
    ensures forall i :: 0 <= i < |Appended(ops)| ==> Appended(ops)[i].id == i + 1
  {
    if ops != [] {
      AppendedIds(ops[..|ops| - 1]);
    }
  }

  lemma AppendedAscend(ops: seq<Op>)
    ensures Ascending(Appended(ops)) && DistinctIds(Appended(ops))
    ensures forall e :: e in Appended(ops) ==> e.id <= |Appended(ops)|
  {
    AppendedIds(ops);
  }

  lemma {:induction false} AppendedGrows(ops: seq<Op>, m: nat)
    requires m <= |ops|
    ensures Appended(ops[..m]) <= Appended(ops)
  {
    if m == |ops| {
      assert ops[..m] == ops;
    } else {
      AppendedGrows(ops[..|ops| - 1], m);
      assert ops[..|ops| - 1][..m] == ops[..m];
    }
  }

  function RowOf(id: nat, op: Op): Event
    requires op.Append?
  {
    Event(id, op.author, op.tag, op.ts, op.ciphertext, op.sig)
  }

  /** The event that append number `i` of the run creates. */
  function EventAt(ops: seq<Op>, i: nat): Event
    requires i < |ops| && ops[i].Append?
  {
    RowOf(|Appended(ops[..i])| + 1, ops[i])
  }

  lemma AppendedStep(ops: seq<Op>, m: nat)
    requires m < |ops|
    ensures Appended(ops[..m + 1])
            == if ops[m].Append? then Appended(ops[..m]) + [EventAt(ops, m)] else Appended(ops[..m])
  {
    assert ops[..m + 1][..m] == ops[..m];
  }

  lemma {:induction false} WhichAppend(ops: seq<Op>, m: nat, e: Event) returns (i: nat)
    requires m <= |ops| && e in Appended(ops[..m])
    ensures i < m && ops[i].Append? && e == EventAt(ops, i)
  {
    AppendedStep(ops, m - 1);
    hide Appended;
    if e in Appended(ops[..m - 1]) {
      i := WhichAppend(ops, m - 1, e);
    } else {
      i := m - 1;
    }
  }

  // ----- The table along a run -----

  lemma SqlRunStep(ops: seq<Op>, m: nat, n: nat, ttl: int)
    requires m < |ops|
    ensures SqlRun(ops[..m + 1], n, ttl) == SqlStep(SqlRun(ops[..m], n, ttl), n, ttl, ops[m])
  {
    assert ops[..m + 1][..m] == ops[..m];
  }

  lemma SnocOk(t: Table, e: Event)
    requires TableOk(t) && e.id == t.lastId + 1
    ensures TableOk(Table(t.rows + [e], e.id))
  {
  }

  lemma AppendIs(t: Table, n: nat, ttl: int, op: Op)
    requires op.Append?
    ensures var e := RowOf(t.lastId + 1, op);
            SqlStep(t, n, ttl, op) == Table(Trimmed(t.rows + [e], KeyQuery(op.author, op.tag), n), e.id)
  {
    hide Trimmed;
  }

  /** What one append leaves of the rows. */
  lemma AppendKeeps(t: Table, n: nat, ttl: int, op: Op)
    requires TableOk(t) && op.Append?
    ensures var u := SqlStep(t, n, ttl, op);
            && TableOk(u) && u.lastId == t.lastId + 1
            && Keeps(t.rows + [RowOf(u.lastId, op)], u.rows, KeyQuery(op.author, op.tag), n)
  {
    var e := RowOf(t.lastId + 1, op);
    SnocOk(t, e);
    AppendIs(t, n, ttl, op);
    hide Keeps, Trimmed, TableOk, SqlStep;
    TrimmedOk(Table(t.rows + [e], e.id), KeyQuery(op.author, op.tag), n);
  }

  lemma EvictKeeps(t: Table, n: nat, ttl: int, op: Op)
    requires TableOk(t) && op.Evict?
    ensures var u := SqlStep(t, n, ttl, op);
            && TableOk(u) && u.lastId == t.lastId
            && forall x :: x in u.rows <==> x in t.rows && x.ts >= op.now - ttl
  {
    EvictOk(t, op.now - ttl);
    hide TableOk, SqlEvict;
  }

  ghost predicate Subset(fewer: seq<Event>, rows: seq<Event>) {
    forall x :: x in fewer ==> x in rows
  }

  lemma KeepsSubset(rows: seq<Event>, kept: seq<Event>, k: Query, n: nat)
    requires Keeps(rows, kept, k, n)
    ensures Subset(kept, rows)
  {
    hide Among, Matches;
  }

  lemma SubsetSnoc(fewer: seq<Event>, rows: seq<Event>, e: Event, kept: seq<Event>)
    requires Subset(fewer, rows) && Subset(kept, fewer + [e])
    ensures Subset(kept, rows + [e]) && Subset(fewer + [e], rows + [e])
  {
  }

  lemma EvictSubset(t: Table, n: nat, ttl: int, op: Op, rows: seq<Event>)
    requires TableOk(t) && Subset(t.rows, rows) && op.Evict?
    ensures Subset(SqlStep(t, n, ttl, op).rows, rows)
  {
    EvictKeeps(t, n, ttl, op);
    hide SqlStep, TableOk;
  }

  /** The table of a run: ids ascend, and every row was appended. */
  lemma {:induction false} RunOk(ops: seq<Op>, m: nat, n: nat, ttl: int)
    requires m <= |ops|
    ensures var t := SqlRun(ops[..m], n, ttl);
            TableOk(t) && t.lastId == |Appended(ops[..m])| && Subset(t.rows, Appended(ops[..m]))
  {
    if m > 0 {
      RunOk(ops, m - 1, n, ttl);
      SqlRunStep(ops, m - 1, n, ttl);
      AppendedStep(ops, m - 1);
      hide SqlRun, Appended, SqlStep, Keeps, Subset, TableOk;
      var t, op := SqlRun(ops[..m - 1], n, ttl), ops[m - 1];
      if op.Append? {
        AppendKeeps(t, n, ttl, op);
        var e := EventAt(ops, m - 1);
        KeepsSubset(t.rows + [e], SqlStep(t, n, ttl, op).rows, KeyQuery(op.author, op.tag), n);
        SubsetSnoc(t.rows, Appended(ops[..m - 1]), e, SqlStep(t, n, ttl, op).rows);
      } else {
        EvictKeeps(t, n, ttl, op);
        EvictSubset(t, n, ttl, op, Appended(ops[..m - 1]));
      }
    }
  }

  /** A row among the newest of more rows is among the newest of fewer. */
  lemma AmongFewer(fewer: seq<Event>, rows: seq<Event>, q: Query, n: nat, e: Event)
    requires Among(rows, q, n, e) && e in fewer && Subset(fewer, rows)
    ensures Among(fewer, q, n, e)
  {
    SubsetSize(Above(fewer, q, e), Above(rows, q, e));
  }

  /** No eviction between append `i` and step `m` reaches the event. */
  ghost predicate Unreached(ops: seq<Op>, ttl: int, i: nat, m: nat)
    requires i < |ops| && ops[i].Append? && m <= |ops|
  {
    forall j :: i < j < m && ops[j].Evict? ==> ops[i].ts >= ops[j].now - ttl
  }

  /** Trimming never removes a row that is among the newest n ever. */
  lemma {:induction false} Survives(ops: seq<Op>, n: nat, ttl: int, author: string, tag: Option<string>, i: nat, m: nat)
    requires i < m <= |ops| && ops[i].Append? && Unreached(ops, ttl, i, m)
    requires Among(Appended(ops), KeyQuery(author, tag), n, EventAt(ops, i))
    ensures EventAt(ops, i) in SqlRun(ops[..m], n, ttl).rows
    decreases m
  {
    hide SqlRun, Appended, Among, Matches;
    if i < m - 1 {
      Survives(ops, n, ttl, author, tag, i, m - 1);
    }
    if ops[m - 1].Append? {
      AppendSpares(ops, n, ttl, author, tag, m - 1, EventAt(ops, i));
    } else {
      EvictInRun(ops, n, ttl, m - 1, EventAt(ops, i));
    }
  }

  lemma SnocHas(rows: seq<Event>, e: Event, x: Event)
    ensures x in rows + [e] <==> x in rows || x == e
  {
  }

  /** One append of a run, as trimming. */
  lemma AppendInRun(ops: seq<Op>, n: nat, ttl: int, m: nat)
    requires m < |ops| && ops[m].Append?
    ensures Keeps(SqlRun(ops[..m], n, ttl).rows + [EventAt(ops, m)], SqlRun(ops[..m + 1], n, ttl).rows,
                  KeyQuery(ops[m].author, ops[m].tag), n)
  {
    RunOk(ops, m, n, ttl);
    SqlRunStep(ops, m, n, ttl);
    var t := SqlRun(ops[..m], n, ttl);
    assert EventAt(ops, m) == RowOf(t.lastId + 1, ops[m]);
    hide SqlRun, Appended, SqlStep, TableOk, Keeps, Subset, KeyQuery, RowOf, EventAt;
    AppendKeeps(t, n, ttl, ops[m]);
  }

  lemma EvictInRun(ops: seq<Op>, n: nat, ttl: int, m: nat, e: Event)
    requires m < |ops| && ops[m].Evict?
    ensures e in SqlRun(ops[..m + 1], n, ttl).rows
            <==> e in SqlRun(ops[..m], n, ttl).rows && e.ts >= ops[m].now - ttl
  {
    RunOk(ops, m, n, ttl);
    SqlRunStep(ops, m, n, ttl);
    hide SqlRun, Appended, SqlStep, TableOk, Subset;
    EvictKeeps(SqlRun(ops[..m], n, ttl), n, ttl, ops[m]);
  }

  lemma AppendSpares(ops: seq<Op>, n: nat, ttl: int, author: string, tag: Option<string>, m: nat, e: Event)
    requires m < |ops| && ops[m].Append? && Among(Appended(ops), KeyQuery(author, tag), n, e)
    requires e in SqlRun(ops[..m], n, ttl).rows || e == EventAt(ops, m)
    ensures e in SqlRun(ops[..m + 1], n, ttl).rows
  {
    hide SqlRun, Appended, Keeps, Subset, Among, Matches, EventAt, KeyQuery;
    var before, row := SqlRun(ops[..m], n, ttl).rows, EventAt(ops, m);
    AppendInRun(ops, n, ttl, m);
    RowsSoFar(ops, n, ttl, m);
    SnocHas(before, row, e);
    StaysNewest(ops, m + 1, before + [row], author, tag, ops[m].author, ops[m].tag, n, e);
    KeepsMember(before + [row], SqlRun(ops[..m + 1], n, ttl).rows, KeyQuery(ops[m].author, ops[m].tag), n, e);
  }

  /** No step brings an old row back. */
  lemma StepSpares(ops: seq<Op>, n: nat, ttl: int, m: nat, e: Event)
    requires m < |ops| && e in SqlRun(ops[..m + 1], n, ttl).rows
    ensures e in SqlRun(ops[..m], n, ttl).rows || (ops[m].Append? && e == EventAt(ops, m))
    ensures ops[m].Evict? ==> e.ts >= ops[m].now - ttl
  {
    hide SqlRun, Appended, Keeps, Among, Matches, EventAt, KeyQuery;
    if ops[m].Append? {
      var before, row := SqlRun(ops[..m], n, ttl).rows, EventAt(ops, m);
      AppendInRun(ops, n, ttl, m);
      SnocHas(before, row, e);
      KeepsMember(before + [row], SqlRun(ops[..m + 1], n, ttl).rows, KeyQuery(ops[m].author, ops[m].tag), n, e);
    } else {
      EvictInRun(ops, n, ttl, m, e);
    }
  }

  /** The rows an append trims are among everything appended by then. */
  lemma RowsSoFar(ops: seq<Op>, n: nat, ttl: int, m: nat)
    requires m < |ops| && ops[m].Append?
    ensures var t := SqlRun(ops[..m], n, ttl);
            t.lastId == |Appended(ops[..m])| && Subset(t.rows + [EventAt(ops, m)], Appended(ops[..m + 1]))
  {
    RunOk(ops, m, n, ttl);
    AppendedStep(ops, m);
    hide SqlRun, Appended, TableOk;
    SubsetSnoc(SqlRun(ops[..m], n, ttl).rows, Appended(ops[..m]), EventAt(ops, m), []);
  }

  /** One of the newest n ever under its key is one of the newest n of whatever an append trims. */
  lemma StaysNewest(ops: seq<Op>, m: nat, rows: seq<Event>, author: string, tag: Option<string>, a: string,
                    g: Option<string>, n: nat, e: Event)
    requires m <= |ops| && Subset(rows, Appended(ops[..m])) && e in rows
    requires Among(Appended(ops), KeyQuery(author, tag), n, e)
    ensures Matches(KeyQuery(a, g), e) ==> Among(rows, KeyQuery(a, g), n, e)
  {
    AppendedGrows(ops, m);
    hide Appended, Among;
    AmongIsRow(Appended(ops), KeyQuery(author, tag), n, e);
    assert Subset(rows, Appended(ops));
    AmongFewer(rows, Appended(ops), KeyQuery(author, tag), n, e);
  }

  /** What an eviction removed never comes back. */
  lemma {:induction false} Gone(ops: seq<Op>, n: nat, ttl: int, i: nat, j: nat, m: nat)
    requires i < j < m <= |ops| && ops[i].Append? && ops[j].Evict? && ops[i].ts < ops[j].now - ttl
    ensures EventAt(ops, i) !in SqlRun(ops[..m], n, ttl).rows
    decreases m
  {
    hide SqlRun, Appended;
    if j < m - 1 {
      Gone(ops, n, ttl, i, j, m - 1);
    }
    IdBefore(ops, i, m - 1);
    if EventAt(ops, i) in SqlRun(ops[..m], n, ttl).rows {
      StepSpares(ops, n, ttl, m - 1, EventAt(ops, i));
    }
  }

  lemma IdBefore(ops: seq<Op>, i: nat, m: nat)
    requires i < m <= |ops| && ops[i].Append?
    ensures EventAt(ops, i).id <= |Appended(ops[..m])|
  {
    AppendedStep(ops, i);
    AppendedGrows(ops[..m], i + 1);
    assert ops[..m][..i + 1] == ops[..i + 1];
  }

  /** No key ever holds more than n rows: each has fewer than n of its key before it. */
  ghost predicate Bounded(rows: seq<Event>, q: Query, n: nat) {
    forall x :: x in rows && Matches(q, x) ==> Among(rows, q, n, x)
  }

  lemma BoundedFewer(fewer: seq<Event>, rows: seq<Event>, q: Query, n: nat)
    requires Bounded(rows, q, n) && forall x :: x in fewer && Matches(q, x) ==> x in rows
    ensures Bounded(fewer, q, n)
  {
    forall x | x in fewer && Matches(q, x) ensures Among(fewer, q, n, x) {
      SubsetSize(Above(fewer, q, x), Above(rows, q, x));
    }
  }

  lemma BoundedTrim(fewer: seq<Event>, rows: seq<Event>, q: Query, n: nat)
    requires Keeps(rows, fewer, q, n)
    ensures Bounded(fewer, q, n)
  {
    KeepsSubset(rows, fewer, q, n);
    hide Subset;
    forall x | x in fewer && Matches(q, x) ensures Among(fewer, q, n, x) {
      AmongFewer(fewer, rows, q, n, x);
    }
  }

  lemma {:induction false} RunBounded(ops: seq<Op>, m: nat, n: nat, ttl: int, author: string, tag: Option<string>)
    requires m <= |ops|
    ensures Bounded(SqlRun(ops[..m], n, ttl).rows, KeyQuery(author, tag), n)
  {
    if m > 0 {
      var t, op, k := SqlRun(ops[..m - 1], n, ttl), ops[m - 1], KeyQuery(author, tag);
      RunBounded(ops, m - 1, n, ttl, author, tag);
      RunOk(ops, m - 1, n, ttl);
      SqlRunStep(ops, m - 1, n, ttl);
      hide SqlRun, Appended, SqlStep, TableOk, Among, Bounded, Keeps;
      var u := SqlStep(t, n, ttl, op);
      if op.Append? {
        AppendKeeps(t, n, ttl, op);
        var rows := t.rows + [RowOf(u.lastId, op)];
        if op.author == author && op.tag == tag {
          BoundedTrim(u.rows, rows, k, n);
        } else {
          KeepsSubset(rows, u.rows, KeyQuery(op.author, op.tag), n);
          BoundedFewer(u.rows, t.rows, k, n);
        }
      } else {
        EvictKeeps(t, n, ttl, op);
        BoundedFewer(u.rows, t.rows, k, n);
      }
    }
  }

  // ----- When the store answers like the batch query -----

  /** Eviction `j` removes an event of the key that the batch answer at `now` still shows: it follows the
      append, reads a clock late enough to expire the event, and the event is one of the newest n ever. */
  ghost predicate EarlyEviction(ops: seq<Op>, n: nat, ttl: int, k: Query, now: int, i: nat, j: nat) {
    && i < j < |ops| && ops[i].Append? && ops[j].Evict?
    && now - ttl <= ops[i].ts < ops[j].now - ttl
    && Among(Appended(ops), k, n, EventAt(ops, i))
  }

  ghost predicate NoEarlyEviction(ops: seq<Op>, n: nat, ttl: int, k: Query, now: int) {
    forall i: nat, j: nat :: !EarlyEviction(ops, n, ttl, k, now, i, j)
  }

  /** Every tagged fetch of the key is the batch answer, whatever its `since` and limit. */
  ghost predicate AnswersLikeBatch(ops: seq<Op>, n: nat, ttl: int, author: string, tag: string, cutoff: int) {
    forall since: Option<int>, limit: nat ::
      SqlFetch(SqlRun(ops, n, ttl), author, cutoff, since, limit, Some(tag))
      == Batch(ops, n, author, Some(tag), cutoff, since, limit)
  }

  /** The newest n, when there are at least n before `x`, all come before `x`. */
  lemma NewestComeBefore(rows: seq<Event>, q: Query, n: nat, x: Event)
    requires DistinctIds(rows) && x in rows && Matches(q, x) && !Among(rows, q, n, x)
    ensures var top := Members(Take(SortNewest(Select(rows, q)), n));
            |top| == n && top <= Above(rows, q, x) && forall y :: y in top ==> Among(rows, q, n, y)
  {
    var s := SortNewest(Select(rows, q));
    SortMember(Select(rows, q), x);
    SelectMember(rows, q, x);
    SortIsSorted(Select(rows, q));
    SelectDistinct(rows, q);
    SortDistinct(Select(rows, q));
    TopRank(rows, q, n, x);
    hide SortNewest, Select, Matches, Sorted, Among, Above;
    var i :| 0 <= i < |s| && s[i] == x;
    TakeAt(s, n, i);
    RankAt(s, i);
    PrefixSize(s, n);
    assert Take(s, n) == s[..n];
    forall y | y in s[..n] ensures y in Above(rows, q, x) && Among(rows, q, n, y) {
      TopRank(rows, q, n, y);
      AmongIsRow(rows, q, n, y);
      assert y in s[..i];
      AboveIs(rows, q, x, y);
    }
  }

  lemma AboveIs(rows: seq<Event>, q: Query, x: Event, y: Event)
    ensures y in Above(rows, q, x) <==> y in rows && Matches(q, y) && Newer(y, x)
  {
  }

  /** Without an early eviction every unexpired event among the newest n ever is stored. */
  lemma StoredIfVisible(ops: seq<Op>, n: nat, ttl: int, author: string, tag: Option<string>, now: int, x: Event)
    requires NoEarlyEviction(ops, n, ttl, KeyQuery(author, tag), now)
    requires Among(Appended(ops), KeyQuery(author, tag), n, x) && x.ts >= now - ttl
    ensures x in SqlRun(ops, n, ttl).rows
  {
    var k := KeyQuery(author, tag);
    AmongIsRow(Appended(ops), k, n, x);
    assert ops[..|ops|] == ops;
    hide Appended, SqlRun, Among, Matches;
    var i := WhichAppend(ops, |ops|, x);
    forall j | i < j < |ops| && ops[j].Evict? ensures ops[i].ts >= ops[j].now - ttl {
      assert !EarlyEviction(ops, n, ttl, k, now, i, j);
    }
    Survives(ops, n, ttl, author, tag, i, |ops|);
  }

  /** And every stored row that is unexpired is among the newest n ever. */
  lemma VisibleIfStored(ops: seq<Op>, n: nat, ttl: int, author: string, tag: Option<string>, now: int, x: Event)
    requires NoEarlyEviction(ops, n, ttl, KeyQuery(author, tag), now)
    requires x in SqlRun(ops, n, ttl).rows && Matches(KeyQuery(author, tag), x) && x.ts >= now - ttl
    ensures Among(Appended(ops), KeyQuery(author, tag), n, x)
  {
    var k, rows := KeyQuery(author, tag), SqlRun(ops, n, ttl).rows;
    assert ops[..|ops|] == ops;
    RunOk(ops, |ops|, n, ttl);
    RunBounded(ops, |ops|, n, ttl, author, tag);
    AppendedAscend(ops);
    if !Among(Appended(ops), k, n, x) {
      NewestComeBefore(Appended(ops), k, n, x);
      var top := Members(Take(SortNewest(Select(Appended(ops), k)), n));
      hide Appended, SqlRun, Among, Matches, SortNewest, Select, Take, Members, EarlyEviction;
      forall y | y in top ensures y in Above(rows, k, x) {
        AboveIs(Appended(ops), k, x, y);
        StoredIfVisible(ops, n, ttl, author, tag, now, y);
        AboveIs(rows, k, x, y);
      }
      SubsetSize(top, Above(rows, k, x));
      AmongMeans(rows, k, n, x);
    }
  }

  lemma AmongMeans(rows: seq<Event>, q: Query, n: nat, x: Event)
    requires Bounded(rows, q, n) && x in rows && Matches(q, x)
    ensures |Above(rows, q, x)| < n
  {
  }

  lemma VisibleIs(ops: seq<Op>, n: nat, k: Query, live: Query)
    ensures NewestFirst(Visible(ops, n, k, live))
    ensures forall x :: x in Visible(ops, n, k, live) <==> Among(Appended(ops), k, n, x) && Matches(live, x)
  {
    AppendedAscend(ops);
    var s := SortNewest(Select(Appended(ops), k));
    SortIsSorted(Select(Appended(ops), k));
    SelectDistinct(Appended(ops), k);
    SortDistinct(Select(Appended(ops), k));
    SortedIsNewestFirst(s);
    hide Appended, SortNewest, Select, Among, Matches, Sorted, DistinctIds, NewestFirst;
    TakeNewestFirst(s, n);
    SelectNewestFirst(Take(s, n), live);
    forall x ensures x in Visible(ops, n, k, live) <==> Among(Appended(ops), k, n, x) && Matches(live, x) {
      SelectMember(Take(s, n), live, x);
      TopRank(Appended(ops), k, n, x);
    }
  }

  lemma TakeNewestFirst(s: seq<Event>, n: nat)
    requires NewestFirst(s)
    ensures NewestFirst(Take(s, n))
  {
  }

  lemma {:induction false} SelectNewestFirst(s: seq<Event>, q: Query)
    requires NewestFirst(s)
    ensures NewestFirst(Select(s, q))
  {
    if s != [] {
      var n := |s| - 1;
      SelectNewestFirst(s[..n], q);
      forall x | x in Select(s[..n], q) ensures Newer(x, s[n]) {
        SelectMember(s[..n], q, x);
      }
    }
  }

  lemma AnswerIs(ops: seq<Op>, n: nat, ttl: int, f: Query)
    ensures var s := SortNewest(Select(SqlRun(ops, n, ttl).rows, f));
            NewestFirst(s) && forall x :: x in s <==> x in SqlRun(ops, n, ttl).rows && Matches(f, x)
  {
    var rows := SqlRun(ops, n, ttl).rows;
    assert ops[..|ops|] == ops;
    RunOk(ops, |ops|, n, ttl);
    AscendingIsDistinct(rows);
    SortIsSorted(Select(rows, f));
    SelectDistinct(rows, f);
    SortDistinct(Select(rows, f));
    SortedIsNewestFirst(SortNewest(Select(rows, f)));
    hide SqlRun, SortNewest, Select, Matches, Sorted, DistinctIds, NewestFirst;
    forall x ensures x in SortNewest(Select(rows, f)) <==> x in rows && Matches(f, x) {
      SortMember(Select(rows, f), x);
      SelectMember(rows, f, x);
    }
  }

  lemma FetchMatches(author: string, tag: string, cutoff: int, since: Option<int>, x: Event)
    ensures Matches(FetchQuery(author, Some(tag), cutoff, since), x)
            <==> Matches(KeyQuery(author, Some(tag)), x) && Matches(FreshQuery(cutoff, since), x)
    ensures Matches(FreshQuery(cutoff, since), x) ==> x.ts >= cutoff
    ensures Matches(FreshQuery(cutoff, None), x) <==> x.ts >= cutoff
  {
  }

  lemma NoEarlyEvictionAgrees(ops: seq<Op>, n: nat, ttl: int, author: string, tag: string, now: int,
                              since: Option<int>)
    requires NoEarlyEviction(ops, n, ttl, KeyQuery(author, Some(tag)), now)
    ensures SortNewest(Select(SqlRun(ops, n, ttl).rows, FetchQuery(author, Some(tag), now - ttl, since)))
            == Visible(ops, n, KeyQuery(author, Some(tag)), FreshQuery(now - ttl, since))
  {
    var k, f, live := KeyQuery(author, Some(tag)), FetchQuery(author, Some(tag), now - ttl, since),
                       FreshQuery(now - ttl, since);
    var here, there := SortNewest(Select(SqlRun(ops, n, ttl).rows, f)), Visible(ops, n, k, live);
    hide SqlRun, Appended, SortNewest, Select, Matches, Among, EarlyEviction, Visible, NewestFirst;
    AnswerIs(ops, n, ttl, f);
    VisibleIs(ops, n, k, live);
    forall x ensures x in here <==> x in there {
      FetchMatches(author, tag, now - ttl, since, x);
      if x in here {
        VisibleIfStored(ops, n, ttl, author, Some(tag), now, x);
      }
      if x in there {
        StoredIfVisible(ops, n, ttl, author, Some(tag), now, x);
        AmongIsRow(Appended(ops), k, n, x);
      }
    }
    NewestFirstUnique(here, there);
  }

  lemma EarlyEvictionDiffers(ops: seq<Op>, n: nat, ttl: int, author: string, tag: string, now: int, i: nat, j: nat)
    requires EarlyEviction(ops, n, ttl, KeyQuery(author, Some(tag)), now, i, j)
    ensures var limit := |Visible(ops, n, KeyQuery(author, Some(tag)), FreshQuery(now - ttl, None))|;
            SqlFetch(SqlRun(ops, n, ttl), author, now - ttl, None, limit, Some(tag))
            != Batch(ops, n, author, Some(tag), now - ttl, None, limit)
  {
    var k, f, live := KeyQuery(author, Some(tag)), FetchQuery(author, Some(tag), now - ttl, None),
                       FreshQuery(now - ttl, None);
    var e, all := EventAt(ops, i), Visible(ops, n, k, live);
    assert ops[..|ops|] == ops;
    Gone(ops, n, ttl, i, j, |ops|);
    VisibleIs(ops, n, k, live);
    FetchMatches(author, tag, now - ttl, None, e);
    AnswerIs(ops, n, ttl, f);
    hide SqlRun, Appended, SortNewest, Select, Matches, Visible, NewestFirst;
    assert e in all && Take(all, |all|) == all;
    TakeSome(SortNewest(Select(SqlRun(ops, n, ttl).rows, f)), |all|);
  }

  /** Main result, exact: after any run of appends, trims and evictions, a tagged fetch is the batch
      answer over everything ever appended, for every `since` and limit, if and only if no eviction
      removed an event that the batch answer still shows. */
  lemma TaggedFetchIsBatchExactly(ops: seq<Op>, n: nat, ttl: int, author: string, tag: string, now: int)
    ensures AnswersLikeBatch(ops, n, ttl, author, tag, now - ttl)
            <==> NoEarlyEviction(ops, n, ttl, KeyQuery(author, Some(tag)), now)
  {
    hide SqlRun, Appended, SortNewest, Select, EarlyEviction, Visible;
    var k, cutoff := KeyQuery(author, Some(tag)), now - ttl;
    if NoEarlyEviction(ops, n, ttl, k, now) {
      forall since: Option<int>, limit: nat
        ensures SqlFetch(SqlRun(ops, n, ttl), author, cutoff, since, limit, Some(tag))
                == Batch(ops, n, author, Some(tag), cutoff, since, limit)
      {
        NoEarlyEvictionAgrees(ops, n, ttl, author, tag, now, since);
      }
    } else {
      var i: nat, j: nat :| EarlyEviction(ops, n, ttl, k, now, i, j);
      EarlyEvictionDiffers(ops, n, ttl, author, tag, now, i, j);
    }
  }

  /** With evictions that never read a clock later than the fetch, every tagged fetch is the batch answer. */
  lemma TaggedFetchIsBatch(ops: seq<Op>, n: nat, ttl: int, author: string, tag: string, now: int,
                           since: Option<int>, limit: nat)
    requires forall i :: 0 <= i < |ops| && ops[i].Evict? ==> ops[i].now <= now
    ensures SqlFetch(SqlRun(ops, n, ttl), author, now - ttl, since, limit, Some(tag))
            == Batch(ops, n, author, Some(tag), now - ttl, since, limit)
  {
    hide SqlRun, Appended, SqlFetch, Batch;
    assert NoEarlyEviction(ops, n, ttl, KeyQuery(author, Some(tag)), now);
    TaggedFetchIsBatchExactly(ops, n, ttl, author, tag, now);
  }

  /** The clock condition is needed: an eviction at a late clock reading removes the only event of a key,
      which a fetch at an earlier reading should still see. */
  lemma ClockMustNotStepBack(o: Op, tag: string, n: nat, ttl: int, late: int, now: int)
    requires o.Append? && o.tag == Some(tag) && n >= 1 && now - ttl <= o.ts < late - ttl
    ensures EarlyEviction([o, Evict(late)], n, ttl, KeyQuery(o.author, Some(tag)), now, 0, 1)
    ensures !AnswersLikeBatch([o, Evict(late)], n, ttl, o.author, tag, now - ttl)
  {
    var ops, e := [o, Evict(late)], Event(1, o.author, o.tag, o.ts, o.ciphertext, o.sig);
    assert ops[..0] == [] && ops[..1] == [o] && [o][..0] == [] && EventAt(ops, 0) == e;
    assert Appended([o]) == [e] && Appended(ops) == [e];
    assert Above([e], KeyQuery(o.author, Some(tag)), e) == {};
    hide Appended, SqlRun, SqlFetch, Batch;
    TaggedFetchIsBatchExactly(ops, n, ttl, o.author, tag, now);
  }
}
