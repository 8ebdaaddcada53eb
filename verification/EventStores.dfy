/** The relay's two event stores: deques per (author, recipient tag), and an SQL table. */
module EventStores {
  import opened Collections
  import opened Options

  datatype Event = Event(id: nat, author: string, tag: Option<string>, ts: int, ciphertext: string, sig: string)

  // ----- Selection: the WHERE clauses of the SQL store -----

  datatype Tags = AnyTag | Tag(tag: Option<string>)

  datatype Ids = AnyId | In(ids: set<nat>) | NotIn(ids: set<nat>)

  datatype Query = Query(author: Option<string>, tags: Tags, from: Option<int>, until: Option<int>,
                         after: Option<int>, which: Ids)

  /** author = ?, tag = ? or IS NULL, ts >= from, ts < until, ts > after, id [NOT] IN ids. */
  predicate Matches(q: Query, e: Event) {
    && (q.author.Some? ==> e.author == q.author.value)
    && (q.tags.Tag? ==> e.tag == q.tags.tag)
    && (q.from.Some? ==> e.ts >= q.from.value)
    && (q.until.Some? ==> e.ts < q.until.value)
    && (q.after.Some? ==> e.ts > q.after.value)
    && (match q.which case AnyId => true case In(s) => e.id in s case NotIn(s) => e.id !in s)
  }

  function Select(rows: seq<Event>, q: Query): seq<Event> {
    if rows == [] then []
    else if Matches(q, rows[|rows| - 1]) then Select(rows[..|rows| - 1], q) + [rows[|rows| - 1]]
    else Select(rows[..|rows| - 1], q)
  }

  /** DELETE ... WHERE q. */
  function Reject(rows: seq<Event>, q: Query): seq<Event> {
    if rows == [] then []
    else if Matches(q, rows[|rows| - 1]) then Reject(rows[..|rows| - 1], q)
    else Reject(rows[..|rows| - 1], q) + [rows[|rows| - 1]]
  }

  // ----- Ordering -----

  /** ORDER BY ts DESC, event_id DESC. */
  predicate Newer(a: Event, b: Event) {
    a.ts > b.ts || (a.ts == b.ts && a.id > b.id)
  }

  function Insert(e: Event, s: seq<Event>): seq<Event> {
    if s == [] || Newer(e, s[0]) then [e] + s else [s[0]] + Insert(e, s[1..])
  }

  function SortNewest(rows: seq<Event>): seq<Event> {
    if rows == [] then [] else Insert(rows[|rows| - 1], SortNewest(rows[..|rows| - 1]))
  }

  /** Python's stable `sort(key=ts, reverse=True)`: equal timestamps keep their order. */
  function InsertStable(e: Event, s: seq<Event>): seq<Event> {
    if s == [] || e.ts > s[0].ts then [e] + s else [s[0]] + InsertStable(e, s[1..])
  }

  function SortStable(rows: seq<Event>): seq<Event> {
    if rows == [] then [] else InsertStable(rows[|rows| - 1], SortStable(rows[..|rows| - 1]))
  }

  // ----- The SQL store -----

  datatype Table = Table(rows: seq<Event>, lastId: nat)

  function KeyQuery(author: string, tag: Option<string>): Query {
    Query(Some(author), Tag(tag), None, None, None, AnyId)
  }

  function IdsOf(s: seq<Event>): set<nat> {
    set e | e in s :: e.id
  }

  /** DELETE ... WHERE q AND id NOT IN (SELECT id WHERE q ORDER BY ... LIMIT n). */
  function Trimmed(rows: seq<Event>, q: Query, n: nat): seq<Event> {
    Reject(rows, q.(which := NotIn(IdsOf(Take(SortNewest(Select(rows, q)), n)))))
  }

  function SqlAppend(t: Table, n: nat, author: string, tag: Option<string>, ts: int, ciphertext: string,
                     sig: string): Table {
    Table(Trimmed(t.rows + [Event(t.lastId + 1, author, tag, ts, ciphertext, sig)], KeyQuery(author, tag), n),
          t.lastId + 1)
  }

  function ExpiredQuery(cutoff: int): Query {
    Query(None, AnyTag, None, Some(cutoff), None, AnyId)
  }

  function SqlEvict(t: Table, cutoff: int): Table {
    t.(rows := Reject(t.rows, ExpiredQuery(cutoff)))
  }

  function FetchQuery(author: string, tag: Option<string>, cutoff: int, since: Option<int>): Query {
    Query(Some(author), if tag.Some? then Tag(tag) else AnyTag, Some(cutoff), None, since, AnyId)
  }

  function SqlFetch(t: Table, author: string, cutoff: int, since: Option<int>, limit: nat,
                    tag: Option<string>): seq<Event> {
    Take(SortNewest(Select(t.rows, FetchQuery(author, tag, cutoff, since))), limit)
  }

  // ----- What the statements mean -----

  /** Rows in insertion order: ids come from AUTOINCREMENT. */
  ghost predicate Ascending(rows: seq<Event>) {
    forall i, j :: 0 <= i < j < |rows| ==> rows[i].id < rows[j].id
  }

  ghost predicate TableOk(t: Table) {
    Ascending(t.rows) && forall e :: e in t.rows ==> e.id <= t.lastId
  }

  /** The rows of a selection that come before `e` in the order of an answer. */
  ghost function Above(rows: seq<Event>, q: Query, e: Event): set<Event> {
    set x | x in rows && Matches(q, x) && Newer(x, e)
  }

  /** Among the first `n` of the ordered selection. */
  ghost predicate Among(rows: seq<Event>, q: Query, n: nat, e: Event) {
    e in rows && Matches(q, e) && |Above(rows, q, e)| < n
  }

  /** Newest first, no row twice. */
  ghost predicate NewestFirst(s: seq<Event>) {
    forall i, j :: 0 <= i < j < |s| ==> Newer(s[i], s[j])
  }

  class SQLiteEventStore {
    const bufferSize: nat
    const ttl: int
    var table: Table

    ghost predicate Valid()
      reads this
    {
      TableOk(table)
    }

    constructor (bufferSize: nat, ttl: int)
      ensures Valid() && this.bufferSize == bufferSize && this.ttl == ttl && table == Table([], 0)
    {
      this.bufferSize, this.ttl := bufferSize, ttl;
      table := Table([], 0);
    }

    method Append(author: string, tag: Option<string>, ts: int, ciphertext: string, sig: string) returns (id: nat)
      requires Valid()
      modifies this`table
      ensures Valid() && id == table.lastId == old(table.lastId) + 1
      ensures table == SqlAppend(old(table), bufferSize, author, tag, ts, ciphertext, sig)
      ensures Keeps(old(table.rows) + [Event(id, author, tag, ts, ciphertext, sig)], table.rows,
                    KeyQuery(author, tag), bufferSize)
    {
      hide Trimmed, Keeps;
      id := table.lastId + 1;
      table := Table(table.rows + [Event(id, author, tag, ts, ciphertext, sig)], id);
      Trim(author, tag);
    }

    /** Of one author and tag exactly the newest rows up to the buffer size stay; all other rows stay. */
    method Trim(author: string, tag: Option<string>)
      requires Valid()
      modifies this`table
      ensures Valid() && table == old(table).(rows := Trimmed(old(table.rows), KeyQuery(author, tag), bufferSize))
      ensures Keeps(old(table.rows), table.rows, KeyQuery(author, tag), bufferSize)
    {
      var k := KeyQuery(author, tag);
      TrimmedOk(table, k, bufferSize);
      hide Keeps;
      var kept := IdsOf(Take(SortNewest(Select(table.rows, k)), bufferSize));
      table := table.(rows := Reject(table.rows, k.(which := NotIn(kept))));
    }

    /** The first matching rows in answer order, up to the limit. */
    method Fetch(author: string, since: Option<int>, limit: nat, tag: Option<string>, now: int)
      returns (out: seq<Event>)
      requires Valid()
      ensures out == SqlFetch(table, author, now - ttl, since, limit, tag)
      ensures NewestFirst(out)
      ensures forall x :: x in out <==> Among(table.rows, FetchQuery(author, tag, now - ttl, since), limit, x)
      ensures |out| <= limit
      ensures forall x :: x in out ==>
                && x in table.rows && x.author == author && (tag.Some? ==> x.tag == tag)
                && x.ts >= now - ttl && (since.Some? ==> x.ts > since.value)
      ensures forall x :: x in table.rows && x.author == author && (tag.Some? ==> x.tag == tag)
                          && x.ts >= now - ttl && (since.Some? ==> x.ts > since.value) && x !in out ==>
                |out| == limit && forall y :: y in out ==> y.ts > x.ts || (y.ts == x.ts && y.id > x.id)
      ensures forall i, j :: 0 <= i < j < |out| ==>
                out[i].ts > out[j].ts || (out[i].ts == out[j].ts && out[i].id > out[j].id)
    {
      FetchIs(table, author, now - ttl, since, limit, tag);
      SqlFetchIs(table, author, now - ttl, since, limit, tag);
      hide SortNewest, Select, Among, Take, NewestFirst, Newer, TableOk, FetchQuery;
      out := Take(SortNewest(Select(table.rows, FetchQuery(author, tag, now - ttl, since))), limit);
    }

    /** Exactly the expired rows go. */
    method EvictExpired(now: int) returns (removed: nat)
      requires Valid()
      modifies this`table
      ensures Valid() && table == SqlEvict(old(table), now - ttl)
      ensures forall x :: x in table.rows <==> x in old(table.rows) && x.ts >= now - ttl
      ensures removed == |old(table.rows)| - |table.rows|
    {
      EvictOk(table, now - ttl);
      RejectShrinks(table.rows, ExpiredQuery(now - ttl));
      var rows := Reject(table.rows, ExpiredQuery(now - ttl));
      removed := |table.rows| - |rows|;
      table := table.(rows := rows);
    }
  }

  lemma RejectShrinks(rows: seq<Event>, q: Query)
    ensures |Reject(rows, q)| <= |rows|
  {
  }

  // ----- The in-memory store -----

  datatype Buffer = Buffer(author: string, tag: Option<string>, events: seq<Event>)

  /** Python's dict of deques keeps its keys in insertion order. */
  datatype Deques = Deques(buffers: seq<Buffer>, lastId: nat)

  function PushEvent(buffers: seq<Buffer>, n: nat, e: Event): seq<Buffer> {
    if buffers == [] then [Buffer(e.author, e.tag, LastN([e], n))]
    else if buffers[0].author == e.author && buffers[0].tag == e.tag then
      [buffers[0].(events := LastN(buffers[0].events + [e], n))] + buffers[1..]
    else [buffers[0]] + PushEvent(buffers[1..], n, e)
  }

  /** The deque of one key. */
  function BufferOf(buffers: seq<Buffer>, author: string, tag: Option<string>): seq<Event> {
    if buffers == [] then []
    else if buffers[0].author == author && buffers[0].tag == tag then buffers[0].events
    else BufferOf(buffers[1..], author, tag)
  }

  lemma {:induction false} PushBufferOf(buffers: seq<Buffer>, n: nat, e: Event, a: string, g: Option<string>)
    ensures BufferOf(PushEvent(buffers, n, e), a, g)
            == if a == e.author && g == e.tag then LastN(BufferOf(buffers, a, g) + [e], n) else BufferOf(buffers, a, g)
  {
    if buffers != [] {
      PushBufferOf(buffers[1..], n, e, a, g);
    }
  }

  function MemAppend(d: Deques, n: nat, author: string, tag: Option<string>, ts: int, ciphertext: string,
                     sig: string): Deques {
    Deques(PushEvent(d.buffers, n, Event(d.lastId + 1, author, tag, ts, ciphertext, sig)), d.lastId + 1)
  }

  function DropExpired(events: seq<Event>, cutoff: int): seq<Event> {
    if events != [] && events[0].ts < cutoff then DropExpired(events[1..], cutoff) else events
  }

  function EvictBuffers(buffers: seq<Buffer>, cutoff: int): seq<Buffer> {
    if buffers == [] then [] else
      var n := |buffers| - 1;
      var left := DropExpired(buffers[n].events, cutoff);
      if left == [] then EvictBuffers(buffers[..n], cutoff)
      else EvictBuffers(buffers[..n], cutoff) + [buffers[n].(events := left)]
  }

  function MemEvict(d: Deques, cutoff: int): Deques {
    d.(buffers := EvictBuffers(d.buffers, cutoff))
  }

  function CountEvents(buffers: seq<Buffer>): nat {
    if buffers == [] then 0 else CountEvents(buffers[..|buffers| - 1]) + |buffers[|buffers| - 1].events|
  }

  /** The events a fetch looks at, buffer after buffer. */
  function Gather(buffers: seq<Buffer>, author: string, tag: Option<string>): seq<Event> {
    if buffers == [] then [] else
      var b, front := buffers[|buffers| - 1], Gather(buffers[..|buffers| - 1], author, tag);
      if b.author == author && (tag.Some? ==> b.tag == tag) then front + b.events else front
  }

  function FreshQuery(cutoff: int, since: Option<int>): Query {
    Query(None, AnyTag, Some(cutoff), None, since, AnyId)
  }

  function MemFetch(d: Deques, author: string, cutoff: int, since: Option<int>, limit: nat,
                    tag: Option<string>): seq<Event> {
    Take(SortStable(Select(Gather(d.buffers, author, tag), FreshQuery(cutoff, since))), limit)
  }

  class EventStore {
    const bufferSize: nat
    const ttl: int
    var deques: Deques

    constructor (bufferSize: nat, ttl: int)
      ensures this.bufferSize == bufferSize && this.ttl == ttl && deques == Deques([], 0)
    {
      this.bufferSize, this.ttl := bufferSize, ttl;
      deques := Deques([], 0);
    }

    method Append(author: string, tag: Option<string>, ts: int, ciphertext: string, sig: string) returns (id: nat)
      modifies this`deques
      ensures id == deques.lastId == old(deques.lastId) + 1
      ensures deques == MemAppend(old(deques), bufferSize, author, tag, ts, ciphertext, sig)
      ensures forall a, g :: BufferOf(deques.buffers, a, g)
                             == if a == author && g == tag
                                then LastN(BufferOf(old(deques.buffers), a, g)
                                            + [Event(id, author, tag, ts, ciphertext, sig)], bufferSize)
                                else BufferOf(old(deques.buffers), a, g)
    {
      id := deques.lastId + 1;
      var e := Event(id, author, tag, ts, ciphertext, sig);
      forall a, g {
        PushBufferOf(deques.buffers, bufferSize, e, a, g);
      }
      deques := Deques(PushEvent(deques.buffers, bufferSize, e), id);
    }

    method Fetch(author: string, since: Option<int>, limit: nat, tag: Option<string>, now: int)
      returns (out: seq<Event>)
      ensures out == MemFetch(deques, author, now - ttl, since, limit, tag)
      ensures |out| <= limit && forall i, j :: 0 <= i < j < |out| ==> out[i].ts >= out[j].ts
      ensures forall x :: x in out ==>
                && Kept(deques.buffers, author, tag, x)
                && x.ts >= now - ttl && (since.Some? ==> x.ts > since.value)
      ensures forall x :: Kept(deques.buffers, author, tag, x)
                          && x.ts >= now - ttl && (since.Some? ==> x.ts > since.value) && x !in out ==>
                |out| == limit && forall y :: y in out ==> y.ts >= x.ts
    {
      hide SortStable, Take, Select, Gather, Kept;
      MemFetchIs(deques, author, now - ttl, since, limit, tag);
      var cutoff := now - ttl;
      ghost var q := FreshQuery(cutoff, since);
      var buffers := deques.buffers;
      out := [];
      GatherStart(buffers, author, tag, q);
      for i := 0 to |buffers|
        invariant out == Select(Gather(buffers[..i], author, tag), q)
      {
        var b := buffers[i];
        GatherStep(buffers, i, author, tag, q);
        if b.author == author && (tag.Some? ==> b.tag == tag) {
          var unseen := FreshEvents(b.events, cutoff, since);
          out := out + unseen;
        }
      }
      assert buffers[..|buffers|] == buffers;
      out := Take(SortStable(out), limit);
    }

    /** The inner loop of `fetch`: skips expired and already seen events of one deque. */
    method FreshEvents(events: seq<Event>, cutoff: int, since: Option<int>) returns (out: seq<Event>)
      ensures out == Select(events, FreshQuery(cutoff, since))
      ensures forall x :: x in out <==> x in events && x.ts >= cutoff && (since.Some? ==> x.ts > since.value)
    {
      forall x {
        SelectMember(events, FreshQuery(cutoff, since), x);
      }
      out := [];
      for j := 0 to |events|
        invariant out == Select(events[..j], FreshQuery(cutoff, since))
      {
        assert events[..j + 1][..j] == events[..j];
        if !(events[j].ts < cutoff) && !(since.Some? && events[j].ts <= since.value) {
          out := out + [events[j]];
        }
      }
      assert events[..|events|] == events;
    }

    method EvictExpired(now: int) returns (removed: nat)
      modifies this`deques
      ensures deques == MemEvict(old(deques), now - ttl)
      ensures removed == CountEvents(old(deques.buffers)) - CountEvents(deques.buffers)
    {
      var cutoff := now - ttl;
      var buffers := deques.buffers;
      var kept: seq<Buffer> := [];
      removed := 0;
      for i := 0 to |buffers|
        invariant kept == EvictBuffers(buffers[..i], cutoff)
        invariant removed == CountEvents(buffers[..i]) - CountEvents(kept)
      {
        assert buffers[..i + 1][..i] == buffers[..i];
        var events := buffers[i].events;
        while events != [] && events[0].ts < cutoff
          invariant DropExpired(events, cutoff) == DropExpired(buffers[i].events, cutoff)
          invariant removed == CountEvents(buffers[..i]) - CountEvents(kept) + |buffers[i].events| - |events|
          decreases |events|
        {
          events := events[1..];
          removed := removed + 1;
        }
        if events != [] {
          assert (kept + [buffers[i].(events := events)])[..|kept|] == kept;
          kept := kept + [buffers[i].(events := events)];
        }
      }
      assert buffers[..|buffers|] == buffers;
      deques := deques.(buffers := kept);
    }
  }

  lemma GatherStart(buffers: seq<Buffer>, author: string, tag: Option<string>, q: Query)
    ensures Select(Gather(buffers[..0], author, tag), q) == []
  {
  }

  lemma GatherStep(buffers: seq<Buffer>, i: nat, author: string, tag: Option<string>, q: Query)
    requires i < |buffers|
    ensures var b := buffers[i];
            Select(Gather(buffers[..i + 1], author, tag), q) == Select(Gather(buffers[..i], author, tag), q)
              + (if b.author == author && (tag.Some? ==> b.tag == tag) then Select(b.events, q) else [])
  {
    assert buffers[..i + 1][..i] == buffers[..i];
    var b := buffers[i];
    SelectCat(Gather(buffers[..i], author, tag),
              if b.author == author && (tag.Some? ==> b.tag == tag) then b.events else [], q);
  }

  // ----- What a fetch of the deques answers -----

  /** A fetch for this author and tag looks at the deque. */
  predicate Looks(b: Buffer, author: string, tag: Option<string>) {
    b.author == author && (tag.Some? ==> b.tag == tag)
  }

  lemma GatherSnoc(buffers: seq<Buffer>, m: nat, author: string, tag: Option<string>)
    requires m < |buffers|
    ensures Gather(buffers[..m + 1], author, tag)
            == if Looks(buffers[m], author, tag) then Gather(buffers[..m], author, tag) + buffers[m].events
               else Gather(buffers[..m], author, tag)
  {
    assert buffers[..m + 1][..m] == buffers[..m];
  }

  lemma {:induction false} GatherHas(buffers: seq<Buffer>, i: nat, author: string, tag: Option<string>, e: Event)
    requires i < |buffers| && Looks(buffers[i], author, tag) && e in buffers[i].events
    ensures e in Gather(buffers, author, tag)
  {
    if i < |buffers| - 1 {
      assert buffers[..|buffers| - 1][i] == buffers[i];
      GatherHas(buffers[..|buffers| - 1], i, author, tag, e);
    }
  }

  lemma {:induction false} GatherFrom(buffers: seq<Buffer>, author: string, tag: Option<string>, e: Event)
    requires e in Gather(buffers, author, tag)
    ensures exists b :: b in buffers && Looks(b, author, tag) && e in b.events
  {
    if buffers != [] {
      var n := |buffers| - 1;
      assert buffers[n] in buffers;
      if !(Looks(buffers[n], author, tag) && e in buffers[n].events) {
        GatherFrom(buffers[..n], author, tag, e);
      }
    }
  }

  /** In a deque that a fetch for this author and tag looks at. */
  ghost predicate Kept(buffers: seq<Buffer>, author: string, tag: Option<string>, e: Event) {
    exists b :: b in buffers && b.author == author && (tag.Some? ==> b.tag == tag) && e in b.events
  }

  lemma GatherMember(buffers: seq<Buffer>, author: string, tag: Option<string>, e: Event)
    ensures e in Gather(buffers, author, tag) <==> Kept(buffers, author, tag, e)
  {
    if e in Gather(buffers, author, tag) {
      GatherFrom(buffers, author, tag, e);
      var b :| b in buffers && Looks(b, author, tag) && e in b.events;
    }
    if Kept(buffers, author, tag, e) {
      var b :| b in buffers && b.author == author && (tag.Some? ==> b.tag == tag) && e in b.events;
      var i :| 0 <= i < |buffers| && buffers[i] == b;
      GatherHas(buffers, i, author, tag, e);
    }
  }

  lemma {:induction false} StableMember(e: Event, s: seq<Event>, x: Event)
    ensures x in InsertStable(e, s) <==> x == e || x in s
  {
    if s != [] && !(e.ts > s[0].ts) {
      StableMember(e, s[1..], x);
      assert s == [s[0]] + s[1..];
    }
  }

  lemma {:induction false} StableSame(s: seq<Event>, x: Event)
    ensures x in SortStable(s) <==> x in s
  {
    if s != [] {
      var n := |s| - 1;
      StableSame(s[..n], x);
      StableMember(s[n], SortStable(s[..n]), x);
      assert s == s[..n] + [s[n]];
    }
  }

  /** Timestamps do not rise. */
  ghost predicate Settled(s: seq<Event>) {
    forall i, j :: 0 <= i < j < |s| ==> s[i].ts >= s[j].ts
  }

  lemma {:induction false} InsertSettled(e: Event, s: seq<Event>)
    requires Settled(s)
    ensures Settled(InsertStable(e, s))
  {
    if s != [] && !(e.ts > s[0].ts) {
      InsertSettled(e, s[1..]);
      var r := InsertStable(e, s[1..]);
      forall j | 0 <= j < |r| ensures s[0].ts >= r[j].ts {
        StableMember(e, s[1..], r[j]);
      }
    }
  }

  lemma {:induction false} SortSettles(s: seq<Event>)
    ensures Settled(SortStable(s))
  {
    if s != [] {
      SortSettles(s[..|s| - 1]);
      InsertSettled(s[|s| - 1], SortStable(s[..|s| - 1]));
    }
  }

  /** Cutting a sequence that does not rise leaves out only what is not newer. */
  lemma TakeSettled(s: seq<Event>, n: nat)
    requires Settled(s)
    ensures Settled(Take(s, n)) && |Take(s, n)| <= n
    ensures forall x :: x in s && x !in Take(s, n) ==> |Take(s, n)| == n && forall y :: y in Take(s, n) ==> y.ts >= x.ts
  {
    assert forall i :: 0 <= i < |Take(s, n)| ==> s[i] == Take(s, n)[i] && s[i] in Take(s, n);
    forall x | x in s && x !in Take(s, n)
      ensures |Take(s, n)| == n && forall y :: y in Take(s, n) ==> y.ts >= x.ts
    {
      var i :| 0 <= i < |s| && s[i] == x;
      assert i >= |Take(s, n)|;
    }
  }

  /** The answer of the deques: new events of deques that fit, newest first, and all of them unless the limit cuts
      off what is not newer. */
  lemma MemFetchIs(d: Deques, author: string, cutoff: int, since: Option<int>, limit: nat, tag: Option<string>)
    ensures var out := MemFetch(d, author, cutoff, since, limit, tag);
            && |out| <= limit
            && (forall i, j :: 0 <= i < j < |out| ==> out[i].ts >= out[j].ts)
            && (forall x :: x in out ==>
                  Kept(d.buffers, author, tag, x) && x.ts >= cutoff && (since.Some? ==> x.ts > since.value))
            && (forall x :: Kept(d.buffers, author, tag, x) && x.ts >= cutoff && (since.Some? ==> x.ts > since.value)
                            && x !in out ==>
                  |out| == limit && forall y :: y in out ==> y.ts >= x.ts)
  {
    var unseen := Select(Gather(d.buffers, author, tag), FreshQuery(cutoff, since));
    SortSettles(unseen);
    TakeSettled(SortStable(unseen), limit);
    forall x
      ensures x in SortStable(unseen) <==>
                Kept(d.buffers, author, tag, x) && x.ts >= cutoff && (since.Some? ==> x.ts > since.value)
    {
      StableSame(unseen, x);
      SelectMember(Gather(d.buffers, author, tag), FreshQuery(cutoff, since), x);
      GatherMember(d.buffers, author, tag, x);
      hide Gather, Select, SortStable, Kept;
    }
    hide Gather, Select, SortStable, Kept, Matches;
    forall x | x in Take(SortStable(unseen), limit) ensures x in SortStable(unseen) {
      TakeSome(SortStable(unseen), limit);
    }
  }

  lemma {:induction false} DropExpiredIs(events: seq<Event>, cutoff: int, k: nat)
    requires k <= |events| && forall j :: 0 <= j < k ==> events[j].ts < cutoff
    requires k < |events| ==> events[k].ts >= cutoff
    ensures DropExpired(events, cutoff) == events[k..]
    decreases k
  {
    if k > 0 {
      DropExpiredIs(events[1..], cutoff, k - 1);
    }
  }

  /** Eviction, deque by deque and in their order: the events before the first one that is not expired go, the rest
      stays, expired or not, and a deque with none left goes. */
  lemma EvictsExactly(front: seq<Buffer>, b: Buffer, cutoff: int, k: nat)
    requires k <= |b.events| && forall j :: 0 <= j < k ==> b.events[j].ts < cutoff
    requires k < |b.events| ==> b.events[k].ts >= cutoff
    ensures EvictBuffers([], cutoff) == [] && CountEvents([]) == 0
    ensures EvictBuffers(front + [b], cutoff)
            == EvictBuffers(front, cutoff) + if k == |b.events| then [] else [b.(events := b.events[k..])]
    ensures CountEvents(front + [b]) == CountEvents(front) + |b.events|
  {
    DropExpiredIs(b.events, cutoff, k);
    assert (front + [b])[..|front|] == front;
  }

  // ----- Runs -----

  datatype Op =
    | Append(author: string, tag: Option<string>, ts: int, ciphertext: string, sig: string)
    | Evict(now: int)

  function SqlStep(t: Table, n: nat, ttl: int, op: Op): Table {
    match op
    case Append(author, tag, ts, ciphertext, sig) => SqlAppend(t, n, author, tag, ts, ciphertext, sig)
    case Evict(now) => SqlEvict(t, now - ttl)
  }

  function SqlRun(ops: seq<Op>, n: nat, ttl: int): Table {
    if ops == [] then Table([], 0) else SqlStep(SqlRun(ops[..|ops| - 1], n, ttl), n, ttl, ops[|ops| - 1])
  }

  function MemStep(d: Deques, n: nat, ttl: int, op: Op): Deques {
    match op
    case Append(author, tag, ts, ciphertext, sig) => MemAppend(d, n, author, tag, ts, ciphertext, sig)
    case Evict(now) => MemEvict(d, now - ttl)
  }

  function MemRun(ops: seq<Op>, n: nat, ttl: int): Deques {
    if ops == [] then Deques([], 0) else MemStep(MemRun(ops[..|ops| - 1], n, ttl), n, ttl, ops[|ops| - 1])
  }

  /** Everything ever appended, with the ids it got. */
  function Appended(ops: seq<Op>): seq<Event> {
    if ops == [] then [] else
      var before := Appended(ops[..|ops| - 1]);
      match ops[|ops| - 1]
      case Append(author, tag, ts, ciphertext, sig) =>
        before + [Event(|before| + 1, author, tag, ts, ciphertext, sig)]
      case Evict(_) => before
  }

  // ----- Sorting and selecting -----

  ghost predicate Sorted(s: seq<Event>) {
    forall i, j :: 0 <= i < j < |s| ==> !Newer(s[j], s[i])
  }

  lemma {:induction false} SelectMember(rows: seq<Event>, q: Query, e: Event)
    ensures e in Select(rows, q) <==> e in rows && Matches(q, e)
  {
    if rows != [] {
      var n := |rows| - 1;
      SelectMember(rows[..n], q, e);
      assert rows == rows[..n] + [rows[n]];
    }
  }

  lemma {:induction false} InsertMember(e: Event, s: seq<Event>, x: Event)
    ensures x in Insert(e, s) <==> x == e || x in s
  {
    if s != [] && !Newer(e, s[0]) {
      InsertMember(e, s[1..], x);
      assert s == [s[0]] + s[1..];
    }
  }

  lemma {:induction false} SortMember(rows: seq<Event>, x: Event)
    ensures x in SortNewest(rows) <==> x in rows
  {
    if rows != [] {
      var n := |rows| - 1;
      SortMember(rows[..n], x);
      InsertMember(rows[n], SortNewest(rows[..n]), x);
      assert rows == rows[..n] + [rows[n]];
    }
  }

  lemma {:induction false} InsertSorted(e: Event, s: seq<Event>)
    requires Sorted(s)
    ensures Sorted(Insert(e, s))
  {
    if s != [] && !Newer(e, s[0]) {
      InsertSorted(e, s[1..]);
      var r := Insert(e, s[1..]);
      forall j | 0 <= j < |r| ensures !Newer(r[j], s[0]) {
        InsertMember(e, s[1..], r[j]);
      }
    }
  }

  lemma {:induction false} SortIsSorted(rows: seq<Event>)
    ensures Sorted(SortNewest(rows))
  {
    if rows != [] {
      SortIsSorted(rows[..|rows| - 1]);
      InsertSorted(rows[|rows| - 1], SortNewest(rows[..|rows| - 1]));
    }
  }

  /** Selection seen from the front, where `Select` recurses from the back. */
  lemma {:induction false} SelectCat(a: seq<Event>, b: seq<Event>, q: Query)
    ensures Select(a + b, q) == Select(a, q) + Select(b, q)
  {
    if b == [] {
      assert a + b == a;
    } else {
      var n := |b| - 1;
      assert (a + b)[..|a| + n] == a + b[..n];
      SelectCat(a, b[..n], q);
    }
  }

  lemma {:induction false} RejectMember(rows: seq<Event>, q: Query, e: Event)
    ensures e in Reject(rows, q) <==> e in rows && !Matches(q, e)
  {
    if rows != [] {
      var n := |rows| - 1;
      RejectMember(rows[..n], q, e);
      assert rows == rows[..n] + [rows[n]];
    }
  }

  lemma {:induction false} SelectAll(s: seq<Event>, q: Query)
    requires forall e :: e in s ==> Matches(q, e)
    ensures Select(s, q) == s
  {
    if s != [] {
      SelectAll(s[..|s| - 1], q);
    }
  }

  lemma {:induction false} SelectNothing(s: seq<Event>, q: Query)
    requires forall e :: e in s ==> !Matches(q, e)
    ensures Select(s, q) == []
  {
    if s != [] {
      SelectNothing(s[..|s| - 1], q);
    }
  }

  ghost predicate DistinctIds(s: seq<Event>) {
    forall i, j :: 0 <= i < j < |s| ==> s[i].id != s[j].id
  }

  lemma {:induction false} SelectDistinct(rows: seq<Event>, q: Query)
    requires DistinctIds(rows)
    ensures DistinctIds(Select(rows, q))
  {
    if rows != [] {
      var n := |rows| - 1;
      SelectDistinct(rows[..n], q);
      forall e | e in Select(rows[..n], q) ensures e.id != rows[n].id {
        SelectMember(rows[..n], q, e);
        var i :| 0 <= i < n && rows[i] == e;
      }
    }
  }

  lemma {:induction false} InsertDistinct(e: Event, s: seq<Event>)
    requires DistinctIds(s) && forall x :: x in s ==> x.id != e.id
    ensures DistinctIds(Insert(e, s))
  {
    if s != [] && !Newer(e, s[0]) {
      InsertDistinct(e, s[1..]);
      var r := Insert(e, s[1..]);
      forall j | 0 <= j < |r| ensures r[j].id != s[0].id {
        InsertMember(e, s[1..], r[j]);
        if r[j] != e { var i :| 0 <= i < |s| - 1 && s[1..][i] == r[j]; assert s[i + 1] == r[j]; }
      }
    }
  }

  lemma {:induction false} SortDistinct(rows: seq<Event>)
    requires DistinctIds(rows)
    ensures DistinctIds(SortNewest(rows))
  {
    if rows != [] {
      var n := |rows| - 1;
      SortDistinct(rows[..n]);
      forall x | x in SortNewest(rows[..n]) ensures x.id != rows[n].id {
        SortMember(rows[..n], x);
        var i :| 0 <= i < n && rows[i] == x;
      }
      InsertDistinct(rows[n], SortNewest(rows[..n]));
    }
  }

  function Members(s: seq<Event>): set<Event> {
    set x | x in s
  }

  lemma {:induction false} PrefixSize(s: seq<Event>, i: nat)
    requires DistinctIds(s) && i <= |s|
    ensures |Members(s[..i])| == i
  {
    if i > 0 {
      PrefixSize(s, i - 1);
      NewInPrefix(s, i - 1);
      hide DistinctIds;
      assert Members(s[..i]) == Members(s[..i - 1]) + {s[i - 1]};
    }
  }

  lemma NewInPrefix(s: seq<Event>, i: nat)
    requires DistinctIds(s) && i < |s|
    ensures s[i] !in Members(s[..i])
    ensures forall x :: x in Members(s[..i + 1]) <==> x in Members(s[..i]) || x == s[i]
  {
    assert s[..i + 1] == s[..i] + [s[i]];
  }

  /** In an ordered sequence exactly the earlier rows come before a row. */
  lemma RankAt(s: seq<Event>, i: nat)
    requires Sorted(s) && DistinctIds(s) && i < |s|
    ensures forall x :: x in s[..i] <==> x in s && Newer(x, s[i])
  {
    forall x | x in s && Newer(x, s[i]) ensures x in s[..i] {
      var j :| 0 <= j < |s| && s[j] == x;
      assert j < i;
      assert s[..i][j] == x;
    }
    forall x | x in s[..i] ensures Newer(x, s[i]) {
      var j :| 0 <= j < i && s[..i][j] == x;
      assert s[j] == x;
    }
  }

  lemma SortedIsNewestFirst(s: seq<Event>)
    requires Sorted(s) && DistinctIds(s)
    ensures NewestFirst(s)
  {
  }

  /** ORDER BY ... LIMIT n picks the rows with fewer than n before them. */
  lemma TopRank(rows: seq<Event>, q: Query, n: nat, e: Event)
    requires DistinctIds(rows)
    ensures e in Take(SortNewest(Select(rows, q)), n) <==> Among(rows, q, n, e)
  {
    var s := SortNewest(Select(rows, q));
    SortMember(Select(rows, q), e);
    SelectMember(rows, q, e);
    SortIsSorted(Select(rows, q));
    SelectDistinct(rows, q);
    SortDistinct(Select(rows, q));
    hide SortNewest, Select, Matches, Sorted;
    if e in s {
      var i :| 0 <= i < |s| && s[i] == e;
      RankAt(s, i);
      forall x ensures x in Above(rows, q, e) <==> x in Members(s[..i]) {
        SortMember(Select(rows, q), x);
        SelectMember(rows, q, x);
      }
      assert Above(rows, q, e) == Members(s[..i]);
      PrefixSize(s, i);
      TakeAt(s, n, i);
    } else {
      TakeSome(s, n);
    }
  }

  lemma TakeAt(s: seq<Event>, n: nat, i: nat)
    requires DistinctIds(s) && i < |s|
    ensures s[i] in Take(s, n) <==> i < n
  {
    if i < n {
      assert Take(s, n)[i] == s[i];
    }
  }

  lemma TakeSome(s: seq<Event>, n: nat)
    ensures forall x :: x in Take(s, n) ==> x in s
  {
  }

  lemma {:induction false} RejectAscending(rows: seq<Event>, q: Query)
    requires Ascending(rows)
    ensures Ascending(Reject(rows, q))
  {
    if rows != [] {
      var n := |rows| - 1;
      RejectAscending(rows[..n], q);
      forall e | e in Reject(rows[..n], q) ensures e.id < rows[n].id {
        RejectMember(rows[..n], q, e);
      }
    }
  }

  lemma SameIdSameRow(rows: seq<Event>, x: Event, y: Event)
    requires DistinctIds(rows) && x in rows && y in rows && x.id == y.id
    ensures x == y
  {
  }

  lemma AscendingIsDistinct(rows: seq<Event>)
    requires Ascending(rows)
    ensures DistinctIds(rows)
  {
  }

  /** What trimming keeps: all rows of other keys, and of its own the newest n. */
  lemma TrimmedMember(rows: seq<Event>, q: Query, n: nat, x: Event)
    requires DistinctIds(rows) && q.which == AnyId
    ensures x in Trimmed(rows, q, n) <==> x in rows && (Matches(q, x) ==> Among(rows, q, n, x))
  {
    var top := Take(SortNewest(Select(rows, q)), n);
    RejectMember(rows, q.(which := NotIn(IdsOf(top))), x);
    TopRank(rows, q, n, x);
    hide Among, Take, SortNewest, Select, DistinctIds;
    if x in rows && x.id in IdsOf(top) {
      var y :| y in top && y.id == x.id;
      TopRank(rows, q, n, y);
      AmongIsRow(rows, q, n, y);
      SameIdSameRow(rows, x, y);
    }
  }

  lemma AmongIsRow(rows: seq<Event>, q: Query, n: nat, x: Event)
    requires Among(rows, q, n, x)
    ensures x in rows && Matches(q, x)
  {
  }

  /** Trimming one key: of that key the newest n stay, of the others everything. */
  ghost predicate Keeps(rows: seq<Event>, kept: seq<Event>, k: Query, n: nat) {
    forall x :: x in kept <==> x in rows && (Matches(k, x) ==> Among(rows, k, n, x))
  }

  lemma KeepsMember(rows: seq<Event>, kept: seq<Event>, k: Query, n: nat, x: Event)
    requires Keeps(rows, kept, k, n)
    ensures x in kept <==> x in rows && (Matches(k, x) ==> Among(rows, k, n, x))
  {
  }

  lemma TrimmedOk(t: Table, q: Query, n: nat)
    requires TableOk(t) && q.which == AnyId
    ensures TableOk(t.(rows := Trimmed(t.rows, q, n))) && Keeps(t.rows, Trimmed(t.rows, q, n), q, n)
  {
    AscendingIsDistinct(t.rows);
    RejectAscending(t.rows, q.(which := NotIn(IdsOf(Take(SortNewest(Select(t.rows, q)), n)))));
    hide Among, Ascending, Matches;
    forall x
      ensures x in Trimmed(t.rows, q, n) <==> x in t.rows && (Matches(q, x) ==> Among(t.rows, q, n, x))
    {
      TrimmedMember(t.rows, q, n, x);
    }
  }

  lemma FetchIs(t: Table, author: string, cutoff: int, since: Option<int>, limit: nat, tag: Option<string>)
    requires TableOk(t)
    ensures var out, f := SqlFetch(t, author, cutoff, since, limit, tag), FetchQuery(author, tag, cutoff, since);
            NewestFirst(out) && forall x :: x in out <==> Among(t.rows, f, limit, x)
  {
    var f := FetchQuery(author, tag, cutoff, since);
    var s := SortNewest(Select(t.rows, f));
    AscendingIsDistinct(t.rows);
    SortIsSorted(Select(t.rows, f));
    SelectDistinct(t.rows, f);
    SortDistinct(Select(t.rows, f));
    SortedIsNewestFirst(s);
    hide Among, Sorted, Select, SortNewest;
    forall x ensures x in Take(s, limit) <==> Among(t.rows, f, limit, x) {
      TopRank(t.rows, f, limit, x);
    }
  }

  /** Cutting the answer order leaves out only what comes after everything kept. */
  lemma TakeNewest(s: seq<Event>, n: nat)
    requires NewestFirst(s)
    ensures |Take(s, n)| <= n
    ensures forall x :: x in s && x !in Take(s, n) ==>
              |Take(s, n)| == n && forall y :: y in Take(s, n) ==> Newer(y, x)
  {
    assert forall i :: 0 <= i < |Take(s, n)| ==> s[i] == Take(s, n)[i] && s[i] in Take(s, n);
    forall x | x in s && x !in Take(s, n) ensures |Take(s, n)| == n && forall y :: y in Take(s, n) ==> Newer(y, x) {
      var i :| 0 <= i < |s| && s[i] == x;
      assert i >= |Take(s, n)|;
    }
  }

  /** The answer of the table: rows that fit, and all of them unless the limit cuts off what is not newer. */
  lemma SqlFetchIs(t: Table, author: string, cutoff: int, since: Option<int>, limit: nat, tag: Option<string>)
    requires TableOk(t)
    ensures var out := SqlFetch(t, author, cutoff, since, limit, tag);
            && |out| <= limit
            && (forall x :: x in out ==>
                  && x in t.rows && x.author == author && (tag.Some? ==> x.tag == tag)
                  && x.ts >= cutoff && (since.Some? ==> x.ts > since.value))
            && (forall x :: x in t.rows && x.author == author && (tag.Some? ==> x.tag == tag)
                            && x.ts >= cutoff && (since.Some? ==> x.ts > since.value) && x !in out ==>
                  |out| == limit && forall y :: y in out ==> y.ts > x.ts || (y.ts == x.ts && y.id > x.id))
            && (forall i, j :: 0 <= i < j < |out| ==>
                  out[i].ts > out[j].ts || (out[i].ts == out[j].ts && out[i].id > out[j].id))
  {
    FetchIs(t, author, cutoff, since, limit, tag);
    var q := FetchQuery(author, tag, cutoff, since);
    var s := SortNewest(Select(t.rows, q));
    AscendingIsDistinct(t.rows);
    SortIsSorted(Select(t.rows, q));
    SelectDistinct(t.rows, q);
    SortDistinct(Select(t.rows, q));
    SortedIsNewestFirst(s);
    TakeNewest(s, limit);
    forall x
      ensures x in s <==> x in t.rows && x.author == author && (tag.Some? ==> x.tag == tag)
                          && x.ts >= cutoff && (since.Some? ==> x.ts > since.value)
    {
      SortMember(Select(t.rows, q), x);
      SelectMember(t.rows, q, x);
      hide Select, SortNewest, NewestFirst, DistinctIds, Sorted, Ascending;
    }
    hide Select, SortNewest, Matches, DistinctIds, Sorted, Ascending, Among;
    TakeSome(s, limit);
  }

  lemma EvictOk(t: Table, cutoff: int)
    requires TableOk(t)
    ensures TableOk(SqlEvict(t, cutoff))
    ensures forall x :: x in SqlEvict(t, cutoff).rows <==> x in t.rows && x.ts >= cutoff
  {
    RejectAscending(t.rows, ExpiredQuery(cutoff));
    hide Ascending;
    forall x ensures x in SqlEvict(t, cutoff).rows <==> x in t.rows && x.ts >= cutoff {
      RejectMember(t.rows, ExpiredQuery(cutoff), x);
    }
  }

  /** Two orderings of the same rows are one. */
  lemma {:induction false} NewestFirstUnique(a: seq<Event>, b: seq<Event>)
    requires NewestFirst(a) && NewestFirst(b) && forall e :: e in a <==> e in b
    ensures a == b
  {
    EmptyTogether(a, b);
    if a != [] {
      assert a[0] in b && b[0] in a;
      assert a[0] == b[0];
      forall e ensures e in a[1..] <==> e in b[1..] {
        assert e in a[1..] <==> e in a && e != a[0];
        assert e in b[1..] <==> e in b && e != b[0];
      }
      NewestFirstUnique(a[1..], b[1..]);
    }
  }

  lemma {:induction false} AscendingUnique(a: seq<Event>, b: seq<Event>)
    requires Ascending(a) && Ascending(b) && forall e :: e in a <==> e in b
    ensures a == b
  {
    EmptyTogether(a, b);
    if a != [] {
      assert a[0] in b && b[0] in a;
      assert a[0] == b[0];
      forall e ensures e in a[1..] <==> e in b[1..] {
        assert e in a[1..] <==> e in a && e != a[0];
        assert e in b[1..] <==> e in b && e != b[0];
      }
      AscendingUnique(a[1..], b[1..]);
    }
  }
}
