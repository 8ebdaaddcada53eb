/** Exactly when the relay's two event stores answer alike, for runs of appends. */
module StoreDifferences {
  import opened Collections
  import opened EventStores
  import opened StoreRetention
  import opened StoreAgreement
  import opened Options

  ghost predicate AppendsOnly(ops: seq<Op>) {
    forall i :: 0 <= i < |ops| ==> ops[i].Append?
  }

  /** The id of the first event appended under a key: deques stand in this order. */
  function Opened(rows: seq<Event>, author: string, g: Option<string>): nat {
    var s := Select(rows, KeyQuery(author, g));
    if s == [] then 0 else s[0].id
  }

  /** Of what a fetch looks at, timestamps rise under each tag, and where two events under different tags
      share a timestamp the later one lies in the deque that was opened first. */
  ghost predicate Aligned(rows: seq<Event>, author: string, tag: Option<string>) {
    forall x, y :: x in rows && y in rows && SameKey(x, author, tag) && SameKey(y, author, tag) && x.id < y.id ==>
      AlignedPair(rows, author, x, y)
  }

  predicate AlignedPair(rows: seq<Event>, author: string, x: Event, y: Event) {
    if x.tag == y.tag then x.ts < y.ts
    else x.ts != y.ts || Opened(rows, author, y.tag) < Opened(rows, author, x.tag)
  }

  // ----- The order of the deques -----

  /** Deques stand in the order in which their keys were first used, and every key used has one. */
  ghost predicate InOpeningOrder(buffers: seq<Buffer>, rows: seq<Event>) {
    && (forall i :: 0 <= i < |buffers| ==> Select(rows, KeyQuery(buffers[i].author, buffers[i].tag)) != [])
    && (forall i, j :: 0 <= i < j < |buffers| ==>
          Opened(rows, buffers[i].author, buffers[i].tag) < Opened(rows, buffers[j].author, buffers[j].tag))
    && (forall x :: x in rows ==> (x.author, x.tag) in Keys(buffers))
  }

  lemma OpenedStays(rows: seq<Event>, e: Event, author: string, g: Option<string>)
    requires Select(rows, KeyQuery(author, g)) != []
    ensures Opened(rows + [e], author, g) == Opened(rows, author, g)
    ensures Select(rows + [e], KeyQuery(author, g)) != []
  {
    SelectSnoc(rows, e, KeyQuery(author, g));
  }

  /** Deque by deque, the same keys. */
  ghost predicate SameKeys(a: seq<Buffer>, b: seq<Buffer>) {
    |a| == |b| && forall i :: 0 <= i < |a| ==> a[i].author == b[i].author && a[i].tag == b[i].tag
  }

  lemma {:induction false} PushKnown(buffers: seq<Buffer>, n: nat, e: Event)
    requires (e.author, e.tag) in Keys(buffers)
    ensures SameKeys(buffers, PushEvent(buffers, n, e))
  {
    var tail := buffers[1..];
    assert buffers == [buffers[0]] + tail;
    KeysCons(buffers[0], tail);
    hide Keys, LastN, SameKeys;
    if buffers[0].author == e.author && buffers[0].tag == e.tag {
      SameKeysCons(buffers[0], buffers[0].(events := LastN(buffers[0].events + [e], n)), tail, tail);
    } else {
      PushKnown(tail, n, e);
      SameKeysCons(buffers[0], buffers[0], tail, PushEvent(tail, n, e));
    }
  }

  lemma SameKeysCons(b: Buffer, c: Buffer, a: seq<Buffer>, after: seq<Buffer>)
    requires b.author == c.author && b.tag == c.tag && (a == after || SameKeys(a, after))
    ensures SameKeys([b] + a, [c] + after)
  {
  }

  lemma {:induction false} PushNew(buffers: seq<Buffer>, n: nat, e: Event)
    requires (e.author, e.tag) !in Keys(buffers)
    ensures PushEvent(buffers, n, e) == buffers + [Buffer(e.author, e.tag, LastN([e], n))]
  {
    if buffers != [] {
      assert buffers == [buffers[0]] + buffers[1..];
      KeysCons(buffers[0], buffers[1..]);
      PushNew(buffers[1..], n, e);
    }
  }

  lemma {:induction false} SameKeySets(a: seq<Buffer>, b: seq<Buffer>)
    requires SameKeys(a, b)
    ensures Keys(a) == Keys(b)
  {
    forall k ensures k in Keys(a) <==> k in Keys(b) {
      if k in Keys(a) {
        var x :| x in a && (x.author, x.tag) == k;
        var i :| 0 <= i < |a| && a[i] == x;
        assert b[i] in b && (b[i].author, b[i].tag) == k;
      }
      if k in Keys(b) {
        var x :| x in b && (x.author, x.tag) == k;
        var i :| 0 <= i < |b| && b[i] == x;
        assert a[i] in a && (a[i].author, a[i].tag) == k;
      }
    }
  }

  lemma KnownOrder(buffers: seq<Buffer>, after: seq<Buffer>, rows: seq<Event>, e: Event)
    requires InOpeningOrder(buffers, rows) && SameKeys(buffers, after) && (e.author, e.tag) in Keys(buffers)
    ensures InOpeningOrder(after, rows + [e])
  {
    SameKeySets(buffers, after);
    hide Keys, Select, Opened;
    forall i | 0 <= i < |after|
      ensures Opened(rows + [e], after[i].author, after[i].tag) == Opened(rows, buffers[i].author, buffers[i].tag)
      ensures Select(rows + [e], KeyQuery(after[i].author, after[i].tag)) != []
    {
      OpenedStays(rows, e, buffers[i].author, buffers[i].tag);
    }
  }

  lemma NewOrder(buffers: seq<Buffer>, b: Buffer, rows: seq<Event>, e: Event)
    requires InOpeningOrder(buffers, rows) && Ascending(rows + [e])
    requires b.author == e.author && b.tag == e.tag && (e.author, e.tag) !in Keys(buffers)
    ensures InOpeningOrder(buffers + [b], rows + [e])
  {
    NewOpened(buffers, rows, e);
    hide Keys, Opened, Select, Ascending;
    forall i | 0 <= i < |buffers|
      ensures Opened(rows + [e], buffers[i].author, buffers[i].tag) == Opened(rows, buffers[i].author, buffers[i].tag)
      ensures Select(rows + [e], KeyQuery(buffers[i].author, buffers[i].tag)) != []
      ensures Opened(rows, buffers[i].author, buffers[i].tag) < e.id
    {
      OpenedStays(rows, e, buffers[i].author, buffers[i].tag);
      OpenedBefore(rows, e, buffers[i].author, buffers[i].tag);
    }
    OrderSnoc(buffers, b, rows, e);
  }

  lemma OrderSnoc(buffers: seq<Buffer>, b: Buffer, rows: seq<Event>, e: Event)
    requires InOpeningOrder(buffers, rows) && b.author == e.author && b.tag == e.tag
    requires forall i :: 0 <= i < |buffers| ==>
               && Opened(rows + [e], buffers[i].author, buffers[i].tag)
                  == Opened(rows, buffers[i].author, buffers[i].tag)
               && Select(rows + [e], KeyQuery(buffers[i].author, buffers[i].tag)) != []
               && Opened(rows, buffers[i].author, buffers[i].tag) < e.id
    requires Opened(rows + [e], e.author, e.tag) == e.id && Select(rows + [e], KeyQuery(e.author, e.tag)) != []
    ensures InOpeningOrder(buffers + [b], rows + [e])
  {
    KeysSnoc(buffers, b);
    hide Keys, Opened, Select;
  }

  lemma OpenedBefore(rows: seq<Event>, e: Event, author: string, g: Option<string>)
    requires Select(rows, KeyQuery(author, g)) != [] && Ascending(rows + [e])
    ensures Opened(rows, author, g) < e.id
  {
    var x := Select(rows, KeyQuery(author, g))[0];
    SelectMember(rows, KeyQuery(author, g), x);
    var i :| 0 <= i < |rows| && rows[i] == x;
    assert (rows + [e])[i] == x && (rows + [e])[|rows|] == e;
  }

  lemma NewOpened(buffers: seq<Buffer>, rows: seq<Event>, e: Event)
    requires InOpeningOrder(buffers, rows) && (e.author, e.tag) !in Keys(buffers)
    ensures Opened(rows + [e], e.author, e.tag) == e.id
    ensures Select(rows + [e], KeyQuery(e.author, e.tag)) != []
  {
    var k := KeyQuery(e.author, e.tag);
    SelectSnoc(rows, e, k);
    forall x | x in rows ensures !Matches(k, x) {
    }
    SelectNothing(rows, k);
  }

  lemma {:induction false} RunInOrder(ops: seq<Op>, n: nat, ttl: int)
    requires AppendsOnly(ops)
    ensures InOpeningOrder(MemRun(ops, n, ttl).buffers, Appended(ops))
  {
    if ops != [] {
      var m := |ops| - 1;
      var d, e, rows := MemRun(ops[..m], n, ttl), EventAt(ops, m), Appended(ops[..m]);
      assert ops[..m + 1] == ops;
      RunInOrder(ops[..m], n, ttl);
      MemAppendIs(ops, n, ttl);
      AppendedStep(ops, m);
      AppendedAscend(ops);
      hide MemRun, Appended, PushEvent, InOpeningOrder, Keys, Ascending;
      if (e.author, e.tag) in Keys(d.buffers) {
        PushKnown(d.buffers, n, e);
        KnownOrder(d.buffers, PushEvent(d.buffers, n, e), rows, e);
      } else {
        PushNew(d.buffers, n, e);
        NewOrder(d.buffers, Buffer(e.author, e.tag, LastN([e], n)), rows, e);
      }
    } else {
      NothingInOrder();
    }
  }

  lemma NothingInOrder()
    ensures InOpeningOrder([], [])
  {
  }

  // ----- Aligned appends are answered alike -----

  lemma AlignedKey(rows: seq<Event>, author: string, tag: Option<string>, g: Option<string>)
    requires Aligned(rows, author, tag) && (tag.Some? ==> g == tag)
    ensures KeyRises(rows, author, g)
  {
    hide Opened;
    forall x, y | x in rows && y in rows && x.author == y.author == author && x.tag == y.tag == g && x.id < y.id
      ensures x.ts < y.ts
    {
      assert AlignedPair(rows, author, x, y);
    }
  }

  lemma AlignedAcross(d: Deques, t: Table, all: seq<Event>, author: string, tag: Option<string>)
    requires DistinctKeys(d.buffers) && AllCoupled(d, t, author, tag) && Ascending(t.rows)
    requires Subset(t.rows, all) && Aligned(all, author, tag) && InOpeningOrder(d.buffers, all)
    ensures TiesAcross(d.buffers, author, tag)
  {
    hide AllCoupled, Ascending, Opened, Keys, Select, Aligned;
    forall i, j | 0 <= i < j < |d.buffers| && Looks(d.buffers[i], author, tag) && Looks(d.buffers[j], author, tag)
      ensures TiesBetween(d.buffers[i].events, d.buffers[j].events)
    {
      DequeRows(d, t, i, author, tag);
      DequeRows(d, t, j, author, tag);
      forall x, y | x in d.buffers[i].events && y in d.buffers[j].events && x.ts == y.ts ensures x.id > y.id {
        SameIdDifferentTags(t.rows, d.buffers, i, j, author, x, y);
        AlignedIs(all, author, tag, x, y);
      }
    }
  }

  lemma AlignedIs(rows: seq<Event>, author: string, tag: Option<string>, x: Event, y: Event)
    requires Aligned(rows, author, tag) && x in rows && y in rows && SameKey(x, author, tag) && SameKey(y, author, tag)
    ensures x.id < y.id ==> AlignedPair(rows, author, x, y)
  {
  }

  lemma SameIdDifferentTags(rows: seq<Event>, buffers: seq<Buffer>, i: nat, j: nat, author: string, x: Event, y: Event)
    requires Ascending(rows) && x in rows && y in rows && DistinctKeys(buffers) && i < j < |buffers|
    requires buffers[i].author == buffers[j].author == author && x.tag == buffers[i].tag && y.tag == buffers[j].tag
    ensures x.tag != y.tag && x.id != y.id
  {
  }

  lemma AlignedAgree(ops: seq<Op>, n: nat, ttl: int, author: string, tag: Option<string>, cutoff: int,
                     since: Option<int>, limit: nat)
    requires AppendsOnly(ops) && Aligned(Appended(ops), author, tag)
    ensures Alike(ops, n, ttl, author, tag, cutoff, since, limit)
  {
    var d, t := MemRun(ops, n, ttl), SqlRun(ops, n, ttl);
    RunInOrder(ops, n, ttl);
    hide MemRun, SqlRun, KeyRises, Aligned, Appended, MemFetch, SqlFetch, DistinctKeys, AllCoupled, Ascending, Subset,
         TiesAcross, InOpeningOrder;
    forall g: Option<string> | tag.Some? ==> g == tag ensures KeyRises(Appended(ops), author, g) {
      AlignedKey(Appended(ops), author, tag, g);
    }
    RunsAllCoupled(ops, n, ttl, author, tag);
    AlignedAcross(d, t, Appended(ops), author, tag);
    CoupledFetch(d, t, author, cutoff, since, limit, tag);
  }

  // ----- An earlier event before a later one of the same time -----

  /** `x` stands before `y`. */
  ghost predicate Precedes(s: seq<Event>, x: Event, y: Event) {
    exists p, q :: 0 <= p < q < |s| && s[p] == x && s[q] == y
  }

  lemma PrecedesCat(a: seq<Event>, b: seq<Event>, x: Event, y: Event)
    ensures Precedes(a, x, y) ==> Precedes(a + b, x, y)
    ensures Precedes(b, x, y) ==> Precedes(a + b, x, y)
    ensures x in a && y in b ==> Precedes(a + b, x, y)
  {
    if Precedes(a, x, y) {
      var p, q :| 0 <= p < q < |a| && a[p] == x && a[q] == y;
      assert (a + b)[p] == x && (a + b)[q] == y;
    }
    if Precedes(b, x, y) {
      var p, q :| 0 <= p < q < |b| && b[p] == x && b[q] == y;
      assert (a + b)[|a| + p] == x && (a + b)[|a| + q] == y;
    }
    if x in a && y in b {
      var p :| 0 <= p < |a| && a[p] == x;
      var q :| 0 <= q < |b| && b[q] == y;
      assert (a + b)[p] == x && (a + b)[|a| + q] == y;
    }
  }

  lemma {:induction false} GatherWithin(buffers: seq<Buffer>, m: nat, i: nat, author: string, tag: Option<string>,
                                        x: Event, y: Event)
    requires i < m <= |buffers| && Looks(buffers[i], author, tag) && Precedes(buffers[i].events, x, y)
    ensures Precedes(Gather(buffers[..m], author, tag), x, y)
    decreases m
  {
    hide Gather, Looks, Precedes;
    GatherSnoc(buffers, m - 1, author, tag);
    PrecedesCat(Gather(buffers[..m - 1], author, tag), buffers[m - 1].events, x, y);
    if i < m - 1 {
      GatherWithin(buffers, m - 1, i, author, tag, x, y);
    }
  }

  lemma {:induction false} GatherAcross(buffers: seq<Buffer>, m: nat, i: nat, j: nat, author: string,
                                        tag: Option<string>, x: Event, y: Event)
    requires i < j < m <= |buffers| && Looks(buffers[i], author, tag) && Looks(buffers[j], author, tag)
    requires x in buffers[i].events && y in buffers[j].events
    ensures Precedes(Gather(buffers[..m], author, tag), x, y)
    decreases m
  {
    hide Looks, Precedes;
    GatherSnoc(buffers, m - 1, author, tag);
    PrecedesCat(Gather(buffers[..m - 1], author, tag), buffers[m - 1].events, x, y);
    if j < m - 1 {
      GatherAcross(buffers, m - 1, i, j, author, tag, x, y);
    } else {
      assert buffers[..m - 1][i] == buffers[i];
      GatherHas(buffers[..m - 1], i, author, tag, x);
    }
  }

  lemma {:induction false} SelectPrecedes(s: seq<Event>, q: Query, x: Event, y: Event)
    requires Precedes(s, x, y) && Matches(q, x) && Matches(q, y)
    ensures Precedes(Select(s, q), x, y)
  {
    var n := |s| - 1;
    var i, j :| 0 <= i < j < |s| && s[i] == x && s[j] == y;
    PrecedesCat(Select(s[..n], q), [s[n]], x, y);
    SelectMember(s[..n], q, x);
    hide Matches;
    if j < n {
      assert s[..n][i] == x && s[..n][j] == y;
      SelectPrecedes(s[..n], q, x, y);
    } else {
      assert x in s[..n];
    }
  }

  lemma {:induction false} InsertPrecedes(e: Event, s: seq<Event>, x: Event, y: Event)
    requires Settled(s)
    ensures Precedes(s, x, y) ==> Precedes(InsertStable(e, s), x, y)
    ensures x in s && x.ts >= e.ts ==> Precedes(InsertStable(e, s), x, e)
  {
    if s == [] || e.ts > s[0].ts {
      PrecedesCat([e], s, x, y);
    } else {
      var tail := s[1..];
      assert s == [s[0]] + tail;
      InsertPrecedes(e, tail, x, y);
      StableMember(e, tail, e);
      PrecedesCat([s[0]], InsertStable(e, tail), x, y);
      PrecedesCat([s[0]], InsertStable(e, tail), x, e);
      if Precedes(s, x, y) {
        HeadPrecedes(s, x, y);
        StableMember(e, tail, y);
      }
    }
  }

  lemma HeadPrecedes(s: seq<Event>, x: Event, y: Event)
    requires Precedes(s, x, y)
    ensures Precedes(s[1..], x, y) || (x == s[0] && y in s[1..])
  {
    var p, q :| 0 <= p < q < |s| && s[p] == x && s[q] == y;
    assert s[1..][q - 1] == y;
    if p > 0 {
      assert s[1..][p - 1] == x;
    }
  }

  /** The stable sort keeps the order of equal timestamps. */
  lemma {:induction false} SortPrecedes(s: seq<Event>, x: Event, y: Event)
    requires Precedes(s, x, y) && x.ts >= y.ts
    ensures Precedes(SortStable(s), x, y)
  {
    var n := |s| - 1;
    var i, j :| 0 <= i < j < |s| && s[i] == x && s[j] == y;
    SortSettles(s[..n]);
    InsertPrecedes(s[n], SortStable(s[..n]), x, y);
    StableSame(s[..n], x);
    if j < n {
      assert s[..n][i] == x && s[..n][j] == y;
      SortPrecedes(s[..n], x, y);
    } else {
      assert s[..n][i] == x;
    }
  }

  /** If the gathered events show an earlier one first, the stores part. */
  lemma TieParts(ops: seq<Op>, n: nat, ttl: int, author: string, tag: Option<string>, x: Event, y: Event)
    requires var all := Gather(MemRun(ops, n, ttl).buffers, author, tag); Precedes(all, x, y)
    requires x.ts == y.ts && x.id < y.id
    ensures exists limit: nat :: !Alike(ops, n, ttl, author, tag, x.ts, None, limit)
  {
    var q := FreshQuery(x.ts, None);
    var all := Gather(MemRun(ops, n, ttl).buffers, author, tag);
    var mem := SortStable(Select(all, q));
    var limit := |mem|;
    hide MemRun, SqlRun, SortStable, Select, Gather;
    SelectPrecedes(all, q, x, y);
    SortPrecedes(Select(all, q), x, y);
    NotNewestFirst(mem, x, y);
    TableNewestFirst(ops, n, ttl, author, tag, x.ts, limit);
    assert Take(mem, limit) == mem;
    assert !Alike(ops, n, ttl, author, tag, x.ts, None, limit);
  }

  lemma NotNewestFirst(s: seq<Event>, x: Event, y: Event)
    requires Precedes(s, x, y) && x.ts == y.ts && x.id < y.id
    ensures !NewestFirst(s)
  {
  }

  lemma TableNewestFirst(ops: seq<Op>, n: nat, ttl: int, author: string, tag: Option<string>, cutoff: int, limit: nat)
    ensures NewestFirst(SqlFetch(SqlRun(ops, n, ttl), author, cutoff, None, limit, tag))
  {
    assert ops[..|ops|] == ops;
    RunOk(ops, |ops|, n, ttl);
    hide SqlRun, SqlFetch, NewestFirst;
    FetchIs(SqlRun(ops, n, ttl), author, cutoff, None, limit, tag);
  }

  // ----- Where the stores part -----

  lemma NewestSnoc(s: seq<Event>, e: Event, n: nat)
    ensures LastN(LastN(s, n) + [e], n) == LastN(s + [e], n)
  {
  }

  /** Without evictions a deque holds the last n appended under its key. */
  lemma {:induction false} DequeIs(ops: seq<Op>, n: nat, ttl: int, author: string, g: Option<string>)
    requires AppendsOnly(ops)
    ensures BufferOf(MemRun(ops, n, ttl).buffers, author, g) == LastN(Select(Appended(ops), KeyQuery(author, g)), n)
  {
    if ops != [] {
      var m := |ops| - 1;
      var d, e, before := MemRun(ops[..m], n, ttl), EventAt(ops, m), Appended(ops[..m]);
      assert ops[..m + 1] == ops;
      DequeIs(ops[..m], n, ttl, author, g);
      MemAppendIs(ops, n, ttl);
      AppendedStep(ops, m);
      hide MemRun, Appended, PushEvent, BufferOf, LastN, Select;
      PushBufferOf(d.buffers, n, e, author, g);
      SelectSnoc(before, e, KeyQuery(author, g));
      NewestSnoc(Select(before, KeyQuery(author, g)), e, n);
    }
  }

  lemma DequeAt(ops: seq<Op>, n: nat, ttl: int, author: string, tag: Option<string>, g: Option<string>, x: Event)
    returns (i: nat)
    requires AppendsOnly(ops) && (tag.Some? ==> g == tag) && x in LastN(Select(Appended(ops), KeyQuery(author, g)), n)
    ensures var buffers := MemRun(ops, n, ttl).buffers;
            && i < |buffers| && Looks(buffers[i], author, tag) && buffers[i].author == author && buffers[i].tag == g
            && buffers[i].events == LastN(Select(Appended(ops), KeyQuery(author, g)), n)
  {
    var s := Select(Appended(ops), KeyQuery(author, g));
    DequeIs(ops, n, ttl, author, g);
    MemRunKeys(ops, n, ttl);
    var j :| 0 <= j < |LastN(s, n)| && LastN(s, n)[j] == x;
    assert x in s;
    SelectMember(Appended(ops), KeyQuery(author, g), x);
    hide MemRun, Appended, Select, BufferOf, DistinctKeys, LastN;
    i := HolderOf(MemRun(ops, n, ttl).buffers, x);
    BufferAt(MemRun(ops, n, ttl).buffers, i);
  }

  /** Two neighbours of one time under one key. */
  lemma NeighboursPart(ops: seq<Op>, ttl: int, author: string, tag: Option<string>, g: Option<string>, s: seq<Event>,
                       x: Event, e: Event)
    requires AppendsOnly(ops) && (tag.Some? ==> g == tag)
    requires Select(Appended(ops), KeyQuery(author, g)) == s + [x, e] && x.ts == e.ts && x.id < e.id
    ensures exists limit: nat :: !Alike(ops, 2, ttl, author, tag, x.ts, None, limit)
  {
    assert LastN(s + [x, e], 2) == [x, e];
    hide Appended, MemRun, Select, LastN, Gather, Looks;
    var buffers := MemRun(ops, 2, ttl).buffers;
    var i := DequeAt(ops, 2, ttl, author, tag, g, x);
    assert [x, e][0] == x && [x, e][1] == e;
    GatherWithin(buffers, |buffers|, i, author, tag, x, e);
    assert buffers[..|buffers|] == buffers;
    TieParts(ops, 2, ttl, author, tag, x, e);
  }

  /** An older event appended last displaces a newer one from a deque of one, and not from the table. */
  lemma DecreaseParts(ops: seq<Op>, ttl: int, author: string, tag: Option<string>, g: Option<string>, s: seq<Event>,
                      x: Event, e: Event)
    requires AppendsOnly(ops) && (tag.Some? ==> g == tag)
    requires Select(Appended(ops), KeyQuery(author, g)) == s + [x, e] && x.ts > e.ts
    ensures exists limit: nat :: !Alike(ops, 1, ttl, author, tag, e.ts, None, limit)
  {
    var q, buffers := FreshQuery(e.ts, None), MemRun(ops, 1, ttl).buffers;
    assert LastN(s + [x, e], 1) == [e];
    var mem := SortStable(Select(Gather(buffers, author, tag), q));
    NotInTable(ops, ttl, author, g, s, x, e);
    NotAnswered(ops, 1, ttl, author, tag, e, |mem|);
    var i := DequeAt(ops, 1, ttl, author, tag, g, e);
    hide Appended, MemRun, Select, LastN, Gather, Looks, SortStable, SqlRun, SqlFetch, Matches;
    GatherHas(buffers, i, author, tag, e);
    FetchMatchesAny(e);
    SelectMember(Gather(buffers, author, tag), q, e);
    StableSame(Select(Gather(buffers, author, tag), q), e);
    assert Take(mem, |mem|) == mem;
    assert !Alike(ops, 1, ttl, author, tag, e.ts, None, |mem|);
  }

  lemma FetchMatchesAny(e: Event)
    ensures Matches(FreshQuery(e.ts, None), e)
  {
  }

  lemma NotInTable(ops: seq<Op>, ttl: int, author: string, g: Option<string>, s: seq<Event>, x: Event, e: Event)
    requires AppendsOnly(ops) && Select(Appended(ops), KeyQuery(author, g)) == s + [x, e] && x.ts > e.ts
    ensures e !in SqlRun(ops, 1, ttl).rows
  {
    var k, rows := KeyQuery(author, g), Appended(ops);
    assert x in s + [x, e] && e in s + [x, e];
    SelectMember(rows, k, x);
    SelectMember(rows, k, e);
    AboveIs(rows, k, e, x);
    hide Appended, SqlRun, Select, Matches, Above;
    NotFirst(Above(rows, k, e), x);
    assert !Among(rows, k, 1, e);
    assert NoEarlyEviction(ops, 1, ttl, k, e.ts + ttl);
    if e in SqlRun(ops, 1, ttl).rows {
      VisibleIfStored(ops, 1, ttl, author, g, e.ts + ttl, e);
    }
  }

  lemma NotFirst(above: set<Event>, x: Event)
    requires x in above
    ensures |above| >= 1
  {
  }

  lemma NotAnswered(ops: seq<Op>, n: nat, ttl: int, author: string, tag: Option<string>, e: Event, limit: nat)
    requires e !in SqlRun(ops, n, ttl).rows
    ensures e !in SqlFetch(SqlRun(ops, n, ttl), author, e.ts, None, limit, tag)
  {
    assert ops[..|ops|] == ops;
    RunOk(ops, |ops|, n, ttl);
    var t := SqlRun(ops, n, ttl);
    hide SqlRun, SqlFetch, NewestFirst;
    FetchIs(t, author, e.ts, None, limit, tag);
  }

  /** Two events of one time under two tags, the later one in the deque opened last. */
  lemma CrossTiesPart(ops: seq<Op>, ttl: int, author: string, tag: Option<string>, x: Event, y: Event)
    requires AppendsOnly(ops) && x in Appended(ops) && y in Appended(ops) && x.id < y.id && x.ts == y.ts
    requires SameKey(x, author, tag) && SameKey(y, author, tag) && x.tag != y.tag
    requires Opened(Appended(ops), author, x.tag) <= Opened(Appended(ops), author, y.tag)
    ensures exists limit: nat :: !Alike(ops, |Appended(ops)|, ttl, author, tag, x.ts, None, limit)
  {
    hide Appended, MemRun, Select, LastN, Gather, Looks, Opened, InOpeningOrder, Alike, Precedes, Matches;
    var n := |Appended(ops)|;
    var buffers := MemRun(ops, n, ttl).buffers;
    AllKept(ops, n, author, x);
    AllKept(ops, n, author, y);
    RunInOrder(ops, n, ttl);
    var i := DequeAt(ops, n, ttl, author, tag, x.tag, x);
    var j := DequeAt(ops, n, ttl, author, tag, y.tag, y);
    OpenedFirst(buffers, Appended(ops), i, j);
    GatherAcross(buffers, |buffers|, i, j, author, tag, x, y);
    assert buffers[..|buffers|] == buffers;
    TieParts(ops, n, ttl, author, tag, x, y);
  }

  lemma OpenedFirst(buffers: seq<Buffer>, rows: seq<Event>, i: nat, j: nat)
    requires i < |buffers| && j < |buffers| && InOpeningOrder(buffers, rows) && buffers[i].tag != buffers[j].tag
    requires Opened(rows, buffers[i].author, buffers[i].tag) <= Opened(rows, buffers[j].author, buffers[j].tag)
    ensures i < j
  {
    hide Opened, Select, Keys;
  }

  lemma {:induction false} SelectLength(rows: seq<Event>, q: Query)
    ensures |Select(rows, q)| <= |rows|
  {
    if rows != [] {
      SelectLength(rows[..|rows| - 1], q);
    }
  }

  lemma AllKept(ops: seq<Op>, n: nat, author: string, x: Event)
    requires x in Appended(ops) && x.author == author && n == |Appended(ops)|
    ensures x in LastN(Select(Appended(ops), KeyQuery(author, x.tag)), n)
  {
    SelectLength(Appended(ops), KeyQuery(author, x.tag));
    SelectMember(Appended(ops), KeyQuery(author, x.tag), x);
  }

  // ----- The first break of a key -----

  lemma LastBreaks(s: seq<Event>, e: Event)
    requires RisingTs(s) && Ascending(s + [e]) && !RisingTs(s + [e])
    ensures s != [] && s[|s| - 1].ts >= e.ts
  {
    forall i | 0 <= i < |s| ensures s[i].id < e.id {
      assert (s + [e])[i] == s[i];
    }
  }

  /** Append `m` does not exceed the last timestamp of its key. */
  ghost predicate Breaks(ops: seq<Op>, k: Query, m: nat)
    requires m < |ops| && ops[m].Append?
  {
    var s := Select(Appended(ops[..m]), k);
    s != [] && Matches(k, EventAt(ops, m)) && s[|s| - 1].ts >= ops[m].ts
  }

  /** The timestamps of a key rise until some append breaks the order. */
  lemma {:induction false} FirstBreak(ops: seq<Op>, l: nat, k: Query) returns (m: nat)
    requires l <= |ops| && AppendsOnly(ops) && !RisingTs(Select(Appended(ops[..l]), k))
    ensures m < |ops| && Breaks(ops, k, m)
  {
    NothingRises(ops, k);
    hide Appended, RisingTs, Select, Breaks;
    m := l - 1;
    if RisingTs(Select(Appended(ops[..m]), k)) {
      BreakAt(ops, m, k);
    } else {
      m := FirstBreak(ops, m, k);
    }
  }

  lemma NothingRises(ops: seq<Op>, k: Query)
    ensures RisingTs(Select(Appended(ops[..0]), k))
  {
  }

  lemma BreakAt(ops: seq<Op>, m: nat, k: Query)
    requires m < |ops| && ops[m].Append?
    requires RisingTs(Select(Appended(ops[..m]), k)) && !RisingTs(Select(Appended(ops[..m + 1]), k))
    ensures Breaks(ops, k, m)
  {
    hide Appended, RisingTs, Ascending, Matches, Select;
    var before, e := Appended(ops[..m]), EventAt(ops, m);
    AppendedStep(ops, m);
    SelectSnoc(before, e, k);
    AppendedAscend(ops[..m + 1]);
    SelectAscending(Appended(ops[..m + 1]), k);
    if Matches(k, e) {
      LastBreaks(Select(before, k), e);
    }
  }

  lemma RisingIsKeyRises(rows: seq<Event>, author: string, g: Option<string>)
    requires Ascending(rows) && RisingTs(Select(rows, KeyQuery(author, g)))
    ensures KeyRises(rows, author, g)
  {
    var k := KeyQuery(author, g);
    var s := Select(rows, k);
    hide Select;
    forall x, y | x in rows && y in rows && x.author == y.author == author && x.tag == y.tag == g && x.id < y.id
      ensures x.ts < y.ts
    {
      SelectMember(rows, k, x);
      SelectMember(rows, k, y);
      var i :| 0 <= i < |s| && s[i] == x;
      var j :| 0 <= j < |s| && s[j] == y;
      assert i < j;
    }
  }

  // ----- The main result -----

  /** Both stores answer every such fetch alike after every prefix, for every buffer size. */
  ghost predicate AlikeAlong(ops: seq<Op>, ttl: int, author: string, tag: Option<string>) {
    forall m: nat, n: nat, cutoff: int, since: Option<int>, limit: nat | m <= |ops| ::
      Alike(ops[..m], n, ttl, author, tag, cutoff, since, limit)
  }

  lemma BreakParts(ops: seq<Op>, ttl: int, author: string, tag: Option<string>, g: Option<string>, m: nat)
    requires AppendsOnly(ops) && (tag.Some? ==> g == tag) && m < |ops| && Breaks(ops, KeyQuery(author, g), m)
    ensures !AlikeAlong(ops, ttl, author, tag)
  {
    var k, e := KeyQuery(author, g), EventAt(ops, m);
    var s := Select(Appended(ops[..m]), k);
    AppendedStep(ops, m);
    SelectSnoc(Appended(ops[..m]), e, k);
    var x, t := s[|s| - 1], s[..|s| - 1];
    assert s + [e] == t + [x, e];
    LastIsOlder(ops, m, k, x);
    hide Appended, Select, Alike, EventAt;
    if x.ts > e.ts {
      DecreaseParts(ops[..m + 1], ttl, author, tag, g, t, x, e);
    } else {
      NeighboursPart(ops[..m + 1], ttl, author, tag, g, t, x, e);
    }
  }

  lemma LastIsOlder(ops: seq<Op>, m: nat, k: Query, x: Event)
    requires m < |ops| && ops[m].Append? && x in Select(Appended(ops[..m]), k)
    ensures x.id < EventAt(ops, m).id
  {
    AppendedAscend(ops[..m]);
    SelectMember(Appended(ops[..m]), k, x);
  }

  lemma UnalignedParts(ops: seq<Op>, ttl: int, author: string, tag: Option<string>)
    requires AppendsOnly(ops) && !Aligned(Appended(ops), author, tag)
    ensures !AlikeAlong(ops, ttl, author, tag)
  {
    var rows := Appended(ops);
    var x, y :| x in rows && y in rows && SameKey(x, author, tag) && SameKey(y, author, tag) && x.id < y.id
                && !AlignedPair(rows, author, x, y);
    assert ops[..|ops|] == ops;
    AppendedAscend(ops);
    hide Appended, Alike, Select, RisingTs, Breaks, Ascending, Opened;
    if x.tag == y.tag {
      if RisingTs(Select(rows, KeyQuery(author, x.tag))) {
        RisingIsKeyRises(rows, author, x.tag);
      }
      var m := FirstBreak(ops, |ops|, KeyQuery(author, x.tag));
      BreakParts(ops, ttl, author, tag, x.tag, m);
    } else {
      CrossTiesPart(ops, ttl, author, tag, x, y);
    }
  }

  /** Main result, exact: of any sequence of appends the two stores answer a fetch for an author, with or
      without a tag, alike after every prefix and for every buffer size, limit and bound, if and only if
      under each tag timestamps rise, and of two events with one timestamp under different tags the later
      lies under the tag used first. For a tagged fetch that is: the timestamps of the key rise. */
  lemma AppendsAgreeExactly(ops: seq<Op>, ttl: int, author: string, tag: Option<string>)
    requires AppendsOnly(ops)
    ensures AlikeAlong(ops, ttl, author, tag) <==> Aligned(Appended(ops), author, tag)
  {
    hide Appended, Alike, Aligned, AlikeAlong;
    if Aligned(Appended(ops), author, tag) {
      AlignedAlong(ops, ttl, author, tag);
    } else {
      UnalignedParts(ops, ttl, author, tag);
    }
  }

  lemma AlignedAlong(ops: seq<Op>, ttl: int, author: string, tag: Option<string>)
    requires AppendsOnly(ops) && Aligned(Appended(ops), author, tag)
    ensures AlikeAlong(ops, ttl, author, tag)
  {
    hide Appended, Alike, Aligned;
    forall m: nat, n: nat, cutoff: int, since: Option<int>, limit: nat | m <= |ops|
      ensures Alike(ops[..m], n, ttl, author, tag, cutoff, since, limit)
    {
      AlignedPrefix(ops, m, author, tag);
      AlignedAgree(ops[..m], n, ttl, author, tag, cutoff, since, limit);
    }
  }

  lemma AlignedPrefix(ops: seq<Op>, m: nat, author: string, tag: Option<string>)
    requires m <= |ops| && Aligned(Appended(ops), author, tag)
    ensures Aligned(Appended(ops[..m]), author, tag)
  {
    var few, rows := Appended(ops[..m]), Appended(ops);
    AppendedGrows(ops, m);
    hide Appended, Opened;
    forall x, y | x in few && y in few && SameKey(x, author, tag) && SameKey(y, author, tag) && x.id < y.id
      ensures AlignedPair(few, author, x, y)
    {
      OpenedInPrefix(few, rows, author, x);
      OpenedInPrefix(few, rows, author, y);
      AlignedIs(rows, author, tag, x, y);
    }
  }

  lemma OpenedInPrefix(few: seq<Event>, rows: seq<Event>, author: string, x: Event)
    requires few <= rows && x in few && x.author == author
    ensures Opened(few, author, x.tag) == Opened(rows, author, x.tag)
  {
    assert rows == few + rows[|few|..];
    SelectCat(few, rows[|few|..], KeyQuery(author, x.tag));
    SelectMember(few, KeyQuery(author, x.tag), x);
  }

  // ----- A concrete tie -----

  lemma TwoSteps(o1: Op, o2: Op, n: nat, ttl: int)
    ensures MemRun([o1, o2], n, ttl) == MemStep(MemStep(Deques([], 0), n, ttl, o1), n, ttl, o2)
  {
    assert [o1, o2][..1] == [o1] && [o1][..0] == [];
    assert MemRun([o1], n, ttl) == MemStep(MemRun([], n, ttl), n, ttl, o1);
  }

  lemma SortTwo(e1: Event, e2: Event)
    ensures e1.ts == e2.ts ==> SortStable([e1, e2]) == [e1, e2]
    ensures Newer(e2, e1) ==> SortNewest([e1, e2]) == [e2, e1]
  {
    assert [e1, e2][..1] == [e1] && [e1][..0] == [] && [e1][1..] == [];
    assert SortStable([e1]) == [e1] && SortNewest([e1]) == [e1];
    assert InsertStable(e2, []) == [e2];
  }

  lemma BatchOfTwo(o1: Op, o2: Op, e1: Event, e2: Event, n: nat, author: string, tag: Option<string>, c: int)
    requires o1.Append? && o2.Append? && n >= 2
    requires e1 == Event(1, author, tag, o1.ts, o1.ciphertext, o1.sig) && o1.author == author && o1.tag == tag
    requires e2 == Event(2, author, tag, o2.ts, o2.ciphertext, o2.sig) && o2.author == author && o2.tag == tag
    requires c <= e1.ts <= e2.ts
    ensures Batch([o1, o2], n, author, tag, c, None, 1) == [e2]
  {
    hide Select, SortNewest, Appended;
    AppendedTwo(o1, o2, e1, e2);
    SelectAll([e1, e2], KeyQuery(author, tag));
    SortTwo(e1, e2);
    SelectAll([e2, e1], FreshQuery(c, None));
  }

  lemma AppendedTwo(o1: Op, o2: Op, e1: Event, e2: Event)
    requires o1.Append? && o2.Append? && e1 == RowOf(1, o1) && e2 == RowOf(2, o2)
    ensures Appended([o1, o2]) == [e1, e2]
  {
    assert [o1, o2][..1] == [o1] && [o1][..0] == [];
    assert Appended([o1]) == [] + [e1] == [e1];
    assert Appended([o1, o2]) == [e1] + [e2];
  }

  lemma MemOfTwo(e1: Event, e2: Event, n: nat)
    requires n >= 2 && e1.author == e2.author && e1.tag == e2.tag
    ensures PushEvent(PushEvent([], n, e1), n, e2) == [Buffer(e1.author, e1.tag, [e1, e2])]
    ensures Gather([Buffer(e1.author, e1.tag, [e1, e2])], e1.author, e1.tag) == [e1, e2]
  {
    assert [e1] + [e2] == [e1, e2];
  }

  /** Of two equal timestamps under one key the deque store answers the older event first, the SQL store
      the newer. */
  lemma TiesAreOrderedDifferently(o1: Op, o2: Op, tag: string, n: nat, ttl: int, now: int)
    requires o1.Append? && o2.Append? && o1.author == o2.author && o1.tag == o2.tag == Some(tag) && o1.ts == o2.ts
    requires n >= 2 && now - ttl <= o1.ts
    ensures var mem := MemFetch(MemRun([o1, o2], n, ttl), o1.author, now - ttl, None, 1, Some(tag));
            var sql := SqlFetch(SqlRun([o1, o2], n, ttl), o1.author, now - ttl, None, 1, Some(tag));
            |mem| == |sql| == 1 && mem[0].id == 1 && sql[0].id == 2
  {
    hide MemRun, SqlRun, SqlFetch, Batch, SortStable, Select, PushEvent, Gather;
    var e1 := Event(1, o1.author, o1.tag, o1.ts, o1.ciphertext, o1.sig);
    var e2 := Event(2, o1.author, o1.tag, o2.ts, o2.ciphertext, o2.sig);
    TwoSteps(o1, o2, n, ttl);
    MemOfTwo(e1, e2, n);
    SelectAll([e1, e2], FreshQuery(now - ttl, None));
    SortTwo(e1, e2);
    BatchOfTwo(o1, o2, e1, e2, n, o1.author, o1.tag, now - ttl);
    TaggedFetchIsBatch([o1, o2], n, ttl, o1.author, tag, now, None, 1);
  }
}
