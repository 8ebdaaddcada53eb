/** What the deque store answers in every run, event by event and in which order. */
module DequeAnswers {
  import opened Collections
  import opened EventStores
  import opened StoreAgreement
  import opened Options

  // ----- The deques of every run -----

  /** Every event carries the key of its deque and an id handed out before, and a deque is in the order of its ids. */
  ghost predicate Filed(b: Buffer, lastId: nat) {
    && (forall e :: e in b.events ==> e.author == b.author && e.tag == b.tag && e.id <= lastId)
    && Ascending(b.events)
  }

  ghost predicate AllFiled(buffers: seq<Buffer>, lastId: nat) {
    forall i :: 0 <= i < |buffers| ==> Filed(buffers[i], lastId)
  }

  lemma FiledCat(a: seq<Buffer>, b: seq<Buffer>, lastId: nat)
    ensures AllFiled(a + b, lastId) <==> AllFiled(a, lastId) && AllFiled(b, lastId)
  {
    hide Filed;
    if AllFiled(a + b, lastId) {
      forall i | 0 <= i < |a| ensures Filed(a[i], lastId) { assert (a + b)[i] == a[i]; }
      forall i | 0 <= i < |b| ensures Filed(b[i], lastId) { assert (a + b)[|a| + i] == b[i]; }
    }
  }

  lemma FiledMore(b: Buffer, n: nat, e: Event)
    requires e.id > 0 && Filed(b, e.id - 1) && e.author == b.author && e.tag == b.tag
    ensures Filed(b.(events := LastN(b.events + [e], n)), e.id)
  {
    var all := b.events + [e];
    assert Ascending(all);
    assert forall x :: x in LastN(all, n) ==> x in all;
  }

  lemma FiledLater(buffers: seq<Buffer>, lastId: nat)
    requires AllFiled(buffers, lastId)
    ensures AllFiled(buffers, lastId + 1)
  {
  }

  lemma {:induction false} PushFiled(buffers: seq<Buffer>, n: nat, e: Event)
    requires e.id > 0 && AllFiled(buffers, e.id - 1)
    ensures AllFiled(PushEvent(buffers, n, e), e.id)
  {
    hide AllFiled, Filed, LastN;
    if buffers == [] {
      FiledEmpty(e);
      FiledMore(Buffer(e.author, e.tag, []), n, e);
      FiledOne(Buffer(e.author, e.tag, LastN([e], n)), e.id);
      assert [] + [e] == [e];
    } else {
      var b, rest := buffers[0], buffers[1..];
      assert buffers == [b] + rest;
      FiledCat([b], rest, e.id - 1);
      FiledOne(b, e.id - 1);
      FiledLater(buffers, e.id - 1);
      FiledCat([b], rest, e.id);
      if b.author == e.author && b.tag == e.tag {
        FiledMore(b, n, e);
        var b' := b.(events := LastN(b.events + [e], n));
        FiledOne(b', e.id);
        FiledCat([b'], rest, e.id);
      } else {
        PushFiled(rest, n, e);
        FiledCat([b], PushEvent(rest, n, e), e.id);
      }
    }
  }

  lemma FiledEmpty(e: Event)
    requires e.id > 0
    ensures Filed(Buffer(e.author, e.tag, []), e.id - 1)
  {
  }

  lemma FiledOne(b: Buffer, lastId: nat)
    ensures AllFiled([b], lastId) <==> Filed(b, lastId)
  {
    assert [b][0] == b;
  }

  lemma {:induction false} DropFiled(b: Buffer, cutoff: int, lastId: nat)
    requires Filed(b, lastId)
    ensures Filed(b.(events := DropExpired(b.events, cutoff)), lastId)
    decreases |b.events|
  {
    if b.events != [] && b.events[0].ts < cutoff {
      DropFiled(b.(events := b.events[1..]), cutoff, lastId);
    }
  }

  lemma {:induction false} EvictFiled(buffers: seq<Buffer>, cutoff: int, lastId: nat)
    requires AllFiled(buffers, lastId)
    ensures AllFiled(EvictBuffers(buffers, cutoff), lastId)
  {
    if buffers != [] {
      hide AllFiled, Filed, DropExpired;
      var n := |buffers| - 1;
      assert buffers == buffers[..n] + [buffers[n]];
      FiledCat(buffers[..n], [buffers[n]], lastId);
      FiledOne(buffers[n], lastId);
      EvictFiled(buffers[..n], cutoff, lastId);
      DropFiled(buffers[n], cutoff, lastId);
      var b' := buffers[n].(events := DropExpired(buffers[n].events, cutoff));
      FiledOne(b', lastId);
      FiledCat(EvictBuffers(buffers[..n], cutoff), [b'], lastId);
    }
  }

  lemma {:induction false} RunFiled(ops: seq<Op>, n: nat, ttl: int)
    ensures AllFiled(MemRun(ops, n, ttl).buffers, MemRun(ops, n, ttl).lastId)
  {
    if ops != [] {
      var d, op := MemRun(ops[..|ops| - 1], n, ttl), ops[|ops| - 1];
      RunFiled(ops[..|ops| - 1], n, ttl);
      hide AllFiled, PushEvent, EvictBuffers;
      match op
      case Append(a, g, ts, c, s) => PushFiled(d.buffers, n, Event(d.lastId + 1, a, g, ts, c, s));
      case Evict(now) => EvictFiled(d.buffers, now - ttl, d.lastId);
    }
  }

  // ----- The order of an answer -----

  /** `x` is in an earlier deque than `y`, or before it in the same one. */
  ghost predicate StandsBefore(buffers: seq<Buffer>, x: Event, y: Event) {
    exists i, j :: 0 <= i <= j < |buffers| && x in buffers[i].events && y in buffers[j].events && (i < j || x.id < y.id)
  }

  ghost predicate InDequeOrder(buffers: seq<Buffer>, s: seq<Event>) {
    forall a, b :: 0 <= a < b < |s| ==> StandsBefore(buffers, s[a], s[b])
  }

  /** Newest first, and events of one time as they stand in the deques. */
  ghost predicate AnswerOrder(buffers: seq<Buffer>, s: seq<Event>) {
    forall a, b :: 0 <= a < b < |s| ==>
      s[a].ts > s[b].ts || (s[a].ts == s[b].ts && StandsBefore(buffers, s[a], s[b]))
  }

  lemma {:induction false} GatherOrder(buffers: seq<Buffer>, lastId: nat, m: nat, author: string, tag: Option<string>)
    requires m <= |buffers| && AllFiled(buffers, lastId)
    ensures InDequeOrder(buffers, Gather(buffers[..m], author, tag))
    decreases m
  {
    if m > 0 {
      hide Looks, StandsBefore, Gather;
      GatherSnoc(buffers, m - 1, author, tag);
      GatherOrder(buffers, lastId, m - 1, author, tag);
      var g, events := Gather(buffers[..m - 1], author, tag), buffers[m - 1].events;
      forall x, y | x in g && y in events ensures StandsBefore(buffers, x, y) {
        AcrossDeques(buffers, m - 1, author, tag, x, y);
      }
      forall a, b | 0 <= a < b < |events| ensures StandsBefore(buffers, events[a], events[b]) {
        WithinDeque(buffers, m - 1, lastId, a, b);
      }
    } else {
      assert buffers[..0] == [];
    }
  }

  lemma AcrossDeques(buffers: seq<Buffer>, m: nat, author: string, tag: Option<string>, x: Event, y: Event)
    requires m < |buffers| && x in Gather(buffers[..m], author, tag) && y in buffers[m].events
    ensures StandsBefore(buffers, x, y)
  {
    GatherFrom(buffers[..m], author, tag, x);
    var b :| b in buffers[..m] && Looks(b, author, tag) && x in b.events;
    var i :| 0 <= i < m && buffers[..m][i] == b;
    assert x in buffers[i].events;
  }

  lemma WithinDeque(buffers: seq<Buffer>, i: nat, lastId: nat, a: nat, b: nat)
    requires i < |buffers| && AllFiled(buffers, lastId) && a < b < |buffers[i].events|
    ensures StandsBefore(buffers, buffers[i].events[a], buffers[i].events[b])
  {
    assert Filed(buffers[i], lastId);
  }

  lemma {:induction false} SelectOrder(buffers: seq<Buffer>, s: seq<Event>, q: Query)
    requires InDequeOrder(buffers, s)
    ensures InDequeOrder(buffers, Select(s, q))
  {
    if s != [] {
      var n := |s| - 1;
      hide Matches, StandsBefore;
      SelectOrder(buffers, s[..n], q);
      forall x | x in Select(s[..n], q) ensures StandsBefore(buffers, x, s[n]) {
        SelectMember(s[..n], q, x);
        var a :| 0 <= a < n && s[..n][a] == x;
        assert s[a] == x;
      }
    }
  }

  lemma {:induction false} InsertOrder(buffers: seq<Buffer>, e: Event, s: seq<Event>)
    requires AnswerOrder(buffers, s) && forall x :: x in s ==> StandsBefore(buffers, x, e)
    ensures AnswerOrder(buffers, InsertStable(e, s))
  {
    hide StandsBefore;
    if s != [] && !(e.ts > s[0].ts) {
      InsertOrder(buffers, e, s[1..]);
      var r := InsertStable(e, s[1..]);
      forall b | 0 <= b < |r| ensures s[0].ts > r[b].ts || (s[0].ts == r[b].ts && StandsBefore(buffers, s[0], r[b])) {
        StableMember(e, s[1..], r[b]);
        if r[b] != e {
          var a :| 0 <= a < |s| - 1 && s[1..][a] == r[b];
          assert s[a + 1] == r[b];
        }
      }
    }
  }

  lemma {:induction false} SortOrder(buffers: seq<Buffer>, s: seq<Event>)
    requires InDequeOrder(buffers, s)
    ensures AnswerOrder(buffers, SortStable(s))
  {
    if s != [] {
      var n := |s| - 1;
      hide StandsBefore, AnswerOrder;
      SortOrder(buffers, s[..n]);
      forall x | x in SortStable(s[..n]) ensures StandsBefore(buffers, x, s[n]) {
        StableSame(s[..n], x);
        var a :| 0 <= a < n && s[..n][a] == x;
        assert s[a] == x;
      }
      InsertOrder(buffers, s[n], SortStable(s[..n]));
    } else {
      hide StandsBefore;
    }
  }

  lemma TakeOrder(buffers: seq<Buffer>, s: seq<Event>, n: nat)
    requires AnswerOrder(buffers, s)
    ensures AnswerOrder(buffers, Take(s, n))
    ensures forall x :: x in s && x !in Take(s, n) ==>
              |Take(s, n)| == n
              && forall y :: y in Take(s, n) ==> y.ts > x.ts || (y.ts == x.ts && StandsBefore(buffers, y, x))
  {
    hide StandsBefore;
    assert forall i :: 0 <= i < |Take(s, n)| ==> s[i] == Take(s, n)[i] && s[i] in Take(s, n);
    forall x | x in s && x !in Take(s, n)
      ensures |Take(s, n)| == n
              && forall y :: y in Take(s, n) ==> y.ts > x.ts || (y.ts == x.ts && StandsBefore(buffers, y, x))
    {
      var i :| 0 <= i < |s| && s[i] == x;
      assert i >= |Take(s, n)|;
    }
  }

  /** Under one key, standing before is having the smaller id; so no event stands before itself. */
  lemma StandingApart(buffers: seq<Buffer>, lastId: nat, x: Event, y: Event)
    requires AllFiled(buffers, lastId) && DistinctKeys(buffers) && StandsBefore(buffers, x, y)
    ensures x.author == y.author && x.tag == y.tag ==> x.id < y.id
  {
    var i, j :| 0 <= i <= j < |buffers| && x in buffers[i].events && y in buffers[j].events && (i < j || x.id < y.id);
    assert Filed(buffers[i], lastId) && Filed(buffers[j], lastId);
  }

  /** An event held by some deque. */
  ghost predicate Held(buffers: seq<Buffer>, e: Event) {
    exists i :: 0 <= i < |buffers| && e in buffers[i].events
  }

  lemma KeptIsHeld(buffers: seq<Buffer>, lastId: nat, author: string, tag: Option<string>, e: Event)
    requires AllFiled(buffers, lastId)
    ensures Kept(buffers, author, tag, e) <==>
              Held(buffers, e) && e.author == author && (tag.Some? ==> e.tag == tag)
  {
    if Kept(buffers, author, tag, e) {
      var b :| b in buffers && b.author == author && (tag.Some? ==> b.tag == tag) && e in b.events;
      var i :| 0 <= i < |buffers| && buffers[i] == b;
      assert Filed(buffers[i], lastId);
    }
    if Held(buffers, e) && e.author == author && (tag.Some? ==> e.tag == tag) {
      var i :| 0 <= i < |buffers| && e in buffers[i].events;
      assert Filed(buffers[i], lastId);
    }
  }

  /** Main result, exact: in every run the deque store answers events of the author, of the tag asked for, not
      expired and newer than `since`; it answers all of those that it holds, unless the limit is reached and the
      others come later in the order of the answer; and that order is newest first, and for one time the order of
      the deques, which under one key is the order of the appends. */
  lemma DequeAnswerExactly(ops: seq<Op>, n: nat, ttl: int, author: string, cutoff: int, since: Option<int>, limit: nat,
                           tag: Option<string>)
    ensures var held := MemRun(ops, n, ttl).buffers;
            var out := MemFetch(MemRun(ops, n, ttl), author, cutoff, since, limit, tag);
            && |out| <= limit
            && (forall x :: x in out ==>
                  && Held(held, x) && x.author == author && (tag.Some? ==> x.tag == tag)
                  && x.ts >= cutoff && (since.Some? ==> x.ts > since.value))
            && (forall x :: Held(held, x) && x.author == author && (tag.Some? ==> x.tag == tag)
                            && x.ts >= cutoff && (since.Some? ==> x.ts > since.value) && x !in out ==>
                  && |out| == limit
                  && forall y :: y in out ==> y.ts > x.ts || (y.ts == x.ts && StandsBefore(held, y, x)))
            && (forall i, j :: 0 <= i < j < |out| ==>
                  out[i].ts > out[j].ts || (out[i].ts == out[j].ts && StandsBefore(held, out[i], out[j])))
            && (forall i, j :: 0 <= i < j < |out| && out[i].ts == out[j].ts && out[i].tag == out[j].tag ==>
                  out[i].id < out[j].id)
  {
    var d := MemRun(ops, n, ttl);
    RunFiled(ops, n, ttl);
    MemRunKeys(ops, n, ttl);
    var all := Gather(d.buffers, author, tag);
    var found := Select(all, FreshQuery(cutoff, since));
    var out := MemFetch(d, author, cutoff, since, limit, tag);
    GatherOrder(d.buffers, d.lastId, |d.buffers|, author, tag);
    assert d.buffers[..|d.buffers|] == d.buffers;
    SelectOrder(d.buffers, all, FreshQuery(cutoff, since));
    SortOrder(d.buffers, found);
    TakeOrder(d.buffers, SortStable(found), limit);
    MemFetchIs(d, author, cutoff, since, limit, tag);
    forall x
      ensures x in SortStable(found) <==>
                Held(d.buffers, x) && x.author == author && (tag.Some? ==> x.tag == tag)
                && x.ts >= cutoff && (since.Some? ==> x.ts > since.value)
    {
      StableSame(found, x);
      SelectMember(all, FreshQuery(cutoff, since), x);
      GatherMember(d.buffers, author, tag, x);
      KeptIsHeld(d.buffers, d.lastId, author, tag, x);
    }
    hide Gather, Select, SortStable, Kept, Held, Matches, MemRun, StandsBefore, InDequeOrder, AllFiled, DistinctKeys;
    TakeSome(SortStable(found), limit);
    forall i, j | 0 <= i < j < |out| && out[i].ts == out[j].ts && out[i].tag == out[j].tag
      ensures out[i].id < out[j].id
    {
      assert out[i] in out && out[j] in out;
      StandingApart(d.buffers, d.lastId, out[i], out[j]);
    }
  }
}
