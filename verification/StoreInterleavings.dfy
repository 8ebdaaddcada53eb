/** Exactly when the relay's two event stores answer alike, over all interleavings with evictions. */
module StoreInterleavings {
  import opened Collections
  import opened EventStores
  import opened StoreRetention
  import opened StoreAgreement
  import opened StoreDifferences
  import opened Options

  /** The appends of a run, without its evictions. */
  function Erase(ops: seq<Op>): seq<Op> {
    if ops == [] then []
    else if ops[|ops| - 1].Append? then Erase(ops[..|ops| - 1]) + [ops[|ops| - 1]]
    else Erase(ops[..|ops| - 1])
  }

  /** However evictions interleave with the appends, after every such run both stores answer every fetch for
      the author (and tag) alike, for every buffer size, bound and limit. */
  ghost predicate AlwaysAlike(appends: seq<Op>, ttl: int, author: string, tag: Option<string>) {
    forall ops: seq<Op>, n: nat, cutoff: int, since: Option<int>, limit: nat | Erase(ops) <= appends ::
      Alike(ops, n, ttl, author, tag, cutoff, since, limit)
  }

  lemma {:induction false} ErasedAppends(ops: seq<Op>)
    ensures Appended(Erase(ops)) == Appended(ops)
  {
    if ops != [] {
      var n := |ops| - 1;
      ErasedAppends(ops[..n]);
      assert (Erase(ops[..n]) + [ops[n]])[..|Erase(ops[..n])|] == Erase(ops[..n]);
    }
  }

  lemma {:induction false} EraseCat(a: seq<Op>, b: seq<Op>)
    requires AppendsOnly(b)
    ensures Erase(a + b) == Erase(a) + b
  {
    if b == [] {
      assert a + b == a && Erase(a) + b == Erase(a);
    } else {
      var n := |b| - 1;
      EraseCat(a, b[..n]);
      assert (a + b)[..|a| + n] == a + b[..n] && (a + b)[|a| + n] == b[n];
      assert b == b[..n] + [b[n]];
    }
  }

  lemma EraseAppends(a: seq<Op>)
    requires AppendsOnly(a)
    ensures Erase(a) == a
  {
    EraseCat([], a);
    assert [] + a == a;
  }

  // ----- Sufficient -----

  lemma OrderlyAlways(appends: seq<Op>, ttl: int, author: string, tag: Option<string>)
    requires Orderly(Appended(appends), author, tag)
    ensures AlwaysAlike(appends, ttl, author, tag)
  {
    hide Appended, Alike, Orderly, Erase;
    forall ops: seq<Op>, n: nat, cutoff: int, since: Option<int>, limit: nat | Erase(ops) <= appends
      ensures Alike(ops, n, ttl, author, tag, cutoff, since, limit)
    {
      ErasedAppends(ops);
      AppendedGrows(appends, |Erase(ops)|);
      assert appends[..|Erase(ops)|] == Erase(ops);
      OrderlyFewer(Appended(ops), Appended(appends), author, tag);
      StoresAgree(ops, n, ttl, author, tag, cutoff, since, limit);
    }
  }

  // ----- An eviction that empties the deques -----

  /** The appends with one eviction before append `i`. */
  function Evicting(a: seq<Op>, i: nat, now: int): (ops: seq<Op>)
    requires i <= |a|
    ensures |ops| == |a| + 1
  {
    a[..i] + [Evict(now)] + a[i..]
  }

  lemma EvictingIs(a: seq<Op>, i: nat, now: int, k: nat)
    requires i <= k <= |a|
    ensures Evicting(a, i, now)[..k + 1] == a[..i] + [Evict(now)] + a[i..k]
    ensures Evicting(a[..k], i, now) == Evicting(a, i, now)[..k + 1]
    ensures Evicting(a, i, now)[..|a| + 1] == Evicting(a, i, now)
  {
    assert a[..k][..i] == a[..i] && a[..k][i..] == a[i..k];
  }

  lemma ErasedEvicting(a: seq<Op>, i: nat, now: int)
    requires i <= |a| && AppendsOnly(a)
    ensures Erase(Evicting(a, i, now)) == a
  {
    EraseAppends(a[..i]);
    assert (a[..i] + [Evict(now)])[..i] == a[..i];
    EraseCat(a[..i] + [Evict(now)], a[i..]);
    assert a[..i] + a[i..] == a;
  }

  /** The eviction gives no ids: every append creates the event it created without it. */
  lemma EvictingEvent(a: seq<Op>, i: nat, now: int, k: nat)
    requires i <= k < |a| && AppendsOnly(a)
    ensures Evicting(a, i, now)[k + 1] == a[k] && EventAt(Evicting(a, i, now), k + 1) == EventAt(a, k)
  {
    EvictingIs(a, i, now, k);
    ErasedEvicting(a[..k], i, now);
    ErasedAppends(Evicting(a, i, now)[..k + 1]);
  }

  function Latest(rows: seq<Event>): (t: int)
    ensures forall x :: x in rows ==> x.ts <= t
  {
    if rows == [] then 0
    else
      var t := Latest(rows[..|rows| - 1]);
      assert rows == rows[..|rows| - 1] + [rows[|rows| - 1]];
      if rows[|rows| - 1].ts > t then rows[|rows| - 1].ts else t
  }

  lemma {:induction false} DropAll(events: seq<Event>, cutoff: int)
    requires forall x :: x in events ==> x.ts < cutoff
    ensures DropExpired(events, cutoff) == []
  {
    if events != [] {
      DropAll(events[1..], cutoff);
    }
  }

  lemma {:induction false} EvictAll(buffers: seq<Buffer>, cutoff: int)
    requires forall i, x :: 0 <= i < |buffers| && x in buffers[i].events ==> x.ts < cutoff
    ensures EvictBuffers(buffers, cutoff) == []
  {
    if buffers != [] {
      EvictAll(buffers[..|buffers| - 1], cutoff);
      DropAll(buffers[|buffers| - 1].events, cutoff);
    }
  }

  /** A late enough eviction leaves no deque. */
  lemma Emptied(a: seq<Op>, n: nat, ttl: int, now: int)
    requires AppendsOnly(a) && now - ttl > Latest(Appended(a))
    ensures MemRun(a + [Evict(now)], n, ttl).buffers == []
  {
    hide Appended, MemRun, Latest, DistinctKeys, Select, BufferOf, LastN;
    var buffers := MemRun(a, n, ttl).buffers;
    assert (a + [Evict(now)])[..|a|] == a;
    EvictIs(a + [Evict(now)], n, ttl);
    MemRunKeys(a, n, ttl);
    forall i, x | 0 <= i < |buffers| && x in buffers[i].events ensures x.ts < now - ttl {
      BufferAt(buffers, i);
      DequeIs(a, n, ttl, buffers[i].author, buffers[i].tag);
      WasAppended(a, n, buffers[i].author, buffers[i].tag, x);
    }
    EvictAll(buffers, now - ttl);
  }

  lemma WasAppended(a: seq<Op>, n: nat, author: string, g: Option<string>, x: Event)
    requires x in LastN(Select(Appended(a), KeyQuery(author, g)), n)
    ensures x in Appended(a)
  {
    var s := Select(Appended(a), KeyQuery(author, g));
    assert x in s;
    SelectMember(Appended(a), KeyQuery(author, g), x);
  }

  // ----- What is appended after it -----

  /** The first deque is that of append `i`, and the deques hold everything appended from there to `k`. */
  ghost predicate Reopened(buffers: seq<Buffer>, a: seq<Op>, i: nat, k: nat)
    requires AppendsOnly(a) && i < k <= |a|
  {
    && buffers != [] && buffers[0].author == a[i].author && buffers[0].tag == a[i].tag
    && (forall j :: i <= j < k ==> EventAt(a, j) in BufferOf(buffers, a[j].author, a[j].tag))
    && (forall author, g :: |BufferOf(buffers, author, g)| <= k - i)
  }

  lemma PushKeepsAll(buffers: seq<Buffer>, n: nat, e: Event, m: nat, author: string, g: Option<string>)
    requires |BufferOf(buffers, author, g)| <= m < n
    ensures var now := BufferOf(PushEvent(buffers, n, e), author, g);
            && |now| <= m + 1
            && (forall x :: x in BufferOf(buffers, author, g) ==> x in now)
            && (author == e.author && g == e.tag ==> e in now)
  {
    PushBufferOf(buffers, n, e, author, g);
    hide BufferOf, PushEvent;
  }

  lemma PushFirst(buffers: seq<Buffer>, n: nat, e: Event)
    ensures var after := PushEvent(buffers, n, e);
            && after != []
            && (buffers == [] ==> after[0].author == e.author && after[0].tag == e.tag)
            && (buffers != [] ==> after[0].author == buffers[0].author && after[0].tag == buffers[0].tag)
  {
  }

  lemma ReopenedStep(buffers: seq<Buffer>, n: nat, a: seq<Op>, i: nat, k: nat)
    requires AppendsOnly(a) && i <= k < |a| <= n
    requires if i == k then buffers == [] else Reopened(buffers, a, i, k)
    ensures Reopened(PushEvent(buffers, n, EventAt(a, k)), a, i, k + 1)
  {
    var e := EventAt(a, k);
    PushFirst(buffers, n, e);
    hide PushEvent;
    forall author, g
      ensures |BufferOf(PushEvent(buffers, n, e), author, g)| <= k + 1 - i
      ensures forall x :: x in BufferOf(buffers, author, g) ==> x in BufferOf(PushEvent(buffers, n, e), author, g)
      ensures author == e.author && g == e.tag ==> e in BufferOf(PushEvent(buffers, n, e), author, g)
    {
      PushKeepsAll(buffers, n, e, k - i, author, g);
    }
  }

  lemma RunEvicting(a: seq<Op>, i: nat, k: nat, n: nat, ttl: int, now: int)
    requires AppendsOnly(a) && i <= k < |a|
    ensures MemRun(Evicting(a, i, now)[..k + 2], n, ttl).buffers
            == PushEvent(MemRun(Evicting(a, i, now)[..k + 1], n, ttl).buffers, n, EventAt(a, k))
  {
    var ops := Evicting(a, i, now);
    EvictingEvent(a, i, now, k);
    EventInPrefix(ops, k + 1);
    assert ops[..k + 2][..k + 1] == ops[..k + 1];
    hide MemRun, Appended, PushEvent, Evicting;
    MemAppendIs(ops[..k + 2], n, ttl);
  }

  lemma {:induction false} RunReopens(a: seq<Op>, i: nat, k: nat, n: nat, ttl: int, now: int)
    requires AppendsOnly(a) && i < k <= |a| <= n && now - ttl > Latest(Appended(a[..i]))
    ensures Reopened(MemRun(Evicting(a, i, now)[..k + 1], n, ttl).buffers, a, i, k)
  {
    hide Appended, MemRun, PushEvent, Reopened, Latest, Evicting;
    RunEvicting(a, i, k - 1, n, ttl, now);
    if k - 1 > i {
      RunReopens(a, i, k - 1, n, ttl, now);
    } else {
      EvictingIs(a, i, now, i);
      assert a[..i] + [Evict(now)] + a[i..i] == a[..i] + [Evict(now)];
      Emptied(a[..i], n, ttl, now);
    }
    ReopenedStep(MemRun(Evicting(a, i, now)[..k], n, ttl).buffers, n, a, i, k - 1);
  }

  lemma EventInPrefix(ops: seq<Op>, k: nat)
    requires k < |ops| && ops[k].Append?
    ensures EventAt(ops[..k + 1], k) == EventAt(ops, k)
  {
    assert ops[..k + 1][..k] == ops[..k];
  }

  lemma ReopenedTie(buffers: seq<Buffer>, a: seq<Op>, i: nat, j: nat)
    requires AppendsOnly(a) && i < j < |a| && Reopened(buffers, a, i, |a|)
    requires a[i].author == a[j].author && a[i].tag != a[j].tag
    ensures Precedes(Gather(buffers, a[i].author, None), EventAt(a, i), EventAt(a, j))
  {
    hide Gather;
    var x, y := EventAt(a, i), EventAt(a, j);
    assert x in BufferOf(buffers, a[i].author, a[i].tag) && y in BufferOf(buffers, a[j].author, a[j].tag);
    var h := HolderOf(buffers, y);
    GatherAcross(buffers, |buffers|, 0, h, a[i].author, None, x, y);
    assert buffers[..|buffers|] == buffers;
  }

  /** Two appends of one time under different tags, with everything before them evicted: the deque of the
      earlier one comes first, so the deque store shows it first. */
  lemma EvictedTieParts(a: seq<Op>, i: nat, j: nat, n: nat, ttl: int, now: int)
    requires AppendsOnly(a) && i < j < |a| <= n && now - ttl > Latest(Appended(a[..i]))
    requires a[i].author == a[j].author && a[i].tag != a[j].tag && a[i].ts == a[j].ts
    ensures exists limit: nat :: !Alike(Evicting(a, i, now), n, ttl, a[i].author, None, a[i].ts, None, limit)
  {
    hide Appended, MemRun, Latest, Evicting, Gather, Reopened, Alike, Precedes;
    var ops := Evicting(a, i, now);
    RunReopens(a, i, |a|, n, ttl, now);
    EvictingIs(a, i, now, |a|);
    IdBefore(a, i, j);
    ReopenedTie(MemRun(ops, n, ttl).buffers, a, i, j);
    TieParts(ops, n, ttl, a[i].author, None, EventAt(a, i), EventAt(a, j));
  }

  // ----- Necessary -----

  lemma CrossTieParts(a: seq<Op>, ttl: int, author: string, x: Event, y: Event)
    requires AppendsOnly(a) && x in Appended(a) && y in Appended(a) && x.id < y.id && x.ts == y.ts
    requires x.author == y.author == author && x.tag != y.tag
    ensures !AlwaysAlike(a, ttl, author, None)
  {
    assert a[..|a|] == a;
    hide Appended, Alike, Erase, Latest, Evicting;
    var i := WhichAppend(a, |a|, x);
    var j := WhichAppend(a, |a|, y);
    if j < i {
      IdBefore(a, j, i);
    }
    var now := ttl + Latest(Appended(a[..i])) + 1;
    EvictedTieParts(a, i, j, |a|, ttl, now);
    ErasedEvicting(a, i, now);
  }

  lemma AlongIsErased(a: seq<Op>, ttl: int, author: string, tag: Option<string>)
    requires AppendsOnly(a) && AlwaysAlike(a, ttl, author, tag)
    ensures AlikeAlong(a, ttl, author, tag)
  {
    hide Alike, Erase;
    forall m: nat, n: nat, cutoff: int, since: Option<int>, limit: nat | m <= |a|
      ensures Alike(a[..m], n, ttl, author, tag, cutoff, since, limit)
    {
      EraseAppends(a[..m]);
    }
  }

  lemma NotAligned(rows: seq<Event>, author: string, tag: Option<string>, x: Event, y: Event)
    requires x in rows && y in rows && SameKey(x, author, tag) && SameKey(y, author, tag)
    requires x.id < y.id && x.tag == y.tag && x.ts >= y.ts
    ensures !Aligned(rows, author, tag)
  {
    hide Opened;
    assert !AlignedPair(rows, author, x, y);
  }

  lemma DisorderParts(a: seq<Op>, ttl: int, author: string, tag: Option<string>)
    requires AppendsOnly(a) && !Orderly(Appended(a), author, tag)
    ensures !AlwaysAlike(a, ttl, author, tag)
  {
    hide Appended, AlikeAlong, AlwaysAlike, Opened, Aligned;
    var rows := Appended(a);
    var x, y :| x in rows && y in rows && SameKey(x, author, tag) && SameKey(y, author, tag) && x.id < y.id
                && !(x.ts != y.ts && (x.tag == y.tag ==> x.ts < y.ts));
    if x.tag == y.tag {
      NotAligned(rows, author, tag, x, y);
      UnalignedParts(a, ttl, author, tag);
      if AlwaysAlike(a, ttl, author, tag) {
        AlongIsErased(a, ttl, author, tag);
      }
    } else {
      CrossTieParts(a, ttl, author, x, y);
    }
  }

  /** Main result, exact: however appends and evictions interleave, the two stores answer every fetch for an
      author, with or without a tag, alike, for every buffer size, bound and limit, if and only if of the
      events appended that it looks at no two share a timestamp and under each tag timestamps rise. */
  lemma StoresAgreeExactly(appends: seq<Op>, ttl: int, author: string, tag: Option<string>)
    requires AppendsOnly(appends)
    ensures AlwaysAlike(appends, ttl, author, tag) <==> Orderly(Appended(appends), author, tag)
  {
    hide Appended, AlwaysAlike, Orderly;
    if Orderly(Appended(appends), author, tag) {
      OrderlyAlways(appends, ttl, author, tag);
    } else {
      DisorderParts(appends, ttl, author, tag);
    }
  }

  // ----- A concrete run -----

  lemma AppendedThree(z: Op, x: Op, y: Op)
    requires z.Append? && x.Append? && y.Append?
    ensures Appended([z, x, y]) == [RowOf(1, z), RowOf(2, x), RowOf(3, y)] && Appended([z]) == [RowOf(1, z)]
  {
    assert [z, x, y][..2] == [z, x] && [z, x][..1] == [z] && [z][..0] == [];
    assert Appended([z]) == [] + [RowOf(1, z)] == [RowOf(1, z)];
    assert Appended([z, x]) == [RowOf(1, z)] + [RowOf(2, x)];
    assert Appended([z, x, y]) == [RowOf(1, z), RowOf(2, x)] + [RowOf(3, y)];
  }

  /** Evictions matter: tag B is used first, so the two later events of one time are in the order in which
      append-only runs are answered alike; but an eviction deletes B's deque, and it is opened again after
      that of A. */
  lemma ReopenedDequeParts(z: Op, x: Op, y: Op, ttl: int, now: int)
    requires z.Append? && x.Append? && y.Append? && z.author == x.author == y.author
    requires z.tag == y.tag != x.tag && z.ts < x.ts == y.ts && 0 <= z.ts < now - ttl
    ensures Aligned(Appended([z, x, y]), z.author, None)
    ensures exists limit: nat :: !Alike([z, Evict(now), x, y], 3, ttl, z.author, None, x.ts, None, limit)
  {
    var a := [z, x, y];
    AppendedThree(z, x, y);
    assert a[..1] == [z] && a[1..] == [x, y] && [RowOf(1, z)][..0] == [];
    assert Latest([]) == 0;
    assert Latest([RowOf(1, z)]) == z.ts;
    assert Evicting(a, 1, now) == [z, Evict(now), x, y];
    OpenedOfThree(RowOf(1, z), RowOf(2, x), RowOf(3, y));
    hide Appended, Alike, Latest, Evicting, Opened;
    EvictedTieParts(a, 1, 2, 3, ttl, now);
  }

  lemma OpenedOfThree(z: Event, x: Event, y: Event)
    requires z.author == x.author == y.author && z.tag == y.tag != x.tag
    ensures Opened([z, x, y], z.author, y.tag) == z.id && Opened([z, x, y], z.author, x.tag) == x.id
  {
    var b, g := KeyQuery(z.author, y.tag), KeyQuery(z.author, x.tag);
    assert [] + [z] == [z] && [z] + [x] == [z, x] && [z, x] + [y] == [z, x, y];
    SelectSnoc([], z, b);
    SelectSnoc([z], x, b);
    SelectSnoc([z, x], y, b);
    SelectSnoc([], z, g);
    SelectSnoc([z], x, g);
    SelectSnoc([z, x], y, g);
  }
}
