/** When the relay's two event stores answer alike. */
module StoreAgreement {
  import opened Collections
  import opened EventStores
  import opened StoreRetention
  import opened Options

  // ----- The deque of a key -----

  ghost predicate DistinctKeys(buffers: seq<Buffer>) {
    forall i, j :: 0 <= i < j < |buffers| ==>
      !(buffers[i].author == buffers[j].author && buffers[i].tag == buffers[j].tag)
  }

  function Keys(buffers: seq<Buffer>): set<(string, Option<string>)> {
    set b | b in buffers :: (b.author, b.tag)
  }

  lemma KeysCons(b: Buffer, rest: seq<Buffer>)
    ensures Keys([b] + rest) == {(b.author, b.tag)} + Keys(rest)
  {
    forall k ensures k in Keys([b] + rest) <==> k == (b.author, b.tag) || k in Keys(rest) {
      if k in Keys(rest) {
        var x :| x in rest && (x.author, x.tag) == k;
        assert x in [b] + rest;
      }
      assert b in [b] + rest;
    }
  }

  lemma DistinctCons(b: Buffer, rest: seq<Buffer>)
    requires DistinctKeys(rest)
    ensures DistinctKeys([b] + rest) <==> (b.author, b.tag) !in Keys(rest)
  {
    var all := [b] + rest;
    if (b.author, b.tag) in Keys(rest) {
      var x :| x in rest && (x.author, x.tag) == (b.author, b.tag);
      var j :| 0 <= j < |rest| && rest[j] == x;
      assert all[j + 1] == x && all[0] == b;
    } else {
      forall j | 0 <= j < |rest| ensures !(rest[j].author == b.author && rest[j].tag == b.tag) {
        assert rest[j] in rest;
        assert (rest[j].author, rest[j].tag) in Keys(rest);
      }
    }
  }

  lemma KeysSnoc(front: seq<Buffer>, b: Buffer)
    ensures Keys(front + [b]) == Keys(front) + {(b.author, b.tag)}
  {
    forall k ensures k in Keys(front + [b]) <==> k == (b.author, b.tag) || k in Keys(front) {
      if k in Keys(front) {
        var x :| x in front && (x.author, x.tag) == k;
        assert x in front + [b];
      }
      assert b in front + [b];
    }
  }

  lemma DistinctSnoc(front: seq<Buffer>, b: Buffer)
    requires DistinctKeys(front)
    ensures DistinctKeys(front + [b]) <==> (b.author, b.tag) !in Keys(front)
  {
    var all := front + [b];
    if (b.author, b.tag) in Keys(front) {
      var x :| x in front && (x.author, x.tag) == (b.author, b.tag);
      var j :| 0 <= j < |front| && front[j] == x;
      assert all[j] == x && all[|front|] == b;
    } else {
      forall j | 0 <= j < |front| ensures !(front[j].author == b.author && front[j].tag == b.tag) {
        assert front[j] in front;
        assert (front[j].author, front[j].tag) in Keys(front);
      }
    }
  }

  lemma {:induction false} PushKeepsKeys(buffers: seq<Buffer>, n: nat, e: Event)
    requires DistinctKeys(buffers)
    ensures DistinctKeys(PushEvent(buffers, n, e))
    ensures Keys(PushEvent(buffers, n, e)) <= Keys(buffers) + {(e.author, e.tag)}
  {
    if buffers == [] {
      KeysCons(Buffer(e.author, e.tag, LastN([e], n)), []);
    } else {
      var b, tail := buffers[0], buffers[1..];
      assert buffers == [b] + tail;
      var c := b.(events := LastN(b.events + [e], n));
      hide Keys, LastN;
      assert DistinctKeys(tail);
      KeysCons(b, tail);
      DistinctCons(b, tail);
      if b.author == e.author && b.tag == e.tag {
        KeysCons(c, tail);
        DistinctCons(c, tail);
      } else {
        PushKeepsKeys(tail, n, e);
        KeysCons(b, PushEvent(tail, n, e));
        DistinctCons(b, PushEvent(tail, n, e));
      }
    }
  }

  lemma {:induction false} EvictKeepsKeys(buffers: seq<Buffer>, c: int)
    requires DistinctKeys(buffers)
    ensures DistinctKeys(EvictBuffers(buffers, c)) && Keys(EvictBuffers(buffers, c)) <= Keys(buffers)
  {
    if buffers != [] {
      var n := |buffers| - 1;
      var front, b := buffers[..n], buffers[n];
      var kept, left := EvictBuffers(front, c), DropExpired(b.events, c);
      assert buffers == front + [b];
      hide Keys, DropExpired;
      assert DistinctKeys(front);
      KeysSnoc(front, b);
      DistinctSnoc(front, b);
      EvictKeepsKeys(front, c);
      KeysSnoc(kept, b.(events := left));
      DistinctSnoc(kept, b.(events := left));
    }
  }

  lemma {:induction false} BufferOfSnoc(front: seq<Buffer>, b: Buffer, a: string, g: Option<string>)
    requires DistinctKeys(front + [b])
    ensures BufferOf(front + [b], a, g) == if b.author == a && b.tag == g then b.events else BufferOf(front, a, g)
  {
    if front != [] {
      assert (front + [b])[1..] == front[1..] + [b];
      BufferOfSnoc(front[1..], b, a, g);
      assert (front + [b])[0] == front[0] && (front + [b])[|front|] == b;
    }
  }

  lemma {:induction false} NoKeyNoBuffer(buffers: seq<Buffer>, a: string, g: Option<string>)
    requires (a, g) !in Keys(buffers)
    ensures BufferOf(buffers, a, g) == []
  {
    if buffers != [] {
      KeysCons(buffers[0], buffers[1..]);
      assert buffers == [buffers[0]] + buffers[1..];
      NoKeyNoBuffer(buffers[1..], a, g);
    }
  }

  /** Eviction shortens every deque from its old end. */
  lemma {:induction false} EvictBufferOf(buffers: seq<Buffer>, c: int, a: string, g: Option<string>)
    requires DistinctKeys(buffers)
    ensures BufferOf(EvictBuffers(buffers, c), a, g) == DropExpired(BufferOf(buffers, a, g), c)
  {
    if buffers != [] {
      var n := |buffers| - 1;
      var front, b := buffers[..n], buffers[n];
      var left := DropExpired(b.events, c);
      assert buffers == front + [b];
      EvictKeepsKeys(buffers, c);
      EvictBufferOf(front, c, a, g);
      BufferOfSnoc(front, b, a, g);
      hide Keys, BufferOf, DropExpired, DistinctKeys;
      if left != [] {
        BufferOfSnoc(EvictBuffers(front, c), b.(events := left), a, g);
      } else if b.author == a && b.tag == g {
        EvictedKey(front, b, c);
      }
    }
  }

  lemma EvictedKey(front: seq<Buffer>, b: Buffer, c: int)
    requires DistinctKeys(front + [b])
    ensures BufferOf(EvictBuffers(front, c), b.author, b.tag) == []
  {
    assert forall i :: 0 <= i < |front| ==> (front + [b])[i] == front[i];
    assert DistinctKeys(front);
    DistinctSnoc(front, b);
    hide Keys, BufferOf;
    EvictKeepsKeys(front, c);
    NoKeyNoBuffer(EvictBuffers(front, c), b.author, b.tag);
  }

  lemma {:induction false} MemRunKeys(ops: seq<Op>, n: nat, ttl: int)
    ensures DistinctKeys(MemRun(ops, n, ttl).buffers) && MemRun(ops, n, ttl).lastId == |Appended(ops)|
  {
    if ops != [] {
      var d, op := MemRun(ops[..|ops| - 1], n, ttl), ops[|ops| - 1];
      MemRunKeys(ops[..|ops| - 1], n, ttl);
      hide DistinctKeys, PushEvent, EvictBuffers;
      match op
      case Append(author, tag, ts, ciphertext, sig) =>
        PushKeepsKeys(d.buffers, n, Event(d.lastId + 1, author, tag, ts, ciphertext, sig));
      case Evict(now) => EvictKeepsKeys(d.buffers, now - ttl);
    }
  }

  // ----- Rising timestamps -----

  ghost predicate RisingTs(s: seq<Event>) {
    forall i, j :: 0 <= i < j < |s| ==> s[i].ts < s[j].ts && s[i].id < s[j].id
  }

  /** In rising rows exactly the later ones come before a row in answer order. */
  lemma RisingRank(rows: seq<Event>, q: Query, i: nat)
    requires RisingTs(Select(rows, q)) && i < |Select(rows, q)|
    ensures |Above(rows, q, Select(rows, q)[i])| == |Select(rows, q)| - 1 - i
  {
    var s := Select(rows, q);
    var later := s[i + 1..];
    assert DistinctIds(later);
    PrefixSize(later, |later|);
    assert later[..|later|] == later;
    forall x ensures x in Above(rows, q, s[i]) <==> x in later {
      SelectMember(rows, q, x);
      RisingLater(s, i, x);
    }
    assert Above(rows, q, s[i]) == Members(later);
  }

  lemma RisingLater(s: seq<Event>, i: nat, x: Event)
    requires RisingTs(s) && i < |s|
    ensures x in s[i + 1..] <==> x in s && Newer(x, s[i])
  {
    if x in s && Newer(x, s[i]) {
      var j :| 0 <= j < |s| && s[j] == x;
      assert j > i;
      assert s[i + 1..][j - i - 1] == x;
    }
    if x in s[i + 1..] {
      var j :| 0 <= j < |s| - i - 1 && s[i + 1..][j] == x;
      assert s[i + 1 + j] == x;
    }
  }

  /** Under rising timestamps, trimming in SQL keeps what the bounded deque keeps. */
  lemma TrimIsNewest(rows: seq<Event>, kept: seq<Event>, k: Query, n: nat)
    requires Ascending(rows) && Ascending(kept) && RisingTs(Select(rows, k)) && Keeps(rows, kept, k, n)
    ensures Select(kept, k) == LastN(Select(rows, k), n)
  {
    var s := Select(rows, k);
    var a, b := Select(kept, k), LastN(s, n);
    SelectAscending(kept, k);
    assert Ascending(b);
    hide Ascending, Keeps, RisingTs, Among, Matches, Select;
    forall x ensures x in a <==> x in b {
      SelectMember(kept, k, x);
      SelectMember(rows, k, x);
      KeepsMember(rows, kept, k, n, x);
      if x in s { NewestHas(rows, k, n, x); }
    }
    AscendingUnique(a, b);
  }

  lemma NewestHas(rows: seq<Event>, k: Query, n: nat, x: Event)
    requires RisingTs(Select(rows, k)) && x in Select(rows, k)
    ensures x in LastN(Select(rows, k), n) <==> Among(rows, k, n, x)
  {
    var s := Select(rows, k);
    SelectMember(rows, k, x);
    hide Select, Matches;
    var i :| 0 <= i < |s| && s[i] == x;
    RisingRank(rows, k, i);
    var r := LastN(s, n);
    if i >= |s| - |r| {
      assert r[i - (|s| - |r|)] == x;
    } else {
      forall y | y in r ensures y != x {
        var j :| 0 <= j < |r| && r[j] == y;
        assert y == s[j + (|s| - |r|)];
      }
    }
  }

  lemma {:induction false} SelectAscending(rows: seq<Event>, q: Query)
    requires Ascending(rows)
    ensures Ascending(Select(rows, q))
  {
    if rows != [] {
      var n := |rows| - 1;
      SelectAscending(rows[..n], q);
      forall e | e in Select(rows[..n], q) ensures e.id < rows[n].id {
        SelectMember(rows[..n], q, e);
      }
    }
  }

  lemma {:induction false} DropRising(s: seq<Event>, c: int)
    requires RisingTs(s)
    ensures RisingTs(DropExpired(s, c)) && forall x :: x in DropExpired(s, c) <==> x in s && x.ts >= c
  {
    if s != [] && s[0].ts < c {
      DropRising(s[1..], c);
      assert forall x :: x in s <==> x == s[0] || x in s[1..];
    }
  }

  // ----- Orderly timestamps -----

  predicate SameKey(x: Event, author: string, tag: Option<string>) {
    x.author == author && (tag.Some? ==> x.tag == tag)
  }

  /** Of what a fetch looks at no two events share a timestamp, and under one tag timestamps rise. */
  ghost predicate Orderly(rows: seq<Event>, author: string, tag: Option<string>) {
    forall x, y :: x in rows && y in rows && SameKey(x, author, tag) && SameKey(y, author, tag) && x.id < y.id ==>
      x.ts != y.ts && (x.tag == y.tag ==> x.ts < y.ts)
  }

  /** The timestamps of one key rise. */
  ghost predicate KeyRises(rows: seq<Event>, author: string, g: Option<string>) {
    forall x, y :: x in rows && y in rows && x.author == y.author == author && x.tag == y.tag == g && x.id < y.id ==>
      x.ts < y.ts
  }

  lemma OrderlyKey(rows: seq<Event>, author: string, tag: Option<string>, g: Option<string>)
    requires Orderly(rows, author, tag) && (tag.Some? ==> g == tag)
    ensures KeyRises(rows, author, g)
  {
  }

  lemma RisingKey(rows: seq<Event>, author: string, g: Option<string>)
    requires Ascending(rows) && KeyRises(rows, author, g)
    ensures RisingTs(Select(rows, KeyQuery(author, g)))
  {
    var k := KeyQuery(author, g);
    var s := Select(rows, k);
    SelectAscending(rows, k);
    hide Select;
    forall i, j | 0 <= i < j < |s| ensures s[i].ts < s[j].ts {
      SelectMember(rows, k, s[i]);
      SelectMember(rows, k, s[j]);
    }
  }

  lemma FewerRise(fewer: seq<Event>, rows: seq<Event>, author: string, g: Option<string>)
    requires KeyRises(rows, author, g) && Subset(fewer, rows)
    ensures KeyRises(fewer, author, g)
  {
  }

  lemma OrderlyFewer(fewer: seq<Event>, rows: seq<Event>, author: string, tag: Option<string>)
    requires Orderly(rows, author, tag) && Subset(fewer, rows)
    ensures Orderly(fewer, author, tag)
  {
  }

  // ----- The coupling of one key -----

  /** Both stores hold the same rows of the key, in the same order. */
  ghost predicate Coupled(d: Deques, t: Table, author: string, tag: Option<string>) {
    BufferOf(d.buffers, author, tag) == Select(t.rows, KeyQuery(author, tag))
  }

  lemma OtherKey(rows: seq<Event>, kept: seq<Event>, k: Query, n: nat, author: string, tag: Option<string>)
    requires Keeps(rows, kept, k, n) && Ascending(rows) && Ascending(kept)
    requires forall x :: !(Matches(k, x) && Matches(KeyQuery(author, tag), x))
    ensures Select(kept, KeyQuery(author, tag)) == Select(rows, KeyQuery(author, tag))
  {
    var q := KeyQuery(author, tag);
    SelectAscending(rows, q);
    SelectAscending(kept, q);
    hide Select, Ascending, Among, Keeps, Matches;
    forall x ensures x in Select(kept, q) <==> x in Select(rows, q) {
      SelectMember(rows, q, x);
      SelectMember(kept, q, x);
      KeepsMember(rows, kept, k, n, x);
    }
    AscendingUnique(Select(kept, q), Select(rows, q));
  }

  lemma SelectSnoc(rows: seq<Event>, e: Event, q: Query)
    ensures Select(rows + [e], q) == if Matches(q, e) then Select(rows, q) + [e] else Select(rows, q)
  {
    assert (rows + [e])[..|rows|] == rows;
  }

  lemma AppendCoupled(d: Deques, t: Table, n: nat, e: Event, kept: seq<Event>, author: string, tag: Option<string>)
    requires Coupled(d, t, author, tag) && Ascending(t.rows + [e]) && Ascending(kept)
    requires Keeps(t.rows + [e], kept, KeyQuery(e.author, e.tag), n)
    requires RisingTs(Select(t.rows + [e], KeyQuery(author, tag)))
    ensures BufferOf(PushEvent(d.buffers, n, e), author, tag) == Select(kept, KeyQuery(author, tag))
  {
    PushBufferOf(d.buffers, n, e, author, tag);
    SelectSnoc(t.rows, e, KeyQuery(author, tag));
    hide Select, PushEvent, BufferOf, Keeps, Ascending, RisingTs;
    if e.author == author && e.tag == tag {
      TrimIsNewest(t.rows + [e], kept, KeyQuery(author, tag), n);
    } else {
      OtherKey(t.rows + [e], kept, KeyQuery(e.author, e.tag), n, author, tag);
    }
  }

  lemma EvictCoupled(d: Deques, t: Table, c: int, author: string, tag: Option<string>)
    requires Coupled(d, t, author, tag) && TableOk(t) && DistinctKeys(d.buffers)
    requires RisingTs(Select(t.rows, KeyQuery(author, tag)))
    ensures Coupled(MemEvict(d, c), SqlEvict(t, c), author, tag)
  {
    var k := KeyQuery(author, tag);
    var s, left := Select(t.rows, k), Select(SqlEvict(t, c).rows, k);
    EvictBufferOf(d.buffers, c, author, tag);
    DropRising(s, c);
    EvictOk(t, c);
    SelectAscending(SqlEvict(t, c).rows, k);
    assert Ascending(DropExpired(s, c));
    hide Select, BufferOf, Ascending, RisingTs, DropExpired, SqlEvict, EvictBuffers, Matches;
    forall x ensures x in DropExpired(s, c) <==> x in left {
      SelectMember(t.rows, k, x);
      SelectMember(SqlEvict(t, c).rows, k, x);
    }
    AscendingUnique(DropExpired(s, c), left);
  }

  /** The coupling of a key holds after every run in which its timestamps rise. */
  lemma {:induction false} RunCoupled(ops: seq<Op>, n: nat, ttl: int, author: string, g: Option<string>)
    requires KeyRises(Appended(ops), author, g)
    ensures Coupled(MemRun(ops, n, ttl), SqlRun(ops, n, ttl), author, g)
  {
    if ops != [] {
      var m := |ops| - 1;
      hide MemStep, SqlStep, KeyRises, Coupled;
      AppendedGrows(ops, m);
      FewerRise(Appended(ops[..m]), Appended(ops), author, g);
      RunCoupled(ops[..m], n, ttl, author, g);
      StepCoupled(ops, n, ttl, author, g);
    }
  }

  lemma RisingRows(ops: seq<Op>, rows: seq<Event>, author: string, g: Option<string>)
    requires KeyRises(Appended(ops), author, g) && Subset(rows, Appended(ops)) && Ascending(rows)
    ensures RisingTs(Select(rows, KeyQuery(author, g)))
  {
    FewerRise(rows, Appended(ops), author, g);
    RisingKey(rows, author, g);
  }

  lemma StepCoupled(ops: seq<Op>, n: nat, ttl: int, author: string, g: Option<string>)
    requires ops != [] && KeyRises(Appended(ops), author, g)
    requires Coupled(MemRun(ops[..|ops| - 1], n, ttl), SqlRun(ops[..|ops| - 1], n, ttl), author, g)
    ensures Coupled(MemRun(ops, n, ttl), SqlRun(ops, n, ttl), author, g)
  {
    hide MemRun, SqlRun, KeyRises, Coupled, Appended;
    if ops[|ops| - 1].Append? {
      AppendStepCoupled(ops, n, ttl, author, g);
    } else {
      EvictStepCoupled(ops, n, ttl, author, g);
    }
  }

  lemma MemAppendIs(ops: seq<Op>, n: nat, ttl: int)
    requires ops != [] && ops[|ops| - 1].Append?
    ensures MemRun(ops, n, ttl).buffers
            == PushEvent(MemRun(ops[..|ops| - 1], n, ttl).buffers, n, EventAt(ops, |ops| - 1))
  {
    MemRunKeys(ops[..|ops| - 1], n, ttl);
    hide PushEvent, Appended;
  }

  lemma EvictIs(ops: seq<Op>, n: nat, ttl: int)
    requires ops != [] && ops[|ops| - 1].Evict?
    ensures MemRun(ops, n, ttl) == MemEvict(MemRun(ops[..|ops| - 1], n, ttl), ops[|ops| - 1].now - ttl)
    ensures SqlRun(ops, n, ttl) == SqlEvict(SqlRun(ops[..|ops| - 1], n, ttl), ops[|ops| - 1].now - ttl)
  {
    hide MemEvict, SqlEvict;
  }

  lemma AppendStepCoupled(ops: seq<Op>, n: nat, ttl: int, author: string, g: Option<string>)
    requires ops != [] && KeyRises(Appended(ops), author, g)
    requires Coupled(MemRun(ops[..|ops| - 1], n, ttl), SqlRun(ops[..|ops| - 1], n, ttl), author, g)
    requires ops[|ops| - 1].Append?
    ensures Coupled(MemRun(ops, n, ttl), SqlRun(ops, n, ttl), author, g)
  {
    hide MemRun, SqlRun, KeyRises, Coupled, Keeps, RisingTs, Subset, Appended, PushEvent, KeyQuery, Ascending;
    var m := |ops| - 1;
    var t, u, e := SqlRun(ops[..m], n, ttl), SqlRun(ops, n, ttl), EventAt(ops, m);
    assert ops[..m + 1] == ops;
    RunOk(ops, m, n, ttl);
    RowsSoFar(ops, n, ttl, m);
    SnocOk(t, e);
    AppendInRun(ops, n, ttl, m);
    RunOk(ops, m + 1, n, ttl);
    MemAppendIs(ops, n, ttl);
    RisingRows(ops, t.rows + [e], author, g);
    AppendCoupled(MemRun(ops[..m], n, ttl), t, n, e, u.rows, author, g);
    CoupledIs(MemRun(ops, n, ttl), u, author, g);
  }

  lemma EvictStepCoupled(ops: seq<Op>, n: nat, ttl: int, author: string, g: Option<string>)
    requires ops != [] && KeyRises(Appended(ops), author, g)
    requires Coupled(MemRun(ops[..|ops| - 1], n, ttl), SqlRun(ops[..|ops| - 1], n, ttl), author, g)
    requires ops[|ops| - 1].Evict?
    ensures Coupled(MemRun(ops, n, ttl), SqlRun(ops, n, ttl), author, g)
  {
    hide MemRun, SqlRun, KeyRises, Coupled, RisingTs, Subset, Appended, SqlEvict, MemEvict, DistinctKeys, KeyQuery,
         Ascending;
    var m := |ops| - 1;
    var d, t := MemRun(ops[..m], n, ttl), SqlRun(ops[..m], n, ttl);
    RunOk(ops, m, n, ttl);
    MemRunKeys(ops[..m], n, ttl);
    AppendedGrows(ops, m);
    SubsetOfMore(t.rows, Appended(ops[..m]), Appended(ops));
    RisingRows(ops, t.rows, author, g);
    EvictCoupled(d, t, ops[m].now - ttl, author, g);
    EvictIs(ops, n, ttl);
  }

  lemma SubsetOfMore(rows: seq<Event>, before: seq<Event>, all: seq<Event>)
    requires Subset(rows, before) && before <= all
    ensures Subset(rows, all)
  {
  }

  lemma CoupledIs(d: Deques, t: Table, author: string, tag: Option<string>)
    ensures Coupled(d, t, author, tag) <==> BufferOf(d.buffers, author, tag) == Select(t.rows, KeyQuery(author, tag))
  {
  }

  // ----- Equal answers -----

  /** Of two events with one timestamp the later one stands first. */
  ghost predicate TiesFall(s: seq<Event>) {
    forall i, j :: 0 <= i < j < |s| && s[i].ts == s[j].ts ==> s[i].id > s[j].id
  }

  lemma {:induction false} StableNewest(e: Event, s: seq<Event>)
    requires NewestFirst(s) && forall x :: x in s && x.ts == e.ts ==> x.id > e.id
    ensures NewestFirst(InsertStable(e, s))
  {
    if s != [] && !(e.ts > s[0].ts) {
      assert s[0] in s && Newer(s[0], e);
      StableNewest(e, s[1..]);
      var r := InsertStable(e, s[1..]);
      forall j | 0 <= j < |r| ensures Newer(s[0], r[j]) {
        StableMember(e, s[1..], r[j]);
      }
    }
  }

  /** If ties fall, the stable sort by timestamp is the order by timestamp and id. */
  lemma {:induction false} SortStableNewest(s: seq<Event>)
    requires TiesFall(s)
    ensures NewestFirst(SortStable(s))
  {
    if s != [] {
      var n := |s| - 1;
      SortStableNewest(s[..n]);
      forall x | x in SortStable(s[..n]) && x.ts == s[n].ts ensures x.id > s[n].id {
        StableSame(s[..n], x);
        var i :| 0 <= i < n && s[i] == x;
      }
      StableNewest(s[n], SortStable(s[..n]));
    }
  }

  lemma {:induction false} SelectTies(s: seq<Event>, q: Query)
    requires TiesFall(s)
    ensures TiesFall(Select(s, q))
  {
    if s != [] {
      var n := |s| - 1;
      SelectTies(s[..n], q);
      forall e | e in Select(s[..n], q) && e.ts == s[n].ts ensures e.id > s[n].id {
        SelectMember(s[..n], q, e);
        var i :| 0 <= i < n && s[i] == e;
      }
    }
  }

  lemma SameOrder(a: seq<Event>, b: seq<Event>)
    requires TiesFall(a) && DistinctIds(b) && forall x :: x in a <==> x in b
    ensures SortStable(a) == SortNewest(b)
  {
    SortStableNewest(a);
    SortIsSorted(b);
    SortDistinct(b);
    SortedIsNewestFirst(SortNewest(b));
    hide SortStable, SortNewest, TiesFall, DistinctIds, Sorted, NewestFirst;
    forall x ensures x in SortStable(a) <==> x in SortNewest(b) {
      StableSame(a, x);
      SortMember(b, x);
    }
    NewestFirstUnique(SortStable(a), SortNewest(b));
  }

  lemma {:induction false} BufferAt(buffers: seq<Buffer>, i: nat)
    requires DistinctKeys(buffers) && i < |buffers|
    ensures BufferOf(buffers, buffers[i].author, buffers[i].tag) == buffers[i].events
  {
    if i > 0 {
      assert buffers[1..][i - 1] == buffers[i];
      BufferAt(buffers[1..], i - 1);
    }
  }

  /** Every deque a fetch looks at holds the rows of its key, with rising timestamps. */
  ghost predicate AllCoupled(d: Deques, t: Table, author: string, tag: Option<string>) {
    forall g: Option<string> :: (tag.Some? ==> g == tag) ==> Coupled(d, t, author, g) && KeyRises(t.rows, author, g)
  }

  /** Of two events with one timestamp in two deques, the later one lies in the earlier deque. */
  ghost predicate TiesAcross(buffers: seq<Buffer>, author: string, tag: Option<string>) {
    forall i, j :: 0 <= i < j < |buffers| && Looks(buffers[i], author, tag) && Looks(buffers[j], author, tag) ==>
      TiesBetween(buffers[i].events, buffers[j].events)
  }

  ghost predicate TiesBetween(a: seq<Event>, b: seq<Event>) {
    forall x, y :: x in a && y in b && x.ts == y.ts ==> x.id > y.id
  }

  /** What a deque of the author holds are rows of its key, without ties. */
  lemma DequeRows(d: Deques, t: Table, i: nat, author: string, tag: Option<string>)
    requires i < |d.buffers| && DistinctKeys(d.buffers) && AllCoupled(d, t, author, tag) && Ascending(t.rows)
    requires Looks(d.buffers[i], author, tag)
    ensures TiesFall(d.buffers[i].events)
    ensures forall x :: x in d.buffers[i].events ==>
              x in t.rows && SameKey(x, author, tag) && x.tag == d.buffers[i].tag
  {
    var b := d.buffers[i];
    assert Coupled(d, t, author, b.tag) && KeyRises(t.rows, author, b.tag);
    BufferAt(d.buffers, i);
    RisingKey(t.rows, author, b.tag);
    hide Select, AllCoupled, BufferOf, Ascending, KeyRises;
    forall x | x in b.events ensures x in t.rows && SameKey(x, author, tag) && x.tag == b.tag {
      SelectMember(t.rows, KeyQuery(author, b.tag), x);
    }
  }

  lemma TiesCat(a: seq<Event>, b: seq<Event>)
    requires TiesFall(a) && TiesFall(b) && TiesBetween(a, b)
    ensures TiesFall(a + b)
  {
  }

  /** What a fetch gathers from the first deques. */
  lemma {:induction false} GatherTies(d: Deques, t: Table, m: nat, author: string, tag: Option<string>)
    requires m <= |d.buffers| && DistinctKeys(d.buffers) && AllCoupled(d, t, author, tag) && Ascending(t.rows)
    requires TiesAcross(d.buffers, author, tag)
    ensures TiesFall(Gather(d.buffers[..m], author, tag))
    ensures forall x :: x in Gather(d.buffers[..m], author, tag) ==>
              exists h :: 0 <= h < m && Looks(d.buffers[h], author, tag) && x in d.buffers[h].events
  {
    if m > 0 {
      hide AllCoupled, DistinctKeys, Ascending, TiesFall, TiesBetween, Looks;
      GatherTies(d, t, m - 1, author, tag);
      GatherSnoc(d.buffers, m - 1, author, tag);
      var b, before := d.buffers[m - 1], Gather(d.buffers[..m - 1], author, tag);
      if Looks(b, author, tag) {
        DequeRows(d, t, m - 1, author, tag);
        TiesBefore(d.buffers, m - 1, author, tag, before);
        TiesCat(before, b.events);
      }
    }
  }

  lemma TiesBefore(buffers: seq<Buffer>, m: nat, author: string, tag: Option<string>, before: seq<Event>)
    requires m < |buffers| && TiesAcross(buffers, author, tag) && Looks(buffers[m], author, tag)
    requires forall x :: x in before ==>
               exists h :: 0 <= h < m && Looks(buffers[h], author, tag) && x in buffers[h].events
    ensures TiesBetween(before, buffers[m].events)
  {
    forall x, y | x in before && y in buffers[m].events && x.ts == y.ts ensures x.id > y.id {
      var h :| 0 <= h < m && Looks(buffers[h], author, tag) && x in buffers[h].events;
      assert TiesBetween(buffers[h].events, buffers[m].events);
    }
  }

  lemma {:induction false} HolderOf(buffers: seq<Buffer>, e: Event) returns (i: nat)
    requires e in BufferOf(buffers, e.author, e.tag)
    ensures i < |buffers| && buffers[i].author == e.author && buffers[i].tag == e.tag && e in buffers[i].events
  {
    if buffers[0].author == e.author && buffers[0].tag == e.tag {
      i := 0;
    } else {
      var j := HolderOf(buffers[1..], e);
      i := j + 1;
    }
  }

  lemma GatherIs(d: Deques, t: Table, author: string, tag: Option<string>)
    requires DistinctKeys(d.buffers) && AllCoupled(d, t, author, tag) && Ascending(t.rows)
    requires TiesAcross(d.buffers, author, tag)
    ensures var s := Gather(d.buffers, author, tag);
            TiesFall(s) && forall x :: x in s <==> x in t.rows && SameKey(x, author, tag)
  {
    GatherTies(d, t, |d.buffers|, author, tag);
    assert d.buffers[..|d.buffers|] == d.buffers;
    hide Gather, Select, TiesFall, TiesAcross, BufferOf, DistinctKeys, Ascending, KeyRises, AllCoupled;
    forall x ensures x in Gather(d.buffers, author, tag) <==> x in t.rows && SameKey(x, author, tag) {
      if x in Gather(d.buffers, author, tag) {
        var h :| 0 <= h < |d.buffers| && Looks(d.buffers[h], author, tag) && x in d.buffers[h].events;
        DequeRows(d, t, h, author, tag);
      }
      if x in t.rows && SameKey(x, author, tag) {
        CoupledRow(d, t, author, tag, x);
        var i := HolderOf(d.buffers, x);
        GatherHas(d.buffers, i, author, tag, x);
      }
    }
  }

  lemma CoupledRow(d: Deques, t: Table, author: string, tag: Option<string>, x: Event)
    requires AllCoupled(d, t, author, tag) && x in t.rows && SameKey(x, author, tag)
    ensures x in BufferOf(d.buffers, x.author, x.tag)
  {
    hide BufferOf, Select, KeyRises;
    assert Coupled(d, t, author, x.tag);
    SelectMember(t.rows, KeyQuery(author, x.tag), x);
  }

  /** Coupled stores answer alike. */
  lemma CoupledFetch(d: Deques, t: Table, author: string, cutoff: int, since: Option<int>, limit: nat,
                     tag: Option<string>)
    requires DistinctKeys(d.buffers) && AllCoupled(d, t, author, tag) && Ascending(t.rows)
    requires TiesAcross(d.buffers, author, tag)
    ensures MemFetch(d, author, cutoff, since, limit, tag) == SqlFetch(t, author, cutoff, since, limit, tag)
  {
    var q, f := FreshQuery(cutoff, since), FetchQuery(author, tag, cutoff, since);
    var all := Gather(d.buffers, author, tag);
    GatherIs(d, t, author, tag);
    SelectTies(all, q);
    AscendingIsDistinct(t.rows);
    SelectDistinct(t.rows, f);
    hide SortStable, SortNewest, Gather, Select, TiesFall, TiesAcross, DistinctIds, Ascending, AllCoupled,
         DistinctKeys;
    forall x ensures x in Select(all, q) <==> x in Select(t.rows, f) {
      SelectMember(all, q, x);
      SelectMember(t.rows, f, x);
    }
    SameOrder(Select(all, q), Select(t.rows, f));
  }

  /** After the run both stores give the same answer to the fetch. */
  ghost predicate Alike(ops: seq<Op>, n: nat, ttl: int, author: string, tag: Option<string>, cutoff: int,
                        since: Option<int>, limit: nat) {
    MemFetch(MemRun(ops, n, ttl), author, cutoff, since, limit, tag)
    == SqlFetch(SqlRun(ops, n, ttl), author, cutoff, since, limit, tag)
  }

  lemma RunsAllCoupled(ops: seq<Op>, n: nat, ttl: int, author: string, tag: Option<string>)
    requires forall g: Option<string> :: (tag.Some? ==> g == tag) ==> KeyRises(Appended(ops), author, g)
    ensures var d, t := MemRun(ops, n, ttl), SqlRun(ops, n, ttl);
            && DistinctKeys(d.buffers) && AllCoupled(d, t, author, tag) && Ascending(t.rows)
            && Subset(t.rows, Appended(ops))
  {
    var d, t := MemRun(ops, n, ttl), SqlRun(ops, n, ttl);
    assert ops[..|ops|] == ops;
    RunOk(ops, |ops|, n, ttl);
    MemRunKeys(ops, n, ttl);
    hide MemRun, SqlRun, Coupled, KeyRises, Appended, DistinctKeys, Ascending, Subset;
    forall g: Option<string> | tag.Some? ==> g == tag ensures Coupled(d, t, author, g) && KeyRises(t.rows, author, g) {
      RunCoupled(ops, n, ttl, author, g);
      FewerRise(t.rows, Appended(ops), author, g);
    }
  }

  lemma OrderlyAcross(d: Deques, t: Table, author: string, tag: Option<string>)
    requires DistinctKeys(d.buffers) && AllCoupled(d, t, author, tag) && Ascending(t.rows)
    requires Orderly(t.rows, author, tag)
    ensures TiesAcross(d.buffers, author, tag)
  {
    hide AllCoupled, Ascending, Orderly, TiesFall;
    forall i, j | 0 <= i < j < |d.buffers| && Looks(d.buffers[i], author, tag) && Looks(d.buffers[j], author, tag)
      ensures TiesBetween(d.buffers[i].events, d.buffers[j].events)
    {
      DequeRows(d, t, i, author, tag);
      DequeRows(d, t, j, author, tag);
      forall x, y | x in d.buffers[i].events && y in d.buffers[j].events ensures x.ts != y.ts {
        OrderlyApart(t.rows, author, tag, x, y);
      }
    }
  }

  lemma OrderlyApart(rows: seq<Event>, author: string, tag: Option<string>, x: Event, y: Event)
    requires Orderly(rows, author, tag) && Ascending(rows) && x in rows && y in rows && x != y
    requires SameKey(x, author, tag) && SameKey(y, author, tag)
    ensures x.ts != y.ts
  {
  }

  /** Main result: if of everything appended that a fetch looks at no two events share a timestamp, and
      under each tag timestamps rise, then the two stores answer it alike after every interleaving of
      appends and evictions, at any time. */
  lemma StoresAgree(ops: seq<Op>, n: nat, ttl: int, author: string, tag: Option<string>, cutoff: int,
                    since: Option<int>, limit: nat)
    requires Orderly(Appended(ops), author, tag)
    ensures Alike(ops, n, ttl, author, tag, cutoff, since, limit)
  {
    var d, t := MemRun(ops, n, ttl), SqlRun(ops, n, ttl);
    hide MemRun, SqlRun, KeyRises, Orderly, Appended, MemFetch, SqlFetch, DistinctKeys, AllCoupled, Ascending, Subset,
         TiesAcross;
    forall g: Option<string> | tag.Some? ==> g == tag ensures KeyRises(Appended(ops), author, g) {
      OrderlyKey(Appended(ops), author, tag, g);
    }
    RunsAllCoupled(ops, n, ttl, author, tag);
    OrderlyFewer(t.rows, Appended(ops), author, tag);
    OrderlyAcross(d, t, author, tag);
    CoupledFetch(d, t, author, cutoff, since, limit, tag);
  }

  /** Both stores always hand out the same ids. */
  lemma SameIds(ops: seq<Op>, n: nat, ttl: int)
    ensures MemRun(ops, n, ttl).lastId == SqlRun(ops, n, ttl).lastId == |Appended(ops)|
  {
    assert ops[..|ops|] == ops;
    RunOk(ops, |ops|, n, ttl);
    MemRunKeys(ops, n, ttl);
  }
}
