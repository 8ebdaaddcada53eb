/** That the durable sender does send: what one round, a failed one and a whole drain do to the outbox. */
module SenderProgress {
  import opened Collections
  import opened Options
  import opened UploadQueue
  import opened DurableSender

  const ROUND := [Peek, SendOk, DeleteSent, CountSent]

  function Rounds(n: nat): seq<Action> {
    if n == 0 then [] else ROUND + Rounds(n - 1)
  }

  lemma {:induction false} RunCat(s: State, maxItems: nat, url: string, a: seq<Action>, b: seq<Action>)
    ensures Run(s, maxItems, url, a + b) == Run(Run(s, maxItems, url, a), maxItems, url, b)
  {
    hide Apply;
    if b == [] {
      assert a + b == a;
    } else {
      var n := |b| - 1;
      assert (a + b)[..|a| + n] == a + b[..n];
      RunCat(s, maxItems, url, a, b[..n]);
    }
  }

  lemma RunOne(s: State, maxItems: nat, url: string, a: Action)
    ensures Run(s, maxItems, url, [a]) == Apply(s, maxItems, url, a)
  {
    assert [a][..0] == [];
    assert Run(s, maxItems, url, [a][..0]) == s;
  }

  lemma RunFour(s: State, maxItems: nat, url: string, a: Action, b: Action, c: Action, d: Action)
    ensures var t := Apply(Apply(s, maxItems, url, a), maxItems, url, b);
            Run(s, maxItems, url, [a, b, c, d]) == Apply(Apply(t, maxItems, url, c), maxItems, url, d)
  {
    hide Run, Apply;
    var t := Run(s, maxItems, url, [a]);
    RunOne(s, maxItems, url, a);
    RunCat(s, maxItems, url, [a], [b]);
    RunOne(t, maxItems, url, b);
    RunCat(s, maxItems, url, [a] + [b], [c]);
    RunOne(Apply(t, maxItems, url, b), maxItems, url, c);
    RunCat(s, maxItems, url, [a] + [b] + [c], [d]);
    RunOne(Apply(Apply(t, maxItems, url, b), maxItems, url, c), maxItems, url, d);
    assert [a] + [b] + [c] + [d] == [a, b, c, d];
  }

  /** The oldest row of a target. */
  ghost predicate Oldest(rows: seq<Item>, url: string, x: Item) {
    && x in rows && x.target == Some(url)
    && forall y :: y in rows && y.target == Some(url) ==> x.id <= y.id
  }

  lemma HeadIsOldest(t: Table, url: string)
    requires Valid(t)
    ensures var m := Matching(t.rows, Some(url));
            && (m == [] <==> forall y :: y in t.rows ==> y.target != Some(url))
            && (m != [] ==> Oldest(t.rows, url, m[0]))
    ensures forall x, y :: Oldest(t.rows, url, x) && Oldest(t.rows, url, y) ==> x == y
  {
    var m := Matching(t.rows, Some(url));
    MatchingRises(t, Some(url));
    forall y ensures y in m <==> y in t.rows && y.target == Some(url) {
      MatchingMembers(t.rows, Some(url), y);
    }
    SameIdSameRow(t);
    hide Matching, Valid;
    if m != [] {
      assert m[0] in m;
      forall y | y in t.rows && y.target == Some(url) ensures m[0].id <= y.id {
        var i :| 0 <= i < |m| && m[i] == y;
      }
    } else {
      assert forall y :: y !in m;
    }
  }

  lemma SameIdSameRow(t: Table)
    requires Valid(t)
    ensures forall x, y :: x in t.rows && y in t.rows && x.id == y.id ==> x == y
  {
  }

  /** Main result, one round: a connected idle sender sends the oldest row of its target, removes that row and no
      other, and counts it; if it has none, nothing changes. */
  lemma RoundSendsOldest(s: State, maxItems: nat, url: string)
    requires Valid(s.table) && s.pc == Idle && s.connected
    ensures var t := Run(s, maxItems, url, ROUND);
            && ((forall x :: x in s.table.rows ==> x.target != Some(url)) ==> t == s)
            && forall x :: Oldest(s.table.rows, url, x) ==>
                 && t.completed == s.completed + [x] && t.framesSent == s.framesSent + 1
                 && t.pc == Idle && t.connected && Valid(t.table) && t.table.lastId == s.table.lastId
                 && (forall y :: y in t.table.rows <==> y in s.table.rows && y != x)
                 && t.lastUploaded == (if x.frameTs.Some?
                                          && (s.lastUploaded.None? || s.lastUploaded.value < x.frameTs.value)
                                       then x.frameTs else s.lastUploaded)
  {
    HeadIsOldest(s.table, url);
    RunFour(s, maxItems, url, Peek, SendOk, DeleteSent, CountSent);
    SameIdSameRow(s.table);
    RoundIs(s, maxItems, url);
    hide Run, Apply, Matching, Valid, Without;
    var m := Matching(s.table.rows, Some(url));
    if m != [] {
      forall y ensures y in Without(s.table.rows, m[0].id) <==> y in s.table.rows && y.id != m[0].id {
        WithoutMember(s.table.rows, m[0].id, y);
      }
    }
  }

  lemma RoundIs(s: State, maxItems: nat, url: string)
    requires Valid(s.table) && s.pc == Idle && s.connected
    ensures var t := Apply(Apply(s, maxItems, url, Peek), maxItems, url, SendOk);
            var u := Apply(Apply(t, maxItems, url, DeleteSent), maxItems, url, CountSent);
            var m := Matching(s.table.rows, Some(url));
            if m == [] then u == s
            else && u == State(Table(Without(s.table.rows, m[0].id), s.table.lastId), Idle, true, s.framesSent + 1,
                               Later(s.lastUploaded, m[0].frameTs), s.completed + [m[0]])
                 && Valid(u.table)
  {
    var m := Matching(s.table.rows, Some(url));
    hide Matching, Valid, Without;
    if m != [] {
      var t := Apply(s, maxItems, url, Peek);
      assert t == s.(pc := Holding(m[0]));
      WithoutValid(s.table, m[0].id);
    }
  }

  /** A row that is removed from its head leaves the rest of the matches. */
  lemma {:induction false} MatchingWithout(t: Table, url: string, k: nat)
    requires Valid(t) && Matching(t.rows, Some(url)) != [] && k == Matching(t.rows, Some(url))[0].id
    ensures Matching(Without(t.rows, k), Some(url)) == Matching(t.rows, Some(url))[1..]
    decreases |t.rows|
  {
    var rest := t.(rows := t.rows[1..]);
    if t.rows[0].target == Some(url) {
      assert forall y :: y in rest.rows ==> y.id != k;
      NothingWithout(rest.rows, k);
    } else {
      MatchingMembers(rest.rows, Some(url), Matching(rest.rows, Some(url))[0]);
      MatchingWithout(rest, url, k);
    }
  }

  lemma {:induction false} NothingWithout(rows: seq<Item>, k: nat)
    requires forall y :: y in rows ==> y.id != k
    ensures Without(rows, k) == rows
  {
    if rows != [] { NothingWithout(rows[1..], k); }
  }

  /** Main result, progress: as many rounds as there are rows of the target send all of them, in the order of their
      ids, and leave exactly the rows of other targets. */
  lemma {:induction false} DrainSendsAll(s: State, maxItems: nat, url: string)
    requires Valid(s.table) && s.pc == Idle && s.connected
    ensures var waiting := Matching(s.table.rows, Some(url));
            var t := Run(s, maxItems, url, Rounds(|waiting|));
            && t.completed == s.completed + waiting && t.framesSent == s.framesSent + |waiting|
            && t.pc == Idle && t.connected
            && forall y :: y in t.table.rows <==> y in s.table.rows && y.target != Some(url)
    decreases |Matching(s.table.rows, Some(url))|
  {
    hide *;
    var waiting := Matching(s.table.rows, Some(url));
    HeadIsOldest(s.table, url);
    if waiting != [] {
      var t := Run(s, maxItems, url, ROUND);
      var n := |waiting| - 1;
      RoundTakesHead(s, maxItems, url);
      RoundsMore(n);
      RunCat(s, maxItems, url, ROUND, Rounds(n));
      DrainSendsAll(t, maxItems, url);
      assert waiting == [waiting[0]] + waiting[1..];
    } else {
      NoRounds(s, maxItems, url);
    }
  }

  lemma NoRounds(s: State, maxItems: nat, url: string)
    ensures Run(s, maxItems, url, Rounds(0)) == s
  {
  }

  lemma RoundTakesHead(s: State, maxItems: nat, url: string)
    requires Valid(s.table) && s.pc == Idle && s.connected && Matching(s.table.rows, Some(url)) != []
    ensures var waiting, t := Matching(s.table.rows, Some(url)), Run(s, maxItems, url, ROUND);
            && Valid(t.table) && t.pc == Idle && t.connected && Matching(t.table.rows, Some(url)) == waiting[1..]
            && t.completed == s.completed + [waiting[0]] && t.framesSent == s.framesSent + 1
            && waiting[0].target == Some(url)
            && forall y :: y in t.table.rows <==> y in s.table.rows && y != waiting[0]
  {
    HeadIsOldest(s.table, url);
    RoundSendsOldest(s, maxItems, url);
    RoundIs(s, maxItems, url);
    RunFour(s, maxItems, url, Peek, SendOk, DeleteSent, CountSent);
    MatchingWithout(s.table, url, Matching(s.table.rows, Some(url))[0].id);
    hide Run, Apply, Matching, Valid, Without, Later;
  }

  lemma RoundsMore(n: nat)
    ensures Rounds(n + 1) == ROUND + Rounds(n)
  {
  }

  /** A failed send notes one more attempt and the error in the row of the item in hand, if that is still there, and
      in no other; the item stays in hand, and no send can complete until the connection is back. */
  lemma FailedSendIsRetried(s: State, maxItems: nat, url: string, error: string)
    requires s.pc.Holding? && s.connected
    ensures var x, t := s.pc.item, Run(s, maxItems, url, [SendFail(error)]);
            && t.pc == s.pc && !t.connected && t.completed == s.completed && t.framesSent == s.framesSent
            && |t.table.rows| == |s.table.rows|
            && (forall i :: 0 <= i < |s.table.rows| ==>
                  var row := s.table.rows[i];
                  t.table.rows[i] == if row.id != x.id then row
                                     else row.(attempts := row.attempts + 1,
                                               lastError := if |error| > 500 then error[..500] else error))
            && Run(t, maxItems, url, [SendOk]) == t
            && Run(t, maxItems, url, [Connect, SendOk]).completed == s.completed + [x]
  {
    RunOne(s, maxItems, url, SendFail(error));
    MarkedSame(s.table.rows, s.pc.item.id, error);
    var t := Run(s, maxItems, url, [SendFail(error)]);
    RunOne(t, maxItems, url, SendOk);
    RunOne(t, maxItems, url, Connect);
    RunCat(t, maxItems, url, [Connect], [SendOk]);
    RunOne(t.(connected := true), maxItems, url, SendOk);
    assert [Connect] + [SendOk] == [Connect, SendOk];
    hide Run, Marked;
  }

  /** A sender that lost its connection takes nothing in hand and completes nothing. */
  lemma DisconnectedWaits(s: State, maxItems: nat, url: string)
    ensures var t := Run(s, maxItems, url, [Disconnect]);
            t == s.(connected := false) && Run(t, maxItems, url, [Peek]) == t && Run(t, maxItems, url, [SendOk]) == t
  {
    RunOne(s, maxItems, url, Disconnect);
    RunOne(s.(connected := false), maxItems, url, Peek);
    RunOne(s.(connected := false), maxItems, url, SendOk);
    hide Run;
  }
}
