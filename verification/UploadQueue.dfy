/** The durable upload outbox: an SQL table of payloads with a bound on its size. */
module UploadQueue {
  import opened Collections
  import opened Options

  datatype Item = Item(id: nat, kind: string, payload: string, frameTs: Option<int>, target: Option<string>,
                       attempts: nat, lastError: string)

  /** Rows in id order; ids come from AUTOINCREMENT and are never reused. */
  datatype Table = Table(rows: seq<Item>, lastId: nat)

  ghost predicate Valid(t: Table) {
    && (forall i :: 0 <= i < |t.rows| ==> 0 < t.rows[i].id <= t.lastId)
    && (forall i, j :: 0 <= i < j < |t.rows| ==> t.rows[i].id < t.rows[j].id)
  }

  function Appended(t: Table, maxItems: nat, kind: string, payload: string, frameTs: Option<int>,
                    target: Option<string>): Table {
    if maxItems == 0 then t else
      Table(LastN(t.rows + [Item(t.lastId + 1, kind, payload, frameTs, target, 0, "")], maxItems), t.lastId + 1)
  }

  function Matching(rows: seq<Item>, target: Option<string>): seq<Item> {
    if rows == [] then []
    else if target.None? || rows[0].target == target then [rows[0]] + Matching(rows[1..], target)
    else Matching(rows[1..], target)
  }

  function Peeked(t: Table, limit: int, target: Option<string>): seq<Item> {
    var m := Matching(t.rows, target);
    var n := if limit > 1 then limit else 1;
    if |m| <= n then m else m[..n]
  }

  function Without(rows: seq<Item>, id: nat): seq<Item> {
    if rows == [] then []
    else if rows[0].id == id then Without(rows[1..], id)
    else [rows[0]] + Without(rows[1..], id)
  }

  function Clip(error: string): string {
    if |error| <= 500 then error else error[..500]
  }

  function Failed(x: Item, error: string): Item {
    x.(attempts := x.attempts + 1, lastError := Clip(error))
  }

  function Marked(rows: seq<Item>, id: nat, error: string): seq<Item> {
    if rows == [] then []
    else if rows[0].id == id then [Failed(rows[0], error)] + Marked(rows[1..], id, error)
    else [rows[0]] + Marked(rows[1..], id, error)
  }

  class UploadQueue {
    const maxItems: nat
    var table: Table

    constructor (maxItems: int)
      ensures this.maxItems == (if maxItems > 0 then maxItems else 0) && table == Table([], 0) && Valid(table)
    {
      this.maxItems := if maxItems > 0 then maxItems else 0;
      table := Table([], 0);
    }

    method Append(kind: string, payload: string, frameTs: Option<int>, target: Option<string>) returns (id: Option<nat>)
      requires Valid(table)
      modifies this`table
      ensures table == Appended(old(table), maxItems, kind, payload, frameTs, target) && Valid(table)
      ensures id == (if maxItems == 0 then None else Some(table.lastId))
    {
      if maxItems == 0 {
        return None;
      }
      var item := Item(table.lastId + 1, kind, payload, frameTs, target, 0, "");
      table := Table(table.rows + [item], item.id);
      Trim();
      return Some(item.id);
    }

    /** DELETE ... WHERE id NOT IN (the `maxItems` greatest ids), as a scan from the newest row. */
    method Trim()
      requires Valid(table)
      modifies this`table
      ensures Valid(table) && table == old(table).(rows := LastN(old(table.rows), maxItems))
    {
      var kept := [];
      var i := |table.rows|;
      while i > 0 && |kept| < maxItems
        invariant 0 <= i <= |table.rows| && kept == table.rows[i..]
        invariant |kept| <= maxItems
      {
        i := i - 1;
        kept := [table.rows[i]] + kept;
      }
      table := table.(rows := kept);
    }

    method Peek(limit: int, target: Option<string>) returns (items: seq<Item>)
      ensures items == Peeked(table, limit, target)
    {
      hide Matching;
      items := [];
      var n := if limit > 1 then limit else 1;
      assert table.rows[0..] == table.rows;
      for i := 0 to |table.rows|
        invariant |items| < n
        invariant items + Matching(table.rows[i..], target) == Matching(table.rows, target)
      {
        assert table.rows[i..][1..] == table.rows[i + 1..];
        MatchingStep(items, table.rows[i..], target);
        if target.None? || table.rows[i].target == target {
          items := items + [table.rows[i]];
          if |items| == n {
            assert Matching(table.rows, target)[..n] == items;
            return;
          }
        }
      }
      assert table.rows[|table.rows|..] == [];
      NothingMatches(target);
    }

    /** Exactly the rows with another id stay, in id order. */
    method Delete(id: nat)
      requires Valid(table)
      modifies this`table
      ensures Valid(table) && table == old(table).(rows := Without(old(table.rows), id))
      ensures forall x :: x in table.rows <==> x in old(table.rows) && x.id != id
    {
      WithoutValid(table, id);
      forall x ensures x in Without(table.rows, id) <==> x in table.rows && x.id != id {
        WithoutMember(table.rows, id, x);
      }
      table := table.(rows := Without(table.rows, id));
    }

    /** The row of that id counts one more attempt and remembers the error; every row keeps its place. */
    method MarkFailed(id: nat, error: string)
      requires Valid(table)
      modifies this`table
      ensures Valid(table) && table == old(table).(rows := Marked(old(table.rows), id, error))
      ensures |table.rows| == |old(table.rows)|
      ensures forall i :: 0 <= i < |table.rows| ==>
                var x := old(table.rows)[i];
                table.rows[i] == if x.id != id then x
                                 else x.(attempts := x.attempts + 1,
                                         lastError := if |error| > 500 then error[..500] else error)
    {
      MarkedValid(table, id, error);
      MarkedSame(table.rows, id, error);
      table := table.(rows := Marked(table.rows, id, error));
    }
  }

  lemma MatchingStep(items: seq<Item>, rows: seq<Item>, target: Option<string>)
    requires rows != []
    ensures items + Matching(rows, target)
            == (if target.None? || rows[0].target == target then items + [rows[0]] else items)
               + Matching(rows[1..], target)
  {
  }

  lemma NothingMatches(target: Option<string>)
    ensures Matching([], target) == []
  {
  }

  // ----- What the statements do to the set of rows -----

  /** Deletion removes one id and nothing else. */
  lemma {:induction false} WithoutMember(rows: seq<Item>, id: nat, x: Item)
    ensures x in Without(rows, id) <==> x in rows && x.id != id
  {
    if rows != [] {
      WithoutMember(rows[1..], id, x);
      assert rows == [rows[0]] + rows[1..];
    }
  }

  lemma {:induction false} WithoutValid(t: Table, id: nat)
    requires Valid(t)
    ensures Valid(t.(rows := Without(t.rows, id)))
    decreases |t.rows|
  {
    if t.rows != [] {
      var rest := t.(rows := t.rows[1..]);
      WithoutValid(rest, id);
      var w := Without(rest.rows, id);
      forall j | 0 <= j < |w| ensures t.rows[0].id < w[j].id {
        WithoutMember(rest.rows, id, w[j]);
      }
    }
  }

  /** Marking a failure changes the attempts and the last error of one row, and keeps every other row, what
      is sent, to whom and in which order. */
  lemma {:induction false} MarkedSame(rows: seq<Item>, id: nat, error: string)
    ensures |Marked(rows, id, error)| == |rows|
    ensures forall i :: 0 <= i < |rows| ==>
              var x := rows[i];
              Marked(rows, id, error)[i] == if x.id != id then x
                                            else x.(attempts := x.attempts + 1,
                                                    lastError := if |error| > 500 then error[..500] else error)
  {
    if rows != [] {
      MarkedSame(rows[1..], id, error);
    }
  }

  lemma MarkedValid(t: Table, id: nat, error: string)
    requires Valid(t)
    ensures Valid(t.(rows := Marked(t.rows, id, error)))
  {
    MarkedSame(t.rows, id, error);
  }

  /** The head of a targeted peek is the oldest row of that target. */
  lemma {:induction false} MatchingHead(rows: seq<Item>, target: Option<string>)
    ensures Matching(rows, target) == [] ==> forall i :: 0 <= i < |rows| ==> target.Some? && rows[i].target != target
    ensures Matching(rows, target) != [] ==>
              exists i :: 0 <= i < |rows| && rows[i] == Matching(rows, target)[0]
                          && (target.Some? ==> rows[i].target == target)
                          && forall j :: 0 <= j < i ==> target.Some? && rows[j].target != target
  {
    if rows != [] && !(target.None? || rows[0].target == target) {
      MatchingHead(rows[1..], target);
      if Matching(rows[1..], target) != [] {
        var i :| 0 <= i < |rows[1..]| && rows[1..][i] == Matching(rows[1..], target)[0]
                 && (target.Some? ==> rows[1..][i].target == target)
                 && forall j :: 0 <= j < i ==> target.Some? && rows[1..][j].target != target;
        assert rows[i + 1] == rows[1..][i];
        forall j | 0 <= j < i + 1 ensures rows[j].target != target {
          if j > 0 { assert rows[j] == rows[1..][j - 1]; }
        }
      } else {
        forall i | 0 <= i < |rows| ensures rows[i].target != target {
          if i > 0 { assert rows[i] == rows[1..][i - 1]; }
        }
      }
    }
  }

  lemma {:induction false} MatchingMembers(rows: seq<Item>, target: Option<string>, x: Item)
    ensures x in Matching(rows, target) <==> x in rows && (target.Some? ==> x.target == target)
  {
    if rows != [] {
      MatchingMembers(rows[1..], target, x);
      assert rows == [rows[0]] + rows[1..];
    }
  }

  ghost predicate Rising(items: seq<Item>) {
    forall i, j :: 0 <= i < j < |items| ==> items[i].id < items[j].id
  }

  lemma {:induction false} MatchingRises(t: Table, target: Option<string>)
    requires Valid(t)
    ensures Rising(Matching(t.rows, target))
    decreases |t.rows|
  {
    if t.rows != [] {
      MatchingRises(t.(rows := t.rows[1..]), target);
      var rest := Matching(t.rows[1..], target);
      forall j | 0 <= j < |rest| ensures t.rows[0].id < rest[j].id {
        MatchingMembers(t.rows[1..], target, rest[j]);
      }
    }
  }

  /** A peek, exactly: rows of the target asked for, or of any, by rising id; at most `limit` of them, and at least
      one is always asked for; and any such row that is left out is newer than all of a full answer. */
  lemma PeekedExactly(t: Table, limit: int, target: Option<string>)
    requires Valid(t)
    ensures var items, n := Peeked(t, limit, target), if limit < 1 then 1 else limit;
            && |items| <= n
            && (forall i, j :: 0 <= i < j < |items| ==> items[i].id < items[j].id)
            && (forall x :: x in items ==> x in t.rows && (target.Some? ==> x.target == target))
            && (forall x :: x in t.rows && (target.Some? ==> x.target == target) && x !in items ==>
                  |items| == n && forall y :: y in items ==> y.id < x.id)
  {
    hide Matching, Valid;
    var m := Matching(t.rows, target);
    MatchingRises(t, target);
    forall x ensures x in m <==> x in t.rows && (target.Some? ==> x.target == target) {
      MatchingMembers(t.rows, target, x);
    }
    assert Peeked(t, limit, target) == Take(m, if limit < 1 then 1 else limit);
    TakeRising(m, if limit < 1 then 1 else limit);
  }

  lemma TakeRising(m: seq<Item>, n: nat)
    requires Rising(m)
    ensures var items := Take(m, n);
            && |items| <= n && (forall i, j :: 0 <= i < j < |items| ==> items[i].id < items[j].id)
            && (forall x :: x in items ==> x in m)
            && (forall x :: x in m && x !in items ==> |items| == n && forall y :: y in items ==> y.id < x.id)
  {
    var items := Take(m, n);
    assert forall i :: 0 <= i < |items| ==> m[i] == items[i] && m[i] in items;
    forall x | x in m && x !in items ensures |items| == n && forall y :: y in items ==> y.id < x.id {
      var i :| 0 <= i < |m| && m[i] == x;
      assert i >= |items|;
    }
  }

  /** What is not kept is older than everything kept, and then `n` rows are kept. */
  ghost predicate DropsOldest(before: seq<Item>, kept: seq<Item>, n: nat) {
    forall x :: x in before && x !in kept ==> |kept| == n && forall i :: 0 <= i < n ==> kept[i].id > x.id
  }

  ghost predicate SomeOf(kept: seq<Item>, before: seq<Item>) {
    forall x :: x in kept ==> x in before
  }

  /** Trimming keeps a suffix: what it drops is older than everything it keeps. */
  lemma NewestKeeps(t: Table, n: nat)
    requires Valid(t)
    ensures var rows := LastN(t.rows, n);
            && Valid(t.(rows := rows)) && SomeOf(rows, t.rows) && DropsOldest(t.rows, rows, n)
            && (n > 0 && t.rows != [] ==> rows != [] && rows[|rows| - 1] == t.rows[|t.rows| - 1])
  {
    hide Valid;
    NewestValid(t, n);
    forall x | x in t.rows && x !in LastN(t.rows, n)
      ensures |LastN(t.rows, n)| == n && forall i :: 0 <= i < n ==> LastN(t.rows, n)[i].id > x.id
    {
      NewestDrops(t, n, x);
    }
  }

  lemma NewestValid(t: Table, n: nat)
    requires Valid(t)
    ensures Valid(t.(rows := LastN(t.rows, n)))
  {
  }

  lemma NewestDrops(t: Table, n: nat, x: Item)
    requires Valid(t) && x in t.rows && x !in LastN(t.rows, n)
    ensures |LastN(t.rows, n)| == n && forall i :: 0 <= i < n ==> LastN(t.rows, n)[i].id > x.id
  {
    var rows := LastN(t.rows, n);
    var d := |t.rows| - |rows|;
    forall j | d <= j < |t.rows| ensures t.rows[j] in rows {
      assert rows[j - d] == t.rows[j];
    }
    var j :| 0 <= j < |t.rows| && t.rows[j] == x;
  }
}
