/** Exporting a context archive with images: pages by timestamp stand in for one big request.
    Timestamps are integer microseconds. */
module PagedExport {
  import opened Collections
  import opened Options

  datatype Row = Row(id: nat, ts: int)

  /** The backend never returns more rows than this per request. */
  const CAP: nat := 20000

  // ----- The backend -----

  predicate InWindow(r: Row, since: Option<int>, until: Option<int>) {
    (since.Some? ==> r.ts >= since.value) && (until.Some? ==> r.ts <= until.value)
  }

  function Window(table: seq<Row>, since: Option<int>, until: Option<int>): seq<Row> {
    if table == [] then []
    else if InWindow(table[0], since, until) then [table[0]] + Window(table[1..], since, until)
    else Window(table[1..], since, until)
  }

  function Clamp(limit: int): nat {
    if limit < 1 then 1 else if limit > CAP then CAP else limit
  }

  /** GET /api/context/export, frames only: ORDER BY ts DESC LIMIT. The table is a sequence in
      that order; rows with equal timestamps keep one fixed order. */
  function Request(table: seq<Row>, since: Option<int>, until: Option<int>, limit: int): seq<Row> {
    Take(Window(table, since, until), Clamp(limit))
  }

  ghost predicate Ordered(table: seq<Row>) {
    forall i, j :: 0 <= i < j < |table| ==> table[i].ts >= table[j].ts
  }

  ghost predicate DistinctIds(table: seq<Row>) {
    forall i, j :: 0 <= i < j < |table| ==> table[i].id != table[j].id
  }

  // ----- The client -----

  function Ids(rows: seq<Row>): set<nat> {
    set r | r in rows :: r.id
  }

  /** Merging one page: rows whose id has been seen are skipped. */
  function AddPage(merged: seq<Row>, page: seq<Row>): seq<Row>
    decreases |page|
  {
    if page == [] then merged
    else if page[0].id in Ids(merged) then AddPage(merged, page[1..])
    else AddPage(merged + [page[0]], page[1..])
  }

  function MinTs(page: seq<Row>): int
    requires page != []
  {
    if |page| == 1 then page[0].ts else
      var m := MinTs(page[1..]);
      if page[0].ts < m then page[0].ts else m
  }

  /** The paging loop from any of its turns. */
  function Pages(table: seq<Row>, since: Option<int>, until: Option<int>, limit: int, batch: int,
                 merged: seq<Row>): seq<Row>
    requires batch >= 1
    decreases |Window(table, since, until)|
  {
    var remaining := limit - |merged|;
    if remaining <= 0 then merged else
      var n := Min(batch, remaining);
      var page := Request(table, since, until, n);
      var m := AddPage(merged, page);
      if page == [] || |page| < n then m else
        var until' := Some(MinTs(page) - 1);
        if since.Some? && until'.value < since.value then m else
          PageShrinks(table, since, until, n);
          Pages(table, since, until', limit, batch, m)
  }

  function Export(table: seq<Row>, since: Option<int>, until: Option<int>, limit: int, images: bool,
                  batch: int): seq<Row> {
    var l, b := if limit > 1 then limit else 1, if batch > 1 then batch else 1;
    if !images || l <= b then Request(table, since, until, l) else Pages(table, since, until, l, b, [])
  }

  lemma {:induction false} WindowMember(table: seq<Row>, since: Option<int>, until: Option<int>, r: Row)
    ensures r in Window(table, since, until) <==> r in table && InWindow(r, since, until)
  {
    if table != [] {
      WindowMember(table[1..], since, until, r);
      assert table == [table[0]] + table[1..];
    }
  }

  lemma {:induction false} WindowSnoc(table: seq<Row>, since: Option<int>, until: Option<int>, r: Row)
    ensures Window(table + [r], since, until)
            == Window(table, since, until)
               + if (since.Some? ==> since.value <= r.ts) && (until.Some? ==> r.ts <= until.value) then [r] else []
  {
    if table == [] {
      assert [r][1..] == [] && [] + [r] == [r];
    } else {
      assert (table + [r])[1..] == table[1..] + [r];
      WindowSnoc(table[1..], since, until, r);
    }
  }

  /** One request, exactly: of the rows dated between the two bounds, both included, the first ones in the table's
      order, as many as asked for, where at least one and at most 20000 are. */
  lemma RequestExactly(table: seq<Row>, since: Option<int>, until: Option<int>, limit: int, r: Row)
    ensures Window([], since, until) == []
    ensures Window(table + [r], since, until)
            == Window(table, since, until)
               + if (since.Some? ==> since.value <= r.ts) && (until.Some? ==> r.ts <= until.value) then [r] else []
    ensures var n, all := if limit <= 0 then 1 else if limit >= 20000 then 20000 else limit,
                          Window(table, since, until);
            Request(table, since, until, limit) <= all
            && |Request(table, since, until, limit)| == if |all| < n then |all| else n
  {
    WindowSnoc(table, since, until, r);
  }

  /** Limits and batches below one count as one; a request without images, or for no more than a batch, is one
      request. */
  lemma ExportAsks(table: seq<Row>, since: Option<int>, until: Option<int>, limit: int, images: bool, batch: int)
    ensures limit < 1 ==> Export(table, since, until, limit, images, batch)
                          == Export(table, since, until, 1, images, batch) == Request(table, since, until, 1)
    ensures batch < 1 ==> Export(table, since, until, limit, images, batch)
                          == Export(table, since, until, limit, images, 1)
    ensures limit >= 1 && (!images || limit <= 1 || limit <= batch) ==>
              Export(table, since, until, limit, images, batch) == Request(table, since, until, limit)
  {
    hide Request, Pages;
  }

  lemma {:induction false} MinTsIs(page: seq<Row>)
    requires page != []
    ensures (forall r :: r in page ==> r.ts >= MinTs(page)) && exists r :: r in page && r.ts == MinTs(page)
  {
    if |page| > 1 {
      MinTsIs(page[1..]);
      assert page == [page[0]] + page[1..];
    } else {
      assert page[0] in page;
    }
  }

  lemma {:induction false} NarrowWindow(table: seq<Row>, since: Option<int>, until: Option<int>, u: int)
    requires until.Some? ==> u <= until.value
    ensures |Window(table, since, Some(u))| <= |Window(table, since, until)|
    ensures (exists r :: r in Window(table, since, until) && r.ts > u) ==>
              |Window(table, since, Some(u))| < |Window(table, since, until)|
  {
    if table != [] {
      NarrowWindow(table[1..], since, until, u);
      if exists r :: r in Window(table, since, until) && r.ts > u {
        var r :| r in Window(table, since, until) && r.ts > u;
        assert r in Window(table[1..], since, until) || (r == table[0] && InWindow(r, since, until));
      }
    }
  }

  /** Every full page narrows the window, whatever the table holds: the loop terminates. */
  lemma PageShrinks(table: seq<Row>, since: Option<int>, until: Option<int>, n: int)
    requires Request(table, since, until, n) != []
    ensures var u := MinTs(Request(table, since, until, n)) - 1;
            |Window(table, since, Some(u))| < |Window(table, since, until)| && (until.Some? ==> u < until.value)
  {
    var page := Request(table, since, until, n);
    MinTsIs(page);
    var r :| r in page && r.ts == MinTs(page);
    assert r in Window(table, since, until);
    WindowMember(table, since, until, r);
    NarrowWindow(table, since, until, MinTs(page) - 1);
  }

  /** One turn of the loop, seen from the specification. */
  lemma PagesStep(table: seq<Row>, since: Option<int>, until: Option<int>, limit: int, batch: int, merged: seq<Row>)
    requires batch >= 1 && |merged| < limit
    ensures var n := Min(batch, limit - |merged|);
            var page := Request(table, since, until, n);
            var m := AddPage(merged, page);
            Pages(table, since, until, limit, batch, merged)
            == if page == [] || |page| < n || (since.Some? && MinTs(page) - 1 < since.value) then m
               else Pages(table, since, Some(MinTs(page) - 1), limit, batch, m)
  {
    hide Request, AddPage, MinTs;
  }

  /** The inner loop: merges one page, keeping the set of seen ids and the count of missing rows. */
  method MergePage(before: seq<Row>, page: seq<Row>, seenBefore: set<nat>, missing: int)
    returns (merged: seq<Row>, seen: set<nat>, remaining: int)
    requires seenBefore == Ids(before)
    ensures merged == AddPage(before, page) && seen == Ids(merged)
    ensures remaining == missing - (|merged| - |before|)
  {
    merged, seen, remaining := before, seenBefore, missing;
    assert page[0..] == page;
    for i := 0 to |page|
      invariant seen == Ids(merged) && remaining == missing - (|merged| - |before|)
      invariant AddPage(merged, page[i..]) == AddPage(before, page)
    {
      assert page[i..][1..] == page[i + 1..];
      if page[i].id !in seen {
        seen := seen + {page[i].id};
        merged := merged + [page[i]];
        remaining := remaining - 1;
      }
    }
  }

  /** `_backend_context_export_archive`, frames only. */
  method ExportArchive(table: seq<Row>, since: Option<int>, until: Option<int>, limit: int, images: bool, batch: int)
    returns (merged: seq<Row>)
    ensures merged == Export(table, since, until, limit, images, batch)
  {
    hide Request, AddPage, MinTs, Window, Pages, Ids;
    var l := if limit > 1 then limit else 1;
    var b := if batch > 1 then batch else 1;
    if !images || l <= b {
      merged := Request(table, since, until, l);
      return;
    }
    merged := [];
    var seen: set<nat> := NoIds();
    var remaining := l;
    var pageUntil := until;
    ghost var goal := Pages(table, since, until, l, b, []);
    while remaining > 0
      invariant seen == Ids(merged) && remaining == l - |merged|
      invariant goal == Pages(table, since, pageUntil, l, b, merged)
      decreases |Window(table, since, pageUntil)|
    {
      var n := Min(b, remaining);
      var page := Request(table, since, pageUntil, n);
      PagesStep(table, since, pageUntil, l, b, merged);
      merged, seen, remaining := MergePage(merged, page, seen, remaining);
      if page == [] || |page| < n {
        return;
      }
      PageShrinks(table, since, pageUntil, n);
      var times := MinTs(page);
      if since.Some? && times - 1 < since.value {
        return;
      }
      pageUntil := Some(times - 1);
    }
    PagesEnough(table, since, pageUntil, l, b, merged);
  }

  function NoIds(): (ids: set<nat>)
    ensures ids == Ids([])
  {
    {}
  }

  lemma PagesEnough(table: seq<Row>, since: Option<int>, until: Option<int>, limit: int, batch: int, merged: seq<Row>)
    requires batch >= 1 && |merged| >= limit
    ensures Pages(table, since, until, limit, batch, merged) == merged
  {
  }

  // ----- Windows of an ordered table -----

  lemma {:induction false} WindowOrdered(table: seq<Row>, since: Option<int>, until: Option<int>)
    requires Ordered(table)
    ensures Ordered(Window(table, since, until))
  {
    if table != [] {
      WindowOrdered(table[1..], since, until);
      var w := Window(table[1..], since, until);
      forall i | 0 <= i < |w| ensures table[0].ts >= w[i].ts {
        WindowMember(table[1..], since, until, w[i]);
        var j :| 0 <= j < |table[1..]| && table[1..][j] == w[i];
        assert table[j + 1] == w[i];
      }
    }
  }

  lemma {:induction false} WindowDistinct(table: seq<Row>, since: Option<int>, until: Option<int>)
    requires DistinctIds(table)
    ensures DistinctIds(Window(table, since, until))
  {
    if table != [] {
      WindowDistinct(table[1..], since, until);
      var w := Window(table[1..], since, until);
      forall i | 0 <= i < |w| ensures table[0].id != w[i].id {
        WindowMember(table[1..], since, until, w[i]);
        var j :| 0 <= j < |table[1..]| && table[1..][j] == w[i];
        assert table[j + 1] == w[i];
      }
    }
  }

  /** Moving the upper end down, in an ordered table, keeps a suffix of the rows. */
  lemma {:induction false} WindowSuffix(table: seq<Row>, since: Option<int>, until: Option<int>, u: int, q: nat)
    requires until.Some? ==> u <= until.value
    requires SplitAt(Window(table, since, until), u, q)
    ensures Window(table, since, Some(u)) == Window(table, since, until)[q..]
  {
    if table != [] {
      var t := Window(table[1..], since, until);
      if InWindow(table[0], since, until) {
        SplitTail(table[0], t, u, q);
        WindowSuffix(table[1..], since, until, u, if q > 0 then q - 1 else 0);
        assert q > 0 ==> ([table[0]] + t)[q..] == t[q - 1..];
        assert q == 0 ==> ([table[0]] + t)[q..] == [table[0]] + t[0..];
      } else {
        WindowSuffix(table[1..], since, until, u, q);
      }
    }
  }

  /** The first `q` rows are later than `u`, the others are not. */
  predicate SplitAt(s: seq<Row>, u: int, q: nat) {
    q <= |s| && (forall i :: 0 <= i < q ==> s[i].ts > u) && (forall i :: q <= i < |s| ==> s[i].ts <= u)
  }

  lemma SplitTail(r: Row, t: seq<Row>, u: int, q: nat)
    requires SplitAt([r] + t, u, q)
    ensures SplitAt(t, u, if q > 0 then q - 1 else 0) && (q > 0 <==> r.ts > u)
  {
    var s := [r] + t;
    assert forall i :: 0 <= i < |t| ==> t[i] == s[i + 1];
    assert s[0] == r;
  }

  /** New rows with new ids are appended as they come. */
  lemma {:induction false} AddFresh(merged: seq<Row>, page: seq<Row>)
    requires DistinctIds(merged + page)
    ensures AddPage(merged, page) == merged + page
    decreases |page|
  {
    if page != [] {
      var all := merged + page;
      assert all == (merged + [page[0]]) + page[1..];
      forall i | 0 <= i < |merged| ensures merged[i].id != page[0].id {
        assert all[i] == merged[i] && all[|merged|] == page[0];
      }
      assert page[0].id !in Ids(merged);
      AddFresh(merged + [page[0]], page[1..]);
    } else {
      assert merged + page == merged;
    }
  }

  lemma {:induction false} AddPageExtends(merged: seq<Row>, page: seq<Row>)
    ensures merged <= AddPage(merged, page)
    ensures forall i :: |merged| <= i < |AddPage(merged, page)| ==> AddPage(merged, page)[i] in page
    decreases |page|
  {
    if page != [] {
      if page[0].id in Ids(merged) {
        AddPageExtends(merged, page[1..]);
      } else {
        AddPageExtends(merged + [page[0]], page[1..]);
        assert merged <= merged + [page[0]];
      }
    }
  }

  /** Later pages only add rows of the window that is left. */
  lemma {:induction false} PagesExtend(table: seq<Row>, since: Option<int>, until: Option<int>, limit: int, batch: int,
                                       merged: seq<Row>)
    requires batch >= 1
    ensures var r := Pages(table, since, until, limit, batch, merged);
            merged <= r && forall i :: |merged| <= i < |r| ==> InWindow(r[i], since, until)
    decreases |Window(table, since, until)|
  {
    var n := Min(batch, limit - |merged|);
    if limit > |merged| {
      var page := Request(table, since, until, n);
      var m := AddPage(merged, page);
      AddPageExtends(merged, page);
      forall i | |merged| <= i < |m| ensures InWindow(m[i], since, until) {
        assert m[i] in page && m[i] in Window(table, since, until);
        WindowMember(table, since, until, m[i]);
      }
      if !(page == [] || |page| < n) && !(since.Some? && MinTs(page) - 1 < since.value) {
        PageShrinks(table, since, until, n);
        PagesExtend(table, since, Some(MinTs(page) - 1), limit, batch, m);
      }
    }
  }

  // ----- When paging equals one request -----

  /** Multiples of the page size: where full pages end. */
  predicate IsEdge(q: int, batch: int)
    requires batch >= 1
    decreases if q < 0 then 0 else q
  {
    q == 0 || (q >= batch && IsEdge(q - batch, batch))
  }

  /** No two frames share a timestamp across a page edge below the limit. */
  ghost predicate NoEdgeTies(s: seq<Row>, batch: int, limit: int)
    requires batch >= 1
  {
    forall q :: 0 < q < |s| && q < limit && IsEdge(q, batch) ==> s[q - 1].ts != s[q].ts
  }

  lemma EdgeZero(batch: int)
    requires batch >= 1
    ensures IsEdge(0, batch)
  {
  }

  /** The edge after an edge is one page further. */
  lemma {:induction false} NextEdge(p: nat, q: nat, batch: int)
    requires batch >= 1 && IsEdge(p, batch)
    ensures IsEdge(p + batch, batch)
    ensures p < q && IsEdge(q, batch) ==> p + batch <= q
  {
    if p > 0 && q >= batch {
      NextEdge(p - batch, q - batch, batch);
    }
  }

  /** The loop stands at row p of the unpaged order. */
  ghost predicate At(table: seq<Row>, since: Option<int>, s: seq<Row>, u: Option<int>, batch: int, limit: int,
                     merged: seq<Row>, p: nat)
    requires batch >= 1
  {
    && p <= |s| && p <= limit && merged == s[..p] && Window(table, since, u) == s[p..]
    && (IsEdge(p, batch) || p == |s| || p == limit)
  }

  ghost predicate Good(table: seq<Row>, since: Option<int>, until: Option<int>, s: seq<Row>) {
    Ordered(table) && DistinctIds(table) && s == Window(table, since, until)
  }

  lemma TakeSlice(s: seq<Row>, p: nat, n: nat)
    requires p <= |s|
    ensures Take(s[p..], n) == s[p..Min(p + n, |s|)]
  {
  }

  lemma SliceAdds(s: seq<Row>, p: nat, q: nat)
    requires DistinctIds(s) && p <= q <= |s|
    ensures AddPage(s[..p], s[p..q]) == s[..q]
  {
    assert s[..p] + s[p..q] == s[..q];
    AddFresh(s[..p], s[p..q]);
  }

  lemma SliceMin(s: seq<Row>, p: nat, q: nat)
    requires Ordered(s) && p < q <= |s|
    ensures MinTs(s[p..q]) == s[q - 1].ts
  {
    var page := s[p..q];
    MinTsIs(page);
    var r :| r in page && r.ts == MinTs(page);
    var i :| 0 <= i < |page| && page[i] == r;
    assert s[p + i] == r && page[|page| - 1] == s[q - 1];
  }

  /** One full page from an aligned position: where it ends and what it adds. */
  lemma PageFrom(table: seq<Row>, since: Option<int>, until: Option<int>, s: seq<Row>, u: Option<int>,
                 batch: int, limit: int, merged: seq<Row>, p: nat)
    requires 1 <= batch <= CAP && Good(table, since, until, s) && At(table, since, s, u, batch, limit, merged, p)
            && p < limit
    ensures var n := Min(batch, limit - p);
            var page := Request(table, since, u, n);
            var q := Min(p + n, |s|);
            && |page| == q - p && AddPage(merged, page) == s[..q]
            && (p < q ==> page != [] && MinTs(page) == s[q - 1].ts)
  {
    hide Window, AddPage, MinTs, IsEdge, Ordered, DistinctIds, Take;
    WindowOrdered(table, since, until);
    WindowDistinct(table, since, until);
    var n := Min(batch, limit - p);
    var q := Min(p + n, |s|);
    TakeSlice(s, p, n);
    SliceAdds(s, p, q);
    if p < q { SliceMin(s, p, q); }
  }

  lemma NextWindow(table: seq<Row>, since: Option<int>, until: Option<int>, s: seq<Row>, q: nat)
    requires Good(table, since, until, s) && 0 < q <= |s| && (q < |s| ==> s[q - 1].ts != s[q].ts)
    ensures Window(table, since, Some(s[q - 1].ts - 1)) == s[q..]
    ensures since.Some? && s[q - 1].ts - 1 < since.value ==> q == |s|
  {
    WindowOrdered(table, since, until);
    WindowMember(table, since, until, s[q - 1]);
    assert s[q - 1] in s;
    WindowSuffix(table, since, until, s[q - 1].ts - 1, q);
    if q < |s| {
      assert s[q] in s;
      WindowMember(table, since, until, s[q]);
    }
  }

  /** Without ties at page edges, paging collects the unpaged rows in the unpaged order. */
  lemma {:induction false} PagesComplete(table: seq<Row>, since: Option<int>, until: Option<int>, s: seq<Row>,
                                         u: Option<int>, batch: int, limit: int, merged: seq<Row>, p: nat)
    requires 1 <= batch <= CAP && Good(table, since, until, s) && At(table, since, s, u, batch, limit, merged, p)
    requires NoEdgeTies(s, batch, limit)
    ensures Pages(table, since, u, limit, batch, merged) == Take(s, limit)
    decreases |s| - p + limit - p
  {
    hide Window, Request, IsEdge, AddPage, MinTs, Ordered, DistinctIds;
    if p < limit {
      PageFrom(table, since, until, s, u, batch, limit, merged, p);
      var n := Min(batch, limit - p);
      var page := Request(table, since, u, n);
      var q := Min(p + n, |s|);
      if p < |s| && |page| == n {
        NextEdge(p, 0, batch);
        PageShrinks(table, since, u, n);
        var u' := s[q - 1].ts - 1;
        if q == limit {
          assert Pages(table, since, Some(u'), limit, batch, s[..q]) == s[..q];
        } else {
          NextWindow(table, since, until, s, q);
          if !(since.Some? && u' < since.value) {
            PagesComplete(table, since, until, s, Some(u'), batch, limit, s[..q], q);
            assert Pages(table, since, u, limit, batch, merged) == Pages(table, since, Some(u'), limit, batch, s[..q]);
          }
        }
      }
    }
  }

  /** A tie across the first bad edge e: row e is never fetched. */
  lemma {:induction false} PagesMiss(table: seq<Row>, since: Option<int>, until: Option<int>, s: seq<Row>,
                                     u: Option<int>, batch: int, limit: int, merged: seq<Row>, p: nat, e: nat)
    requires 1 <= batch <= CAP && Good(table, since, until, s) && At(table, since, s, u, batch, limit, merged, p)
    requires p < e < |s| && e < limit && IsEdge(e, batch) && IsEdge(p, batch) && s[e - 1].ts == s[e].ts
    requires NoEdgeTies(s, batch, e)
    ensures var r := Pages(table, since, u, limit, batch, merged); |r| <= e || r[e] != s[e]
    decreases e - p
  {
    hide Window, Request, IsEdge, AddPage, MinTs, Ordered, DistinctIds;
    PageFrom(table, since, until, s, u, batch, limit, merged, p);
    NextEdge(p, e, batch);
    var q := p + batch;
    assert q <= e < limit && Min(batch, limit - p) == batch;
    var page := Request(table, since, u, batch);
    var u' := s[q - 1].ts - 1;
    if !(since.Some? && u' < since.value) {
      PageShrinks(table, since, u, batch);
      assert Pages(table, since, u, limit, batch, merged) == Pages(table, since, Some(u'), limit, batch, s[..q]);
      if q == e {
        PagesExtend(table, since, Some(u'), limit, batch, s[..q]);
      } else {
        NextWindow(table, since, until, s, q);
        PagesMiss(table, since, until, s, Some(u'), batch, limit, s[..q], q, e);
      }
    }
  }

  lemma {:induction false} FirstTie(s: seq<Row>, batch: int, limit: int, q: nat) returns (e: nat)
    requires batch >= 1 && 0 < q < |s| && q < limit && IsEdge(q, batch) && s[q - 1].ts == s[q].ts
    ensures 0 < e <= q && IsEdge(e, batch) && s[e - 1].ts == s[e].ts && NoEdgeTies(s, batch, e)
    decreases q
  {
    if NoEdgeTies(s, batch, q) {
      e := q;
    } else {
      var q' :| 0 < q' < |s| && q' < q && IsEdge(q', batch) && s[q' - 1].ts == s[q'].ts;
      e := FirstTie(s, batch, limit, q');
    }
  }

  // ----- Beyond the backend's cap -----

  lemma {:induction false} WindowRest(table: seq<Row>, since: Option<int>, until: Option<int>, s: seq<Row>, u: int)
    requires Good(table, since, until, s) && (until.Some? ==> u <= until.value)
    ensures forall r :: r in Window(table, since, Some(u)) <==> r in s && r.ts <= u
  {
    forall r ensures r in Window(table, since, Some(u)) <==> r in s && r.ts <= u {
      WindowMember(table, since, Some(u), r);
      WindowMember(table, since, until, r);
    }
  }

  lemma AddNew(merged: seq<Row>, page: seq<Row>)
    requires page != [] && page[0].id !in Ids(merged)
    ensures |AddPage(merged, page)| > |merged|
  {
    AddPageExtends(merged + [page[0]], page[1..]);
  }

  /** A turn after which the rows collected are too many. */
  lemma TurnGrows(table: seq<Row>, since: Option<int>, u: Option<int>, limit: int, batch: int, merged: seq<Row>, n: nat)
    requires batch >= 1 && |merged| < limit
    requires |AddPage(merged, Request(table, since, u, Min(batch, limit - |merged|)))| > n
    ensures |Pages(table, since, u, limit, batch, merged)| > n
  {
    hide Window, Request, AddPage, MinTs;
    var page := Request(table, since, u, Min(batch, limit - |merged|));
    PagesStep(table, since, u, limit, batch, merged);
    if page != [] {
      PagesExtend(table, since, Some(MinTs(page) - 1), limit, batch, AddPage(merged, page));
    }
  }

  /** A full page inside the cap leads on to the next edge. */
  lemma NextPage(table: seq<Row>, since: Option<int>, until: Option<int>, s: seq<Row>, u: Option<int>, batch: int,
                 limit: int, merged: seq<Row>, p: nat)
    requires 1 <= batch <= CAP && Good(table, since, until, s) && At(table, since, s, u, batch, limit, merged, p)
    requires IsEdge(p, batch) && p + batch < |s| && p + batch < limit && s[p + batch - 1].ts != s[p + batch].ts
    ensures var u' := Some(s[p + batch - 1].ts - 1);
            && Pages(table, since, u, limit, batch, merged) == Pages(table, since, u', limit, batch, s[..p + batch])
            && At(table, since, s, u', batch, limit, s[..p + batch], p + batch)
            && IsEdge(p + batch, batch)
  {
    hide Window, Request, IsEdge, AddPage, MinTs, Ordered, DistinctIds;
    PageFrom(table, since, until, s, u, batch, limit, merged, p);
    NextEdge(p, 0, batch);
    NextWindow(table, since, until, s, p + batch);
    PageShrinks(table, since, u, batch);
  }

  /** If the cap is not a page edge, some page reaches past it. */
  lemma {:induction false} PagesPast(table: seq<Row>, since: Option<int>, until: Option<int>, s: seq<Row>,
                                     u: Option<int>, batch: int, limit: int, merged: seq<Row>, p: nat)
    requires 1 <= batch <= CAP < limit && |s| > CAP && Good(table, since, until, s)
    requires At(table, since, s, u, batch, limit, merged, p) && IsEdge(p, batch) && p < CAP
    requires NoEdgeTies(s, batch, CAP) && !IsEdge(CAP, batch)
    ensures |Pages(table, since, u, limit, batch, merged)| > CAP
    decreases CAP - p
  {
    hide Window, Request, IsEdge, AddPage, MinTs, Ordered, DistinctIds;
    NextEdge(p, 0, batch);
    if p + batch < CAP {
      NextPage(table, since, until, s, u, batch, limit, merged, p);
      PagesPast(table, since, until, s, Some(s[p + batch - 1].ts - 1), batch, limit, s[..p + batch], p + batch);
    } else {
      PageFrom(table, since, until, s, u, batch, limit, merged, p);
      TurnGrows(table, since, u, limit, batch, merged, CAP);
    }
  }

  /** If the cap is a page edge, the pages are exactly the capped rows when all later rows are tied with the last. */
  lemma {:induction false} PagesCapped(table: seq<Row>, since: Option<int>, until: Option<int>, s: seq<Row>,
                                       u: Option<int>, batch: int, limit: int, merged: seq<Row>, p: nat)
    requires 1 <= batch <= CAP < limit && |s| > CAP && Good(table, since, until, s)
    requires At(table, since, s, u, batch, limit, merged, p) && IsEdge(p, batch) && p < CAP
    requires NoEdgeTies(s, batch, CAP) && IsEdge(CAP, batch)
    ensures Pages(table, since, u, limit, batch, merged) == s[..CAP] <==> s[|s| - 1].ts == s[CAP - 1].ts
    decreases CAP - p
  {
    hide Window, Request, IsEdge, AddPage, MinTs, Ordered, DistinctIds;
    NextEdge(p, CAP, batch);
    if p + batch < CAP {
      NextPage(table, since, until, s, u, batch, limit, merged, p);
      PagesCapped(table, since, until, s, Some(s[p + batch - 1].ts - 1), batch, limit, s[..p + batch], p + batch);
    } else {
      LastCapped(table, since, until, s, u, batch, limit, merged, p);
      AfterCap(table, since, until, s, batch, limit);
    }
  }

  /** The page that ends at the cap. */
  lemma LastCapped(table: seq<Row>, since: Option<int>, until: Option<int>, s: seq<Row>, u: Option<int>, batch: int,
                   limit: int, merged: seq<Row>, p: nat)
    requires 1 <= batch <= CAP < limit && |s| > CAP && Good(table, since, until, s)
    requires At(table, since, s, u, batch, limit, merged, p) && p + batch == CAP
    ensures var u' := s[CAP - 1].ts - 1;
            Pages(table, since, u, limit, batch, merged)
            == if since.Some? && u' < since.value then s[..CAP]
               else Pages(table, since, Some(u'), limit, batch, s[..CAP])
  {
    hide Window, Request, IsEdge, AddPage, MinTs, Ordered, DistinctIds, Pages, Good, Take;
    assert |merged| == p && p < CAP && Min(batch, limit - p) == batch && Min(CAP, |s|) == CAP;
    PageFrom(table, since, until, s, u, batch, limit, merged, p);
    hide At;
    PagesStep(table, since, u, limit, batch, merged);
  }

  /** What follows the capped rows. */
  lemma AfterCap(table: seq<Row>, since: Option<int>, until: Option<int>, s: seq<Row>, batch: int, limit: int)
    requires 1 <= batch <= CAP < limit && |s| > CAP && Good(table, since, until, s)
    ensures var u := s[CAP - 1].ts - 1;
            var r := if since.Some? && u < since.value then s[..CAP]
                     else Pages(table, since, Some(u), limit, batch, s[..CAP]);
            r == s[..CAP] <==> s[|s| - 1].ts == s[CAP - 1].ts
  {
    WindowOrdered(table, since, until);
    var u, last := s[CAP - 1].ts - 1, s[|s| - 1];
    assert s[CAP - 1] in s && last in s && last.ts <= s[CAP - 1].ts;
    WindowMember(table, since, until, s[CAP - 1]);
    WindowMember(table, since, until, last);
    WindowRest(table, since, until, s, u);
    if last.ts == s[CAP - 1].ts {
      assert forall r :: r in s ==> r.ts >= last.ts;
      hide Window, AddPage, MinTs, Ordered, DistinctIds;
      EmptyTogether(Window(table, since, Some(u)), []);
      PagesStep(table, since, Some(u), limit, batch, s[..CAP]);
      NothingAdded(s[..CAP]);
    } else {
      hide AddPage, MinTs, Ordered, Window;
      assert last in Window(table, since, Some(u));
      var page := Request(table, since, Some(u), Min(batch, limit - CAP));
      assert page != [] && page[0] in Window(table, since, Some(u));
      LaterIsNew(table, since, until, s, page[0]);
      AddNew(s[..CAP], page);
      TurnGrows(table, since, Some(u), limit, batch, s[..CAP], CAP);
    }
  }

  lemma NothingAdded(merged: seq<Row>)
    ensures AddPage(merged, []) == merged
  {
  }

  lemma LaterIsNew(table: seq<Row>, since: Option<int>, until: Option<int>, s: seq<Row>, r: Row)
    requires Good(table, since, until, s) && |s| > CAP && r in s && r.ts < s[CAP - 1].ts
    ensures r.id !in Ids(s[..CAP])
  {
    WindowOrdered(table, since, until);
    WindowDistinct(table, since, until);
    var i :| 0 <= i < |s| && s[i] == r;
    hide Window, Ordered;
    assert i >= CAP by { OrderedAt(s, i); }
    forall x | x in s[..CAP] ensures x.id != r.id {
      var j :| 0 <= j < CAP && s[j] == x;
    }
  }

  lemma OrderedAt(s: seq<Row>, i: nat)
    requires Ordered(s) && |s| > CAP && i < |s| && s[i].ts < s[CAP - 1].ts
    ensures i >= CAP
  {
  }

  // ----- The main results -----

  /** The condition under which an export that pages equals the one request. */
  ghost predicate PagesLikeOne(s: seq<Row>, limit: int, batch: int)
    requires batch >= 1
  {
    if batch > CAP then true
    else if limit <= CAP || |s| <= CAP then NoEdgeTies(s, batch, limit)
    else NoEdgeTies(s, batch, CAP) && IsEdge(CAP, batch) && s[|s| - 1].ts == s[CAP - 1].ts
  }

  function AtLeastOne(n: int): int {
    if n > 1 then n else 1
  }

  /** Main result, exact, for every limit and batch: the image export equals the one big request if and only if
      it does not page; or one page exceeds the backend's cap; or, within the cap, no two frames tie across a
      page edge; or, beyond it, none does below the cap, the cap is an edge, and all rows from the last capped
      one on share one time. */
  lemma ExportExact(table: seq<Row>, since: Option<int>, until: Option<int>, limit: int, images: bool, batch: int)
    requires Ordered(table) && DistinctIds(table)
    ensures Export(table, since, until, limit, images, batch) == Request(table, since, until, limit)
            <==> !images || AtLeastOne(limit) <= AtLeastOne(batch)
                 || PagesLikeOne(Window(table, since, until), AtLeastOne(limit), AtLeastOne(batch))
  {
    hide IsEdge, Window, Pages, AddPage, MinTs, PagesLikeOne, Ordered, DistinctIds;
    if images && AtLeastOne(limit) > AtLeastOne(batch) {
      PagingExact(table, since, until, AtLeastOne(limit), AtLeastOne(batch));
    }
  }

  lemma PagingExact(table: seq<Row>, since: Option<int>, until: Option<int>, limit: int, batch: int)
    requires Ordered(table) && DistinctIds(table) && 1 <= batch < limit
    ensures Pages(table, since, until, limit, batch, []) == Request(table, since, until, limit)
            <==> PagesLikeOne(Window(table, since, until), limit, batch)
  {
    hide IsEdge, Window, Pages, AddPage, MinTs, Ordered, DistinctIds;
    EdgeZero(batch);
    var s := Window(table, since, until);
    assert s[..0] == [] && s[0..] == s;
    if batch > CAP {
      OnePage(table, since, until, limit, batch);
    } else if limit <= CAP || |s| <= CAP {
      if NoEdgeTies(s, batch, limit) {
        PagesComplete(table, since, until, s, until, batch, limit, [], 0);
      } else {
        TiedPages(table, since, until, s, limit, batch, limit);
      }
    } else if !NoEdgeTies(s, batch, CAP) {
      TiedPages(table, since, until, s, limit, batch, CAP);
    } else if IsEdge(CAP, batch) {
      PagesCapped(table, since, until, s, until, batch, limit, [], 0);
    } else {
      PagesPast(table, since, until, s, until, batch, limit, [], 0);
    }
  }

  lemma OnePage(table: seq<Row>, since: Option<int>, until: Option<int>, limit: int, batch: int)
    requires DistinctIds(table) && CAP < batch < limit
    ensures Pages(table, since, until, limit, batch, []) == Request(table, since, until, limit)
  {
    hide Window, AddPage, MinTs, DistinctIds;
    var page := Request(table, since, until, batch);
    WindowDistinct(table, since, until);
    assert [] + page == page;
    PageDistinct(Window(table, since, until), page);
    AddFresh([], page);
    PagesStep(table, since, until, limit, batch, []);
  }

  lemma PageDistinct(s: seq<Row>, page: seq<Row>)
    requires DistinctIds(s) && page <= s
    ensures DistinctIds(page)
  {
  }

  /** A tie across a page edge below `cap` leaves a row out that the one request answers. */
  lemma TiedPages(table: seq<Row>, since: Option<int>, until: Option<int>, s: seq<Row>, limit: int, batch: int,
                  cap: int)
    requires Good(table, since, until, s) && 1 <= batch <= CAP && batch < limit && cap <= limit
    requires !NoEdgeTies(s, batch, cap) && ((cap == limit && (limit <= CAP || |s| <= CAP)) || cap == CAP)
    ensures Pages(table, since, until, limit, batch, []) != Request(table, since, until, limit)
  {
    hide IsEdge, Window, Pages, AddPage, MinTs, Ordered, DistinctIds;
    EdgeZero(batch);
    assert s[..0] == [] && s[0..] == s;
    var q :| 0 < q < |s| && q < cap && IsEdge(q, batch) && s[q - 1].ts == s[q].ts;
    var e := FirstTie(s, batch, cap, q);
    PagesMiss(table, since, until, s, until, batch, limit, [], 0, e);
    assert Request(table, since, until, limit)[e] == s[e];
  }

  ghost predicate DistinctTimes(table: seq<Row>) {
    forall i, j :: 0 <= i < j < |table| ==> table[i].ts != table[j].ts
  }

  /** With distinct timestamps and any limit, the paged export equals the one request exactly when
      the limit or the data stays within the backend's cap, or one page already exceeds it. */
  lemma DistinctExportExact(table: seq<Row>, since: Option<int>, until: Option<int>, limit: int, batch: int)
    requires Ordered(table) && DistinctIds(table) && DistinctTimes(table) && 1 <= batch < limit
    ensures Export(table, since, until, limit, true, batch) == Request(table, since, until, limit)
            <==> limit <= CAP || batch > CAP || |Window(table, since, until)| <= CAP
  {
    hide Window, Ordered, DistinctIds, Export, Request, IsEdge;
    WindowDistinctTimes(table, since, until);
    ExportExact(table, since, until, limit, true, batch);
  }

  lemma {:induction false} WindowDistinctTimes(table: seq<Row>, since: Option<int>, until: Option<int>)
    requires DistinctTimes(table)
    ensures DistinctTimes(Window(table, since, until))
  {
    if table != [] {
      WindowDistinctTimes(table[1..], since, until);
      var w := Window(table[1..], since, until);
      forall i | 0 <= i < |w| ensures table[0].ts != w[i].ts {
        WindowMember(table[1..], since, until, w[i]);
        var j :| 0 <= j < |table[1..]| && table[1..][j] == w[i];
        assert table[j + 1] == w[i];
      }
    }
  }
}
