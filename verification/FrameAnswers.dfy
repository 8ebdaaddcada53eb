/** When the local query and the mirror's query answer alike. */
module FrameAnswers {
  import opened TextLines
  import opened Collections
  import opened FrameQuery
  import opened Options

  // ---------------------------------------------------------------- the rows of an answer

  /** Some file of the tree holds the row. */
  ghost predicate HasRow(tree: Tree, r: Row) {
    exists e :: InTree(tree, e) && e.row == Some(r)
  }

  /** Rows newest first, one for each millisecond. */
  ghost predicate RowsFall(rows: seq<Row>) {
    forall i, j :: 0 <= i < j < |rows| ==> rows[i].ts / 1000 > rows[j].ts / 1000
  }

  /** A falling sequence of rows is determined by its members. */
  lemma {:induction false} SameRows(a: seq<Row>, b: seq<Row>)
    requires RowsFall(a) && RowsFall(b) && forall r :: r in a <==> r in b
    ensures a == b
  {
    EmptyTogether(a, b);
    if a != [] {
      assert a[0] in b && b[0] in a;
      assert a[0] == b[0];
      forall r
        ensures r in a[1..] <==> r in b[1..]
      {
        assert r in a <==> r == a[0] || r in a[1..];
        assert r in b <==> r == b[0] || r in b[1..];
      }
      SameRows(a[1..], b[1..]);
    }
  }

  lemma {:induction false} SelectedHas(q: Query, lower: Lower, files: seq<Entry>, r: Row)
    ensures r in Selected(q, lower, files)
            <==> Within(q, r.ts) && TextMatches(q, lower, r) && exists e :: e in files && e.row == Some(r)
  {
    if files != [] {
      hide TextMatches;
      SelectedHas(q, lower, files[1..], r);
      assert forall e :: e in files <==> e == files[0] || e in files[1..];
    }
  }

  lemma {:induction false} SelectedFalls(q: Query, lower: Lower, files: seq<Entry>)
    requires RowsDescend(files) && forall e :: e in files ==> Stamped(e)
    ensures RowsFall(Selected(q, lower, files))
  {
    if files != [] {
      hide TextMatches;
      assert files[0] in files;
      SelectedFalls(q, lower, files[1..]);
      var rest := Selected(q, lower, files[1..]);
      forall i | 0 <= i < |rest| && files[0].row.Some? ensures rest[i].ts / 1000 < files[0].stamp {
        SelectedHas(q, lower, files[1..], rest[i]);
        var e :| e in files[1..] && e.row == Some(rest[i]);
        var j :| 0 <= j < |files| - 1 && files[1..][j] == e;
        assert files[j + 1] == e;
      }
    }
  }

  lemma {:induction false} ShownHas(q: Query, lower: Lower, blobs: seq<Blob>, r: Row)
    ensures r in Shown(q, lower, blobs)
            <==> TextMatches(q, lower, r) && exists b :: b in blobs && b.file.row == Some(r)
  {
    if blobs != [] {
      hide TextMatches;
      ShownHas(q, lower, blobs[1..], r);
      assert forall b :: b in blobs <==> b == blobs[0] || b in blobs[1..];
    }
  }

  lemma {:induction false} ShownFalls(q: Query, lower: Lower, blobs: seq<Blob>)
    requires BlobsDescend(blobs) && forall b :: b in blobs ==> Stamped(b.file)
    ensures RowsFall(Shown(q, lower, blobs))
  {
    if blobs != [] {
      hide TextMatches;
      assert blobs[0] in blobs;
      ShownFalls(q, lower, blobs[1..]);
      var rest := Shown(q, lower, blobs[1..]);
      forall i | 0 <= i < |rest| ensures rest[i].ts / 1000 < blobs[0].file.stamp {
        ShownHas(q, lower, blobs[1..], rest[i]);
        var b :| b in blobs[1..] && b.file.row == Some(rest[i]);
        var j :| 0 <= j < |blobs| - 1 && blobs[1..][j] == b;
        assert blobs[j + 1] == b;
      }
    }
  }

  /** All rows the local query could answer, in its order. */
  function Here(tree: Tree, listing: seq<int>, q: Query, lower: Lower): seq<Row> {
    Selected(q, lower, Visits(tree, SortDays(listing)))
  }

  /** All rows the mirror could answer, in its order. */
  function There(blobs: seq<Blob>, q: Query, lower: Lower): seq<Row> {
    Shown(q, lower, SortByTime(Candidates(q, blobs)))
  }

  lemma HereIs(tree: Tree, listing: seq<int>, q: Query, lower: Lower)
    requires TreeOk(tree) && Lists(tree, listing)
    ensures forall r :: r in Here(tree, listing, q, lower)
                        <==> Within(q, r.ts) && TextMatches(q, lower, r) && HasRow(tree, r)
    ensures NamesInOrder(tree) ==> RowsFall(Here(tree, listing, q, lower))
  {
    var visits := Visits(tree, SortDays(listing));
    VisitsAll(tree, listing);
    SortedDays(listing, 0);
    hide TreeOk, Visits, TextMatches, Within, InTree, Lists, SortDays, Selected, Stamped, NamesInOrder, RowsDescend;
    forall r
      ensures r in Here(tree, listing, q, lower)
              <==> Within(q, r.ts) && TextMatches(q, lower, r) && HasRow(tree, r)
    {
      SelectedHas(q, lower, visits, r);
    }
    if NamesInOrder(tree) {
      VisitsDescend(tree, SortDays(listing));
      SelectedFalls(q, lower, visits);
    }
  }

  lemma BlobStamped(tree: Tree, blobs: seq<Blob>, b: Blob)
    requires TreeOk(tree) && Mirrors(tree, blobs) && b in blobs
    ensures Stamped(b.file) && InTree(tree, b.file)
  {
    assert DayOk(b.day, tree[b.day]);
  }

  lemma BlobFor(tree: Tree, blobs: seq<Blob>, e: Entry) returns (b: Blob)
    requires Mirrors(tree, blobs) && InTree(tree, e)
    ensures b in blobs && b.file == e
  {
    var day :| day in tree && e in tree[day];
    b := Blob(day, e);
  }

  lemma ThereIs(tree: Tree, blobs: seq<Blob>, q: Query, lower: Lower)
    requires TreeOk(tree) && Mirrors(tree, blobs)
    ensures forall r :: r in There(blobs, q, lower)
                        <==> InWindow(q, r.ts / 1000) && TextMatches(q, lower, r) && HasRow(tree, r)
    ensures RowsFall(There(blobs, q, lower))
  {
    var sorted := SortByTime(Candidates(q, blobs));
    hide TreeOk, TextMatches, InWindow, InTree, Mirrors, Shown, SortByTime, Candidates, BlobsDescend, RowsFall;
    SortedCandidates(tree, blobs, q, Blob(0, Entry(0, None)));
    forall r
      ensures r in There(blobs, q, lower)
              <==> InWindow(q, r.ts / 1000) && TextMatches(q, lower, r) && HasRow(tree, r)
    {
      ShownHas(q, lower, sorted, r);
      if exists b :: b in sorted && b.file.row == Some(r) {
        var b :| b in sorted && b.file.row == Some(r);
        SortedCandidates(tree, blobs, q, b);
        BlobStamped(tree, blobs, b);
      }
      if HasRow(tree, r) && InWindow(q, r.ts / 1000) {
        var e :| InTree(tree, e) && e.row == Some(r);
        var b := BlobFor(tree, blobs, e);
        BlobStamped(tree, blobs, b);
        SortedCandidates(tree, blobs, q, b);
      }
    }
    forall b | b in sorted ensures Stamped(b.file) {
      SortedCandidates(tree, blobs, q, b);
      BlobStamped(tree, blobs, b);
    }
    ShownFalls(q, lower, sorted);
  }

  // ---------------------------------------------------------------- when both answer alike

  /** Both queries give the same answer. */
  ghost predicate Alike(tree: Tree, listing: seq<int>, blobs: seq<Blob>, q: Query, lower: Lower, limit: int) {
    LocalScan(q, lower, Visits(tree, SortDays(listing)), limit, [])
    == MirrorScan(q, lower, SortByTime(Candidates(q, blobs)), limit, [])
  }

  ghost predicate AlikeForAllLimits(tree: Tree, listing: seq<int>, blobs: seq<Blob>, q: Query, lower: Lower) {
    forall limit :: limit >= 1 ==> Alike(tree, listing, blobs, q, lower, limit)
  }

  /** No row that matches by text is on one side of the window by its time and on the other by its stamp. */
  ghost predicate WindowsAgree(tree: Tree, q: Query, lower: Lower) {
    forall r :: HasRow(tree, r) && TextMatches(q, lower, r) ==> (Within(q, r.ts) <==> InWindow(q, r.ts / 1000))
  }

  lemma HereAnswer(tree: Tree, listing: seq<int>, q: Query, lower: Lower, limit: int)
    requires TreeOk(tree) && Lists(tree, listing) && (q.since.Some? ==> NamesInOrder(tree))
    ensures LocalScan(q, lower, Visits(tree, SortDays(listing)), limit, [])
            == Take(Here(tree, listing, q, lower), if limit >= 1 then limit else 1)
  {
    SortedDays(listing, 0);
    VisitsAll(tree, listing);
    hide TreeOk, NamesInOrder, Visits, SortDays, RowsDescend, Selected, LocalScan, Stamped, Take, InTree;
    if q.since.Some? {
      VisitsDescend(tree, SortDays(listing));
    }
    var limited := Take(Here(tree, listing, q, lower), if limit >= 1 then limit else 1);
    LocalIsFilterThenTake(q, lower, Visits(tree, SortDays(listing)), limit, []);
    assert [] + limited == limited;
  }

  lemma ThereAnswer(blobs: seq<Blob>, q: Query, lower: Lower, limit: int)
    ensures MirrorScan(q, lower, SortByTime(Candidates(q, blobs)), limit, []) == Take(There(blobs, q, lower), limit)
  {
    hide SortByTime, Candidates, Shown, MirrorScan, Take;
    MirrorIsFilterThenTake(q, lower, SortByTime(Candidates(q, blobs)), limit, []);
    assert [] + Take(There(blobs, q, lower), limit) == Take(There(blobs, q, lower), limit);
  }

  /** Both answers, as filter and take. */
  lemma AnswersAre(tree: Tree, listing: seq<int>, blobs: seq<Blob>, q: Query, lower: Lower, limit: int)
    requires TreeOk(tree) && Lists(tree, listing) && (q.since.Some? ==> NamesInOrder(tree))
    ensures LocalScan(q, lower, Visits(tree, SortDays(listing)), limit, [])
            == Take(Here(tree, listing, q, lower), if limit >= 1 then limit else 1)
    ensures MirrorScan(q, lower, SortByTime(Candidates(q, blobs)), limit, []) == Take(There(blobs, q, lower), limit)
  {
    HereAnswer(tree, listing, q, lower, limit);
    ThereAnswer(blobs, q, lower, limit);
  }

  lemma TakesDiffer(rows: seq<Row>, limit: int)
    ensures Take(rows, if limit >= 1 then limit else 1) == Take(rows, limit) <==> limit >= 1 || rows == []
  {
  }

  lemma TakeAll(a: seq<Row>, b: seq<Row>)
    requires Take(a, |a| + |b| + 1) == Take(b, |a| + |b| + 1)
    ensures a == b
  {
  }

  lemma SameRowsExactly(tree: Tree, listing: seq<int>, blobs: seq<Blob>, q: Query, lower: Lower)
    requires TreeOk(tree) && Lists(tree, listing) && NamesInOrder(tree) && Mirrors(tree, blobs)
    ensures Here(tree, listing, q, lower) == There(blobs, q, lower) <==> WindowsAgree(tree, q, lower)
  {
    var here, there := Here(tree, listing, q, lower), There(blobs, q, lower);
    HereIs(tree, listing, q, lower);
    ThereIs(tree, blobs, q, lower);
    hide TreeOk, Lists, NamesInOrder, Mirrors, Here, There, RowsFall, Within, InWindow, TextMatches, HasRow;
    if WindowsAgree(tree, q, lower) {
      SameRows(here, there);
    }
  }

  /** Main result, exact: when names sort as times and the mirror holds the tree, the early-exit local
      query and the mirror query give the same rows in the same order for every limit of at least one,
      if and only if no row that matches by text is inside the window by its exact time and outside it
      by its truncated stamp, or the other way round. */
  lemma QueriesAgreeExactly(tree: Tree, listing: seq<int>, blobs: seq<Blob>, q: Query, lower: Lower)
    requires TreeOk(tree) && Lists(tree, listing) && NamesInOrder(tree) && Mirrors(tree, blobs)
    ensures AlikeForAllLimits(tree, listing, blobs, q, lower) <==> WindowsAgree(tree, q, lower)
  {
    var here, there := Here(tree, listing, q, lower), There(blobs, q, lower);
    hide TreeOk, Lists, NamesInOrder, Mirrors, Here, There, WindowsAgree, Take, LocalScan, MirrorScan;
    SameRowsExactly(tree, listing, blobs, q, lower);
    forall limit | limit >= 1
      ensures Alike(tree, listing, blobs, q, lower, limit) <==> Take(here, limit) == Take(there, limit)
    {
      AnswersAre(tree, listing, blobs, q, lower, limit);
    }
    if AlikeForAllLimits(tree, listing, blobs, q, lower) {
      assert Alike(tree, listing, blobs, q, lower, |here| + |there| + 1);
      TakeAll(here, there);
    }
  }

  /** So it is for files whose stamps have equally many digits in each day, as all since 2001 have. */
  lemma OneLengthQueriesAgreeExactly(tree: Tree, listing: seq<int>, blobs: seq<Blob>, q: Query, lower: Lower)
    requires TreeOk(tree) && Lists(tree, listing) && Mirrors(tree, blobs)
    requires forall day :: day in tree ==> OneLength(tree[day])
    ensures AlikeForAllLimits(tree, listing, blobs, q, lower) <==> WindowsAgree(tree, q, lower)
  {
    hide TreeOk, Lists, Mirrors, AlikeForAllLimits, WindowsAgree, OneLength, NamesSort;
    forall day | day in tree ensures NamesSort(tree[day]) {
      OneLengthSorts(tree[day]);
    }
    QueriesAgreeExactly(tree, listing, blobs, q, lower);
  }

  /** The limit, exact: a query both windows agree on is answered alike if and only if the limit is at
      least one or nothing matches; below one the local store still answers one row. */
  lemma LimitsAgreeExactly(tree: Tree, listing: seq<int>, blobs: seq<Blob>, q: Query, lower: Lower, limit: int)
    requires TreeOk(tree) && Lists(tree, listing) && NamesInOrder(tree) && Mirrors(tree, blobs)
    requires WindowsAgree(tree, q, lower)
    ensures Alike(tree, listing, blobs, q, lower, limit) <==> limit >= 1 || Here(tree, listing, q, lower) == []
  {
    hide TreeOk, Lists, NamesInOrder, Mirrors, Here, There, WindowsAgree, LocalScan, MirrorScan;
    SameRowsExactly(tree, listing, blobs, q, lower);
    AnswersAre(tree, listing, blobs, q, lower, limit);
    TakesDiffer(Here(tree, listing, q, lower), limit);
  }

  ghost predicate AllAlike(tree: Tree, listing: seq<int>, blobs: seq<Blob>, lower: Lower) {
    forall q :: AlikeForAllLimits(tree, listing, blobs, q, lower)
  }

  /** Every row's time is a whole number of milliseconds. */
  ghost predicate WholeMs(tree: Tree) {
    forall r :: HasRow(tree, r) ==> r.ts % 1000 == 0
  }

  /** The query without any filter. */
  function Everything(): Query {
    Query(None, None, "", "", "")
  }

  lemma WholeWindows(tree: Tree, q: Query, lower: Lower)
    requires WholeMs(tree)
    ensures WindowsAgree(tree, q, lower)
  {
    hide TextMatches, HasRow;
    assert forall r :: HasRow(tree, r) ==> 1000 * (r.ts / 1000) == r.ts;
  }

  /** A row between two milliseconds is inside the window that starts at it, and its stamp is not. */
  lemma FractionDiffers(tree: Tree, lower: Lower, r: Row)
    requires HasRow(tree, r) && r.ts % 1000 != 0
    ensures !WindowsAgree(tree, Query(Some(r.ts), None, "", "", ""), lower)
  {
    hide HasRow;
    var q := Query(Some(r.ts), None, "", "", "");
    assert TextMatches(q, lower, r) && Within(q, r.ts) && !InWindow(q, r.ts / 1000);
  }

  lemma TailFalls(r: Row, rest: seq<Row>)
    requires RowsFall([r] + rest)
    ensures RowsFall(rest) && forall i :: 0 <= i < |rest| ==> rest[i].ts / 1000 < r.ts / 1000
  {
    var all := [r] + rest;
    assert all[0] == r && all[1..] == rest;
    forall i | 0 <= i < |rest| ensures rest[i].ts / 1000 < r.ts / 1000 {
      assert rest[i] == all[i + 1];
    }
    forall i, j | 0 <= i < j < |rest| ensures rest[i].ts / 1000 > rest[j].ts / 1000 {
      assert rest[i] == all[i + 1] && rest[j] == all[j + 1];
    }
  }

  lemma EverythingCons(lower: Lower, files: seq<Entry>)
    requires files != []
    ensures var rest := Selected(Everything(), lower, files[1..]);
            Selected(Everything(), lower, files)
            == if files[0].row.Some? then [files[0].row.value] + rest else rest
  {
    if files[0].row.Some? {
      EverythingMatches(lower, files[0].row.value);
    }
    hide TextMatches, Everything;
  }

  /** If all rows, in the order of visiting, fall, then they are visited newest first. */
  lemma {:induction false} EverythingFalls(lower: Lower, files: seq<Entry>)
    requires RowsFall(Selected(Everything(), lower, files)) && forall e :: e in files ==> Stamped(e)
    ensures RowsDescend(files)
  {
    if files != [] {
      EverythingCons(lower, files);
      hide Selected, TextMatches, RowsFall, Everything;
      var rest := Selected(Everything(), lower, files[1..]);
      if files[0].row.Some? {
        TailFalls(files[0].row.value, rest);
      }
      EverythingFalls(lower, files[1..]);
      forall j | 0 < j < |files| && files[0].row.Some? && files[j].row.Some? ensures files[0].stamp > files[j].stamp {
        assert files[0] in files && files[j] in files[1..];
        EverythingMatches(lower, files[j].row.value);
        SelectedHas(Everything(), lower, files[1..], files[j].row.value);
      }
      HeadDescends(files);
    }
  }

  lemma HeadDescends(files: seq<Entry>)
    requires files != [] && RowsDescend(files[1..])
    requires forall j :: 0 < j < |files| && files[0].row.Some? && files[j].row.Some? ==> files[0].stamp > files[j].stamp
    ensures RowsDescend(files)
  {
    forall i, j | 0 < i < j < |files| && files[i].row.Some? && files[j].row.Some?
      ensures files[i].stamp > files[j].stamp
    {
      assert files[i] == files[1..][i - 1] && files[j] == files[1..][j - 1];
    }
  }

  lemma EverythingMatches(lower: Lower, r: Row)
    ensures TextMatches(Everything(), lower, r) && Within(Everything(), r.ts)
  {
  }

  lemma {:induction false} DayDescends(tree: Tree, days: seq<int>, day: int)
    requires RowsDescend(Visits(tree, days)) && day in days && day in tree
    ensures RowsDescend(SortByName(tree[day]))
  {
    CatDescends(if days[0] in tree then SortByName(tree[days[0]]) else [], Visits(tree, days[1..]));
    hide SortByName, RowsDescend;
    if day != days[0] {
      assert day in days[1..];
      DayDescends(tree, days[1..], day);
    }
  }

  lemma CatDescends(a: seq<Entry>, b: seq<Entry>)
    requires RowsDescend(a + b)
    ensures RowsDescend(a) && RowsDescend(b)
  {
    assert forall i :: 0 <= i < |a| ==> (a + b)[i] == a[i];
    assert forall i :: 0 <= i < |b| ==> (a + b)[|a| + i] == b[i];
  }

  lemma EverythingOrders(tree: Tree, listing: seq<int>, blobs: seq<Blob>, lower: Lower)
    requires TreeOk(tree) && Lists(tree, listing) && Mirrors(tree, blobs)
    requires Here(tree, listing, Everything(), lower) == There(blobs, Everything(), lower)
    ensures NamesInOrder(tree)
  {
    ThereIs(tree, blobs, Everything(), lower);
    VisitsAll(tree, listing);
    hide There, Stamped, Selected, Visits, RowsDescend, RowsFall, NamesSort, TextMatches;
    EverythingFalls(lower, Visits(tree, SortDays(listing)));
    forall day | day in tree ensures NamesSort(tree[day]) {
      SortedDays(listing, day);
      DayDescends(tree, SortDays(listing), day);
      assert DayOk(day, tree[day]);
      DayDescendsExactly(tree[day]);
    }
  }

  lemma EverythingAlike(tree: Tree, listing: seq<int>, blobs: seq<Blob>, lower: Lower)
    requires TreeOk(tree) && Lists(tree, listing) && AlikeForAllLimits(tree, listing, blobs, Everything(), lower)
    ensures Here(tree, listing, Everything(), lower) == There(blobs, Everything(), lower)
  {
    var here, there := Here(tree, listing, Everything(), lower), There(blobs, Everything(), lower);
    var limit := |here| + |there| + 1;
    hide TreeOk, Lists, Here, There, LocalScan, MirrorScan;
    assert Alike(tree, listing, blobs, Everything(), lower, limit);
    AnswersAre(tree, listing, blobs, Everything(), lower, limit);
    TakeAll(here, there);
  }

  /** Main result, exact: all queries are answered alike if and only if in every day the names of the rows
      sort as their times and every row's time is a whole number of milliseconds. */
  lemma AllQueriesAgreeExactly(tree: Tree, listing: seq<int>, blobs: seq<Blob>, lower: Lower)
    requires TreeOk(tree) && Lists(tree, listing) && Mirrors(tree, blobs)
    ensures AllAlike(tree, listing, blobs, lower) <==> NamesInOrder(tree) && WholeMs(tree)
  {
    hide TreeOk, Lists, Mirrors, Here, There, NamesInOrder, AlikeForAllLimits, WindowsAgree, HasRow, Everything;
    if AllAlike(tree, listing, blobs, lower) {
      assert AlikeForAllLimits(tree, listing, blobs, Everything(), lower);
      EverythingAlike(tree, listing, blobs, lower);
      EverythingOrders(tree, listing, blobs, lower);
      forall r | HasRow(tree, r) ensures r.ts % 1000 == 0 {
        if r.ts % 1000 != 0 {
          var q := Query(Some(r.ts), None, "", "", "");
          FractionDiffers(tree, lower, r);
          QueriesAgreeExactly(tree, listing, blobs, q, lower);
        }
      }
    }
    if NamesInOrder(tree) && WholeMs(tree) {
      forall q ensures AlikeForAllLimits(tree, listing, blobs, q, lower) {
        WholeWindows(tree, q, lower);
        QueriesAgreeExactly(tree, listing, blobs, q, lower);
      }
    }
  }

  /** A failing input for the windows: a row between two milliseconds is found here and not there. */
  lemma SubMillisecondRowsDiffer(lower: Lower, row: Row)
    requires row.ts == 1500
    ensures var q := Query(Some(1500), None, "", "", "");
            var file := Entry(1, Some(row));
            && LocalScan(q, lower, Visits(map[0 := [file]], SortDays([0])), 10, []) == [row]
            && MirrorScan(q, lower, SortByTime(Candidates(q, [Blob(0, file)])), 10, []) == []
  {
    hide Decimal, LexLess, Contains;
    var file := Entry(1, Some(row));
    assert [file][1..] == [] && [0][1..] == [] && [Blob(0, file)][1..] == [];
    assert SortByName([file]) == [file] && SortDays([0]) == [0];
    assert Visits(map[0 := [file]], [0]) == [file];
  }

  lemma LongerNameFirst()
    ensures LexLess(FileName(1000), FileName(999)) && !LexLess(FileName(999), FileName(1000))
  {
    assert Decimal(1000)[0] == '1' by {
      assert Decimal(1000) == Decimal(100) + "0" && Decimal(100) == Decimal(10) + "0"
          && Decimal(10) == Decimal(1) + "0";
    }
    assert Decimal(999)[0] == '9' by {
      assert Decimal(999) == Decimal(99) + "9" && Decimal(99) == Decimal(9) + "9";
    }
    LexAsymmetric(FileName(1000), FileName(999));
  }

  /** A failing input for the names: asked for one frame, the walk answers the row of millisecond 999,
      whose name sorts last, and the mirror the newer row of millisecond 1000. */
  lemma NameOrderNeedsOneLength(lower: Lower, older: Row, newer: Row)
    requires older.ts == 999000 && newer.ts == 1000000
    ensures var e, f := Entry(999, Some(older)), Entry(1000, Some(newer));
            && TreeOk(map[0 := [e, f]])
            && LocalScan(Everything(), lower, Visits(map[0 := [e, f]], SortDays([0])), 1, []) == [older]
            && MirrorScan(Everything(), lower, SortByTime(Candidates(Everything(), [Blob(0, e), Blob(0, f)])), 1, [])
               == [newer]
  {
    LongerNameFirst();
    EverythingMatches(lower, older);
    EverythingMatches(lower, newer);
    hide Decimal, LexLess, Contains, FileName, TextMatches;
    var e, f := Entry(999, Some(older)), Entry(1000, Some(newer));
    var a, b := Blob(0, e), Blob(0, f);
    TwoNames(e, f);
    assert [0][1..] == [] && [e, f][1..] == [f] && [f][1..] == [];
    assert SortDays([0]) == [0] && Visits(map[0 := [e, f]], [0]) == [e, f];
    TwoBlobs(a, b);
    assert [b, a][1..] == [a];
  }

  lemma TwoBlobs(a: Blob, b: Blob)
    requires a.file.stamp < b.file.stamp
    ensures SortByTime(Candidates(Everything(), [a, b])) == [b, a]
  {
    assert [a, b][1..] == [b] && [b][1..] == [];
    assert Candidates(Everything(), [b]) == [b];
    assert Candidates(Everything(), [a, b]) == [a] + [b] == [a, b];
    assert SortByTime([b]) == [b];
    assert InsertByTime(a, [b]) == [b] + InsertByTime(a, []);
  }

  lemma TwoNames(e: Entry, f: Entry)
    requires LexLess(FileName(f.stamp), FileName(e.stamp))
    ensures SortByName([e, f]) == [e, f]
  {
    hide LexLess, FileName;
    assert [e, f][1..] == [f] && [f][1..] == [];
    assert SortByName([f]) == [f];
    assert SortByName([e, f]) == InsertByName(e, [f]) == [e] + [f];
  }
}
