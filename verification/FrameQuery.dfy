/** Two implementations of one question, "which frames match, newest first": the local store walks
    day folders by file name and stops early; the mirror lists blob names, sorts them by number and
    stops at the limit. Times are integer microseconds; a file is named by its whole milliseconds. */
module FrameQuery {
  import opened Collections
  import opened TextLines
  import opened Options

  const DAY_MS := 86400000

  datatype Row = Row(ts: nat, app: string, bundle: string, ocr: string, window: string)

  /** One metadata file: its stamp, and its row unless the text cannot be parsed. */
  datatype Entry = Entry(stamp: nat, row: Option<Row>)

  /** Filters; the empty string stands for an absent text filter. */
  datatype Query = Query(since: Option<int>, until: Option<int>, app: string, bundle: string, search: string)

  type Lower = string -> string

  // ---------------------------------------------------------------- file names

  function FileName(stamp: nat): string {
    Decimal(stamp) + ".json"
  }

  /** The order in which file names are sorted. */
  predicate LexLess(s: string, t: string) {
    t != "" && (s == "" || s[0] < t[0] || (s[0] == t[0] && LexLess(s[1..], t[1..])))
  }

  lemma {:induction false} LexAppend(s: string, t: string, u: string, v: string)
    requires |s| == |t| && LexLess(s, t)
    ensures LexLess(s + u, t + v)
  {
    assert (s + u)[0] == s[0] && (t + v)[0] == t[0];
    if s[0] == t[0] {
      LexAppend(s[1..], t[1..], u, v);
      assert (s + u)[1..] == s[1..] + u && (t + v)[1..] == t[1..] + v;
    }
  }

  lemma {:induction false} LexPrefix(p: string, u: string, v: string)
    ensures LexLess(p + u, p + v) <==> LexLess(u, v)
  {
    if p == "" {
      assert p + u == u && p + v == v;
    } else {
      LexPrefix(p[1..], u, v);
      assert (p + u)[1..] == p[1..] + u && (p + v)[1..] == p[1..] + v;
    }
  }

  lemma {:induction false} LexAsymmetric(s: string, t: string)
    ensures !(LexLess(s, t) && LexLess(t, s))
    ensures !LexLess(s, s)
  {
    if s != "" && t != "" {
      LexAsymmetric(s[1..], t[1..]);
    }
    if s != "" {
      LexAsymmetric(s[1..], s[1..]);
    }
  }

  lemma {:induction false} DecimalOrder(a: nat, b: nat)
    requires |Decimal(a)| == |Decimal(b)| && a < b
    ensures LexLess(Decimal(a), Decimal(b))
  {
    if b >= 10 {
      assert a >= 10;
      if a / 10 == b / 10 {
        LexPrefix(Decimal(a / 10), [('0' as int + a % 10) as char], [('0' as int + b % 10) as char]);
      } else {
        DecimalOrder(a / 10, b / 10);
        LexAppend(Decimal(a / 10), Decimal(b / 10), [('0' as int + a % 10) as char], [('0' as int + b % 10) as char]);
      }
    }
  }

  /** Among stamps of one length, the order of the file names is the order of the times. */
  lemma NameOrder(a: nat, b: nat)
    requires |Decimal(a)| == |Decimal(b)|
    ensures LexLess(FileName(a), FileName(b)) <==> a < b
  {
    if a < b {
      DecimalOrder(a, b);
      LexAppend(Decimal(a), Decimal(b), ".json", ".json");
    } else if b < a {
      DecimalOrder(b, a);
      LexAppend(Decimal(b), Decimal(a), ".json", ".json");
    }
    LexAsymmetric(FileName(a), FileName(b));
  }

  lemma {:induction false} LexTotal(s: string, t: string)
    ensures s == t || LexLess(s, t) || LexLess(t, s)
  {
    if s != "" && t != "" && s[0] == t[0] {
      LexTotal(s[1..], t[1..]);
      assert s == [s[0]] + s[1..] && t == [t[0]] + t[1..];
    }
  }

  lemma {:induction false} LexTransitive(s: string, t: string, u: string)
    requires LexLess(s, t) && LexLess(t, u)
    ensures LexLess(s, u)
  {
    if s != "" && s[0] == t[0] == u[0] {
      LexTransitive(s[1..], t[1..], u[1..]);
    }
  }

  // ---------------------------------------------------------------- filters

  predicate TextMatches(q: Query, lower: Lower, r: Row) {
    var app := if q.app != "" then lower(q.app) else "";
    var search := if q.search != "" then lower(q.search) else "";
    && (app == "" || Contains(app, lower(r.app)))
    && (q.bundle == "" || q.bundle == r.bundle)
    && (search == "" || Contains(search, lower(r.ocr + " " + r.window)))
  }

  predicate TooOld(q: Query, ts: int) {
    q.since.Some? && ts < q.since.value
  }

  predicate TooNew(q: Query, ts: int) {
    q.until.Some? && ts > q.until.value
  }

  /** The reference answer before the limit: every parsable row in the window that matches, in order. */
  function Selected(q: Query, lower: Lower, files: seq<Entry>): seq<Row> {
    if files == [] then []
    else if files[0].row.Some? && !TooOld(q, files[0].row.value.ts) && !TooNew(q, files[0].row.value.ts)
            && TextMatches(q, lower, files[0].row.value)
    then [files[0].row.value] + Selected(q, lower, files[1..])
    else Selected(q, lower, files[1..])
  }

  lemma {:induction false} SelectedSnoc(q: Query, lower: Lower, files: seq<Entry>, e: Entry)
    ensures Selected(q, lower, files + [e]) == Selected(q, lower, files) + Selected(q, lower, [e])
  {
    hide TextMatches, TooOld, TooNew;
    var all := files + [e];
    if files == [] {
      assert all == [e];
    } else {
      SelectedSnoc(q, lower, files[1..], e);
      assert all[0] == files[0] && all[1..] == files[1..] + [e];
    }
  }

  /** `needle` stands somewhere in `hay`. */
  ghost predicate Occurs(needle: string, hay: string) {
    exists i :: 0 <= i <= |hay| - |needle| && needle <= hay[i..]
  }

  /** The reference answer, exactly: file by file and in their order, a row is in it if its time is in the window and
      it has the texts asked for: the app in its app and the search in its texts, both without regard to case, and
      the very bundle. */
  lemma SelectedExactly(q: Query, lower: Lower, files: seq<Entry>, e: Entry)
    ensures Selected(q, lower, []) == []
    ensures Selected(q, lower, files + [e])
            == Selected(q, lower, files)
               + if && e.row.Some?
                    && (q.since.Some? ==> q.since.value <= e.row.value.ts)
                    && (q.until.Some? ==> e.row.value.ts <= q.until.value)
                    && (q.app != "" ==> Occurs(lower(q.app), lower(e.row.value.app)))
                    && (q.bundle != "" ==> e.row.value.bundle == q.bundle)
                    && (q.search != "" ==>
                          Occurs(lower(q.search), lower(e.row.value.ocr + " " + e.row.value.window)))
                 then [e.row.value] else []
  {
    SelectedSnoc(q, lower, files, e);
    assert [e][1..] == [];
    if e.row.Some? {
      var r := e.row.value;
      ContainsIsSubstring(lower(q.app), lower(r.app));
      ContainsIsSubstring(lower(q.search), lower(r.ocr + " " + r.window));
    }
    hide Occurs;
  }

  /** The row was saved under its own stamp. */
  predicate Stamped(e: Entry) {
    e.row.Some? ==> e.row.value.ts / 1000 == e.stamp
  }

  /** The exact window test, on the row's own time. */
  predicate Within(q: Query, ts: int) {
    !TooOld(q, ts) && !TooNew(q, ts)
  }

  // ---------------------------------------------------------------- the local store

  /** The walk over all files in visiting order: it ends at the first row that is too old, and tests
      the limit only after adding a row. */
  function LocalScan(q: Query, lower: Lower, files: seq<Entry>, limit: int, found: seq<Row>): seq<Row>
    decreases files
  {
    if files == [] then found
    else if files[0].row.None? then LocalScan(q, lower, files[1..], limit, found)
    else
      var r := files[0].row.value;
      if TooOld(q, r.ts) then found
      else if TooNew(q, r.ts) || !TextMatches(q, lower, r) then LocalScan(q, lower, files[1..], limit, found)
      else if |found| + 1 >= limit then found + [r]
      else LocalScan(q, lower, files[1..], limit, found + [r])
  }

  function InsertByName(x: Entry, s: seq<Entry>): seq<Entry> {
    if s == [] || LexLess(FileName(s[0].stamp), FileName(x.stamp)) then [x] + s else [s[0]] + InsertByName(x, s[1..])
  }

  /** One day's files sorted by name, last name first. */
  function SortByName(s: seq<Entry>): seq<Entry> {
    if s == [] then [] else InsertByName(s[0], SortByName(s[1..]))
  }

  function InsertDay(x: int, s: seq<int>): seq<int> {
    if s == [] || s[0] <= x then [x] + s else [s[0]] + InsertDay(x, s[1..])
  }

  function SortDays(s: seq<int>): seq<int> {
    if s == [] then [] else InsertDay(s[0], SortDays(s[1..]))
  }

  type Tree = map<int, seq<Entry>>

  /** The visiting order of the walk: the files of each listed day in turn. */
  function Visits(tree: Tree, days: seq<int>): seq<Entry> {
    if days == [] then []
    else (if days[0] in tree then SortByName(tree[days[0]]) else []) + Visits(tree, days[1..])
  }

  predicate NoRepeat(s: seq<Entry>) {
    forall i, j :: 0 <= i < j < |s| ==> s[i].stamp != s[j].stamp
  }

  predicate DistinctDays(s: seq<int>) {
    forall i, j :: 0 <= i < j < |s| ==> s[i] != s[j]
  }

  /** What saving keeps: each day folder holds files of that day, one per stamp, each holding a row of
      its own millisecond. */
  predicate DayOk(day: int, files: seq<Entry>) {
    && NoRepeat(files)
    && (forall e :: e in files ==> e.stamp / DAY_MS == day && Stamped(e))
  }

  /** The stamps have equally many digits. */
  predicate OneLength(files: seq<Entry>) {
    forall e, f :: e in files && f in files ==> |Decimal(e.stamp)| == |Decimal(f.stamp)|
  }

  predicate Before(e: Entry, f: Entry) {
    e.row.Some? && f.row.Some? && e.stamp < f.stamp
  }

  /** The names of a day's rows sort as their times. */
  predicate NamesSort(files: seq<Entry>) {
    forall e, f :: e in files && f in files && Before(e, f) ==> LexLess(FileName(e.stamp), FileName(f.stamp))
  }

  lemma OneLengthSorts(files: seq<Entry>)
    requires OneLength(files)
    ensures NamesSort(files)
  {
    hide Decimal, FileName, LexLess;
    forall e, f | e in files && f in files && Before(e, f) ensures LexLess(FileName(e.stamp), FileName(f.stamp)) {
      NameOrder(e.stamp, f.stamp);
    }
  }

  ghost predicate TreeOk(tree: Tree) {
    forall day :: day in tree ==> DayOk(day, tree[day])
  }

  /** Writing a file replaces the file of that name, or adds one. */
  function Put(files: seq<Entry>, e: Entry): seq<Entry> {
    if files == [] then [e]
    else if files[0].stamp == e.stamp then [e] + files[1..]
    else [files[0]] + Put(files[1..], e)
  }

  lemma {:induction false} PutMembers(files: seq<Entry>, e: Entry, x: Entry)
    requires NoRepeat(files)
    ensures x in Put(files, e) <==> x == e || (x in files && x.stamp != e.stamp)
    ensures NoRepeat(Put(files, e))
  {
    if files != [] {
      if files[0].stamp == e.stamp {
        assert forall y :: y in files[1..] ==> y.stamp != e.stamp;
      } else {
        PutMembers(files[1..], e, x);
        var rest := Put(files[1..], e);
        forall i | 0 <= i < |rest|
          ensures rest[i].stamp != files[0].stamp
        {
          PutMembers(files[1..], e, rest[i]);
        }
      }
    }
  }

  class FrameStore {
    var tree: Tree

    ghost predicate Valid()
      reads this
    {
      TreeOk(tree)
    }

    constructor ()
      ensures Valid() && tree == map[]
    {
      tree := map[];
    }

    /** Save a row: it is then the one file of its millisecond, and no other file changes. */
    method Save(row: Row)
      requires Valid()
      modifies this
      ensures Valid()
      ensures tree.Keys == old(tree).Keys + {row.ts / 1000 / DAY_MS}
      ensures forall day, e :: day in tree && e in tree[day] <==>
                                 (day == row.ts / 1000 / DAY_MS && e == Entry(row.ts / 1000, Some(row)))
                                 || (day in old(tree) && e in old(tree)[day] && e.stamp != row.ts / 1000)
    {
      var stamp := row.ts / 1000;
      var day := stamp / DAY_MS;
      var files := if day in tree then tree[day] else [];
      var e := Entry(stamp, Some(row));
      hide Decimal;
      forall x
        ensures x in Put(files, e) <==> x == e || (x in files && x.stamp != e.stamp)
      {
        PutMembers(files, e, x);
      }
      PutMembers(files, e, e);
      tree := tree[day := Put(files, e)];
      assert DayOk(day, tree[day]);
    }

    /** The early-exit query. `listing` is the order in which the operating system lists the folder. */
    method Query(q: Query, lower: Lower, limit: int, listing: seq<int>) returns (results: seq<Row>)
      ensures results == LocalScan(q, lower, Visits(tree, SortDays(listing)), limit, [])
    {
      hide TextMatches, SortByName;
      results := [];
      var days := SortDays(listing);
      ghost var answer := LocalScan(q, lower, Visits(tree, days), limit, []);
      for i := 0 to |days|
        invariant LocalScan(q, lower, Visits(tree, days[i..]), limit, results) == answer
      {
        assert days[i..][1..] == days[i + 1..];
        if days[i] !in tree {
          assert [] + Visits(tree, days[i + 1..]) == Visits(tree, days[i + 1..]);
          continue;
        }
        var jsons := SortByName(tree[days[i]]);
        ghost var later := Visits(tree, days[i + 1..]);
        assert jsons[0..] == jsons;
        for j := 0 to |jsons|
          invariant LocalScan(q, lower, jsons[j..] + later, limit, results) == answer
        {
          assert (jsons[j..] + later)[0] == jsons[j] && (jsons[j..] + later)[1..] == jsons[j + 1..] + later;
          if jsons[j].row.None? {
            continue;
          }
          var r := jsons[j].row.value;
          if TooOld(q, r.ts) {
            return;
          }
          if TooNew(q, r.ts) {
            continue;
          }
          if !TextMatches(q, lower, r) {
            continue;
          }
          results := results + [r];
          if |results| >= limit {
            return;
          }
        }
        assert jsons[|jsons|..] + later == later;
      }
    }
  }

  // ---------------------------------------------------------------- the mirror

  datatype Blob = Blob(day: int, file: Entry)

  /** The window as the mirror tests it: on the stamp in the blob's name. */
  predicate InWindow(q: Query, stamp: int) {
    !TooOld(q, 1000 * stamp) && !TooNew(q, 1000 * stamp)
  }

  function Candidates(q: Query, blobs: seq<Blob>): seq<Blob> {
    if blobs == [] then []
    else if InWindow(q, blobs[0].file.stamp) then [blobs[0]] + Candidates(q, blobs[1..])
    else Candidates(q, blobs[1..])
  }

  function InsertByTime(x: Blob, s: seq<Blob>): seq<Blob> {
    if s == [] || s[0].file.stamp < x.file.stamp || (s[0].file.stamp == x.file.stamp && s[0].day <= x.day)
    then [x] + s
    else [s[0]] + InsertByTime(x, s[1..])
  }

  /** Candidates sorted by time, then by name, last first. */
  function SortByTime(s: seq<Blob>): seq<Blob> {
    if s == [] then [] else InsertByTime(s[0], SortByTime(s[1..]))
  }

  /** The walk over the candidates: the limit is tested before each one. */
  function MirrorScan(q: Query, lower: Lower, blobs: seq<Blob>, limit: int, found: seq<Row>): seq<Row>
    decreases blobs
  {
    if blobs == [] || |found| >= limit then found
    else if blobs[0].file.row.Some? && TextMatches(q, lower, blobs[0].file.row.value)
    then MirrorScan(q, lower, blobs[1..], limit, found + [blobs[0].file.row.value])
    else MirrorScan(q, lower, blobs[1..], limit, found)
  }

  lemma CandidatesSnoc(q: Query, blobs: seq<Blob>, b: Blob)
    ensures Candidates(q, blobs + [b])
            == if InWindow(q, b.file.stamp) then Candidates(q, blobs) + [b] else Candidates(q, blobs)
  {
    if blobs == [] {
      assert blobs + [b] == [b] && [b][1..] == [];
    } else {
      assert (blobs + [b])[0] == blobs[0] && (blobs + [b])[1..] == blobs[1..] + [b];
      CandidatesSnoc(q, blobs[1..], b);
    }
  }

  /** The mirror's query; `blobs` is what the store lists, in any order. */
  method QueryFrames(blobs: seq<Blob>, q: Query, lower: Lower, limit: int) returns (out: seq<Row>)
    ensures out == MirrorScan(q, lower, SortByTime(Candidates(q, blobs)), limit, [])
  {
    hide TextMatches;
    var candidates: seq<Blob> := [];
    for i := 0 to |blobs|
      invariant candidates == Candidates(q, blobs[..i])
    {
      CandidatesSnoc(q, blobs[..i], blobs[i]);
      assert blobs[..i + 1] == blobs[..i] + [blobs[i]];
      var stamp := blobs[i].file.stamp;
      if TooOld(q, 1000 * stamp) {
        continue;
      }
      if TooNew(q, 1000 * stamp) {
        continue;
      }
      candidates := candidates + [blobs[i]];
    }
    assert blobs[..|blobs|] == blobs;
    candidates := SortByTime(candidates);
    out := [];
    for i := 0 to |candidates|
      invariant MirrorScan(q, lower, candidates[i..], limit, out) == MirrorScan(q, lower, candidates, limit, [])
    {
      assert candidates[i..][1..] == candidates[i + 1..];
      if |out| >= limit {
        break;
      }
      if candidates[i].file.row.None? {
        continue;
      }
      var r := candidates[i].file.row.value;
      if !TextMatches(q, lower, r) {
        continue;
      }
      out := out + [r];
    }
  }

  // ---------------------------------------------------------------- both are filter, then take

  /** Rows in the order of visiting, newest first. */
  ghost predicate RowsDescend(files: seq<Entry>) {
    forall i, j :: 0 <= i < j < |files| && files[i].row.Some? && files[j].row.Some? ==> files[i].stamp > files[j].stamp
  }

  lemma {:induction false} NoneWhenTooOld(q: Query, lower: Lower, files: seq<Entry>, ts: int)
    requires TooOld(q, ts) && forall e :: e in files && e.row.Some? ==> e.row.value.ts <= ts
    ensures Selected(q, lower, files) == []
  {
    if files != [] {
      hide TextMatches;
      assert files[0] in files;
      NoneWhenTooOld(q, lower, files[1..], ts);
    }
  }

  lemma TakeCons(r: Row, rows: seq<Row>, n: int)
    requires n >= 1
    ensures Take([r] + rows, n) == [r] + Take(rows, n - 1)
  {
    if 1 < n < |rows| + 1 {
      assert ([r] + rows)[..n] == [r] + rows[..n - 1];
    }
  }

  /** The early exit loses nothing, and the late limit test yields at least one row if there is any. */
  lemma {:induction false} LocalIsFilterThenTake(q: Query, lower: Lower, files: seq<Entry>, limit: int,
                                                 found: seq<Row>)
    requires (q.since.Some? ==> RowsDescend(files)) && forall e :: e in files ==> Stamped(e)
    ensures LocalScan(q, lower, files, limit, found)
            == found + Take(Selected(q, lower, files), if limit - |found| >= 1 then limit - |found| else 1)
    decreases files
  {
    if files != [] {
      hide TextMatches;
      assert files[0] in files;
      var rest := files[1..];
      if files[0].row.Some? && TooOld(q, files[0].row.value.ts) {
        NoneWhenTooOld(q, lower, files, files[0].row.value.ts);
      } else if files[0].row.Some? && !TooNew(q, files[0].row.value.ts) && TextMatches(q, lower, files[0].row.value) {
        var r := files[0].row.value;
        TakeCons(r, Selected(q, lower, rest), if limit - |found| >= 1 then limit - |found| else 1);
        if |found| + 1 < limit {
          LocalIsFilterThenTake(q, lower, rest, limit, found + [r]);
        }
      } else {
        LocalIsFilterThenTake(q, lower, rest, limit, found);
      }
    }
  }

  /** The rows of the blobs that match by text. */
  function Shown(q: Query, lower: Lower, blobs: seq<Blob>): seq<Row> {
    if blobs == [] then []
    else if blobs[0].file.row.Some? && TextMatches(q, lower, blobs[0].file.row.value)
    then [blobs[0].file.row.value] + Shown(q, lower, blobs[1..])
    else Shown(q, lower, blobs[1..])
  }

  /** The mirror's early limit test is filter-then-take, for every limit. */
  lemma {:induction false} MirrorIsFilterThenTake(q: Query, lower: Lower, blobs: seq<Blob>, limit: int,
                                                  found: seq<Row>)
    ensures MirrorScan(q, lower, blobs, limit, found) == found + Take(Shown(q, lower, blobs), limit - |found|)
    decreases blobs
  {
    if blobs != [] && |found| < limit {
      hide TextMatches;
      if blobs[0].file.row.Some? && TextMatches(q, lower, blobs[0].file.row.value) {
        var r := blobs[0].file.row.value;
        TakeCons(r, Shown(q, lower, blobs[1..]), limit - |found|);
        MirrorIsFilterThenTake(q, lower, blobs[1..], limit, found + [r]);
      } else {
        MirrorIsFilterThenTake(q, lower, blobs[1..], limit, found);
      }
    }
  }

  // ---------------------------------------------------------------- the local walk

  lemma {:induction false} InsertNamed(x: Entry, s: seq<Entry>, e: Entry)
    ensures e in InsertByName(x, s) <==> e == x || e in s
  {
    if s != [] && !LexLess(FileName(s[0].stamp), FileName(x.stamp)) {
      InsertNamed(x, s[1..], e);
      assert e in s <==> e == s[0] || e in s[1..];
    }
  }

  lemma {:induction false} SortNamed(s: seq<Entry>, e: Entry)
    ensures e in SortByName(s) <==> e in s
  {
    if s != [] {
      SortNamed(s[1..], e);
      InsertNamed(s[0], SortByName(s[1..]), e);
    }
  }

  /** No name comes before a greater one. */
  ghost predicate NamesFall(s: seq<Entry>) {
    forall i, j :: 0 <= i < j < |s| ==> !LexLess(FileName(s[i].stamp), FileName(s[j].stamp))
  }

  lemma FirstName(x: Entry, s: seq<Entry>)
    requires NamesFall(s) && s != [] && LexLess(FileName(s[0].stamp), FileName(x.stamp))
    ensures NamesFall([x] + s)
  {
    hide FileName, LexLess;
    forall j | 0 <= j < |s| ensures !LexLess(FileName(x.stamp), FileName(s[j].stamp)) {
      if LexLess(FileName(x.stamp), FileName(s[j].stamp)) {
        LexTransitive(FileName(s[0].stamp), FileName(x.stamp), FileName(s[j].stamp));
        LexAsymmetric(FileName(s[0].stamp), FileName(s[j].stamp));
      }
    }
  }

  lemma {:induction false} InsertFalls(x: Entry, s: seq<Entry>)
    requires NamesFall(s) && forall e :: e in s ==> e.stamp != x.stamp
    ensures NamesFall(InsertByName(x, s))
  {
    hide FileName, LexLess;
    if s != [] {
      if LexLess(FileName(s[0].stamp), FileName(x.stamp)) {
        FirstName(x, s);
      } else {
        InsertFalls(x, s[1..]);
        var rest := InsertByName(x, s[1..]);
        forall i | 0 <= i < |rest| ensures !LexLess(FileName(s[0].stamp), FileName(rest[i].stamp)) {
          InsertNamed(x, s[1..], rest[i]);
        }
      }
    }
  }

  lemma InsertApart(x: Entry, s: seq<Entry>)
    requires NoRepeat(s) && forall e :: e in s ==> e.stamp != x.stamp
    ensures NoRepeat(InsertByName(x, s))
  {
    hide FileName, LexLess;
    if s != [] && !LexLess(FileName(s[0].stamp), FileName(x.stamp)) {
      InsertApart(x, s[1..]);
      var rest := InsertByName(x, s[1..]);
      forall i | 0 <= i < |rest| ensures rest[i].stamp != s[0].stamp {
        InsertNamed(x, s[1..], rest[i]);
      }
    }
  }

  /** Sorting a day by name, last name first. */
  lemma {:induction false} SortFalls(s: seq<Entry>)
    requires NoRepeat(s)
    ensures NamesFall(SortByName(s)) && NoRepeat(SortByName(s))
  {
    if s != [] {
      SortFalls(s[1..]);
      hide InsertByName, NamesFall;
      forall e | e in SortByName(s[1..]) ensures e.stamp != s[0].stamp {
        SortNamed(s[1..], e);
      }
      InsertFalls(s[0], SortByName(s[1..]));
      InsertApart(s[0], SortByName(s[1..]));
    }
  }

  /** The rows of a day are visited newest first if and only if their names sort as their times. */
  lemma DayDescendsExactly(files: seq<Entry>)
    requires NoRepeat(files)
    ensures RowsDescend(SortByName(files)) <==> NamesSort(files)
  {
    var s := SortByName(files);
    SortFalls(files);
    hide FileName, LexLess, SortByName;
    if NamesSort(files) {
      forall i, j | 0 <= i < j < |s| && s[i].row.Some? && s[j].row.Some? ensures s[i].stamp > s[j].stamp {
        SortNamed(files, s[i]);
        SortNamed(files, s[j]);
        assert s[i].stamp < s[j].stamp ==> Before(s[i], s[j]);
      }
    }
    if RowsDescend(s) {
      forall e, f | e in files && f in files && Before(e, f) ensures LexLess(FileName(e.stamp), FileName(f.stamp)) {
        SortNamed(files, e);
        SortNamed(files, f);
        var i :| 0 <= i < |s| && s[i] == e;
        var j :| 0 <= j < |s| && s[j] == f;
        assert j < i;
        DifferentNames(e.stamp, f.stamp);
        LexTotal(FileName(e.stamp), FileName(f.stamp));
      }
    }
  }

  lemma {:induction false} SameDecimal(a: nat, b: nat)
    requires Decimal(a) == Decimal(b)
    ensures a == b
  {
    NameOrder(a, b);
    NameOrder(b, a);
    hide LexLess;
    LexAsymmetric(FileName(a), FileName(a));
  }

  lemma DifferentNames(a: nat, b: nat)
    requires a != b
    ensures FileName(a) != FileName(b)
  {
    hide Decimal;
    if FileName(a) == FileName(b) {
      assert Decimal(a) == FileName(a)[..|FileName(a)| - 5];
      assert Decimal(b) == FileName(b)[..|FileName(b)| - 5];
      SameDecimal(a, b);
    }
  }

  lemma {:induction false} InsertDays(x: int, s: seq<int>, d: int)
    requires LastFirst(s) && x !in s
    ensures d in InsertDay(x, s) <==> d == x || d in s
    ensures LastFirst(InsertDay(x, s))
  {
    if s != [] && s[0] > x {
      InsertDays(x, s[1..], d);
      assert d in s <==> d == s[0] || d in s[1..];
      var rest := InsertDay(x, s[1..]);
      forall i | 0 <= i < |rest|
        ensures rest[i] < s[0]
      {
        InsertDays(x, s[1..], rest[i]);
      }
    }
  }

  predicate LastFirst(days: seq<int>) {
    forall i, j :: 0 <= i < j < |days| ==> days[i] > days[j]
  }

  lemma {:induction false} SortedDays(s: seq<int>, d: int)
    requires DistinctDays(s)
    ensures d in SortDays(s) <==> d in s
    ensures LastFirst(SortDays(s))
  {
    if s != [] {
      SortedDays(s[1..], d);
      SortedDays(s[1..], s[0]);
      assert s[0] !in s[1..];
      InsertDays(s[0], SortDays(s[1..]), d);
    }
  }

  lemma {:induction false} Visited(tree: Tree, days: seq<int>, e: Entry)
    ensures e in Visits(tree, days) <==> exists day :: day in days && day in tree && e in tree[day]
  {
    if days != [] {
      Visited(tree, days[1..], e);
      if days[0] in tree {
        SortNamed(tree[days[0]], e);
      }
      assert forall day :: day in days <==> day == days[0] || day in days[1..];
    }
  }

  /** In every day folder the names sort as the times. */
  ghost predicate NamesInOrder(tree: Tree) {
    forall day :: day in tree ==> NamesSort(tree[day])
  }

  /** The walk meets every row newest first, across days as within them. */
  lemma {:induction false} VisitsDescend(tree: Tree, days: seq<int>)
    requires TreeOk(tree) && LastFirst(days) && NamesInOrder(tree)
    ensures RowsDescend(Visits(tree, days))
  {
    if days != [] {
      assert days[0] in tree ==> NamesSort(tree[days[0]]);
      hide NamesSort, SortByName, DayOk;
      var rest := Visits(tree, days[1..]);
      VisitsDescend(tree, days[1..]);
      if days[0] in tree {
        var first := SortByName(tree[days[0]]);
        FirstDay(tree, days);
        assert RowsDescend(first + rest);
      } else {
        assert [] + rest == rest;
      }
    }
  }

  lemma FirstDay(tree: Tree, days: seq<int>)
    requires TreeOk(tree) && LastFirst(days) && days != [] && days[0] in tree && NamesSort(tree[days[0]])
    ensures var first, rest := SortByName(tree[days[0]]), Visits(tree, days[1..]);
            RowsDescend(first) && forall i, j :: 0 <= i < |first| && 0 <= j < |rest| ==> first[i].stamp > rest[j].stamp
  {
    var first, rest := SortByName(tree[days[0]]), Visits(tree, days[1..]);
    assert DayOk(days[0], tree[days[0]]);
    DayDescendsExactly(tree[days[0]]);
    hide NamesSort, SortByName, Visits, RowsDescend;
    forall i, j | 0 <= i < |first| && 0 <= j < |rest|
      ensures first[i].stamp > rest[j].stamp
    {
      SortNamed(tree[days[0]], first[i]);
      Visited(tree, days[1..], rest[j]);
      var day :| day in days[1..] && day in tree && rest[j] in tree[day];
      LaterDays(tree, days, day, first[i], rest[j]);
    }
  }

  lemma LaterDays(tree: Tree, days: seq<int>, day: int, e: Entry, f: Entry)
    requires TreeOk(tree) && LastFirst(days) && days != [] && days[0] in tree && day in days[1..] && day in tree
    requires e in tree[days[0]] && f in tree[day]
    ensures e.stamp > f.stamp
  {
    assert DayOk(days[0], tree[days[0]]) && DayOk(day, tree[day]);
    DayOrder(e.stamp, f.stamp);
  }

  lemma DayOrder(a: int, b: int)
    requires a / DAY_MS > b / DAY_MS
    ensures a > b
  {
  }

  /** The listing names every day folder once; other names in it are no folders and are skipped. */
  ghost predicate Lists(tree: Tree, listing: seq<int>) {
    DistinctDays(listing) && forall day :: day in tree ==> day in listing
  }

  ghost predicate InTree(tree: Tree, e: Entry) {
    exists day :: day in tree && e in tree[day]
  }

  /** The walk meets exactly the files there are, whatever order the folders were listed in. */
  lemma VisitsAll(tree: Tree, listing: seq<int>)
    requires TreeOk(tree) && Lists(tree, listing)
    ensures forall e :: e in Visits(tree, SortDays(listing)) <==> InTree(tree, e)
    ensures forall e :: e in Visits(tree, SortDays(listing)) ==> Stamped(e)
  {
    hide Visits, NoRepeat, Stamped;
    var days := SortDays(listing);
    SortedDays(listing, 0);
    forall e
      ensures e in Visits(tree, days) <==> InTree(tree, e)
      ensures e in Visits(tree, days) ==> Stamped(e)
    {
      Visited(tree, days, e);
      forall day | day in tree
        ensures day in days
      {
        assert DayOk(day, tree[day]);
        SortedDays(listing, day);
      }
    }
  }

  // ---------------------------------------------------------------- the mirror's order

  /** The store mirrors the tree: one blob for each file of each day. */
  ghost predicate Mirrors(tree: Tree, blobs: seq<Blob>) {
    && (forall b: Blob :: b in blobs <==> b.day in tree && b.file in tree[b.day])
    && (forall i, j :: 0 <= i < j < |blobs| ==> blobs[i] != blobs[j])
  }

  predicate StampsApart(blobs: seq<Blob>) {
    forall i, j :: 0 <= i < j < |blobs| ==> blobs[i].file.stamp != blobs[j].file.stamp
  }

  predicate BlobsDescend(blobs: seq<Blob>) {
    forall i, j :: 0 <= i < j < |blobs| ==> blobs[i].file.stamp > blobs[j].file.stamp
  }

  lemma OnePerStamp(files: seq<Entry>, e: Entry, f: Entry)
    requires NoRepeat(files) && e in files && f in files
    ensures e.stamp == f.stamp ==> e == f
  {
  }

  lemma MirroredApart(tree: Tree, blobs: seq<Blob>)
    requires TreeOk(tree) && Mirrors(tree, blobs)
    ensures StampsApart(blobs)
  {
    forall i, j | 0 <= i < j < |blobs|
      ensures blobs[i].file.stamp != blobs[j].file.stamp
    {
      var a, b := blobs[i], blobs[j];
      assert a in blobs && b in blobs && a != b;
      assert DayOk(a.day, tree[a.day]) && DayOk(b.day, tree[b.day]);
      assert a.day == a.file.stamp / DAY_MS && b.day == b.file.stamp / DAY_MS;
      if a.day == b.day {
        OnePerStamp(tree[a.day], a.file, b.file);
      }
    }
  }

  lemma {:induction false} CandidateIs(q: Query, blobs: seq<Blob>, b: Blob)
    ensures b in Candidates(q, blobs) <==> b in blobs && InWindow(q, b.file.stamp)
  {
    if blobs != [] {
      CandidateIs(q, blobs[1..], b);
      assert b in blobs <==> b == blobs[0] || b in blobs[1..];
    }
  }

  lemma {:induction false} CandidatesApart(q: Query, blobs: seq<Blob>)
    requires StampsApart(blobs)
    ensures StampsApart(Candidates(q, blobs))
  {
    if blobs != [] {
      CandidatesApart(q, blobs[1..]);
      var rest := Candidates(q, blobs[1..]);
      forall i | 0 <= i < |rest|
        ensures rest[i].file.stamp != blobs[0].file.stamp
      {
        CandidateIs(q, blobs[1..], rest[i]);
      }
    }
  }

  lemma {:induction false} InsertTimed(x: Blob, s: seq<Blob>, b: Blob)
    requires BlobsDescend(s) && forall y :: y in s ==> y.file.stamp != x.file.stamp
    ensures b in InsertByTime(x, s) <==> b == x || b in s
    ensures BlobsDescend(InsertByTime(x, s))
  {
    if s != [] && s[0].file.stamp > x.file.stamp {
      InsertTimed(x, s[1..], b);
      assert b in s <==> b == s[0] || b in s[1..];
      var rest := InsertByTime(x, s[1..]);
      forall i | 0 <= i < |rest|
        ensures rest[i].file.stamp < s[0].file.stamp
      {
        InsertTimed(x, s[1..], rest[i]);
      }
    }
  }

  lemma {:induction false} SortTimed(s: seq<Blob>, b: Blob)
    requires StampsApart(s)
    ensures b in SortByTime(s) <==> b in s
    ensures BlobsDescend(SortByTime(s))
  {
    if s != [] {
      SortTimed(s[1..], b);
      forall y | y in SortByTime(s[1..])
        ensures y.file.stamp != s[0].file.stamp
      {
        SortTimed(s[1..], y);
      }
      InsertTimed(s[0], SortByTime(s[1..]), b);
      assert b in s <==> b == s[0] || b in s[1..];
    }
  }

  /** The mirror visits the blobs of the window, newest first. */
  lemma SortedCandidates(tree: Tree, blobs: seq<Blob>, q: Query, b: Blob)
    requires TreeOk(tree) && Mirrors(tree, blobs)
    ensures b in SortByTime(Candidates(q, blobs)) <==> b in blobs && InWindow(q, b.file.stamp)
    ensures BlobsDescend(SortByTime(Candidates(q, blobs)))
  {
    MirroredApart(tree, blobs);
    hide TreeOk, Mirrors, InWindow, Candidates, SortByTime, StampsApart, BlobsDescend;
    CandidatesApart(q, blobs);
    SortTimed(Candidates(q, blobs), b);
    CandidateIs(q, blobs, b);
  }
}
