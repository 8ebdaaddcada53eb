/** The bodies of an import, from the archive's rows and the settings alone. */
module ImportBodies {
  import opened Collections
  import opened ImportChunks

  // ----- The limits in plain numbers -----

  ghost predicate AnyImage(frames: seq<Row>) {
    exists r :: r in frames && r.isDict && r.hasImage
  }

  /** The image setting counts when a dict frame has an image, the plain one otherwise, and never less than one. */
  ghost predicate RecordLimit(st: Settings, frames: seq<Row>, n: int) {
    && n >= 1
    && (AnyImage(frames) ==> n == st.imageBatch || (n == 1 && st.imageBatch < 1))
    && (!AnyImage(frames) ==> n == st.batch || (n == 1 && st.batch < 1))
  }

  /** The byte setting, or one mebibyte if that is more. */
  predicate ByteLimit(st: Settings, n: int) {
    n >= 1048576 && n >= st.maxBytes && (n == 1048576 || n == st.maxBytes)
  }

  lemma LimitsAre(st: Settings, frames: seq<Row>)
    ensures RecordLimit(st, frames, MaxRecords(st, frames)) && ByteLimit(st, MaxBytes(st))
    ensures forall n :: RecordLimit(st, frames, n) ==> n == MaxRecords(st, frames)
    ensures forall n :: ByteLimit(st, n) ==> n == MaxBytes(st)
  {
    if HasImages(frames) {
      var i :| 0 <= i < |frames| && frames[i].isDict && frames[i].hasImage;
      assert frames[i] in frames;
    }
    assert HasImages(frames) <==> AnyImage(frames);
  }

  /** The text of the rows and two bytes for each. */
  function TextBytes(rows: seq<Row>): nat {
    if rows == [] then 0 else |rows[0].json| + 2 + TextBytes(rows[1..])
  }

  // ----- The bodies as text -----

  /** A list of rows is their texts, with a comma between any two. */
  lemma {:induction false} JoinIs(a: seq<Row>, b: seq<Row>)
    ensures Join([]) == "" && (|a| == 1 ==> Join(a) == a[0].json)
    ensures a != [] && b != [] ==> Join(a + b) == Join(a) + "," + Join(b)
  {
    if a != [] && b != [] {
      assert (a + b)[1..] == a[1..] + b;
      JoinHead(a + b);
      if |a| > 1 {
        JoinIs(a[1..], b);
        JoinHead(a);
        hide Join;
        assert a[0].json + "," + (Join(a[1..]) + "," + Join(b)) == (a[0].json + "," + Join(a[1..])) + "," + Join(b);
      }
    }
  }

  lemma JoinHead(rows: seq<Row>)
    requires |rows| > 1
    ensures Join(rows) == rows[0].json + "," + Join(rows[1..])
  {
  }

  // ----- Groups and bodies -----

  function Rows(g: seq<Item>): seq<Row> {
    if g == [] then [] else Rows(g[..|g| - 1]) + [g[|g| - 1].row]
  }

  function BodyRows(c: Chunk): seq<Row> { c.frames + c.audio }

  ghost predicate FramesFirst(g: seq<Item>) {
    forall i, j :: 0 <= i < j < |g| && g[i].kind == Audio ==> g[j].kind == Audio
  }

  lemma {:induction false} RowsOfBody(g: seq<Item>)
    requires FramesFirst(g)
    ensures BodyRows(ChunkOf(g)) == Rows(g)
  {
    if g != [] {
      var n := |g| - 1;
      RowsOfBody(g[..n]);
      var frames, audio, row := RowsOf(Frame, g[..n]), RowsOf(Audio, g[..n]), g[n].row;
      if g[n].kind == Frame {
        OnlyFrames(g[..n]);
        assert frames + [] == frames && frames + [row] + [] == frames + [row];
      } else {
        assert frames + (audio + [row]) == (frames + audio) + [row];
      }
    }
  }

  lemma {:induction false} RowsAre(g: seq<Item>)
    ensures |Rows(g)| == |g| && Bytes(g) == TextBytes(Rows(g))
    ensures g != [] ==> Rows(g)[0] == g[0].row
  {
    if g != [] {
      var n := |g| - 1;
      RowsAre(g[..n]);
      TextBytesSnoc(Rows(g[..n]), g[n].row);
    }
  }

  lemma {:induction false} OnlyFrames(g: seq<Item>)
    requires forall i :: 0 <= i < |g| ==> g[i].kind == Frame
    ensures RowsOf(Audio, g) == []
  {
    if g != [] { OnlyFrames(g[..|g| - 1]); }
  }

  lemma {:induction false} TextBytesSnoc(rows: seq<Row>, r: Row)
    ensures TextBytes(rows + [r]) == TextBytes(rows) + |r.json| + 2
  {
    if rows == [] {
      assert [] + [r] == [r];
    } else {
      TextBytesSnoc(rows[1..], r);
      assert (rows + [r])[1..] == rows[1..] + [r];
    }
  }

  /** A group of a split is a stretch of what is split. */
  lemma {:induction false} GroupInOrder(s: seq<seq<Item>>, i: nat)
    requires i < |s| && FramesFirst(Flatten(s))
    ensures FramesFirst(s[i])
  {
    var rest := Flatten(s[1..]);
    assert Flatten(s) == s[0] + rest;
    if i == 0 {
      forall j, k | 0 <= j < k < |s[0]| && s[0][j].kind == Audio ensures s[0][k].kind == Audio {
        assert Flatten(s)[j] == s[0][j] && Flatten(s)[k] == s[0][k];
      }
    } else {
      forall j, k | 0 <= j < k < |rest| && rest[j].kind == Audio ensures rest[k].kind == Audio {
        assert Flatten(s)[|s[0]| + j] == rest[j] && Flatten(s)[|s[0]| + k] == rest[k];
      }
      GroupInOrder(s[1..], i - 1);
    }
  }

  lemma ItemsInOrder(frames: seq<Row>, audio: seq<Row>)
    ensures FramesFirst(Items(frames, audio))
  {
    TaggedKind(Frame, frames);
    TaggedKind(Audio, audio);
  }

  lemma {:induction false} TaggedKind(kind: Kind, rows: seq<Row>)
    ensures forall x :: x in Tagged(kind, rows) ==> x.kind == kind
  {
    if rows != [] { TaggedKind(kind, rows[1..]); }
  }

  // ----- A body ends only where the next record does not fit -----

  /** The first item of each further group does not fit into the group before it. */
  ghost predicate Full(l: Limits, s: seq<seq<Item>>) {
    && (forall i :: 0 <= i < |s| ==> s[i] != [])
    && forall i :: 0 < i < |s| ==> TooMuch(l, s[i - 1], s[i])
  }

  predicate TooMuch(l: Limits, g: seq<Item>, next: seq<Item>) {
    next != [] && (|g| >= l.maxRecords || l.base + Bytes(g) + |next[0].row.json| + 2 > l.maxBytes)
  }

  lemma {:induction false} GreedyFills(l: Limits, current: seq<Item>, items: seq<Item>)
    ensures var s := Greedy(l, current, items);
            && Full(l, s)
            && (current + items != [] <==> s != [])
            && (s != [] && current != [] ==> current <= s[0])
            && (s != [] && current == [] ==> s[0][0] == items[0])
    decreases |items|
  {
    if items != [] {
      var x, rest := items[0], items[1..];
      if current != [] && (|current| >= l.maxRecords || l.base + Bytes(current) + RowBytes(x.row) > l.maxBytes) {
        GreedyFills(l, [x], rest);
        var s := Greedy(l, [x], rest);
        assert s[0][0] == x;
        hide Bytes, Greedy;
        FullCons(l, current, s);
      } else {
        GreedyFills(l, current + [x], rest);
      }
    }
  }

  lemma FullCons(l: Limits, g: seq<Item>, s: seq<seq<Item>>)
    requires Full(l, s) && g != [] && s != [] && TooMuch(l, g, s[0])
    ensures Full(l, [g] + s)
  {
    hide TooMuch;
    var t := [g] + s;
    forall i | 0 < i < |t| ensures TooMuch(l, t[i - 1], t[i]) {
      if i > 1 { assert TooMuch(l, s[i - 2], s[i - 1]); }
    }
  }

  /** The bytes the packer reckons for a body: the empty body, a reserve, and its rows. */
  function Reckoned(head: string, c: Chunk): nat {
    |head| + 35 + 1024 + TextBytes(BodyRows(c))
  }

  /** Main result, exact: every body obeys the two limits, a lone record apart; no body is empty unless the archive
      holds no record; and a body ends only where the first record of the next one would break a limit. */
  lemma BodiesExactly(head: string, st: Settings, frames: seq<Row>, audio: seq<Row>, records: int, bytes: int)
    requires RecordLimit(st, frames, records) && ByteLimit(st, bytes)
    ensures var cs := Chunks(head, st, frames, audio);
            && (forall i :: 0 <= i < |cs| ==>
                  || |BodyRows(cs[i])| == 1
                  || (|BodyRows(cs[i])| <= records
                      && (Reckoned(head, cs[i]) <= bytes || BodyRows(cs[i]) == [])))
            && (forall i :: 0 <= i < |cs| ==> BodyRows(cs[i]) != [] || (|cs| == 1 && Items(frames, audio) == []))
            && (forall i :: 0 < i < |cs| ==>
                  && BodyRows(cs[i]) != []
                  && (|BodyRows(cs[i - 1])| >= records
                      || Reckoned(head, cs[i - 1]) + |BodyRows(cs[i])[0].json| + 2 > bytes))
  {
    LimitsAre(st, frames);
    var l := LimitsOf(head, st, frames);
    var s, cs := Greedy(l, [], Items(frames, audio)), Chunks(head, st, frames, audio);
    GreedyFills(l, [], Items(frames, audio));
    assert [] + Items(frames, audio) == Items(frames, audio);
    EncodeLength(head, Chunk([], []));
    assert l.base == |head| + 35 + 1024;
    hide Greedy, Items, RecordLimit, ByteLimit, MaxBytes, MaxRecords, ChunkOf, ChunksOf, Encode, Join;
    if s == [] {
      assert cs == [Chunk([], [])];
    } else {
      ChunksOfLength(s);
      assert cs == ChunksOf(s);
      forall i | 0 <= i < |s| ensures BodyIs(l, s[i], cs[i]) {
        BodyOfGroup(head, st, frames, audio, i);
      }
      hide Rows, TextBytes, Bytes, Chunks, BodyRows;
      forall i | 0 < i < |cs|
        ensures BodyRows(cs[i]) != [] && (|BodyRows(cs[i - 1])| >= records
                || Reckoned(head, cs[i - 1]) + |BodyRows(cs[i])[0].json| + 2 > bytes)
      {
        assert TooMuch(l, s[i - 1], s[i]) && BodyIs(l, s[i - 1], cs[i - 1]) && BodyIs(l, s[i], cs[i]);
      }
    }
  }

  /** A body holds the rows of its group, and the group fits. */
  ghost predicate BodyIs(l: Limits, g: seq<Item>, c: Chunk) {
    && |BodyRows(c)| == |g| && Bytes(g) == TextBytes(BodyRows(c)) && Fits(l, g)
    && g != [] && BodyRows(c) != [] && BodyRows(c)[0] == g[0].row
  }

  lemma BodyOfGroup(head: string, st: Settings, frames: seq<Row>, audio: seq<Row>, i: nat)
    requires var s := Greedy(LimitsOf(head, st, frames), [], Items(frames, audio)); i < |s|
    ensures var l := LimitsOf(head, st, frames);
            var s := Greedy(l, [], Items(frames, audio));
            |ChunksOf(s)| == |s| && BodyIs(l, s[i], ChunksOf(s)[i])
  {
    var l := LimitsOf(head, st, frames);
    var items := Items(frames, audio);
    var s := Greedy(l, [], items);
    GreedyIsSplit(l, [], items);
    GreedyFills(l, [], items);
    ItemsInOrder(frames, audio);
    assert [] + items == items;
    ChunksOfAt(s, i);
    GroupInOrder(s, i);
    RowsOfBody(s[i]);
    RowsAre(s[i]);
    hide Greedy, Items, LimitsOf, FramesFirst, ChunkOf, ChunksOf, Rows, TextBytes, Bytes, TooMuch, Flatten;
  }
}
