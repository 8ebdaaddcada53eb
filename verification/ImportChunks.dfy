/** Splitting a migration archive into request bodies: greedy packing under a record limit and
    a byte limit. Text is a sequence of UTF-8 bytes, one `char` each. */
module ImportChunks {
  import opened Collections

  /** An entry of the archive's lists: a dict with its compact JSON, or something else. */
  datatype Row = Row(isDict: bool, json: string, hasImage: bool)

  datatype Kind = Frame | Audio

  datatype Item = Item(kind: Kind, row: Row)

  datatype Chunk = Chunk(frames: seq<Row>, audio: seq<Row>)

  /** Environment settings; the defaults are 32 MiB, 25 and 2000. */
  datatype Settings = Settings(maxBytes: int, imageBatch: int, batch: int)

  function MaxBytes(s: Settings): int { Max(1024 * 1024, s.maxBytes) }

  predicate HasImages(frames: seq<Row>) {
    exists i :: 0 <= i < |frames| && frames[i].isDict && frames[i].hasImage
  }

  function MaxRecords(s: Settings, frames: seq<Row>): nat {
    Max(1, if HasImages(frames) then s.imageBatch else s.batch)
  }

  // ----- The request body -----

  function Join(rows: seq<Row>): string {
    if rows == [] then "" else if |rows| == 1 then rows[0].json else rows[0].json + "," + Join(rows[1..])
  }

  /** Compact JSON of a body; `head` holds the opening brace and the archive's other fields. */
  function Encode(head: string, c: Chunk): string {
    head + "\"frames\":[" + Join(c.frames) + "],\"audio_transcripts\":[" + Join(c.audio) + "]}"
  }

  function BaseBytes(head: string): nat {
    |Encode(head, Chunk([], []))| + 1024
  }

  function RowBytes(row: Row): nat {
    |row.json| + 2
  }

  // ----- Groups of items -----

  function Bytes(g: seq<Item>): nat {
    if g == [] then 0 else Bytes(g[..|g| - 1]) + RowBytes(g[|g| - 1].row)
  }

  /** The limits as the packer accounts for them; one record may always travel alone. */
  datatype Limits = Limits(base: nat, maxBytes: int, maxRecords: nat)

  predicate Fits(l: Limits, g: seq<Item>) {
    |g| == 1 || (1 <= |g| <= l.maxRecords && l.base + Bytes(g) <= l.maxBytes)
  }

  function Flatten(s: seq<seq<Item>>): seq<Item> {
    if s == [] then [] else s[0] + Flatten(s[1..])
  }

  /** An order-preserving split of `items` whose groups obey the limits. */
  ghost predicate IsSplit(l: Limits, s: seq<seq<Item>>, items: seq<Item>) {
    Flatten(s) == items && forall i :: 0 <= i < |s| ==> Fits(l, s[i])
  }

  /** What the packer does with the rest of the items while `current` is open. */
  function Greedy(l: Limits, current: seq<Item>, items: seq<Item>): seq<seq<Item>>
    decreases |items|
  {
    if items == [] then (if current == [] then [] else [current])
    else if current != [] && (|current| >= l.maxRecords
                              || l.base + Bytes(current) + RowBytes(items[0].row) > l.maxBytes) then
      [current] + Greedy(l, [items[0]], items[1..])
    else Greedy(l, current + [items[0]], items[1..])
  }

  function RowsOf(kind: Kind, g: seq<Item>): seq<Row> {
    if g == [] then []
    else if g[|g| - 1].kind == kind then RowsOf(kind, g[..|g| - 1]) + [g[|g| - 1].row]
    else RowsOf(kind, g[..|g| - 1])
  }

  function ChunkOf(g: seq<Item>): Chunk {
    Chunk(RowsOf(Frame, g), RowsOf(Audio, g))
  }

  function ChunksOf(s: seq<seq<Item>>): seq<Chunk> {
    if s == [] then [] else [ChunkOf(s[0])] + ChunksOf(s[1..])
  }

  function Dicts(rows: seq<Row>): seq<Row> {
    if rows == [] then [] else if rows[0].isDict then [rows[0]] + Dicts(rows[1..]) else Dicts(rows[1..])
  }

  function Tagged(kind: Kind, rows: seq<Row>): seq<Item> {
    if rows == [] then []
    else if rows[0].isDict then [Item(kind, rows[0])] + Tagged(kind, rows[1..])
    else Tagged(kind, rows[1..])
  }

  /** The items to pack: the dict frames, then the dict transcripts. */
  function Items(frames: seq<Row>, audio: seq<Row>): seq<Item> {
    Tagged(Frame, frames) + Tagged(Audio, audio)
  }

  /** The whole result: at least one, possibly empty, body. */
  function Chunks(head: string, st: Settings, frames: seq<Row>, audio: seq<Row>): seq<Chunk> {
    var s := Greedy(LimitsOf(head, st, frames), [], Items(frames, audio));
    if s == [] then [Chunk([], [])] else ChunksOf(s)
  }

  function LimitsOf(head: string, st: Settings, frames: seq<Row>): Limits {
    Limits(BaseBytes(head), MaxBytes(st), MaxRecords(st, frames))
  }

  // ----- The packer -----

  class Packer {
    const limits: Limits
    var chunks: seq<Chunk>
    var currentFrames: seq<Row>
    var currentAudio: seq<Row>
    var currentBytes: int
    ghost var groups: seq<seq<Item>>
    ghost var current: seq<Item>

    ghost predicate Valid()
      reads this
    {
      && chunks == ChunksOf(groups) && Chunk(currentFrames, currentAudio) == ChunkOf(current)
      && currentBytes == limits.base + Bytes(current)
      && |currentFrames| + |currentAudio| == |current|
    }

    constructor (limits: Limits)
      ensures Valid() && this.limits == limits && groups == [] && current == []
    {
      this.limits := limits;
      chunks, currentFrames, currentAudio, currentBytes := [], [], [], limits.base;
      groups, current := [], [];
    }

    method Flush()
      requires Valid()
      modifies this
      ensures Valid() && current == []
      ensures groups == old(groups) + (if old(current) == [] then [] else [old(current)])
    {
      if currentFrames == [] && currentAudio == [] {
        return;
      }
      ChunksSnoc(groups, current);
      chunks := chunks + [Chunk(currentFrames, currentAudio)];
      groups := groups + [current];
      currentFrames, currentAudio, currentBytes, current := [], [], limits.base, [];
    }

    /** `rest` stands for the items still to come. */
    method Add(kind: Kind, row: Row, ghost rest: seq<Item>)
      requires Valid()
      modifies this
      ensures Valid()
      ensures old(groups + Greedy(limits, current, [Item(kind, row)] + rest)) == groups + Greedy(limits, current, rest)
    {
      hide Greedy, ChunkOf, ChunksOf, Bytes, RowBytes;
      ghost var item := Item(kind, row);
      GreedyStep(limits, groups, current, item, rest);
      var size := RowBytes(row);
      var records := |currentFrames| + |currentAudio|;
      if records != 0 && (records >= limits.maxRecords || currentBytes + size > limits.maxBytes) {
        Flush();
      }
      ChunkSnoc(current, item);
      if kind == Frame {
        currentFrames := currentFrames + [row];
      } else {
        currentAudio := currentAudio + [row];
      }
      currentBytes := currentBytes + size;
      current := current + [item];
    }
  }

  lemma GreedyStep(l: Limits, groups: seq<seq<Item>>, current: seq<Item>, item: Item, rest: seq<Item>)
    ensures groups + Greedy(l, current, [item] + rest)
            == if current != [] && (|current| >= l.maxRecords
                                    || l.base + Bytes(current) + RowBytes(item.row) > l.maxBytes)
               then (groups + [current]) + Greedy(l, [] + [item], rest)
               else groups + Greedy(l, current + [item], rest)
  {
    assert ([item] + rest)[1..] == rest && [] + [item] == [item];
    assert groups + ([current] + Greedy(l, [item], rest)) == (groups + [current]) + Greedy(l, [item], rest);
  }

  lemma ChunkSnoc(current: seq<Item>, item: Item)
    ensures var c := ChunkOf(current);
            ChunkOf(current + [item])
            == if item.kind == Frame then c.(frames := c.frames + [item.row]) else c.(audio := c.audio + [item.row])
    ensures Bytes(current + [item]) == Bytes(current) + RowBytes(item.row)
  {
    assert (current + [item])[..|current|] == current;
    var c := ChunkOf(current);
    assert c.frames + [] == c.frames && c.audio + [] == c.audio;
  }

  lemma {:induction false} ChunksSnoc(s: seq<seq<Item>>, g: seq<Item>)
    ensures ChunksOf(s + [g]) == ChunksOf(s) + [ChunkOf(g)]
  {
    if s == [] {
      assert [] + [g] == [g];
    } else {
      ChunksSnoc(s[1..], g);
      assert (s + [g])[1..] == s[1..] + [g];
    }
  }

  /** `_context_import_chunks`. */
  method ImportChunks(head: string, st: Settings, frames: seq<Row>, audio: seq<Row>) returns (chunks: seq<Chunk>)
    ensures chunks == Chunks(head, st, frames, audio)
  {
    hide Greedy, Tagged, ChunksOf, ChunkOf, Bytes, LimitsOf;
    var packer := new Packer(LimitsOf(head, st, frames));
    ghost var l := packer.limits;
    ghost var heard := Tagged(Audio, audio);
    ghost var goal := Greedy(l, [], Items(frames, audio));
    assert frames[0..] == frames && audio[0..] == audio;
    for i := 0 to |frames|
      invariant packer.Valid() && packer.limits == l
      invariant goal == packer.groups + Greedy(l, packer.current, Tagged(Frame, frames[i..]) + heard)
    {
      TaggedStep(Frame, frames, i, heard);
      if frames[i].isDict {
        packer.Add(Frame, frames[i], Tagged(Frame, frames[i + 1..]) + heard);
      }
    }
    TaggedEnd(Frame, frames, heard);
    for i := 0 to |audio|
      invariant packer.Valid() && packer.limits == l
      invariant goal == packer.groups + Greedy(l, packer.current, Tagged(Audio, audio[i..]))
    {
      TaggedStep(Audio, audio, i, []);
      if audio[i].isDict {
        packer.Add(Audio, audio[i], Tagged(Audio, audio[i + 1..]));
      }
    }
    TaggedEnd(Audio, audio, []);
    GreedyEnd(l, packer.current);
    packer.Flush();
    assert packer.groups == goal;
    ChunksOfLength(goal);
    chunks := if packer.chunks == [] then [Chunk([], [])] else packer.chunks;
  }

  lemma TaggedStep(kind: Kind, rows: seq<Row>, i: nat, rest: seq<Item>)
    requires i < |rows|
    ensures rows[i].isDict ==> Tagged(kind, rows[i..]) == [Item(kind, rows[i])] + Tagged(kind, rows[i + 1..])
    ensures rows[i].isDict ==>
              Tagged(kind, rows[i..]) + rest == [Item(kind, rows[i])] + (Tagged(kind, rows[i + 1..]) + rest)
    ensures !rows[i].isDict ==> Tagged(kind, rows[i..]) == Tagged(kind, rows[i + 1..])
  {
    assert rows[i..][1..] == rows[i + 1..];
  }

  lemma TaggedEnd(kind: Kind, rows: seq<Row>, rest: seq<Item>)
    ensures Tagged(kind, rows[|rows|..]) == [] && Tagged(kind, rows[|rows|..]) + rest == rest
  {
  }

  lemma GreedyEnd(l: Limits, current: seq<Item>)
    ensures Greedy(l, current, []) == if current == [] then [] else [current]
  {
  }

  // ----- Every row once, in order, within the limits -----

  lemma {:induction false} BytesSnoc(g: seq<Item>, x: Item)
    ensures Bytes(g + [x]) == Bytes(g) + RowBytes(x.row)
  {
    assert (g + [x])[..|g|] == g;
  }

  lemma {:induction false} BytesCat(a: seq<Item>, b: seq<Item>)
    ensures Bytes(a + b) == Bytes(a) + Bytes(b)
  {
    if b == [] {
      assert a + b == a;
    } else {
      var n := |b| - 1;
      assert (a + b)[..|a| + n] == a + b[..n];
      BytesCat(a, b[..n]);
    }
  }

  /** Non-empty pieces of a fitting group fit. */
  lemma PieceFits(l: Limits, a: seq<Item>, b: seq<Item>, c: seq<Item>)
    requires Fits(l, a + b + c) && b != []
    ensures Fits(l, b)
  {
    BytesCat(a + b, c);
    BytesCat(a, b);
  }

  ghost predicate OpenOk(l: Limits, current: seq<Item>) {
    current == [] || Fits(l, current)
  }

  /** The packer's output is a split of the items within the limits. */
  lemma {:induction false} GreedyIsSplit(l: Limits, current: seq<Item>, items: seq<Item>)
    requires OpenOk(l, current) && l.maxRecords >= 1
    ensures IsSplit(l, Greedy(l, current, items), current + items)
    decreases |items|
  {
    if items == [] {
      assert current + items == current;
      if current != [] { assert Flatten([current]) == current + Flatten([current][1..]); }
    } else {
      var x, rest := items[0], items[1..];
      BytesSnoc(current, x);
      if current != [] && (|current| >= l.maxRecords || l.base + Bytes(current) + RowBytes(x.row) > l.maxBytes) {
        GreedyIsSplit(l, [x], rest);
        assert current + items == current + ([x] + rest);
        var s := Greedy(l, [x], rest);
        assert ([current] + s)[1..] == s;
      } else {
        GreedyIsSplit(l, current + [x], rest);
        assert current + items == (current + [x]) + rest;
      }
    }
  }

  lemma {:induction false} RowsOfCat(kind: Kind, a: seq<Item>, b: seq<Item>)
    ensures RowsOf(kind, a + b) == RowsOf(kind, a) + RowsOf(kind, b)
  {
    if b == [] {
      assert a + b == a;
    } else {
      var n := |b| - 1;
      assert (a + b)[..|a| + n] == a + b[..n];
      RowsOfCat(kind, a, b[..n]);
    }
  }

  function AllFrames(cs: seq<Chunk>): seq<Row> {
    if cs == [] then [] else cs[0].frames + AllFrames(cs[1..])
  }

  function AllAudio(cs: seq<Chunk>): seq<Row> {
    if cs == [] then [] else cs[0].audio + AllAudio(cs[1..])
  }

  lemma {:induction false} ChunksHoldRows(s: seq<seq<Item>>)
    ensures AllFrames(ChunksOf(s)) == RowsOf(Frame, Flatten(s)) && AllAudio(ChunksOf(s)) == RowsOf(Audio, Flatten(s))
  {
    if s != [] {
      ChunksHoldRows(s[1..]);
      RowsOfCat(Frame, s[0], Flatten(s[1..]));
      RowsOfCat(Audio, s[0], Flatten(s[1..]));
    }
  }

  lemma {:induction false} RowsOfTagged(kind: Kind, k: Kind, rows: seq<Row>)
    ensures RowsOf(k, Tagged(kind, rows)) == if k == kind then Dicts(rows) else []
  {
    if rows != [] {
      var first := if rows[0].isDict then [Item(kind, rows[0])] else [];
      RowsOfTagged(kind, k, rows[1..]);
      RowsOfCat(k, first, Tagged(kind, rows[1..]));
      if rows[0].isDict { assert first[..0] == []; }
    }
  }

  /** Conservation: the bodies together hold every dict row exactly once, in order. */
  lemma EveryRowOnce(head: string, st: Settings, frames: seq<Row>, audio: seq<Row>)
    ensures AllFrames(Chunks(head, st, frames, audio)) == Dicts(frames)
    ensures AllAudio(Chunks(head, st, frames, audio)) == Dicts(audio)
  {
    hide Greedy, Flatten, RowsOf, Tagged, ChunksOf, Dicts, AllFrames, AllAudio;
    var l := LimitsOf(head, st, frames);
    var s := Greedy(l, [], Items(frames, audio));
    GreedyIsSplit(l, [], Items(frames, audio));
    assert [] + Items(frames, audio) == Items(frames, audio);
    ChunksHoldRows(s);
    RowsOfCat(Frame, Tagged(Frame, frames), Tagged(Audio, audio));
    RowsOfCat(Audio, Tagged(Frame, frames), Tagged(Audio, audio));
    RowsOfTagged(Frame, Frame, frames);
    RowsOfTagged(Frame, Audio, frames);
    RowsOfTagged(Audio, Frame, audio);
    RowsOfTagged(Audio, Audio, audio);
    assert Dicts(frames) + [] == Dicts(frames) && [] + Dicts(audio) == Dicts(audio);
    EmptyBody();
  }

  lemma EmptyBody()
    ensures AllFrames([Chunk([], [])]) == [] && AllAudio([Chunk([], [])]) == []
    ensures AllFrames(ChunksOf([])) == [] && AllAudio(ChunksOf([])) == []
  {
    assert [Chunk([], [])][1..] == [];
  }

  lemma {:induction false} JoinLength(rows: seq<Row>)
    ensures |Join(rows)| <= SumBytes(rows)
  {
    if |rows| > 1 { JoinLength(rows[1..]); }
  }

  function SumBytes(rows: seq<Row>): nat {
    if rows == [] then 0 else RowBytes(rows[0]) + SumBytes(rows[1..])
  }

  lemma {:induction false} SumBytesSnoc(rows: seq<Row>, r: Row)
    ensures SumBytes(rows + [r]) == SumBytes(rows) + RowBytes(r)
  {
    if rows != [] {
      SumBytesSnoc(rows[1..], r);
      assert (rows + [r])[1..] == rows[1..] + [r];
    } else {
      assert [] + [r] == [r];
    }
  }

  lemma {:induction false} SumOfGroup(g: seq<Item>)
    ensures SumBytes(RowsOf(Frame, g)) + SumBytes(RowsOf(Audio, g)) == Bytes(g)
    ensures |RowsOf(Frame, g)| + |RowsOf(Audio, g)| == |g|
  {
    if g != [] {
      var n := |g| - 1;
      SumOfGroup(g[..n]);
      SumBytesSnoc(RowsOf(g[n].kind, g[..n]), g[n].row);
      assert RowsOf(Frame, g[..n]) + [] == RowsOf(Frame, g[..n]) && RowsOf(Audio, g[..n]) + [] == RowsOf(Audio, g[..n]);
    }
  }

  lemma EncodedLength(head: string, g: seq<Item>)
    ensures |Encode(head, ChunkOf(g))| <= BaseBytes(head) - 1024 + Bytes(g)
  {
    var c := ChunkOf(g);
    JoinLength(c.frames);
    JoinLength(c.audio);
    SumOfGroup(g);
    EncodeLength(head, c);
    EncodeLength(head, Chunk([], []));
  }

  lemma EncodeLength(head: string, c: Chunk)
    ensures |Encode(head, c)| == |head| + 10 + |Join(c.frames)| + 23 + |Join(c.audio)| + 2
  {
    var a, b, d := "\"frames\":[", "],\"audio_transcripts\":[", "]}";
    assert |a| == 10 && |b| == 23 && |d| == 2;
  }

  lemma {:induction false} ChunksOfAt(s: seq<seq<Item>>, i: nat)
    requires i < |s|
    ensures |ChunksOf(s)| == |s| && ChunksOf(s)[i] == ChunkOf(s[i])
  {
    if i > 0 {
      ChunksOfAt(s[1..], i - 1);
    } else if |s| > 1 {
      ChunksOfAt(s[1..], 0);
    }
  }

  /** Limits: no body holds more than the record limit, and the real compact JSON of every body
      with more than one record is within the byte limit. */
  lemma EveryChunkWithinLimits(head: string, st: Settings, frames: seq<Row>, audio: seq<Row>, i: nat)
    requires i < |Chunks(head, st, frames, audio)|
    ensures var c := Chunks(head, st, frames, audio)[i];
            && |c.frames| + |c.audio| <= MaxRecords(st, frames)
            && (|c.frames| + |c.audio| > 1 ==> |Encode(head, c)| <= MaxBytes(st) - 1024)
  {
    var l := LimitsOf(head, st, frames);
    var s := Greedy(l, [], Items(frames, audio));
    GreedyIsSplit(l, [], Items(frames, audio));
    if s != [] {
      ChunksOfLength(s);
      ChunksOfAt(s, i);
      assert Fits(l, s[i]);
      SumOfGroup(s[i]);
      EncodedLength(head, s[i]);
    }
  }

  lemma {:induction false} ChunksOfLength(s: seq<seq<Item>>)
    ensures |ChunksOf(s)| == |s|
  {
    if s != [] { ChunksOfLength(s[1..]); }
  }

  // ----- Fewest bodies -----

  /** A split with its first `n` items removed. */
  function DropItems(s: seq<seq<Item>>, n: nat): seq<seq<Item>>
    requires n <= |Flatten(s)|
  {
    if s == [] then []
    else if n >= |s[0]| then DropItems(s[1..], n - |s[0]|)
    else [s[0][n..]] + s[1..]
  }

  lemma {:induction false} DropSplit(l: Limits, s: seq<seq<Item>>, n: nat)
    requires n <= |Flatten(s)| && forall i :: 0 <= i < |s| ==> Fits(l, s[i])
    ensures IsSplit(l, DropItems(s, n), Flatten(s)[n..]) && |DropItems(s, n)| <= |s|
    ensures s != [] && n >= |s[0]| ==> |DropItems(s, n)| <= |s| - 1
  {
    if s != [] {
      var rest := Flatten(s[1..]);
      if n >= |s[0]| {
        DropSplit(l, s[1..], n - |s[0]|);
        assert (s[0] + rest)[n..] == rest[n - |s[0]|..];
      } else {
        assert s[0] == s[0][..n] + s[0][n..] + [];
        PieceFits(l, s[0][..n], s[0][n..], []);
        var d := [s[0][n..]] + s[1..];
        assert d[1..] == s[1..];
        assert (s[0] + rest)[n..] == s[0][n..] + rest;
        forall i | 0 <= i < |d| ensures Fits(l, d[i]) {
          if i > 0 { assert d[i] == s[i]; }
        }
      }
    }
  }

  /** Greedy stays ahead: no split of the open group and the remaining items has fewer groups. */
  lemma {:induction false} GreedyIsFewest(l: Limits, current: seq<Item>, items: seq<Item>, s: seq<seq<Item>>)
    requires OpenOk(l, current) && l.maxRecords >= 1 && IsSplit(l, s, current + items)
    ensures |Greedy(l, current, items)| <= |s|
    decreases |items|
  {
    if items == [] {
      if current != [] { assert s != []; }
    } else {
      var x, rest := items[0], items[1..];
      BytesSnoc(current, x);
      assert current + items == (current + [x]) + rest;
      if current != [] && (|current| >= l.maxRecords || l.base + Bytes(current) + RowBytes(x.row) > l.maxBytes) {
        assert s != [] && s[0] <= current + items;
        if |s[0]| > |current| {
          assert s[0] == s[0][..|current| + 1] + s[0][|current| + 1..];
          assert s[0][..|current| + 1] == current + [x];
          assert s[0] == [] + (current + [x]) + s[0][|current| + 1..];
          PieceFits(l, [], current + [x], s[0][|current| + 1..]);
          assert false;
        }
        DropSplit(l, s, |current|);
        assert (current + items)[|current|..] == [x] + rest;
        GreedyIsFewest(l, [x], rest, DropItems(s, |current|));
      } else {
        GreedyIsFewest(l, current + [x], rest, s);
      }
    }
  }

  /** Optimality: the archive is sent in the fewest bodies that any order-preserving split within
      the same limits could use. */
  lemma FewestChunks(head: string, st: Settings, frames: seq<Row>, audio: seq<Row>, s: seq<seq<Item>>)
    requires IsSplit(LimitsOf(head, st, frames), s, Items(frames, audio)) && s != []
    ensures |Chunks(head, st, frames, audio)| <= |s|
  {
    var l := LimitsOf(head, st, frames);
    assert [] + Items(frames, audio) == Items(frames, audio);
    GreedyIsFewest(l, [], Items(frames, audio), s);
    ChunksOfLength(Greedy(l, [], Items(frames, audio)));
  }
}
