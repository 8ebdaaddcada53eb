/** What deleting a window of time takes and leaves, frame by frame and line by line, in terms of the times alone. */
module WindowDelete {
  import opened Collections
  import opened Options
  import opened TextLines
  import opened ContextDelete

  /** Dated, not before the window and not after it. */
  predicate Inside(ts: Option<int>, w: Span) {
    ts.Some? && (w.since.Some? ==> w.since.value <= ts.value) && (w.until.Some? ==> ts.value <= w.until.value)
  }

  // ----- Frames -----

  ghost function FramesInside(frames: seq<Frame>, w: Span, n: nat): set<nat>
    requires n <= |frames|
  {
    set i: nat | i < n && Inside(frames[i].ts, w)
  }

  /** Among the first `limit` frames of the window. */
  ghost predicate FrameTaken(frames: seq<Frame>, w: Span, limit: nat, i: nat) {
    i < |frames| && Inside(frames[i].ts, w) && |FramesInside(frames, w, i)| < limit
  }

  ghost function FramesTaken(frames: seq<Frame>, w: Span, limit: nat): set<nat> {
    set i: nat | i < |frames| && FrameTaken(frames, w, limit, i)
  }

  ghost function WithImage(frames: seq<Frame>, w: Span, limit: nat): set<nat> {
    set i: nat | i < |frames| && FrameTaken(frames, w, limit, i) && frames[i].hasJpg
  }

  lemma {:induction false} HitsSnoc(frames: seq<Frame>, w: Span, f: Frame)
    ensures FrameHits(frames + [f], w) == if Inside(f.ts, w) then FrameHits(frames, w) + [f] else FrameHits(frames, w)
  {
    if frames == [] {
      assert [f][1..] == [] && [] + [f] == [f];
    } else {
      assert (frames + [f])[1..] == frames[1..] + [f];
      HitsSnoc(frames[1..], w, f);
    }
  }

  /** The hits of a prefix are a prefix of the hits, and as many as the frames inside. */
  lemma {:induction false} HitsOfPrefix(frames: seq<Frame>, w: Span, n: nat)
    requires n <= |frames|
    ensures |FrameHits(frames[..n], w)| == |FramesInside(frames, w, n)|
    ensures FrameHits(frames[..n], w) <= FrameHits(frames, w)
    decreases |frames| - n
  {
    InsideCount(frames, w, n);
    if n == |frames| {
      assert frames[..n] == frames;
    } else {
      HitsOfPrefix(frames, w, n + 1);
      assert frames[..n + 1] == frames[..n] + [frames[n]];
      HitsSnoc(frames[..n], w, frames[n]);
    }
  }

  lemma {:induction false} InsideCount(frames: seq<Frame>, w: Span, n: nat)
    requires n <= |frames|
    ensures |FrameHits(frames[..n], w)| == |FramesInside(frames, w, n)|
  {
    if n > 0 {
      InsideCount(frames, w, n - 1);
      assert frames[..n] == frames[..n - 1] + [frames[n - 1]];
      HitsSnoc(frames[..n - 1], w, frames[n - 1]);
      if Inside(frames[n - 1].ts, w) {
        assert FramesInside(frames, w, n) == FramesInside(frames, w, n - 1) + {n - 1};
      } else {
        assert FramesInside(frames, w, n) == FramesInside(frames, w, n - 1);
      }
    }
  }

  lemma HitAt(frames: seq<Frame>, w: Span, i: nat)
    requires i < |frames| && Inside(frames[i].ts, w)
    ensures var k := |FramesInside(frames, w, i)|; k < |FrameHits(frames, w)| && FrameHits(frames, w)[k] == frames[i]
  {
    HitsOfPrefix(frames, w, i);
    HitsOfPrefix(frames, w, i + 1);
    assert frames[..i + 1] == frames[..i] + [frames[i]];
    HitsSnoc(frames[..i], w, frames[i]);
  }

  /** Every hit is a frame inside, at the place that its rank says. */
  lemma {:induction false} HitFrom(frames: seq<Frame>, w: Span, n: nat, k: nat) returns (i: nat)
    requires n <= |frames| && k < |FrameHits(frames[..n], w)|
    ensures i < n && Inside(frames[i].ts, w) && |FramesInside(frames, w, i)| == k
    ensures FrameHits(frames[..n], w)[k] == frames[i]
    decreases n
  {
    assert |FrameHits(frames[..0], w)| == 0;
    assert frames[..n] == frames[..n - 1] + [frames[n - 1]];
    HitsSnoc(frames[..n - 1], w, frames[n - 1]);
    InsideCount(frames, w, n - 1);
    if k < |FrameHits(frames[..n - 1], w)| {
      i := HitFrom(frames, w, n - 1, k);
    } else {
      i := n - 1;
    }
  }

  lemma TakenPath(frames: seq<Frame>, w: Span, limit: nat, i: nat)
    requires DistinctFrames(frames) && i < |frames|
    ensures frames[i].path in FramePaths(SelectFrames(frames, w, limit)) <==> FrameTaken(frames, w, limit, i)
  {
    var chosen := SelectFrames(frames, w, limit);
    hide FrameHits;
    if FrameTaken(frames, w, limit, i) {
      HitAt(frames, w, i);
      assert chosen[|FramesInside(frames, w, i)|] == frames[i];
      assert frames[i] in chosen;
    }
    if frames[i].path in FramePaths(chosen) {
      var f :| f in chosen && f.path == frames[i].path;
      var k :| 0 <= k < |chosen| && chosen[k] == f;
      assert frames[..|frames|] == frames;
      var j := HitFrom(frames, w, |frames|, k);
      assert j == i;
    }
  }

  lemma {:induction false} WithoutMembers(frames: seq<Frame>, paths: set<string>, f: Frame)
    ensures f in WithoutPaths(frames, paths) <==> f in frames && f.path !in paths
  {
    if frames != [] {
      WithoutMembers(frames[1..], paths, f);
      assert frames == [frames[0]] + frames[1..];
    }
  }

  lemma {:induction false} FilesSnoc(frames: seq<Frame>, f: Frame)
    ensures FilesOf(frames + [f]) == FilesOf(frames) + if f.hasJpg then 2 else 1
  {
    if frames == [] {
      assert [f][1..] == [] && [] + [f] == [f];
    } else {
      assert (frames + [f])[1..] == frames[1..] + [f];
      FilesSnoc(frames[1..], f);
    }
  }

  ghost function TakenBefore(frames: seq<Frame>, w: Span, limit: nat, n: nat): set<nat>
    requires n <= |frames|
  {
    set i: nat | i < n && FrameTaken(frames, w, limit, i)
  }

  ghost function ImagesBefore(frames: seq<Frame>, w: Span, limit: nat, n: nat): set<nat>
    requires n <= |frames|
  {
    set i: nat | i < n && FrameTaken(frames, w, limit, i) && frames[i].hasJpg
  }

  lemma {:induction false} FilesCount(frames: seq<Frame>, w: Span, limit: nat, n: nat)
    requires n <= |frames|
    ensures var chosen := Take(FrameHits(frames[..n], w), limit);
            && |chosen| == |TakenBefore(frames, w, limit, n)|
            && FilesOf(chosen) == |TakenBefore(frames, w, limit, n)| + |ImagesBefore(frames, w, limit, n)|
    decreases n
  {
    if n > 0 {
      FilesCount(frames, w, limit, n - 1);
      assert frames[..n] == frames[..n - 1] + [frames[n - 1]];
      HitsSnoc(frames[..n - 1], w, frames[n - 1]);
      InsideCount(frames, w, n - 1);
      var f, before := frames[n - 1], Take(FrameHits(frames[..n - 1], w), limit);
      hide FrameHits, FilesOf;
      TakenMore(frames, w, limit, n);
      if FrameTaken(frames, w, limit, n - 1) {
        assert Take(FrameHits(frames[..n], w), limit) == before + [f];
        FilesSnoc(before, f);
      } else {
        assert Take(FrameHits(frames[..n], w), limit) == before;
      }
    } else {
      assert frames[..0] == [];
    }
  }

  lemma TakenMore(frames: seq<Frame>, w: Span, limit: nat, n: nat)
    requires 0 < n <= |frames|
    ensures var took := FrameTaken(frames, w, limit, n - 1);
            && |TakenBefore(frames, w, limit, n)| == |TakenBefore(frames, w, limit, n - 1)| + (if took then 1 else 0)
            && |ImagesBefore(frames, w, limit, n)|
               == |ImagesBefore(frames, w, limit, n - 1)| + (if took && frames[n - 1].hasJpg then 1 else 0)
  {
    var a, b := TakenBefore(frames, w, limit, n - 1), ImagesBefore(frames, w, limit, n - 1);
    var a', b' := TakenBefore(frames, w, limit, n), ImagesBefore(frames, w, limit, n);
    Grown(a, a', n - 1, FrameTaken(frames, w, limit, n - 1));
    Grown(b, b', n - 1, FrameTaken(frames, w, limit, n - 1) && frames[n - 1].hasJpg);
  }

  /** Main result on frames, exact: deleted are the first in-window frames up to the limit, which is at least one,
      and nothing else; a dry run reports their number, a real run also their files, two for a frame with an image. */
  lemma FramesExactly(frames: seq<Frame>, files: seq<Audio>, parse: Parser, w: Span, requested: int)
    requires DistinctFrames(frames)
    ensures var limit := if requested < 1 then 1 else requested;
            var after, done := FramesAfter(frames, w, requested), RealRun(frames, files, parse, w, requested);
            var taken := |FramesTaken(frames, w, limit)|;
            && (forall i: nat :: i < |frames| ==> (frames[i] in after <==> !FrameTaken(frames, w, limit, i)))
            && (forall f :: f in after ==> f in frames)
            && DryRun(frames, files, parse, w, requested).frames == done.frames == taken
            && done.frameFiles == taken + |WithImage(frames, w, limit)|
  {
    var limit := if requested < 1 then 1 else requested;
    var chosen := SelectFrames(frames, w, limit);
    var paths := FramePaths(chosen);
    FilesCount(frames, w, limit, |frames|);
    assert frames[..|frames|] == frames;
    assert chosen == Take(FrameHits(frames, w), limit);
    assert TakenBefore(frames, w, limit, |frames|) == FramesTaken(frames, w, limit);
    assert ImagesBefore(frames, w, limit, |frames|) == WithImage(frames, w, limit);
    hide WithoutPaths, SelectFrames, FramePaths, FrameTaken, FilesOf;
    forall f ensures f in WithoutPaths(frames, paths) <==> f in frames && f.path !in paths {
      WithoutMembers(frames, paths, f);
    }
    forall i: nat | i < |frames|
      ensures frames[i] in FramesAfter(frames, w, requested) <==> !FrameTaken(frames, w, limit, i)
    {
      TakenPath(frames, w, limit, i);
      assert frames[i] in frames;
    }
  }

  // ----- The lines of one transcript file -----

  ghost function LinesInside(parse: Parser, w: Span, lines: seq<string>, n: nat): set<nat>
    requires n <= |lines|
  {
    set j: nat | j < n && Inside(parse(lines[j]), w)
  }

  lemma {:induction false} KeepSnoc(parse: Parser, w: Span, lines: seq<string>, line: string)
    ensures KeepLines(parse, w, lines + [line])
            == if Inside(parse(line), w) then KeepLines(parse, w, lines) else KeepLines(parse, w, lines) + [line]
  {
    if lines == [] {
      assert [line][1..] == [] && [] + [line] == [line];
    } else {
      assert (lines + [line])[1..] == lines[1..] + [line];
      KeepSnoc(parse, w, lines[1..], line);
    }
  }

  /** A file keeps exactly its lines that are no in-window record, each at its place among them. */
  lemma {:induction false} KeptExactly(parse: Parser, w: Span, lines: seq<string>, n: nat)
    requires n <= |lines|
    ensures var kept, inside := KeepLines(parse, w, lines[..n]), LinesInside(parse, w, lines, n);
            && |kept| == n - |inside| && CountHits(parse, w, lines[..n]) == |inside|
            && forall j: nat :: j < n && !Inside(parse(lines[j]), w) ==>
                 var k := j - |LinesInside(parse, w, lines, j)|; 0 <= k < |kept| && kept[k] == lines[j]
    decreases n
  {
    if n > 0 {
      KeptExactly(parse, w, lines, n - 1);
      var line := lines[n - 1];
      assert lines[..n] == lines[..n - 1] + [line];
      KeepSnoc(parse, w, lines[..n - 1], line);
      CountSnoc(parse, w, lines[..n - 1], line);
      Grown(LinesInside(parse, w, lines, n - 1), LinesInside(parse, w, lines, n), n - 1, Inside(parse(line), w));
      hide KeepLines, CountHits;
    } else {
      assert lines[..0] == [];
    }
  }

  /** The records of the window in one file. */
  ghost function Records(parse: Parser, w: Span, f: Audio): nat {
    |LinesInside(parse, w, SplitLines(f.text), |SplitLines(f.text)|)|
  }

  lemma RecordsAre(parse: Parser, w: Span, f: Audio)
    ensures CountHits(parse, w, SplitLines(f.text)) == Records(parse, w, f)
  {
    var lines := SplitLines(f.text);
    KeptExactly(parse, w, lines, |lines|);
    assert lines[..|lines|] == lines;
  }

  // ----- The files -----

  /** The records of the window in the files before a place. */
  ghost function RecordsBefore(parse: Parser, w: Span, files: seq<Audio>, i: nat): nat
    requires i <= |files|
  {
    if i == 0 then 0 else Records(parse, w, files[0]) + RecordsBefore(parse, w, files[1..], i - 1)
  }

  /** A file is rewritten: it holds a record of the window, and the files before it do not reach the limit. */
  ghost predicate Rewritten(parse: Parser, w: Span, files: seq<Audio>, limit: nat, i: nat) {
    i < |files| && Records(parse, w, files[i]) > 0 && RecordsBefore(parse, w, files, i) < limit
  }

  lemma {:induction false} RewrittenIs(parse: Parser, w: Span, files: seq<Audio>, limit: nat, i: nat)
    requires RejectsBlank(parse) && DistinctFiles(files) && i < |files|
    ensures files[i].path in PathsOf(SelectRecords(parse, w, files, limit)) <==> Rewritten(parse, w, files, limit, i)
    decreases |files|
  {
    if limit > 0 {
      FirstFile(parse, w, files, limit);
      RecordsAre(parse, w, files[0]);
      hide PathsOf, SelectRecords, Records, CountHits, SplitLines;
      var c := Records(parse, w, files[0]);
      if i > 0 {
        assert files[1..][i - 1] == files[i];
        if c < limit {
          RewrittenIs(parse, w, files[1..], limit - c, i - 1);
        }
      }
    } else {
      assert SelectRecords(parse, w, files, limit) == [];
    }
  }

  /** What a real run makes of one file: itself, or its remaining lines, or nothing. */
  ghost predicate FileLeft(parse: Parser, w: Span, files: seq<Audio>, limit: nat, i: nat, a: Audio) {
    && i < |files|
    && var kept := KeepLines(parse, w, SplitLines(files[i].text));
       if Rewritten(parse, w, files, limit, i) then kept != [] && a == Audio(files[i].path, Unlines(kept))
       else a == files[i]
  }

  ghost predicate Made(parse: Parser, w: Span, f: Audio, affected: set<string>, a: Audio) {
    var kept := KeepLines(parse, w, SplitLines(f.text));
    if f.path in affected then kept != [] && a == Audio(f.path, Unlines(kept)) else a == f
  }

  lemma {:induction false} RewriteMembers(parse: Parser, w: Span, files: seq<Audio>, affected: set<string>, a: Audio)
    ensures a in Rewrite(parse, w, files, affected) <==>
              exists i :: 0 <= i < |files| && Made(parse, w, files[i], affected, a)
  {
    if files != [] {
      RewriteMembers(parse, w, files[1..], affected, a);
      RewriteHead(parse, w, files, affected, a);
      hide Rewrite, Made;
      if a in Rewrite(parse, w, files[1..], affected) {
        var i :| 0 <= i < |files[1..]| && Made(parse, w, files[1..][i], affected, a);
        assert Made(parse, w, files[i + 1], affected, a);
      }
      if exists i :: 0 < i < |files| && Made(parse, w, files[i], affected, a) {
        var i :| 0 < i < |files| && Made(parse, w, files[i], affected, a);
        assert Made(parse, w, files[1..][i - 1], affected, a);
      }
    }
  }

  lemma RewriteHead(parse: Parser, w: Span, files: seq<Audio>, affected: set<string>, a: Audio)
    requires files != []
    ensures a in Rewrite(parse, w, files, affected) <==>
              Made(parse, w, files[0], affected, a) || a in Rewrite(parse, w, files[1..], affected)
  {
    hide KeepLines, SplitLines, Unlines;
  }

  /** The first files, none but the last needed to reach the limit; or all of them. */
  ghost predicate Reaches(parse: Parser, w: Span, files: seq<Audio>, limit: nat, k: nat) {
    && k <= |files| && (k == |files| || RecordsBefore(parse, w, files, k) >= limit)
    && (k == 0 || RecordsBefore(parse, w, files, k - 1) < limit)
  }

  lemma FirstCounts(parse: Parser, w: Span, files: seq<Audio>, k: nat)
    requires files != [] && k <= |files|
    ensures k > 0 ==> RecordsBefore(parse, w, files, k) >= Records(parse, w, files[0])
  {
    hide Records;
  }

  lemma {:induction false} DeletedSum(parse: Parser, w: Span, files: seq<Audio>, limit: nat, k: nat)
    requires Reaches(parse, w, files, limit, k)
    ensures DeletedUpTo(parse, w, files, limit) == RecordsBefore(parse, w, files, k)
    decreases |files|
  {
    if k > 0 {
      RecordsAre(parse, w, files[0]);
      hide CountHits, Records, SplitLines;
      var c := Records(parse, w, files[0]);
      if c < limit {
        DeletedSum(parse, w, files[1..], limit - c, k - 1);
      } else {
        FirstCounts(parse, w, files, k - 1);
        assert DeletedUpTo(parse, w, files[1..], 0) == 0;
      }
    }
  }

  lemma {:induction false} HitsTotal(parse: Parser, w: Span, files: seq<Audio>)
    requires RejectsBlank(parse)
    ensures |AllHits(parse, w, files)| == RecordsBefore(parse, w, files, |files|)
  {
    if files != [] {
      HitsAreCounted(parse, w, SplitLines(files[0].text), files[0].path);
      RecordsAre(parse, w, files[0]);
      HitsTotal(parse, w, files[1..]);
      hide CountHits, Records, HitsOf, SplitLines;
    }
  }

  /** Main result on transcripts, exact: rewritten are the files, newest first, that hold a record of the window, up
      to and with the one where the records reach the limit; a rewritten file keeps its other lines, or goes when it
      has none. A real run reports all records of those files, a dry run as many as the limit allows. */
  lemma TranscriptsExactly(frames: seq<Frame>, files: seq<Audio>, parse: Parser, w: Span, requested: int)
    requires RejectsBlank(parse) && DistinctFiles(files)
    ensures var limit, n := if requested < 1 then 1 else requested, |files|;
            var after, total := AudioAfter(files, parse, w, requested), RecordsBefore(parse, w, files, n);
            && (forall a :: a in after <==> exists i :: FileLeft(parse, w, files, limit, i, a))
            && (forall k: nat :: Reaches(parse, w, files, limit, k) ==>
                  RealRun(frames, files, parse, w, requested).transcripts == RecordsBefore(parse, w, files, k))
            && DryRun(frames, files, parse, w, requested).transcripts == if total <= limit then total else limit
  {
    var limit: nat := if requested < 1 then 1 else requested;
    LeftOver(files, parse, w, requested, limit);
    DryCount(frames, files, parse, w, requested);
    hide AllHits, RecordsBefore, FileLeft, DeletedUpTo, FilesOf, SelectFrames, AudioAfter, RealRun, DryRun, Reaches;
    forall k: nat | Reaches(parse, w, files, limit, k)
      ensures RealRun(frames, files, parse, w, requested).transcripts == RecordsBefore(parse, w, files, k)
    {
      RealCount(frames, files, parse, w, requested, k);
    }
  }

  lemma LeftOver(files: seq<Audio>, parse: Parser, w: Span, requested: int, limit: nat)
    requires RejectsBlank(parse) && DistinctFiles(files) && limit == if requested < 1 then 1 else requested
    ensures forall a :: a in AudioAfter(files, parse, w, requested) <==>
                          exists i :: FileLeft(parse, w, files, limit, i, a)
  {
    var affected := PathsOf(SelectRecords(parse, w, files, limit));
    assert limit == Limit(requested);
    hide Rewrite, Made, FileLeft, PathsOf, SelectRecords;
    forall a ensures a in AudioAfter(files, parse, w, requested) <==>
                       exists i :: FileLeft(parse, w, files, limit, i, a)
    {
      RewriteMembers(parse, w, files, affected, a);
      MadeIsLeft(parse, w, files, limit, a);
    }
  }

  lemma DryCount(frames: seq<Frame>, files: seq<Audio>, parse: Parser, w: Span, requested: int)
    requires RejectsBlank(parse)
    ensures var limit, total := if requested < 1 then 1 else requested, RecordsBefore(parse, w, files, |files|);
            DryRun(frames, files, parse, w, requested).transcripts == if total <= limit then total else limit
  {
    HitsTotal(parse, w, files);
    hide AllHits, RecordsBefore, SelectFrames;
  }

  lemma RealCount(frames: seq<Frame>, files: seq<Audio>, parse: Parser, w: Span, requested: int, k: nat)
    requires RejectsBlank(parse) && DistinctFiles(files)
    requires Reaches(parse, w, files, if requested < 1 then 1 else requested, k)
    ensures RealRun(frames, files, parse, w, requested).transcripts == RecordsBefore(parse, w, files, k)
  {
    var limit: nat := if requested < 1 then 1 else requested;
    assert limit == Limit(requested);
    DeletedIs(parse, w, files, limit);
    DeletedSum(parse, w, files, limit, k);
    hide RecordsBefore, DeletedUpTo, Deleted, SelectRecords, PathsOf, SelectFrames, FilesOf;
  }

  lemma MadeIsLeft(parse: Parser, w: Span, files: seq<Audio>, limit: nat, a: Audio)
    requires RejectsBlank(parse) && DistinctFiles(files)
    ensures var affected := PathsOf(SelectRecords(parse, w, files, limit));
            (exists i :: 0 <= i < |files| && Made(parse, w, files[i], affected, a)) <==>
              exists i :: FileLeft(parse, w, files, limit, i, a)
  {
    var affected := PathsOf(SelectRecords(parse, w, files, limit));
    hide KeepLines, SplitLines, Unlines, PathsOf, SelectRecords, Rewritten;
    forall i | 0 <= i < |files|
      ensures Made(parse, w, files[i], affected, a) <==> FileLeft(parse, w, files, limit, i, a)
    {
      RewrittenIs(parse, w, files, limit, i);
    }
    hide Made;
  }
}
