/** Deleting a time window from the local context home: frame files, and lines of the hourly
    transcript files. Parsing a JSON line to its timestamp is a parameter. */
module ContextDelete {
  import opened Options
  import opened TextLines

  datatype Span = Span(since: Option<int>, until: Option<int>)

  predicate InWindow(ts: int, w: Span) {
    !(w.since.Some? && ts < w.since.value) && !(w.until.Some? && ts > w.until.value)
  }

  // ----- Frames -----

  /** A metadata file; `ts` is absent when it does not parse. */
  datatype Frame = Frame(path: string, ts: Option<int>, hasJpg: bool)

  predicate FrameHit(f: Frame, w: Span) {
    f.ts.Some? && InWindow(f.ts.value, w)
  }

  function FrameHits(frames: seq<Frame>, w: Span): seq<Frame> {
    if frames == [] then []
    else if FrameHit(frames[0], w) then [frames[0]] + FrameHits(frames[1..], w)
    else FrameHits(frames[1..], w)
  }

  function FrameRest(frames: seq<Frame>, w: Span): seq<Frame> {
    if frames == [] then []
    else if FrameHit(frames[0], w) then FrameRest(frames[1..], w)
    else [frames[0]] + FrameRest(frames[1..], w)
  }

  /** `_iter_local_frames`: newest path first, in-window files up to the limit. */
  function SelectFrames(frames: seq<Frame>, w: Span, limit: nat): seq<Frame> {
    var hits := FrameHits(frames, w);
    if |hits| <= limit then hits else hits[..limit]
  }

  function WithoutPaths(frames: seq<Frame>, paths: set<string>): seq<Frame> {
    if frames == [] then []
    else if frames[0].path in paths then WithoutPaths(frames[1..], paths)
    else [frames[0]] + WithoutPaths(frames[1..], paths)
  }

  function FilesOf(frames: seq<Frame>): nat {
    if frames == [] then 0 else 1 + (if frames[0].hasJpg then 1 else 0) + FilesOf(frames[1..])
  }

  function FramePaths(frames: seq<Frame>): set<string> {
    set f | f in frames :: f.path
  }

  // ----- Transcripts -----

  /** One hourly file; its lines are records, blank lines, or anything else. */
  datatype Audio = Audio(path: string, text: string)

  type Parser = string -> Option<int>

  predicate LineHit(parse: Parser, w: Span, line: string) {
    Strip(line) != "" && parse(line).Some? && InWindow(parse(line).value, w)
  }

  datatype Rec = Rec(line: string, path: string)

  /** In-window records of one file, last line first. */
  function HitsOf(parse: Parser, w: Span, lines: seq<string>, path: string): seq<Rec> {
    if lines == [] then [] else
      var n := |lines| - 1;
      if LineHit(parse, w, lines[n]) then [Rec(lines[n], path)] + HitsOf(parse, w, lines[..n], path)
      else HitsOf(parse, w, lines[..n], path)
  }

  function AllHits(parse: Parser, w: Span, files: seq<Audio>): seq<Rec> {
    if files == [] then [] else
      HitsOf(parse, w, SplitLines(files[0].text), files[0].path) + AllHits(parse, w, files[1..])
  }

  /** `_iter_local_audio_records`. */
  function Cut(hits: seq<Rec>, limit: nat): seq<Rec> {
    if |hits| <= limit then hits else hits[..limit]
  }

  function SelectRecords(parse: Parser, w: Span, files: seq<Audio>, limit: nat): seq<Rec> {
    Cut(AllHits(parse, w, files), limit)
  }

  /** Lines that survive in an affected file: all that do not parse into the window. */
  function KeepLines(parse: Parser, w: Span, lines: seq<string>): seq<string> {
    if lines == [] then []
    else if parse(lines[0]).Some? && InWindow(parse(lines[0]).value, w) then KeepLines(parse, w, lines[1..])
    else [lines[0]] + KeepLines(parse, w, lines[1..])
  }

  function Rewrite(parse: Parser, w: Span, files: seq<Audio>, affected: set<string>): seq<Audio> {
    if files == [] then [] else
      var rest := Rewrite(parse, w, files[1..], affected);
      if files[0].path !in affected then [files[0]] + rest else
        var kept := KeepLines(parse, w, SplitLines(files[0].text));
        if kept == [] then rest else [Audio(files[0].path, Unlines(kept))] + rest
  }

  function CountHits(parse: Parser, w: Span, lines: seq<string>): nat {
    if lines == [] then 0 else
      (if parse(lines[0]).Some? && InWindow(parse(lines[0]).value, w) then 1 else 0) + CountHits(parse, w, lines[1..])
  }

  function Deleted(parse: Parser, w: Span, files: seq<Audio>, affected: set<string>): nat {
    if files == [] then 0 else
      (if files[0].path in affected then CountHits(parse, w, SplitLines(files[0].text)) else 0)
      + Deleted(parse, w, files[1..], affected)
  }

  function PathsOf(records: seq<Rec>): set<string> {
    set r | r in records :: r.path
  }

  datatype Report = Report(frames: nat, transcripts: nat, frameFiles: nat)

  class ContextHome {
    var frames: seq<Frame>    // newest path first
    var audio: seq<Audio>     // newest path first
    const parse: Parser

    constructor (frames: seq<Frame>, audio: seq<Audio>, parse: Parser)
      ensures this.frames == frames && this.audio == audio && this.parse == parse
    {
      this.frames, this.audio, this.parse := frames, audio, parse;
    }

    /** The first in-window frames, up to the limit. */
    method IterFrames(w: Span, limit: nat) returns (out: seq<Frame>)
      requires limit >= 1
      ensures out == SelectFrames(frames, w, limit)
    {
      out := [];
      for i := 0 to |frames|
        invariant |out| < limit && out + FrameHits(frames[i..], w) == FrameHits(frames, w)
      {
        assert frames[i..][1..] == frames[i + 1..];
        if FrameHit(frames[i], w) {
          out := out + [frames[i]];
          if |out| >= limit {
            assert FrameHits(frames, w)[..limit] == out;
            return;
          }
        }
      }
    }

    /** The first in-window records over all files, up to the limit. */
    method IterAudio(w: Span, limit: nat) returns (out: seq<Rec>)
      requires limit >= 1
      ensures out == SelectRecords(parse, w, audio, limit)
    {
      hide AllHits, HitsOf;
      out := [];
      AllHitsStart(parse, w, audio);
      for i := 0 to |audio|
        invariant |out| < limit && out + AllHits(parse, w, audio[i..]) == AllHits(parse, w, audio)
      {
        AllHitsStep(parse, w, audio, i);
        ghost var hits := HitsOf(parse, w, SplitLines(audio[i].text), audio[i].path);
        var found := ScanFile(w, SplitLines(audio[i].text), audio[i].path, limit - |out|);
        ghost var before := out;
        out := out + found;
        assert before + (hits + AllHits(parse, w, audio[i + 1..]))
            == (before + hits) + AllHits(parse, w, audio[i + 1..]);
        if |out| >= limit {
          assert AllHits(parse, w, audio)[..limit] == out;
          return;
        }
      }
      AllHitsEnd(parse, w, audio);
    }

    /** The lines of one file, last first, until `room` records are found. */
    method ScanFile(w: Span, lines: seq<string>, path: string, room: nat) returns (found: seq<Rec>)
      requires room >= 1
      ensures var hits := HitsOf(parse, w, lines, path); found == if |hits| <= room then hits else hits[..room]
    {
      hide HitsOf, LineHit;
      found := [];
      var j := |lines|;
      assert lines[..j] == lines;
      while j > 0
        invariant 0 <= j <= |lines| && |found| < room
        invariant found + HitsOf(parse, w, lines[..j], path) == HitsOf(parse, w, lines, path)
      {
        j := j - 1;
        HitsOfStep(found, parse, w, lines, j, path);
        if LineHit(parse, w, lines[j]) {
          found := found + [Rec(lines[j], path)];
          if |found| >= room {
            assert HitsOf(parse, w, lines, path)[..room] == found;
            return;
          }
        }
      }
      NoHits(parse, w, lines, path);
    }

    method Delete(w: Span, requested: int, dryRun: bool) returns (report: Report)
      modifies this
      ensures report == (if dryRun then DryRun(old(frames), old(audio), parse, w, requested)
                         else RealRun(old(frames), old(audio), parse, w, requested))
      ensures frames == (if dryRun then old(frames) else FramesAfter(old(frames), w, requested))
      ensures audio == (if dryRun then old(audio) else AudioAfter(old(audio), parse, w, requested))
    {
      hide SelectFrames, SelectRecords, WithoutPaths, Rewrite, Deleted, FilesOf, FramePaths, PathsOf;
      var limit := Limit(requested);
      var selected := IterFrames(w, limit);
      if !dryRun {
        frames := WithoutPaths(frames, FramePaths(selected));
      }
      var records := IterAudio(w, limit);
      if dryRun {
        return Report(|selected|, |records|, 0);
      }
      var out, deleted := RewriteFiles(w, audio, PathsOf(records));
      audio := out;
      report := Report(|selected|, deleted, FilesOf(selected));
    }

    /** Rewrites every affected file without its in-window records; a file with none left goes. */
    method RewriteFiles(w: Span, files: seq<Audio>, affected: set<string>) returns (out: seq<Audio>, deleted: nat)
      ensures out == Rewrite(parse, w, files, affected) && deleted == Deleted(parse, w, files, affected)
    {
      hide SplitLines, Unlines, KeepLines, CountHits, Rewrite, Deleted;
      out, deleted := [], 0;
      RewriteEnds(parse, w, files, affected);
      for i := 0 to |files|
        invariant out + Rewrite(parse, w, files[i..], affected) == Rewrite(parse, w, files, affected)
        invariant deleted + Deleted(parse, w, files[i..], affected) == Deleted(parse, w, files, affected)
      {
        RewriteStep(parse, w, files, i, affected);
        ghost var rest := Rewrite(parse, w, files[i + 1..], affected);
        if files[i].path in affected {
          var kept, gone := RewriteFile(w, SplitLines(files[i].text));
          deleted := deleted + gone;
          if kept != [] {
            assert out + ([Audio(files[i].path, Unlines(kept))] + rest)
                == (out + [Audio(files[i].path, Unlines(kept))]) + rest;
            out := out + [Audio(files[i].path, Unlines(kept))];
          }
        } else {
          assert out + ([files[i]] + rest) == (out + [files[i]]) + rest;
          out := out + [files[i]];
        }
      }
    }

    /** One file: keeps every line but the in-window records, and counts those. */
    method RewriteFile(w: Span, lines: seq<string>) returns (kept: seq<string>, gone: nat)
      ensures kept == KeepLines(parse, w, lines) && gone == CountHits(parse, w, lines)
    {
      kept, gone := [], 0;
      for j := 0 to |lines|
        invariant kept + KeepLines(parse, w, lines[j..]) == KeepLines(parse, w, lines)
        invariant gone + CountHits(parse, w, lines[j..]) == CountHits(parse, w, lines)
      {
        assert lines[j..][1..] == lines[j + 1..];
        if parse(lines[j]).Some? && InWindow(parse(lines[j]).value, w) {
          gone := gone + 1;
        } else {
          kept := kept + [lines[j]];
        }
      }
    }
  }

  lemma RewriteEnds(parse: Parser, w: Span, files: seq<Audio>, affected: set<string>)
    ensures [] + Rewrite(parse, w, files[0..], affected) == Rewrite(parse, w, files, affected)
    ensures Deleted(parse, w, files[0..], affected) == Deleted(parse, w, files, affected)
    ensures Rewrite(parse, w, files[|files|..], affected) == [] && Deleted(parse, w, files[|files|..], affected) == 0
  {
    assert files[0..] == files;
  }

  lemma RewriteStep(parse: Parser, w: Span, files: seq<Audio>, i: nat, affected: set<string>)
    requires i < |files|
    ensures var rest := Rewrite(parse, w, files[i + 1..], affected);
            var lines := SplitLines(files[i].text);
            var kept := KeepLines(parse, w, lines);
            && Rewrite(parse, w, files[i..], affected)
               == (if files[i].path !in affected then [files[i]] + rest
                   else if kept == [] then rest else [Audio(files[i].path, Unlines(kept))] + rest)
            && Deleted(parse, w, files[i..], affected)
               == (if files[i].path in affected then CountHits(parse, w, lines) else 0)
                  + Deleted(parse, w, files[i + 1..], affected)
  {
    assert files[i..][1..] == files[i + 1..];
  }

  lemma AllHitsStart(parse: Parser, w: Span, files: seq<Audio>)
    ensures [] + AllHits(parse, w, files[0..]) == AllHits(parse, w, files)
  {
    assert files[0..] == files;
  }

  lemma AllHitsStep(parse: Parser, w: Span, files: seq<Audio>, i: nat)
    requires i < |files|
    ensures AllHits(parse, w, files[i..])
            == HitsOf(parse, w, SplitLines(files[i].text), files[i].path) + AllHits(parse, w, files[i + 1..])
  {
    assert files[i..][1..] == files[i + 1..];
  }

  lemma AllHitsEnd(parse: Parser, w: Span, files: seq<Audio>)
    ensures AllHits(parse, w, files[|files|..]) == []
  {
  }

  function Limit(requested: int): nat {
    if requested > 1 then requested else 1
  }

  function DryRun(frames: seq<Frame>, audio: seq<Audio>, parse: Parser, w: Span, requested: int): Report {
    Report(|SelectFrames(frames, w, Limit(requested))|, |SelectRecords(parse, w, audio, Limit(requested))|, 0)
  }

  function RealRun(frames: seq<Frame>, audio: seq<Audio>, parse: Parser, w: Span, requested: int): Report {
    var selected := SelectFrames(frames, w, Limit(requested));
    Report(|selected|, Deleted(parse, w, audio, PathsOf(SelectRecords(parse, w, audio, Limit(requested)))),
           FilesOf(selected))
  }

  function FramesAfter(frames: seq<Frame>, w: Span, requested: int): seq<Frame> {
    WithoutPaths(frames, FramePaths(SelectFrames(frames, w, Limit(requested))))
  }

  function AudioAfter(audio: seq<Audio>, parse: Parser, w: Span, requested: int): seq<Audio> {
    Rewrite(parse, w, audio, PathsOf(SelectRecords(parse, w, audio, Limit(requested))))
  }

  lemma HitsOfStep(found: seq<Rec>, parse: Parser, w: Span, lines: seq<string>, j: nat, path: string)
    requires j < |lines|
    ensures found + HitsOf(parse, w, lines[..j + 1], path)
            == (if LineHit(parse, w, lines[j]) then found + [Rec(lines[j], path)] else found)
                + HitsOf(parse, w, lines[..j], path)
  {
    assert lines[..j + 1][..j] == lines[..j];
  }

  lemma NoHits(parse: Parser, w: Span, lines: seq<string>, path: string)
    ensures HitsOf(parse, w, lines[..0], path) == []
  {
  }

  // ----- Frames: what is deleted, what stays -----

  ghost predicate DistinctFrames(frames: seq<Frame>) {
    forall i, j :: 0 <= i < j < |frames| ==> frames[i].path != frames[j].path
  }

  ghost predicate DistinctFiles(files: seq<Audio>) {
    forall i, j :: 0 <= i < j < |files| ==> files[i].path != files[j].path
  }

  lemma {:induction false} FrameHitsMember(frames: seq<Frame>, w: Span, f: Frame)
    ensures f in FrameHits(frames, w) <==> f in frames && FrameHit(f, w)
  {
    if frames != [] {
      FrameHitsMember(frames[1..], w, f);
      assert frames == [frames[0]] + frames[1..];
    }
  }

  /** Deleting paths of in-window frames leaves every other frame, in order. */
  lemma {:induction false} RestKept(frames: seq<Frame>, w: Span, paths: set<string>)
    requires forall f :: f in frames && f.path in paths ==> FrameHit(f, w)
    ensures FrameRest(WithoutPaths(frames, paths), w) == FrameRest(frames, w)
    ensures (forall f :: f in frames && FrameHit(f, w) ==> f.path in paths) ==>
              WithoutPaths(frames, paths) == FrameRest(frames, w) && FrameHits(WithoutPaths(frames, paths), w) == []
  {
    if frames != [] {
      assert forall f :: f in frames[1..] ==> f in frames;
      RestKept(frames[1..], w, paths);
      assert frames[0] in frames;
    }
  }

  lemma SelectedPaths(frames: seq<Frame>, w: Span, limit: nat)
    requires DistinctFrames(frames)
    ensures forall f :: f in frames && f.path in FramePaths(SelectFrames(frames, w, limit)) ==> FrameHit(f, w)
    ensures |FrameHits(frames, w)| <= limit ==>
              forall f :: f in frames && FrameHit(f, w) ==> f.path in FramePaths(SelectFrames(frames, w, limit))
  {
    var sel := SelectFrames(frames, w, limit);
    forall f | f in frames && f.path in FramePaths(sel) ensures FrameHit(f, w) {
      var g :| g in sel && g.path == f.path;
      assert g in FrameHits(frames, w);
      FrameHitsMember(frames, w, g);
      var i :| 0 <= i < |frames| && frames[i] == f;
      var j :| 0 <= j < |frames| && frames[j] == g;
    }
    forall f | f in frames && FrameHit(f, w) && |FrameHits(frames, w)| <= limit ensures f.path in FramePaths(sel) {
      FrameHitsMember(frames, w, f);
    }
  }

  /** Main result on frames: whatever the limit, every frame outside the window and every
      unparsable one survives in order; within the limit the window is empty afterwards. */
  lemma FramesDeleted(frames: seq<Frame>, w: Span, requested: int)
    requires DistinctFrames(frames)
    ensures FrameRest(FramesAfter(frames, w, requested), w) == FrameRest(frames, w)
    ensures |FrameHits(frames, w)| <= Limit(requested) ==>
              FramesAfter(frames, w, requested) == FrameRest(frames, w)
              && FrameHits(FramesAfter(frames, w, requested), w) == []
  {
    SelectedPaths(frames, w, Limit(requested));
    RestKept(frames, w, FramePaths(SelectFrames(frames, w, Limit(requested))));
  }

  // ----- Transcripts -----

  /** JSON has no blank documents. */
  ghost predicate RejectsBlank(parse: Parser) {
    forall line :: Strip(line) == "" ==> parse(line) == None
  }

  /** Every line that is not an in-window record, file after file. */
  function AllRest(parse: Parser, w: Span, files: seq<Audio>): seq<string> {
    if files == [] then [] else KeepLines(parse, w, SplitLines(files[0].text)) + AllRest(parse, w, files[1..])
  }

  lemma {:induction false} KeepClean(parse: Parser, w: Span, lines: seq<string>)
    requires CleanLines(lines)
    ensures CleanLines(KeepLines(parse, w, lines))
    ensures KeepLines(parse, w, KeepLines(parse, w, lines)) == KeepLines(parse, w, lines)
    ensures CountHits(parse, w, KeepLines(parse, w, lines)) == 0
    ensures CountHits(parse, w, lines) == 0 ==> KeepLines(parse, w, lines) == lines
  {
    if lines != [] {
      KeepClean(parse, w, lines[1..]);
    }
  }

  /** The read loop counts from the back and skips blanks, the delete loop from the front. */
  lemma {:induction false} HitsAreCounted(parse: Parser, w: Span, lines: seq<string>, path: string)
    requires RejectsBlank(parse)
    ensures |HitsOf(parse, w, lines, path)| == CountHits(parse, w, lines)
    ensures forall r :: r in HitsOf(parse, w, lines, path) ==> r.path == path
  {
    if lines != [] {
      var n := |lines| - 1;
      HitsAreCounted(parse, w, lines[..n], path);
      CountSnoc(parse, w, lines[..n], lines[n]);
      assert lines == lines[..n] + [lines[n]];
    }
  }

  lemma {:induction false} CountSnoc(parse: Parser, w: Span, lines: seq<string>, last: string)
    ensures CountHits(parse, w, lines + [last])
            == CountHits(parse, w, lines) + (if parse(last).Some? && InWindow(parse(last).value, w) then 1 else 0)
  {
    if lines == [] {
      assert [] + [last] == [last] && [last][1..] == [];
      assert CountHits(parse, w, [last][1..]) == 0;
    } else {
      assert (lines + [last])[1..] == lines[1..] + [last];
      CountSnoc(parse, w, lines[1..], last);
    }
  }

  /** Survivors: rewriting any set of files loses no other line and changes no order. */
  lemma {:induction false} RewriteKeepsRest(parse: Parser, w: Span, files: seq<Audio>, affected: set<string>)
    ensures AllRest(parse, w, Rewrite(parse, w, files, affected)) == AllRest(parse, w, files)
  {
    if files != [] {
      var lines := SplitLines(files[0].text);
      var kept := KeepLines(parse, w, lines);
      RewriteKeepsRest(parse, w, files[1..], affected);
      LinesAreClean(files[0].text);
      KeepClean(parse, w, lines);
      LinesRoundTrip(kept);
      var tail := Rewrite(parse, w, files[1..], affected);
      if files[0].path in affected {
        if kept == [] {
          assert [] + AllRest(parse, w, files[1..]) == AllRest(parse, w, files[1..]);
        } else {
          assert ([Audio(files[0].path, Unlines(kept))] + tail)[1..] == tail;
        }
      } else {
        assert ([files[0]] + tail)[1..] == tail;
      }
    }
  }

  /** No in-window record is left in any file. */
  ghost predicate WindowEmpty(parse: Parser, w: Span, files: seq<Audio>) {
    forall f :: f in files ==> CountHits(parse, w, SplitLines(f.text)) == 0
  }

  lemma {:induction false} RewriteEmpties(parse: Parser, w: Span, files: seq<Audio>, affected: set<string>)
    requires forall f :: f in files && CountHits(parse, w, SplitLines(f.text)) > 0 ==> f.path in affected
    ensures WindowEmpty(parse, w, Rewrite(parse, w, files, affected))
  {
    if files != [] {
      assert forall f :: f in files[1..] ==> f in files;
      RewriteEmpties(parse, w, files[1..], affected);
      var lines := SplitLines(files[0].text);
      LinesAreClean(files[0].text);
      KeepClean(parse, w, lines);
      LinesRoundTrip(KeepLines(parse, w, lines));
      assert files[0] in files;
    }
  }

  lemma {:induction false} HitPaths(parse: Parser, w: Span, files: seq<Audio>, f: Audio)
    requires RejectsBlank(parse) && f in files && CountHits(parse, w, SplitLines(f.text)) > 0
    ensures f.path in PathsOf(AllHits(parse, w, files))
  {
    HitsAreCounted(parse, w, SplitLines(files[0].text), files[0].path);
    var first := HitsOf(parse, w, SplitLines(files[0].text), files[0].path);
    if f == files[0] {
      assert first[0] in AllHits(parse, w, files);
    } else {
      HitPaths(parse, w, files[1..], f);
      var r :| r in AllHits(parse, w, files[1..]) && r.path == f.path;
      assert r in AllHits(parse, w, files);
    }
  }

  /** Main result on transcripts: whatever the limit, every line that is not an in-window record
      survives in order; if the in-window records do not exceed the limit, none is left. */
  lemma TranscriptsDeleted(files: seq<Audio>, parse: Parser, w: Span, requested: int)
    requires RejectsBlank(parse)
    ensures AllRest(parse, w, AudioAfter(files, parse, w, requested)) == AllRest(parse, w, files)
    ensures |AllHits(parse, w, files)| <= Limit(requested)
            ==> WindowEmpty(parse, w, AudioAfter(files, parse, w, requested))
  {
    var affected := PathsOf(SelectRecords(parse, w, files, Limit(requested)));
    RewriteKeepsRest(parse, w, files, affected);
    if |AllHits(parse, w, files)| <= Limit(requested) {
      forall f | f in files && CountHits(parse, w, SplitLines(f.text)) > 0 ensures f.path in affected {
        HitPaths(parse, w, files, f);
      }
      RewriteEmpties(parse, w, files, affected);
    }
  }

  // ----- When the dry run predicts the real run -----

  /** The limit falls on the end of a file, counting in-window records newest file first. */
  ghost predicate EndsAtFile(parse: Parser, w: Span, files: seq<Audio>, limit: nat) {
    exists k :: 0 <= k <= |files| && |AllHits(parse, w, files[..k])| == limit
  }

  /** What the real run deletes: whole files, until the limit is reached or passed. */
  function DeletedUpTo(parse: Parser, w: Span, files: seq<Audio>, room: nat): nat {
    if files == [] || room == 0 then 0 else
      var c := CountHits(parse, w, SplitLines(files[0].text));
      c + DeletedUpTo(parse, w, files[1..], if c >= room then 0 else room - c)
  }

  lemma {:induction false} DeletedSameOn(parse: Parser, w: Span, files: seq<Audio>, a: set<string>, b: set<string>)
    requires forall f :: f in files ==> (f.path in a <==> f.path in b)
    ensures Deleted(parse, w, files, a) == Deleted(parse, w, files, b)
  {
    if files != [] {
      assert files[0] in files && forall f :: f in files[1..] ==> f in files;
      DeletedSameOn(parse, w, files[1..], a, b);
    }
  }

  lemma {:induction false} HitsKnowFiles(parse: Parser, w: Span, files: seq<Audio>, r: Rec)
    requires RejectsBlank(parse) && r in AllHits(parse, w, files)
    ensures exists f :: f in files && f.path == r.path
  {
    HitsAreCounted(parse, w, SplitLines(files[0].text), files[0].path);
    if r in HitsOf(parse, w, SplitLines(files[0].text), files[0].path) {
      assert files[0] in files;
    } else {
      HitsKnowFiles(parse, w, files[1..], r);
      var f :| f in files[1..] && f.path == r.path;
      assert f in files;
    }
  }

  lemma {:induction false} NothingDeleted(parse: Parser, w: Span, files: seq<Audio>, affected: set<string>)
    requires forall f :: f in files ==> f.path !in affected
    ensures Deleted(parse, w, files, affected) == 0
  {
    if files != [] {
      assert files[0] in files && forall f :: f in files[1..] ==> f in files;
      NothingDeleted(parse, w, files[1..], affected);
    }
  }

  /** The first file of a run: it is affected when it has a hit, and the rest sees the room left. */
  lemma FirstFile(parse: Parser, w: Span, files: seq<Audio>, room: nat)
    requires RejectsBlank(parse) && DistinctFiles(files) && files != [] && room > 0
    ensures var affected := PathsOf(SelectRecords(parse, w, files, room));
            var c := CountHits(parse, w, SplitLines(files[0].text));
            && (files[0].path in affected <==> c > 0)
            && (forall f :: f in files[1..] ==>
                  (f.path in affected <==>
                     c < room && f.path in PathsOf(SelectRecords(parse, w, files[1..], room - c))))
  {
    var path, lines := files[0].path, SplitLines(files[0].text);
    var first, rest := HitsOf(parse, w, lines, path), AllHits(parse, w, files[1..]);
    HitsAreCounted(parse, w, lines, path);
    AllHitsCons(parse, w, files);
    hide AllHits, HitsOf, CountHits, SplitLines, PathsOf;
    forall f | f in files[1..] ensures f.path != path {
      OtherPath(files, f);
    }
    forall r | r in rest ensures r.path != path {
      HitsKnowFiles(parse, w, files[1..], r);
    }
    CutPaths(first, rest, path, room);
  }

  lemma OtherPath(files: seq<Audio>, f: Audio)
    requires DistinctFiles(files) && files != [] && f in files[1..]
    ensures f.path != files[0].path
  {
    var i :| 0 <= i < |files[1..]| && files[1..][i] == f;
    assert files[i + 1] == f;
  }

  /** Of one file's records followed by others', a cut touches the file when it has any record, and
      another path when the cut reaches it. */
  lemma CutPaths(first: seq<Rec>, rest: seq<Rec>, path: string, room: nat)
    requires room > 0 && (forall r :: r in first ==> r.path == path) && (forall r :: r in rest ==> r.path != path)
    ensures var affected := PathsOf(Cut(first + rest, room));
            && (path in affected <==> first != [])
            && (forall p :: p != path ==>
                  (p in affected <==> |first| < room && p in PathsOf(Cut(rest, room - |first|))))
  {
    var sel := Cut(first + rest, room);
    if |first| >= room {
      assert sel == first[..room];
      assert first[0] in sel;
      assert forall r :: r in sel ==> r in first;
    } else {
      var more := Cut(rest, room - |first|);
      assert sel == first + more;
      assert forall r :: r in more ==> r in rest;
      assert first != [] ==> first[0] in sel;
      assert forall r :: r in sel <==> r in first || r in more;
    }
  }

  lemma AllHitsCons(parse: Parser, w: Span, files: seq<Audio>)
    requires files != []
    ensures AllHits(parse, w, files)
            == HitsOf(parse, w, SplitLines(files[0].text), files[0].path) + AllHits(parse, w, files[1..])
  {
  }

  lemma {:induction false} DeletedIs(parse: Parser, w: Span, files: seq<Audio>, room: nat)
    requires RejectsBlank(parse) && DistinctFiles(files)
    ensures Deleted(parse, w, files, PathsOf(SelectRecords(parse, w, files, room)))
            == DeletedUpTo(parse, w, files, room)
  {
    var affected := PathsOf(SelectRecords(parse, w, files, room));
    if files == [] || room == 0 {
      NothingDeleted(parse, w, files, affected);
    } else {
      hide SelectRecords, PathsOf, CountHits, SplitLines;
      var c := CountHits(parse, w, SplitLines(files[0].text));
      FirstFile(parse, w, files, room);
      if c >= room {
        NothingDeleted(parse, w, files[1..], affected);
        assert DeletedUpTo(parse, w, files[1..], 0) == 0;
      } else {
        DeletedIs(parse, w, files[1..], room - c);
        DeletedSameOn(parse, w, files[1..], affected, PathsOf(SelectRecords(parse, w, files[1..], room - c)));
      }
    }
  }

  lemma AllHitsLength(parse: Parser, w: Span, files: seq<Audio>, k: nat)
    requires RejectsBlank(parse) && 0 < k <= |files|
    ensures |AllHits(parse, w, files[..k])|
            == CountHits(parse, w, SplitLines(files[0].text)) + |AllHits(parse, w, files[1..][..k - 1])|
  {
    hide CountHits, HitsOf, SplitLines;
    HitsAreCounted(parse, w, SplitLines(files[0].text), files[0].path);
    assert files[..k][1..] == files[1..][..k - 1];
  }

  lemma EndsForward(parse: Parser, w: Span, files: seq<Audio>, room: nat)
    requires RejectsBlank(parse) && files != [] && room > 0 && EndsAtFile(parse, w, files, room)
    ensures var c := CountHits(parse, w, SplitLines(files[0].text));
            c <= room && EndsAtFile(parse, w, files[1..], room - c)
  {
    NothingHit(parse, w, files);
    hide CountHits, HitsOf, SplitLines, AllHits;
    var k :| 0 <= k <= |files| && |AllHits(parse, w, files[..k])| == room;
    AllHitsLength(parse, w, files, k);
  }

  lemma EndsBack(parse: Parser, w: Span, files: seq<Audio>, room: nat)
    requires RejectsBlank(parse) && files != [] && EndsAtFile(parse, w, files[1..], room)
    ensures EndsAtFile(parse, w, files, CountHits(parse, w, SplitLines(files[0].text)) + room)
  {
    hide CountHits, HitsOf, SplitLines, AllHits;
    var k :| 0 <= k <= |files[1..]| && |AllHits(parse, w, files[1..][..k])| == room;
    AllHitsLength(parse, w, files, k + 1);
  }

  lemma EndsCons(parse: Parser, w: Span, files: seq<Audio>, room: nat)
    requires RejectsBlank(parse) && files != [] && room > 0
    ensures var c := CountHits(parse, w, SplitLines(files[0].text));
            EndsAtFile(parse, w, files, room) <==> c <= room && EndsAtFile(parse, w, files[1..], room - c)
  {
    hide CountHits, SplitLines, EndsAtFile;
    var c := CountHits(parse, w, SplitLines(files[0].text));
    if EndsAtFile(parse, w, files, room) {
      EndsForward(parse, w, files, room);
    }
    if c <= room && EndsAtFile(parse, w, files[1..], room - c) {
      EndsBack(parse, w, files, room - c);
    }
  }

  lemma NothingHit(parse: Parser, w: Span, files: seq<Audio>)
    ensures |AllHits(parse, w, files[..0])| == 0
  {
  }

  lemma {:induction false} UpToExact(parse: Parser, w: Span, files: seq<Audio>, room: nat)
    requires RejectsBlank(parse)
    ensures var total := |AllHits(parse, w, files)|;
            DeletedUpTo(parse, w, files, room) == (if total <= room then total else room)
            <==> total <= room || EndsAtFile(parse, w, files, room)
    ensures |AllHits(parse, w, files)| <= room ==> DeletedUpTo(parse, w, files, room) == |AllHits(parse, w, files)|
  {
    if files == [] {
    } else if room == 0 {
      assert files[..0] == [] && |AllHits(parse, w, files[..0])| == 0;
    } else {
      hide EndsAtFile;
      var c := CountHits(parse, w, SplitLines(files[0].text));
      HitsAreCounted(parse, w, SplitLines(files[0].text), files[0].path);
      EndsCons(parse, w, files, room);
      if c < room {
        UpToExact(parse, w, files[1..], room - c);
      } else if c == room {
        UpToExact(parse, w, files[1..], 0);
        EndsAtZero(parse, w, files[1..]);
      }
    }
  }

  lemma EndsAtZero(parse: Parser, w: Span, files: seq<Audio>)
    ensures EndsAtFile(parse, w, files, 0)
  {
    assert files[..0] == [] && |AllHits(parse, w, files[..0])| == 0;
  }

  /** Main result, exact: the dry run always reports the frame count of the real run; it reports the
      transcript count of the real run exactly when the in-window records fit in the limit or the
      limit falls on the end of a file, since the real run rewrites whole files. */
  lemma DryRunPredictsExactly(frames: seq<Frame>, files: seq<Audio>, parse: Parser, w: Span, requested: int)
    requires RejectsBlank(parse) && DistinctFiles(files)
    ensures var dry, done := DryRun(frames, files, parse, w, requested), RealRun(frames, files, parse, w, requested);
            && dry.frames == done.frames
            && (dry.transcripts == done.transcripts <==>
                  |AllHits(parse, w, files)| <= Limit(requested) || EndsAtFile(parse, w, files, Limit(requested)))
  {
    hide AllHits, EndsAtFile;
    DeletedIs(parse, w, files, Limit(requested));
    UpToExact(parse, w, files, Limit(requested));
  }
}
