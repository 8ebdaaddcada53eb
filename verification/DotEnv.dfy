/** The dotenv file: reading one variable, upserting one, removing one. */
module DotEnv {
  import opened Options
  import opened TextLines

  const EXPORT: string := "export "

  /** Drops an `export ` prefix and the blanks after it. */
  function Norm(s: string): string {
    if EXPORT <= s then LStrip(s[|EXPORT|..]) else s
  }

  function Unquote(v: string): string {
    if |v| >= 2 && v[0] == v[|v| - 1] && (v[0] == '\'' || v[0] == '"') then v[1..|v| - 1] else v
  }

  /** The value a line gives to the key, as `read_env_var` sees it. */
  function ReadLine(line: string, key: string): Option<string> {
    var s := Strip(line);
    if s == "" || s[0] == '#' then None else
      var t := Norm(s);
      if !(key + "=" <= t) then None else Some(Unquote(Strip(t[|key| + 1..])))
  }

  function ReadLines(lines: seq<string>, key: string): Option<string> {
    if lines == [] then None
    else if ReadLine(lines[0], key).Some? then ReadLine(lines[0], key)
    else ReadLines(lines[1..], key)
  }

  /** `_line_sets_key`. */
  predicate SetsKey(line: string, key: string) {
    key + "=" <= Norm(LStrip(line))
  }

  function Entry(key: string, value: string): string {
    key + "=" + value
  }

  function Replaced(lines: seq<string>, key: string, value: string): seq<string> {
    if lines == [] then []
    else if SetsKey(lines[0], key) then [Entry(key, value)] + Replaced(lines[1..], key, value)
    else [lines[0]] + Replaced(lines[1..], key, value)
  }

  predicate AnySets(lines: seq<string>, key: string) {
    exists i :: 0 <= i < |lines| && SetsKey(lines[i], key)
  }

  function Upserted(lines: seq<string>, key: string, value: string): seq<string> {
    if AnySets(lines, key) then Replaced(lines, key, value) else Replaced(lines, key, value) + [Entry(key, value)]
  }

  function Kept(lines: seq<string>, key: string): seq<string> {
    if lines == [] then []
    else if SetsKey(lines[0], key) then Kept(lines[1..], key)
    else [lines[0]] + Kept(lines[1..], key)
  }

  /** The file: missing, or a text. */
  type File = Option<string>

  function LinesOf(f: File): seq<string> {
    if f.None? then [] else SplitLines(f.value)
  }

  function Read(f: File, key: string): Option<string> {
    ReadLines(LinesOf(f), key)
  }

  function Persist(f: File, key: string, value: string): File {
    Some(Unlines(Upserted(LinesOf(f), key, value)))
  }

  function Remove(f: File, key: string): File {
    if f.None? then None else
      var kept := Kept(LinesOf(f), key);
      Some(RStrip(Unlines(kept)) + (if kept == [] then "" else "\n"))
  }

  class EnvFile {
    var file: File

    constructor (file: File)
      ensures this.file == file
    {
      this.file := file;
    }

    method ReadVar(key: string) returns (value: Option<string>)
      ensures value == Read(file, key)
    {
      if file.None? {
        return None;
      }
      var lines := SplitLines(file.value);
      for i := 0 to |lines|
        invariant ReadLines(lines[i..], key) == ReadLines(lines, key)
      {
        assert lines[i..][1..] == lines[i + 1..];
        var v := ReadLine(lines[i], key);
        if v.Some? {
          return v;
        }
      }
      return None;
    }

    method PersistVar(key: string, value: string)
      modifies this
      ensures file == Persist(old(file), key, value)
    {
      hide AnySets, SetsKey, Entry, SplitLines, Unlines, Replaced;
      var lines := if file.Some? then SplitLines(file.value) else [];
      var out := [];
      var found := false;
      assert lines[0..] == lines;
      for i := 0 to |lines|
        invariant out + Replaced(lines[i..], key, value) == Replaced(lines, key, value)
        invariant found || AnySets(lines[i..], key) <==> AnySets(lines, key)
      {
        assert lines[i..][1..] == lines[i + 1..];
        AnySetsCons(lines[i..], key);
        ReplacedStep(out, lines[i..], key, value);
        if SetsKey(lines[i], key) {
          out := out + [Entry(key, value)];
          found := true;
        } else {
          out := out + [lines[i]];
        }
      }
      assert out + [] == out && lines[|lines|..] == [];
      NothingReplaced(key, value);
      if !found {
        out := out + [Entry(key, value)];
      }
      file := Some(Unlines(out));
    }

    method RemoveVar(key: string)
      modifies this
      ensures file == Remove(old(file), key)
    {
      if file.None? {
        return;
      }
      var lines := SplitLines(file.value);
      var out := [];
      for i := 0 to |lines|
        invariant out + Kept(lines[i..], key) == Kept(lines, key)
      {
        assert lines[i..][1..] == lines[i + 1..];
        if !SetsKey(lines[i], key) {
          out := out + [lines[i]];
        }
      }
      assert out + [] == out;
      file := Some(RStrip(Unlines(out)) + (if out == [] then "" else "\n"));
    }
  }

  // ----- Keys and values the file can hold -----

  predicate NoEquals(key: string) {
    forall i :: 0 <= i < |key| ==> key[i] != '='
  }

  /** A key that the line syntax takes for itself: no leading blank, no `export ` prefix. */
  predicate Plain(key: string) {
    !(key != "" && IsSpace(key[0])) && !(EXPORT <= key)
  }

  predicate GoodKey(key: string) {
    Plain(key) && NoBreak(key) && !(key != "" && key[0] == '#')
  }

  /** Trimmed, without surrounding quotes, on one line. */
  predicate GoodValue(value: string) {
    && NoBreak(value) && Strip(value) == value
    && !(|value| >= 2 && value[0] == value[|value| - 1] && value[0] in ['\'', '"'])
  }

  /** Reading and `_line_sets_key` see the same prefix, although one strips on both sides. */
  lemma PrefixStripped(s: string, p: string)
    requires p != "" && !IsSpace(p[|p| - 1])
    ensures p <= RStrip(s) <==> p <= s
  {
    hide IsSpace, RStrip;
    RStripSplits(s);
    var r := RStrip(s);
    assert s == r + s[|r|..];
    forall i | |r| <= i < |s| ensures IsSpace(s[i]) {
      assert s[i] == s[|r|..][i - |r|];
    }
  }

  lemma SamePrefix(line: string, key: string)
    ensures key + "=" <= Norm(Strip(line)) <==> SetsKey(line, key)
  {
    var p := key + "=";
    var l := LStrip(line);
    var s := RStrip(l);
    if EXPORT <= l {
      if EXPORT <= s {
        SameExported(l, p);
      } else {
        ExportOnly(l, s);
        LStripAllSpace(l[|EXPORT|..]);
        assert p[|p| - 1] == '=' && forall i :: 0 <= i < |s| ==> s[i] != '=';
        assert p <= s ==> s[|p| - 1] == '=';
      }
    } else {
      RStripSplits(l);
      assert l == s + l[|s|..];
      PrefixStripped(l, p);
    }
  }

  lemma SameExported(l: string, p: string)
    requires EXPORT <= RStrip(l) && p != "" && !IsSpace(p[|p| - 1])
    ensures EXPORT <= l && (p <= LStrip(RStrip(l)[|EXPORT|..]) <==> p <= LStrip(l[|EXPORT|..]))
  {
    hide LStrip, RStrip, IsSpace;
    var s := RStrip(l);
    RStripSplits(l);
    assert l == s + l[|s|..];
    assert l[|EXPORT|..] == s[|EXPORT|..] + l[|s|..];
    RStripAppend(s[|EXPORT|..], l[|s|..]);
    var a, b := s[|EXPORT|..], l[|EXPORT|..];
    StripsCommute(a);
    StripsCommute(b);
    PrefixStripped(LStrip(a), p);
    PrefixStripped(LStrip(b), p);
  }

  /** A line that is `export` and blanks sets nothing. */
  lemma ExportOnly(l: string, s: string)
    requires EXPORT <= l && !(EXPORT <= s) && s == RStrip(l)
    ensures AllSpace(l[|EXPORT|..]) && forall i :: 0 <= i < |s| ==> s[i] != '='
  {
    RStripSplits(l);
    hide RStrip, IsSpace;
    assert l == s + l[|s|..];
    assert s == l[..|s|];
    ShortPrefix(EXPORT, l, |s|);
    assert EXPORT == l[..|EXPORT|] && s == EXPORT[..|s|];
    RestSpace(l, |s|, |EXPORT|);
  }

  lemma ShortPrefix(p: string, l: string, n: nat)
    requires p <= l && n <= |l| && !(p <= l[..n])
    ensures n < |p|
  {
  }

  lemma RestSpace(l: string, m: nat, n: nat)
    requires m <= n <= |l| && AllSpace(l[m..])
    ensures AllSpace(l[n..])
  {
    forall i | 0 <= i < |l| - n ensures IsSpace(l[n..][i]) {
      assert l[n..][i] == l[m..][n - m + i];
    }
  }

  lemma ReadsOnlyIfSets(line: string, key: string)
    ensures ReadLine(line, key).Some? ==> SetsKey(line, key)
    ensures SetsKey(line, key) && !(key != "" && key[0] == '#') ==> ReadLine(line, key).Some?
  {
    SamePrefix(line, key);
    var s := Strip(line);
    assert s != "" && s[0] == '#' ==> Norm(s) == s;
    assert (key + "=")[0] == if key == "" then '=' else key[0];
  }

  /** One line sets at most one key. */
  lemma OneKeyPerLine(line: string, a: string, b: string)
    requires NoEquals(a) && NoEquals(b) && SetsKey(line, a) && SetsKey(line, b)
    ensures a == b
  {
    var t := Norm(LStrip(line));
    assert t[|a|] == '=' && t[|b|] == '=';
    assert t[..|a|] == a && t[..|b|] == b;
    forall i | 0 <= i < |a| ensures t[i] != '=' { assert t[i] == a[i]; }
    forall i | 0 <= i < |b| ensures t[i] != '=' { assert t[i] == b[i]; }
  }

  lemma EntryNorm(key: string, value: string)
    requires Plain(key)
    ensures Norm(LStrip(Entry(key, value))) == Entry(key, value)
  {
    var e := Entry(key, value);
    assert e[0] == if key == "" then '=' else key[0];
    if |key| < |EXPORT| {
      assert e[|key|] == '=' && EXPORT[|key|] != '=';
    } else {
      assert e[..|EXPORT|] == key[..|EXPORT|];
    }
  }

  /** An entry written by persist sets its own key exactly when the key is plain. */
  lemma EntrySets(key: string, value: string)
    requires NoEquals(key)
    ensures SetsKey(Entry(key, value), key) <==> Plain(key)
  {
    if Plain(key) {
      EntryNorm(key, value);
    } else if key != "" && IsSpace(key[0]) {
      LStripSplits(Entry(key, value));
      NormStart(LStrip(Entry(key, value)));
    } else {
      ExportEntry(key, value);
    }
  }

  /** An entry whose key begins with `export ` sets the rest of the key instead. */
  lemma ExportEntry(key: string, value: string)
    requires NoEquals(key) && EXPORT <= key
    ensures !SetsKey(Entry(key, value), key)
  {
    var e := Entry(key, value);
    assert EXPORT <= e && LStrip(e) == e;
    var tail := e[|EXPORT|..];
    var r := LStrip(tail);
    LStripSplits(tail);
    hide LStrip;
    var d := |e| - |r|;
    assert e[|key|] == '=';
    forall i | |EXPORT| <= i < d ensures e[i] != '=' {
      assert tail[..|tail| - |r|][i - |EXPORT|] == e[i];
    }
    assert r[|key| - d] == e[|key|];
    assert (key + "=")[|key| - d] == key[|key| - d];
  }

  /** Stripping never leaves a leading blank. */
  lemma NormStart(s: string)
    requires s != "" ==> !IsSpace(s[0])
    ensures Norm(s) != "" ==> !IsSpace(Norm(s)[0])
  {
    if EXPORT <= s { LStripSplits(s[|EXPORT|..]); }
  }

  // ----- One written entry, read back -----

  /** Reading an entry of a good key gives the value trimmed and unquoted. */
  lemma ReadEntry(key: string, value: string)
    requires GoodKey(key)
    ensures ReadLine(Entry(key, value), key) == Some(Unquote(Strip(value)))
  {
    var e := Entry(key, value);
    var p := key + "=";
    assert e == p + value && LStrip(e) == e by { assert e[0] == if key == "" then '=' else key[0]; }
    RStripTail(p, value);
    var s := Strip(e);
    assert s == p + RStrip(value);
    assert s[0] != '#';
    EntryNorm(key, RStrip(value));
    assert Norm(s) == s by { assert s == Entry(key, RStrip(value)) && LStrip(s) == s by { assert s[0] == e[0]; } }
    assert s[|key| + 1..] == RStrip(value);
    StripOfRStrip(value);
  }

  /** A value within one pair of equal quotes reads as what stands between them, blanks and all. */
  lemma QuotedReads(key: string, value: string, quote: char)
    requires GoodKey(key) && quote in ['\'', '"']
    ensures ReadLine(key + "=" + [quote] + value + [quote], key) == Some(value)
  {
    hide ReadLine, Unquote, Strip, GoodKey;
    var quoted := [quote] + value + [quote];
    ReadEntry(key, quoted);
    QuotedBack(value, quote);
    assert Entry(key, quoted) == key + "=" + [quote] + value + [quote];
  }

  lemma QuotedBack(value: string, quote: char)
    requires quote in ['\'', '"']
    ensures Unquote(Strip([quote] + value + [quote])) == value
  {
    var quoted := [quote] + value + [quote];
    assert LStrip(quoted) == quoted;
    RStripAfter([quote] + value, [quote]);
    assert quoted[1..|quoted| - 1] == value;
  }

  lemma StripShrinks(v: string)
    ensures |Strip(v)| <= |v| && (|Strip(v)| == |v| ==> Strip(v) == v)
  {
    LStripSplits(v);
    RStripSplits(LStrip(v));
  }

  /** What is read back equals the value exactly when the value is trimmed and not quoted. */
  lemma ValueBack(value: string)
    requires NoBreak(value)
    ensures Unquote(Strip(value)) == value <==> GoodValue(value)
  {
    StripShrinks(value);
  }

  /** No line holds a line break, so neither does any value read. */
  lemma ReadLineClean(line: string, key: string)
    requires NoBreak(line)
    ensures ReadLine(line, key).Some? ==> NoBreak(ReadLine(line, key).value) && NoBreak(key)
  {
    hide Strip, Norm, Unquote, NoBreak;
    var s := Strip(line);
    StripClean(line);
    NormClean(s);
    var t := Norm(s);
    if key + "=" <= t {
      var v := t[|key| + 1..];
      SliceClean(t, |key| + 1, |t|);
      SliceClean(t, 0, |key|);
      assert key == t[..|key|];
      StripClean(v);
      UnquoteClean(Strip(v));
    }
  }

  lemma SliceClean(s: string, i: nat, j: nat)
    requires NoBreak(s) && i <= j <= |s|
    ensures NoBreak(s[i..j]) && NoBreak(s[i..]) && NoBreak(s[..j])
  {
  }

  lemma StripClean(s: string)
    requires NoBreak(s)
    ensures NoBreak(Strip(s))
  {
    LStripSplits(s);
    RStripSplits(LStrip(s));
    assert Strip(s) <= LStrip(s);
  }

  lemma NormClean(s: string)
    requires NoBreak(s)
    ensures NoBreak(Norm(s))
  {
    if EXPORT <= s { LStripSplits(s[|EXPORT|..]); }
  }

  lemma UnquoteClean(s: string)
    requires NoBreak(s)
    ensures NoBreak(Unquote(s))
  {
  }

  lemma {:induction false} ReadLinesClean(lines: seq<string>, key: string)
    requires CleanLines(lines)
    ensures ReadLines(lines, key).Some? ==> NoBreak(ReadLines(lines, key).value) && NoBreak(key)
  {
    if lines != [] {
      ReadLineClean(lines[0], key);
      ReadLinesClean(lines[1..], key);
    }
  }

  // ----- Upserting on lines -----

  lemma {:induction false} NoneSets(lines: seq<string>, key: string)
    requires !AnySets(lines, key)
    ensures ReadLines(lines, key) == None
  {
    if lines != [] {
      ReadsOnlyIfSets(lines[0], key);
      forall i | 0 <= i < |lines[1..]| ensures !SetsKey(lines[1..][i], key) {
        assert lines[1..][i] == lines[i + 1];
      }
      NoneSets(lines[1..], key);
    }
  }

  /** Reading a key from replaced lines: the new entry if any line set the key. */
  lemma {:induction false} ReadReplaced(lines: seq<string>, key: string, value: string)
    ensures AnySets(lines, key) ==> ReadLines(Replaced(lines, key, value), key) == ReadLine(Entry(key, value), key)
    ensures !AnySets(lines, key) ==> Replaced(lines, key, value) == lines
  {
    if lines != [] {
      ReadReplaced(lines[1..], key, value);
      ReadsOnlyIfSets(lines[0], key);
      AnySetsCons(lines, key);
      if SetsKey(lines[0], key) && AnySets(lines[1..], key) {
      } else if SetsKey(lines[0], key) {
        NoneSets(lines[1..], key);
      }
    }
  }

  lemma NothingReplaced(key: string, value: string)
    ensures !AnySets([], key) && Replaced([], key, value) == []
  {
  }

  lemma ReplacedStep(out: seq<string>, lines: seq<string>, key: string, value: string)
    requires lines != []
    ensures out + [if SetsKey(lines[0], key) then Entry(key, value) else lines[0]] + Replaced(lines[1..], key, value)
            == out + Replaced(lines, key, value)
  {
  }

  lemma AnySetsCons(lines: seq<string>, key: string)
    requires lines != []
    ensures AnySets(lines, key) <==> SetsKey(lines[0], key) || AnySets(lines[1..], key)
  {
    if AnySets(lines[1..], key) {
      var i :| 0 <= i < |lines[1..]| && SetsKey(lines[1..][i], key);
      assert SetsKey(lines[i + 1], key);
    }
    if AnySets(lines, key) && !SetsKey(lines[0], key) {
      var i :| 0 <= i < |lines| && SetsKey(lines[i], key);
      assert SetsKey(lines[1..][i - 1], key);
    }
  }

  lemma {:induction false} ReadSnoc(lines: seq<string>, last: string, key: string)
    ensures ReadLines(lines + [last], key)
            == if ReadLines(lines, key).Some? then ReadLines(lines, key) else ReadLine(last, key)
  {
    if lines == [] {
      assert [] + [last] == [last] && [last][1..] == [];
    } else {
      assert (lines + [last])[1..] == lines[1..] + [last];
      ReadSnoc(lines[1..], last, key);
    }
  }

  lemma ReadUpserted(lines: seq<string>, key: string, value: string)
    ensures ReadLines(Upserted(lines, key, value), key) == ReadLine(Entry(key, value), key)
  {
    ReadReplaced(lines, key, value);
    if !AnySets(lines, key) {
      NoneSets(lines, key);
      ReadSnoc(lines, Entry(key, value), key);
    }
  }

  lemma {:induction false} ReplacedClean(lines: seq<string>, key: string, value: string)
    requires CleanLines(lines) && NoBreak(Entry(key, value))
    ensures CleanLines(Replaced(lines, key, value))
  {
    if lines != [] {
      ReplacedClean(lines[1..], key, value);
    }
  }

  lemma PersistLines(f: File, key: string, value: string)
    requires NoBreak(key) && NoBreak(value)
    ensures LinesOf(Persist(f, key, value)) == Upserted(LinesOf(f), key, value)
    ensures CleanLines(Upserted(LinesOf(f), key, value))
  {
    if f.Some? { LinesAreClean(f.value); }
    ReplacedClean(LinesOf(f), key, value);
    LinesRoundTrip(Upserted(LinesOf(f), key, value));
  }

  // ----- Main results -----

  /** Round trip, exact: for every starting file, a persisted value reads back if and only if the
      key and the value are ones that one line can hold. */
  lemma PersistThenReadExactly(f: File, key: string, value: string)
    requires NoEquals(key)
    ensures Read(Persist(f, key, value), key) == Some(value) <==> GoodKey(key) && GoodValue(value)
  {
    var g := Persist(f, key, value);
    LinesAreClean(g.value);
    ReadLinesClean(LinesOf(g), key);
    if NoBreak(key) && NoBreak(value) {
      PersistLines(f, key, value);
      ReadUpserted(LinesOf(f), key, value);
      if GoodKey(key) {
        ReadEntry(key, value);
        ValueBack(value);
      } else {
        EntryUnread(key, value);
      }
    }
  }

  lemma EntryUnread(key: string, value: string)
    requires NoEquals(key) && NoBreak(key) && !GoodKey(key)
    ensures ReadLine(Entry(key, value), key) == None
  {
    if !Plain(key) {
      EntrySets(key, value);
      ReadsOnlyIfSets(Entry(key, value), key);
    } else {
      var e := Entry(key, value);
      assert key[0] == '#' && LStrip(e) == e;
      RStripTail(key + "=", value);
      assert Strip(e) == key + "=" + RStrip(value);
      assert Strip(e)[0] == '#';
    }
  }

  // ----- What a written file holds, line by line -----

  /** The lines that one written entry shows: more than one if it holds a line break. */
  function Shown(key: string, value: string): seq<string> {
    SplitLines(Entry(key, value) + "\n")
  }

  /** The lines of the file after replacing. */
  function Placed(lines: seq<string>, key: string, value: string): seq<string> {
    if lines == [] then []
    else if SetsKey(lines[0], key) then Shown(key, value) + Placed(lines[1..], key, value)
    else [lines[0]] + Placed(lines[1..], key, value)
  }

  lemma PlacedSet(lines: seq<string>, key: string, value: string)
    requires lines != [] && SetsKey(lines[0], key)
    ensures Replaced(lines, key, value) == [Entry(key, value)] + Replaced(lines[1..], key, value)
    ensures Placed(lines, key, value) == Shown(key, value) + Placed(lines[1..], key, value)
  {
  }

  lemma PlacedOther(lines: seq<string>, key: string, value: string)
    requires lines != [] && !SetsKey(lines[0], key)
    ensures Replaced(lines, key, value) == [lines[0]] + Replaced(lines[1..], key, value)
    ensures Placed(lines, key, value) == [lines[0]] + Placed(lines[1..], key, value)
  {
  }

  lemma {:induction false} ReplacedShows(lines: seq<string>, key: string, value: string, rest: string)
    requires CleanLines(lines)
    ensures SplitLines(Unlines(Replaced(lines, key, value)) + rest) == Placed(lines, key, value) + SplitLines(rest)
  {
    if lines == [] {
      assert "" + rest == rest;
    } else {
      hide SetsKey, Entry, SplitLines, Unlines, Replaced, Placed, NoBreak;
      var after := Replaced(lines[1..], key, value);
      ReplacedShows(lines[1..], key, value, rest);
      if SetsKey(lines[0], key) {
        PlacedSet(lines, key, value);
        UnlinesCons(Entry(key, value), after, rest);
        SplitCat(Entry(key, value), Unlines(after) + rest);
      } else {
        PlacedOther(lines, key, value);
        UnlinesCons(lines[0], after, rest);
        SplitFirst(lines[0], Unlines(after) + rest);
      }
    }
  }

  lemma UnlinesCons(line: string, lines: seq<string>, rest: string)
    ensures Unlines([line] + lines) + rest == line + "\n" + (Unlines(lines) + rest)
  {
    assert ([line] + lines)[1..] == lines;
  }

  lemma PersistShows(f: File, key: string, value: string)
    ensures LinesOf(Persist(f, key, value))
            == if AnySets(LinesOf(f), key) then Placed(LinesOf(f), key, value)
               else Placed(LinesOf(f), key, value) + Shown(key, value)
  {
    var lines := LinesOf(f);
    if f.Some? { LinesAreClean(f.value); }
    var replaced := Replaced(lines, key, value);
    if AnySets(lines, key) {
      ReplacedShows(lines, key, value, "");
      assert Unlines(replaced) + "" == Unlines(replaced);
    } else {
      ReplacedShows(lines, key, value, Entry(key, value) + "\n");
      UnlinesSnoc(replaced, Entry(key, value));
    }
  }

  // ----- Isolation -----

  lemma {:induction false} ReadCat(a: seq<string>, b: seq<string>, key: string)
    ensures ReadLines(a + b, key) == if ReadLines(a, key).Some? then ReadLines(a, key) else ReadLines(b, key)
  {
    if a == [] {
      assert a + b == b;
    } else {
      assert (a + b)[1..] == a[1..] + b;
      ReadCat(a[1..], b, key);
    }
  }

  lemma {:induction false} OtherPlaced(lines: seq<string>, key: string, value: string, other: string)
    requires NoEquals(key) && NoEquals(other) && key != other && ReadLines(Shown(key, value), other) == None
    ensures ReadLines(Placed(lines, key, value), other) == ReadLines(lines, other)
  {
    if lines != [] {
      OtherPlaced(lines[1..], key, value, other);
      ReadsOnlyIfSets(lines[0], other);
      if SetsKey(lines[0], key) {
        if SetsKey(lines[0], other) { OneKeyPerLine(lines[0], key, other); }
        ReadCat(Shown(key, value), Placed(lines[1..], key, value), other);
      }
    }
  }

  /** Isolation, exact: for every starting file another key reads after a persist as it did before, if and only if
      no line of the written entry gives that key a value. */
  lemma PersistKeepsOthersExactly(key: string, value: string, other: string)
    requires NoEquals(key) && NoEquals(other) && key != other
    ensures (forall f: File :: Read(Persist(f, key, value), other) == Read(f, other))
            <==> ReadLines(Shown(key, value), other) == None
  {
    hide Shown, SetsKey, Entry;
    if ReadLines(Shown(key, value), other) == None {
      forall f: File ensures Read(Persist(f, key, value), other) == Read(f, other) {
        var lines := LinesOf(f);
        PersistShows(f, key, value);
        OtherPlaced(lines, key, value, other);
        ReadCat(Placed(lines, key, value), Shown(key, value), other);
      }
    } else {
      PersistShows(None, key, value);
      assert [] + Shown(key, value) == Shown(key, value);
      assert Read(Persist(None, key, value), other) != Read(None, other);
    }
  }

  /** A plain key with a value on one line leaves every other key alone. */
  lemma PersistKeepsOthers(f: File, key: string, value: string, other: string)
    requires NoEquals(key) && NoEquals(other) && key != other
    requires Plain(key) && OneLine(Entry(key, value))
    ensures Read(Persist(f, key, value), other) == Read(f, other)
  {
    SplitOneLine(Entry(key, value));
    var e := DropReturn(Entry(key, value));
    EntryLine(key, value);
    if SetsKey(e, other) { OneKeyPerLine(e, key, other); }
    ReadsOnlyIfSets(e, other);
    assert [e][1..] == [];
    assert ReadLines(Shown(key, value), other) == None;
    hide ReadLine, SetsKey;
    PersistKeepsOthersExactly(key, value, other);
  }

  /** The one line of an entry sets its own key exactly when the key is plain. */
  lemma EntryLine(key: string, value: string)
    requires NoEquals(key)
    ensures SetsKey(DropReturn(Entry(key, value)), key) <==> Plain(key)
  {
    assert DropReturn(Entry(key, value)) == Entry(key, DropReturn(value));
    EntrySets(key, DropReturn(value));
  }

  // ----- Persisting twice -----

  lemma {:induction false} PlacedGrows(lines: seq<string>, key: string, value: string)
    requires Shown(key, value) != []
    ensures |Placed(lines, key, value)| >= |lines|
    ensures AnySets(lines, key) ==> |Placed(lines, key, value)| >= |lines| + |Shown(key, value)| - 1
  {
    if lines != [] {
      PlacedGrows(lines[1..], key, value);
      AnySetsCons(lines, key);
    }
  }

  lemma SomethingShown(key: string, value: string)
    ensures Shown(key, value) != []
  {
    if OneLine(Entry(key, value)) {
      SplitOneLine(Entry(key, value));
    } else {
      SplitManyLines(Entry(key, value));
    }
  }

  /** With an entry of several lines, or one that does not set its key, each persist adds lines. */
  lemma PersistAdds(f: File, key: string, value: string)
    requires |Shown(key, value)| >= 2 || !AnySets(LinesOf(f), key)
    ensures |LinesOf(Persist(f, key, value))| > |LinesOf(f)|
  {
    SomethingShown(key, value);
    PersistShows(f, key, value);
    PlacedGrows(LinesOf(f), key, value);
  }

  lemma {:induction false} PlacedAgain(lines: seq<string>, key: string, value: string, e: string)
    requires Shown(key, value) == [e]
    ensures AnySets(Placed(lines, key, value), key) <==> AnySets(lines, key) && SetsKey(e, key)
    ensures SetsKey(e, key) ==> Replaced(Placed(lines, key, value), key, value) == Replaced(lines, key, value)
  {
    if lines != [] {
      hide Shown, SetsKey, Entry;
      var rest := Placed(lines[1..], key, value);
      PlacedAgain(lines[1..], key, value, e);
      AnySetsCons(lines, key);
      AnySetsCons(Placed(lines, key, value), key);
      var first := if SetsKey(lines[0], key) then e else lines[0];
      assert Placed(lines, key, value) == [first] + rest && ([first] + rest)[1..] == rest;
    }
  }

  lemma {:induction false} ReplacedCat(a: seq<string>, b: seq<string>, key: string, value: string)
    ensures Replaced(a + b, key, value) == Replaced(a, key, value) + Replaced(b, key, value)
  {
    if a == [] {
      assert a + b == b;
    } else {
      assert (a + b)[1..] == a[1..] + b;
      ReplacedCat(a[1..], b, key, value);
    }
  }

  /** An entry of one line that sets its key is found by the second call. */
  lemma PersistAgain(f: File, key: string, value: string, e: string)
    requires Shown(key, value) == [e] && SetsKey(e, key)
    ensures Persist(Persist(f, key, value), key, value) == Persist(f, key, value)
  {
    var lines := LinesOf(f);
    var placed := Placed(lines, key, value);
    PersistShows(f, key, value);
    PlacedAgain(lines, key, value, e);
    hide Shown, SetsKey, Entry;
    if !AnySets(lines, key) {
      ReplacedCat(placed, [e], key, value);
      assert [e][1..] == [] && Replaced([e], key, value) == [Entry(key, value)];
      assert SetsKey((placed + [e])[|placed|], key);
    }
  }

  /** Persisting twice is persisting once, from every starting file, if and only if the key is plain and the entry
      is one line; otherwise the second call does not find the first one's entry, or writes its lines again. */
  lemma PersistTwiceExactly(f: File, key: string, value: string)
    requires NoEquals(key)
    ensures Persist(Persist(f, key, value), key, value) == Persist(f, key, value)
            <==> Plain(key) && OneLine(Entry(key, value))
  {
    var once := Persist(f, key, value);
    if OneLine(Entry(key, value)) {
      var e := DropReturn(Entry(key, value));
      SplitOneLine(Entry(key, value));
      EntryLine(key, value);
      if Plain(key) {
        PersistAgain(f, key, value, e);
      } else {
        OnceUnset(f, key, value, e);
        PersistAdds(once, key, value);
      }
    } else {
      SplitManyLines(Entry(key, value));
      PersistAdds(once, key, value);
    }
  }

  lemma OnceUnset(f: File, key: string, value: string, e: string)
    requires Shown(key, value) == [e] && !SetsKey(e, key)
    ensures !AnySets(LinesOf(Persist(f, key, value)), key)
  {
    PersistShows(f, key, value);
    PlacedAgain(LinesOf(f), key, value, e);
  }

  lemma {:induction false} KeptReads(lines: seq<string>, key: string, other: string)
    requires key == other || (NoEquals(key) && NoEquals(other))
    ensures ReadLines(Kept(lines, key), other) == if key == other then None else ReadLines(lines, other)
  {
    if lines != [] {
      KeptReads(lines[1..], key, other);
      ReadsOnlyIfSets(lines[0], other);
      if SetsKey(lines[0], key) && SetsKey(lines[0], other) && key != other { OneKeyPerLine(lines[0], key, other); }
    }
  }

  lemma {:induction false} KeptClean(lines: seq<string>, key: string)
    requires CleanLines(lines)
    ensures CleanLines(Kept(lines, key))
  {
    if lines != [] { KeptClean(lines[1..], key); }
  }

  /** Trimming the end of the text changes no reading. */
  lemma {:induction false} TrimTailReads(lines: seq<string>, key: string)
    ensures ReadLines(TrimTail(lines), key) == ReadLines(lines, key)
  {
    if lines == [] {
      assert [""][1..] == [] && Strip("") == "";
    } else {
      var front, last := lines[..|lines| - 1], lines[|lines| - 1];
      assert lines == front + [last];
      ReadSnoc(front, last, key);
      if AllSpace(last) {
        LStripAllSpace(last);
        TrimTailReads(front, key);
      } else {
        ReadSnoc(front, RStrip(last), key);
        StripOfRStrip(last);
      }
    }
  }

  /** Removing a key from every starting file: the key reads as absent, every other key as before. */
  lemma RemoveReads(f: File, key: string, other: string)
    requires key == other || (NoEquals(key) && NoEquals(other))
    ensures Read(Remove(f, key), other) == if key == other then None else Read(f, other)
    ensures Remove(f, key).None? <==> f.None?
  {
    if f.Some? {
      var kept := Kept(LinesOf(f), key);
      LinesAreClean(f.value);
      KeptClean(LinesOf(f), key);
      KeptReads(LinesOf(f), key, other);
      if kept == [] {
        assert RStrip(Unlines(kept)) + "" == "";
      } else {
        StrippedLines(kept);
        TrimTailReads(kept, other);
      }
    }
  }
}
