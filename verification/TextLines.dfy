/** Python's whitespace stripping and line splitting, as far as the text files need them. */
module TextLines {

  /** The characters at which `splitlines` ends a line. */
  predicate IsBreak(c: char) {
    || c == '\n' || c == '\r' || c == '\U{0B}' || c == '\U{0C}' || c == '\U{1C}' || c == '\U{1D}' || c == '\U{1E}'
    || c == '\U{85}' || c == '\U{2028}' || c == '\U{2029}'
  }

  /** `str.isspace` for one character. */
  predicate IsSpace(c: char) {
    || IsBreak(c) || c == ' ' || c == '\t' || c == '\U{1F}' || c == '\U{A0}' || c == '\U{1680}'
    || '\U{2000}' <= c <= '\U{200A}' || c == '\U{202F}' || c == '\U{205F}' || c == '\U{3000}'
  }

  predicate NoBreak(s: string) {
    forall i :: 0 <= i < |s| ==> !IsBreak(s[i])
  }

  predicate AllSpace(s: string) {
    forall i :: 0 <= i < |s| ==> IsSpace(s[i])
  }

  function LStrip(s: string): string {
    if s != "" && IsSpace(s[0]) then LStrip(s[1..]) else s
  }

  function RStrip(s: string): string {
    if s != "" && IsSpace(s[|s| - 1]) then RStrip(s[..|s| - 1]) else s
  }

  function Strip(s: string): string {
    RStrip(LStrip(s))
  }

  lemma {:induction false} RStripSplits(s: string)
    ensures RStrip(s) <= s && AllSpace(s[|RStrip(s)|..])
    ensures RStrip(s) != "" ==> !IsSpace(RStrip(s)[|RStrip(s)| - 1])
  {
    if s != "" && IsSpace(s[|s| - 1]) {
      RStripSplits(s[..|s| - 1]);
    }
  }

  lemma {:induction false} LStripSplits(s: string)
    ensures |LStrip(s)| <= |s| && LStrip(s) == s[|s| - |LStrip(s)|..] && AllSpace(s[..|s| - |LStrip(s)|])
    ensures LStrip(s) != "" ==> !IsSpace(LStrip(s)[0])
  {
    if s != "" && IsSpace(s[0]) {
      LStripSplits(s[1..]);
    }
  }

  lemma {:induction false} RStripAppend(s: string, w: string)
    requires AllSpace(w)
    ensures RStrip(s + w) == RStrip(s)
  {
    if w == "" {
      assert s + w == s;
    } else {
      assert (s + w)[..|s + w| - 1] == s + w[..|w| - 1];
      RStripAppend(s, w[..|w| - 1]);
    }
  }

  /** Right-stripping a text that ends in a non-space is nothing. */
  lemma RStripAfter(s: string, t: string)
    requires t != "" && !IsSpace(t[|t| - 1])
    ensures RStrip(s + t) == s + t
  {
    assert (s + t)[|s + t| - 1] == t[|t| - 1];
  }

  lemma {:induction false} RStripTail(s: string, t: string)
    requires s != "" && !IsSpace(s[|s| - 1])
    ensures RStrip(s + t) == s + RStrip(t)
  {
    if t != "" && IsSpace(t[|t| - 1]) {
      assert (s + t)[..|s + t| - 1] == s + t[..|t| - 1];
      RStripTail(s, t[..|t| - 1]);
    } else if t == "" {
      assert s + t == s;
    } else {
      RStripAfter(s, t);
    }
  }

  lemma {:induction false} LStripAllSpace(s: string)
    requires AllSpace(s)
    ensures LStrip(s) == "" && RStrip(s) == ""
  {
    if s != "" {
      LStripAllSpace(s[1..]);
      LStripAllSpace(s[..|s| - 1]);
      assert RStrip(s) == RStrip(s[..|s| - 1]);
    }
  }

  /** The two strips commute. */
  lemma {:induction false} StripsCommute(s: string)
    ensures LStrip(RStrip(s)) == RStrip(LStrip(s))
  {
    if AllSpace(s) {
      LStripAllSpace(s);
    } else if IsSpace(s[0]) {
      StripsCommute(s[1..]);
      RStripCons(s);
    } else {
      RStripSplits(s);
      assert s[0..] == s;
      assert RStrip(s)[0] == s[0];
    }
  }

  lemma {:induction false} RStripCons(s: string)
    requires s != "" && !AllSpace(s[1..])
    ensures RStrip(s) == [s[0]] + RStrip(s[1..])
  {
    if IsSpace(s[|s| - 1]) {
      assert s[..|s| - 1][1..] == s[1..][..|s| - 2];
      assert !AllSpace(s[1..][..|s| - 2]) by {
        var i :| 0 <= i < |s[1..]| && !IsSpace(s[1..][i]);
        assert s[1..][..|s| - 2][i] == s[1..][i];
      }
      RStripCons(s[..|s| - 1]);
    } else {
      assert s[1..][|s| - 2] == s[|s| - 1];
    }
  }

  lemma StripOfRStrip(s: string)
    ensures Strip(RStrip(s)) == Strip(s)
  {
    StripsCommute(s);
    RStripSplits(LStrip(s));
  }

  // ----- Numbers and substrings -----

  function Decimal(n: nat): (s: string)
    ensures s != ""
  {
    if n < 10 then [('0' as int + n) as char] else Decimal(n / 10) + [('0' as int + n % 10) as char]
  }

  predicate Contains(needle: string, hay: string) {
    needle <= hay || (hay != "" && Contains(needle, hay[1..]))
  }

  /** Substring search, said with positions. */
  lemma {:induction false} ContainsIsSubstring(needle: string, hay: string)
    ensures Contains(needle, hay) <==> exists i :: 0 <= i <= |hay| - |needle| && needle <= hay[i..]
  {
    if needle <= hay {
      assert hay[0..] == hay;
    } else if hay != "" {
      ContainsIsSubstring(needle, hay[1..]);
      if exists i :: 0 <= i <= |hay| - |needle| && needle <= hay[i..] {
        var i :| 0 <= i <= |hay| - |needle| && needle <= hay[i..];
        assert i > 0 && hay[1..][i - 1..] == hay[i..];
      }
      if Contains(needle, hay[1..]) {
        var i :| 0 <= i <= |hay[1..]| - |needle| && needle <= hay[1..][i..];
        assert hay[1..][i..] == hay[i + 1..];
      }
    }
  }

  // ----- Lines -----

  function LineEnd(t: string): nat {
    if t == "" || IsBreak(t[0]) then 0 else 1 + LineEnd(t[1..])
  }

  lemma {:induction false} LineEndIs(t: string)
    ensures LineEnd(t) <= |t| && NoBreak(t[..LineEnd(t)]) && (LineEnd(t) < |t| ==> IsBreak(t[LineEnd(t)]))
  {
    if t != "" && !IsBreak(t[0]) {
      LineEndIs(t[1..]);
      assert t[..LineEnd(t)] == [t[0]] + t[1..][..LineEnd(t[1..])];
    }
  }

  /** `str.splitlines`: CR LF counts as one break, and a final break adds no empty line. */
  function SplitLines(t: string): seq<string>
    decreases |t|
  {
    if t == "" then [] else
      LineEndIs(t);
      var n := LineEnd(t);
      if n == |t| then [t]
      else
        var skip := if t[n] == '\r' && n + 1 < |t| && t[n + 1] == '\n' then 2 else 1;
        [t[..n]] + SplitLines(t[n + skip..])
  }

  /** Every line followed by a newline. */
  function Unlines(lines: seq<string>): string {
    if lines == [] then "" else lines[0] + "\n" + Unlines(lines[1..])
  }

  ghost predicate CleanLines(lines: seq<string>) {
    forall i :: 0 <= i < |lines| ==> NoBreak(lines[i])
  }

  lemma {:induction false} LinesAreClean(t: string)
    ensures CleanLines(SplitLines(t))
    decreases |t|
  {
    if t != "" {
      LineEndIs(t);
      var n := LineEnd(t);
      if n < |t| {
        LinesAreClean(t[n + (if t[n] == '\r' && n + 1 < |t| && t[n + 1] == '\n' then 2 else 1)..]);
      } else {
        assert t[..n] == t;
      }
    }
  }

  lemma {:induction false} LineEndAt(line: string, rest: string)
    requires NoBreak(line) && rest != "" && IsBreak(rest[0])
    ensures LineEnd(line + rest) == |line|
  {
    if line == "" {
      assert line + rest == rest;
    } else {
      assert (line + rest)[1..] == line[1..] + rest;
      LineEndAt(line[1..], rest);
    }
  }

  /** One clean line, then a newline, then anything. */
  lemma SplitFirst(line: string, rest: string)
    requires NoBreak(line)
    ensures SplitLines(line + "\n" + rest) == [line] + SplitLines(rest)
  {
    var t := line + "\n" + rest;
    assert t == line + ("\n" + rest);
    LineEndAt(line, "\n" + rest);
    assert t[..|line|] == line && t[|line| + 1..] == rest;
  }

  /** Writing clean lines and splitting them again gives them back. */
  lemma {:induction false} LinesRoundTrip(lines: seq<string>)
    requires CleanLines(lines)
    ensures SplitLines(Unlines(lines)) == lines
  {
    if lines != [] {
      LinesRoundTrip(lines[1..]);
      SplitFirst(lines[0], Unlines(lines[1..]));
    }
  }

  lemma SplitStep(t: string, n: nat, skip: nat)
    requires n < |t| && LineEnd(t) == n && skip == (if t[n] == '\r' && n + 1 < |t| && t[n + 1] == '\n' then 2 else 1)
    ensures SplitLines(t) == [t[..n]] + SplitLines(t[n + skip..])
  {
    hide LineEnd, IsBreak;
  }

  lemma EndAtBreak(x: string, n: nat, rest: string)
    requires n < |x| && NoBreak(x[..n]) && IsBreak(x[n])
    ensures var t := x + "\n" + rest; LineEnd(t) == n && t[..n] == x[..n] && t[n] == x[n]
  {
    var t := x + "\n" + rest;
    var tail := x[n..] + "\n" + rest;
    assert t == x[..n] + tail && tail[0] == x[n];
    LineEndAt(x[..n], tail);
  }

  /** A carriage return before the newline belongs to it. */
  lemma SplitReturn(x: string, rest: string)
    requires x != "" && x[|x| - 1] == '\r' && NoBreak(x[..|x| - 1])
    ensures SplitLines(x + "\n" + rest) == [x[..|x| - 1]] + SplitLines(rest)
  {
    var t, n := x + "\n" + rest, |x| - 1;
    EndAtBreak(x, n, rest);
    assert t[n + 1] == '\n' && t[n + 2..] == rest;
    hide SplitLines, LineEnd;
    SplitStep(t, n, 2);
  }

  /** Any other break inside the text ends its first line. */
  lemma SplitInside(x: string, n: nat, skip: nat, rest: string)
    requires n < |x| && NoBreak(x[..n]) && IsBreak(x[n]) && !(n + 1 == |x| && x[n] == '\r')
    requires skip == (if x[n] == '\r' && n + 1 < |x| && x[n + 1] == '\n' then 2 else 1)
    ensures SplitLines(x + "\n" + rest) == [x[..n]] + SplitLines(x[n + skip..] + "\n" + rest)
  {
    var t := x + "\n" + rest;
    EndAtBreak(x, n, rest);
    assert n + 1 < |x| ==> t[n + 1] == x[n + 1];
    assert t[n + skip..] == x[n + skip..] + "\n" + rest;
    hide SplitLines, LineEnd;
    SplitStep(t, n, skip);
  }

  /** Splitting is done piece by piece at a newline, whatever breaks the pieces hold. */
  lemma {:induction false} SplitCat(x: string, rest: string)
    ensures SplitLines(x + "\n" + rest) == SplitLines(x + "\n") + SplitLines(rest)
    decreases |x|
  {
    LineEndIs(x);
    SplitNothing();
    hide SplitLines, LineEnd;
    var n := LineEnd(x);
    assert x + "\n" + "" == x + "\n";
    if n == |x| {
      assert x[..n] == x;
      SplitFirst(x, rest);
      SplitFirst(x, "");
    } else if n + 1 == |x| && x[n] == '\r' {
      SplitReturn(x, rest);
      SplitReturn(x, "");
    } else {
      var skip := if x[n] == '\r' && n + 1 < |x| && x[n + 1] == '\n' then 2 else 1;
      SplitInside(x, n, skip, rest);
      SplitInside(x, n, skip, "");
      SplitCat(x[n + skip..], rest);
      assert x[n + skip..] + "\n" + "" == x[n + skip..] + "\n";
    }
  }

  lemma SplitNothing()
    ensures SplitLines("") == []
  {
  }

  /** A text is one line, with or without a carriage return before its newline. */
  predicate OneLine(x: string) {
    NoBreak(x) || (x != "" && x[|x| - 1] == '\r' && NoBreak(x[..|x| - 1]))
  }

  function DropReturn(x: string): string {
    if x != "" && x[|x| - 1] == '\r' then x[..|x| - 1] else x
  }

  lemma SplitOneLine(x: string)
    requires OneLine(x)
    ensures SplitLines(x + "\n") == [DropReturn(x)]
  {
    if NoBreak(x) {
      SplitFirst(x, "");
      assert x + "\n" + "" == x + "\n";
    } else {
      SplitReturn(x, "");
      assert x + "\n" + "" == x + "\n";
    }
  }

  lemma SplitSome(t: string)
    requires t != ""
    ensures SplitLines(t) != []
  {
  }

  lemma SplitManyLines(x: string)
    requires !OneLine(x)
    ensures |SplitLines(x + "\n")| >= 2
  {
    LineEndIs(x);
    var n := LineEnd(x);
    assert x[..|x|] == x;
    var skip := if x[n] == '\r' && n + 1 < |x| && x[n + 1] == '\n' then 2 else 1;
    SplitInside(x, n, skip, "");
    assert x + "\n" + "" == x + "\n";
    SplitSome(x[n + skip..] + "\n" + "");
  }

  /** What stripping the whole text on the right does to its lines: trailing blank lines go, and
      the last line that is left loses its trailing spaces. */
  function TrimTail(lines: seq<string>): seq<string> {
    if lines == [] then [""]
    else if AllSpace(lines[|lines| - 1]) then TrimTail(lines[..|lines| - 1])
    else lines[..|lines| - 1] + [RStrip(lines[|lines| - 1])]
  }

  lemma {:induction false} UnlinesSnoc(lines: seq<string>, last: string)
    ensures Unlines(lines + [last]) == Unlines(lines) + (last + "\n")
  {
    if lines == [] {
      assert [] + [last] == [last] && [last][1..] == [];
      assert Unlines([last]) == last + "\n" + Unlines([]);
    } else {
      assert (lines + [last])[1..] == lines[1..] + [last];
      UnlinesSnoc(lines[1..], last);
    }
  }

  /** `"\n".join(lines).rstrip() + "\n"`, read back as lines. */
  lemma {:induction false} StrippedLines(lines: seq<string>)
    requires CleanLines(lines)
    ensures SplitLines(RStrip(Unlines(lines)) + "\n") == TrimTail(lines)
  {
    if lines == [] {
      SplitFirst("", "");
      assert RStrip(Unlines(lines)) + "\n" == "" + "\n" + "";
    } else {
      var front, last := lines[..|lines| - 1], lines[|lines| - 1];
      assert lines == front + [last];
      UnlinesSnoc(front, last);
      if AllSpace(last) {
        RStripAppend(Unlines(front), last + "\n");
        StrippedLines(front);
      } else {
        StrippedKept(front, last);
        LinesRoundTrip(front + [RStrip(last)]);
      }
    }
  }

  lemma StrippedKept(front: seq<string>, last: string)
    requires !AllSpace(last) && CleanLines(front + [last])
    ensures RStrip(Unlines(front) + (last + "\n")) + "\n" == Unlines(front + [RStrip(last)])
    ensures CleanLines(front + [RStrip(last)])
  {
    hide Unlines, RStrip;
    var text, kept := Unlines(front), RStrip(last);
    RStripSplits(last);
    var tail := last[|kept|..];
    assert last[0..] == last;
    assert last == kept + tail;
    assert text + (last + "\n") == (text + kept) + (tail + "\n");
    RStripAppend(text + kept, tail + "\n");
    RStripAfter(text, kept);
    UnlinesSnoc(front, kept);
    assert text + kept + "\n" == text + (kept + "\n");
    assert (front + [last])[|front|] == last;
    forall i | 0 <= i < |front| ensures NoBreak(front[i]) {
      assert (front + [last])[i] == front[i];
    }
    assert NoBreak(kept) by { assert kept == last[..|kept|]; }
  }
}
