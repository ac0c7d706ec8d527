/**
 The noise filter applied to scraped statute text before segmentation: the text is
 split into lines, every line in which one of fourteen site-chrome or boilerplate
 patterns occurs is dropped, blank lines are dropped, and the stripped survivors are
 joined again with newlines.
 */
module Cleaner {
  import opened Text

  /**
   One entry of the noise list, classified by the shape of its regular expression.
   Every entry is searched for anywhere in the line, case-sensitively.
   */
  datatype Pattern =
      /** `X.*` or an escaped literal: the line contains `X`. */
    | Literal(text: string)
      /** `\[X.*\]`: the line contains `X`, then a later `]` with no newline between. */
    | Bracketed(opening: string)
      /** `Section \d+.* in The Income Tax Act, 1961`: the redundant page header. */
    | IncomeTaxHeader

  const HeaderHead: string := "Section "
  const HeaderTail: string := " in The Income Tax Act, 1961"

  /** The noise list, in the order the filter tries it. */
  const NoisePatterns: seq<Pattern> := [
    Literal("Share Link"),
    Literal("Mobile View"),
    Literal("Free features"),
    Literal("Premium features"),
    Literal("Case removal"),
    Literal("Warning on translation"),
    Literal("Get this document in PDF"),
    Literal("Print it on a file/printer"),
    Bracketed("[Cites"),
    Bracketed("[Cited by"),
    Literal("[Entire Act]"),
    Literal("Take notes as you read"),
    Literal("Union of India - "),
    IncomeTaxHeader
  ]

  /** The regular-expression `.*` can match `s[a..b]`: it holds no newline. */
  predicate AnyRun(s: string, a: int, b: int) {
    0 <= a <= b <= |s| && forall k :: a <= k < b ==> s[k] != '\n'
  }

  /** An unanchored search for `p` succeeds on `line`. */
  predicate Matches(p: Pattern, line: string) {
    match p
    case Literal(t) => Contains(line, t)
    case Bracketed(o) =>
      exists i, j :: 0 <= i <= j < |line| && At(line, i, o) && AnyRun(line, i + |o|, j) && line[j] == ']'
    case IncomeTaxHeader =>
      exists i, k :: 0 <= i <= k <= |line| && At(line, i, HeaderHead) && i + 9 <= k
                     && IsDigit(line[i + 8]) && AnyRun(line, i + 9, k) && At(line, k, HeaderTail)
  }

  /** One of `patterns` occurs in the line (the search loop with its early `break`). */
  predicate AnyMatches(patterns: seq<Pattern>, line: string) {
    |patterns| > 0 && (Matches(patterns[0], line) || AnyMatches(patterns[1..], line))
  }

  /** Some noise pattern occurs in the line. */
  predicate IsNoise(line: string) {
    AnyMatches(NoisePatterns, line)
  }

  /** The filter keeps a line: it is not noise and not blank after stripping. */
  predicate Survives(line: string) {
    !IsNoise(line) && Strip(line) != ""
  }

  /** A line the filter can emit: non-empty, trimmed, newline-free and noise-free. */
  predicate IsClean(line: string) {
    && line != ""
    && !IsSpace(line[0])
    && !IsSpace(line[|line| - 1])
    && '\n' !in line
    && !IsNoise(line)
  }

  /** The filter proper, over the lines of the text. */
  function CleanLines(lines: seq<string>): (r: seq<string>)
    ensures |r| <= |lines|
  {
    if |lines| == 0 then []
    else
      var rest := CleanLines(lines[1..]);
      if Survives(lines[0]) then [Strip(lines[0])] + rest else rest
  }

  /**
   `clean_text`: filter the lines of `text` and join the survivors with newlines. Every
   line of a non-empty result is clean.
   */
  function CleanText(text: string): (r: string)
    ensures r != "" ==> forall k :: 0 <= k < |Split(r)| ==> IsClean(Split(r)[k])
  {
    var cl := CleanLines(Split(text));
    CleanLinesClean(Split(text));
    if cl != [] then SplitJoin(cl); Join(cl) else Join(cl)
  }

  /** A pattern found in a window of a line is found in the line. */
  lemma MatchesWindow(p: Pattern, s: string, a: int, b: int)
    requires 0 <= a <= b <= |s|
    requires Matches(p, s[a..b])
    ensures Matches(p, s)
  {
    match p
    case Literal(t) => LiteralWindow(t, s, a, b);
    case Bracketed(o) => BracketedWindow(o, s, a, b);
    case IncomeTaxHeader => HeaderWindow(s, a, b);
  }

  lemma LiteralWindow(t: string, s: string, a: int, b: int)
    requires 0 <= a <= b <= |s|
    requires Contains(s[a..b], t)
    ensures Contains(s, t)
  {
    var w := s[a..b];
    var i :| 0 <= i <= |w| - |t| && At(w, i, t);
    AtInWindow(s, a, b, i, t);
    assert At(s, a + i, t);
  }

  lemma BracketedWindow(o: string, s: string, a: int, b: int)
    requires 0 <= a <= b <= |s|
    requires Matches(Bracketed(o), s[a..b])
    ensures Matches(Bracketed(o), s)
  {
    var w := s[a..b];
    var i, j :| 0 <= i <= j < |w| && At(w, i, o) && AnyRun(w, i + |o|, j) && w[j] == ']';
    BracketedShift(o, s, a, b, i, j);
  }

  /** A bracketed match at `i`..`j` of a window is a match at `a + i`..`a + j` of the line. */
  lemma BracketedShift(o: string, s: string, a: int, b: int, i: int, j: int)
    requires 0 <= a <= b <= |s|
    requires 0 <= i <= j < b - a && At(s[a..b], i, o) && AnyRun(s[a..b], i + |o|, j) && s[a..b][j] == ']'
    ensures Matches(Bracketed(o), s)
  {
    AtInWindow(s, a, b, i, o);
    RunInWindow(s, a, b, i + |o|, j);
    assert s[a + j] == s[a..b][j];
  }

  /** A newline-free run inside a window of a line is a newline-free run of the line. */
  lemma RunInWindow(s: string, a: int, b: int, x: int, y: int)
    requires 0 <= a <= b <= |s|
    requires AnyRun(s[a..b], x, y)
    ensures AnyRun(s, a + x, a + y)
  {
    forall k | a + x <= k < a + y
      ensures s[k] != '\n'
    {
      assert s[k] == s[a..b][k - a];
    }
  }

  lemma HeaderWindow(s: string, a: int, b: int)
    requires 0 <= a <= b <= |s|
    requires Matches(IncomeTaxHeader, s[a..b])
    ensures Matches(IncomeTaxHeader, s)
  {
    var w := s[a..b];
    var i, k :| 0 <= i <= k <= |w| && At(w, i, HeaderHead) && i + 9 <= k
                && IsDigit(w[i + 8]) && AnyRun(w, i + 9, k) && At(w, k, HeaderTail);
    AtInWindow(s, a, b, i, HeaderHead);
    AtInWindow(s, a, b, k, HeaderTail);
    RunInWindow(s, a, b, i + 9, k);
    assert s[a + i + 8] == w[i + 8];
  }

  /** `AnyMatches` holds exactly when one listed pattern matches. */
  lemma {:induction false} AnyMatchesSome(patterns: seq<Pattern>, line: string)
    ensures AnyMatches(patterns, line) <==> exists k :: 0 <= k < |patterns| && Matches(patterns[k], line)
  {
    if |patterns| > 0 {
      AnyMatchesSome(patterns[1..], line);
      if Matches(patterns[0], line) {
        assert 0 < |patterns| && Matches(patterns[0], line);
      }
      if exists k :: 0 <= k < |patterns| && Matches(patterns[k], line) {
        var k :| 0 <= k < |patterns| && Matches(patterns[k], line);
        if k > 0 {
          assert patterns[1..][k - 1] == patterns[k];
        }
      }
    }
  }

  /** A window of a line that is not noise is not noise either. */
  lemma NotNoiseWindow(s: string, a: int, b: int)
    requires 0 <= a <= b <= |s|
    requires !IsNoise(s)
    ensures !IsNoise(s[a..b])
  {
    AnyMatchesSome(NoisePatterns, s);
    AnyMatchesSome(NoisePatterns, s[a..b]);
    if IsNoise(s[a..b]) {
      var k :| 0 <= k < |NoisePatterns| && Matches(NoisePatterns[k], s[a..b]);
      MatchesWindow(NoisePatterns[k], s, a, b);
    }
  }

  /** A line in which "Mobile View" occurs is noise. */
  lemma MobileViewIsNoise(line: string)
    requires Contains(line, "Mobile View")
    ensures IsNoise(line)
  {
    AnyMatchesSome(NoisePatterns, line);
    assert Matches(NoisePatterns[1], line);
  }

  /** The stripped form of a surviving line survives again, unchanged by a second strip. */
  lemma StripKeepsSurvivor(line: string)
    requires Survives(line)
    ensures Survives(Strip(line)) && Strip(Strip(line)) == Strip(line)
    ensures !IsSpace(Strip(line)[0]) && !IsSpace(Strip(line)[|Strip(line)| - 1])
    ensures '\n' !in line ==> IsClean(Strip(line))
  {
    var r := Strip(line);
    var a := StripWindow(line);
    NotNoiseWindow(line, a, a + |r|);
    assert !IsNoise(r);
    StripIdempotent(line);
    assert Strip(r) == r != "";
    if '\n' !in line {
      StripNoNewline(line);
    }
  }

  /** Keep the elements satisfying `keep`, transformed by `f`, in order. */
  function FilterMap<T>(xs: seq<T>, keep: T -> bool, f: T -> T): seq<T> {
    if |xs| == 0 then []
    else if keep(xs[0]) then [f(xs[0])] + FilterMap(xs[1..], keep, f)
    else FilterMap(xs[1..], keep, f)
  }

  /**
   `out` is what remains of `xs` after keeping the elements satisfying `keep`, each
   transformed by `f`: the kept elements sit at the strictly increasing positions `idx`,
   and every position not in `idx` holds an element that is not kept.
   */
  ghost predicate Selects<T>(xs: seq<T>, keep: T -> bool, f: T -> T, out: seq<T>, idx: seq<nat>) {
    && |idx| == |out|
    && (forall k :: 0 <= k < |idx| ==> idx[k] < |xs| && keep(xs[idx[k]]) && out[k] == f(xs[idx[k]]))
    && (forall k, l :: 0 <= k < l < |idx| ==> idx[k] < idx[l])
    && (forall i :: 0 <= i < |xs| && i !in idx ==> !keep(xs[i]))
  }

  /** A selection from the tail of `xs`, with positions shifted by one, covers all of `xs` but its head. */
  lemma ShiftSelection<T>(xs: seq<T>, keep: T -> bool, f: T -> T, out: seq<T>, sub: seq<nat>) returns (shifted: seq<nat>)
    requires |xs| > 0
    requires Selects(xs[1..], keep, f, out, sub)
    ensures |shifted| == |out|
    ensures forall k :: 0 <= k < |shifted| ==>
              1 <= shifted[k] < |xs| && keep(xs[shifted[k]]) && out[k] == f(xs[shifted[k]])
    ensures forall k, l :: 0 <= k < l < |shifted| ==> shifted[k] < shifted[l]
    ensures forall i :: 1 <= i < |xs| && i !in shifted ==> !keep(xs[i])
  {
    var tail := xs[1..];
    shifted := seq(|sub|, k requires 0 <= k < |sub| => sub[k] + 1);
    forall i | 1 <= i < |xs| && i !in shifted
      ensures !keep(xs[i])
    {
      assert forall k :: 0 <= k < |sub| ==> shifted[k] == sub[k] + 1;
      assert i - 1 !in sub;
      assert tail[i - 1] == xs[i];
    }
    forall k | 0 <= k < |shifted|
      ensures keep(xs[shifted[k]]) && out[k] == f(xs[shifted[k]])
    {
      assert tail[sub[k]] == xs[shifted[k]];
    }
  }

  /** `FilterMap` selects kept elements at increasing positions and skips only the others. */
  lemma {:induction false} FilterMapSelect<T>(xs: seq<T>, keep: T -> bool, f: T -> T) returns (idx: seq<nat>)
    ensures Selects(xs, keep, f, FilterMap(xs, keep, f), idx)
  {
    if |xs| == 0 {
      return [];
    }
    var rest := FilterMap(xs[1..], keep, f);
    var sub := FilterMapSelect(xs[1..], keep, f);
    var shifted := ShiftSelection(xs, keep, f, rest, sub);
    if keep(xs[0]) {
      idx := [0] + shifted;
      assert FilterMap(xs, keep, f) == [f(xs[0])] + rest;
      KeptHead(xs, keep, f, rest, shifted);
    } else {
      idx := shifted;
      assert FilterMap(xs, keep, f) == rest;
      SkippedHead(xs, keep, f, rest, shifted);
    }
  }

  /** A head that is not kept leaves a selection from the tail as it is. */
  lemma SkippedHead<T>(xs: seq<T>, keep: T -> bool, f: T -> T, rest: seq<T>, shifted: seq<nat>)
    requires |xs| > 0 && !keep(xs[0])
    requires |shifted| == |rest|
    requires forall k :: 0 <= k < |shifted| ==>
               1 <= shifted[k] < |xs| && keep(xs[shifted[k]]) && rest[k] == f(xs[shifted[k]])
    requires forall k, l :: 0 <= k < l < |shifted| ==> shifted[k] < shifted[l]
    requires forall i :: 1 <= i < |xs| && i !in shifted ==> !keep(xs[i])
    ensures Selects(xs, keep, f, rest, shifted)
  {
  }

  /** A kept head goes in front of a selection from the tail. */
  lemma KeptHead<T>(xs: seq<T>, keep: T -> bool, f: T -> T, rest: seq<T>, shifted: seq<nat>)
    requires |xs| > 0 && keep(xs[0])
    requires |shifted| == |rest|
    requires forall k :: 0 <= k < |shifted| ==>
               1 <= shifted[k] < |xs| && keep(xs[shifted[k]]) && rest[k] == f(xs[shifted[k]])
    requires forall k, l :: 0 <= k < l < |shifted| ==> shifted[k] < shifted[l]
    requires forall i :: 1 <= i < |xs| && i !in shifted ==> !keep(xs[i])
    ensures Selects(xs, keep, f, [f(xs[0])] + rest, [0] + shifted)
  {
    var idx := [0] + shifted;
    assert forall k :: 0 < k < |idx| ==> idx[k] == shifted[k - 1];
  }

  /** The filter is the generic keep-and-transform over `Survives` and `Strip`. */
  lemma {:induction false} CleanLinesIsFilterMap(lines: seq<string>)
    ensures CleanLines(lines) == FilterMap(lines, Survives, Strip)
  {
    if |lines| > 0 {
      CleanLinesIsFilterMap(lines[1..]);
    }
  }

  /**
   The filter selects: its output is the stripped form of the surviving input lines,
   taken at strictly increasing positions, and every input line it skips fails to survive.
   */
  lemma CleanLinesSelect(lines: seq<string>) returns (idx: seq<nat>)
    ensures |idx| == |CleanLines(lines)|
    ensures forall k :: 0 <= k < |idx| ==>
              idx[k] < |lines| && Survives(lines[idx[k]]) && CleanLines(lines)[k] == Strip(lines[idx[k]])
    ensures forall k, l :: 0 <= k < l < |idx| ==> idx[k] < idx[l]
    ensures forall i :: 0 <= i < |lines| && i !in idx ==> !Survives(lines[i])
  {
    CleanLinesIsFilterMap(lines);
    idx := FilterMapSelect(lines, Survives, Strip);
    assert Selects(lines, Survives, Strip, CleanLines(lines), idx);
  }

  /**
   Every line the filter emits is non-empty, has no surrounding whitespace and contains
   no noise pattern (and no newline, when the input lines had none).
   */
  lemma {:induction false} CleanLinesClean(lines: seq<string>)
    requires forall k :: 0 <= k < |lines| ==> '\n' !in lines[k]
    ensures forall k :: 0 <= k < |CleanLines(lines)| ==> IsClean(CleanLines(lines)[k])
  {
    if |lines| > 0 {
      assert forall k :: 0 <= k < |lines[1..]| ==> lines[1..][k] == lines[k + 1];
      CleanLinesClean(lines[1..]);
      if Survives(lines[0]) {
        StripKeepsSurvivor(lines[0]);
      }
    }
  }

  /** Filtering distributes over concatenation of line lists. */
  lemma CleanLinesAppend(a: seq<string>, b: seq<string>)
    ensures CleanLines(a + b) == CleanLines(a) + CleanLines(b)
  {
    CleanLinesIsFilterMap(a + b);
    CleanLinesIsFilterMap(a);
    CleanLinesIsFilterMap(b);
    FilterMapAppend(a, b, Survives, Strip);
  }

  lemma {:induction false} FilterMapAppend<T>(a: seq<T>, b: seq<T>, keep: T -> bool, f: T -> T)
    ensures FilterMap(a + b, keep, f) == FilterMap(a, keep, f) + FilterMap(b, keep, f)
    decreases |a|
  {
    if |a| > 0 {
      FilterMapAppend(a[1..], b, keep, f);
      assert (a + b)[0] == a[0];
      assert (a + b)[1..] == a[1..] + b;
    } else {
      assert a + b == b;
    }
  }

  /** A list of clean lines passes the filter unchanged. */
  lemma {:induction false} CleanLinesFixed(lines: seq<string>)
    requires forall k :: 0 <= k < |lines| ==> IsClean(lines[k])
    ensures CleanLines(lines) == lines
  {
    if |lines| > 0 {
      var l, rest := lines[0], lines[1..];
      CleanSurvives(l);
      assert forall k :: 0 <= k < |rest| ==> IsClean(rest[k]) by {
        forall k | 0 <= k < |rest| ensures IsClean(rest[k]) { assert rest[k] == lines[k + 1]; }
      }
      CleanLinesFixed(rest);
      assert CleanLines(lines) == [Strip(l)] + CleanLines(rest);
      assert [l] + rest == lines;
    }
  }

  /** A clean line survives the filter as it is. */
  lemma CleanSurvives(l: string)
    requires IsClean(l)
    ensures Survives(l) && Strip(l) == l
  {
    assert TrimLeft(l) == l;
    assert TrimRight(l) == l;
  }

  /**
   The text the filter emits splits back into exactly the filtered lines
   (or is empty when no line survived).
   */
  lemma CleanTextLines(text: string)
    ensures CleanLines(Split(text)) == [] ==> CleanText(text) == ""
    ensures CleanLines(Split(text)) != [] ==> Split(CleanText(text)) == CleanLines(Split(text))
    ensures forall k :: 0 <= k < |CleanLines(Split(text))| ==> IsClean(CleanLines(Split(text))[k])
  {
    var cl := CleanLines(Split(text));
    CleanLinesClean(Split(text));
    if cl != [] {
      SplitJoin(cl);
    }
  }

  /** Cleaning an already cleaned text changes nothing. */
  lemma CleanTextIdempotent(text: string)
    ensures CleanText(CleanText(text)) == CleanText(text)
  {
    var cl := CleanLines(Split(text));
    CleanTextLines(text);
    if cl == [] {
      assert Split("") == [""];
      assert !Survives("");
    } else {
      CleanLinesFixed(cl);
    }
  }

  /** A noise line is dropped whatever lines surround it. */
  lemma NoiseLineDropped(before: seq<string>, line: string, after: seq<string>)
    requires IsNoise(line)
    ensures CleanLines(before + [line] + after) == CleanLines(before) + CleanLines(after)
  {
    var rest := [line] + after;
    assert !Survives(line);
    assert rest[0] == line && rest[1..] == after;
    assert CleanLines(rest) == CleanLines(after);
    CleanLinesAppend(before, rest);
    assert before + [line] + after == before + rest;
  }

  /**
   A line in which "Mobile View" occurs anywhere is dropped from the text: removing it
   beforehand does not change the cleaned text.
   */
  lemma MobileViewDropped(before: seq<string>, line: string, after: seq<string>)
    requires Contains(line, "Mobile View")
    requires forall k :: 0 <= k < |before| ==> '\n' !in before[k]
    requires forall k :: 0 <= k < |after| ==> '\n' !in after[k]
    requires '\n' !in line
    ensures CleanText(Join(before + [line] + after)) == CleanText(Join(before + after))
    ensures forall k :: 0 <= k < |Split(CleanText(Join(before + [line] + after)))| ==>
              !Contains(Split(CleanText(Join(before + [line] + after)))[k], "Mobile View")
  {
    MobileViewIsNoise(line);
    var whole := before + [line] + after;
    var rest := before + after;
    SplitJoin(whole);
    NoiseLineDropped(before, line, after);
    CleanLinesAppend(before, after);
    if rest == [] {
      assert Join(rest) == "" && Split("") == [""];
      assert !Survives("");
    } else {
      SplitJoin(rest);
    }
    var out := CleanText(Join(whole));
    if out != "" {
      forall k | 0 <= k < |Split(out)|
        ensures !Contains(Split(out)[k], "Mobile View")
      {
        assert IsClean(Split(out)[k]);
        if Contains(Split(out)[k], "Mobile View") {
          MobileViewIsNoise(Split(out)[k]);
        }
      }
    } else {
      assert Split(out) == [""];
      assert !Contains("", "Mobile View");
    }
  }
}
