/**
 The entity extractor: two `re.findall` scans over a segment's content. The citation
 scan is `section\s+(\d+[A-Z]*)` under case-insensitive matching and captures the
 section number with its letter suffix; the definition scan is `"([^"]+)"\s+means`,
 case-sensitive, and captures the quoted term. Each scan tries every start position
 from left to right and, after a match, resumes where that match ended.
 */
module Extractor {
  import opened Wrappers
  import opened Text

  /** The two patterns the extractor scans for. */
  datatype Regex =
      /** `section\s+(\d+[A-Z]*)`, case-insensitive. */
    | SectionRef
      /** `"([^"]+)"\s+means`, case-sensitive. */
    | QuotedMeans

  /** What a successful match reports: the captured group and the index just past the match. */
  datatype Hit = Hit(capture: string, end: nat)

  /** A citation candidate: an unresolved reference to a section number. */
  datatype Citation = Citation(target: string)

  /** A definition candidate: a term being defined. */
  datatype Definition = Definition(term: string)

  /** The end of the longest run of characters satisfying `p` that starts at `i`. */
  function Span(s: string, i: nat, p: char -> bool): (j: nat)
    requires i <= |s|
    ensures i <= j <= |s|
    ensures forall k :: i <= k < j ==> p(s[k])
    ensures j == |s| || !p(s[j])
    decreases |s| - i
  {
    if i < |s| && p(s[i]) then Span(s, i + 1, p) else i
  }

  predicate NotQuote(c: char) {
    c != '"'
  }

  /** The lower-case word `w` occurs at `i` when `s` is folded to lower case. */
  predicate FoldedAt(s: string, i: nat, w: string) {
    i + |w| <= |s| && forall k :: 0 <= k < |w| ==> Lower(s[i + k]) == w[k]
  }

  /** One or more digits followed by zero or more letters (of either case). */
  predicate IsCitationToken(t: string) {
    && |t| > 0
    && IsDigit(t[0])
    && (forall k :: 0 < k < |t| ==> IsDigit(t[k]) || IsLetter(t[k]))
    && (forall j, k :: 0 <= j < k < |t| && IsLetter(t[j]) ==> IsLetter(t[k]))
  }

  /** A non-empty term without a quote character. */
  predicate IsTerm(t: string) {
    |t| > 0 && '"' !in t
  }

  /** The shape of what each pattern captures. */
  predicate Captures(re: Regex, t: string) {
    match re
    case SectionRef => IsCitationToken(t)
    case QuotedMeans => IsTerm(t)
  }

  /**
   `section\s+\d+[A-Z]*` matches `s[i..e]`, with the whitespace run ending at `w` and
   the digit run ending at `d`.
   */
  ghost predicate SectionRefAt(s: string, i: nat, w: nat, d: nat, e: nat) {
    && FoldedAt(s, i, "section")
    && i + 7 < w < d <= e <= |s|
    && (forall k :: i + 7 <= k < w ==> IsSpace(s[k]))
    && (forall k :: w <= k < d ==> IsDigit(s[k]))
    && (forall k :: d <= k < e ==> IsLetter(s[k]))
  }

  /** `"[^"]+"\s+means` matches from `i`, with the closing quote at `q` and `means` at `w`. */
  ghost predicate QuotedMeansAt(s: string, i: nat, q: nat, w: nat) {
    && i < |s| && s[i] == '"'
    && i + 1 < q < |s| && s[q] == '"'
    && (forall k :: i + 1 <= k < q ==> s[k] != '"')
    && q + 1 < w <= |s|
    && (forall k :: q + 1 <= k < w ==> IsSpace(s[k]))
    && At(s, w, "means")
  }

  /** The pattern has some match starting at `i`. */
  ghost predicate Occurs(re: Regex, s: string, i: nat) {
    match re
    case SectionRef => exists w: nat, d: nat, e: nat :: SectionRefAt(s, i, w, d, e)
    case QuotedMeans => exists q: nat, w: nat :: QuotedMeansAt(s, i, q, w)
  }

  /** `h` is the match the regular-expression engine reports at `i` (greedy repetitions). */
  ghost predicate IsGreedyHit(re: Regex, s: string, i: nat, h: Hit) {
    match re
    case SectionRef =>
      exists w: nat, d: nat, e: nat :: SectionRefAt(s, i, w, d, e)
                        && (d == |s| || !IsDigit(s[d])) && (e == |s| || !IsLetter(s[e]))
                        && h == Hit(s[w..e], e)
    case QuotedMeans =>
      exists q: nat, w: nat :: QuotedMeansAt(s, i, q, w) && h == Hit(s[i + 1..q], w + 5)
  }

  /** Try the pattern at position `i` only. */
  function MatchAt(re: Regex, s: string, i: nat): (r: Option<Hit>)
    requires i <= |s|
    ensures r.Some? ==> i < r.value.end <= |s| && Captures(re, r.value.capture)
  {
    match re
    case SectionRef => SectionRefMatch(s, i)
    case QuotedMeans => QuotedMeansMatch(s, i)
  }

  function SectionRefMatch(s: string, i: nat): (r: Option<Hit>)
    requires i <= |s|
    ensures r.Some? ==> i < r.value.end <= |s| && IsCitationToken(r.value.capture)
  {
    if !FoldedAt(s, i, "section") then None
    else
      var w := Span(s, i + 7, IsSpace);
      if i + 7 < w < |s| && IsDigit(s[w]) then
        var d := Span(s, w, IsDigit);
        var e := Span(s, d, IsLetter);
        SectionRefFound(s, i, w, d, e);
        Some(Hit(s[w..e], e))
      else None
  }

  function QuotedMeansMatch(s: string, i: nat): (r: Option<Hit>)
    requires i <= |s|
    ensures r.Some? ==> i < r.value.end <= |s| && IsTerm(r.value.capture)
  {
    if !(i < |s| && s[i] == '"') then None
    else
      var q := Span(s, i + 1, NotQuote);
      if i + 1 < q < |s| && q + 1 < Span(s, q + 1, IsSpace) && At(s, Span(s, q + 1, IsSpace), "means") then
        var w := Span(s, q + 1, IsSpace);
        QuotedMeansFound(s, i, q, w);
        Some(Hit(s[i + 1..q], w + 5))
      else None
  }

  /**
   Trying a pattern at one position agrees with the regular expression: it fails exactly
   when the pattern has no match starting there, and otherwise reports the greedy match.
   */
  lemma MatchAtMeaning(re: Regex, s: string, i: nat)
    requires i <= |s|
    ensures MatchAt(re, s, i).None? <==> !Occurs(re, s, i)
    ensures MatchAt(re, s, i).Some? ==> IsGreedyHit(re, s, i, MatchAt(re, s, i).value)
  {
    match re
    case SectionRef => SectionRefMeaning(s, i);
    case QuotedMeans => QuotedMeansMeaning(s, i);
  }

  lemma SectionRefMeaning(s: string, i: nat)
    requires i <= |s|
    ensures SectionRefMatch(s, i).None? <==> !Occurs(SectionRef, s, i)
    ensures SectionRefMatch(s, i).Some? ==> IsGreedyHit(SectionRef, s, i, SectionRefMatch(s, i).value)
  {
    if FoldedAt(s, i, "section") {
      var w := Span(s, i + 7, IsSpace);
      if i + 7 < w < |s| && IsDigit(s[w]) {
        var d := Span(s, w, IsDigit);
        var e := Span(s, d, IsLetter);
        SectionRefFound(s, i, w, d, e);
        assert SectionRefMatch(s, i) == Some(Hit(s[w..e], e));
      } else {
        SectionRefAbsent(s, i);
      }
    }
  }

  lemma QuotedMeansMeaning(s: string, i: nat)
    requires i <= |s|
    ensures QuotedMeansMatch(s, i).None? <==> !Occurs(QuotedMeans, s, i)
    ensures QuotedMeansMatch(s, i).Some? ==> IsGreedyHit(QuotedMeans, s, i, QuotedMeansMatch(s, i).value)
  {
    if i < |s| && s[i] == '"' {
      var q := Span(s, i + 1, NotQuote);
      if i + 1 < q < |s| && q + 1 < Span(s, q + 1, IsSpace) && At(s, Span(s, q + 1, IsSpace), "means") {
        QuotedMeansHit(s, i, q, Span(s, q + 1, IsSpace));
      } else {
        QuotedMeansMiss(s, i);
      }
    }
  }

  lemma QuotedMeansHit(s: string, i: nat, q: nat, w: nat)
    requires i < |s| && s[i] == '"'
    requires q == Span(s, i + 1, NotQuote) && i + 1 < q < |s|
    requires w == Span(s, q + 1, IsSpace) && q + 1 < w && At(s, w, "means")
    ensures QuotedMeansMatch(s, i) == Some(Hit(s[i + 1..q], w + 5))
    ensures Occurs(QuotedMeans, s, i)
    ensures IsGreedyHit(QuotedMeans, s, i, Hit(s[i + 1..q], w + 5))
  {
    QuotedMeansFound(s, i, q, w);
  }

  lemma QuotedMeansMiss(s: string, i: nat)
    requires i < |s| && s[i] == '"'
    requires var q := Span(s, i + 1, NotQuote);
             !(i + 1 < q < |s| && q + 1 < Span(s, q + 1, IsSpace) && At(s, Span(s, q + 1, IsSpace), "means"))
    ensures QuotedMeansMatch(s, i) == None
    ensures !Occurs(QuotedMeans, s, i)
  {
    QuotedMeansAbsent(s, i);
  }

  /** A run of `p`-characters from `i` to `j` that cannot be extended is the longest one. */
  lemma SpanIs(s: string, i: nat, p: char -> bool, j: nat)
    requires i <= j <= |s|
    requires forall k :: i <= k < j ==> p(s[k])
    requires j == |s| || !p(s[j])
    ensures Span(s, i, p) == j
    decreases j - i
  {
    if i < j {
      SpanIs(s, i + 1, p, j);
    }
  }

  lemma DigitNotSpace(c: char)
    requires IsDigit(c) || IsLetter(c)
    ensures !IsSpace(c)
  {
  }

  /** In any citation match, the whitespace run is the longest one after "section". */
  lemma SectionRefForced(s: string, i: nat, w: nat, d: nat, e: nat)
    requires SectionRefAt(s, i, w, d, e)
    ensures Span(s, i + 7, IsSpace) == w && IsDigit(s[w])
  {
    DigitNotSpace(s[w]);
    SpanIs(s, i + 7, IsSpace, w);
  }

  lemma SectionRefAbsent(s: string, i: nat)
    requires FoldedAt(s, i, "section")
    requires var w := Span(s, i + 7, IsSpace); !(i + 7 < w < |s| && IsDigit(s[w]))
    ensures !Occurs(SectionRef, s, i)
  {
    forall w: nat, d: nat, e: nat | SectionRefAt(s, i, w, d, e)
      ensures false
    {
      SectionRefForced(s, i, w, d, e);
    }
  }

  lemma SectionRefFound(s: string, i: nat, w: nat, d: nat, e: nat)
    requires FoldedAt(s, i, "section")
    requires w == Span(s, i + 7, IsSpace) && i + 7 < w < |s| && IsDigit(s[w])
    requires d == Span(s, w, IsDigit) && e == Span(s, d, IsLetter)
    ensures SectionRefAt(s, i, w, d, e)
    ensures IsGreedyHit(SectionRef, s, i, Hit(s[w..e], e))
    ensures IsCitationToken(s[w..e])
  {
    assert SectionRefAt(s, i, w, d, e);
    CitationTokenShape(s, w, d, e);
  }

  /** Digits followed by letters make a citation token. */
  lemma CitationTokenShape(s: string, w: nat, d: nat, e: nat)
    requires w < d <= e <= |s|
    requires forall k :: w <= k < d ==> IsDigit(s[k])
    requires forall k :: d <= k < e ==> IsLetter(s[k])
    ensures IsCitationToken(s[w..e])
  {
    var t := s[w..e];
    assert forall k :: 0 <= k < |t| ==> t[k] == s[w + k];
    forall j, k | 0 <= j < k < |t| && IsLetter(t[j])
      ensures IsLetter(t[k])
    {
      assert !IsDigit(s[w + j]);
    }
  }

  /** In any definition match, the quote and the "means" sit where the longest runs end. */
  lemma QuotedMeansForced(s: string, i: nat, q: nat, w: nat)
    requires QuotedMeansAt(s, i, q, w)
    ensures Span(s, i + 1, NotQuote) == q && i + 1 < q < |s|
    ensures Span(s, q + 1, IsSpace) == w && q + 1 < w && At(s, w, "means")
  {
    SpanIs(s, i + 1, NotQuote, q);
    assert s[w] == 'm' by { assert s[w..w + 5][0] == s[w]; }
    SpanIs(s, q + 1, IsSpace, w);
  }

  lemma QuotedMeansAbsent(s: string, i: nat)
    requires i < |s| && s[i] == '"'
    requires var q := Span(s, i + 1, NotQuote);
             !(i + 1 < q < |s| && q + 1 < Span(s, q + 1, IsSpace) && At(s, Span(s, q + 1, IsSpace), "means"))
    ensures !Occurs(QuotedMeans, s, i)
  {
    forall q: nat, w: nat | QuotedMeansAt(s, i, q, w)
      ensures false
    {
      QuotedMeansForced(s, i, q, w);
    }
  }

  lemma QuotedMeansFound(s: string, i: nat, q: nat, w: nat)
    requires i < |s| && s[i] == '"'
    requires q == Span(s, i + 1, NotQuote) && i + 1 < q < |s|
    requires w == Span(s, q + 1, IsSpace) && q + 1 < w && At(s, w, "means")
    ensures QuotedMeansAt(s, i, q, w)
    ensures IsGreedyHit(QuotedMeans, s, i, Hit(s[i + 1..q], w + 5))
    ensures IsTerm(s[i + 1..q])
  {
    var t := s[i + 1..q];
    assert forall k :: 0 <= k < |t| ==> t[k] == s[i + 1 + k];
    assert QuotedMeansAt(s, i, q, w);
    assert QuotedMeansAt(s, i, q, w) && Hit(t, w + 5) == Hit(s[i + 1..q], w + 5);
  }

  /** `re.findall` from position `i`: the captured groups, left to right. */
  function FindAll(re: Regex, s: string, i: nat): (r: seq<string>)
    requires i <= |s|
    ensures forall k :: 0 <= k < |r| ==> Captures(re, r[k])
    ensures |r| <= |s| - i
    decreases |s| - i
  {
    if i == |s| then []
    else
      match MatchAt(re, s, i)
      case Some(h) => [h.capture] + FindAll(re, s, h.end)
      case None => FindAll(re, s, i + 1)
  }

  /** One step of the scan: a match at `i` is reported and the scan resumes at its end. */
  lemma FindAllTake(re: Regex, s: string, i: nat, h: Hit)
    requires i <= |s| && MatchAt(re, s, i) == Some(h)
    ensures FindAll(re, s, i) == [h.capture] + FindAll(re, s, h.end)
  {
  }

  /** One step of the scan: no match at `i`, so the scan moves on to `i + 1`. */
  lemma FindAllPass(re: Regex, s: string, i: nat)
    requires i < |s| && MatchAt(re, s, i).None?
    ensures FindAll(re, s, i) == FindAll(re, s, i + 1)
  {
  }

  /** `extract_citations`: every section reference in the text, duplicates kept. */
  function ExtractCitations(text: string): (r: seq<Citation>)
    ensures |r| == |FindAll(SectionRef, text, 0)|
    ensures forall k :: 0 <= k < |r| ==> IsCitationToken(r[k].target)
  {
    var found := FindAll(SectionRef, text, 0);
    seq(|found|, k requires 0 <= k < |found| => Citation(found[k]))
  }

  /** `extract_definitions`: every quoted term followed by "means", duplicates kept. */
  function ExtractDefinitions(text: string): (r: seq<Definition>)
    ensures |r| == |FindAll(QuotedMeans, text, 0)|
    ensures forall k :: 0 <= k < |r| ==> IsTerm(r[k].term)
  {
    var found := FindAll(QuotedMeans, text, 0);
    seq(|found|, k requires 0 <= k < |found| => Definition(found[k]))
  }

  /** A match found by the scan: where it starts and what it reports. */
  datatype Located = Located(start: nat, hit: Hit)

  /** Each result is the capture of the match `MatchAt` reports at a recorded start from `i` on. */
  ghost predicate Reports(re: Regex, s: string, i: nat, found: seq<string>, ls: seq<Located>) {
    && |ls| == |found|
    && forall k :: 0 <= k < |ls| ==>
         && i <= ls[k].start < ls[k].hit.end <= |s|
         && MatchAt(re, s, ls[k].start) == Some(ls[k].hit)
         && found[k] == ls[k].hit.capture
  }

  /** The recorded matches come left to right without overlapping. */
  ghost predicate Ordered(ls: seq<Located>) {
    forall k :: 0 < k < |ls| ==> ls[k - 1].hit.end <= ls[k].start
  }

  /** Every position from `i` on where the pattern matches lies inside a recorded match. */
  ghost predicate Covers(re: Regex, s: string, i: nat, ls: seq<Located>) {
    forall p :: i <= p <= |s| && MatchAt(re, s, p).Some? ==>
      exists k :: 0 <= k < |ls| && ls[k].start <= p < ls[k].hit.end
  }

  /**
   The scan is sound and complete: its results are the captures of leftmost,
   non-overlapping greedy matches, and no match of the pattern is passed over except
   inside a match already reported.
   */
  lemma {:induction false} FindAllExplained(re: Regex, s: string, i: nat) returns (ls: seq<Located>)
    requires i <= |s|
    ensures Reports(re, s, i, FindAll(re, s, i), ls)
    ensures Ordered(ls)
    ensures Covers(re, s, i, ls)
    decreases |s| - i, 1
  {
    if i == |s| {
      CoversEnd(re, s);
      return [];
    } else if MatchAt(re, s, i).Some? {
      ls := ExplainedTake(re, s, i);
    } else {
      ls := ExplainedPass(re, s, i);
    }
  }

  lemma {:induction false} ExplainedTake(re: Regex, s: string, i: nat) returns (ls: seq<Located>)
    requires i < |s| && MatchAt(re, s, i).Some?
    ensures Reports(re, s, i, FindAll(re, s, i), ls)
    ensures Ordered(ls)
    ensures Covers(re, s, i, ls)
    decreases |s| - i, 0
  {
    var h := MatchAt(re, s, i).value;
    var sub := FindAllExplained(re, s, h.end);
    ls := ExplainHit(re, s, i, h, sub);
  }

  lemma {:induction false} ExplainedPass(re: Regex, s: string, i: nat) returns (ls: seq<Located>)
    requires i < |s| && MatchAt(re, s, i).None?
    ensures Reports(re, s, i, FindAll(re, s, i), ls)
    ensures Ordered(ls)
    ensures Covers(re, s, i, ls)
    decreases |s| - i, 0
  {
    ls := FindAllExplained(re, s, i + 1);
    ExplainSkip(re, s, i, ls);
  }

  /** The scan takes the match `h` at `i` and resumes where it ends. */
  lemma ExplainHit(re: Regex, s: string, i: nat, h: Hit, sub: seq<Located>) returns (ls: seq<Located>)
    requires i < |s| && MatchAt(re, s, i) == Some(h)
    requires Reports(re, s, h.end, FindAll(re, s, h.end), sub)
    requires Ordered(sub)
    requires Covers(re, s, h.end, sub)
    ensures Reports(re, s, i, FindAll(re, s, i), ls)
    ensures Ordered(ls)
    ensures Covers(re, s, i, ls)
  {
    ls := [Located(i, h)] + sub;
    assert FindAll(re, s, i) == [h.capture] + FindAll(re, s, h.end);
    ReportsCons(re, s, i, h, FindAll(re, s, h.end), sub);
    OrderedCons(i, h, sub);
    CoversCons(re, s, i, h, sub);
  }

  /** The scan passes over a position `i` where nothing matches. */
  lemma ExplainSkip(re: Regex, s: string, i: nat, ls: seq<Located>)
    requires i < |s| && MatchAt(re, s, i).None?
    requires Reports(re, s, i + 1, FindAll(re, s, i + 1), ls)
    requires Covers(re, s, i + 1, ls)
    ensures Reports(re, s, i, FindAll(re, s, i), ls)
    ensures Covers(re, s, i, ls)
  {
    assert FindAll(re, s, i) == FindAll(re, s, i + 1);
    ReportsSkip(re, s, i, FindAll(re, s, i + 1), ls);
    CoversSkip(re, s, i, ls);
  }

  lemma CoversEnd(re: Regex, s: string)
    ensures Covers(re, s, |s|, [])
  {
    assert MatchAt(re, s, |s|).None?;
  }

  lemma ReportsSkip(re: Regex, s: string, i: nat, found: seq<string>, ls: seq<Located>)
    requires Reports(re, s, i + 1, found, ls)
    ensures Reports(re, s, i, found, ls)
  {
  }

  lemma CoversSkip(re: Regex, s: string, i: nat, ls: seq<Located>)
    requires i < |s| && MatchAt(re, s, i).None?
    requires Covers(re, s, i + 1, ls)
    ensures Covers(re, s, i, ls)
  {
    forall p | i <= p <= |s| && MatchAt(re, s, p).Some?
      ensures exists k :: 0 <= k < |ls| && ls[k].start <= p < ls[k].hit.end
    {
      assert p != i;
    }
  }

  lemma ReportsCons(re: Regex, s: string, i: nat, h: Hit, found: seq<string>, sub: seq<Located>)
    requires i < h.end <= |s| && MatchAt(re, s, i) == Some(h)
    requires Reports(re, s, h.end, found, sub)
    ensures Reports(re, s, i, [h.capture] + found, [Located(i, h)] + sub)
  {
    var ls := [Located(i, h)] + sub;
    var fs := [h.capture] + found;
    forall k | 0 <= k < |ls|
      ensures i <= ls[k].start < ls[k].hit.end <= |s|
      ensures MatchAt(re, s, ls[k].start) == Some(ls[k].hit)
      ensures fs[k] == ls[k].hit.capture
    {
      if k > 0 {
        assert ls[k] == sub[k - 1] && fs[k] == found[k - 1];
      }
    }
  }

  lemma OrderedCons(i: nat, h: Hit, sub: seq<Located>)
    requires Ordered(sub)
    requires forall k :: 0 <= k < |sub| ==> h.end <= sub[k].start
    ensures Ordered([Located(i, h)] + sub)
  {
    var ls := [Located(i, h)] + sub;
    assert forall k :: 0 < k < |ls| ==> ls[k] == sub[k - 1];
  }

  lemma CoversCons(re: Regex, s: string, i: nat, h: Hit, sub: seq<Located>)
    requires i < h.end <= |s|
    requires Covers(re, s, h.end, sub)
    ensures Covers(re, s, i, [Located(i, h)] + sub)
  {
    var ls := [Located(i, h)] + sub;
    forall p | i <= p <= |s| && MatchAt(re, s, p).Some?
      ensures exists k :: 0 <= k < |ls| && ls[k].start <= p < ls[k].hit.end
    {
      var j: int;
      if p < h.end {
        j := 0;
      } else {
        var k :| 0 <= k < |sub| && sub[k].start <= p < sub[k].hit.end;
        j := k + 1;
        assert ls[j] == sub[k];
      }
      assert 0 <= j < |ls| && ls[j].start <= p < ls[j].hit.end;
    }
  }

  /** Nothing matches at the very end of the text. */
  lemma NoMatchAtEnd(re: Regex, s: string)
    ensures !Occurs(re, s, |s|)
  {
    MatchAtMeaning(re, s, |s|);
  }

  /** The scan finds nothing exactly when the pattern occurs nowhere from `i` on. */
  lemma {:induction false} FindAllEmpty(re: Regex, s: string, i: nat)
    requires i <= |s|
    ensures FindAll(re, s, i) == [] <==> forall p :: i <= p <= |s| ==> !Occurs(re, s, p)
    decreases |s| - i
  {
    if i == |s| {
      NowhereAtEnd(re, s);
    } else if MatchAt(re, s, i).None? {
      FindAllEmpty(re, s, i + 1);
      NowhereSkip(re, s, i);
    } else {
      FindAllFound(re, s, i);
    }
  }

  lemma FindAllFound(re: Regex, s: string, i: nat)
    requires i < |s| && MatchAt(re, s, i).Some?
    ensures FindAll(re, s, i) != [] && Occurs(re, s, i)
  {
    MatchAtMeaning(re, s, i);
  }

  lemma NowhereAtEnd(re: Regex, s: string)
    ensures forall p :: |s| <= p <= |s| ==> !Occurs(re, s, p)
  {
    NoMatchAtEnd(re, s);
  }

  /** Passing over a position where nothing matches changes neither side of `FindAllEmpty`. */
  lemma NowhereSkip(re: Regex, s: string, i: nat)
    requires i < |s| && MatchAt(re, s, i).None?
    ensures FindAll(re, s, i) == FindAll(re, s, i + 1)
    ensures (forall p :: i <= p <= |s| ==> !Occurs(re, s, p)) <==> (forall p :: i + 1 <= p <= |s| ==> !Occurs(re, s, p))
  {
    MatchAtMeaning(re, s, i);
    assert !Occurs(re, s, i);
  }

  /** Both extractors are total, and return nothing exactly when their pattern occurs nowhere. */
  lemma ExtractEmpty(text: string)
    ensures ExtractCitations(text) == [] <==> forall p :: 0 <= p <= |text| ==> !Occurs(SectionRef, text, p)
    ensures ExtractDefinitions(text) == [] <==> forall p :: 0 <= p <= |text| ==> !Occurs(QuotedMeans, text, p)
  {
    FindAllEmpty(SectionRef, text, 0);
    FindAllEmpty(QuotedMeans, text, 0);
  }

  lemma {:induction false} NoQuoteScan(s: string, i: nat)
    requires i <= |s| && '"' !in s
    ensures FindAll(QuotedMeans, s, i) == []
    decreases |s| - i
  {
    if i < |s| {
      assert s[i] != '"';
      NoQuoteScan(s, i + 1);
    }
  }

  /** A text without a double quote defines nothing. */
  lemma NoQuoteNoDefinitions(s: string)
    requires '"' !in s
    ensures ExtractDefinitions(s) == []
  {
    NoQuoteScan(s, 0);
  }

  /** The end of the greedy citation match starting at `p`. */
  function CitationEnd(s: string, p: nat): nat
    requires p <= |s| && MatchAt(SectionRef, s, p).Some?
  {
    MatchAt(SectionRef, s, p).value.end
  }

  /**
   Citation matches start at the positions `ps`, and no two of them overlap: each ends
   at or before the start of every later one.
   */
  ghost predicate DisjointCitations(s: string, ps: seq<nat>) {
    && (forall k :: 0 <= k < |ps| ==> ps[k] <= |s| && MatchAt(SectionRef, s, ps[k]).Some?)
    && (forall k, l :: 0 <= k < l < |ps| ==> CitationEnd(s, ps[k]) <= ps[l])
  }

  /** The parts of the greedy citation match at `p`. */
  lemma CitationParts(s: string, p: nat) returns (w: nat, d: nat, e: nat)
    requires p <= |s| && MatchAt(SectionRef, s, p).Some?
    ensures SectionRefAt(s, p, w, d, e) && CitationEnd(s, p) == e
  {
    var h := MatchAt(SectionRef, s, p).value;
    MatchAtMeaning(SectionRef, s, p);
    w, d, e :| SectionRefAt(s, p, w, d, e) && (d == |s| || !IsDigit(s[d])) && (e == |s| || !IsLetter(s[e]))
               && h == Hit(s[w..e], e);
  }

  /** Past its first character and up to its letter suffix, a citation match holds no 's' or 'S'. */
  lemma NoSectionStartInside(s: string, p: nat, w: nat, d: nat, e: nat)
    requires SectionRefAt(s, p, w, d, e)
    ensures forall k :: p < k < d ==> Lower(s[k]) != 's'
  {
    assert forall j :: 1 <= j < 7 ==> Lower(s[p + j]) == "section"[j];
    forall k | p < k < d
      ensures Lower(s[k]) != 's'
    {
      if k < p + 7 {
        assert Lower(s[p + (k - p)]) == "section"[k - p];
      }
    }
  }

  /** A later citation match never ends before an earlier one. */
  lemma CitationEndsMonotone(s: string, p: nat, q: nat)
    requires p < q <= |s|
    requires MatchAt(SectionRef, s, p).Some? && MatchAt(SectionRef, s, q).Some?
    ensures CitationEnd(s, p) <= CitationEnd(s, q)
  {
    var w, d, e := CitationParts(s, p);
    var w2, d2, e2 := CitationParts(s, q);
    NoSectionStartInside(s, p, w, d, e);
    assert FoldedAt(s, q, "section");
    assert Lower(s[q + 0]) == "section"[0];
    assert d <= q;
    assert IsSpace(s[q + 7]);
    assert forall k :: d <= k < e ==> !IsSpace(s[k]);
    assert e <= q + 7;
  }

  /**
   After the scan takes the match at `i`, the rest of a disjoint family of matches
   starting from `i` on lies beyond that match.
   */
  lemma DisjointTail(s: string, i: nat, ps: seq<nat>)
    requires i <= |s| && MatchAt(SectionRef, s, i).Some?
    requires DisjointCitations(s, ps) && |ps| > 0
    requires forall k :: 0 <= k < |ps| ==> i <= ps[k]
    ensures DisjointCitations(s, ps[1..])
    ensures forall k :: 0 <= k < |ps[1..]| ==> CitationEnd(s, i) <= ps[1..][k]
  {
    if i < ps[0] {
      CitationEndsMonotone(s, i, ps[0]);
    }
    var rest := ps[1..];
    assert forall k :: 0 <= k < |rest| ==> rest[k] == ps[k + 1];
  }

  /** Findall reports at least one citation per pairwise non-overlapping citation match. */
  lemma {:induction false} CitationChainBound(s: string, i: nat, ps: seq<nat>)
    requires i <= |s| && DisjointCitations(s, ps)
    requires forall k :: 0 <= k < |ps| ==> i <= ps[k]
    ensures |FindAll(SectionRef, s, i)| >= |ps|
    decreases |s| - i, 1
  {
    if |ps| > 0 {
      ChainNotAtEnd(s, i, ps);
      if MatchAt(SectionRef, s, i).Some? {
        ChainBoundTake(s, i, ps);
      } else {
        ChainBoundSkip(s, i, ps);
      }
    }
  }

  lemma {:induction false} ChainBoundTake(s: string, i: nat, ps: seq<nat>)
    requires i < |s| && MatchAt(SectionRef, s, i).Some?
    requires DisjointCitations(s, ps) && |ps| > 0
    requires forall k :: 0 <= k < |ps| ==> i <= ps[k]
    ensures |FindAll(SectionRef, s, i)| >= |ps|
    decreases |s| - i, 0
  {
    DisjointTail(s, i, ps);
    CitationChainBound(s, CitationEnd(s, i), ps[1..]);
    ChainTake(s, i);
    assert |ps[1..]| == |ps| - 1;
  }

  lemma {:induction false} ChainBoundSkip(s: string, i: nat, ps: seq<nat>)
    requires i < |s| && MatchAt(SectionRef, s, i).None?
    requires DisjointCitations(s, ps)
    requires forall k :: 0 <= k < |ps| ==> i <= ps[k]
    ensures |FindAll(SectionRef, s, i)| >= |ps|
    decreases |s| - i, 0
  {
    ChainSkip(s, i, ps);
    CitationChainBound(s, i + 1, ps);
  }

  /** A citation match still to come leaves text to scan. */
  lemma ChainNotAtEnd(s: string, i: nat, ps: seq<nat>)
    requires DisjointCitations(s, ps) && |ps| > 0
    requires forall k :: 0 <= k < |ps| ==> i <= ps[k]
    ensures i < |s|
  {
    assert ps[0] <= |s| && MatchAt(SectionRef, s, ps[0]).Some?;
  }

  /** Taking the match at `i` adds exactly one citation to the scan's results. */
  lemma ChainTake(s: string, i: nat)
    requires i < |s| && MatchAt(SectionRef, s, i).Some?
    ensures |FindAll(SectionRef, s, i)| == 1 + |FindAll(SectionRef, s, CitationEnd(s, i))|
  {
  }

  /** Where no citation matches, none of the matches still to come can start. */
  lemma ChainSkip(s: string, i: nat, ps: seq<nat>)
    requires i < |s| && MatchAt(SectionRef, s, i).None?
    requires DisjointCitations(s, ps)
    requires forall k :: 0 <= k < |ps| ==> i <= ps[k]
    ensures forall k :: 0 <= k < |ps| ==> i + 1 <= ps[k]
    ensures FindAll(SectionRef, s, i) == FindAll(SectionRef, s, i + 1)
  {
    forall k | 0 <= k < |ps|
      ensures i + 1 <= ps[k]
    {
      assert MatchAt(SectionRef, s, ps[k]).Some?;
    }
  }

  /**
   Edge multiplicity at the source: a segment holding `n` non-overlapping citation matches
   yields at least `n` citation candidates, repeated section numbers included.
   */
  lemma CitationMultiplicity(text: string, ps: seq<nat>)
    requires DisjointCitations(text, ps)
    ensures |ExtractCitations(text)| >= |ps|
  {
    CitationChainBound(text, 0, ps);
  }
}
