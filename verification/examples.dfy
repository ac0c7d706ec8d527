/**
 Worked inputs for the two extractors, each pinned down match by match: repeated references
 are all kept, and a reference run straight into the next one is read as a single token.
 */
module Examples {
  import opened Wrappers
  import opened Text
  import opened Segmenter
  import opened Extractor
  import opened Graph

  const Repeated := "section 10 section 10"
  const Fused := "section 1section 2"

  lemma RepeatedSpans()
    ensures |Repeated| == 21 && Span(Repeated, 7, IsSpace) == 8 && Span(Repeated, 8, IsDigit) == 10
    ensures Span(Repeated, 10, IsLetter) == 10
  {
    var s := Repeated;
    assert |s| == 21;
    SpanIs(s, 7, IsSpace, 8);
    SpanIs(s, 8, IsDigit, 10);
    SpanIs(s, 10, IsLetter, 10);
  }

  lemma RepeatedFirst()
    ensures MatchAt(SectionRef, Repeated, 0) == Some(Hit("10", 10))
  {
    var s := Repeated;
    RepeatedSpans();
    assert FoldedAt(s, 0, "section");
    assert IsDigit(s[8]);
    assert s[8..10] == "10";
  }

  lemma RepeatedGap()
    ensures MatchAt(SectionRef, Repeated, 10) == None
  {
    var s := Repeated;
    assert !FoldedAt(s, 10, "section") by { assert Lower(s[10 + 0]) != "section"[0]; }
  }

  lemma RepeatedSecond()
    ensures MatchAt(SectionRef, Repeated, 11) == Some(Hit("10", 21))
  {
    var s := Repeated;
    assert |s| == 21;
    assert FoldedAt(s, 11, "section");
    SpanIs(s, 18, IsSpace, 19);
    SpanIs(s, 19, IsDigit, 21);
    SpanIs(s, 21, IsLetter, 21);
    assert s[19..21] == "10";
  }

  /** The same section cited twice yields two citations, not one. */
  lemma RepeatedCitationKept()
    ensures ExtractCitations(Repeated) == [Citation("10"), Citation("10")]
  {
    RepeatedScan();
  }

  /** The scan over the repeated reference, match by match. */
  lemma RepeatedScan()
    ensures FindAll(SectionRef, Repeated, 0) == ["10", "10"]
  {
    var s := Repeated;
    assert |s| == 21;
    RepeatedFirst();
    RepeatedGap();
    RepeatedSecond();
    assert FindAll(SectionRef, s, 21) == [];
    FindAllTake(SectionRef, s, 11, Hit("10", 21));
    FindAllPass(SectionRef, s, 10);
    FindAllTake(SectionRef, s, 0, Hit("10", 10));
    assert FindAll(SectionRef, s, 0) == ["10", "10"];
  }

  const Subsection := "subsection 5"

  lemma SubsectionFound()
    ensures MatchAt(SectionRef, Subsection, 3) == Some(Hit("5", 12))
  {
    var s := Subsection;
    assert |s| == 12;
    assert FoldedAt(s, 3, "section");
    SpanIs(s, 10, IsSpace, 11);
    SpanIs(s, 11, IsDigit, 12);
    SpanIs(s, 12, IsLetter, 12);
    assert s[11..12] == "5";
  }

  /** The search is unanchored, so the tail of "subsection" counts as a section reference. */
  lemma SubsectionCited()
    ensures ExtractCitations(Subsection) == [Citation("5")]
  {
    var s := Subsection;
    SubsectionFound();
    assert !FoldedAt(s, 0, "section") by { assert Lower(s[0 + 1]) != "section"[1]; }
    assert !FoldedAt(s, 1, "section") by { assert Lower(s[1 + 0]) != "section"[0]; }
    assert !FoldedAt(s, 2, "section") by { assert Lower(s[2 + 0]) != "section"[0]; }
    assert FindAll(SectionRef, s, 12) == [];
    assert FindAll(SectionRef, s, 3) == ["5"];
    assert FindAll(SectionRef, s, 2) == ["5"];
    assert FindAll(SectionRef, s, 1) == ["5"];
    assert FindAll(SectionRef, s, 0) == ["5"];
  }

  lemma FusedSpans()
    ensures |Fused| == 18 && Span(Fused, 7, IsSpace) == 8 && Span(Fused, 8, IsDigit) == 9
    ensures Span(Fused, 9, IsLetter) == 16
  {
    var s := Fused;
    assert |s| == 18;
    SpanIs(s, 7, IsSpace, 8);
    SpanIs(s, 8, IsDigit, 9);
    SpanIs(s, 9, IsLetter, 16);
  }

  lemma FusedFirst()
    ensures MatchAt(SectionRef, Fused, 0) == Some(Hit("1section", 16))
  {
    var s := Fused;
    FusedSpans();
    assert FoldedAt(s, 0, "section");
    assert IsDigit(s[8]);
    assert s[8..16] == "1section";
  }

  /**
   Two textual references with no space between them give one citation: the letter suffix
   of the first swallows the word "section" of the second.
   */
  lemma FusedCitationsMerge()
    ensures ExtractCitations(Fused) == [Citation("1section")]
  {
    var s := Fused;
    assert |s| == 18;
    FusedFirst();
    assert MatchAt(SectionRef, s, 16) == None;
    assert MatchAt(SectionRef, s, 17) == None;
    assert FindAll(SectionRef, s, 18) == [];
    assert FindAll(SectionRef, s, 16) == [];
    assert FindAll(SectionRef, s, 0) == ["1section"];
  }

  lemma RepeatedHasNoQuote(text: string)
    requires text == Repeated
    ensures '"' !in text
  {
    assert |text| == 21;
    forall k | 0 <= k < |text|
      ensures text[k] != '"'
    {
    }
  }

  lemma RepeatedSegmentEdges(source: string, text: string)
    requires text == Repeated
    ensures SegmentEdges(source, text) == [Edge(source, "10", Cites), Edge(source, "10", Cites)]
  {
    RepeatedCitationKept();
    RepeatedHasNoQuote(text);
    NoQuoteNoDefinitions(text);
    TwinCitationEdges(source, text, "10");
  }

  /** A segment citing the same section twice, and defining nothing, yields two equal edges. */
  lemma TwinCitationEdges(source: string, text: string, target: string)
    requires ExtractCitations(text) == [Citation(target), Citation(target)]
    requires ExtractDefinitions(text) == []
    ensures SegmentEdges(source, text) == [Edge(source, target, Cites), Edge(source, target, Cites)]
  {
    CitationEdgesOnly(source, text);
    var e := SegmentEdges(source, text);
    assert e[0] == Edge(source, ExtractCitations(text)[0].target, Cites);
    assert e[1] == Edge(source, ExtractCitations(text)[1].target, Cites);
  }

  /** Edges are not de-duplicated: a statute citing section 10 twice has two CITES edges. */
  lemma RepeatedCitationEdges(text: string)
    requires text == Repeated
    ensures BuildGraph([Parsed(StatuteRecord("Section 5", "u", [Segment(Main, text, [])]))]).edges
            == [Edge("Section 5", "10", Cites), Edge("Section 5", "10", Cites)]
  {
    SingleSegmentEdges("Section 5", "u", Segment(Main, text, []));
    RepeatedSegmentEdges("Section 5", text);
  }
}
