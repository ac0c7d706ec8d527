/**
 The structural segmenter: a one-slot state machine folded over the cleaned lines of
 a statute. A line beginning "Provided that" or "Provided further that" opens a
 proviso, a line beginning "Explanation" opens an explanation, and any other line is
 appended, after a single space, to the open segment. The open segment is sealed when
 the next one opens or the text ends, but only when its content is non-empty.
 */
module Segmenter {
  import opened Wrappers
  import opened Text
  import Cleaner

  datatype Kind = Main | Proviso | Explanation

  /** One unit of statute text; `children` is reserved for nesting and always empty. */
  datatype Segment = Segment(kind: Kind, content: string, children: seq<Segment>)

  /** A scraped page as the fetcher delivers it. */
  datatype RawDocument = RawDocument(title: string, url: string, text: string)

  /** The structured record emitted per page. */
  datatype StatuteRecord = StatuteRecord(id: string, url: string, segments: seq<Segment>)

  /** The kind of segment a line opens, if it opens one (case-sensitive prefix tests). */
  function Opens(line: string): Option<Kind> {
    if StartsWith(line, "Provided that") || StartsWith(line, "Provided further that") then Some(Proviso)
    else if StartsWith(line, "Explanation") then Some(Explanation)
    else None
  }

  /** The segments sealed so far and the one open slot. */
  datatype State = State(sealed: seq<Segment>, open: Segment)

  const Initial: State := State([], Segment(Main, "", []))

  /** Seal the open segment, unless its content is empty. */
  function Seal(sealed: seq<Segment>, open: Segment): seq<Segment> {
    if open.content != "" then sealed + [open] else sealed
  }

  /** One transition of the state machine. */
  function Step(st: State, line: string): (r: State)
    ensures Opens(line).Some? <==> r.open.content == line
    ensures Opens(line).Some? ==> r.open.kind == Opens(line).value
    ensures Opens(line).None? ==> r.sealed == st.sealed && r.open.kind == st.open.kind
    ensures r.open.content != ""
    ensures Opens(line).Some? ==> r.open.children == []
    ensures |st.sealed| <= |r.sealed| <= |st.sealed| + 1 && r.sealed[..|st.sealed|] == st.sealed
    ensures |r.sealed| > |st.sealed| <==> Opens(line).Some? && st.open.content != ""
    ensures |r.sealed| > |st.sealed| ==> r.sealed[|st.sealed|] == st.open
  {
    match Opens(line)
    case Some(k) => State(Seal(st.sealed, st.open), Segment(k, line, []))
    case None => State(st.sealed, st.open.(content := st.open.content + " " + line))
  }

  /** The state after consuming `lines` in order. */
  function Run(lines: seq<string>): (st: State)
    ensures forall k :: 0 <= k < |st.sealed| ==> st.sealed[k].content != "" && st.sealed[k].children == []
    ensures st.open.children == []
    ensures |lines| > 0 ==> st.open.content != ""
  {
    if |lines| == 0 then Initial
    else
      var line := lines[|lines| - 1];
      var st := Run(lines[..|lines| - 1]);
      assert Opens(line).Some? ==> StartsWith(line, "Provided that") || StartsWith(line, "Provided further that") || StartsWith(line, "Explanation");
      Step(st, line)
  }

  /** The sealed segments once every line is consumed. */
  function Segments(lines: seq<string>): (segs: seq<Segment>)
    ensures forall k :: 0 <= k < |segs| ==> segs[k].content != "" && segs[k].children == []
  {
    var st := Run(lines);
    Seal(st.sealed, st.open)
  }

  /**
   `parse_structure`: clean the page text, segment its lines, and label the result
   with the page's title and url.
   */
  function ParseStructure(doc: RawDocument): (r: StatuteRecord)
    ensures r.id == doc.title && r.url == doc.url
    ensures |r.segments| >= 1
    ensures forall k :: 0 <= k < |r.segments| ==> r.segments[k].content != "" && r.segments[k].children == []
  {
    var lines := Split(Cleaner.CleanText(doc.text));
    SegmentCount(lines);
    StatuteRecord(doc.title, doc.url, Segments(lines))
  }

  /** The number of lines that open a proviso or an explanation. */
  function OpenerCount(lines: seq<string>): nat {
    if |lines| == 0 then 0
    else OpenerCount(lines[..|lines| - 1]) + (if Opens(lines[|lines| - 1]).Some? then 1 else 0)
  }

  /**
   One segment per opening line, plus a leading main segment when the first line opens
   nothing; in particular a non-empty line list never yields an empty segment list.
   */
  lemma {:induction false} SegmentCount(lines: seq<string>)
    ensures |Segments(lines)| == OpenerCount(lines) + (if |lines| > 0 && Opens(lines[0]).None? then 1 else 0)
  {
    RunCount(lines);
  }

  lemma {:induction false} RunCount(lines: seq<string>)
    ensures |lines| > 0 ==>
              |Run(lines).sealed| + 1 == OpenerCount(lines) + (if Opens(lines[0]).None? then 1 else 0)
  {
    if |lines| > 1 {
      var pre := lines[..|lines| - 1];
      RunCount(pre);
      assert pre[0] == lines[0];
    }
  }

  /** The lines appended to a segment, each after one space. */
  function Appended(lines: seq<string>): string {
    if |lines| == 0 then "" else Appended(lines[..|lines| - 1]) + " " + lines[|lines| - 1]
  }

  /** The segment a group of consecutive lines becomes. */
  function Render(group: seq<string>): Segment
    requires |group| > 0
  {
    match Opens(group[0])
    case Some(k) => Segment(k, group[0] + Appended(group[1..]), [])
    case None => Segment(Main, Appended(group), [])
  }

  /** Concatenation of the groups. */
  function Flatten(groups: seq<seq<string>>): seq<string> {
    if |groups| == 0 then [] else Flatten(groups[..|groups| - 1]) + groups[|groups| - 1]
  }

  /**
   `groups` cuts `lines` into consecutive non-empty runs, each later run starting at an
   opening line and no run holding an opening line past its first position.
   */
  ghost predicate IsGrouping(lines: seq<string>, groups: seq<seq<string>>) {
    && Flatten(groups) == lines
    && (forall k :: 0 <= k < |groups| ==> |groups[k]| > 0)
    && (forall k :: 0 < k < |groups| ==> Opens(groups[k][0]).Some?)
    && (forall k, j :: 0 <= k < |groups| && 0 < j < |groups[k]| ==> Opens(groups[k][j]).None?)
  }

  lemma AppendedSnoc(lines: seq<string>, line: string)
    ensures Appended(lines + [line]) == Appended(lines) + " " + line
  {
    assert (lines + [line])[..|lines|] == lines;
  }

  lemma FlattenSnoc(groups: seq<seq<string>>, g: seq<string>)
    ensures Flatten(groups + [g]) == Flatten(groups) + g
  {
    assert (groups + [g])[..|groups|] == groups;
  }

  /** The state `st` reached on `lines` renders the groups of `groups`, the last one open. */
  ghost predicate Tracks(lines: seq<string>, st: State, groups: seq<seq<string>>) {
    && IsGrouping(lines, groups)
    && |groups| == |st.sealed| + 1
    && (forall k :: 0 <= k < |st.sealed| ==> st.sealed[k] == Render(groups[k]))
    && st.open == Render(groups[|groups| - 1])
  }

  /** An opening line starts a new group. */
  lemma GroupingOpen(lines: seq<string>, groups: seq<seq<string>>, line: string)
    requires IsGrouping(lines, groups) && Opens(line).Some?
    ensures IsGrouping(lines + [line], groups + [[line]])
  {
    FlattenSnoc(groups, [line]);
  }

  /** Any other line joins the last group. */
  lemma GroupingAppend(lines: seq<string>, groups: seq<seq<string>>, line: string)
    requires IsGrouping(lines, groups) && |groups| > 0 && Opens(line).None?
    ensures IsGrouping(lines + [line], groups[..|groups| - 1] + [groups[|groups| - 1] + [line]])
  {
    var init := groups[..|groups| - 1];
    var last := groups[|groups| - 1];
    var grown := last + [line];
    var gs := init + [grown];
    assert groups == init + [last];
    FlattenSnoc(init, last);
    FlattenSnoc(init, grown);
    forall k, j | 0 <= k < |gs| && 0 < j < |gs[k]|
      ensures Opens(gs[k][j]).None?
    {
      if k < |init| {
        assert gs[k] == groups[k];
      } else if j < |last| {
        assert gs[k][j] == last[j];
      }
    }
    forall k | 0 < k < |gs|
      ensures Opens(gs[k][0]).Some?
    {
      if k < |init| {
        assert gs[k] == groups[k];
      } else {
        assert gs[k][0] == last[0];
      }
    }
  }

  lemma TracksOpen(lines: seq<string>, st: State, groups: seq<seq<string>>, line: string)
    requires Tracks(lines, st, groups) && Opens(line).Some? && st.open.content != ""
    ensures Tracks(lines + [line], Step(st, line), groups + [[line]])
  {
    GroupingOpen(lines, groups, line);
    assert [line][1..] == [];
    var gs := groups + [[line]];
    assert forall k :: 0 <= k < |groups| ==> gs[k] == groups[k];
  }

  lemma TracksAppend(lines: seq<string>, st: State, groups: seq<seq<string>>, line: string)
    requires Tracks(lines, st, groups) && Opens(line).None?
    ensures Tracks(lines + [line], Step(st, line), groups[..|groups| - 1] + [groups[|groups| - 1] + [line]])
  {
    GroupingAppend(lines, groups, line);
    var last := groups[|groups| - 1];
    var gs := groups[..|groups| - 1] + [last + [line]];
    assert forall k :: 0 <= k < |groups| - 1 ==> gs[k] == groups[k];
    RenderGrown(last, line);
  }

  /** A group that grows by one line renders as its segment with that line appended. */
  lemma RenderGrown(group: seq<string>, line: string)
    requires |group| > 0
    ensures Render(group + [line]) == Render(group).(content := Render(group).content + " " + line)
  {
    var grown := group + [line];
    assert grown[0] == group[0];
    AppendedSnoc(group, line);
    assert grown[1..] == group[1..] + [line];
    AppendedSnoc(group[1..], line);
  }

  lemma TracksFirst(line: string)
    ensures Tracks([line], Run([line]), [[line]])
  {
    FirstState(line);
    FlattenSnoc([], [line]);
  }

  /** The first line alone: nothing is sealed and the open segment renders that line. */
  lemma FirstState(line: string)
    ensures Run([line]) == State([], Render([line]))
  {
    assert [line][..0] == [];
    AppendedSnoc([], line);
    assert [line][1..] == [];
  }

  lemma {:induction false} RunGroups(lines: seq<string>) returns (groups: seq<seq<string>>)
    requires |lines| > 0
    ensures Tracks(lines, Run(lines), groups)
  {
    var n := |lines|;
    var line := lines[n - 1];
    var pre := lines[..n - 1];
    assert lines == pre + [line];
    if n == 1 {
      groups := [[line]];
      TracksFirst(line);
    } else {
      var g := RunGroups(pre);
      assert Run(lines) == Step(Run(pre), line);
      if Opens(line).Some? {
        TracksOpen(pre, Run(pre), g, line);
        groups := g + [[line]];
      } else {
        TracksAppend(pre, Run(pre), g, line);
        groups := g[..|g| - 1] + [g[|g| - 1] + [line]];
      }
    }
  }

  /**
   Coverage: the segments are exactly the renderings of a grouping of the lines, so every
   line lands in exactly one segment, in order, either as the line that opened it or
   appended after a space.
   */
  lemma Coverage(lines: seq<string>) returns (groups: seq<seq<string>>)
    requires |lines| > 0
    ensures IsGrouping(lines, groups)
    ensures |Segments(lines)| == |groups|
    ensures forall k :: 0 <= k < |groups| ==> Segments(lines)[k] == Render(groups[k])
  {
    groups := RunGroups(lines);
  }

  /** The content of a rendered segment shows its kind. */
  lemma RenderShowsKind(group: seq<string>)
    requires |group| > 0
    ensures Render(group).kind == Main <==> StartsWith(Render(group).content, " ")
    ensures Render(group).kind != Main ==> Opens(Render(group).content) == Some(Render(group).kind)
  {
    var s := Render(group);
    if Opens(group[0]).Some? {
      var l := group[0];
      var rest := Appended(group[1..]);
      assert s.content == l + rest;
      if StartsWith(l, "Provided that") {
        StartsWithExtend(l, rest, "Provided that");
      } else if StartsWith(l, "Provided further that") {
        StartsWithExtend(l, rest, "Provided further that");
      } else {
        StartsWithExtend(l, rest, "Explanation");
        assert s.content[0] == 'E' by { assert s.content[..11][0] == s.content[0]; }
        HeadMismatch(s.content, "Provided that");
        HeadMismatch(s.content, "Provided further that");
      }
      assert s.content[0] != ' ' by {
        assert s.content[0] == l[0];
        if StartsWith(l, "Provided that") { assert l[..13][0] == l[0]; }
        else if StartsWith(l, "Provided further that") { assert l[..21][0] == l[0]; }
        else { assert l[..11][0] == l[0]; }
      }
    } else {
      AppendedStartsWithSpace(group);
    }
  }

  /** Every member of a group is a member of the concatenation. */
  lemma {:induction false} InFlatten(groups: seq<seq<string>>, k: nat, x: string)
    requires k < |groups| && x in groups[k]
    ensures x in Flatten(groups)
  {
    var last := |groups| - 1;
    if k < last {
      InFlatten(groups[..last], k, x);
    }
  }

  /**
   A proviso or explanation segment begins with a line of the input that announces its
   kind: the line that opened it.
   */
  lemma SegmentOpener(lines: seq<string>)
    ensures forall k :: 0 <= k < |Segments(lines)| && Segments(lines)[k].kind != Main ==>
              exists j :: 0 <= j < |lines| && Opens(lines[j]) == Some(Segments(lines)[k].kind)
                          && StartsWith(Segments(lines)[k].content, lines[j])
  {
    if |lines| > 0 {
      var groups := Coverage(lines);
      forall k | 0 <= k < |groups| && Segments(lines)[k].kind != Main
        ensures exists j :: 0 <= j < |lines| && Opens(lines[j]) == Some(Segments(lines)[k].kind)
                            && StartsWith(Segments(lines)[k].content, lines[j])
      {
        var g := groups[k];
        var head := g[0];
        assert Opens(head).Some?;
        StartsWithExtend(head, Appended(g[1..]), head);
        InFlatten(groups, k, head);
        var j :| 0 <= j < |lines| && lines[j] == head;
      }
    } else {
      assert Segments(lines) == [];
    }
  }

  lemma {:induction false} AppendedStartsWithSpace(lines: seq<string>)
    requires |lines| > 0
    ensures |Appended(lines)| > 0 && Appended(lines)[0] == ' '
  {
    if |lines| > 1 {
      AppendedStartsWithSpace(lines[..|lines| - 1]);
    }
  }

  /**
   Only the first segment can be a main segment; main content always begins with the
   space the appending rule inserts, and a proviso or explanation begins with the line
   that opened it.
   */
  lemma SegmentKinds(lines: seq<string>)
    ensures forall k :: 0 < k < |Segments(lines)| ==> Segments(lines)[k].kind != Main
    ensures forall k :: 0 <= k < |Segments(lines)| ==>
              (Segments(lines)[k].kind == Main <==> StartsWith(Segments(lines)[k].content, " "))
    ensures forall k :: 0 <= k < |Segments(lines)| && Segments(lines)[k].kind != Main ==>
              Opens(Segments(lines)[k].content) == Some(Segments(lines)[k].kind)
    ensures forall k :: 0 <= k < |Segments(lines)| && Segments(lines)[k].kind != Main ==>
              exists j :: 0 <= j < |lines| && Opens(lines[j]) == Some(Segments(lines)[k].kind)
                          && StartsWith(Segments(lines)[k].content, lines[j])
  {
    SegmentHeads(lines);
    SegmentOpener(lines);
  }

  /** The kind-related facts of `SegmentKinds` that follow from the rendering alone. */
  lemma SegmentHeads(lines: seq<string>)
    ensures forall k :: 0 < k < |Segments(lines)| ==> Segments(lines)[k].kind != Main
    ensures forall k :: 0 <= k < |Segments(lines)| ==>
              (Segments(lines)[k].kind == Main <==> StartsWith(Segments(lines)[k].content, " "))
    ensures forall k :: 0 <= k < |Segments(lines)| && Segments(lines)[k].kind != Main ==>
              Opens(Segments(lines)[k].content) == Some(Segments(lines)[k].kind)
  {
    if |lines| > 0 {
      var groups := Coverage(lines);
      forall k | 0 <= k < |groups|
        ensures Segments(lines)[k].kind == Main <==> StartsWith(Segments(lines)[k].content, " ")
        ensures Segments(lines)[k].kind != Main ==> Opens(Segments(lines)[k].content) == Some(Segments(lines)[k].kind)
      {
        RenderShowsKind(groups[k]);
      }
    } else {
      assert Segments(lines) == [];
    }
  }


  /** A page whose text cleans to nothing still yields one main segment holding a single space. */
  lemma EmptyTextOneMain(doc: RawDocument)
    requires Cleaner.CleanText(doc.text) == ""
    ensures ParseStructure(doc).segments == [Segment(Main, " ", [])]
  {
    var lines := Split("");
    assert lines == [""];
    assert lines[..0] == [];
    assert Run(lines) == State([], Segment(Main, " ", []));
  }

  /**
   End to end: when some line of the page survives cleaning, the segments group exactly
   the surviving, stripped lines in their original order.
   */
  lemma DocumentCoverage(doc: RawDocument) returns (groups: seq<seq<string>>)
    requires Cleaner.CleanLines(Split(doc.text)) != []
    ensures IsGrouping(Cleaner.CleanLines(Split(doc.text)), groups)
    ensures |ParseStructure(doc).segments| == |groups|
    ensures forall k :: 0 <= k < |groups| ==> ParseStructure(doc).segments[k] == Render(groups[k])
  {
    Cleaner.CleanTextLines(doc.text);
    groups := Coverage(Cleaner.CleanLines(Split(doc.text)));
  }
}
