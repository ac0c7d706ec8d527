/**
 The knowledge-graph builder: one statute node per parsed record, one concept node per
 defined term, a CITES edge per section reference and a DEFINES edge per definition, then
 a dictionary keyed by node id that keeps the last node written for each id, in the order
 the ids were first seen.
 */
module Graph {
  import opened Text
  import opened Segmenter
  import opened Extractor

  datatype Relation = Cites | Defines

  datatype Node =
    | Statute(id: string, url: string, text: string)
    | Concept(id: string, name: string)

  datatype Edge = Edge(source: string, target: string, relation: Relation)

  /** One line of the record file: blank, not valid JSON, or a decoded statute record. */
  datatype Line = Blank | Malformed | Parsed(record: StatuteRecord)

  datatype KnowledgeGraph = KnowledgeGraph(nodes: seq<Node>, edges: seq<Edge>)

  const ConceptPrefix := "Concept:"

  /** The node id of a defined term. */
  function ConceptId(term: string): (r: string)
    ensures StartsWith(r, ConceptPrefix) && r[|ConceptPrefix|..] == term
  {
    assert (ConceptPrefix + term)[..|ConceptPrefix|] == ConceptPrefix;
    ConceptPrefix + term
  }

  /**
   Concept ids keep terms apart: two terms share a concept id exactly when they are the
   same term, so the id-keyed dictionary never merges two different concepts.
   */
  lemma ConceptIdInjective(a: string, b: string)
    ensures ConceptId(a) == ConceptId(b) <==> a == b
  {
    if ConceptId(a) == ConceptId(b) {
      assert a == ConceptId(a)[|ConceptPrefix|..];
    }
  }

  /** The text stored on a statute node: its first segment's content, or empty. */
  function Preview(rec: StatuteRecord): string {
    if |rec.segments| == 0 then "" else rec.segments[0].content
  }

  function StatuteNode(rec: StatuteRecord): Node {
    Statute(rec.id, rec.url, Preview(rec))
  }

  /** The edges one segment contributes: its citations, then its definitions. */
  function SegmentEdges(source: string, text: string): (r: seq<Edge>)
    ensures |r| == |ExtractCitations(text)| + |ExtractDefinitions(text)|
  {
    var cs := ExtractCitations(text);
    var ds := ExtractDefinitions(text);
    seq(|cs|, k requires 0 <= k < |cs| => Edge(source, cs[k].target, Cites))
    + seq(|ds|, k requires 0 <= k < |ds| => Edge(source, ConceptId(ds[k].term), Defines))
  }

  /** A segment that defines nothing yields exactly its citation edges, in order. */
  lemma CitationEdgesOnly(source: string, text: string)
    requires ExtractDefinitions(text) == []
    ensures |SegmentEdges(source, text)| == |ExtractCitations(text)|
    ensures forall k :: 0 <= k < |ExtractCitations(text)| ==>
              SegmentEdges(source, text)[k] == Edge(source, ExtractCitations(text)[k].target, Cites)
  {
  }

  /** The concept nodes one segment contributes, one per definition. */
  function SegmentConcepts(text: string): (r: seq<Node>)
    ensures |r| == |ExtractDefinitions(text)|
  {
    var ds := ExtractDefinitions(text);
    seq(|ds|, k requires 0 <= k < |ds| => Concept(ConceptId(ds[k].term), ds[k].term))
  }

  function SegmentsEdges(source: string, segs: seq<Segment>): seq<Edge> {
    if |segs| == 0 then []
    else SegmentEdges(source, segs[0].content) + SegmentsEdges(source, segs[1..])
  }

  function SegmentsConcepts(segs: seq<Segment>): seq<Node> {
    if |segs| == 0 then []
    else SegmentConcepts(segs[0].content) + SegmentsConcepts(segs[1..])
  }

  function LineNodes(line: Line): seq<Node> {
    match line
    case Parsed(rec) => [StatuteNode(rec)] + SegmentsConcepts(rec.segments)
    case _ => []
  }

  function LineEdges(line: Line): seq<Edge> {
    match line
    case Parsed(rec) => SegmentsEdges(rec.id, rec.segments)
    case _ => []
  }

  /** What reading the file line by line appends, with `f` giving each line's share. */
  function Gather<T>(lines: seq<Line>, f: Line -> seq<T>): seq<T> {
    if |lines| == 0 then [] else f(lines[0]) + Gather(lines[1..], f)
  }

  /** Every node appended while reading the file, before de-duplication. */
  function CollectNodes(lines: seq<Line>): seq<Node> {
    Gather(lines, LineNodes)
  }

  function CollectEdges(lines: seq<Line>): seq<Edge> {
    Gather(lines, LineEdges)
  }

  /**
   Assigning `n` under its id in an insertion-ordered dictionary, held as its list of
   values: an existing entry is overwritten in place, a new id goes at the end.
   */
  function Put(table: seq<Node>, n: Node): (r: seq<Node>)
    ensures |table| <= |r| <= |table| + 1
  {
    if |table| == 0 then [n]
    else if table[0].id == n.id then [n] + table[1..]
    else [table[0]] + Put(table[1..], n)
  }

  /** The values of the dictionary built by assigning each node under its id, in order. */
  function Dedup(nodes: seq<Node>): (r: seq<Node>)
    ensures |r| <= |nodes|
  {
    if |nodes| == 0 then []
    else Put(Dedup(nodes[..|nodes| - 1]), nodes[|nodes| - 1])
  }

  /** `main` without the file handling: the de-duplicated nodes and every edge, in order. */
  function BuildGraph(lines: seq<Line>): (g: KnowledgeGraph)
    ensures |g.nodes| <= |CollectNodes(lines)|
  {
    KnowledgeGraph(Dedup(CollectNodes(lines)), CollectEdges(lines))
  }

  // ---------------------------------------------------------------------------------------
  // The dictionary: what `{n['id']: n for n in nodes}.values()` holds.
  // ---------------------------------------------------------------------------------------

  ghost predicate DistinctIds(r: seq<Node>) {
    forall j, k :: 0 <= j < k < |r| ==> r[j].id != r[k].id
  }

  /** Every id of the input has an entry. */
  ghost predicate KeepsIds(nodes: seq<Node>, r: seq<Node>) {
    forall i :: 0 <= i < |nodes| ==> exists k :: 0 <= k < |r| && r[k].id == nodes[i].id
  }

  /** Every entry is an input node that no later input node shares an id with. */
  ghost predicate LastWrites(nodes: seq<Node>, r: seq<Node>) {
    forall k :: 0 <= k < |r| ==>
      exists i :: 0 <= i < |nodes| && r[k] == nodes[i] && NoLaterId(nodes, i, r[k].id)
  }

  ghost predicate NoLaterId(nodes: seq<Node>, i: nat, id: string) {
    forall j :: i < j < |nodes| ==> nodes[j].id != id
  }

  /** Entries come in the order their ids first appear in the input. */
  ghost predicate FirstSeenOrder(nodes: seq<Node>, r: seq<Node>) {
    forall j, k :: 0 <= j < k < |r| ==> SeenBefore(nodes, r[j].id, r[k].id)
  }

  /** `a` occurs in `nodes` at a position where `b` has not occurred yet. */
  ghost predicate SeenBefore(nodes: seq<Node>, a: string, b: string) {
    exists p :: 0 <= p < |nodes| && nodes[p].id == a && NoIdUpTo(nodes, p, b)
  }

  ghost predicate NoIdUpTo(nodes: seq<Node>, p: nat, id: string) {
    forall q :: 0 <= q <= p < |nodes| ==> nodes[q].id != id
  }

  ghost predicate DictValues(nodes: seq<Node>, r: seq<Node>) {
    DistinctIds(r) && KeepsIds(nodes, r) && LastWrites(nodes, r) && FirstSeenOrder(nodes, r)
  }

  lemma {:induction false} PutReplace(table: seq<Node>, n: Node, k: nat)
    requires k < |table| && table[k].id == n.id
    requires forall j :: 0 <= j < k ==> table[j].id != n.id
    ensures Put(table, n) == table[k := n]
    decreases k
  {
    if k > 0 {
      PutReplace(table[1..], n, k - 1);
      assert table[1..][k - 1 := n] == table[k := n][1..];
    }
  }

  lemma {:induction false} PutAppend(table: seq<Node>, n: Node)
    requires forall j :: 0 <= j < |table| ==> table[j].id != n.id
    ensures Put(table, n) == table + [n]
    decreases |table|
  {
    if |table| > 0 {
      PutAppend(table[1..], n);
      assert [table[0]] + (table[1..] + [n]) == table + [n];
    }
  }

  /** Overwriting the entry `k` that already has `n`'s id. */
  lemma ReplaceStep(nodes: seq<Node>, r: seq<Node>, n: Node, k: nat)
    requires DictValues(nodes, r)
    requires k < |r| && r[k].id == n.id
    ensures DictValues(nodes + [n], r[k := n])
  {
    assert forall j :: 0 <= j < |r| ==> r[k := n][j].id == r[j].id;
    ReplaceKeeps(nodes, r, n, k);
    ReplaceLast(nodes, r, n, k);
    ReplaceOrder(nodes, r, n, k);
  }

  lemma ReplaceKeeps(nodes: seq<Node>, r: seq<Node>, n: Node, k: nat)
    requires KeepsIds(nodes, r)
    requires k < |r| && r[k].id == n.id
    ensures KeepsIds(nodes + [n], r[k := n])
  {
    var nodes', r' := nodes + [n], r[k := n];
    forall i | 0 <= i < |nodes'|
      ensures exists k' :: 0 <= k' < |r'| && r'[k'].id == nodes'[i].id
    {
      if i < |nodes| {
        var x := nodes[i];
        assert exists k' :: 0 <= k' < |r| && r[k'].id == x.id;
        var k' :| 0 <= k' < |r| && r[k'].id == x.id;
        assert r'[k'].id == nodes'[i].id;
      } else {
        assert r'[k].id == nodes'[i].id;
      }
    }
    assert forall i :: 0 <= i < |nodes'| ==> exists k' :: 0 <= k' < |r'| && r'[k'].id == nodes'[i].id;
    assert KeepsIds(nodes', r');
  }

  lemma ReplaceLast(nodes: seq<Node>, r: seq<Node>, n: Node, k: nat)
    requires DistinctIds(r) && LastWrites(nodes, r)
    requires k < |r| && r[k].id == n.id
    ensures LastWrites(nodes + [n], r[k := n])
  {
    var nodes', r' := nodes + [n], r[k := n];
    forall k' | 0 <= k' < |r'|
      ensures exists i :: 0 <= i < |nodes'| && r'[k'] == nodes'[i] && NoLaterId(nodes', i, r'[k'].id)
    {
      if k' == k {
        assert r'[k'] == nodes'[|nodes|] && NoLaterId(nodes', |nodes|, r'[k'].id);
      } else {
        var i :| 0 <= i < |nodes| && r[k'] == nodes[i] && NoLaterId(nodes, i, r[k'].id);
        assert r[k'].id != r[k].id;
        assert r'[k'] == nodes'[i] && NoLaterId(nodes', i, r'[k'].id);
      }
    }
    assert forall k' :: 0 <= k' < |r'| ==> exists i :: 0 <= i < |nodes'| && r'[k'] == nodes'[i] && NoLaterId(nodes', i, r'[k'].id);
  }

  lemma ReplaceOrder(nodes: seq<Node>, r: seq<Node>, n: Node, k: nat)
    requires FirstSeenOrder(nodes, r)
    requires k < |r| && r[k].id == n.id
    ensures FirstSeenOrder(nodes + [n], r[k := n])
  {
    var nodes', r' := nodes + [n], r[k := n];
    forall j, k' | 0 <= j < k' < |r'|
      ensures SeenBefore(nodes', r'[j].id, r'[k'].id)
    {
      assert SeenBefore(nodes, r[j].id, r[k'].id);
      var p :| 0 <= p < |nodes| && nodes[p].id == r[j].id && NoIdUpTo(nodes, p, r[k'].id);
      assert nodes'[p].id == r'[j].id && NoIdUpTo(nodes', p, r'[k'].id);
    }
  }

  /** Adding an entry for an id not seen before. */
  lemma AppendStep(nodes: seq<Node>, r: seq<Node>, n: Node)
    requires DictValues(nodes, r)
    requires forall k :: 0 <= k < |r| ==> r[k].id != n.id
    ensures DictValues(nodes + [n], r + [n])
  {
    AppendKeeps(nodes, r, n);
    AppendLast(nodes, r, n);
    NewIdUnseen(nodes, r, n);
    AppendOrder(nodes, r, n);
  }

  lemma AppendKeeps(nodes: seq<Node>, r: seq<Node>, n: Node)
    requires KeepsIds(nodes, r)
    ensures KeepsIds(nodes + [n], r + [n])
  {
    var nodes', r' := nodes + [n], r + [n];
    forall i | 0 <= i < |nodes'|
      ensures exists k' :: 0 <= k' < |r'| && r'[k'].id == nodes'[i].id
    {
      if i < |nodes| {
        var x := nodes[i];
        assert exists k' :: 0 <= k' < |r| && r[k'].id == x.id;
        var k' :| 0 <= k' < |r| && r[k'].id == x.id;
        assert r'[k'].id == nodes'[i].id;
      } else {
        assert r'[|r|].id == nodes'[i].id;
      }
    }
    assert forall i :: 0 <= i < |nodes'| ==> exists k' :: 0 <= k' < |r'| && r'[k'].id == nodes'[i].id;
  }

  lemma AppendLast(nodes: seq<Node>, r: seq<Node>, n: Node)
    requires LastWrites(nodes, r)
    requires forall k :: 0 <= k < |r| ==> r[k].id != n.id
    ensures LastWrites(nodes + [n], r + [n])
  {
    var nodes', r' := nodes + [n], r + [n];
    forall k' | 0 <= k' < |r'|
      ensures exists i :: 0 <= i < |nodes'| && r'[k'] == nodes'[i] && NoLaterId(nodes', i, r'[k'].id)
    {
      if k' == |r| {
        assert r'[k'] == nodes'[|nodes|] && NoLaterId(nodes', |nodes|, r'[k'].id);
      } else {
        var i :| 0 <= i < |nodes| && r[k'] == nodes[i] && NoLaterId(nodes, i, r[k'].id);
        assert r'[k'] == nodes'[i] && NoLaterId(nodes', i, r'[k'].id);
      }
    }
    assert forall k' :: 0 <= k' < |r'| ==> exists i :: 0 <= i < |nodes'| && r'[k'] == nodes'[i] && NoLaterId(nodes', i, r'[k'].id);
  }

  lemma AppendOrder(nodes: seq<Node>, r: seq<Node>, n: Node)
    requires LastWrites(nodes, r) && FirstSeenOrder(nodes, r)
    requires forall q :: 0 <= q < |nodes| ==> nodes[q].id != n.id
    ensures FirstSeenOrder(nodes + [n], r + [n])
  {
    var nodes', r' := nodes + [n], r + [n];
    forall j, k' | 0 <= j < k' < |r'|
      ensures SeenBefore(nodes', r'[j].id, r'[k'].id)
    {
      if k' < |r| {
        assert SeenBefore(nodes, r[j].id, r[k'].id);
        var p :| 0 <= p < |nodes| && nodes[p].id == r[j].id && NoIdUpTo(nodes, p, r[k'].id);
        assert nodes'[p].id == r'[j].id && NoIdUpTo(nodes', p, r'[k'].id);
      } else {
        var p :| 0 <= p < |nodes| && r[j] == nodes[p] && NoLaterId(nodes, p, r[j].id);
        assert nodes'[p].id == r'[j].id && NoIdUpTo(nodes', p, r'[k'].id);
      }
    }
  }

  /** An id with no entry does not occur in the input. */
  lemma NewIdUnseen(nodes: seq<Node>, r: seq<Node>, n: Node)
    requires KeepsIds(nodes, r)
    requires forall k :: 0 <= k < |r| ==> r[k].id != n.id
    ensures forall q :: 0 <= q < |nodes| ==> nodes[q].id != n.id
  {
    forall q | 0 <= q < |nodes|
      ensures nodes[q].id != n.id
    {
      var x := nodes[q];
      assert exists k :: 0 <= k < |r| && r[k].id == x.id;
    }
  }

  lemma PutStep(nodes: seq<Node>, r: seq<Node>, n: Node)
    requires DictValues(nodes, r)
    ensures DictValues(nodes + [n], Put(r, n))
  {
    if k :| 0 <= k < |r| && r[k].id == n.id {
      PutReplace(r, n, k);
      ReplaceStep(nodes, r, n, k);
    } else {
      PutAppend(r, n);
      AppendStep(nodes, r, n);
    }
  }

  /**
   De-duplication behaves as the Python dictionary does: one entry per distinct input id,
   each the last node written under that id, in first-seen order.
   */
  lemma {:induction false} DedupMeaning(nodes: seq<Node>)
    ensures DictValues(nodes, Dedup(nodes))
  {
    if |nodes| > 0 {
      var init := nodes[..|nodes| - 1];
      DedupMeaning(init);
      PutStep(init, Dedup(init), nodes[|nodes| - 1]);
      assert init + [nodes[|nodes| - 1]] == nodes;
    }
  }

  // ---------------------------------------------------------------------------------------
  // Where edges and nodes come from.
  // ---------------------------------------------------------------------------------------

  /** `e` is an edge a segment of statute `source` with content `text` gives rise to. */
  ghost predicate Explains(e: Edge, source: string, text: string) {
    && e.source == source
    && (e.relation == Cites ==> Citation(e.target) in ExtractCitations(text))
    && (e.relation == Defines ==> exists d :: d in ExtractDefinitions(text) && e.target == ConceptId(d.term))
  }

  ghost predicate RecordExplains(e: Edge, rec: StatuteRecord) {
    exists j :: 0 <= j < |rec.segments| && Explains(e, rec.id, rec.segments[j].content)
  }

  /** `n` is the concept node of a term defined in `text`. */
  ghost predicate DefinesConcept(text: string, n: Node) {
    exists d :: d in ExtractDefinitions(text) && n == Concept(ConceptId(d.term), d.term)
  }

  /** `n` is the statute node of `rec` or the concept node of a term one of its segments defines. */
  ghost predicate Yields(rec: StatuteRecord, n: Node) {
    || n == StatuteNode(rec)
    || exists j :: 0 <= j < |rec.segments| && DefinesConcept(rec.segments[j].content, n)
  }

  lemma SegmentEdgesExplained(source: string, text: string, e: Edge)
    ensures e in SegmentEdges(source, text) <==> Explains(e, source, text)
  {
    var cs, ds := ExtractCitations(text), ExtractDefinitions(text);
    var cites := seq(|cs|, k requires 0 <= k < |cs| => Edge(source, cs[k].target, Cites));
    var defines := seq(|ds|, k requires 0 <= k < |ds| => Edge(source, ConceptId(ds[k].term), Defines));
    assert SegmentEdges(source, text) == cites + defines;
    if e in cites {
      var k :| 0 <= k < |cites| && cites[k] == e;
      assert cs[k] == Citation(e.target);
    } else if e in defines {
      var k :| 0 <= k < |defines| && defines[k] == e;
      assert ds[k] in ds && e.target == ConceptId(ds[k].term);
    }
    if Explains(e, source, text) {
      if e.relation == Cites {
        var k :| 0 <= k < |cs| && cs[k] == Citation(e.target);
        assert cites[k] == e;
      } else {
        var d :| d in ds && e.target == ConceptId(d.term);
        var k :| 0 <= k < |ds| && ds[k] == d;
        assert defines[k] == e;
      }
    }
  }

  lemma {:induction false} SegmentsEdgesExplained(source: string, segs: seq<Segment>, e: Edge)
    ensures e in SegmentsEdges(source, segs) <==>
              exists j :: 0 <= j < |segs| && Explains(e, source, segs[j].content)
    decreases |segs|
  {
    if |segs| > 0 {
      SegmentEdgesExplained(source, segs[0].content, e);
      SegmentsEdgesExplained(source, segs[1..], e);
      if j :| 0 <= j < |segs[1..]| && Explains(e, source, segs[1..][j].content) {
        assert Explains(e, source, segs[j + 1].content);
      }
      if j :| 0 <= j < |segs| && Explains(e, source, segs[j].content) {
        if j > 0 {
          assert Explains(e, source, segs[1..][j - 1].content);
        }
      }
    }
  }

  lemma CollectEdgesExplained(lines: seq<Line>, e: Edge)
    ensures e in CollectEdges(lines) <==>
              exists i :: 0 <= i < |lines| && lines[i].Parsed? && RecordExplains(e, lines[i].record)
  {
    GatherMember(lines, LineEdges, e);
    forall i | 0 <= i < |lines|
      ensures e in LineEdges(lines[i]) <==> lines[i].Parsed? && RecordExplains(e, lines[i].record)
    {
      LineEdgesExplained(lines[i], e);
    }
  }

  lemma LineEdgesExplained(line: Line, e: Edge)
    ensures e in LineEdges(line) <==> line.Parsed? && RecordExplains(e, line.record)
  {
    if line.Parsed? {
      SegmentsEdgesExplained(line.record.id, line.record.segments, e);
    }
  }


  lemma SegmentConceptsExplained(text: string, n: Node)
    ensures n in SegmentConcepts(text) <==> DefinesConcept(text, n)
  {
    var ds := ExtractDefinitions(text);
    var concepts := SegmentConcepts(text);
    if n in concepts {
      var k :| 0 <= k < |concepts| && concepts[k] == n;
      assert ds[k] in ds && n == Concept(ConceptId(ds[k].term), ds[k].term);
    }
    if DefinesConcept(text, n) {
      var d :| d in ds && n == Concept(ConceptId(d.term), d.term);
      var k :| 0 <= k < |ds| && ds[k] == d;
      assert concepts[k] == n;
    }
  }

  lemma {:induction false} SegmentsConceptsExplained(segs: seq<Segment>, n: Node)
    ensures n in SegmentsConcepts(segs) <==>
              exists j :: 0 <= j < |segs| && DefinesConcept(segs[j].content, n)
    decreases |segs|
  {
    if |segs| > 0 {
      SegmentConceptsExplained(segs[0].content, n);
      SegmentsConceptsExplained(segs[1..], n);
      if j :| 0 <= j < |segs[1..]| && DefinesConcept(segs[1..][j].content, n) {
        assert DefinesConcept(segs[j + 1].content, n);
      }
      if j :| 0 <= j < |segs| && DefinesConcept(segs[j].content, n) {
        if j > 0 {
          assert DefinesConcept(segs[1..][j - 1].content, n);
        }
      }
    }
  }

  lemma CollectNodesExplained(lines: seq<Line>, n: Node)
    ensures n in CollectNodes(lines) <==>
              exists i :: 0 <= i < |lines| && lines[i].Parsed? && Yields(lines[i].record, n)
  {
    GatherMember(lines, LineNodes, n);
    forall i | 0 <= i < |lines|
      ensures n in LineNodes(lines[i]) <==> lines[i].Parsed? && Yields(lines[i].record, n)
    {
      LineNodesExplained(lines[i], n);
    }
  }

  lemma LineNodesExplained(line: Line, n: Node)
    ensures n in LineNodes(line) <==> line.Parsed? && Yields(line.record, n)
  {
    if line.Parsed? {
      SegmentsConceptsExplained(line.record.segments, n);
    }
  }

  /** Something is gathered exactly when some line contributes it. */
  lemma {:induction false} GatherMember<T>(lines: seq<Line>, f: Line -> seq<T>, x: T)
    ensures x in Gather(lines, f) <==> exists i :: 0 <= i < |lines| && x in f(lines[i])
    decreases |lines|
  {
    if |lines| > 0 {
      GatherMember(lines[1..], f, x);
      if i :| 0 <= i < |lines[1..]| && x in f(lines[1..][i]) {
        assert lines[i + 1] == lines[1..][i];
      }
      if i :| 0 <= i < |lines| && x in f(lines[i]) {
        if i > 0 {
          assert lines[1..][i - 1] == lines[i];
        }
      }
    }
  }

  /** What is gathered before line `i`, from line `i`, and after it. */
  lemma GatherSplit<T>(lines: seq<Line>, i: nat, f: Line -> seq<T>)
    requires i < |lines|
    ensures Gather(lines, f) == Gather(lines[..i], f) + f(lines[i]) + Gather(lines[i + 1..], f)
  {
    var pre, post := lines[..i], lines[i + 1..];
    GatherCons(lines[i], post, f);
    SplitAround(lines, i);
    GatherAppend(pre, [lines[i]] + post, f);
  }

  lemma GatherCons<T>(line: Line, post: seq<Line>, f: Line -> seq<T>)
    ensures Gather([line] + post, f) == f(line) + Gather(post, f)
  {
    var rest := [line] + post;
    assert rest[0] == line && rest[1..] == post;
  }

  lemma SplitAround(lines: seq<Line>, i: nat)
    requires i < |lines|
    ensures lines == lines[..i] + ([lines[i]] + lines[i + 1..])
  {
  }

  // ---------------------------------------------------------------------------------------
  // The graph as written out.
  // ---------------------------------------------------------------------------------------

  ghost predicate HasId(nodes: seq<Node>, id: string) {
    exists k :: 0 <= k < |nodes| && nodes[k].id == id
  }

  lemma {:induction false} GatherAppend<T>(a: seq<Line>, b: seq<Line>, f: Line -> seq<T>)
    ensures Gather(a + b, f) == Gather(a, f) + Gather(b, f)
    decreases |a|
  {
    if |a| > 0 {
      assert (a + b)[0] == a[0];
      assert (a + b)[1..] == a[1..] + b;
      GatherAppend(a[1..], b, f);
      calc {
        Gather(a + b, f);
        f(a[0]) + Gather(a[1..] + b, f);
        f(a[0]) + (Gather(a[1..], f) + Gather(b, f));
        (f(a[0]) + Gather(a[1..], f)) + Gather(b, f);
      }
    } else {
      assert a + b == b;
    }
  }

  lemma CollectAppend(a: seq<Line>, b: seq<Line>)
    ensures CollectNodes(a + b) == CollectNodes(a) + CollectNodes(b)
    ensures CollectEdges(a + b) == CollectEdges(a) + CollectEdges(b)
  {
    GatherAppend(a, b, LineNodes);
    GatherAppend(a, b, LineEdges);
  }

  /** Blank lines and lines that are not valid JSON contribute nothing. */
  lemma SkippedLineIgnored(a: seq<Line>, line: Line, b: seq<Line>)
    requires !line.Parsed?
    ensures BuildGraph(a + [line] + b) == BuildGraph(a + b)
  {
    var rest := [line] + b;
    assert a + [line] + b == a + rest;
    assert rest[0] == line && rest[1..] == b;
    assert LineNodes(line) == [] && LineEdges(line) == [];
    assert CollectNodes(rest) == CollectNodes(b);
    assert CollectEdges(rest) == CollectEdges(b);
    CollectAppend(a, rest);
    CollectAppend(a, b);
  }

  /** Records are read in file order: the edges of a longer file extend those of its prefix. */
  lemma EdgesInFileOrder(a: seq<Line>, b: seq<Line>)
    ensures BuildGraph(a + b).edges == BuildGraph(a).edges + BuildGraph(b).edges
  {
    CollectAppend(a, b);
  }

  /**
   The nodes written out have distinct ids; each is a statute or concept node some record
   yields, and every node any record yields has its id among them.
   */
  lemma BuildGraphNodes(lines: seq<Line>)
    ensures DistinctIds(BuildGraph(lines).nodes)
    ensures forall n :: n in BuildGraph(lines).nodes ==>
              exists i :: 0 <= i < |lines| && lines[i].Parsed? && Yields(lines[i].record, n)
    ensures forall i, n :: 0 <= i < |lines| && lines[i].Parsed? && Yields(lines[i].record, n) ==>
              HasId(BuildGraph(lines).nodes, n.id)
  {
    var all := CollectNodes(lines);
    var r := Dedup(all);
    DedupMeaning(all);
    forall n | n in r
      ensures exists i :: 0 <= i < |lines| && lines[i].Parsed? && Yields(lines[i].record, n)
    {
      var k :| 0 <= k < |r| && r[k] == n;
      var q :| 0 <= q < |all| && r[k] == all[q] && NoLaterId(all, q, r[k].id);
      CollectNodesExplained(lines, n);
    }
    forall i, n | 0 <= i < |lines| && lines[i].Parsed? && Yields(lines[i].record, n)
      ensures HasId(r, n.id)
    {
      CollectNodesExplained(lines, n);
      var q :| 0 <= q < |all| && all[q] == n;
      var k :| 0 <= k < |r| && r[k].id == all[q].id;
    }
  }

  /**
   Every edge starts at a node that is written out, and every DEFINES edge also ends at
   one; CITES edges end at a citation token, which need not be a node id.
   */
  lemma EdgesAnchored(lines: seq<Line>, e: Edge)
    requires e in BuildGraph(lines).edges
    ensures HasId(BuildGraph(lines).nodes, e.source)
    ensures e.relation == Defines ==> HasId(BuildGraph(lines).nodes, e.target)
    ensures e.relation == Cites ==> IsCitationToken(e.target)
  {
    CollectEdgesExplained(lines, e);
    BuildGraphNodes(lines);
    var i :| 0 <= i < |lines| && lines[i].Parsed? && RecordExplains(e, lines[i].record);
    var rec := lines[i].record;
    var j :| 0 <= j < |rec.segments| && Explains(e, rec.id, rec.segments[j].content);
    assert Yields(rec, StatuteNode(rec));
    if e.relation == Defines {
      var d :| d in ExtractDefinitions(rec.segments[j].content) && e.target == ConceptId(d.term);
      var c := Concept(ConceptId(d.term), d.term);
      assert DefinesConcept(rec.segments[j].content, c);
      assert Yields(rec, c);
    } else {
      var cs := ExtractCitations(rec.segments[j].content);
      var k :| 0 <= k < |cs| && cs[k] == Citation(e.target);
    }
  }

  /** A node id is a concept id or the id of some record in the file. */
  lemma NodeIdOrigin(lines: seq<Line>, n: Node)
    requires n in CollectNodes(lines)
    ensures StartsWith(n.id, ConceptPrefix) ||
            exists i :: 0 <= i < |lines| && lines[i].Parsed? && n.id == lines[i].record.id
  {
    CollectNodesExplained(lines, n);
    var i :| 0 <= i < |lines| && lines[i].Parsed? && Yields(lines[i].record, n);
    if n != StatuteNode(lines[i].record) {
      var segs := lines[i].record.segments;
      var j :| 0 <= j < |segs| && DefinesConcept(segs[j].content, n);
      var d :| d in ExtractDefinitions(segs[j].content) && n == Concept(ConceptId(d.term), d.term);
    }
  }

  /** Concept nodes have concept ids. */
  lemma ConceptIdShape(segs: seq<Segment>, n: Node)
    requires n in SegmentsConcepts(segs)
    ensures StartsWith(n.id, ConceptPrefix)
  {
    SegmentsConceptsExplained(segs, n);
    var j :| 0 <= j < |segs| && DefinesConcept(segs[j].content, n);
    var d :| d in ExtractDefinitions(segs[j].content) && n == Concept(ConceptId(d.term), d.term);
  }

  /** No node after the statute node of record `i` shares its id. */
  lemma StatuteNodeIsLast(lines: seq<Line>, i: nat)
    requires i < |lines| && lines[i].Parsed? && !StartsWith(lines[i].record.id, ConceptPrefix)
    requires forall i' :: i < i' < |lines| && lines[i'].Parsed? ==> lines[i'].record.id != lines[i].record.id
    ensures |CollectNodes(lines[..i])| < |CollectNodes(lines)|
    ensures CollectNodes(lines)[|CollectNodes(lines[..i])|] == StatuteNode(lines[i].record)
    ensures NoLaterId(CollectNodes(lines), |CollectNodes(lines[..i])|, lines[i].record.id)
  {
    var rec := lines[i].record;
    var concepts := SegmentsConcepts(rec.segments);
    NodesAround(lines, i);
    LaterRecordsOtherIds(lines, i);
    forall c | c in concepts
      ensures c.id != rec.id
    {
      ConceptIdShape(rec.segments, c);
    }
    TailIds(CollectNodes(lines[..i]), StatuteNode(rec), concepts, CollectNodes(lines[i + 1..]), rec.id);
  }

  /** No node after `s` in `pre + [s] + mid + post` has `id` when none in `mid` or `post` does. */
  lemma TailIds(pre: seq<Node>, s: Node, mid: seq<Node>, post: seq<Node>, id: string)
    requires forall n :: n in mid ==> n.id != id
    requires forall n :: n in post ==> n.id != id
    ensures NoLaterId(pre + [s] + mid + post, |pre|, id)
  {
    var all := pre + [s] + mid + post;
    forall q | |pre| < q < |all|
      ensures all[q].id != id
    {
      if q <= |pre| + |mid| {
        assert all[q] == mid[q - |pre| - 1];
      } else {
        assert all[q] == post[q - |pre| - 1 - |mid|];
      }
    }
  }

  /** The nodes of a file split around line `i`, which holds a record. */
  lemma NodesAround(lines: seq<Line>, i: nat)
    requires i < |lines| && lines[i].Parsed?
    ensures CollectNodes(lines) == CollectNodes(lines[..i]) + [StatuteNode(lines[i].record)]
              + SegmentsConcepts(lines[i].record.segments) + CollectNodes(lines[i + 1..])
  {
    GatherSplit(lines, i, LineNodes);
  }

  /** When no later record reuses a statute id, no node after that record carries it. */
  lemma LaterRecordsOtherIds(lines: seq<Line>, i: nat)
    requires i < |lines| && lines[i].Parsed? && !StartsWith(lines[i].record.id, ConceptPrefix)
    requires forall i' :: i < i' < |lines| && lines[i'].Parsed? ==> lines[i'].record.id != lines[i].record.id
    ensures forall n :: n in CollectNodes(lines[i + 1..]) ==> n.id != lines[i].record.id
  {
    var post := lines[i + 1..];
    forall n | n in CollectNodes(post)
      ensures n.id != lines[i].record.id
    {
      NodeIdOrigin(post, n);
      if !StartsWith(n.id, ConceptPrefix) {
        var i' :| 0 <= i' < |post| && post[i'].Parsed? && n.id == post[i'].record.id;
        assert post[i'] == lines[i + 1 + i'];
      }
    }
  }

  /**
   When records share a statute id, the statute node written out for that id is the one
   built from the last of them (unless the id looks like a concept id, when a concept node
   can take its place).
   */
  lemma LatestRecordWins(lines: seq<Line>, i: nat)
    requires i < |lines| && lines[i].Parsed? && !StartsWith(lines[i].record.id, ConceptPrefix)
    requires forall i' :: i < i' < |lines| && lines[i'].Parsed? ==> lines[i'].record.id != lines[i].record.id
    ensures exists k :: 0 <= k < |BuildGraph(lines).nodes| && BuildGraph(lines).nodes[k] == StatuteNode(lines[i].record)
    ensures forall k :: 0 <= k < |BuildGraph(lines).nodes| && BuildGraph(lines).nodes[k].id == lines[i].record.id ==>
              BuildGraph(lines).nodes[k] == StatuteNode(lines[i].record)
  {
    var all := CollectNodes(lines);
    StatuteNodeIsLast(lines, i);
    DedupMeaning(all);
    var p := |CollectNodes(lines[..i])|;
    LastEntry(all, Dedup(all), p);
    assert BuildGraph(lines).nodes == Dedup(all);
    assert all[p] == StatuteNode(lines[i].record) && all[p].id == lines[i].record.id;
  }

  /**
   The statute node written out for a record carries the record's id and url, and as its
   text the content of the record's first segment, or "" when it has no segments.
   */
  lemma StatuteNodeText(lines: seq<Line>, i: nat)
    requires i < |lines| && lines[i].Parsed? && !StartsWith(lines[i].record.id, ConceptPrefix)
    requires forall i' :: i < i' < |lines| && lines[i'].Parsed? ==> lines[i'].record.id != lines[i].record.id
    ensures var rec := lines[i].record;
            Statute(rec.id, rec.url, if |rec.segments| == 0 then "" else rec.segments[0].content)
              in BuildGraph(lines).nodes
  {
    LatestRecordWins(lines, i);
  }

  /**
   A record produced by the parser always has a first segment, so its statute node's text
   is that segment's content and is never empty.
   */
  lemma ParsedRecordText(doc: RawDocument)
    ensures StatuteNode(ParseStructure(doc)).text == ParseStructure(doc).segments[0].content
    ensures StatuteNode(ParseStructure(doc)).text != ""
    ensures StatuteNode(ParseStructure(doc)).id == doc.title && StatuteNode(ParseStructure(doc)).url == doc.url
  {
  }

  /** The entry for the id of a node that nothing later overwrites is that node. */
  lemma LastEntry(nodes: seq<Node>, r: seq<Node>, p: nat)
    requires DictValues(nodes, r)
    requires p < |nodes| && NoLaterId(nodes, p, nodes[p].id)
    ensures exists k :: 0 <= k < |r| && r[k] == nodes[p]
    ensures forall k :: 0 <= k < |r| && r[k].id == nodes[p].id ==> r[k] == nodes[p]
  {
    var k := KeptIndex(nodes, r, p);
    LastWriteIs(nodes, r, k, p);
    forall k' | 0 <= k' < |r| && r[k'].id == nodes[p].id
      ensures r[k'] == nodes[p]
    {
      assert k' == k;
    }
  }

  /** The entry that holds the id of input node `p`. */
  lemma KeptIndex(nodes: seq<Node>, r: seq<Node>, p: nat) returns (k: nat)
    requires KeepsIds(nodes, r) && p < |nodes|
    ensures k < |r| && r[k].id == nodes[p].id
  {
    var x := nodes[p];
    assert exists k :: 0 <= k < |r| && r[k].id == x.id;
    k :| 0 <= k < |r| && r[k].id == x.id;
  }

  /** An entry holding the id of a node that nothing later overwrites is that node. */
  lemma LastWriteIs(nodes: seq<Node>, r: seq<Node>, k: nat, p: nat)
    requires LastWrites(nodes, r)
    requires k < |r| && p < |nodes| && r[k].id == nodes[p].id && NoLaterId(nodes, p, nodes[p].id)
    ensures r[k] == nodes[p]
  {
    var x := r[k];
    assert exists m :: 0 <= m < |nodes| && x == nodes[m] && NoLaterId(nodes, m, x.id);
    var m :| 0 <= m < |nodes| && x == nodes[m] && NoLaterId(nodes, m, x.id);
    assert nodes[m].id == nodes[p].id;
  }


  /** A file holding one statute with one segment yields exactly that segment's edges. */
  lemma SingleSegmentEdges(id: string, url: string, seg: Segment)
    ensures BuildGraph([Parsed(StatuteRecord(id, url, [seg]))]).edges == SegmentEdges(id, seg.content)
  {
    var segs := [seg];
    var lines := [Parsed(StatuteRecord(id, url, segs))];
    assert segs[1..] == [];
    assert SegmentsEdges(id, segs) == SegmentEdges(id, seg.content) + SegmentsEdges(id, []);
    assert lines[1..] == [];
    assert CollectEdges(lines) == LineEdges(lines[0]) + CollectEdges([]);
  }

  /** Within a segment every CITES edge precedes every DEFINES edge, each list in match order. */
  lemma SegmentEdgeOrder(source: string, text: string)
    ensures forall j, k :: 0 <= j < k < |SegmentEdges(source, text)| && SegmentEdges(source, text)[j].relation == Defines ==>
              SegmentEdges(source, text)[k].relation == Defines
    ensures forall k :: 0 <= k < |ExtractCitations(text)| ==>
              SegmentEdges(source, text)[k] == Edge(source, ExtractCitations(text)[k].target, Cites)
    ensures forall k :: 0 <= k < |ExtractDefinitions(text)| ==>
              SegmentEdges(source, text)[|ExtractCitations(text)| + k]
              == Edge(source, ConceptId(ExtractDefinitions(text)[k].term), Defines)
  {
  }

  /** The number of citations plus definitions over the segments. */
  function Candidates(segs: seq<Segment>): nat {
    if |segs| == 0 then 0
    else |ExtractCitations(segs[0].content)| + |ExtractDefinitions(segs[0].content)| + Candidates(segs[1..])
  }

  function FileCandidates(lines: seq<Line>): nat {
    if |lines| == 0 then 0
    else (if lines[0].Parsed? then Candidates(lines[0].record.segments) else 0) + FileCandidates(lines[1..])
  }

  lemma {:induction false} SegmentsEdgeCount(source: string, segs: seq<Segment>)
    ensures |SegmentsEdges(source, segs)| == Candidates(segs)
    decreases |segs|
  {
    if |segs| > 0 {
      SegmentsEdgeCount(source, segs[1..]);
    }
  }

  /** One edge per citation and per definition found in any segment of any record. */
  lemma {:induction false} EdgeCount(lines: seq<Line>)
    ensures |BuildGraph(lines).edges| == FileCandidates(lines)
    decreases |lines|
  {
    if |lines| > 0 {
      EdgeCount(lines[1..]);
      if lines[0].Parsed? {
        SegmentsEdgeCount(lines[0].record.id, lines[0].record.segments);
      }
    }
  }
}
