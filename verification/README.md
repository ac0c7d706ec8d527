# Statute pipeline model

A Dafny model of the text core of a statute knowledge-graph pipeline. Scraped pages of
the Income Tax Act, 1961 pass through three pure stages:

1. **Noise filter** (`clean_text`). The text is split into lines. A line is dropped when
   any of 14 fixed patterns occurs in it or when it is blank after stripping. The stripped
   survivors are joined again with newlines.
2. **Segmenter** (`parse_structure`). A one-slot state machine runs over the cleaned
   lines. A line starting with "Provided that" or "Provided further that" opens a proviso.
   A line starting with "Explanation" opens an explanation. Any other line is appended,
   after a space, to the open segment. A segment is sealed only when its content is
   non-empty.
3. **Graph builder** (`extract_citations`, `extract_definitions` and the assembly in the
   builder's `main`). Two `re.findall` scanners find `section <number>` references and
   `"term" means` definitions. Each statute record becomes a statute node with CITES and
   DEFINES edges, and each defined term becomes a `Concept:` node. Nodes are then
   de-duplicated through a dictionary keyed by id.

Modules, one per file:

- `Wrappers`: `Option`.
- `Text`: Python's `split('\n')`, `'\n'.join`, `strip()` and `startswith`, plus the
  whitespace, digit and letter classes.
- `Cleaner`: the noise patterns and `clean_text`.
- `Segmenter`: segments, the state machine and `parse_structure`.
- `Extractor`: the two regular expressions, matched at a position, and the `findall` scan.
- `Graph`: nodes, edges, the per-record assembly and the insertion-ordered dictionary.
- `Examples`: concrete inputs pinned down match by match.

Whitespace, for both `strip()` and the regular expressions' `\s`, is Python's `str.isspace` set, listed code point by code point.

The file reading and writing and the JSON decoding are not modelled. The builder takes a
sequence of `Line`s: blank, malformed or an already decoded `StatuteRecord`.

## Model

| member | source | states |
|---|---|---|
| Text.JoinSplit | data_pipeline/parser.py:27 | Joining the pieces of a split with newlines gives back the original text. |
| Text.SplitJoin | data_pipeline/parser.py:38 | Splitting a join of newline-free lines (at least one) gives back exactly those lines. |
| Text.StripWindow | data_pipeline/parser.py:35-36 | `strip()` returns a contiguous window of the line with only whitespace outside it and no whitespace at either end of it. |
| Text.StripIdempotent | data_pipeline/parser.py:36 | Stripping twice is the same as stripping once. |
| Cleaner.AnyMatchesSome | data_pipeline/parser.py:29-34 | A line is noise exactly when at least one of the 14 patterns is found in it. |
| Cleaner.MatchesWindow | data_pipeline/parser.py:32 | Search is unanchored: a pattern found in part of a line is found in the whole line. |
| Cleaner.NotNoiseWindow | data_pipeline/parser.py:31-35 | Every part of a non-noise line is non-noise, so stripping a survivor cannot make it noise. |
| Cleaner.MobileViewIsNoise | data_pipeline/parser.py:12 | Any line containing "Mobile View" anywhere is noise. |
| Cleaner.StripKeepsSurvivor | data_pipeline/parser.py:35-36 | A surviving line stripped still survives, is non-empty and has no whitespace at either end. |
| Cleaner.FilterMapSelect | data_pipeline/parser.py:29-37 | The filter's output sits at strictly increasing input positions, each the transform of a kept element, and every other position is not kept. |
| Cleaner.CleanLinesSelect | data_pipeline/parser.py:27-37 | The output lines are the stripped survivors in their original relative order, and every input line left out does not survive. |
| Cleaner.CleanLinesClean | data_pipeline/parser.py:29-36 | For newline-free input lines, as `Split` gives, every output line is non-empty, has no whitespace at either end, contains no newline and matches no noise pattern. |
| Cleaner.CleanLinesAppend | data_pipeline/parser.py:29-36 | Lines are filtered one at a time: filtering a concatenation concatenates the results. |
| Cleaner.CleanLinesFixed | data_pipeline/parser.py:29-36 | Already clean lines pass through unchanged. |
| Cleaner.CleanTextLines | data_pipeline/parser.py:27-38 | The cleaned text is empty when nothing survives; otherwise its lines are exactly the filtered lines, each clean. |
| Cleaner.CleanText | data_pipeline/parser.py:8-38 | `clean_text` itself: when the result is non-empty, every one of its lines is clean (non-empty, no whitespace at either end, no newline, no noise pattern). `CleanTextLines` and `CleanTextIdempotent` state the rest. |
| Cleaner.CleanTextIdempotent | data_pipeline/parser.py:8-38 | Cleaning cleaned text changes nothing. |
| Cleaner.NoiseLineDropped | data_pipeline/parser.py:30-36 | A noise line contributes nothing, and the lines around it are filtered as if it were absent. |
| Cleaner.MobileViewDropped | data_pipeline/parser.py:12 | Inserting a "Mobile View" line into a text leaves its cleaned form unchanged, and no cleaned line contains "Mobile View". |
| Segmenter.Run | data_pipeline/parser.py:55-70 | Every sealed segment has non-empty content and no children, and after at least one line the open segment is non-empty. |
| Segmenter.Step | data_pipeline/parser.py:58-69 | One line of the state machine. A line opens a new segment exactly when the open segment afterwards is that line alone, with the kind the line announces. Otherwise the sealed list and the open kind are unchanged. The sealed list only grows, by at most one. It grows exactly when the line opens a segment while the open one is non-empty, and what is added is that previously open segment. The open segment is never empty afterwards. |
| Segmenter.ParseStructure | data_pipeline/parser.py:40-78 | The record's id is the title and its url the page url; there is at least one segment, each with non-empty content and no children. |
| Segmenter.SegmentCount | data_pipeline/parser.py:57-72 | Segment count = number of opening lines + 1 when the first line opens nothing. |
| Segmenter.RunGroups | data_pipeline/parser.py:58-69 | The state after each line corresponds to a grouping of the lines read so far. |
| Segmenter.Coverage | data_pipeline/parser.py:58-72 | Segments are exactly the renderings of a grouping of the lines. Every line lands in exactly one segment, in order, as its opening line or appended after a space. |
| Segmenter.RenderShowsKind | data_pipeline/parser.py:59-69 | A rendered segment is main exactly when its content starts with a space; otherwise its content opens its own kind. |
| Segmenter.AppendedStartsWithSpace | data_pipeline/parser.py:69 | Content built only by appending begins with a space. |
| Segmenter.SegmentKinds | data_pipeline/parser.py:55-69 | Only the first segment can be main; main content begins with a space; the content of a proviso or explanation starts with its kind's keyword and with an input line that announces that kind (the line that opened it). |
| Segmenter.EmptyTextOneMain | data_pipeline/parser.py:55-72 | A page that cleans to nothing yields exactly one main segment with content " ". |
| Segmenter.DocumentCoverage | data_pipeline/parser.py:40-78 | When some line survives cleaning, the segments group exactly the surviving stripped lines, in order. |
| Extractor.MatchAt | data_pipeline/kg_builder.py:15-16 | Trying one of the two patterns at one position. A reported match ends after its start and inside the text, and its capture has the pattern's shape. `MatchAtMeaning` proves it is exactly the regular expression's match there. |
| Extractor.FindAll | data_pipeline/kg_builder.py:16 | `re.findall` (also used at line 25). Every result has the pattern's capture shape, and there are at most as many results as characters scanned. `FindAllExplained` and `FindAllEmpty` pin the results down. |
| Extractor.MatchAtMeaning | data_pipeline/kg_builder.py:15-16 | Trying a pattern at one position fails exactly when the regular expression has no match there, and otherwise yields its greedy match. |
| Extractor.FindAllExplained | data_pipeline/kg_builder.py:16 | The scan returns the captures of leftmost, non-overlapping greedy matches, left to right. Every match position not reported lies inside a reported match. |
| Extractor.FindAllEmpty | data_pipeline/kg_builder.py:16 | The scan finds nothing exactly when the pattern matches at no position from the start point on. |
| Extractor.ExtractEmpty | data_pipeline/kg_builder.py:9-29 | Each extractor returns an empty list exactly when its pattern occurs nowhere in the text. |
| Extractor.ExtractCitations | data_pipeline/kg_builder.py:9-20 | One citation per scan result; each target is digits followed by letters of either case. |
| Extractor.ExtractDefinitions | data_pipeline/kg_builder.py:22-29 | One definition per scan result; each term is non-empty and free of double quotes. |
| Extractor.CitationMultiplicity | data_pipeline/kg_builder.py:16-18 | Any n pairwise non-overlapping citation matches yield at least n citations, repeated numbers included. |
| Extractor.NoQuoteNoDefinitions | data_pipeline/kg_builder.py:25-26 | A text with no double quote defines nothing. |
| Examples.RepeatedCitationKept | data_pipeline/kg_builder.py:16-18 | "section 10 section 10" gives two citations of "10". |
| Examples.SubsectionCited | data_pipeline/kg_builder.py:15-16 | "subsection 5" is cited as "5", because the search is unanchored. |
| Examples.FusedCitationsMerge | data_pipeline/kg_builder.py:15-16 | "section 1section 2" gives the single citation "1section": the case-folded letter suffix swallows the second reference. |
| Examples.RepeatedCitationEdges | data_pipeline/kg_builder.py:59-65 | A statute citing section 10 twice gets two identical CITES edges. |
| Graph.ConceptIdInjective | data_pipeline/kg_builder.py:71 | Two terms get the same concept id exactly when they are the same term, so the id-keyed dictionary never merges different concepts. |
| Graph.SegmentEdges | data_pipeline/kg_builder.py:56-81 | A segment gives one edge per citation plus one per definition. |
| Graph.SegmentEdgeOrder | data_pipeline/kg_builder.py:58-81 | Within a segment the CITES edges come first, in citation order, then the DEFINES edges in definition order. |
| Graph.SegmentEdgesExplained | data_pipeline/kg_builder.py:56-81 | An edge comes from a segment exactly when it leaves the statute and either cites one of the segment's citation targets or defines the concept id of one of its terms. |
| Graph.SegmentsEdgesExplained | data_pipeline/kg_builder.py:55-81 | An edge comes from a record's segments exactly when some segment explains it. |
| Graph.CollectEdgesExplained | data_pipeline/kg_builder.py:39-84 | An edge is emitted exactly when some decoded record of the file explains it. |
| Graph.SegmentConceptsExplained | data_pipeline/kg_builder.py:67-76 | A segment's concept nodes are exactly the nodes "Concept:"+term, named term, for its defined terms. |
| Graph.CollectNodesExplained | data_pipeline/kg_builder.py:39-84 | A node is appended exactly when it is some decoded record's statute node or one of its concept nodes. |
| Graph.SkippedLineIgnored | data_pipeline/kg_builder.py:40-84 | Blank or malformed lines change neither the nodes nor the edges. |
| Graph.EdgesInFileOrder | data_pipeline/kg_builder.py:39-81 | Edges follow file order: the edges of a concatenation are the two edge lists in sequence. |
| Graph.EdgeCount | data_pipeline/kg_builder.py:55-81 | The edge count is the sum over records and segments of citations plus definitions. |
| Graph.PutReplace | data_pipeline/kg_builder.py:87 | `Put`, one dictionary assignment: assigning an id already present overwrites its first entry in place, leaving every other entry where it was. |
| Graph.PutAppend | data_pipeline/kg_builder.py:87 | `Put`: assigning an id not yet present appends the node at the end. |
| Graph.DedupMeaning | data_pipeline/kg_builder.py:87 | `Dedup`, the dictionary comprehension: it keeps one entry per input id. Each entry is the last node written under its id, and entries are ordered by first appearance of their ids. |
| Graph.LastEntry | data_pipeline/kg_builder.py:87 | The entry for an id is the input node that no later node overwrites. |
| Graph.BuildGraphNodes | data_pipeline/kg_builder.py:36-87 | `BuildGraph`, the builder's `main` without file handling: output node ids are distinct; each output node is yielded by some record; every yielded node's id has an output node. |
| Graph.EdgesAnchored | data_pipeline/kg_builder.py:59-87 | Every edge source and every DEFINES target is an output node id; every CITES target is a citation token. |
| Graph.NodeIdOrigin | data_pipeline/kg_builder.py:44-76 | Every node id is either a concept id or the id of some record in the file. |
| Graph.StatuteNodeIsLast | data_pipeline/kg_builder.py:44-76 | If a record's id is not a concept id and no later record shares it, no node appended after that record's statute node has its id. |
| Graph.LatestRecordWins | data_pipeline/kg_builder.py:44-87 | For a statute id that is not a concept id, the output holds exactly the statute node of the last record with that id. |
| Graph.StatuteNodeText | data_pipeline/kg_builder.py:47-52 | `StatuteNode`/`Preview`: for the last record with a given statute id (one not starting with "Concept:"), the output holds the node with that id, the record's url and, as text, the first segment's content, or "" when the record has no segments. |
| Graph.ParsedRecordText | data_pipeline/kg_builder.py:47-52 | For a record produced by `parse_structure`, the statute node's id and url are the page's title and url, and its text is the first segment's content, which is never empty. |
| Graph.SingleSegmentEdges | data_pipeline/kg_builder.py:55-81 | A file of one single-segment statute yields exactly that segment's edges. |

## Left out

- File I/O, `json.loads`/`json.dumps`, the missing-input-file message and the final count
  printout in both `main` functions. The builder takes decoded lines. A line that is blank
  or not valid JSON is modelled as `Blank` or `Malformed` and skipped, as in the source.
- A record missing a field raises an uncaught `KeyError` in the source, and a valid JSON
  line of the wrong shape (`[1]`, `"x"`, a record whose `segments` is `3`) raises an uncaught
  `TypeError` at data_pipeline/kg_builder.py:44-57, since only `json.JSONDecodeError` is
  caught at line 83. Records here are typed, so neither crash can be expressed.
- The fetcher, the fine-tuning script and the evaluation scripts: network access, model
  training and mock inference over randomness, outside the text core.
- `\d` is modelled as the ASCII digits only. Python also accepts other Unicode decimal digits.
- IGNORECASE is modelled as ASCII case folding only. Python's folding of characters such
  as the long s or the Kelvin sign onto ASCII letters is not modelled.
- Strings are Dafny strings, which hold Unicode scalar values only. `json.loads` can produce lone surrogates from `\ud800`-style escapes, and such strings are not modelled.
- Extractor.CitationMultiplicity: the bound holds for non-overlapping occurrences only. Two
  occurrences written with no space between them ("section 1section 2") produce one citation,
  because the case-folded letter suffix takes in the second "section".
  `Examples.FusedCitationsMerge` states this case, so "n occurrences give at least n CITES edges"
  is not claimed for touching occurrences.
- Segmenter.ParseStructure: children lists are always empty, as in the source. No nesting is modelled.
