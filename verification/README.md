# mind2doc in Dafny

A model of the core of `mind2doc.py`, which turns a FreeMind mind map (an
XML tree of `node` elements) into plain text, Markdown or a wiki dialect.
It has two parts.

- **`ReqIdMapper`**: a store that maps a node's raw `ID` string to a stable
  requirement number. It also keeps a high-water counter `maxId`. Opening a
  store sets `maxId` to the largest stored number, or to 1 when the store is
  empty. `getId` returns the stored number if there is one. Otherwise it
  issues `maxId + 1`, records it and advances the counter. The first number
  a fresh store issues is therefore 2, as in `mind2doc.py`.
- **The exporters**: `printElement` walks the tree recursively.
  - A leaf emits its `TEXT` as a paragraph.
  - A `font` child with `BOLD="true"` makes its parent a heading.
  - A `font` child with `ITALIC="true"` (and no bold flag) makes its parent
    a numbered requirement line.
  - The first `node` child emits the parent's `TEXT` as a paragraph, unless
    a bold font came earlier. Every `node` child is then rendered one level
    deeper.
  - The plain-text, Markdown and wiki exporters differ only in
    `printHeading`.

Files:

- `decimal.dfy`: `str()` / `%i` of integers and its inverse.
- `req_id_mapper.dfy`: the store as an immutable `Mapper(store, maxId)`.
  This file also holds the run-of-`getId` lemmas: counter, numbering,
  stability and uniqueness.
- `exporter.dfy`: the walk as written. `Render` is `printElement`.
  `RenderChildren` is its `for` loop, which threads `headingDone`.
  `RenderChild` is one iteration. A `Variant` (`Plain | Markdown | Wiki`)
  selects `printHeading`. The store is threaded through the walk and
  returned.
- `outline.dfy`: an independent, exporter-free account of the same walk.
  It produces a sequence of blocks (paragraph, heading, requirement), with
  `headingDone` in closed form. `RenderIsFormat` proves that each exporter
  writes exactly these blocks. Variant agreement, shared-store and re-run
  stability follow from that.

Three behaviours of the code that a reader might not expect:

- Every bold font child emits a heading and every italic font child emits a
  requirement line. There is no first-match rule and no deduplication, so a
  bold child does not stop a later italic child from emitting.
- Only a bold font or an earlier `node` child suppresses the paragraph
  fallback. An italic font does not set `headingDone`
  (`mind2doc.py:49-50`), so a requirement line can be followed by the same
  text as a paragraph (`RequirementThenParagraph`).
- A store opened on entries that all hold numbers below 1 would give
  `maxId < 1`. So `Open` promises `Valid` (counter at least 1, above every
  stored number) only when every stored number is at least 1. That holds
  for any store that `getId` wrote.

## Model

| member | source | states |
|---|---|---|
| ReqIdMapper.Open | mind2doc.py:7-12 | the counter is the largest stored number (one of the stored values, at least every stored value), or 1 for an empty store; the store is unchanged; the invariant holds when stored numbers are positive |
| ReqIdMapper.Empty | mind2doc.py:11-12 | a freshly created store is empty, valid and injective |
| ReqIdMapper.GetId | mind2doc.py:14-20 | a mapped key returns its stored number and changes nothing; an unmapped key gets `maxId + 1`, exactly that key is added, every other entry is untouched, and the counter advances by one |
| ReqIdMapper.GetIdPreservesValid | mind2doc.py:17-19 | `getId` keeps `1 <= maxId` and `maxId >=` every stored number; a newly issued number is larger than every number already stored |
| ReqIdMapper.GetIdPreservesInjective | mind2doc.py:17-20 | an injective store stays injective under `getId` |
| ReqIdMapper.ResolveAll | mind2doc.py:14-20 | a run of `getId` calls returns one number per raw ID and keeps every earlier entry |
| ReqIdMapper.ResolveAllRecords | mind2doc.py:18-20 | after a run every raw ID is stored with the number its call returned |
| ReqIdMapper.ResolveAllValid | mind2doc.py:17-19 | a run of `getId` calls keeps the counter invariant |
| ReqIdMapper.ResolveAllAppend | mind2doc.py:14-20 | a run over two sequences of raw IDs is the run over the first followed by the run over the second on the store the first left |
| ReqIdMapper.ResolveAllSnoc | mind2doc.py:14-20 | one more `getId` call extends a run by exactly one number |
| ReqIdMapper.ResolveAllPrefix | mind2doc.py:14-20 | the numbers a run gives do not depend on later calls |
| ReqIdMapper.ResolveAllKeys | mind2doc.py:18 | a run adds exactly the raw IDs it was given |
| ReqIdMapper.ResolveAllCounter | mind2doc.py:17-19 | over a run, the counter advances by exactly the number of distinct raw IDs the store had no number for |
| ReqIdMapper.NewCountIsNewKeys | mind2doc.py:15-19 | counting the positions that hold a first occurrence of a raw ID the store lacks gives the number of distinct new raw IDs |
| ReqIdMapper.ResolveAllAt | mind2doc.py:14-20 | the i-th number of a run is what `getId` returns on the store the first i calls left |
| ReqIdMapper.ResolveAllNumbering | mind2doc.py:17-20 | the first occurrence of a raw ID the store lacks, preceded by j first occurrences of other such raw IDs, receives `maxId + 1 + j` |
| ReqIdMapper.FreshStoreNumbering | mind2doc.py:9-20 | from a fresh store, the first occurrence of a raw ID preceded by j distinct raw IDs receives j + 2, so the k-th distinct raw ID gets k + 1 and the first requirement number is 2 |
| ReqIdMapper.ResolveAllStableUnique | mind2doc.py:14-20 | in a run on a valid injective store, two calls return the same number if and only if they ask for the same raw ID; the store stays injective |
| Decimal.NatToString | mind2doc.py:36 | `str(n)` is a non-empty digit string without leading zeros, and is "0" exactly for 0 |
| Decimal.IntToString | mind2doc.py:36 | `str(i)` is canonical digits whose value is `i`, or, for negative `i`, a minus sign followed by canonical digits whose value is `-i` |
| Decimal.DigitsValueOfNatToString | mind2doc.py:69 | reading back the decimal rendering of a number gives the number |
| Decimal.NatToStringOfDigitsValue | mind2doc.py:69 | every canonical digit string is the rendering of its value (the rendering is onto) |
| Decimal.NatToStringInjective | mind2doc.py:36 | distinct numbers render differently |
| Exporter.Repeat | mind2doc.py:64 | `'#' * n` has length n and every character is `#` |
| Exporter.Heading | mind2doc.py:32-69 | each exporter's heading line ends with the text and a blank line; only the plain-text heading has no level marker before the text |
| Exporter.SplitRun | mind2doc.py:64 | splits a line into its longest run of one character and the rest, which together give back the line |
| Exporter.SplitDigits | mind2doc.py:69 | splits a line into its longest run of digits and the rest, which together give back the line |
| Exporter.SplitRunOfConcat | mind2doc.py:64 | the `#` run of `'#' * n + " " + …` is exactly the n hashes |
| Exporter.SplitDigitsOfConcat | mind2doc.py:69 | the digits of `%i` followed by `. ` are exactly the rendered number |
| Exporter.HeadingRoundTrip | mind2doc.py:61-69 | the Markdown heading (`#` repeated depth+1 times, unclamped, then a space) and the wiki heading (`h<depth+1>. `) are read back to level depth + 1 and the heading's text |
| Exporter.MarkdownRoundTrip | mind2doc.py:64 | a Markdown heading is read back to level depth + 1, however deep, and its text |
| Exporter.WikiRoundTrip | mind2doc.py:69 | a wiki heading (`h`, the level written by `%i` without leading zeros, `. `) is read back to level depth + 1 and its text |
| Exporter.HeadingLineExact | mind2doc.py:61-69 | a line reads back as level depth + 1 with a given text if and only if it is exactly the Markdown or wiki heading of that text at that depth; `h03. t` is not taken for `h3. t` |
| Exporter.WikiReadBackExact | mind2doc.py:69 | any line the wiki reader takes for level depth + 1 and a text is `'h%i. %s'` of depth + 1 and that text, with a blank line |
| Exporter.Render | mind2doc.py:38-57 | a childless element renders to exactly `TEXT` and a blank line under every exporter and leaves the store alone; the walk only adds entries to the store and keeps validity and injectivity |
| Exporter.RenderChildren | mind2doc.py:43-56 | the loop over the children only adds entries to the store, keeps its invariants, and never resets `headingDone` |
| Exporter.RenderChild | mind2doc.py:45-55 | one child sets `headingDone` exactly when it is a bold font or a node (an italic font does not); only italic fonts and nodes touch the store |
| Exporter.RequirementThenParagraph | mind2doc.py:49-55 | for an element whose children are an italic font and then a node, the output is the requirement line numbered by `getId`, then the element's `TEXT` as a fallback paragraph, then the node one level deeper |
| Exporter.Requirement | mind2doc.py:35-36 | a requirement line is `Requirement `, the decimal number, then `: `, the text and a blank line, in that order |
| Exporter.RequirementReadBack | mind2doc.py:36 | the number can be read back from the digits after `Requirement `, with a minus sign for a negative number |
| Exporter.RequirementInjective | mind2doc.py:35-36 | two requirement lines are equal only when both their numbers and their texts are equal |
| Exporter.SilentChildren | mind2doc.py:44-57 | an element with children of which none is a flagged font or a node renders to the empty string and asks for no number |
| Exporter.HeadingExample | mind2doc.py:45-48 | a node with any text and one bold font child renders at depth 2 as `### <text>`, `h3. <text>` and `<text>`, and asks for no number |
| Exporter.BoldOnly | mind2doc.py:45-48 | a node whose only child is a bold font renders to just its heading, under every exporter, and leaves the store alone |
| Exporter.RequirementExample | mind2doc.py:49-50 | a node with any text and ID and one italic font child renders as `Requirement 2: <text>` from a fresh store under every exporter, and the store then maps the ID to 2 |
| Exporter.FirstRequirementLine | mind2doc.py:35-36 | the first requirement line from a fresh store carries the number 2 and records it |
| Exporter.FirstNumber | mind2doc.py:11-20 | the first `getId` on a fresh store returns 2 and stores it |
| Exporter.RequirementTwo | mind2doc.py:36 | the requirement line for number 2 reads `Requirement 2: <text>` |
| Outline.Blocks | mind2doc.py:38-57 | the block walk only adds store entries, and every requirement block carries the number the store holds for its raw ID |
| Outline.ChildrenBlocks | mind2doc.py:44-56 | the same for the blocks of the children from one index on |
| Outline.ChildBlocks | mind2doc.py:45-55 | a bold font gives one heading at the parent's depth; an italic font gives one requirement for the parent's `TEXT` and `ID`; a node gives its own blocks one level deeper, preceded by the parent's paragraph exactly when it falls back, and leaves the store its own walk leaves; any other child gives nothing |
| Outline.FallsBackAtMostOnce | mind2doc.py:51-54 | the parent's paragraph falls back only at a node child with no bold font or node before it, so at most once, and italic fonts never suppress it |
| Outline.RenderIsFormat | mind2doc.py:38-57 | each exporter's walk writes exactly the blocks of the element, in order, and leaves the store as the block walk does |
| Outline.RenderChildrenIsFormat | mind2doc.py:43-56 | the loop writes the children's blocks, and its `headingDone` flag is "some earlier child is a bold font or a node" |
| Outline.RenderChildIsFormat | mind2doc.py:45-55 | one iteration writes the child's blocks and updates `headingDone` as the closed form says |
| Outline.FontChildIsFormat | mind2doc.py:45-50 | a bold or italic font child writes its single block and leaves the store as the block walk does |
| Outline.NodeChildIsFormat | mind2doc.py:51-55 | a node child writes the parent's paragraph when it falls back, then its own blocks one level deeper |
| Outline.FormatAllAppend | mind2doc.py:39-57 | writing blocks distributes over concatenation, as the walk's `ret +=` does |
| Outline.BlocksResolve | mind2doc.py:38-57 | the walk asks for numbers exactly as one run of `getId` over the raw IDs of its requirement blocks, in document order: that run gives the blocks' numbers and the walk's final store |
| Outline.ChildrenBlocksResolve | mind2doc.py:44-56 | the same for the children from one index on |
| Outline.ChildBlocksResolve | mind2doc.py:45-55 | the same for one child |
| Outline.ReqIdsAppend | mind2doc.py:39-57 | the requirement raw IDs of concatenated blocks are the concatenation of each part's raw IDs |
| Outline.ReqNumbersAppend | mind2doc.py:39-57 | the requirement numbers of concatenated blocks are the concatenation of each part's numbers |
| Outline.DocumentNumbering | mind2doc.py:38-57 | in a document rendered from a fresh store, the first requirement for a raw ID, after requirements for j distinct raw IDs, is numbered j + 2, and the rendered text consists of exactly these blocks |
| Outline.DocumentUnique | mind2doc.py:38-57 | in a document rendered from a valid, injective store, two requirements share a number exactly when they share a raw ID, and the store stays injective |
| Outline.BlocksStable | mind2doc.py:14-16 | walking again against a store that keeps every number the walk used issues nothing new and yields the same blocks |
| Outline.ChildrenBlocksStable | mind2doc.py:14-16 | the same for the loop over the children |
| Outline.ChildBlocksStable | mind2doc.py:14-16 | the same for one child |
| Outline.RerenderIdentical | mind2doc.py:14-16 | re-rendering with the store the first render left (or any extension of it) gives byte-identical text and leaves the store unchanged |
| Outline.SharedStoreRender | mind2doc.py:49-50 | a second exporter that runs after a first one on the same store writes the first one's blocks with the same requirement numbers and issues no number |
| Outline.VariantsAgree | mind2doc.py:60-69 | from the same store all exporters render the same blocks, so they make the same `getId` calls, give the same requirement numbers and leave the same store; without headings their texts are equal |
| Outline.NoTitlesFormatAgree | mind2doc.py:60-69 | only headings are written differently by the exporters |

## Left out

- The command-line driver (`mind2doc.py:72-112`) is not modelled: argument parsing, output file names, XML parsing and writing files are I/O.
- The driver opens one store per exporter on the same `.req` file and never closes them. The model threads a single store state through the renders instead; `SharedStoreRender` states what a shared store gives.
- The `shelve` persistence and `close` (`mind2doc.py:8`, `mind2doc.py:22-23`) are not modelled. The store is an in-memory map, and durability across restarts is a property of the library.
- The Markdown exporter prints a warning when the depth exceeds 5 (`mind2doc.py:62-63`). This console output is not modelled; the heading itself is emitted unclamped, as `HeadingRoundTrip` states.
- A missing `TEXT` or `ID` attribute raises `KeyError` in `mind2doc.py`. Here `Renderable` requires exactly the attributes the walk reads, so that error path is a precondition rather than a modelled exception.
- `depth` is a natural number. The driver always starts at depth 0, and negative depths are not modelled.
- Stored values are integers. A shelf holding values of other types is not modelled.
