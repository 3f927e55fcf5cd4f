# wikilytics link-graph pipeline in Dafny

A model of the link-graph pipeline of wikilytics. wikilytics turns an
encyclopedia XML export into a directed graph whose nodes are article
titles and whose edges are the links between them. The model covers both
versions of the program: the `analyzer/` version, which scans page text
itself, and the older `src/` version, which uses a markup parser.

- **XmlEvents** (`xml_events.dfy`): the pull-parser events (`Start`,
  `End`, `Text`, `Eof`, anything else) that the page readers consume. It
  also defines what one page reader sees and where it stops: the window up
  to `</page>` or end of input, which fields are raised, and the last text
  captured in a raised field.
- **WikiXmlDump** (`wiki_xml_dump.dfy`): the analyzer's page reader.
  - It is a class over the event stream, with `Next` and `ReadBase`.
  - `read_page` captures title, text and namespace. The namespace is
    parsed as a 16-bit integer exactly as `str::parse::<i16>` parses it.
  - A page missing a field ends the iteration.
- **WikiPages** (`wiki_pages.dfy`): the first version's reader, which keeps
  only title and text.
- **WikiText** (`wiki_text.dfy`): the analyzer's link scanner `parse_text`.
  - `ScanFrom` is a specification by recursion over the unread text. The
    index loop `ParseText` is proved to compute it.
  - Lemmas pin its odd edges: unterminated links lose their last character,
    the three characters after `#REDIRECT` are not checked, and the
    redirect branch panics near the end of the text.
  - It also covers the token queries `linked_articles`, `is_redirect` and
    `redirects_to`.
- **NetworkGenerator** (`network_generator.dfy`): `canonicalize_link`,
  `process_page`, `close_redirects`, `resolve_redirects`,
  `remove_dangling_links`, `remove_redirects` and the sequential
  `generate_network` of the analyzer.
- **Network** (`network.rs` of the analyzer, `network.dfy`):
  - the block-boundary vector and byte ranges of the worker threads;
  - the per-page routing of `process_partial_dump`, and its agreement with
    `process_page`;
  - the text formats of `save_network` and `save_redirects`.
- **MarkupLinks** (`markup_links.dfy`): the breadth-first worklist
  traversal `filter_links` of both `src/` versions, over a node tree with
  exactly the variants the code matches.
- **PageNetwork** (`page_network.dfy`): the first version's
  `generate_network`. The markup parser is a function parameter.
- **Summary** (`summary.dfy`): the node and edge counts.
- **Analyze** (`analyze.dfy`): the comma-separated loader `load_network`.
- **IndexSearch** (`index_search.dfy`): `find_entry` and the title filter of
  `find_entries`.
- **Wrappers** and **Sequences**: shared helpers (`Option`, `Result`,
  subsequence, character counts).

Where the source panics, the model returns an explicit error and proves
when it happens:
- the link scanner's out-of-range slice (`RedirectPastEnd`);
- the partitioning's division by zero and out-of-range index.

Input/output is replaced by values:
- the XML reader by a sequence of events;
- the file reader of the loader by a sequence of lines that may be read
  errors;
- the files that are written by the strings written to them.

`close_redirects` loops forever on a redirect cycle of two or more titles.
The model states as a precondition that every chain settles, and proves
that a two-cycle never settles.

## Behaviour of the code worth knowing

The model states each of these as the code does it:

- A link's first letter is upper-cased with `to_ascii_uppercase`, so only
  `a`..`z` change (`analyzer/src/network_generator/mod.rs:151`).
- Block starts are sampled at a stride of `len / threads + 1`. The code
  always builds `threads + 1` boundaries, and panics when an interior index
  is out of range (`analyzer/src/network.rs:13-19`).
- Redirects are resolved only by `close_redirects`, which follows each
  chain until it reaches a title that is not a redirect or redirects to
  itself (`analyzer/src/network_generator/mod.rs:155-173`). It has no cycle
  detection, and on a longer cycle it does not terminate.
- The first incomplete page ends the page iteration
  (`analyzer/src/network_generator/wiki_xml_dump.rs:106-114`).
- `WikiPage.text` is declared `String`
  (`analyzer/src/network_generator/wiki_xml_dump.rs:11`). The scanner and
  its tests treat it as `Option<String>`
  (`analyzer/src/network_generator/wiki_text.rs:41`, `:121-124`). The model
  makes the analyzer's `text` an `Option<string>`.

## Model

| member | source | states |
|---|---|---|
| XmlEvents.StopIndex | analyzer/src/network_generator/wiki_xml_dump.rs:55-104 | the reader stops at the first `</page>` or `Eof` at or after its position, or at the end of input |
| XmlEvents.Resume | analyzer/src/network_generator/wiki_xml_dump.rs:55-104 | the next read starts just past the stopping event; it advances unless the input is exhausted |
| XmlEvents.CapturedIsLastRaisedText | analyzer/src/network_generator/wiki_xml_dump.rs:73-84 | a field's value is the last text event seen while its flag was raised, and there is none exactly when no such event exists |
| XmlEvents.UnrelatedEventsKeepField | analyzer/src/network_generator/wiki_xml_dump.rs:59-102 | events other than text and the field's own start/end change neither its flag nor its value |
| WikiXmlDump.ParseI16 | analyzer/src/network_generator/wiki_xml_dump.rs:82 | a parsed namespace lies in the 16-bit range and starts with a sign or a digit |
| WikiXmlDump.DecimalRoundTrip | analyzer/src/network_generator/wiki_xml_dump.rs:82 | the decimal digits of a number read back as that number |
| WikiXmlDump.ParseI16Decimal | analyzer/src/network_generator/wiki_xml_dump.rs:82 | every in-range number, positive or negative, parses back from its decimal text |
| WikiXmlDump.ReadPage | analyzer/src/network_generator/wiki_xml_dump.rs:44-107 | a page exactly when title, text and a parsable namespace were all captured, each being the last text seen under its flag; the reader resumes past the stopping event |
| WikiXmlDump.BadNamespaceDropsPage | analyzer/src/network_generator/wiki_xml_dump.rs:81-83 | a namespace text that is not an `i16` makes the window yield no page |
| WikiXmlDump.BadNamespaceEndsIteration | analyzer/src/network_generator/wiki_xml_dump.rs:106-114 | after a page with a bad namespace the iterator yields nothing, whatever complete pages follow |
| WikiXmlDump.WikiXmlDump.Next | analyzer/src/network_generator/wiki_xml_dump.rs:109-115 | `next` is one `read_page` from the reader's position, which moves past the page |
| WikiXmlDump.WikiXmlDump.ReadBase | analyzer/src/network_generator/wiki_xml_dump.rs:22-41 | returns the first text seen while the latest start tag was `base`, and stops there; otherwise nothing, at `Eof` or the end of input |
| WikiPages.ReadPage | src/wiki_pages.rs:22-74 | a page exactly when both a title and a text were captured, each the last text under its flag; it stops at `</page>` or `Eof` |
| WikiPages.NamespaceIsIgnored | src/wiki_pages.rs:35-68 | a namespace element changes nothing about the page read, so pages of every namespace come through |
| WikiPages.WikiPages.Next | src/wiki_pages.rs:76-82 | `next` is one `read_page`; the reader moves past the page |
| WikiText.LinkOrRedirect.LinkText | analyzer/src/network_generator/wiki_text.rs:25-30 | some target exactly for a link, and then its target |
| WikiText.LinkOrRedirect.RedirectText | analyzer/src/network_generator/wiki_text.rs:32-37 | some target exactly for a redirect, and then its target |
| WikiText.CheckPrefix | analyzer/src/network_generator/wiki_text.rs:65-68 | the text at the index starts with the whole token; a token cut off by the end never matches |
| WikiText.CheckLinkStart | analyzer/src/network_generator/wiki_text.rs:70-72 | `[[` at the index with at least one more character after it |
| WikiText.CheckRedirectStart | analyzer/src/network_generator/wiki_text.rs:74-78 | `#REDIRECT` or `#redirect` at the index with at least one more character after it |
| WikiText.CloseFromIsFirstClose | analyzer/src/network_generator/wiki_text.rs:55-58 | the search for the end of a link stops at the first `]]`; with none, on the last character |
| WikiText.CloseFromUnique | analyzer/src/network_generator/wiki_text.rs:55-58 | that stopping point is the only index with those properties |
| WikiText.CloseAt | analyzer/src/network_generator/wiki_text.rs:55-58 | a `]]` with no `]` before it is where the end search stops |
| WikiText.UpToBarIsTarget | analyzer/src/network_generator/wiki_text.rs:62 | the target is the longest prefix of the link text without `\|` |
| WikiText.ReadLinkAt | analyzer/src/network_generator/wiki_text.rs:51-63 | returns the text up to the first `\|` before the stopping point and the index two past it; fails exactly when the start lies past the end, where the slice panics |
| WikiText.ParseText | analyzer/src/network_generator/wiki_text.rs:40-96 | nothing exactly when the page has no text; otherwise the tokens `ScanFrom` gives for the whole text, or the panic |
| WikiText.ScanPlainText | analyzer/src/network_generator/wiki_text.rs:89-91 | text without `[` or `#` yields no token |
| WikiText.ScanLinkAt | analyzer/src/network_generator/wiki_text.rs:81-84 | a closed `[[...]]` yields a link to its text up to the first `\|`, and scanning resumes after the `]]` |
| WikiText.ScanRedirectAt | analyzer/src/network_generator/wiki_text.rs:85-88 | a redirect keyword yields the target that starts twelve characters after `#`, whatever the three characters after the keyword are |
| WikiText.RedirectKeywordAt | analyzer/src/network_generator/wiki_text.rs:74-78 | either exact spelling of the keyword followed by a character is a redirect start and not a link start |
| WikiText.ScanUnterminatedLinkAt | analyzer/src/network_generator/wiki_text.rs:55-62 | an unclosed link runs to the end of the text, loses its last character and is the last token |
| WikiText.ScanShortRedirectAt | analyzer/src/network_generator/wiki_text.rs:77-86 | a keyword that ends one or two characters before the end of the text is the panic |
| WikiText.ScanFailureIsShortRedirect | analyzer/src/network_generator/wiki_text.rs:74-88 | the scan fails only at such a keyword |
| WikiText.SkipPlain | analyzer/src/network_generator/wiki_text.rs:89-91 | characters other than `[` and `#` are stepped over |
| WikiText.PlainExamples | analyzer/src/network_generator/wiki_text.rs:132-156 | empty text and `April, April` yield no token |
| WikiText.LinkExample | analyzer/src/network_generator/wiki_text.rs:158-169 | `[[Link]]` yields `Link("Link")` |
| WikiText.ScanRenamedLink | analyzer/src/network_generator/wiki_text.rs:171-182 | `[[P\|D]]` yields `Link(P)`; the display text is dropped |
| WikiText.RedirectExample | analyzer/src/network_generator/wiki_text.rs:184-208 | both spellings of `#REDIRECT [[Link]]` yield `Redirect("Link")` |
| WikiText.ScanRenamedRedirect | analyzer/src/network_generator/wiki_text.rs:224-235 | a redirect with display text yields only its target |
| WikiText.UnclosedLinkExample | analyzer/src/network_generator/wiki_text.rs:237-248 | `[[ ` yields exactly `[Link("")]` |
| WikiText.BareKeywordExample | analyzer/src/network_generator/wiki_text.rs:250-261 | a bare `#REDIRECT` yields no token |
| WikiText.BareLinkStartExample | analyzer/src/network_generator/wiki_text.rs:70-72 | `[[` with nothing after it yields no token |
| WikiText.TwoRedirectsExample | analyzer/src/network_generator/wiki_text.rs:210-222 | two redirect lines yield both redirects in order, and the page redirects to the first |
| WikiText.ScanTwoRedirects | analyzer/src/network_generator/wiki_text.rs:80-92 | any two closed redirects on two lines yield both, in order |
| WikiText.ScanLeadingRedirect | analyzer/src/network_generator/wiki_text.rs:85-88 | a closed redirect at the front yields its target, then the tokens of the text after its `]]` |
| WikiText.ScanShift | analyzer/src/network_generator/wiki_text.rs:80-92 | the tokens from a position depend only on the text from there on |
| WikiText.CloseFromShift | analyzer/src/network_generator/wiki_text.rs:55-58 | the search for `]]` does not depend on the text before it |
| WikiText.UncheckedGapExample | analyzer/src/network_generator/wiki_text.rs:85-88 | `#REDIRECT[[Target]]` yields `Redirect("arget")`: the unchecked gap eats the first character |
| WikiText.ScanSingleLink | analyzer/src/network_generator/wiki_text.rs:80-92 | a text that is just one closed link yields exactly that link |
| WikiText.ScanSingleRedirect | analyzer/src/network_generator/wiki_text.rs:80-92 | a text that is just one redirect yields exactly that redirect |
| WikiText.LinkedArticles | analyzer/src/network_generator/wiki_text.rs:98-102 | at most one target per token |
| WikiText.LinkedArticlesMembers | analyzer/src/network_generator/wiki_text.rs:98-102 | a string is a linked article exactly when a link to it is among the tokens; redirects are dropped |
| WikiText.LinkedArticlesAppend | analyzer/src/network_generator/wiki_text.rs:98-102 | the linked articles of two token lists are those of each, in order |
| WikiText.LinkOnlyArticles | analyzer/src/network_generator/wiki_text.rs:98-106 | without redirects every token's target is kept, position by position |
| WikiText.IsRedirect | analyzer/src/network_generator/wiki_text.rs:104-106 | holds exactly when some token is a redirect |
| WikiText.RedirectsTo | analyzer/src/network_generator/wiki_text.rs:108-110 | some target exactly when some token is a redirect |
| WikiText.RedirectsToFirst | analyzer/src/network_generator/wiki_text.rs:108-110 | the target is that of the first redirect; later ones are ignored |
| WikiText.RedirectsToAppend | analyzer/src/network_generator/wiki_text.rs:108-110 | over a concatenation, the first part decides when it holds a redirect |
| NetworkGenerator.AsciiUpper | analyzer/src/network_generator/mod.rs:151 | the result is never an ASCII lower-case letter; other characters are unchanged |
| NetworkGenerator.CanonicalizeLink | analyzer/src/network_generator/mod.rs:146-152 | nothing exactly for the empty string; otherwise the same length and rest, with the first character ASCII-upper-cased |
| NetworkGenerator.CanonicalizeLinkIdempotent | analyzer/src/network_generator/mod.rs:146-152 | canonicalizing a canonical title changes nothing |
| NetworkGenerator.CanonicalLinks | analyzer/src/network_generator/mod.rs:125-127 | no more links than targets, and none of them empty |
| NetworkGenerator.CanonicalLinksSingle | analyzer/src/network_generator/mod.rs:125-127 | one target gives its canonical form, or nothing when it is empty |
| NetworkGenerator.CanonicalLinksAppend | analyzer/src/network_generator/mod.rs:125-127 | the canonical links of two target lists are those of each, in order, so the result is the canonical non-empty targets in their order and number |
| NetworkGenerator.CanonicalLinksMembers | analyzer/src/network_generator/mod.rs:125-127 | a title is a canonical link exactly when some target canonicalizes to it |
| NetworkGenerator.CanonicalLinksKeepPositions | analyzer/src/network_generator/mod.rs:125-127 | without empty targets the canonical links are the canonicalized targets, position by position |
| NetworkGenerator.RouteTokens | analyzer/src/network_generator/mod.rs:123-135 | a node with the canonical links exactly when there is no redirect; a redirect record with the canonical first target exactly when that target is not empty |
| NetworkGenerator.RouteOf | analyzer/src/network_generator/mod.rs:117-138 | pages outside namespace 0 or without text are ignored; the scan panic happens exactly for a main-namespace text whose scan fails; records carry the page title |
| NetworkGenerator.AdjacencyMembers | analyzer/src/network_generator/mod.rs:125-128 | a node lists a title exactly when one of the page's links canonicalizes to it |
| NetworkGenerator.RedirectRecordIsFirst | analyzer/src/network_generator/mod.rs:131-133 | a redirect page records the canonical target of its first redirect |
| NetworkGenerator.Insert | analyzer/src/network_generator/mod.rs:128-133 | a node adds its title to the nodes and leaves the redirects; a redirect does the converse; anything else changes nothing |
| NetworkGenerator.ProcessPage | analyzer/src/network_generator/mod.rs:117-138 | fails exactly on the scan panic; otherwise ignores, overwrites `network[title]` or overwrites `redirects[title]` as the routing says, leaving the other map alone |
| NetworkGenerator.CollectNodes | analyzer/src/network_generator/mod.rs:8-14 | the nodes after the pages are the titles of the pages routed as nodes |
| NetworkGenerator.CollectLastNodeWins | analyzer/src/network_generator/mod.rs:12-13 | a title's entry is that of the last page routed as a node with that title |
| NetworkGenerator.KeepsNode | analyzer/src/network_generator/mod.rs:12-13 | pages that are not nodes of a title leave its entry alone |
| NetworkGenerator.SettledStays | analyzer/src/network_generator/mod.rs:160-166 | once a chain reaches a settled title it stays there |
| NetworkGenerator.Terminal | analyzer/src/network_generator/mod.rs:160-167 | the end of a chain is settled: not a redirect, or a redirect to itself |
| NetworkGenerator.TerminalIsEverySettledPoint | analyzer/src/network_generator/mod.rs:160-167 | whatever number of hops reaches a settled title, it is the same title |
| NetworkGenerator.Close | analyzer/src/network_generator/mod.rs:155-173 | the closed map has exactly the redirects' keys, and every value is settled |
| NetworkGenerator.CloseRedirects | analyzer/src/network_generator/mod.rs:155-173 | when every chain settles, maps every redirect to the end of its chain |
| NetworkGenerator.TwoCycleNeverSettles | analyzer/src/network_generator/mod.rs:160-166 | for A→B, B→A no number of hops settles, so the loop never ends |
| NetworkGenerator.AlternatingChase | analyzer/src/network_generator/mod.rs:160-166 | on A→B, B→A the chain alternates between the two titles forever |
| NetworkGenerator.SelfRedirectSettles | analyzer/src/network_generator/mod.rs:162-164 | a self-redirect stops at once and is kept |
| NetworkGenerator.ResolveLinks | analyzer/src/network_generator/mod.rs:178-183 | same length; each link is replaced by one lookup in the redirects |
| NetworkGenerator.Resolved | analyzer/src/network_generator/mod.rs:176-185 | same nodes; each node's links are resolved |
| NetworkGenerator.ResolveLinksInPlace | analyzer/src/network_generator/mod.rs:178-183 | the in-place loop over one node's links computes its resolved links |
| NetworkGenerator.ResolveRedirects | analyzer/src/network_generator/mod.rs:176-185 | the loop over all nodes computes the resolved network |
| NetworkGenerator.ResolvedLinksSettle | analyzer/src/network_generator/mod.rs:140-142 | after resolution against the closed map, every link is settled |
| NetworkGenerator.KeepNodes | analyzer/src/network_generator/mod.rs:191-194 | a link is kept exactly when it is a node, and then every occurrence of it |
| NetworkGenerator.KeepNodesSubsequence | analyzer/src/network_generator/mod.rs:191-194 | the kept links keep their order |
| NetworkGenerator.RemoveDanglingLinks | analyzer/src/network_generator/mod.rs:187-196 | same nodes; every remaining link was a link of that node and is a node; each link to a node keeps all its occurrences, any other link has none |
| NetworkGenerator.RemoveDanglingKeepsNodeLinks | analyzer/src/network_generator/mod.rs:192 | no occurrence of a link to a node is lost |
| NetworkGenerator.RemoveDanglingLinksOrder | analyzer/src/network_generator/mod.rs:191-194 | each node's remaining links are a subsequence of its links |
| NetworkGenerator.RemoveRedirects | analyzer/src/network_generator/mod.rs:140-144 | close, resolve, then drop dangling links; the nodes are unchanged |
| NetworkGenerator.GenerateNetwork | analyzer/src/network_generator/mod.rs:8-17 | the pages the reader yields, processed in order and then cleaned of redirects, or the first scan panic |
| NetworkGenerator.GeneratedLinksAreNodes | analyzer/src/network_generator/mod.rs:140-144 | every link of the generated graph is a node |
| Network.BlockBoundaries | analyzer/src/network.rs:13-23 | `threads + 1` boundaries, the first 0 and the last `file_size + 1` |
| Network.Blocks | analyzer/src/network.rs:10-23 | fails exactly when the source divides by zero or indexes past the start positions, and then with that error; otherwise the boundary vector, interior boundary k being start position `k * (len / threads + 1)` |
| Network.BlocksPastEnd | analyzer/src/network.rs:17-19 | an interior index past the start positions means the source panics |
| Network.BlocksComplete | analyzer/src/network.rs:13-23 | when every interior index is in range, the vector built is the boundary vector |
| Network.StrideInRange | analyzer/src/network.rs:17-18 | when the source does not panic, every interior index `k * block_size` is a valid start position |
| Network.LargeIndexPartitions | analyzer/src/network.rs:13-19 | with at least `threads * threads` start positions the indexing never panics |
| Network.EightBlocksPanic | analyzer/src/network.rs:10-19 | with four threads, eight start positions make the source index past the end |
| Network.BoundariesNonDecreasing | analyzer/src/network.rs:13-23 | sorted start positions inside the file give boundaries that never decrease |
| Network.ByteCount | analyzer/src/network.rs:73 | the byte count is the difference of the two boundaries, and the subtraction underflows exactly when they decrease |
| Network.OffsetOwnedByOneThread | analyzer/src/network.rs:30-32 | with non-decreasing boundaries each offset in the file is read by exactly one thread |
| Network.ProcessPartialDump | analyzer/src/network.rs:81-101 | sends one node record or at most one redirect record per page, in page order, up to the first scan panic |
| Network.RoutePage | analyzer/src/network.rs:82-98 | the worker routes a page exactly as `process_page` does |
| Network.RecordsStep | analyzer/src/network.rs:81-101 | a page contributes to at most one of the two channels, never both |
| Network.ChannelsAgreeWithProcessPage | analyzer/src/network.rs:81-101 | without a panic, inserting each channel's messages in order gives the maps `process_page` builds |
| Network.SaveNetwork | analyzer/src/network.rs:118-137 | writes, per record, the node, `; ` before each target, then a newline |
| Network.NodeWithoutLinksLine | analyzer/src/network.rs:125-134 | a node without links is written as `node\n` |
| Network.NetworkTextLines | analyzer/src/network.rs:125-134 | with titles free of newlines the file has one line per record |
| Network.NoNewlineInTargets | analyzer/src/network.rs:128-131 | the joined targets add no newline when the targets hold none |
| Network.SeparatorPerTarget | analyzer/src/network.rs:128-131 | with titles free of `;` a line holds one separator per target |
| Network.SaveRedirects | analyzer/src/network.rs:139-154 | writes `node; target\n` per message |
| Network.RedirectTextCounts | analyzer/src/network.rs:146-151 | with titles free of `;` and newlines the file has exactly one newline and one `;` per message |
| MarkupLinks.FilterLinks | src/network_generator/wiki_text.rs:14-56 | the worklist loop computes `Targets` of the parsed nodes; the copy in `src/wiki_text.rs` is the same traversal |
| MarkupLinks.Expand | src/network_generator/wiki_text.rs:19-52 | one loop step: a link or redirect adds its target, a container appends exactly its listed children at the back, anything else does nothing |
| MarkupLinks.AppendItems | src/network_generator/wiki_text.rs:21-25 | appends every item's nodes, in order |
| MarkupLinks.AppendRows | src/network_generator/wiki_text.rs:36-44 | appends each row's attributes and then its cells' contents, in order |
| MarkupLinks.ExpansionStep | src/wiki_text.rs:19-52 | each matched variant expands into `Children` and contributes `Own` |
| MarkupLinks.ChildrenSmaller | src/wiki_text.rs:18-50 | a node's children are strictly smaller than the node |
| MarkupLinks.QueueShrinks | src/wiki_text.rs:18 | popping a node and appending its children shrinks the worklist, so the loop terminates |
| MarkupLinks.TargetsStep | src/network_generator/wiki_text.rs:18-20 | the targets of a worklist are the front node's own target, then those of the rest with its children at the back |
| MarkupLinks.TargetsAppend | src/network_generator/wiki_text.rs:15-20 | the nodes of a worklist contribute before the children they append |
| MarkupLinks.BreadthFirst | src/network_generator/wiki_text.rs:15-20 | targets in level order: the current level's own targets, then the next level's |
| MarkupLinks.TargetsCount | src/network_generator/wiki_text.rs:28-35 | one target per link or redirect node reached |
| MarkupLinks.ListTargetCountAppend | src/network_generator/wiki_text.rs:28-35 | the count over two worklists adds up |
| MarkupLinks.LevelOrderExample | src/network_generator/wiki_text.rs:18-28 | a link of the top level comes before a link nested in a heading before it |
| MarkupLinks.UnvisitedChildrenExample | src/network_generator/wiki_text.rs:28-51 | neither a link's own children nor those of an unmatched node are visited |
| PageNetwork.LinkedArticles | src/network_generator/wiki_text.rs:7-12 | the targets collected from the parsed page text |
| PageNetwork.GenerateNetwork | src/network_generator/mod.rs:8-16 | one insert per page the reader yields, in order; no page gives the empty map |
| PageNetwork.AdjacencyKeys | src/network_generator/mod.rs:11-13 | the nodes are exactly the page titles |
| PageNetwork.LastPageWins | src/network_generator/mod.rs:12 | a title's links are those of its last page, as collected |
| PageNetwork.DanglingLinkKept | src/network_generator/mod.rs:8-16 | a link to a title no page has is stored as is |
| Summary.NumberOfNodes | src/statistics/summary.rs:3-5 | the number of keys, zero exactly for the empty network |
| Summary.NumberOfEdges | src/statistics/summary.rs:7-15 | the sum of all list lengths, zero for the empty network |
| Summary.EdgesOfRemove | src/statistics/summary.rs:10-12 | any node can be counted first, so the sum does not depend on the iteration order |
| Summary.NoEdges | src/statistics/summary.rs:7-15 | zero edges exactly when every list is empty |
| Summary.AddNode | src/statistics/summary.rs:10-11 | a new node adds the length of its list, duplicates included |
| Summary.SameLinks | src/statistics/summary.rs:10-11 | the count reads only the lists of the counted nodes |
| Analyze.Split | analyzer/src/analyze.rs:24 | one more field than there are commas, none holding a comma |
| Analyze.JoinSplit | analyzer/src/analyze.rs:24 | the fields joined by commas give back the line |
| Analyze.SplitAtComma | analyzer/src/analyze.rs:24 | the first field runs up to the first comma |
| Analyze.SplitNoComma | analyzer/src/analyze.rs:24 | a line without a comma is one field |
| Analyze.Entry | analyzer/src/analyze.rs:24-26 | the key followed by the links are the fields |
| Analyze.LoadNetwork | analyzer/src/analyze.rs:15-32 | the loop over lines computes `Loaded` of the lines |
| Analyze.LoadedFailure | analyzer/src/analyze.rs:21-22 | a read error aborts the load with the first such error |
| Analyze.LoadedSuccess | analyzer/src/analyze.rs:21-31 | with no read errors the load succeeds |
| Analyze.LoadedReadAll | analyzer/src/analyze.rs:21-22 | a load that succeeds had no read error |
| Analyze.LoadedKeys | analyzer/src/analyze.rs:24-26 | every line contributes its first field as a key, and every key comes from a line |
| Analyze.LastLineWins | analyzer/src/analyze.rs:26 | a later line with the same key replaces the entry |
| Analyze.NoCommaNoLinks | analyzer/src/analyze.rs:24-26 | a line without a comma is a node without links; the empty line is the node `""` |
| Analyze.SplitExample | analyzer/src/analyze.rs:24-26 | fields are verbatim: `A, B,C` gives `A` with links ` B` and `C` |
| IndexSearch.FindEntry | analyzer/src/wikitext.rs:32-40 | some entry exactly when one has the title; then the first such entry; nothing for an empty index |
| IndexSearch.Matching | analyzer/src/common.rs:47-49 | every returned entry has the title, every matching entry is returned, nothing from an empty index |
| IndexSearch.MatchingSubsequence | analyzer/src/common.rs:47-49 | the result keeps index order |
| IndexSearch.MatchingCounts | analyzer/src/common.rs:47-49 | each matching entry occurs as often as in the index, other entries not at all |
| IndexSearch.NoMatchEmpty | analyzer/src/common.rs:47-51 | no match gives an empty result |
| IndexSearch.FirstOfMatching | analyzer/src/wikitext.rs:32-40 | `find_entry` finds the first entry `find_entries` collects |

## Left out

- Threads and channels (`generate_network_parrallel`,
  `spawn_page_processing_threads`, and the worker and writer threads of
  `network`). The model runs the same per-page routing sequentially, in
  page order. The receivers' interleaving of messages from different
  workers is not modelled.
- Decompression (`bzip2`), file seeks, `take`, buffered readers and
  writers, file metadata and the helpers in `analyzer/src/common.rs:8-36`.
  The file size and start positions are parameters.
- The `quick_xml` reader: events are an input sequence, and `unescape` is
  the identity. Reader errors, which panic in the source, are not
  modelled.
- XmlEvents.Resume: once the input ends, the XML reader reports `Eof`
  again on every read, so no event ever follows an `Eof`. The model does
  not encode that. On an event sequence with events after an `Eof` it
  resumes behind the `Eof`, which the real reader cannot do; on sequences
  the reader can produce, it matches the reader.
- The `parse_wiki_text` parser of the first version: the parse is a
  function parameter `Parser`. Only the node variants `filter_links`
  matches are modelled, and every other variant is `Other`.
- `src/network_generator/wiki_pages.rs` is not part of this model. The
  reader of `src/wiki_pages.rs` stands in for it in `PageNetwork`.
- `read_index`, `blocks`, `WikiIndex` and `WikiIndexEntry` are not defined
  in the shown files. An index entry has only the `start` and `title` the
  lookups use.
- The statistics aggregation, the `main.rs` files, `resolve.rs`, the
  printing in `wikitext()` and the viewer.
- Write errors in `save_network` and `save_redirects`, and the lines of
  `load_network` beyond their text.
- No round trip between `save_network` and `load_network`: the writer
  separates with `"; "`, the loader splits on `,`.
- Network.Blocks: integers are unbounded, so the `u64` overflow of
  `file_size + 1` and the `usize` overflow of `thread_number * block_size`
  are not modelled. The thread count, 4 in the source, is a parameter.
- Network.ByteCount: the underflow of `block_end - block_start` is modelled
  as a missing count (a panic in debug builds); the wrap-around of release
  builds is not modelled.
- Summary.NumberOfEdges: the `usize` counter is a natural number and
  cannot overflow.
- Upper-casing is ASCII only, as `to_ascii_uppercase` is. Strings are
  sequences of characters, so byte lengths and UTF-8 boundaries play no
  part.
- NetworkGenerator.CloseRedirects requires that every redirect chain
  settles. The source does not terminate on a cycle of two or more titles.
  NetworkGenerator.TwoCycleNeverSettles shows why the requirement is
  needed.
- NetworkGenerator.GenerateNetwork requires the same of the collected
  redirects, for the same reason.
- NetworkGenerator.CloseRedirects, NetworkGenerator.ResolveRedirects,
  Summary.NumberOfEdges: the source iterates a hash map in an unspecified
  order. The model picks the keys in an arbitrary order, and the results
  are proved not to depend on it.
