# AppKiDo HTML doc parser — a Dafny model

This project models the core of AppKiDo's parser for Apple's HTML
documentation files (`AKDocParser` and its subclass
`AKCocoaGlobalsDocParser`). Each part of the model is proved against its
own specification:

- **Token scanner** (`Scanner`, `DocParsing.DocParser.ParseToken`,
  `DocParsing.DocParser.ParseNonMarkupToken`). `-parseToken` skips
  whitespace and consumes either a maximal run of alphanumerics or exactly
  one punctuation byte. The token goes into the fixed buffer `_token`, cut
  to what the buffer holds next to its terminator. `-parseNonMarkupToken`
  repeats this, jumping over a tag `<...>` or a character entity `&...;`
  whenever its closer lies within `MaxTokenLen` bytes and before the limit.
  A tag or entity that is longer, or not closed, comes back as a `<` or `&`
  punctuation token, and the words inside it are then read as tokens.
- **Tiger kludge** (`Kludge`). `+kludgeHTMLForTiger:` rewrites the
  markers shown below in a copy of the file, without moving a byte, so that
  offsets found in the rewritten copy are offsets in the original.
  - `<div class="mach4">name</div>` becomes an `h3` heading.
  - `<span>` and `</span>` become `h1` tags.
- **Section tree** (`Sections`, `Headings`,
  `DocParsing.DocParser.ParseCurrentFile`). The parser scans for `h1`,
  `h2` and `h3` headings and builds a three-level tree: root section,
  major sections, minor sections. It uses `_sectionStack`, the path from
  the root to the newest open section. Each section has a raw name, a byte
  range, a depth, a parent and an ordered list of children. Sections live
  in an arena (a sequence) that stack entries, parent links and child lists
  point into by index. A section ends where the next section at its depth
  or shallower starts, or at the end of the file. A heading the tree does
  not accept opens no section and so ends none (see `Sections.AcceptsIff`).
- **Tiger headings** (`TigerHeadings`). After the rewrite, the heading
  scanner reads a mach4 div as a minor heading, and a plain `<span>` as an
  `h1` heading. Each is named by the bytes it encloses in the original.
- **Globals lookback window** (`Globals`). `AKCocoaGlobalsDocParser`
  re-scans one file section of the original bytes, token by token.
  - It keeps the previous token's text in `_prevToken`, together with the
    previous and current token spans.
  - For each consecutive pair of tokens it asks a rule whether the current
    token is a declared name.
  - The rule itself is a parameter of the model.

Bytes are `bv8`. `AKParserTokenBufferSize` is fixed at 1024. The proofs
need it to be at least 20: `ParseHeadingTag` needs at least 4, and the
`TigerHeadings` lemmas need `MaxTokenLen` to hold the 19-byte `h3` opener
that the mach4 marker becomes.

Two entities are classes, because the source updates their fields in
place:

- `DocParsing.DocParser`: `_current`, `_token`, `_sectionStack`,
  `_rootSectionOfCurrentFile`.
- `Globals.CocoaGlobalsDocParser`: `_prevToken` and the four span
  pointers.

The inherited `AKDocParser` state is reached through a `parser` field,
since the model has no class inheritance. Everything else is functions
and lemmas over values.

## Model

| member | source | states |
|---|---|---|
| Scanner.SkipSpace | src/ClassDB/ParsingHTML/AKDocParser.h:62-69 | the first non-whitespace position at or after the cursor; every byte passed over is whitespace |
| Scanner.AlnumRunEnd | src/ClassDB/ParsingHTML/AKDocParser.h:62-69 | the end of the run of alphanumerics; every byte in the run is alphanumeric and the next one is not |
| Scanner.NextToken | src/ClassDB/ParsingHTML/AKDocParser.h:62-69 | the token lies after the cursor and inside the limit, is a word or a single punctuation byte, and only whitespace precedes it; end of input exactly when only whitespace is left |
| Scanner.TokenText | src/ClassDB/ParsingHTML/AKDocParser.h:54-55 | the text kept in `_token` fits the buffer with its terminator, is a prefix of the token, and is the whole token when it fits |
| Scanner.ConsecutiveTokens | src/ClassDB/ParsingHTML/AKDocParser.h:62-69 | two tokens read one after the other do not overlap, and a word is never split between two tokens |
| Scanner.FindByte | src/ClassDB/ParsingHTML/AKDocParser.h:71-77 | the position of the first occurrence of the byte before the stop, or none at all |
| Scanner.MarkupEnd | src/ClassDB/ParsingHTML/AKDocParser.h:71-77 | the end of the one piece of markup (tag or character entity) opening at the position, or none when no such markup ends before the limit |
| Scanner.NextNonMarkup | src/ClassDB/ParsingHTML/AKDocParser.h:71-77 | the token -parseNonMarkupToken returns lies between the cursor and the limit |
| Scanner.SpacesSkippable | src/ClassDB/ParsingHTML/AKDocParser.h:71-77 | a run of whitespace is something -parseNonMarkupToken may pass over |
| Scanner.SkippableConcat | src/ClassDB/ParsingHTML/AKDocParser.h:71-77 | two adjacent stretches of whitespace and markup form one such stretch |
| Scanner.NonMarkupTokenIsTextToken | src/ClassDB/ParsingHTML/AKDocParser.h:71-77 | the returned token is the token -parseToken reads at that position and does not open markup, and everything skipped before it is whitespace or whole markup |
| Scanner.NonMarkupTokenShape | src/ClassDB/ParsingHTML/AKDocParser.h:66-77 | the returned token is a word or one punctuation byte, no markup starts at it, and a word is never the tail of a longer run of alphanumerics |
| Scanner.SkippableLast | src/ClassDB/ParsingHTML/AKDocParser.h:71-77 | a skipped stretch ends in whitespace, `>` or `;`, never in an alphanumeric |
| Scanner.FindMarkupEnd | src/ClassDB/ParsingHTML/AKDocParser.h:71-77 | the loop that searches for the closer finds exactly the end of the markup |
| DocParsing.DocParser.constructor | src/ClassDB/ParsingHTML/AKDocParser.h:43-56 | a new parser has an empty input, an empty token buffer of the full size, no sections and no root |
| DocParsing.DocParser.ParseToken | src/ClassDB/ParsingHTML/AKDocParser.h:62-69 | returns true exactly when a token is left; the token text is then in `_token` and the cursor is just after the token; otherwise the cursor is at the limit |
| DocParsing.DocParser.SkipSpaces | src/ClassDB/ParsingHTML/AKDocParser.h:62-69 | the skipping loop stops where the whitespace specification says |
| DocParsing.DocParser.AlnumEnd | src/ClassDB/ParsingHTML/AKDocParser.h:62-69 | the run-scanning loop stops where the run specification says |
| DocParsing.DocParser.CopyToken | src/ClassDB/ParsingHTML/AKDocParser.h:54-55 | the token buffer holds exactly the copied bytes |
| DocParsing.DocParser.ParseNonMarkupToken | src/ClassDB/ParsingHTML/AKDocParser.h:71-77 | returns true exactly when a non-markup token is left; that token is in `_token` and the cursor is just after it; otherwise the cursor is at the limit |
| Kludge.MatchFromIff | src/ClassDB/ParsingHTML/AKDocParser.h:96-106 | matching a marker from an index agrees with comparing every remaining byte |
| Kludge.HasAtIff | src/ClassDB/ParsingHTML/AKDocParser.h:96-106 | a marker occurs at a position exactly when it fits there and every byte agrees |
| Kludge.NotBoth | src/ClassDB/ParsingHTML/AKDocParser.h:96-106 | two markers that differ at some byte never occur at the same position |
| Kludge.MarkersWellFormed | src/ClassDB/ParsingHTML/AKDocParser.h:96-106 | each replacement in the Tiger marker table has the same length as the marker it replaces, and every marker starts with `<` |
| Kludge.MarkersExclusive | src/ClassDB/ParsingHTML/AKDocParser.h:96-106 | no two Tiger markers can start at the same position, so the order they are tried in decides nothing |
| Kludge.ExclusiveNotBoth | src/ClassDB/ParsingHTML/AKDocParser.h:96-106 | in an exclusive table, two different entries never occur at the same position |
| Kludge.KludgedFrom | src/ClassDB/ParsingHTML/AKDocParser.h:96-106 | the left-to-right pass from a position, trying the table's markers at each `<` and tracking whether a mach4 div is open; its output is exactly as long as its input |
| Kludge.KludgeHTML | src/ClassDB/ParsingHTML/AKDocParser.h:106 | the Tiger rewrite of a whole file starts outside a div and keeps the file's length |
| Kludge.FirstMarkerNone | src/ClassDB/ParsingHTML/AKDocParser.h:96-106 | a position where no marker occurs is copied unchanged |
| Kludge.FirstMarkerPicks | src/ClassDB/ParsingHTML/AKDocParser.h:96-106 | at a position the pass rewrites the first marker of the table that applies there |
| Kludge.KludgeAgrees | src/ClassDB/ParsingHTML/AKDocParser.h:96-106 | the pass depends only on the bytes from the position onwards |
| Kludge.KludgeKeepsUnrewritten | src/ClassDB/ParsingHTML/AKDocParser.h:99-102 | every byte that no rewrite the pass makes covers is copied to the same offset |
| Kludge.RewrittenAreMarkers | src/ClassDB/ParsingHTML/AKDocParser.h:99-102 | every byte a rewrite covers lies inside a marker that occurs in the input at the rewrite's position |
| Kludge.KludgeChangesOnlyMarkers | src/ClassDB/ParsingHTML/AKDocParser.h:96-106 | any byte the pass changes lies inside an occurrence of some marker (a weaker corollary of Kludge.RewrittenAreMarkers) |
| Kludge.KludgePreservesOffsets | src/ClassDB/ParsingHTML/AKDocParser.h:99-102 | the kludged copy has the same length as the original; every byte that no marker the pass actually rewrites covers is unchanged, so a `</div>` outside a mach4 div keeps its bytes |
| Kludge.KludgePlainRun | src/ClassDB/ParsingHTML/AKDocParser.h:96-106 | a stretch of the file with no `<` in it is copied unchanged |
| Kludge.KludgeWithoutMarkers | src/ClassDB/ParsingHTML/AKDocParser.h:96-106 | a file with no markers is left as it is |
| Kludge.KludgeMach4At | src/ClassDB/ParsingHTML/AKDocParser.h:96-102 | `<div class="mach4">name</div>` becomes an `h3` opening tag, the same name bytes and an `h3` closing tag, each padded to the original length |
| Kludge.KludgeSpanAt | src/ClassDB/ParsingHTML/AKDocParser.h:104-106 | `<span ...>name</span>` becomes the `h1` tags around the same name bytes, padded to the original length |
| Kludge.UnfoldDivOpen | src/ClassDB/ParsingHTML/AKDocParser.h:99 | `<div class="mach4">` is rewritten to `<h3  class="mach4">` and opens the div |
| Kludge.UnfoldDivClose | src/ClassDB/ParsingHTML/AKDocParser.h:99 | inside the div, `</div>` is rewritten to `</h3 >` and closes it |
| Kludge.PlainDivClose | src/ClassDB/ParsingHTML/AKDocParser.h:99-102 | a `</div>` met while no mach4 div is open is copied unchanged, and the pass stays outside a div |
| Kludge.UnfoldSpanOpen | src/ClassDB/ParsingHTML/AKDocParser.h:104-105 | `<span` followed by `>` or whitespace is rewritten to `<h1  ` |
| Kludge.UnfoldSpanClose | src/ClassDB/ParsingHTML/AKDocParser.h:104-105 | `</span>` is rewritten to `</h1  >` |
| Kludge.MarkersClean | src/ClassDB/ParsingHTML/AKDocParser.h:96-106 | every Tiger marker and replacement holds `<` only as its first byte, and no marker matches the start of any replacement |
| Kludge.KludgeClean | src/ClassDB/ParsingHTML/AKDocParser.h:96-106 | for such a clean table, a second pass over the output of the pass changes nothing |
| Kludge.KludgeIdempotent | src/ClassDB/ParsingHTML/AKDocParser.h:96-106 | rewriting an already rewritten Tiger file changes nothing |
| Kludge.PassReaches | src/ClassDB/ParsingHTML/AKDocParser.h:99-102 | no marker of a clean table spans a `<`, so the output from any `<` on is the pass started at that `<` in some div state |
| Kludge.KludgeHTMLAt | src/ClassDB/ParsingHTML/AKDocParser.h:99-102 | the rewritten file from a `<` on is the pass started at that `<` |
| Kludge.Overwrite | src/ClassDB/ParsingHTML/AKDocParser.h:99-102 | writes the replacement bytes in place and leaves every other byte of the buffer as it was |
| Kludge.RewriteMarker | src/ClassDB/ParsingHTML/AKDocParser.h:99-102 | rewrites one marker occurrence in place, keeping the pass invariant, which says the buffer is the kludged prefix followed by the untouched rest |
| Kludge.RewriteInPlace | src/ClassDB/ParsingHTML/AKDocParser.h:96-106 | the in-place loop over the mutable copy leaves exactly the kludged bytes |
| Kludge.KludgeHTMLForTiger | src/ClassDB/ParsingHTML/AKDocParser.h:106 | returns a new buffer holding the kludged copy of the source data |
| Sections.CloseFrom | src/ClassDB/ParsingHTML/AKDocParser.h:46-48 | popping the stack down to a depth ends exactly the sections above that depth at the given offset and changes no other section |
| Sections.AcceptsIff | src/ClassDB/ParsingHTML/AKDocParser.h:20-34 | a heading is accepted exactly when it is at most minor depth and is the first root, or its parent's depth has an open section |
| Sections.Open | src/ClassDB/ParsingHTML/AKDocParser.h:20-34 | reacting to a heading keeps every stack entry an index of a section |
| Sections.FoldCons | src/ClassDB/ParsingHTML/AKDocParser.h:20-34 | folding a list of headings is reacting to the first one, then folding the rest |
| Sections.OpenIsOnStack | src/ClassDB/ParsingHTML/AKDocParser.h:46-48 | an open section sits on the stack at the entry for its own depth |
| Sections.StackIsPath | src/ClassDB/ParsingHTML/AKDocParser.h:46-48 | the stack starts at the root and ends at the newest section; each entry's parent is the entry below it; a section is open exactly when it is on the stack |
| Sections.StackParent | src/ClassDB/ParsingHTML/AKDocParser.h:46-48 | the parent of each stack entry is the entry below it |
| Sections.OpenRootInv | src/ClassDB/ParsingHTML/AKDocParser.h:20-24 | a tree holding just the root section is well formed |
| Sections.PoppedAreOpen | src/ClassDB/ParsingHTML/AKDocParser.h:46-48 | the stack entries above a depth are exactly the open sections at that depth or deeper |
| Sections.OpenKeepsInv | src/ClassDB/ParsingHTML/AKDocParser.h:20-34 | reacting to a heading that starts after every section keeps the tree and the stack well formed: one root, three levels, complete ordered child lists, ends of closed sections |
| Sections.FoldKeepsInv | src/ClassDB/ParsingHTML/AKDocParser.h:20-34 | the invariant holds after any sequence of headings in increasing order |
| Sections.FinishIsFinished | src/ClassDB/ParsingHTML/AKDocParser.h:20-34 | ending every open section at the end of the file gives a finished tree |
| Sections.FinishEnds | src/ClassDB/ParsingHTML/AKDocParser.h:20-34 | after the final pop, every closed section still ends where its closer starts, and every open section ends at the end of the file |
| Sections.Finish | src/ClassDB/ParsingHTML/AKDocParser.h:20-34 | at the end of the data the stack is emptied, every section on it ends at the end of the data, and every other section is unchanged |
| Sections.FoldRootIff | src/ClassDB/ParsingHTML/AKDocParser.h:20-24 | the tree has sections after a run of headings exactly when it had some already or the run holds a root heading |
| Sections.FoldFromHeadings | src/ClassDB/ParsingHTML/AKDocParser.h:39-42 | every section of the tree keeps the name, start and depth of a heading from the input |
| Sections.FindCloser | src/ClassDB/ParsingHTML/AKDocParser.h:20-34 | a section with a later section at its depth or shallower has a first such section, which closes it |
| Sections.EndsBeforeNotDeeper | src/ClassDB/ParsingHTML/AKDocParser.h:20-34 | a section ends no later than the start of any later section at its depth or shallower |
| Sections.RangeInData | src/ClassDB/ParsingHTML/AKDocParser.h:20-34 | in a finished tree every section's range is non-empty and inside the file |
| Sections.ChildInsideParent | src/ClassDB/ParsingHTML/AKDocParser.h:20-24 | a child comes after its parent in the arena, and its range lies inside its parent's |
| Sections.SiblingsDisjoint | src/ClassDB/ParsingHTML/AKDocParser.h:20-24 | two children of the same section have ranges that do not overlap, in document order |
| Sections.OneRoot | src/ClassDB/ParsingHTML/AKDocParser.h:20-24 | exactly the first section is the root, and no section is deeper than minor |
| Headings.FindHeadingClose | src/ClassDB/ParsingHTML/AKDocParser.h:31-42 | the first closing tag `</hN` for the heading's digit at or after the position, or none before the limit |
| Headings.HeadingAt | src/ClassDB/ParsingHTML/AKDocParser.h:31-37 | a heading found at a `<` starts there, is at most minor depth, and its name lies between the tag and a closing tag inside the limit |
| Headings.HeadingAtIsRaw | src/ClassDB/ParsingHTML/AKDocParser.h:39-42 | the opening tag is one complete piece of markup ending in `>`; the name is every byte up to the first closing tag with the same digit, raw, whitespace and character references included |
| Headings.HeadingsFrom | src/ClassDB/ParsingHTML/AKDocParser.h:20-34 | the headings the scan meets start inside the scanned range, in strictly increasing order |
| Headings.HeadingsStep | src/ClassDB/ParsingHTML/AKDocParser.h:20-34 | one token of the scan either yields the heading starting at it and resumes at its closing tag, or is passed over |
| Headings.ScanStepFold | src/ClassDB/ParsingHTML/AKDocParser.h:46-48 | after one scan step, the headings still to come finish the same tree |
| Headings.ScanStepInv | src/ClassDB/ParsingHTML/AKDocParser.h:46-48 | one scan step keeps the tree and stack well formed with every section starting before the new cursor |
| Headings.OpenLater | src/ClassDB/ParsingHTML/AKDocParser.h:20-34 | opening a heading found between two cursors keeps the tree well formed and every section before the later cursor |
| Headings.HeadingsAreHeadings | src/ClassDB/ParsingHTML/AKDocParser.h:31-42 | every heading the scan reports is the heading of the data at its own offset |
| Headings.BuildOutline | src/ClassDB/ParsingHTML/AKDocParser.h:20-34 | the tree -parseCurrentFile leaves for a buffer has an empty stack |
| Headings.RootIffH1 | src/ClassDB/ParsingHTML/AKDocParser.h:50-52 | the tree of a buffer has sections exactly when the scan meets an `h1` heading |
| Headings.BuildOutlineIsTree | src/ClassDB/ParsingHTML/AKDocParser.h:20-34 | the tree built from any file is finished: one root, three levels, complete child lists, ranges inside the file, each range ending where the next section at its depth or shallower starts |
| Headings.SectionsAreHeadings | src/ClassDB/ParsingHTML/AKDocParser.h:31-42 | every section is a heading of the file at its own offset, named by the raw bytes between its tags |
| Headings.SearchHeadingClose | src/ClassDB/ParsingHTML/AKDocParser.h:39-42 | the search loop finds the first closing tag the specification names |
| TigerHeadings.HeadingFromTags | src/ClassDB/ParsingHTML/AKDocParser.h:31-42 | an `<hN ...>` tag, a `</hN` closing tag and no `<` between them make a heading at depth N-1 named by the bytes in between |
| TigerHeadings.Mach4IsMinorHeading | src/ClassDB/ParsingHTML/AKDocParser.h:96-102 | in the rewritten file, `<div class="mach4">name</div>` is a minor heading at the div's offset named by the original name bytes, resuming at the `</div>` |
| TigerHeadings.SpanIsRootHeading | src/ClassDB/ParsingHTML/AKDocParser.h:104-105 | in the rewritten file, `<span>name</span>` is a root heading at the span's offset named by the original name bytes |
| DocParsing.DocParser.PopSections | src/ClassDB/ParsingHTML/AKDocParser.h:46-48 | pops `_sectionStack` to the depth and ends each popped section at the offset |
| DocParsing.DocParser.OpenSection | src/ClassDB/ParsingHTML/AKDocParser.h:20-34 | the tree and stack afterwards are the specification's reaction to the heading |
| DocParsing.DocParser.ParseHeadingTag | src/ClassDB/ParsingHTML/AKDocParser.h:31-42 | reading the tag after a `<` yields exactly the heading the specification finds there |
| DocParsing.DocParser.TokenIsOpenAngle | src/ClassDB/ParsingHTML/AKDocParser.h:66-67 | the token buffer holds a `<` exactly when the token read is a `<` |
| DocParsing.DocParser.ReadTag | src/ClassDB/ParsingHTML/AKDocParser.h:20-42 | a heading tag opens its section and moves the cursor to the closing tag; any other tag leaves the tree alone and resumes after the `<` |
| DocParsing.DocParser.ParseNextHeading | src/ClassDB/ParsingHTML/AKDocParser.h:20-48 | one step of the scan moves the cursor forward, keeps the tree and stack well formed with every section starting before the cursor, and keeps the tree still to be built unchanged; at the end of the data it changes nothing |
| DocParsing.DocParser.ParseCurrentFile | src/ClassDB/ParsingHTML/AKDocParser.h:50-52 | the loop keeps the tree and stack well formed and builds exactly the specified tree of the whole data, finished with an empty stack; it succeeds exactly when the data holds an `h1` heading, whose section is then recorded as the root of the current file |
| DocParsing.DocParser.FinishFile | src/ClassDB/ParsingHTML/AKDocParser.h:50-52 | the final pop ends every open section at the end of the data, leaves a finished tree and records the root exactly when there are sections |
| DocParsing.DocParser.ParseFile | src/ClassDB/ParsingHTML/AKDocParser.h:96-106 | Tiger docs are kludged before parsing, others are parsed as read; the original bytes are kept for later passes; the tree is finished and the parse succeeds exactly when the data holds an `h1` heading |
| DocParsing.DocParser.RootSectionOfCurrentFile | src/ClassDB/ParsingHTML/AKDocParser.h:50-52 | returns a section exactly when a root was recorded; that section is the first of the arena and is a root section |
| DocParsing.DocParser.ScanOriginal | src/ClassDB/ParsingHTML/AKCocoaGlobalsDocParser.h:17 | restricts the scanner to a byte range of the original, unkludged file |
| DocParsing.RangesInOriginal | src/ClassDB/ParsingHTML/AKDocParser.h:99-102 | every section range found in the kludged copy is a non-empty range of the original file |
| Globals.TokensFrom | src/ClassDB/ParsingHTML/AKCocoaGlobalsDocParser.h:8-14 | the non-markup tokens of a section lie inside it |
| Globals.TokensAreConsecutive | src/ClassDB/ParsingHTML/AKCocoaGlobalsDocParser.h:8-14 | the token list is exactly what repeated -parseNonMarkupToken calls return, each one read from the end of the one before |
| Globals.NamesFrom | src/ClassDB/ParsingHTML/AKCocoaGlobalsDocParser.h:17-22 | every reported name lies inside the scanned range, and the names are in order and do not overlap |
| Globals.OrderedStep | src/ClassDB/ParsingHTML/AKCocoaGlobalsDocParser.h:17-22 | in a list of non-empty names each ending no later than the next one starts, any name ends no later than any later name starts |
| Globals.NamesStep | src/ClassDB/ParsingHTML/AKCocoaGlobalsDocParser.h:17-22 | the rule decides on each token with the previous token's text; the scan then goes on with this token as the previous one |
| Globals.NamesAreChoice | src/ClassDB/ParsingHTML/AKCocoaGlobalsDocParser.h:17-22 | the scan's names are the rule's selection from the list of the section's non-markup tokens |
| Globals.ChosenAreAccepted | src/ClassDB/ParsingHTML/AKCocoaGlobalsDocParser.h:17-22 | every selected name is one of the tokens, with its text, and the rule accepted it after the text of the token just before it |
| Globals.ChosenIndex | src/ClassDB/ParsingHTML/AKCocoaGlobalsDocParser.h:17-22 | gives the position in the token list of each selected name and shows the rule accepted it there |
| Globals.AcceptedAreChosen | src/ClassDB/ParsingHTML/AKCocoaGlobalsDocParser.h:17-22 | every token the rule accepts after the token before it is selected |
| Globals.ShiftIndex | src/ClassDB/ParsingHTML/AKCocoaGlobalsDocParser.h:19-22 | a token and the token before it are the same whether counted in the list or in its tail |
| Globals.FirstIsTextToken | src/ClassDB/ParsingHTML/AKCocoaGlobalsDocParser.h:8-14 | the token the window reads is a word or punctuation byte that opens no markup, named by its buffer text |
| Globals.NamesAreTextTokens | src/ClassDB/ParsingHTML/AKCocoaGlobalsDocParser.h:8-14 | every reported name is such a token, with the text the token buffer holds for it |
| Globals.NamesInSection | src/ClassDB/ParsingHTML/AKCocoaGlobalsDocParser.h:17 | every name reported for a section lies inside it, and any two names are disjoint and in document order |
| Globals.WindowStep | src/ClassDB/ParsingHTML/AKCocoaGlobalsDocParser.h:17-22 | after the rule decides on the current token, the names so far plus those after it are all the names |
| Globals.CocoaGlobalsDocParser.constructor | src/ClassDB/ParsingHTML/AKCocoaGlobalsDocParser.h:14-22 | a new globals parser has its own `_prevToken` buffer, separate from `_token`, and an empty window |
| Globals.CocoaGlobalsDocParser.ReadCurrent | src/ClassDB/ParsingHTML/AKCocoaGlobalsDocParser.h:19-22 | the next non-markup token becomes current, and its span starts no earlier than the end of the previous span; at the end the current span is empty, at the cursor |
| Globals.CocoaGlobalsDocParser.ShiftWindow | src/ClassDB/ParsingHTML/AKCocoaGlobalsDocParser.h:17-22 | the new previous text and span are the old current text and span |
| Globals.CocoaGlobalsDocParser.Record | src/ClassDB/ParsingHTML/AKCocoaGlobalsDocParser.h:17-22 | the current token is appended to the names exactly when the rule accepts the window's pair of texts |
| Globals.CocoaGlobalsDocParser.ScanStep | src/ClassDB/ParsingHTML/AKCocoaGlobalsDocParser.h:17-22 | one step of the scan moves the cursor forward and keeps the names still to come consistent with the specification |
| Globals.CocoaGlobalsDocParser.StartScan | src/ClassDB/ParsingHTML/AKCocoaGlobalsDocParser.h:17 | the scan starts at the section's start with an empty window and reads the first token |
| Globals.CocoaGlobalsDocParser.ParseNamesOfGlobalsInFileSection | src/ClassDB/ParsingHTML/AKCocoaGlobalsDocParser.h:16-22 | the names reported for bytes [lo, hi) of the original file are exactly the specified names of that section |

## Left out

- `-applyParseResults` and everything that builds database nodes
  (`AKDatabaseNode`, topics, subtopics, docs): it lies outside the parser
  core.
- Promoting minor sections to major sections after parsing: it is done by
  `AKCocoaBehaviorDocParser`, which is not part of this model.
- De-HTMLizing section names: the source defers it to display time. Names
  here are the raw bytes.
- Reading files, `NSData`/`NSMutableData`, logging and
  `NSObject+AppKiDo.h`: these are I/O. A file's bytes are a parameter.
- `AKMemberDoc.h` is not part of this model.
- `AKParser.h` is not part of this model. `AKParserTokenBufferSize` is
  fixed at 1024. The string terminator in the token buffers is not stored;
  the buffer length lives in a separate field.
- The rule that picks a global's name from the pair (previous token,
  current token). Its body is not visible, so it is a function parameter.
- Panther's `h2`/`h4` dialect: only the `h1`/`h2`/`h3` scheme and the
  Tiger markers are modelled.
- Two headings that start at the same offset cannot happen in a sequential
  scan, so no behaviour for that case is modelled.
- Headings.HeadingAt: an opening heading tag with no matching closing tag
  before the end of the data is dropped, and the scan resumes just after
  its `<`. No `MalformedHeading` anomaly is recorded for it, because the
  model keeps no anomaly log.
- Headings.HeadingsFrom: the model does not state that every well-formed
  heading in the data is reported. A heading nested inside another heading's
  name is skipped, because the scan resumes at the closing tag.
- Kludge.KludgeMach4At, Kludge.KludgeSpanAt and the `TigerHeadings`
  lemmas cover names that hold no `<`. A name with markup inside it is
  still rewritten by the pass, but the model states nothing about it.
- TigerHeadings.SpanIsRootHeading: only a plain `<span>` is covered, with
  `>` right after the tag name. A `<span` with attributes also becomes an
  `h1` tag, but no lemma says where its name starts.
- Sections.Accepts: the source bodies that handle out-of-order headings
  are not part of this model, so the model fixes a policy. A second `h1`
  is ignored and closes nothing. An `h2` before the first `h1` is ignored.
  An `h3` with no `h2` open is ignored rather than placed under the root.
  `Sections.Open` applies only accepted headings.
- Headings.BuildOutlineIsTree: a range ends where the next accepted
  section at its depth or shallower starts, not at the next heading. A
  heading the tree ignores, such as a later `h1`, ends no range.
- Scanner.TokenText: a token longer than `MaxTokenLen` bytes is cut to
  fit the buffer, and the cursor still moves past the whole token. No
  `TokenTooLong` error is signalled for it.
- Globals.CocoaGlobalsDocParser.ParseNamesOfGlobalsInFileSection: it takes
  the section as a byte range of the original file, not as an
  `AKFileSection` object.
- Globals.CocoaGlobalsDocParser.ReadCurrent: at the end of the section it
  sets the current span to an empty span at the cursor. What the source
  leaves in `_currTokenStart`/`_currTokenEnd` there is not visible.
