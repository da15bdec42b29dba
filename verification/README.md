# Proofs about the ceasy core

This project models the stateful core of the ceasy C framework in Dafny and proves properties
of it. `dafny verify dfyconfig.toml` checks everything. The pieces stack as they do in the
framework:

| files | what they model |
|---|---|
| `Texts`, `Numbers`, `OwnedStrings` | string views, decimal parsing, growable strings whose arguments may be slices of themselves (`src/string/string.c`) |
| `GrowableArray`, `Templates`, `TemplateParser`, `TemplateTheorems`, `TemplateForms` | the template compiler (`src/view/template.c`), a printer for template trees, why the two agree, and the language by its characters: names, tags, white space, errors |
| `Views`, `Outputs`, `Renderer`, `RenderTheorems`, `ViewMeanings`, `Layouts`, `Escaping` | the interpreter of compiled templates and layouts (`src/view/view.c`), its meaning on template trees, what names, values, sections and partials show, and what HTML escaping (`src/rendering/html.c`) guarantees for whole pages |
| `ViewCompiler`, `BundleRendering`, `CLiterals` | the checks of the view compiler, what they buy at run time, and the C literals it emits (`tools/ceasy_cli/src/view_compiler.c`) |
| `Requests`, `RequestParser`, `RequestPrinting`, `RequestFields` | the request parser (`src/http/request.c`) and the read loop around it (`src/ceasy.c`), requests read back as they were printed, and what each header field and each malformed head leads to |
| `SlotTables`, `StringMaps`, `MapRuns` | the open-addressing map with its ownership of memory (`src/collection/string_map.c`) |
| `SessionCodec`, `SessionFormat`, `SessionModel`, `SessionLaws`, `SessionOverlaps`, `Sessions` | the session record format, byte by byte, the session life cycle and what its operations mean to a caller, and sessions taking turns on one store (`src/session/session.c`) |
| `ArenaModel`, `ArenaLaws`, `ArenaRuns`, `ArenaMarks`, `ArenaOrders`, `Arenas`, `ArenaReplays` | the arena allocator as a value, what it gives and keeps in numbers, over whole runs with nested marks, with marks in any order, as a linked list changed in place, and whole runs of that list (`src/memory/arena.c`) |

Code that loops and changes things in place is a method on arrays or a class; each such method
is proved against a function, and the promises are proved about that function.

Conventions. A `char` stands for one C `char`; the theorems hold for every `char`. `size_t`,
`uint64_t` and `int64_t` limits are written out. What the program cannot decide is a parameter:
the hash function and the digest (any function, the digest injective where a theorem needs it),
the clock, the random tokens, the cuts the network makes between chunks, whether the system
grants an arena block. An allocator, the database and libsodium each carry a flag that says whether
they may refuse; where none does, the contracts leave a method no way to report a failure the code
would not report.

Facts of the code that differ from what one would expect, or from what the repository's
documentation says:

- The project README promises that the layout shows the page at `{{yield}}`. A page that renders
  to nothing has no buffer, and then `{{yield}}` fails (`src/view/view.c:454-459`).
  `Layouts.LayoutKeepsPromise` says for every layout when the promise holds, and
  `Layouts.LayoutShowsPageIffNotEmpty` that it is missed only by an empty page in a layout that
  comes to a yield, at top level or in a section; rendering then ends at that yield. The smallest
  sources for which it fails are in `Layouts.EmptyPageBreaksLayout`.
- `string_copy` of an empty view into a string without a buffer writes its terminator through a
  null pointer (`src/string/string.c:655`). `OwnedStrings.OwnedString.Copy` ends in `NullWrite` in
  that case and in no other.
- A rejected session record leaves the entries decoded before the error among the session's values
  (`src/session/session.c:256-260`). `SessionCodec.DecodedNothing` says exactly which records leave
  nothing, and `SessionCodec.RejectedRecordKeepsEntries` is an instance of one that leaves something.
- Two overlapping requests can write a deleted session record back:
  `SessionOverlaps.OverlapRestoresRecord` is a run in which nothing fails and the record that comes
  back holds the values of the second request. When a record is deleted, it is gone for good
  exactly when no session has loaded its token and still holds it, not due for a new one
  (`SessionOverlaps.GoneForGoodIffNoneHolds`, over all interleavings before and after);
  `SessionOverlaps.StaysAwayIffNoneRevives` names the commits that write it back.
- Restoring arena marks out of order is accepted (`src/memory/arena.c:258-280`). As
  `include/ceasy/memory/arena.h:59` says, it discards what was handed out since the mark was taken.
  For a younger mark restored after an older one, that includes memory handed out between the two
  restores, which the next allocation can overlap: `ArenaMarks.UnnestedMarksOverlap` is an instance.
  `ArenaMarks.NextAllocationMeets` says exactly which earlier memory the next
  allocation shares, `ArenaOrders.CutIsDiscarded` that all such memory is discarded by the restore,
  and `ArenaOrders.AnyOrderStaysSafe` that memory not discarded stays safe in every order.
- An arena mark is refused after resets unless their number is a multiple of 2^64 - 1, the period
  of the generation counter: `ArenaModel.OldGenerationDiffers`.

## Model

| member | source | states |
|---|---|---|
| Texts.Find | src/string/string.c:91-111 | the search loop finds the first occurrence, or that there is none |
| Texts.FindInExtension | src/http/request.c:5-20 | a found occurrence stays the first one however the text is extended |
| Texts.TrimPadded | src/string/string.c:172-198 | trimming takes the white space around a word and nothing of the word |
| Numbers.ParseDigits | src/string/string.c:255-270 | accepts exactly non-empty digit strings whose value is within the limit, and the 64-bit accumulator never overflows |
| Numbers.ParseUnsigned | src/string/string.c:238-272 | sign and digits are split as the code does, and the magnitude is exact |
| Numbers.ParseInt64 | src/string/string.c:274-294 | accepts exactly an optional sign and digits whose value lies in [-2^63, 2^63 - 1], and returns that value |
| Numbers.IntegerOfDecimal | src/view/view.c:372-386 | the decimal text of an integer reads back as that integer |
| Numbers.ValueByPlace | src/string/string.c:255-270 | digits count by their place, and a plus or minus sign in front of them as usual |
| Numbers.ParsePrintedInt64 | src/string/string.c:274-294 | parsing undoes decimal printing for every 64-bit integer |
| Numbers.ParseSize | src/string/string.c:307-317 | accepts exactly unsigned digit strings that fit `size_t` |
| OwnedStrings.SliceCuts | src/string/string.c:151-163 | a slice of a view reads as the cut-down slice of what the view reads |
| OwnedStrings.DoubledBounds | src/string/string.c:454-461 | growth gives at least what was asked for, otherwise less than twice as much, and never overflows |
| OwnedStrings.OwnedString.Reserve | src/string/string.c:441-498 | the text and its terminator survive growth, in place or by a move, which can fail only where memory may be refused or the size limit is reached, and a failed growth changes nothing |
| OwnedStrings.OwnedString.ReserveFor | src/string/string.c:359-385 | a slice of the string's own buffer reads the same after growth, although a buffer that moved is overwritten |
| OwnedStrings.OwnedString.Append | src/string/string.c:500-522 | the text becomes old text plus what the view read before the call, whether or not the view is a slice of the string and whether or not the buffer moves |
| OwnedStrings.ShiftedSlice | src/string/string.c:625-634 | after the shift that makes room in front, a slice of the text is found as far to the right as the shift went |
| OwnedStrings.OwnedString.Prepend | src/string/string.c:609-637 | the same as Append, in front |
| OwnedStrings.OwnedString.Copy | src/string/string.c:639-657 | the text becomes what the view read before the call; a null write happens exactly for an empty view and a string without a buffer |
| OwnedStrings.OwnedString.Remove | src/string/string.c:691-708 | removes exactly the given stretch, cut at the end of the text, and keeps the terminator |
| OwnedStrings.PiecesJoinBack | src/string/string.c:710-759 | the pieces between the replaced occurrences, joined by the searched text, are the text |
| OwnedStrings.PiecesAreClean | src/string/string.c:710-759 | replacing all leaves no occurrence unreplaced |
| OwnedStrings.Replaced | src/string/string.c:710-759 | a text without the searched one stays; else the part in front of its first occurrence, the replacement, and the rest, in which later occurrences are replaced in the same way if all are to be |
| OwnedStrings.OwnedString.Advance | src/string/string.c:723-750 | one round appends what lies in front of the leftmost occurrence, then the replacement, or all that is left |
| OwnedStrings.OwnedString.Round | src/string/string.c:723-750 | so what is built and what is left always make up the replaced text, and at the end it is complete |
| OwnedStrings.OwnedString.ReplaceBuild | src/string/string.c:710-759 | the text becomes its pieces joined by the replacement, also when search and replacement are slices of the string; failure changes nothing |
| GrowableArrays.GrowableArray.Push | src/view/template.c:125-173 | appends one item, doubling the block; fails only where the block is refused or the doubled size would overflow, and then changes nothing |
| TemplateParser.CheckVariablePath | src/view/template.c:60-84 | the scanning loop accepts exactly identifiers and dotted pairs of them |
| TemplateParser.CheckViewPath | src/view/template.c:86-123 | the scanning loop accepts exactly slash-separated valid segments |
| TemplateParser.ReadTag | src/view/template.c:238-287 | a trimmed tag is classified as the branch chain of the parser does |
| TemplateParser.Classify | src/view/template.c:238-287 | a tag that is accepted can be printed and read again |
| TemplateParser.ApplyTag | src/view/template.c:259-306 | pushes, opens a section, or closes the innermost one and patches its jump in place, as the one-token step says, with the same errors |
| TemplateParser.ParseText | src/view/template.c:204-231 | emitting the text in front of a tag does not change what the parse comes to |
| TemplateParser.ParseTag | src/view/template.c:232-307 | neither does acting on a tag, and an error is the error of the parse |
| TemplateParser.ParseNext | src/view/template.c:204-307 | one turn of the loop, text and tag, keeps the outcome of the parse or reports its error |
| TemplateParser.Parse | src/view/template.c:183-317 | the loop with its back-patching computes the specified program or error; only an arena that may refuse memory, or a source too long for any memory, can make it fail otherwise |
| TemplateTheorems.ParseIsLexThenRun | src/view/template.c:204-316 | parsing succeeds exactly when reading all tokens does and running them leaves no section open |
| TemplateTheorems.RunForest | src/view/template.c:259-306 | the tokens of any forest of nodes run to its flattening, jumps included |
| TemplateTheorems.RunIsForest | src/view/template.c:259-306 | a token run that closes all sections comes from a forest |
| TemplateTheorems.ParseIsFlattening | src/view/template.c:183-317 | a source compiles to a program exactly when it is the token text of some tree and the program is that tree's flattening |
| TemplateTheorems.LexPrinted | src/view/template.c:204-287 | printed tokens read back as themselves |
| TemplateTheorems.LexedPrintable | src/view/template.c:204-287 | whatever the parser reads is printable: texts non-empty, not adjacent, free of opening braces |
| TemplateTheorems.ParsePrinted | src/view/template.c:183-317 | parsing the printed form of a well-formed tree yields its flattening |
| TemplateTheorems.ParseReprint | src/view/template.c:183-317 | every accepted program comes from a well-formed tree whose printed form compiles to the same program |
| TemplateForms.VariablePathIsDottedName | src/view/template.c:40-84 | variable names are letters, digits, underscores and dots, every part between dots starting with a letter or underscore |
| TemplateForms.ViewPathIsSlashedName | src/view/template.c:86-123 | view paths are letters, digits, underscores, hyphens and single slashes, none at either end |
| TemplateForms.PrintedForms | src/view/template.c:238-287 | the source text of every kind of tag, of a section with its body, and of trees one behind the other |
| TemplateForms.ParseSpaced | src/view/template.c:232-287 | a well-formed tree written with whatever white space in its tags compiles to exactly its flattening |
| TemplateForms.TagErrors | src/view/template.c:238-287 | behind any well-formed forest each malformed tag is reported as what it is, where its braces open |
| TemplateForms.NestingErrors | src/view/template.c:232-270 | so are a tag that is not closed and a section closed by another name |
| TemplateForms.UnclosedSectionFails | src/view/template.c:308-316 | a section that is never closed is reported at the end of the source |
| Renderer.AppendEscaped | src/rendering/html.c:3-34 | the loop appends the escaped text |
| Renderer.RenderVariable | src/view/view.c:372-386 | appends the escaped value of the path, or reports the unknown or unshowable value |
| Renderer.RenderInstruction | src/view/view.c:426-524 | one turn of the loop emits what the instruction means and moves on as it says |
| Renderer.RenderProgram | src/view/view.c:415-526 | the loop emits exactly what the range of the program means, with the same error; it ends for every partial graph |
| Renderer.RenderItems | src/view/view.c:496-511 | a collection section renders its body once for each item with the item as scope |
| Renderer.RenderPartial | src/view/view.c:394-413 | a partial renders one level deeper, up to the nesting limit, keeping the scope and without the yielded page |
| Renderer.RenderView | src/view/view.c:528-543 | renders a loaded view from its start |
| Renderer.RenderPage | src/view/view.c:545-584 | renders the page to a buffer of its own and that into the layout |
| RenderTheorems.RunWholeIsEval | src/view/view.c:415-526 | for every tree, data, library and depth, the jump program renders as the recursive evaluator on the tree, text and error alike |
| RenderTheorems.RunForestIsEval | src/view/view.c:426-524 | so does every stretch of a program that lays out a forest, in whatever context |
| RenderTheorems.RenderViewIsEval | src/view/view.c:528-543 | so does every view of a library |
| RenderTheorems.RenderSourcesIsEval | src/view/view.c:528-543 | end to end: compiling a set of sources and rendering one of them gives what the trees the sources spell evaluate to |
| RenderTheorems.SourcesSpell | src/view/template.c:183-317 | every set of sources spells some trees, so the end-to-end theorem always applies |
| RenderTheorems.ParsedProgramsNest | src/view/view.c:422-426 | for compiled sources neither the program check nor the jump check ever fires |
| ViewMeanings.ItemFieldIsShown | src/view/view.c:331-337 | inside an item, a name that is one of its fields shows that field, whatever the page calls by the same name |
| ViewMeanings.PageValueIsShown | src/view/view.c:338-343 | any other undotted name shows the value of the page, strings with the five references, integers in decimal, booleans as words, an empty value as nothing; an unknown name, a record and a collection are errors |
| ViewMeanings.DottedFieldIsShown | src/view/view.c:344-352 | a dotted name shows the field of a record of the page in every scope, and is an error where there is none |
| ViewMeanings.SectionShows | src/view/view.c:466-511 | blank values hide a section and show an inverse one, others the other way round; a collection shows the body once for each item in order with the item as scope, anything else once in the same scope |
| ViewMeanings.UnknownSectionFails | src/view/view.c:471-480 | a section over an unknown name is an error |
| ViewMeanings.ForestIsSequel | src/view/view.c:426-524 | a forest shows what its nodes show, one after the other, up to the first error |
| ViewMeanings.InliningKeepsMeaning | src/view/view.c:394-413 | replacing every partial by the tree it names, wherever it stands, leaves what a template shows as it was, unless that comes to the nesting limit |
| ViewMeanings.PartialFails | src/view/view.c:394-413 | how a partial fails: a bad path, a missing or broken view, the 64th nesting, and a yield inside it, with or without a page |
| ViewMeanings.ListIsShown | src/view/view.c:528-543 | from source text to page: `{{#list}}{{field}}{{/list}}` shows that field of every item in order, even where the page has a value of the same name |
| ViewMeanings.PageStandsInLayout | src/view/view.c:545-584 | from source text to page: in the layout `before{{yield}}after` a page that renders to something stands between the two texts, an empty one ends in an error behind the first, and a page that fails leaves only its error |
| ViewMeanings.PageWithoutLayout | src/view/view.c:563-578 | without a layout a page stands alone, and with one that does not compile it is an error |
| ViewMeanings.ViewFails | src/view/view.c:237-277 | how rendering a view fails before it starts: a bad path, a missing view, a source that does not compile |
| Layouts.RenderSourcesPageIsEval | src/view/view.c:545-584 | end to end: compiling a set of sources and rendering a page of them in the layout gives what the trees evaluate to, an empty page leaving nothing to yield |
| Layouts.ParsedPagesNest | src/view/view.c:422-426 | neither check for malformed programs fires in pages and layouts compiled from sources |
| Layouts.YieldsDecide | src/view/view.c:454-459 | without a page, an evaluation fails with the yield error exactly where it comes to a yield, in sections too, and what it has written is what stands in front of the page with one; otherwise it is the same |
| Layouts.LayoutKeepsPromise | src/view/view.c:545-584 | for every page and layout, rendering is what the documentation promises exactly when the page fails, is not empty, or the layout evaluates alike with no page and an empty one |
| Layouts.LayoutShowsPageIffNotEmpty | src/view/view.c:454-459 | a page is as promised unless it is empty and the layout comes to a yield; then rendering fails there, with what the promised page begins with |
| Layouts.EmptyPageBreaksLayout | src/view/view.c:454-459 | the sources of an empty page and of a layout that only yields: the page renders, the promise is the empty text, and rendering in the layout fails |
| Escaping.EscapedReadsBack | src/rendering/html.c:3-34 | reading the five character references of an escaped text gives the text back |
| Escaping.EscapedIsClean | src/rendering/html.c:3-34 | an escaped text contains no angle bracket and no quote |
| Escaping.EvalKeepsMarkup | src/view/view.c:415-526 | a tree evaluates to the markup characters, in order, and to the error of the same tree with every value left out, through sections, items, partials and yields |
| Escaping.MarkupComesFromTemplates | src/view/view.c:528-543 | end to end, for all sources: the markup of a rendered view is that of its templates, whatever the values |
| Escaping.PageMarkupComesFromTemplates | src/view/view.c:545-584 | the same for a page in its layout |
| ViewCompiler.Find | tools/ceasy_cli/src/view_compiler.c:138-153 | finds the first view of that name |
| ViewCompiler.Visit | tools/ceasy_cli/src/view_compiler.c:283-308 | the depth-first search writes the colours in place, turns every view it finishes black behind its partials, and fails only with a cycle at hand; it ends because unvisited views become fewer |
| ViewCompiler.BackEdge | tools/ceasy_cli/src/view_compiler.c:288-290 | meeting a grey view closes a cycle |
| ViewCompiler.RankedHasNoCycle | tools/ceasy_cli/src/view_compiler.c:306-308 | no cycle passes through views that are finished in order |
| ViewCompiler.ValidateCycles | tools/ceasy_cli/src/view_compiler.c:310-324 | returns true exactly when the graph of partial references has no cycle, unless the state array is refused |
| ViewCompiler.ValidatePartials | tools/ceasy_cli/src/view_compiler.c:264-281 | returns true exactly when every partial names a view |
| ViewCompiler.PartialsAre | tools/ceasy_cli/src/view_compiler.c:264-281 | what the partial check asks: every partial instruction has the name of some view |
| ViewCompiler.EdgesAre | tools/ceasy_cli/src/view_compiler.c:283-308 | what the cycle check follows: a view leads to another exactly when one of its partials has that name |
| BundleRendering.ChainLength | tools/ceasy_cli/src/view_compiler.c:310-324 | without a cycle, no chain of nested partials is longer than the number of views |
| BundleRendering.AcceptedBundleRenders | src/view/view.c:394-413 | in a bundle the view compiler accepts, a view from which no chain of partials is longer than 65 never reaches the nesting limit or a missing partial, for any data |
| BundleRendering.AcceptedBundleRendersPages | src/view/view.c:545-584 | the same for a page in its layout |
| BundleRendering.SmallBundleRenders | src/view/view.c:394-413 | so it is for every view of an accepted bundle of at most 65 views, alone and in the layout |
| BundleRendering.TowerExceeds | src/view/view.c:394-413 | where 65 views each include the next one, rendering the first reaches the limit |
| BundleRendering.AcceptedTowerExceeds | src/view/view.c:394-413 | for every n of 66 or more there is a bundle of n views, with names of at most 20 characters, that the view compiler accepts and that reaches the limit |
| BundleRendering.SafeSizes | tools/ceasy_cli/src/view_compiler.c:264-324 | so the sizes at which every accepted bundle renders are exactly those up to 65 |
| CLiterals.EmitByte | tools/ceasy_cli/src/view_compiler.c:331-355 | one byte is appended as its escape, and any append may fail |
| CLiterals.EmitLiteral | tools/ceasy_cli/src/view_compiler.c:326-358 | the loop appends the quoted escapes of all bytes; it fails only where an append is refused, and keeps what was there before |
| CLiterals.OctalRoundTrip | tools/ceasy_cli/src/view_compiler.c:345-348 | a three-digit octal escape is read back as its byte whatever digits follow |
| CLiterals.LiteralRoundTrip | tools/ceasy_cli/src/view_compiler.c:326-358 | reading the literal by the escape rules of section 6.4.4.4 of ISO/IEC 9899:2018 stops at its closing quote and gives the bytes back, for every value and every text behind it |
| Requests.VerdictStable | src/http/request.c:179-204 | once the parser answers anything but incomplete, every extension of the buffer gets the same answer and the same request |
| Requests.IncompleteIsShort | src/http/request.c:179-204 | an incomplete request is shorter than the buffer, so a full buffer is always decided |
| Requests.BodyFraming | src/http/request.c:160-204 | the body is exactly the announced octets behind the blank line (section 6.3 of RFC 9112) |
| RequestParser.RequestHeader | src/http/request.c:81-93 | returns the value of the first header of that name, in any letter case |
| RequestParser.TransferIsChunked | src/http/request.c:34-52 | the loop over the list finds the chunked coding in any position and letter case |
| RequestParser.NextLine | src/http/request.c:128-142 | the next line end of the buffer is that of the header section until the blank line |
| RequestParser.ReadHeaderFields | src/http/request.c:128-158 | the loop fills the header array with exactly the header lines, in order, up to the limit |
| RequestParser.ParseHeaders | src/http/request.c:94-177 | the request line, headers and framing are those of the header section |
| RequestParser.Parse | src/http/request.c:179-204 | the parser computes the specified verdict |
| RequestParser.FullBufferIsDecided | src/ceasy.c:170-179 | the final too-large answer of the read loop is never given |
| RequestParser.VerdictOnPrefix | src/ceasy.c:154-179 | a verdict on the bytes so far is the verdict on all of them |
| RequestParser.ReadRequest | src/ceasy.c:154-179 | however the network cuts the bytes into chunks, the answer depends on the bytes alone |
| RequestPrinting.LinesOfJoin | src/http/request.c:128-145 | joining plain lines and splitting them gives the lines back |
| RequestPrinting.BlankLineBehindJoin | src/http/request.c:179-190 | the header section of a printed request ends where it was printed to end |
| RequestPrinting.ParsePrinted | src/http/request.c:179-204 | a printed request followed by anything parses to its method, path, query, headers and body |
| RequestPrinting.TargetIs | src/http/request.c:117-126 | path and query are the parts of the target around its first question mark |
| RequestPrinting.JoinOfLines | src/http/request.c:128-145 | splitting a header section into lines loses nothing |
| RequestPrinting.HeadHasNoEmptyLine | src/http/request.c:128-145 | no line of a header section is empty, so the loop that reads fields reads all of them |
| RequestPrinting.AcceptedIsWellFormed | src/http/request.c:94-204 | whatever is accepted is a verb, a target that starts with a slash and the version, at most 64 header lines with a name before the first colon, the blank line and the announced body, and the request says just that, one header field for each header line |
| RequestFields.FieldIsFirst | src/http/request.c:78-92 | looking a header up gives the value of the first field of that name, letters in any case, and nothing if there is none |
| RequestFields.ChunkedIsListed | src/http/request.c:34-53 | a transfer encoding is chunked exactly when a stretch between commas, trimmed, reads so in any case |
| RequestFields.HeadIs | src/http/request.c:94-145 | the head that is read back, by its characters: method, space, target, space, `HTTP/1.1`, and for each field a line end, its name, colon, space and value |
| RequestFields.BodyIsRead | src/http/request.c:94-204 | a printed request with a Content-Length of at most 1048576, whatever stands around that field, is read back in method, path, query, fields, content type and body, and is incomplete until the body is there |
| RequestFields.NoBodyIsRead | src/http/request.c:94-204 | without a Content-Length it is complete at its blank line |
| RequestFields.FieldsAreRefused | src/http/request.c:160-176 | chunked bodies are unsupported; else a length that is no number or beyond 64 bits is a bad request, and one above 1048576 too large |
| RequestFields.MalformedIsRefused | src/http/request.c:94-190 | without a blank line 16383 bytes are undecided and more are bad; a head above 16384 bytes, with a bad request line, a line without a name and colon, or more than 64 fields is a bad request whatever follows |
| SlotTables.MaskIsRemainder | src/collection/string_map.c:49-58 | masking with a power of two less one is the remainder |
| SlotTables.SearchedMeansAbsent | src/collection/string_map.c:49-78 | a search that meets a never-used slot, or has gone all round, has missed no key |
| SlotTables.FillKeepsProbed | src/collection/string_map.c:220-254 | filling a free slot on the key's way keeps keys unique and every key reachable, for any hash function |
| SlotTables.BuryKeepsProbed | src/collection/string_map.c:444-461 | so does leaving a tombstone |
| SlotTables.EmptyExists | src/collection/string_map.c:150-180 | below the load threshold there is a never-used slot, so probing ends |
| SlotTables.OccupancyIsSize | src/collection/string_map.c:490-490 | the number of occupied slots is the size of the represented map |
| SlotTables.GoodFill | src/collection/string_map.c:220-254 | adding an entry keeps the table a true picture of the map, its counts and its owned memory |
| SlotTables.GoodBury | src/collection/string_map.c:444-461 | so does removing one |
| SlotTables.GoodMove | src/collection/string_map.c:111-148 | moving all entries to a fresh table keeps every entry and its memory and leaves no tombstone |
| StringMaps.StringMap.FindIndex | src/collection/string_map.c:49-78 | finds the slot of the key if the map has it, otherwise the first tombstone on its way; the probe loop ends |
| StringMaps.StringMap.Rehash | src/collection/string_map.c:111-148 | keeps the contents and the ownership, clears all tombstones; a refused allocation changes nothing |
| StringMaps.StringMap.PrepareCapacity | src/collection/string_map.c:156-180 | afterwards there is room: with one more entry less than seven tenths of the slots are in use; it fails only for want of memory or at the end of the address space |
| StringMaps.StringMap.SetInternal | src/collection/string_map.c:182-254 | sets the entry or changes none, and the value's memory is the map's or freed, never lost and never freed twice |
| StringMaps.StringMap.SetString | src/collection/string_map.c:357-359 | stores copies of its own; a failed set leaves contents and live memory as they were |
| StringMaps.StringMap.SetInt | src/collection/string_map.c:335-343 | stores 0 and 1 as booleans and everything else as an integer |
| StringMaps.StringMap.Get | src/collection/string_map.c:361-371 | answers what the plain map holds |
| StringMaps.StringMap.Remove | src/collection/string_map.c:444-461 | removes exactly that key and frees exactly its memory |
| StringMaps.StringMap.Clear | src/collection/string_map.c:463-475 | empties the map and frees the memory of every entry |
| StringMaps.StringMap.Destroy | src/collection/string_map.c:477-488 | leaves nothing of the map's memory live |
| MapRuns.EntriesAreContents | src/collection/string_map.c:494-509 | the entries of the slots, in any layout, are each key of the map once with its value |
| MapRuns.NextEntry | src/collection/string_map.c:494-509 | the iterator visits the entries of the slots in order |
| MapRuns.Obey | src/collection/string_map.c:326-488 | one command changes the contents and answers as on a plain map |
| MapRuns.Follow | src/collection/string_map.c:182-488 | one command of a run keeps the table a picture of the plain map and its size within what the run so far allows |
| MapRuns.Replay | src/collection/string_map.c:182-488 | over any run of commands, any hash function and any pattern of refused allocations, the table answers as a plain map does, and nothing is live after it is destroyed; where no memory is refused, no set is, up to the end of the address space |
| SessionCodec.ReadBigEndian | src/session/session.c:63-94 | reading undoes the big-endian writing of 2, 4 and 8 byte integers |
| SessionCodec.DecodeEncode | src/session/session.c:96-215 | decoding an encoding consumes every byte and gives the entries back, negative integers included |
| SessionCodec.WriteEntry | src/session/session.c:186-208 | one entry is appended in its encoding, or cannot be encoded, or memory is refused |
| SessionCodec.Serialize | src/session/session.c:174-215 | succeeds exactly for maps whose encoding fits 16384 bytes and whose values can be encoded, whatever the slot layout, unless memory is refused |
| SessionCodec.Deserialize | src/session/session.c:96-150 | succeeds exactly for records that decode, and leaves what was decoded in the map either way, unless memory runs out |
| SessionCodec.RecordReadsBack | src/session/session.c:96-215 | the record of any map of strings, 64-bit integers and booleans decodes to that map |
| SessionFormat.RecordLayout | src/session/session.c:174-215 | a record is the byte 1, the number of entries in two bytes, and each entry: key length in two bytes, key, type byte 1, 2 or 3, and a text behind its length in four bytes, eight bytes of two's complement, or 0 or 1 |
| SessionFormat.AcceptedIsEncoding | src/session/session.c:96-150 | the decoder accepts exactly the encodings of storable entries: no byte too many or too few, no other version, type or truth value |
| SessionCodec.DecodedNothing | src/session/session.c:96-150 | for every record, accepted or not: it leaves no entry exactly when its length or version is wrong, it announces none, or its first entry is broken |
| SessionCodec.RejectedRecordKeepsEntries | src/session/session.c:256-260 | a record with a good entry and a bad one is rejected and leaves the good one |
| SessionModel.ApplySafe | src/session/session.c:274-421 | every operation keeps the store safe: records only of issued tokens, none under a dropped digest |
| SessionModel.DroppedStaysDropped | src/session/session.c:338-421 | in every serial run of requests with any failures, a dropped record is never in the store again |
| SessionModel.RegeneratingCommitDrops | src/session/session.c:361-421 | a successful commit after regenerate drops the old token's record and changes to the new token |
| SessionModel.EndsDrops | src/session/session.c:338-421 | a successful destroy, and a successful commit after regenerate, drop the record of the token |
| SessionModel.EndedForGood | src/session/session.c:338-421 | after a successful destroy, or regenerate and commit, the record is absent after whatever the request still does and after all later requests |
| SessionModel.DestroyImpliesRegenerate | src/session/session.c:338-359 | in every reachable state a destroyed session is due for a new token |
| SessionModel.CommitStores | src/session/session.c:361-421 | a successful commit stores the serialized values under the token of the sent cookie |
| SessionModel.ServeKeepsOthers | src/session/session.c:217-421 | requests with other cookies leave a token's record as it is |
| SessionModel.CommittedReadsBack | src/session/session.c:217-267 | after a successful commit and any requests with other cookies, a request with the new cookie reads exactly the committed values if it comes before they expire; from then on it has no values and no token, and its row is gone |
| SessionLaws.RunReads | src/session/session.c:274-359 | over any run of operations on a loaded session up to its commit, with any failures, the values are those of a plain map, and what a commit will find to do follows from which operations were done |
| SessionLaws.LookupAnswers | src/session/session.c:283-311 | at every point of such a run a lookup answers what that map holds |
| SessionLaws.SetAnswers | src/session/session.c:274-308 | a set is refused exactly for a string under the empty key and for want of memory, and then changes nothing |
| SessionLaws.LoadFinds | src/session/session.c:217-267 | what a load finds when nothing fails: the values and the token of a usable record; of an expired or broken one no token, and its row is deleted; nothing without a cookie or a row |
| SessionLaws.LoadFails | src/session/session.c:236-266 | how a load fails: a store that cannot be asked is reported, so is a token that cannot be copied, and where memory runs out the record is deleted like a broken one |
| SessionLaws.StartsByLoading | src/session/session.c:269-272 | the first operation of a request loads its session, and a commit alone does nothing |
| SessionLaws.CommitWrites | src/session/session.c:361-421 | a commit writes exactly when something changed and the session was not destroyed since; then the record of the sent token is what was serialized, with the time to live from now on, and the record of a replaced token is dropped |
| SessionLaws.CommitFails | src/session/session.c:361-421 | a commit that fails keeps the values and the change to write, and touches no row but those of the old and the new token |
| SessionLaws.RunReadsBack | src/session/session.c:217-421 | what a request did to its values is what the next request with its new cookie finds, whatever comes in between, exactly until the record expires |
| SessionLaws.DeletedIsGone | src/session/session.c:313-320 | a value that a request deletes is missing for the next request with its cookie, and every other value is there |
| SessionLaws.RegeneratedForGood | src/session/session.c:330-421 | a session that is regenerated sends a new token with its next commit, whatever is set, deleted or cleared in between, and the old token's record stays away for good |
| SessionLaws.RenewedForGood | src/session/session.c:330-421 | the same for every run that leaves the commit a token to change and something to write, as a destroy followed by a set |
| SessionLaws.DestroyedIsEmpty | src/session/session.c:338-375 | a destroy that works leaves no values, sends the forgetting cookie and drops the record, and a commit behind it does nothing |
| SessionLaws.LookingChangesNothing | src/session/session.c:361-372 | a request that only looks at its session leaves all records but its own alone and sends no cookie |
| SessionOverlaps.ReturnsIffRevived | src/session/session.c:361-421 | in whatever state a session is, an operation brings a dropped record back exactly when it is a commit of a changed session that still holds the token, is not destroyed or regenerated, and whose write succeeds |
| SessionOverlaps.SafeNeverRevives | src/session/session.c:361-421 | a request alone on the store is never in such a state |
| SessionOverlaps.StaysAwayIffNoneRevives | src/session/session.c:217-421 | in every interleaving of any number of requests, with any failures, a dropped record stays away exactly as long as no request does that |
| SessionOverlaps.StaysAwayIffNoneHolds | src/session/session.c:217-421 | from a given state on, a dropped record stays away in every interleaving exactly when no session holds its token then, loaded and not due for a new one; a run that brings it back can be one that writes the values it should |
| SessionOverlaps.GoneForGoodIffNoneHolds | src/session/session.c:217-421 | so it is in every state that any interleaving of requests reaches from a safe store |
| SessionOverlaps.OverlapRestoresRecord | src/session/session.c:338-421 | from every store with a usable record, two requests that both load it, one destroying and one changing and committing, end with the destroyed record in the store, holding the changed values; the run is one of those the theorems are about |
| Sessions.Context.ReadRecord | src/session/session.c:234-266 | the map and flags after reading a row are those of the model's step, also for expired and rejected rows |
| Sessions.Context.DeleteDigest | src/session/session.c:45-61 | drops the record of the token, or fails where the database or the digest may |
| Sessions.Context.Load | src/session/session.c:217-267 | refines the load step, a failing digest included, which counts as no session; fails only where the database or the memory may |
| Sessions.Context.Set | src/session/session.c:274-308 | refines the set step |
| Sessions.Context.Get | src/session/session.c:283-311 | refines the lookup step and returns what the values hold |
| Sessions.Context.Delete | src/session/session.c:313-320 | refines the delete step |
| Sessions.Context.Clear | src/session/session.c:322-328 | refines the clear step |
| Sessions.Context.RegenerateToken | src/session/session.c:330-336 | refines the regenerate step |
| Sessions.Context.DestroySession | src/session/session.c:338-359 | refines the destroy step |
| Sessions.Context.RenewToken | src/session/session.c:27-43 | keeps the token or takes the fresh one, as the model's token step says |
| Sessions.Context.WriteRecord | src/session/session.c:386-420 | refines the writing step; it fails only for values that cannot be encoded or where memory, database or libsodium may fail |
| Sessions.Context.CommitSession | src/session/session.c:361-421 | refines the commit step, the record it writes decodes to the values, and it fails only for values that cannot be encoded or where memory, database or libsodium may fail |
| ArenaModel.BumpKeepsInv | src/memory/arena.c:169-180 | a bump in a block with room succeeds and keeps the counters the sums over the block list |
| ArenaModel.AddBlockKeepsInv | src/memory/arena.c:101-136 | a new block is linked in behind the current one with room for the request, and the counters stay exact |
| ArenaModel.AllocKeepsInv | src/memory/arena.c:149-180 | allocation keeps the invariant and a failed one changes nothing |
| ArenaModel.ResetKeepsInv | src/memory/arena.c:282-324 | reset keeps the normal blocks, emptied, and the counters exact |
| ArenaModel.ResetKeepsNormalBlocks | src/memory/arena.c:292-314 | a reset keeps exactly the blocks that are not oversized, emptied |
| ArenaModel.AllocGrows | src/memory/arena.c:149-180 | allocation touches no block in front of the current one and only fills that one further |
| ArenaModel.RestoreUndoes | src/memory/arena.c:242-280 | after any work that only grew the arena, restoring the mark brings back use, allocation count and block list up to the marked block |
| ArenaModel.SameAddressAfterRestore | src/memory/arena.c:242-280 | an allocation that fits the marked block gets the address it would have had at the mark |
| ArenaModel.OldGenerationDiffers | src/memory/arena.c:320-323 | a generation comes back after resets exactly when their number is a multiple of the counter's period |
| ArenaModel.StaleMarkRefused | src/memory/arena.c:245-248 | a mark from before such resets is refused |
| ArenaLaws.AllocGives | src/memory/arena.c:101-180 | what an allocation gives, in numbers: the current block behind the next multiple of 16, else the block behind it, else a new one, else nothing, and exactly when each |
| ArenaLaws.AllocChanges | src/memory/arena.c:101-180 | what an allocation changes: bytes of the block that serves it, which becomes current, and the counters; a new block stands right behind the one that was current; nothing when nothing is given |
| ArenaLaws.RestoreGives | src/memory/arena.c:242-280 | which marks a restore takes and what it leaves: the list up to the marked block, set back, with the counters of the mark; another generation, a missing block, one that holds less, and a mark of no block with counts are refused |
| ArenaLaws.ResetKeepsSmallBlocks | src/memory/arena.c:282-324 | after any run from an empty arena a reset keeps exactly the blocks of at most four block sizes, emptied and in order |
| ArenaRuns.RunSafe | src/memory/arena.c:149-324 | over any run of allocations, resets and nested marks and restores, live allocations are aligned, inside the used part of their block, pairwise disjoint and where they were handed out |
| ArenaRuns.RunsStaySafe | src/memory/arena.c:138-324 | every such run from an empty arena ends with live allocations aligned, inside and disjoint |
| ArenaRuns.ScopeLeavesNothing | src/memory/arena.c:200-280 | a restored scope without a reset leaves the arena as at its mark, however scopes nest inside |
| ArenaRuns.ResetOutdatesMarks | src/memory/arena.c:242-324 | restoring across a reset is refused and changes nothing |
| ArenaMarks.RestoreKeepsInv | src/memory/arena.c:250-280 | restoring any mark with exact totals keeps the counters exact, nested or not |
| ArenaMarks.AnyOrderStaysExact | src/memory/arena.c:149-324 | over any run with marks restored in whatever order, the counters are the sums over the block list and the blocks behind the current one are empty |
| ArenaMarks.RunsStayExact | src/memory/arena.c:138-324 | every such run from an empty arena ends with exact counters |
| ArenaMarks.NextAllocationMeets | src/memory/arena.c:149-280 | after any accepted restore, nested or not, the next allocation shares memory with an earlier one exactly when it fits the marked block and the earlier one lies there, reaches behind the aligned mark and starts before the new one ends |
| ArenaMarks.CutsIffMet | src/memory/arena.c:242-280 | some next allocation does so exactly when the earlier one reaches behind the aligned mark in the marked block |
| ArenaMarks.UnnestedMarksOverlap | src/memory/arena.c:258-280 | the smallest instance: a younger mark restored after an older one, and the next allocation inside memory handed out in between |
| ArenaOrders.AnyOrderStaysSafe | src/memory/arena.c:149-324 | over any run with marks restored in whatever order and as often as wished, memory not discarded since stays aligned, inside its block, in place and apart from all other such memory |
| ArenaOrders.RunsStaySafe | src/memory/arena.c:138-324 | every such run from an empty arena ends with the memory not discarded safe |
| ArenaOrders.CutIsDiscarded | include/ceasy/memory/arena.h:59-61 | memory that the next allocation can meet was handed out when or after the mark was taken, and the restore discards it |
| Arenas.LinkedArena.Create | src/memory/arena.c:138-147 | refuses exactly a zero block size, otherwise starts empty |
| Arenas.LinkedArena.AddBlock | src/memory/arena.c:101-136 | linking, counting and refusing are those of the value-level function |
| Arenas.LinkedArena.Alloc | src/memory/arena.c:149-180 | block, offset and new state are those of the value-level function |
| Arenas.LinkedArena.Mark | src/memory/arena.c:200-217 | the mark is that of the value-level function |
| Arenas.LinkedArena.FreeChain | src/memory/arena.c:80-87 | frees every block of the chain once and reads none after freeing it |
| Arenas.LinkedArena.Contains | src/memory/arena.c:219-230 | finds a block exactly when it is in the list |
| Arenas.LinkedArena.CutBehind | src/memory/arena.c:264-269 | the list ends at the marked block with its use set back, and exactly the blocks behind it are freed |
| Arenas.LinkedArena.Recount | src/memory/arena.c:273-278 | the loop counts the list and sums its capacities |
| Arenas.LinkedArena.Restore | src/memory/arena.c:242-280 | answer and new list are those of the value-level function, every block cut off is freed and none in the list |
| Arenas.LinkedArena.Sift | src/memory/arena.c:292-314 | one block of a reset is freed or emptied and linked behind the last one kept |
| Arenas.LinkedArena.Reset | src/memory/arena.c:282-324 | the relinked list is that of the value-level function and exactly the oversized blocks are freed |
| Arenas.LinkedArena.Destroy | src/memory/arena.c:326-333 | every block the arena ever made is freed |
| Arenas.LinkedArena.Stats | src/memory/arena.c:335-348 | what is reported are the sums over the block list |
| ArenaReplays.Do | src/memory/arena.c:149-324 | one step on the linked arena, with the marks it gave, changes and answers as on the arena as a value |
| ArenaReplays.Replay | src/memory/arena.c:138-348 | over any run from an empty arena, with its own marks restored in whatever order, the linked arena hands out the addresses and accepts the restores of the arena as a value, reports the sums over its blocks, and leaves no block unfreed once destroyed |

## Left out

- Sockets, the accept loop, forking and response sending in `src/ceasy.c` and `src/http/http_server.c`; `recv` is any sequence of non-empty chunks.
- SQLite, libsodium and the clock: a store of records by digest, an injective digest, fresh tokens and a time stand for them, each call of the first two failing at will; expired-row cleanup statements and schema setup are not modelled.
- Routing, MIME lookup, validation, configuration, model and project generation, the asset loader: mostly single loops or lookups whose claims would be easy.
- View loading from the filesystem and its precedence over embedded views: a library from paths to programs stands for both.
- Error messages and their line and column numbers: errors are kinds, with the offset of the tag for template errors.
- Model definitions and raw record pointers in view data: records are finite maps from field names to scalars.
- Formatting by `printf` beyond decimal integers: `string_append_format` and `string_format` are not part of the model.
- The arena, allocator and `realloc` behind strings, arrays and maps: allocation is a new object or block identity; growth of arrays and maps always moves.
- Views of a string's own buffer that reach behind its text, and views of freed buffers: `Accepts` asks callers for slices of the text.
- Object values (`sm_object`) and borrowed keys are covered by `StringMaps.StringMap.SetInternal` with given values; the object constructor itself is not modelled.
- The hash function's own arithmetic: every theorem about the map holds for any hash function.
- Operations on an uninitialised or destroyed arena and the null-pointer guards of the C functions.
- Addresses of arena blocks: blocks have unique identities, so an address reused after a free is not seen.
- MapRuns.Replay: with refused memory it leaves open which sets are refused, as the code does.
- Trigraphs when reading emitted literals, and repeated Content-Length headers: the code handles neither.
- Sessions.Context.CommitSession: asks for a token that was never issued, which stands for the randomness of 256-bit tokens.
