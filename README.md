# make-doc.js, modelled in Dafny

`make-doc.js` turns the HTML page that asciidoctor renders from the bpftrace
manual into a JavaScript page for the bpftrace website. It reads the page
line by line and keeps two regions:

- the table of contents: from the `<ul class="sectlevel1">` line up to the
  first later line holding `</ul>`, its opening line rewritten to
  `<ul className="sectlevel1">`;
- the body: from the `<div id="content">` line up to, but not including, the
  `<div id="footer">` line. Each body line is made JSX-friendly. A column tag
  becomes `<col />`. In any other line, `<br>` becomes `<br />`, braces become
  `&#123;`/`&#125;`, and `class="` becomes `className="`.

It then fills the docs page template with three markers, in order:

- a version header in place of `<div id="version-content" />`;
- the body lines, joined with line feeds, in place of `<div id="body-content" />`;
- the toc lines, joined the same way, in place of `<div id="toc-content" />`.

The result is written to `<version>.js`. The version is the fourth
command-line entry when there are exactly four, and `pre-release` otherwise.

The project has five modules:

- `Text` (`text.dfy`): the JavaScript string operations the script relies on, over `seq<char>`. They are:
  - `includes`;
  - `startsWith`;
  - `replace` with a string pattern, which replaces the first occurrence and expands `$` patterns in the inserted text;
  - `replace` with a literal `/…/ig` pattern, which replaces every occurrence under ASCII case folding;
  - `join`.
- `BodyRewrite` (`body_rewrite.dfy`): the transform applied to each body line.
- `RegionScan` (`region_scan.dfy`): the scan loop of `processAdoc`. It is the method `ProcessAdoc`, proved equal to the fold `ScanPage` of the one-line step `Step`. The region properties are lemmas about that fold.
- `TemplateFill` (`template_fill.dfy`): the version header and the three-marker fill.
- `CommandLine` (`command_line.dfy`):
  - the argument rule;
  - the destination name;
  - `MakeDoc`, a whole run with the page and the template passed in as contents.

Case-insensitive matching is ASCII case folding. A JavaScript `/i`
pattern without the `u` flag folds no non-ASCII character onto the ASCII
letters of these patterns, so folding A–Z alone gives the same matches.

On these points the code of `make-doc.js` behaves in ways that are easy to
misread, and the model follows the code:

- The line holding `<div id="content">` is itself transformed and kept in the
  body (make-doc.js:55-57 falls through to 65-78), not left out
  (`RegionScan.BodyLinesTransformed`).
- The toc marker is looked for on every line, also inside an active region
  (make-doc.js:50), so a second marker line appends a second
  `<ul className="sectlevel1">` (`RegionScan.TocMarkerReplaced`).
- The column special case applies to any line that starts with `<col `,
  whatever follows, and to the exact line `<col>` (make-doc.js:69).
- A version is taken only when it is the last argument. With an extra
  argument after it, the page is documented as `pre-release`
  (make-doc.js:28-29, `CommandLine.ExtraArgumentsDiscardVersion`).
- A missing or repeated template marker is not an error: the fill replaces
  the first copy present and skips a missing one (make-doc.js:91-93).

## Model

| member | source | states |
|---|---|---|
| Text.StartsWith | make-doc.js:69 | `startsWith`: the text is at least as long as the prefix and begins with it |
| Text.Contains | make-doc.js:50-66 | `includes`: the index search finds the pattern (its meaning is stated by `Text.ContainsIff`) |
| Text.IndexOf | make-doc.js:50-66 | the result is an index where the pattern occurs with no earlier occurrence, and it is absent exactly when the pattern occurs nowhere (the basis of `includes`) |
| Text.ContainsIff | make-doc.js:50-66 | `includes` holds exactly when the pattern occurs at some index |
| Text.ReplaceFirst | make-doc.js:91-93 | a string-pattern `replace` leaves the text unchanged when the pattern does not occur |
| Text.ReplaceFirstAt | make-doc.js:91-93 | when the first occurrence of the pattern ends `x + pat`, the result is `x`, the expanded replacement, then the rest unchanged, later occurrences included |
| Text.ReplaceFirstLiteralAt | make-doc.js:91-93 | the same with a replacement text free of `$`, which is inserted literally |
| Text.ReplaceFirstAbsent | make-doc.js:91-93 | replacing a pattern the text does not include changes nothing |
| Text.Expand | make-doc.js:91-93 | the replacement text as `replace` inserts it: `$$` is `$`, `$&` the match, `` $` `` the text before it, `$'` the text after it, anything else itself |
| Text.ExpandLiteral | make-doc.js:91-93 | a replacement text without `$` is inserted as it is by the `$`-pattern expansion |
| Text.Lower | make-doc.js:73-76 | each ASCII upper-case letter folds to the lower-case letter 32 code points above it, and every other character is kept |
| Text.ReplaceAllCI | make-doc.js:73-76 | a global, case-insensitive replace of a literal pattern, scanning left to right and resuming after each match; for a pattern that cannot overlap itself (as all four body patterns are), its result is pinned down by `ReplaceAllAbsent`, `ReplaceAllSplit` and `ReplaceAllAround` |
| Text.ReplaceAllAbsent | make-doc.js:73-76 | a global case-insensitive replace of a pattern that never matches leaves the text unchanged |
| Text.ReplaceAllSplit | make-doc.js:73-76 | for a pattern that cannot overlap itself, every match is replaced where it stands: the result for `a + m + z` is that for `a`, the replacement, then that for `z` |
| Text.ReplaceAllAround | make-doc.js:73-76 | text sharing no character with the pattern is kept, and the text on either side of it is replaced on its own |
| Text.PrefixKept | make-doc.js:73-76 | an output prefix that cannot have come from a replacement text was copied from the input, and the rest of the output is the replacement of the rest |
| Text.WindowKept | make-doc.js:73-76 | a match of another pattern at the start of the output was already at the start of the input |
| Text.ReplaceAllRemoves | make-doc.js:73-76 | when the replacement text cannot recreate the pattern, no case-insensitive match of it is left |
| Text.ReplaceAllPreserves | make-doc.js:73-76 | a replacement text that shares no case-insensitive character with another pattern keeps that pattern absent |
| Text.ReplaceAllOneChar | make-doc.js:74-75 | replacing a one-character pattern globally replaces every copy of that character, keeping all other characters |
| Text.Join | make-doc.js:92-93 | `join("\n")`: the lines with a line feed between each two (its inverse is stated by `Text.SplitJoin`) |
| Text.SplitJoin | make-doc.js:92-93 | lines without line feeds joined with `"\n"` split back into the same lines, so the join loses no line boundary |
| BodyRewrite.IsColLine | make-doc.js:69 | the column test: the line starts with `<col ` or is exactly `<col>`, case-sensitively |
| BodyRewrite.RewriteMarkup | make-doc.js:72-77 | the four global replacements in the source's order; what each does to the line is stated by the four `…Rewritten` lemmas and `OtherTextKept` |
| BodyRewrite.TransformLine | make-doc.js:69-78 | a column line becomes exactly `<col />`; any other line comes out with no `{`, no `}`, no case-insensitive `<br>` or `class="`, and is still not a column line (what it becomes is stated by `BreakInBodyLine` and the `…Rewritten` lemmas) |
| BodyRewrite.BreakCannotReappear | make-doc.js:73 | `<br />` cannot produce a new case-insensitive `<br>` |
| BodyRewrite.ClassCannotReappear | make-doc.js:76 | `className="` cannot produce a new case-insensitive `class="` |
| BodyRewrite.EntitiesCannotReappear | make-doc.js:74-75 | the character references hold no braces |
| BodyRewrite.OpenEntityAvoidsBreak | make-doc.js:73-74 | `&#123;` shares no character, up to case, with `<br>` |
| BodyRewrite.CloseEntityAvoidsEarlier | make-doc.js:73-75 | `&#125;` shares no character, up to case, with `<br>` or `{` |
| BodyRewrite.ClassNameAvoidsEarlier | make-doc.js:73-76 | `className="` shares no character, up to case, with `<br>`, `{` or `}` |
| BodyRewrite.ReplacementsLeaveColumnPrefix | make-doc.js:69-77 | none of the replacement texts can produce `<col ` or `<col>` at the start of a line |
| BodyRewrite.RewriteMarkupClean | make-doc.js:72-77 | after the four replacements in order, none of the four patterns occurs |
| BodyRewrite.CleanLineUnchanged | make-doc.js:72-77 | a line holding none of the patterns passes through the replacements unchanged |
| BodyRewrite.RewriteMarkupIdempotent | make-doc.js:72-77 | the replacement chain is idempotent |
| BodyRewrite.StepKeepsPrefix | make-doc.js:72-77 | if a replacement's output starts with (or equals) a text its replacement cannot begin, so did (was) its input |
| BodyRewrite.RewriteKeepsNonColumn | make-doc.js:69-77 | the replacement chain never turns a non-column line into a column line |
| BodyRewrite.TransformLineIdempotent | make-doc.js:69-78 | transforming a body line twice gives what transforming it once gives |
| BodyRewrite.PatternsHeadUnique | make-doc.js:73-76 | none of the four patterns can overlap itself |
| BodyRewrite.BreakTagAvoidsLater | make-doc.js:73-76 | `<br />` shares no character, up to case, with `{`, `}` or `class="` |
| BodyRewrite.EntitiesAvoidLater | make-doc.js:74-76 | `&#123;` shares no character with `}` or `class="`, and `&#125;` none with `class="` |
| BodyRewrite.BracesAvoidEarlier | make-doc.js:73-75 | `{` shares no character with `<br>`, and `}` none with `<br>` or `{` |
| BodyRewrite.ClassAvoidsEarlier | make-doc.js:73-76 | `class="` shares no character, up to case, with `<br>`, `{` or `}` |
| BodyRewrite.BreakRewritten | make-doc.js:73 | every `<br>`, in any case, becomes `<br />` where it stands, and the text before and after it is rewritten on its own |
| BodyRewrite.OpenBraceRewritten | make-doc.js:74 | every `{` becomes `&#123;` where it stands, and the text before and after it is rewritten on its own |
| BodyRewrite.CloseBraceRewritten | make-doc.js:75 | every `}` becomes `&#125;` where it stands, and the text before and after it is rewritten on its own |
| BodyRewrite.ClassRewritten | make-doc.js:76 | every `class="`, in any case, becomes `className="` where it stands, and the text before and after it is rewritten on its own |
| BodyRewrite.OtherTextKept | make-doc.js:72-77 | text sharing no character, up to case, with the four patterns comes out unchanged, in place |
| BodyRewrite.BreakInBodyLine | make-doc.js:69-77 | in a body line that is not a column line, a `<br>` in any case comes out as `<br />` between the rewritten text around it |
| BodyRewrite.BracesEscapedCharacterwise | make-doc.js:74-75 | each brace becomes its character reference and every other character is kept |
| RegionScan.FateOf | make-doc.js:50-78 | the fate of a line, decided in the source's order: toc marker, then the active toc region, then the body region (active or opened by the line) with the footer ending the scan, else dropped |
| RegionScan.Step | make-doc.js:49-81 | one line appends at most one entry in total to the toc and the body, and never changes what was collected before |
| RegionScan.Run | make-doc.js:49-81 | the scan appends at most one entry per line, keeps what was collected, and reads nothing once stopped at the footer |
| RegionScan.ScanPage | make-doc.js:46-81 | the scan of a whole page from both flags off and both sequences empty |
| RegionScan.ProcessAdoc | make-doc.js:46-81 | the loop with its two flags, `continue` and `break` builds exactly the toc and body of the fold `ScanPage` |
| RegionScan.RunAppend | make-doc.js:49-81 | scanning `a + b` is scanning `a` and then `b` from the state `a` left |
| RegionScan.Advance | make-doc.js:49-81 | each line moves the scan by exactly one step unless the scan has stopped |
| RegionScan.TocMarkerReplaced | make-doc.js:50-54 | a line holding the toc marker is not copied; exactly `<ul className="sectlevel1">` is appended, the toc region opens, and the body flag and body stay as they were, even with the body region active |
| RegionScan.TocLinesCopied | make-doc.js:55-64 | inside the toc region every other line is copied verbatim to the toc and not to the body, and the line holding `</ul>` is copied and closes the region, footer marker or not; a toc line holding `<div id="content">` opens the body region |
| RegionScan.BodyLinesTransformed | make-doc.js:55-78 | with the toc closed and the body active or opened by this very line, a line without the footer is transformed and appended to the body, the body-start line included |
| RegionScan.LinesBeforeRegionsDropped | make-doc.js:49-81 | before either region starts, a line with neither start marker changes nothing |
| RegionScan.FooterEndsScan | make-doc.js:65-68 | with the toc closed and the body active, the footer line and every line after it add nothing to either sequence |
| RegionScan.SourcesWithin | make-doc.js:49-81 | every toc or body entry's source index is one of the lines scanned |
| RegionScan.SourcesOrdered | make-doc.js:49-81 | source indices strictly increase, so both sequences keep input order |
| RegionScan.SourcesDisjoint | make-doc.js:49-81 | no line is the source of both a toc entry and a body entry |
| RegionScan.TocProvenance | make-doc.js:50-64 | the toc entries are, in order, the copied lines (the marker line as its rewrite) at the toc source indices |
| RegionScan.BodyProvenance | make-doc.js:65-78 | the body entries are, in order, the transformed lines at the body source indices |
| RegionScan.PageProvenance | make-doc.js:46-81 | for a whole page, the toc and the body are entry for entry images of distinct input lines in reading order |
| TemplateFill.VersionHeader | make-doc.js:90 | the heading `<h1> Version: ` + version + `</h1>` (stated in use by `CommandLine.ReleaseExample`) |
| TemplateFill.Fill | make-doc.js:91-93 | the three first-occurrence replacements in the order version, body, toc; its result is stated, for `$`-free texts, for templates with all three markers in the orders version-body-toc (`FillInOrder`) and version-toc-body (`FillTocBeforeBody`), and for templates with no marker (`FillWithoutSlots`); `BodyDollarPatternExpands` shows one effect of a `$` pattern |
| TemplateFill.FillWithoutSlots | make-doc.js:90-93 | a template with none of the three markers is written out unchanged |
| TemplateFill.FillInOrder | make-doc.js:90-93 | each marker replaced is the first in the text as it stands at its turn; the page becomes header, body and toc in place of the markers, and later copies of a marker are left alone |
| TemplateFill.FillTocBeforeBody | make-doc.js:90-93 | the same for a template with the toc marker before the body marker: the body is filled first, and each marker replaced is the first in the text at its turn |
| TemplateFill.ReplaceThreeInOrder | make-doc.js:91-93 | three first-occurrence replacements applied in turn put each replacement in place of its marker |
| TemplateFill.ReplaceThreeLastTwoSwapped | make-doc.js:91-93 | three first-occurrence replacements whose third marker stands before the second put each replacement in place of its marker |
| TemplateFill.HeaderDollarFree | make-doc.js:90 | the version header adds no `$` of its own |
| TemplateFill.BodyDollarPatternExpands | make-doc.js:92 | `$` patterns apply to the inserted body: a body `$&` leaves the body marker in the page |
| CommandLine.ParseArgs | make-doc.js:22-29 | fewer than three entries stop with status 1 and the usage message; otherwise the page path is the third entry and the version the fourth when there are exactly four, else `pre-release` |
| CommandLine.ExtraArgumentsDiscardVersion | make-doc.js:28-29 | with more than four entries the version is dropped and the run is the same as with the page path alone |
| CommandLine.VersionChoices | make-doc.js:28-29 | the version is `pre-release` or one of the user's arguments |
| CommandLine.DestinationName | make-doc.js:33-36 | the destination name is exactly the three characters of `.js` longer than the version |
| CommandLine.DestinationRoundTrip | make-doc.js:33-36 | the destination name is the version followed by `.js`: it ends in `.js` and cutting that off gives the version back |
| CommandLine.DestinationInjective | make-doc.js:36 | two versions never share a destination file name (the directory part and `path.join`'s normalisation are not modelled) |
| CommandLine.MakeDoc | make-doc.js:20-104 | a run stops with status 1 without a page path, writes nothing when the page or the template cannot be read, and otherwise writes the filled template, from the scanned toc and body, to the version's destination |
| CommandLine.ReleaseExample | make-doc.js:10 | `make-doc.js adoc.html 0.22` documents version 0.22 in `0.22.js` under the header `<h1> Version: 0.22</h1>` |

## Left out

- Reading the page: the line reader over a file stream is represented by the sequence of lines it yields. Its line splitting is not modelled: carriage returns, the missing empty last line, and the encoding of bytes into characters.
- Reading the template and writing the result: `MakeDoc` takes the template's text or its absence, and returns what would be written. A failing write and every console message are not modelled.
- The directory part of the destination: `path.join` with `__dirname` and the docs directory, including path normalisation of a version that contains `/` or `..`. Only the file name `version + ".js"` is modelled.
- CommandLine.DestinationInjective: distinct versions give distinct file names, not distinct files: `path.join` (make-doc.js:33-36) normalises the path, so versions such as `0.22` and `./0.22` write the same file.
- `process.exit` and `process.argv` themselves: the argument rule is a function of the argument sequence, and the exit is the `Exited(1, …)` outcome.
- An unreadable page ends the script through a rejected promise. `MakeDoc` models that as `PageUnreadable`, with nothing written; the process's exit status in that case is not modelled.
- Regular expressions in general: only the four literal, global, case-insensitive patterns of the body rewrite are modelled, by ASCII case folding.
- TemplateFill.FillInOrder: states where the header, body and toc land only when their texts hold no `$`, and only for a template whose markers stand in the order version, body, toc (`FillTocBeforeBody` covers version, toc, body). Templates whose version marker follows the body or toc marker are filled by the same `Fill`, but no lemma states the result for them. The `$` patterns of a string-pattern `replace` (`$$`, `$&`, `` $` ``, `$'`) are modelled and applied by `Fill`; `BodyDollarPatternExpands` shows one of their effects.
- TemplateFill.FillTocBeforeBody: like `FillInOrder`, states where the header, body and toc land only when their texts hold no `$`, and only for a template whose markers stand in the order version, toc, body.
- Templates holding only one or two of the three markers are filled by the same `Fill`, which skips each missing marker, but no lemma states the result for them; only the template with no marker at all is covered (`FillWithoutSlots`).
- The module-level arrays `toc` and `body` are sequences local to `ProcessAdoc` that it returns; nothing else in the script changes them.
- Text.SplitLines: splits at line feeds only. It is the inverse used to state that `join` keeps line boundaries, not a model of the line reader.
- The asynchronous order of the script: the scan finishes before the template is read, and the model runs the same steps in that order.
