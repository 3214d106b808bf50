# `declare`: turning a package's entry file into a `declare module` block

This project models, in Dafny, the script `scripts/declare/index.ts` of the
Mantine repository. For each package it:

- reads the package's `src/index.ts`;
- normalises the text so that every export statement sits on a line of its own (`fixFileContent`);
- classifies each line by the first export keyword it starts with;
- follows `export * from '<spec>'` lines into the files they name, probing eight candidate paths in a fixed order;
- collects one record `{statements, source}` per recognised export line, into one shared list;
- groups the records by source, keeping the order in which sources first appear;
- writes the groups out as a `declare module '<pkg>' { … }` block.

Modules, one per file:

- `JsString` (`js_string.dfy`): the JavaScript string operations the script relies on. These are `trim`, `split`, `join`, `replace` with a string pattern, `startsWith` and `includes`, with the ECMAScript white-space and line-terminator classes.
- `Normalize` (`normalize.dfy`): `fixFileContent` and `fixLine`, one function per `replace` step.
- `Patterns` (`patterns.dfy`): every regular expression of the script as a hand-written scanner. For each scanner a lemma states the match the JavaScript engine reports: the leftmost start, with each quantifier as short (lazy) or as long (greedy) as the engine takes it, and no match exactly when the pattern matches nowhere.
- `Classifier` (`classify.dfy`): the chain of `startsWith` tests, and the statement names each kind of export line yields.
- `Resolve` (`resolve.dfy`): the probe order for `export * from` targets, the `source` of a record, and `Rules`, the three per-line decisions of the scan, with the script's own in `Declared`.
- `Scan` (`scan.dfy`): `findExportStatement` as a method. It loops over the lines, pushes onto a shared `StatementList` object and calls itself for `export * from` lines. It is proved against the functions `FileExports`/`LinesExports`/`LineExports`.
- `Declare` (`declare.dfy`):
  - the grouping loop, with its `findIndex`;
  - the `+=` construction of the block;
  - the body of `declarePackage` from the located package path on.

The outside world is a parameter, `Env`:

- The file system is a `map` from path to content: a path exists when it is a key.
- `path.join` and `path.relative` are function values with no properties assumed.
- `locatePackage` is represented by its result, the located path.
- What the script appends to `@types/packages.d.ts` is returned as a value (`Outcome.Appended`).

Resolving `export * from` has no cycle guard in the script: a cycle recurses until the call stack overflows, and the `catch` of `declarePackage` reports the failure and exits with status 1 before anything is appended. The model stands for the stack's capacity with a depth bound, `fuel`. Each `export * from` line followed uses one unit. A scan that needs more than the bound does not complete (`FileWithinDepth` is false), and `declarePackage` then ends with `Outcome.DepthExceeded`.

Points where the code's behaviour is easy to misread:

- The code probes eight candidate paths, in this order. Here `<p>` is the package path and `<d>` is `<p>` with its first `index.ts` removed: `<p>/<spec>.ts`, `<p>/<spec>.tsx`, `<p>/<spec>/index.ts`, `<d>/<spec>.ts`, `<d>/<spec>.tsx`, `<d>/<spec>/index.ts`, `<d>/<spec>/<spec>.ts`, `<d>/<spec>/<spec>.tsx` (`Resolve.StarTarget`). A nested scan is given the path of the file it reads, such as `<dir>/index.ts`; for a file of that name `<d>` is its directory.
- `export const` records take their source from the package path alone. Any quoted text on the line is ignored.
- For `export const { … } = x` the recorded name is the word after `=`, not the destructured names.
- `fixFileContent` is not idempotent. It joins its statements with blank lines, and a second pass deletes those newlines and glues the statements back into one line. For this reason the model proves no idempotence claim.

## Model

| member | source | states |
|---|---|---|
| JsString.Trim | scripts/declare/index.ts:49 | `trim` removes exactly the leading and trailing ECMAScript white space and line terminators: the result is a slice with no such character at either end, and everything cut off is such a character |
| JsString.SplitOn | scripts/declare/index.ts:48 | `split(sep)` yields at least one piece, no piece contains the separator, every character of a piece comes from the input, and joining the pieces with the separator gives the input back |
| JsString.ReplaceFirst | scripts/declare/index.ts:53 | a string-pattern `replace` changes nothing when the pattern does not occur, and otherwise replaces exactly its first occurrence |
| JsString.SplitJoinedDoubled | scripts/declare/index.ts:32-33 | splitting at `\n` a text joined with `\n\n` yields only the joined parts and empty strings |
| Normalize.FixFileContent | scripts/declare/index.ts:20-34 | `null` exactly for the empty file; otherwise the text has no `;`, and every line of it is empty or starts with `export` |
| Normalize.StripCommentLinesLeavesNoComment | scripts/declare/index.ts:26 | after `replace(/^\/\/.*$/gm, '')` no line begins with `//` |
| Normalize.StripCommentLinesOneLine | scripts/declare/index.ts:26 | a line without its terminator is deleted exactly when `^` matches before it and it begins with `//`, and is otherwise kept as it is |
| Normalize.StripCommentLinesSplits | scripts/declare/index.ts:26 | the rewrite goes line by line: each terminator is kept, and `^` matches again after it; with `StripCommentLinesOneLine` this fixes the result on every input |
| Normalize.RemoveNewlines | scripts/declare/index.ts:27 | after `replace(/(\n\|\r\n)*/g, '')` no `\n` is left |
| Normalize.RemoveNewlinesKeeps | scripts/declare/index.ts:27 | text without `\n` is left as it is, lone `\r` included |
| Normalize.RemoveNewlinesOfConcat | scripts/declare/index.ts:27 | the rewrite of a concatenation is the concatenation of the rewrites, unless the cut separates the `\r` and `\n` of a `\r\n` |
| Normalize.RemoveNewlinesSplitsLf | scripts/declare/index.ts:27 | a `\n` not preceded by `\r` is deleted, and the text on either side is rewritten on its own |
| Normalize.RemoveNewlinesSplitsCrLf | scripts/declare/index.ts:27 | a `\r\n` is deleted as a whole, and the text on either side is rewritten on its own |
| Normalize.RemoveNewlinesKeepsLoneCr | scripts/declare/index.ts:27 | a `\r` not followed by `\n` is kept, and the text on either side is rewritten on its own; with the lemmas above this fixes the result on every input |
| Normalize.DropTrailingCommasAddsOnlySpaces | scripts/declare/index.ts:28 | the rewrite of `,}` and `,<space>}` to ` }` adds no character other than a space |
| Normalize.DropTrailingCommasKeeps | scripts/declare/index.ts:28 | text in which `,}` and `,<space>}` occur nowhere is left as it is |
| Normalize.DropTrailingCommasSplits | scripts/declare/index.ts:28 | each `,}` or `,<space>}` becomes ` }`, and the text on either side is rewritten on its own; with `DropTrailingCommasKeeps` this fixes the result on every input |
| Normalize.CollapseBlanks | scripts/declare/index.ts:29 | after `replace(/[ \t]+/g, ' ')` no tab and no two spaces in a row are left, and no character is added other than a space |
| Normalize.CollapseBlanksKeeps | scripts/declare/index.ts:29 | text without a tab and without two spaces in a row is left as it is |
| Normalize.CollapseBlanksOfConcat | scripts/declare/index.ts:29 | the rewrite of a concatenation is the concatenation of the rewrites unless the cut falls inside a run of blanks |
| Normalize.CollapseBlanksSplits | scripts/declare/index.ts:29 | a whole run of spaces and tabs becomes one space, and the text on either side is rewritten on its own; with `CollapseBlanksKeeps` this fixes the result on every input |
| Normalize.SeparateGluedExportsAddsOnlySemicolons | scripts/declare/index.ts:30 | the rewrite of `}export` to `};export` adds no character other than `;` |
| Normalize.SeparateGluedExportsKeeps | scripts/declare/index.ts:30 | text without `}export` is left as it is |
| Normalize.SeparateGluedExportsSplits | scripts/declare/index.ts:30 | each `}export` becomes `};export`, and the text on either side is rewritten on its own; with `SeparateGluedExportsKeeps` this fixes the result on every input |
| Normalize.SeparateGluedExportsLeavesNone | scripts/declare/index.ts:30 | no `}export` is left after the rewrite |
| Normalize.SeparateGluedExportsKeepsStart | scripts/declare/index.ts:30 | a prefix without `}` of the rewritten text is a prefix of the original |
| Normalize.KeepExports | scripts/declare/index.ts:32 | the filter keeps exactly the fragments that start with `export`; a single fragment is kept exactly when it starts with `export` |
| Normalize.KeepExportsAppend | scripts/declare/index.ts:32 | filtering a concatenation filters each part and keeps their order; with the single-fragment case this fixes the result, in order |
| Normalize.Flatten | scripts/declare/index.ts:25-30 | the rewrites before the split leave no `\n` |
| Normalize.CollapseSpacePairs | scripts/declare/index.ts:38 | `replace(/\s\s/g, ' ')` adds only spaces and keeps whether the text starts with `/` |
| Normalize.CollapseSpacePairsKeeps | scripts/declare/index.ts:38 | text without two white-space characters in a row is left as it is |
| Normalize.CollapseSpacePairsOfConcat | scripts/declare/index.ts:38 | the rewrite of a concatenation is the concatenation of the rewrites when the first part does not end in white space |
| Normalize.CollapseSpacePairsSplits | scripts/declare/index.ts:38 | two white-space characters that no white space precedes become one space, and the text on either side is rewritten on its own; pairs are taken left to right without overlap |
| Normalize.CollapseSlashPairs | scripts/declare/index.ts:39 | `replace(/\/\//g, '/')` adds no character and keeps whether the text starts with `/` |
| Normalize.CollapseSlashPairsKeeps | scripts/declare/index.ts:39 | text without `//` is left as it is |
| Normalize.CollapseSlashPairsOfConcat | scripts/declare/index.ts:39 | the rewrite of a concatenation is the concatenation of the rewrites when the first part does not end in `/` |
| Normalize.CollapseSlashPairsSplits | scripts/declare/index.ts:39 | a `//` that no slash precedes becomes `/`, and the text on either side is rewritten on its own; pairs are taken left to right without overlap |
| Normalize.SpacePairsKeepNoTripleSlash | scripts/declare/index.ts:38 | collapsing white-space pairs creates no run of three slashes |
| Normalize.SlashPairsLeaveNoDoubleSlash | scripts/declare/index.ts:39 | without three slashes in a row, collapsing slash pairs leaves no `//` |
| Normalize.CutKeepsNoDoubleSlash | scripts/declare/index.ts:40 | cutting at `.ts` creates no `//` |
| Normalize.FixLineLeavesNoDoubleSlash | scripts/declare/index.ts:36-40 | `fixLine` of a text without three slashes in a row has no `//` |
| Normalize.FixLineCutsTsExtension | scripts/declare/index.ts:36-40 | on a single line, `fixLine` is the collapsed text cut at its first `.ts`: the result is a prefix of the collapsed text with no `.ts`, `.ts` occurs right after it when the collapsed text has one, and without `.ts` nothing is cut |
| Patterns.FindQuoted | scripts/declare/index.ts:13 | `pathRegex` matches at the leftmost quote that has a closing quote after it; no match exactly when there is no quoted stretch |
| Patterns.QuotedText | scripts/declare/index.ts:13 | group 1 of `pathRegex` is the text inside the leftmost quoted stretch, the one the engine matches; it has no quote, and there is none exactly when the line has no quoted stretch |
| Patterns.StarAsEnd | scripts/declare/index.ts:99 | from a start, the lazy `(.*?)` ends at the first place the lookahead `\sfrom` holds |
| Patterns.FindStarAsIsFirstMatch | scripts/declare/index.ts:99-100 | the `export * as` pattern's match is leftmost and shortest; none when it matches nowhere |
| Patterns.BraceSpaceIsForced | scripts/declare/index.ts:119 | in `(?<={)\s*\b(.*?)`, group 1 starts after all the white space that follows `{` |
| Patterns.CloseFrom | scripts/declare/index.ts:119 | the lazy `(.*?)` before `\b\s*(?=})` stops at the nearest place on the line where that holds, and at no place when there is none |
| Patterns.BraceEnd | scripts/declare/index.ts:119 | from a start, the lazy group ends at the first place the rest of the pattern holds |
| Patterns.FindBraceIsFirstMatch | scripts/declare/index.ts:119-120 | the `export {` pattern's match is leftmost, with the shortest group |
| Patterns.BracketEnd | scripts/declare/index.ts:139 | the lazy group of `/\[(.*?)]/` ends at the first `]` on the line |
| Patterns.FindBracketIsFirstMatch | scripts/declare/index.ts:139 | the bracket pattern matches at the leftmost `[` with a later `]` on its line |
| Patterns.EqWordIsForced | scripts/declare/index.ts:141 | in `/=\s*(\w+)/`, the white space and the word are both taken whole |
| Patterns.EqWordEnd | scripts/declare/index.ts:141 | from an `=`, the greedy group ends at the end of the word |
| Patterns.FindEqWordIsFirstMatch | scripts/declare/index.ts:141 | the `=` pattern matches at the leftmost `=` followed by a word |
| Patterns.ConstHeadIsForced | scripts/declare/index.ts:143 | in `export\s+const\s+`, the first `\s+` is taken whole, and the second takes no more than the white space there is |
| Patterns.ConstLongestHeadMatches | scripts/declare/index.ts:143 | whenever a shorter second `\s+` leads to a match, taking all the white space does too |
| Patterns.ConstGroupStart | scripts/declare/index.ts:143 | a group start it gives is one where the head matches, after all the white space that follows `const` |
| Patterns.ConstHeadGivesGroupStart | scripts/declare/index.ts:143 | conversely, whenever the head matches, `ConstGroupStart` gives a start, right after all the white space that follows `const` |
| Patterns.ConstEnd | scripts/declare/index.ts:143 | group 1 ends at the first place where white space and `=` follow |
| Patterns.EqualsFrom | scripts/declare/index.ts:143 | the lazy `(.*?)` before `\s*=` stops at the nearest place on the line where that holds, and at no place when there is none |
| Patterns.ConstEndIsFirstMatch | scripts/declare/index.ts:143 | at one start, the engine's choice (longest head, then shortest group) |
| Patterns.FindConstIsFirstMatch | scripts/declare/index.ts:143 | the `export const` pattern's match is leftmost and is the engine's choice there |
| Patterns.TypeBraceIsForced | scripts/declare/index.ts:159 | in the first alternative, the lookbehind's white space is all the white space before the match |
| Patterns.TypeNameIsForced | scripts/declare/index.ts:159 | in the second alternative, `\w+\b` takes the whole word |
| Patterns.TypeBraceEnd | scripts/declare/index.ts:159 | the first alternative's lazy match ends at the first place the lookahead holds |
| Patterns.TypeNameEnd | scripts/declare/index.ts:159 | the second alternative's greedy match ends at the last place the lookahead holds |
| Patterns.FindTypeIsFirstMatch | scripts/declare/index.ts:158-160 | the `export type` pattern matches at the leftmost start where either alternative does; there the match is the first alternative's (the shortest) whenever that alternative matches, and otherwise the second's (the longest) |
| Patterns.FindTypeIsFirstType | scripts/declare/index.ts:158-160 | the `export type` scanner's result, when there is one, is the engine's match (`FirstType`), and there is none exactly when no match exists |
| Patterns.FirstTypeIsUnique | scripts/declare/index.ts:159 | the engine's `export type` match is unique |
| Patterns.FunctionIsForced | scripts/declare/index.ts:180 | the lookbehind takes all the white space after `function`, and `\w+` takes the whole word |
| Patterns.FindFunctionIsFirstMatch | scripts/declare/index.ts:180 | the `export function` pattern captures the leftmost name that is followed by `(` or `<` |
| Patterns.InterfaceIsForced | scripts/declare/index.ts:199 | `\w+` takes the whole word |
| Patterns.FindInterfaceIsFirstMatch | scripts/declare/index.ts:199 | the `export interface` pattern captures the leftmost name followed by `<` or `{` |
| Classifier.RankOfKinds | scripts/declare/index.ts:49-197 | every kind in the chain has its place in it |
| Classifier.KeywordIndex | scripts/declare/index.ts:50-197 | the index of the first keyword the trimmed line starts with: no earlier keyword fits |
| Classifier.ClassifyIsFirstKeyword | scripts/declare/index.ts:49-218 | a line is skipped exactly when its trimmed text does not start with `export`; it is unrecognised exactly when no keyword fits; otherwise its kind is that of the first keyword in chain order |
| Classifier.StarAsStatements | scripts/declare/index.ts:98-116 | an `export * as` line yields a name exactly when the pattern matches, and then exactly one: the text of the engine's match (leftmost start, shortest group) |
| Classifier.BraceStatements | scripts/declare/index.ts:117-135 | an `export {` line yields names exactly when the pattern matches; they are the engine's group (leftmost, shortest) cut at `, `: at least one, none containing `, `, and joined with `, ` they give that group back |
| Classifier.CutFromColon | scripts/declare/index.ts:150 | `replace(/:.*/, '')` removes the first `:` and the rest of its line and keeps everything else; without a `:` nothing changes; on a single line the result is the text before the first `:` |
| Classifier.BracketCapture | scripts/declare/index.ts:139 | the group exists exactly when the pattern matches, and it is the text between the engine's leftmost `[` and the first `]` after it, on one line |
| Classifier.EqWordCapture | scripts/declare/index.ts:141 | the group exists exactly when the pattern matches, and it is the whole word after the engine's leftmost `=` that has one |
| Classifier.ConstDeclCapture | scripts/declare/index.ts:143 | the group exists exactly when the pattern matches, and it is the text of the engine's match: leftmost start, longest head, shortest group |
| Classifier.ConstCapture | scripts/declare/index.ts:137-145 | the untrimmed line's start picks the pattern, and the capture is that pattern's: `export const [` the bracket group, `export const {` the word after `=`, anything else the declared names |
| Classifier.ConstStatements | scripts/declare/index.ts:145-155 | an `export const` line yields names exactly when its pattern matches; they are the capture with its first `:` and the rest of the line cut off, split at `, `: joined with `, ` they give that text back, and none has `, ` or `:` |
| Classifier.Prefixed | scripts/declare/index.ts:172 | each name gets the prefix, in order |
| Classifier.TypeStatements | scripts/declare/index.ts:156-177 | an `export type` line yields names exactly when the engine's match is non-empty; they are that match split at `, `, each prefixed with `type `, and the pieces joined with `, ` give the match back |
| Classifier.FunctionStatements | scripts/declare/index.ts:178-196 | an `export function` line yields a name exactly when the pattern matches: exactly one, the non-empty word of the engine's leftmost match |
| Classifier.InterfaceStatements | scripts/declare/index.ts:197-215 | an `export interface` line yields a name exactly when the pattern matches: exactly one, `type ` followed by the name of the engine's leftmost match |
| Classifier.StatementsOf | scripts/declare/index.ts:98-218 | lines that are skipped, unrecognised or `export * from` yield no names; each of the six record kinds yields what its own extractor yields; any names yielded are at least one |
| Resolve.UnquoteQuotedIsIdentity | scripts/declare/index.ts:53 | `replace("'", '')` on `pathRegex`'s group changes nothing |
| Resolve.FirstPresent | scripts/declare/index.ts:55-90 | the first candidate index whose path exists, none before it existing; none when no candidate exists |
| Resolve.StarTarget | scripts/declare/index.ts:54-90 | `filePath` is the first of the eight candidates that exists, in the chain's order, and `''` exactly when none does |
| Resolve.StarFile | scripts/declare/index.ts:51-95 | a file is followed exactly when the line has a quoted path, a candidate exists and its normalised content is not empty; then its path is the first existing candidate and its content the normalised text of that file |
| Resolve.LineRecord | scripts/declare/index.ts:98-215 | a record is pushed exactly when the line's kind yields names, and it holds exactly those names; only the six record kinds push one; its source uses the package path for `export const`, and otherwise the quoted path when the line has one |
| Resolve.SourceHasNoTsExtension | scripts/declare/index.ts:103-110 | when `path.relative` stays on one line, no record source contains `.ts` |
| Resolve.RecordHasNoTsExtension | scripts/declare/index.ts:98-215 | every record pushed names at least one export and has a source without `.ts` |
| Resolve.DeclaredRecordsWellFormed | scripts/declare/index.ts:98-215 | the same, for every line, kind and package path the scan can meet |
| Scan.StatementList.constructor | scripts/declare/index.ts:46 | the accumulator starts empty |
| Scan.StatementList.Push | scripts/declare/index.ts:112-115 | `push` appends one record and changes nothing else |
| Scan.FindExportStatement | scripts/declare/index.ts:42-222 | the scan completes exactly when its `export * from` recursion stays within the depth bound; then the list is the old list followed by the file's records, in line order, with `export * from` lines replaced by the records of the files they lead to |
| Scan.ScanLines | scripts/declare/index.ts:48-220 | the loop completes exactly when every line stays within the depth bound, and then it has appended, line after line, exactly the records of each line to the shared list |
| Scan.ScanLine | scripts/declare/index.ts:49-218 | one line completes exactly when it stays within the depth bound, and then it has appended exactly its own records to the shared list: recursion for `export * from`, at most one push otherwise |
| Scan.FileDepthMonotone | scripts/declare/index.ts:93-95 | a depth bound that suffices for a file suffices at every larger bound, with the same records, so the records do not depend on the stack size once the scan completes |
| Scan.LinesDepthMonotone | scripts/declare/index.ts:48 | the same for a run of lines |
| Scan.LineDepthMonotone | scripts/declare/index.ts:50-95 | the same for one line |
| Scan.SelfReexportExceedsEveryDepth | scripts/declare/index.ts:50-95 | a file with an `export * from` line that leads back to itself exceeds every depth bound |
| Scan.ReexportOfSelfReexportExceedsEveryDepth | scripts/declare/index.ts:50-95 | a file with an `export * from` line that leads to such a self re-exporting file exceeds every depth bound too |
| Scan.LinesExportsSnoc | scripts/declare/index.ts:48 | one more line appends its records at the end |
| Scan.LinesExportsAppend | scripts/declare/index.ts:48 | the records of two runs of lines are the first run's followed by the second's |
| Scan.FileRecordsWellFormed | scripts/declare/index.ts:93-95 | through any depth of `export * from`, every record of a file is one the rules build |
| Scan.LinesRecordsWellFormed | scripts/declare/index.ts:48 | the same for a run of lines |
| Scan.LineRecordsWellFormed | scripts/declare/index.ts:49-218 | the same for one line |
| Scan.NoStarLinesFuelIrrelevant | scripts/declare/index.ts:50-95 | without `export * from` lines the depth bound does not change the records |
| Scan.LineExportsShape | scripts/declare/index.ts:49-218 | a line other than `export * from` adds at most one record; a skipped or unrecognised line adds none; an `export * from` line whose target is not followed adds none |
| Scan.DeclaredFileRecordsWellFormed | scripts/declare/index.ts:42-222 | every record the script collects, at any depth, names at least one export and has a source without `.ts` |
| Declare.IndexOfSource | scripts/declare/index.ts:252-254 | `findIndex` gives the first position holding the source, or -1 exactly when none does |
| Declare.FindIndex | scripts/declare/index.ts:252-254 | the loop computes `findIndex` |
| Declare.IndexOfSourceIsFirst | scripts/declare/index.ts:252-254 | a position holding the source with none before it is what `findIndex` gives |
| Declare.IndexOfSourceSnoc | scripts/declare/index.ts:261 | `push` keeps every earlier first position, and a new source is found at the end |
| Declare.IndexOfSourceUpdate | scripts/declare/index.ts:256-259 | overwriting a group with its own source keeps every first position |
| Declare.GroupBySource | scripts/declare/index.ts:248-263 | the `forEach` loop computes the grouping `Grouped` |
| Declare.MergeKeepsSources | scripts/declare/index.ts:255-259 | adding names to an existing group keeps the sources distinct and in first-seen order |
| Declare.OpenKeepsSources | scripts/declare/index.ts:260-262 | a record with a new source opens one last group, keeping sources distinct and covering the records' sources |
| Declare.OpenKeepsOrder | scripts/declare/index.ts:260-262 | the new last group's source is the one seen last for the first time |
| Declare.GroupedSources | scripts/declare/index.ts:248-263 | the groups' sources are pairwise distinct, are exactly the records' sources, and appear in the order each first appears among the records |
| Declare.NamesForSnoc | scripts/declare/index.ts:258 | one more record adds its names to its own source's names only |
| Declare.NoNamesWithoutSource | scripts/declare/index.ts:258 | a source no record has collects no names |
| Declare.AddRecordKeepsNames | scripts/declare/index.ts:255-262 | one step keeps every group's names as the in-order concatenation of its source's records |
| Declare.GroupedNames | scripts/declare/index.ts:248-263 | each group's names are the in-order concatenation of the names of all records with that source, duplicates kept |
| Declare.GroupedCount | scripts/declare/index.ts:250-265 | there is a group exactly when there is a record, and never more groups than records |
| Declare.ExportLines | scripts/declare/index.ts:267-269 | one `  export { … } from '…';` line per group, in group order |
| Declare.DeclarationLines | scripts/declare/index.ts:266-270 | the block's lines: the opening, one export line per group in order, then `}` |
| Declare.EmitDeclaration | scripts/declare/index.ts:266-270 | the `+=` loop builds exactly those lines, each ended by `\n` |
| Declare.TerminatedSnoc | scripts/declare/index.ts:268 | one more `+=` adds its line and newline at the end |
| Declare.TerminatedCons | scripts/declare/index.ts:266 | the text is the first line, a newline, then the rest |
| Declare.SplitTerminated | scripts/declare/index.ts:266-270 | splitting lines ended by `\n` at `\n` gives back the lines followed by one empty string |
| Declare.ExportLineIsOneLine | scripts/declare/index.ts:268 | without newlines in the names and the source, a group's line has none |
| Declare.DeclarationReadsBack | scripts/declare/index.ts:266-270 | the block reads back as `declare module '<pkg>' {`, exactly one export line per group in group order, `}`, and nothing after the last newline |
| Declare.DeclareRecords | scripts/declare/index.ts:248-275 | what is appended for the records: nothing without records or when imports are handled, otherwise a newline and the block of their grouping |
| Declare.DeclarePackage | scripts/declare/index.ts:229-284 | the method's outcome is `DeclarationOutcome`: how a missing package, an unreadable entry file, a scan that overflows the stack, an empty file and a normal run end |
| Declare.OutcomeCases | scripts/declare/index.ts:229-284 | the package is reported missing exactly when none was located; a read failure means the entry file does not exist; a failed scan means the entry file's recursion exceeds the depth bound; with `handleImports` nothing is appended; anything appended is a newline followed by the block of a non-empty grouping |
| Declare.SelfReexportingPackageFails | scripts/declare/index.ts:238-284 | a package whose entry file has an `export * from` line leading to a file that re-exports itself, such as `src/index.ts` with `export * from './index'` (found as `<d>/index.ts`), ends in the `catch`, appending nothing, at every depth bound and whatever `handleImports` is |

## Left out

- Logging, `chalk`, `console.log`, `getBuildTime` and `Date.now()`: diagnostics and timing only. This includes the "something else" messages the scan prints for unresolved targets and unrecognised lines.
- `process.exit(1)`: it is modelled as the outcomes `PackageNotFound`, `ReadFailure` and `DepthExceeded`; the process is not modelled.
- `fs.appendFileSync` and `fs.writeFileSync`: the text that would be appended is returned instead, and the file itself is not modelled.
- The `async` shell, `getPackageName`, `locatePackage`, `declareAllPackages` and `getPackagesBuildOrder`: helpers outside this file. `DeclarePackage` takes the located path as a parameter.
- `packageName` is passed to `findExportStatement` but never used there, so the scan has no such parameter.
- `path.join` and `path.relative`: these are abstract function values. Path normalisation is not modelled. The one property assumed of `relative`, that it stays on one line, is stated where it is needed (`RelativeStaysOnOneLine`).
- `fs.readFileSync` throwing for a reason other than a missing file, such as a directory or a permission error, is not modelled.
- Stack size: the depth at which the JavaScript engine's call stack overflows is not a constant of the script, so it is the parameter `fuel`. The scan methods stop at that depth and report it, as the thrown `RangeError` stops the real scan. Only the outcome is modelled: the partly filled list is thrown away, as it is in the script.
- Case-insensitive matching (`i` flag) and `\s`, `\w`, `\b` and `trim` follow ECMAScript's definitions for the characters involved. The model has no Unicode case folding beyond ASCII and no UTF-16 surrogate handling.
- Normalize.FixLineCutsTsExtension: the absence of `.ts` is proved only for text without line terminators, because `.` in JavaScript regular expressions stops at a line terminator. Record sources meet this when `path.relative` stays on one line.
- Normalize.FixLineLeavesNoDoubleSlash: proved for input without three slashes in a row. From `///`, `replace(/\/\//g, '/')` leaves `//`.
- FixFileContent: no single lemma states which statements of the file survive normalisation. Each rewrite step is characterised on its own instead, by a lemma for text the pattern does not touch and one for a match with text on either side: `StripCommentLinesOneLine`/`StripCommentLinesSplits`, `RemoveNewlinesKeeps` with `RemoveNewlinesSplitsLf`, `RemoveNewlinesSplitsCrLf` and `RemoveNewlinesKeepsLoneCr`, `DropTrailingCommasKeeps`/`DropTrailingCommasSplits`, `CollapseBlanksKeeps`/`CollapseBlanksSplits`, `SeparateGluedExportsKeeps`/`SeparateGluedExportsSplits`, `KeepExports`/`KeepExportsAppend`, and the contracts of `SplitOn` and `JoinWith`.
- Flatten: its own contract states only that no `\n` is left. What it computes is the composition of the six rewrite steps, each characterised by the lemmas listed under `FixFileContent`.
- Idempotence of `fixFileContent` is not proved, because it does not hold for the code (see above).
