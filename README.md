# Worker inlining transform (pochade-js `transform-workers.js`)

This project models the build step of the pochade-js template. The step rewrites every
`new Worker(new URL('<path>', import.meta.url))` expression in the `src` tree into an
immediately invoked function. That function embeds the worker file's source as a template
literal, turns it into a Blob URL, starts the worker from that URL, revokes the URL and
returns the worker. The whole application then ships as one bundle.

The model follows the script's four stages:

- **Collection** (`Collector`).
  - `getAllFiles` walks the tree and returns every entry that is not a directory.
  - `main` then keeps the files ending in `.js` (line 158, `Collector.JsFiles`).
- **Discovery** (`Scanner`, `Pipeline.FindReferencedWorkers`).
  - The global regular expression runs its `exec` loop over every file.
  - Each captured literal is resolved against the owning file's directory (`Paths.WorkerKey`).
  - The resolved paths go into an insertion-ordered set.
  - `Language` defines the expression's language as a relation, with no order among the ways of splitting a text. The scanner's greedy matcher finds exactly that language's match, and the match is unique.
- **Registry** (`Pipeline.ReadWorkers`).
  - Each discovered worker file is read once.
  - A failed read is a warning, not an error.
- **Rewrite** (`Rewriter`, `Pipeline.TransformAll`). For each `.js` file, every match is handled in source order:
  - The worker code is escaped (backslash, then backtick, then `$`).
  - The code is wrapped.
  - The first occurrence of the matched text is replaced.
  - A file with at least one match is written back.

The main flow sits in `Pipeline.TransformWorkers`. It produces the diagnostics the script prints and its exit status.

The file system is a value: a map from absolute paths to file contents, plus a directory listing for
the walk. A missing key is a read that fails. Methods take the file system and return the new one.
An exception that reaches `main`'s `catch` becomes a failed phase and exit status 1.

Specifications that the methods are proved against:

- `Scanner.Matches`: every match of the `exec` loop.
- `Rewriter.TransformSpec`: one file's rewrite.
- `Pipeline.Referenced`, `Pipeline.RegistryOf` and `Pipeline.TransformPhase`: the three loops of `main`.
- `Pipeline.RunSpec`: the whole run.

Properties about those functions are proved as lemmas.

Where the project's documentation and the code disagree, the model follows the code. There is one exception: line 138 as written expands `$` patterns in the inline worker (see "## Findings"). The file-level and run-level specifications use the corrected, literal replace. `Rewriter.TransformAgreesOnLiteralWorkers` proves that this gives the same result as line 138 whenever no worker file holds `$&` or `$'` or ends in `$`.

- **Write condition.** The documentation says a file is written only if its text changed. The code (lines 106-144) writes every file that holds at least one match, even when no reference resolved. The model reports that file as transformed and counts it.
- **Idempotence.** The documentation says that running the transform again is a no-op. In the code an unresolved reference survives the rewrite. A second run matches the file again, writes it back and counts it again (`Rewriter.RerunRepeatsUnresolved`). The wrapper's own text never matches (`Rewriter.SkeletonHasNoIdiom`), but that does not help the unresolved references.
- **Worker classification.** The documentation describes a second way to classify workers (by file-name suffix) and a bundler-loader mode. Neither exists in the script. Discovery here is driven only by references.

## Model

| member | source | states |
|---|---|---|
| Collector.AllFilesSucceeds | template/scripts/transform-workers.js:29-41 | the recursive walk succeeds exactly when every directory in the tree can be listed; one unreadable directory makes the whole walk fail |
| Collector.AllFilesExact | template/scripts/transform-workers.js:29-41 | a path is in the walk's result exactly when it is a non-directory entry somewhere under the root, joined onto its parent's path |
| Collector.JsFiles | template/scripts/transform-workers.js:158 | a path is kept exactly when it is in the list and ends with `.js`; the list never grows |
| Collector.JsFilesAppend | template/scripts/transform-workers.js:158 | the filter keeps the list's order: filtering two lists joined together gives their filtered parts joined in the same order |
| Paths.Dirname | template/scripts/transform-workers.js:57 | for a path with a non-leading slash, the directory is the prefix before the last `/` |
| Paths.ResolveCanonical | template/scripts/transform-workers.js:62 | a resolved worker key is always a canonical absolute path, and resolving it again gives it back unchanged |
| Paths.NormaliseCanonical | template/scripts/transform-workers.js:21 | normalising a path that is already canonical changes nothing |
| Scanner.MatchAt | template/scripts/transform-workers.js:53 | a match anchored at an index starts with `new`, ends inside the text, and its capture is non-empty and free of quotes |
| Language.MatchAtIsTheMatch | template/scripts/transform-workers.js:53 | the greedy matcher reports an end and a group 1 exactly when the expression's language matches that text with that group 1 for some choice of where each element ends (a `Splits` list of end points); when it reports nothing, no choice of split points matches |
| Language.MatchIsUnique | template/scripts/transform-workers.js:53 | at any index the expression matches in at most one way, so a backtracking engine finds the same match whichever split it tries first |
| Scanner.NextMatchIsLeftmost | template/scripts/transform-workers.js:60 | one `exec` call returns the leftmost match at or after `lastIndex`; when it returns null, no match starts anywhere from `lastIndex` on |
| Scanner.MatchesAreLeftmostScan | template/scripts/transform-workers.js:59-64 | the `exec` loop's matches satisfy the reference definition of a global scan: each is the leftmost match after the end of the previous one, and none follows the last |
| Scanner.LeftmostScanMatches | template/scripts/transform-workers.js:53 | every reported match really is a match of the expression, at or after the starting index |
| Scanner.LeftmostScanOrdered | template/scripts/transform-workers.js:99-104 | reported matches do not overlap and come in source order |
| Scanner.LeftmostScanCovers | template/scripts/transform-workers.js:99-104 | every index where the expression matches lies inside some reported match, so nothing is missed |
| Scanner.MatchShape | template/scripts/transform-workers.js:53 | every match has a non-empty, quote-free capture and lies within the text |
| Scanner.Scan | template/scripts/transform-workers.js:97-104 | the loop collects exactly the matches of the global scan from index 0 |
| Scanner.MatchesInside | template/scripts/transform-workers.js:99-104 | every collected match starts at or after `lastIndex` and ends within the text |
| Scanner.IdiomMatches | template/scripts/transform-workers.js:74 | the usual spelling of the idiom matches whichever quote opens or closes the path (mixed quotes included) and whatever follows it; the capture is exactly the path |
| Scanner.NoMetaNoMatch | template/scripts/transform-workers.js:95 | text without the letter `m` holds no match, since every match spells `import.meta.url` |
| TemplateLiteral.EscapeChainIsEscape | template/scripts/transform-workers.js:123-126 | the three chained global replaces equal one pass that puts exactly one backslash in front of each backslash, backtick and `$` |
| TemplateLiteral.WrongOrderDoublesBackslash | template/scripts/transform-workers.js:124-125 | the order matters: escaping backticks before backslashes would double the backslash added for a backtick |
| TemplateLiteral.UnescapeEscape | template/scripts/transform-workers.js:123-126 | round trip: undoing the three escapes gives back exactly the worker code |
| TemplateLiteral.EscapeUnescape | template/scripts/transform-workers.js:123-126 | converse round trip: any text that un-escapes to some code is that code's escape, so escaped code has no unescaped backtick or `$` |
| TemplateLiteral.EscapeAddsNoDollar | template/scripts/transform-workers.js:126 | escaping adds no `$` to code that has none |
| TemplateLiteral.ReadEscaped | template/scripts/transform-workers.js:129-130 | escaped code followed by a backtick is read as one template body that closes at that backtick, never opens a `${` substitution, and cooks back to the code with CR and CR LF turned into LF |
| TemplateLiteral.ReadEscapedExact | template/scripts/transform-workers.js:130 | for code without CR the embedded literal evaluates to exactly the worker code |
| Substitution.IndexOf | template/scripts/transform-workers.js:138 | the result is the first occurrence of the pattern at or after the start index, and absence means it occurs nowhere there |
| Substitution.ReplaceFirst | template/scripts/transform-workers.js:138 | the intended string replace: with no occurrence the text is unchanged; otherwise the text before and after the first occurrence is kept and the replacement sits in between |
| Substitution.EscapeReplacementsAreLiteral | template/scripts/transform-workers.js:124-126 | the replacement strings of the escape chain hold no live `$` pattern, so they are inserted literally |
| Substitution.AsWrittenIsLiteralWithoutPatterns | template/scripts/transform-workers.js:138 | the engine's `replace` equals the literal one when the replacement holds no `$` pattern |
| Substitution.DollarAmpersandExpands | template/scripts/transform-workers.js:138 | on a small input the engine's `replace` and the literal one differ when the replacement holds `$&` |
| Rewriter.InlineWorkerEmbeds | template/scripts/transform-workers.js:129-136 | the wrapper is the fixed text up to the opening backtick, then the escaped code, then the closing backtick and fixed tail; the engine reads the literal back as the code (line ends normalised) |
| Rewriter.SkeletonHasNoIdiom | template/scripts/transform-workers.js:129-136 | the wrapper's own text contains no match of the expression |
| Rewriter.ReferencesOf | template/scripts/transform-workers.js:100-103 | one reference per match, holding the matched text and group 1 |
| Rewriter.ReferencesAreMatches | template/scripts/transform-workers.js:97-104 | the list of references is empty exactly when the file has no match; otherwise each holds the exact matched slice and a valid path literal |
| Rewriter.RewriteStep | template/scripts/transform-workers.js:112-138 | unresolved key (absent or empty code): text unchanged and the key added to the warnings; resolved: no warning, and the first occurrence of the matched text is replaced by the inline worker with the text before and after kept (unchanged if the text no longer occurs) |
| Rewriter.MissingAreUnresolved | template/scripts/transform-workers.js:115-120 | exactly one warning per unresolved reference, in order |
| Rewriter.NothingResolvedNothingChanged | template/scripts/transform-workers.js:115-120 | when no reference resolves, the text is unchanged and there is one warning per reference |
| Rewriter.TransformSpec | template/scripts/transform-workers.js:90-144 | an unreadable file is an error naming it; a file is rewritten and reported `true` exactly when it has at least one match, even if nothing resolved; no match means no write and no warning; no other file changes |
| Rewriter.RewriteReferences | template/scripts/transform-workers.js:110-139 | the loop over the matches computes the text and warnings of the rewrite specification |
| Rewriter.TransformFile | template/scripts/transform-workers.js:90-144 | the function's read, scan, early return, rewrite and write agree with the file specification |
| Rewriter.SingleIdiomScan | template/scripts/transform-workers.js:74 | a file that is just the idiom yields one reference whose matched text is the whole file |
| Rewriter.RewriteStepAsWritten | template/scripts/transform-workers.js:138 | the step as written (engine `replace`) agrees with the intended step on the unresolved case and on the warnings |
| Rewriter.InlineWorkerPatterns | template/scripts/transform-workers.js:123-138 | the inline worker gives `replace` a `$` pattern to expand exactly when the worker code holds `$&` or `$'` or ends in `$` (its escape `\$` then meets the wrapper's closing backtick) |
| Rewriter.AsWrittenAgreesOnLiteralWorkers | template/scripts/transform-workers.js:138 | when the worker code holds no `$&`, no `$'` and does not end in `$`, the step as written equals the intended step |
| Rewriter.RewriteAllAgrees | template/scripts/transform-workers.js:110-139 | when every worker in the registry is such code, the loop as written computes the same text and warnings as the intended loop |
| Rewriter.TransformAsWritten | template/scripts/transform-workers.js:90-144 | `transformFile` with line 138 as written: it fails exactly on an unreadable file, reports a change exactly when the file has a match, and writes no other file |
| Rewriter.TransformAgreesOnLiteralWorkers | template/scripts/transform-workers.js:90-144 | when every worker in the registry is such code, `transformFile` as written gives exactly the file specification's outcome |
| Rewriter.DollarAmpersandCorrupts | template/scripts/transform-workers.js:138 | a worker whose code is `$&` is embedded as `\` followed by the matched idiom, not as `\$&` |
| Rewriter.TrailingDollarCorrupts | template/scripts/transform-workers.js:138 | a worker whose code is `$` is embedded as `\` followed by the text before the match, and the wrapper's closing backtick is lost, so the template literal is never closed; the intended step embeds `\$` and keeps the backtick |
| Rewriter.RerunRepeatsUnresolved | template/scripts/transform-workers.js:106-144 | a file none of whose references resolve is reported as transformed with its text unchanged, and transforming it again gives the same outcome, so a second run is not a no-op |
| Pipeline.AddAllIsUnion | template/scripts/transform-workers.js:50-63 | adding keys to the insertion-ordered set keeps it free of duplicates, contains exactly the old members and the keys, and keeps the old order as a prefix |
| Pipeline.KeysOf | template/scripts/transform-workers.js:61-62 | one key per match, each the capture resolved against the owner's directory |
| Pipeline.GatherFailsOnUnreadable | template/scripts/transform-workers.js:55-56 | discovery fails exactly when some `.js` file cannot be read, and the error names the first such file |
| Pipeline.GatherNoDuplicates | template/scripts/transform-workers.js:50-67 | the discovered worker list has no duplicates |
| Pipeline.GatherExact | template/scripts/transform-workers.js:49-68 | a path is discovered exactly when some scanned file has a match whose capture resolves to it |
| Pipeline.FindReferencedWorkers | template/scripts/transform-workers.js:49-68 | the nested loops (files, then `exec` matches) compute exactly the discovery specification |
| Pipeline.ReadWorkers | template/scripts/transform-workers.js:171-179 | the read loop builds exactly the registry and the list of unreadable workers of the specification |
| Pipeline.RegistryExact | template/scripts/transform-workers.js:171-179 | a key is in the registry exactly when it was discovered and is readable, with the file's content; it is reported unreadable exactly when discovered and not readable |
| Pipeline.ReferenceResolvesIffReadable | template/scripts/transform-workers.js:115-117 | rewrite time resolves a reference exactly when the file it names is readable and non-empty: scan time and rewrite time compute the same key |
| Pipeline.MissingWarnings | template/scripts/transform-workers.js:118 | one warning per unresolved key, in order |
| Pipeline.ReadWarnings | template/scripts/transform-workers.js:177 | one warning per unreadable worker file, in order |
| Pipeline.TransformAll | template/scripts/transform-workers.js:182-189 | the transform loop computes the phase specification: file system, log, count and failure |
| Pipeline.FailedPhaseStays | template/scripts/transform-workers.js:198-200 | once a file fails, the rest of the loop does nothing more |
| Pipeline.TransformPhaseFrame | template/scripts/transform-workers.js:183-189 | the loop keeps the set of paths and changes no file outside the list it walks |
| Pipeline.TransformPhaseSucceeds | template/scripts/transform-workers.js:183-189 | when every listed file is readable, the loop does not fail |
| Pipeline.CountIsFilesWithMatches | template/scripts/transform-workers.js:182-189 | for distinct readable files, the count is the number of files with at least one match |
| Pipeline.TransformWorkers | template/scripts/transform-workers.js:152-202 | the main flow computes the run specification: log, new file system and exit status |
| Pipeline.ExitStatus | template/scripts/transform-workers.js:198-201 | exit status 1 exactly when the walk or the discovery fails (a `.js` file that discovery could read is still readable when it is rewritten), and 0 otherwise; on 1 no file has been written and the last diagnostic is the error |
| Pipeline.PhaseLogIsRewrite | template/scripts/transform-workers.js:183-189 | every diagnostic of the transform loop is a missing-worker warning or a transformed-file line |
| Pipeline.ReadsBeforeRewrites | template/scripts/transform-workers.js:170-189 | phase order: every unreadable-worker warning comes before every diagnostic of the rewrite |
| Pipeline.TransformedCount | template/scripts/transform-workers.js:191-196 | on a successful run the summary reports the number of files with at least one match, or that none needed transformation |

## Left out

- Console text: output is modelled as a list of `Diagnostic` values, not the exact strings or emoji printed.
- `path.relative` in the printed lines: diagnostics carry the absolute path.
- `error.message` in the warning for an unreadable worker, and the error object `main` prints, are not modelled.
- Write failures: `fs.writeFile` is modelled as always succeeding.
- Changes to the disk by other processes during a run are not modelled. Between phases the file system changes only through the rewrite. A read failure in the rewrite phase is still handled as the script handles it: the phase fails, exit status 1, and earlier writes are kept. But that failure cannot arise from a successful discovery.
- `Promise.all` concurrency in `getAllFiles`: the walk is sequential. The output order (entries in listing order, subtrees flattened in place) is the same.
- `SRC_DIR` and `__dirname` come from the location of the script. The source root is a parameter, assumed absolute.
- Path handling covers POSIX absolute paths only. There are no Windows separators and no symbolic links.
- `\x` and `\u` escapes inside template literals are reported as `NotModelled` by `TemplateLiteral.ReadBody`. Escaped worker code never contains them, because every backslash is doubled.
- Unicode: text is a sequence of Unicode scalar values (Dafny's `char`), where JavaScript sees UTF-16 code units. The results are the same here. Decoding a file as `'utf-8'` yields a well-formed string, and every character of the expression and of the wrapper is in the Basic Multilingual Plane. File decoding itself is not modelled.
- A worker whose own code contains the idiom is inlined as is. A later `replace` in the same file could then hit that embedded copy. `Rewriter.SkeletonHasNoIdiom` covers only the wrapper's own text.
- Pipeline.TransformedCount: assumes the walk lists each `.js` path once. A real directory tree guarantees this, but the model's listing does not enforce unique names.
- Rewriter.RewriteStep: uses the literal replace. It differs from line 138 on worker code that holds `$&` or `$'` or ends in `$`; `Rewriter.AsWrittenAgreesOnLiteralWorkers` proves they agree on all other code.
- Rewriter.RewriteReferences: uses the literal replace and differs from line 138 on worker code that holds `$&` or `$'` or ends in `$`. `Rewriter.RewriteAllAgrees` proves the loops agree otherwise.
- Rewriter.TransformSpec: uses the literal replace and differs from line 138 on worker code that holds `$&` or `$'` or ends in `$`. `Rewriter.TransformAgreesOnLiteralWorkers` proves it equal to `Rewriter.TransformAsWritten` otherwise.
- Rewriter.TransformFile: uses the literal replace and differs from line 138 on worker code that holds `$&` or `$'` or ends in `$`, as `Rewriter.TransformSpec` does.
- Pipeline.TransformAll: uses the literal replace through `Rewriter.TransformSpec` (so does `Pipeline.TransformPhase`). It differs from line 138 on worker code that holds `$&` or `$'` or ends in `$`. The agreement is proved per file, not restated for the whole loop.
- Pipeline.TransformPhase: uses the literal replace through `Rewriter.TransformSpec`. It differs from line 138 on worker code that holds `$&` or `$'` or ends in `$`; the agreement is proved per file (`Rewriter.TransformAgreesOnLiteralWorkers`).
- Pipeline.RunSpec: uses the literal replace through `Pipeline.TransformPhase`. It differs from line 138 on worker code that holds `$&` or `$'` or ends in `$`; the agreement is proved per file.
- Pipeline.TransformWorkers: uses the literal replace through `Pipeline.RunSpec` and `Pipeline.TransformPhase`. It differs from line 138 on worker code that holds `$&` or `$'` or ends in `$`. The agreement is proved per file, not restated for the whole run.
- Rewriter.RewriteStepAsWritten: does not state the resolved case's new text, because that text is the bug in the Findings table. `Rewriter.DollarAmpersandCorrupts` and `Rewriter.TrailingDollarCorrupts` exhibit it.
- Other entry points of the template (bundler configuration, the scaffolding command) are not part of this model.

## Findings

| source | as written | input that shows it | evidently intended | confidence | as-written member | corrected member |
|---|---|---|---|---|---|---|
| template/scripts/transform-workers.js:138 | `newContent.replace(full, inlineWorker)` with a string replacement. `String.prototype.replace` expands the `$$`, `$&`, `` $` `` and `$'` patterns in `inlineWorker`. Escaping turns `$&` in the worker code into `\$&`, and the engine still expands that `$&`; `$'` is expanded the same way. | A file that is exactly `new Worker(new URL('./w.js', import.meta.url))`, with `w.js` containing `$&`. The embedded literal becomes `\` followed by the whole matched idiom, not `\$&`. | Insert the wrapper text literally, e.g. with a replacer function `() => inlineWorker`. | not executed | Rewriter.DollarAmpersandCorrupts | Rewriter.RewriteStep |
| template/scripts/transform-workers.js:138 | The same `replace`, where the worker code ends in `$` (a final `$$` included). Escaping turns that `$` into `\$`, and the wrapper's closing backtick follows it, which makes `` $` ``. | A file that is exactly `new Worker(new URL('./w.js', import.meta.url))`, with `w.js` containing `$`. The embedded text becomes `\` followed by the text before the match (here nothing) and then the rest of the wrapper without its closing backtick, so the template literal never closes. | Insert the wrapper text literally, e.g. with a replacer function `() => inlineWorker`. | not executed | Rewriter.TrailingDollarCorrupts | Rewriter.RewriteStep |
