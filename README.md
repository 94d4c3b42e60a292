# A verified model of the lastpush deployer core

The deployer (`agent.js`) turns an uploaded front-end project into a static
release. It unpacks the task archive, then runs a build loop that asks a
language-model planner for one bash command at a time. Each command is
executed, and a bounded summary of its output is fed back. The loop stops when
the planner answers with the completion phrase `操作完成`, when a reply
sanitizes to nothing, or when the step budget `MAX_STEPS` (default 30) runs
out. Afterwards the deployer looks for the directory holding the build output
and asks the planner for an nginx pseudo-static rule, which it validates and
replaces by a default when needed.

This project models that core in Dafny and proves what the code promises.

| file | module | models |
|---|---|---|
| `wrappers.dfy` | `Wrappers` | `Option` and `Result` |
| `text.dfy` | `Text` | JavaScript `trim` and `\s`, `startsWith`/`endsWith`, ASCII `toLowerCase`, the default string order of `sort`, integer rendering |
| `sanitizer.dfy` | `Sanitizer` | `sanitizeCommand` |
| `summary.dfy` | `Summary` | `summarizeOutput` |
| `build_loop.dfy` | `BuildLoop` | the build loop of `main` |
| `chat_url.dfy` | `ChatUrl` | `resolveChatCompletionsUrl` |
| `nginx.dfy` | `Nginx` | `normalizeNginxConfig`, `isValidNginxPseudoStatic`, `defaultNginxPseudoStatic` and the choice between them |
| `locator.dfy` | `Locator` | `findStaticOutputDir` |
| `archive.dfy` | `Archive` | `findTaskArchive` and the dispatch of `unzipTask` |

How the pieces are modelled:

- **Build loop.** The loop is an imperative method, `BuildLoopRun`.
  - The planner (`callOpenAI`) is a function from the conversation to its reply.
  - The shell (`execCommand`) is a function from the conversation so far and the command to `{code, stdout, stderr}`. The commands already run are exactly what the conversation records.
  - The sanitizer and summarizer are parameters too (the `Ports` datatype), so the loop's theorems hold for any of them. `DeployerPorts` plugs in the real `sanitizeCommand` and `summarizeOutput`, and `DeployerBuildLoop` runs the loop with them.
  - The method is proved equal to a recursive specification, `Run`. The lemmas are about `Run`.
- **Locator.** The file system is a tree of `Node`s whose entries are in `readdir` order.
  - The recursive `walk` is a recursive method. It threads the shared candidate list through as an accumulator.
  - It is proved equal to the functional specification `WalkSpec`.
- **Pure functions.** The remaining operations are pure functions with contracts, plus lemmas.

## Model

| member | source | states |
|---|---|---|
| Text.Trim | agent.js:157 | `trim` leaves neither end as white space (the ECMAScript WhiteSpace and LineTerminator set) |
| Text.TrimEmpty | agent.js:157 | text trims to the empty string exactly when it is all white space |
| Text.TrimOfPadded | agent.js:157 | trimming removes exactly the white space around trimmed text |
| Text.TrimOfTrimmed | agent.js:159 | `trim` is idempotent |
| Text.TrimEnd | agent.js:200 | `replace(/\s+$/g, "")` leaves no white space at the end |
| Text.Lower | agent.js:81 | `toLowerCase` keeps the length and folds each character on its own |
| Text.CodeUnitsShape | agent.js:72 | a character below U+10000 is one code unit, itself and not a high surrogate; any other is a high surrogate followed by a low surrogate |
| Text.Utf16Le | agent.js:72 | the default order of `sort`: strings compared by their UTF-16 code units, element by element, a proper prefix first; its properties are the four lemmas below |
| Text.Utf16LeTotal | agent.js:72 | the default sort order relates any two strings |
| Text.Utf16LeTransitive | agent.js:72 | the default sort order is transitive |
| Text.Utf16LeAntisymmetric | agent.js:72 | two strings ordered both ways are equal, so sorted order is unique |
| Text.Utf16Injective | agent.js:72 | different strings have different code-unit sequences |
| Text.SurrogateSortsFirst | agent.js:72 | code-unit order differs from code-point order: `📦.zip` (U+1F4E6) sorts before `（.zip` (U+FF08) |
| Text.IntToString | agent.js:166 | the template-literal rendering of an integer: a minus sign for negatives, then the decimal digits without leading zeros; read back by `IntToStringRoundTrip` |
| Text.IntToStringRoundTrip | agent.js:166 | the decimal rendering of the exit code reads back as the same integer, negative codes included |
| Sanitizer.SanitizeCommand | agent.js:153-162 | the sanitized command never starts or ends with white space |
| Sanitizer.SanitizeBlank | agent.js:154-157 | an empty or all-white-space reply yields the empty command |
| Sanitizer.SanitizeFenced | agent.js:157-159 | a reply fenced with a letters-only language tag, with any white space around it, yields the trimmed inner text |
| Sanitizer.SanitizeTagStopsAtNonLetter | agent.js:159 | the tag pattern `[a-zA-Z]*` stops at the first non-letter, so the rest of a tag such as `python3` stays in the command |
| Sanitizer.StripOpeningFence | agent.js:159 | text without a leading fence is unchanged; otherwise the result is a suffix of the text after the fence |
| Sanitizer.StripClosingFence | agent.js:159 | a trailing fence is removed and nothing else; text without one is unchanged |
| Sanitizer.SanitizePadded | agent.js:157-161 | unfenced text with white space around it is kept as it is |
| Sanitizer.PlainKept | agent.js:157-161 | a reply that starts with neither a backtick nor white space, and does not end in white space, is returned unchanged |
| Summary.Combined | agent.js:165-169 | the exit line, the stdout block and the stderr block joined by newlines; its layout is stated by `StdoutLayout`, `StderrLayout` and `ExitCodeReadable` |
| Summary.SummarizeOutput | agent.js:164-175 | at most 6000 + \|`\n...(truncated)`\| characters; longer than 6000 exactly when the combined text is; the combined text itself when it fits; otherwise its first 6000 characters followed by the marker |
| Summary.StdoutLayout | agent.js:165-169 | after the `exit_code:` line comes `stdout:` and the stream's text, or `(none)` when it is empty |
| Summary.StderrLayout | agent.js:165-169 | the combined text ends with `stderr:` and the stream's text, or `(none)` when it is empty |
| Summary.ExitCodeReadable | agent.js:164-175 | the planner can read the exact exit code back from the first line of the summary, truncated or not |
| Summary.NonePlaceholderAmbiguous | agent.js:167-168 | an empty stream and a stream that printed `(none)` give the same summary |
| Summary.MarkerWithoutTruncation | agent.js:171-174 | a short output that itself ends with the marker is passed through, so the marker does not prove truncation |
| BuildLoop.InitialConversation | agent.js:405 | the system message, then the user prompt; `RolesAlternate` builds on it |
| BuildLoop.Run | agent.js:409-428 | the loop from step 1: stop with an error on an empty command, succeed on the token, otherwise run the command and go on, until the budget is spent; characterized by `RunFromFacts`, `CompletedIff` and `RunBound` |
| BuildLoop.BuildLoopRun | agent.js:405-428 | the counted loop with its pushes, `completed` flag and two error exits computes `Run` |
| BuildLoop.DeployerBuildLoop | agent.js:405-428 | the loop with `sanitizeCommand` and `summarizeOutput` computes `Run` with those ports |
| BuildLoop.RunFromFacts | agent.js:409-424 | from any step on: the calls stay within the budget; the whole budget is spent exactly when it is exhausted; every reply but the terminating one is run; the final conversation is the one of the commands run; the run ends on the token or on an empty reply otherwise |
| BuildLoop.CompletedIff | agent.js:409-428 | the run completes exactly when some step within the budget sanitizes to the token and no earlier step sanitized to the empty string |
| BuildLoop.RunBound | agent.js:409-428 | at most `MAX_STEPS` planner calls; an exhausted run makes all of them; a terminating call appends nothing, so the conversation grows by two messages per command run |
| BuildLoop.ConversationShape | agent.js:405-423 | the first messages are kept, and each step appends the assistant message with its command, then the user message with the summary of that command's result |
| BuildLoop.RolesAlternate | agent.js:405-423 | starting from the system message and the prompt, roles alternate user/assistant whatever the planner says |
| BuildLoop.ObservationsBounded | agent.js:419-423 | every observation fed back is within any bound the summarizer keeps |
| BuildLoop.DeployerObservationsBounded | agent.js:419-423 | with `summarizeOutput`, every observation fed back is at most 6000 characters plus the marker |
| BuildLoop.ScriptedCommandAt | agent.js:410-411 | with a planner replaying a script, step k+1 runs the k-th reply, sanitized |
| BuildLoop.ScenarioCompletes | agent.js:409-428 | replies `echo hi`, `echo bye`, token with budget 3: completed after 3 calls, 2 commands run, 6 messages |
| BuildLoop.ScenarioExhausted | agent.js:409-428 | a planner that never sends the token, with budget 2: exhausted after 2 calls, both run |
| BuildLoop.ScriptRepliesKept | agent.js:153-162 | `sanitizeCommand` keeps the scripted replies |
| BuildLoop.DeployerScenarioCompletes | agent.js:405-428 | the completing scenario with `sanitizeCommand` and `summarizeOutput`: completed after 3 calls, 2 commands run, 6 messages |
| BuildLoop.DeployerScenarioExhausted | agent.js:405-428 | the exhausting scenario with `sanitizeCommand` and `summarizeOutput`: exhausted after 2 calls, 6 messages |
| BuildLoop.TokenRecognizedPadded | agent.js:409-417 | the token with any white space around it sanitizes to the token, the reply the loop stops on |
| BuildLoop.FencedTokenRecognized | agent.js:409-417 | the token inside a code fence sanitizes to the token as well |
| ChatUrl.StripTrailingSlashes | agent.js:178 | the result is a prefix of the URL, everything removed is `/`, and the result does not end in `/` |
| ChatUrl.ResolveChatCompletionsUrl | agent.js:177-186 | the endpoint always ends with `/chat/completions` and starts with the configured URL without its trailing slashes |
| ChatUrl.ResolveFixpoint | agent.js:179-181 | a URL is left unchanged exactly when it already ends with `/chat/completions` |
| ChatUrl.ResolveIdempotent | agent.js:177-186 | resolving twice is resolving once |
| ChatUrl.ResolveSpellings | agent.js:177-186 | a host, the host with trailing slashes, its `/v1/` base and its full endpoint all resolve to the same endpoint |
| Nginx.NormalizeNginxConfig | agent.js:188-190 | the normalized configuration has no white space at either end |
| Nginx.IsValidNginxPseudoStatic | agent.js:192-204 | non-empty after normalization, holds a `location /` block, and its last non-space character is `;`; characterized by `LocationBlockIff`, `EndsWithSemicolonIff` and `ValidEndsWithSemicolon` |
| Nginx.DefaultNginxPseudoStatic | agent.js:206-212 | the three-line single-page-application rule; see `DefaultHasBlock` and `DefaultRejected` |
| Nginx.LocationBlockIff | agent.js:197 | the scan for `location\s+\/\s*\{[\s\S]*\}` matches exactly when the pattern's pieces occur at some positions in order |
| Nginx.EndsWithSemicolonIff | agent.js:200 | `/[;]\s*$/` holds exactly when some `;` is followed only by white space |
| Nginx.ValidityOfNormalized | agent.js:462-465 | validity depends only on the normalized text, so validating the normalized reply again changes nothing |
| Nginx.ValidEndsWithSemicolon | agent.js:192-204 | every accepted configuration is non-empty and, normalized, ends in `;` |
| Nginx.ClosingBraceRejected | agent.js:192-204 | any configuration whose normalized text ends in `}` is rejected |
| Nginx.DefaultHasBlock | agent.js:206-212 | the default contains a `location /` block |
| Nginx.DefaultRejected | agent.js:192-212 | the validator rejects the default |
| Nginx.SelectPseudoStatic | agent.js:462-465 | a valid reply is written normalized; an invalid one is replaced by the default |
| Nginx.SelectionValidIff | agent.js:462-465 | the written configuration is valid exactly when the reply was; a valid reply is written normalized |
| Nginx.BlankReplyFallsBack | agent.js:462-465 | an empty or blank reply gives the default |
| Locator.WalkSpec | agent.js:267-287 | what `walk(dir, depth)` pushes: nothing at negative depth, else per entry in `readdir` order nothing for files and excluded names, the entry if it holds `index.html`, then the walk one level down; characterized by `WalkSound`, `WalkIndexed` and `WalkComplete` |
| Locator.Walk | agent.js:267-287 | appends to the candidate list exactly what `WalkSpec` says: per entry in order, nothing for files and excluded names, else the entry if it holds `index.html`, then the walk one level down; nothing at negative depth |
| Locator.FindEntry | agent.js:294-295 | the first entry of a directory with a given name, or none if no entry has it |
| Locator.PickLatest | agent.js:306-307 | the first candidate whose modification time no other candidate exceeds, which is the head after the stable descending sort |
| Locator.FindStaticOutputDir | agent.js:263-308 | null exactly when there is no candidate; otherwise the first candidate among those with the latest modification time |
| Locator.WalkSound | agent.js:267-289 | every candidate lies one to depth+1 levels below the walked directory and passes through no excluded name |
| Locator.WalkIndexed | agent.js:279-285 | every candidate is a directory below the walked one that holds an `index.html`, is reached through non-excluded directories, and carries its own modification time |
| Locator.WalkComplete | agent.js:267-289 | every directory with an `index.html` that is reached through non-excluded directories within depth+1 levels is a candidate |
| Locator.IndexedDirFound | agent.js:263-291 | a directory with an `index.html` reached in at most four levels from the root through non-excluded directories is among the candidates |
| Locator.WalkCandidatesIff | agent.js:263-289 | a path within reach of the walk from the root is a candidate with a given time exactly when it leads to a directory holding `index.html` with that modification time |
| Locator.Fallback | agent.js:291-300 | the fallback loop over `dist`, `build`, `out`, `public` computes `FallbackUpTo` |
| Locator.FallbackSound | agent.js:291-300 | each fallback candidate is a conventional name that a root entry has, with the first such entry's modification time |
| Locator.FallbackComplete | agent.js:291-300 | each conventional name that a root entry has is a fallback candidate with that entry's modification time |
| Locator.FallbackOnlyWhenWalkEmpty | agent.js:291-300 | the conventional names are used only when the walk found nothing; then the candidates are exactly the conventional names some root entry has, each with that entry's modification time |
| Archive.ArchiveNames | agent.js:68-71 | the kept names all have an archive suffix, and every file with one is kept |
| Archive.FindTaskArchive | agent.js:66-77 | the first archive name after sorting, joined to the task directory, or the no-archive error; characterized by `FindTaskArchiveCorrect` |
| Archive.SortNamesCorrect | agent.js:72 | the sort orders the names and is a permutation of them |
| Archive.FindTaskArchiveCorrect | agent.js:66-77 | fails, with the no-archive error for the task directory, exactly when no file has an archive suffix; otherwise returns such a file under the task directory that no other such name precedes |
| Archive.KindOf | agent.js:81-93 | the suffix chain on the lower-cased path: zip, 7z, tar.gz or tgz, rar, else none; `ArchiveNameIffKind` ties it to the filter |
| Archive.CommandFor | agent.js:83-90 | the command template of each kind, with the archive and target quoted |
| Archive.UnzipCommand | agent.js:81-93 | the unsupported-format error exactly when the lower-cased path has no known suffix; otherwise the command template of its kind |
| Archive.UnzipCommandBySuffix | agent.js:83-90 | `.zip` gives `unzip -o`, `.7z` gives `7z x`, `.tar.gz` and `.tgz` give `tar -xzf`, `.rar` gives `7z x … \|\| unrar x`, each with the archive and target quoted; the suffixes exclude each other, so the order of the checks does not matter |
| Archive.UnzipTask | agent.js:79-98 | an unsupported suffix gives the unsupported-format error before anything runs |
| Archive.UnzipFoundArchive | agent.js:66-98 | unpacking the archive `findTaskArchive` picks succeeds exactly when its command exits with 0, and fails only with the unzip-failed error |
| Archive.UnzipOutcome | agent.js:94-97 | success exactly when the exit code is 0; the error carries stderr, or stdout when stderr is empty |
| Archive.ArchiveNameIffKind | agent.js:71-93 | the filter of `findTaskArchive` and the suffix chain of `unzipTask` accept the same names |
| Archive.FoundArchiveIsSupported | agent.js:66-93 | the archive `findTaskArchive` picks never reaches the unsupported-format error |
| Archive.KindIgnoresCase | agent.js:81 | the dispatch does not depend on letter case |

## Left out

- `callOpenAI` (HTTPS, JSON, the API key): the planner is the abstract `Oracle` function. Its own empty-reply rejection and `trim` are part of that function here.
- `execCommand` (child processes, the 10 MiB buffer): the shell is the abstract `Shell` function.
- Environment and configuration loading, and the startup checks for missing variables.
- The parse of `MAX_STEPS`: the budget is an integer parameter. A budget of `NaN` behaves like one of 0 (no iteration, then the exhaustion error), and the model gives the same result for any budget ≤ 0.
- Prompt assembly: `listDirInfo`, `findPackageJsons` and `readPackageJsonInfo`. The initial conversation is a parameter, with `InitialConversation` giving its shape.
- `moveToRelease`, `copyDirFallback`, `isSameDevice`, `removeDir`, `ensureDir` and the writing of the `Pseudo-static` file (file-system effects).
- Logging, `async` ordering, and `readdir`/`stat` failures, which throw in the source.
- Text.LowerChar: folds ASCII letters only, while `toLowerCase` folds all of Unicode. Only ASCII suffixes are compared, so no decision changes.
- Summary.SummarizeOutput: `length` and `slice` count UTF-16 code units in JavaScript; the model counts Unicode code points. Outputs outside the Basic Multilingual Plane are cut at a different place.
- Text.IsSpace: the Zs category is written out as of Unicode 15.
- Nginx.LocationBlockIff: the regular expressions are modelled by scanning predicates, not by a regex engine. The greedy white-space skips are exact because `/` and `{` are not white space.
- Archive.FindTaskArchive: `path.join` is string concatenation with `/`, so `..` segments and a trailing separator on the task directory are not normalized. In the locator, paths are name sequences below the root.
- Locator.PickLatest: the sort is modelled by its result (V8's sort is stable), not by an in-place array sort. `mtimeMs` is an integer rather than a float, so NaN times and sub-millisecond ties are not modelled.
- Locator.FallbackUpTo: `pathExists` is true for a file too, so a file named `dist` becomes a fallback candidate. The model does the same and does not check `isDir` there.

## Quirks of the code

Behaviour of `agent.js` a reader might not expect. The model follows it, and the lemmas named prove it.

- **Fence tags.** The language tag of a fence is stripped only when it is letters only (`SanitizeTagStopsAtNonLetter`), not for any tag.
- **The completion token.** A fenced token is recognized (`FencedTokenRecognized`), so not every text other than the bare phrase fails to match it.
- **The truncation marker.** It can appear without truncation (`MarkerWithoutTruncation`). It is the length beyond 6000 that signals truncation exactly.
- **The walk.** It is depth-first in `readdir` order. It examines the root's entries and three levels below them.
- **The task archive.** The task directory may hold several archives; the first name in sorted order is taken. The order is by UTF-16 code units, so a name with a character above U+FFFF can sort before one with a character in U+E000-U+FFFF (`SurrogateSortsFirst`).
- **The nginx validator.** It rejects every configuration whose last character is `}` (`ClosingBraceRejected`). That includes its own default (`DefaultRejected`) and both configurations the prompt offers as examples. So in practice the default is written unless the reply ends in a `;`.
