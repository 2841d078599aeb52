# CppDefense: a verified model

CppDefense lets students defend their C++ work: a teacher's server hides the body of a function
(or plants small bugs), the student restores it, and a runner builds and tests the result in a
sandbox. This project models the parts of the system on which a verdict rests, and proves what
they promise. `dafny verify dfyconfig.toml` checks everything.

**The source parser** (`Lexer`, `Brackets`, `Declarations`, `Entities`, `EntityScanner`,
`SourceParser`) blanks everything that is not code, matches brackets with one stack per kind and
lists functions and types. What it must find is said a second time without it: `Lexemes` is a
grammar of source text and the scanner reads every text exactly so, and `DeclarationForms`,
`FunctionForms`, `TypeForms` and `CatalogueForms` say of a declaration's text alone which function
or type it declares, under which name it is listed, and when nothing is. An answer is checked on
its own as `{answer}` and then spliced into the real file. `SpliceLexing`, `SpliceMatching` and
`Catalogue` prove when that is enough. It is enough if and only if two things hold, which the code
does not check: no raw-string look-ahead of the patched file runs over a body brace, and no
parenthesis pair of the old file has exactly one end in the body. `Counterexamples` has a file and
an accepted answer for each.

**The defense queue** (`DefenseQueue`, `QueueInvariant`, `QueueHistory`, `QueueFairness`,
`QueueRows`, `QueueReports`, `DefenseRepository`) is a state machine over the rows of defenses,
jobs, leases and attempts; every transaction is one step at some later clock time. Rows are never
deleted, so a table is the sequence of its rows. Theorems are about every run from the empty
database and every continuation of it. `QueueReports` reads the state machine row by row: what one
event does to one row, and which event of a run has decided a defense. What an actor may do, the
row a locking query returned, the outcome of a report's content checks and fresh tokens are inputs
of a step.

**Hide and seek** (`Mutations`, `Substitution`, `Undo`, `Utf8`): sorted adjacent-only validation,
right-to-left splicing, one simultaneous substitution, its inverse. What a sort produced is an
input, constrained only by the comparison it sorts by. The reverse edits are accepted if and only
if no mutation deletes its fragment, because an edit must name a non-empty fragment to replace.
Deletions can be undone as well where the mutations, widened by untouched text around them, are
accepted; a file of which nothing is left is beyond restoring.

**The verified reference** (`TreeEncoding`, `ReferenceCache`, `ReferenceRuns`,
`ReferenceShortcut`, `HideValidation`, `SnapshotPruning`) is the shortcut that reports success
without executing an answer. Sandbox runs, the disk and the inspected environment are inputs, and
so is whatever other jobs leave in the shared stores while a sandbox runs. Digests are taken to be
collision free: a digest stands for the bytes that are hashed, and a cache key for its parts. Two
findings are stated as they are. A refreshed snapshot builds and tests again but reuses its
configure stage and renews its own date, so a proof can rest on a configure stage of any age
(`ReferenceRuns`). For every state of the stores, a recent run that configured, built and tested
exists if and only if the call makes one itself, which its inputs decide, or one is on record from
before or from another job. And a hide-and-seek validation inspects the environment twice: over a
snapshot it runs in the first and remembers the second. When no job has verified the second, the
references stay sound if and only if the two agree or nothing is remembered.

**The rest**: `SandboxOutput` (splitting the output stream), `Masking` (the two maskers, masking
and patching back, materializing an attempt), `Sha256`, `Sha256Constants` and `Sha256Bits` (the
in-place computation against FIPS 180-4), `Selection`, `CandidatePicker` and `PriorityQueue` (the
wheel, the uniform pick, the bounded heap), `Versions` and `SubmissionStore` (version numbers and
stored objects, over every sequence of operations). A commit whose answer is lost is modelled: its
uploads are deleted although the table refers to them, and exactly those keys become missing;
numbering is never harmed.

The model follows the code where documents differ from it: a job never persists the states
running, retry_wait or timed_out, although the schema lists them.

## Model

| member | source | states |
|---|---|---|
| `Lexer.LexSource` | src/infrastructure/source_parser/source_analysis.cpp:93-355 | The in-place seven-state loop computes `Lex` for every input; by `Lexemes.LexIsTheGrammar` that is the sanitized text, or the construct left open and its offset, of the text's lexemes |
| `Lexer.FindRawStringOpening` | src/infrastructure/source_parser/source_analysis.cpp:49-74 | The bounded look-ahead finds exactly the parenthesis that `RawOpening` defines: at most 16 delimiter characters after `R"`, braces and quotes among them |
| `Lexer.BlankRange` | src/infrastructure/source_parser/source_analysis.cpp:24-28 | Blanking turns each byte of the range into a space except line breaks and touches nothing else |
| `Lexer.ScanOne` | src/infrastructure/source_parser/source_analysis.cpp:112-340 | One turn of the loop takes the branch of the state it is in: new state, bytes consumed, kept or blanked, or the error; `Lexemes` says what the turns add up to |
| `Lexer.RunSplit` | src/infrastructure/source_parser/source_analysis.cpp:93-355 | A scan may be cut at any stopping point: running to the end is running to the cut and resuming there, including a failure before the cut |
| `Lexer.RunBytes` | src/infrastructure/source_parser/source_analysis.cpp:93-355 | Every byte the scanner writes is the original byte or its blank |
| `Lexer.KeptByte` | src/infrastructure/source_parser/source_analysis.cpp:93-355 | A byte that survives as something visible was consumed on its own by the code state, and the scan can be cut exactly in front of it |
| `Lexer.LexPreservesLayout` | src/infrastructure/source_parser/source_analysis.cpp:93-355 | Sanitizing keeps the length and every line break and otherwise changes bytes only to spaces |
| `Lexemes.WrittenIsRead` | src/infrastructure/source_parser/source_analysis.cpp:93-355 | For every list of lexemes - code byte, line comment, block comment, raw string, literal made of plain bytes and backslash pairs, directive with continuation lines - whose code bytes open nothing: the scanner keeps code bytes and blanks everything else, and a lexeme left open at the end is the error, at the offset where it began |
| `Lexemes.EveryTextIsRead` | src/infrastructure/source_parser/source_analysis.cpp:93-355 | Conversely every text, well formed or not, is such a list with such an ending |
| `Lexemes.LexIsTheGrammar` | src/infrastructure/source_parser/source_analysis.cpp:93-355 | So the scanner's answer is `r` if and only if the text is made of lexemes that read as `r`; the grammar never mentions the scanner |
| `Brackets.BuildSourceStructure` | src/infrastructure/source_parser/source_analysis.cpp:357-411 | Matching with two independent stacks succeeds if and only if each bracket kind is balanced; the tables then hold exactly the pairs that nesting depth defines, and a failure names the first closer with nothing to close or the last opener never closed |
| `Brackets.PairsNest` | src/infrastructure/source_parser/source_analysis.cpp:357-411 | Pairs of one kind never cross |
| `Brackets.PairUnique` | src/infrastructure/source_parser/source_analysis.cpp:357-411 | Matching is one to one |
| `Brackets.OpenerHasPair` | src/infrastructure/source_parser/source_analysis.cpp:357-411 | In balanced text every opener has a closer |
| `Brackets.CloserHasPair` | src/infrastructure/source_parser/source_analysis.cpp:357-411 | In balanced text every closer has an opener |
| `Brackets.TableUnique` | src/infrastructure/source_parser/source_analysis.cpp:357-411 | The match table is determined by the text alone |
| `SpliceLexing.RunBeforeCut` | src/infrastructure/source_parser/source_analysis.cpp:93-355 | Two files that agree on a stretch are scanned alike over it, up to the shift, as long as no raw-string look-ahead runs past its end |
| `SpliceLexing.RunBeforeEnd` | src/infrastructure/source_parser/source_analysis.cpp:93-355 | Two files with the same remaining bytes finish alike, up to the shift |
| `SpliceLexing.CutAtBrace` | src/infrastructure/source_parser/source_analysis.cpp:93-355 | At a brace that survives sanitizing the scanner stands in its code state away from a line start, whatever came before |
| `SpliceLexing.SpliceLexes` | src/infrastructure/simple_source_parser.cpp:34-57 | The patched file sanitizes to old prefix, sanitized answer and old suffix if and only if no raw-string look-ahead crosses a body brace |
| `SpliceMatching.SpliceBalances` | src/infrastructure/source_parser/source_analysis.cpp:357-411 | Replacing a brace pair's contents by a balanced text keeps the whole balanced if and only if the replaced part had equal depth at both ends |
| `SpliceMatching.SpliceKeepsParentheses` | src/infrastructure/source_parser/source_analysis.cpp:357-411 | After the splice the text is balanced and every outside parenthesis pair is kept, if and only if no pair had exactly one end in the old body |
| `SpliceMatching.TableMoves` | src/infrastructure/source_parser/source_analysis.cpp:357-411 | Outside the body, the match table of the patched text is the old one up to the shift |
| `SourceParser.Parse` | src/infrastructure/simple_source_parser.cpp:12-32 | Parsing succeeds exactly on files that sanitize and match, and returns their catalogue; otherwise it returns the lexer's own error, or the bracket of the sanitized text that does not match |
| `SourceParser.ValidateBody` | src/infrastructure/simple_source_parser.cpp:34-57 | An answer is accepted if and only if the wrapped answer sanitizes, matches and its first brace is closed by its last byte; the error says which of these fails |
| `SourceParser.SpliceText` | src/worker/worker.cpp:197-205 | For every file, body and accepted answer: the patched file has the expected sanitized text if and only if no raw-string look-ahead crosses a body brace |
| `SourceParser.SpliceBrackets` | src/worker/worker.cpp:197-205 | The expected text matches if and only if the old body held as many opening as closing parentheses, and keeps every outside pair if and only if none straddled the body; the braces always stay matched, the opening one with the brace after the answer |
| `SourceParser.SpliceTheorem` | src/worker/worker.cpp:197-205 | Checking the answer alone is enough: under the two conditions the patched file parses, its text is the expected one, the opening brace matches the brace after the answer and all outside pairs are kept up to the shift |
| `SourceParser.CatalogueStability` | src/infrastructure/source_parser/entity_parser.cpp:612-641 | After a reported function's body is replaced, the catalogue of the patched file has the same entities, kinds, names and order, moved only by the difference in bytes and lines, and the function itself is found with the same start and body start |
| `SourceParser.TypeCatalogueStability` | src/infrastructure/source_parser/entity_parser.cpp:612-641 | After the body of a reported class, struct or enum class is replaced, every entity outside that body, the type included, is listed as before, moved only by the difference in bytes and lines |
| `SourceParser.FunctionBody` | src/infrastructure/source_parser/entity_parser.cpp:612-641 | The body range recorded for a reported function is a matched brace pair of the code |
| `SourceParser.SanitizedLineBreaks` | src/infrastructure/source_parser/source_analysis.cpp:30-40 | Sanitized and original text have the same line starts |
| `Counterexamples.StraddlingParentheses` | src/worker/worker.cpp:186-205 | A function with a parenthesis around it that closes in its body: materializing an empty answer is accepted, and the resulting file no longer matches |
| `Counterexamples.CrossingRawLiteral` | src/worker/worker.cpp:186-205 | A function with a string prefix before its brace: materializing the answer `()` is accepted, and a raw-string look-ahead over the brace changes the text of the file |
| `Entities.CatalogueWellFormed` | src/infrastructure/source_parser/entity_parser.cpp:612-641 | For every matched source: start <= body start < body end <= end <= size with braces at the body's ends, line numbers in order, any two bodies disjoint or nested, and nothing reported inside a function body |
| `Entities.TypesAreListed` | src/infrastructure/source_parser/entity_parser.cpp:588-599 | The list of types holds exactly the type candidates of all braces |
| `Entities.SmallestAround` | src/infrastructure/source_parser/entity_parser.cpp:569-586 | The containing type is one of the types around the offset, and none of those is smaller |
| `EntityScanner.BuildLineStarts` | src/infrastructure/source_parser/source_analysis.cpp:30-40 | The loop lists offset 0 and the offset after every line break |
| `EntityScanner.LineFromOffset` | src/infrastructure/source_parser/source_analysis.hpp:56-61 | The binary search returns one more than the number of line breaks before the offset |
| `EntityScanner.FindPreviousBoundary` | src/infrastructure/source_parser/source_analysis.hpp:63-73 | The backward loop stops just after the nearest `;`, `{` or `}` |
| `EntityScanner.SkipWhitespaceForward` | src/infrastructure/source_parser/source_analysis.hpp:75-82 | The loop stops at the first byte that is not white space, or at the end |
| `EntityScanner.FindLastToken` | src/infrastructure/source_parser/entity_parser.cpp:101-123 | The backward search finds the last whole-word occurrence inside the declaration |
| `EntityScanner.FindQualifierStart` | src/infrastructure/source_parser/entity_parser.cpp:125-152 | The loop walks back over `name::` parts exactly as far as the declaration's text decides |
| `EntityScanner.ExtractFunctionName` | src/infrastructure/source_parser/entity_parser.cpp:154-210 | Operators, destructors, qualified and plain names are read as the declaration's text defines them |
| `EntityScanner.FindConstructorInitializerColon` | src/infrastructure/source_parser/entity_parser.cpp:326-355 | The loop finds the colon that starts a constructor's initializer list; by `DeclarationForms.ColonCuts` that is the first lone colon that belongs to no access specifier |
| `EntityScanner.SearchDeclaration` | src/infrastructure/source_parser/entity_parser.cpp:379-440 | The right-to-left search over closing parentheses computes `FindFunction`; by `FunctionForms.DeclaredIsFound` that is the function the text declares |
| `EntityScanner.TryFindFunctionCandidate` | src/infrastructure/source_parser/entity_parser.cpp:365-450 | The candidate of a brace is the function that the text in front of it declares (`CatalogueForms.FunctionIsOpened`) |
| `EntityScanner.FindTypeKeyword` | src/infrastructure/source_parser/entity_parser.cpp:460-491 | The loop finds the last type keyword that the declaration defines |
| `EntityScanner.TryFindTypeCandidate` | src/infrastructure/source_parser/entity_parser.cpp:493-540 | The type candidate of a brace depends only on the declaration in front of it, its closing brace and the `;` after it |
| `EntityScanner.FindTypes` | src/infrastructure/source_parser/entity_parser.cpp:588-599 | The loop lists the type candidates of all braces in order |
| `EntityScanner.ContainingType` | src/infrastructure/source_parser/entity_parser.cpp:569-586 | The loop finds the smallest type around an offset, the earliest on ties |
| `EntityScanner.FindSourceEntities` | src/infrastructure/source_parser/entity_parser.cpp:612-641 | The loop lists the entities that `CatalogueForms.CatalogueLists` describes: types and functions of all braces that lie in no function |
| `DeclarationForms.ColonCuts` | src/infrastructure/source_parser/entity_parser.cpp:326-355 | The declaration is cut at a position if and only if that is the first `:` that is not part of `::` and follows no `public`, `protected` or `private`, or its end when there is none |
| `DeclarationForms.QualifiedIsPath` | src/infrastructure/source_parser/entity_parser.cpp:44-75 | The qualified names that are accepted are exactly identifiers, possibly behind `~`, joined by `::`, with a final `::` tolerated |
| `DeclarationForms.OperatorIsForm` | src/infrastructure/source_parser/entity_parser.cpp:224-253 | The operator names that are accepted are exactly a path with its separator, if any, blanks, the first `operator` and something behind it |
| `DeclarationForms.WalksBack` | src/infrastructure/source_parser/entity_parser.cpp:125-152 | In front of `operator`, a chain of identifiers and separators with blanks around them is walked back to its beginning, however long it is |
| `FunctionForms.NameIsExtracted` | src/infrastructure/source_parser/entity_parser.cpp:154-210 | The name in front of a parenthesis, said of the text alone - the longest run of name characters, or the qualified text from the last whole word `operator` on - is what the extraction gives |
| `FunctionForms.AcceptsIsHead` | src/infrastructure/source_parser/entity_parser.cpp:391-430 | A pair of parentheses is accepted if and only if an allowed name that does not end with a rejected word stands in front of it and nothing behind it, up to the cut, is `;`, `=`, a brace or a lone colon; the name is then that one |
| `FunctionForms.FunctionIsFound` | src/infrastructure/source_parser/entity_parser.cpp:365-450 | A function is found if and only if some outermost pair before the cut belongs to one; the rightmost such pair gives its name, its start behind the last access specifier and whether `friend` precedes it; otherwise nothing is found |
| `FunctionForms.DeclaredIsFound` | src/infrastructure/source_parser/entity_parser.cpp:365-450 | The same without naming the cut: the head found is `h` if and only if the text declares `h` |
| `FunctionForms.SignatureIsFound` | src/infrastructure/source_parser/entity_parser.cpp:365-450 | For every front, name, blanks, parameters, suffix without parentheses and initializer list that fit together, with matched parentheses: the function found has exactly that name, so a constructor is not taken for one of its member initializers |
| `FunctionForms.ConstructorIsSignature` | src/infrastructure/source_parser/entity_parser.cpp:374-378 | The text ` P(int v) : x(v) ` is such a declaration, with the name `P` |
| `FunctionForms.ControlIsNoHead` | src/infrastructure/source_parser/entity_parser.cpp:16-22 | Parentheses behind `if`, `for`, `while`, `switch` or `catch` never make a function |
| `TypeForms.TypeIsFound` | src/infrastructure/source_parser/entity_parser.cpp:460-540 | A type is found if and only if the last word `class` or `struct` is followed by a name and then by no parenthesis; it has that name, and its kind and start are those of `enum class` when `enum` is the word before |
| `CatalogueForms.WindowHasPartners` | src/infrastructure/source_parser/entity_parser.cpp:379-395 | The parenthesis pairs inside a declaration of a matched source nest, which is what the search relies on |
| `CatalogueForms.FunctionIsOpened` | src/infrastructure/source_parser/entity_parser.cpp:365-450 | The function candidate of a brace is `c` if and only if the declaration in front of the brace declares it, its body is the brace's pair and its range ends there |
| `CatalogueForms.TypeIsOpened` | src/infrastructure/source_parser/entity_parser.cpp:493-540 | The type candidate of a brace is `c` if and only if the declaration declares it, its body is the brace's pair and its range ends there or behind the `;` that follows |
| `CatalogueForms.CatalogueLists` | src/infrastructure/source_parser/entity_parser.cpp:612-641 | An entry is in the catalogue if and only if it is the record of a brace of a type or function that lies in no function: range, body and the four line numbers |
| `CatalogueForms.ListedName` | src/infrastructure/source_parser/entity_parser.cpp:561-586 | A member gets the name of the innermost type around it in front; a friend, a name with a qualifier and a function outside every type keep their own |
| `Catalogue.WindowMoves` | src/infrastructure/source_parser/entity_parser.cpp:365-450 | A declaration outside the replaced body has the same text in the patched file |
| `Catalogue.FunctionMoves` | src/infrastructure/source_parser/entity_parser.cpp:365-450 | A function candidate outside the body is the same candidate in the patched text, moved |
| `Catalogue.TypeMoves` | src/infrastructure/source_parser/entity_parser.cpp:493-540 | A type candidate outside the body is the same candidate in the patched text, moved |
| `Catalogue.InnermostMoves` | src/infrastructure/source_parser/entity_parser.cpp:569-586 | The smallest type around an outside offset is the same type, moved, although enclosing types change size |
| `Catalogue.CatalogueMoves` | src/infrastructure/source_parser/entity_parser.cpp:612-641 | For any two matched texts that differ only in one function body, the second catalogue is the first one moved |
| `Catalogue.TypeBodyMoves` | src/infrastructure/source_parser/entity_parser.cpp:612-641 | For any two matched texts that differ only in one type body, the entities outside it are the same, moved |
| `Catalogue.InsideIsSkipped` | src/infrastructure/source_parser/entity_parser.cpp:612-641 | A scan that enters a pair of braces arrives behind it, having reported only entities inside |
| `Masking.MaskedSource` | src/worker/worker.cpp:126-155 | The run-based placement produces `MaskedBody`, the blanked body with the marker at the first place where it fits, and refuses bad ranges |
| `Masking.MaskRepositoryBody` | backend/internal/transport/httpapi/defense.go:253-278 | The window-based placement produces the same `MaskedBody`, so both maskers give identical bytes on every source and range |
| `Masking.MaskedBodyHides` | src/worker/worker.cpp:126-155 | Masking keeps the length, every byte outside the body and every line break; inside there is nothing but blanks, line breaks and the marker |
| `Masking.MarkerStandsFirst` | src/worker/worker.cpp:126-155 | The marker stands at the first ten bytes of the body on one line, the rest of the body is blank, and all of it is when there is no such place |
| `Masking.Mask` | src/infrastructure/file_masker.cpp:25-88 | The blanking loop and its range and brace errors |
| `Masking.Patch` | src/infrastructure/file_patcher.cpp:63-86 | Patching succeeds exactly for valid ranges and accepted replacements and then splices, otherwise reports which check failed |
| `Masking.MaskThenPatch` | src/infrastructure/file_patcher.cpp:63-86 | Blanking a body and patching the original body back restores the file exactly |
| `Masking.Materialize` | src/worker/worker.cpp:166-209 | An attempt is materialized if and only if the digest matches, the range is valid, the file parses, the selection is one of its entities and the answer is accepted; the result is the spliced file |
| `DefenseRepository.Repository.StartDefense` | backend/internal/infrastructure/postgres/defense.go:103-158 | The two lookups, the insert, the status update and the job insert, in order, equal one step; the invariant is kept |
| `DefenseRepository.Repository.ReadDefense` | backend/internal/infrastructure/postgres/defense.go:159-160 | The guarded update expires exactly the named defense, only when it is active and its deadline has passed; the invariant is kept |
| `DefenseRepository.Repository.ConfigureRestore` | backend/internal/infrastructure/postgres/defense.go:262-322 | The checks, the guarded update and the job insert equal one step on a ready defense, with 60 to 1800 seconds and a selected candidate; the invariant is kept |
| `DefenseRepository.Repository.ConfigureHiding` | backend/internal/infrastructure/postgres/hide_seek.go:50-88 | The same for hide and seek with one to five mutations; the invariant is kept |
| `DefenseRepository.Repository.CancelByUser` | backend/internal/infrastructure/postgres/defense.go:442-467 | The four row-by-row updates, the last of which looks up jobs the third has just changed, equal one simultaneous step; the invariant is kept |
| `DefenseRepository.Repository.SubmitAnswer` | backend/internal/infrastructure/postgres/defense.go:468-505 | The conflict lookup, the largest-number query and the two inserts equal one step that accepts only while active, before the deadline and without another pending attempt; the invariant is kept |
| `DefenseRepository.Repository.ExpireLeases` | backend/internal/infrastructure/postgres/defense.go:567-597 | One update of the jobs and then up to three statements per returned job equal one simultaneous update: back to the queue while retries remain, otherwise dead together with what waited for the job |
| `DefenseRepository.Repository.LeaseNext` | backend/internal/infrastructure/postgres/defense.go:557-627 | After expiry, the first available job by priority and creation is leased under a fresh token for 120 seconds; the invariant is kept |
| `DefenseRepository.Repository.Beat` | backend/internal/infrastructure/postgres/defense.go:691-699 | A heartbeat is accepted exactly for the current unexpired token of a held job; the invariant is kept |
| `DefenseRepository.Repository.ReportCompletion` | backend/internal/infrastructure/postgres/defense.go:700-852 | The statements of a completion, through the state running and the guarded updates of each mode, equal one step; what that step does to every row is `QueueReports`; an abort leaves no trace; the invariant is kept |
| `DefenseRepository.Update` | backend/internal/infrastructure/postgres/defense.go:442-467 | An update statement changes exactly the rows its condition selects, and reports none affected exactly when there are none |
| `QueueInvariant.StepKeepsInv` | backend/internal/infrastructure/postgres/defense.go:103-158 | Every transaction at every later clock time keeps the whole invariant of defenses, jobs, attempts and leases |
| `QueueInvariant.ReachableInv` | backend/internal/infrastructure/postgres/defense.go:700-852 | The invariant holds after every run from the empty database |
| `QueueInvariant.CompleteKeepsInv` | backend/internal/infrastructure/postgres/hide_seek.go:90-104 | Completing a preparation or a check, in both modes, keeps the invariant |
| `QueueHistory.StepLater` | backend/internal/infrastructure/postgres/defense.go:442-505 | No step takes back a fact: terminal defenses, decided attempts, finished jobs and released leases stay, dates are set once |
| `QueueHistory.CouplingOnEveryRun` | backend/internal/infrastructure/postgres/defense.go:700-852 | After every run a defense is preparing iff it has exactly one live prepare job, an attempt pending iff exactly one live check job, and a submission version has at most one open defense |
| `QueueHistory.LifecycleOnEveryRun` | backend/internal/infrastructure/postgres/defense.go:751-835 | Over every run and continuation: terminal states never change, a defense that was active stays active or becomes terminal, so active is entered at most once, start and deadline are set once with deadline = start + limit and limit in 60..1800, the catalogue is inserted at most once, and a passed defense has a passed attempt accepted strictly before the deadline |
| `QueueHistory.LeasesOnEveryRun` | backend/internal/infrastructure/postgres/defense.go:567-627 | After every run a job's leases are numbered 1..n without gaps, at most one is unreleased, n <= max_retries + 1, with equality for a dead job |
| `QueueHistory.HolderRow` | backend/internal/infrastructure/postgres/defense.go:691-722 | A token that a heartbeat or completion accepts is the token of the job's one unreleased lease |
| `QueueHistory.ReleasedTokenIsDead` | backend/internal/infrastructure/postgres/defense.go:836-846 | The token of a lease that expired, was cancelled or completed changes nothing in any later state |
| `QueueHistory.CompletionIsOnce` | backend/internal/infrastructure/postgres/defense.go:700-722 | After a completion that took effect, no heartbeat or completion of that job, under any token, ever changes anything again |
| `QueueReports.DefenseAfter` | backend/internal/infrastructure/postgres/defense.go:700-852 | What every event does to every defense, read off its row, its job and the report: an active one is passed if and only if a check report under the running lease of one of its jobs says passed, a preparing one becomes active if and only if the report on its prepare job is good in its mode, and so on for ready, error, expired and cancelled; otherwise the row stays |
| `QueueReports.NewDefenses` | backend/internal/infrastructure/postgres/defense.go:103-158 | A defense is added if and only if it may be started and the submission has neither one with this key nor an open one |
| `QueueReports.AttemptAfter` | backend/internal/infrastructure/postgres/defense.go:822-826 | A pending attempt takes exactly the outcome of the report on it, or an error when it is cancelled or its job is lost; a decided one stays |
| `QueueReports.NewAttempts` | backend/internal/infrastructure/postgres/defense.go:468-505 | An attempt is accepted if and only if its defense is active and in time, none of it is pending and its key is new |
| `QueueReports.JobAfter` | backend/internal/infrastructure/postgres/defense.go:567-627 | What every event does to every job: finished by its report, cancelled with its defense, renewed by a heartbeat for 120 seconds, taken back with one more retry or dead for want of one, handed out when picked |
| `QueueReports.NewJobs` | backend/internal/infrastructure/postgres/defense.go:140-158 | A job is added if and only if a defense is started or configured or an attempt accepted, and belongs to it |
| `QueueReports.PickIsFirst` | backend/internal/infrastructure/postgres/defense.go:582-600 | The job handed out waits, and none that waits has a higher priority, or the same and an earlier creation; nothing is handed out if and only if nothing waits |
| `QueueReports.LeaseAfter` | backend/internal/infrastructure/postgres/defense.go:836-846 | An open lease is released exactly when its job is finished, cancelled or taken back, with that reason |
| `QueueReports.PassedIsReported` | backend/internal/infrastructure/postgres/defense.go:818-835 | At the end of every run a defense is passed if and only if at some point of it the defense was active and a completion under a held lease of one of its check jobs reported a pass |
| `QueueReports.StartedIsReported` | backend/internal/infrastructure/postgres/defense.go:738-800 | At the end of every run a defense was started at a time if and only if it was preparing then and a good report on its prepare job came at that time |
| `QueueFairness.GrantsPaid` | backend/internal/infrastructure/postgres/defense.go:567-616 | While a job waits, the leases granted to others equal the decrease of the summed lease budget of the jobs created before it |
| `QueueFairness.BoundedOvertaking` | backend/internal/infrastructure/postgres/defense.go:567-616 | With equal priorities and distinct creation times, the leases granted before a queued job is first leased never exceed that budget |
| `QueueRows.StepIsLocal` | backend/internal/infrastructure/postgres/defense.go:442-505 | A transaction leaves the defense row, jobs, attempts and leases of every defense it is not about exactly as they were, and adds none to it |
| `QueueRows.StepKeepsNumbers` | backend/internal/infrastructure/postgres/defense.go:486-490 | The largest attempt number plus one continues the numbering of the defense |
| `QueueRows.AttemptsOnEveryRun` | backend/internal/infrastructure/postgres/defense.go:468-505 | After every run the attempts of a defense are numbered exactly 1..n, in order of acceptance |
| `Mutations.Validate` | backend/internal/application/hideseek/project.go:44-72 | For whatever order the sort produced, the adjacent-only check accepts exactly the lists of 1 to 5 fitting mutations that are pairwise disjoint |
| `Mutations.AdjacentSeparates` | backend/internal/application/hideseek/project.go:66-69 | In a sorted list of non-empty ranges, separation of neighbours separates every pair of one file |
| `Mutations.ValidityIgnoresOrder` | backend/internal/application/hideseek/project.go:44-72 | Whether a list is accepted does not depend on its order |
| `Substitution.Apply` | backend/internal/application/hideseek/project.go:74-92 | Right-to-left splicing, in any order the sort allows, succeeds exactly for valid lists and equals one simultaneous substitution in the original files |
| `Substitution.OrderDoesNotMatter` | backend/internal/application/hideseek/project.go:74-92 | Reordering the mutations gives the same files |
| `Substitution.FileViewAgrees` | backend/internal/transport/httpapi/defense.go:184-198 | One file's mutations alone are accepted for that file alone and give the bytes the whole application gives it |
| `Substitution.ApplyIsConfined` | backend/internal/application/hideseek/project.go:62-100 | Accepted mutations leave every file alone that is not editable or that none of them names |
| `Substitution.ApplyKeepsUtf8` | backend/internal/application/hideseek/project.go:62-64 | Validated mutations keep every well-formed UTF-8 file well formed |
| `Utf8.FragmentOnBoundaries` | backend/internal/application/hideseek/project.go:62-64 | A non-empty well-formed fragment of well-formed text starts and ends on character boundaries (section 4 of RFC 3629) |
| `Utf8.ValidIsEncoding` | backend/internal/application/hideseek/project.go:62-64 | A text is well formed if and only if it is the encoding of a sequence of characters up to 10FFFF, surrogates excluded (section 3 of RFC 3629) |
| `Undo.UndoTheorem` | backend/internal/application/hideseek/project.go:74-92 | The list of reverse edits, moved to where the edits land, is accepted if and only if no mutation deletes its fragment, and then restores every file exactly |
| `Undo.ErasureCannotBeUndone` | backend/internal/application/hideseek/project.go:62-64 | When a mutation erased a whole file, no accepted list of mutations restores the files |
| `Undo.RewriteTheorem` | backend/internal/application/hideseek/project.go:62-64 | Once nothing is left of a mutated file, no accepted list restores it; as long as something is, one edit over the whole file restores it and touches no other file, and that edit is accepted exactly when both contents are within the size of an edit |
| `Undo.WidenedIsSame` | backend/internal/application/hideseek/project.go:74-92 | Widening mutations by untouched text around them does not change the resulting files |
| `Undo.WidenedUndo` | backend/internal/application/hideseek/project.go:74-92 | Deletions in files of any size: when the mutations can be widened to an accepted list that deletes nothing, its reverse edits are accepted and restore all files at once |
| `SandboxOutput.Splitter.WriteLog` | backend/internal/runner/worker_client.go:42-54 | The capped buffer holds the truncation of everything written |
| `SandboxOutput.Splitter.WriteArtifact` | backend/internal/runner/sandbox.go:269-282 | A write succeeds exactly while limit and writer allow all of it, and never writes anything but a prefix |
| `SandboxOutput.Splitter.Write` | backend/internal/runner/sandbox.go:236-261 | After each write the fields depend only on the text so far, not on how it was cut; it fails exactly when the artifact outgrows the limit or its writer |
| `SandboxOutput.Splitter.Finish` | backend/internal/runner/sandbox.go:283-283 | The pending tail joins the log |
| `SandboxOutput.IndexInTail` | backend/internal/runner/sandbox.go:245-259 | Keeping one marker's length of unlogged text is enough to see every marker, at its right place |
| `SandboxOutput.Capture` | backend/internal/runner/sandbox.go:236-283 | For every way of cutting the output: success, log and artifact are those of the joined text; the log is the text before the first marker, truncated, even when the artifact is refused |
| `SandboxOutput.CutAtMarker` | backend/internal/runner/sandbox.go:236-283 | Output with a first marker is cut there: the log is what comes before, up to 16 MiB and one byte, the artifact what comes after |
| `SandboxOutput.NoMarkerNoArtifact` | backend/internal/runner/sandbox.go:236-283 | Output without a marker, or of a run that exports nothing, is all log |
| `TreeEncoding.PrefixDecodes` | backend/internal/runner/reference.go:34-65 | Encoded trees are in the prefix order exactly when the trees are, so the missing terminator loses nothing |
| `TreeEncoding.UniquelyDecodable` | backend/internal/runner/reference.go:34-65 | Two trees have the same stream if and only if they are the same list of directories, paths and contents |
| `TreeEncoding.ProjectStream` | backend/internal/runner/reference.go:34-65 | The walk feeds exactly this stream, and fails exactly on a special file |
| `ReferenceCache.Runner.LoadSnapshot` | backend/internal/runner/snapshot_store.go:156-180 | A stored snapshot is accepted if and only if it is there, intact and within its time to live, and it then rests on a whole run of its identity |
| `ReferenceCache.Runner.RefreshSnapshot` | backend/internal/runner/snapshot_build.go:39-62 | A refresh that passes records a pass over the stored configure stage and renews the snapshot; one that fails removes the snapshot and records nothing |
| `ReferenceCache.Runner.BuildSnapshot` | backend/internal/runner/snapshot_build.go:63-131 | A snapshot is published exactly if the original was configured, built, exported, unpacked, tested and stored; the whole pass recorded is the only pass this call adds |
| `ReferenceCache.Runner.EnsureSnapshot` | backend/internal/runner/snapshot_build.go:25-131 | What is reused, refreshed, built, recorded and returned is read off the inputs; a reuse adds no pass and takes no time; with refresh asked, a snapshot comes only with a pass of the same identity less than an hour old or made in this call, whatever other jobs do meanwhile |
| `ReferenceCache.Runner.Store` | backend/internal/runner/reference.go:122-127 | The map never exceeds 256 entries, and stays sound exactly when the stored proof is backed by a pass |
| `ReferenceCache.Runner.RememberReference` | backend/internal/runner/reference.go:113-128 | Remembering keeps the references sound if and only if the remembered identity has just passed |
| `ReferenceCache.Runner.VerifyBySnapshot` | backend/internal/runner/reference.go:131-148 | The snapshot half of the verification: when it settles the matter, when it yields a proof and what it records are read off the inputs |
| `ReferenceCache.Runner.VerifyByReference` | backend/internal/runner/reference.go:149-182 | There is a proof if and only if the environment was seen and a reference younger than one hour is held, or a whole run passes and is remembered or meets a reference another job has left; when the run is not remembered the proof is whatever older one the map still holds |
| `ReferenceCache.Runner.VerifyOriginal` | backend/internal/runner/reference.go:130-182 | A proof is returned if and only if the snapshot is reused, refreshed or built with success, or it gives no verdict and a young reference or a passing run does, all read off the inputs; this very tree, version, session, image and policy then has a passing run less than an hour old or made in this call, and it is the proof of a recorded pass of that identity; for every sound store, there is such a run that configured, built and tested if and only if this call makes one itself, which its inputs decide, or one is on record without it |
| `ReferenceCache.WholeByOwn` | backend/internal/runner/reference.go:130-182 | A recent whole run is the call's own or was there without it |
| `ReferenceRuns.ConfigureIsOld` | backend/internal/runner/snapshot_build.go:39-62 | For every n, a run with n refreshes after which a proof is returned although the only run that configured the project is n + 1 hours old |
| `ReferenceRuns.AskedAgain` | backend/internal/runner/snapshot_build.go:36-39 | A moment after a refresh the snapshot is reused, nothing being due, and still no whole run is recent |
| `ReferenceRuns.RefreshedOften` | backend/internal/runner/snapshot_build.go:39-62 | A snapshot refreshed any number of times is renewed each time while the last run that configured the project stays the first |
| `ReferenceRuns.ProofIsStale` | backend/internal/runner/reference.go:174-181 | A run that passes but is not remembered, reported with an expired proof |
| `ReferenceCache.SameIdentitySameTree` | backend/internal/runner/reference.go:102-111 | Two identities are equal if and only if request, tree and environment are |
| `ReferenceCache.MergedIsSound` | backend/internal/runner/reference.go:113-128 | Whatever sound work other jobs interleave, the stores stay sound and no pass is forgotten |
| `ReferenceCache.PassKeepsGrounded` | backend/internal/runner/snapshot_build.go:39-62 | Every pass, also one over a stored configure stage, rests on an earlier whole run of the same identity |
| `ReferenceShortcut.NormalizedConcat` | backend/internal/runner/reference.go:30-32 | Line-ending replacement works piecewise unless a cut splits a line ending |
| `ReferenceShortcut.RestoreMeansSameFile` | backend/internal/runner/reference.go:184-198 | Comparing bodies up to line endings decides exactly whether the file with the answer spliced in equals the original up to line endings |
| `ReferenceShortcut.SameSources` | backend/internal/runner/reference.go:200-211 | The loop decides equality of names and of contents up to line endings |
| `ReferenceShortcut.WrittenIsSame` | backend/internal/runner/hide_seek.go:159-166 | Writing files that are the original ones up to line endings gives the original tree up to line endings |
| `ReferenceShortcut.Check` | backend/internal/runner/agent.go:146-180 | A restore check reports success if and only if the attempt ran with configure, build and test all good, or the file is the original up to line endings and the verification of the original yields a proof, which its inputs decide; failure if and only if it ran, a stage failed and the infrastructure did not; an error otherwise. A proof comes with a certified tree, and a recent whole run exists if and only if the verification made one or one is on record without it |
| `ReferenceShortcut.CheckHide` | backend/internal/runner/hide_seek.go:139-183 | The same for hide and seek, with an error for files that cannot be read, mutations that do not apply and edits that are not allowed: the tree with every file mutated and then edited must be the original tree up to line endings |
| `HideValidation.OriginalRestored` | backend/internal/runner/hide_seek.go:112-125 | Writing the mutated files and then the original ones leaves the tree as it was |
| `HideValidation.ValidateHide` | backend/internal/runner/hide_seek.go:72-137 | A challenge is valid if and only if the mutations are accepted, the baseline passes, the mutated project builds and fails with the test runner's status and the restored original passes, all read off the inputs; the references stay sound when both inspections of the environment agree, and when nobody has verified the second they do exactly unless a valid challenge is remembered for it after runs over a snapshot of the first |
| `HideValidation.MovedEnvironment` | backend/internal/runner/hide_seek.go:86-133 | A run in which the sandbox image is replaced between the two inspections and a reference is stored for an image in which nothing ran |
| `SnapshotPruning.Prune` | backend/internal/runner/snapshot_store.go:249-295 | A removable snapshot goes exactly when it is too old or the limits are still exceeded at its turn; so every one past its age goes unless kept or locked, none other goes while size and count are within the limits, afterwards the limits hold or nothing more could go, and no removable snapshot older than a removed one stays |
| `Sha256.Pad` | src/core/sha256.cpp:20-24 | The growing buffer is the padding of section 5.1.1 of FIPS 180-4 with the fewest zero bytes |
| `Sha256.PaddedBlocks` | src/core/sha256.cpp:20-24 | Padding makes whole 64-byte blocks |
| `Sha256.PaddingInjective` | src/core/sha256.cpp:20-24 | Different messages have different paddings, of any length |
| `Sha256.FillSchedule` | src/core/sha256.cpp:26-34 | The array filled in place is the recursive word schedule |
| `Sha256.Rotate` | src/core/sha256.cpp:36-42 | Moving the registers down one by one is one round of section 6.2.2 of FIPS 180-4 |
| `Sha256.Compress` | src/core/sha256.cpp:35-43 | The loop of rounds is the recursive definition |
| `Sha256.Digest` | src/core/sha256.cpp:8-52 | For every message the result is the hash of FIPS 180-4 printed as 64 lower-case hexadecimal digits |
| `Sha256.HexInjective` | src/core/sha256.cpp:45-51 | The printed digits determine the hash value |
| `Sha256Constants.ConstantsAreRoots` | src/core/sha256.cpp:9-17 | Every round constant is the first 32 bits of the fractional part of the cube root of its prime (section 4.2.2 of FIPS 180-4) |
| `Sha256Constants.InitialIsRoots` | src/core/sha256.cpp:18-19 | The initial hash value is made of the square roots of the first eight primes (section 5.3.3) |
| `Sha256Bits.ChoiceOfBits` | src/core/sha256.cpp:38-38 | The choice takes the bit of its second argument where the first has a one, elsewhere that of the third |
| `Sha256Bits.MajorityOfBits` | src/core/sha256.cpp:40-40 | The majority has a one exactly where two of its arguments do |
| `Sha256Bits.SigmasOfTopBit` | src/core/sha256.cpp:31-39 | The four sigma functions move a single bit by the amounts of section 4.1.2 |
| `Selection.WheelIgnoresOrder` | backend/internal/infrastructure/postgres/defense.go:324-391 | For every ordering of a catalogue with distinct ids and ranks, the wheel, its order and the selection are the same |
| `Selection.WheelContents` | backend/internal/infrastructure/postgres/defense.go:324-385 | There is a wheel exactly when the named candidate exists and the pool is large enough; it has `size` distinct entries with the selection, everybody in the pool whom fewer than the share `count - (count + 1) / 3` (1 of 1) outrank in lines and rank, and no test file but a named one |
| `Selection.WheelOrder` | backend/internal/infrastructure/postgres/defense.go:362-391 | The wheel stands in ascending order of its seeded scores, an automatic selection is its first entry, and entries outside that share score lower in the draw than everybody left out |
| `Selection.LeftOutIsOutranked` | backend/internal/infrastructure/postgres/defense.go:362-385 | Whoever is left out of the wheel is outranked by the whole share: that many entries from the pool have more lines, or as many and a lower rank |
| `Selection.BuildWheel` | backend/internal/infrastructure/postgres/defense.go:324-360 | The filtering loops build the wheel that these laws describe |
| `Selection.SortCanonical` | backend/internal/infrastructure/postgres/defense.go:366-371 | Sorting by size and rank forgets the order of its input |
| `CandidatePicker.PickIsUniform` | src/application/candidate_picker.cpp:64-68 | Among the accepted 64-bit values every remainder occurs exactly 2^64 / bound times |
| `CandidatePicker.DrawIndex` | src/application/candidate_picker.cpp:64-69 | The loop takes the first accepted value and its remainder |
| `CandidatePicker.Pick` | src/application/candidate_picker.cpp:30-75 | The errors, the shares of largest and shuffled candidates, and a selection among them drawn from the first accepted value; no selection only if no value is accepted |
| `PriorityQueue.FixedPriorityQueue.Push` | include/cpp_defense/core/fixed_priority_queue.hpp:28-68 | The queue always holds the best `capacity` values pushed; a value is accepted exactly if there is room or it beats the worst |
| `PriorityQueue.FixedPriorityQueue.Top` | include/cpp_defense/core/fixed_priority_queue.hpp:79-85 | The front is a worst value kept; an empty queue has none |
| `PriorityQueue.FixedPriorityQueue.Pop` | include/cpp_defense/core/fixed_priority_queue.hpp:70-77 | A worst value is dropped; an empty queue refuses |
| `PriorityQueue.PushHeap` | include/cpp_defense/core/fixed_priority_queue.hpp:33-36 | The last element joins the heap and nothing is lost |
| `PriorityQueue.PopHeap` | include/cpp_defense/core/fixed_priority_queue.hpp:43-46 | The front leaves the heap and nothing else is lost |
| `Versions.NumbersAreGapless` | backend/internal/infrastructure/postgres/imports.go:520-523 | The numbers of one student and lab are exactly 1 up to how many versions they have, in order of creation |
| `Versions.ArchivesAreDistinct` | backend/internal/infrastructure/postgres/imports.go:511-519 | No student has the same archive twice for a lab |
| `Versions.AppendKeepsNumbers` | backend/internal/infrastructure/postgres/storage.go:60-66 | Taking the largest number plus one for a new archive keeps numbering gapless |
| `SubmissionStore.Submissions.CreateOrGetByDigest` | backend/internal/infrastructure/postgres/storage.go:17-90 | A known archive is returned, a new one is appended; the table afterwards is determined by the inputs for every ending of the transaction |
| `SubmissionStore.Submissions.StoreVersion` | backend/internal/application/storage/submissions.go:59-105 | For every ending: numbering and contents stay right, the reply is created, duplicate or refused exactly as the inputs and the repeated object decide, the keys that become missing are exactly those recorded by a lost answer and not stuck, and the only new orphan is a stuck upload that became no version |
| `SubmissionStore.Submissions.CommitApply` | backend/internal/infrastructure/postgres/imports.go:484-558 | All items are recorded or none, decided by the inputs; the reply names exactly the uploads that became no version |
| `SubmissionStore.Submissions.Upload` | backend/internal/transport/httpapi/imports.go:347-381 | Uploads are exactly the items collected, under unused keys, and all are made exactly if every project has a target and uploads |
| `SubmissionStore.Submissions.Apply` | backend/internal/transport/httpapi/imports.go:315-391 | For every ending: versions, import state and attached items afterwards are determined by the inputs, numbering and contents stay right, exactly the versions recorded by a lost answer lose their objects unless stuck, and the new orphans are exactly the stuck uploads that became no version |
| `SubmissionStore.Submissions.Reconcile` | backend/internal/application/storage/reconcile.go:27-75 | The report lists exactly the missing and the orphaned keys, and nothing for an exact store |
| `SubmissionStore.Replay` | backend/internal/transport/httpapi/imports.go:315-391 | After every sequence of approvals, applies and stores: the records are those of the events, numbers are exactly 1..n with distinct archives, the missing keys are exactly those recorded by lost answers and deleted, the orphans exactly the stuck uploads not recorded, and the objects are those of the versions if and only if there are neither, when reconciling reports nothing |
| `SubmissionStore.OnlyLostAndStuck` | backend/internal/transport/httpapi/imports.go:382-391 | Without lost answers nothing is missing after any sequence, and without stuck deletes nothing is orphaned |
| `SubmissionStore.AnswerIsLost` | backend/internal/application/storage/submissions.go:80-90 | A run whose lost answer leaves a version without its object |
| `Versions.Booked` | backend/internal/application/storage/submissions.go:85-104 | How missing and orphaned keys change when uploads are recorded, refused and deleted |
| `Versions.AddedEach` | backend/internal/infrastructure/postgres/imports.go:503-549 | Adding items one after the other keeps numbering gapless, knows every archive afterwards and enters only item keys |
| `Versions.AddedRow` | backend/internal/infrastructure/postgres/imports.go:503-549 | An archive that the student has handed in for the lab before changes nothing; any other becomes one new version, numbered one past those of the same student and lab |

## Left out

- HTTP handlers, sessions, OAuth, roles and visibility queries: whether an actor is allowed is an input.
- PostgreSQL isolation and locking: each transaction is one atomic step; the unique index on pending attempts is part of the model.
- Drafts, audit records, timings, logs and read-only listings: they would only add easy members.
- Path and archive checks (`Editable`, safe paths, zip and tar limits): single predicates over library path cleaning, taken as inputs.
- Podman, CMake, CTest and the parsing of their output: a sandbox run is its three stage results.
- The comparison of a stored snapshot's files with its metadata: its outcome is an input of `LoadSnapshot`.
- Removal of abandoned staging directories and of snapshot locks: no result rests on them.
- Hash collisions and token guessing: digests of different data differ, tokens are fresh.
- Clock skew between processes: there is one clock that never goes back.
- The local command-line defense session, its timer and process runner: a smaller copy of the server's lifecycle.
- Roster import, configuration and the browser client: plumbing and user interface.
- Object namespaces other than normalized submissions: their references are plain columns.
- Normalized path order in `CandidatePriorityCompare`: any strict weak ordering is allowed instead.
- ReferenceCache.Runner.VerifyOriginal: other jobs interleave while a sandbox runs, not between two lines that hold a lock or touch no shared store.
- SandboxOutput.Splitter.Write: the recognition time of the ready line is not modelled; the artifact's writer fails only by running out of room.
- CandidatePicker.DrawIndex: the generator's values are a finite list, so the loop may run out of them where the original would go on.
- Undo.WidenedUndo: which lists can be widened is left to the validation of the widened list; no widened list is constructed.
