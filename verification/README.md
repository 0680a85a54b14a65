# A model of the C-to-Rust patching pipeline

The pipeline translates a C program into Rust one function at a time.
Its driver is `refactoring/task2/source/main.py`, which has five parts:

- **Call graph.** The orchestrator reads the static-analysis snapshot of the C code. It builds the call graph over quoted function names, keeps the part reachable from `"main_0"`, and yields the function records in the order networkx gives. That order is reversed topological when the subgraph is acyclic, and a depth-first post-order otherwise.
- **Translation.** The translator extracts the C body of a function and sends a prompt to the model. It reads replies until one carries `<FUNC>` and `<WRAPPER>` sections, and cleans those sections of code fences and surrounding white space. A failed validation can later be *repaired* with a follow-up prompt in the same conversation.
- **Patching.** The source manager patches the workspace:
  - it comments the C span out, line by line, with `// `;
  - it inserts the imports after the inner-attribute preamble of `src/main.rs`, appends the function and its wrapper, and runs `rustfmt`;
  - it appends the function's name to the bindgen blocklist;
  - it leaves a `.old` backup of each file, and `reset_func` restores all three.
- **Validation.** The validator compiles the code, at most twice. After a link failure it runs `cleanup`, which frees files that `rm` reports as busy. It then runs the test scripts fail-fast and returns a verdict: success, "Compile Error" or "Test Failure", with a message.
- **Driver loop.** `TranslationEngine.run` ties these together. For the first function it translates, validates, and then, while attempts remain and the verdict is a failure, resets, repairs and validates again. An `exit(0)` ends the process after that first function.

The model also covers two smaller pieces:

- the stub model `OpenAIGen.gen`;
- the chat-log splitter of `cursor_cost.py`.

## How the model works

The model is written over immutable values:

- **The workspace** is a map from path to file text (`FileStore`).
- **Files** are text after universal-newline translation.
- **Python built-ins** used by the code are modelled in `PyText` with CPython's semantics:
  - `split`, `join`, `strip`, `find`, `replace`, `readlines`;
  - negative indices and clamped slices.
- **Exceptions** are `Result` values carrying the Python exception (`Outcomes.Exc`).
- **Oracle inputs:** anything the pipeline runs outside Python is an input to the model. This covers:
  - the model's replies;
  - `rustfmt`;
  - the builds, `rm -rf target` and the test scripts;
  - the order networkx returns.

Modules follow the program's structure:

| module | file | models |
|---|---|---|
| `Outcomes` | `outcomes.dfy` | |
| `PyText` | `py_text.dfy` | |
| `Records` | `records.dfy` | |
| `Workspace` | `workspace.dfy` | `extract_body`, `comment_out_in_c` and the `.old` paths |
| `RustEntry` | `rust_entry.dfy` | `insert_in_rust` |
| `Patching` | `patching.dfy` | `insert_translation`, `reset_func` and `set_cargo_bin_target` |
| `CallGraph` | `call_graph.dfy` | `function_iter` |
| `Translator` | `translator.dfy` | parsing, prompts, `translate` and `repair` |
| `ReplyFormat` | `reply_format.dfy` | the reply layout and the parser's round trip |
| `OpenAIGen` | `openai_gen.dfy` | |
| `Validator` | `validator.dfy` | `run`, `cleanup`, the `TestManager` and `validate` |
| `Engine` | `engine.dfy` | `TranslationEngine.run` |
| `ChatSections` | `chat_sections.dfy` | |

## Model

| member | source | states |
|---|---|---|
| PyText.Strip | refactoring/task2/source/main.py:193 | the result is the input with a blank prefix and a blank suffix removed, and it neither starts nor ends with white space (Python's `isspace` set) |
| PyText.Find | refactoring/task2/source/main.py:442-459 | `find` is present exactly when the substring occurs, points at an occurrence, and no earlier occurrence exists |
| PyText.Split | refactoring/task2/source/main.py:278 | `split` gives at least one part, at least two exactly when the separator occurs, and no part contains the separator |
| PyText.JoinSplit | refactoring/task2/source/main.py:221-243 | joining the parts of a split with the same separator gives back the text |
| PyText.SplitJoin | cursor_cost.py:37-38 | splitting a one-character join of parts free of that character gives back the parts |
| PyText.ReadLines | refactoring/task2/source/main.py:165-166 | `readlines` concatenates back to the file text; every line but the last ends in a newline, and no line has an inner newline |
| PyText.PyGet | refactoring/task2/source/main.py:168-170 | list indexing succeeds exactly for indices in `-len..len-1`; a non-negative index reads that entry and a negative one reads entry `len + i`, so line 0 of a span reads the file's last line |
| PyText.PySet | refactoring/task2/source/main.py:196 | list assignment succeeds exactly for indices in `-len..len-1`; it replaces entry `i`, or entry `len + i` for a negative index, keeps the length and every other entry |
| PyText.LastIndex | refactoring/task2/source/main.py:264 | the last occurrence of a character (used by `with_suffix`), or -1 when there is none |
| Workspace.OldPathMoves | refactoring/task2/source/main.py:207 | `with_suffix('.old')` names a different file unless the path already ends in `.old` |
| Workspace.OldPathOwn | refactoring/task2/source/main.py:264-266 | a file whose name ends in `.old` is its own backup |
| Workspace.PathsDistinct | refactoring/task2/source/main.py:258-266 | for a C file not named `*.old`, the three files and their three backups are six distinct paths |
| Workspace.ExtractBody | refactoring/task2/source/main.py:156-166 | a missing C file raises `FileNotFoundError` |
| Workspace.ExtractSpan | refactoring/task2/source/main.py:165-170 | on a span over several lines, the extracted body is exactly the file text between the start and end positions |
| Workspace.ExtractSingleLine | refactoring/task2/source/main.py:167-170 | on a one-line span, the body is the rest of the line from the start column followed by the line's first `endCol` characters, not the span |
| Workspace.ExtractSingleLineExample | refactoring/task2/source/main.py:167-170 | a one-line function comes back with its text twice |
| Workspace.RStripAll | refactoring/task2/source/main.py:193 | every line is right-stripped, and there are as many lines as before |
| Workspace.CommentOut | refactoring/task2/source/main.py:181-208 | a missing C file raises `FileNotFoundError`; otherwise only the C file changes, and its `.old` backup holds the previous text |
| Workspace.CommentSpan | refactoring/task2/source/main.py:193-203 | lines outside the span keep their right-stripped text. The first line gets `// ` at the start column; interior lines get it in front; the last line gets it in front and is split after `endCol` when text follows |
| Workspace.CommentedOutside | refactoring/task2/source/main.py:196-203 | the marking touches no line outside the span |
| Workspace.CommentedInside | refactoring/task2/source/main.py:196-203 | the marking changes the first, interior and last lines of the span as described |
| Workspace.CommentedText | refactoring/task2/source/main.py:205-206 | the text written back, split on newlines, is the marked lines with the last line's split made real |
| Workspace.CommentRoundTrip | refactoring/task2/source/main.py:193-206 | removing the inserted markers at their positions, and rejoining the split line, gives back the right-stripped original lines |
| Workspace.CommentLength | refactoring/task2/source/main.py:196-206 | the written text grows by three characters per line of the span, plus one when the last line is split |
| RustEntry.ScanFinds | refactoring/task2/source/main.py:224-241 | the scan stops at the first line that is neither an inner attribute (possibly spread over several lines) nor blank, or at the last line |
| RustEntry.Scan | refactoring/task2/source/main.py:224-241 | the loop ends inside the file, and before the last line only at a line that is neither a `#!` line nor blank |
| RustEntry.ImportIndex | refactoring/task2/source/main.py:224-242 | the insertion line lies within the file; every line before it belongs to the preamble; it is outside the preamble unless it is the last line |
| RustEntry.PatchedSplice | refactoring/task2/source/main.py:221-246 | the patched text is the original cut at the start of the insertion line, with the imports and a newline in between, followed by a newline, the function, a newline and the wrapper |
| RustEntry.InsertInRust | refactoring/task2/source/main.py:210-256 | a missing `src/main.rs` raises. Otherwise `src/main.rs` holds the formatter's output (or the patched text when the formatter fails), `src/main.old` holds the old text, and nothing else changes |
| Patching.AddToBlocklist | refactoring/task2/source/main.py:177-179 | a missing blocklist raises; otherwise the blocklist's text is kept and the name followed by a newline is appended to it |
| Patching.InsertTranslation | refactoring/task2/source/main.py:172-179 | a missing C file raises before anything else; success needs the C file, `src/main.rs` and the blocklist |
| Patching.InsertTranslationEffect | refactoring/task2/source/main.py:172-179 | success means: the C file is commented out, the Rust file is patched, the name is appended to the blocklist, and each of the three has a backup with its previous text |
| Patching.InsertTranslationNeeds | refactoring/task2/source/main.py:172-179 | success needs the C span to be commentable and the Rust file and the blocklist to exist |
| Patching.InsertTranslationSucceeds | refactoring/task2/source/main.py:172-179 | with those three conditions met, `insert_translation` succeeds |
| Patching.InsertWithoutRustMain | refactoring/task2/source/main.py:174-175 | without `src/main.rs` it raises `FileNotFoundError` for it, after the C file is rewritten |
| Patching.InsertWithoutBlocklist | refactoring/task2/source/main.py:177 | without the blocklist it raises `FileNotFoundError` for it |
| Patching.Restore | refactoring/task2/source/main.py:264-266 | a missing backup changes nothing. A backup that is the file itself raises `SameFileError`. Otherwise the file takes the backup's text, the backup disappears, and nothing else changes |
| Patching.ResetClears | refactoring/task2/source/main.py:258-266 | `reset_func` succeeds and leaves none of the three backups |
| Patching.ResetFunc | refactoring/task2/source/main.py:258-266 | `reset_func` can fail only with `SameFileError`; what it restores is stated by `ResetClears`, `ResetIdempotent` and `InsertThenReset` |
| Patching.ResetKeepsOthers | refactoring/task2/source/main.py:258-266 | `reset_func` leaves every file other than the three it restores and their backups as it was |
| Patching.ResetIdempotent | refactoring/task2/source/main.py:258-266 | resetting twice is resetting once |
| Patching.InsertThenReset | refactoring/task2/source/main.py:172-266 | `reset_func` after `insert_translation` gives back the workspace as it was, minus any stale backups of the three files |
| Patching.ResetOwnBackup | refactoring/task2/source/main.py:258-266 | a C file named `*.old` makes `reset_func` raise `SameFileError` |
| Patching.FirstFrom | refactoring/task2/source/main.py:109-112 | the first line at or after a position that starts with the prefix, and none before it |
| Patching.RenameBin | refactoring/task2/source/main.py:108-115 | only the first `name =` line after the first `[[bin]]` line is replaced; with no such line nothing changes |
| Patching.RenameFromSpec | refactoring/task2/source/main.py:108-115 | the scanning loop from any position agrees with that description |
| Patching.SetCargoBinTarget | refactoring/task2/source/main.py:103-118 | a missing `Cargo.toml` raises; otherwise only `Cargo.toml` changes, to its renamed lines |
| CallGraph.QuoteInjective | refactoring/task2/source/main.py:351-358 | distinct names give distinct quoted nodes |
| CallGraph.BuildGraphMembers | refactoring/task2/source/main.py:351-358 | the graph holds exactly the nodes and edges the records with `calledFunctions` contribute |
| CallGraph.NoCalleesNoOutEdges | refactoring/task2/source/main.py:353-354 | a function whose records lack `calledFunctions` has no outgoing edge |
| CallGraph.ReachableIsWalks | refactoring/task2/source/main.py:361-362 | a node is among the descendants of `"main_0"` exactly when a walk from `"main_0"` ends at it |
| CallGraph.ReachableConnected | refactoring/task2/source/main.py:361-364 | the assertion on weakly connected components holds: inside the subgraph every node is joined to `"main_0"` |
| CallGraph.TopoMeansAcyclic | refactoring/task2/source/main.py:366-369 | a graph with a reverse topological order has no cycle |
| CallGraph.AcyclicPostorderIsTopo | refactoring/task2/source/main.py:366-369 | on an acyclic graph a depth-first post-order is reverse topological |
| CallGraph.AcyclicHasTopo | refactoring/task2/source/main.py:366-367 | every acyclic graph has a reverse topological order, built from a sink followed by an order of the remaining nodes |
| CallGraph.TopoExistsIffAcyclic | refactoring/task2/source/main.py:366-369 | a reverse topological order exists exactly when the graph is acyclic, so `topological_sort` succeeds exactly then, and the order `function_iter` walks exists for every acyclic subgraph |
| CallGraph.OrderEndsAtMain | refactoring/task2/source/main.py:366-369 | either order networkx returns ends at `"main_0"` |
| CallGraph.QuotedNameLosesQuotes | refactoring/task2/source/main.py:371 | `strip('"')` removes the quotes `function_iter` added |
| CallGraph.FunctionIter | refactoring/task2/source/main.py:348-378 | it raises `NetworkXError` exactly when `"main_0"` is not a node. Otherwise each yielded record is the first record with its name, and its name is in the order |
| CallGraph.ReachableFromMain | refactoring/task2/source/main.py:361 | the descendants of `"main_0"` plus itself: `NetworkXError` exactly when it is not a node, otherwise a closed set of nodes holding it |
| CallGraph.FunctionIterYields | refactoring/task2/source/main.py:348-378 | only reachable functions are yielded, each at most once; every reachable function that has a record is yielded |
| CallGraph.CalleesFirst | refactoring/task2/source/main.py:366-378 | when the reachable graph is acyclic, no yielded function calls a function yielded after it |
| CallGraph.MainYieldedLast | refactoring/task2/source/main.py:366-378 | the record of `main_0`, when there is one, is yielded last |
| Translator.Section | refactoring/task2/source/main.py:442-459 | a section is the text after the first opening tag up to the next opening or closing tag, or to the end |
| Translator.Clean | refactoring/task2/source/main.py:450-458 | a cleaned section has no code fence and no surrounding white space, and is the strip when there is no backtick |
| Translator.ParseReply | refactoring/task2/source/main.py:442-459 | a reply parses exactly when it contains both `<FUNC>\n` and `<WRAPPER>\n` |
| Translator.ParseReplyClean | refactoring/task2/source/main.py:442-459 | every parsed section is clean, and imports are empty without `<IMPORTS>\n` |
| ReplyFormat.ParseTagged | refactoring/task2/source/main.py:442-459 | a reply laid out with function and wrapper tags, whose two sections contain no `<` and no backtick, parses back into those two sections, stripped, with empty imports |
| ReplyFormat.ParseTaggedStripped | refactoring/task2/source/main.py:442-459 | stripped sections with no `<` and no backtick come back unchanged |
| Translator.QueryWith | refactoring/task2/source/main.py:432-465 | the loop as its `except` clause intends it (corrected member of the finding below): it consumes at least one model outcome and fails only with `IndexError` (an empty reply list) or when the outcomes run out |
| Translator.QueryTranscript | refactoring/task2/source/main.py:432-465 | the conversation grows by the model's replies only; every reply before the last was rejected by the parser, and the last parses into the returned translation |
| Translator.QuerySkipsErrors | refactoring/task2/source/main.py:461-465 | in the intended loop, model exceptions are skipped without touching the conversation |
| Translator.QueryAsWritten | refactoring/task2/source/main.py:432-465 | the loop as written: it fails only with `NameError` for the unbound `ModelException` or when the outcomes run out, and when it succeeds it agrees with the intended loop |
| Translator.QueryAsWrittenAgrees | refactoring/task2/source/main.py:432-465 | while every `gen` call returns at least one reply, the loop as written and the intended loop give the same result |
| Translator.QueryAsWrittenRaises | refactoring/task2/source/main.py:435-465 | a model exception or an empty reply list ends the loop as written with `NameError`, where the intended loop skips the exception and lets the `IndexError` escape |
| Translator.QueryAfterError | refactoring/task2/source/main.py:461-465 | after one model exception the intended loop goes on to the next reply, and the loop as written stops with `NameError` |
| Translator.QueryFirstReply | refactoring/task2/source/main.py:432-465 | a well-formed first reply ends the loop at once, appended as the assistant's message |
| Translator.QueryExtends | refactoring/task2/source/main.py:432-465 | the query only appends to the conversation |
| Translator.PromptShowsBody | refactoring/task2/source/main.py:386-420 | the prompt carries the C body verbatim right after the opening request |
| Translator.TranslationPrompt | refactoring/task2/source/main.py:386-420 | the f-string itself; what it carries is stated by `PromptShowsBody` |
| Translator.Begin | refactoring/task2/source/main.py:429-430 | a translation conversation opens with the system message and the stripped prompt |
| Translator.Translate | refactoring/task2/source/main.py:422-471 | a missing C file raises before the model is asked; a conversation begun for an extracted body opens with the system prompt and the stripped translation prompt for that body |
| Translator.TranslateNeedsBody | refactoring/task2/source/main.py:422-427 | any extraction failure is the failure of `translate`, and `translate` succeeds only for a body it could extract |
| Translator.RepairPrompt | refactoring/task2/source/main.py:477-488 | a follow-up prompt exists exactly for "Compile Error" and "Test Failure"; any other category raises `NotImplementedError` |
| Translator.RepairPromptShowsMessage | refactoring/task2/source/main.py:477-488 | the follow-up carries the failure message verbatim after the line for its category |
| Translator.FollowUp | refactoring/task2/source/main.py:490-525 | the conversation keeps its earlier messages, then the new user message, then at least one reply |
| Translator.Repair | refactoring/task2/source/main.py:473-531 | with no earlier conversation it raises `AssertionError`; an unknown category raises `NotImplementedError`; otherwise the earlier conversation and the stripped follow-up prompt lead the new one |
| OpenAIGen.Copies | refactoring/task2/source/models/openai/openai_gen.py:32-41 | `top_k` equal replies, none when `top_k` is not positive |
| OpenAIGen.Gen | refactoring/task2/source/models/openai/openai_gen.py:14-43 | it raises exactly when `top_k != 1` at temperature zero; otherwise it gives `top_k` copies of one stripped reply |
| OpenAIGen.StubReplyParses | refactoring/task2/source/models/openai/openai_gen.py:32-41 | the stub's reply parses into the placeholder function and wrapper with empty imports |
| OpenAIGen.StubQueryAccepts | refactoring/task2/source/models/openai/openai_gen.py:14-43 | with the arguments `translate` passes, the stub's single reply is accepted at the first attempt |
| OpenAIGen.StubRetryDiffers | refactoring/task2/source/models/openai/openai_gen.py:27-30 | the stub's refusal of `top_k=2` at temperature 0 followed by its accepted reply: the intended loop succeeds, the loop as written raises `NameError` |
| Validator.Run | refactoring/task2/source/main.py:26-46 | a command raises exactly when it does not exit with status 0 |
| Validator.RunReport | refactoring/task2/source/main.py:36-40 | a failure reports the error stream, falling back to the output stream when the error stream is blank |
| Validator.BusyLines | refactoring/task2/source/main.py:278-279 | the busy lines are exactly the lines mentioning both `cannot remove` and `Device or resource busy` |
| Validator.Quoted | refactoring/task2/source/main.py:280 | `split('\'')[1]` succeeds exactly when the line has a quote, and gives a text without quotes |
| Validator.Names | refactoring/task2/source/main.py:278-280 | the file names of the busy lines, in order, or `IndexError` exactly when one busy line lacks a quote |
| Validator.QuotedName | refactoring/task2/source/main.py:280 | the name between `rm`'s quotes is what `cleanup` extracts |
| Validator.Cleanup | refactoring/task2/source/main.py:268-293 | a successful `rm -rf target` frees nothing. Otherwise it frees the quoted name of each busy line, in order. The only exception that escapes is `IndexError`, raised exactly when a busy line has no quote |
| Validator.Status | refactoring/task2/source/main.py:318-334 | a test passes exactly when its script exits with status 0, and otherwise records the script's error |
| Validator.TestRun | refactoring/task2/source/main.py:312-336 | statuses follow the scripts in order. Without fail-fast, every script runs; with it, every status but the last passed, and stopping early means the last failed |
| Validator.RunTests | refactoring/task2/source/main.py:304-336 | a failing setup script raises its `RunException`, and only then |
| Validator.FirstFailure | refactoring/task2/source/main.py:573-576 | the first failed status, absent exactly when every test passed |
| Validator.CompileOnce | refactoring/task2/source/main.py:545-558 | one pass builds once, and cleans up exactly when the build failed at link time without a timeout |
| Validator.CompileLoopSteps | refactoring/task2/source/main.py:545-563 | the loop builds once on first success, twice otherwise, and fails only when both builds fail, with the second message. Cleanups follow exactly the link failures |
| Validator.CompileLoop | refactoring/task2/source/main.py:545-558 | the compile loop can raise only `IndexError`, from `cleanup`; its steps are stated by `CompileLoopSteps` |
| Validator.Judge | refactoring/task2/source/main.py:545-577 | a verdict is a success exactly when its category is empty, and a failure is a compile error or a test failure |
| Validator.JudgeBuildFailure | refactoring/task2/source/main.py:560-563 | a compile error is reported exactly when both builds fail, with the second message, and no test runs |
| Validator.JudgeTests | refactoring/task2/source/main.py:567-577 | after a successful build the tests run fail-fast; the verdict is a success exactly when all passed, and otherwise carries the first failure's error |
| Validator.Validate | refactoring/task2/source/main.py:539-577 | the translation is inserted first, and its failure propagates before anything is built; on success the workspace holds the insertion |
| Validator.FailureIsRepairable | refactoring/task2/source/main.py:477-577 | every failure `validate` reports has a follow-up prompt in `repair` |
| Engine.JudgeVerdict | refactoring/task2/source/main.py:539-577 | the loop sees the verdict of `validate`'s judgement, or its exception |
| Engine.ValidatedIsValidate | refactoring/task2/source/main.py:673-685 | with the pipeline's collaborators, the loop's validation step is `validate` |
| Engine.PipelineRepairAppends | refactoring/task2/source/main.py:490 | `repair` only appends to the conversation |
| Engine.PipelineResetUndoesInsert | refactoring/task2/source/main.py:172-266 | in the loop, `reset_func` undoes `insert_translation` up to the stale backups, and removing those twice is removing them once |
| Engine.Repaired | refactoring/task2/source/main.py:681-685 | the next round validates what `repair` answered to the verdict just obtained. It is inserted into the reset workspace and judged by the next validation |
| Engine.Loop | refactoring/task2/source/main.py:672-686 | the loop runs at most `num_attempts` rounds for the function it was given; the first round carries the current translation and verdict, and is reset exactly when that verdict failed with attempts left |
| Engine.LoopSettled | refactoring/task2/source/main.py:676-686 | the rounds from any iteration on: every round but the last failed and was reset; the last is reset exactly when it failed; a failure at the end used every attempt |
| Engine.LoopStep | refactoring/task2/source/main.py:676-686 | an iteration that fails with attempts left resets, then repairs from the verdict it just obtained. The run's rounds are this failed, reset round followed by the rounds of the rest of the loop, run from the repaired state. That rest also decides the final workspace and conversation |
| Engine.LoopJudged | refactoring/task2/source/main.py:676-686 | each round carries the verdict of its own validation |
| Engine.LoopWorkspace | refactoring/task2/source/main.py:676-686 | after a final reset the workspace is clean; otherwise it holds the last translation inserted into the clean workspace |
| Engine.AttemptSettled | refactoring/task2/source/main.py:672-686 | the attempt loop ends in settled rounds. The first validates what `translate` returned, round `k` has the `k`-th verdict, and the conversation continues `translate`'s |
| Engine.AttemptRepairs | refactoring/task2/source/main.py:681-685 | a second round validates what `repair` answered to the first round's failure |
| Engine.AttemptWorkspace | refactoring/task2/source/main.py:672-686 | where the attempt loop leaves the workspace, whether the last act was a reset or an insertion |
| Engine.AttemptWithoutRetries | refactoring/task2/source/main.py:672-676 | with no attempts allowed, the first translation stays in place, failed or not |
| Engine.RunFirstOnly | refactoring/task2/source/main.py:662-688 | `run` handles only the first yielded function; failures of `function_iter` and `translate` propagate, and with no function nothing happens |
| Engine.Run | refactoring/task2/source/main.py:662-688 | a `function_iter` failure propagates, nothing happens exactly when no function is yielded, and the attempts made are for the first yielded function |
| Engine.PipelineRunFirstOnly | refactoring/task2/source/main.py:662-688 | with the pipeline's collaborators over one workspace, `translate` reads the C source from the workspace the loop patches: a missing C file stops `run` before anything is written, and the first round validates what `translate` answered |
| ChatSections.Marks | cursor_cost.py:26-31 | each line gets the mark of the loop's tests, in their order |
| ChatSections.Picked | cursor_cost.py:25-35 | the positions of a bucket are exactly the lines of its kind, in file order |
| ChatSections.Partition | cursor_cost.py:28-35 | a line goes to the inputs exactly when it is plain and the last marker before it was the user's, likewise for the outputs, and never to both |
| ChatSections.DropRule | cursor_cost.py:26-27 | removing a `---` line changes neither the section in force nor what is collected |
| ChatSections.MarkerStarts | cursor_cost.py:28-31 | a marker line starts its section and is collected nowhere |
| ChatSections.BothMarkersUser | cursor_cost.py:28-31 | a non-rule line naming both roles is the user's marker: it switches to `inputs` and is collected nowhere |
| ChatSections.SplitChat | cursor_cost.py:24-35 | the loop collects into each bucket exactly the stripped lines of that kind |
| ChatSections.Transcript | cursor_cost.py:24-38 | each joined transcript is its bucket joined with newlines |
| ChatSections.TranscriptSplits | cursor_cost.py:24-38 | a non-empty bucket from `readlines` splits back out of its joined transcript |

## Left out

- Process execution, `os.chdir`, `subprocess`, timeouts, colours and printing are left out. Each command is represented by how it ended.
- The shell commands that `cleanup` runs after the busy-file scan (`fuser -k`, `rm -rf`, the second `rm -rf target`) are left out. Their failures are swallowed, so only the file names are modelled.
- `compile`, `get_executable`, `get_bin_target` and `setup` are left out. They are shell and file-system plumbing, and their outcomes are oracle inputs (`Validator.Env`).
- `os.path.join` with an absolute filename, and path normalisation, are left out. Paths are strings relative to the output directory, and the C directory is a fixed prefix.
- File contents are modelled after universal-newline translation, so a `\r` line ending is not modelled.
- The order networkx returns is a parameter constrained by what the library guarantees. The library's own algorithm is not modelled.
- Prompt wording: only the translation prompt's C body and the repair prompt's message are proved to appear verbatim. The rest of the text is constant.
- Token counting, CSV output and the file walk in `cursor_cost.py` are left out. They are I/O and an external tokeniser.
- The results log in `run` is left out. It is unreachable after `exit(0)`.
- The `OpenAIGen` client setup and the real model are left out. The stub's messages and seed do not affect its answer.
- Translator.QueryWith: when the model's answers run out, the model ends with `NoWellFormedReply`. The source instead keeps asking for ever when no reply ever parses.
- Engine.AttemptRepairs: the contract covers the first repair only. `Engine.LoopStep` and `Engine.Repaired` state the same hand-off for every iteration.
- ChatSections.TranscriptSplits: an empty bucket joins to `""`, which splits to `[""]`, so the lemma requires a non-empty bucket.
- Workspace properties that compose writes to backups (`InsertTranslationEffect`, `ResetClears`, `InsertThenReset`) require a C file not named `*.old`. `Patching.ResetOwnBackup` covers the other case.
- ReplyFormat.ParseTagged: this lemma and `ReplyFormat.ParseTaggedStripped` require sections with no `<` and no backtick. The parser itself needs less: no tag text (`<FUNC>\n`, `</FUNC>`, `<WRAPPER>\n`, `</WRAPPER>`, `<IMPORTS>\n`) and no code fence inside a section. The stronger condition keeps the proof about where tags can start short.
- Translator.Translate: this function, `Translator.Repair` and `Engine.Run` ask the model through the corrected loop `Translator.QueryWith`, not the loop as written (`Translator.QueryAsWritten`, see Findings). The pipeline always calls the model with `top_k=1`, and the stub always answers such a call (`OpenAIGen.StubQueryAccepts`), so the two loops agree there (`Translator.QueryAsWrittenAgrees`).
- Translator.Query: the wrapper has no contract of its own. Its properties are stated through `QueryWith` and the lemmas about it.
- Workspace.ExtractBody: the contract states only the missing-file error. The text extracted is stated by `ExtractSpan` and `ExtractSingleLine` over the lines of the file.
- CallGraph.FunctionIterYields: this lemma and the others about the yielded records require function names with no double quote at either end. For such a name, `strip('"')` would also remove the name's own quote, so the yielded name would differ. `FunctionIter` itself has no such requirement.
- Workspace.ExtractSpan: the "text between two positions" reading needs in-range columns (`1 <= startCol <= len + 1`, `0 <= endCol <= len`). `ExtractLines` itself also handles out-of-range columns, with Python's clamped slices and negative indices.
- Workspace.CommentSpan: this lemma, `CommentRoundTrip` and `CommentLength` need `startLine < endLine` and non-negative columns. A one-line span is handled by `CommentOut` but not described by them.
- `Validator.__init__` stores nothing from its `compile_attempts` argument, and `validate` always allows two builds. The model therefore has exactly two build outcomes per validation (`Validator.Env`).

## Findings

`main.py` imports only `get_model_from_name` from the `models` package (line 11), yet the query loops of `translate` and `repair` catch `ModelException`. When the loop body raises, Python evaluates the name in the `except` clause, and the unbound name raises `NameError` instead of the retry the handler's messages announce. The rest of the model, from `Translate` and `Repair` up to `Engine.Run`, uses the intended loop `Translator.QueryWith`.

| source | as written | input that shows it | evidently intended | confidence | as-written member | corrected member |
|---|---|---|---|---|---|---|
| refactoring/task2/source/main.py:461-465 | `except ModelException` in `translate` looks up an unbound name, so a model exception ends the program with `NameError` | `gen` raises `ModelException` (the stub does for `top_k=2` at temperature 0), then returns a well-formed reply | the exception is reported, the conversation is left alone and the model is asked again | high, not executed | Translator.QueryAsWritten | Translator.QuerySkipsErrors |
| refactoring/task2/source/main.py:521-525 | the same clause in `repair`; an empty reply list from `gen` also ends in `NameError`, chained to the `IndexError` of `[0]` | `gen` returns `[]` | the `IndexError` escapes as itself, since it is not a `ModelException` | high, not executed | Translator.QueryAsWrittenRaises | Translator.QueryWith |
