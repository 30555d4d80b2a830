# Tenvyr: models and proofs of the hard parts

This project models the parts of the Tenvyr repository whose correctness rests on recursion,
state or ordering, and proves what those parts are for. Each module follows one source file.
Code that changes things step by step is a class or a method with a loop, tied by its
postcondition to a function of its inputs or of the old state; the properties are lemmas about
those functions, over every input, every run or every interleaving.

**JSON of the C++ worker.** `CppJson` is the recursive-descent parser as a function of text and
cursor; `CppJsonMachine` is the parser with its moving cursor and the printer with its output
stream, and each method is proved to do what the function says and to stay within the text.
`CppJsonGrammar` is an independent description of JSON texts (sections 2 to 7 of RFC 8259, with the
worker's wider whitespace): a syntax tree, its text, and its meaning. A text is accepted exactly
when it is the text of such a tree whose numbers convert, and then with the tree's meaning; white space
and the spelling of ASCII characters never matter; printing is a right inverse
of parsing, so it is injective; inside any text a printed value
is read back with nothing more consumed, except exactly where the next character takes over an
integer. `CppJsonUnits` says what single characters, escapes, numbers and literals become, in
character codes and integers: in particular, every `\u` escape becomes bytes that a UTF-8 reader
reads back as its code.

**Canonical JSON and fingerprints of the Rust host.** Two requests have one canonical text exactly
when they are the same JSON value with unordered objects. The hashed bytes determine both the key
and the request, even when a key contains line breaks. Nothing is assumed about the hash except
that it does not collide on the two texts in question. The canonical text itself parses back to the
value, with the members of every object in the order of their keys (`CanonicalReads`).

**Object-graph walkers.** `ObjectGraph` is a finite heap with sharing and cycles. `findInvalidNumber`
and `asJsonValue` cut only at objects on the current path, and yet the first one misses no reachable
bad number, and the second one accepts exactly the acyclic plain graphs and returns their unique
unfolding. The set of objects on the path is restored on every exit. A reported issue path, read as
a JSON Pointer (sections 3 and 4 of RFC 6901), leads to the number it complains of, unless the checked
value is itself that number. Of several faults both walkers report the first in the order of the
properties (`WalkerReports`).

**Knowledge-graph mergers.** `LinkTests`, `Linking`, `Compaction` and `Linker` model the `tested_by`
linker with its list compacted in place: which edge survives at which place, the counters, and
idempotence. `NodeIds` and `MergeBatch` model id rewriting and de-duplication: no edge is lost,
invented or left dangling. `SubdomainMerge` models the merge over files that persist between runs:
any sequence of runs ends with the nodes, and with the structural edge keys and weights, of one merge
of everything. `TestPathRules`, `LinkFields`, `NodeIdForms`, `MergeExactly` and `SubdomainExactly` say,
of the input lists and the texts of paths and ids themselves, which node and which edge comes out,
field by field and in what order.

**Process supervisors.** `NodeSupervisor` (TypeScript) and `TokioSupervisor` (Rust) are the callbacks
and the select loop as steps of a state machine with a clock and a log of requested signals;
`NodeSupervisorRuns` and `TokioSupervisorRuns` prove safety over every order of events, and
`NodeSignals` and `TokioOutcomes` say exactly which signals a run requests and which outcome it
reports, read off its events.
`StreamBounds` compares the two on byte limits.

**Delivery, idempotency and events.** `RetryAfter` and `CallbackDelivery` model the retry loop against
an arbitrary network, clock, random source, sleep and abort signal, and `CallbackOutcomes` states its
reports and waits in numbers; `Acceptance` interleaves the
threads of any number of requests through the mutex of the C++ worker; `EventEmitter` numbers events.

## Where the code and its documentation differ

The models follow the code.

- The TypeScript supervisor records a timer kill as `invocation_deadline` whenever a deadline was
  given, even when the wall-time limit is what ran out (`NodeSupervisorRuns.TimerLabelExactly`), and a
  later escalation overwrites the recorded trigger of the one that came first, which is lost exactly when
  both an abort and the timer began one (`NodeSupervisorRuns.FirstTriggerKeptExactly`). The Rust supervisor names the clock that ran out and keeps
  the first trigger.
- The TypeScript supervisor settles on `exit`, so output delivered after it is missing from a
  `succeeded` outcome (`NodeSupervisorRuns.LateOutputIsLost`).
- In the Rust supervisor the end of the child does not cancel a grace period: the SIGKILL of a pending
  escalation is requested after the result is returned, exactly when an escalation began and its grace
  period is not over (`TokioSupervisorRuns.GraceOutlivesResult`).
- `Retry-After` is never above the maximum for a maximum that is not negative; for a negative one it is
  above exactly when the number has fewer digits than the maximum has characters
  (`RetryAfter.NeverAboveExactly`). The configuration admits only positive maxima.
- Waiting for at most one maximal delay per retry holds, whatever the world does, exactly when the sleep
  cannot fail without an abort in an attempt before the last: after such a failure the loop waits a second
  time in one attempt (`CallbackRuns.WaitingExactly`). The built-in sleep fails on abort only.
- A response body that cannot be read for any reason is reported as `response-too-large` and not retried
  (`CallbackRuns.UnreadableExactly`).
- A root number is reported by `findInvalidNumber` at `/`, which as a JSON Pointer names the empty key
  (`InvalidNumber.IssuePathExactly`).
- On a tie of weights an incremental merge can keep another edge of a structural key than one merge of
  everything, exactly when the last maximal run before its endpoints were known brought another edge than
  the first one (`SubdomainPayload.PayloadsAgreeExactly`). Non-structural edges survive exactly when some
  run that saw them already knew both endpoints (`SubdomainMerge.OthersSurviveExactly`).

## Model

| member | source | states |
|---|---|---|
| CppJsonSound.AcceptsExactly | sdks/cpp-worker/src/json.cpp:334-342 | a text parses to a value if and only if it is the text of a syntax tree that means this value, between whitespace, and every number of the value with a fraction or an exponent converts to a finite `double`; whatever the conversion does |
| CppJsonSound.DocumentExactly | sdks/cpp-worker/src/json.cpp:334-342 | a text of the grammar is accepted, with its meaning, if and only if its numbers convert |
| CppJsonSound.DenotesOne | sdks/cpp-worker/src/json.cpp:334-342 | the grammar is unambiguous: no text denotes two values |
| CppJson.ParseValue | sdks/cpp-worker/src/json.cpp:25-47 | every successful call strictly advances the cursor and stays within the text, at any depth |
| CppJsonComplete.DocumentParses | sdks/cpp-worker/src/json.cpp:334-342 | every text of the grammar whose numbers convert is accepted, with its meaning |
| CppJsonSpelling.RespelledDocument | sdks/cpp-worker/src/json.cpp:16-253 | changing white space anywhere between tokens, or the spelling of any ASCII character of any string or key, changes neither whether a text is accepted nor the value |
| CppJsonSpelling.AsciiSpellings | sdks/cpp-worker/src/json.cpp:102-171 | an ASCII character spelled raw, by a short escape or by its four-digit code means itself |
| CppJsonSpelling.RespelledMeans | sdks/cpp-worker/src/json.cpp:102-171 | trees that differ only in white space and in the spelling of ASCII characters mean the same, at any depth |
| CppJsonComplete.FrameValue | sdks/cpp-worker/src/json.cpp:25-47 | parsing at the start of a convertible value's text, followed by a character that cannot extend it, consumes exactly that text |
| CppJsonComplete.FrameNumber | sdks/cpp-worker/src/json.cpp:193-253 | a number token is consumed whole; it is read as the integer it denotes, or kept as a token if it converts to a finite `double` |
| CppJsonComplete.FrameChars | sdks/cpp-worker/src/json.cpp:102-171 | the characters of a string are read back up to the closing quote |
| CppJsonSound.SyntaxOf | sdks/cpp-worker/src/json.cpp:25-100 | whenever a value is parsed, the consumed text is the text of a syntax tree with that meaning |
| CppJsonSound.TokenOf | sdks/cpp-worker/src/json.cpp:193-253 | whenever a number is parsed, what was consumed is a well-formed token of that value |
| CppJsonSound.CharsOf | sdks/cpp-worker/src/json.cpp:102-171 | whenever a string is parsed, what was consumed is valid spellings of its characters |
| CppJsonPrinter.RoundTrip | sdks/cpp-worker/src/json.cpp:344-348 | parsing a printed value gives back the value, for every tree of 64-bit integers, strings of any characters, and objects with duplicate keys; the conversion to `double` has no say in it |
| CppJsonPrinter.DumpInjective | sdks/cpp-worker/src/json.cpp:287-330 | different values are printed differently |
| CppJsonPrinter.Framing | sdks/cpp-worker/src/json.cpp:25-47 | a value parsed at the start of its printed text, before a character that does not extend a number, consumes the printed text and no more |
| CppJsonPrinter.FramingExactly | sdks/cpp-worker/src/json.cpp:25-47 | anywhere in a text, a printed value is consumed and no more if and only if it is no integer before a dot, an exponent or (unless it is zero) a digit |
| CppJsonPrinter.SyntaxForText | sdks/cpp-worker/src/json.cpp:256-330 | the printed text is the text of a valid syntax tree that means the value |
| CppJsonMachine.Parser.ParseAny | sdks/cpp-worker/src/json.cpp:25-47 | with a moving cursor: success yields the value and cursor of the functional parser, an exception leaves an error where it has one |
| CppJsonMachine.Parser.ParseObj | sdks/cpp-worker/src/json.cpp:49-78 | the member loop builds, in order and with duplicates, the members the functional parser yields |
| CppJsonMachine.Parser.ParseArr | sdks/cpp-worker/src/json.cpp:80-100 | the element loop builds the items the functional parser yields |
| CppJsonMachine.Parser.ParseStr | sdks/cpp-worker/src/json.cpp:102-171 | the character loop builds the string the functional parser yields, with the same errors |
| CppJsonMachine.Parser.ParseEsc | sdks/cpp-worker/src/json.cpp:110-163 | one escape, including the four-digit loop and its UTF-8 encoding, yields what the functional parser yields |
| CppJsonMachine.Parser.ParseNum | sdks/cpp-worker/src/json.cpp:193-253 | the number scanner with its 64-bit range error and the two errors of the conversion to `double` |
| CppJsonMachine.Parser.Convert | sdks/cpp-worker/src/json.cpp:245-248 | a token is kept if `std::stod` gives a finite result; an exception and a result that is not finite are different errors |
| CppJsonMachine.ParseText | sdks/cpp-worker/src/json.cpp:334-342 | the whole text is parsed as the functional parser does, trailing content being an error |
| CppJsonMachine.Stream.PutString | sdks/cpp-worker/src/json.cpp:256-285 | appends to the stream exactly the quoted string |
| CppJsonMachine.Stream.PutValue | sdks/cpp-worker/src/json.cpp:287-330 | appends to the stream exactly the value's text |
| CppJsonMachine.Stream.PutItems | sdks/cpp-worker/src/json.cpp:305-315 | the element loop with its separators appends the items' text |
| CppJsonMachine.Stream.PutMembers | sdks/cpp-worker/src/json.cpp:316-328 | the member loop with its separators appends the members' text |
| CppJsonMachine.DumpText | sdks/cpp-worker/src/json.cpp:344-348 | the stream's content is the printed value, and parsing it gives the value back |
| CppJsonUnits.EscapesAreUtf8 | sdks/cpp-worker/src/json.cpp:133-159 | a string of `\u` escapes is parsed to bytes that an independent UTF-8 reader (section 3 of RFC 3629) reads back as exactly their codes, each on its own, with nothing left over; for every code up to 0xFFFF and either case of the digits |
| CppJsonUnits.OtherUnitsFail | sdks/cpp-worker/src/json.cpp:135-138 | four characters after `\u` that spell no number in base sixteen are the error of a bad unicode escape |
| CppJsonUnits.ShortEscapesExactly | sdks/cpp-worker/src/json.cpp:112-162 | each short escape is parsed to the character with its code, and any other letter but `u` is the error of a bad escape |
| CppJsonUnits.RawExactly | sdks/cpp-worker/src/json.cpp:102-171 | a raw character is parsed to itself, unless it is a control character, which is an error |
| CppJsonUnits.IntegersExactly | sdks/cpp-worker/src/json.cpp:193-253 | every integer from -9223372036854775808 to 9223372036854775807 is parsed to itself, and every other one is the range error |
| CppJsonUnits.FractionsExactly | sdks/cpp-worker/src/json.cpp:207-250 | a number with a fraction or an exponent is kept as written if it converts to a finite `double`, and is one of two errors if not |
| CppJsonUnits.LiteralsExactly | sdks/cpp-worker/src/json.cpp:49-191 | the texts of the three literals and of the two empty containers |
| CppJsonUnits.ItemsSeparated | sdks/cpp-worker/src/json.cpp:80-100 | items stand between brackets, separated by commas, in order |
| CppJsonUnits.MembersSeparated | sdks/cpp-worker/src/json.cpp:49-78 | members stand between braces, with a colon after the key, separated by commas, in order and with duplicates |
| CppJsonUnits.PrintedRawExactly | sdks/cpp-worker/src/json.cpp:256-285 | a character is printed raw if and only if JSON lets it stand unescaped, and a control without a short form as the escape of its own code |
| CanonicalTheorems.CanonicalExactly | services/local-executor-host-rs/src/protocol.rs:361-384 | canonical texts are equal if and only if the values are equal as JSON with unordered objects |
| CanonicalTheorems.Frame | services/local-executor-host-rs/src/protocol.rs:361-384 | a canonical text determines where it ends and what it means, whatever follows |
| CanonicalTheorems.SameText | services/local-executor-host-rs/src/protocol.rs:361-384 | equal meanings give equal texts, whatever the order of entries |
| CanonicalTheorems.SortSorts | services/local-executor-host-rs/src/protocol.rs:374-381 | collecting entries with distinct keys into the ordered map keeps all keys in strictly increasing order |
| CanonicalTheorems.QuoteFrame | services/local-executor-host-rs/src/protocol.rs:367-367 | a quoted string determines its content and its end |
| CanonicalTheorems.PreimageDetermines | services/local-executor-host-rs/src/protocol.rs:386-392 | the hashed bytes are equal if and only if key and request are, also for keys with line breaks |
| CanonicalTheorems.RequestFingerprint | services/local-executor-host-rs/src/protocol.rs:386-392 | three updates of the hasher digest the key, a line break and the canonical request |
| CanonicalTheorems.FingerprintIsRequest | services/local-executor-host-rs/src/protocol.rs:386-392 | unless the hash collides on the two texts, equal fingerprints are the same key and the same request |
| CanonicalReads.CanonicalParses | services/local-executor-host-rs/src/protocol.rs:361-384 | the canonical text is JSON: parsing it gives the value back, arrays in order and every object's members in strictly increasing order of their keys |
| InvalidNumber.FindsExactly | packages/contracts/src/validation.ts:74-111 | on every finite graph, cyclic or shared, an issue is found if and only if a bad number is reachable |
| InvalidNumber.NothingMissed | packages/contracts/src/validation.ts:96-111 | cutting at objects on the current path loses no bad number |
| InvalidNumber.FoundIsBad | packages/contracts/src/validation.ts:79-93 | a finding is a number that is not finite or is an unsafe integer, at the path it was found |
| InvalidNumber.IssuePathExactly | packages/contracts/src/validation.ts:74-111 | a reported issue's path, read as a JSON Pointer, leads to a number its message is true of if and only if the checked value is not itself a number |
| InvalidNumber.IssuePathLeadsThere | packages/contracts/src/validation.ts:100-104 | an issue path other than the root's, read as a JSON Pointer, leads to a number the message is true of |
| InvalidNumber.RootIssuePath | packages/contracts/src/validation.ts:82-82 | a bad root is reported at "/", and that pointer resolves to nothing |
| InvalidNumber.FindInvalidNumber | packages/contracts/src/validation.ts:74-111 | the walk with its mutable set returns the specified issue, terminates, and restores the set on every exit |
| InvalidNumber.CheckNumbers | packages/contracts/src/validation.ts:52-60 | values are let through to the schema exactly when no reachable number is bad |
| JsonPointer.TokensOfPointer | packages/contracts/src/validation.ts:102-102 | splitting and unescaping a written pointer gives back the keys, whatever tildes and slashes they contain |
| AsJsonValue.SucceedsExactly | packages/worker/src/execution/json-value.ts:3-43 | the conversion succeeds if and only if everything it visits is plain with good numbers and there is no cycle; the result is the tree unfolding |
| AsJsonValue.ConvertUnfolds | packages/worker/src/execution/json-value.ts:31-39 | a result is the tree unfolding of the graph |
| AsJsonValue.UnfoldsUnique | packages/worker/src/execution/json-value.ts:3-43 | a graph has at most one tree unfolding |
| AsJsonValue.StoppedExplained | packages/worker/src/execution/json-value.ts:10-28 | an error path leads to what the error says: a bad number, a foreign value or object, or an object already on the path |
| AsJsonValue.SharingIsAccepted | packages/worker/src/execution/json-value.ts:27-42 | a second reference, in any object, to a value that the object already refers to never changes whether a graph is accepted |
| AsJsonValue.ToJson | packages/worker/src/execution/json-value.ts:3-43 | on any heap, the recursion returns the specified tree or error with its path, and restores the set on every exit |
| AsJsonValue.CopyProperties | packages/worker/src/execution/json-value.ts:35-39 | the property loop fills the output in order and stops at the first error |
| AsJsonValue.CopyElements | packages/worker/src/execution/json-value.ts:31-34 | the map over an array visits the elements by index, passes over holes and other properties, and stops at the first error |
| AsJsonValue.AsJson | packages/worker/src/execution/json-value.ts:3-43 | on any heap, arrays with holes and extra properties included, a call succeeds exactly if what it visits is plain and acyclic, and returns the unfolding of that |
| WalkerReports.FirstIsReported | packages/contracts/src/validation.ts:95-108 | among all ways to bad numbers that pass no object twice, the reported one is the first in the order of the properties |
| WalkerReports.ReportedIsStraight | packages/contracts/src/validation.ts:95-111 | the way to the reported number passes no object twice |
| WalkerReports.GoodNumberExactly | packages/contracts/src/validation.ts:79-94 | a number is good if and only if it is finite and no integer beyond 9007199254740991 either way |
| WalkerReports.MessageExactly | packages/contracts/src/validation.ts:79-94 | the path and the words for a bad root: not finite, or not safe |
| WalkerReports.EscapeExactly | packages/contracts/src/validation.ts:102-102 | a key is escaped character by character: tilde to ~0, slash to ~1, anything else to itself |
| WalkerReports.FirstIsThrown | packages/worker/src/execution/json-value.ts:31-39 | nothing that comes earlier in the order of the properties than the place of the error is at fault: it is plain and no way from it leads round |
| WalkerReports.WordsExactly | packages/worker/src/execution/json-value.ts:3-28 | the error's words, by what stands at the end of its path, for all five errors |
| WalkerReports.RenderExactly | packages/worker/src/execution/json-value.ts:31-38 | an error path is the dollar sign and its steps: an index in brackets, a property after a dot |
| WalkerReports.VisitedExactly | packages/worker/src/execution/json-value.ts:31-34 | of an array exactly the properties named by an index below the length are visited |
| WalkerReports.VisitedInOrder | packages/worker/src/execution/json-value.ts:31-34 | they are visited in the order of the indexes |
| TestPaths.ProductionCandidates | skills/understand/merge-batch-graphs.py:381-566 | the candidates in priority order, without duplicates or empty paths |
| TestPaths.CandidatesExactlyForTests | skills/understand/merge-batch-graphs.py:328-566 | a path has candidates if and only if it is a test path; they are distinct, and all proposals are among them |
| TestPaths.BaseStemExactlyForTests | skills/understand/merge-batch-graphs.py:328-348 | a base stem can be stripped exactly from test names, in every language family |
| TestPathRules.PathParts | skills/understand/merge-batch-graphs.py:319-345 | a path of directories, stem and extension is taken apart into just these |
| TestPathRules.TestsExactly | skills/understand/merge-batch-graphs.py:328-348 | a path is a test if and only if its stem begins or ends as its extension asks, for sixteen extensions, and never with another extension |
| TestPathRules.StemExactly | skills/understand/merge-batch-graphs.py:351-566 | in every language the stem that a test's stem is built on is what is left without its marker |
| TestPathRules.ProposalsExactly | skills/understand/merge-batch-graphs.py:396-566 | which list of places is proposed for which extension |
| TestPathRules.JsExactly | skills/understand/merge-batch-graphs.py:372-424 | JavaScript and TypeScript: beside the test, then out of its test directory, then under src, app, lib and the root, each with the test's own extension first |
| TestPathRules.PyExactly | skills/understand/merge-batch-graphs.py:431-453 | Python: beside the test, then out of its tests directory, then under src, app, lib and the root |
| TestPathRules.JvmExactly | skills/understand/merge-batch-graphs.py:455-487 | Java and Kotlin: src/test/<language> becomes src/main/<language> at the start of the path only, then beside the test |
| TestPathRules.ScalaExactly | skills/understand/merge-batch-graphs.py:489-506 | Scala: the first src/test/scala anywhere becomes src/main/scala, then beside the test |
| TestPathRules.CsInTests | skills/understand/merge-batch-graphs.py:508-553 | C# below a tests directory: beside the test, around the last such directory, src in its place, and the sibling project |
| TestPathRules.CsElsewhere | skills/understand/merge-batch-graphs.py:508-553 | C# elsewhere: beside the test, and the sibling project without .Tests or .Test |
| TestPathRules.CandidatesInOrder | skills/understand/merge-batch-graphs.py:366-369 | the candidates stand in the order in which they are first proposed |
| LinkTests.SurvivorIsWinner | skills/understand/merge-batch-graphs.py:680-739 | at each place of the compacted list stands an unchanged edge of another kind, or, at the place of a pair's first usable edge, the first edge of maximal weight in either direction, made to run from production to test |
| LinkTests.BestIsFirstMaximum | skills/understand/merge-batch-graphs.py:709-729 | the winner of a pair is heavier than all earlier and not lighter than any later edge of the pair |
| LinkTests.KeptIsClean | skills/understand/merge-batch-graphs.py:685-738 | surviving tested_by edges run from production to test, one per pair |
| LinkTests.KeptPairs | skills/understand/merge-batch-graphs.py:734-737 | the covered pairs are exactly the pairs of surviving edges |
| LinkTests.OthersSurvive | skills/understand/merge-batch-graphs.py:686-689 | edges of other kinds survive unchanged and in order |
| LinkTests.CleanIsFixed | skills/understand/merge-batch-graphs.py:685-738 | on a clean list pass 1 changes nothing and swaps nothing |
| Compaction.NewPair | skills/understand/merge-batch-graphs.py:731-737 | the loop invariant over slots, covered pairs and swapped pairs survives the first usable edge of a pair |
| Compaction.Heavier | skills/understand/merge-batch-graphs.py:713-729 | the loop invariant survives a heavier edge that replaces its slot, swapped or not |
| Compaction.NotHeavier | skills/understand/merge-batch-graphs.py:709-729 | the loop invariant survives an edge that is dropped because the slot is at least as heavy |
| Compaction.Unusable | skills/understand/merge-batch-graphs.py:699-707 | the loop invariant survives an edge that pairs no production file with a test |
| Linker.Graph.Compact | skills/understand/merge-batch-graphs.py:680-739 | reading and writing one list in place leaves the specified survivors; dropped balances the length and swapped counts the flipped survivors |
| Linker.Graph.IndexFiles | skills/understand/merge-batch-graphs.py:653-665 | the indexes by path and by id, and the test files in order |
| Linker.Graph.SupplementTests | skills/understand/merge-batch-graphs.py:741-767 | pass 2 appends exactly the supplements of unpaired tests and counts them |
| Linker.Graph.FindProduction | skills/understand/merge-batch-graphs.py:747-756 | the candidate loop returns the first candidate that names a production file |
| Linker.Graph.TagSources | skills/understand/merge-batch-graphs.py:769-777 | whatever the order of the set, the sources are tagged and the new tags counted |
| Linker.Graph.EnsureTag | skills/understand/merge-batch-graphs.py:598-613 | the tag is added once, a malformed tag list being replaced |
| Linker.Graph.LinkTests | skills/understand/merge-batch-graphs.py:616-779 | the whole linker leaves the specified nodes and edges and returns the specified counters |
| Linker.LinkedPairs | skills/understand/merge-batch-graphs.py:765-772 | the covered pairs at the end are the tested_by pairs of the list |
| Linking.LinkIsIdempotent | skills/understand/merge-batch-graphs.py:616-779 | a second run on the linker's own output adds, drops, tags and swaps nothing and changes nothing |
| Linking.LinkReport | skills/understand/merge-batch-graphs.py:738-779 | added and dropped balance the list, every pair found in pass 1 survives, the sources of tested_by edges carry the tag, and all other nodes are unchanged |
| Linking.ChoiceIsFirst | skills/understand/merge-batch-graphs.py:747-756 | the chosen production file is the one of the first candidate path that names a known file which is no test |
| Linking.UnpairedTestIsLinked | skills/understand/merge-batch-graphs.py:744-767 | every test left unpaired is linked to the first candidate that names a production file, if there is one |
| Linking.SupplementUpright | skills/understand/merge-batch-graphs.py:744-767 | a supplement runs from a production file to an unpaired test |
| LinkFields.SurvivorFields | skills/understand/merge-batch-graphs.py:580-739 | every surviving tested_by edge is the first heaviest of its pair: unchanged if it ran from production to test, and otherwise with its endpoints exchanged, direction forward and its description marked, all else kept |
| LinkFields.SupplementFields | skills/understand/merge-batch-graphs.py:741-767 | every added edge runs from the first candidate that names a production file to an uncovered test, with kind tested_by, direction forward, weight one half and its description |
| LinkFields.EveryTestIsLinked | skills/understand/merge-batch-graphs.py:741-767 | every test file no surviving edge covers has an edge from the first candidate that names a production file |
| LinkFields.SupplementsInOrder | skills/understand/merge-batch-graphs.py:744-767 | added edges stand in the order of the test files |
| LinkFields.CountersExactly | skills/understand/merge-batch-graphs.py:738-779 | added counts the edges after the survivors, dropped the input edges that did not survive, tagged the nodes that changed, swapped the winners that ran from test to production |
| LinkFields.PathIndexExactly | skills/understand/merge-batch-graphs.py:653-659 | under each path stands the id of the last file node with that path, filePath going before the id |
| LinkFields.ClassExactly | skills/understand/merge-batch-graphs.py:653-665 | a file node is a test or production by the name of its path |
| NodeIds.StripDoublePrefix | skills/understand/merge-batch-graphs.py:223-228 | whatever order the prefix set is iterated in, the same double prefix is stripped |
| NodeIds.NormalizedHasPrefix | skills/understand/merge-batch-graphs.py:219-262 | every normalized id has a known prefix |
| NodeIds.NormalForAll | skills/understand/merge-batch-graphs.py:219-262 | whether an id is normal does not depend on the node that carries it |
| NodeIdForms.PrefixedStays | skills/understand/merge-batch-graphs.py:219-247 | an id with one of the twenty-two known prefixes stays as it is, func becoming function |
| NodeIdForms.DoubledLosesOne | skills/understand/merge-batch-graphs.py:223-228 | an id with a known prefix twice keeps it once |
| NodeIdForms.ProjectGoes | skills/understand/merge-batch-graphs.py:230-238 | a project name before a known prefix is dropped, if the text after the prefix is one line |
| NodeIdForms.BareGetsPrefix | skills/understand/merge-batch-graphs.py:244-262 | any other id gets the prefix of its node's type, file for an unknown type or none |
| NodeIdForms.BareGetsPlace | skills/understand/merge-batch-graphs.py:248-259 | for a function or a class, type, path and name, with the placeholder for a missing path and the id for a missing name |
| MergeBatch.NoEdgeLost | skills/understand/merge-batch-graphs.py:809-896 | an edge of another kind between ids of input nodes has an output edge whose source is the normalized id of the last node that carries its source, and the target likewise, of its kind and direction, and at least its weight |
| MergeBatch.NoEdgeInvented | skills/understand/merge-batch-graphs.py:844-896 | an output edge of another kind is an input edge whose endpoints have followed the last nodes that carry them, with all else it carried |
| MergeBatch.MergedIsWellFormed | skills/understand/merge-batch-graphs.py:856-896 | node ids and edge keys are distinct, no edge dangles, and no id is lost |
| MergeBatch.SurvivingWeightIsMaximal | skills/understand/merge-batch-graphs.py:893-896 | the surviving edge of a key has the maximal weight of that key |
| MergeBatch.EndpointFollows | skills/understand/merge-batch-graphs.py:809-854 | an endpoint that names an input node is rewritten to the id of a merged node |
| MergeBatch.LastNodeWins | skills/understand/merge-batch-graphs.py:856-863 | under each id stands the last node that has it |
| MergeBatch.MergeAndNormalize | skills/understand/merge-batch-graphs.py:784-896 | the steps in order yield the specified nodes and edges, with distinct ids and keys |
| MergeBatch.NormalizeIds | skills/understand/merge-batch-graphs.py:804-826 | nodes are renamed in order and the mapping records every changed id |
| MergeBatch.RewriteEdges | skills/understand/merge-batch-graphs.py:844-854 | the source of every edge becomes what the mapping has for it, and the target what it has for the target; nothing else changes |
| MergeBatch.Deduplicate | skills/understand/merge-batch-graphs.py:856-863 | a later node replaces an earlier one at its place |
| MergeBatch.DropDangling | skills/understand/merge-batch-graphs.py:871-896 | edges are directed, filtered by known endpoints and de-duplicated by key, the heavier one winning |
| MergeExactly.SurvivorIsFirstMaximum | skills/understand/merge-batch-graphs.py:844-896 | an output edge of another kind is, with all it carried, the first heaviest of the input edges whose endpoints come to its endpoints, with its kind and direction |
| MergeExactly.DirectionExactly | skills/understand/merge-batch-graphs.py:132-138 | both and mutual are bidirectional, backward stays, anything unknown is forward, whatever the case of letters |
| MergeExactly.DedupOrder | skills/understand/merge-batch-graphs.py:871-896 | edges stand in the order in which their keys are first met |
| MergeExactly.MergedNodeIsLast | skills/understand/merge-batch-graphs.py:800-863 | every output node is the last input node that is given its id, with all its fields; only the tag is added, exactly if it is the source of an output tested_by edge |
| MergeExactly.NoNodeLost | skills/understand/merge-batch-graphs.py:800-863 | every input node with an id leaves a node under its normalized id |
| MergeExactly.MergedNodesInOrder | skills/understand/merge-batch-graphs.py:856-863 | output nodes stand in the order in which their ids are first given |
| SubdomainMerge.IncrementalIsOneShot | skills/understand/merge-subdomain-graphs.py:360-396 | after any sequence of runs the base has the nodes, and every structural key the weight in the graph and among the dropped edges, of one merge of everything |
| SubdomainMerge.NodesCatchUp | skills/understand/merge-subdomain-graphs.py:83-94 | after any runs the base has the one-shot nodes in the one-shot order |
| SubdomainMerge.StructuralCatchesUp | skills/understand/merge-subdomain-graphs.py:270-288 | a structural edge ever seen is in the base, with the maximal weight ever seen, or in the dropped edges, as its endpoints are known or not |
| SubdomainMerge.OthersSurviveExactly | skills/understand/merge-subdomain-graphs.py:110-133 | a non-structural key survives if and only if some run saw it and knew both endpoints by then |
| SubdomainMerge.LostForGood | skills/understand/merge-subdomain-graphs.py:110-133 | a non-structural edge that comes one run before its endpoints is lost, where one merge of everything keeps it |
| SubdomainMerge.OthersNeverExceed | skills/understand/merge-subdomain-graphs.py:96-119 | non-structural keys are among the one-shot ones and never heavier |
| SubdomainMerge.NothingInvented | skills/understand/merge-subdomain-graphs.py:285-288 | every edge in the files was an input edge, payload included |
| SubdomainPayload.PayloadsAgreeExactly | skills/understand/merge-subdomain-graphs.py:360-378 | for a structural key that was ever seen: which run's edge is held after all runs, which run's edge one merge of everything holds, and that payloads agree if and only if these two runs brought the same edge |
| SubdomainPayload.KeeperExists | skills/understand/merge-subdomain-graphs.py:360-378 | the held edge is that of the last run to bring the maximal weight among those that began without knowing both endpoints, or of the first such run of all if there is none |
| SubdomainPayload.FirstExists | skills/understand/merge-subdomain-graphs.py:96-108 | one merge of everything holds the edge of the first run to bring the maximal weight |
| SubdomainPayload.HeldStep | skills/understand/merge-subdomain-graphs.py:367-378 | in one run the base's edge comes before the run's own, and the run's own before a retried one |
| SubdomainMerge.PayloadAgreesWithoutTies | skills/understand/merge-subdomain-graphs.py:96-108 | in particular, if no two different edges of a key have one weight, both ways keep the same edge |
| SubdomainMerge.TiesMayDiffer | skills/understand/merge-subdomain-graphs.py:367-378 | a pair of runs where the two ways keep different edges of one weight |
| SubdomainMerge.MergeWeight | skills/understand/merge-subdomain-graphs.py:96-126 | one merge keeps, per key, the maximal weight, in the graph or among the dropped edges as the endpoints are known or not |
| SubdomainMerge.MergeChampion | skills/understand/merge-subdomain-graphs.py:96-126 | one merge keeps, per key, the first edge of maximal weight |
| SubdomainMerge.MergeGraphs | skills/understand/merge-subdomain-graphs.py:66-133 | the nested loops yield the specified graph and dropped edges |
| SubdomainMerge.CollectNodes | skills/understand/merge-subdomain-graphs.py:83-94 | the node loop skips nodes without id and lets later ones win |
| SubdomainMerge.CollectEdges | skills/understand/merge-subdomain-graphs.py:96-108 | the edge loop keeps the first edge of maximal weight per key |
| SubdomainMerge.Workspace.MergeRun | skills/understand/merge-subdomain-graphs.py:360-396 | one run merges base, subdomain graphs and pending edges and writes base and report |
| SubdomainMerge.Workspace.LoadPending | skills/understand/merge-subdomain-graphs.py:270-288 | exactly the structural dropped edges are retried |
| SubdomainExactly.MergedEdgesExactly | skills/understand/merge-subdomain-graphs.py:96-133 | an edge is in the merged graph if and only if it is the first heaviest of its endpoints and kind and both endpoints went in as nodes, and among the dropped ones if and only if it is and they did not |
| SubdomainExactly.MergedNodesExactly | skills/understand/merge-subdomain-graphs.py:83-94 | a node is in the merged graph if and only if it has an id and no later node has the same one |
| SubdomainExactly.MergedEdgesInOrder | skills/understand/merge-subdomain-graphs.py:96-118 | merged edges stand in the order in which their endpoints and kind are first met |
| SubdomainExactly.StructuralExactly | skills/understand/merge-subdomain-graphs.py:270-288 | the three structural kinds |
| NodeSupervisor.Supervisor.constructor | services/local-executor-host/src/supervisor.ts:132-183 | the state after supervision starts, with an abort that came before it |
| NodeSupervisor.Supervisor.SettleWith | services/local-executor-host/src/supervisor.ts:141-147 | settling once clears every timer and the abort listener; a second settling changes nothing |
| NodeSupervisor.Supervisor.BeginEscalation | services/local-executor-host/src/supervisor.ts:172-179 | the trigger is recorded, SIGTERM requested and a kill timer armed |
| NodeSupervisor.Supervisor.DataListener | services/local-executor-host/src/supervisor.ts:186-203 | a chunk is captured and counted, or raises the limit and requests SIGKILL, or is ignored |
| NodeSupervisor.Supervisor.ExitListener | services/local-executor-host/src/supervisor.ts:226-258 | the exit kills the group and settles by limit, signal and code |
| NodeSupervisor.Supervisor.Dispatch | services/local-executor-host/src/supervisor.ts:132-277 | each callback is one step of the state machine |
| NodeSupervisorRuns.OneOutcome | services/local-executor-host/src/supervisor.ts:141-147 | in every run there is exactly one outcome once an exit or error was reported, and none before |
| NodeSupervisorRuns.SilentAfterSettling | services/local-executor-host/src/supervisor.ts:141-183 | after settling the outcome is final, no timer or abort listener runs, and no signal is requested |
| NodeSupervisorRuns.OutcomeOfExit | services/local-executor-host/src/supervisor.ts:226-258 | the outcome is determined by the callbacks before the exit: the first stream to overflow, or the exit's verdict with everything that arrived |
| NodeSupervisorRuns.SucceededExactly | services/local-executor-host/src/supervisor.ts:239-256 | success is reported if and only if the run settles by an exit with code zero and no bound was passed before; every byte delivered before the exit is then captured |
| NodeSupervisorRuns.LateOutputIsLost | services/local-executor-host/src/supervisor.ts:186-187 | a successful outcome has a whole stream if and only if nothing arrives on it after the exit |
| NodeSupervisorRuns.LateChunk | services/local-executor-host/src/supervisor.ts:186-187 | a run in which a chunk right after the exit is in no outcome |
| NodeSupervisorRuns.AllCaptured | services/local-executor-host/src/supervisor.ts:186-203 | below both bounds everything that arrived is captured |
| NodeSupervisorRuns.CapturedUpTo | services/local-executor-host/src/supervisor.ts:186-203 | above a bound, what is captured is what arrived before the chunk that overflowed |
| NodeSupervisorRuns.BoundsHold | services/local-executor-host/src/supervisor.ts:188-203 | in every run the counters are the captured sizes and within their bounds |
| NodeSupervisorRuns.CapturedIsPrefix | services/local-executor-host/src/supervisor.ts:186-203 | in every run both captured streams are what had arrived by one moment, a prefix of what arrives |
| NodeSupervisorRuns.SignalsJustified | services/local-executor-host/src/supervisor.ts:149-203 | before the exit SIGTERM needs an abort or the earlier clock over, and SIGKILL an overflow at that moment or a SIGTERM a full grace period earlier |
| NodeSupervisorRuns.EscalationsCarriedOut | services/local-executor-host/src/supervisor.ts:172-179 | while the child runs, every SIGTERM has its SIGKILL armed for the end of the grace period or requested after it |
| NodeSupervisorRuns.AtMostSixSignals | services/local-executor-host/src/supervisor.ts:149-258 | a whole run requests at most six signals |
| NodeSupervisorRuns.TriggerSoFar | services/local-executor-host/src/supervisor.ts:172-183 | the recorded trigger is that of the latest escalation, or wall_time without one |
| NodeSupervisorRuns.FirstTriggerKeptExactly | services/local-executor-host/src/supervisor.ts:172-183 | the trigger on record is that of the first escalation if and only if an abort and the wall-clock timer have not both begun one |
| NodeSupervisorRuns.TimerLabelExactly | services/local-executor-host/src/supervisor.ts:243-275 | a child killed after the timer alone began an escalation is reported under the clock that ran out if and only if there is no deadline or it is not after the wall-time limit |
| NodeSupervisorRuns.WrongLabel | services/local-executor-host/src/supervisor.ts:263-275 | a run in which a wall-time kill is reported as a missed deadline |
| NodeSupervisorRuns.LaterTriggerWins | services/local-executor-host/src/supervisor.ts:172-183 | a run in which a child terminated by its clock is reported as killed by the shutdown that came later |
| NodeSignals.SentExactly | services/local-executor-host/src/supervisor.ts:149-203 | while the child runs the requested signals are exactly: SIGKILL for the chunk that first passes a bound, SIGTERM for an abort and for the wall-clock timer, SIGKILL for the end of each grace period, in order; none without a process |
| NodeSignals.SentInAll | services/local-executor-host/src/supervisor.ts:226-238 | over a whole run the first exit adds one SIGKILL, an error none, and nothing follows |
| NodeSignals.OverflowKills | services/local-executor-host/src/supervisor.ts:191-195 | the chunk that takes a stream over its bound has SIGKILL requested at that instant |
| NodeSignals.CallbackSignals | services/local-executor-host/src/supervisor.ts:172-183 | an abort and the wall-clock timer have SIGTERM requested when they come, and the end of a grace period SIGKILL |
| NodeSignals.AbortAtStartSignals | services/local-executor-host/src/supervisor.ts:181-183 | an abort before the start has SIGTERM requested at the start |
| NodeSignals.ExitKills | services/local-executor-host/src/supervisor.ts:226-238 | the first exit has SIGKILL requested for the group |
| NodeSignals.ExitReported | services/local-executor-host/src/supervisor.ts:243-257 | within the bounds an exit by SIGTERM or SIGKILL is a kill by that signal, code zero success, another code a failure with it, no code a failure with -1 |
| NodeSignals.WallTimerArmed | services/local-executor-host/src/supervisor.ts:263-276 | until it fires the timer is armed for the earlier of the wall-time limit and the deadline, and for the start if that is past |
| NodeSignals.GraceGiven | services/local-executor-host/src/supervisor.ts:172-179 | every SIGTERM has its SIGKILL armed for, or requested after, a grace period of 5000 milliseconds unless set otherwise |
| TokioSupervisor.ReadBounded | services/local-executor-host-rs/src/supervisor.rs:208-231 | for any split into reads: exactly the first limit bytes, and overflow if and only if there were more |
| TokioSupervisor.EarlierClock | services/local-executor-host-rs/src/supervisor.rs:233-246 | the kill instant is the earlier of wall clock and deadline under its own name, a tie going to the deadline |
| TokioSupervisor.Supervisor.constructor | services/local-executor-host-rs/src/supervisor.rs:151-158 | the state before the loop, with a shutdown that came before it |
| TokioSupervisor.Supervisor.Escalate | services/local-executor-host-rs/src/supervisor.rs:248-257 | SIGTERM is requested and a grace task spawned, unless there is no process id |
| TokioSupervisor.Supervisor.Select | services/local-executor-host-rs/src/supervisor.rs:160-205 | each ready branch is one step of the state machine |
| TokioSupervisor.Supervisor.Finish | services/local-executor-host-rs/src/supervisor.rs:163-182 | at the end of the child both readers' results and flags decide between limit and status |
| TokioSupervisorRuns.OneEscalation | services/local-executor-host-rs/src/supervisor.rs:154-204 | in every interleaving SIGTERM is requested at most once, at the first occasion, and never without a process id |
| TokioSupervisorRuns.FirstOccasionDecides | services/local-executor-host-rs/src/supervisor.rs:183-203 | the first occasion fixes the trigger: shutdown when observed then, and otherwise the earlier clock, which is over by then |
| TokioSupervisorRuns.TriggerExactly | services/local-executor-host-rs/src/supervisor.rs:151-204 | the trigger at any time, read off the occurrences alone |
| TokioSupervisorRuns.ResultExactly | services/local-executor-host-rs/src/supervisor.rs:163-182 | in every interleaving an output limit is reported if and only if a stream is longer than its bound; otherwise the result is made of the status, the trigger and both streams whole |
| TokioSupervisorRuns.AtMostOneResult | services/local-executor-host-rs/src/supervisor.rs:160-205 | the loop ends once |
| TokioSupervisorRuns.ResultOnceWaited | services/local-executor-host-rs/src/supervisor.rs:160-205 | there is a result if and only if the child has been waited for |
| TokioSupervisorRuns.KillsJustified | services/local-executor-host-rs/src/supervisor.rs:163-196 | SIGKILL needs a reader's message, the end of the child, or a SIGTERM a full grace period earlier |
| TokioSupervisorRuns.GraceOutlivesResult | services/local-executor-host-rs/src/supervisor.rs:248-257 | once the result is out, a signal is still to come if and only if there is a process id, an escalation began, and its grace period is not over |
| TokioSupervisorRuns.LateKill | services/local-executor-host-rs/src/supervisor.rs:248-257 | a run in which SIGKILL is requested after the result |
| TokioOutcomes.SucceededExactly | services/local-executor-host-rs/src/supervisor.rs:259-270 | success is reported if and only if the child exited with code zero and both streams were within their bounds, with both streams whole |
| TokioOutcomes.FailedExactly | services/local-executor-host-rs/src/supervisor.rs:288-292 | failure is reported if and only if the exit code is another one, with that code |
| TokioOutcomes.KilledExactly | services/local-executor-host-rs/src/supervisor.rs:271-287 | a kill is reported if and only if a signal ended the child: SIGKILL for signal 9, SIGTERM for any other, under the trigger of the first escalation |
| TokioOutcomes.SpawnFailedExactly | services/local-executor-host-rs/src/supervisor.rs:294-296 | a failed wait is reported in its own words |
| TokioOutcomes.OutputLimitExactly | services/local-executor-host-rs/src/supervisor.rs:163-180 | a byte bound is reported if and only if a stream is too long, under the stream heard of first, else stdout, with both streams cut at their bounds |
| TokioOutcomes.SentExactly | services/local-executor-host-rs/src/supervisor.rs:151-204 | in every run the requested signals are exactly: SIGTERM at the first occasion to escalate, SIGKILL for a reader's message, for the end of the child and for the end of the grace period |
| TokioOutcomes.EventSignals | services/local-executor-host-rs/src/supervisor.rs:163-257 | each of these has its signal requested at its own instant |
| TokioOutcomes.WholeExactly | services/local-executor-host-rs/src/supervisor.rs:208-231 | a stream is the concatenation of its reads up to its end or an error |
| TokioOutcomes.InstantExactly | services/local-executor-host-rs/src/supervisor.rs:237-239 | the deadline's instant is as far from now as its time is from the present, and now if it is past |
| StreamBounds.SameLimits | services/local-executor-host/src/supervisor.ts:186-203 | on either stream both supervisors raise the limit on the same outputs, and the TypeScript capture is a chunk-aligned prefix of the Rust one |
| StreamBounds.ChunksMatter | services/local-executor-host/src/supervisor.ts:191-195 | what the TypeScript supervisor keeps of a too long output depends on its chunks |
| RetryAfter.DeltaExactly | packages/worker/src/callback/retry-after.ts:1-20 | for a maximum that is not negative: the exact number when it is within the maximum and safe, the maximum otherwise, nothing for other texts; never above the maximum |
| RetryAfter.TextAboveExactly | packages/worker/src/callback/retry-after.ts:12-17 | comparison by length and then dictionary order is numeric comparison, for digit strings of any length |
| RetryAfter.TrimKeepsValue | packages/worker/src/callback/retry-after.ts:7-7 | dropping leading zeros keeps the number |
| RetryAfter.NeverAboveExactly | packages/worker/src/callback/retry-after.ts:1-20 | the result is within the maximum if and only if the maximum is not negative or the number has at least as many digits as the maximum has characters |
| RetryAfter.AboveNegativeMaximum | packages/worker/src/callback/retry-after.ts:8-19 | five seconds pass a maximum of minus one hundred |
| CallbackDelivery.DeliverSignedBody | packages/worker/src/callback/callback-delivery.ts:110-280 | the loop returns the outcome, the requests made and the waits asked for of the one attempt that settles the delivery |
| CallbackDelivery.OneAttemptSettles | packages/worker/src/callback/callback-delivery.ts:124-271 | a delivery is settled by one attempt only, so its outcome, requests and waits are determined by the behaviour of the world |
| CallbackDelivery.ReadLimitedResponse | packages/worker/src/callback/callback-delivery.ts:295-320 | a body is read if and only if its declared and its actual size are within the limit and reading does not fail |
| CallbackDelivery.BackoffInRange | packages/worker/src/callback/callback-delivery.ts:282-293 | for any random number the delay is between zero and the maximum |
| CallbackDelivery.BackoffInTheMiddle | packages/worker/src/callback/callback-delivery.ts:287-292 | without jitter the delay is the doubling base, capped |
| CallbackDelivery.RetryInRange | packages/worker/src/callback/callback-delivery.ts:227-234 | the wait after a response, asked for by the server or not, is between zero and the maximum |
| CallbackRuns.SomeAttemptSettles | packages/worker/src/callback/callback-delivery.ts:124-280 | with at least one attempt allowed the return after the loop is unreachable |
| CallbackRuns.DeliveredExactly | packages/worker/src/callback/callback-delivery.ts:191-210 | delivered is reported if and only if a readable 2xx response came after attempts that were all retryable or failed |
| CallbackRuns.AttemptsAreRequests | packages/worker/src/callback/callback-delivery.ts:124-280 | the reported attempts are the number of requests made, at most the maximum |
| CallbackRuns.PostsAreAlike | packages/worker/src/callback/callback-delivery.ts:133-165 | all requests carry one delivery id and the caller's bytes, each signed with its own timestamp |
| CallbackRuns.NothingSentAfterAbort | packages/worker/src/callback/callback-delivery.ts:125-132 | once an attempt finds the signal aborted nothing more is sent |
| CallbackRuns.UnreadableExactly | packages/worker/src/callback/callback-delivery.ts:167-189 | response-too-large is reported exactly for a response that could not be read, also below the limit |
| CallbackRuns.LostConnection | packages/worker/src/callback/callback-delivery.ts:167-189 | a connection lost within the limit after a success status is reported as response-too-large |
| CallbackRuns.WaitingIsBounded | packages/worker/src/callback/callback-delivery.ts:231-266 | whatever fails, the waits of a delivery add up to at most two maximal delays per retry, and to one if no wait is cut short without an abort |
| CallbackRuns.WaitingTwice | packages/worker/src/callback/callback-delivery.ts:235-258 | against a server that is always busy, every attempt before the last waits the maximal delay, and at least one more millisecond whenever its sleep fails without an abort |
| CallbackRuns.WaitsTwiceExactly | packages/worker/src/callback/callback-delivery.ts:227-266 | an attempt waits twice if and only if its wait after a response is cut short without an abort and it is not the last |
| CallbackRuns.WaitingExactly | packages/worker/src/callback/callback-delivery.ts:124-271 | one maximal delay per retry bounds the waits, whatever the world does, if and only if the sleep cannot fail without an abort in any attempt before the last |
| CallbackRuns.WaitingAnyhow | packages/worker/src/callback/callback-delivery.ts:124-271 | with a sleep that may always fail, that bound holds if and only if one attempt is allowed |
| CallbackOutcomes.SettlesExactly | packages/worker/src/callback/callback-delivery.ts:69-271 | an attempt leads to another if and only if it is not the last and either a readable 408, 429 or 500 to 599 was waited for, or a failure without an abort was; the first other one settles |
| CallbackOutcomes.ReportedExactly | packages/worker/src/callback/callback-delivery.ts:125-226 | which reason, status and number of attempts is reported, by status code: delivered for 200 to 299, retryable for the busy ones at the last attempt, not retryable for the rest |
| CallbackOutcomes.FailureReported | packages/worker/src/callback/callback-delivery.ts:236-266 | worker-shutdown, request-timeout, network-error and backoff-failed, each exactly when |
| CallbackOutcomes.ReadableExactly | packages/worker/src/callback/callback-delivery.ts:295-320 | a response is readable if and only if its declared length and every part of its body are within the limit and reading does not fail |
| CallbackOutcomes.BaseDoubles | packages/worker/src/callback/callback-delivery.ts:287-290 | the base of the delay starts at the initial delay and doubles up to the maximum |
| CallbackOutcomes.JitterEnds | packages/worker/src/callback/callback-delivery.ts:291-291 | the random number moves the base by up to the jitter ratio either way |
| CallbackOutcomes.BackoffNearest | packages/worker/src/callback/callback-delivery.ts:292-292 | the delay is the nearest whole number, a half rounded up, between zero and the maximum |
| CallbackOutcomes.AskedWait | packages/worker/src/callback/callback-delivery.ts:227-235 | after a busy answer the wait is the seconds asked for, the maximum if they are more, and the delay if no number is asked for |
| CallbackOutcomes.BoundedExactly | packages/worker/src/callback/retry-after.ts:8-11 | the compared maximum is the whole part of the maximum, at most 9007199254740991 |
| CallbackOutcomes.PostExactly | packages/worker/src/callback/callback-delivery.ts:133-165 | every request is stamped with the whole seconds of its own moment and signed with them, the delivery id and the caller's bytes |
| Acceptance.Worker.HandleRun | sdks/cpp-worker/src/worker.cpp:407-431 | a known id is answered from its entry and starts nothing; a new one is stored, started and answered with bytes that parse to the acceptance of its invocation under its run id and time |
| Acceptance.AtMostOneStart | sdks/cpp-worker/src/worker.cpp:409-430 | in every interleaving each invocation id starts at most one execution |
| Acceptance.EntryNeverChanges | sdks/cpp-worker/src/worker.cpp:411-426 | a stored entry never changes |
| Acceptance.AnswersExactly | sdks/cpp-worker/src/worker.cpp:411-431 | every request is answered by its id's winner: the winner's acceptance bytes for the same fingerprint, a conflict for another |
| Acceptance.EqualBodiesSameBytes | sdks/cpp-worker/src/worker.cpp:412-416 | equal bodies for one id get identical answers |
| Acceptance.ConflictExactly | sdks/cpp-worker/src/worker.cpp:413-415 | if the hash separates the bodies, a conflict is answered if and only if the body differs from the accepted one, and it starts nothing |
| Acceptance.Linearizable | sdks/cpp-worker/src/worker.cpp:409-431 | every interleaving leaves the store and gives the answers of handling the requests one by one in the order in which they took effect |
| Acceptance.SomeoneCanStep | sdks/cpp-worker/src/worker.cpp:409-427 | while a request is unanswered some thread can go on |
| Acceptance.AcceptanceDetermines | sdks/cpp-worker/src/worker.cpp:418-425 | acceptance bytes are equal if and only if invocation, run and time are |
| Acceptance.AnswerSays | sdks/cpp-worker/src/worker.cpp:412-431 | whatever the interleaving, the answered bytes parse to one object with just five members: schema version 1, the request's invocation id, status accepted, and the run id and the time of the id's winner; or the answer is a conflict, exactly if the fingerprints differ |
| EventEmitter.RunEventEmitter.Emit | packages/worker/src/events/event-emitter.ts:71-124 | one call: ignored, delivered, or thrown before or after a number is taken, with the exact condition of each, and the event that is delivered, field by field |
| EventEmitter.DeliveredExactly | packages/worker/src/events/event-emitter.ts:87-123 | over every run, the delivered events are exactly those of the calls that pass, each numbered by the valid calls before it |
| EventEmitter.DeliveredInOrder | packages/worker/src/events/event-emitter.ts:88-123 | over every run delivered numbers strictly increase within 0 to 2147483647, and ids and sizes are within their limits |
| EventEmitter.EventIdInjective | packages/worker/src/events/event-emitter.ts:90-90 | an event id names one invocation and one number, whatever colons the invocation id contains |
| EventEmitter.IdsAreUnique | packages/worker/src/events/event-emitter.ts:66-90 | no id is delivered twice, by one emitter or by emitters of different invocations |
| EventEmitter.NoGapsExactly | packages/worker/src/events/event-emitter.ts:88-123 | the delivered numbers run from zero without a gap if and only if no number that was taken in vain comes before a delivered one |
| EventEmitter.AllDeliveredExactly | packages/worker/src/events/event-emitter.ts:88-123 | as many events are delivered as numbers were taken if and only if every call with a valid payload delivers |
| EventEmitter.DeliveredInNumbers | packages/worker/src/events/event-emitter.ts:87-123 | the delivered events in numbers: id of invocation, colon and number, at most 255 characters, number below 2147483648, size at most 65536, kind and payload of the call |
| EventEmitter.ValidatedExactly | packages/worker/src/events/event-emitter.ts:87-87 | the payload is valid if and only if it is a plain object, plain and acyclic throughout, and the event carries its tree unfolding |
| EventEmitter.DisabledExactly | packages/worker/src/events/event-emitter.ts:72-86 | a disabled emitter delivers nothing, takes no number, and says so once |

## Left out

- Numbers with a fraction or an exponent in the C++ worker: `std::stod` is an arbitrary function from tokens to a finite result, one that is not finite, or an exception; the `double` itself is not modelled, so the value keeps the token, and the printing of such numbers and the reading of `1.0` as an integer are left out.
- Surrogate pairs in `\u` escapes of the C++ worker: each unit is encoded on its own, as the code does; nothing is claimed about the code points they stand for.
- Locale-dependent `isspace`: the six characters of the C locale.
- `assert_safe_integers` and `reject_unsafe_numbers`: structural recursions with no state.
- Splitting of two C++ methods: key, fraction and exponent parsing are methods of their own, for the sake of short proofs.
- CanonicalTheorems.CanonicalExactly: a number stands for its rendered token, and `serde_json` strings for section 7 of RFC 8259 with short escapes; entries are rendered before they are ordered, which gives the same text.
- CanonicalTheorems.FingerprintIsRequest: SHA-256 is an arbitrary function; the hypothesis excludes a collision on the two hashed texts only.
- Getters, proxies and values that change during a walk of the JavaScript heap.
- The schema validators that `validate` calls after the number check.
- Aliasing of edge and node dictionaries in the mergers: records are values in a list, so an update of a record is an update of its place in the list.
- NaN weights, `normalize_complexity`, recovered imports, reports, layers, tour steps and project metadata of the mergers.
- Lower-casing of letters outside ASCII, in directions of edges and in names of C# directories.
- TestPaths.ProductionCandidates: the proposals are listed first and made unique by a loop afterwards, instead of one by one while they are found.
- NodeIds.NormalForAll: `normalize_node_id` is not idempotent on ids such as `file:file:file:x`, so idempotence is not stated.
- Text decoding of captured output, standard input of the child, state files, and real signals, timers and pipes, which are events here.
- TokioSupervisor.Supervisor.Finish: waiting for readers whose pipe is kept open by a descendant, and a reader task that panics, are not modelled.
- NodeSupervisor.Supervisor.constructor: the clock is read once at the start, where the code reads it twice.
- TokioSupervisor.Supervisor.Select: where one branch reads the shutdown flag twice, both readings are one observation.
- RetryAfter.NeverAboveExactly: `String` of a maximum below about minus ten to the twenty-first, which has an exponent, and rounding of numbers above 2^53 that only a negative maximum lets through.
- CallbackDelivery.DeliverSignedBody: arithmetic is over the reals, logging and durations are omitted, and HMAC is an arbitrary function.
- Acceptance.Worker.HandleRun: authentication, parsing and validation that come before the store, the HTTP framing, and a thread that the operating system refuses to start.
- Acceptance in the Rust host, which checks and inserts in two separate lock scopes.
- EventEmitter.RunEventEmitter.Emit: the canonical size is an arbitrary function of the event; trace, execution ids and time stamps are omitted. Lengths of ids are in characters, where the code counts UTF-16 code units.
- HTTP servers, sockets, Kafka, the frontend, the gateway and the orchestrator.
