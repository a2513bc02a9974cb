# Verified models of the Enterprise RAG core

Dafny models of the parts of the system whose correctness rests on state, loops or
encodings, with proofs of what they promise. `dafny verify dfyconfig.toml` checks
everything.

| component | files | what is modelled |
|---|---|---|
| event stream | `EventStream`, `EventStreamLaws`, `EventStreamCuts`, `EventStreamFlush`, `EventStreamEvents`, `EventStreamServer`, `QueryLoop`, `QueryLoopLaws` | the query loop that numbers server-sent events, their wire form, and the browser's incremental decoder |
| object archive | `ObjectArchive`, `ObjectArchiveLaws`, `ObjectArchiveExactly` | writing and restoring archives of the content-addressed store |
| benchmark | `Conversion`, `ConversionLaws`, `ConversionPayloads`, `BenchmarkRunner`, `BenchmarkRunnerLaws` | MultiDoc2Dial conversion and the checkpointed runner |
| usage ledger | `UsageLedger`, `UsageLaws` | per-minute and per-day budgets with reservations and settlements |
| span buffer | `SpanBuffer`, `SpanBufferLaws` | the bounded trace exporter |
| configuration | `ConfigTree`, `ConfigHeap`, `ConfigHeapLaws`, `ConfigHeapRuns`, `ConfigEnvironment`, `ConfigEnvironmentLaws`, `ConfigEnvironmentNames` | layered merge, and environment writes through dictionary objects that may be shared |
| identity | `ContentIdentity`, `JsonNormalForm` | UUIDv7, content ids, freezing and serialising |
| citations | `CitationCheck` | citation verification and filtering of ranked hits |
| pepper | `PepperRace` | concurrent creation of the local token pepper |

`Prelude`, `Text` and `Json` hold what these share.

Every loop and every object that changes in place is a method or class proved equal to
a specification function (for example `DecodeFrame` to `Decoded`, `RestoreArchive` to
`Restore`, `Run` to `RunOnce`), and the laws are then proved about that function for
all inputs, all runs or all interleavings. Beside the laws that relate runs to each
other stand those that say what comes out, by the literal keys, fields and conditions
of the input alone (for example `EventMeaning`, `Stream`, `FinishedReport`,
`ArchiveHolds`, `RestoreExactly`, `CaseByKey`, `PrefixedVariable`). Functions of the
platform (SHA-256, the JSON codec, YAML, `Number`) are function-valued parameters, and
what a law needs of them is one of its hypotheses.

Where the code does not do what one might expect of it, the model follows the code and
the laws say exactly when the expectation holds:

- Line ends are normalised per network chunk, so a cut inside a CR LF leaves a
  carriage return behind (`CutsMatterExactly`). At an ordinary line end it is dropped
  again; frames change exactly when the CR LF belongs to a blank line that ends a
  frame, or comes behind another carriage return (`CutsChangeFramesExactly`,
  `ChunkIndependence`, `LineEndCutIsHarmless`, `SplitLineEndMatters`).
- The flush at the end of the stream does what a blank line would do, except behind a
  field whose own CR LF was split (`FlushExactly`, `FlushIsBlankLine`, `FlushMatters`).
- The suggested wait for a new day can end just before midnight (`DayRetryLands`,
  `DayRetryFallsShort`).
- Merging configuration layers is not associative (`AssociativeExactly`,
  `AssociationMatters`).
- A value with a YAML anchor has one dictionary in two places, and a later variable
  that goes below it sets both (`SharedVariableShows`). The layer is the tree of its
  writes exactly when no write that changes something goes through such a dictionary
  (`WriteExactly`, `RunExactly`), which holds when no variable goes below a value with
  an anchor (`LayerIsTree`, `PrefixedVariableSets`).
- After an eviction, a taken trace leaves a gap that no older trace refills
  (`TakeLeavesGap`); the buffer is the trimmed recency list throughout exactly when
  nothing that it holds is taken after an eviction (`TrimmedThroughoutExactly`).
- A process that reads the pepper file between its creation and its first write
  raises, and if the creator dies in between, every later process does
  (`ReaderSucceedsExactly`, `EarlyReaderRaises`, `AbandonedForever`).

The event stream form is that of sections 9.2.5 and 9.2.6 of the WHATWG HTML Standard,
except where the decoder differs: the last frame is flushed without a blank line, a
lone carriage return ends no line, and an event name of its own is enough to make a
frame. UUIDs follow section 5.7 of RFC 9562.

## Model

| member | source | states |
|---|---|---|
| `EventStream.DecodeFrame` | frontend/src/api/query.ts:23-37 | The line loop of a frame: for any text, the last `id` and `event` values, all `data` values joined by line feeds, comment and empty lines ignored; null exactly when neither an event name nor data came out. |
| `EventStream.Ordered` | frontend/src/api/query.ts:111-116 | The `ordered` closure: an event whose number is not above the last one raises SSE_EVENT_OUT_OF_ORDER, a malformed one its own error, and otherwise exactly it is passed on. |
| `EventStream.DeliverStream` | frontend/src/api/query.ts:104-138 | The nested chunk and frame loops, with their buffer and last number, for any decoder of frame texts: the outcome (events yielded and exception) depends only on the concatenation of the separately normalised chunks, cut into frames at every blank line, the remainder flushed unless blank. |
| `EventStream.ParseEventStream` | frontend/src/api/query.ts:104-138 | The generator yields and raises exactly `StreamOutcome` of its chunks, the declarative meaning used by every law below. |
| `EventStream.ParseEventSequence` | frontend/src/api/query.ts:39-41 | Every accepted event carries the positive safe integer that its `id` field reads as. |
| `EventStreamEvents.LinesMeaning` | frontend/src/api/query.ts:26 | For any text: a line ends with a line feed, which takes one carriage return in front of it along. |
| `EventStreamEvents.FieldMeaning` | frontend/src/api/query.ts:27-30 | A field is named up to the first colon, and one space behind the colon does not belong to the value; a line is ignored if and only if it is empty or begins with a colon. |
| `EventStreamEvents.LinesHoldFields` | frontend/src/api/query.ts:26-34 | Each line stands for itself: the fields of two lists of lines are those of the first and then those of the second. |
| `EventStreamEvents.OneLineField` | frontend/src/api/query.ts:27-30 | An empty line and one that begins with a colon hold no field, every other line holds one. |
| `EventStreamEvents.FieldValues` | frontend/src/api/query.ts:31-35 | Of a repeated id or event the last value counts, and every data value in order. |
| `EventStreamEvents.FrameMeaning` | frontend/src/api/query.ts:34-36 | A frame carries the last id and event and the joined data, and is null if and only if there is neither an event name nor data. |
| `EventStreamEvents.ParsedMeaning` | frontend/src/api/query.ts:39-47 | A frame becomes an event only with a positive safe integer as its id and JSON, or nothing, as its data. |
| `EventStreamEvents.EventMeaning` | frontend/src/api/query.ts:48-72 | For any payload: which event is yielded under which name, from which keys, numbered as it arrived; it is yielded if and only if it can be understood that way. |
| `EventStreamEvents.EventFaults` | frontend/src/api/query.ts:48-72 | A null payload throws the engine's own error under the four names that read one, so does a status that cannot be coerced, and every other misfit is SSE_EVENT_INVALID. |
| `EventStreamEvents.ResultMeaning` | frontend/src/api/query.ts:75-87 | A completed payload is accepted if and only if its six keys hold what the client requires. |
| `EventStreamEvents.ResultThrows` | frontend/src/api/query.ts:75-87 | Checking a completed payload throws if and only if it is null, or it has a query id and its status cannot be coerced to text. |
| `EventStreamEvents.CitationMeaning` | frontend/src/api/query.ts:89-102 | A citation passes if and only if it has a numeric id, five texts and a list of texts. |
| `EventStreamEvents.StatusMeaning` | frontend/src/api/query.ts:78 | Only a listed status, or one in any number of one-element arrays, is listed. |
| `EventStreamEvents.DeliverMeaning` | frontend/src/api/query.ts:111-134 | The stream yields exactly the events in front of the first frame that breaks it, and raises what that one calls for: its own error, or SSE_EVENT_OUT_OF_ORDER. |
| `EventStream.DeliverAppend` | frontend/src/api/query.ts:111-134 | Processing a longer list of frames is processing its first part and then, from the last number reached, the rest, unless the first part raised. |
| `EventStreamLaws.CutsMatterExactly` | frontend/src/api/query.ts:120 | Normalising chunk by chunk equals normalising the whole text if and only if no cut falls inside a CR LF pair. |
| `EventStreamCuts.CutsChangeFramesExactly` | frontend/src/api/query.ts:104-138 | Reading a text in chunks and reading it whole give frames of the same lines if and only if the cuts are harmless: none splits a CR LF of a blank line that ends a frame, nor, inside a frame, one that another carriage return stands before. |
| `EventStreamCuts.LinesExactly` | frontend/src/api/query.ts:26-30 | Within one frame: the lines are the same with and without the cuts if and only if no split CR LF follows another carriage return. |
| `EventStreamCuts.SameLinesSameMeaning` | frontend/src/api/query.ts:23-37 | Texts whose frames have the same lines yield the same events and end alike. |
| `EventStreamCuts.LineEndCutIsHarmless` | frontend/src/api/query.ts:120 | A cut inside the CR LF of an ordinary line end is harmless although it leaves a carriage return in the text. |
| `EventStreamCuts.SafeIsHarmless` | frontend/src/api/query.ts:120 | Cuts that split no CR LF are harmless. |
| `EventStreamCuts.ChunkIndependence` | frontend/src/api/query.ts:104-138 | Any two ways of cutting the same text, of which neither changes a frame (`HarmlessCuts`), give the same events and the same ending, namely the meaning of the normalised text. |
| `EventStreamLaws.PlainTextChunkIndependence` | frontend/src/api/query.ts:104-138 | Text without carriage returns decodes alike under every cut, including as one chunk. |
| `EventStreamFlush.FlushIsBlankLine` | frontend/src/api/query.ts:131-134 | The flush at the end of the stream means the same as appending a blank line, for every text that leaves no known field with a stray CR LF. |
| `EventStreamFlush.FlushExactly` | frontend/src/api/query.ts:131-134 | Flushing a text and ending it with a blank line keep the same known fields, frame by frame, if and only if the text does not end in a CR LF behind a line that is a known field. |
| `EventStreamFlush.SameFieldsSameMeaning` | frontend/src/api/query.ts:23-37 | Texts whose frames keep the same known fields yield the same events and end alike. |
| `EventStreamServer.FlushMatters` | frontend/src/api/query.ts:131-134 | The concrete difference: with the last CR LF split by a cut, the flush gives a heartbeat, and with a blank line appended the same stream is rejected. |
| `EventStreamFlush.BlankDecodesToNothing` | frontend/src/api/query.ts:23-37 | A frame of white space alone decodes to null. |
| `EventStreamLaws.YieldsAreOrdered` | frontend/src/api/query.ts:111-134 | On arbitrary chunks, whether or not an exception follows, the yielded numbers are safe positive integers in strictly increasing order. |
| `EventStreamLaws.IncreasingDeliver` | frontend/src/api/query.ts:111-116 | Understood events with increasing numbers are all delivered, in order and without exception. |
| `EventStreamServer.PrintedLines` | backend/src/enterprise_rag/api/routes.py:819-822 | An event is printed on three labelled lines, number, name and data, the data with every object in key order. |
| `EventStreamServer.BodyDecodes` | backend/src/enterprise_rag/api/routes.py:819-822 | The printed form of an event decodes back to exactly its number, its name and its payload text. |
| `EventStreamServer.BodyHasNoBlankLine` | backend/src/enterprise_rag/api/routes.py:822 | A printed event ends at its own blank line and contains no earlier one and no carriage return, whatever follows it. |
| `EventStreamServer.RoundTrip` | backend/src/enterprise_rag/api/routes.py:815-822 | Printing any events and parsing any cut of the text equals interpreting the events directly: same typed events, same exception, raised at the same place. |
| `EventStreamServer.ValidEventsArrive` | backend/src/enterprise_rag/api/routes.py:815-822 | Valid events with increasing numbers, printed and parsed under any cut, all come back, in order, without exception. |
| `EventStreamServer.SplitLineEndMerges` | frontend/src/api/query.ts:120 | A cut inside the CR LF of a blank line makes one frame of the two around it; uncut they stay two. |
| `EventStreamServer.SplitLineEndMatters` | frontend/src/api/query.ts:120-126 | The concrete difference: cut there, two defective frames pass as one valid heartbeat; uncut the stream is rejected. |
| `QueryLoop.Stream` | backend/src/enterprise_rag/services/query_api.py:181-243 | The query loop, over everything it can wake to. Said by the wakes alone: acceptance first; then, up to the first wake that ends the loop, one heartbeat for each silence and one progress event for each report, in their places; then the whole result of a finished run found by key, the code of a failed one, INTERNAL_ERROR for a stage not beyond all earlier ones, or nothing when the client is gone. |
| `QueryLoopLaws.ServedNumbers` | backend/src/enterprise_rag/services/query_api.py:184-243 | Event numbers are consecutive and nothing follows a completed or error event. |
| `QueryLoopLaws.StagesAdvance` | backend/src/enterprise_rag/services/query_api.py:210-226 | Whatever the runner emits, the reported stages are a subsequence of the five stages: in order, each at most once. |
| `QueryLoopLaws.CompletedIsAccepted` | frontend/src/api/query.ts:75-102 | Every completed payload the server builds passes the client's structural check, whatever the answer, status and citations. |
| `QueryLoopLaws.ServedAccepted` | backend/src/enterprise_rag/services/query_api.py:181-265 | Every event the loop emits is one the client accepts. |
| `QueryLoopLaws.CompletedArrives` | frontend/src/api/query.ts:60-62 | A completed event arrives with its payload, in key order: query id, status text, answer, every citation with all its fields, diagnostics, usage and trace id are found under their keys. |
| `QueryLoopLaws.EndToEnd` | backend/src/enterprise_rag/services/query_api.py:181-243 | From the loop through the printer, any cut of the network and the parser, by the wakes alone: the client yields, without exception, the acceptance, one heartbeat or progress event for each wake in its place, and the whole result or the failure that ended the loop. |
| `ObjectArchive.ParseManifest` | backend/src/enterprise_rag/cli/object_archive.py:97-124 | The manifest loop returns exactly the map of listed keys or the first defect, duplicates and mismatched digests included. |
| `ObjectArchive.ObjectStore.DigestContent` | backend/src/enterprise_rag/cli/object_archive.py:32-39 | Reading chunk by chunk returns the length of the whole content and its digest. |
| `ObjectArchive.ObjectStore.ObjectManifest` | backend/src/enterprise_rag/cli/object_archive.py:42-60 | The walk lists exactly the files, each under a valid key equal to its digest, or the first defect; a symbolic link or a special file under the root is refused. |
| `ObjectArchive.ObjectStore.CreateArchive` | backend/src/enterprise_rag/cli/object_archive.py:71-94 | The archive is the manifest followed by one member per entry, and the returned count is that of the objects. |
| `ObjectArchive.ObjectStore.RestoreMember` | backend/src/enterprise_rag/cli/object_archive.py:141-174 | One member: symbolic links on its way refused, directories made, content checked, an existing object compared and never replaced; the new root and the error are those of `RestoreOne`, also when the stream fails inside the content. |
| `ObjectArchive.ObjectStore.RestoreArchive` | backend/src/enterprise_rag/cli/object_archive.py:177-206 | The restore loop ends with exactly the result and the root of `Restore` on any member list. |
| `ObjectArchiveLaws.KeyForm` | backend/src/enterprise_rag/cli/object_archive.py:19-29 | A key is valid if and only if it has the form sha256/aa/bb/ and 64 hexadecimal digits, place by place; its digest is the last part, and exactly three directories lie above it. |
| `ObjectArchiveLaws.ListingStopsAtFirst` | backend/src/enterprise_rag/cli/object_archive.py:42-60 | A refused listing names the defect of the first walked path that may not be met: link, special file, key or digest. |
| `ObjectArchiveLaws.EntriesKeepOrder` | backend/src/enterprise_rag/cli/object_archive.py:47-59 | The entries stand in the order of the walk. |
| `ObjectArchiveLaws.ArchiveHolds` | backend/src/enterprise_rag/cli/object_archive.py:71-94 | What an archive holds, by key: a manifest of version 1 in front that lists, for each object behind it in the same order, its key, its size in bytes and its digest; each object is a file named objects/ and its key, with the whole content, and there is one for every file. |
| `ObjectArchiveExactly.ItemMeaning` | backend/src/enterprise_rag/cli/object_archive.py:105-123 | A listed object is read for what stands under its three keys, or refused: no object, invalid metadata, invalid key, mismatched or repeated key. |
| `ObjectArchiveExactly.ManifestItemsMeaning` | backend/src/enterprise_rag/cli/object_archive.py:97-104 | The list of a manifest is found under its key if and only if the payload is an object of version 1, also spelled true or 1.0. |
| `ObjectArchiveExactly.ItemsMeaning` | backend/src/enterprise_rag/cli/object_archive.py:105-124 | A manifest is read if and only if each listed object is and no key is listed twice; it then promises exactly what they say. |
| `ObjectArchiveExactly.RestoreOneExactly` | backend/src/enterprise_rag/cli/object_archive.py:141-174 | One object is restored if and only if the content is whole and genuine and nothing but directories stands in its way, or the same object is there; each of the five failures has its own condition, and both roots are given. |
| `ObjectArchiveExactly.RestoreExactly` | backend/src/enterprise_rag/cli/object_archive.py:177-206 | Restoring succeeds if and only if a readable manifest comes first and the members behind it hold the listed objects, each once, as promised and where the root can take it; the root afterwards is the root with those added. |
| `ObjectArchiveExactly.MembersAdded` | backend/src/enterprise_rag/cli/object_archive.py:165-172 | What is added: each object where there was none, the directories above them, and nothing else. |
| `ObjectArchiveExactly.RestoreFails` | backend/src/enterprise_rag/cli/object_archive.py:177-206 | Every failed restore names the member it stopped at, the first that cannot be taken, and leaves the members before it restored. |
| `ObjectArchiveLaws.ManifestsAreSound` | backend/src/enterprise_rag/cli/object_archive.py:105-124 | An accepted manifest has one entry per listed object, each under a valid key that ends in the listed digest. |
| `ObjectArchiveLaws.RestoreIsSafe` | backend/src/enterprise_rag/cli/object_archive.py:177-206 | On any archive and any root, whether restoring succeeds or fails part way: no file changes or disappears, every new file lies at a manifest key that its content hashes to, without a leading readable manifest nothing happens, and success means that exactly the manifest's objects are present with their sizes and digests. |
| `ObjectArchiveLaws.RestoresStayClean` | backend/src/enterprise_rag/cli/object_archive.py:177-206 | A root of digest-named objects stays one under any sequence of restores of any archives. |
| `ObjectArchiveLaws.ArchiveExactly` | backend/src/enterprise_rag/cli/object_archive.py:42-60 | Archiving succeeds if and only if every file lies at a valid key of its own digest and there is no symbolic link or special file. |
| `ObjectArchiveLaws.RoundTrip` | backend/src/enterprise_rag/cli/object_archive.py:71-206 | Restoring an archive into an empty root gives exactly the archived files and their count, whatever the digests. |
| `ObjectArchiveLaws.RestoreConverges` | backend/src/enterprise_rag/cli/object_archive.py:141-206 | On a clean root, restoring an archive succeeds, leaves the union, and restoring once more changes nothing, as long as no object of the root has the digest of another content at the same key. |
| `ObjectArchiveLaws.ConvergesExactly` | backend/src/enterprise_rag/cli/object_archive.py:141-206 | That condition is exact: restoring succeeds with the union if and only if no key holds two contents of one digest. |
| `ObjectArchiveLaws.ConvergesAfterFailures` | backend/src/enterprise_rag/cli/object_archive.py:141-206 | The same after any sequence of earlier restores of any archives, failed or not. |
| `Conversion.ConvertDocuments` | backend/src/enterprise_rag/benchmarks/multidoc2dial.py:178-202 | The document loops over sorted domains and keys return all documents in that order, or the first defect, duplicates last. |
| `Conversion.CollectReferences` | backend/src/enterprise_rag/benchmarks/multidoc2dial.py:228-242 | The reference loop returns the first-occurrence dedup of the documents and one span name per reference, or the first defect. |
| `Conversion.ConvertAnswer` | backend/src/enterprise_rag/benchmarks/multidoc2dial.py:226-256 | The branch for an agent turn after a user turn: no case without references, otherwise one with the question, the history so far and the collected references. |
| `Conversion.ConvertDialogue` | backend/src/enterprise_rag/benchmarks/multidoc2dial.py:213-260 | The turn loop with its history and pending user turn is the fold `StepTurns` over the turns. |
| `Conversion.ConvertCases` | backend/src/enterprise_rag/benchmarks/multidoc2dial.py:205-264 | The loops over sorted domains and their dialogues return all cases in order, or the first defect, duplicate ids last. |
| `ConversionPayloads.TurnMeaning` | backend/src/enterprise_rag/benchmarks/multidoc2dial.py:218-222 | A turn is read if and only if its payload words it: role and utterance that are not blank, a non-negative integer id, and whatever stands under references, each under its key. |
| `ConversionPayloads.ReferenceMeaning` | backend/src/enterprise_rag/benchmarks/multidoc2dial.py:230-239 | A reference is read if and only if doc_id names a known document and id_sp a span; an unknown document has its own error. |
| `ConversionPayloads.DocumentMeaning` | backend/src/enterprise_rag/benchmarks/multidoc2dial.py:184-198 | A document is read if and only if identifier, title, text and spans stand under their keys and its domain is that of its container. |
| `ConversionPayloads.SpansInOrder` | backend/src/enterprise_rag/benchmarks/multidoc2dial.py:196 | The span names are all keys of the spans, in code-point order. |
| `ConversionPayloads.CaseByKey` | backend/src/enterprise_rag/benchmarks/multidoc2dial.py:218-256 | Every field of a case by the keys of the payload: id of dialogue and turn, the answer's and the question's utterances, who said what in every turn before, a span name for each reference, and the documents in the order in which they are first named. |
| `ConversionPayloads.DocumentsMeaning` | backend/src/enterprise_rag/benchmarks/multidoc2dial.py:178-202 | The documents of a payload are read if and only if every entry of every domain is, each from the entry in its place, domains and entries in key order; two with the same id are refused. |
| `ConversionPayloads.CasesMeaning` | backend/src/enterprise_rag/benchmarks/multidoc2dial.py:205-264 | The cases of a payload are those of its dialogues, domains in key order and dialogues as listed, if every dialogue is fine; two with the same id are refused. |
| `ConversionPayloads.DialogueRaises` | backend/src/enterprise_rag/benchmarks/multidoc2dial.py:213-260 | A dialogue that does not convert raises what it lacks, or the defect of its first turn that is not fine: unreadable, of an unknown role, without a list of references, or with a reference that cannot be read. |
| `ConversionPayloads.FirstBadDomain` | backend/src/enterprise_rag/benchmarks/multidoc2dial.py:181-189 | The first domain that is no mapping, or has an entry that cannot be read, gives the defect of the documents. |
| `ConversionPayloads.FirstBadEntry` | backend/src/enterprise_rag/benchmarks/multidoc2dial.py:183-198 | The first entry of a domain that cannot be read gives its own defect. |
| `ConversionPayloads.FirstBadList` | backend/src/enterprise_rag/benchmarks/multidoc2dial.py:210-215 | The first domain that is no list, or has a dialogue that does not convert, gives the defect of the cases. |
| `ConversionPayloads.FirstBadDialogue` | backend/src/enterprise_rag/benchmarks/multidoc2dial.py:212-260 | The first dialogue of a domain that does not convert gives its own defect. |
| `ConversionPayloads.ConvertMeaning` | backend/src/enterprise_rag/benchmarks/multidoc2dial.py:163-175 | A dataset is what both payloads convert to, the cases knowing the documents; neither may be empty. |
| `ConversionLaws.FirstOccurrencesOrdered` | backend/src/enterprise_rag/benchmarks/multidoc2dial.py:240-241 | The dedup has no repetition and lists documents by the position of their first occurrence. |
| `ConversionLaws.DialogueMeaning` | backend/src/enterprise_rag/benchmarks/multidoc2dial.py:216-260 | By the positions of the turns alone: a dialogue converts if and only if every turn is readable with a known role and, where it answers a user turn, readable references to known documents; it then yields exactly one case per answering turn with references, in order. |
| `ConversionLaws.CasesAreAnswers` | backend/src/enterprise_rag/benchmarks/multidoc2dial.py:223-257 | A case is listed if and only if it is the case of an agent turn that directly follows a user turn and has references. |
| `ConversionLaws.CaseShape` | backend/src/enterprise_rag/benchmarks/multidoc2dial.py:243-260 | The history of a case is all earlier turns and ends with its own question; its documents are distinct and known; it has one span per reference. |
| `ConversionLaws.ConvertedIsWellFormed` | backend/src/enterprise_rag/benchmarks/multidoc2dial.py:163-264 | A converted dataset has unique document and case ids, and every case references at least one document, all of them in the dataset. |
| `BenchmarkRunner.Workspace.Run` | backend/src/enterprise_rag/benchmarks/multidoc2dial.py:270-335 | One run over the files on disk, stopped by its own limit, by a crash between any two effects or not at all, ends exactly as `RunOnce` says: files, processor calls and outcome. |
| `BenchmarkRunnerLaws.SelectionIsPrefix` | backend/src/enterprise_rag/benchmarks/multidoc2dial.py:338-347 | Selection succeeds if and only if the mode and the limit fit, and takes a prefix of the requested length, the whole in full mode. |
| `BenchmarkRunnerLaws.ConvertedJobsSelect` | backend/src/enterprise_rag/benchmarks/multidoc2dial.py:163-347 | For every dataset that conversion yields, a limit that fits the mode selects a prefix of the cases with distinct ids: what all laws about runs below assume of a job. |
| `BenchmarkRunnerLaws.OutputDocuments` | backend/src/enterprise_rag/benchmarks/multidoc2dial.py:303-318 | The written documents are exactly those that the written cases reference, and none is missing. |
| `BenchmarkRunnerLaws.DocumentsKeepOrder` | backend/src/enterprise_rag/benchmarks/multidoc2dial.py:312-316 | The written documents keep the order of the dataset. |
| `BenchmarkRunnerLaws.RefusesExactly` | backend/src/enterprise_rag/benchmarks/multidoc2dial.py:338-379 | A run is refused if and only if the limit does not fit the mode, or the checkpoint is unreadable, or it has another fingerprint than that of the revision, source, mode, limit and commit of the run; each has its own error, and then the files are as before and nothing was processed. |
| `BenchmarkRunnerLaws.CheckpointBelongs` | backend/src/enterprise_rag/benchmarks/multidoc2dial.py:350-379 | After any history of one job, another job refuses the checkpoint if and only if the two differ in revision, source, mode, limit or commit, when their fingerprints do not collide. |
| `BenchmarkRunnerLaws.RunMeaning` | backend/src/enterprise_rag/benchmarks/multidoc2dial.py:289-335 | From any disk on which the first n cases are checkpointed, any run leaves the first m checkpointed, calls the processor for a contiguous stretch from n with at most one call more than it checkpointed, and if it finishes has written the final output and report. |
| `BenchmarkRunnerLaws.CheckpointIsPrefix` | backend/src/enterprise_rag/benchmarks/multidoc2dial.py:289-302 | After any history of limited and crashed runs the checkpoint lists a duplicate-free prefix of the selected cases, under this run's fingerprint. |
| `BenchmarkRunnerLaws.ResumeEquivalence` | backend/src/enterprise_rag/benchmarks/multidoc2dial.py:270-335 | The run that finishes, after any history, writes the output of one uninterrupted run, and the same report but for the count of resumed cases. |
| `BenchmarkRunnerLaws.FinishedReport` | backend/src/enterprise_rag/benchmarks/multidoc2dial.py:303-335 | The run that finishes, after any history: the report has the number of dataset cases, of written cases and of those checkpointed before, revision, source, mode and commit of the job, full if and only if in full mode, and the digest of the output on disk; the output holds the selected cases and exactly the documents they reference, in order; resumed cases and processor calls add up to the cases written and checkpointed. |
| `BenchmarkRunnerLaws.CallsAreBounded` | backend/src/enterprise_rag/benchmarks/multidoc2dial.py:289-302 | Over any history the processor is called at most once per selected case plus once per crash. |
| `BenchmarkRunnerLaws.FirstFinishingRun` | backend/src/enterprise_rag/benchmarks/multidoc2dial.py:289-302 | With `interrupt_after` k and no crash, run number n / k + 1 is the first to finish and every case is processed exactly once. |
| `UsageLedger.InMemoryUsageStore.Reserve` | backend/src/enterprise_rag/adapters/usage.py:24-55 | Admission from the incremental counters equals admission from sums over all reservations ever made; a refused request leaves all three maps as they were, an admitted one adds one open reservation. |
| `UsageLedger.InMemoryUsageStore.Settle` | backend/src/enterprise_rag/adapters/usage.py:57-74 | Settling charges a known reservation its actual amounts once, reports the counters, and otherwise changes nothing. |
| `UsageLedger.InMemoryUsageStore.Read` | backend/src/enterprise_rag/adapters/usage.py:76-88 | A snapshot reads the sums of the current minute and day. |
| `UsageLedger.AdmitAgrees` | backend/src/enterprise_rag/adapters/usage.py:52-54 | The three updates of an admission keep every counter equal to its sum over the book. |
| `UsageLedger.SettleAgrees` | backend/src/enterprise_rag/adapters/usage.py:67-74 | A settlement finds its day key, its refund never exceeds the counter, and every counter stays equal to its sum. |
| `UsageLedger.SettleCharges` | backend/src/enterprise_rag/adapters/usage.py:70-73 | Settling moves one day counter, by the difference, and no minute counter and no other day. |
| `UsageLedger.MinuteRetryLands` | backend/src/enterprise_rag/adapters/usage.py:106-115 | The suggested minute retry always lands in the next minute window, and no smaller number of seconds does. |
| `UsageLedger.DayRetryLands` | backend/src/enterprise_rag/adapters/usage.py:138-141 | The suggested day retry lands within a second of midnight, and in the new day if and only if the instant has whole seconds or less than a second of the day remains; otherwise it falls just short. |
| `UsageLedger.DayRetryFallsShort` | backend/src/enterprise_rag/adapters/usage.py:138-141 | The concrete instant: one and a half seconds before midnight the suggested wait of one second ends on the old day. |
| `UsageLaws.AdmissionIsExact` | backend/src/enterprise_rag/adapters/usage.py:99-135 | A request is admitted if and only if the clock is UTC and all four counters stay within their limits; a refusal changes nothing. |
| `UsageLaws.RejectionNamesFirstBudget` | backend/src/enterprise_rag/adapters/usage.py:106-135 | The budget named in a refusal is the first one, in declaration order, that the request would exceed; the limit is that budget's, and the wait that of its window. |
| `UsageLaws.SettlementIsExact` | backend/src/enterprise_rag/adapters/usage.py:57-69 | A settlement is accepted if and only if it fits a reservation that the store knows; each refusal has its own error and changes nothing. |
| `UsageLaws.ReservationIsRead` | backend/src/enterprise_rag/adapters/usage.py:24-88 | An admitted reservation is read back as one query by every snapshot for its tenant and rate limit within its minute, as the requested amounts, field by field, by every one for its tenant and actor within its day, and by no other. |
| `UsageLaws.SettlementIsRead` | backend/src/enterprise_rag/adapters/usage.py:57-88 | The first settlement gives back what was reserved and not used to every snapshot that was charged for it and to no other, and returns the snapshot that is then read. |
| `UsageLaws.NothingRead` | backend/src/enterprise_rag/adapters/usage.py:76-88 | A new store has used nothing. |
| `UsageLaws.RunsKeepLimits` | backend/src/enterprise_rag/adapters/usage.py:24-74 | Under fixed limits no counter exceeds its limit in any run of reservations and settlements. |
| `UsageLaws.NewStoresKeepLimits` | backend/src/enterprise_rag/adapters/usage.py:24-74 | The same for every run of a new store, from the empty book. |
| `UsageLaws.SettlingOnlyFrees` | backend/src/enterprise_rag/adapters/usage.py:57-74 | Whatever could be admitted before a settlement can be admitted after it. |
| `UsageLaws.SettlingTwice` | backend/src/enterprise_rag/adapters/usage.py:70-73 | A second settlement of any amount changes nothing. |
| `UsageLaws.SettleAllIsPointwise` | backend/src/enterprise_rag/adapters/usage.py:57-74 | Any list of settlements leaves each reservation at its first acceptable one. |
| `UsageLaws.SettlementOrderFree` | backend/src/enterprise_rag/adapters/usage.py:57-74 | Settling a set of reservations reaches the same book in any order and with any repetition. |
| `UsageLaws.CountersDetermined` | backend/src/enterprise_rag/adapters/usage.py:20-22 | Equal books mean equal counter maps, so order-freedom carries over to the store's own state. |
| `SpanBuffer.BufferedSpanExporter.Export` | backend/src/enterprise_rag/observability/exporter.py:38-53 | Exporting spans to the ordered dictionary is recording them one by one in a recency list trimmed at every step; spans that cannot be serialised leave no trace. |
| `SpanBufferLaws.ExportExtendsLog` | backend/src/enterprise_rag/observability/exporter.py:38-53 | Exporting into a buffer that holds what a log of records and takes leaves, holds what the log followed by the serialisable spans leaves: the laws below are about every use of the exporter. |
| `SpanBufferLaws.TakenInOrder` | backend/src/enterprise_rag/observability/exporter.py:55-58 | What a take returns after any log: the first `max_spans` spans recorded since the trace entered, by start and then by span id. |
| `SpanBuffer.BufferedSpanExporter.Refresh` | backend/src/enterprise_rag/observability/exporter.py:47-50 | `setdefault`, the bounded append and `move_to_end` put the trace last with its grown bucket. |
| `SpanBuffer.BufferedSpanExporter.EvictStalest` | backend/src/enterprise_rag/observability/exporter.py:51-52 | The eviction loop keeps exactly the last `max_traces` traces. |
| `SpanBuffer.BufferedSpanExporter.Take` | backend/src/enterprise_rag/observability/exporter.py:55-58 | Taking removes one trace and returns its bucket through the stable sort. |
| `SpanBuffer.SortSpansSorts` | backend/src/enterprise_rag/observability/exporter.py:58 | What is returned is a sorted permutation by start and span id in which spans of equal key keep their order. |
| `SpanBufferLaws.Inclusion` | backend/src/enterprise_rag/observability/exporter.py:38-58 | After any log a buffer with a smaller `max_traces` holds, in order, a suffix of what one with a larger bound holds, whatever their span bounds. |
| `SpanBufferLaws.HeldEndsRecency` | backend/src/enterprise_rag/observability/exporter.py:38-58 | The held traces are always a suffix of the recency list of all untaken traces, and never too many. |
| `SpanBufferLaws.HoldsMostRecent` | backend/src/enterprise_rag/observability/exporter.py:47-52 | Without takes the buffer holds exactly the `max_traces` most recently recorded traces. |
| `SpanBufferLaws.TrimmedThroughoutExactly` | backend/src/enterprise_rag/observability/exporter.py:47-57 | At every moment of a log the buffer is the recency list of untaken traces trimmed to `max_traces`, if and only if whenever a trace is taken nothing has been trimmed yet or the trace is not among the last `max_traces`. |
| `SpanBufferLaws.RecordKeepsTrim` | backend/src/enterprise_rag/observability/exporter.py:47-52 | A recorded span keeps a trimmed buffer trimmed. |
| `SpanBufferLaws.TakeKeepsTrimExactly` | backend/src/enterprise_rag/observability/exporter.py:54-58 | A take keeps a trimmed buffer trimmed if and only if the recency list is no longer than `max_traces` or the trace is not among its last `max_traces`. |
| `SpanBufferLaws.HoldsTheLastFill` | backend/src/enterprise_rag/observability/exporter.py:38-58 | Gaps or not, the buffer always holds the last `Fill` traces of the recency list, where `Fill` counts them from the log alone. |
| `SpanBufferLaws.TakeLeavesGap` | backend/src/enterprise_rag/observability/exporter.py:51-57 | The concrete difference: a take after an eviction leaves a gap that is not refilled. |
| `SpanBufferLaws.BucketsAreFirstSinceEntry` | backend/src/enterprise_rag/observability/exporter.py:47-49 | The bucket of a held trace is the first `max_spans` spans recorded since the trace last entered the buffer. |
| `SpanBufferLaws.TakeDisturbsNoOther` | backend/src/enterprise_rag/observability/exporter.py:55-57 | A take leaves every other trace's bucket and place. |
| `ConfigTree.DeepMerge` | backend/src/enterprise_rag/config/loader.py:76-84 | The recursive loop, over the incoming keys in any order, computes the merge. |
| `ConfigTree.LeafLaw` | backend/src/enterprise_rag/config/loader.py:76-84 | A leaf is found in the merged tree if and only if it is a leaf of the incoming tree, or a leaf of the base at a path that the incoming tree neither covers nor cuts. |
| `ConfigTree.NodeLaw` | backend/src/enterprise_rag/config/loader.py:76-84 | The same for dictionaries. |
| `ConfigTree.AbsorbedExactly` | backend/src/enterprise_rag/config/loader.py:76-84 | A layer vanishes under another if and only if each of its keys is there, recursively. |
| `ConfigTree.AssociativeExactly` | backend/src/enterprise_rag/config/loader.py:76-84 | Merging three layers is associative if and only if no leaf of the middle layer hides a dictionary that the last layer would bring back. |
| `ConfigTree.AssociationMatters` | backend/src/enterprise_rag/config/loader.py:80-83 | A concrete triple on which association matters. |
| `ConfigTree.LayersByPrecedence` | backend/src/enterprise_rag/config/loader.py:246-251 | A leaf of the final settings comes from the highest of overrides, environment and file that is not silent about its path. |
| `ConfigTree.SetPathLookup` | backend/src/enterprise_rag/config/loader.py:87-95 | After a path write, lookups at or below the path see the value, lookups beside it see what was there, and lookups above it see the written subtree. |
| `ConfigTree.SetPathsCommute` | backend/src/enterprise_rag/config/loader.py:87-95 | Writes at incomparable paths commute. |
| `ConfigTree.WritesInAnyOrder` | backend/src/enterprise_rag/config/loader.py:140-151 | Pairwise incomparable writes give the same tree in any order. |
| `ConfigTree.WrittenStays` | backend/src/enterprise_rag/config/loader.py:87-95 | A write is what a lookup finds, whatever came before it, unless a later write is at, above or below its path. |
| `ConfigHeap.DictHeap.SetNested` | backend/src/enterprise_rag/config/loader.py:87-95 | The cursor loop over dictionary objects that may be shared, in place, ends in exactly the heap `Written`: `setdefault`, the replacement of a scalar by an empty dictionary, and the final assignment. |
| `ConfigHeapLaws.WriteChangesOneEntry` | backend/src/enterprise_rag/config/loader.py:87-95 | Of all dictionary objects that were there a write changes one, under one key: the last one it meets on the path. |
| `ConfigHeapLaws.WriteExactly` | backend/src/enterprise_rag/config/loader.py:87-95 | A write through possibly shared objects makes the tree that the path write makes, if and only if no other path leads to the object it changes or the path write changes nothing. |
| `ConfigHeapLaws.RunExactly` | backend/src/enterprise_rag/config/loader.py:140-151 | Through a whole run of writes the objects stand at every moment for what the path writes make, if and only if no write that changes something goes through an object that another path reaches. |
| `ConfigHeapLaws.SharedValueShows` | backend/src/enterprise_rag/config/loader.py:87-95 | The concrete difference: a value with one dictionary under two keys, a write below the second and a write below the first; the last one is found below the second. |
| `ConfigHeapRuns.RunWithoutDescent` | backend/src/enterprise_rag/config/loader.py:140-151 | When no write goes strictly below the path of an earlier one whose value shares dictionaries, every write of the run goes through objects that no other path reaches. |
| `ConfigHeapRuns.KeptBeside` | backend/src/enterprise_rag/config/loader.py:87-95 | What is found at and below a path stays as it is when the write, by every way to the object it changes, shows neither at, above nor below that path; shared and circular dictionaries included. |
| `ConfigHeapRuns.WrittenFound` | backend/src/enterprise_rag/config/loader.py:87-95 | What is read back below a written path is the value, unless the path itself runs through the entry that the write replaces. |
| `ConfigHeapRuns.TreesHaveOwnWays` | backend/src/enterprise_rag/config/loader.py:87-95 | Where no dictionary holds itself, it never does. |
| `ConfigHeapRuns.WriteStaysShown` | backend/src/enterprise_rag/config/loader.py:140-151 | After a run the path of a write shows its value, shared or not, when every later write shows only beside it. |
| `ConfigEnvironment.EnvironmentData` | backend/src/enterprise_rag/config/loader.py:140-151 | The two loops over the environment build, in one dictionary, exactly the heap of all writes: the known names in table order, then the prefixed names with their parsed values, shared dictionaries and all; a malformed value raises. |
| `ConfigEnvironmentNames.SplitParts` | backend/src/enterprise_rag/config/loader.py:148 | Splitting the rest of a name at double underscores gives the only components that spell it: none holds a double underscore, and none but the last ends in one. |
| `ConfigEnvironmentNames.PrefixedVariable` | backend/src/enterprise_rag/config/loader.py:145-150 | The variable named ENTERPRISE_RAG__ and components joined by two underscores writes, at the path of the components in lower case, the parsed value, or the text itself when the parser gives nothing; with an empty component it writes nothing, and otherwise a malformed value is an error. |
| `ConfigEnvironmentNames.OtherVariable` | backend/src/enterprise_rag/config/loader.py:146-147 | Any other variable writes nothing. |
| `ConfigEnvironmentNames.LayerExactly` | backend/src/enterprise_rag/config/loader.py:140-151 | The layer is made if and only if no variable that addresses a path has a malformed value. |
| `ConfigEnvironmentNames.PrefixedVariableSets` | backend/src/enterprise_rag/config/loader.py:140-151 | With the loader's own names and table: a prefixed variable is found at the path its name spells in lower case, with the tree its text parses to, or the text itself, unless a later variable is given a path at, above or below it, when no variable goes below a value that shares dictionaries. |
| `ConfigEnvironmentNames.PlainVariableSets` | backend/src/enterprise_rag/config/loader.py:142-144 | A plain name of the table sets its text, unparsed, at its section and setting, when no prefixed variable is given a path there. |
| `ConfigEnvironmentLaws.EnvironmentOrderFree` | backend/src/enterprise_rag/config/loader.py:140-151 | Listing the variables in another order gives a layer that stands for the same tree, and the same success, as long as no prefixed name addresses a path at or above that of another, also when values share dictionaries. |
| `ConfigEnvironmentLaws.VariableReachesItsPath` | backend/src/enterprise_rag/config/loader.py:140-151 | A prefixed variable sets what its value parses to, at the path its name is read as, over every plain name and every earlier variable, unless a later one writes at, above or below that path, when no variable goes below a value that shares dictionaries. |
| `ConfigEnvironmentLaws.VariableIsShown` | backend/src/enterprise_rag/config/loader.py:140-151 | Whatever the values share: the path shows the value as long as each later write shows only beside it. |
| `ConfigEnvironmentLaws.SharedVariableShows` | backend/src/enterprise_rag/config/loader.py:140-151 | Without that condition it fails: three variables with a shared dictionary, of which the last one sets the value found at the path of the second. |
| `ConfigEnvironmentLaws.LayerIsTree` | backend/src/enterprise_rag/config/loader.py:140-151 | When no variable goes below a value that shares dictionaries, the layer stands for the tree that all path writes make, one after the other. |
| `ContentIdentity.NewUuid7` | backend/src/enterprise_rag/domain/common.py:24-35 | The shifts and bitwise ors succeed if and only if the timestamp fits in 48 bits, and set exactly the fields of `UuidValue`. |
| `ContentIdentity.OrDisjoint` | backend/src/enterprise_rag/domain/common.py:30-34 | Or-ing bits below a multiple of a power of two adds them: no field disturbs another. |
| `ContentIdentity.UuidLayout` | backend/src/enterprise_rag/domain/common.py:30-35 | The value is below 2^128, has version 7 and variant binary 10, and all three parts can be read back. |
| `ContentIdentity.UuidsOrderedByTime` | backend/src/enterprise_rag/domain/common.py:24-35 | A smaller timestamp gives a smaller identifier, whatever the random parts. |
| `ContentIdentity.StableContentId` | backend/src/enterprise_rag/domain/common.py:62-72 | The digest loop succeeds if and only if the prefix is a lower-case identifier and every part fits its length prefix, and hashes the framed parts. |
| `ContentIdentity.PartsRoundTrip` | backend/src/enterprise_rag/domain/common.py:68-71 | The framed byte stream can be parsed back into exactly the parts. |
| `ContentIdentity.FedInjective` | backend/src/enterprise_rag/domain/common.py:68-71 | Different lists of parts feed different bytes to the hash. |
| `ContentIdentity.ContentIdInjective` | backend/src/enterprise_rag/domain/common.py:62-72 | Without a collision between the two streams, equal identifiers come from equal parts. |
| `ContentIdentity.RootIdDetermines` | backend/src/enterprise_rag/domain/documents.py:189-205 | Equal root identifiers mean equal version, revision, ordinal, kind and content hash. |
| `ContentIdentity.LeafIdDetermines` | backend/src/enterprise_rag/domain/documents.py:309-311 | Equal leaf identifiers mean equal root, ordinal and content hash. |
| `ContentIdentity.LeafIdDeterminesLineage` | backend/src/enterprise_rag/domain/documents.py:189-242 | Along the whole chain, equal leaf identifiers mean equal version, revision, positions, kinds and texts of leaf and root. |
| `ContentIdentity.RootIdSpelled` | backend/src/enterprise_rag/domain/documents.py:189-205 | A root id is root_ and the hash of five frames, each a part behind its length in eight bytes, most significant first: version, index revision, decimal ordinal, kind and content hash, in this order. |
| `ContentIdentity.LeafIdSpelled` | backend/src/enterprise_rag/domain/documents.py:309-311 | A leaf id is leaf_ and the hash of three such frames: root id, decimal ordinal and content hash. |
| `ContentIdentity.LineageSpelled` | backend/src/enterprise_rag/domain/documents.py:221-330 | Along the chain the content hashes are those of the texts, and the leaf names its own root. |
| `ContentIdentity.RootAndLeafIdsDiffer` | backend/src/enterprise_rag/domain/documents.py:198-311 | No identifier names both a root and a leaf. |
| `JsonNormalForm.FreezesExactly` | backend/src/enterprise_rag/domain/common.py:75-93 | Freezing succeeds if and only if the value is finite JSON with text keys. |
| `JsonNormalForm.FreezeRaisesFirst` | backend/src/enterprise_rag/domain/common.py:75-93 | Freezing raises the first defect in reading order, a key before its value: a number that is not finite, a key that is no text, an unsupported type. |
| `JsonNormalForm.FrozenIsNormal` | backend/src/enterprise_rag/domain/common.py:75-121 | A frozen value is JSON, freezes to itself, and serialises like the original. |
| `JsonNormalForm.SerialisingIsIdempotent` | backend/src/enterprise_rag/domain/common.py:103-121 | Serialising a serialised value changes nothing. |
| `JsonNormalForm.SerialisingOrdersKeys` | backend/src/enterprise_rag/domain/common.py:115-118 | On parsed JSON, serialising puts every object in key order and does nothing else; the event-stream printer relies on it. |
| `JsonNormalForm.SameExactly` | backend/src/enterprise_rag/domain/common.py:103-121 | Two values serialise to the same ordered output if and only if they are the same JSON up to insertion order and freezing. |
| `Json.SortMembersSorts` | backend/src/enterprise_rag/domain/common.py:116 | Sorting the items of a mapping gives a strictly key-ordered permutation. |
| `CitationCheck.ReadCitationMeaning` | backend/src/enterprise_rag/mcp/knowledge_catalog.py:529-558 | A submitted citation is read if and only if its raw members are acceptable (a positive id if any, a root key, a list of leaf keys that are all texts, a quote neither blank nor too long), and then with exactly those values; any other carries only its position. |
| `CitationCheck.AddIssue` | backend/src/enterprise_rag/mcp/knowledge_catalog.py:561-564 | The issue is listed afterwards, behind everything that was listed before, and a list without repetitions stays one. |
| `CitationCheck.Report` | backend/src/enterprise_rag/mcp/knowledge_catalog.py:239-259 | The checks of one citation append exactly its defects, in order; none is suppressed by an earlier citation. |
| `CitationCheck.VerifyAnswer` | backend/src/enterprise_rag/mcp/knowledge_catalog.py:235-267 | The loop with its issues, count and seen ids returns the defects of all citations in order, the number without defect, and validity. |
| `CitationCheck.VerdictMeaning` | backend/src/enterprise_rag/mcp/knowledge_catalog.py:235-267 | The count is that of the citations meeting the declarative conditions (well formed, id unused by an earlier well-formed one, authorised root, matching document, non-empty leaves all of that root, quote in the root's text), and the answer is valid if and only if all do. |
| `CitationCheck.EachCodeExactly` | backend/src/enterprise_rag/mcp/knowledge_catalog.py:238-261 | Each of the six codes is found if and only if its own condition holds of the citation, the roots and the leaves; the quote is looked for as a contiguous text of the root. |
| `CitationCheck.CheckAnswer` | backend/src/enterprise_rag/mcp/knowledge_catalog.py:209-267 | From the raw submissions to the verdict: the count, validity and the listed issues, each once, by citation and in the order of the checks, are those whose conditions hold of the citations as they are read. |
| `CitationCheck.ReportedIssuesDistinct` | backend/src/enterprise_rag/mcp/knowledge_catalog.py:561-564 | No issue is reported twice. |
| `CitationCheck.IssuesAreDefects` | backend/src/enterprise_rag/mcp/knowledge_catalog.py:238-261 | An issue is listed if and only if the citation of its index has that defect. |
| `CitationCheck.SearchMeaning` | backend/src/enterprise_rag/mcp/knowledge_catalog.py:145-163 | Whatever ranked the hits, a search returns, in rank order, only authorised and mutually consistent hits, misses a consistent one only behind `top_k` others, and counts the rest as dropped. |
| `CitationCheck.OneMethodSearch` | backend/src/enterprise_rag/mcp/knowledge_catalog.py:443-464 | A search by one method: its hits come in order under their original ranks, all and only the consistent ones among the first `top_k`, and the others are counted as dropped. |
| `PepperRace.PepperFile.Resolve` | backend/src/enterprise_rag/mcp/local_credentials.py:8-50 | One process alone: a configured value decides without touching the file; otherwise an existing file is read and never changed, and a missing one is created with a token that reads back. |
| `PepperRace.TokenReadsBack` | backend/src/enterprise_rag/mcp/local_credentials.py:25-50 | A generated token, written with its line feed, is read back as itself and is long enough. |
| `PepperRace.Agreement` | backend/src/enterprise_rag/mcp/local_credentials.py:24-50 | In every interleaving of any number of processes, with deaths at any step, all that return through the file return the same value, and that of a non-empty file that was there before. |
| `PepperRace.ReaderSucceedsExactly` | backend/src/enterprise_rag/mcp/local_credentials.py:26-50 | A process that finds the file there gets a value if and only if the creator's write is already in it, and raises otherwise. |
| `PepperRace.EarlyReaderRaises` | backend/src/enterprise_rag/mcp/local_credentials.py:26-50 | The concrete race: a second process reads between creation and write and raises although nothing failed. |
| `PepperRace.AbandonedForever` | backend/src/enterprise_rag/mcp/local_credentials.py:26-36 | If the creator dies between creation and write, no process ever gets a value again. |
| `PepperRace.CreatorMayDie` | backend/src/enterprise_rag/mcp/local_credentials.py:27-31 | Such an abandonment is reachable in two steps. |

## Left out

- UsageLedger.InMemoryUsageStore.Reserve: the new reservation's id is a parameter that must be fresh, where the source draws a UUID; the UUID version checks of the reservation are preconditions.
- UsageLedger.DayRetryLands: instants are microseconds from a first midnight without an upper end, so the overflow of the calendar on its last day is not modelled.
- ObjectArchive.ObjectStore.ObjectManifest: takes the walk in any order and each path once; sorting the walk and a root that is no directory are left out.
- ObjectArchive.ObjectStore.RestoreMember: temporary files are not part of the root, so one left behind by a killed process is not seen.
- ObjectArchiveLaws.RestoreConverges: assumes that the JSON codec reads back the one manifest that was written.
- QueryLoopLaws.EndToEnd: assumes of the JSON codec only that each printed payload is one non-empty line that parses back, and of `Number` that it reads plain decimal digits.
- QueryLoop.Stream: what the loop wakes to is a parameter; cancellation of the tasks and the trace id that the application layer adds to events are left out.
- EventStream.ParseEventStream: starts from decoded text; the UTF-8 decoder, its byte-order mark and the release of the reader lock are left out.
- BenchmarkRunner.Workspace.Run: replacing a file is one atomic effect; a leftover temporary file and a checkpoint whose JSON is no object are left out.
- BenchmarkRunnerLaws.ResumeEquivalence: every run of a history has the same dataset, mode, limit of cases and commit; a run of another job is refused (`CheckpointBelongs`).
- SpanBuffer.BufferedSpanExporter.Export: which spans cannot be serialised is part of the input; attribute filtering and the JSON form of a span are left out.
- ConfigEnvironmentLaws.LayerIsTree: about values that hold no dictionary in themselves; a value that does stands for no tree, and `VariableIsShown` and `KeptBeside` cover it.
- ConfigEnvironment.EnvironmentData: lists of a parsed value are scalars, since no write goes into them.
- ConfigTree.DeepMerge: dictionaries are values, so the deep copies need no counterpart; an override that is a mapping but no dictionary is left out.
- ContentIdentity.ContentIdInjective: collision-freedom is assumed of the two byte streams compared, and injectivity of the UTF-8 encoder.
- JsonNormalForm.SerialisingIsIdempotent: about finite JSON only; enumerations, UUIDs, instants and objects with `to_dict` are left out.
- CitationCheck.VerifyAnswer: the rows loaded for the authorised scope are the maps it is given; scope resolution and the database are left out.
- CitationCheck.SearchMeaning: takes the ranked hits as they are; how the fusion service makes one ranking of two is another service.
- PepperRace.Agreement: the write is one step; partial writes, decoding errors, symbolic links and file modes are left out.
- Tar, gzip, zip, JSON text, YAML and UTF-8 internals, SHA-256, lower-casing and identifier tests are function-valued parameters.
- Downloading the benchmark archive and checking its checksum is left out.
- Validation of settings, provider names and production secrets in the settings loader is left out: single-branch checks.
- The HTTP routes other than the event printer, the other MCP tools, the stores on PostgreSQL and the vector stores are left out.
- Field validators of the domain dataclasses are preconditions or left out: each would be an easy member.
