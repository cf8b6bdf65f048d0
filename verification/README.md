# Verification model of Cradle's algorithms and protocols

This project restates the self-contained algorithms and state machines of the Cradle repository in Dafny
and proves what they promise. `dafny verify dfyconfig.toml` checks all of it.

Each part keeps the form of its source: code that updates fields, arrays or records in place is a class or a
method with a frame, tied to a function that says what it computes; the properties are lemmas about those
functions, or stand in the methods' own postconditions.

| module | what it models |
|---|---|
| `Wrappers`, `Numbers`, `Sequences`, `SquareRoot` | what several modules share |
| `Sorting`, `Digraph`, `Tarjan` | stable sorting; paths in a graph; the strongly-connected-components search of the module-boundary gate, with its index, low-link and stack fields |
| `FftMath`, `Fft`, `UnitRoots` | discrete Fourier transforms over any commutative ring with twiddle factors; the in-place radix-2 transform on two arrays; complex twiddle factors from square roots |
| `CivilTime`, `TimestampNames` | the Gregorian calendar of days since 1970-01-01; the two timestamp formats used as file names |
| `WhenGrammar`, `WhenExpression` | the keybinding `when` language: grammar, tokenizer, recursive-descent parser with its cursor, printer, evaluation |
| `Json`, `SchemaPasses`, `SchemaRecords`, `SchemaMeaning`, `SchemaIdempotence`, `SchemaInPlace`, `NullableInPlace` | what a JSON schema accepts, under either reading of `nullable`; the two OpenAPI rewriting passes as functions, what they make of each record, what they preserve, and the same passes rewriting records of a document in place |
| `Utf8`, `PiiTokens`, `PiiSpans`, `Redaction` | character and byte positions of UTF-8 text; the personal-data pipeline from text to words, to spans without overlaps, to redacted text |
| `SpeechGroups`, `EnergyVad`, `SileroVad` | the grouping of speech frames both voice-activity detectors compute, and each detector's loop |
| `Utf8Coding`, `Framing`, `ByteFraming` | UTF-8 bytes, and their decoding with replacement characters; the newline framer of the Slack bridge and the blank-line framer of the benchmark; what decoding each chunk of bytes on its own does to them |
| `ChangePoint` | the change-point search and the correlation of the memory collector, over exact reals |
| `TranscriptHandoff` | inbox, outbox file and processed directory under torn writes, failed renames and crashes |
| `Recorder` | frame de-duplication across batches |
| `ShutdownRegistry`, `ShutdownReentry` | ordered shutdown of runtime resources, and what re-entrant calls do to it |
| `PendingCalls` | calls that wait for a reply, a timeout or shutdown |
| `PercentCoding` | percent-encoding of path segments and its decoder, from text to text |

## Where the code differs from what is said of it

- `dedup_overlapping` is documented as keeping the higher-confidence span. It keeps the span that starts first;
  confidence decides only between equal starts. `PiiSpans.ConfidenceCanLose` is an instance;
  `PiiSpans.ConfidenceWinsExactly` says when the comment is right about a list, whichever of its spans are found: when
  no two overlap with the weaker one first.
- `redact_with_spans` measures each span in the text as already redacted. Of two overlapping spans, an overlap longer
  than the later one's tag deletes text that neither covers, and a nested span shorter than its tag leaves text that the
  outer one covers; of two that start together the one listed first counts as the later. Nothing reports it.
  `Redaction.OverlapEatsText`, `Redaction.NestedSpanLeavesText` and `Redaction.TiesFollowTheList` are instances
  (`Redaction.OverlapExamples` with the program's own tags), `Redaction.OverlapIsCleanExactly` is the exact condition
  for two spans that overlap. `Redaction.RedactsAnySpans` gives the result on any list of spans, and
  `Redaction.ChainIsClean` a condition under which any number of overlapping ones is redacted cleanly.
- The const pass is not idempotent on documents where a rewritten union has siblings it did not visit.
  `SchemaIdempotence.ConstPassIdempotence` gives the exact condition, which every schema of the fragment meets
  (`SchemaIdempotence.FragmentSettles`); the nullable pass needs none.
- The document that is written calls itself OpenAPI 3.0.3 (apps/server/tests/openapi.test.ts:55), where `nullable: true`
  only widens a `type` given in the same schema object. Read so, a union without a type that is folded with null loses
  null (`SchemaMeaning.UnionLosesNull`), so does a literal beside null such as `anyOf [{type: number, const: 1},
  {type: null}]` (`SchemaMeaning.ConstantLosesNull`), and a union of constants marked nullable gains it.
  `SchemaMeaning.NullablePassExactly` and `SchemaMeaning.ConstPassExactly` give the exact conditions. Under the wider
  reading, in which `nullable: true` admits null past every keyword but `enum`, both hold of every schema.
- Timestamp names sort by time up to the end of year 9999 and no further: `TimestampNames.SortsBelowExactly`.
- A manifest can reach the processed directory without a line of its own in the outbox: an append that breaks off
  leaves an open line, and the next event is written onto it. `TranscriptHandoff.OpenLineSwallowsEvent` and
  `TranscriptHandoff.TornWriteLosesALine` show it, `TranscriptHandoff.ProcessedHasOwnLine` says exactly in which
  runs it happens. A rename onto a processed manifest of the same name replaces it: `TranscriptHandoff.StepKeepsManifests`.
- The recorder keeps a frame's fingerprint before the frame is stored, and the state outlives a failed run. So a frame
  whose storing fails is taken for a duplicate when it comes again (`Recorder.FailedStoreIsNotRetried`), and the frame
  before it, shown again in the next batch, is stored twice in a row (`Recorder.FailedStoreRepeats`).
  `Recorder.BatchesAlternate` and `Recorder.NextBatchAlternates` say when that cannot and when it can happen, and
  `Recorder.FailedBatchJoins` that only such a failure makes the next batch differ from going on.
- The bridge decodes every chunk on its own, so a character cut by a chunk boundary arrives as replacement characters:
  `ByteFraming.FramesOfBytes` is exact.
- `shutdown` assigns its promise after `runShutdown` has started, so a call that re-enters it before the first
  `await` stops every resource twice: `ShutdownReentry.StoppedOnceWhenUndisturbed` is exact about this.
- A second wait under a call id in use leaves the first call unanswered for good when that has no timeout. When it has
  one and it runs out, it takes the second call's entry away, which leaves the second call unanswered for good when that
  has no timeout. There is no third way: `PendingCalls.StrandsExactly`, `PendingCalls.ReuseStrands`,
  `PendingCalls.TimeoutStrandsSecond`. A reply to a call with an empty id is not delivered
  (`PendingCalls.ReplyReachesCall`), and after two waits in one thread replies there reach the second call and never the
  first (`PendingCalls.ThreadTakenOver`, `PendingCalls.UnaddressedForever`); the bridge itself opens a thread per call.

## Model

| member | source | states |
|---|---|---|
| `Tarjan.StronglyConnectedComponents` | apps/server/scripts/check-module-boundaries.ts:97-140 | for every finite graph the result partitions all keys and targets into the classes of mutual reachability, each sorted, longest first; the search emits a component only after everything it reaches outside itself |
| `Tarjan.SccSearch.Visit` | apps/server/scripts/check-module-boundaries.ts:105-131 | a call of `visit` keeps the search invariant, leaves older indexes, links and the stack below it alone, and ends with its node's component emitted or with the low link of a stack node it reaches |
| `Tarjan.SccSearch.FollowAll` | apps/server/scripts/check-module-boundaries.ts:111-119 | after the loop over the targets no edge from the open part of the stack leads below the low link |
| `Tarjan.SccSearch.PopUntil` | apps/server/scripts/check-module-boundaries.ts:123-129 | the do-while loop pops exactly the stack from the node upwards |
| `Tarjan.SccSearch.VisitAll` | apps/server/scripts/check-module-boundaries.ts:134-138 | every node is visited and none twice |
| `Tarjan.TopIsScc` | apps/server/scripts/check-module-boundaries.ts:120-130 | when low link and index agree, the stack from the node upwards is one whole class of mutual reachability |
| `Tarjan.Blacken` | apps/server/scripts/check-module-boundaries.ts:120-122 | a node that stays on the stack still leads back to a running call |
| `Tarjan.SortedNodes` | apps/server/scripts/check-module-boundaries.ts:133-134 | the nodes are all keys and all targets, once each, in the order of their UTF-16 code units |
| `Sorting.SortIsStable` | apps/server/scripts/check-module-boundaries.ts:133-139 | sorting keeps the order of elements that tie, so components of one length stay in the order of the search |
| `Tarjan.RatchetPasses` | apps/server/scripts/check-module-boundaries.ts:142-151 | the gate passes exactly when no set of more than 23 modules is mutually reachable |
| `Fft.FftRadix2` | chronicle/src/onnx/asr.rs:664-710 | for every power-of-two length up to 2^32, output k is the sum of input[t]·w^(kt), and nothing beyond the frame is written |
| `Fft.Permute` | chronicle/src/onnx/asr.rs:674-682 | for frames of up to 2^32 samples the guarded swap loop moves the entry at the reversed index to each index, in both arrays |
| `Fft.BitReverse` | chronicle/src/onnx/asr.rs:714-721 | the shift loop on 32-bit words reverses the lowest bits, of which the result keeps 32 |
| `Fft.ReversesExactly` | chronicle/src/onnx/asr.rs:675-678 | the indices found for a whole frame are the reversals exactly when it has no more than 2^32 samples |
| `FftMath.RevInvolution` | chronicle/src/onnx/asr.rs:674-682 | reversing twice gives the index back, so the swap loop is a permutation |
| `Fft.TransformBlock` | chronicle/src/onnx/asr.rs:691-706 | the butterflies of one block turn transforms of half length into transforms of full length |
| `Fft.TransformStage` | chronicle/src/onnx/asr.rs:690-707 | one stage lifts every block by one level |
| `FftMath.SplitEvenOdd` | chronicle/src/onnx/asr.rs:684-709 | a transform is the transform of the even entries plus the twiddled transform of the odd ones |
| `FftMath.Butterfly` | chronicle/src/onnx/asr.rs:696-705 | the two outputs of a butterfly are the next level's values at both positions |
| `FftMath.RootGivesTwiddles` | chronicle/src/onnx/asr.rs:688-694 | powers of any element whose 2^(bits-1)-th power is -1 obey the laws asked of the twiddle factors |
| `Fft.FourPointLaws` | chronicle/src/onnx/asr.rs:688-694 | the complex unit -i is such an element for four points |
| `UnitRoots.TwiddlesExist` | chronicle/src/onnx/asr.rs:688-694 | halving the angle of -1 again and again, with a square root of the reals, gives such an element for every frame length |
| `UnitRoots.HalfAngleSquared` | chronicle/src/onnx/asr.rs:688-694 | the half-angle formulas give a square root on the unit circle |
| `CivilTime.CivilStep` | chronicle/src/time.rs:73-86 | every result is a valid Gregorian date, and the next day's result is the calendar's next date |
| `CivilTime.CountingBack` | chronicle/src/time.rs:73-86 | counting days from 1970-01-01 by month lengths and the leap-year rule returns the day count, before 1970 too |
| `CivilTime.CivilIsOntoDates` | chronicle/src/time.rs:73-86 | every valid date is the result for its own day number |
| `CivilTime.CivilFollowsTime` | chronicle/src/time.rs:73-86 | later days give later dates, and only they do |
| `CivilTime.EraIsDateOf` | chronicle/src/time.rs:74-85 | within an era the divisions find the year and the day counted from the first of March |
| `TimestampNames.NamesSortByTime` | chronicle/src/time.rs:32-61 | up to the year 9999 an earlier second has the smaller name, with any separators |
| `TimestampNames.FormatsSortByTime` | chronicle/src/time.rs:32-61 | up to the end of year 9999 both formats are injective and sort by time |
| `TimestampNames.SortsBelowExactly` | chronicle/src/time.rs:32-61 | sorting by name is sorting by time below a bound exactly when the bound is no later than the first second of year 10000 |
| `TimestampNames.PartsFollowTime` | chronicle/src/time.rs:48-60 | the six fields of a later time are lexicographically greater |
| `TimestampNames.PartsAreTheTime` | chronicle/src/time.rs:48-60 | the six fields are the date of the day and the hour, minute and second of the day |
| `TimestampNames.NamesSpellTheTime` | chronicle/src/time.rs:32-46 | up to the year 9999 both names read back as these fields, at their widths and with their marks between them |
| `WhenGrammar.ParserIsTheGrammar` | apps/web/src/keybindings.ts:59-90 | the parser accepts a token list with a tree exactly when the list derives that tree, `\|\|` below `&&` below `!`, left-associative, with nothing left over |
| `WhenGrammar.GrammarIsUnambiguous` | apps/web/src/keybindings.ts:59-90 | a token list has at most one tree |
| `WhenGrammar.PrintIsShortest` | apps/web/src/keybindings.ts:59-90 | the printed form has the fewest tokens of all that derive the tree |
| `WhenExpression.TokensOfRendered` | apps/web/src/keybindings.ts:15-58 | tokens written out with any white space that keeps words apart are found again |
| `WhenExpression.TokensComeFromRendering` | apps/web/src/keybindings.ts:15-58 | every text the tokenizer accepts is its tokens with such white space |
| `WhenExpression.Tokenize` | apps/web/src/keybindings.ts:52-58 | the sticky-match loop finds those tokens or fails where they stop |
| `WhenExpression.Parser.ParsePrimaryNode` | apps/web/src/keybindings.ts:60-70 | the cursor parser agrees with the grammar's parser, errors included |
| `WhenExpression.Parser.ParseAndNode` | apps/web/src/keybindings.ts:71-78 | the `&&` loop builds left-associated nodes |
| `WhenExpression.Parser.ParseOrNode` | apps/web/src/keybindings.ts:79-86 | the `\|\|` loop builds left-associated nodes |
| `WhenExpression.ParseWhenExpression` | apps/web/src/keybindings.ts:51-90 | a text parses to a tree exactly when it is some derivation of the tree with admissible white space |
| `WhenExpression.ParseRendered` | apps/web/src/keybindings.ts:51-90 | a tree over legal names, printed with minimal parentheses and any white space, parses back |
| `WhenExpression.ActiveFollowsTree` | apps/web/src/keybindings.ts:91-99 | a rule written from a tree is active exactly when the tree evaluates to true |
| `WhenExpression.SidesAreActive` | apps/web/src/keybindings.ts:94-99 | a written conjunction is active exactly when both its sides, written by themselves, are, and a disjunction when one is |
| `WhenExpression.NotIsActive` | apps/web/src/keybindings.ts:93-99 | a written negation is active exactly when what it negates is not |
| `WhenExpression.NameIsActive` | apps/web/src/keybindings.ts:92-99 | a name is active exactly when the context holds it with the value true |
| `WhenExpression.ActiveIffDerived` | apps/web/src/keybindings.ts:97-99 | a rule throws exactly when its text is not empty and derives no tree |
| `SchemaMeaning.BothPassesKeepMeaning` | apps/server/scripts/export-openapi.ts:18-20 | the const pass followed by the nullable pass accepts the same JSON values, for every schema in which nothing is said beside what a pass rewrites, literals, records and annotations included, and every reading of the other keywords; when `nullable` only widens a type, under the two conditions below |
| `SchemaMeaning.ConstPassMeaning` | apps/server/scripts/openapi-schema-normalizer.ts:3-66 | turning constants and unions of constants into enums changes no verdict at any depth |
| `SchemaMeaning.ConstPassExactly` | apps/server/scripts/openapi-schema-normalizer.ts:34-66 | it keeps the verdicts of a schema and of all schemas in it exactly when each union of constants marked nullable lists null, or `nullable` is read widely |
| `SchemaMeaning.ConstPassFragment` | apps/server/scripts/openapi-schema-normalizer.ts:3-66 | the first pass leaves a schema of the fragment the second pass is meant for |
| `SchemaMeaning.NullablePassMeaning` | apps/server/scripts/export-openapi.ts:23-59 | folding `anyOf [S, null]` into a nullable S changes no verdict at any depth |
| `SchemaMeaning.NullablePassExactly` | apps/server/scripts/export-openapi.ts:23-59 | it keeps the verdicts of a schema and of all schemas in it exactly when every schema brought up takes null as far as its keywords other than type and enum go, or `nullable` is read widely |
| `SchemaMeaning.WhatTakesNull` | apps/server/scripts/export-openapi.ts:54-55 | a schema without constant and combination of schemas does, a bare union exactly when a member accepts null |
| `SchemaMeaning.UnionLosesNull` | apps/server/scripts/export-openapi.ts:54-55 | a union of two typed schemas beside null, which accepts null before the pass and, read as OpenAPI 3.0.3, not after it |
| `SchemaMeaning.ConstantLosesNull` | apps/server/scripts/export-openapi.ts:54-55 | a numeric literal beside null, which the const pass leaves alone and which, read so, loses null as well |
| `SchemaRecords.FoldedFields` | apps/server/scripts/export-openapi.ts:40-58 | field by field, what a record whose union is folded with null becomes: the union goes, the other member's fields come in and win, the mark is set, an enum lists null, and every other field stays |
| `SchemaRecords.OthersKeepTheirFields` | apps/server/scripts/export-openapi.ts:34-52 | any other record keeps all its keys, and the pass has visited their values |
| `SchemaRecords.DefaultStays` | apps/server/scripts/export-openapi.ts:54-55 | a string or null with a default keeps the default |
| `SchemaRecords.CollapsedFields` | apps/server/scripts/openapi-schema-normalizer.ts:34-66 | field by field, what a record with a union of string constants becomes: the union goes, type, enum and mark are written, the enum lists each constant where it comes first and null at the end, and every other field stays |
| `SchemaRecords.ConstantFields` | apps/server/scripts/openapi-schema-normalizer.ts:19-31 | any other record keeps its keys and the pass has visited their values, save that a string constant becomes an enum of one |
| `SchemaIdempotence.ConstPassIdempotence` | apps/server/scripts/openapi-schema-normalizer.ts:3-66 | the const pass is idempotent on a document exactly when its rewritten unions have no siblings left to rewrite |
| `SchemaIdempotence.FragmentSettles` | apps/server/scripts/openapi-schema-normalizer.ts:19-31 | every schema of the fragment meets that condition |
| `SchemaIdempotence.ConstPassIdempotentOnSchemas` | apps/server/scripts/openapi-schema-normalizer.ts:3-32 | so the const pass is idempotent on all of them |
| `SchemaIdempotence.UnvisitedSibling` | apps/server/scripts/openapi-schema-normalizer.ts:19-21 | a document on which the second run changes the result of the first |
| `SchemaIdempotence.NullablePassIdempotence` | apps/server/scripts/export-openapi.ts:23-59 | the nullable pass is idempotent on every document |
| `SchemaInPlace.NormalizeConstSchemas` | apps/server/scripts/openapi-schema-normalizer.ts:3-32 | the recursive walk rewrites the records in place into the result of the const pass and touches no others |
| `SchemaInPlace.CollectUnion` | apps/server/scripts/openapi-schema-normalizer.ts:40-53 | the loop over `anyOf` collects exactly the constants and the null flag, or stops at the first other member |
| `SchemaInPlace.NormalizeStringConstUnion` | apps/server/scripts/openapi-schema-normalizer.ts:34-66 | true exactly for a non-empty union of string constants and nulls, which becomes an enum; otherwise nothing changes |
| `SchemaInPlace.RewriteConstRecord` | apps/server/scripts/openapi-schema-normalizer.ts:24-31 | a string constant becomes an enum of one |
| `NullableInPlace.NormalizeNullableSchemas` | apps/server/scripts/export-openapi.ts:23-59 | the bottom-up walk rewrites the records in place into the result of the nullable pass |
| `NullableInPlace.MergeRecord` | apps/server/scripts/export-openapi.ts:40-58 | the partner's fields move into the record, marked nullable, and an enum gains null once |
| `NullableInPlace.FindPartner` | apps/server/scripts/export-openapi.ts:40-52 | a record qualifies exactly when its union has two members, one null and the other a record |
| `NullableInPlace.NormalizeDocument` | apps/server/scripts/export-openapi.ts:18-20 | the document in memory ends as both passes applied in order |
| `Utf8.CharByteChar` | chronicle/src/onnx/pii.rs:492-502 | a character position goes to a byte boundary and back, saturating at the end |
| `Utf8.ByteCharByte` | chronicle/src/onnx/pii.rs:492-502 | a byte boundary goes to a character position and back |
| `PiiTokens.SplitTextTokens` | chronicle/src/onnx/pii.rs:367-414 | the tokens are non-empty, ordered, disjoint, on character boundaries, cover exactly what is not white space, and split exactly where two characters are not glued |
| `PiiTokens.TokensAreDetermined` | chronicle/src/onnx/pii.rs:367-414 | those conditions leave one tokenization per text |
| `PiiTokens.BuildWordsMask` | chronicle/src/onnx/pii.rs:429-454 | each position holds the number of the word that starts there, prompt words not counted, or zero |
| `PiiTokens.MarksCount` | chronicle/src/onnx/pii.rs:429-454 | the marks read in order are 1, 2, 3, … up to the number of text words |
| `PiiTokens.StartsAreFirst` | chronicle/src/onnx/pii.rs:434-450 | with increasing word ids a mark stands on the first sub-token of its word and only there |
| `PiiTokens.BuildCandidateSpans` | chronicle/src/onnx/pii.rs:456-469 | every start and width is listed at start·max_width+width and is valid exactly when it ends within the text |
| `PiiTokens.PositionsArePairs` | chronicle/src/onnx/pii.rs:456-469 | every position of the list is one such pair |
| `PiiSpans.DedupOverlapping` | chronicle/src/onnx/pii.rs:475-490 | on any list, in place: a span stays exactly when no earlier survivor reaches past its start |
| `PiiSpans.GreedySnoc` | chronicle/src/onnx/pii.rs:478-489 | clearing the rest of the list after each head is the same as looking back when a span's turn comes |
| `PiiSpans.SurvivorsAreApart` | chronicle/src/onnx/pii.rs:475-490 | survivors are in order and share no character |
| `PiiSpans.RemovedAreDisplaced` | chronicle/src/onnx/pii.rs:341-347 | after the sort every removed span overlaps a survivor that starts no later, and at an equal start has no less confidence |
| `PiiSpans.ConfidenceCanLose` | chronicle/src/onnx/pii.rs:475-483 | a list from which the more confident of two overlapping spans is removed |
| `PiiSpans.ConfidenceOfAPair` | chronicle/src/onnx/pii.rs:475-483 | of two overlapping spans the more confident stays exactly when the one that starts first is not the weaker |
| `PiiSpans.ConfidenceWinsWhen` | chronicle/src/onnx/pii.rs:475-483 | for a whole list it is enough that no overlapping pair has the weaker span first |
| `PiiSpans.ConfidenceWinsExactly` | chronicle/src/onnx/pii.rs:475-483 | and this is exact: the more confident spans stay, whichever spans of the list are found, just when no overlapping pair has the weaker one first |
| `PiiSpans.HitsAreHits` | chronicle/src/onnx/pii.rs:310-339 | the three loops collect exactly one span for each score above the threshold whose words exist: from where the first of them begins to where the last ends, with its characters, the type at that index and the score |
| `PiiSpans.ExtractSpans` | chronicle/src/onnx/pii.rs:297-350 | the result is in order and apart, each span is such a hit, and every other hit overlaps a kept one that starts no later |
| `Redaction.RedactDetected` | chronicle/src/onnx/pii.rs:225-235 | right-to-left replacement with offsets of the original text is one pass from left to right |
| `Redaction.RedactWithSpans` | chronicle/src/onnx/pii.rs:505-523 | for any spans: replaced from the last start to the first with offsets of the text so far, skipping those out of order |
| `Redaction.FromTheRightIsOnePass` | chronicle/src/onnx/pii.rs:505-523 | for disjoint spans in any order that is the same single pass, so both functions agree |
| `Redaction.OutsideIsVerbatim` | chronicle/src/onnx/pii.rs:219-236 | every character outside the spans is kept, shifted by the tags before it |
| `Redaction.LengthIsAccountedFor` | chronicle/src/onnx/pii.rs:219-236 | nothing is added or lost besides the spans and their tags |
| `Redaction.TagsInPlace` | chronicle/src/onnx/pii.rs:219-236 | each span has its tag, whole, right behind the text and tags before it |
| `Redaction.TagsAreDistinct` | chronicle/src/onnx/pii.rs:88-99 | every tag is in brackets, and different types have different ones |
| `Redaction.OverlapCutsATag` | chronicle/src/onnx/pii.rs:505-523 | the whole result on two overlapping spans: the earlier one takes its length out of the later one's tag and the text after it; listed in either order, save that of two with one start the one listed first counts as the later |
| `Redaction.OverlapIsCleanExactly` | chronicle/src/onnx/pii.rs:505-523 | with that meaning of later, text outside both spans stays, text they cover goes and only the later tag may lose its head, for every text of a length, exactly when the overlap fits into that tag or no text follows, or, for a nested span, when it is as long as its tag or longer with no text to follow |
| `Redaction.CleanByAccident` | chronicle/src/onnx/pii.rs:505-523 | otherwise a clean result takes a text whose last covered character is the last of the tag |
| `Redaction.OverlapEatsText` | chronicle/src/onnx/pii.rs:505-523 | two spans on which text outside both is deleted |
| `Redaction.NestedSpanLeavesText` | chronicle/src/onnx/pii.rs:505-523 | two spans on which text they cover is left |
| `Redaction.TiesFollowTheList` | chronicle/src/onnx/pii.rs:510-511 | two pairs of spans with one start: text is deleted, left, or neither, as the list has them |
| `Redaction.OverlapExamples` | chronicle/src/onnx/pii.rs:505-523 | these instances with the program's tags |
| `Redaction.RedactsAnySpans` | chronicle/src/onnx/pii.rs:505-523 | the whole result on any number of spans, overlapping or not: from the right, each takes its own length out of the tags and the text then behind its start |
| `Redaction.ChainIsClean` | chronicle/src/onnx/pii.rs:505-523 | when the ends of any number of spans rise with their starts and each reaches no further into the next than its tag, exactly the text outside them stays, with a tag for each that may have lost its head |
| `Redaction.Detect` | chronicle/src/onnx/pii.rs:149-216 | for every text and every answer of the model, the detected spans lie in the text, in order and apart, each covers all the words of a score above the threshold, and every such score is detected or overlaps one that is |
| `Redaction.Redact` | chronicle/src/onnx/pii.rs:219-236 | the redacted text is the single pass over the detected spans, or the model's failure |
| `SpeechGroups.GroupingIsUnique` | chronicle/src/audio/vad.rs:77-131 | one grouping holds every speech frame and keeps two successive ones together exactly when they touch or their gap is shorter than the limit |
| `SpeechGroups.ScanExtends` | chronicle/src/audio/vad.rs:95-99 | a speech frame before the silence is too long extends the open group |
| `SpeechGroups.ScanOpens` | chronicle/src/audio/vad.rs:86-94 | a speech frame after that, or the first one, begins a group |
| `EnergyVad.Detect` | chronicle/src/audio/vad.rs:58-134 | one segment, in order, for each group of speech frames that lasts at least the minimum, from its first to its last speech frame, with both times in milliseconds and the mean level of its speech frames, and no other; frames are whole, and the silence limit is the configured time in samples |
| `EnergyVad.MaybePushSegment` | chronicle/src/audio/vad.rs:151-175 | a group gives one segment when it is long enough and none otherwise |
| `EnergyVad.Closes` | chronicle/src/audio/vad.rs:101-114 | counting the silence back does not underflow and ends at the last speech frame |
| `SileroVad.SileroVad.DetectSpeech` | chronicle/src/onnx/vad.rs:210-323 | the result is a function of the samples alone: one segment, in order, for each group of the chunk probabilities that is at least the minimum long, padded and clamped, with its times and the energy of the unpadded speech, and no other; or the first error; another rate is refused after the reset |
| `SileroVad.ListenIsHearing` | chronicle/src/onnx/vad.rs:261-264 | the probabilities are those of whole chunks in turn, the first heard from a cleared state and each later one in the state the one before it left |
| `SileroVad.ListenFails` | chronicle/src/onnx/vad.rs:261-264 | the run fails exactly when the network fails on some chunk after such a beginning |
| `SileroVad.DetectedAreOrdered` | chronicle/src/onnx/vad.rs:252-321 | segments lie in the recording and in order, and are disjoint whenever twice the padding is at most the least silence between groups |
| `SileroVad.ApartExactly` | chronicle/src/onnx/vad.rs:252-321 | over all recordings and all probabilities a network may give, segments never overlap exactly when twice the padding is at most the minimum silence in whole chunks, or the threshold lets every chunk or none through |
| `SileroVad.PaddingFits` | chronicle/src/onnx/vad.rs:286-287 | two padded stretches are disjoint exactly when twice the padding fits between them, clamped or not |
| `SileroVad.GroupsAreFarApart` | chronicle/src/onnx/vad.rs:279-299 | two groups are at least as many chunks apart as it takes to fill the minimum silence, and at least one |
| `SileroVad.SileroVad.ProcessChunk` | chronicle/src/onnx/vad.rs:143-204 | a chunk of another length is refused; otherwise both halves of the hidden state move on when the network answers, and on a failure neither or the first alone |
| `Framing.SplitOfPieces` | apps/server/scripts/session-startup-benchmark.ts:217-241 | splitting what is left of one piece together with the next gives the frames of the whole, for every non-empty delimiter |
| `Framing.SplitIsFramed` | apps/server/scripts/session-startup-benchmark.ts:222-223 | the frames and the rest are the text again, and each frame ends at its own delimiter |
| `Framing.SplitOfJoin` | apps/server/scripts/session-startup-benchmark.ts:222-223 | frames written with their delimiter are found again |
| `Framing.Connection.OnData` | apps/zhi-slack-bridge/src/bridge-server.ts:71-88 | after any chunks the lines handed on are exactly the lines of everything received that hold more than white space, in order |
| `Framing.Lines` | apps/zhi-slack-bridge/src/bridge-server.ts:77-87 | the `indexOf` loop cuts all complete lines off the buffer and drops blank ones |
| `Framing.ReadEvents` | apps/server/scripts/session-startup-benchmark.ts:215-241 | the payloads parsed are those of the whole stream, however it is cut, without empty ones and `[DONE]`, up to the first that is not JSON, and the turn fails exactly when there is one |
| `Framing.EventDataIs` | apps/server/scripts/session-startup-benchmark.ts:225-229 | the lines of a payload are the lines of its block that begin with the field name, without it and in order |
| `Framing.PayloadIsUnique` | apps/server/scripts/session-startup-benchmark.ts:225-229 | which leaves one payload for a block |
| `Utf8Coding.DecodeUndoesEncode` | chronicle/src/screen/inbox.rs:217 | decoding UTF-8 gives every text back |
| `Utf8Coding.EncodeUndoesDecode` | chronicle/src/screen/inbox.rs:217 | lossy decoding loses nothing exactly on sequences of well-formed characters |
| `Utf8Coding.Samples` | chronicle/src/screen/inbox.rs:217 | the bytes of four characters, of one to four bytes |
| `ByteFraming.ReceivedIsText` | apps/zhi-slack-bridge/src/bridge-server.ts:74-75 | decoding the chunks of a UTF-8 text one by one, with replacement characters, gives the text exactly when no chunk ends within a character |
| `ByteFraming.FramesOfBytes` | apps/zhi-slack-bridge/src/bridge-server.ts:71-88 | and exactly then the bridge finds the frames and the rest of the text that was sent |
| `ByteFraming.OnBytes` | apps/zhi-slack-bridge/src/bridge-server.ts:74-88 | after any chunks of bytes, UTF-8 or not, the lines handed on are those of the chunks decoded one by one |
| `ChangePoint.SplitGain` | apps/server/scripts/tab_working_set_collector.py:365-379 | the spread of a series less the spreads of its parts is n1·n2/(n1+n2)·(mean1-mean2)² |
| `ChangePoint.GainSign` | apps/server/scripts/tab_working_set_collector.py:379-383 | a split never scores below zero, and zero exactly between equal means |
| `ChangePoint.BestSplit` | apps/server/scripts/tab_working_set_collector.py:376-381 | the loop finds the earliest admissible split of greatest gain |
| `ChangePoint.BestChangePoint` | apps/server/scripts/tab_working_set_collector.py:372-394 | nothing below five points, or exactly when all admissible splits have equal means; otherwise that split with its values |
| `ChangePoint.CauchySchwarz` | apps/server/scripts/tab_working_set_collector.py:344-347 | the squared numerator never exceeds the product of the two denominators |
| `ChangePoint.Pearson` | apps/server/scripts/tab_working_set_collector.py:339-348 | no answer exactly for fewer than three points, unequal lengths or a constant series; otherwise the quotient, between -1 and 1 |
| `ChangePoint.CorrelationOnLine` | apps/server/scripts/tab_working_set_collector.py:342-348 | of points on a rising line the quotient is 1, of points on a falling line -1 |
| `TranscriptHandoff.ProcessedIsRecorded` | chronicle/src/daemon.rs:613-658 | in every run with any faults, a processed manifest's event ends a line of the outbox |
| `TranscriptHandoff.ProcessedHasOwnLine` | chronicle/src/daemon.rs:646-657 | every processed manifest has a line to itself throughout a run exactly when no step of it renames, after an append that began on an open line, a manifest that has no line yet |
| `TranscriptHandoff.StepKeepsOwnLines` | chronicle/src/daemon.rs:646-657 | the same for one step; only the converse needs that no event ends with another, which is true of JSON objects |
| `TranscriptHandoff.OpenLineSwallowsEvent` | chronicle/src/store/mod.rs:39-53 | such an append joins the broken line and adds no line of its own |
| `TranscriptHandoff.TornWriteLosesALine` | chronicle/src/store/mod.rs:39-53 | a run in which that happens |
| `TranscriptHandoff.AppendLine` | chronicle/src/store/mod.rs:39-53 | what a complete and a torn append do to the lines of the file |
| `TranscriptHandoff.StepKeepsManifests` | chronicle/src/daemon.rs:677-693 | a step loses a manifest exactly when it renames onto a processed one with other contents |
| `TranscriptHandoff.ManifestsAreKept` | chronicle/src/daemon.rs:591-693 | in every run each manifest stays in the inbox or among the processed ones at every step exactly when there is no such rename |
| `TranscriptHandoff.NamesAreKept` | chronicle/src/daemon.rs:591-693 | names are never lost |
| `TranscriptHandoff.Daemon.ProcessTranscripts` | chronicle/src/daemon.rs:591-675 | a pass is a run of attempts on the first three manifests by name, and reports as many as left the inbox |
| `TranscriptHandoff.GoodPassMoves` | chronicle/src/daemon.rs:613-658 | when nothing fails, a pass moves every manifest it attempts, with its contents, and no other |
| `TranscriptHandoff.Daemon.ProcessTranscript` | chronicle/src/daemon.rs:615-664 | one manifest: left alone when invalid; otherwise as much of its line as gets written is appended, and only after all of it may the manifest be moved as it is, and is then reported |
| `Recorder.RunStores` | chronicle/src/recorder/manager.rs:60-92 | in every run the frames stored are those before the first failure that are not private and differ from the last one shown on their display; the state ends with the last fingerprint shown on each, the frame that failed included |
| `Recorder.ReportIs` | chronicle/src/recorder/manager.rs:60-91 | the whole report of any run: how many frames were observed, private and repeated, which were stored, in order, and the fingerprint of the latest one that could be read |
| `Recorder.LastIs` | chronicle/src/recorder/manager.rs:74-86 | a frame is compared with the latest readable frame of its display that was not private, or with the fingerprint carried in |
| `Recorder.FirstFailure` | chronicle/src/recorder/manager.rs:63-87 | a run ends at the first item on which the source, the reading or the storing fails |
| `Recorder.BatchesJoin` | chronicle/src/daemon.rs:402-412 | recording in two batches with the state carried over is recording once, reports added up, whenever the first does not fail |
| `Recorder.FailedBatchJoins` | chronicle/src/daemon.rs:402-412 | after a batch that fails, any next one goes on as if only what came before the failing item had been taken, exactly when the source or the reading failed |
| `Recorder.CaptureOnce` | chronicle/src/daemon.rs:396-413 | one round: the manager runs from the state of the last round and hands its own on, failed or not |
| `Recorder.CaptureAll` | chronicle/src/daemon.rs:138-180 | the rounds of the daemon carry the state on, and each ends with its own run's report or failure |
| `Recorder.DisplaysAreIndependent` | chronicle/src/recorder/manager.rs:74-86 | in every run the stored frames of one display are those its frames before the first failure, wherever that is, would leave alone |
| `Recorder.NoAdjacentDuplicates` | chronicle/src/recorder/manager.rs:74-88 | in every run no two frames stored in a row on a display have the same fingerprint, the carried one included, and the state is out of step with the last stored frame exactly when storing one failed |
| `Recorder.BatchesAlternate` | chronicle/src/daemon.rs:402-412 | over any number of batches the carried state stays in step exactly as long as storing a frame of the display never failed, and then no two stored in a row are alike across batches |
| `Recorder.NextBatchAlternates` | chronicle/src/daemon.rs:402-412 | whatever batch comes next, it goes on to hold exactly when it holds so far and the state is in step, or nothing can repeat the last stored frame |
| `Recorder.FailedStoreRepeats` | chronicle/src/recorder/manager.rs:84-88 | two batches that store one frame twice in a row |
| `Recorder.FramesAreAccountedFor` | chronicle/src/recorder/manager.rs:61-91 | observed frames are filtered, duplicate or persisted, save the one a run fails on; no private frame is persisted |
| `Recorder.FailedStoreIsNotRetried` | chronicle/src/recorder/manager.rs:84-88 | a frame whose storing failed is counted as a duplicate when it comes again |
| `Recorder.OtherFailuresLeaveTheState` | chronicle/src/recorder/manager.rs:63-71 | a run that fails on an item leaves the state as before that item exactly when the source or the reading failed |
| `Recorder.RecorderManager.RunUntilExhausted` | chronicle/src/recorder/manager.rs:60-92 | the loop is that run; an error ends it with the state it then has and drops the report |
| `ShutdownRegistry.StopOrderIs` | apps/server/src/runtime-resource-registry.ts:44-56 | every registered resource once, by phase, and within a phase in reverse order of registration |
| `ShutdownRegistry.RuntimeResourceRegistry.Shutdown` | apps/server/src/runtime-resource-registry.ts:35-42 | stops everything in that order, reports exactly the names whose stop rejects or throws, in order, and changes nothing when called again |
| `ShutdownRegistry.RuntimeResourceRegistry.RunShutdown` | apps/server/src/runtime-resource-registry.ts:44-60 | the two loops: a failing stop is noted and the rest still run |
| `ShutdownRegistry.RuntimeResourceRegistry.Register` | apps/server/src/runtime-resource-registry.ts:25-33 | refused during shutdown and for a name in use, added at the end otherwise |
| `ShutdownReentry.StoppedOnceWhenUndisturbed` | apps/server/src/runtime-resource-registry.ts:35-56 | every stop is called as often as runs were started, which is once exactly when no abort listener and no stop before the first `await` calls `shutdown` |
| `PendingCalls.SettledAtMostOnce` | apps/zhi-slack-bridge/src/pending-calls.ts:31-108 | in every run, with any reuse, no call is answered twice |
| `PendingCalls.StepAnswers` | apps/zhi-slack-bridge/src/pending-calls.ts:41-108 | an operation answers exactly the calls it is meant for, each with its own kind of ending and the reply's own text |
| `PendingCalls.AnswersHaveCauses` | apps/zhi-slack-bridge/src/pending-calls.ts:31-108 | over a run the answers are exactly those of its operations: a text comes only from a reply with that text, a timeout from an armed timer, a shutdown from cancelling |
| `PendingCalls.TimersStayArmed` | apps/zhi-slack-bridge/src/pending-calls.ts:38-46 | in every run each call that waits with a timeout has its own timer armed |
| `PendingCalls.FreshRunsAreGood` | apps/zhi-slack-bridge/src/pending-calls.ts:31-108 | the two maps mirror each other and every call is waiting or answered once at every point of a run exactly when its waits use ids and threads that are not in use |
| `PendingCalls.WaitMirrors` | apps/zhi-slack-bridge/src/pending-calls.ts:46-47 | a wait keeps the maps in step exactly when neither its id nor its thread is in use with another partner |
| `PendingCalls.WaitAccounted` | apps/zhi-slack-bridge/src/pending-calls.ts:38-49 | a wait forgets no call exactly when its id is not in use |
| `PendingCalls.ReplyReachesCall` | apps/zhi-slack-bridge/src/pending-calls.ts:80-87 | a reply in the thread of a waiting call answers it exactly when that thread stands for its id and the id is not empty, and otherwise leaves it waiting; while the maps mirror each other only an empty id is in the way |
| `PendingCalls.ThreadTakenOver` | apps/zhi-slack-bridge/src/pending-calls.ts:46-47 | two waits in one thread: the reply answers the second, and later replies there change nothing |
| `PendingCalls.UnaddressedForever` | apps/zhi-slack-bridge/src/pending-calls.ts:31-108 | no operation brings replies back to a call whose thread stands for another, short of waiting anew |
| `PendingCalls.StrandsExactly` | apps/zhi-slack-bridge/src/pending-calls.ts:31-108 | an operation leaves a call unanswered for good exactly when it takes the entry of a call without a timer: by a second wait under its id, or by the timer of an earlier call under its id |
| `PendingCalls.ReuseStrands` | apps/zhi-slack-bridge/src/pending-calls.ts:38-49 | a second wait under the same id strands the first call exactly when no timer is left for it |
| `PendingCalls.TimeoutStrandsSecond` | apps/zhi-slack-bridge/src/pending-calls.ts:41-44 | when that timer does go off it strands the second call exactly when this one has no timer |
| `PendingCalls.StrandedForever` | apps/zhi-slack-bridge/src/pending-calls.ts:51-108 | no later reply, timeout or shutdown reaches a stranded call |
| `PendingCalls.CancelAccounted` | apps/zhi-slack-bridge/src/pending-calls.ts:99-108 | cancelling answers every waiting call and disarms every timer |
| `PendingCalls.PendingCallManager.WaitForResponse` | apps/zhi-slack-bridge/src/pending-calls.ts:31-49 | a timeout that is not positive is refused; otherwise both maps and the timer are set |
| `PendingCalls.PendingCallManager.Resolve` | apps/zhi-slack-bridge/src/pending-calls.ts:63-74 | settles the call, clears its timer and forgets it, or changes nothing |
| `PendingCalls.PendingCallManager.ResolveByThread` | apps/zhi-slack-bridge/src/pending-calls.ts:80-87 | resolves the call of the thread and returns its id, or nothing when the thread has none or the id no longer waits |
| `PendingCalls.PendingCallManager.CancelEvery` | apps/zhi-slack-bridge/src/pending-calls.ts:99-108 | the loop rejects every waiting call, then both maps are cleared |
| `PendingCalls.PendingCallManager.TimeOut` | apps/zhi-slack-bridge/src/pending-calls.ts:41-44 | forgets whatever waits under the id and rejects its own promise |
| `PercentCoding.DecodeUndoesEncode` | chronicle/src/screen/inbox.rs:200-227 | decoding undoes encoding, for every byte string |
| `PercentCoding.EncodedIsCanonical` | chronicle/src/store/mod.rs:121-131 | an encoding holds only unreserved characters and upper-case triples for the others |
| `PercentCoding.TripleIs` | chronicle/src/store/mod.rs:127-128 | a triple is the percent sign and the two upper-case hexadecimal digits of the byte, the higher first |
| `PercentCoding.EncodeUndoesDecode` | chronicle/src/screen/inbox.rs:200-227 | encoding undoes decoding exactly on such strings |
| `PercentCoding.TextComesBack` | chronicle/src/screen/inbox.rs:200-227 | every text, encoded as a path segment and decoded, comes back |
| `PercentCoding.SegmentComesBack` | chronicle/src/screen/inbox.rs:200-218 | a text decoded and encoded comes back exactly when it is such a string and its triples spell UTF-8 |
| `PercentCoding.EncodePathSegment` | chronicle/src/store/mod.rs:121-131 | the loop over the bytes of a text computes that encoding |
| `PercentCoding.PercentDecode` | chronicle/src/screen/inbox.rs:200-218 | the index loop decodes triples and copies every other byte, and what is no UTF-8 then is replaced |

## Left out

- Floating point: samples, scores, energies and means are exact reals, and durations are exact quotients rounded
  down, as the casts do; rounding, NaN and infinities are not modelled.
- `Fft.FftRadix2`, `Fft.Permute`: frames of more than 2^32 samples, which are not brought into bit-reversed order
  (`Fft.ReversesExactly`).
- `Fft.FftRadix2`: the cosine and sine tables are any numbers that obey the laws of roots of unity; that the library's
  cosine and sine do is not part of this model.
- The mel filterbank, frame stacking, mean normalisation and the sherpa branches of the audio code.
- The neural networks, the subword tokenizer and optical character recognition: their answers are arguments, failures
  included.
- Unicode tables: `is_whitespace` and `is_alphanumeric` are arguments that agree on underscore, hyphen and on letters
  not being white space.
- `ByteFraming.FramesOfBytes`: only of chunks that together are the UTF-8 form of a text.
- `Framing.ReadEvents`: the times it takes and its complaint about a turn without text are not modelled.
- `SchemaMeaning.BothPassesKeepMeaning`: a union that a pass takes apart has nothing but annotations and `nullable`
  beside it and nothing but annotations beside its nulls and string constants, and a string constant has no enum that
  excludes it and no `nullable` mark; otherwise the passes drop or overwrite keywords that say something. Keywords that
  hold no schemas hold data with nothing to rewrite in it. `items` is one schema, not a list of them.
- The order of object keys: a record is a map, so the order in which children are visited and written is open.
- `WhenExpression.ActiveFollowsTree`: shortcuts and the default rule table are not modelled.
- `ChangePoint.BestChangePoint`, `ChangePoint.Pearson`: results before they are rounded for display.
- `TranscriptHandoff.ManifestsAreKept`: safety only; invalid manifests stay in front and can keep later ones waiting.
- `TranscriptHandoff.ProcessedIsRecorded`: what a crash of the process, a torn write or a failed rename can do. The code
  never syncs, so after a loss of power a rename can survive an append that did not; that is not modelled.
- Two processes writing the outbox or the inbox at once; delivery to the server, whose outcome the hand-off ignores.
- `Recorder.RunStores`: fingerprints are abstract values with equality; collisions of the hash are not modelled.
- `ShutdownReentry.StoppedOnceWhenUndisturbed`: each listener and each stop re-enters at most once; one that always
  does recurses without end.
- Machine integers: widths matter only in the bit reversal; elsewhere counts and sample positions are natural numbers,
  and subtractions that could wrap are shown not to.
- Cleanup of processed files, the bounded sample buffer, resampling and mixing, Slack message chunking, the benchmark's
  worker pool and the audio admission controller: they would add easier members of the same kinds.
- Chat runtime, relay, Fabric, HTTP routes, desktop and web user interface.
