# Verification models for multi-cloud

Dafny models of four parts of the repository and proofs of what they promise.

1. **The policy language** (`api/pkg/policy`). Rule texts such as `role:admin and not (rule:a or rule:b)`
   are tokenized, parsed by an eager shift-reduce parser whose table is looked up by string suffix in the
   random order of a Go map, turned into check objects that are changed in place while being built,
   printed, and evaluated against a rule map. `Grammar` says what the language is and means, without
   looking at the parser; `Reduction` is the parser as a function on stacks, proved to accept exactly that
   language with that meaning, late repair of `a or b and c` included; `Segments` and `Vocabulary` show
   that the string table is the token-level table; `CheckObjects`, `ParseStates` and `PolicyParser` are the
   Go objects and loops, proved to compute `Reduction`; `Tokenizer`, `RoundTrip`, `Printer` and `Normalize`
   go down to characters and back; `Reading` says what every word is read as and `Meaning` what every text means,
   without the parser; `Enforcement` and `Enforcers` evaluate, from the texts of a policy file to the answer.
2. **The migration job** (`datamover/pkg/drivers/https/migration.go`, `datamover/pkg/db/drivers/mongo`).
   `MigrationProtocol` is the channel protocol of spawner, movers and receiver over all interleavings;
   `MigrationData` says where the bytes are over all interleavings and failures, and `MoveObject` is the
   code of one mover with the others at work between its calls, every call a step of that model;
   `Multipart` is the range arithmetic; `JobRecord` is the stored record with its zero-skipping merge,
   `MigrationRun` is `runjob` with its accounting, `MigrationAccounts` shows that whole protocol runs
   deliver the reports `MigrationRun` starts from, and `MigrationJob` joins channels, data and accounting.
3. **The database lock** (`dataflow/pkg/db/drivers/mongo/mongo.go`, `dataflow/pkg/plan/plan.go`).
   `LeaseLock` is a step system of atomic database operations, crashes and time; `LockCall` is the code of
   `lock` and `unlock` with other processes running in between; `PlanRun` is its callers.
4. **Canonical encodings**: `QueryStrings`, `SignedHeaders` and `ReaderWrapper` for `api/pkg/utils/obs`
   (with `Ordering` for byte-wise sorting), `BlockIds` and `BlobDownload` for the Azure mover.

`Checks` is the tree of checks all policy modules share. `dafny verify dfyconfig.toml` checks everything.

## What is not as its documentation says

The models follow the code. Where code and comments disagree, or where a property one expects is false, the
table holds the exact condition or a run that shows the failure.

- The comment above `doMove` speaks of three routines; the channel holds `simuRoutines` (10) tokens and one
  more mover can run (`datamover/pkg/drivers/https/migration.go:72-79`): the capacity bounds the movers exactly
  for jobs of no more objects than that (`MigrationProtocol.BoundExactlyIf`). The spawner's last send can
  meet a closed channel (`MigrationProtocol.LateTokenExists`).
- The comment in `doMigration` takes a report of 0 for a failure; the code takes every `c >= 0` for a
  success (`datamover/pkg/drivers/https/migration.go:701-706`). Empty objects are never copied and yet deleted at the source
  (`datamover/pkg/drivers/https/migration.go:149`, `MigrationData.EmptyVanishes`).
- `moveObj` looks at the virtual bucket of the source when it builds the destination key
  (`datamover/pkg/drivers/https/migration.go:189`); objects can become unreadable (`MigrationData.NeverLostExactlyIf`).
- A failed multipart upload is aborted under the key without the virtual bucket (`datamover/pkg/drivers/https/migration.go:354,366`):
  the abort ends the upload exactly if the destination is no virtual bucket and the service does not refuse. After a
  failed download of a later part nothing is aborted at all (`MoveObject.MultipartMoveObj`).
- `DownloadObj` of the Azure mover can read nothing for ever, exactly if the blob is longer than the buffer
  (`datamover/pkg/azure/blob/blobmover.go:83-93`, `BlobDownload.HangsExactlyIf`).
- A rule map with a cycle can keep an evaluation from ending (`api/pkg/policy/checks.go:209-217`). It does so exactly if the evaluation
  does not end with as many nested references as there are rules (`Enforcement.EndsExactlyIf`).
- `Run` in `plan.go` asks for the lock four times and examines three answers (`dataflow/pkg/plan/plan.go:298-310`,
  `PlanRun.Run`); four errors in a row take it to the insertion without the lock (`PlanRun.ErrorsOnly`). It returns nil
  even if the job was not inserted (`dataflow/pkg/plan/plan.go:343-369`). `lock` removes an expired lock by name, not by owner, and inserts its own with the time
  it took before its first attempt (`dataflow/pkg/db/drivers/mongo/mongo.go:143` and `:162`, `LeaseLock.StolenByTwo`); exclusion holds exactly in the runs in
  which no such removal hits a live holder (`LeaseLock.ExclusionExactlyIf`).
- A printed rule need not parse to itself again: an atom enclosed in quotes is a check only in front of a
  parenthesis (`api/pkg/policy/parser.go:75-80`, `RoundTrip.ParsePrint`).
- `parseRule` panics on a text that is a single keyword, parenthesis or quoted string
  (`api/pkg/policy/parser.go:101`, `Reduction.RejectedMeaning`).

## Model

| member | source | states |
|---|---|---|
| `Reduction.AcceptsExactlyTheLanguage` | api/pkg/policy/parser.go:106-156 | for every token list: shifting it leaves one check, and_expr or or_expr if and only if it derives from the grammar |
| `Reduction.ParsedMeaning` | api/pkg/policy/parser.go:91-203 | the check built for any derivation evaluates, under every valuation, to the grammar's meaning, not before and before or |
| `Reduction.MeaningIsUnique` | api/pkg/policy/parser.go:106-117 | two derivations of the same tokens mean the same |
| `Reduction.RejectedMeaning` | api/pkg/policy/parser.go:100-104 | the final cast fails exactly on one lone token that is no check; every other list outside the language denies |
| `Reduction.NotComplete` | api/pkg/policy/parser.go:130-149 | on any stack the tokens of a `not`, atom or parenthesised phrase act as the single check they denote |
| `Reduction.RepairComplete` | api/pkg/policy/parser.go:169-181 | a conjunction behind a pending `or` ends as the last disjunct although the `or` was reduced too early |
| `Reduction.OrComplete` | api/pkg/policy/parser.go:130-149 | a whole expression leaves exactly its own symbol on any stack where an expression may start |
| `Reduction.StepSound` | api/pkg/policy/parser.go:106-117 | every table entry keeps the invariant that stack entries spell phrases whose concatenation is the input |
| `Reduction.ShiftAllSound` | api/pkg/policy/parser.go:130-149 | the invariant holds after any token list, accepted or not |
| `Reduction.EvalMix` | api/pkg/policy/parser.go:169-181 | the repaired disjunct is the conjunction of the popped disjunct and the new operand |
| `Reduction.MeaningOfOr` | api/pkg/policy/parser.go:158-203 | the tree built along a derivation has the derivation's meaning |
| `Segments.SuffixIsListSuffix` | api/pkg/policy/parser.go:131-133 | comparing comma-joined strings by suffix is comparing the lists, when no segment is a proper suffix of another |
| `Vocabulary.NamesAreSuffixFree` | api/pkg/policy/parser.go:49-89 | no token name of the parser is a proper suffix of another one |
| `Vocabulary.MatchesIsTokenSuffix` | api/pkg/policy/parser.go:131-133 | HasSuffix on the token string holds exactly if the key's tokens are on top of the stack |
| `Vocabulary.ArgumentCount` | api/pkg/policy/parser.go:134 | counting commas gives the number of stack entries the key stands for |
| `Vocabulary.AtMostOneKey` | api/pkg/policy/parser.go:106-117 | no stack matches two of the ten keys |
| `Vocabulary.TableIsStep` | api/pkg/policy/parser.go:106-143 | a key matches exactly the stacks the token-level step reduces with that entry |
| `CheckObjects.CheckList.AddCheck` | api/pkg/policy/checks.go:149-152 | appending in place turns the stored tree into the one with the new last child; the object keeps its own parts |
| `CheckObjects.CheckList.PopCheck` | api/pkg/policy/checks.go:190-194 | removing the last child returns it with exclusive ownership of its objects |
| `CheckObjects.NewList` | api/pkg/policy/checks.go:118-123 | a new conjunction or disjunction holds the two operands in order |
| `ParseStates.MixOrAndExpr` | api/pkg/policy/parser.go:169-181 | the in-place repair stores the repaired tree whether or not the popped disjunct is a conjunction |
| `ParseStates.ExtendExpr` | api/pkg/policy/parser.go:183-199 | the operand becomes the last child of the same object |
| `ParseStates.Call` | api/pkg/policy/parser.go:158-203 | every type assertion succeeds and the returned token and value are the symbol the grammar-level step puts on the stack |
| `ParseStates.ParseState.Apply` | api/pkg/policy/parser.go:134-139 | one firing replaces the popped slots by one, keeps both slices equally long and no two slots share a check object |
| `ParseStates.ParseState.Reduce` | api/pkg/policy/parser.go:130-143 | for every iteration order, with the stale token string, the stack ends as the deterministic reduction of the old one |
| `ParseStates.FiresOnce` | api/pkg/policy/parser.go:131-141 | a key that matches the stale string is the only one of the whole walk |
| `ParseStates.ParseState.Shift` | api/pkg/policy/parser.go:145-149 | shifting keeps the state valid and the stack is the shifted one of the pure parser |
| `ParseStates.ParseState.Result` | api/pkg/policy/parser.go:151-156 | there is a result exactly if one entry is left, and it is that entry |
| `PolicyParser.ShiftTokens` | api/pkg/policy/parser.go:95-99 | after all tokens the heap stack stands for the pure stack |
| `PolicyParser.ParseRule` | api/pkg/policy/parser.go:91-104 | the objects built for any text store a tree that is true exactly where the text means so by its grammar: always for the empty text, never for white space or a text without derivation, as `MeaningOr` says for every derivation; it panics exactly on a lone token that is no check |
| `Meaning.TextMeans` | api/pkg/policy/parser.go:91-104 | parsing a text and evaluating the tree gives, under every valuation, what the text means by the grammar alone |
| `Meaning.MeansDerivation` | api/pkg/policy/parser.go:91-104 | that meaning is the same for every derivation of the text, and a text with a derivation never panics |
| `Meaning.BlankMeans` | api/pkg/policy/parser.go:91-95 | a text of white space only denies, unlike the empty text |
| `Reading.WordReads` | api/pkg/policy/parser.go:49-89 | every word, with any parentheses around it, is read as one token: a keyword in any mixture of cases, else a string if it is quoted and no parenthesis follows, else the check it denotes |
| `Reading.ParensRead` | api/pkg/policy/parser.go:56-64 | a word of parentheses only is read as these parentheses |
| `Reading.LowerExactly` | api/pkg/policy/parser.go:71-73 | a word is a keyword exactly if every letter of it is that of the keyword in lower or upper case |
| `Reading.ParseCheckDenotes` | api/pkg/policy/parser.go:28-47 | "@" is true, any other text without a colon is false, and the kind in front of the first colon selects the check of the rest |
| `Tokenizer.ParseTokenize` | api/pkg/policy/parser.go:49-89 | the loops yield, word by word, opening parentheses, the core token and closing parentheses |
| `Tokenizer.TrimLeft` | api/pkg/policy/parser.go:56 | exactly the leading parentheses are removed |
| `Tokenizer.TrimRight` | api/pkg/policy/parser.go:68 | exactly the trailing parentheses are removed |
| `Tokenizer.Colon` | api/pkg/policy/parser.go:35 | the split is at the first colon |
| `RoundTrip.TokenizeSplit` | api/pkg/policy/parser.go:51 | tokens of texts joined by white space are the tokens of both, whatever stands next to it |
| `RoundTrip.MiddleOfCheck` | api/pkg/policy/parser.go:72-81 | a text with a colon is one check token if it is not enclosed in quotes or a parenthesis follows |
| `RoundTrip.PrintExactly` | api/pkg/policy/checks.go:69-276 | the printed text, literally: the constants, "not ", and parentheses with the keyword between any two children |
| `RoundTrip.PrintTokens` | api/pkg/policy/checks.go:69-276 | for every printable tree, the printed text inside any parentheses is read as the spelled tokens of the tree, a quoted atom being a string unless a parenthesis follows |
| `RoundTrip.TreeOfNotOf` | api/pkg/policy/parser.go:158-203 | the parser rebuilds from that derivation the very same tree |
| `RoundTrip.ShownSpells` | api/pkg/policy/checks.go:69-276 | a tree without misread atoms is read as its derivation |
| `RoundTrip.UnshownIsQuoted` | api/pkg/policy/parser.go:75-80 | any other tree is read with a string token in it |
| `RoundTrip.ParsePrint` | api/pkg/policy/checks.go:69-276 | parsing the printed text of a tree gives the tree back, node for node, if and only if every quoted atom ends the last child of an and/or node; of the others a lone atom panics and the rest deny |
| `RoundTrip.PrintInjective` | api/pkg/policy/checks.go:69-276 | no other printable tree has the text of a tree that round-trips |
| `RoundTrip.LoneAtomRoundTrip` | api/pkg/policy/parser.go:75-80 | an atom alone survives exactly if its text is not enclosed in matching quotes; otherwise the cast panics |
| `Normalize.ParsedIsPrintable` | api/pkg/policy/parser.go:158-203 | and/or nodes of every parsed tree have at least two children |
| `Normalize.RuleIsPrintable` | api/pkg/policy/parser.go:91-104 | every text that parses gives a printable tree |
| `Normalize.ReparsePrinted` | api/pkg/policy/parser.go:91-104 | for every text that parses: printing its tree and parsing that changes nothing if and only if no atom of the tree is misread where it is printed |
| `Normalize.QuotedAtomIsLost` | api/pkg/policy/parser.go:75-80 | one failing family: a quoted atom in parentheses parses, and its printed text makes the cast panic |
| `Printer.PrintObject` | api/pkg/policy/checks.go:107-276 | the text depends only on the tree the objects store |
| `Printer.PrintChildren` | api/pkg/policy/checks.go:129-171 | the loop over the children prints them in order with the separator |
| `Enforcement.ExecMeetsModel` | api/pkg/policy/checks.go:111-217 | short-circuit evaluation over an acyclic closed rule map ends within its rank and equals the value in every solution of the rules read as equations |
| `Enforcement.ModelExists` | api/pkg/policy/checks.go:209-217 | such a solution exists |
| `Enforcement.AnswerIsSound` | api/pkg/policy/checks.go:111-217 | whenever an evaluation answers, whatever the rule map and its cycles and gaps, the answer is the value in every solution of the rules read as equations |
| `Enforcement.EmptyRules` | api/pkg/policy/checks.go:209-217 | with no rules loaded every evaluation answers, and references are false |
| `Enforcement.FirstDecides` | api/pkg/policy/checks.go:137-183 | the first child that is not passed over decides, with its error or endless evaluation too, and those behind it do not matter |
| `Enforcement.EnoughDepth` | api/pkg/policy/checks.go:209-217 | more stack never changes an evaluation that has ended |
| `Enforcement.Deeper` | api/pkg/policy/checks.go:137-217 | a check that ends with some nesting of references and not with less refers to a rule that needs exactly one less |
| `Enforcement.NeedIsBounded` | api/pkg/policy/checks.go:209-217 | no evaluation that ends needs more nested references than the map has rules |
| `Enforcement.EndsExactlyIf` | api/pkg/policy/checks.go:209-217 | for every rule map, cyclic or not: evaluation ends if and only if it ends with as many nested references as there are rules, and no larger stack changes the outcome, so this depth tells answers, nil checks and endless evaluations apart |
| `Enforcement.RankedAnswers` | api/pkg/policy/checks.go:111-217 | over an acyclic closed rule map it answers within that depth, with the value in every solution |
| `Enforcement.CycleNeverEnds` | api/pkg/policy/checks.go:209-217 | rules of which each first meets a reference to one of them never end, whatever the length of the cycle |
| `Enforcement.ExecIsLocal` | api/pkg/policy/checks.go:209-217 | evaluation, its panics and its loops depend only on the rules reachable from the check |
| `Enforcement.UpdateIsLocal` | api/pkg/policy/policy.go:114-121 | an update that leaves every rule reachable from a name as it is does not change the evaluation of its rule |
| `Enforcement.NilCheckIsMissing` | api/pkg/policy/checks.go:209-217 | a nil check is called only if the map is not empty and a name reachable from the check is not defined, whatever else the map holds |
| `Enforcement.NoNilCheck` | api/pkg/policy/checks.go:209-217 | with every reachable reference defined, no evaluation calls a nil check |
| `Enforcement.SelfReference` | api/pkg/policy/checks.go:209-217 | the shortest cycle: a rule that is a reference to itself exhausts every stack |
| `Enforcers.ExecObject` | api/pkg/policy/checks.go:73-217 | evaluation of the objects is evaluation of the trees they store |
| `Enforcers.ExecList` | api/pkg/policy/checks.go:137-183 | the loops stop at the first decisive child, its error included |
| `Enforcers.Enforcer.UpdateRules` | api/pkg/policy/policy.go:114-121 | the rule map becomes the old one overwritten by the update, in any order, and stays backed by its own objects |
| `Enforcers.Enforcer.Enforce` | api/pkg/policy/policy.go:75-80 | an error exactly for a missing name; otherwise the evaluation of the stored tree: an answer is its value in every solution of the rules, ranked references always answer, a nil check needs a reachable gap, and with stack for one reference per rule only what never ends is cut off |
| `Enforcers.DefaultsFillGaps` | api/pkg/policy/policy.go:164-172 | defaults never override the file, every default name is defined, and nothing else is |
| `Enforcers.FirstDefaultWins` | api/pkg/policy/policy.go:164-172 | of several defaults of one name the first one is defined |
| `Enforcers.Load` | api/pkg/policy/policy.go:157-181 | all texts, defaults included, are parsed under their names in any order; it panics exactly if one of them does |
| `Enforcers.LoadAndEnforce` | api/pkg/policy/policy.go:75-80 | from the texts of a policy file to the answer: it is the meaning of the text of the rule, for every derivation of it and in every solution of the texts read as equations; loading panics exactly if a text does |
| `MigrationProtocol.InvStep` | datamover/pkg/drivers/https/migration.go:70-82 | every event keeps: tokens sent plus taken match the spawns, reports match the movers that reported, capacity matches the successes |
| `MigrationProtocol.ConcurrencyBound` | datamover/pkg/drivers/https/migration.go:70-82 | in every interleaving at most capacity plus one movers have not taken their token, until the channels close |
| `MigrationProtocol.BoundIsReached` | datamover/pkg/drivers/https/migration.go:77-79 | every number of movers up to that of the objects and up to capacity plus one works at the same time in some run |
| `MigrationProtocol.BoundExactlyIf` | datamover/pkg/drivers/https/migration.go:70-82 | a number bounds the movers in flight in all runs if and only if it is at least the number of objects or at least capacity plus one; the capacity itself exactly if there are no more objects than that |
| `MigrationProtocol.NotStuck` | datamover/pkg/drivers/https/migration.go:698-730 | no reachable state before the last report is stuck |
| `MigrationProtocol.MeasureStep` | datamover/pkg/drivers/https/migration.go:678-730 | every event strictly decreases a measure, whatever the scheduler does |
| `MigrationProtocol.RunLength` | datamover/pkg/drivers/https/migration.go:678-730 | no run has more than five events per object, plus the close |
| `MigrationProtocol.MaximalRunsClose` | datamover/pkg/drivers/https/migration.go:724-729 | a run that cannot continue has received all reports and closed the channels |
| `MigrationProtocol.EveryObjectReportsOnce` | datamover/pkg/drivers/https/migration.go:499-508 | at the close every object has reported exactly once, its size or -1, and capacity is the sum over the successes |
| `MigrationProtocol.OnlyTheLastTokenIsLate` | datamover/pkg/drivers/https/migration.go:77-79 | at the close every mover has been spawned, so at most one token is unsent |
| `MigrationProtocol.LateTokenExists` | datamover/pkg/drivers/https/migration.go:77-79 | for every non-empty job, a run in which that token is still unsent when the channel closes |
| `MigrationAccounts.RunsAreConsistent` | datamover/pkg/drivers/https/migration.go:698-730 | the reports of every complete run are one per object, never above the total, and equal to it if all succeed |
| `MigrationJob.InvStep` | datamover/pkg/drivers/https/migration.go:441-509 | in the joint system of channels and data, every number a mover reports agrees with what became of its object |
| `MigrationJob.ReportIsTrue` | datamover/pkg/drivers/https/migration.go:698-706 | a reported size means the object is readable at the destination, a reported -1 that it is still at its source |
| `MigrationJob.DoMigration` | datamover/pkg/drivers/https/migration.go:678-742 | after any complete run: nil means that every non-empty agreeing object is readable at the destination, an error that some failed object is still at its source |
| `MigrationJob.MeasureStep` | datamover/pkg/drivers/https/migration.go:441-509 | every event of channels or backends strictly decreases a joint measure |
| `MigrationJob.RunLength` | datamover/pkg/drivers/https/migration.go:441-509 | no run of the joint system has more than eight events per object, plus the close |
| `MigrationJob.NotStuck` | datamover/pkg/drivers/https/migration.go:441-509 | until the close some event is enabled in every state of the joint system: a mover that moves can finish or a call of it can fail |
| `MigrationJob.MaximalRunsClose` | datamover/pkg/drivers/https/migration.go:678-730 | so every run that cannot continue has closed the channels, and `MigrationJob.DoMigration` speaks of it |
| `MigrationJob.RunJob` | datamover/pkg/drivers/https/migration.go:913-957 | whatever fails and whatever writes are lost: a stored record that says succeed means that every non-empty agreeing object is readable at the destination; one that says failed after the movers were started, that a failed object is still at its source |
| `MigrationData.DirectKeyIsStored` | datamover/pkg/drivers/https/migration.go:188-191 | the small-object upload key is the key readers use exactly if both sides or neither are virtual buckets |
| `MigrationData.StoredKeyIsPlain` | datamover/pkg/drivers/https/migration.go:302-309 | the key the upload is begun under is the key it is aborted under exactly if the destination is no virtual bucket |
| `MigrationData.ReaderAddrIsUnique` | datamover/pkg/drivers/https/migration.go:156-159 | on either side, objects of different virtual buckets or keys have different addresses, if virtual buckets and the keys of plain ones hold no "/" |
| `MigrationData.UploadsWhereRead` | datamover/pkg/drivers/https/migration.go:146-217 | an object is uploaded where readers look exactly if it is large or its two sides are of the same kind |
| `MigrationData.SafeStep` | datamover/pkg/drivers/https/migration.go:441-509 | every step of any mover, failures included, keeps every object's bytes where its phase says |
| `MigrationData.NoDataLoss` | datamover/pkg/drivers/https/migration.go:441-509 | over whole runs a non-empty object is at its source or readable at the destination; a source goes only after a successful copy and only if it is not kept |
| `MigrationData.NeverLostExactlyIf` | datamover/pkg/drivers/https/migration.go:146-217 | an object is safe in every run if and only if the source is kept, or it is not empty and is large or has two sides of the same kind |
| `MigrationData.LostBetweenKinds` | datamover/pkg/drivers/https/migration.go:188-191 | otherwise the run without failures deletes the source and leaves nothing where readers look |
| `MigrationData.EmptyVanishes` | datamover/pkg/drivers/https/migration.go:149-151 | an empty object is deleted without a copy |
| `MoveObject.OthersKeep` | datamover/pkg/drivers/https/migration.go:441-509 | other movers, whatever they do, leave the phase of an object alone and, with separate keys, the bytes at its source and upload place |
| `MoveObject.MoveObj` | datamover/pkg/drivers/https/migration.go:146-217 | with other movers between any two calls, the bytes are downloaded from where readers of the source look, and every path extends the interleaved run; it succeeds exactly if no call fails, after a skip or a download and an upload |
| `MoveObject.MoveParts` | datamover/pkg/drivers/https/migration.go:316-361 | with other movers before every part, the parts hold the bytes the source had at the start |
| `MoveObject.MultipartMoveObj` | datamover/pkg/drivers/https/migration.go:294-373 | the outcome is the failure of the one call that failed, if any; success: every range requested once, parts numbered from 1, destination equal to the source; failure: destination untouched; the upload is left running exactly after a failed download of a later part, and after a failed part or completion if the destination is a virtual bucket or the abort is refused |
| `MoveObject.Move` | datamover/pkg/drivers/https/migration.go:441-509 | the object fails exactly if its location or a call fails, and then -1 is reported; after a success that does not keep the source, and only then, it is deleted where its readers look |
| `MoveObject.SuccessIsReadable` | datamover/pkg/drivers/https/migration.go:441-509 | whatever others have done meanwhile, an object reported as moved is readable at the destination |
| `Multipart.PartCountBounds` | datamover/pkg/drivers/https/migration.go:295-298 | quotient and remainder give the ceiling |
| `Multipart.RangesPartition` | datamover/pkg/drivers/https/migration.go:315-327 | the ranges cover the object in order without gap or overlap, each of 1 to PART_SIZE bytes |
| `Multipart.AssembledAll` | datamover/pkg/drivers/https/migration.go:352-363 | parts holding those ranges assemble to the object |
| `Multipart.MovePart` | datamover/pkg/drivers/https/migration.go:316-359 | one round downloads the next range into the buffer of the loop and uploads it as the next part, or stops; the upload begun in the first round is aborted after a failed part only, under the object key |
| `JobRecord.MergeIsOverwrite` | datamover/pkg/db/drivers/mongo/mongo.go:82-108 | the zero-skipping merge is an overwrite exactly if no stored field would return to zero |
| `JobRecord.MergeIsMonoid` | datamover/pkg/db/drivers/mongo/mongo.go:82-108 | an empty job changes nothing, an empty record is overwritten, and successive merges are one merge of what they amount to |
| `JobRecord.MergeRefinesOverwrite` | datamover/pkg/db/drivers/mongo/mongo.go:69-118 | under any pattern of lost writes the record equals the last version taken |
| `JobRecord.HistoryAdvances` | datamover/pkg/drivers/https/migration.go:626-676 | of any two stored versions the later is ahead: status order, growing progress, a terminal status for good, EndTime exactly in terminal statuses |
| `JobRecord.JobStore.MergeInto` | datamover/pkg/db/drivers/mongo/mongo.go:82-108 | the assignments together are the merge, and overwrite the record if no field it has set is zero in the job |
| `JobRecord.JobStore.UpdateJob` | datamover/pkg/db/drivers/mongo/mongo.go:69-118 | a success makes the record equal to the job and extends its advancing history by it; an error does so too or changes nothing |
| `MigrationRun.PassedAll` | datamover/pkg/drivers/https/migration.go:702-706 | all reports passed exactly if none is negative |
| `MigrationRun.PercentBounds` | datamover/pkg/drivers/https/migration.go:713 | progress lies between 0 and 100, grows with the capacity and is 100 at the total |
| `MigrationRun.PercentIsFloor` | datamover/pkg/drivers/https/migration.go:713 | progress times total is at most 100 times the capacity, and one per cent more is not |
| `MigrationRun.PassedCounts` | datamover/pkg/drivers/https/migration.go:702-706 | the passed count is the number of reports that are no failure |
| `MigrationRun.DecimalReads` | datamover/pkg/drivers/https/migration.go:734-736 | the numbers in the error text read as the counts, without leading zeros |
| `MigrationRun.WritesAreFew` | datamover/pkg/drivers/https/migration.go:708-716 | every report of a small job is written, a large job is written at most eleven times, the last report always |
| `MigrationRun.UpdateJob` | datamover/pkg/drivers/https/migration.go:744-763 | status, end time and step are set; nothing but this version is written, in at most three attempts; the record is the job unless all three reported an error |
| `MigrationRun.DoMigration` | datamover/pkg/drivers/https/migration.go:678-742 | nil exactly if all objects succeeded, then progress is 100; the job and every version written after some report count the successes so far, sum up their sizes, and show the largest whole percentage reached; written as often as the schedule says |
| `MigrationRun.PrepareForRun` | datamover/pkg/drivers/https/migration.go:626-676 | fails exactly if a location or the listing fails; totals are the sums; an empty job is finished at once |
| `MigrationRun.RunJob` | datamover/pkg/drivers/https/migration.go:913-957 | whatever writes fail: the job ends terminal with its end time, succeeds exactly if preparation and all objects did; the record only ever advances and is the final job unless its last three writes (one before a migration) were all lost; the step texts are those of the code, with the numbers of objects in decimal |
| `LeaseLock.AtMostOneDocument` | dataflow/pkg/db/drivers/mongo/mongo.go:87 | in every interleaving at most one lock document per name |
| `LeaseLock.OwnedStep` | dataflow/pkg/db/drivers/mongo/mongo.go:141-190 | every enabled step but a removal that hits a live holder keeps: every holder owns the document of its name |
| `LeaseLock.BadStealIsFatal` | dataflow/pkg/db/drivers/mongo/mongo.go:157-165 | after a removal that hits a live holder, the second insert can succeed and then two processes hold the lock |
| `LeaseLock.ExclusionExactlyIf` | dataflow/pkg/db/drivers/mongo/mongo.go:141-190 | for every interleaving: all its states exclude, and still do one second insert later, if and only if no removal of the run hits a live holder |
| `LeaseLock.UnlockRemovesOwn` | dataflow/pkg/db/drivers/mongo/mongo.go:180-190 | in such runs a holder removes its own document at the end of its section |
| `LeaseLock.InvStep` | dataflow/pkg/db/drivers/mongo/mongo.go:141-190 | every disciplined step keeps: holders own the document of their name, and what is being removed is held by nobody |
| `LeaseLock.DisciplinedExclusion` | dataflow/pkg/db/drivers/mongo/mongo.go:141-190 | if holders seen as expired are gone and at most one process is in the expiry branch of a name, no removal hits a live holder, so the lock excludes |
| `LeaseLock.NoExpiryExclusion` | dataflow/pkg/db/drivers/mongo/mongo.go:141-190 | without expiry no removal hits a live holder, so the lock excludes unconditionally |
| `LeaseLock.PromptExclusion` | dataflow/pkg/db/drivers/mongo/mongo.go:154-157 | holders that finish within the lease are never seen as expired, so the first hypothesis follows |
| `LeaseLock.StolenFromSlowHolder` | dataflow/pkg/db/drivers/mongo/mongo.go:157-165 | a run with two holders after a slow one |
| `LeaseLock.StolenByTwo` | dataflow/pkg/db/drivers/mongo/mongo.go:180-184 | a run with two live holders within their lease, because two stealers remove by name |
| `LockCall.Database.Lock` | dataflow/pkg/db/drivers/mongo/mongo.go:141-178 | for any schedule of the other processes: success exactly if the caller now holds the lock with the stamp of its first attempt; busy only with a document not older than the lease; an error only after an operation that failed or a step of another process; and without these it succeeds exactly if the name was free or its document older than the lease |
| `LockCall.Database.Find` | dataflow/pkg/db/drivers/mongo/mongo.go:150-172 | the look fails exactly if the database does or there is no document; otherwise expired is the answer exactly if the age of the document is above the lease |
| `LockCall.Database.Insert` | dataflow/pkg/db/drivers/mongo/mongo.go:141-146 | an insertion is refused only by a failure or a taken name, and a success stores the document with the stamp |
| `LockCall.Database.Unlock` | dataflow/pkg/db/drivers/mongo/mongo.go:180-190 | a success has removed a document of the name by this process and leaves none of the name, an error comes only from a failure or a free name; the caller leaves the section, or in the expiry branch goes on exactly after a removal |
| `PlanRun.AskForLock` | dataflow/pkg/plan/plan.go:298-310 | four answers are asked for, three examined; the unlock is deferred exactly if a success is among those |
| `PlanRun.Run` | dataflow/pkg/plan/plan.go:289-369 | a job is inserted by a holder except after three database errors and no fourth success; nil is returned whether or not the insertion was taken, and the job is sent on exactly if it was reported as done; the lock is given up except after a fourth success, and giving it up removes the document unless the database fails |
| `PlanRun.ErrorsOnly` | dataflow/pkg/db/drivers/mongo/mongo.go:141-178 | from every state, whoever holds the lock, any number of calls of lock can answer with a database error in a row and leave the state as it was |
| `PlanRun.InsertsAlone` | dataflow/pkg/plan/plan.go:289-369 | while a holder inserts its job nobody else is inside the section of the plan, if no removal so far has hit a live holder |
| `PlanRun.InsertsAloneWithoutExpiry` | dataflow/pkg/plan/plan.go:289-369 | the same in every run in which no lock expires |
| `PlanRun.WithManagerLock` | dataflow/pkg/db/drivers/mongo/mongo.go:225-237 | the operation is entered exactly with the lock, never left with it, and leaving removes the document unless the database fails |
| `QueryStrings.UnescapeEscape` | api/pkg/utils/obs/conf.go:317-327 | percent-encoding with "+" for a space round-trips for every byte string (sections 2.1 and 2.3 of RFC 3986) |
| `QueryStrings.EscapeIsSafe` | api/pkg/utils/obs/conf.go:317-327 | escaped text holds no separator |
| `QueryStrings.EscapeExactly` | api/pkg/utils/obs/conf.go:317-327 | byte by byte: letters, digits and four marks stay, a space becomes "+", all others two upper-case digits behind "%" |
| `QueryStrings.HexValueExactly` | api/pkg/utils/obs/util.go:210-222 | digits are read in both cases, and nothing else is |
| `QueryStrings.MalformedExactly` | api/pkg/utils/obs/util.go:210-222 | decoding fails exactly at a "%" without two digits behind it |
| `QueryStrings.SplitGlue` | api/pkg/utils/obs/util.go:206-222 | splitting inverts joining when no piece holds the separator |
| `QueryStrings.SplitExactly` | api/pkg/utils/obs/util.go:206-222 | the pieces hold no separator, are one more than separators, and joined give the text back |
| `QueryStrings.PieceRoundTrip` | api/pkg/utils/obs/util.go:210-224 | one parameter round-trips, in the v2 form without "=" too |
| `QueryStrings.ReadsWhatWasWritten` | api/pkg/utils/obs/util.go:200-225 | parsing a query gives exactly the entries written into it |
| `QueryStrings.QueryRoundTrip` | api/pkg/utils/obs/conf.go:305-345 | parsing the built query gives the parameter map back if and only if the map is not empty and its keys are trimmed |
| `QueryStrings.EmptyQuery` | api/pkg/utils/obs/util.go:200-225 | the empty query parses to one empty parameter |
| `QueryStrings.QueryIsCanonical` | api/pkg/utils/obs/conf.go:305-309 | every order of the map leads to the same keys, so rebuilding gives the same string |
| `QueryStrings.FormatQuery` | api/pkg/utils/obs/conf.go:305-345 | the request query reads as one row per sorted, trimmed key, with "=" for v4 or a value; for v2 the covered text reads as one row per covered key with its raw value, v4 covers nothing |
| `QueryStrings.ResourcesExactly` | api/pkg/utils/obs/conf.go:334-342 | the covered keys are the resource parameters among the written ones, each as often and in the same order |
| `QueryStrings.CanonicalIsQuery` | api/pkg/utils/obs/conf.go:324-345 | what the v2 signature covers is the query over the same keys exactly if none of their values needs escaping |
| `QueryStrings.ParseQuery` | api/pkg/utils/obs/util.go:200-225 | for any text: the parameters between the "&", behind a leading "?", the last one for every key and nothing else |
| `QueryStrings.ManyEquals` | api/pkg/utils/obs/util.go:210-222 | in a parameter with any number of "=" the key ends at the first one and the rest is the value, decoded as a whole if all parts are well formed |
| `QueryStrings.LastEntryWins` | api/pkg/utils/obs/util.go:210-224 | of several parameters with one key the last one counts |
| `SignedHeaders.SigningIsCanonical` | api/pkg/utils/obs/auth.go:234-290 | the signed names never depend on the map order and hold each name once exactly if no two headers clash |
| `SignedHeaders.OneRequestExactlyIf` | api/pkg/utils/obs/auth.go:234-290 | all walks of the map give the same canonical request if and only if headers of the same normalised name have the same lines |
| `SignedHeaders.RequestIsLines` | api/pkg/utils/obs/auth.go:234-258 | for fixed names, two canonical requests are equal exactly if their header lines are |
| `SignedHeaders.NamesOnce` | api/pkg/utils/obs/auth.go:275-287 | names are distinct exactly if no two headers have the same normalised name |
| `SignedHeaders.WalksAgree` | api/pkg/utils/obs/auth.go:275-290 | if clashing headers have the same values, the renamed map does not depend on the order |
| `SignedHeaders.ClashDependsOnOrder` | api/pkg/utils/obs/auth.go:279-286 | if they have not, two orders give different maps |
| `SignedHeaders.GetSignedHeaders` | api/pkg/utils/obs/auth.go:275-290 | sorted names of some walk of the map, the renamed map of that walk, and the caller's map without the nameless headers |
| `SignedHeaders.BuildCanonicalRequest` | api/pkg/utils/obs/auth.go:234-258 | the request is read back row by row: method, URL and query, one "name:value" line per value of each name in order, an empty row, the names between ";", and the payload |
| `Ordering.SortedIsUnique` | api/pkg/utils/obs/auth.go:288 | a sorted list is determined by its elements |
| `Ordering.LessEqExactly` | api/pkg/utils/obs/auth.go:288 | the order of sorting: a prefix comes first, otherwise the first different byte decides |
| `Ordering.Sort` | api/pkg/utils/obs/conf.go:309 | sorted and a permutation |
| `ReaderWrapper.Wrapper.Read` | api/pkg/utils/obs/trait.go:587-603 | for any sequence of calls the output is a prefix of the stream, at most totalCount long, nothing below the limit is withheld, and EOF from the limit on |
| `BlockIds.DecodeEncode` | datamover/pkg/azure/blob/blobmover.go:214-219 | base64 decoding inverts encoding for every byte string (section 4 of RFC 4648) |
| `BlockIds.CodesLength` | datamover/pkg/azure/blob/blobmover.go:214-216 | the encoded length is a function of the byte length |
| `BlockIds.CodesAreBits` | datamover/pkg/azure/blob/blobmover.go:214-216 | every three bytes are four codes of six bits from the highest down, with padding for a group that is not complete |
| `BlockIds.DigitExactly` | datamover/pkg/azure/blob/blobmover.go:214-216 | the codes are written in the standard alphabet, and no other character is read |
| `BlockIds.LowBytesAt` | datamover/pkg/azure/blob/blobmover.go:208-212 | the id holds the bytes of the number, the lowest first |
| `BlockIds.IdRoundTrip` | datamover/pkg/azure/blob/blobmover.go:208-221 | every int64 comes back from its id, and all ids have length 12 |
| `BlockIds.IdsAreDistinct` | datamover/pkg/azure/blob/blobmover.go:208-212 | different part numbers have different ids |
| `BlockIds.StagingKeeps` | datamover/pkg/azure/blob/blobmover.go:223-249 | staging a block keeps those of the parts uploaded before exactly if the parts of the same number are equal to it |
| `BlockIds.BlobMover.UploadPart` | datamover/pkg/azure/blob/blobmover.go:223-249 | for any part number: success stages the part under its id and lists it last, failure comes exactly after three errors; the staged blocks are those of the uploaded parts exactly if all parts uploaded under this number are equal, always so for a new number |
| `BlockIds.BlobMover.CompleteMultipartUpload` | datamover/pkg/azure/blob/blobmover.go:257-277 | a commit makes the blob the listed blocks in order, which are the uploaded parts if none has been overwritten; it fails exactly after three errors |
| `BlobDownload.HangsExactlyIf` | datamover/pkg/azure/blob/blobmover.go:83-93 | some reader keeps the loop busy for any number of reads if and only if the blob is longer than the buffer |
| `BlobDownload.ReadBody` | datamover/pkg/azure/blob/blobmover.go:81-97 | whatever the reader answers: the front of the buffer is a prefix of the blob and the rest is untouched; after one read more than there are bytes the loop has ended, or the buffer is full and the blob longer |
| `BlobDownload.DownloadObj` | datamover/pkg/azure/blob/blobmover.go:63-105 | it ends if the blob fits the buffer or is not reached; if it ends, nil exactly if the blob was reached in three attempts and no read failed, and then the buffer starts with the whole blob and the size is its length |

## Left out

- The timeout branch of `doMigration`, what a send on the closed channel does after
  `MigrationProtocol.LateTokenExists` (the two channels close in one event), and `migrateResult` with the data-analysis assist.
- The unsynchronised `locMap` of `refreshSrcLocation`; each item carries the source it is refreshed to.
- Object metadata written by `move` and deleted by `deleteObj`; the models follow the bytes only.
- The global PART_SIZE is a constant of a job, not re-read from the environment by every mover.
- MoveObject.Move: for a large object the listed size is the size of its source and the keys of the job are separate; the listing functions are not part of this model.
- A deletion that succeeds but reports an error: a failed deletion leaves the source where it was.
- MigrationRun.DoMigration: assumes that total capacity times 100 fits into int64; wrap-around above that is not modelled.
- MigrationRun.RunJob: one time stamp stands for all calls of time.Now, and step descriptions carry no time.
- Multipart.MovePart: movers are an abstract contract; no cloud SDK is modelled, and the OBS mover's DownloadRange does not meet that contract.
- Multipart.MoveWorker.AbortMultipartUpload: that of the Azure mover does nothing and reports success; its blocks expire at the service.
- Multipart.MoveWorker.CompleteMultipartUpload: a completion that takes effect and still reports an error is not modelled, and neither is an operation of the lock that does.
- LockCall.Database.Interfere: other processes take the steps of an arbitrary schedule; the sleeping between attempts is not modelled.
- PlanRun.Run: the fields of the job and the message to the data mover are left out; the lookup of the plan and of the locations are parameters.
- Enforcement.Exec: role and generic checks are atoms with arbitrary values; keyWorkFormatter, findInMap and the comparison of roles are left out. The Go stack is a bound on nested rule references.
- Enforcement.NilCheckIsMissing: a necessary condition on the map alone; with a missing rule, the atoms decide whether short-circuit evaluation reaches the reference, and `Enforcement.EndsExactlyIf` decides it for given atoms.
- Enforcers.Load: reading the file and decoding JSON are left out; the decoded texts are a parameter.
- Tokenizer.Lower: only ASCII letters are lowered, which is all that can yield a keyword; text is a sequence of characters and invalid UTF-8 is not modelled.
- QueryStrings.FormatQuery: only the query parts of formatUrls; host and path are left out. Trimming and the list of covered keys are parameters, trimming assumed idempotent in `QueryStrings.QueryRoundTrip`.
- QueryStrings.ParseQuery: a piece that does not decode becomes empty as in the code; the choice of the signature version that follows is left out, and so is UrlEncode with its regular expression.
- SignedHeaders.GetSignedHeaders: trimming and lower-casing are a parameter.
- SignedHeaders.BuildCanonicalRequest: it is read back if no name holds ":", ";" or a new line and nothing else a new line; hashing and signing are left out.
- BlockIds.DecodeEncode: the decoder here knows no line breaks, which the encoder never writes.
- BlobDownload.ReadBody: followed for a given number of reads, so that a call that never returns has a contract; the reader keeps to the contract of io.Reader.
- ReaderWrapper.Wrapper.Read: seek is left out.
- REST handlers, generated code, cron triggers, S3 metadata, configuration and logging: plumbing without a property of this depth.
- The policy-in-use check of DeletePolicy, LoadAllPlans and updatePolicyInTrigger: their queries do not select what they are meant to select.
