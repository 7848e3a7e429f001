# compare — a Dafny model of the reconciliation core

`compare` reconciles fixed-layout CSV exports. Each line carries a 6-byte
record id `[0,6)`, a 4-byte type code `[6,10)` and a payload. A *job* pairs
one target file with one source file of the same type code (the file
name's second `.`-separated piece). A worker runs each job in four steps:

- It loads the target lines into a buffer keyed by `line[6 : len-1]`.
- It consumes one buffered copy per source line, first come first served.
  A source line with no copy left is *not found*.
- It offers every leftover target line of the same type to each not-found
  line, when the two differ in one to five compared byte positions.
- It writes three reports: *missing*, *raw* and *unmatched*.

The model covers the following:

- job generation (`jobs/jobs.go`);
- the per-job pipeline of `workers/worker.go`;
- the row contents of the three reports.

Go panics become `Err(Fault)` results, so every error path of the code is
an explicit outcome. No `requires` clause excludes an input the Go code
accepts. The few that exist either state what a Go caller always
guarantees (an index within range, a digit) or name the inputs a lemma is
about.

Modules:

- `Results`: `Option`, `Result` and the `Fault` kinds, i.e. the panics the
  code can raise.
- `Codec`: the `\r?\n` substitution, the record key, `strconv.Itoa`, and
  `strings.Split`/`strings.Join` with their round trips.
- `Records`: `StagingRow`, `NotFoundRow` and `Closest`.
- `Staging`: the target buffer (`createTargetBuffer`, `getUnmatched`).
- `Diff`: the source scan (`compareBuffers`) and a reference definition of
  what it consumes and reports.
- `Matching`: `compareString` and `findClosest`.
- `Reports`: the rows of `createMissingFile`, `createRawFile` and
  `createUnMatchedFile`.
- `Worker`: one job end to end (`doComparison`), the conservation of
  copies, and self-comparison.
- `Scenarios`: worked jobs, stated for whole families of lines and for
  small concrete jobs such as target `AAAAAA0001AAAA` against source
  `BBBBBB0001AABA`.
- `Findings`: the two behaviours the model deliberately does not copy,
  written as the code has them.
- `Jobs`: `GenerateJobs`.

Decisions:

- **Key.** The Go key is the hex MD5 of `line[6 : len(line)-1]`. The model
  keys by that slice itself, which is an injective stand-in.
- **Buffer.** The Go buffer is a map. The model keeps an association list
  in first-insertion order.
- **Per-job state.** Every job starts from an empty buffer and an empty
  leftover list (see Findings).

## Model

| member | source | states |
|---|---|---|
| Codec.Normalize | workers/worker.go:194-195 | the `\r?\n` substitution never lengthens a line and leaves no newline in it |
| Codec.NormalizeKeepsNewlineFree | workers/worker.go:186-195 | on a line as the line scanner yields it (no newline), the substitution changes nothing |
| Codec.NormalizeIdempotent | workers/worker.go:239-243 | substituting twice is substituting once |
| Codec.KeyOf | workers/worker.go:217-221 | a line has a key exactly when it is at least 7 bytes long, and the key drops 7 bytes |
| Codec.SameKeyIffSameKeyedSlice | workers/worker.go:217-221 | two lines share a key if and only if their bytes from 6 up to the last byte agree |
| Codec.KeyIgnoresIdAndLastByte | workers/worker.go:218 | the record id and the last byte never take part in the key |
| Codec.Itoa | workers/worker.go:150 | a position renders as a non-empty run of decimal digits with no leading zero |
| Codec.AtoiItoa | workers/worker.go:150 | decimal rendering of a position reads back as the same position |
| Codec.Split | jobs/jobs.go:46-47 | splitting yields at least one piece and no piece contains the separator |
| Codec.SplitPieceCount | jobs/jobs.go:46-48 | a name splits into two or more pieces if and only if it contains the separator |
| Codec.JoinSplit | jobs/jobs.go:46-47 | joining the pieces of a split with the separator gives the string back |
| Codec.SplitJoin | workers/worker.go:169 | splitting a join of separator-free pieces gives the pieces back |
| Codec.SplitAfterPiece | jobs/jobs.go:46-47 | a separator-free piece followed by the separator is the first piece of the split |
| Codec.SplitPiece | jobs/jobs.go:46-47 | a separator-free string splits into itself alone |
| Codec.Itoas | workers/worker.go:148-152 | each position becomes its own decimal text, in order |
| Codec.ParsePiecesItoas | workers/worker.go:150 | decimal texts of positions read back as those positions |
| Codec.RenderIndicesRoundTrip | workers/worker.go:169 | the `:`-joined index text of a position list (Codec.RenderIndices, built with Codec.Join) reads back as exactly that list |
| Codec.RenderIndicesHasNoBar | workers/worker.go:282-285 | an index text never contains the `|` that separates candidates in the missing report |
| Staging.Find | workers/worker.go:198 | the lookup finds the single entry of a key, or reports that no entry has it |
| Staging.Bump | workers/worker.go:199 | a count change touches one entry and moves the buffer total by the same amount |
| Staging.Insert | workers/worker.go:194-205 | a repeated key gains one copy and keeps its first text; a new key is appended with one copy of the substituted line; a line shorter than 7 bytes panics |
| Staging.Build | workers/worker.go:186-207 | building succeeds if and only if every target line (empty ones included) has 7 bytes, holds one copy per line, and keeps keys distinct |
| Staging.BuildOnto | workers/worker.go:190-207 | the build loop over a non-empty buffer adds one copy per line and keeps keys distinct |
| Staging.Consume | workers/worker.go:245-254 | a copy is taken if and only if the key still holds one, and only from that key |
| Staging.ConsumeCountOf | workers/worker.go:245-254 | taking key k lowers the count of k by one and of no other key |
| Staging.InsertCountOf | workers/worker.go:198-205 | inserting a line adds one copy to its key and none to any other |
| Staging.BuildCountsOccurrences | workers/worker.go:191-206 | the count of every key is the number of target lines with that key |
| Staging.InsertKeepsFirstOccurrence | workers/worker.go:198-205 | one build step keeps every entry on the text of its key's first line, in first-occurrence order |
| Staging.BuildKeepsFirstOccurrence | workers/worker.go:198-205 | each entry keeps the text of the first target line of its key, and entries follow first occurrence |
| Staging.Leftovers | workers/worker.go:134-143 | the leftovers are exactly the rows still holding a copy, none negative |
| Staging.LiveFrom | workers/worker.go:136-138 | the positions of the entries still holding a copy, each once, in increasing order |
| Staging.LeftoversInBufferOrder | workers/worker.go:134-143 | leftover k is the row of the k-th entry still holding a copy, so the leftovers keep buffer order |
| Staging.LeftoversKeepAllCopies | workers/worker.go:134-143 | the leftovers carry every copy the buffer still holds |
| Diff.ScanLine | workers/worker.go:239-255 | an empty line changes nothing; a non-empty line panics exactly when it is shorter than 7 bytes, or is not found and shorter than 10; a line takes a copy exactly when its key still holds one, else it is reported with its text, id and type and no candidates; no other key changes |
| Diff.Scan | workers/worker.go:237-259 | not-found rows plus copies taken equal the non-empty source lines; counts only go down and never below zero |
| Diff.ScannableStep | workers/worker.go:237-258 | a source is panic-free line by line |
| Diff.ScanLineAgrees | workers/worker.go:241-254 | one scan step keeps the state equal to the reference: reported lines, and counts reduced by earlier demand |
| Diff.ScanIsGreedyConsumption | workers/worker.go:223-260 | the scan succeeds exactly on panic-free sources; it reports exactly the lines whose key earlier lines used up; each count ends as its initial count less demand, floored at zero |
| Matching.DiffFrom | workers/worker.go:148-152 | the loop yields exactly the positions past 10 where the lines differ, in increasing order; reading past the target's end panics |
| Matching.CompareString | workers/worker.go:145-155 | no positions unless the type codes agree; otherwise exactly the differing positions past 10, increasing; lines shorter than 10 bytes, or a target shorter than a long source, panic |
| Matching.CloseMatchMeaning | workers/worker.go:163-170 | every candidate shares the line's type code, and its index text reads back as one to five increasing differing positions |
| Matching.Offer | workers/worker.go:162-173 | a leftover is offered exactly when it holds a copy and differs in one to five positions (Matching.Eligible) |
| Matching.CandidateOf | workers/worker.go:164-170 | the candidate built from an offered leftover is a close match carrying that leftover's text |
| Matching.Offers | workers/worker.go:161-175 | reference: one close candidate per eligible leftover, each traceable to its own leftover |
| Matching.Drain | workers/worker.go:162-173 | reference: every eligible leftover loses one copy, every other one is unchanged |
| Matching.Attach | workers/worker.go:161-175 | panics exactly when a leftover holding a copy cannot be compared; otherwise the candidates are exactly the reference offers, one per eligible leftover in leftover order, and the leftovers are the reference drain; candidates equal copies taken |
| Matching.RowsBefore | workers/worker.go:160-175 | reference: the leftovers as the pass finds them at not-found row i, drained once by each earlier row; texts kept, counts only lower |
| Matching.MatchPanicsStep | workers/worker.go:160-176 | the pass panics on its first not-found row, or later on the drained leftovers |
| Matching.PanicNeedsLivePair | workers/worker.go:160-176 | a panic of the pass is one on a leftover that held a copy to begin with |
| Matching.FindClosest | workers/worker.go:157-177 | panics exactly when some not-found row meets, while the leftover still holds a copy, a leftover `compareString` cannot compare with it; otherwise rows keep their text and gain only close candidates (Matching.GainsCandidates), copies only go down (Matching.LosesCopies), candidates attached equal copies taken |
| Matching.FindClosestFollowsOffers | workers/worker.go:157-177 | not-found row i gains exactly the reference offers of the leftovers as the earlier rows left them, and the pass ends on the leftovers drained by every row |
| Matching.LeftoverOfferedAtMostItsCount | workers/worker.go:160-175 | no leftover is attached more often than it has copies, and it ends with its copies less its offers |
| Reports.MissingRows | workers/worker.go:279-291 | one row per not-found line, in order |
| Reports.MissingReport | workers/worker.go:273-291 | header, then id and type of every not-found line (rows by Reports.MissingRow, columns by Reports.IdsColumn and Reports.IndicesColumn); the candidate columns are empty exactly when it has no candidate |
| Reports.IndicesColumnRoundTrip | workers/worker.go:282-285 | the "changed indices" column splits on `|` back into the candidates' index texts |
| Reports.IdsColumnRoundTrip | workers/worker.go:282-285 | the "target row" column reads back as the candidates' ids and type codes, in order |
| Reports.PickFrom | workers/worker.go:315-322 | the selection loop ends on a candidate with a shortest index text, the first such |
| Reports.PickClosest | workers/worker.go:310-322 | the raw report shows the first candidate whose index text is shortest |
| Reports.WithCandidates | workers/worker.go:310-314 | the lines kept are exactly those with a candidate |
| Reports.RawReport | workers/worker.go:304-341 | the raw report starts with its header |
| Reports.RawBlocksSkipBare | workers/worker.go:310-314 | lines without a candidate add nothing to the raw report |
| Reports.RawBlocksIndexed | workers/worker.go:324-340 | each line with candidates gets a three-row block (Reports.RawBlock, concatenated by Reports.RawBlocks): the line, its pick, an empty row |
| Reports.RawBlocksLayout | workers/worker.go:310-341 | block m of the raw report is the m-th line with candidates and its pick |
| Reports.ListedRows | workers/worker.go:360-361 | the rows listed are exactly the leftovers with a copy and non-empty text (Reports.Listed) |
| Reports.UnmatchedRows | workers/worker.go:360-365 | each listed leftover gives id, type and text, in order; a listed text shorter than 10 bytes panics |
| Reports.UnmatchedReport | workers/worker.go:353-365 | header plus one row per listed leftover, or the panic |
| Worker.Reconcile | workers/worker.go:75-90 | a job fails on a short target line; every not-found row carries its own id and type and only close candidates; no leftover is negative |
| Worker.DoComparison | workers/worker.go:75-108 | the job panics exactly when reconciling does or a listed leftover is shorter than 10 bytes; the missing report has one row per not-found line and the unmatched report one per listed leftover |
| Worker.ReconcileFailsExactly | workers/worker.go:75-90 | reconciling panics exactly on a target line shorter than 7 bytes, a source the scan cannot get through, or a not-found line `compareString` cannot compare with a leftover holding a copy |
| Worker.MissingHasWidth | workers/worker.go:245-251 | the texts the scan reports have the width of the source lines |
| Worker.BuildHasWidth | workers/worker.go:194-205 | entries built from target lines of one width keep texts of that width |
| Worker.FixedWidthScanNeverPanics | workers/worker.go:186-260 | build and scan of records of one width of at least 10 bytes never panic, and leave not-found lines and leftovers of that width |
| Worker.FixedWidthPassNeverPanics | workers/worker.go:145-177 | the pass over rows of one width of at least 10 bytes never panics, nor does the unmatched report |
| Worker.FixedWidthJobNeverPanics | workers/worker.go:75-108 | a job whose lines all have one width of at least 10 bytes never panics |
| Worker.FreshRowsHaveNoCandidates | workers/worker.go:246-251 | rows just reported carry no candidates |
| Worker.ReconcileConservesCopies | workers/worker.go:78-90 | every target copy is taken by a source line, attached as a candidate, or still left over; every non-empty source line is taken or not found |
| Worker.SrcOccIsOcc | workers/worker.go:194-196 | on scanned lines the scan keys a line as the build does |
| Worker.SelfLinesNeverMiss | workers/worker.go:237-258 | against its own buffer no line of a file is missing, and the scan cannot panic |
| Worker.SelfScanTakesEverything | workers/worker.go:237-258 | scanning a file against its own buffer takes every copy and reports nothing |
| Worker.ExhaustedHasNoLeftovers | workers/worker.go:134-143 | a buffer with all counts zero leaves no leftovers |
| Worker.SelfReconcileIsEmpty | workers/worker.go:75-90 | a file reconciled against itself has nothing missing and nothing left over |
| Worker.SelfComparisonIsClean | workers/worker.go:75-108 | a file compared with itself gives three reports holding only their headers |
| Worker.MissingEmpty | workers/worker.go:237-258 | when no line misses, the reference lists nothing |
| Scenarios.BuildOne | workers/worker.go:198-205 | one target line gives one entry with one copy of it |
| Scenarios.BuildTwice | workers/worker.go:198-200 | a line given twice gives one entry with two copies |
| Scenarios.ScanTakesOne | workers/worker.go:245-254 | a source line takes one copy of its own key |
| Scenarios.DuplicateTargetLeavesOneCopy | workers/worker.go:75-90 | a target line given twice and matched once leaves one copy over and nothing missing |
| Scenarios.DuplicateScenario | workers/worker.go:75-90 | the duplicate-line example job: nothing missing, one leftover with count 1 |
| Scenarios.ScanTakesSameKey | workers/worker.go:243-254 | a source line takes the copy of any target line with its key, whatever the id and last byte |
| Scenarios.ScanMissesOtherKey | workers/worker.go:245-251 | a source line whose key the target lacks is reported, with its id and type |
| Scenarios.SameKeyLinesMatch | workers/worker.go:217-221 | lines sharing a key match: nothing missing, nothing left over |
| Scenarios.LastByteDifferenceScenario | workers/worker.go:217-221 | lines differing only in id and last byte match, because the key leaves the last byte out |
| Scenarios.OtherTypeOtherKey | workers/worker.go:217-218 | lines of different type codes have different keys |
| Scenarios.AttachNoOffer | workers/worker.go:161-164 | a leftover that is not offered keeps its copy and yields no candidate |
| Scenarios.FindClosestNoOffer | workers/worker.go:157-177 | the pass changes nothing when the only leftover is not offered |
| Scenarios.OtherTypeGetsNoCandidate | workers/worker.go:145-155 | a not-found line gets no candidate of another type code, and that leftover keeps its copy |
| Scenarios.OtherTypeScenario | workers/worker.go:145-155 | the other-type example job: one not-found line, no candidate, one leftover |
| Scenarios.OneByteApartCompare | workers/worker.go:145-155 | lines one compared byte apart have different keys and differ in exactly that position |
| Scenarios.AttachOffered | workers/worker.go:161-173 | an offered leftover becomes the one candidate and loses a copy |
| Scenarios.FindClosestOffered | workers/worker.go:157-177 | a not-found line with no candidates gains the offered leftover as its only candidate |
| Scenarios.OneByteApartGetsCandidate | workers/worker.go:157-177 | a line one byte from a leftover of its type gets that leftover as its only candidate, with that position as index text, and the copy is used up |
| Scenarios.OneByteScenario | workers/worker.go:157-177 | one not-found line with one candidate at position "12" |
| Findings.CarriedScan | workers/worker.go:53-62 | on a buffer carried over from earlier jobs, copies taken plus lines reported still equal the non-empty source lines, but the copies include earlier jobs' targets |
| Findings.StaleBufferHidesMissingLine | workers/worker.go:78 | a line left over by one job silently satisfies the same line in a later job's source, which on a fresh buffer is not found |
| Findings.FreshJobReportsMissingLine | workers/worker.go:245-251 | against an empty target a source line is not found |
| Findings.EmptyTargetMissesLine | workers/worker.go:245-251 | scanning against an empty buffer reports the line with its id and type |
| Findings.MapLeftovers | workers/worker.go:134-143 | in any map visit order, the same rows are collected, in visit order |
| Findings.LeftoversFollowTargetOrder | workers/worker.go:134-143 | leftover k is the row of the k-th live entry and keeps the text of its key's first target line, and those first lines come in target-file order |
| Findings.AttachBothOffered | workers/worker.go:161-173 | two offered leftovers both become candidates, in visit order |
| Findings.FindClosestBothOffered | workers/worker.go:157-177 | one not-found line gains both offered leftovers, in visit order |
| Findings.RawPickOfTwo | workers/worker.go:315-322 | of two candidates with index texts of one length, the first is shown |
| Findings.OneByteOffer | workers/worker.go:162-170 | a leftover one byte away is offered with that position as index text |
| Findings.RawPickFollowsOffers | workers/worker.go:315-330 | the raw report shows the first of two equally long offers |
| Findings.SampleOfferA | workers/worker.go:162-170 | the first sample leftover is offered at position 12 |
| Findings.SampleOfferB | workers/worker.go:162-170 | the second sample leftover is offered at position 11 |
| Findings.MapVisitPick | workers/worker.go:315-322 | the visit order of two offered leftovers decides the raw report's pick |
| Findings.LeftoversOfTwo | workers/worker.go:134-143 | two leftovers holding copies are collected in visit order |
| Findings.VisitOrderDecidesRawPick | workers/worker.go:315-322 | two visit orders of the same buffer show different picks |
| Findings.VisitOrderChangesRawReport | workers/worker.go:315-330 | a concrete job whose raw report depends on the map visit order |
| Jobs.TypeCode | jobs/jobs.go:46-48 | a name has a type code exactly when it contains a dot, and the code holds no dot; otherwise the lookup panics |
| Jobs.TypeCodeIsSecondPiece | jobs/jobs.go:46-48 | the type code is the text between the first and the second dot |
| Jobs.MakeJob | jobs/jobs.go:49-51 | a job keeps both bare file names |
| Jobs.PairsRow | jobs/jobs.go:45-53 | the matching sources of one target, each once, in order |
| Jobs.PairsFrom | jobs/jobs.go:44-54 | the matching pairs of the later targets, each once, target-major |
| Jobs.Pairs | jobs/jobs.go:44-54 | exactly the (target, source) pairs of one type code, each once, target-major |
| Jobs.JobsFor | jobs/jobs.go:45-53 | the inner loop panics exactly when the target or a later source has no type code |
| Jobs.GenerateFrom | jobs/jobs.go:44-54 | the outer loop panics exactly when a name in a non-empty pairing has no type code |
| Jobs.GenerateJobs | jobs/jobs.go:42-55 | generation panics exactly when both listings are non-empty and some name has no dot |
| Jobs.JobsForFollowsRow | jobs/jobs.go:45-53 | the inner loop emits one job per matching source, in order |
| Jobs.GenerateFromFollowsPairs | jobs/jobs.go:44-54 | the outer loop emits one job per matching pair, in order |
| Jobs.GenerateJobsFollowsPairs | jobs/jobs.go:42-55 | job n pairs the files of the n-th matching pair: the full cross join filtered by type, target-major |
| Jobs.JobsShareTypeCode | jobs/jobs.go:46-51 | every job pairs a listed target with a listed source of one type code, with the configured directories in front |
| Jobs.JobsForSkips | jobs/jobs.go:48 | a source of another type code emits nothing |
| Jobs.JobsForTakes | jobs/jobs.go:48-51 | a source of the target's type code emits one job |
| Jobs.PairingOfTwo | jobs/jobs.go:44-54 | two targets, one sharing its code with both sources: exactly two jobs |
| Jobs.PairingScenario | jobs/jobs.go:42-55 | targets a.100.csv and b.200.csv, sources c.100.csv and d.100.csv: exactly the jobs a×c and a×d |

## Left out

- Concurrency is not modelled: the worker pool, the job channel, the `sync.WaitGroup`, and `workers/workers.go` starting workers. Generation is the sequence of jobs the producer sends, and the worker runs jobs one after another.
- `printProgress`, the clock and the progress channel are not modelled. They have no effect on results.
- File I/O is not modelled: `os.Open`, `bufio.Scanner`, `ioutil.ReadDir`, CSV encoding, file creation and close errors, and result paths. Files are sequences of scanned lines, and reports are tables of fields. The scanner's token size limit is not modelled.
- Logging and configuration are not modelled. `core.Config` paths are parameters.
- MD5 is replaced by the keyed slice itself, so hash collisions are not modelled.
- Strings are byte strings with one `char` per byte. No UTF-8 decoding takes place. `range source` in `compareString` visits rune start offsets, and the model visits every byte, which agrees on ASCII input.
- Go `int` overflow of counts is not modelled, since counts are unbounded integers.
- Jobs.GenerateJobs: on a panic the result is the fault alone. The jobs the producer sent before the panic are not represented.
- `Execute` is not modelled. It dereferences a nil result after a failed `doComparison`. No modelled step returns an error other than a panic, so this path cannot arise in the model.
- `createUnMatchedFile` reads the worker's `UnMatchedBuffer`, which `getUnmatched` only appends to and never resets. A later job therefore re-lists the earlier jobs' leftovers, through the same staging rows. The model uses one job's leftovers, as part of the first finding below.

Behaviour of the code that a reader might not expect, which the model follows:

- A target line is keyed even when empty. An empty or short target line panics in `makeKey`, whereas the source scan skips empty lines.
- Compared positions start after 10, because of `index > 10`. Position 10 is never compared.
- The raw report picks a candidate by the length of its index text (`len(Indices)`), not by the number of positions.
- With target `AAAAAA0001AAAA` and source `BBBBBB0001AAAB`, the source line is found. The key leaves out the last byte and the id, so no not-found row results (`Scenarios.LastByteDifferenceScenario`). The one-candidate outcome arises when the differing byte lies inside the key (`Scenarios.OneByteScenario`).

## Findings

| source | as written | input that shows it | evidently intended | confidence | as-written member | corrected member |
|---|---|---|---|---|---|---|
| workers/worker.go:53-62 | the target buffer is made once per worker and never cleared, so each job builds onto the counts earlier jobs left | job 1: target `AAAAAA0001XXXX`, empty source; job 2 on the same worker: empty target, source `AAAAAA0001XXXX`. Job 2 reports nothing missing | each job reconciles its own target against its own source, so job 2 reports the line as not found | not executed | Findings.CarriedScan (shown by Findings.StaleBufferHidesMissingLine) | Worker.Reconcile (per-job buffer; Worker.ReconcileConservesCopies, Findings.FreshJobReportsMissingLine) |
| workers/worker.go:134-143 | leftovers are collected by ranging over a Go map, so their order, and with it the raw report's pick among equally long index texts, changes from run to run | not-found `SSSSSS0001ABCD` with leftovers `AAAAAA0001ABXD` (index text "12") and `BBBBBB0001AXCD` (index text "11"). One visit order shows `AAAAAA`, the other `BBBBBB` | one deterministic report per job | not executed | Findings.MapLeftovers (shown by Findings.VisitOrderChangesRawReport) | Staging.Leftovers (buffer order by Staging.LeftoversInBufferOrder, which is first-occurrence order by Findings.LeftoversFollowTargetOrder) |
