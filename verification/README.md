# FLUFFI: verified models of CaRRoT and of the Global Manager's registration

This project models two components of FLUFFI and proves what they are relied on for.

**CaRRoT** (`core/CaRRoT`) analyses a file and mutates it. Four stages work on one byte
buffer:

1. *Texts.* `Digesters` holds the two byte automata. Each is proved to report exactly the
   maximal runs of the bytes it accepts (`Segments` says what a report is, and that it is
   unique). For UTF-8, acceptance is the greedy segmentation `Digesters.Accepts`, defined
   on the bytes alone; the automaton's flags are shown to be functions of the class of the
   last accepted byte. `Minimize` proves that the sweep over two position-indexed arrays
   gives the UTF-8 list, in file order, with wholly ASCII texts relabelled, for every
   order in which the digesters' goroutines add their finds. `ScanStrings` states the
   result without reference to the automata (`FileTexts`).
2. *Integers.* `ScanInts` proves the scan sound and complete for all candidates outside
   texts. `Dedup` proves that the per-byte index `belm` answers as the quadratic check
   does, and what that check keeps and drops. `Codec` is the decode/encode round trip.
3. *Correlation.* `Correlate` has the bodies of the two worker loops, `FanOut` the channel
   protocol around them as a state machine over single channel operations: safety under
   all interleavings, exactly-once delivery, absence of stuck states, a falling measure.
4. *Mutation.* `Fillers`, `StringMutator` and `DummyMutator`. `Rescan` says what the ASCII
   digester finds after a splice, `MergedRescan` what the merged list of texts is then. `Pipeline` joins the stages: the unchecked writes of the
   string mutator stay in range because texts are disjoint and not empty, candidates avoid
   all texts, and a length field starts before its string.

**The Global Manager** (`core/GlobalManager`) registers workers and local managers.
`Tables` has its SQL statements as atomic steps over relational tables; `Registration`
interleaves any number of handlers with the monitor and the user, and proves that a
location and a job never have two managers, and who may be told that it has become one.
`Handling` has the request handler as the code that one thread executes, and proves that
each of its executions is a path of that protocol.
`LogTrim` is the monitor's trimming of log messages.

Imperative code is modelled imperatively: loops over arrays and lists with invariants, and
classes for the shared records, each method proved against a specification function about
which the lemmas speak. Randomness is a nondeterministic choice (`Bytes.Ran`); a draw that
selects a branch is a parameter, so that each branch is tied to its draw. Bit masks are
written as arithmetic; the `Bytes.Masked` lemmas prove that they agree.

Where the code does not do what it is for, there is a theorem that says exactly when, for
all inputs, and an input (modules `Witnesses` and `Race`):

- *Lost blocks.* `CorrelateIntStrings` keeps two collectors and starts as many workers as
  half the number of processors less two. With fewer than six processors there is no
  worker. `Pipeline.IntStringsReturns`: it can return if and only if there are six
  processors or at most ten strings. `Pipeline.IntStringsDelivers`: when it returns, it has
  delivered the blocks if and only if there are six processors or no string has a length
  field. At four processors a string with a length field loses its block
  (`Witnesses.FourProcessorsLoseTheBlock`), and a file with eleven strings blocks the main
  goroutine for ever (`Witnesses.FourProcessorsHang`). `Pipeline.GroupStringsReturns` and
  `Pipeline.GroupStringsDelivers` are the conditions of the other correlation, and
  `FanOut.ReturnsIff` and `FanOut.DeliversIff` those of any such protocol.
- *Empty result.* `StringMutator.EmptyIff`: the mutator may return an empty file if and only
  if there is no block, or one without a string or without a length field. In terms of the
  analysis (`Pipeline.EmptyMutantIff`): if the first correlation has added nothing, or the
  second something, because all blocks of the second are of that kind.
  `Witnesses.FourProcessorsEmptyTheFile` has a file of which the only mutant is empty.
- *UTF-8 filler.* A found UTF-8 text may end in a lead byte (the comment at
  core/CaRRoT/strings.go:402 knows). `Fillers.AlwaysPassesIff`: the lengthened bytes are sure
  to be read without a break if and only if the original does not end in a lead byte or grows
  by fewer than two bytes; `Fillers.FilledTextPasses` tells it from the first byte appended.
  `Witnesses.SeamIsMutated` has a file, its length field and a permitted mutation;
  `Witnesses.SeamBreaks`: what that writes breaks.
- *Configuration with "retry later".* A local manager whose insertion fails receives the
  configuration nevertheless, together with the request to retry.
  `Registration.RetryIffServed`: the request is there if and only if the database refused for
  reasons of its own or the constraint forbade the row when the handler came to insert it. In
  the latter case another handler has taken the job since this one picked it
  (`Registration.RaceLost`). `Race.SecondIsConfiguredInVain` is such a run.
- *Last place.* The guards of `ScanInts` are strict. `ScanInts.LastPlaceIsMissed`: a
  plausible integer free of text is recorded if and only if it does not end the file.
  `Witnesses.ScanTail` has one that no order of the scan records.

## Model

| member | source | states |
|---|---|---|
| Bytes.MaskedClasses | core/CaRRoT/strings.go:450-467 | the byte-class predicates on ranges agree with the masks of the source for all 256 bytes |
| Bytes.MaskedTextClasses | core/CaRRoT/strings.go:436-448 | for all 256 bytes: printable means the highest bit clear and one of the next two set, and the control characters accepted are 9, 10 and 13 |
| Bytes.ClassesApart | core/CaRRoT/strings.go:436-467 | no byte is in two classes, and those in none are the other control characters |
| Bytes.MaskedSetHigh | core/CaRRoT/mutate.go:306 | the arithmetic for the invalid ASCII byte equals the mask |
| Bytes.MaskedFollow | core/CaRRoT/mutate.go:311 | the arithmetic for a continuation byte equals the two masks |
| Bytes.MaskedLead2 | core/CaRRoT/mutate.go:368 | the arithmetic for the lead byte of two equals the two masks |
| Bytes.MaskedLead3 | core/CaRRoT/mutate.go:353 | the arithmetic for the lead byte of three equals the two masks |
| Bytes.MaskedLead4 | core/CaRRoT/mutate.go:338 | the arithmetic for the lead byte of four equals the two masks |
| Bytes.Ran | core/CaRRoT/mutate.go:33-39 | some number below the maximum, and 0 when the maximum is 0 |
| Records.Strings.Add | core/CaRRoT/db.go:74-78 | the list gains exactly this text, at its end |
| Records.Ints.Add | core/CaRRoT/db.go:114-118 | the list gains exactly this integer, at its end |
| Segments.ReportsUnique | core/CaRRoT/strings.go:325-361 | the specification determines a digester's list |
| Segments.ReportsApart | core/CaRRoT/strings.go:335-341 | reported texts are non-empty, inside the file, and separated by at least one byte |
| Segments.ReportStep | core/CaRRoT/strings.go:334-341 | the flush at a rejected byte or at the end of the file reports exactly the run that ended there, if it is long enough |
| Digesters.AsciiLoop | core/CaRRoT/strings.go:325-361 | the loop reports exactly the long enough runs of ASCII text bytes, for `acc` marking those bytes |
| Digesters.AsciiDigester | core/CaRRoT/strings.go:316-363 | the added texts are exactly the maximal runs of ASCII text bytes of at least `strlim` bytes, in file order, with Term iff a zero byte or the end of the file follows |
| Digesters.Utf8IsGreedy | core/CaRRoT/strings.go:382-412 | the recursive segmentation satisfies its one-step characterisation at every byte |
| Digesters.Utf8StepIsGreedy | core/CaRRoT/strings.go:382-412 | with flags that fit the last accepted byte, the automaton decides the next byte as the segmentation does, and its new flags fit again |
| Digesters.TailGrows | core/CaRRoT/strings.go:382-400 | an accepted byte prolongs the current run and the buffer, and ends no run |
| Digesters.Utf8Loop | core/CaRRoT/strings.go:376-432 | for the greedy segmentation the automaton reports exactly the long enough accepted runs |
| Digesters.Utf8Digester | core/CaRRoT/strings.go:365-434 | the added texts are exactly the maximal runs of `Accepts` of at least `strlim` bytes, with Term iff a zero byte or the end of the file follows |
| Digesters.Utf8TextShape | core/CaRRoT/strings.go:382-405 | inside a reported text no two lead bytes are adjacent, and each continuation byte follows a lead or a continuation byte of the same text |
| Digesters.AsciiInsideUtf8 | core/CaRRoT/strings.go:331-353 | every text of the ASCII digester lies inside a text of the UTF-8 digester on the same bytes |
| Minimize.AllAsciiIffBoth | core/CaRRoT/strings.go:517-523 | both digesters found a text with the same place and length if and only if it consists of ASCII text bytes |
| Minimize.ProperPartIsMixed | core/CaRRoT/strings.go:525-535 | an ASCII text that is a proper part of a UTF-8 text lies in one with a byte that is not ASCII |
| Minimize.IndexByPos | core/CaRRoT/strings.go:499-510 | for every interleaving of the lists each slot holds exactly the text of its encoding that starts there; "unicode" entries vanish |
| Minimize.WhatIsMet | core/CaRRoT/strings.go:516-547 | what the sweep finds at a position, given whether the last mixed text reaches it |
| Minimize.RemainsRelabelled | core/CaRRoT/strings.go:517-546 | after the deletions at a position exactly the relabelled text that starts there is left, if one does |
| Minimize.Sweep | core/CaRRoT/strings.go:512-549 | emptying the arrays slot by slot under `inside`/`end` leaves the UTF-8 list in file order, wholly ASCII texts relabelled |
| Minimize.MinimizeStrings | core/CaRRoT/strings.go:490-550 | the merged list is that relabelled list, whatever the order of the goroutines |
| ScanStrings.MinimizedIsFileTexts | core/CaRRoT/strings.go:490-550 | the merged list holds exactly the texts of the file as defined on its bytes |
| ScanStrings.FileTextsUnique | core/CaRRoT/strings.go:55-67 | two scans of a file give the same list, so goroutine order does not matter |
| ScanStrings.FileTextsApart | core/CaRRoT/strings.go:516-549 | the texts of the merged list are non-empty, inside the file, pairwise separated, and never "unicode" |
| ScanStrings.File.constructor | core/CaRRoT/db.go:63-66 | a new file has no texts and no purity flag |
| ScanStrings.AddConcurrently | core/CaRRoT/strings.go:44-65 | any interleaving of the digesters' additions to the shared list |
| ScanStrings.Scan | core/CaRRoT/strings.go:42-97 | the list holds exactly the texts of the file; each purity flag is set if and only if its condition on the file's bytes (or on the magics) holds |
| ScanStrings.WholeFileText | core/CaRRoT/strings.go:80-95 | the first text spans the file if and only if the whole file is accepted and long enough, and its label tells whether all bytes are ASCII |
| Rescan.RescanAfterSplice | core/CaRRoT/mutate.go:119-182 | replacing an ASCII text by uniform bytes changes the ASCII digester's list at that text only; the later texts move by the change of length |
| Rescan.SpliceBefore | core/CaRRoT/mutate.go:140 | the texts before the replaced one are the old ones |
| Rescan.SpliceMiddle | core/CaRRoT/mutate.go:141 | at the replaced place there is the one text of the new length, or nothing |
| Rescan.SpliceBehind | core/CaRRoT/mutate.go:142 | the texts behind the replaced one are the old ones, moved |
| MergedRescan.EndStaysRejected | core/CaRRoT/strings.go:382-412 | the byte that ended an ASCII text is rejected after the text is replaced, even by nothing |
| MergedRescan.AcceptsBehind | core/CaRRoT/strings.go:382-412 | behind a replaced ASCII text the UTF-8 digester decides every byte as before |
| MergedRescan.SwapBefore | core/CaRRoT/strings.go:512-549 | the merged texts before the replaced one are the old ones |
| MergedRescan.SwapMiddle | core/CaRRoT/strings.go:512-549 | in its place there is the one text of the new length, labelled "ascii", or nothing |
| MergedRescan.SwapBehind | core/CaRRoT/strings.go:512-549 | the merged texts behind it are the old ones, moved |
| MergedRescan.MergedAfterSplice | core/CaRRoT/mutate.go:119-157 | the merged list after an ASCII text was replaced by ASCII text bytes: the old one with the new length, or without the text when that is below the limit, and the later texts moved |
| Codec.DecodeEncode | core/CaRRoT/mutate.go:264-291 | decoding what was encoded gives the value modulo 2^(8w), in both byte orders, for every width |
| Codec.DecodeParts | core/CaRRoT/ints.go:238-297 | byte order for every width: a byte is worth itself, and of two parts the first is worth more in big-endian order, the second in little-endian order |
| Codec.SignedLaw | core/CaRRoT/ints.go:239-295 | the signed reading is the raw value or 2^(8w) less, and lies in the range of a signed integer of w bytes |
| Codec.ValuesOfWidths | core/CaRRoT/ints.go:237-304 | the numbers of values of one, two, four and eight bytes |
| Codec.EncodeDecode | core/CaRRoT/ints.go:237-304 | encoding what was decoded restores the bytes |
| Codec.WriteNewValue | core/CaRRoT/mutate.go:264-291 | the bytes of the field become the encoding of the value, all others stay |
| Dedup.OfWidth | core/CaRRoT/ints.go:173-199 | the filter has exactly the integers of its width as elements |
| Dedup.OfWidthSelects | core/CaRRoT/ints.go:173-199 | it keeps them all, in order and as often as they occur |
| Dedup.SelectWidth | core/CaRRoT/ints.go:173-199 | the filtering loop computes the filter |
| Dedup.DedupedKeeps | core/CaRRoT/ints.go:95-131 | all 8-byte integers are kept, nothing is invented, and no kept narrower one starts in an integer of equal value kept before it |
| Dedup.DedupedDrops | core/CaRRoT/ints.go:102-131 | every dropped integer has one of equal value, at least as wide, over its first byte, that was kept before the dropped one was examined |
| Dedup.DedupedTwice | core/CaRRoT/ints.go:88-134 | deduplication is idempotent, for every order of the list |
| Dedup.Register | core/CaRRoT/ints.go:96-98 | `belm[p]` keeps listing exactly the values of the kept integers that cover byte `p` |
| Dedup.KeepAll | core/CaRRoT/ints.go:95-101 | the pass over the 8-byte integers keeps all and indexes them |
| Dedup.KeepUnblocked | core/CaRRoT/ints.go:102-116 | one pass with the index keeps what the quadratic check keeps, and the index stays exact |
| Dedup.Deduplicate | core/CaRRoT/ints.go:88-133 | the indexed deduplication equals the quadratic specification |
| ScanInts.CheckOrder | core/CaRRoT/ints.go:201-259 | for one byte order the entries are exactly the readings with a plausible value: unsigned in 1..size but not 256, signed in -10..-1 |
| ScanInts.ReadingIsTwosComplement | core/CaRRoT/ints.go:239-295 | the signed value of every reading is its two's-complement value |
| ScanInts.CheckInt | core/CaRRoT/ints.go:201-305 | the entries of a place are exactly its plausible readings in both byte orders, each once, with the two's-complement values of their width |
| ScanInts.Mask | core/CaRRoT/ints.go:46-53 | the mask marks exactly the bytes that a text covers |
| ScanInts.AddConcurrently | core/CaRRoT/ints.go:59-77 | the additions of a goroutine reach the shared list at arbitrary places |
| ScanInts.TryPlace | core/CaRRoT/ints.go:57-75 | one guarded check extends the recorded candidates by those of this place and width |
| ScanInts.Record | core/CaRRoT/ints.go:55-77 | an integer is recorded if and only if it is a candidate, and once |
| ScanInts.SortByPos | core/CaRRoT/ints.go:137 | a permutation sorted by position |
| ScanInts.Scan | core/CaRRoT/ints.go:43-139 | without deduplication the list holds exactly the candidates, once each; with it, the deduplication of some order of them; sorted by position |
| ScanInts.NegativeIsCandidate | core/CaRRoT/ints.go:203-220 | at every place and in both byte orders exactly the ten largest raw values are recorded as signed ones, from -10 to -1 |
| ScanInts.PositiveIsCandidate | core/CaRRoT/ints.go:221-232 | and exactly the raw values from 1 to the file size, but 256, as unsigned ones |
| ScanInts.LastPlaceIsMissed | core/CaRRoT/ints.go:57-75 | a plausible reading free of text is a candidate if and only if it does not end the file |
| ScanInts.WriteBack | core/CaRRoT/mutate.go:264-291 | writing a recorded integer's own value leaves the file unchanged |
| ScanInts.WriteThenRead | core/CaRRoT/mutate.go:264-291 | after any write the field of a recorded integer reads as the value modulo 2^(8w), and no other byte has changed |
| Correlate.LengthFields | core/CaRRoT/intstring.go:198-213 | its elements are exactly the integers before the string whose raw value is its length |
| Correlate.LengthFieldsSelects | core/CaRRoT/intstring.go:198-213 | it has them all, in list order and as often as they occur |
| Correlate.NonZero | core/CaRRoT/intstring.go:217-222 | the map of the counters that are not zero |
| Correlate.IntBlockHolds | core/CaRRoT/intstring.go:191-228 | a block holds its string and all of its length fields, in list order and as often as they occur, and there is none if and only if there is no length field |
| Correlate.IntWorkerStep | core/CaRRoT/intstring.go:191-228 | the loop sends that block: the string received and all of its length fields, or nothing if it has none |
| Correlate.BasesCount | core/CaRRoT/intstring.go:104-115 | a bucket of the histogram counts the admissible pairs of a string and an integer that hint at its base |
| Correlate.TooFlatIsIntegerTest | core/CaRRoT/intstring.go:117 | the test with `- 0.1` and `Ceil` is an integer comparison with half the number of buckets, rounded up |
| Correlate.RoundingIsHarmless | core/CaRRoT/intstring.go:117 | for counts up to 2^49 the test has the same outcome with every operation rounded, by any rounding that is monotone and exact on sixteenths, and for any double from 1/16 to 1 in the place of `0.1` |
| Correlate.Count | core/CaRRoT/intstring.go:109-112 | the running maximum is the largest bucket after every step |
| Correlate.CountString | core/CaRRoT/intstring.go:105-114 | one string adds exactly its admissible pairs to the histogram |
| Correlate.HistogramOfPairs | core/CaRRoT/intstring.go:102-115 | in the finished histogram the buckets are exactly the hinted bases, each counts its pairs, and the maximum is attained |
| Correlate.BasesSize | core/CaRRoT/intstring.go:104-108 | there is one hint for each admissible pair |
| Correlate.HistogramTotal | core/CaRRoT/intstring.go:104-115 | the buckets of the finished histogram sum to the number of admissible pairs |
| Correlate.FlatIffNoMatch | core/CaRRoT/intstring.go:116-119 | the pair of groups is dropped if and only if no base is hinted at twice or more and by more pairs than half the hinted bases, rounded up |
| Correlate.GroupBlockIff | core/CaRRoT/intstring.go:96-133 | in terms of the whole lists: a block is sent if and only if some base is hinted at by two or more pairs of a string and an integer of these groups, and by more than half the hinted bases, rounded up; it refers to this pair of groups |
| Correlate.PairsOfSlices | core/CaRRoT/intstring.go:104-105 | the pairs that count are those whose places lie within the breaks |
| Correlate.GroupWorkerStep | core/CaRRoT/intstring.go:96-133 | the loop sends that block or nothing |
| FanOut.InitInv | core/CaRRoT/intstring.go:138-156 | the invariant holds before the first step |
| FanOut.InvKept | core/CaRRoT/intstring.go:158-245 | every channel operation of every goroutine keeps the invariant |
| FanOut.PoolKept | core/CaRRoT/intstring.go:186-245 | every step conserves each block: listed, held, in a channel or still to be made |
| FanOut.WorkersGone | core/CaRRoT/intstring.go:169-171 | when main has as many tokens as there are workers, all workers are gone |
| FanOut.CollectorsGone | core/CaRRoT/intstring.go:179-182 | when main has all tokens, all collectors are gone |
| FanOut.AllHaveToken | core/CaRRoT/intstring.go:169-182 | as many distinct tokens as goroutines means that everybody has sent one |
| FanOut.RunSafe | core/CaRRoT/intstring.go:138-245 | invariant and conservation in every state of every execution |
| FanOut.ProducedParts | core/CaRRoT/intstring.go:158-166 | what the sequential loop adds: of one input its block, if any, and of two parts the blocks of both, one after the other |
| FanOut.NoPanic | core/CaRRoT/intstring.go:164-177 | nobody sends on a closed channel or closes one twice, and the first tokens, one per worker, are the workers' own |
| FanOut.Delivered | core/CaRRoT/intstring.go:138-184 | on return the list has gained, as a multiset, exactly the blocks of the sequential loop if there was a worker, and nothing otherwise |
| FanOut.DeliveredIff | core/CaRRoT/intstring.go:144 | an execution that has returned has delivered everything if and only if there is a worker or nothing to deliver |
| FanOut.ReturnsIff | core/CaRRoT/intstring.go:150-184 | main can return if and only if there is a worker or the input channel can hold all inputs |
| FanOut.DeliversIff | core/CaRRoT/intstring.go:138-184 | a call can end with complete delivery if and only if there is a worker, or nothing to deliver and room for all inputs; if it can, it never ends otherwise |
| FanOut.Progress | core/CaRRoT/intstring.go:158-182 | with a worker, or room for all inputs, no reachable state is stuck: some step other than main's busy waiting is enabled |
| FanOut.MeasureFalls | core/CaRRoT/intstring.go:158-245 | every step but main's busy waiting lowers a measure |
| FanOut.Completes | core/CaRRoT/intstring.go:138-184 | under the same condition every execution can be extended to one in which main returns |
| Fillers.FillCtrl | core/CaRRoT/mutate.go:293-299 | as many bytes as the text has, all below 0x20 |
| Fillers.FillInvalid | core/CaRRoT/mutate.go:301-321 | as many bytes as the text has: not ASCII for an ASCII text, all continuation bytes for a UTF-8 text, any but 0xFF for a UTF-16 text |
| Fillers.PutNext | core/CaRRoT/mutate.go:335-384 | each draw appends one whole unit of four, three, two or one bytes: the length drawn or, if fewer bytes are left, the longest that fits |
| Fillers.PutUnit | core/CaRRoT/mutate.go:338-345 | a lead byte is followed by exactly the continuation bytes it announces |
| Fillers.FillUtf8 | core/CaRRoT/mutate.go:334-385 | the loop ends, keeps the text and fills the rest with whole units |
| Fillers.FillAscii | core/CaRRoT/mutate.go:327-330 | the text stays, and the rest is printable bytes |
| Fillers.FillUnicode | core/CaRRoT/mutate.go:389-396 | the text stays, and the rest is a printable byte after each zero byte and a zero byte after any other |
| Fillers.FillString | core/CaRRoT/mutate.go:322-400 | the text first, then a continuation in its encoding, up to the length asked for |
| Fillers.ContinuedPasses | core/CaRRoT/mutate.go:334-385 | a text continued by units is read without a break if and only if no lead byte meets a lead byte at the seam |
| Fillers.UnitsPass | core/CaRRoT/strings.go:382-412 | any sequence of whole units, of up to four bytes each, is read without a break |
| Fillers.FoundTextPasses | core/CaRRoT/strings.go:382-412 | a found text is read without a break on its own, too |
| Fillers.FilledTextPasses | core/CaRRoT/mutate.go:331-385 | exactly when the lengthened text of a scan is read without a break |
| Fillers.AlwaysPassesIff | core/CaRRoT/mutate.go:331-385 | lengthening a found text to a given length is sure to give bytes that are read without a break if and only if the text does not end in a lead byte or grows by fewer than two bytes |
| StringMutator.WriteFieldsInPrefix | core/CaRRoT/mutate.go:193-231 | writes to fields before the string leave string and rest alone |
| StringMutator.WriteFieldsOutside | core/CaRRoT/mutate.go:193-231 | writes change bytes of the written fields only, also when fields overlap |
| StringMutator.LastWriteStays | core/CaRRoT/mutate.go:193-231 | the last write that touches a field leaves its bytes there, whatever is written elsewhere |
| StringMutator.LastWriteReads | core/CaRRoT/mutate.go:199-213 | so a value is what the field reads as, modulo 2^(8w), if no later write touches the field |
| StringMutator.TrimZerosIsMaximal | core/CaRRoT/mutate.go:239-247 | what is trimmed is the maximal run of zero bytes at the front |
| StringMutator.OutcomeShape | core/CaRRoT/mutate.go:104-255 | the result is prefix, replacement and rest: the prefix differs from the original's inside written length fields only, and the rest lacks at most the zeros after the string |
| StringMutator.CutRemoves | core/CaRRoT/mutate.go:234-247 | when a zero byte of the file ends the string, cutting removes at least that byte |
| StringMutator.MutatedNotEmpty | core/CaRRoT/mutate.go:108-255 | the mutation of a block with a string and a length field is never an empty file |
| StringMutator.EmptyIff | core/CaRRoT/mutate.go:99-108 | an empty file may be returned if and only if there is no block, or one without a string or a length field |
| StringMutator.OnlyEmpty | core/CaRRoT/mutate.go:99-108 | if no block has both, an empty file is all that is ever returned |
| StringMutator.Leave | core/CaRRoT/mutate.go:114-118 | a copy of the file |
| StringMutator.Shorten | core/CaRRoT/mutate.go:119-127 | the string is replaced by its prefix of the length asked for |
| StringMutator.Lengthen | core/CaRRoT/mutate.go:135-142 | the string is replaced by itself and a continuation |
| StringMutator.Remove | core/CaRRoT/mutate.go:143-148 | the string is replaced by nothing |
| StringMutator.Garble | core/CaRRoT/mutate.go:158-182 | the string is replaced by control or invalid characters of the same length |
| StringMutator.ReplaceText | core/CaRRoT/mutate.go:113-185 | each draw replaces the string, and nothing else, by what this draw stands for, and the new length is the replacement's |
| StringMutator.DrawnFieldReads | core/CaRRoT/mutate.go:196-230 | what each draw does to the bytes: they stay, or read as a smaller, fitting or greater value, or are all zero, or all 0xFF; no other byte changes |
| StringMutator.RewriteField | core/CaRRoT/mutate.go:196-230 | the method does that: for the draw 4 the field reads as the new length, for 7 to 9 it is zero, for 10 it is all 0xFF |
| StringMutator.DrawFields | core/CaRRoT/mutate.go:189-196 | one field is drawn, or fewer than half as many times as there are fields when there are more than two |
| StringMutator.RewriteFields | core/CaRRoT/mutate.go:193-231 | the fields drawn, in the order drawn, are changed as drawn, and nothing else |
| StringMutator.RemoveTerminator | core/CaRRoT/mutate.go:239-247 | exactly the maximal run of zeros from that place on is taken out |
| StringMutator.MutateBlock | core/CaRRoT/mutate.go:108-255 | the string, its length fields and its terminator are treated as drawn; the terminator goes if and only if the text has one and the last draw is 0 |
| StringMutator.DrawnIsMutation | core/CaRRoT/mutate.go:108-255 | so whatever is drawn, the result is the outcome of permitted choices |
| StringMutator.Do | core/CaRRoT/mutate.go:97-262 | no access out of range, and the outcome of permitted choices for some block, or empty |
| DummyMutator.EditWindow | core/CaRRoT/mutate.go:65-72 | same length, changed inside the drawn window only |
| DummyMutator.TakePart | core/CaRRoT/mutate.go:85-88 | a part of the input from the drawn offset on |
| DummyMutator.InsertFiller | core/CaRRoT/mutate.go:76-84 | the input with one block of filler at the drawn place |
| DummyMutator.Do | core/CaRRoT/mutate.go:61-93 | the first draw gives the edited window; the second gives the length drawn: a part of the input, or the input with an insertion; no access out of range |
| DummyMutator.InsertionUndone | core/CaRRoT/mutate.go:76-84 | taking the inserted block out gives the input back |
| DummyMutator.ShapesByLength | core/CaRRoT/mutate.go:64-90 | the length tells the three shapes apart, up to a copy of the input |
| Pipeline.ConfigsValid | core/CaRRoT/intstring.go:144-148 | for every machine the token channel's capacity is not negative |
| Pipeline.CpusIsLargest | core/CaRRoT/intstring.go:144 | the number of workers is the largest, up to the number of strings, that leaves two processors for every worker and collector |
| Pipeline.IntStringsReturns | core/CaRRoT/intstring.go:138-184 | it can return if and only if there are six processors or at most ten strings |
| Pipeline.IntStringsDelivers | core/CaRRoT/intstring.go:138-184 | when it returns, all blocks are delivered if and only if there are six processors or no string has a length field; below six none is |
| Pipeline.IntStringsCanDeliver | core/CaRRoT/intstring.go:138-184 | it can deliver all blocks if and only if there are six processors, or there are no blocks and at most ten strings |
| Pipeline.GroupStringsReturns | core/CaRRoT/intstring.go:33-88 | the other correlation can return if and only if there are four processors and a string, or at most ten pairs of groups |
| Pipeline.GroupStringsDelivers | core/CaRRoT/intstring.go:33-88 | when it returns, all blocks are delivered if and only if there are four processors or no pair matches; below four none is |
| Pipeline.IntStageBlocks | core/CaRRoT/main.go:154-156 | what the first correlation, switched on or off, adds to the list |
| Pipeline.GroupStageBlocks | core/CaRRoT/main.go:158-189 | what the second one adds |
| Pipeline.BlocksFrom | core/CaRRoT/main.go:154-189 | the listed blocks are exactly those of the correlations that are switched on and have workers |
| Pipeline.FieldEndsBeforeString | core/CaRRoT/intstring.go:205-206 | a candidate that starts before a text ends before it |
| Pipeline.IntBlockUsable | core/CaRRoT/intstring.go:191-228 | a block sent for a string of the file has its fields inside the file, before the string |
| Pipeline.AllBlocksFit | core/CaRRoT/main.go:154-189 | after the correlations that are switched on, under every interleaving, each listed block is usable or skipped by the mutator |
| Pipeline.EmptyMutantIff | core/CaRRoT/mutate.go:99-108 | after the analysis an empty file may be returned if and only if the first correlation has added nothing or the second something |
| Pipeline.OnlyEmptyMutants | core/CaRRoT/mutate.go:99-108 | if the first has added nothing, an empty file is all that is ever returned |
| Pipeline.Analyse | core/CaRRoT/ints.go:43-139 | the two scans in sequence establish what the correlation and the mutator rely on |
| Pipeline.MutateAnalysed | core/CaRRoT/mutate.go:45-57 | for every file, scan order, interleaving and random choice: after a complete analysis the chosen mutator stays in range, and its result is a permitted outcome |
| Pipeline.SpliceRescanned | core/CaRRoT/mutate.go:119-182 | leaving, shortening, lengthening or removing an ASCII text gives the old list with the new length, or without the text when that is below the limit, and the later texts moved; invalid bytes make the text disappear |
| Pipeline.SpliceMerged | core/CaRRoT/mutate.go:119-157 | the same for the merged list, when the text is left, shortened, lengthened or removed |
| Pipeline.AsciiTextIsReported | core/CaRRoT/strings.go:517-543 | an "ascii" entry of the merged list is in the ASCII digester's list |
| Tables.OthersOnePerJob | core/GlobalManager/GMDatabaseManager.cpp:523 | deleting by GUID keeps one manager per location and job |
| Tables.AtMostOneMatch | core/GlobalManager/GMDatabaseManager.cpp:76 | under the constraint at most one manager matches a worker |
| Tables.JoinIsNoneIffUnserved | core/GlobalManager/GMDatabaseManager.cpp:66-145 | the join has at most one row, and one exactly if a manager serves the worker's assigned job in its location |
| Tables.StoredIsUnassigned | core/GlobalManager/GMDatabaseManager.cpp:316 | a worker stored without a job is joined with no manager |
| Tables.GMDatabaseManager.GetFuzzJobWithoutLM | core/GlobalManager/GMDatabaseManager.cpp:588-638 | a job that is assigned to the location and unserved there, or none because there is none or on an error |
| Tables.GMDatabaseManager.SetLMForLocationAndFuzzJob | core/GlobalManager/GMDatabaseManager.cpp:361-420 | inserts the row if the constraint allows it, otherwise throws and changes nothing; keeps one manager per location and job |
| Tables.GMDatabaseManager.RemoveManagedLM | core/GlobalManager/GMDatabaseManager.cpp:515-545 | removes exactly the rows with that GUID |
| Tables.GMDatabaseManager.GetLMServiceDescriptorForWorker | core/GlobalManager/GMDatabaseManager.cpp:66-145 | the manager of the join if it has exactly one row, the null object otherwise |
| Tables.AddedIsStored | core/GlobalManager/GMDatabaseManager.cpp:318 | the row that is stored: the agent's address, type and subtypes, the ID of its location or NULL, and no job; all other rows stay |
| Tables.AssignedIsFound | core/GlobalManager/GMDatabaseManager.cpp:76 | once the user assigns a stored worker a job that a manager serves in its location, the join finds that manager |
| Tables.GMDatabaseManager.AddWorkerToDatabase | core/GlobalManager/GMDatabaseManager.cpp:298-359 | stores exactly that row, so that no manager is found for the worker yet |
| Tables.GMDatabaseManager.RemoveWorkerFromDatabase | core/GlobalManager/GMDatabaseManager.cpp:266-296 | removes exactly this worker: no manager is found for it any more, and the same as before for all others |
| Registration.TableKept | core/GlobalManager/RegisterAtGMRequestHandler.cpp:73-153 | every step keeps: one manager per location and job, served exactly if the last event for the pair is an insertion, and a removal between any two insertions |
| Registration.WinnersKept | core/GlobalManager/RegisterAtGMRequestHandler.cpp:113-147 | every step keeps: the logged insertions are those of the handlers that have answered with a configuration and no retry, one each |
| Registration.RunSafe | core/GlobalManager/RegisterAtGMRequestHandler.cpp:42-156 | both invariants in every state of every run |
| Registration.OneManagerEverywhere | core/GlobalManager/RegisterAtGMRequestHandler.cpp:131 | in every reachable state a pair has at most one manager, and a worker's join at most one row, none exactly if nobody serves its job |
| Registration.WinnerWasInserted | core/GlobalManager/RegisterAtGMRequestHandler.cpp:131-139 | a manager answered with a configuration and no retry had its own row inserted for that location and job, when nobody served the pair |
| Registration.AtMostOneWinner | core/GlobalManager/RegisterAtGMRequestHandler.cpp:131-146 | two handlers that win the same location and job after some moment have a removal for that pair after that moment |
| Registration.RetryIffNotInserted | core/GlobalManager/RegisterAtGMRequestHandler.cpp:133-146 | a manager that has a configuration is told to retry if and only if no row was inserted for it |
| Registration.RetryIffServed | core/GlobalManager/RegisterAtGMRequestHandler.cpp:133-146 | a manager that has a configuration came to its insertion step before, and is told to retry if and only if the database refused that or the constraint forbade the row then |
| Registration.WasPicked | core/GlobalManager/RegisterAtGMRequestHandler.cpp:116-118 | a handler with a job picked it in a step at which nobody served it |
| Registration.TakenBetween | core/GlobalManager/GMDatabaseManager.cpp:379 | a pair that is free at one moment and served later is taken by an insertion in between |
| Registration.RaceLost | core/GlobalManager/RegisterAtGMRequestHandler.cpp:131-138 | when the constraint forbids a handler's row, another handler inserted one for that location and job after this one had picked it |
| Registration.RemovalHappened | core/GlobalManager/LMMonitorWorker.cpp:110-114 | a logged removal is a step after which nobody serves the pair any more, though somebody did before |
| Registration.AskedWasJoined | core/GlobalManager/RegisterAtGMRequestHandler.cpp:79-85 | a manager that is asked was the one row of the worker's join |
| Registration.AnsweredWasWelcomed | core/GlobalManager/RegisterAtGMRequestHandler.cpp:79-98 | a worker is answered with a manager only if the join gave that manager and it welcomed the worker afterwards |
| Registration.LaterIsStored | core/GlobalManager/RegisterAtGMRequestHandler.cpp:99-110 | the step that tells a worker to retry stores it with no job and no manager, or the database refused and nothing changed |
| Registration.WorkerWasStored | core/GlobalManager/RegisterAtGMRequestHandler.cpp:99-110 | in every run each worker not answered with a manager is told to retry, and an earlier step stored its row with no job, so that no manager is found, or the database refused and nothing changed |
| Registration.AssignedIsAsked | core/GlobalManager/RegisterAtGMRequestHandler.cpp:79-102 | stored by one handler, assigned by the user and registered again, a worker is led to the manager that serves the job in its location |
| Registration.ManagerWasStored | core/GlobalManager/RegisterAtGMRequestHandler.cpp:118-129 | in every run a local manager that gets no configuration is told to retry, and an earlier step stored it without a job, or the database refused that, or a configuration could not be loaded |
| Registration.PhasesFit | core/GlobalManager/RegisterAtGMRequestHandler.cpp:73-153 | workers and local managers go through phases of their own in every run |
| Handling.HandleWorker | core/GlobalManager/RegisterAtGMRequestHandler.cpp:75-112 | for every combination of failures and of the manager's reply: the answer, the rows stored and removed, and a path of the protocol that leads there |
| Handling.HandleLocalManager | core/GlobalManager/RegisterAtGMRequestHandler.cpp:113-147 | for every combination of failures: the answer, the row inserted or stored, and a path of the protocol that leads there |
| Handling.HandleFluffiMessage | core/GlobalManager/RegisterAtGMRequestHandler.cpp:42-156 | every undisturbed execution of the handler is a path of the protocol, from its start to its answer |
| LogTrim.OffsetExists | core/GlobalManager/GMDatabaseManager.cpp:898 | among more than `num` rows one has exactly `num` newer ones |
| LogTrim.TrimmedKeepsNewest | core/GlobalManager/GMDatabaseManager.cpp:891-921 | trimming keeps the `num` newest rows, or all if there are no more |
| LogTrim.TrimmedTwice | core/GlobalManager/GMDatabaseManager.cpp:891-921 | trimming again changes nothing |
| LogTrim.LogTable.DeleteIfMoreThan | core/GlobalManager/GMDatabaseManager.cpp:891-921 | the effect of the DELETE with the join on the row at the offset, or false and no change if the statement fails |
| Witnesses.SeamTexts | core/CaRRoT/strings.go:387-390 | the one text of a file of eight bytes ends in a lead byte |
| Witnesses.SeamIsMutated | core/CaRRoT/mutate.go:135-142 | it has a length field, and the mutator may lengthen it by one whole unit |
| Witnesses.SeamBreaks | core/CaRRoT/mutate.go:367-371 | what is written then is not read without a break |
| Witnesses.FieldIsCandidate | core/CaRRoT/ints.go:250-254 | two bytes before that text are an integer candidate |
| Witnesses.ShortTexts | core/CaRRoT/strings.go:490-550 | the texts of another file of eight bytes |
| Witnesses.ShortHasField | core/CaRRoT/intstring.go:198-228 | its string has a length field, whatever order its integers are found in |
| Witnesses.FourProcessorsLoseTheBlock | core/CaRRoT/intstring.go:143-144 | on four processors the block of that string is lost whenever the correlation returns, and it can return |
| Witnesses.FourProcessorsEmptyTheFile | core/CaRRoT/mutate.go:105-108 | the only mutant of that file is then empty |
| Witnesses.SixProcessorsDoNot | core/CaRRoT/mutate.go:105-108 | on six processors none of its mutants is |
| Witnesses.ElevenTexts | core/CaRRoT/strings.go:490-550 | a file of 22 bytes with eleven texts, at a minimum length of 1 |
| Witnesses.FourProcessorsHang | core/CaRRoT/intstring.go:158-166 | on four processors these strings keep main from ever returning |
| Witnesses.TailIsPlausible | core/CaRRoT/ints.go:57-60 | a plausible integer at the end of a file is not a candidate |
| Witnesses.TailTexts | core/CaRRoT/strings.go:490-550 | that file has no texts, whatever the minimum length |
| Witnesses.ScanTail | core/CaRRoT/ints.go:43-139 | no order of the two scans records the integer, with or without deduplication |
| Race.SecondIsConfiguredInVain | core/GlobalManager/RegisterAtGMRequestHandler.cpp:131-146 | a run in which the second of two managers receives the configuration, is told to retry, and has no row |

## Left out

- ScanInts.Scan: requires a file of at least 8 bytes; in a shorter one the source's unsigned guards (`Size-8` and its kin) wrap around.
- ScanStrings.Scan: requires a minimum text length of at least 1; the "unicode" entries and the positions of magics are arbitrary inputs.
- ScanInts.SortByPos: has the contract of `sort.Slice` only; the library's algorithm is not modelled, and integers at one position may come in any order.
- Correlate.TooFlatIsIntegerTest: is about real numbers; `Correlate.RoundingIsHarmless` carries it over to doubles, for counts up to 2^49.
- Correlate.GroupWorkerStep: requires break pairs inside the lists, as the source does, which panics otherwise.
- Digesters.AsciiDigester: requires a minimum text length of at least 1; with 0, which the flag accepts, the source records empty texts, and the merge then fails at one that starts at the end of the file.
- Digesters.Utf8Digester: requires a minimum text length of at least 1, for the same reason.
- Digesters.AsciiLoop: requires a minimum text length of at least 1, for the same reason.
- Digesters.Utf8Loop: requires a minimum text length of at least 1, for the same reason.
- Dedup.OfWidth: its contract is about elements only; order and multiplicity are in `Dedup.OfWidthSelects`.
- Correlate.LengthFields: its contract is about elements only; order and multiplicity are in `Correlate.LengthFieldsSelects`.
- Pipeline.SpliceMerged: is about ASCII texts; behind a replaced UTF-8 text the rejected byte may be read in another state, so nothing is claimed there.
- ScanInts.TryPlace: requires a file of at least 8 bytes, as the scan does.
- ScanInts.Record: requires a file of at least 8 bytes, as the scan does.
- Pipeline.Analyse: requires a file of at least 8 bytes and a minimum text length of at least 1, as the scans do.
- Fillers.AlwaysPassesIff: quantifies over all fillings by whole units; which of them the random choices make likely is not modelled.
- StringMutator.Do: does not model 64-bit overflow of lengths, nor arguments of `ran` of 2^63 or more.
- StringMutator.RemoveTerminator: builds a new array where the source's `append` shifts the tail inside the old one.
- StringMutator.ReplaceText: `rand.Reader` is an arbitrary choice; distributions are not modelled.
- Pipeline.AllBlocksFit: the pairs of groups fed to the group workers are arbitrary; their selection rests on groupings that are not part of this model, and a pair that does not lie inside the lists makes no block.
- FanOut.Completes: says that main can always get to return; that it does presumes a scheduler that does not favour main's busy waiting for ever.
- Registration.WorkerWasStored: a refused database statement leaves the worker as it was; the source logs that and answers all the same.
- Registration.AtMostOneWinner: the one-manager constraint is taken from the comment in the request handler and from the database manager's tests; the SQL schema is not part of this model, and an INSERT may fail for other reasons, too.
- Tables.GMDatabaseManager.SetLMForLocationAndFuzzJob: connection handling, parameter binding and logging are not modelled; a failing statement is a Boolean input.
- Locations only grow: the model has no step that deletes or renames one.
- Network replies (welcome of a worker, status of a manager) are nondeterministic.
- The contents of a local manager's configuration: only the job it belongs to is recorded.
- `GroupInts`, `GroupStrings`: they rest on the `jenks` package, which is not part of this model, and on floating-point scores.
- `unicodedigester`, `bomdigester`, `compareHelper`: the former's entries never survive the merge; the latter rest on the `ring` package, which is not part of this model.
- The counters `possibleAscii` and `possibleUtf`, which nothing reads, and the memory of `Block.P`.
- Loading and saving the database, flags, logging, the `quit` channel, and the entropy and superstructure heuristics, whose calls are commented out.
- The monitor's other statements (commands, statuses, log messages by age), and its polling: a removal, a trimming or a deletion of workers may happen at any time.
- Local Manager components and the test-case runners.
