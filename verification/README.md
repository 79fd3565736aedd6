# Verified models of the retrieval engine's core algorithms

A Dafny 4.11 project about the self-contained algorithms of the engine and of its reference
scripts: what they compute, what holds over every run of them, and where they stop short of what
their documentation says. `dafny verify dfyconfig.toml` checks everything.

## How it is built

Code that updates state step by step is a method with loops, or a class, proved against a
specification function; the properties are lemmas about those functions.

* **Chunking.** `ChunkSpec` says on characters what a chunker computes. `RustChunker` is the engine's
  program on UTF-8 bytes, `PythonChunker` the reference on code points (`contract.py` and
  `gen_008_fixtures.py` hold the same code). Both are proved to compute `ChunkSpec.Chunk`, so
  `ChunkRefinement` gets their agreement and every property of the specification for both. The cost is
  an arbitrary pure function of the text. `ChunkMeaning` says what comes out without the expansion and the
  packing loop; `ChunkTiling`, `ChunkCosts`, `ChunkWords`, `ChunkLineFeeds` and `ChunkLevels` hold the other
  properties; `Utf8` the encoding.
* **The interruptible sparse encode.** `SparseCodec` is the `weights.bin` layout, weights kept as
  32-bit patterns. `SparseProtocol` is a transition system: a disk, a process, and steps for every
  file operation, for a process that dies, and for a crash. A crash may replace every unsynced byte of
  the data file by any byte, cut or lengthen its unsynced part, undo a rename whose directory was not
  synced, and keep, lose or damage a `key.json` whose contents were never synced, but never turn it
  into another key. Entries become durable when the directory is synced; removing a directory is one step.
  `CacheRun` is the program over that system, with its errors. What the encoder gives is a pure function
  of key and position, and which documents it fails on may differ from run to run. `SparseSyncPoints` says how
  much a crash can cost, a progress record being written after every 1000 documents of a run.
* **Metrics and re-ranking.** `Metrics` and `QueryScores` are the evaluation, `MetricValues` its values,
  `Rerank` the depth study, `Interpolate` the ordering oracle, `RerankOrders` what their orders are on the
  fields of the candidates, `FusionCheck` the rank-fusion oracle and its checker, `Sorting` the stable sort
  they share. Scores are reals; the discount is any positive, strictly increasing sequence.
* **Lexical reference.** `EditDistance` and `PhraseCount`.
* **Quantisation.** `Quantise` and `QuantiseValues`, over reals, with the integer loops in 32 and 64 bits.
* **State and caches.** `StagedIndex` compares two staged/committed index models; `ScoreCache` is the
  re-rank score log under interruption, with the line format and the cross-encoder as parameters, and
  `ScoreLogs` what such a log holds;
  `FieldText` the text of a sparse field.

## Where the code and its documentation disagree

* The chunker's header allows only a one-character fragment to exceed the budget
  (`crates/xtriever-analysis/src/chunk.rs:14-16`). The code also stops at "a" followed by a three-byte
  character, and at every run whose last character is at least two bytes wider than all before it, six
  bytes at most (`StuckIff`). The claim holds exactly when every such run of two characters or more fits
  (`BoundIff`).
* A query with nothing relevant scores 0.0 and never NaN, as the metrics' table says; but nDCG@0 of a
  query with something relevant divides zero by zero (`NdcgBounds`). `score_queries` only asks for nDCG@10.
* The phrase count is one pairing of positions within the slop, and always the largest only for slop 0
  (`CountIsLargestIff`).
* The fusion checker compares tie blocks as sets, so a repeated id passes (`RepeatsPass`); what it accepts
  is the oracle's order, up to ties, exactly when no id is repeated (`AcceptedBeginsIffDistinct`).
* The score cache promises to recover from an interrupted write. It reads the file as text before it
  cuts the tail, so a write torn inside a multi-byte character makes every later run refuse the file
  (`WideCharacterTears`, `BlockedForGood`). Every interruption is recovered from exactly when all lines
  hold one-byte characters only (`HistoriesReadableIff`).
* An interrupted encode is to resume from its progress record
  (`specs/027-sparse-lexical-expansion/contracts/surfaces-and-eval.md:17-20`). Nothing syncs the contents of
  `key.json`, so a crash may lose it alone, at any time; a run under the same key then removes the directory
  with every record in it (`LostKeyStartsOver`). It resumes exactly when the crash left the key readable
  (`ResumesAfterCrashIff`), and nothing else short of a run under another key loses progress
  (`ProgressKeptIff`).
* That re-ranking cannot change Recall@k holds for all scores and judgements just when the head is no deeper
  than k, the list no longer than k, or k is 0 (`RecallKeptIff`; `KeepsTopKIff` for the ids).

## Model

| member | source | states |
|---|---|---|
| `Utf8.EncodeSlice` | crates/xtriever-analysis/src/chunk.rs:265-286 | slicing the bytes of a body at two character offsets gives the bytes of the slice of characters, so byte ranges and character ranges name the same text |
| `Utf8.EncodeCharIsRfc3629` | crates/xtriever-analysis/src/chunk.rs:265-286 | a character is encoded in one of the four shapes of RFC 3629, section 3: markers, payload bits most significant first, shortest form |
| `Utf8.CharAtOffset` | crates/xtriever-analysis/src/chunk.rs:199-262 | at every character offset the bytes decode to that character, and only its first byte is a boundary (RFC 3629, section 3) |
| `Utf8.BoundaryIffOffset` | crates/xtriever-analysis/src/chunk.rs:276-282 | the positions `is_char_boundary` accepts are exactly the offsets of characters |
| `Utf8.EncodeInjective` | crates/xtriever-analysis/src/chunk.rs:66-92 | a byte string is the encoding of at most one text |
| `RustChunker.TrimStartBytes` | crates/xtriever-analysis/src/chunk.rs:288-296 | the scan over bytes stops at the offset where trimming on characters stops |
| `RustChunker.TrimEndBytes` | crates/xtriever-analysis/src/chunk.rs:288-296 | likewise from the end |
| `RustChunker.PushTrimmed` | crates/xtriever-analysis/src/chunk.rs:288-296 | adds the trimmed slice, or nothing when only whitespace is left |
| `RustChunker.SkipInnerBytes` | crates/xtriever-analysis/src/chunk.rs:199-221 | skips spaces, tabs and carriage returns after a line feed and tells whether a second line feed follows |
| `RustChunker.SplitParagraphs` | crates/xtriever-analysis/src/chunk.rs:199-221 | the byte scan for blank lines gives the paragraphs of the text, as byte ranges |
| `RustChunker.SplitSentences` | crates/xtriever-analysis/src/chunk.rs:224-241 | the scan gives the sentences of the slice, as byte ranges |
| `RustChunker.SplitWords` | crates/xtriever-analysis/src/chunk.rs:244-262 | the scan with an open run gives the words of the slice, as byte ranges |
| `RustChunker.SplitPoint` | crates/xtriever-analysis/src/chunk.rs:276-282 | the loop to the next boundary stops at the first character offset at or after half the bytes, or at the end |
| `RustChunker.SplitFragments` | crates/xtriever-analysis/src/chunk.rs:265-286 | the recursion gives the fragments of the slice, as byte ranges, for every cost; it ends |
| `RustChunker.CollapseBytes` | crates/xtriever-analysis/src/chunk.rs:299-314 | collapsing on characters written to bytes is the encoding of the collapsed text |
| `RustChunker.Packer.JoinCurrent` | crates/xtriever-analysis/src/chunk.rs:176-195 | the text of a passage joins its units by a space, or by a line feed where a paragraph begins |
| `RustChunker.Packer.Flush` | crates/xtriever-analysis/src/chunk.rs:176-195 | closes the group at hand as one passage with its text, byte range and cost, or does nothing |
| `RustChunker.Packer.Append` | crates/xtriever-analysis/src/chunk.rs:167-173 | adds a unit, closing the group before it exactly when they do not fit together |
| `RustChunker.Packer.Place` | crates/xtriever-analysis/src/chunk.rs:105-165 | packs a unit, or its finer units level by level when it is too dear alone |
| `RustChunker.Packer.PlaceAll` | crates/xtriever-analysis/src/chunk.rs:105-165 | packs the finer units of a unit in order |
| `RustChunker.Chunk` | crates/xtriever-analysis/src/chunk.rs:66-92 | the whole engine chunker on bytes computes, for every UTF-8 body, budget and pure cost, the passages `ChunkSpec.Chunk` gives its text, nothing for budget 0 or an empty body |
| `PythonChunker.Trim` | apps/python-wiki-demo/wikidemo/contract.py:41-47 | the two loops give the bounds without outer whitespace |
| `PythonChunker.CollapseText` | apps/python-wiki-demo/wikidemo/contract.py:50-62 | whitespace runs become one space each |
| `PythonChunker.SplitParagraphs` | apps/python-wiki-demo/wikidemo/contract.py:65-88 | cutting first and trimming afterwards gives the same paragraphs |
| `PythonChunker.SplitSentences` | apps/python-wiki-demo/wikidemo/contract.py:91-107 | cutting first and trimming afterwards gives the same sentences |
| `PythonChunker.SplitWords` | apps/python-wiki-demo/wikidemo/contract.py:110-124 | the index loops give the maximal runs |
| `PythonChunker.SplitIndex` | apps/python-wiki-demo/wikidemo/contract.py:136-147 | counting bytes character by character finds the first position at or after half the bytes |
| `PythonChunker.SplitFragments` | apps/python-wiki-demo/wikidemo/contract.py:131-147 | the recursion gives the same fragments |
| `PythonChunker.ByteTable` | apps/python-wiki-demo/wikidemo/contract.py:154-157 | the table holds the byte offset of every character |
| `PythonChunker.JoinUnits` | apps/python-wiki-demo/wikidemo/contract.py:163-177 | the text of a passage joins its units by a space, or by a line feed where a paragraph begins |
| `PythonChunker.Chunker.Flush` | apps/python-wiki-demo/wikidemo/contract.py:163-177 | closes the group at hand as one passage |
| `PythonChunker.Chunker.Append` | apps/python-wiki-demo/wikidemo/contract.py:202-207 | adds a unit, closing the group before it exactly when they do not fit together |
| `PythonChunker.Chunker.Place` | apps/python-wiki-demo/wikidemo/contract.py:179-200 | packs a unit or, level by level, its finer units |
| `PythonChunker.Chunk` | apps/python-wiki-demo/wikidemo/contract.py:150-212 | the reference chunker computes the passages of `ChunkSpec.Chunk` with their byte ranges |
| `ChunkRefinement.BothChunkers` | specs/008-wiki-corpus/contracts/chunker.md:18-20 | the two programs return the same number of passages with the same texts, byte ranges and costs for every body, budget and cost |
| `ChunkRefinement.EngineRangesTile` | crates/xtriever-analysis/src/chunk.rs:7-26 | for every UTF-8 body: ranges lie inside it, begin and end at character boundaries, increase without overlap, and every byte outside them belongs to a whitespace character |
| `ChunkRefinement.ReportsAre` | crates/xtriever-analysis/src/chunk.rs:176-195 | what both programs report of a passage: its text in UTF-8, or as characters, the number of bytes before its two ends, and its cost; the price of a text is the price of its bytes |
| `ChunkTiling.AllUnitsTile` | crates/xtriever-analysis/src/chunk.rs:105-165 | through all four levels, the units given to the packer are non-empty, in order, disjoint, carry the collapsed text of their slice, and leave only whitespace out |
| `ChunkTiling.FeedAllKeepsUnits` | crates/xtriever-analysis/src/chunk.rs:94-196 | packing neither drops, repeats nor reorders a unit |
| `ChunkTiling.GroupsTile` | crates/xtriever-analysis/src/chunk.rs:176-195 | consecutive units of a tiling, grouped, tile as well |
| `ChunkTiling.PassagesTile` | crates/xtriever-analysis/src/chunk.rs:21-25 | passage ranges lie inside the body, increase, do not overlap, and every character outside them is whitespace |
| `ChunkTiling.PassagesKeepText` | crates/xtriever-analysis/src/chunk.rs:21-25 | a passage text and its slice of the body agree once whitespace is deleted |
| `ChunkCosts.StuckIff` | crates/xtriever-analysis/src/chunk.rs:276-282 | `fragments` cannot cut a run exactly when it is one character or its last character is at least two bytes wider than all before it; such a run has at most six bytes |
| `ChunkCosts.FragmentsStop` | crates/xtriever-analysis/src/chunk.rs:265-286 | every fragment fits or cannot be cut |
| `ChunkCosts.PassagesWithinBudget` | crates/xtriever-analysis/src/chunk.rs:14-16 | a passage costs at most the budget, or is one run of non-whitespace that cannot be cut, emitted unchanged, at most six bytes long |
| `ChunkCosts.ShortRunsFit` | crates/xtriever-analysis/src/chunk.rs:14-16 | if every run of at most six bytes fits, every passage does |
| `ChunkCosts.StuckWordOverflows` | crates/xtriever-analysis/src/chunk.rs:276-282 | each too dear body that is one such run comes back whole over budget, and "a" followed by a three-byte character is one |
| `ChunkCosts.BoundIff` | crates/xtriever-analysis/src/chunk.rs:14-16 | the exception is exact: over all bodies only passages of at most n characters exceed the budget if and only if every text of more than n characters that cannot be cut fits; n = 1 is the documented claim |
| `ChunkCosts.CostsAddUp` | crates/xtriever-analysis/src/chunk.rs:176-195 | the costs of the passages add up to the costs of the units |
| `ChunkCosts.NeighboursOverflow` | crates/xtriever-analysis/src/chunk.rs:167-173 | two neighbouring passages together cost more than the budget |
| `ChunkCosts.HalfFull` | crates/xtriever-analysis/src/chunk.rs:167-173 | k >= 2 passages: budget times k / 2, rounded down, is less than the total unit cost |
| `ChunkCosts.FewestPassages` | crates/xtriever-analysis/src/chunk.rs:167-173 | no grouping of the same units in order into groups that fit has fewer groups: next-fit is optimal here |
| `ChunkWords.PassagesAreCollapsedSlices` | crates/xtriever-analysis/src/chunk.rs:176-195 | when every word fits, a passage text with its line feeds turned to spaces is its slice of the body with whitespace collapsed |
| `ChunkLineFeeds.LineFeedsAtParagraphs` | crates/xtriever-analysis/src/chunk.rs:19-20 | a passage text has a line feed for every paragraph that begins inside its range and no other; what stands before it is what stands in the body before the paragraph, whitespace aside |
| `ChunkWords.RechunkPassage` | crates/xtriever-analysis/src/chunk.rs:66-92 | chunking a passage text that fits whole gives one passage, the same text with its line feeds turned to spaces |
| `ChunkWords.WordChunks` | reference/gen_008_fixtures.py:232-233 | under word counts and budget >= 1 no passage is over budget, a cost is the number of words of the text, and the words of the passages add up to those of the body |
| `ChunkLevels.ParagraphsAtBlankLines` | crates/xtriever-analysis/src/chunk.rs:199-221 | paragraphs hold no blank line, a blank line lies between any two, and they leave only whitespace out |
| `ChunkLevels.SentencesAtTerminators` | crates/xtriever-analysis/src/chunk.rs:224-241 | every sentence but the last ends at a terminator before whitespace, none ends earlier inside, and they leave only whitespace out |
| `ChunkLevels.WordsAreMaximalRuns` | crates/xtriever-analysis/src/chunk.rs:244-262 | words are the maximal runs of non-whitespace |
| `ChunkLevels.WhitespaceIs` | crates/xtriever-analysis/src/chunk.rs:30-31 | whitespace is the 25 code points of Unicode White_Space |
| `ChunkLevels.BlankLineIs` | crates/xtriever-analysis/src/chunk.rs:199-221 | a blank line is two line feeds with nothing but spaces, tabs and carriage returns between them |
| `ChunkLevels.SentenceEndIs` | crates/xtriever-analysis/src/chunk.rs:224-241 | a sentence ends at a full stop, exclamation or question mark that whitespace of the slice follows |
| `ChunkLevels.CollapseIs` | crates/xtriever-analysis/src/chunk.rs:299-314 | collapsing puts one space for every run of whitespace and leaves a text without whitespace alone |
| `ChunkMeaning.UnitsArePieces` | crates/xtriever-analysis/src/chunk.rs:105-165 | the slices that become units are exactly: the paragraphs that fit; of those that do not, the sentences that fit; of those that do not, the words that fit; and the fragments of the words that do not |
| `ChunkMeaning.FittingPiecesUncut` | crates/xtriever-analysis/src/chunk.rs:105-165 | no passage begins or ends strictly inside a paragraph that fits, a sentence that fits of any paragraph, or a word that fits of any sentence |
| `ChunkMeaning.CutsAreEdges` | crates/xtriever-analysis/src/chunk.rs:105-165 | a passage that begins or ends strictly inside a paragraph does so only where the paragraph does not fit, at the edge of one of its sentences or, inside a sentence that does not fit, at the edge of a word or, inside a word that does not fit, of a fragment |
| `ChunkMeaning.FragmentsWhole` | crates/xtriever-analysis/src/chunk.rs:265-286 | a run that fits, or in which no character starts at or after half its bytes, stays whole |
| `ChunkMeaning.FragmentsCut` | crates/xtriever-analysis/src/chunk.rs:265-286 | any other run is cut at the first character that starts at or after half its bytes, rounded down, and each part likewise |
| `ChunkMeaning.GroupsAreNextFit` | crates/xtriever-analysis/src/chunk.rs:167-173 | the passages group the units in the one way in which each group fits or is a single unit and the first unit of the next did not fit beside it |
| `ChunkMeaning.CostIsSum` | crates/xtriever-analysis/src/chunk.rs:167-173 | the cost of a group is the sum of the costs of its units |
| `ChunkMeaning.JoinLayout` | crates/xtriever-analysis/src/chunk.rs:176-195 | a passage text is the texts of its units, one character between neighbours and nothing else: a line feed before a unit that begins a paragraph, a space before any other |
| `ChunkMeaning.ChunkMeaning` | crates/xtriever-analysis/src/chunk.rs:66-196 | chunking in one statement: units that tile the body, whose slices are exactly the pieces, with collapsed texts and marks where paragraphs begin; next-fit groups; and one passage for each group with its range, summed cost and joined text |
| `ChunkMeaning.ChunkNothing` | crates/xtriever-analysis/src/chunk.rs:66-70 | there is no passage exactly for budget 0 or a body of whitespace alone |
| `SparseCodec.AppendExpansion` | crates/xtriever-eval/src/run.rs:918-930 | appends the record of an expansion, or refuses one of 2^32 entries or more |
| `SparseCodec.WriteExpansions` | crates/xtriever-eval/src/run.rs:851-861 | the bytes are the records of all expansions in order; an error exactly when one does not fit, with the number of entries of the first such |
| `SparseCodec.ReadExpansions` | crates/xtriever-eval/src/run.rs:936-982 | the cursor loop computes `SparseCodec.Read`, with the same error for the same defect |
| `SparseCodec.ReadsWhatWasWritten` | crates/xtriever-eval/src/run.rs:936-982 | reading n records that were written gives them back bit for bit |
| `SparseCodec.AcceptedIffWritten` | crates/xtriever-eval/src/run.rs:936-982 | bytes are accepted as n documents exactly when they are what writing those n documents produces |
| `SparseCodec.PrefixRefused` | crates/xtriever-eval/src/run.rs:936-982 | every strict prefix of a file is refused as ending inside a document |
| `SparseCodec.PrefixEndsAt` | crates/xtriever-eval/src/run.rs:936-982 | a file cut at any byte is refused as ending inside the very document whose record is cut or is the first missing |
| `SparseCodec.FlagRefused` | crates/xtriever-eval/src/run.rs:954-963 | a truncation flag other than 0 and 1 is refused with its document and value, whatever count stands before it |
| `SparseCodec.FileLayout` | crates/xtriever-eval/src/run.rs:918-930 | byte by byte: at the sum of 5 + 8 * entries over the documents before, the count, least significant byte first, the flag, and at 5 + 8 * i and 9 + 8 * i the id and the weight of entry i |
| `SparseCodec.ExtensionRefused` | crates/xtriever-eval/src/run.rs:975-982 | every extension is refused with the number of bytes after the last document |
| `SparseCodec.ZerosReadAsADocument` | crates/xtriever-eval/src/run.rs:863-868 | five zero bytes after a file read as one more, empty document, which is why progress is recorded |
| `SparseProtocol.StepKeeps` | crates/xtriever-eval/examples/beir.rs:225-337 | every step of the encode, of the operating system, and every crash keeps the invariant: a readable progress record names a durable prefix holding exactly the first expansions |
| `SparseProtocol.RunKeeps` | crates/xtriever-eval/examples/beir.rs:225-337 | the invariant holds after every run of steps, kills and crashes with arbitrary unsynced bytes |
| `SparseProtocol.RunsReturnTheCorpus` | crates/xtriever-eval/examples/beir.rs:183-347 | in no reachable state is a record stale or a file of the run itself unreadable, and whatever a run returns is the expansion of every passage in order |
| `SparseProtocol.CrashedDiskDecodes` | crates/xtriever-eval/examples/beir.rs:234-275 | after a crash at any moment the recorded prefix decodes to exactly that many expansions, and a finished file under its key to all of them |
| `SparseProtocol.RemovalLosesNothing` | crates/xtriever-eval/examples/beir.rs:276-287 | a run that removes the directory under its own key finds no data file or no record there, and nothing a crash would be sure to leave |
| `SparseProtocol.ProgressKeptIff` | crates/xtriever-eval/examples/beir.rs:234-332 | a step of a run, a kill or a crash keeps the documents recorded under a key if and only if it is neither the removal by a run under another key nor a crash that loses `key.json` |
| `SparseProtocol.ResumesAfterCrashIff` | specs/027-sparse-lexical-expansion/contracts/surfaces-and-eval.md:17-20 | after a crash a run under the same key resumes at the recorded documents or behind them, or finds the finished cache, if and only if the crash left `key.json` readable |
| `SparseProtocol.LostKeyStartsOver` | crates/xtriever-eval/src/run.rs:418-422 | at every moment with progress to lose, a crash may lose the never synced `key.json` alone; a run under the same key then removes the records and bytes that are all still there |
| `SparseSyncPoints.RecordsEveryThousand` | crates/xtriever-eval/examples/beir.rs:314-325 | while a run encodes, the one record a crash can show is that of the last multiple of 1000 documents since it began |
| `SparseSyncPoints.LosesAtMostAThousand` | crates/xtriever-eval/examples/beir.rs:314-325 | a crash that leaves the key readable costs a run that began the corpus, or has encoded more than 1000 documents, at most its last 1000 |
| `SparseSyncPoints.LossBoundedIff` | crates/xtriever-eval/examples/beir.rs:314-337 | and exactly: beyond 1000 documents no such crash costs a run more than its last 1000 if and only if the directory entries are durable and every record a crash may show is one of all but the last 1000 at most |
| `SparseSyncPoints.StartIs` | crates/xtriever-eval/examples/beir.rs:234-275 | when a run finds the finished cache, when it resumes and at which document, and when it refuses a record |
| `SparseSyncPoints.OutcomeIs` | crates/xtriever-eval/examples/beir.rs:290-312 | a run gives the count of the passages when it is not that of the key, else the first document at or behind its start that it stops at, else the expansion of every document |
| `SparseSyncPoints.CrashMay` | crates/xtriever-eval/examples/beir.rs:314-347 | what a crash is allowed to do: lose the key or make it unreadable, show any possible record, leave any bytes behind the durable ones, take a file whose entry is not durable, undo a rename that is not |
| `SparseSyncPoints.CrashOfFile` | crates/xtriever-eval/examples/beir.rs:314-325 | a crash leaves of the data file exactly a file with the same durable bytes and anything behind them, or the file itself when all of it is durable |
| `SparseProtocol.CacheRun.Prepare` | crates/xtriever-eval/examples/beir.rs:264-299 | resuming cuts the file to the record, makes the cut durable and reads back exactly the recorded documents; otherwise the directory is replaced and the run begins with none; either way the file holds just these records |
| `SparseProtocol.CacheRun.RecordProgress` | crates/xtriever-eval/examples/beir.rs:316-325 | flush, sync, then the durable record: afterwards exactly that record can be read |
| `SparseProtocol.CacheRun.Seal` | crates/xtriever-eval/examples/beir.rs:333-335 | sync, rename, directory sync: the data file is durable under its final name and the same key |
| `SparseProtocol.CacheRun.Finish` | crates/xtriever-eval/examples/beir.rs:333-347 | then the progress record is removed and the expansions are returned |
| `SparseProtocol.CacheRun.EncodeNext` | crates/xtriever-eval/examples/beir.rs:300-332 | one document more, and after every thousandth of the run a progress record that any crash leaves |
| `SparseProtocol.CacheRun.EncodeRest` | crates/xtriever-eval/examples/beir.rs:300-332 | the loop encodes to the end of the corpus, or to the first document the encoder fails on or expands beyond the count field; there the run ends and the partial file holds exactly the records of the documents before it |
| `SparseProtocol.CacheRun.SparseExpansions` | crates/xtriever-eval/examples/beir.rs:183-347 | the program, from any reachable state and by enabled steps only: a finished cache is returned and untouched; otherwise the result is the expansion of every passage, or the error of a differing passage count, or of the first document at or behind the resume point that the encoder stops at |
| `Metrics.ComputeHead` | crates/xtriever-eval/src/metrics.rs:22-34 | the loop with its seen set computes the head |
| `Metrics.HeadMeaning` | crates/xtriever-eval/src/metrics.rs:22-34 | the head holds each id at its first rank, in that order, and all ids when it is not full |
| `Metrics.HeadOfDistinct` | crates/xtriever-eval/src/metrics.rs:22-34 | a list without repeats is cut at k |
| `Metrics.BestFirst` | crates/xtriever-eval/src/metrics.rs:41-59 | any part of a descending list adds up to at most its beginning of the same length |
| `Metrics.GainsAreGrades` | crates/xtriever-eval/src/metrics.rs:41-59 | the positive gains of distinct ids are some of the positive grades, all of them exactly when no relevant id is missing |
| `Metrics.AheadIsWorthMore` | crates/xtriever-eval/src/metrics.rs:36-59 | a list ahead on every prefix sum is ahead in discounted sum, strictly so unless level everywhere |
| `Metrics.NdcgBounds` | crates/xtriever-eval/src/metrics.rs:41-59 | nDCG@k lies in [0, 1] for every list, repeats included, and all grades; it is 1 exactly when the padded gains of the head are the padded ideal gains; it is NaN exactly when k is 0 and something is relevant |
| `Metrics.RecallBounds` | crates/xtriever-eval/src/metrics.rs:62-72 | recall@k lies in [0, 1] and is 1 exactly when every relevant id is among the first k distinct ones |
| `MetricValues.HeadByRank` | crates/xtriever-eval/src/metrics.rs:22-34 | an id is in the head exactly when its distinct rank, the number of distinct ids up to its first rank, is at most k, and it stands at that rank |
| `MetricValues.NdcgIs` | crates/xtriever-eval/src/metrics.rs:41-59 | the value of nDCG@k: times the discounted sum of the positive grades, best first and cut at k, it is the sum of the judged grades, each discounted at the distinct rank of its id when that is at most k |
| `MetricValues.NdcgOfOne` | crates/xtriever-eval/src/metrics.rs:41-59 | with one relevant id at distinct rank r it is discount(1) / discount(r), or 0 beyond k |
| `MetricValues.RecallIs` | crates/xtriever-eval/src/metrics.rs:62-72 | recall@k times the number of relevant ids is the number of relevant ids with a distinct rank of at most k |
| `Metrics.HitsOfPermutation` | crates/xtriever-eval/src/metrics.rs:62-72 | hits do not depend on the order of the ids |
| `QueryScores.ScoreJudged` | crates/xtriever-eval/src/metrics.rs:96-134 | the loop scores the judged queries of the run in order and counts unjudged ones, ones with nothing relevant, and ones whose own id was returned |
| `QueryScores.CountMissing` | crates/xtriever-eval/src/metrics.rs:135-141 | counts the judged queries the run lacks |
| `QueryScores.ScoreQueries` | crates/xtriever-eval/src/metrics.rs:96-149 | every query of the run is scored or unjudged, every judged query scored or not retrieved, and the means times the count are the sums, between 0 and 1 |
| `QueryScores.EveryJudgedScored` | crates/xtriever-eval/src/metrics.rs:100-134 | each judged query of the run has its score, in the order of the run: nDCG cut at 10 and recall cut at 100 of its own ids and judgements, by the distinct ranks counted without the query itself |
| `QueryScores.CountsAre` | crates/xtriever-eval/src/metrics.rs:100-120 | the counts of judged queries with nothing relevant and of judged queries that returned their own id are the sizes of those sets |
| `QueryScores.SumsAre` | crates/xtriever-eval/src/metrics.rs:141-149 | the sums behind the means add up the two scores of every scored query |
| `Rerank.ComputeEntries` | reference/rerank_study.py:84-92 | the loop collects the scored candidates of the head with their fused ranks |
| `Rerank.HeadInFront` | reference/rerank_study.py:95-104 | moving distinct ids of the first d <= k in front of the rest keeps the first k ids as a set |
| `Rerank.AnyOrderKeepsTopK` | reference/rerank_study.py:100-134 | any permutation of a head no deeper than k in front of the rest keeps the first k ids |
| `Rerank.RecallUnchanged` | reference/rerank_study.py:333-337 | the replace, rank-fusion and interpolating orders all have the recall of the fused list at k, for all grades, when the head is no deeper than k |
| `Rerank.KeepsTopKIff` | reference/rerank_study.py:333-337 | the bound is exact for each of the three orders: the first k ids stay for all cross-encoder scores if and only if d <= k, or the list has at most k ids, or k is 0 |
| `Rerank.RecallKeptIff` | reference/rerank_study.py:333-337 | and for recall at k: for each order it stays for all scores and judgements if and only if the same holds |
| `Rerank.OrdersSortTheHead` | reference/rerank_study.py:100-134 | each order lists the head best first by its own score |
| `RerankOrders.EntriesMeaning` | reference/rerank_study.py:84-92 | the head holds, in fused order, exactly the scored candidates among the first d, each with its 1-based fused rank, its two scores and its position |
| `RerankOrders.RestMeaning` | reference/rerank_study.py:95-97 | the rest is every fused id outside the head, in fused order |
| `RerankOrders.ReplaceIs` | reference/rerank_study.py:100-104 | the replace order lists the head by cross-encoder score, the highest first, equal ones by position, then the rest, cut at k |
| `RerankOrders.RankFusionIs` | reference/rerank_study.py:107-115 | rank fusion lists it by 1/(60 + fused rank) + 1/(60 + 1 + number of entries ahead by cross-encoder score and position), the highest first, equal ones by position |
| `RerankOrders.BlendedIs` | reference/rerank_study.py:118-134 | interpolation lists it by (1 - alpha) times the scaled fused score plus alpha times the scaled cross-encoder score, the highest first, equal ones by fused rank; a constant column is scaled to 0 |
| `RerankOrders.EntriesApart` | reference/rerank_study.py:84-92 | a fused list without repeats over a corpus gives a head whose ids and positions all differ, as rank fusion and interpolation need |
| `Interpolate.MinMaxUnit` | reference/gen_006_fixtures.py:341-348 | min-max scaling maps every column into [0, 1] with a 0, and a 1 unless the column is constant |
| `Interpolate.InterpolationIgnoresScale` | reference/gen_006_fixtures.py:351-365 | ids and combined scores of the interpolated order are unchanged by positive affine changes of either score column of the head |
| `Interpolate.AlphaZeroIsFused` | reference/gen_006_fixtures.py:351-365 | alpha 0, non-increasing fused scores and a fully scored head give back the fused order |
| `Interpolate.AlphaOneIsReplace` | reference/gen_006_fixtures.py:312-365 | alpha 1 and distinct cross-encoder scores give the id order of the replace rule |
| `RerankOrders.ScoredHeadMeaning` | reference/gen_006_fixtures.py:312-320 | the head of the ordering oracle is exactly the scored candidates among the first d, in fused order |
| `RerankOrders.RerankedIs` | reference/gen_006_fixtures.py:312-321 | the replace rule shows the head with its scores, the highest first, equal ones by id, then the other fused ids in their order without a score, cut at k |
| `RerankOrders.InterpolatedIs` | reference/gen_006_fixtures.py:351-369 | the interpolating rule shows it with the blended scores, the highest first, equal ones by fused place, then the other fused ids |
| `FusionCheck.RrfIsOracle` | reference/gen_005_fixtures.py:268-277 | the rank-fusion oracle lists the ids of both stages, each once with the sum of 1/(60 + rank) over the stages that have it, the highest first, equal ones by id |
| `FusionCheck.VerifyFusion` | reference/gen_005_fixtures.py:289-305 | the loop over tie blocks accepts exactly the lists whose every position holds an id with the score the oracle has there; a longer list that matches as far as the oracle goes ends in an index error |
| `FusionCheck.AcceptedIsPermutationIffDistinct` | reference/gen_005_fixtures.py:280-305 | up to the end of a tie block an accepted list holds the ids of the oracle if and only if it repeats none |
| `FusionCheck.AcceptedBeginsIffDistinct` | reference/gen_005_fixtures.py:280-305 | an accepted list, wherever it is cut, is the beginning of the list of the oracle under some order of the ties if and only if it repeats no id |
| `FusionCheck.RepeatsPass` | reference/gen_005_fixtures.py:301-304 | the comparison of sets lets a list pass that repeats one id of a tie and leaves the other out |
| `EditDistance.Levenshtein` | reference/gen_002_fixtures.py:420-428 | the rolling rows compute the edit distance |
| `EditDistance.DistanceIsShortest` | reference/gen_002_fixtures.py:420-428 | the distance is the length of a shortest sequence of single insertions, deletions and substitutions |
| `EditDistance.Symmetric` | reference/gen_002_fixtures.py:420-428 | the distance is symmetric |
| `EditDistance.ZeroIffEqual` | reference/gen_002_fixtures.py:420-428 | it is zero exactly for equal strings |
| `EditDistance.Triangle` | reference/gen_002_fixtures.py:420-428 | it meets the triangle inequality |
| `EditDistance.TranspositionCostsTwo` | reference/gen_002_fixtures.py:420-428 | swapping two different neighbours costs two |
| `EditDistance.MatchesNest` | reference/gen_002_fixtures.py:297-301 | fuzzy match sets grow with the distance, and at distance 0 hold the term alone |
| `EditDistance.MatchingIs` | reference/gen_002_fixtures.py:297-301 | a word of the vocabulary matches exactly when at most so many single-character edits lead from the term to it |
| `PhraseCount.CountPhrase` | reference/gen_002_fixtures.py:393-417 | the two-index loop and the slop 0 shortcut compute the count |
| `PhraseCount.GreedyPairs` | reference/gen_002_fixtures.py:405-417 | the count is the size of an order-preserving one-to-one pairing of positions within the slop |
| `PhraseCount.PositionsAscend` | reference/gen_002_fixtures.py:396-397 | the positions of a term are listed in ascending order, those of the first term moved by one |
| `PhraseCount.GreedyStep` | reference/gen_002_fixtures.py:402-417 | the loop counts the pair of the least left and least right place that are within the slop of anything left, and goes on behind the last left place the right position has reached |
| `PhraseCount.CountIsChain` | reference/gen_002_fixtures.py:393-417 | at every slop the count is the number of pairs picked that way, one after the other, until no two places are within the slop |
| `PhraseCount.GreedyFinds` | reference/gen_002_fixtures.py:405-417 | the loop counts something exactly when some pair of positions is within the slop |
| `PhraseCount.ZeroSlopShortcut` | reference/gen_002_fixtures.py:398-401 | the set shortcut for slop 0 counts what the loop would |
| `PhraseCount.CountsWhenItOccurs` | reference/gen_002_fixtures.py:393-417 | a phrase counts exactly when its terms stand within the slop somewhere, so matches nest as the slop grows |
| `PhraseCount.CountIsLargestIff` | reference/gen_002_fixtures.py:393-417 | the count is the size of a largest pairing of every text if and only if the slop is 0 |
| `PhraseCount.GreedyUndercounts` | reference/gen_002_fixtures.py:405-417 | at every slop from 1 on the count of "a a b b" is not the largest pairing |
| `Quantise.ScalePositive` | crates/xtriever-dense/src/quantise.rs:54-76 | the scale is at least the smallest normal number |
| `Quantise.RoundHalves` | crates/xtriever-dense/src/quantise.rs:62-76 | halves round away from zero on both sides |
| `Quantise.ClampNeverActs` | crates/xtriever-dense/src/quantise.rs:62-76 | every quotient already rounds into -127..127 |
| `Quantise.RecoversWithinHalfAStep` | crates/xtriever-dense/src/quantise.rs:98-110 | every component is recovered within half a scale step |
| `Quantise.QuantisingAgain` | crates/xtriever-dense/src/quantise.rs:54-110 | quantising a recovered vector gives the same codes, and the same scale except for a vector that was not zero but got all-zero codes under the floored scale |
| `QuantiseValues.QuantisedIs` | crates/xtriever-dense/src/quantise.rs:54-76 | the scale is 1 for a zero vector, else the peak over 127 or the floor when that is larger; each code is the whole number nearest to its component over the scale, halves away from zero |
| `QuantiseValues.FloorIs` | crates/xtriever-dense/src/quantise.rs:62-70 | the floor of the scale is two to the power of -126 |
| `QuantiseValues.SignedIs` | crates/xtriever-dense/src/quantise.rs:117-126 | a row byte is read as the number from -128 to 127 congruent to it |
| `QuantiseValues.DotIsInner` | crates/xtriever-dense/src/quantise.rs:117-126 | the integer dot product times both scales is the inner product of the recovered query and row |
| `QuantiseValues.NormIsLength` | crates/xtriever-dense/src/quantise.rs:78-93 | the stored norm is the Euclidean length of the recovered vector |
| `Quantise.Dot` | crates/xtriever-dense/src/quantise.rs:117-126 | the 32-bit accumulator loop computes the exact integer dot product up to `MAX_DIM`, for any row bytes |
| `Quantise.PartialSumsFit` | crates/xtriever-dense/src/quantise.rs:31-35 | every partial sum fits 32 bits |
| `Quantise.OneMoreDimensionOverflows` | crates/xtriever-dense/src/quantise.rs:31-35 | one dimension more, and a sum need not fit |
| `Quantise.SumOfSquares` | crates/xtriever-dense/src/quantise.rs:85-93 | the sum of squares is exact in 64 bits |
| `Quantise.CauchySchwarz` | crates/xtriever-dense/src/quantise.rs:85-126 | the square of a dot product is at most the product of the sums of squares |
| `Quantise.CosineBound` | reference/dense_format3.py:76-90 | the score of two rows is at most the product of their norms in magnitude, so a cosine lies in [-1, 1] |
| `Quantise.CosineWithItself` | reference/dense_format3.py:76-90 | a row that is not zero has cosine 1 with itself |
| `StagedIndex.OverlayIndex.Delete` | reference/gen_004_fixtures.py:428-430 | exactly the given ids that are known are pending as deleted, an unknown id is not staged, and every other entry and the live rows stay |
| `StagedIndex.OverlayIndex.Commit` | reference/gen_004_fixtures.py:399-406 | applying the pending entries one by one, in any order, gives the merged rows and clears the overlay |
| `StagedIndex.WorkingIndex.Delete` | reference/gen_026_fixtures.py:84-86 | exactly the rows of the given ids leave the working copy; the committed copy stays |
| `StagedIndex.StepAgrees` | reference/gen_026_fixtures.py:74-110 | each operation, the deletions, commits and reopens of both models among them, keeps them in agreement: the same rows are visible, and the same would be after a commit |
| `StagedIndex.ScriptsAgree` | reference/gen_004_fixtures.py:389-441 | after every script of operations both models expose the same committed rows |
| `StagedIndex.ScriptsRankAlike` | reference/gen_026_fixtures.py:98-102 | and hence the same ranking, score descending then id ascending, however a dictionary enumerates them |
| `StagedIndex.RankingIgnoresEnumeration` | reference/dense_format3.py:93-97 | the ranking does not depend on the order the rows are listed in |
| `StagedIndex.RankingIs` | reference/dense_format3.py:93-97 | the ranking holds every row once with its score, the highest first, the lower id first among equals |
| `StagedIndex.ReopenForgets` | reference/gen_004_fixtures.py:431-436 | nothing staged shows before a commit, and after a reopen everything goes on as if it had not been staged |
| `StagedIndex.CommitShows` | reference/gen_004_fixtures.py:399-436 | a commit shows for each id what the last staged operation that mentions it says, a vector or its absence, and for any other id what was there |
| `StagedIndex.UnknownDeletesDoNothing` | reference/gen_004_fixtures.py:427-431 | deleting ids no row has stages nothing |
| `ScoreCache.ScoreLog.LoadCache` | crates/xtriever-eval/examples/rerank_runs.rs:69-117 | cuts the file to its last complete line and returns the records of this model and dataset, or the error of the first bad line |
| `ScoreCache.ScoreLog.Run` | crates/xtriever-eval/examples/rerank_runs.rs:222-310 | over any log that runs and kills can have left, a run returns what scoring every pair afresh returns, or refuses a log that is not text; its log is the cut log and the new records |
| `ScoreCache.ScoreAll` | crates/xtriever-eval/examples/rerank_runs.rs:247-301 | scoring with a true cache gives the fresh scores of every head, stops exactly when a fresh score is not finite, and writes each newly scored pair |
| `ScoreCache.Rerank` | crates/xtriever-eval/examples/rerank_runs.rs:247-311 | a whole study over such a log, for every depth and every rule: one list for each search, the rule applied to its fused list and a slot for each document, which holds what the cross-encoder gives that document below the depth and nothing from there on; an error exactly when one of these scores is not finite |
| `ScoreCache.LogsAreTorn` | crates/xtriever-eval/examples/rerank_runs.rs:61-68 | after every history of completed, failed and killed runs the log is a prefix of complete, true records |
| `ScoreCache.OpensToRecords` | crates/xtriever-eval/examples/rerank_runs.rs:85-117 | opening such a log leaves complete, true records and reads exactly those |
| `ScoreCache.RunAppendsRecords` | crates/xtriever-eval/examples/rerank_runs.rs:276-311 | a run that is not killed leaves a log of complete records |
| `ScoreCache.WritesOnlyMissing` | crates/xtriever-eval/examples/rerank_runs.rs:256-301 | no pair the cache holds is scored or written again |
| `ScoreCache.FreshListsAre` | crates/xtriever-eval/examples/rerank_runs.rs:258-304 | scoring afresh gives these lists, said of the fused lists, the cross-encoder and the rule alone |
| `ScoreLogs.ReadingMeans` | crates/xtriever-eval/examples/rerank_runs.rs:85-117 | reading a log line by line: the first line that does not parse, lacks its key or holds no finite score for the job decides the error; without one the cache holds each pair some line records, with the score of the last such line |
| `ScoreLogs.ChompIs` | crates/xtriever-eval/examples/rerank_runs.rs:95 | a line is what stands before its line feed, without one carriage return at its end |
| `ScoreLogs.CutIs` | crates/xtriever-eval/examples/rerank_runs.rs:84-92 | opening takes off exactly what stands behind the last line feed |
| `ScoreLogs.HeadWrites` | crates/xtriever-eval/examples/rerank_runs.rs:276-301 | scoring a head appends one record for each document the cache lacks, in the order of the head, with its fresh score |
| `ScoreCache.NextHead` | crates/xtriever-eval/examples/rerank_runs.rs:247-301 | heads are scored one after the other, in the order of the job, and the first score that is not finite ends it |
| `ScoreLogs.RunFillsCache` | crates/xtriever-eval/examples/rerank_runs.rs:222-311 | after a completed run the log gives the fresh score of every pair of the job, and running the job again writes nothing |
| `ScoreCache.CutTextIff` | crates/xtriever-eval/examples/rerank_runs.rs:79-84 | bytes cut from the end of a log are text exactly when the cut is at a character boundary |
| `ScoreCache.EveryCutReadsIff` | crates/xtriever-eval/examples/rerank_runs.rs:79-84 | every way of cutting a text leaves readable bytes if and only if all its characters take one byte |
| `ScoreCache.WideCharacterTears` | crates/xtriever-eval/examples/rerank_runs.rs:79-84 | a line with a character wider than one byte is torn by one run of that pair killed inside the character: the log is then no text |
| `ScoreCache.HistoriesReadableIff` | crates/xtriever-eval/examples/rerank_runs.rs:61-84 | every log that runs and kills can leave is readable if and only if the lines of all records hold one-byte characters only |
| `ScoreCache.BlockedForGood` | crates/xtriever-eval/examples/rerank_runs.rs:79-84 | once a log is torn inside a character, no later event changes it and no run can load it |
| `FieldText.Validate` | crates/xtriever-dense/src/sparse.rs:92-122 | accepts exactly the valid expansions and otherwise names the first offending entry, entries before order |
| `FieldText.Print` | crates/xtriever-dense/src/sparse.rs:583-599 | the text is the terms joined by single spaces; an error exactly for a scale out of range or an invalid expansion |
| `FieldText.ValidIs` | crates/xtriever-dense/src/sparse.rs:60-122 | the bounds written out: ids below 30,522 but 0 and 100 to 103, strictly ascending, weights above 0 and at most 4.5, scales 1 to 1,000 |
| `FieldText.TermIs` | crates/xtriever-dense/src/sparse.rs:595-597 | a term is the letter s and the decimal digits of the id, without leading zeros |
| `FieldText.JoinIs` | crates/xtriever-dense/src/sparse.rs:588-599 | terms are joined by single spaces, with none before the first or behind the last |
| `FieldText.Occurrences` | crates/xtriever-dense/src/sparse.rs:588-590 | the number of occurrences is the whole number nearest weight times scale, the upper one at a half, and at most 4,500 |
| `FieldText.TextSplitsIntoTokens` | crates/xtriever-dense/src/sparse.rs:573-599 | splitting at every space gives the terms back, none of them empty; no terms make the empty text |
| `FieldText.OccursAsWeighted` | crates/xtriever-dense/src/sparse.rs:573-599 | the term of each entry occurs exactly as often as its rounded scaled weight says |
| `FieldText.OnlyTheIds` | crates/xtriever-dense/src/sparse.rs:573-599 | a term no entry names does not occur |
| `FieldText.TokensAscend` | crates/xtriever-dense/src/sparse.rs:573-599 | terms come in ascending id order |
| `FieldText.EntriesBounded` | crates/xtriever-dense/src/sparse.rs:92-122 | a valid expansion has at most 30,517 entries |
| `FieldText.TextBounded` | crates/xtriever-dense/src/sparse.rs:573-582 | the text has a fixed bound: at most 4,500 * 30,517 terms of at most six characters |

## Left out

- Model inference, tokenizers, model files, hashing and memory mapping: foreign libraries and input/output.
- The pipeline, the hybrid, lexical and dense indexes themselves: their sources are not part of this model.
- Floating point: scores, scales and metrics are reals, the logarithm of the discount is abstract, `f32` weights in the codec are bit patterns; NaN and infinity of inputs are excluded by the types, except the refusal of weights and scores that are not finite.
- Machine integers of the chunker: the sum of the current cost and the next is unbounded; the program would overflow for costs near the largest `usize`.
- JSON: keys, progress records and log lines are values with an unreadable case; that printing and parsing a log line round-trips is the precondition `Sound`.
- SparseProtocol.RunsReturnTheCorpus: assumes that no file is changed by anything but the program and crashes, and that a corpus hash names one corpus, because the key is all the program compares.
- SparseProtocol.CacheRun.SparseExpansions: operating-system errors of single file operations, other than a kill or a crash, are not steps of the system.
- ScoreCache.ScoreLog.Run: models processes that are killed, so written bytes stay; a power failure that changes bytes already written is not covered, since the program never syncs the log.
- ScoreCache.ScoreLog.Run: takes its heads, and `ScoreCache.Rerank` its fused lists, as given; loading the stage runs and fusing them (see `FusionCheck`) come before, and the rule that makes a list of the scores (see `Interpolate`) is any function.
- `resolve_filter`, `rank` and the BM25 model of `gen_002_fixtures.py`: the filter is one comprehension per connective, and the ranking is the sort treated in `StagedIndex`.
- `fuse`, `ScoreCache` and `rerank_fused` of `sparse_remeasure.py`: the same fusion, cache and interpolation as in `FusionCheck`, `ScoreCache` and `Interpolate`, without the torn tail.
- `verify_rerank` of `gen_006_fixtures.py`: it compares blocks of exactly equal scores as sets, as the checker of `FusionCheck` does, but for equality, and the rest in fused order.
- `bound_and_merge` and `maxp` of `chunking_study.py`: a study's merging of fragments around the chunker and a first-occurrence filter like `Metrics.ComputeHead`.
- The Euclidean branch of `dense_format3.py`: one sum of squares, without a bound to prove over reals.
- Synthetic corpora, golden files, reports, command lines and user interfaces.
