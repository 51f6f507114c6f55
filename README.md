# dreem alignment step: FASTQ inputs, quality masking and the equal-mapper filter

This project models the core of the alignment step of dreem
(`dreem/align/align.py`) in Dafny and proves properties of the model.
It covers four parts:

- **Sample names** (`SampleNames`, with the path helpers in `Paths`).
  `FastqBase._sample_name` takes one FASTQ path, or the two paths of a
  paired-end sample, and returns the sample name. The path must end in
  `.fastq` or `.fq`. The stem is the base name without its extension. Two
  mate files must have stems of the same length that differ at exactly one
  position, holding `1` in file 1 and `2` in file 2. The name is stem 1
  with that digit cut out, together with the first separator+keyword
  prefix that stands before the digit, in `itertools.product` order.
- **Quality masking** (`FastqMask`). `FastqMasker._mask` makes one pass
  over the 4-line records of a FASTQ file. It writes each record with every
  base whose quality byte is below `min_qual + encoding` replaced by `N`. It
  stops with an error at the first record whose sequence and quality lines
  differ in length.
- **The equal-mapper filter** (`SamFilter`).
  `AlignmentCleaner.remove_equal_mappers` copies the `@` header of a SAM
  file, then keeps each read (each pair of mates, when paired-end) whose
  `XS:i:` score is absent or lower than its `AS:i:` score. It counts the
  reads kept and removed.
- **The FASTQ input object** (`FastqInput`). `FastqBase` holds one file,
  two mate files, or one interleaved paired-end file. Its accessors refuse
  the wrong shape. `interleave` and `mask` replace the files with new
  ones. The object is a class whose methods update its fields. Each method
  is proved against a function on the value `Files` of those fields.

Files are byte strings (`Lines`). Iterating over a file opened in binary
mode, or calling `readline`, yields the next line up to and including its
newline; `readline` past the end yields the empty line. The methods follow
the source's loops, with invariants. Each is proved equal to a recursive
specification function. The lemmas state what that function means: the
output is a subsequence of the input, masking twice changes nothing, the
errors come in the order the source checks them, and so on.

Some behaviours of the code are easy to misread, and the model states
them as the code has them:

- **Mate prefix.** The prefix cut out is the first candidate that matches
  in `itertools.product` order, not the longest. For example, stems
  `xpair1` and `xpair2` give `xpai`, because `r` is tried before `pair`.
- **Truncated records.** A record cut short at the end of a FASTQ file
  is an error only when its sequence and quality lines then differ in
  length. Otherwise the missing lines are read as empty and the record is
  written as it is.
- **No reads.** A SAM file with no reads after the header fails when the
  percentages are computed. This happens after the output file has been
  written.

One behaviour is deliberately not followed. The code names the
interleaved file of mate file `s_1.fq` with an extra dot, `s..fq`. The
model's `interleave` uses the corrected name `s.fq`. The name as written
is modelled separately and compared with the corrected one (see
"## Left out" and "## Findings").

## Model

| member | source | states |
|---|---|---|
| `Lines.SplitLines` | dreem/align/align.py:230-234 | the lines a binary file yields concatenate back to its content, none is empty, and only the last may lack its newline |
| `Lines.SplitFlatten` | dreem/align/align.py:230-234 | reading back the bytes written from such lines yields exactly those lines |
| `Paths.Basename` | dreem/align/align.py:168 | the base name contains no slash and is a suffix of the path, which is either the whole path or preceded by a slash: everything after the last slash |
| `Paths.SplitExt` | dreem/align/align.py:171 | root and extension concatenate to the path; a nonempty extension starts with a dot and holds no further dot or slash; the extension is nonempty iff the last dot follows the last slash with something other than dots before it in the component, and then the root ends at that last dot |
| `Paths.Stem` | dreem/align/align.py:168-171 | the stem is a prefix of the base name: splitext of the base name keeps its root |
| `Paths.BasenameKeepsExtension` | dreem/align/align.py:165-170 | a path with a FASTQ extension has a base name with one, so the loop that strips other suffixes never runs |
| `Paths.StemDropsExtension` | dreem/align/align.py:168-171 | the stem is the base name minus the FASTQ extension, unless only dots precede it, in which case the base name is kept whole |
| `SampleNames.SampleName` | dreem/align/align.py:164-195 | the name of a pair is shorter than the stem of mate file 1: at least the digit is cut out |
| `SampleNames.PairedName` | dreem/align/align.py:174-193 | the pair fails with mismatched lengths iff the stems differ in length; a name derived from a pair is shorter than the stems |
| `SampleNames.CutMateLabel` | dreem/align/align.py:186-191 | the name keeps the stem before the cut start and the stem after the digit and drops exactly the span between them, so it is shorter than the stem |
| `SampleNames.StemPairErrors` | dreem/align/align.py:174-193 | on two stems: lengths differ, then not one difference, then wrong digits, in that order; the stems are named iff they are mates |
| `SampleNames.CutStart` | dreem/align/align.py:185-190 | the cut starts at the digit iff no candidate prefix stands before it; otherwise the span cut before the digit lowers to one of the candidates |
| `SampleNames.FirstMatch` | dreem/align/align.py:185-189 | the index found is the first candidate that stands, in any case, just before the digit; none is found only when no candidate does |
| `SampleNames.DiffPositions` | dreem/align/align.py:176-177 | holds exactly the positions where the two stems differ, in increasing order |
| `SampleNames.OneDiffPosition` | dreem/align/align.py:176-180 | the difference list has one entry iff the stems differ at exactly one position, and that entry is the position |
| `SampleNames.SingleFileName` | dreem/align/align.py:165-195 | a single file is named iff it has a FASTQ extension; its name followed by the extension is its base name, unless only dots precede the extension, in which case the name is the whole base name |
| `SampleNames.PairErrors` | dreem/align/align.py:165-193 | the errors of a pair in the order checked (extension of file 1, of file 2, lengths, one difference, mate digits); a pair is named iff its stems are mates |
| `SampleNames.CutStartIsFirstMatch` | dreem/align/align.py:183-190 | the cut starts before the first candidate in product order that matches before the digit, or at the digit when none does |
| `SampleNames.CutAgrees` | dreem/align/align.py:186-191 | cutting the same span out of both stems gives the same name, and putting the span back gives stem 1 |
| `SampleNames.MateStemsName` | dreem/align/align.py:181-191 | mate stems are named by stem 1 minus the digit and its prefix; stem 2 cut the same way gives the same name, and the name is shorter by the cut span |
| `SampleNames.PairName` | dreem/align/align.py:172-173 | with both extensions present, a pair is named from the two stems, the second derived by the recursive call |
| `FastqMask.MaskBase` | dreem/align/align.py:237 | a base is kept or becomes N; it is kept iff its quality reaches the minimum, it is the newline, or it already is N |
| `FastqMask.RecordLines` | dreem/align/align.py:231-241 | a record writes as many of its four lines as the file has left, up to four, the header first |
| `FastqMask.RecordLinesAt` | dreem/align/align.py:231-241 | each line a record writes is the input line at its position, the sequence line masked against the quality line |
| `FastqMask.MaskBases` | dreem/align/align.py:237-238 | the masked sequence line has the length of the input line |
| `FastqMask.MaskFrom` | dreem/align/align.py:229-241 | the pass from line `i` writes at most the lines from `i` on, and all of them when it finishes |
| `FastqMask.MaskFile` | dreem/align/align.py:229-241 | masking a file writes at most as many lines as it has, and all of them when it finishes |
| `FastqMask.MaskedBases` | dreem/align/align.py:237-238 | a masked base equals the input iff its quality reaches the minimum, it is the newline, or it already was N; any other base becomes N; newlines stay in place |
| `FastqMask.MaskBasesIdempotent` | dreem/align/align.py:237-238 | masking masked bases again with the same or a lower minimum changes nothing |
| `FastqMask.MaskRecord` | dreem/align/align.py:231-240 | the buffer holds the header, the masked bases, the `+` line and the qualities |
| `FastqMask.MaskLines` | dreem/align/align.py:229-241 | the loop writes exactly the records of the recursive pass and reports whether it finished |
| `FastqMask.Mask` | dreem/align/align.py:225-241 | `_mask` on a file's content writes the bytes of the pass at `min_qual + encoding` |
| `FastqMask.MaskFromLines` | dreem/align/align.py:229-241 | the pass writes the input lines in order with every sequence line masked: all of them if it finishes, otherwise up to the first record whose lengths differ |
| `FastqMask.MaskFromOk` | dreem/align/align.py:235-236 | the pass finishes iff every record has as many quality bytes as bases |
| `FastqMask.MaskedLineShape` | dreem/align/align.py:237-240 | every written line has the length of its input line, with its newlines where they were |
| `FastqMask.MaskFromAll` | dreem/align/align.py:229-241 | on a whole file, the pass finishes iff all records match, and then writes the masked lines |
| `FastqMask.MaskedLinesWellFormed` | dreem/align/align.py:237-241 | the masked lines are again lines as a file yields them |
| `FastqMask.MaskedLinesIdempotent` | dreem/align/align.py:237-241 | the masked lines still match record by record, and masking them again with the same or a lower minimum changes nothing |
| `FastqMask.MaskFileIdempotent` | dreem/align/align.py:225-241 | masking a finished output again, with the same or a lower minimum, finishes and writes the same bytes |
| `FastqMask.MaskNothing` | dreem/align/align.py:229-230 | an empty file masks to an empty file and finishes |
| `SamFilter.DigitRun` | dreem/align/align.py:448-449 | the greedy run of digits: all digits, ended by a non-digit or the end of the line |
| `SamFilter.DecimalRoundTrip` | dreem/align/align.py:452 | reading back the decimal digits of a number gives the number |
| `SamFilter.FirstMatch` | dreem/align/align.py:453 | the search finds the leftmost position where the tag is followed by a digit, or none when there is no such position |
| `SamFilter.Score` | dreem/align/align.py:451-453 | no score iff the tag followed by a digit occurs nowhere in the line |
| `SamFilter.Decimal` | dreem/align/align.py:452 | the value of a digit run is below 10 to its length, and zero when all digits are zeros |
| `SamFilter.ScoreOfRun` | dreem/align/align.py:451-453 | at the first match, any run of digits (leading zeros included) gives the score of its decimal value |
| `SamFilter.ScoreOfField` | dreem/align/align.py:451-453 | a line holding the field `tag<n>`, with no earlier match, has score `n` |
| `SamFilter.IsBest` | dreem/align/align.py:455-457 | an error iff the line has an XS score and no AS score, and then only `ScoresIncomparable`; best iff there is no XS score or it is below the AS score |
| `SamFilter.ReadBest` | dreem/align/align.py:467 | the only error is `ScoresIncomparable`; a read is judged not best iff every line of it is judged not best |
| `SamFilter.EqualMapperNotBest` | dreem/align/align.py:455-457 | a read whose XS score equals its AS score is not best; a read with no XS score is best |
| `SamFilter.PairBest` | dreem/align/align.py:467 | a pair is kept iff mate 1 is best, or mate 1 is not and mate 2 is; it is removed iff neither is; mate 2's error matters only when mate 1 is not best |
| `SamFilter.Reads` | dreem/align/align.py:466-481 | single-end data has one read per line; paired data has one per two lines, a last odd line being no read |
| `SamFilter.FirstFailure` | dreem/align/align.py:466-481 | the pass stops at the first read whose judgement is an error; every read before it is judged |
| `SamFilter.BestIndices` | dreem/align/align.py:467-470 | exactly the reads before the stop that are judged best, in increasing order |
| `SamFilter.SiftFrom` | dreem/align/align.py:466-481 | kept plus removed never exceeds the reads from `t` on, and equals them when no error stops the pass |
| `SamFilter.SiftMeaning` | dreem/align/align.py:466-481 | the pass writes the best reads in order; kept counts them; kept plus removed counts the reads before the stop; the error is the stopping read's |
| `SamFilter.HeaderEnd` | dreem/align/align.py:463-464 | the header is the longest run of leading lines that start with `@` |
| `SamFilter.CopyHeader` | dreem/align/align.py:463-464 | the header loop writes the header lines and returns the first line after them |
| `SamFilter.JudgeRead` | dreem/align/align.py:467 | the judgement of read `t`, and the input lines it consists of |
| `SamFilter.Tally` | dreem/align/align.py:467-472 | a best read is written and counted as kept, any other counted as removed; the pass so far grows by that read |
| `SamFilter.SiftPairs` | dreem/align/align.py:466-473 | the paired-end loop writes, counts and stops exactly as the pass over the pairs does |
| `SamFilter.SiftSingles` | dreem/align/align.py:475-481 | the single-end loop writes, counts and stops exactly as the pass over the lines does |
| `SamFilter.CleanLines` | dreem/align/align.py:459-487 | the output starts with the header lines; counts, when returned, are positive and add up to the number of reads |
| `SamFilter.RemoveEqualMappersLines` | dreem/align/align.py:459-487 | the file written and the counts or error are those of the filter over the input lines |
| `SamFilter.RemoveEqualMappers` | dreem/align/align.py:446-487 | the same, on the input file's content |
| `SamFilter.Outcome` | dreem/align/align.py:482-487 | counts are returned iff no error stopped the pass and at least one read was processed; otherwise the stopping error, or the division by zero with no reads |
| `SamFilter.OutcomeMeaning` | dreem/align/align.py:482-487 | counts are returned iff every read was judged and there was one; kept plus removed is then the number of reads; no read fails on the division |
| `SamFilter.CleanMeaning` | dreem/align/align.py:459-487 | the output is the header then the lines of the best reads before the first error; the reads number the data lines (halved when paired); the counts as above |
| `SamFilter.KeptReads` | dreem/align/align.py:466-481 | a read is written iff it comes before the first error and is_best_alignment holds for it (for either mate of a pair) |
| `SamFilter.WrittenSubsequence` | dreem/align/align.py:459-481 | the output is the input lines at strictly increasing positions, starting with the whole header: an order-preserving subsequence |
| `FastqInput.LStripDots` | dreem/align/align.py:215 | removes the leading dots and only those |
| `FastqInput.RStripDots` | dreem/align/align.py:215 | removes the trailing dots and only those |
| `FastqInput.AsWrittenExample` | dreem/align/align.py:215-216 | mate file `s_1.fq` of sample `s` gives the interleaved file `s..fq` |
| `FastqInput.AsWrittenDoublesDot` | dreem/align/align.py:215-216 | any real extension keeps its dot under rstrip, so the name has two dots |
| `FastqInput.InterleavedNameAsWritten` | dreem/align/align.py:215-216 | the name as written is the sample, a dot, then the extension with trailing dots stripped: it ends in a non-dot unless it is just the sample and a dot |
| `FastqInput.AsWrittenAgainstCorrected` | dreem/align/align.py:215-216 | for an extension longer than its dot, the name as written is the corrected name with one extra dot after the sample; otherwise the two are the same |
| `FastqInput.InterleavedName` | dreem/align/align.py:215-216 | the interleaved file is named by the sample followed by mate file 1's extension |
| `FastqInput.MaskAll` | dreem/align/align.py:243-246 | masking every input stops only with a missing input or a length mismatch |
| `FastqInput.MaskAllKeeps` | dreem/align/align.py:243-246 | masking never removes a file, and when it succeeds every output exists |
| `FastqInput.MaskAllSucceeds` | dreem/align/align.py:243-246 | masking every input into new outputs succeeds iff every input exists and has matching record lengths |
| `FastqInput.MaskAllWrites` | dreem/align/align.py:225-246 | on success each output holds its input masked; files that are not outputs are never changed |
| `FastqInput.MaskFiles` | dreem/align/align.py:244-246 | the loop of `mask` does what masking each input in turn does, stopping at the first error |
| `FastqInput.MaskOntoItself` | dreem/align/align.py:229 | a file masked onto itself is emptied by opening it for writing before it is read |
| `FastqInput.Files.NFastqs` | dreem/align/align.py:116-118 | one or two files, two iff there is a second file |
| `FastqInput.Files.Interleaved` | dreem/align/align.py:146-148 | interleaved iff paired-end with no second file, and then there is one file |
| `FastqInput.Files.Fastq` | dreem/align/align.py:120-134 | the one file iff there is no second file; otherwise the error for two files |
| `FastqInput.Files.Fastq1` | dreem/align/align.py:124-139 | the first file iff there is a second; otherwise the error is "interleaved" iff paired-end and "not paired-end" iff not |
| `FastqInput.Files.Fastq2` | dreem/align/align.py:124-144 | the second file iff there is one; otherwise the same errors as `fastq1` |
| `FastqInput.Files.FastqFiles` | dreem/align/align.py:150-155 | the files number `n_fastqs`, the first file first and mate file 2 second |
| `FastqInput.Files.Outputs` | dreem/align/align.py:157-159 | each file moved into the temporary directory, in order |
| `FastqInput.Files.AccessorsAgree` | dreem/align/align.py:116-155 | exactly one of `fastq` and `fastq1` succeeds; `fastq1` and `fastq2` succeed together; the files listed are the ones returned; two files are paired and not interleaved; a single file refuses mate access as interleaved iff it is paired |
| `FastqInput.InterleaveFiles` | dreem/align/align.py:212-219 | an error leaves the files as they were; success needs two files and leaves one, paired-end as before |
| `FastqInput.InterleaveChecks` | dreem/align/align.py:212-216 | the checks fail exactly as interleaving does, and otherwise give the path the interleaved file takes |
| `FastqInput.InterleaveMeaning` | dreem/align/align.py:212-219 | interleaving succeeds iff there are two files that name a sample, and then leaves one interleaved file named by the sample and mate file 1's extension (the corrected name); each error iff its condition; an error changes nothing |
| `FastqInput.InterleaveTwice` | dreem/align/align.py:212-214 | after an interleave, a second one is refused and changes nothing |
| `FastqInput.MaskFilesOf` | dreem/align/align.py:243-247 | an error leaves the fields as they were; success needs two files, makes the outputs the files with pairing unchanged, and the outputs exist; no file disappears |
| `FastqInput.MaskMeaning` | dreem/align/align.py:243-247 | masking succeeds iff there are two files and both exist with matching records; the outputs then become the two files; a failure changes nothing |
| `FastqInput.MaskWritten` | dreem/align/align.py:243-247 | on success each output holds its file masked; the files that are not outputs keep their contents |
| `FastqInput.FastqBase.constructor` | dreem/align/align.py:108-114 | the object holds the files given, and is paired when a second file is given |
| `FastqInput.FastqBase.Interleave` | dreem/align/align.py:212-219 | the outcome and new fields are those of interleaving the old fields, and two files still mean paired |
| `FastqInput.FastqBase.Mask` | dreem/align/align.py:243-247 | the outcome, new fields and file contents are those of masking the old fields at `min_qual + encoding` |
| `FastqInput.InterleaveOnce` | dreem/align/align.py:212-219 | two mate files interleave iff they name a sample, and a second interleave is then refused; a pair that names no sample is refused twice with the same error |

## Left out

- FastqInput.FastqBase.Interleave: names the interleaved file with the corrected `InterleavedName` (`s.fq` for mate file `s_1.fq` of sample `s`), not the `s..fq` that the code writes. `InterleavedNameAsWritten` models the name as written, and `AsWrittenAgainstCorrected` proves that it differs from the corrected name by exactly one dot after the sample name (see "## Findings").
- FastqInput.InterleaveMeaning: states the corrected name too, as do `FastqInput.InterleaveFiles` and `FastqInput.InterleaveChecks`, for the same reason.
- FastqInput.InterleaveFiles: the file it leaves is named with the corrected `InterleavedName` (`s.fq`), not the code's `s..fq`; `AsWrittenAgainstCorrected` states the one-dot difference.
- FastqInput.InterleaveChecks: the path it gives is built from the corrected `InterleavedName` (`s.fq`), not the code's `s..fq`; `AsWrittenAgainstCorrected` states the one-dot difference.
- SamFilter.RemoveEqualMappers: takes the content of the input SAM file, not its path. A missing input, which makes `open` raise, is not modelled. Neither is an output path equal to the input path, whose opening for writing would empty the input before it is read. Masking models both cases on its file-system map.
- The external commands are not modelled. This covers the `paste` call that builds the interleaved file and `run_cmd`, and with them `fastqc`, `cutadapt`, `bowtie2`, `bowtie2-build`, sorting and indexing. They only assemble argument lists for programs that `run_cmd` starts, and `run_cmd` is not part of this model.
- The temporary and output directories are a parameter `toTemp` from path to path. `switch_directory` and the project layout are not part of this model.
- The file system is a map from path to content that masking receives and returns. Nothing else about files, such as permissions or partial writes by the operating system, is modelled.
- The percentages and messages that `remove_equal_mappers` prints are left out. Only the division by zero with no reads is kept, as the error `NothingProcessed`.
- Scores are exact natural numbers. `float()` rounds scores above 2^53, which the model does not do. Aligners write scores far smaller.
- `BASEN` and `PHRED_ENCODING` come from a module that is not part of this model. The masking byte is taken to be `N`, and the encoding is a parameter of `FastqBase`.
- The default minimum quality of `mask` (25) is not a default here; the minimum is a parameter of `FastqBase.Mask`.
- The paired-end header loop and `for line2 in sami` mix iteration with `readline`. The model takes Python 3 binary files, where both advance the same position.
- The module-level `run`, `dreem/align/main.py` and the demultiplexing and test files are left out. They are orchestration, command-line handling and fixtures, not logic of this core.
- Python's `str.lower` is modelled on ASCII letters only. No other character lowers to one of the prefixes' letters in a way that could make a slice equal a prefix.

## Findings

| source | as written | input that shows it | evidently intended | confidence | as-written member | corrected member |
|---|---|---|---|---|---|---|
| dreem/align/align.py:215-216 | `os.path.splitext(fastq1)[1].rstrip(".")` keeps the extension's leading dot, and the f-string adds another | mate file `s_1.fq` of sample `s`: the interleaved file is named `s..fq` | strip the leading dot (`lstrip`), giving `s.fq` | not executed | `FastqInput.AsWrittenExample` | `FastqInput.InterleavedName` |
