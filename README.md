# T2T zebra finch analysis scripts, modelled in Dafny

This project models the Python scripts the T2T zebra finch assembly used to
annotate centromeres and repeats and to check the assembly. They pick each
chromosome's centromere and kinetochore sites from a methylation signal,
merge and colour GFF3 annotations, cluster HOR monomers, build multiple
alignments from BAM reads, compute conservation, find unaligned gaps, match
chromosome names, lay out karyotypes, and summarise PURs, primer distances
and rDNA morphs. One module models each script. Each line-by-line loop
becomes a `method` with a `for` loop. That method is proved equal to a
function over the whole input, and lemmas state what the script promises
about that function.

How the model treats the scripts' inputs and failures:

* **Lines and files.** A file is a `seq<string>` of lines with their
  terminators removed. What a script writes is the sequence of lines it
  would write.
* **Uncaught exceptions.** An uncaught Python exception, such as a
  `ValueError` from `int()`, an `IndexError`, a `KeyError` or `max()` of
  nothing, ends the run. The model returns it as `Crash(reason)` of
  `Common.Outcome`. It is not a precondition, except where a line under
  "Left out" names one.
* **Libraries and external tools.** Library calls and external tools are
  parameters of the model: md5, `random`, tabix, `pybedtools`, the BigWig
  signal, pysam reads and interactive prompts. The model assumes nothing
  about their results, with two exceptions listed under "Left out". The
  shuffle is assumed to be a rearrangement of its input, and the BigWig
  signal of an eligible block is assumed to be non-empty.
* **Shared helper modules.** `Strings`, `Common` and `Sorting` model the
  Python built-ins the scripts rely on, each once:
  * `Strings`: `str.split`, `str.join`, `str.strip`, `str.find`, `int()`,
    `str()` and string ordering.
  * `Common`: dictionary assignment, the dictionary fold and `map`-style
    loops.
  * `Sorting`: the stable sort.

## Model

| member | source | states |
|---|---|---|
| Gff3Colorizer.Hex | centromere_annotation/gff3Colorizer.py:11 | `"{:06x}"` formatting gives exactly the requested number of lowercase hexadecimal digits |
| Gff3Colorizer.HexRoundTrip | centromere_annotation/gff3Colorizer.py:11 | reading the written hexadecimal digits back gives the formatted value whenever it fits in the width |
| Gff3Colorizer.HashColor | centromere_annotation/gff3Colorizer.py:7-11 | a colour is `#` followed by six lowercase hexadecimal digits |
| Gff3Colorizer.HashColorBits | centromere_annotation/gff3Colorizer.py:9-11 | the colour encodes exactly the low 24 bits of the digest; two keys get the same colour iff their digests agree modulo 2^24 |
| Gff3Colorizer.KeyLen | centromere_annotation/gff3Colorizer.py:33 | the greedy `[^;\s]+` run: every character it covers is a key character and the next one is not |
| Gff3Colorizer.MatchIndexSpec | centromere_annotation/gff3Colorizer.py:33 | `re.search` reports a match of `Target=` followed by a key character, none before it, and no index when there is no match anywhere |
| Gff3Colorizer.TargetKey | centromere_annotation/gff3Colorizer.py:33-34 | the definition of the colour key: the `Target=` match or `NO_TARGET`; its properties are in the rows below |
| Gff3Colorizer.TargetKeySpec | centromere_annotation/gff3Colorizer.py:33-34 | the target is the non-empty, maximal run of key characters right after the leftmost `Target=` match |
| Gff3Colorizer.NoTargetKey | centromere_annotation/gff3Colorizer.py:34 | without any match the target is `NO_TARGET` |
| Gff3Colorizer.RecoloredColumns | centromere_annotation/gff3Colorizer.py:39-42 | splitting the written line at tabs gives the fields back, the ninth with `;color=` and the colour appended |
| Gff3Colorizer.FieldsTabFree | centromere_annotation/gff3Colorizer.py:26 | no field of a split line holds a tab |
| Gff3Colorizer.ColorTabFree | centromere_annotation/gff3Colorizer.py:11 | a colour holds no tab |
| Gff3Colorizer.ColoredLine | centromere_annotation/gff3Colorizer.py:22-42 | the definition of one line's step in the main loop; its properties are in the rows below |
| Gff3Colorizer.ColoredLineColumns | centromere_annotation/gff3Colorizer.py:26-42 | a data line is written with the same number of columns, all but the ninth unchanged, the ninth with one colour tag from the line's target |
| Gff3Colorizer.WriteLine | centromere_annotation/gff3Colorizer.py:22-42 | one loop pass writes the line the specification function gives; header, blank and short lines are copied unchanged |
| Gff3Colorizer.ColoredLinesAt | centromere_annotation/gff3Colorizer.py:21-42 | one written line per input line, each the one for the input line at the same place |
| Gff3Colorizer.Colorize | centromere_annotation/gff3Colorizer.py:20-42 | the main loop writes exactly the lines of the specification function |
| Gff3ColorizerByType.TypeColoredColumns | centromere_annotation/gff3Colorizer-3col.py:26-40 | a data line keeps its columns, the ninth with one colour tag whose colour comes from the feature type in the third column |
| Gff3ColorizerByType.WriteTypeLine | centromere_annotation/gff3Colorizer-3col.py:22-40 | one loop pass writes the line the specification function gives; header, blank and short lines are copied unchanged |
| Gff3ColorizerByType.TypeColoredLinesAt | centromere_annotation/gff3Colorizer-3col.py:21-40 | one written line per input line, each the one for the input line at the same place |
| Gff3ColorizerByType.ColorizeByType | centromere_annotation/gff3Colorizer-3col.py:20-40 | the main loop writes exactly the lines of the specification function |
| Gff3Merger.ParseTarget | centromere_annotation/gff3Merger.py:4-11 | the definition of `parse_target`; its properties are in the rows below |
| Gff3Merger.TargetSplit | centromere_annotation/gff3Merger.py:8 | `attr.split('=')[1]` of a part starting with `Target=` is the text after that `=` up to the next one |
| Gff3Merger.FirstTrueSpec | centromere_annotation/gff3Merger.py:6-11 | the loop's stop: the index found is the first true flag, and there is none only when every flag is false |
| Gff3Merger.FirstTargetSpec | centromere_annotation/gff3Merger.py:6-11 | `parse_target` and `update_target_length` stop at the first part that starts with `Target=` and has at least three tokens; no part qualifies when none is found |
| Gff3Merger.UpdateTarget | centromere_annotation/gff3Merger.py:13-24 | the definition of `update_target_length`; its properties are in the rows below |
| Gff3Merger.UpdateTargetLength | centromere_annotation/gff3Merger.py:13-24 | the loop over the parts returns the attributes with the first qualifying part rewritten |
| Gff3Merger.UpdatedAt | centromere_annotation/gff3Merger.py:16-23 | the rewritten part is the first qualifying one, with the new length |
| Gff3Merger.UpdatedNone | centromere_annotation/gff3Merger.py:16-24 | without a qualifying part no part changes |
| Gff3Merger.UpdatedByFirst | centromere_annotation/gff3Merger.py:15-24 | exactly the part `parse_target` would read is rewritten; every other part is kept |
| Gff3Merger.RetargetTokens | centromere_annotation/gff3Merger.py:19-22 | a rewritten part still qualifies; its tokens are the old ones with the third replaced by `str(new_length)` |
| Gff3Merger.RetargetFirst | centromere_annotation/gff3Merger.py:16-23 | after rewriting, the rewritten part is still the first qualifying one |
| Gff3Merger.SplitUpdate | centromere_annotation/gff3Merger.py:15-24 | re-splitting the joined result gives the updated parts, with the same first qualifying index |
| Gff3Merger.UpdateThenParse | centromere_annotation/gff3Merger.py:4-24 | round trip: after `update_target_length(a, n)`, `parse_target` finds the same target id with length `n` |
| Gff3Merger.UpdateWithoutTarget | centromere_annotation/gff3Merger.py:13-24 | attributes without a qualifying Target come back unchanged |
| Gff3Merger.UpdateTwice | centromere_annotation/gff3Merger.py:13-24 | updating twice is the same as updating once with the later length |
| Gff3Merger.UpdateChars | centromere_annotation/gff3Merger.py:21-24 | updating adds no characters except spaces, digits, a minus sign and `;` |
| Gff3Merger.ReadHeader | centromere_annotation/gff3Merger.py:39-42 | the header is exactly the `#` lines, in order |
| Gff3Merger.ReadFails | centromere_annotation/gff3Merger.py:44-50 | a run fails exactly when some line fails to read: more than nine fields, or a non-integer start, end or Target length |
| Gff3Merger.ReadRows | centromere_annotation/gff3Merger.py:44-50 | every row read carries the Target `parse_target` reads from its attributes, and no column holds a tab |
| Gff3Merger.ExtendAttributes | centromere_annotation/gff3Merger.py:60-62 | extending a feature writes the summed Target length into its attributes |
| Gff3Merger.ExtendFields | centromere_annotation/gff3Merger.py:60-62 | extending takes the row's end and the summed length, and keeps every other column |
| Gff3Merger.Merge | centromere_annotation/gff3Merger.py:52-68 | the features the loop emits, the last being `prev_entry`: never more than there are rows, and at least one when there is a row |
| Gff3Merger.MergeTabFree | centromere_annotation/gff3Merger.py:52-71 | no merged feature holds a tab in any column |
| Gff3Merger.RunsSpec | centromere_annotation/gff3Merger.py:52-68 | the rows cut where the merge test fails (same sequence, same Target id, start before the previous end plus the distance): runs are non-empty, chained inside, broken between, and together the rows in order |
| Gff3Merger.ChainedSame | centromere_annotation/gff3Merger.py:56-57 | every row of a chained run has the first row's sequence and Target id |
| Gff3Merger.CombineSpec | centromere_annotation/gff3Merger.py:59-63 | a merged run has the first row's columns and the last row's end; its Target length is the sum over the run, written once into the first row's attributes |
| Gff3Merger.MergeRuns | centromere_annotation/gff3Merger.py:52-71 | the loop emits one feature per run, each the run combined |
| Gff3Merger.MergedTarget | centromere_annotation/gff3Merger.py:50-62 | reading a merged feature's attributes back gives the run's Target id and the sum of its lengths |
| Gff3Merger.RenderAsWrittenTenColumns | centromere_annotation/gff3Merger.py:66-71 | as written, every output line has ten columns, the tenth being the Target id (or `None`) |
| Gff3Merger.RenderNineColumns | centromere_annotation/gff3Merger.py:66-71 | corrected, every output line splits back into exactly its nine GFF3 columns |
| Gff3Merger.Process | centromere_annotation/gff3Merger.py:34-75 | the definition of the whole script as written, from input lines to output text; its properties are in the rows below |
| Gff3Merger.RenderAll | centromere_annotation/gff3Merger.py:66-71 | as written: one output line per merged feature, in order, each the ten columns `prev_entry[:-1]` leaves |
| Gff3Merger.CorrectedDropsTenth | centromere_annotation/gff3Merger.py:66-71 | a line as written splits into ten columns; the corrected line is its first nine |
| Gff3Merger.CorrectedLines | centromere_annotation/gff3Merger.py:66-71 | for tab-free features, every corrected line has nine columns, the first nine of the ten the script writes for it |
| Gff3Merger.MergeStep | centromere_annotation/gff3Merger.py:52-68 | one loop step: a mergeable row extends `prev_entry`, any other row finishes it and becomes pending |
| Gff3Merger.ProcessCrash | centromere_annotation/gff3Merger.py:35-50 | input that fails to read ends the run with that exception and writes nothing, as written and corrected |
| Gff3Merger.ProcessOk | centromere_annotation/gff3Merger.py:73-75 | as written: the output file is the header lines, then the ten-column merged lines joined by line ends, then one more line end |
| Gff3Merger.ProcessCorrectedOk | centromere_annotation/gff3Merger.py:66-75 | the corrected output has the same header and one line per merged feature, each the script's line without its tenth column |
| Gff3Merger.AddRow | centromere_annotation/gff3Merger.py:52-68 | one row against `prev_entry`: extended in place when mergeable; otherwise the old entry is finished and the row becomes pending |
| Gff3Merger.TakeRow | centromere_annotation/gff3Merger.py:52-68 | the data-row branch keeps the loop invariant: written lines plus the pending entry are the merge of the rows so far |
| Gff3Merger.MergeFile | centromere_annotation/gff3Merger.py:34-75 | the whole script's output as written, ten-column lines included, or its exception, is the specification function's |
| CentromereDetector.ParseLine | figures/centromeres/centromere_detector/centromere_detector.py:13-28 | the definition of one line's step in `parse_gff`; its properties are in the rows below |
| CentromereDetector.ParseGff | figures/centromeres/centromere_detector/centromere_detector.py:8-29 | `parse_gff` fails exactly when some data line has a non-integer start or end; otherwise it returns the blocks of the `#`-free lines with at least nine fields, in order |
| CentromereDetector.KeptBlocksTagged | figures/centromeres/centromere_detector/centromere_detector.py:21-26 | a block is tagged as a centromere candidate iff its attributes contain `Tgut716A`; never more blocks than lines |
| CentromereDetector.KeptBlocksAppend | figures/centromeres/centromere_detector/centromere_detector.py:12-26 | parsing is line by line: the blocks of two chunks of a file are the first chunk's followed by the second's |
| CentromereDetector.SkippedLines | figures/centromeres/centromere_detector/centromere_detector.py:13-28 | a `#` line or a line with fewer than nine fields contributes no block |
| CentromereDetector.AverageSignal | figures/centromeres/centromere_detector/centromere_detector.py:54-61 | the loop's average is the sum of the fourth-column values divided by their count |
| CentromereDetector.MeanBetween | figures/centromeres/centromere_detector/centromere_detector.py:61 | the mean lies between the least and the greatest sample value |
| CentromereDetector.FirstLowestReplace | figures/centromeres/centromere_detector/centromere_detector.py:103-105 | a strictly lower mean replaces the chromosome's pick, and the new pick is the first lowest so far |
| CentromereDetector.FirstLowestKeep | figures/centromeres/centromere_detector/centromere_detector.py:79-105 | a block that is filtered out, not a candidate, on another chromosome, or not strictly lower leaves the pick the first lowest |
| CentromereDetector.FirstLowestFirst | figures/centromeres/centromere_detector/centromere_detector.py:98-100 | a chromosome's first eligible block is its pick so far |
| CentromereDetector.FindCentromere | figures/centromeres/centromere_detector/centromere_detector.py:64-113 | one pick per chromosome that has an eligible block (long enough and tagged), in first-seen order, each being the first block with the lowest mean on its chromosome |
| CentromereDetector.SelectionIsFirstArgmin | figures/centromeres/centromere_detector/centromere_detector.py:104-105 | the pick's mean is at most that of every eligible block on its chromosome; on a tie the earlier block wins |
| CentromereDetector.Dips | figures/centromeres/centromere_detector/centromere_detector.py:137-142 | the definition of the threshold scan in `annotate_kinetochore_binding_site`; its properties are in the rows below |
| CentromereDetector.KinetochoreSites | figures/centromeres/centromere_detector/centromere_detector.py:136-149 | the sites are the region's samples below 0.7 times the block's mean, in sample order |
| CentromereDetector.DipsExact | figures/centromeres/centromere_detector/centromere_detector.py:140-142 | each site is a sample below the threshold, each such sample is a site, and there are never more sites than samples |
| CentromereDetector.DipsAppend | figures/centromeres/centromere_detector/centromere_detector.py:140-142 | the sites of two stretches of samples are the first stretch's followed by the second's |
| CentromereDetector.NoDipsBelowZero | figures/centromeres/centromere_detector/centromere_detector.py:137-142 | a non-positive mean with non-negative values gives no site |
| CentromereDetector.KeptBlocksMeasurable | figures/centromeres/centromere_detector/centromere_detector.py:86-88 | when every eligible line's region has samples, so does every eligible parsed block |
| CentromereDetector.LabelledHas | figures/centromeres/centromere_detector/centromere_detector.py:163-165 | corrected: each dip of a block is recorded with that block's chromosome, at `pos` to `pos + 1` |
| CentromereDetector.AllSitesSound | figures/centromeres/centromere_detector/centromere_detector.py:186-190 | corrected: every collected site is a dip of some selected block, labelled with that block's chromosome |
| CentromereDetector.AllSitesComplete | figures/centromeres/centromere_detector/centromere_detector.py:186-190 | corrected: every dip of every selected block is collected, labelled with that block's chromosome |
| CentromereDetector.CollectSites | figures/centromeres/centromere_detector/centromere_detector.py:185-190 | corrected: the loop collects each selected block's dips, block by block, each with its block's chromosome |
| CentromereDetector.DetectCorrected | figures/centromeres/centromere_detector/centromere_detector.py:168-193 | corrected `main`: fails exactly when parsing fails; otherwise one pick per chromosome with an eligible block, each pick the first block of lowest mean on its chromosome; the site records are the picks' dips in block order and sample order, each labelled with its own block's chromosome |
| CentromereDetector.AllDipsSound | figures/centromeres/centromere_detector/centromere_detector.py:185-190 | every entry of `kinetochore_regions` is a dip of some selected block |
| CentromereDetector.AllDipsComplete | figures/centromeres/centromere_detector/centromere_detector.py:185-190 | every dip of every selected block is in `kinetochore_regions` |
| CentromereDetector.SitesMatchDips | figures/centromeres/centromere_detector/centromere_detector.py:163-165 | the corrected records and the dips `main` collects agree position by position on everything but the chromosome label |
| CentromereDetector.CollectDips | figures/centromeres/centromere_detector/centromere_detector.py:185-190 | the loop in `main` extends `kinetochore_regions` with each selected block's dips, block by block, without their chromosome |
| CentromereDetector.AsWrittenRecords | figures/centromeres/centromere_detector/centromere_detector.py:163-165 | the site lines `output_gff` writes are the given dips, one base each, and nothing else |
| CentromereDetector.WrittenSitesSound | figures/centromeres/centromere_detector/centromere_detector.py:152-165 | as written, every site line is a dip of some selected block, labelled with the last selected chromosome |
| CentromereDetector.WrittenSitesComplete | figures/centromeres/centromere_detector/centromere_detector.py:152-165 | as written, every dip of every selected block is written, under the last selected chromosome |
| CentromereDetector.Detect | figures/centromeres/centromere_detector/centromere_detector.py:168-193 | `main` as written: fails exactly when parsing fails; otherwise one pick per chromosome with an eligible block, each pick the first block of lowest mean on its chromosome; no site without a pick; otherwise the site lines are the picks' dips in block order and sample order, every one labelled with the last pick's chromosome |
| CentromereDetector.SiteRecordsAsWritten | figures/centromeres/centromere_detector/centromere_detector.py:152-165 | as written, every site line is labelled with the last selected chromosome |
| CentromereDetector.SiteMislabelled | figures/centromeres/centromere_detector/centromere_detector.py:157-165 | two centromeres with a dip only on the first: the as-written output labels that site with the second chromosome |
| AvgMethylation.ExtractTarget | figures/centromeres/methylation/avg_methylation.py:54-56 | attributes that do not mention `Target` have no target; a missing piece of `split("Target ")[1].split()[0].split(":")[1]` is an IndexError |
| AvgMethylation.ExtractTargetShape | figures/centromeres/methylation/avg_methylation.py:55-56 | an extracted target is one word without `:` or surrounding double quotes, taken from attributes that mention `Target` |
| AvgMethylation.Present | figures/centromeres/methylation/avg_methylation.py:81 | `dropna()` keeps only present values, each one from the column |
| AvgMethylation.RegionOf | figures/centromeres/methylation/avg_methylation.py:62-92 | a region is recorded only when it passes the length filter `end - start >= min_length` |
| AvgMethylation.RegionOfMean | figures/centromeres/methylation/avg_methylation.py:62-92 | a recorded region comes from a candidate line with the same repeat, chromosome and coordinates; its value is the mean of the extraction's present values, of which there is at least one |
| AvgMethylation.NoValuesNoRegion | figures/centromeres/methylation/avg_methylation.py:71-98 | a region whose extraction fails or has no present value is not recorded |
| AvgMethylation.ReadLineRepeat | figures/centromeres/methylation/avg_methylation.py:61-62 | only `Tgut716A` and `Tgut191A` lines are ever candidates |
| AvgMethylation.RecordedRepeat | figures/centromeres/methylation/avg_methylation.py:39-62 | a recorded region belongs to one of the two repeats |
| AvgMethylation.CollectsRepMiss | figures/centromeres/methylation/avg_methylation.py:47-104 | a line that records nothing for a repeat leaves that repeat's dict unchanged |
| AvgMethylation.CollectsRepHitKeys | figures/centromeres/methylation/avg_methylation.py:90-91 | a chromosome's first region adds the chromosome after the existing keys |
| AvgMethylation.CollectsRepHit | figures/centromeres/methylation/avg_methylation.py:90-92 | a recorded region is appended to its chromosome's list |
| AvgMethylation.AddRegion | figures/centromeres/methylation/avg_methylation.py:90-92 | the append keeps the collection equal to the fold over the lines read so far |
| AvgMethylation.CollectRegions | figures/centromeres/methylation/avg_methylation.py:47-104 | the collection loop fails exactly when some line raises or, with `--verbose`, when an extraction fails before any extraction has assigned `valid_values` (UnboundLocalError); otherwise it holds the regions the lines record, grouped by repeat and chromosome in first-seen order, the same with or without `--verbose` |
| AvgMethylation.BoundIff | figures/centromeres/methylation/avg_methylation.py:73-81 | `valid_values` is assigned after some lines exactly when one of their extractions succeeded |
| AvgMethylation.VerboseCrashIff | figures/centromeres/methylation/avg_methylation.py:73-101 | a verbose run crashes exactly when some eligible region's extraction fails before any extraction has succeeded |
| AvgMethylation.VerboseCrashAt | figures/centromeres/methylation/avg_methylation.py:96-101 | one failed extraction with `valid_values` still unassigned makes the verbose run crash, whatever lines follow |
| AvgMethylation.RecordedExtracts | figures/centromeres/methylation/avg_methylation.py:68-92 | a region is recorded only from a line whose extraction succeeded |
| AvgMethylation.NothingRecordedBeforeCrash | figures/centromeres/methylation/avg_methylation.py:73-101 | when a verbose run crashes, no earlier line has recorded a region |
| AvgMethylation.RegionsOfMember | figures/centromeres/methylation/avg_methylation.py:90-92 | a region is collected for its repeat and chromosome iff some line records it |
| AvgMethylation.RegionsOfLong | figures/centromeres/methylation/avg_methylation.py:68 | every collected region passes the length filter |
| AvgMethylation.ChromsHaveRegions | figures/centromeres/methylation/avg_methylation.py:90-92 | a chromosome is a key only when it has regions |
| AvgMethylation.GroupRowsTags | figures/centromeres/methylation/avg_methylation.py:113-119 | a group gives one row per region, all with its repeat and chromosome; the first row is `best` and the rest are `other` |
| AvgMethylation.GroupRowsShape | figures/centromeres/methylation/avg_methylation.py:113-119 | row `k` of a group carries the `k`-th mean in the stable sort |
| AvgMethylation.GroupRowsValues | figures/centromeres/methylation/avg_methylation.py:113-119 | the group's row values are exactly its regions' means |
| AvgMethylation.GroupRowsAscending | figures/centromeres/methylation/avg_methylation.py:113-115 | the row values ascend, so the `best` value is at most every region's mean |
| Sorting.SortStable | figures/centromeres/methylation/avg_methylation.py:113 | `sorted` is stable: for every key, the elements with that key keep their input order |
| AvgMethylation.RepeatRowsCount | figures/centromeres/methylation/avg_methylation.py:110-119 | a repeat contributes one row per collected region |
| AvgMethylation.AppendGroupBest | figures/centromeres/methylation/avg_methylation.py:116 | appending a group adds exactly one `best` row, its first |
| AvgMethylation.ConcatBest | figures/centromeres/methylation/avg_methylation.py:110-119 | across groups with distinct chromosomes, each chromosome has exactly one `best` row, at the head of its group, and no other chromosome has one |
| AvgMethylation.GroupBestValue | figures/centromeres/methylation/avg_methylation.py:113-116 | the `best` row carries the least mean of its group |
| AvgMethylation.RepeatRowsBest | figures/centromeres/methylation/avg_methylation.py:110-119 | within a repeat, each chromosome has exactly one `best` row, whose value is one of its regions' means and at most all of them; a chromosome without regions has none |
| AvgMethylation.SortedGroup | figures/centromeres/methylation/avg_methylation.py:113-119 | sorting by mean and tagging the first row `best` and the rest `other` gives the group's rows |
| AvgMethylation.RepeatGroupRows | figures/centromeres/methylation/avg_methylation.py:111-119 | the loop over one repeat's chromosomes gives their groups' rows, in dict order |
| AvgMethylation.SelectBest | figures/centromeres/methylation/avg_methylation.py:110-119 | the `select_best` loops give the `Tgut716A` rows followed by the `Tgut191A` rows |
| AvgMethylation.GetMethylation | figures/centromeres/methylation/avg_methylation.py:34-133 | fails exactly when some line raises or, with `--verbose`, on the unassigned `valid_values` (UnboundLocalError); without `select_best` the result is empty; with it the rows are the tagged groups of the collected regions |
| FindGaps.TupleLeTotal | completeness/findGaps.py:25 | Python's order on `(start, end)` tuples is a total preorder, so `sorted` is well defined |
| FindGaps.MergeOf | completeness/findGaps.py:23-30 | the definition of `merge_intervals`; its properties are in the rows below |
| FindGaps.MergeIntervals | completeness/findGaps.py:23-30 | the loop's result is the fold of the sorted intervals |
| FindGaps.MergedLength | completeness/findGaps.py:23-30 | the merge never has more intervals than its input, and is empty only for an empty input |
| FindGaps.MergedStarts | completeness/findGaps.py:26-29 | every merged interval starts at some input interval's start |
| FindGaps.MergedSeparated | completeness/findGaps.py:26-29 | each merged interval ends strictly before the next one starts |
| FindGaps.MergedCovers | completeness/findGaps.py:26-29 | over start-ordered intervals, the merge covers exactly the positions the input covers |
| FindGaps.ExtendCovers | completeness/findGaps.py:27 | extending the last interval over one that starts inside it covers the same positions as keeping both |
| FindGaps.SortedAscending | completeness/findGaps.py:25 | `sorted` orders the intervals by start |
| FindGaps.SortCovers | completeness/findGaps.py:25 | sorting does not change the covered positions |
| FindGaps.MergeOfSpec | completeness/findGaps.py:23-30 | `merge_intervals` returns no more intervals than it is given, each ending before the next starts, together covering exactly the input's positions |
| FindGaps.MergeOfWellFormed | completeness/findGaps.py:23-30 | merging intervals with `start <= end` keeps `start <= end` |
| FindGaps.MergeOfStarts | completeness/findGaps.py:23-30 | merging intervals with non-negative starts keeps them non-negative |
| FindGaps.SeparatedApart | completeness/findGaps.py:26-29 | for well-formed merged intervals, each one ends before every later one starts |
| FindGaps.ChromGaps | completeness/findGaps.py:36-42 | the definition of one chromosome's gaps in `find_gaps`; its properties are in the rows below |
| FindGaps.GapsOfChrom | completeness/findGaps.py:36-42 | the loop with `last_end` gives the chromosome's gaps |
| FindGaps.ChromGapsShape | completeness/findGaps.py:38-42 | every gap is non-empty and belongs to its chromosome |
| FindGaps.ChromGapsFrom | completeness/findGaps.py:36-42 | over apart intervals no gap starts before `last_end` |
| FindGaps.ChromGapsSound | completeness/findGaps.py:36-42 | a gap position is at or after `last_end` and inside no interval |
| FindGaps.ChromGapsComplete | completeness/findGaps.py:36-42 | a position from `last_end` up to the length that is inside no interval lies in a gap |
| FindGaps.ChromGapsOrdered | completeness/findGaps.py:36-42 | within a chromosome, gaps come in increasing order |
| FindGaps.GapsForPoints | completeness/findGaps.py:34-42 | for well-formed alignments, every gap position is non-negative and covered by no alignment, and every position of `[0, length)` no alignment covers lies in a gap (a gap can reach past the length when an alignment does) |
| FindGaps.UnalignedChrom | completeness/findGaps.py:35-42 | a chromosome without alignments gives the one gap `(0, length)`, or none when the length is not positive |
| FindGaps.FindGaps | completeness/findGaps.py:32-43 | the gaps are produced chromosome by chromosome in the reference index's order |
| FindGaps.AllGapsShape | completeness/findGaps.py:32-43 | gaps are reported only for reference chromosomes, and each is non-empty |
| ChrLengthsSplitHap.HapOf | figures/supplementary_figures/plot_chr_lengths_split_hap.py:8 | the definition of the `hap` column; its properties are in the rows below |
| ChrLengthsSplitHap.BaseOf | figures/supplementary_figures/plot_chr_lengths_split_hap.py:9 | the definition of the `chr_base` column; its properties are in the rows below |
| ChrLengthsSplitHap.BaseAndSuffix | figures/supplementary_figures/plot_chr_lengths_split_hap.py:8-9 | a name with a `_mat` or `_pat` suffix is its base name plus that suffix; a name without one is its own base |
| ChrLengthsSplitHap.Totals | figures/supplementary_figures/plot_chr_lengths_split_hap.py:16-21 | the definition of the pivot table with its added `mat` and `pat` columns; its properties are in the rows below |
| ChrLengthsSplitHap.TotalsKeys | figures/supplementary_figures/plot_chr_lengths_split_hap.py:16 | a base name is in the pivot table iff one of its rows has a haplotype |
| ChrLengthsSplitHap.TotalsSums | figures/supplementary_figures/plot_chr_lengths_split_hap.py:16-21 | a table row holds the summed maternal and paternal lengths of its base, a missing haplotype being 0 |
| ChrLengthsSplitHap.TotalsSpec | figures/supplementary_figures/plot_chr_lengths_split_hap.py:16-21 | the table's keys and values together |
| ChrLengthsSplitHap.Diploid | figures/supplementary_figures/plot_chr_lengths_split_hap.py:24-28 | the definition of `compute_diploid_length`; its properties are in the rows below |
| ChrLengthsSplitHap.DiploidBounds | figures/supplementary_figures/plot_chr_lengths_split_hap.py:24-28 | `compute_diploid_length` treats the haplotypes alike, lies between their sum and twice the longer one, and equals the sum iff both are present or they are equal |
| ChrLengthsSplitHap.NameLeTotal | figures/supplementary_figures/plot_chr_lengths_split_hap.py:16 | the index order on base names is a total preorder |
| ChrLengthsSplitHap.LongerTotal | figures/supplementary_figures/plot_chr_lengths_split_hap.py:31 | the order by diploid length is a total preorder |
| ChrLengthsSplitHap.PhasedBasesSpec | figures/supplementary_figures/plot_chr_lengths_split_hap.py:16 | a base name is collected iff one of its rows has a haplotype |
| ChrLengthsSplitHap.Plotted | figures/supplementary_figures/plot_chr_lengths_split_hap.py:13-38 | the definition of the plotted chromosomes and their values, in order; its properties are in the rows below |
| ChrLengthsSplitHap.BarsOf | figures/supplementary_figures/plot_chr_lengths_split_hap.py:34-38 | one bar per index name, carrying that name's table row |
| ChrLengthsSplitHap.IndexInTotals | figures/supplementary_figures/plot_chr_lengths_split_hap.py:16-34 | every index name has a table row |
| ChrLengthsSplitHap.PlottedDescending | figures/supplementary_figures/plot_chr_lengths_split_hap.py:30-31 | the bars are in non-increasing diploid length |
| ChrLengthsSplitHap.PlottedFromIndex | figures/supplementary_figures/plot_chr_lengths_split_hap.py:31-38 | each bar is an index name with its table row |
| ChrLengthsSplitHap.PlottedSums | figures/supplementary_figures/plot_chr_lengths_split_hap.py:16-38 | each bar carries the per-haplotype sums of its base name |
| ChrLengthsSplitHap.PlottedDistinct | figures/supplementary_figures/plot_chr_lengths_split_hap.py:16-34 | no base name gets two bars |
| ChrLengthsSplitHap.PlottedCovers | figures/supplementary_figures/plot_chr_lengths_split_hap.py:8-34 | there is a bar for a base name iff one of its rows has a haplotype |
| ChrLengthsSplitHap.BarsCount | figures/supplementary_figures/plot_chr_lengths_split_hap.py:34-38 | a bar occurs no more often than its name does among the names |
| Rvcp.ReverseComplement | centromere_annotation/monomer_analysis/MSA/rvcp.py:28 | the reverse complement keeps the length |
| Rvcp.ComplementInvolution | centromere_annotation/monomer_analysis/MSA/rvcp.py:28 | over the model's IUPAC DNA table, complementing a symbol twice gives it back |
| Rvcp.ReverseComplementAt | centromere_annotation/monomer_analysis/MSA/rvcp.py:28 | position `i` of the result is the complement of position `n - 1 - i` |
| Rvcp.ReverseComplementTwice | centromere_annotation/monomer_analysis/MSA/rvcp.py:28 | over the model's IUPAC DNA table, reverse-complementing twice gives back the sequence |
| Rvcp.ReadPafLine | centromere_annotation/monomer_analysis/MSA/rvcp.py:13-16 | a PAF line with more than four tab fields gives its query name and strand, any other line nothing |
| Rvcp.PafEntriesAt | centromere_annotation/monomer_analysis/MSA/rvcp.py:12-16 | each line is read on its own |
| Rvcp.StrandMap | centromere_annotation/monomer_analysis/MSA/rvcp.py:10-18 | the definition of `strand_map`; its properties are in the rows below |
| Rvcp.StrandMapSnoc | centromere_annotation/monomer_analysis/MSA/rvcp.py:17-18 | a new query is added with its strand; a query already present keeps its first strand |
| Rvcp.BuildStrandMap | centromere_annotation/monomer_analysis/MSA/rvcp.py:10-18 | step 1's loop builds the first-strand map of the PAF lines |
| Rvcp.StrandMapFirstWins | centromere_annotation/monomer_analysis/MSA/rvcp.py:10-18 | a query is in the map iff some PAF line names it, and its strand is the first such line's |
| Rvcp.OrientedSpec | centromere_annotation/monomer_analysis/MSA/rvcp.py:26-31 | only minus-strand records change: the id gets `_revcomp`, the length is kept and the sequence is reverse-complemented, which is undone by doing it again |
| Rvcp.Partition | centromere_annotation/monomer_analysis/MSA/rvcp.py:21-33 | step 2's loop gives the aligned and unaligned lists of the specification functions |
| Rvcp.PartitionCount | centromere_annotation/monomer_analysis/MSA/rvcp.py:24-40 | every record lands in exactly one of the two lists |
| Rvcp.UnalignedSpec | centromere_annotation/monomer_analysis/MSA/rvcp.py:32-33 | the unaligned list is exactly the records without a strand, unchanged |
| Rvcp.AlignedSpec | centromere_annotation/monomer_analysis/MSA/rvcp.py:25-31 | the aligned list holds each record with a strand, oriented by that strand, and nothing else |
| Rvcp.AlignedIffMapped | centromere_annotation/monomer_analysis/MSA/rvcp.py:10-33 | a record is aligned iff some PAF line names its id; aligned records are oriented by the first strand and the rest go to the unaligned list |
| Conservation.Column | centromere_annotation/monomer_analysis/plot_conservation.py:20 | `alignment[:, i]` has one symbol per sequence: the `i`-th of that row |
| Conservation.CountColumn | centromere_annotation/monomer_analysis/plot_conservation.py:21-23 | the inner loop builds the `counts` dictionary of the column |
| Conservation.CountsKeys | centromere_annotation/monomer_analysis/plot_conservation.py:21-23 | the dictionary's keys are the column's symbols in order of first appearance |
| Conservation.CountsValues | centromere_annotation/monomer_analysis/plot_conservation.py:21-23 | each symbol maps to its number of occurrences in the column |
| Conservation.CountsTotal | centromere_annotation/monomer_analysis/plot_conservation.py:21-23 | the counts add up to the number of sequences |
| Conservation.MostCommonOf | centromere_annotation/monomer_analysis/plot_conservation.py:20-24 | the definition of `most_common_base` for one column; its properties are in the rows below |
| Conservation.FirstMax | centromere_annotation/monomer_analysis/plot_conservation.py:24 | `max(counts, key=counts.get)` picks a key whose count is maximal and strictly above every earlier key's |
| Conservation.FirstMaxUnique | centromere_annotation/monomer_analysis/plot_conservation.py:24 | only one key satisfies that |
| Conservation.MostCommon | centromere_annotation/monomer_analysis/plot_conservation.py:24-25 | the scan over the keys returns the first maximal key |
| Conservation.MostCommonMax | centromere_annotation/monomer_analysis/plot_conservation.py:24 | the most common symbol occurs at least as often as any other symbol of the column |
| Conservation.MostCommonFirst | centromere_annotation/monomer_analysis/plot_conservation.py:24 | on a tie, the symbol seen first in the column wins |
| Conservation.DedupOrder | centromere_annotation/monomer_analysis/plot_conservation.py:21-24 | the dictionary keeps first-appearance order |
| Conservation.ScoreOf | centromere_annotation/monomer_analysis/plot_conservation.py:20-28 | the definition of `score` for one column; its properties are in the rows below |
| Conservation.ScoreSpec | centromere_annotation/monomer_analysis/plot_conservation.py:28 | the score lies in `[0, 1]` with the number of sequences as denominator; it is 0 when a gap is most common, otherwise that symbol's share |
| Conservation.Summarize | centromere_annotation/monomer_analysis/plot_conservation.py:20-31 | one outer pass gives the column's most common symbol and its score |
| Conservation.BasesAt | centromere_annotation/monomer_analysis/plot_conservation.py:19-31 | the `i`-th collected symbol is column `i`'s most common symbol |
| Conservation.ScoresAt | centromere_annotation/monomer_analysis/plot_conservation.py:19-31 | the `i`-th collected score is column `i`'s score |
| Conservation.Conserve | centromere_annotation/monomer_analysis/plot_conservation.py:16-31 | the outer loop gives one symbol and one score per column, each the column's own |
| Conservation.CsvRowsAt | centromere_annotation/monomer_analysis/plot_conservation.py:36-38 | one CSV row per column, numbered from 1, with that column's symbol and score |
| BamToMsa.Gaps | centromere_annotation/monomer_analysis/MSA/bam_to_msa.py:33-43 | `'-' * n` is a string of `n` gap symbols |
| BamToMsa.Slice | centromere_annotation/monomer_analysis/MSA/bam_to_msa.py:37 | a query slice past the end of the query is clipped: never longer than asked, exactly the substring when the query is long enough |
| BamToMsa.RowOf | centromere_annotation/monomer_analysis/MSA/bam_to_msa.py:26-50 | the definition of one read's `aligned_query`; its properties are in the rows below |
| BamToMsa.BuildRow | centromere_annotation/monomer_analysis/MSA/bam_to_msa.py:26-50 | the CIGAR loop over one read builds the row of the CIGAR walk specification |
| BamToMsa.WalkCounters | centromere_annotation/monomer_analysis/MSA/bam_to_msa.py:27-48 | after the walk the query position is the total length of the M, I and S operations, and the reference position is the start plus the M and D lengths |
| BamToMsa.InterleavedLength | centromere_annotation/monomer_analysis/MSA/bam_to_msa.py:35-50 | the pieces after the leading gaps are at most as long as the M and D operations together, and exactly that long when the query covers the CIGAR |
| BamToMsa.RowContent | centromere_annotation/monomer_analysis/MSA/bam_to_msa.py:31-50 | a row starts with `reference_start` gaps; without its gaps it is the matched query slices in order; it is at most the start plus the M and D lengths long |
| BamToMsa.RowLength | centromere_annotation/monomer_analysis/MSA/bam_to_msa.py:31-50 | when the query is as long as its M, I and S operations, the row spans exactly from 0 to the reference end |
| BamToMsa.CollectRows | centromere_annotation/monomer_analysis/MSA/bam_to_msa.py:15-51 | the read loop gives the row dictionary of the specification function, or KeyError |
| BamToMsa.RowsOk | centromere_annotation/monomer_analysis/MSA/bam_to_msa.py:19-23 | the loop fails exactly when some mapped read's reference is missing from the FASTA, and then with KeyError |
| BamToMsa.RowsKeys | centromere_annotation/monomer_analysis/MSA/bam_to_msa.py:18-51 | a name has a row iff some mapped read carries it; unmapped reads leave no row |
| BamToMsa.RowsLast | centromere_annotation/monomer_analysis/MSA/bam_to_msa.py:51 | a name's row is the row of the last mapped read with that name |
| BamToMsa.MaxLength | centromere_annotation/monomer_analysis/MSA/bam_to_msa.py:54 | the width is at least every row's length and is the length of some row |
| BamToMsa.PadTo | centromere_annotation/monomer_analysis/MSA/bam_to_msa.py:59 | `ljust` brings a shorter row to the width by appending gaps only and leaves a longer one unchanged |
| BamToMsa.RecordsAt | centromere_annotation/monomer_analysis/MSA/bam_to_msa.py:58-60 | record `i` is the header `>name` followed by the padded row, in dictionary order |
| BamToMsa.WriteFasta | centromere_annotation/monomer_analysis/MSA/bam_to_msa.py:54-60 | the writing step produces the output of the specification function, ValueError when there is no row |
| BamToMsa.OutputSpec | centromere_annotation/monomer_analysis/MSA/bam_to_msa.py:54-60 | every written row has the common width, begins with its unpadded row and continues with gaps only, and its header names it |
| MaxUnitLength.ReadUnit | figures/centromeres/max_unit_length_per_chromosome.py:11-20 | a blank or `#` line gives no unit; otherwise the unit of its tab fields |
| MaxUnitLength.ReadFields | figures/centromeres/max_unit_length_per_chromosome.py:13-24 | fewer than five fields, or a start or end `int` rejects, gives no unit; otherwise the chromosome with `end - start + 1` |
| MaxUnitLength.MaxLens | figures/centromeres/max_unit_length_per_chromosome.py:7-24 | the definition of the `max_len` dictionary of `parse_gff_compute_lengths`; its properties are in the rows below |
| MaxUnitLength.RecordUnit | figures/centromeres/max_unit_length_per_chromosome.py:21-22 | the update of one unit is the dictionary step of the specification, including the insertion with 0 done by the `defaultdict` lookup |
| MaxUnitLength.ComputeLengths | figures/centromeres/max_unit_length_per_chromosome.py:7-24 | the loop over the lines builds the dictionary of the specification function |
| MaxUnitLength.MaxLensKeys | figures/centromeres/max_unit_length_per_chromosome.py:7-21 | a chromosome is reported iff some usable line names it, even when none of its lengths is positive |
| MaxUnitLength.MaxLensBound | figures/centromeres/max_unit_length_per_chromosome.py:7-22 | the reported value is at least 0 and at least every unit length of the chromosome |
| MaxUnitLength.MaxLensAttained | figures/centromeres/max_unit_length_per_chromosome.py:7-22 | the reported value is 0 or the length of one of the chromosome's units |
| MaxUnitLength.ReportOrderSpec | figures/centromeres/max_unit_length_per_chromosome.py:26 | the chromosomes are printed each once, in increasing name order, and they are exactly those with a usable line |
| MaxUnitLength.ReportLines | figures/centromeres/max_unit_length_per_chromosome.py:26-27 | each printed line is the chromosome, a tab and its maximal unit length, which reads back as that number |
| MatchChromosomes.Normalize | completeness/match_chromosomes.py:7-8 | the definition of `normalize`; its properties are in the rows below |
| MatchChromosomes.NormalizeIdempotent | completeness/match_chromosomes.py:7-8 | a normalized name has no lower-case letter left, and normalizing it again changes nothing |
| MatchChromosomes.TiersNested | completeness/match_chromosomes.py:20-28 | an exact match is a prefix match, and a prefix match is a partial match |
| MatchChromosomes.BestMatch | completeness/match_chromosomes.py:15-32 | the definition of `best_match`, with `manual_map`; its properties are in the rows below |
| MatchChromosomes.FilterEmpty | completeness/match_chromosomes.py:20-28 | a list comprehension is empty exactly when no lookup value passes its test |
| MatchChromosomes.FilterSingle | completeness/match_chromosomes.py:21-29 | a tier's list has length 1 exactly when exactly one lookup value passes that tier |
| MatchChromosomes.BestMatchTier | completeness/match_chromosomes.py:15-30 | when no earlier tier has a single match and tier `t` has its single match at `k`, `best_match` returns that value |
| MatchChromosomes.BestMatchNone | completeness/match_chromosomes.py:15-32 | without an override, `best_match` gives `None` exactly when no tier has a single match |
| MatchChromosomes.BestMatchFound | completeness/match_chromosomes.py:16-30 | an override is returned whatever the list holds; any other answer is the single match of some tier |
| MatchChromosomes.ReadLine | completeness/match_chromosomes.py:55-58 | a blank line gives nothing; any other gives its tab fields after `rstrip` |
| MatchChromosomes.Resolved | completeness/match_chromosomes.py:61-67 | a cached key gives its cached answer; a new key gets `best_match` or the prompt's answer, which is then cached, and the cache stays consistent |
| MatchChromosomes.Resolve | completeness/match_chromosomes.py:51-69 | the loop writes, for every non-blank line in order, its fields plus the answer for its key, and asks about each distinct key once, in first-appearance order |
| MatchChromosomes.LookedOnce | completeness/match_chromosomes.py:61-67 | `best_match` and the prompt run for every key of the input and never twice for the same key |
| MatchChromosomes.OutLineFields | completeness/match_chromosomes.py:58-69 | a written line splits back into the line's fields plus exactly one more: the answer for its key |
| MatchChromosomes.AppendedSplits | completeness/match_chromosomes.py:69 | joining tab-free fields with tabs and splitting at tabs gives the fields back |
| Karyotype.ReadFaiLine | figures/centromeres/karyotype/centromere_karyotype_svg.py:30-36 | a blank line, a line with fewer than two tab fields or a length `int` rejects gives nothing; any other gives its name and length |
| Karyotype.ReadFai | figures/centromeres/karyotype/centromere_karyotype_svg.py:26-37 | the loop over the index lines builds the length map of the specification function |
| Karyotype.LengthsLastWins | figures/centromeres/karyotype/centromere_karyotype_svg.py:34 | a name has a length iff some usable line names it, and the length is the one of its last such line |
| Karyotype.CenEntry | figures/centromeres/karyotype/centromere_karyotype_svg.py:43-51 | a usable GFF line gives a span whose start is at most its end, the coordinates swapped when given in reverse |
| Karyotype.ReadCenLine | figures/centromeres/karyotype/centromere_karyotype_svg.py:43-52 | one pass of the loop body reads the span of the specification function |
| Karyotype.ReadCentromeres | figures/centromeres/karyotype/centromere_karyotype_svg.py:39-55 | the loop over the GFF lines builds the `best` dictionary of the specification function |
| Karyotype.BestKeys | figures/centromeres/karyotype/centromere_karyotype_svg.py:46-54 | a chromosome has a stored span iff some usable line names it |
| Karyotype.BestWidest | figures/centromeres/karyotype/centromere_karyotype_svg.py:52-54 | a chromosome's stored span is its widest, the first of them when several are equally wide |
| Karyotype.SortKey | figures/centromeres/karyotype/centromere_karyotype_svg.py:58-66 | the definition of the `key` function inside `sort_chromosomes`; its properties are in the rows below |
| Karyotype.ChrNumber | figures/centromeres/karyotype/centromere_karyotype_svg.py:61-64 | the regular expression gives a number and a letter suffix of at most one character |
| Karyotype.ChromLeTotal | figures/centromeres/karyotype/centromere_karyotype_svg.py:58-67 | comparing sort keys is a total preorder on names |
| Karyotype.SortChromosomes | figures/centromeres/karyotype/centromere_karyotype_svg.py:57-67 | the definition of `sort_chromosomes`; its properties are in the rows below |
| Karyotype.SortChromosomesSpec | figures/centromeres/karyotype/centromere_karyotype_svg.py:67 | `sorted` returns a rearrangement of the names, in key order |
| Karyotype.GroupOrder | figures/centromeres/karyotype/centromere_karyotype_svg.py:59-66 | the numbered names come first, then the unmatched ones, then `chrZ` and then `chrW` names, as long as the numbers stay below the sentinels |
| Karyotype.NumberedOrder | figures/centromeres/karyotype/centromere_karyotype_svg.py:62-65 | numbered names go by number, then the unsuffixed name first, then by suffix letter |
| Karyotype.SortedGroups | figures/centromeres/karyotype/centromere_karyotype_svg.py:67 | the sorted list keeps that group order |
| Karyotype.LargeNumberAfterW | figures/centromeres/karyotype/centromere_karyotype_svg.py:59-65 | a numbered name whose number is above the `chrW` sentinel sorts after the `chrW` names |
| Karyotype.InLengths | figures/centromeres/karyotype/centromere_karyotype_svg.py:93 | the filter keeps exactly the names that have a length |
| Karyotype.InLengthsSorted | figures/centromeres/karyotype/centromere_karyotype_svg.py:93 | filtering keeps the order |
| Karyotype.DrawnSpec | figures/centromeres/karyotype/centromere_karyotype_svg.py:91-93 | the drawn names are exactly the centromere names with a length, in karyotype order |
| Karyotype.DrawnEmpty | figures/centromeres/karyotype/centromere_karyotype_svg.py:94-96 | the script stops with an error exactly when no centromere name has a length |
| PurRepeats.AttrOfDropped | figures/PURs_and_repeats/PUR_repeats_barchart.py:13-16 | a `;`-part gives no attribute exactly when it is blank or holds no space |
| PurRepeats.AttrOfKept | figures/PURs_and_repeats/PUR_repeats_barchart.py:15-18 | a kept part yields a key free of spaces and a value with the surrounding quotes stripped |
| PurRepeats.ParseGtfAttributes | figures/PURs_and_repeats/PUR_repeats_barchart.py:10-19 | the parser gives the attribute map of the specification functions over the `;`-parts of the stripped text |
| PurRepeats.PartsAttrs | figures/PURs_and_repeats/PUR_repeats_barchart.py:12-18 | the loop over the parts builds that map |
| PurRepeats.AttrsLastWins | figures/PURs_and_repeats/PUR_repeats_barchart.py:18 | a key is present iff some part carries it, and its value is the one of the last such part |
| PurRepeats.ClassifyRepeat | figures/PURs_and_repeats/PUR_repeats_barchart.py:22-40 | the definition of `classify_repeat`; its properties are in the rows below |
| PurRepeats.ClassifyOther | figures/PURs_and_repeats/PUR_repeats_barchart.py:22-40 | the class is `Other` exactly when the lower-cased type contains none of the listed words |
| PurRepeats.ClassifyFirst | figures/PURs_and_repeats/PUR_repeats_barchart.py:22-39 | the class is the one of the first test the lower-cased type passes |
| PurRepeats.ClassifyNeverRetro | figures/PURs_and_repeats/PUR_repeats_barchart.py:24-27 | the `retrotransposon` branch is unreachable, because every such type already contains `transposon`; the class is never the no-hit bucket `Unannotated` either |
| PurRepeats.SimplifyChrom | figures/PURs_and_repeats/PUR_repeats_barchart.py:43-50 | the definition of `simplify_chrom`; its properties are in the rows below |
| PurRepeats.SimplifyPhased | figures/PURs_and_repeats/PUR_repeats_barchart.py:43-48 | `chr<b>_mat` and `chr<b>_pat` give `b` with their haplotype, for a base name without `c` or `_` |
| PurRepeats.SimplifyUnphased | figures/PURs_and_repeats/PUR_repeats_barchart.py:43-50 | `chr<b>` without a haplotype suffix gives `b`, unphased |
| PurRepeats.SimplifyPlain | figures/PURs_and_repeats/PUR_repeats_barchart.py:43-50 | a name with no `chr` and no haplotype suffix is kept whole and is unphased |
| PurRepeats.Overlap | figures/PURs_and_repeats/PUR_repeats_barchart.py:76-78 | the definition of the overlap length in `calculate_overlap_tabix`; its properties are in the rows below |
| PurRepeats.OverlapSpec | figures/PURs_and_repeats/PUR_repeats_barchart.py:76-78 | the overlap is never negative and never longer than either interval, and it is positive exactly when both half-open intervals are non-empty and intersect |
| PurRepeats.HitOfSpec | figures/PURs_and_repeats/PUR_repeats_barchart.py:72-81 | a hit is a positive overlap no longer than the PUR, of a class other than `Unannotated` |
| PurRepeats.ReadHit | figures/PURs_and_repeats/PUR_repeats_barchart.py:72-80 | one record gives no hit when it has fewer than five fields or no positive overlap, a crash when `int` rejects a coordinate, and otherwise its class and overlap |
| PurRepeats.CollectCrash | figures/PURs_and_repeats/PUR_repeats_barchart.py:71-75 | the record loop crashes exactly when some record is bad |
| PurRepeats.CollectEmpty | figures/PURs_and_repeats/PUR_repeats_barchart.py:70-84 | without a crash there is no hit exactly when no record takes part |
| PurRepeats.HitsCrash | figures/PURs_and_repeats/PUR_repeats_barchart.py:73-75 | a PUR's record loop crashes exactly when some record has at least five fields and a coordinate `int` rejects |
| PurRepeats.HitsBounds | figures/PURs_and_repeats/PUR_repeats_barchart.py:76-81 | every hit is a positive overlap no longer than the PUR, of a class other than `Unannotated` |
| PurRepeats.CollectFrom | figures/PURs_and_repeats/PUR_repeats_barchart.py:71-82 | every hit comes from a record of the fetch that takes part |
| PurRepeats.PurAddsUnannotated | figures/PURs_and_repeats/PUR_repeats_barchart.py:64-85 | a PUR adds to `Unannotated` exactly when its fetch fails or none of its records takes part, and then it adds its full length there and nothing else |
| PurRepeats.PurAddsHits | figures/PURs_and_repeats/PUR_repeats_barchart.py:79-85 | otherwise the PUR adds exactly its hits |
| PurRepeats.ApplySpec | figures/PURs_and_repeats/PUR_repeats_barchart.py:55-85 | the nested `defaultdict` updates add to each cell of the PUR's chromosome and haplotype the total for its class, create exactly the cells of the classes added, and leave every other cell alone |
| PurRepeats.AccountPur | figures/PURs_and_repeats/PUR_repeats_barchart.py:60-85 | the body of the PUR loop gives the table of the specification function, or the record loop's crash |
| PurRepeats.RecordPass | figures/PURs_and_repeats/PUR_repeats_barchart.py:70-82 | the record loop adds the PUR's hits to the table and reports whether there was any, or stops with the first bad record's crash |
| PurRepeats.CalculateOverlap | figures/PURs_and_repeats/PUR_repeats_barchart.py:53-87 | the PUR loop gives the table of the specification function, or the crash |
| PurRepeats.CrashStays | figures/PURs_and_repeats/PUR_repeats_barchart.py:59-87 | once a PUR has crashed, the whole run ends with that crash |
| PurRepeats.TalliesCell | figures/PURs_and_repeats/PUR_repeats_barchart.py:53-87 | every cell of the final table is the sum of what each PUR contributes to it |
| PrimerDistances.SimplifyChromName | figures/centromeres/colocalization/plot_primer_repeat_distances.py:11-18 | the definition of `simplify_chrom_name`; its properties are in the rows below |
| PrimerDistances.SimplifyPhased | figures/centromeres/colocalization/plot_primer_repeat_distances.py:11-17 | `chr<b>_mat` and `chr<b>_pat` become `<b>m` and `<b>p`, whatever `b` is |
| PrimerDistances.SimplifyUnphased | figures/centromeres/colocalization/plot_primer_repeat_distances.py:11-18 | only one leading `chr` is removed: `chr<b>` becomes `b` when `b` has no haplotype suffix |
| PrimerDistances.SimplifyPlain | figures/centromeres/colocalization/plot_primer_repeat_distances.py:11-18 | a name without a `chr` prefix and without a haplotype suffix is unchanged |
| PrimerDistances.PrimerType | figures/centromeres/colocalization/plot_primer_repeat_distances.py:52-54 | the `type` column is set exactly for names starting with `Centromere` or `Distal`; it is the matched prefix lower-cased: `centromere` for `Centromere`, `distal` for `Distal` |
| PrimerDistances.PairId | figures/centromeres/colocalization/plot_primer_repeat_distances.py:25-26 | the definition of the `pair_id` column: the name without a trailing `[_-][FR]`, else the name; its properties are in the rows below |
| PrimerDistances.PairIdMates | figures/centromeres/colocalization/plot_primer_repeat_distances.py:25-26 | `<b>_F`, `<b>-F`, `<b>_R` and `<b>-R` all have the pair id `b` |
| PrimerDistances.PairIdPlain | figures/centromeres/colocalization/plot_primer_repeat_distances.py:25-26 | a name without that suffix is its own pair id |
| PrimerDistances.KeysOf | figures/centromeres/colocalization/plot_primer_repeat_distances.py:29 | the group key of every row, in row order |
| PrimerDistances.GroupKeysSpec | figures/centromeres/colocalization/plot_primer_repeat_distances.py:29-31 | `groupby` visits every `(chrom, pair_id)` key of a row, each once, in sorted order |
| PrimerDistances.Group | figures/centromeres/colocalization/plot_primer_repeat_distances.py:29-31 | a group holds rows of the input with its key, as many as the input has |
| PrimerDistances.TruncHalfBetween | figures/centromeres/colocalization/plot_primer_repeat_distances.py:36-37 | the truncated mean of two numbers lies between them |
| PrimerDistances.MergeGroup | figures/centromeres/colocalization/plot_primer_repeat_distances.py:32-43 | the definition of one group's step in `merge_primers`; its properties are in the rows below |
| PrimerDistances.MergeGroupSpec | figures/centromeres/colocalization/plot_primer_repeat_distances.py:32-43 | a close pair becomes one row on the same chromosome, of the same type, named by the pair id, whose start and end lie between the pair's; any other group passes through unchanged |
| PrimerDistances.MergeOne | figures/centromeres/colocalization/plot_primer_repeat_distances.py:32-43 | the body of the group loop gives the rows of the specification function |
| PrimerDistances.MergePrimers | figures/centromeres/colocalization/plot_primer_repeat_distances.py:21-49 | the group loop gives the merged rows of the specification function |
| PrimerDistances.GroupTotalCount | figures/centromeres/colocalization/plot_primer_repeat_distances.py:29-31 | groups of distinct keys together hold exactly the rows of those keys |
| PrimerDistances.MergedCount | figures/centromeres/colocalization/plot_primer_repeat_distances.py:28-45 | merging never increases the number of rows |
| PrimerDistances.MergeAllFrom | figures/centromeres/colocalization/plot_primer_repeat_distances.py:31-43 | every merged row is an input row, or merges a close pair of rows that share chromosome and pair id |
| PrimerDistances.LoadRepeats | figures/centromeres/colocalization/plot_primer_repeat_distances.py:58-86 | the definition of `load_repeats`; its properties are in the rows below |
| PrimerDistances.BedLikeFrom | figures/centromeres/colocalization/plot_primer_repeat_distances.py:60-64 | every repeat row comes from a `dispersed_repeat` feature naming the repeat |
| PrimerDistances.RepeatOfSpec | figures/centromeres/colocalization/plot_primer_repeat_distances.py:64 | a converted row keeps the chromosome, takes the repeat's name and starts one before the feature's 1-based start |
| PrimerDistances.LengthFilter | figures/centromeres/colocalization/plot_primer_repeat_distances.py:67-68 | exactly the rows at least `min_length` long are kept |
| PrimerDistances.FirstPerChromDistinct | figures/centromeres/colocalization/plot_primer_repeat_distances.py:72 | after `drop_duplicates` no chromosome appears twice |
| PrimerDistances.FirstPerChromFirst | figures/centromeres/colocalization/plot_primer_repeat_distances.py:72 | every kept row is the first row of its chromosome |
| PrimerDistances.FirstPerChromChroms | figures/centromeres/colocalization/plot_primer_repeat_distances.py:72 | `drop_duplicates` keeps exactly the chromosomes of its input |
| PrimerDistances.LongestDistinct | figures/centromeres/colocalization/plot_primer_repeat_distances.py:70-72 | with `largest_only` no chromosome appears twice |
| PrimerDistances.LongestChroms | figures/centromeres/colocalization/plot_primer_repeat_distances.py:70-72 | with `largest_only` every chromosome of the input keeps a repeat |
| PrimerDistances.LongestMax | figures/centromeres/colocalization/plot_primer_repeat_distances.py:70-72 | the repeat kept for a chromosome is one of the input's, and none on that chromosome is longer |
| PrimerDistances.Restrict | figures/centromeres/colocalization/plot_primer_repeat_distances.py:76-78 | a non-empty chromosome set keeps exactly the rows on those chromosomes; an empty or missing set keeps all rows |
| PrimerDistances.LoadRepeatsKept | figures/centromeres/colocalization/plot_primer_repeat_distances.py:58-86 | every loaded repeat is at least `min_length` long, comes from a selected feature, and lies on a shared chromosome when a non-empty set is given |
| PrimerDistances.LoadRepeatsDistinct | figures/centromeres/colocalization/plot_primer_repeat_distances.py:70-86 | with `largest_only` no chromosome is loaded twice |
| PrimerDistances.OnShared | figures/centromeres/colocalization/plot_primer_repeat_distances.py:102 | exactly the primers on a shared chromosome are kept |
| PrimerDistances.ClosestRepeats | figures/centromeres/colocalization/plot_primer_repeat_distances.py:105 | exactly the repeats whose stripped chromosome is shared are kept |
| PrimerDistances.DistanceOf | figures/centromeres/colocalization/plot_primer_repeat_distances.py:110-111 | a `closest` line gives the primer key and the distance in its last column when it has four fields and the three numbers parse, and otherwise raises the error met first |
| PrimerDistances.CollectDistances | figures/centromeres/colocalization/plot_primer_repeat_distances.py:108-111 | the loop over the `closest` lines builds the dictionary of the specification function, or stops with the first line's error |
| PrimerDistances.DistanceDict | figures/centromeres/colocalization/plot_primer_repeat_distances.py:89-115 | the definition of `compute_distance_dict`; its properties are in the rows below |
| PrimerDistances.DistanceDictSpec | figures/centromeres/colocalization/plot_primer_repeat_distances.py:89-107 | with no chromosome in common the dictionary is empty, whatever `closest` would say; otherwise `closest` sees exactly the primers on shared chromosomes, sorted, and only repeats on shared chromosomes |
| PrimerDistances.DistancesSpec | figures/centromeres/colocalization/plot_primer_repeat_distances.py:108-111 | a primer has a distance iff some `closest` line names it, and it gets the distance of the last such line; any malformed line makes the whole call fail |
| AddClusterColors.ExtractId | centromere_annotation/monomer_analysis/HORs/add_cluster_colors.py:28-32 | the definition of `extract_id`; its properties are in the rows below |
| AddClusterColors.IdIndexSpec | centromere_annotation/monomer_analysis/HORs/add_cluster_colors.py:18-29 | `re.search` reports the leftmost `ID=` followed by a key character, and nothing when there is none |
| AddClusterColors.ExtractIdNone | centromere_annotation/monomer_analysis/HORs/add_cluster_colors.py:28-32 | `extract_id` gives `None` exactly when no `ID=` is followed by a character other than whitespace or `;` |
| AddClusterColors.ExtractIdSome | centromere_annotation/monomer_analysis/HORs/add_cluster_colors.py:28-31 | the id found is the non-empty, maximal run of such characters right after the leftmost match |
| AddClusterColors.ExtractIdLeading | centromere_annotation/monomer_analysis/HORs/add_cluster_colors.py:28-31 | an id at the very start of a header is read up to the first `;` |
| AddClusterColors.UcEntry | centromere_annotation/monomer_analysis/HORs/add_cluster_colors.py:12-21 | the definition of one line's step in `parse_uc`; its properties are in the rows below |
| AddClusterColors.UcEntrySpec | centromere_annotation/monomer_analysis/HORs/add_cluster_colors.py:12-21 | a `.uc` line yields an entry exactly when it is a well-formed seed or hit record whose column 9 holds an id, the entry being that id and the cluster number; only a record with a missing or malformed field fails |
| AddClusterColors.ReadUcLine | centromere_annotation/monomer_analysis/HORs/add_cluster_colors.py:12-21 | one pass of the `parse_uc` loop gives the entry of the specification function |
| AddClusterColors.ParseUc | centromere_annotation/monomer_analysis/HORs/add_cluster_colors.py:7-22 | the `parse_uc` loop builds the map of the specification function, or stops with the first malformed record's error |
| AddClusterColors.IdToClusterSpec | centromere_annotation/monomer_analysis/HORs/add_cluster_colors.py:7-22 | the map holds exactly the ids some line yields, each with the cluster of the last line yielding it; any malformed record ends the run |
| AddClusterColors.FastaMap | centromere_annotation/monomer_analysis/HORs/add_cluster_colors.py:38-44 | an id is kept exactly when a FASTA header names it and it has a cluster, and it keeps that cluster |
| AddClusterColors.FastaClusters | centromere_annotation/monomer_analysis/HORs/add_cluster_colors.py:38-44 | the FASTA loop builds that map |
| AddClusterColors.ClusterColors | centromere_annotation/monomer_analysis/HORs/add_cluster_colors.py:46 | exactly the clusters of the `.uc` map get a colour |
| AddClusterColors.FastaColored | centromere_annotation/monomer_analysis/HORs/add_cluster_colors.py:46-62 | every cluster of the FASTA map has a colour, so the colour lookup never raises |
| AddClusterColors.FirstIdSpec | centromere_annotation/monomer_analysis/HORs/add_cluster_colors.py:55-59 | the id is taken from the first `;`-field starting with `ID=`, and there is none when no field does |
| AddClusterColors.ColoredLineKept | centromere_annotation/monomer_analysis/HORs/add_cluster_colors.py:50-54 | a `#` line is copied as-is; a data line without nine columns raises IndexError |
| AddClusterColors.ColoredLineColumns | centromere_annotation/monomer_analysis/HORs/add_cluster_colors.py:53-65 | a written data line has the columns of the stripped input line, and its ninth column gains `;color=<c>` exactly when the line's non-empty id has a cluster, `c` being that cluster's colour |
| AddClusterColors.RewriteLine | centromere_annotation/monomer_analysis/HORs/add_cluster_colors.py:50-65 | one pass of the GFF loop writes the line of the specification function |
| AddClusterColors.Rewrite | centromere_annotation/monomer_analysis/HORs/add_cluster_colors.py:48-65 | the GFF loop writes those lines in order, or stops with the first line's error |
| AddClusterColors.ColoredLineCrash | centromere_annotation/monomer_analysis/HORs/add_cluster_colors.py:53-62 | with a colour for every cluster of the FASTA map, a line raises only when it is a data line without a ninth column |
| AddClusterColors.AddColors | centromere_annotation/monomer_analysis/HORs/add_cluster_colors.py:34-65 | the definition of `main`; its properties are in the rows below |
| AddClusterColors.AddColorsSpec | centromere_annotation/monomer_analysis/HORs/add_cluster_colors.py:34-65 | when the cluster file parses, the output has one line per GFF line, the run raises only on a data line without a ninth column, and never with KeyError |
| RDnaScript.Coverage | rDNA/rDNAscript.py:13-15 | the definition of the `coverage(\d+)` match and its digits; its properties are in the rows below |
| RDnaScript.CoverageIndexSpec | rDNA/rDNAscript.py:13 | `re.search` reports the leftmost `coverage` followed by a digit, and nothing when there is none |
| RDnaScript.CoverageNone | rDNA/rDNAscript.py:13-14 | a record is kept exactly when its description has `coverage` followed by a digit |
| RDnaScript.CoverageSome | rDNA/rDNAscript.py:13-15 | the observed count is the value of the whole, non-empty digit run that follows the leftmost match |
| RDnaScript.CoverageWritten | rDNA/rDNAscript.py:13-15 | a description that starts with `coverage<n>` followed by a non-digit gives back `n` |
| RDnaScript.Expected | rDNA/rDNAscript.py:16 | the definition of `expected_copies`; its properties are in the rows below |
| RDnaScript.RoundHalfEvenSpec | rDNA/rDNAscript.py:16 | Python's `round` gives an integer within one half of the quotient, and the even one on a tie |
| RDnaScript.ExpectedNearest | rDNA/rDNAscript.py:16 | the expected count is the integer nearest to `observed / unit_coverage` |
| RDnaScript.Morphs | rDNA/rDNAscript.py:7-20 | the definition of the `morphs` list of `parse_fasta`; its properties are in the rows below |
| RDnaScript.MorphsSpec | rDNA/rDNAscript.py:12-17 | a zero unit coverage raises exactly when some record is tagged; otherwise there is one morph per tagged record, in record order, each made from its record |
| RDnaScript.MorphsCover | rDNA/rDNAscript.py:12-17 | every tagged record gives a morph |
| RDnaScript.ParseFasta | rDNA/rDNAscript.py:7-20 | the record loop gives the morphs of the specification function and their total expected count, or ZeroDivisionError |
| RDnaScript.MorphsCrashStays | rDNA/rDNAscript.py:12-17 | once a record raises, the whole parse raises |
| RDnaScript.Copies | rDNA/rDNAscript.py:25-30 | the definition of `weighted_morphs` before the shuffle; its properties are in the rows below |
| RDnaScript.WeightedMorphs | rDNA/rDNAscript.py:25-30 | the nested loops list each morph's `(id, sequence)` once per expected copy, in morph order |
| RDnaScript.SumOfPerm | rDNA/rDNAscript.py:32-37 | a sum over the copies does not depend on their order |
| RDnaScript.WeightedCount | rDNA/rDNAscript.py:28-30 | before the shuffle, each `(id, sequence)` pair occurs as many times as the morphs with that pair have expected copies |
| RDnaScript.CountStep | rDNA/rDNAscript.py:35-37 | one pass of the counting loop bumps the count of a morph id and appends that copy's sequence |
| RDnaScript.GenerateRandomMorphSequence | rDNA/rDNAscript.py:23-39 | whatever order the shuffle picks, the mixed sequence is the shuffled copies joined, its length is the sum of expected copies times sequence length, every morph id is counted as many times as its morphs have expected copies, and the total passes through |
| RDnaScript.ShuffledSums | rDNA/rDNAscript.py:32-37 | any order of the copies has the length and the per-id counts of the copies themselves |
| RDnaScript.WeighedHasId | rDNA/rDNAscript.py:26-37 | counting copies by id is summing the expected copies of that id's morphs |
| RDnaScript.TotalIsCopies | rDNA/rDNAscript.py:18-30 | when no morph has a negative expected count, the total is the number of copies |

## Left out

General:
- File and terminal I/O: files are given as sequences of lines without their terminators, and output is the sequence of lines written. Usage checks on `sys.argv`, `argparse` handling and the text of informational and verbose prints are not modelled. Where a print can raise, the exception is modelled.
- Plotting (matplotlib, seaborn, SVG drawing) is not modelled. Only the data the plots are drawn from is modelled.
- `Strings.PyInt`: Python's `int()` also accepts digit-group underscores (`1_000`) and non-ASCII digits. The model accepts only an optional sign and ASCII digits, with surrounding whitespace stripped.
- Regular-expression `\d` is read as the ASCII digits; Python's Unicode `\d` also accepts other decimal digits. `\s` follows Python's Unicode whitespace set (`Strings.IsSpace`).
- `Strings.Upper` and `Strings.Lower` (`str.upper()` and `str.lower()`, used by `MatchChromosomes.Normalize` and the repeat classifier) change ASCII letters only and keep the length. Python also maps other letters, and can change the length (`'ß'.upper()` is `'SS'`). Chromosome names and repeat types are taken to be ASCII.

Colorizers (`gff3Colorizer.py`, `gff3Colorizer-3col.py`):
- md5 is the `Digest` parameter, a function from the key text to a number. The hash itself is not modelled. `& 0xFFFFFF` is written as the remainder modulo 2^24, which is the same for a non-negative digest.

GFF3 merger (`gff3Merger.py`):
- The header lines are passed through as read. Printing the saved-file message is left out.

Centromere detector (`centromere_detector.py`):
- The BigWig extraction through an external `bigWigToBedGraph` run is the `signal` parameter. Temporary files and the subprocess are not modelled.
- Signal values, block means and the 0.7 threshold are exact reals, not float64. The rounding in `float()` parsing, in `np.mean` and in `avg_methylation * 0.7` is not modelled. So the model can differ from the script for a sample that lies at the threshold up to rounding (`KinetochoreSites`, `Dips`), and for two block means that are equal as reals but not as rounded floats, or the reverse (`FindCentromere`).
- CentromereDetector.FindCentromere: requires every eligible block to have at least one sample (`Measurable`). With no sample, `np.mean` gives NaN with a warning, and NaN comparisons are not modelled.
- CentromereDetector.FirstLowestReplace: carries the same `Measurable` precondition, for the same reason.
- CentromereDetector.FirstLowestKeep: carries the same `Measurable` precondition, for the same reason.
- CentromereDetector.FirstLowestFirst: carries the same `Measurable` precondition, for the same reason.
- CentromereDetector.SelectionIsFirstArgmin: carries the same `Measurable` precondition, for the same reason.
- CentromereDetector.Detect: carries the same `Measurable` precondition, for the same reason.
- CentromereDetector.DetectCorrected: carries the same `Measurable` precondition, for the same reason.
- CentromereDetector.AverageSignal: requires a non-empty sample list, because the mean of no samples is NaN.
- CentromereDetector.MeanBetween: requires a non-empty sample list, for the same reason.
- A line with nine or more columns whose start or end is not an integer makes `parse_gff` raise ValueError. The repository's documentation describes such lines as skipped; the model follows the code and returns the crash.
- The exact text of the output GFF lines (number formatting of the means) is not modelled. The records written are modelled.

Methylation averages (`avg_methylation.py`):
- The BigWig extraction is the `fetch` parameter. Its values are exact reals rather than floats, and a missing value is `None`.
- Printing the table and the text of the verbose progress lines is left out. The `--verbose` flag is the `verbose` parameter of `GetMethylation`: its summary print at line 100 reads `valid_values`, and the UnboundLocalError it raises before any extraction has succeeded is modelled.

Gap finder (`findGaps.py`):
- `load_reference_lengths` and `load_alignments` (file parsing) are not modelled. The gap finder starts from the length dictionary and the interval lists.
- FindGaps.GapsForPoints and the other coverage lemmas require well-formed intervals (`start <= end`, non-negative starts), which PAF target coordinates satisfy.

Chromosome lengths (`plot_chr_lengths_split_hap.py`):
- `pandas.read_csv` is not modelled. The index rows arrive as names with non-negative lengths.
- `sort_values` uses an unstable sort, so the order of equal diploid lengths is not fixed by the code. The model breaks ties with a stable sort.

Strand orientation (`rvcp.py`):
- Biopython's FASTA parsing and writing are not modelled. The records arrive as id, description and sequence.
- `Rvcp.ReverseComplement`: the model complements with the IUPAC DNA table (A/T, C/G, M/K, R/Y, V/B, H/D) in upper and lower case, and keeps every other symbol, including `U` and `u`. Biopython's `reverse_complement` also complements `U`/`u`: recent versions map them to `A`/`a` in the DNA table, and older ones switch to the RNA table for a sequence holding `U`. A minus-strand record `U` therefore comes out as `A` from the script and as `U` from the model.
- `Rvcp.ComplementInvolution` and `Rvcp.ReverseComplementTwice` are about the model's table. Biopython's mapping is not an involution on `U` (`U` goes to `A` and back to `T`).

Conservation (`plot_conservation.py`):
- Conservation.Column: requires an alignment whose rows all have one length, which `AlignIO.read` guarantees. A malformed file is not modelled.
- Conservation.BasesAt: requires such an alignment, for the same reason.
- Conservation.ScoresAt: requires such an alignment, for the same reason.
- Conservation.Conserve: requires such an alignment, for the same reason.
- Scores are exact fractions. The `round(…, 6)` of the CSV output and the plot are not modelled.

CIGAR rows (`bam_to_msa.py`):
- pysam's BAM reading is not modelled. Reads arrive as their name, unmapped flag, reference name, start, CIGAR and query.
- A read without a query sequence (`None`) is not modelled.
- The reference sequences are read only for their names: the code looks a read's reference up, raising KeyError when it is missing, and never uses its sequence.

Chromosome matching (`match_chromosomes.py`):
- `read_lookup_file` is not modelled. The lookup values arrive as a list.
- `prompt_user` is the `Prompt` parameter. The code lets the user answer only a lookup value or the empty text, and the model allows any text.

Karyotype (`centromere_karyotype_svg.py`):
- The SVG layout and drawing after the names are chosen are not modelled.
- The `rstrip("\n")` of each line is the identity, since lines arrive without terminators.

PUR repeats (`PUR_repeats_barchart.py`):
- The tabix fetch is a parameter. It yields the record lines, or nothing when tabix raises ValueError.
- `pandas.read_csv` of the PUR BED file is not modelled. The PUR rows arrive parsed.
- The nested `defaultdict` is flattened into one map from (chromosome, haplotype, class) to base pairs.
- PurRepeats.SimplifyPhased: stated only for base names without `c` and `_`. `replace` removes every occurrence of `chr`, `_mat` and `_pat`, not only a prefix or suffix, so other names can lose more.

Primer distances (`plot_primer_repeat_distances.py`):
- `bedtools closest` and `sort` are the `Closest` parameter. The model states only what `closest` is handed and how its output lines are read.
- `to_dataframe` type inference and `read_csv` are not modelled. The rows arrive with integer coordinates.
- The `$` of the pair-id pattern also matches just before a final newline. A name ending in a newline is not treated that way.
- `sort_values("length")` uses an unstable sort. The model sorts stably, so among equally long repeats it may keep a different one.
- PrimerDistances.MergeGroupSpec: the merged coordinates are the means truncated toward zero, computed on integers. pandas' float mean is exact for the coordinates of an assembly.
- The `pair_id` column the merge adds is not carried in the output rows.
- The macro/micro split, the key mapping and the `dropna` join of `main` are not modelled.

Cluster colours (`add_cluster_colors.py`):
- `random_color` is the `Palette` parameter, one colour per cluster.
- Reading and writing files is not modelled. A `#` line is written as read, keeping its terminator.

rDNA morphs (`rDNAscript.py`):
- Biopython's FASTA parsing is not modelled. The records arrive as id, description and sequence.
- The unit coverage is an exact rational number, not a float. `inf` and `nan` are not modelled.
- `random.seed(42)` and `random.shuffle` are the `Shuffle` parameter, any function that returns a rearrangement of its input.
- The printed statistics and the output FASTA file are not modelled.

## Findings

| source | as written | input that shows it | evidently intended | confidence | as-written member | corrected member |
|---|---|---|---|---|---|---|
| figures/centromeres/centromere_detector/centromere_detector.py:157-165 | every kinetochore site line is written with `chrom` left over from the last centromere of the loop above | two selected centromeres on `chr1` and `chr2`, with a dip only on `chr1`: that site is labelled `chr2` | each site line names the chromosome of the centromere it was found in | not executed | CentromereDetector.SiteRecordsAsWritten, CentromereDetector.SiteMislabelled | CentromereDetector.DetectCorrected, CentromereDetector.CollectSites, CentromereDetector.AllSitesSound, CentromereDetector.AllSitesComplete |
| centromere_annotation/gff3Merger.py:66-71 | `prev_entry[:-1]` drops only the Target length, so each written line has a tenth column holding the Target id | any feature line: the output splits into ten tab fields, the last being its Target id or `None` | the nine GFF3 columns, without the bookkeeping fields | not executed | Gff3Merger.RenderAsWritten, Gff3Merger.RenderAsWrittenTenColumns | Gff3Merger.Render, Gff3Merger.RenderNineColumns, Gff3Merger.ProcessCorrectedOk |
