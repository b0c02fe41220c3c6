# vcf2mltfasta core in Dafny

vcf2mltfasta turns a reference FASTA file plus a multi-sample VCF file into one
FASTA record per sample for a genomic region. This project models the core of
the tool and proves its properties:

- **Region extraction** (`fasta_seq`). The FASTA file is a sequence of lines,
  each still carrying its terminator. The reader starts after the first line
  that begins with `">" + chr`, or at a character offset (`seek`). It strips
  line ends with `rstrip("\n|\r|\r\n")`, which removes the character *set*
  `\n`, `|`, `\r`. It then keeps bases `start`..`end`, 1-based and inclusive,
  across line wraps.
- **VCF records.**
  - `geno2numeric` reduces a genotype field to one allele index.
  - `parse_vcf` splits a data line into POS, REF, the ALT list and one
    genotype per sample column.
  - `vcf2fasta` applies one variant to a sequence. A SNP or insertion
    replaces one base; a deletion replaces `len(ref)` bases.
- **FASTA formatting** (`format_fasta`): a `>name` header, then the sequence
  with a newline after every complete 60-character block, then a final
  newline if one is missing.
- **The offset index** (`create_index.py`).
  - The FASTA pass records, for each header, the character count after the
    header line.
  - The VCF pass records, for each run of data lines on one chromosome, the
    character count before the run.
  - The output keeps the chromosomes both passes found, in FASTA order.
- **The multi-sample writer** (`vcf2mltfasta.py`). It keeps the VCF lines
  that start with the chromosome name (a prefix test, so "Chr010" lines pass
  for "Chr01") and whose POS lies in the region. For every sample it starts
  again from the reference region, applies the sample's alleles from the last
  variant back to the first, and writes one record.

Files:

- `py_text.dfy` (module `PyText`): the Python built-ins the code relies on.
  These are `startswith`, `rstrip`/`lstrip` with a character set,
  `str.split` and `re.split` on a character class, `int()`, `str()` of a
  natural number, list indexing with negative indices, slicing, slice
  assignment and `"".join`. Python's exceptions become `Err(IndexError)` and
  `Err(ValueError)`.
- `my_utils.dfy` (module `MyUtils`): `fasta_seq`, `geno2numeric`,
  `parse_vcf`, `vcf2fasta` and `format_fasta`.
- `create_index.dfy` (module `CreateIndex`): the two counting loops and the
  output loop of the index builder. A Python dict is modelled as its key
  order plus a map.
- `vcf2mltfasta.dfy` (module `Vcf2MltFasta`): the region filter, the
  per-sample reverse-order loop, and a left-to-right rebuild that shows why
  the reverse order is right.

Where the code loops and updates variables, the model is a method with a
loop. The method is proved equal to a specification function, and the
properties are lemmas about that function.

## Model

| member | source | states |
|---|---|---|
| PyText.StartsWith | src/my_utils.py:90 | Defines `s.startswith(prefix)`: the prefix fits in `s` and `s` begins with it. FirstMatch, IsHeader and FilterLine use it |
| PyText.RStrip | src/my_utils.py:97 | The result is a prefix of the input that does not end in a stripped character; every removed character belongs to the set |
| PyText.LStrip | create_index.py:53 | The result is a suffix of the input that does not start with a stripped character; every removed character belongs to the set |
| PyText.SplitAny | src/my_utils.py:125 | `re.split` on a character class gives at least one piece; text without separators is a single piece |
| PyText.Split | src/my_utils.py:158 | Defines `s.split(sep)` for a one-character separator as SplitAny on that character. SplitAnyPieces, SplitAnyAppendFree and SplitJoin characterise it |
| PyText.JoinWith | create_index.py:82 | Defines `sep.join(parts)` for a one-character separator. SplitJoin shows that Split undoes it on separator-free parts |
| PyText.SplitAnyPieces | src/my_utils.py:125 | No piece of a split contains a separator |
| PyText.SplitAnyAppendFree | vcf2mltfasta.py:31 | Appending separator-free text to a string only lengthens the last piece of its split |
| PyText.SplitJoin | create_index.py:82 | Splitting a tab-joined list of tab-free columns on tabs gives the columns back |
| PyText.PyInt | src/my_utils.py:133 | `int()` succeeds exactly on an optional sign followed by digits, is non-negative without a minus sign, and otherwise fails with ValueError |
| PyText.NatStr | create_index.py:54 | `str(n)` is a non-empty string of digits without a leading zero |
| PyText.PyIntNatStr | create_index.py:54 | `int(str(n)) == n` for every natural number |
| PyText.PyIndex | vcf2mltfasta.py:40-42 | Indexing succeeds exactly for -len <= i < len (a negative index counts from the end) and otherwise raises IndexError |
| PyText.SliceBound | src/my_utils.py:194 | A slice bound lands inside the sequence and is unchanged when already inside |
| PyText.PySlice | src/my_utils.py:104 | `s[i:j]` is exactly `s[i..j]` for 0 <= i <= j <= len(s), and empty for 0 <= j <= i |
| PyText.PySliceAssign | src/my_utils.py:194 | `xs[i:j] = ys` replaces the slice by `ys` when 0 <= i <= j <= len(xs); the part before `i` is always unchanged |
| PyText.Join | src/my_utils.py:195 | Defines `"".join(parts)` as the pieces concatenated in order. JoinAppend and JoinExplode characterise it |
| PyText.JoinAppend | src/my_utils.py:195 | Joining two lists one after the other is joining each and concatenating |
| PyText.Explode | src/my_utils.py:188 | `list(s)` has one one-character string per character of `s` |
| PyText.JoinExplode | src/my_utils.py:195 | `"".join(list(s)) == s` |
| MyUtils.FirstMatch | src/my_utils.py:88-91 | The index of the first line at or after `from` that starts with the tag; no earlier line does; the length of the file when no line does |
| MyUtils.SeekLines | src/my_utils.py:94 | The lines read after `seek(off)`: no more than the file has, the whole file at offset 0, and every line after the first an unchanged line of the file's tail. SeekLinesLen shows that an offset on a line boundary gives exactly the remaining lines |
| MyUtils.SequenceLines | src/my_utils.py:88-94 | The lines fasta_seq reads as sequence, after the header scan or after the seek: no more than the file has, all but the first unchanged lines of its tail. NoHeaderNoLines and IndexedLinesAgree characterise it |
| MyUtils.Bases | src/my_utils.py:96-97 | Defines the bases as every line stripped of line-end characters, concatenated in order. BasesAppend splits it over a concatenation of lines |
| MyUtils.SkipToHeader | src/my_utils.py:88-91 | The header scan leaves the lines after the first line starting with the tag, and nothing when there is none |
| MyUtils.Window | src/my_utils.py:104 | The 1-based inclusive window has length end - start + 1 when it lies inside the text, and is empty when end < start |
| MyUtils.WindowAppend | src/my_utils.py:98-105 | The window of a concatenation is the front's window followed by the back's window shifted by the front's length |
| MyUtils.WindowSkip | src/my_utils.py:99-100 | A line that ends before `start` adds nothing to the window |
| MyUtils.WindowStop | src/my_utils.py:101-102 | Once more than `end` bases are read, the remaining lines cannot change the window |
| MyUtils.WindowTake | src/my_utils.py:103-104 | The slice the loop appends is exactly what the line adds to the window |
| MyUtils.BasesAppend | src/my_utils.py:96-97 | The stripped text of two runs of lines is the stripped text of the first followed by that of the second |
| MyUtils.ReadRegion | src/my_utils.py:96-105 | The reading loop returns the window `start`..`end` of the concatenated stripped lines |
| MyUtils.FastaSeq | src/my_utils.py:60-106 | fasta_seq returns the window of the stripped lines after the header (or after the seek offset); it has length end - start + 1 when that window lies inside; it is empty when no line starts with ">" + chr and no offset is given |
| MyUtils.NoHeaderNoLines | src/my_utils.py:88-91 | Without an offset and without a matching header line there are no sequence lines and no bases |
| MyUtils.Geno2Numeric | src/my_utils.py:109-137 | The result is IndexError exactly when the GT part (the text before the first ':') has fewer than two alleles. Two-allele results are given by GenoPair, GenoHomozygous, GenoMissing and GenoHeterozygous; GenoIgnoresExtraFields and GenoFirstTwo reduce every other field to those |
| MyUtils.GenoHaploid | src/my_utils.py:125-129 | A one-allele call such as "1" or "." raises IndexError |
| MyUtils.GenoFirstTwo | src/my_utils.py:125-136 | With three or more alleles only the first two are compared: "x/y/rest" gives what "x/y" gives |
| MyUtils.GenoTwoAlleles | src/my_utils.py:125 | A two-allele field without ':' splits into exactly its two alleles |
| MyUtils.GenoIgnoresExtraFields | src/my_utils.py:125 | Only the text before the first ':' of a genotype field matters |
| MyUtils.GenoPair | src/my_utils.py:125-136 | For two alleles split by a slash or a vertical bar: equal alleles give that allele ("." read as 0); different alleles give the smaller value, or ValueError when either is not a number |
| MyUtils.GenoHomozygous | src/my_utils.py:129-133 | A homozygous numeric call gives that number, so "0/0" gives 0 and "1/1" gives 1, with either separator |
| MyUtils.GenoMissing | src/my_utils.py:131-132 | A missing call "./." gives 0, with either separator |
| MyUtils.GenoHeterozygous | src/my_utils.py:134-136 | A heterozygous call gives the smaller index, whatever the order of the alleles and the separator |
| MyUtils.GenoList | src/my_utils.py:162 | `map(geno2numeric, ...)` succeeds exactly when every field does; then it has one entry per field, in order; otherwise the error is that of the first failing field |
| MyUtils.SampleColumns | src/my_utils.py:162 | `cols[9:]` holds the columns from index 9 on, in order |
| MyUtils.ParseVcf | src/my_utils.py:157-163 | parse_vcf succeeds exactly when the line has at least five tab columns, column 1 is an integer and every sample column parses. Then pos is int(column 1), ref is column 3, alt is column 4 split on ',' and geno has one entry per column from 9 on, in order. Fewer than two columns raise IndexError; a column 1 that `int()` rejects raises ValueError; a failing sample column raises that column's error |
| MyUtils.ParseVcfOfColumns | src/my_utils.py:158-162 | A line joined from tab-free columns parses back to those columns' pos, ref, alt and genotypes |
| MyUtils.ApplyVariant | src/my_utils.py:188-196 | A SNP or insertion fails exactly when the index is outside the sequence, and the error is IndexError; a deletion never fails |
| MyUtils.JoinReplaceOne | src/my_utils.py:191 | Replacing one element of `list(s)` by a string and joining splices that string in |
| MyUtils.JoinSliceAssign | src/my_utils.py:194-195 | Slice assignment on `list(s)` followed by a join is slice assignment on the string |
| MyUtils.Vcf2Fasta | src/my_utils.py:166-196 | The list-based method computes ApplyVariant, error included |
| MyUtils.ApplySnpOrInsertion | src/my_utils.py:190-191 | Inside the sequence the result is `seq[:i] + alt + seq[i+1:]`, of length len(seq) - 1 + len(alt), with the prefix unchanged |
| MyUtils.ApplyDeletion | src/my_utils.py:193-194 | The result is `seq[:i] + alt + seq[i+len(ref):]` (clipped to the sequence), of length len(seq) - len(ref) + len(alt) when REF fits, with the prefix unchanged |
| MyUtils.ApplyIdentity | src/my_utils.py:190-191 | With a REF of at most one base, writing back the base already at the index leaves the sequence unchanged |
| MyUtils.ApplyLongRefReplacesOneBase | src/my_utils.py:190-191 | A multi-base REF with an ALT at least as long replaces only one base, so REF == ALT makes the sequence len(ref) - 1 longer |
| MyUtils.FastaRecord | src/my_utils.py:220-224 | The record starts with ">" + name + "\n" and ends with a newline |
| MyUtils.JoinMarkedList | src/my_utils.py:217-220 | Joining the list after the marking loop gives the body with a newline after every complete 60-character block |
| MyUtils.FormatFasta | src/my_utils.py:199-225 | The list-based method computes FastaRecord |
| MyUtils.MarkedEnds | src/my_utils.py:222-224 | The marked body of a newline-free sequence ends with a newline exactly when its length is a multiple of 60 |
| MyUtils.Chunks | src/my_utils.py:215-219 | Cutting into lines gives 60-character lines except the last, which has 1 to 60; an empty sequence gives no line |
| MyUtils.JoinChunks | src/my_utils.py:215-219 | The lines put back together are the sequence |
| MyUtils.MarkedChunks | src/my_utils.py:215-224 | The marked body is the lines each followed by a newline, less the final one when the last block is complete |
| MyUtils.FastaRecordLines | src/my_utils.py:215-224 | The record is the header line, then the 60-column lines of the sequence, each ending with a newline; an empty sequence gives only the header line |
| MyUtils.DropNewlines | src/my_utils.py:219 | Removing newlines leaves a newline-free string and does not change one |
| MyUtils.DropNewlinesChunks | src/my_utils.py:215-219 | Removing the newlines from the wrapped lines gives the sequence back |
| MyUtils.FastaRecordRoundTrip | src/my_utils.py:199-225 | Removing the header line and every newline from the record gives the sequence back |
| MyUtils.FastaRecordEighty | src/my_utils.py:215-224 | An 80-base sequence gives the header, a line of 60 bases and a line of 20 |
| CreateIndex.Put | create_index.py:54 | `d[k] = v` sets the value; a new key goes to the end of the key order, an existing key keeps its place; the dict stays well formed |
| CreateIndex.FirstSeen | create_index.py:80 | Distinct values, exactly those of the input |
| CreateIndex.FirstSeenOrder | create_index.py:80 | FirstSeen lists values in the order of their first occurrences |
| CreateIndex.LinesLenPrefix | create_index.py:51 | Counting more lines never gives a smaller count; a non-empty line makes it strictly larger |
| CreateIndex.SeekLinesLen | create_index.py:51-54 | Seeking to the character count of the first j lines yields the lines from j on |
| CreateIndex.HeaderName | create_index.py:53 | Defines a header's name as the line without its leading '>' characters and its trailing line-end characters. HeaderOf shows that the header line of a name gives the name back |
| CreateIndex.FastaIndex | create_index.py:47-54 | Defines the dict after the FASTA loop: each header line puts its name with the count through that line. FastaIndexValid, FastaKeys, FastaOffset and FastaIndexSuffix characterise it, and IndexFasta computes it |
| CreateIndex.IndexFasta | create_index.py:47-54 | The FASTA loop computes FastaIndex, and the final counter is the total length of all lines |
| CreateIndex.FastaIndexValid | create_index.py:48-54 | The FASTA dict's keys are distinct and are exactly its entries |
| CreateIndex.FastaKeys | create_index.py:52-54 | The FASTA dict's keys are the header names without repeats, in first-seen order |
| CreateIndex.FastaOffset | create_index.py:50-54 | The value under a header name is the length of all lines up to and including the last header with that name |
| CreateIndex.FastaIndexSuffix | create_index.py:52-54 | Lines without a header of a given name leave that name's value alone |
| CreateIndex.FastaIndexKeeps | create_index.py:52-54 | A last line that is not a header of the given name leaves that name's value alone |
| CreateIndex.FastaOffsetsIncrease | create_index.py:51-54 | A name whose last header comes later in the file has a strictly larger offset in the dict |
| CreateIndex.VcfIndex | create_index.py:58-70 | After the VCF loop, `tmp_chr` is the chromosome of the last data line and the counter is the total length of all lines |
| CreateIndex.IndexVcf | create_index.py:58-70 | The VCF loop computes VcfIndex, and the final counter is the total length of all lines |
| CreateIndex.VcfIndexValid | create_index.py:59-69 | The VCF dict's keys are distinct and are exactly its entries |
| CreateIndex.Chrom | create_index.py:66 | Defines a data line's chromosome as its first tab-separated column. VcfKeys and VcfOffset are stated in its terms |
| CreateIndex.VcfKeys | create_index.py:66-69 | The VCF dict's keys are the run chromosomes without repeats, in first-seen order |
| CreateIndex.VcfOffset | create_index.py:62-70 | The value for a chromosome is the length of all lines before the first line of its last run; '#' lines only advance the counter; a chromosome that comes back is overwritten |
| CreateIndex.CommonEntries | create_index.py:80-82 | Every entry is a FASTA key that the VCF dict holds, with both dicts' values; there are no more entries than keys |
| CreateIndex.CommonEntriesComplete | create_index.py:80-82 | Every FASTA key that the VCF dict holds has an entry |
| CreateIndex.CommonEntriesOrder | create_index.py:80-82 | The entries follow the FASTA key order |
| CreateIndex.WriteEntries | create_index.py:80-82 | The output loop writes one line `chrom\tfa\tvcf\n` per common entry, in order |
| CreateIndex.EntryLine | create_index.py:82 | Defines an output line as `chrom`, the FASTA offset and the VCF offset joined by tabs, plus a newline. EntryLineRoundTrip reads it back |
| CreateIndex.BuildIndex | create_index.py:47-82 | Both passes and the output loop write one line per chromosome in both files, in FASTA order |
| CreateIndex.EntryLineRoundTrip | create_index.py:82 | An index line splits back into the chromosome and two integers equal to the offsets |
| CreateIndex.IndexedLinesAgree | create_index.py:50-54 | For a chromosome whose header is the first line starting with ">" + chr and the last header with that name, seeking to the indexed offset reads the same lines as scanning for the header |
| CreateIndex.RepeatedHeaderDisagrees | create_index.py:50-54 | With a name whose header occurs twice, the index keeps the second header's offset, so the seek reads the lines after the second header while the scan reads those after the first |
| CreateIndex.RepeatedHeaderExample | src/my_utils.py:88-94 | For the lines ">a", "AC", ">a", "GT", positions 1 to 2 read "GT" by seek and "AC" by scan |
| Vcf2MltFasta.StripKeepsColumns | vcf2mltfasta.py:30-31 | Stripping line ends keeps the number of tab columns and all columns but the last |
| Vcf2MltFasta.FilterLine | vcf2mltfasta.py:29-32 | A line not starting with chr is passed over. For a line that starts with chr: fewer than two columns raise IndexError; a column 1 that `int()` rejects raises ValueError; a POS outside [start, end] is passed over; a POS inside keeps the parse of the stripped line, or raises the parse's error |
| Vcf2MltFasta.Collect | vcf2mltfasta.py:22-32 | Every collected record has POS in [start, end]; there are no more records than lines |
| Vcf2MltFasta.CollectAppend | vcf2mltfasta.py:23-32 | Records from two runs of lines are those of the first followed by those of the second (file order); an error in the first wins |
| Vcf2MltFasta.CollectOne | vcf2mltfasta.py:29-32 | A single line gives the record it keeps, nothing, or its error |
| Vcf2MltFasta.CollectVariants | vcf2mltfasta.py:22-32 | The filter loop computes Collect, including its first error |
| Vcf2MltFasta.CollectRest | vcf2mltfasta.py:23-32 | Once a prefix of the lines raises, the whole file raises the same error |
| Vcf2MltFasta.CollectAll | vcf2mltfasta.py:23-32 | The filter succeeds exactly when no line raises, and then holds the records the lines keep, first line first |
| Vcf2MltFasta.KeptMembers | vcf2mltfasta.py:29-32 | A record is among the kept ones exactly when some line keeps it, so every in-region line that parses is kept |
| Vcf2MltFasta.CollectFirstError | vcf2mltfasta.py:23-32 | The filter raises the exception of the first line that raises |
| Vcf2MltFasta.Step | vcf2mltfasta.py:40-42 | Defines one record for one sample: IndexError without a genotype column; genotype 0 leaves the sequence; otherwise `alt[g-1]` is applied at `pos - start`. ApplyRecord computes it and StepIsEdit shows it is the record's edit |
| Vcf2MltFasta.Haplotype | vcf2mltfasta.py:38-42 | Defines a sample's sequence as the records applied from the last back to the first. SampleSequence computes it; HaplotypeAt, ReverseOrderIsRebuild, HaplotypeLength and AllReferenceKeepsSequence characterise it |
| Vcf2MltFasta.ApplyRecord | vcf2mltfasta.py:40-42 | One pass of the inner loop computes Step: a missing genotype column or ALT index raises IndexError, genotype 0 keeps the sequence, genotype g applies alt[g-1] through vcf2fasta at pos - start |
| Vcf2MltFasta.HaplotypeAt | vcf2mltfasta.py:39 | Over the first j variants, the j-th is applied first and then the ones before it |
| Vcf2MltFasta.SampleSequence | vcf2mltfasta.py:38-42 | The inner loop computes Haplotype: variants from the last back to the first; genotype 0 makes no edit; genotype g applies alt[g-1] at pos - start |
| Vcf2MltFasta.Reconstruct | vcf2mltfasta.py:36-44 | One record per sample, in name order, each from the unmodified region sequence; on an error, the records before it are written and the error is that sample's |
| Vcf2MltFasta.AllReferenceKeepsSequence | vcf2mltfasta.py:40-41 | A sample whose genotypes are all 0 gets the region sequence unchanged |
| Vcf2MltFasta.EditOf | vcf2mltfasta.py:42 | A non-reference call replaces a non-empty range: one base, or len(ref) for a deletion |
| Vcf2MltFasta.Ordered | vcf2mltfasta.py:39 | Ascending, non-overlapping edits inside the sequence start no earlier than `from` |
| Vcf2MltFasta.OrderedSnoc | vcf2mltfasta.py:39 | Edits plus a last one are ordered exactly when the others end by its start and it lies inside |
| Vcf2MltFasta.RebuildFrame | vcf2mltfasta.py:39-42 | Text after the last edit is copied unchanged |
| Vcf2MltFasta.RebuildSnoc | vcf2mltfasta.py:39-42 | The last edit can be made after the others, on the reference cut at its start |
| Vcf2MltFasta.StepIsEdit | vcf2mltfasta.py:40-42 | One non-zero genotype applied through vcf2fasta is its edit |
| Vcf2MltFasta.RebuildAfterEdit | vcf2mltfasta.py:39-42 | Applying the last edit first, then the earlier ones, equals applying all of them left to right on the reference |
| Vcf2MltFasta.ReverseOrderIsRebuild | vcf2mltfasta.py:39-42 | For ascending, non-overlapping variants inside the region, each with a genotype column for the sample, a genotype between 0 and len(alt) and POS at or after start, the reverse-order loop never fails and gives the left-to-right rebuild in reference coordinates: later edits never shift earlier offsets |
| Vcf2MltFasta.RebuildLength | vcf2mltfasta.py:39-42 | The rebuilt length is the reference length plus each edit's allele length less the bases it replaces |
| Vcf2MltFasta.HaplotypeLength | vcf2mltfasta.py:39-42 | The sample's sequence length is len(seq) plus len(alt) - 1 per applied SNP or insertion and len(alt) - len(ref) per applied deletion |
| Vcf2MltFasta.Run | vcf2mltfasta.py:19-44 | The script: the region from the FASTA by header scan, the kept variants, then one record per sample; a VCF error writes nothing; a failing sample stops the output after the samples before it and reports that sample's error |

## Left out

- File reading (`read_file`, src/my_utils.py:30-57): plain and gzip I/O are
  not modelled. A file is the sequence of lines that iterating it yields.
  `seek(off)` is modelled by `SeekLines` as an offset in characters, because
  `len(line)` counts characters in text mode; the opaque cookie a text-mode
  `seek` really takes is not modelled. Characters and bytes coincide only for
  ASCII files with "\n" line ends: with "\r\n" line ends (which text mode
  reads as "\n") or non-ASCII characters, the real seek lands elsewhere and
  the index does not agree with the scan.
- `all_file_exists` (src/my_utils.py:15-28): filesystem checks and `sys.exit`.
- `read_gff3` (src/my_utils.py:228-254): streamed file reading and regular
  expression search; the region is an input.
- Command-line parsing, `print` logging, opening and writing files, and the
  two resolved-path lines at the top of the index (create_index.py:20-43,
  77-79; vcf2mltfasta.py:6-10, 36). Output is the sequence of strings
  written. The hard-coded file names are not modelled; the chromosome, start
  and end (vcf2mltfasta.py:15-17) are parameters of `Run`.
- Sample names (vcf2mltfasta.py:26-28) are an input to `Reconstruct` and
  `Run`. The `#CHROM` line's discarded `rstrip` result, which leaves a newline
  on the last name, is not modelled.
- `int()`: only an optional sign followed by ASCII digits is accepted.
  Surrounding whitespace, underscores and non-ASCII digits, all of which
  Python also accepts, are not modelled.
- Vcf2MltFasta.FilterLine: column 1 is read before the line is stripped, so on
  a line of exactly two columns it still ends in the newline. Python's `int()`
  accepts "5\n", where the model raises ValueError. In the program such a line
  is then skipped when POS is outside the region, and raises IndexError in
  parse_vcf (column 3 is missing) when it is inside.
- MyUtils.FormatFasta: `int(len(seq) / 60)` goes through a float; it is
  modelled as integer division, which differs only for lengths beyond 2^53.
- CreateIndex.Put: the dicts store `str(offset)`; the model stores the number
  and writes `NatStr` of it on output, which gives the same text.
- CreateIndex.IndexedLinesAgree: its precondition excludes two cases where
  the seek and the scan part, so the lemma says nothing about them. First, a
  prefix test such as ">chr1" also matches a ">chr10" header. Second, a header
  name that occurs twice: the dict keeps the later header's offset, while the
  scan stops at the first header. CreateIndex.RepeatedHeaderDisagrees and
  CreateIndex.RepeatedHeaderExample show the second case. The lemma also
  holds only where characters and bytes coincide (see the first line of this
  section); on files with "\r\n" line ends or non-ASCII characters the seek
  and the scan part as well.
- Vcf2MltFasta.ReverseOrderIsRebuild and Vcf2MltFasta.HaplotypeLength hold
  for variants whose edits are ascending, non-overlapping and inside the
  region. They also require every record to be resolvable for the sample:
  it has a genotype column for the sample, its genotype lies between 0 and
  len(alt), and its POS is at or after start. So they exclude a missing
  sample column or an out-of-range ALT index, which raise IndexError in the
  program. Overlapping or unsorted VCF records are outside what these two
  lemmas state as well. SampleSequence still models the loop for every
  input, error paths included.
