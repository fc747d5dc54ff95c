# soil core in Dafny

A Dafny model of the deterministic core of `soil`, a collection of pypeliner
bioinformatics pipelines, and of its helper package `pot`.

- **Genomic region partitioner** (`pot/utils/genome.py`). It reads the
  reference names and lengths of an alignment header, optionally filtered
  by a chromosome list. It then cuts every chromosome into fixed-width
  windows. The windows are numbered globally from 0 and rendered as
  `chrom:beg-end` locus tokens. Per-region jobs and the final merge key
  off this map.
- **HLA allele handling** (`soil/wrappers/topiary/tasks.py`). Allele names
  are rewritten into the form the netMHC or netMHCpan predictor expects.
  The predictor's own allele listing is read as text, and the alleles it
  does not list are dropped.
- **Alignment argument parsing** (`soil/utils/cli.py`,
  `parse_alignment_cli_args`). It turns paired FASTQ paths into three
  dictionaries keyed by read group.
- **Protein database transforms** (`soil/pipelines/dna_db/tasks.py`):
  - headers of the reference proteome are prefixed with `ref|`;
  - variant table rows are written as `>mut|...` FASTA records;
  - the command line of the variant-table script is built.

Files:

- `wrappers.dfy`: `Option` and `Result`.
- `pystr.dfy`: the Python string operations the core relies on, with their
  laws. These are `str.replace`, `split`/`join`, `strip`, `startswith`,
  `rfind` (inside `os.path.basename`) and `str(int)`, plus a `find` that the
  model's locus-token reader uses.
- `genome.dfy`, `topiary.dfy`, `alignment_cli.dfy`, `dna_db.dfy`: one
  module per source file.

Each loop of the source that builds a result step by step is a method whose
loop invariants prove it equal to a specification function. The properties
are lemmas about those functions. Two loops are functions instead, because
their steps are independent of each other: the `fillna('')` over the columns
of the variant table (soil/pipelines/dna_db/tasks.py:21-24) is `FilledTable`,
and the list comprehensions of `_parse_alleles` are `ParseAlleles`.

Modelling conventions:

- **Inputs from outside.** The alignment header is given as the two
  parallel lists `references` and `lengths`. The predictor's listing
  program is an injected function from a command line to its output text.
  Files are their contents as strings.
- **The OrderedDict.** `load_bam_chromosome_lengths` fills an OrderedDict.
  It is a sequence of `(name, length)` pairs, and assignment has Python's
  semantics: an existing key keeps its position and takes the new value.
- **Python exceptions.** `parse_alignment_cli_args` can raise. Calling
  `len(None)` when no read-group ids are given is a `TypeError` result.
  Indexing past a short id list is an `IndexError` result.

Two literals are kept exactly as the source spells them: the placeholder
`UKNOWN` and the default predictor name `nethmhc`. With `nethmhc` and no
`iedb_dir`, alleles are only `HLA-`-stripped and nothing is filtered,
because it is neither `netmhc` nor `netmhcpan`; with an `iedb_dir` the
source raises instead (see "Left out"). The topiary command line restricts `--predictor`
to `netmhc` and `netmhcpan` (soil/wrappers/topiary/cli.py:24-27); the
workflow code that hands that choice on to `filter_hla_alleles` is not part
of this model, so the other predictors are modelled as well.

## Model

| member | source | states |
|---|---|---|
| Genome.GetRegions | pot/utils/genome.py:6-26 | the nested window loop builds exactly `Regions(lengths, splitSize)`: indices 0.. in chromosome-then-position order, or chromosome names when no split size is given |
| Genome.ChromRegionsClosedForm | pot/utils/genome.py:15-20 | a chromosome of length L gets ceil(L/s) windows, window i being `[1+i*s, min((i+1)*s, L)]` |
| Genome.ChromRegionsTile | pot/utils/genome.py:15-20 | windows lie in `[1, L]`, are shorter than or as long as s, start at 1, end at L, and each end + 1 is the next start; none exist exactly when L = 0 |
| Genome.ChromRegionsOrdered | pot/utils/genome.py:15-20 | an earlier window ends before every later window starts |
| Genome.WindowContaining | pot/utils/genome.py:15-20 | position p of `[1, L]` lies in window (p-1)/s, which exists |
| Genome.ChromRegionsExactCover | pot/utils/genome.py:15-20 | every position of `[1, L]` is covered by exactly one window |
| Genome.ShortChromosomeOneRegion | pot/utils/genome.py:15-20 | 0 < L <= s gives the single window `chrom:1-L` |
| Genome.EmptyChromosomeNoRegion | pot/utils/genome.py:15-20 | length 0 gives no window |
| Genome.PyRange | pot/utils/genome.py:15-17 | a non-empty range starts at start and its last element is below stop |
| Genome.Zip | pot/utils/genome.py:19 | `zip` stops at the end of the shorter list |
| Genome.PyRangeLength | pot/utils/genome.py:15-17 | `range(start, stop, step)` has ceil((stop-start)/step) elements, none when stop <= start |
| Genome.PyRangeElements | pot/utils/genome.py:15-17 | element i of the range is start + i*step |
| Genome.PyRangeShape | pot/utils/genome.py:15-17 | the length and the elements of the range together |
| Genome.CeilDivBounds | pot/utils/genome.py:15-17 | ceil(a/b) is the least n with n*b >= a |
| Genome.PartitionSize | pot/utils/genome.py:12-24 | the number of windows over all chromosomes is the sum of ceil(L/s) |
| Genome.PartitionPrefix | pot/utils/genome.py:14-24 | the windows of the first c chromosomes are a prefix of all windows, so earlier indices are never renumbered |
| Genome.RegionIndex | pot/utils/genome.py:12-24 | window i of chromosome c sits at global index (windows of chromosomes before c) + i: the index continues across chromosomes |
| Genome.RegionMapKeys | pot/utils/genome.py:12-24 | the map's keys are exactly 0..N-1 with no gaps, and key k holds the token of the k-th window |
| Genome.IndexMapAppend | pot/utils/genome.py:22-24 | storing the next window at the current index extends the map by one entry |
| Genome.TwoChromosomeExample | pot/utils/genome.py:12-24 | chr1 of 250 and chr2 of 50 with s = 100 give `{0: chr1:1-100, 1: chr1:101-200, 2: chr1:201-250, 3: chr2:1-50}` |
| Genome.Chr1Windows | pot/utils/genome.py:15-20 | the three windows of a 250-base chromosome at s = 100 |
| Genome.ExamplePartition | pot/utils/genome.py:14-24 | the four windows of the two-chromosome example, in order |
| Genome.ExampleTokens | pot/utils/genome.py:22 | the locus tokens of the example windows |
| Genome.IndexMapOfFour | pot/utils/genome.py:22-24 | four windows are numbered 0 to 3 |
| Genome.Render | pot/utils/genome.py:22 | the token starts with the chromosome name and ':' |
| Genome.ParseRender | pot/utils/genome.py:22 | every `chrom:beg-end` token reads back as the window it was rendered from |
| Genome.ParseRegionSplit | pot/utils/genome.py:22 | a token whose span holds no ':' splits at the ':' after the chromosome name, even when the name holds ':' |
| Genome.ParseSpanRender | pot/utils/genome.py:22 | the `beg-end` span of two decimals reads back as those two numbers |
| Genome.SpanShape | pot/utils/genome.py:22 | the `beg-end` part holds no ':' and its first '-' follows the start |
| Genome.RenderInjective | pot/utils/genome.py:22 | distinct windows get distinct tokens |
| Genome.FindName | pot/utils/genome.py:50 | the position of a key in the ordered map, or its absence |
| Genome.Put | pot/utils/genome.py:50 | OrderedDict assignment keeps keys distinct and adds just the key; a new key is appended at the end, and an existing key keeps its position and takes the new value while every other entry stays as it was |
| Genome.Select | pot/utils/genome.py:46-50 | the wanted header entries in header order |
| Genome.CollectNames | pot/utils/genome.py:46-50 | the loaded names are distinct and are exactly the header names that are wanted |
| Genome.CollectDistinctHeader | pot/utils/genome.py:46-50 | with distinct header names the loaded map is the wanted entries in header order |
| Genome.SelectAll | pot/utils/genome.py:40-41 | when every entry is wanted the whole header is kept |
| Genome.LoadedLengths | pot/utils/genome.py:40-50 | without a filter every reference is kept in header order; with one, exactly the header entries it names |
| Genome.CollectNoneWanted | pot/utils/genome.py:46-48 | entries that are not wanted are all skipped |
| Genome.NoMatchingChromosome | pot/utils/genome.py:29-50 | a filter naming no reference gives empty lengths and an empty region map, not an error |
| Genome.UnsplitBamRegions | pot/utils/genome.py:7-8 | without a split size, index i maps to the i-th chromosome name, one entry per chromosome |
| Genome.LoadBamChromosomeLengths | pot/utils/genome.py:35-52 | the filtering loop fills the ordered map `ChromosomeLengths(references, lengths, chromosomes)` |
| Genome.GetBamRegions | pot/utils/genome.py:29-32 | the region map of the loaded lengths |
| PyStr.StartsWith | soil/wrappers/topiary/tasks.py:133 | `startswith` holds exactly when the pattern is a prefix |
| PyStr.Replace | soil/wrappers/topiary/tasks.py:106 | replacing by '' never lengthens a string, and a string shorter than the pattern is unchanged |
| PyStr.Join | soil/pipelines/dna_db/tasks.py:72 | the joined text starts with the first part |
| PyStr.Strip | soil/wrappers/topiary/tasks.py:131 | the stripped string is no longer than the input and has no whitespace at either end |
| PyStr.Without | soil/wrappers/topiary/tasks.py:109 | deleting a character leaves no occurrence of it |
| PyStr.WithoutCounts | soil/wrappers/topiary/tasks.py:109 | deleting a character keeps the count of every other character |
| PyStr.ReplaceCharByEmpty | soil/wrappers/topiary/tasks.py:109 | `replace(c, '')` is deleting every c |
| PyStr.ReplaceAbsent | soil/wrappers/topiary/tasks.py:106 | a pattern that does not occur leaves the string unchanged |
| PyStr.ReplaceLeading | soil/wrappers/topiary/tasks.py:106 | a leading occurrence is replaced and the scan goes on after it |
| PyStr.Split | soil/utils/cli.py:139 | `split` gives at least one piece and no piece holds the separator |
| PyStr.JoinSplit | soil/utils/cli.py:139 | joining the pieces of a split gives the string back |
| PyStr.SplitJoin | soil/pipelines/dna_db/tasks.py:33-42 | splitting a join of separator-free pieces gives the pieces back |
| PyStr.SplitFirstIsPrefix | soil/utils/cli.py:139 | the first piece of a split is a prefix of the string |
| PyStr.SplitFirstStops | soil/utils/cli.py:139 | the first piece of a split runs to the end or stops at a separator |
| PyStr.SplitNoSeparator | soil/utils/cli.py:139 | a string without the separator splits into itself |
| PyStr.SplitFirstPiece | soil/utils/cli.py:139 | splitting `p + sep + t` with sep not in p gives p then the pieces of t |
| PyStr.TrimStart | soil/wrappers/topiary/tasks.py:131 | `lstrip` removes exactly the leading whitespace |
| PyStr.TrimEnd | soil/wrappers/topiary/tasks.py:131 | `rstrip` removes exactly the trailing whitespace |
| PyStr.StripShape | soil/pipelines/dna_db/tasks.py:69 | a stripped line has no whitespace at either end, and loses a line-ending '\n' |
| PyStr.StripIdempotent | soil/wrappers/topiary/tasks.py:131 | stripping twice is stripping once |
| PyStr.StripClean | soil/wrappers/topiary/tasks.py:131 | a string with no whitespace at either end is its own strip |
| PyStr.LastIndexOf | soil/utils/cli.py:139 | the last occurrence of a character, or none |
| PyStr.FirstIndexOf | pot/utils/genome.py:22 | the first occurrence of a character, or none; the model's `ParseSpan` reads a rendered token's `beg-end` span at its first '-' |
| PyStr.LastIndexOfSplit | soil/utils/cli.py:139 | the last c in `p + c + t` with c not in t is at index \|p\| |
| PyStr.FirstIndexOfSplit | pot/utils/genome.py:22 | the first c in `p + c + t` with c not in p is at index \|p\| |
| PyStr.NatToString | pot/utils/genome.py:22 | `str(n)` is a non-empty run of digits without a leading zero |
| PyStr.NatToStringRoundTrip | pot/utils/genome.py:22 | the digits of `str(n)` read back as n |
| PyStr.NatToStringInjective | pot/utils/genome.py:22 | distinct numbers get distinct decimals |
| Topiary.ParseAlleles | soil/wrappers/topiary/tasks.py:105-115 | one parsed allele per input allele, and for netMHC and netMHCpan each starts with `HLA-` |
| Topiary.ParseAllelesNetMhc | soil/wrappers/topiary/tasks.py:105-109 | for netMHC, length and order are kept, and each allele becomes `HLA-` + the `HLA-`-stripped name without any `*` or `:` |
| Topiary.ParseAllelesNetMhcPan | soil/wrappers/topiary/tasks.py:105-112 | for netMHCpan, each allele becomes `HLA-` + the stripped name without `*`, every `:` kept |
| Topiary.NetMhcFormIsFixed | soil/wrappers/topiary/tasks.py:105-109 | a name already in netMHC form is left unchanged |
| Topiary.NetMhcPanPrefixed | soil/wrappers/topiary/tasks.py:105-112 | an allele already written `HLA-` + name, where the name holds no `H`, gets one `HLA-` prefix, not two, for netMHCpan. The condition matters: the single left-to-right `replace` turns `HLA-HLHLA-A-` into `HLA-`, which comes out as `HLA-HLA-` |
| Topiary.WithoutAppend | soil/wrappers/topiary/tasks.py:109 | deleting a character from a concatenation deletes it from each part |
| Topiary.NetMhcSingle | soil/wrappers/topiary/tasks.py:109 | the netMHC form of one allele |
| Topiary.NetMhcPanSingle | soil/wrappers/topiary/tasks.py:112 | the netMHCpan form of one allele |
| Topiary.WithoutAbsent | soil/wrappers/topiary/tasks.py:109 | deleting an absent character changes nothing |
| Topiary.NoHlaInside | soil/wrappers/topiary/tasks.py:106 | a name without an `H` is not changed by `HLA-` stripping |
| Topiary.ExampleStripHla | soil/wrappers/topiary/tasks.py:106 | `HLA-A*02:01` strips to `A*02:01`, which strips to itself |
| Topiary.ExampleWithout | soil/wrappers/topiary/tasks.py:109 | deleting `*` and then `:` from `A*02:01` gives `A02:01` and then `A0201` |
| Topiary.ParseExampleNetMhc | soil/wrappers/topiary/tasks.py:108-109 | `A*02:01` becomes `HLA-A0201` for netMHC |
| Topiary.ParseExampleNetMhcPan | soil/wrappers/topiary/tasks.py:111-112 | `A*02:01` becomes `HLA-A02:01` for netMHCpan, the `:` kept |
| Topiary.HlaLines | soil/wrappers/topiary/tasks.py:130-134 | no more valid alleles than lines of output |
| Topiary.HlaLinesAppend | soil/wrappers/topiary/tasks.py:130-134 | the listing of two consecutive parts is the listing of the first followed by that of the second |
| Topiary.HlaLinesMembers | soil/wrappers/topiary/tasks.py:130-134 | every valid allele is the stripped text of some output line and starts with `HLA`, and every output line whose stripped text starts with `HLA` gives a valid allele |
| Topiary.HlaLinesSound | soil/wrappers/topiary/tasks.py:130-134 | every valid allele is the stripped text of some output line, free of surrounding whitespace and starting with `HLA` |
| Topiary.HlaLinesShape | soil/wrappers/topiary/tasks.py:131-134 | every valid allele starts with `HLA` and has no surrounding whitespace |
| Topiary.HlaLinesFromOutput | soil/wrappers/topiary/tasks.py:130-134 | every valid allele is the stripped text of some line of the output |
| Topiary.HlaLinesComplete | soil/wrappers/topiary/tasks.py:130-134 | every output line whose stripped text starts with `HLA` is a valid allele |
| Topiary.ValidAllelesOtherPredictor | soil/wrappers/topiary/tasks.py:121-137 | a predictor other than netmhc or netmhcpan has no valid list |
| Topiary.GetValidAlleles | soil/wrappers/topiary/tasks.py:118-139 | the loop over the listing output collects exactly `ValidAlleles(predictor, run)` |
| Topiary.KeepValid | soil/wrappers/topiary/tasks.py:21-25 | no more alleles than were parsed, each one listed as valid |
| Topiary.KeepValidOrder | soil/wrappers/topiary/tasks.py:21-25 | filtering keeps the order: the result is a subsequence of the parsed alleles |
| Topiary.KeepValidCounts | soil/wrappers/topiary/tasks.py:21-25 | a listed allele keeps every occurrence, duplicates included, and an unlisted allele has none |
| Topiary.SubsequenceOfLonger | soil/wrappers/topiary/tasks.py:23-25 | a subsequence stays one when the list grows |
| Topiary.SubsequenceDropLast | soil/wrappers/topiary/tasks.py:23-25 | dropping the last kept element keeps a subsequence |
| Topiary.OtherPredictorNoFilter | soil/wrappers/topiary/tasks.py:12-18 | for any other predictor, including the default `nethmhc`, the alleles are only `HLA-`-stripped and none is dropped |
| Topiary.DefaultPredictorNoFilter | soil/wrappers/topiary/tasks.py:12-18 | with its default predictor `nethmhc`, `filter_hla_alleles` returns the `HLA-`-stripped alleles, none dropped |
| Topiary.FilterHlaAlleles | soil/wrappers/topiary/tasks.py:12-27 | the filtering loop returns exactly `FilteredAlleles(raw, predictor, run)` |
| AlignmentCli.Basename | soil/utils/cli.py:139 | `os.path.basename` is a '/'-free suffix of the path |
| AlignmentCli.BasenameAfterSlash | soil/utils/cli.py:139 | a base name shorter than the path starts right after a '/' |
| AlignmentCli.DefaultKey | soil/utils/cli.py:139 | the default key is a prefix of the basename with no '.' and no '/' |
| AlignmentCli.DefaultKeyStopsAtDot | soil/utils/cli.py:139 | a key shorter than the basename is followed by a '.', so it is the basename up to its first '.' |
| AlignmentCli.DefaultKeyExample | soil/utils/cli.py:139 | `dir/name.ext` with a plain name is keyed by name |
| AlignmentCli.Store | soil/utils/cli.py:141-145 | one pair is stored under its key in all three dictionaries, the other entries untouched |
| AlignmentCli.ParsedArgsOutcome | soil/utils/cli.py:122-147 | the call fails exactly when there are pairs and no id list, or a non-empty id list shorter than the pairs; on success all three dictionaries have the pair keys, and each read group is `{ID: key, LB, SM}` with `UKNOWN` defaults |
| AlignmentCli.PairKeyPrefix | soil/utils/cli.py:134-139 | the key of a pair does not depend on the pairs after it |
| AlignmentCli.PairKeysSnoc | soil/utils/cli.py:134-141 | one more pair adds its own key |
| AlignmentCli.FillKeys | soil/utils/cli.py:134-145 | the three dictionaries have the same key set, the keys of the pairs |
| AlignmentCli.FillReadGroups | soil/utils/cli.py:145 | every read-group record is exactly `{ID: key, LB: library, SM: sample}` |
| AlignmentCli.FillLastWins | soil/utils/cli.py:141-143 | a pair's key maps to its two files unless a later pair has the same key: the last pair wins |
| AlignmentCli.ParseAlignmentCliArgs | soil/utils/cli.py:114-147 | the loop returns exactly `ParsedArgs(...)`, errors included |
| DnaDb.FileLines | soil/pipelines/dna_db/tasks.py:68 | no line read from a file is empty, and every line but the last ends with '\n' |
| DnaDb.Terminated | soil/pipelines/dna_db/tasks.py:74 | writing lines gives at least one character per line, the last one '\n' |
| DnaDb.TerminatedAppend | soil/pipelines/dna_db/tasks.py:44-46 | writing two runs of lines is writing the first, then the second |
| DnaDb.TerminatedSnoc | soil/pipelines/dna_db/tasks.py:74 | writing one more line appends it and a '\n' |
| DnaDb.TerminatedPair | soil/pipelines/dna_db/tasks.py:44-46 | the text of one or two written lines |
| DnaDb.TerminatedIsJoin | soil/pipelines/dna_db/tasks.py:74 | writing lines each with '\n' is joining them and an empty last line with '\n' |
| DnaDb.TerminatedLines | soil/pipelines/dna_db/tasks.py:74 | text written line by line splits back into those lines |
| DnaDb.JoinKeepsOut | soil/pipelines/dna_db/tasks.py:33-42 | joining never introduces a character other than the separator |
| DnaDb.ConcatLines | soil/pipelines/dna_db/tasks.py:68 | the '\n'-terminated pieces and the last piece give back the joined text |
| DnaDb.ConcatAppend | soil/pipelines/dna_db/tasks.py:68 | concatenation distributes over appending |
| DnaDb.FileLinesSpec | soil/pipelines/dna_db/tasks.py:68 | reading a file line by line loses nothing, and '\n' ends a line only as its last character |
| DnaDb.FileLinesConcat | soil/pipelines/dna_db/tasks.py:68 | the lines of a file put back together are its text |
| DnaDb.FileLinesShape | soil/pipelines/dna_db/tasks.py:68 | '\n' occurs in a line only as its last character |
| DnaDb.JoinPair | soil/pipelines/dna_db/tasks.py:72 | joining two parts puts the separator between them |
| DnaDb.CleanLineSpec | soil/pipelines/dna_db/tasks.py:69-72 | a header stays a header and becomes `>ref\|` + the rest, so dropping `ref\|` gives the stripped line; other lines are only stripped |
| DnaDb.RelabelSpec | soil/pipelines/dna_db/tasks.py:71-72 | a stripped header becomes `>ref\|` + its rest and stays a header; any other stripped line is unchanged |
| DnaDb.CleanAllSpec | soil/pipelines/dna_db/tasks.py:68-72 | one output line per input line, in order: a line whose stripped text starts with '>' becomes `>ref\|` + that text after its '>', and any other line becomes its stripped text |
| DnaDb.CleanLineNoNewline | soil/pipelines/dna_db/tasks.py:69-72 | a cleaned line holds no '\n' |
| DnaDb.CleanOutputLines | soil/pipelines/dna_db/tasks.py:67-74 | the output holds one '\n'-terminated line per input line: that line, cleaned |
| DnaDb.CleanRefProteomeIds | soil/pipelines/dna_db/tasks.py:66-74 | the copying loop writes exactly `Terminated(CleanedLines(input))` |
| DnaDb.Kept | soil/pipelines/dna_db/tasks.py:27-29 | the rows that get a record are exactly those with a non-empty `prot_alt` |
| DnaDb.FastaLinesSpec | soil/pipelines/dna_db/tasks.py:27-46 | each kept row, in order, gives exactly two lines, `>` + header and then `prot_alt`; skipped rows give none |
| DnaDb.HeaderSplits | soil/pipelines/dna_db/tasks.py:31-42 | with no '\|' in a field the header splits back into `mut`, `protein_id_aa_variant` and the six fields in order |
| DnaDb.FastaOutputLines | soil/pipelines/dna_db/tasks.py:44-46 | with no '\n' in a cell, the output's lines are exactly the record lines |
| DnaDb.FastaLinesNoNewline | soil/pipelines/dna_db/tasks.py:31-46 | no record line holds '\n' when no cell does |
| DnaDb.FilledTableSpec | soil/pipelines/dna_db/tasks.py:21-29 | one filled row per table row, each present cell kept and each missing cell '', so a row gets no record exactly when its `prot_alt` is missing or empty |
| DnaDb.RecordText | soil/pipelines/dna_db/tasks.py:31-46 | the two writes for a kept row are its record text: `>` + the `\|`-joined header, then `prot_alt` |
| DnaDb.FastaStep | soil/pipelines/dna_db/tasks.py:27-46 | each row appends its own record text and nothing else |
| DnaDb.BuildVariantFasta | soil/pipelines/dna_db/tasks.py:21-46 | the row loop writes exactly the records of the filled rows, missing cells read as '' |
| DnaDb.BuildVariantTableCommand | soil/pipelines/dna_db/tasks.py:49-61 | the command is `python script -i in -o out --genome-version v`, plus `--pyensembl-cache-dir dir` exactly when a cache dir is given |

## Left out

- Opening the BAM file with pysam (pot/utils/genome.py:38): the header's `references` and `lengths` lists are inputs.
- `str(chrom)` and `int(length)` (pot/utils/genome.py:50): names are strings and lengths naturals already.
- A split size of zero or less: `range` raises on a zero step and yields nothing on a negative one. `GetRegions` and `GetBamRegions` require a positive split size.
- Plain dicts handed back by `get_regions`: a `map` from index to token, with no iteration order.
- Topiary.GetValidAlleles: modelled with `iedb_dir=None`; with an `iedb_dir` and a predictor other than `netmhc` or `netmhcpan`, `_set_path` raises `UnboundLocalError` (soil/wrappers/topiary/tasks.py:94-102, called at 119), which the model does not return.
- Topiary.DefaultPredictorNoFilter: modelled with `iedb_dir=None`; with an `iedb_dir`, `_set_path` raises `UnboundLocalError` for the default `nethmhc` (soil/wrappers/topiary/tasks.py:102) instead of returning the stripped alleles.
- Topiary.OtherPredictorNoFilter: modelled with `iedb_dir=None`; with an `iedb_dir` and another predictor, `_set_path` raises (soil/wrappers/topiary/tasks.py:102) instead of returning the stripped alleles.
- Topiary.FilterHlaAlleles: modelled with `iedb_dir=None`; with an `iedb_dir` and another predictor, `_set_path` raises (soil/wrappers/topiary/tasks.py:13, 102) instead of returning.
- `_set_path`, the `PATH` change and `subprocess.check_output` (soil/wrappers/topiary/tasks.py:94-102, 119-126): programs are run by the injected `run` function, whose output is text.
- `run_topiary` and `reformat_output` (soil/wrappers/topiary/tasks.py:30-91): temporary directories, an external tool and pandas CSV I/O.
- The `runner` decorator and click option wiring of `soil/utils/cli.py:8-111`, `soil/ref_data/cli.py` and the topiary CLI: command-line plumbing, YAML loading and engine invocation.
- Reading the variant table with pandas and `astype(str)` (soil/pipelines/dna_db/tasks.py:8, 24): rows are records of optional strings. `Filled` applies `fillna('')` row by row, not column by column in place.
- Non-string cells that `astype(str)` would render (numbers, booleans): every cell is a string or missing.
- The default `genome_version='GRCh37'` of `build_variant_table` (soil/pipelines/dna_db/tasks.py:49): `BuildVariantTableCommand` takes the genome version from its caller.
- `cli.execute` and `load_data_file` (soil/pipelines/dna_db/tasks.py:50, 63): `BuildVariantTableCommand` returns the command, and the script's path is a parameter.
- `os.path.basename` on Windows-style paths: only '/' separates directories.
- Unicode whitespace beyond the ASCII set in `strip`: only space, tab, newline, carriage return, vertical tab and form feed count as whitespace.
- The pypeliner workflow builders, `soil/utils/conda.py`, `setup.py` and `soil/wrappers/subread/tasks.py`: they declare jobs and configuration for external engines, not logic of this core.
