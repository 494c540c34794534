# Manifest builder and pie-chart slices of the QIIME 2 amplicon pipeline

`qiime2_script.py` drives a QIIME 2 16S/ITS analysis. This project models the
two parts of it that compute something rather than call out to `qiime`:

- **`generate_manifest`**: builds the CSV manifest that QIIME 2 imports. The
  script lists the sample folder and keeps the names ending in `.fastq.gz`,
  in sorted order. A name containing `_R1_` is a forward read. Otherwise a
  name containing `_R2_` is a reverse read. Any other name is skipped. The
  sample id is the text before the first occurrence of the marker. The
  absolute path of each read goes into an insertion-ordered dictionary keyed
  by sample id and direction. The script then writes one line per manifest
  row under the header `sample-id,absolute-filepath,direction`. In paired-end
  mode a sample gets a forward and a reverse row, and only when both reads
  were seen. In single-end mode it gets one forward row when a forward read
  was seen.
- **The slices of a sample's pie chart** (`generate_pie_charts`): the script
  takes the sample's column of the taxonomy table and drops missing cells. It
  keeps abundances greater than zero and sorts them most abundant first. When
  more than fifteen taxa remain, the fifteen most abundant keep their own
  slice and the rest are folded into one slice labelled `Other`, which holds
  their total.

Files:

- `wrappers.dfy`: `Option`.
- `text.dfy`: the Python `str` operations the manifest builder uses. These
  are `endswith`, `in`, `split(sep)[0]` and the code-point ordering of
  `sorted`.
- `sorting.dfy`: an insertion sort by a caller-given order. It is proved
  ordered and a permutation of its input. By construction it keeps equal
  elements in input order; that is not proved.
- `manifest.dfy`: functional definitions of the sample dictionary
  (`BuildSamples`) and of the rows (`EmitRows`, `ManifestRows`). It also holds
  the imperative `GenerateManifest`, whose two loops are the methods
  `CollectSamples` and `WriteRows`, proved to produce exactly `ManifestLines`.
  The lemmas about those definitions are in the same file.
- `pie_fold.dfy`: the slice pipeline (`PieSlices`) and its properties.

The directory listing and the function that turns a file name into its
absolute path are parameters of the model. The manifest file is modelled as
the sequence of lines written to it.

## Model

| member | source | states |
|---|---|---|
| Text.EndsWithIff | qiime2_script.py:30 | `EndsWith` (the `.fastq.gz` test) holds exactly when the name is some string followed by the suffix. |
| Text.IndexOf | qiime2_script.py:34 | Finds the first occurrence of a marker in a name, or reports that there is none. |
| Text.ContainsIff | qiime2_script.py:34-37 | `Contains` (the `in` test on a marker) holds exactly when the name is some string, then the marker, then some string. |
| Text.PrefixBefore | qiime2_script.py:35-38 | The sample id taken from a name is the prefix that ends right before the first occurrence of the marker. Without an occurrence it is the whole name. |
| Text.FirstSplitUnique | qiime2_script.py:35-38 | There is only one such prefix, so the sample id of a name is determined. |
| Text.LexLeTotal | qiime2_script.py:30 | Any two names are comparable in the order `sorted` uses. |
| Text.LexLeTransitive | qiime2_script.py:30 | That order is transitive. |
| Text.LexLeAntisymmetric | qiime2_script.py:30 | Two names that sort before each other are equal. |
| Sorting.SortBy | qiime2_script.py:30 | Sorting returns a permutation of its input. |
| Sorting.SortBySorted | qiime2_script.py:30 | Under a total preorder, the sorted result is ordered. |
| Manifest.Classify | qiime2_script.py:34-41 | A name is a forward read exactly when it contains `_R1_`. It is a reverse read exactly when it contains `_R2_` and not `_R1_`. Otherwise it is skipped. The sample id is the text before the first occurrence of the winning marker. |
| Manifest.FastqNames | qiime2_script.py:30 | Keeps exactly the listed names that end in `.fastq.gz`. |
| Manifest.FastqNamesCounts | qiime2_script.py:30 | Each listed `.fastq.gz` name is kept as often as it is listed, and no other name is kept. |
| Manifest.FastqFilesSorted | qiime2_script.py:30 | `FastqFiles`, the visiting order of the first loop, holds each listed `.fastq.gz` name as often as listed and nothing else, in ascending order. |
| Manifest.RecordAt | qiime2_script.py:43-45 | `Record`, one iteration of the first loop: a marked name stores its path under its sample and direction. All other entries keep their paths. A new sample id becomes a key, existing keys keep their place in the order, and the order grows by at most one key. A dictionary listing each key once still does so afterwards. |
| Manifest.BuildSamples | qiime2_script.py:31-45 | The dictionary after the first loop lists each of its keys exactly once, in insertion order. |
| Manifest.StoredPaths | qiime2_script.py:43-45 | A path is stored for a sample and direction exactly when some visited name is such a read. The stored path is that of the last such name in sorted order. |
| Manifest.KeysAreMentioned | qiime2_script.py:43-44 | A sample id is a key of the dictionary exactly when some visited name carries it. |
| Manifest.OrderByFirstMention | qiime2_script.py:43-47 | The keys come in the order of the first name that mentions each of them. |
| Manifest.SampleRowsRule | qiime2_script.py:48-52 | `SampleRows`, the rows written for one sample: each carries the path stored for its direction. At most two rows. In paired-end mode there are exactly two rows, forward then reverse, when both directions are stored, and none otherwise. In single-end mode there is exactly one forward row when a forward path is stored, and none otherwise. |
| Manifest.RowsForEmit | qiime2_script.py:47-52 | `EmitRows`, the second loop's rows: the rows for a sample are exactly its `SampleRows`, with nothing for samples that are not keys. |
| Manifest.EmitRowsGrouped | qiime2_script.py:47-52 | `EmitRows`: every row belongs to a key, and rows of different samples follow the dictionary's order. |
| Manifest.ManifestRowsForSample | qiime2_script.py:47-52 | In paired-end mode a sample has a forward row then a reverse row when both reads exist, and no row otherwise. In single-end mode it has one forward row when a forward read exists, and none otherwise. Each row carries the absolute path of the last matching sorted file. |
| Manifest.ManifestFollowsFirstMention | qiime2_script.py:47-52 | Every row's sample is mentioned by a sorted file, and rows of different samples come in the order of their first mention. |
| Manifest.ParseRowLine | qiime2_script.py:49-52 | `RowLine`, the line written for a row, is the sample id, the path and the direction name separated by commas and ended by a newline. A reader that splits at the first two commas recovers the row when the id and path hold no comma or newline. |
| Manifest.ManifestLinesParse | qiime2_script.py:28-52 | `ManifestLines`, the file's content, is the header followed by one line per manifest row, each of which reads back as its row. |
| Manifest.CollectSamples | qiime2_script.py:31-45 | The first loop leaves exactly the dictionary `BuildSamples` describes. |
| Manifest.WriteRows | qiime2_script.py:47-52 | The second loop appends exactly the rendered rows of the samples, in dictionary order. |
| Manifest.GenerateManifest | qiime2_script.py:25-53 | The file holds exactly `ManifestLines`: the header, then one line per manifest row. |
| PieFold.DropMissing | qiime2_script.py:107 | Keeps exactly the cells whose feature id and abundance are both present. |
| PieFold.DropMissingCounts | qiime2_script.py:107 | Each complete cell is kept as often as it occurs in the column. |
| PieFold.KeepPositive | qiime2_script.py:109 | Keeps exactly the taxa whose abundance is greater than zero. |
| PieFold.KeepPositiveCounts | qiime2_script.py:109 | Each positive taxon is kept as often as it occurs, and no other. |
| PieFold.PositivesTotal | qiime2_script.py:107-109 | The positive taxa carry the whole positive abundance of the column's complete cells, duplicates included. |
| PieFold.SortDescendingSpec | qiime2_script.py:112 | `SortDescending` keeps every taxon, as often as it occurs, and puts the most abundant first. |
| PieFold.RankedSortedPermutation | qiime2_script.py:107-112 | The ranked taxa are the positive taxa, each as often as they occur, with the most abundant first. |
| PieFold.SumSortDescending | qiime2_script.py:112 | Ranking leaves the total abundance unchanged. |
| PieFold.SumPositive | qiime2_script.py:109-115 | A non-empty run of positive abundances has a positive total, so the `Other` slice is positive. |
| PieFold.FoldTailShape | qiime2_script.py:113-116 | `FoldTail` keeps the total and gives at most sixteen slices. It adds the sixteenth slice, `Other`, exactly when there are more than fifteen. The first fifteen slices are kept as they are, and `Other` holds the sum of the rest. |
| PieFold.RankedPositive | qiime2_script.py:109-112 | Ranking keeps the number of taxa, and every ranked abundance is positive. |
| PieFold.PieSlicesSize | qiime2_script.py:107-116 | `PieSlices`, a chart, has at most sixteen slices, with `Other` exactly when more than fifteen taxa are positive. Its total equals that of the positive taxa, which is the positive total of the column. |
| PieFold.PieSlicesPositive | qiime2_script.py:107-116 | Every slice, `Other` included, has a positive abundance. |
| PieFold.PieSlicesOrdered | qiime2_script.py:112-116 | The named slices come most abundant first, and each is at least as abundant as every taxon folded into `Other`. |
| PieFold.PieSlicesContents | qiime2_script.py:112-116 | With at most fifteen positive taxa, the slices are those taxa. Beyond that, the fifteen named slices together with the folded taxa are exactly the positive taxa, and `Other` holds the folded taxa's total. |

## Left out

- Running `qiime` commands, parsing the command line, writing the manifest
  to disk and returning its path, creating directories, and plotting. These
  are I/O. The manifest is modelled as the list of lines written.
- `run_command`, `parse_args`, `process_samples`, `generate_basic_info` and
  `generate_taxonomy_tables` are outside this model. They only call `qiime`
  or read and write files.
- Absolute paths: joining the folder with a name and making it absolute is an
  opaque function parameter. No property of it is assumed.
- Directory listing: `os.listdir` is a parameter. Its order does not matter,
  because the names are sorted.
- The percentage column of the taxonomy summary and the pie labels with
  their one-decimal percentages are floating-point formatting. They are not
  modelled. Abundances are exact reals, so the `astype(float)` conversion and
  rounding in sums are not modelled either.
- PieFold.SortDescending: pandas' default sort is not stable, so the order of
  taxa with equal abundance, and which of them is folded into `Other`, is not
  fixed by the script. The model breaks ties by table order. Only
  "descending and a permutation" is claimed.
- File names are sequences of Unicode code points. On POSIX, `os.listdir`
  returns bytes that do not decode as surrogate escapes (U+DC80 to U+DCFF).
  A Dafny `char` cannot hold a surrogate code point, so such names are not
  representable in the model.
- RowLine: fields are written without quoting, as the script writes them. A
  sample id or path containing a comma or a newline makes the line
  ambiguous, so `ParseRowLine` only covers plain fields.
- Looping over the sample columns of the table only repeats the per-sample
  computation, so the model takes one sample's column.
