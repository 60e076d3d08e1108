# data_loader: a Dafny model of the coordinate splitter, loader and cluster regrouping

This project models the three data-handling routines of
`notebooks/utils/data_loader.py`, which prepares particle coordinates for
filament fitting:

- **`parse_topaz_coordinates`** (module `TopazSplitter`). It reads one combined
  coordinate export and skips the header line. Every data row is split on tabs
  and copied into `<title>.txt` of an output directory. Each time a row's title
  differs from the previous row's title, the title's file is opened again in
  mode `"w"`. That truncates the file, and the header `x_coord\ty_coord\tscore\n`
  is written first. The directory is modelled as a map from title to the text
  of that title's file. Python's `str.split` and line iteration over a text file
  are modelled in module `Text`.
- **`parse_helix_coordinates`** (module `HelixLoader`). It visits every entry
  of the directory listing except the first. From each entry's table it drops
  the particles whose score is below -2.5, and it keeps the x and y columns,
  index-aligned, under the entry's name. The -2.5 is hard-coded. The
  `threshold` argument is accepted but never read.
- **The regrouping part of `DBSCAN_fit`** (module `Clustering`). The points'
  labels and core-sample mask are given. For every distinct label, in the
  iteration order of the label set, it builds one cluster: the label's core
  samples, then its other points, each part in input order. The noise label -1
  gets a cluster of its own. This module also covers the counts `n_clusters_`
  and `n_noise_`.

The two uncaught exceptions of the splitter are modelled as `Result`
failures (module `Wrappers`):

- `NoOpenFile`: the first data row has an empty title, so `o` is still `None`
  when `o.write` is called.
- `MissingField`: a row has fewer than four tab-separated fields. The failure
  records the row and the directory as the crash leaves it.

`SplitRows` succeeds exactly on well-formed input.

Behaviour worth knowing:

- The loader's `threshold` parameter has no effect (`ThresholdIgnored`).
  Filtering always uses -2.5.
- The entry that is skipped is the first one in the order `os.listdir`
  returns, which the operating system chooses; the listing is a parameter here.
- A missing score (NaN in the table) never compares below the threshold, so its
  particle is kept.
- A title that reappears after a different title truncates its file. Only its
  last contiguous run of rows survives (`EarlierRunDiscarded`, `ReopenExample`).
- No newline is added to a payload. With exactly four fields the payload is the
  rest of the line, including its `\n` if it has one. With more than four, the text after field 3, including
  the `\n`, is dropped (`PayloadOfLine`). The next payload is then glued onto
  the same line of the file.

## Model

| member | source | states |
|---|---|---|
| Text.Split | notebooks/utils/data_loader.py:21 | `x.split("\t")` yields at least one part, no part holds a tab, and joining the parts with tabs gives back the line |
| Text.SplitJoin | notebooks/utils/data_loader.py:21 | splitting undoes joining for tab-free parts, so `split` and `Join` are inverse |
| Text.Lines | notebooks/utils/data_loader.py:20 | `for x in f` yields non-empty lines, each ending with its `\n` except possibly the last, and together they are the whole text |
| Text.LinesConcat | notebooks/utils/data_loader.py:20 | reading back a text made of well-shaped lines yields exactly those lines |
| Text.LinesAfterLine | notebooks/utils/data_loader.py:15-20 | after a terminated first line, the lines of the rest of the file are read exactly as on their own |
| TopazSplitter.Payload | notebooks/utils/data_loader.py:27 | what one row writes: fields 1 to 3 joined by tabs. `PayloadSplitsBack` proves that splitting it on tabs gives back those fields, and `PayloadOfLine` relates it to the line it came from |
| TopazSplitter.PayloadSplitsBack | notebooks/utils/data_loader.py:27 | a payload split on tabs gives back fields 1, 2 and 3 when none of them holds a tab |
| TopazSplitter.Step | notebooks/utils/data_loader.py:21-29 | one row: a new title truncates its file to header plus payload, the same title appends the payload, and other files are untouched. It fails with `NoOpenFile` iff the title equals the current one and no file is open. It fails with `MissingField` on a row with fewer than four fields, after the truncation when the title is new |
| TopazSplitter.SplitRows | notebooks/utils/data_loader.py:16-29 | starting with no file open and the empty title (`Initial`), the loop succeeds iff every row has four fields and the first title is non-empty. It fails with `NoOpenFile` iff the first title is empty. `MissingField` names the first short row. Every file starts with the header, and the open file is the last row's title |
| TopazSplitter.SplitRowsDescribes | notebooks/utils/data_loader.py:20-29 | after any prefix of rows, a title has a file iff it occurred, and its file holds the header and the payloads of that title's last contiguous run |
| TopazSplitter.SplitRowsContents | notebooks/utils/data_loader.py:13-30 | on well-formed rows the whole splitter succeeds and the directory is the last-run description above |
| TopazSplitter.SplitRowsKeys | notebooks/utils/data_loader.py:22-24 | exactly one file per distinct title of the input |
| TopazSplitter.SplitRowsFile | notebooks/utils/data_loader.py:22-29 | the file of any single title, as the last-run description gives it |
| TopazSplitter.EarlierRunDiscarded | notebooks/utils/data_loader.py:22-24 | when a title reappears after a different title, its surviving run starts after the interruption: reopening with `"w"` truncated the earlier run |
| TopazSplitter.DataLines | notebooks/utils/data_loader.py:15-20 | the lines the loop sees are well-shaped lines, the header line having been consumed. `ParseTopazText` proves they are exactly the lines after the first |
| TopazSplitter.DataRows | notebooks/utils/data_loader.py:20-21 | every data row has a title field. `ParseTopazText` proves row i is data line i split on tabs |
| TopazSplitter.ParseTopaz | notebooks/utils/data_loader.py:13-30 | on the export's text, the function succeeds iff every data row is well formed, and every file it writes starts with the header. `ParseTopazText` gives the directory it writes |
| TopazSplitter.ParseTopazText | notebooks/utils/data_loader.py:13-30 | for an export made of a terminated header line and then data lines, the rows are exactly the data lines split on tabs. The function succeeds iff those rows are well formed, and it then writes the last-run description of them: one file per title, holding the header and the payloads of that title's last run |
| TopazSplitter.HeaderIgnored | notebooks/utils/data_loader.py:15 | whatever the first line says, the result is the same: it is skipped unread |
| TopazSplitter.PayloadOfLine | notebooks/utils/data_loader.py:27-29 | the payload is a prefix of the line after its title. It is all of it with exactly four fields, and strictly shorter with more. In that case it holds no newline |
| TopazSplitter.PayloadBeforeLineEnd | notebooks/utils/data_loader.py:27 | with more than four fields, the written payload holds no `\n` |
| TopazSplitter.ReopenExample | notebooks/utils/data_loader.py:22-29 | for titles a, b, a there are two files. a's holds the header and only the third row's payload, and b's holds the header and the second row's payload |
| TopazSplitter.GroupExample | notebooks/utils/data_loader.py:20-29 | for titles a, a, b, a's file holds the header and the first two payloads in order, and b's holds the header and the third |
| HelixLoader.Below | notebooks/utils/data_loader.py:39 | the comparison `score < -2.5`, false for a missing score. `KeptIffNotBelow` proves a particle survives iff it is not below |
| HelixLoader.DropBelow | notebooks/utils/data_loader.py:39 | the filter never grows the table and keeps no particle whose score is below -2.5 |
| HelixLoader.DropBelowSpec | notebooks/utils/data_loader.py:39 | the filter keeps the remaining particles in order, each as often as the table holds it, and drops only those below -2.5 |
| HelixLoader.KeptIffNotBelow | notebooks/utils/data_loader.py:39 | a particle of the table survives iff its score is not below -2.5, including a missing score |
| HelixLoader.DropBelowAppend | notebooks/utils/data_loader.py:39 | filtering a concatenation of tables filters each part |
| HelixLoader.DropBelowIdempotent | notebooks/utils/data_loader.py:39 | filtering twice equals filtering once |
| HelixLoader.Columns | notebooks/utils/data_loader.py:40-42 | the x and y arrays have the table's length and are index-aligned with its rows |
| HelixLoader.Entry | notebooks/utils/data_loader.py:39-42 | what one file contributes: the columns of its filtered table. `DropBelowSpec` and `Columns` characterise the two steps, and `ParseHelix` states that each key maps to it |
| HelixLoader.AfterFirst | notebooks/utils/data_loader.py:37 | the slice `[1:]`: empty for an empty listing, otherwise the listing without its first entry, which put back in front gives the listing again |
| HelixLoader.Load | notebooks/utils/data_loader.py:37-43 | the loop's dictionary has the earlier keys plus every visited name. Each visited name maps to its filtered columns, and unvisited keys keep their value |
| HelixLoader.ParseHelix | notebooks/utils/data_loader.py:32-45 | the keys are exactly the listing's entries after the first, each mapped to the columns of its filtered table |
| HelixLoader.ThresholdIgnored | notebooks/utils/data_loader.py:32-35 | two calls that differ only in `threshold` give the same library |
| HelixLoader.FirstEntrySkipped | notebooks/utils/data_loader.py:37 | the first listed entry gets no key unless it is listed again, and every later entry gets one |
| HelixLoader.ScoreExample | notebooks/utils/data_loader.py:35-42 | a table with scores -3, -2 and -1 keeps only its last two particles, with their x and y values |
| Clustering.NoDuplicatesIndices | notebooks/utils/data_loader.py:79 | a duplicate-free enumeration holds different labels at different positions |
| Clustering.Select | notebooks/utils/data_loader.py:94-104 | a mask selection over the first `n` points, never longer than `n`. `SelectIndices` proves it takes exactly the points of label k with the wanted core flag, in input order |
| Clustering.SelectBridge | notebooks/utils/data_loader.py:94-104 | selecting points is selecting point numbers and looking each one up, so what `SelectIndices` states of the point numbers holds of the coordinates |
| Clustering.ClusterUpTo | notebooks/utils/data_loader.py:108 | a label's core selection followed by its non-core selection. `ClusterUpToSize` proves its length is the number of points with that label |
| Clustering.Cluster | notebooks/utils/data_loader.py:94-108 | the cluster of one label over all points. `ClusterIndices` proves it is the label's core samples, then its other points, each in input order |
| Clustering.ClustersFor | notebooks/utils/data_loader.py:87-109 | the loop over an enumeration of labels: one cluster per label, the j-th being the cluster of the j-th label |
| Clustering.ListOfClusters | notebooks/utils/data_loader.py:84-109 | one cluster per label of the set's iteration order, the j-th being the cluster of the j-th label |
| Clustering.ClusterCount | notebooks/utils/data_loader.py:70 | `n_clusters_` is the number of distinct labels other than noise |
| Clustering.NoiseCount | notebooks/utils/data_loader.py:71 | `n_noise_` is positive iff noise occurs, and is at most the number of points |
| Clustering.SelectIndices | notebooks/utils/data_loader.py:94-104 | a mask selection takes, in increasing input order, exactly the points of label k whose core flag matches |
| Clustering.ClusterIndices | notebooks/utils/data_loader.py:94-108 | a label's cluster is its core samples followed by its other points, each part in input order, and holds exactly the points of that label |
| Clustering.PointInOwnCluster | notebooks/utils/data_loader.py:87-109 | every point lies in the cluster of its own label and in no other, and no cluster repeats a point |
| Clustering.ClusterUpToSize | notebooks/utils/data_loader.py:94-108 | a cluster has as many points as carry its label |
| Clustering.NoiseClusterSize | notebooks/utils/data_loader.py:71-108 | the cluster of label -1 has `n_noise_` points |
| Clustering.GatheredAll | notebooks/utils/data_loader.py:87-109 | if an enumeration lists every label, the union of its clusters over a prefix of the points is that prefix |
| Clustering.FlattenGathered | notebooks/utils/data_loader.py:108-109 | the appended clusters together hold the union of the clusters, and their length is the total cluster size |
| Clustering.ClustersPartitionPoints | notebooks/utils/data_loader.py:84-109 | the returned clusters together hold every input point exactly as often as the input does, and their sizes sum to the number of points |
| Clustering.ClusterListLength | notebooks/utils/data_loader.py:70-87 | the list has `n_clusters_` entries, plus one for noise when noise occurs |
| Clustering.EachPointOnce | notebooks/utils/data_loader.py:84-109 | every point number occurs exactly once across all returned clusters |

## Left out

- Opening and closing files, and the path `path_to_helix + "/" + title + ".txt"`: the directory is a map keyed by title. Two titles that name the same file are not modelled. A failing `open` is not modelled either: a title with a NUL character (ValueError), a `/` into a missing subdirectory (FileNotFoundError) or an over-long name (OSError) crashes the source before the header is written, but the model succeeds. The directory that `MissingField` reports assumes that every buffered write has reached the files.
- Universal-newline translation (`\r\n`, `\r`): lines end with `\n` only.
- `pd.read_csv` and `to_numpy`: a file is given as its already-parsed table of particles (`read`). Malformed tables, missing columns and number parsing are not modelled. Scores are exact reals, not floating point.
- `os.listdir`: the listing is a parameter in the order the system returns it. A missing directory is not modelled.
- The clustering algorithm itself (`DBSCAN(eps, min_samples).fit`), and building the core mask from `core_sample_indices_` (lines 63-64): labels and core mask are inputs.
- The iteration order of `set(labels)`: it is a parameter, constrained to list every label once.
- Stacking x and y into an N×2 array (line 56): points are of any type.
- Plotting, colours and the plot title (`visualize_file` at lines 47-49, and lines 75, 77-78, 80-82, 88-91, 99-101, 105-106 and 111): they have no effect on the returned data.
- `filament_fit` and the rest of the notebook utilities: they are outside these routines.
- The splitter's return value `1`: it is constant.
