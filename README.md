# Pele_scripts analysis tools, modelled in Dafny

This project models two analysis scripts for PELE simulation output.

- **bestStructs.py** ranks every line of every PELE `report` file by one criterion column (a binding energy, say). It keeps the best `n` lines, lowest first for `min` and highest first otherwise. For each ranked line it finds the matching `trajectory` file next to the report. It cuts the frame for that line's accepted step out of the trajectory (the `MODEL … ENDMDL` block) and writes the frame as a one-model PDB file. The file name is built from the epoch, the report number, the step, the criterion and the value.
- **clusterAdaptiveRun.py** has two functions modelled here:
  - `get_centers_info` scans every snapshot of the extracted trajectory files once. For each cluster centroid it keeps the nearest snapshot, its structure name and the distance. The running minimum starts at the sentinel `1e6`.
  - `writePDB` writes one `HETATM` line per centroid.

Modules, one per file:

| file | module | models |
|---|---|---|
| `wrappers.dfy` | `Wrappers` | `Option` and `Result` |
| `text.dfy` | `Text` | decimal text of integers, searching, `split`, `rjust`/`ljust`/`strip` |
| `paths.dfy` | `Paths` | `basename`, `dirname`, `normpath`, report number and epoch of a report path |
| `ranking.dfy` | `Ranking` | `parse_values`: pandas `nsmallest`/`nlargest` as a sort that keeps equal values in first-seen order, followed by taking the first `n` rows, and the per-report merge loop |
| `frames.dfy` | `Frames` | the frame ordinal `int(step/out_freq+1)`, the regular expression `MODEL\s+%d(.*?)ENDMDL` as a leftmost search, and the written frame document |
| `best_structs.dfy` | `BestStructs` | `main` of bestStructs.py after argument parsing: the report choice, the output names, the trajectory glob and the extraction loop with the errors that stop it |
| `centers.dfy` | `Centers` | `get_centers_info` |
| `cluster_pdb.dfy` | `ClusterPdb` | `writePDB` |

File systems are modelled as values:
- A report is its path and its parsed lines.
- A directory listing is a map from directory to its files, each a name and its text.
- The files a run writes are returned as a sequence of outputs.
- Formatting a `float` as text is a function parameter: `render` for `str(value)`, `fmt` for `"%.3f"`.
- The Euclidean distance is a function parameter: `dist`.

## Model

| member | source | states |
|---|---|---|
| Ranking.ParseValues | Analysis_tools/bestStructs.py:121-154 | The per-report loop returns exactly the global best `n` rows over all reports, sorted, with rows of equal value in first-seen order (reports in order, lines in order). The result is sorted in the chosen direction, has at most `n` rows, and every row is a line of one of the reports, tagged with that report's path and number. |
| Ranking.BestOfBest | Analysis_tools/bestStructs.py:140-152 | Reducing each part to its best `n` and then the concatenation to its best `n` gives the best `n` of the whole concatenation. This is the identity that makes the two-level `nsmallest`/`nlargest` exact. |
| Ranking.SortAppend | Analysis_tools/bestStructs.py:144-145 | Stably sorting a concatenation is the stable merge of the sorted parts, with the earlier part winning ties. |
| Ranking.MergePermutes | Analysis_tools/bestStructs.py:144 | Merging keeps every row of both sides and adds none. |
| Ranking.MergeAssociative | Analysis_tools/bestStructs.py:144-145 | Stable merging is associative. |
| Ranking.SortSorted | Analysis_tools/bestStructs.py:141-152 | The sort yields a sorted permutation of its input. |
| Ranking.SortOfSorted | Analysis_tools/bestStructs.py:145 | Sorting an already sorted list leaves it unchanged. |
| Ranking.TakeMerge | Analysis_tools/bestStructs.py:141-145 | The first `n` of a merge depend only on the first `n` of each side. |
| Ranking.BestIsTopN | Analysis_tools/bestStructs.py:141 | The best `n` has `n` rows, or all rows when there are fewer (none for `n <= 0`), and is sorted. With the rows left out it makes up the whole input, and no row left out ranks strictly ahead of a kept one. |
| Ranking.LaterTiesKeepEarlier | Analysis_tools/bestStructs.py:144-145 | Once `n` rows are kept, later rows that do not rank strictly ahead of the last kept row change nothing. Ties keep the earlier report's rows. |
| Ranking.RankedRows | Analysis_tools/bestStructs.py:136-143 | The best rows over all reports number at most `n`, are sorted, and each comes from a report line tagged with its file and report number. |
| Ranking.AllRowsProvenance | Analysis_tools/bestStructs.py:136-143 | Every row fed to the ranking is a line of some report, tagged with that report's path and number. |
| Ranking.TaggedLines | Analysis_tools/bestStructs.py:137-143 | A report contributes one row per line. A row is among them exactly when it is a line of the report tagged with the report's path and the report number read from that path. |
| Ranking.Best | Analysis_tools/bestStructs.py:141-152 | `nsmallest`/`nlargest` keep `n` rows, or all rows when there are fewer (none for `n <= 0`). The rows kept are sorted in the chosen direction and are rows of the input, each at most as often as there. |
| Paths.ReportNumberIsLastField | Analysis_tools/bestStructs.py:137 | The report number is a suffix of the path that holds no `_` and no `/`. It is either the whole path or preceded by a `_` or a `/`, so it is the longest such suffix. |
| Paths.Epoch | Analysis_tools/bestStructs.py:89 | The epoch holds no `/`. A path with no directory part has the epoch `.`. |
| Paths.ReportPathParts | Analysis_tools/bestStructs.py:89 | For a report `dir/name`, the report number is the part of `name` after its last `_`, and the epoch is the last component of `dir`. |
| Paths.StripTrailingSlashes | Analysis_tools/bestStructs.py:89 | The result is the longest prefix without trailing `/`. What it drops is all slashes. |
| Text.IntToStringInjective | Analysis_tools/bestStructs.py:92-93 | Different integers (`int(step)`, the frame ordinal) are written as different decimal text. |
| Text.ParseNatToString | Analysis_tools/clusterAdaptiveRun.py:27-28 | Reading back the decimal text of a natural number gives the number. |
| BestStructs.ReportsToScan | Analysis_tools/bestStructs.py:78-83 | Reports one directory down are used when there are any. Otherwise the ones directly under the root are used. With neither, the run stops with the no-report error. |
| BestStructs.OutputNameShape | Analysis_tools/bestStructs.py:92-93 | Every output name ends in `.pdb`. It holds no blank when the epoch, the report number and the value text hold none, because the step is written in digits and the criterion has its blanks removed. |
| BestStructs.OutputNamesDistinct | Analysis_tools/bestStructs.py:92-93 | Two ranked rows of the same report with different steps get different output names, whatever their values render as. |
| BestStructs.MatchesTrajectoryIsGlob | Analysis_tools/bestStructs.py:97 | The decidable trajectory test holds exactly when the name matches the glob `*trajectory*_<id>.pdb`, with no leading dot. This holds in both directions. |
| BestStructs.FindTrajectory | Analysis_tools/bestStructs.py:97-100 | The first file of the listing that matches the trajectory glob for the report number, or none when no file matches. |
| BestStructs.RowDocument | Analysis_tools/bestStructs.py:97-116 | A row fails with the trajectory error exactly when no listed file matches its glob. It fails on a zero `out_freq` only after its trajectory is found. A missing frame is reported with the row's ordinal. A row that succeeds yields a document that starts with a `MODEL` marker for that ordinal and whose last seven characters start with `ENDMDL`. |
| BestStructs.RowDocumentIsFrame | Analysis_tools/bestStructs.py:100-116 | Once the trajectory is found and `out_freq` is not zero, the row fails with the missing-frame error exactly when the search in the trajectory's text finds no frame. Otherwise its document is that frame written under its ordinal, so it ends with `ENDMDL` and a newline. |
| BestStructs.LeftOnDisk | Analysis_tools/bestStructs.py:111-116 | A row leaves no file exactly when it fails for a reason other than a missing frame. A missing frame leaves an empty file, because the file is opened before the frame is read. A successful row leaves its document. |
| BestStructs.RankAndExtract | Analysis_tools/bestStructs.py:78-117 | With no reports, nothing is written and the run stops with the no-report error. Otherwise every ranked row, in rank order, writes its single-frame document under its own name, until the first row that fails. A row fails when its trajectory is missing, when `out_freq` is zero, or when its frame is missing. That row's error ends the run. A missing frame also leaves an empty file under the row's name. When no row fails, the names are returned. |
| BestStructs.StopAt | Analysis_tools/bestStructs.py:98-116 | A row whose trajectory is missing, or whose ordinal divides by a zero `out_freq`, stops the run with nothing written for it. A row whose frame is missing stops the run and leaves its empty file. |
| Frames.FrameOrdinal | Analysis_tools/bestStructs.py:103 | The ordinal `k` of a step satisfies `(k-1)*out_freq <= step < k*out_freq` for a positive frequency. For a negative one the bracket is reversed. This is Python 2 floor division. |
| Frames.FrameOrdinalUnique | Analysis_tools/bestStructs.py:103 | For a positive frequency, no other `k` satisfies that bracket. |
| Frames.ExtractBody | Analysis_tools/bestStructs.py:103 | `group(1)` is the text between the marker and the `ENDMDL` of the leftmost match of the pattern for the ordinal: no match starts at an earlier position. There is none exactly when the pattern matches nowhere. |
| Frames.ExtractedBodyHasNoEnd | Analysis_tools/bestStructs.py:103 | A body the search extracts holds no `ENDMDL`, because the lazy group stops at the first one. |
| Frames.ExtractedFrameRoundTrip | Analysis_tools/bestStructs.py:103-116 | A frame the script extracts, once written and searched again for its ordinal, comes back as written, framed by the two newlines the join adds. |
| Frames.FrameDocument | Analysis_tools/bestStructs.py:111-116 | The joined document starts with a marker for its ordinal, `MODEL` and the ordinal's digits. It ends with `ENDMDL` followed by a newline. |
| Frames.FindModel | Analysis_tools/bestStructs.py:103 | The search returns the leftmost position where `MODEL`, whitespace and the ordinal's digits begin a match. The group ends at the first `ENDMDL` after the digits. When nothing is returned, no position matches. |
| Frames.RegexMatchUnique | Analysis_tools/bestStructs.py:103 | At a given start the marker length and the lazy group are determined. |
| Frames.MarkerEndComplete | Analysis_tools/bestStructs.py:103 | The marker scanner finds every marker match. |
| Frames.LongerNumberIsMarker | Analysis_tools/bestStructs.py:103 | The pattern has no boundary after the digits. So a marker for a longer number that starts with the ordinal's digits is also a marker for the ordinal, e.g. `MODEL 12` for ordinal 1. |
| Frames.ExtractAtStart | Analysis_tools/bestStructs.py:103 | A match at the first character is the one the search returns. |
| Frames.ExtractFrameDocument | Analysis_tools/bestStructs.py:103-116 | This is the round trip. Searching a written frame document for its own ordinal returns the frame body as written, wrapped in the two newlines that the join adds, provided the body holds no `ENDMDL`. |
| Frames.FrameDocumentMatches | Analysis_tools/bestStructs.py:111-116 | A written frame document matches the pattern for its ordinal from its first character, and the group ends before its `ENDMDL`. |
| Frames.HeaderIsMarker | Analysis_tools/bestStructs.py:113 | The `MODEL     %d` header is a marker for its ordinal. |
| Centers.GetCentersInfo | Analysis_tools/clusterAdaptiveRun.py:45-63 | The scan fails exactly when the reference definition reports a first error, and it returns that error. On success, the clusters are exactly `0..num_clusters-1`. Each record is what a running strict-`<` minimum from the sentinel gives over all snapshots, files in order. |
| Centers.CompareRows | Analysis_tools/clusterAdaptiveRun.py:51-62 | Scanning one file's snapshots extends the running records by exactly that file's snapshots, tagged with its structure name. It fails at the file's first empty row or missing centroid. |
| Centers.CompareSnapshot | Analysis_tools/clusterAdaptiveRun.py:57-62 | One snapshot updates each cluster from that cluster's own distance only. A strictly smaller distance replaces the distance, the structure and the center together, and nothing else changes. It fails when some cluster has no centroid. |
| Centers.Improve | Analysis_tools/clusterAdaptiveRun.py:58-62 | A record is either left as it was, or, for a strictly smaller distance, replaced as a whole: that distance, the snapshot's structure name and its coordinates. Either way its distance is at most the old one and at most the new distance. |
| Centers.Nearest | Analysis_tools/clusterAdaptiveRun.py:46-62 | A cluster's record never exceeds the sentinel distance. Its structure is `None` exactly when its center is. A record with a structure has a distance below the sentinel. |
| Centers.NearestIsMinimal | Analysis_tools/clusterAdaptiveRun.py:58-62 | A cluster's final distance is at most the sentinel and at most its distance to every scanned snapshot. |
| Centers.NearestMonotone | Analysis_tools/clusterAdaptiveRun.py:58-59 | Scanning more snapshots never increases a cluster's distance. |
| Centers.NearestUnvisited | Analysis_tools/clusterAdaptiveRun.py:46 | A record keeps `None` structure exactly when it keeps `None` center. That happens exactly when no snapshot is nearer than the sentinel. The distance is then still the sentinel, and otherwise below it. |
| Centers.NearestWinner | Analysis_tools/clusterAdaptiveRun.py:58-62 | A record with a structure holds the first scanned snapshot at the minimal distance: its structure name, its coordinates and that distance. Every earlier snapshot is strictly farther, so ties keep the earlier snapshot. |
| Centers.NearestSnoc | Analysis_tools/clusterAdaptiveRun.py:58-62 | Scanning one more snapshot is one strict-`<` update of the record. |
| Centers.ScanSuccessNeedsCenters | Analysis_tools/clusterAdaptiveRun.py:57-58 | A scan that sees any snapshot succeeds only when there is a centroid for every cluster. |
| Centers.StructureName | Analysis_tools/clusterAdaptiveRun.py:50 | No structure name exists exactly when the path without extension has no `_`. |
| Centers.StructureNameOf | Analysis_tools/clusterAdaptiveRun.py:50 | Take a path `prefix_rest.ext` whose `prefix` has no `_`. Its structure name is `rest.pdb`: the split is at the first `_`, and the extension is replaced. |
| Centers.StripExtension | Analysis_tools/clusterAdaptiveRun.py:50 | The result is a prefix of the path. Anything removed starts at a `.` and holds no further `.` and no `/`. Something is removed exactly when the last component has a `.` that follows some other character than `.` in that component. |
| ClusterPdb.WritePdb | Analysis_tools/clusterAdaptiveRun.py:22-36 | The text fails exactly at the first centroid that is `None` or has fewer than three coordinates, and nothing is written then. Otherwise it is the centroids' lines in index order. |
| ClusterPdb.OneLinePerCenter | Analysis_tools/clusterAdaptiveRun.py:23-33 | The text holds exactly one newline per centroid when the coordinate format never yields one. |
| ClusterPdb.LineHasOneNewline | Analysis_tools/clusterAdaptiveRun.py:23-33 | Each centroid's line holds exactly one newline. |
| ClusterPdb.PdbLine | Analysis_tools/clusterAdaptiveRun.py:23-33 | For an index below 1000 and coordinates whose text fits in eight columns, the line is 74 characters long, newline included. |
| ClusterPdb.TemplateNewline | Analysis_tools/clusterAdaptiveRun.py:23 | A filled template holds one newline, as its last character. |
| ClusterPdb.TemplateFields | Analysis_tools/clusterAdaptiveRun.py:23 | The serial number fills columns 7-11 and the atom name fills columns 15-17. |
| ClusterPdb.IndexFields | Analysis_tools/clusterAdaptiveRun.py:27-28 | For an index below 1000, both index fields of its line, once trimmed, read back as the index. |

## Left out

- Command-line parsing (`parse_args`) and the prints are not modelled. Directory creation (`os.mkdir`, `os.makedirs`) and writing `clusters_%d_KMeans_allSnapshots.pdb` are not modelled either.
- File system access is not modelled. That covers `glob.glob` and reading and writing files. Listings and file contents are inputs, and written files are outputs. `glob` returns names in an arbitrary order; the model takes the order it is given.
- Reading tables is not modelled. `pd.read_csv` and `np.loadtxt` are replaced by the parsed lines. Malformed files, missing columns and NaN values are not modelled.
- Floating-point arithmetic is not modelled. Criterion values and coordinates are `real`. `str(value)` and `"%.3f"` are the parameters `render` and `fmt`. The Euclidean distance `np.sqrt(np.sum(...))` is the parameter `dist`.
- Ranking.ParseValues: rows with equal criterion values are taken in first-seen order (reports in order, lines in order), and so are the rows that survive the cut to `n`. pandas does not guarantee any order for ties in `nsmallest`/`nlargest`, so a different tie order is possible there.
- Paths.NormPath: only the empty path becoming `.` is modelled. The other rewrites leave the last component alone on the absolute paths `glob` returns, and that component is all the epoch reads.
- BestStructs.MatchesTrajectoryIsGlob: report numbers containing glob metacharacters (`*`, `?`, `[`) are not modelled. Report numbers are the digits PELE writes.
- Centers.GetCentersInfo: the clustering (`cluster.Cluster`), `extractCoords.main` and the rest of `main` are not modelled. That includes the `COMArray` list passed to `writePDB` and `writeInitialStructures`, which copies files. The centroids and the trajectory files are inputs.
- Centers.CompareSnapshot: a snapshot whose coordinates have a different dimension from the centroids is not modelled. NumPy broadcasting would raise or broadcast there; here `dist` is applied as given.
- Centers.GetCentersInfo: the records that a failing scan has already updated are not returned. The Python function raises, so they are lost too.
- adaptiveAnalysis.py is not part of this model.

## Frame header and epoch

- The written frame keeps, in its `MODEL` header, the ordinal it was found under (bestStructs.py:113).
- The epoch is the name of the directory that directly contains the report (bestStructs.py:89).
