# AVA dataset tooling: shard packing, metadata table and batch alignment

This project models the core of the AVA dataset preparation scripts.

- **Image sorters** (`image_sorter.py`, `ava-tools/image_sorter.py`). They filter a directory listing and sort the kept images by the integer value of their file stem. Then they walk the list with a running byte total and cut a shard on the first file that takes the total past 500 000 000 bytes. The overflowing file belongs to the shard it closes. Shards go into directories `dataset-ava-NNN`, and a final shard is made only when the leftover total is non-zero.
- **Zip generator** (`zip_generator.py`). It builds the AVA.txt table and packs the `.jpg` images with the same loop, cutting on `>=` instead of `>`. Each zip gets a JSON manifest: the slice of the table between the previous cut's id and the current id. Each zip also gets the images those manifest rows name. The filled table goes to `AVA.json`, and the AVA rows that no image matched go to `errors.txt`.
- **Converter** (`convert_ava_txt.py`). It builds the same table, keeps the rows whose id is a kept file's stem and writes each file's hash and name into them through a boolean mask. It reports the other rows.
- **Manifest generator** (`ava-tools/ava_json_generator.py`). It walks the shard directories in name order and, per directory, writes each image's hash and name into the table by label. It collects that directory's rows as its manifest and splits the final table into found and not-found rows.
- **CLIP batch step** (`image-clip-tool/json_generator_with_tag.py`: `convert_images`, `compute_sha256`, `process_images` and `process_and_append_images`). It decodes a batch, hashes it and embeds the decoded images. It emits one record per position of `zip(file_names, hashes, vectors)` that is not a failed index.

`Packing.Packing` is the reference definition of shard packing. It is stated per shard: a shard opened at `start` ends at the first position where its own sum crosses the limit. The running-total loops of all three packers are proved equal to it, once with `>` (`Exceeds`) and once with `>=` (`Reaches`).

The table is a sequence of `Row`s:
- `key` is the `ImageId` label.
- `entry` holds the AVA columns (`Index`, `ImageId`, `ScoreCount`, `ScoreDictionary`). It is `None` for a row that a pandas label write appended because no row had that label.
- `fileHash` and `fileName` start empty.

A label write (`df.at[id, col] =`, `df.loc[id, col] =`) updates every row with that label, or appends a row when there is none (`SetByLabel`). A mask write only updates (`SetWhere`).

File system access, SHA-256, PIL decoding, EXIF stripping and the CLIP model are inputs, not computations:
- A `DiskFile` carries its name, its byte length and its hex digest.
- An `AvaSorter.Listed` entry carries what EXIF stripping does to the file.
- A `ClipBatch.Blob` carries its decoding outcome and digest.
- The embedding is a function parameter `encode`.

Modules:
- `Util`: Option and Result.
- `FileNames`: stems, extensions, decimal strings, `zfill`, shard names.
- `Sorting`: a stable insertion sort.
- `Listing`: the extension filters and the sort by stem.
- `Packing`: the packing specification and the sorters' loop.
- `RootSorter`, `AvaSorter`, `ZipGenerator` and `ZipProperties`, `ConvertAva`, `AvaJson`, `ClipBatch`: one per script.
- `AvaTable`: the table shared by the three table scripts.

## Model

| member | source | states |
|---|---|---|
| FileNames.StemShape | image_sorter.py:21 | `x.split('.')[0]` is a dot-free prefix of the name, followed by a dot unless it is the whole name |
| FileNames.LastSegmentShape | ava-tools/image_sorter.py:51 | `file.split('.')[-1]` is a dot-free suffix of the name, preceded by a dot unless it is the whole name |
| FileNames.LeadingZeros | zip_generator.py:119 | padding a digit string with zeros on the left keeps it a digit string and keeps the value `int` reads |
| FileNames.DecimalRoundTrip | zip_generator.py:121 | `int(str(n)) == n`, so the zip counter kept as a decimal string behaves as a number |
| FileNames.ShardNameRoundTrip | image_sorter.py:46 | the shard number can be read back from `dataset-ava-` + `str(k).zfill(3)`; distinct numbers give distinct names; numbers below 1000 get exactly three digits |
| FileNames.DecimalString | image_sorter.py:46 | `str(n)` is a non-empty digit string, of one, two or three digits for numbers below 10, 100 and 1000 |
| Sorting.Sort | image_sorter.py:21 | the result is ordered by the key relation, is a permutation of the input, and keeps every class of equally ranked elements in its input order (stability) |
| Sorting.Insert | image_sorter.py:21 | inserting into an ordered list keeps it ordered and adds exactly the one element |
| Sorting.InsertTies | image_sorter.py:21 | inserting an element puts it after the elements ranked equal to it and keeps their order |
| Listing.KeptAsWrittenIsJpgOnly | zip_generator.py:44-45 | `not a or b` keeps a name exactly when its lower-cased form ends in `.jpg`; a `.png` name is never kept |
| Listing.JpgFilesMembers | convert_ava_txt.py:32-37 | the kept files are exactly the listing entries the test keeps |
| Listing.CollectJpg | zip_generator.py:42-47 | the filter loop appends exactly the entries that `JpgFiles` keeps, in listing order |
| Listing.AllowedExtensionShape | ava-tools/image_sorter.py:51-55 | a name whose last dot-segment is `jpg`/`png` ends in `.jpg`/`.png` or is exactly `jpg`/`png` |
| Listing.JsonBranchUnreachable | ava-tools/ava_json_generator.py:60-74 | after the extension filter, `file.lower().endswith('json')` cannot hold, so the removal branch is dead |
| Listing.FirstBadStem | image_sorter.py:21 | the position of the first file whose stem is not a plain run of ASCII digits, with every earlier stem parsing |
| Listing.SortByStem | image_sorter.py:21 | succeeds exactly when every stem is a plain run of digits, and is then ascending by stem value, a permutation, and keeps files of equal stem value in listing order; otherwise it names a listed file whose stem does not parse |
| Listing.SortedStemsAscend | ava-tools/image_sorter.py:78 | after the sort, stem values never decrease along the list |
| Packing.FirstCrossing | image_sorter.py:41-45 | a returned position lies in range and the shard's sum up to and including it crosses the limit |
| Packing.FirstCrossingIsFirst | image_sorter.py:41-45 | no earlier prefix of the open shard crosses the limit, and none crosses at all when there is no crossing |
| Packing.Packing | image_sorter.py:32-74 | every shard lies inside the list, after the start position |
| Packing.PackingIndexes | image_sorter.py:25-61 | shard numbers are consecutive from the first one, 0 for the whole list |
| Packing.PackingContiguous | image_sorter.py:51-59 | the first shard opens at the start and each next shard opens right after the previous shard's last file |
| Packing.PackingThreshold | image_sorter.py:44-54 | every shard holds a positive byte sum equal to its files' sizes; every shard but the last was cut on the first file that crossed; the last was cut the same way or runs to the end without crossing |
| Packing.PackingLeavesOnlyEmptyTail | image_sorter.py:63-74 | the positions in no shard are a trailing run of zero-byte files |
| Packing.PackingPlacesInOrder | image_sorter.py:51-74 | the directories read in order are the sorted names from the start up to the covered end |
| Packing.PositiveSizesAllPlaced | ava-tools/image_sorter.py:108-131 | when every size is positive, the directories read in order are the whole sorted list |
| Packing.OversizedFileJoinsOpenShard | image_sorter.py:41-54 | sizes 1, 1, 1 000 000 000, 1 give two shards (0..2 and 3..3), not three |
| Packing.LoopStart | image_sorter.py:23-25 | before the loop, nothing is placed and the whole packing is still ahead |
| Packing.LoopKeep | image_sorter.py:41-45 | adding a file without crossing keeps the loop state with the bigger total |
| Packing.LoopCut | image_sorter.py:45-61 | a crossing closes the open shard as directory number `len(dirs)` holding `files[start..index]`; the total resets to 0 and the start moves past the cut |
| Packing.LoopEnd | image_sorter.py:63-74 | after the loop, one more directory for the rest is exactly what the packing has left when the total is positive, and nothing when it is 0 |
| Packing.CutClose | zip_generator.py:114-125 | a crossing at `index` closes the next shard of the packing, from `start` to `index` with the summed bytes |
| Packing.CutFinish | zip_generator.py:127-131 | at the end, the open shard is the packing's last shard exactly when its total is positive |
| Packing.CutStateShards | zip_generator.py:97-125 | the shards closed so far are a prefix of the packing, each inside the list |
| Packing.CollectNames | image_sorter.py:51-54 | the inner loop moves exactly the names of `files[lo..hi]`, in order |
| Packing.MoveIntoShards | image_sorter.py:32-74 | the directories the loop makes are the layout of the reference packing with the `>` rule |
| RootSorter.ImageFiles | image_sorter.py:18 | a file is kept exactly when its name ends in `.jpg` or `.png` (case-sensitive) |
| RootSorter.SortImages | image_sorter.py:15-74 | the script's directories are the `>` packing of the sorted image list, or it stops on the first stem that is not a plain run of digits |
| RootSorter.SortedImagesPlaced | image_sorter.py:63-74 | every image is moved once, in ascending stem order; only zero-byte files after the last cut stay behind |
| AvaSorter.CollectedSound | ava-tools/image_sorter.py:46-75 | every collected file is the rewritten form of a listing entry with an allowed extension, a non-zero size and a successful EXIF rewrite |
| AvaSorter.CollectedComplete | ava-tools/image_sorter.py:46-75 | every such entry is collected |
| AvaSorter.CollectedNonEmpty | ava-tools/image_sorter.py:60-64 | when rewrites never produce empty files, every collected file has at least one byte |
| AvaSorter.CollectImages | ava-tools/image_sorter.py:46-75 | the filter loop collects exactly `Collected(listing)` |
| AvaSorter.SortAvaImages | ava-tools/image_sorter.py:28-131 | the script's directories are the `>` packing of the sorted collected files, or it stops on the first stem that is not a plain run of digits |
| AvaSorter.EveryKeptImageCopied | ava-tools/image_sorter.py:62-131 | when every EXIF rewrite leaves a non-empty file, every kept file is copied exactly once, and the directories read in order are the kept names in ascending stem order |
| AvaTable.VoteSumIsScoreTotal | zip_generator.py:30-32 | the sum of vote columns 1..k equals the total of the score dictionary over ratings 1..k |
| AvaTable.MakeRow | zip_generator.py:16-36 | a row is labelled by its `ImageId` and keeps `Index`; its score dictionary maps exactly the ratings 1..10 to the vote columns; `ScoreCount` is the dictionary's total; `FileHash`/`FileName` are empty |
| AvaTable.FirstBadLine | zip_generator.py:16-22 | names the first line without 15 fields; every earlier line has 15 |
| AvaTable.BuildTable | convert_ava_txt.py:8-28 | succeeds exactly when every line has 15 fields, with one unfilled row per line in file order; otherwise it names the first line with another field count |
| AvaTable.SelectMembers | convert_ava_txt.py:69 | `df[mask]` / `df[~mask]` hold exactly the rows whose mask value is the one kept |
| AvaTable.SelectPartition | ava-tools/ava_json_generator.py:105-114 | `df[mask]` and `df[~mask]` together are the table, each row once |
| AvaTable.SetByLabelShape | zip_generator.py:111-113 | a label write updates every row with the label and no other; it appends a row only when no row has the label; it keeps every existing label |
| AvaTable.FillByLabelFilled | zip_generator.py:97-113 | after label writes, each original row carries the last file of its label, appended rows exist only for labels without a row, and every file's label has a row |
| AvaTable.LastWith | convert_ava_txt.py:51-61 | the last file of a stem value, which has that stem value; none exactly when no file has it |
| AvaTable.FilledKeepsKeys | zip_generator.py:111-113 | label writes never lose a label |
| AvaTable.FillWhereLastWriterWins | convert_ava_txt.py:51-61 | masked writes keep the rows and their order, and each row carries the last file whose stem is its id |
| AvaTable.MissingRowsUnwritten | ava-tools/ava_json_generator.py:91-114 | with non-empty digests, a row still without a hash is an AVA row that no file wrote |
| AvaTable.FoundIffSomeFile | ava-tools/ava_json_generator.py:105 | an AVA row gets a hash exactly when some file has its id as stem |
| AvaTable.NotFoundIffNoFile | ava-tools/ava_json_generator.py:114 | the rows without a hash are exactly the AVA rows whose id is no file's stem |
| AvaTable.ByKey | ava-tools/ava_json_generator.py:39-42 | ascending by `ImageId`, a permutation of the rows, rows of equal `ImageId` in table order |
| AvaTable.ErrorReport | zip_generator.py:142 | one `Index`/`ImageId` line per row, in order: an AVA row's own values, and NaN, NaN for a row a label write appended |
| AvaJson.SortedUnfilled | ava-tools/ava_json_generator.py:39-42 | sorting the fresh table keeps it unfilled and keeps its rows |
| AvaTable.MatchedRowsShape | convert_ava_txt.py:44-48 | `df_images` is exactly the AVA rows whose id is a kept file's stem, sorted by id, each labelled by a file's stem |
| AvaTable.MatchedIds | convert_ava_txt.py:69 | an AVA row's id is among the ids of `df_images` exactly when some kept file has it as stem |
| ZipGenerator.NamesBeforeAll | zip_generator.py:85-87 | when every label is below `next_index`, the loop never breaks and adds every row's file |
| ZipGenerator.WindowImagesAll | zip_generator.py:117-119 | on a slice cut at the current id, the image loop with `next_index = id + 1` never breaks |
| ZipGenerator.TakeImages | zip_generator.py:85-92 | the loop adds the rows' file names in table order up to the first label `>= next_index` |
| ZipGenerator.GenerateZipFile | zip_generator.py:76-94 | the zip holds the manifest slice of ids from `lo` to `hi` and the images its rows name |
| ZipGenerator.ZipKeep | zip_generator.py:105-113 | adding a file below the limit keeps the loop state, with the file written by label |
| ZipGenerator.ZipCut | zip_generator.py:114-125 | reaching the limit writes the archive of the packing's next shard; the window restarts at the file's id + 1 and the counter goes up by one |
| ZipGenerator.ZipDone | zip_generator.py:127-128 | with nothing left open, the archives are those of the whole `>=` packing |
| ZipGenerator.ZipTail | zip_generator.py:127-131 | with bytes left open, one archive more is the packing's last shard |
| ZipGenerator.ZipStep | zip_generator.py:97-125 | one pass of the loop keeps the loop state; the counter equals the number of shards closed |
| ZipGenerator.PackZips | zip_generator.py:97-131 | the zips are the archives of the `>=` packing, and the table has every file written by label |
| ZipGenerator.GenerateZips | zip_generator.py:16-142 | the script's outputs are those of `ZipSpec` |
| ZipProperties.ArchiveImagesMatchRows | zip_generator.py:85-92 | image `m` of a zip is the file named by manifest row `m`, a file of that row's id placed no later than the shard's last file |
| ZipProperties.ManifestInWindow | zip_generator.py:117 | every manifest row's id lies between the window start and the shard's last id |
| ZipProperties.WindowsOrdered | zip_generator.py:117-125 | the manifests of an earlier and a later shard hold increasing ids |
| ZipProperties.ZipArchivesFollowPacking | zip_generator.py:97-131 | zip `k` is numbered and named `k`, follows the `>=` packing, and its images match its rows |
| ZipProperties.ZipManifestsDisjoint | zip_generator.py:117-125 | every id of an earlier zip's manifest is below every id of a later one |
| ZipProperties.IdBelowWindowNotIn | zip_generator.py:117 | a file whose id is below a shard's window is not in that shard's zip |
| ZipProperties.ShardsOrdered | zip_generator.py:97-131 | an earlier shard ends before a later one begins |
| ZipProperties.FileInWindow | zip_generator.py:117-119 | a file whose id lies in its shard's window is named by that shard's manifest |
| ZipProperties.LowIdsLeftOut | zip_generator.py:68 | as written, a file of the first shard whose id is below the smallest matched id is in no zip |
| ZipProperties.FileInOwnArchive | zip_generator.py:117-119 | when ids are strictly increasing and the first window opens at the first file's id, each file of a shard is in that shard's zip |
| ZipProperties.IntendedStartZipsEveryFile | zip_generator.py:68 | corrected: when the kept files have distinct stem values and the first window opens at the first file's id, every file the packing places is in some zip |
| ZipProperties.EntryIdsFilled | zip_generator.py:137 | label writes keep the set of non-NaN `ImageId`s |
| ZipProperties.ZipRunArchives | zip_generator.py:57-131 | a successful run's zips are the archives of the sorted kept files over `df_images`, with the first window at its first id |
| ZipProperties.ZipErrorsAreUnmatchedRows | zip_generator.py:137-142 | `errors.txt` lists exactly the AVA rows whose id is no kept file's stem, in AVA.txt order; with `df_images` they make up every row once |
| ZipProperties.ZipCatalogueComplete | zip_generator.py:134 | `AVA.json` holds the matched rows in id order, each found and keeping its AVA columns, followed only by rows appended for ids with no AVA line |
| ConvertAva.RecordFiles | convert_ava_txt.py:51-61 | the write loop gives exactly the masked fill of the sorted files |
| ConvertAva.ConvertAvaTxt | convert_ava_txt.py:8-74 | the script's outputs are those of `ConvertSpec` |
| ConvertAva.EntryIdsFilledWhere | convert_ava_txt.py:59-69 | masked writes keep the set of ids |
| ConvertAva.ConvertCatalogueRows | convert_ava_txt.py:44-66 | `AVA.json` holds the matched rows in id order, each with the last file (in stem order) of its id |
| ConvertAva.ConvertErrorsAreUnmatchedRows | convert_ava_txt.py:69-74 | `errors.txt` lists exactly the AVA rows whose id is no kept file's stem; with `AVA.json` they make up every row once |
| ConvertAva.ConvertRowsFound | convert_ava_txt.py:59-66 | with non-empty digests, every row of `AVA.json` has a hash |
| AvaJson.SortedDirs | ava-tools/ava_json_generator.py:50-52 | the same directories in ascending name order (Python string order) |
| AvaJson.AllowedFiles | ava-tools/ava_json_generator.py:60 | exactly the listing entries whose last dot-segment is `jpg` or `png` |
| AvaJson.DirFiles | ava-tools/ava_json_generator.py:58-62 | on success, the allowed files in ascending stem order; otherwise it names an allowed file whose stem does not parse |
| AvaJson.ProcessDirectory | ava-tools/ava_json_generator.py:58-95 | the table after the directory's label writes and its `df_new`, or the file that stops the script |
| AvaJson.WalkPrefixFailure | ava-tools/ava_json_generator.py:55-62 | once a directory fails, the whole walk fails with that error |
| AvaJson.GenerateAvaJson | ava-tools/ava_json_generator.py:17-123 | the script's outputs are those of `AvaJsonSpec` |
| AvaJson.WalkShape | ava-tools/ava_json_generator.py:55-102 | the walk succeeds exactly when every directory's stems parse; then the table holds every processed file and manifest `k` is directory `k`'s rows |
| AvaJson.WalkStopsAtFirstBadDirectory | ava-tools/ava_json_generator.py:62 | a failing walk names the first directory, in processing order, with a stem that is not a plain run of digits |
| AvaJson.FillByLabelKeepsDistinct | ava-tools/ava_json_generator.py:91-92 | label writes keep labels distinct |
| AvaJson.SelectOnly | ava-tools/ava_json_generator.py:95 | with distinct labels, `df.loc[[image_id]]` is the single row with that label |
| AvaJson.DirRowsOnePerFile | ava-tools/ava_json_generator.py:66-95 | with distinct ids, `df_new` has one row per file in file order, with the file's hash and name and the AVA columns of its id (none when AVA.txt has no such id) |
| AvaJson.AvaJsonManifests | ava-tools/ava_json_generator.py:55-102 | with distinct ids, one manifest per directory in name order, each with one row per processed file |
| AvaJson.LabelWriteSetsHashAndName | ava-tools/ava_json_generator.py:91-92 | `FileHash` and `FileName` are set together in every row with the label; other rows and every AVA column are unchanged |
| AvaJson.AvaJsonFoundAndErrors | ava-tools/ava_json_generator.py:105-123 | found and not-found rows split the table; not found means an AVA row whose id is no processed file's stem; `errors.txt` has exactly one line per such row |
| ClipBatch.ConvertImages | image-clip-tool/json_generator_with_tag.py:29-40 | the loop returns the decoded pictures in order and the `(idx, message)` of every failure |
| ClipBatch.OkIndicesShape | image-clip-tool/json_generator_with_tag.py:33-36 | converted image `k` is the picture of the `k`-th decoded position; positions ascend; a position is decoded exactly when its blob decodes |
| ClipBatch.FailuresShape | image-clip-tool/json_generator_with_tag.py:37-38 | each error names a position whose blob fails with that message; positions strictly ascend |
| ClipBatch.FailedIndexesExact | image-clip-tool/json_generator_with_tag.py:33-38 | the failed indexes are exactly the positions whose blob does not decode |
| ClipBatch.ConversionCounts | image-clip-tool/json_generator_with_tag.py:33-38 | decoded and failed positions together number the batch, so no position is on both sides |
| ClipBatch.Hashes | image-clip-tool/json_generator_with_tag.py:42-43 | one digest per blob, in order |
| ClipBatch.ProcessImages | image-clip-tool/json_generator_with_tag.py:45-49 | fails exactly on an empty image list; otherwise one embedding per image, in order |
| ClipBatch.JoinPlainName | image-clip-tool/json_generator_with_tag.py:59-60 | for a zip path not ending in `/` and a name without `/`, `dirname(join(path, name))` is the path and the basename is the name |
| ClipBatch.KeptPositions | image-clip-tool/json_generator_with_tag.py:57-58 | the kept positions are below the zip length, not failed, strictly ascending, and include every such position |
| ClipBatch.NameErrors | image-clip-tool/json_generator_with_tag.py:71 | succeeds exactly when every failed index has a name, then is `(idx, file_names[idx], message)` per error; otherwise it names the first out-of-range index |
| ClipBatch.CollectRecords | image-clip-tool/json_generator_with_tag.py:57-69 | the loop emits the records of the kept positions of the zip, in order |
| ClipBatch.LastSlash | image-clip-tool/json_generator_with_tag.py:59-60 | the position of the last `/` of a path, none when there is no `/` |
| ClipBatch.ProcessAndAppendImages | image-clip-tool/json_generator_with_tag.py:51-73 | the call returns what `ProcessAndAppendSpec` describes, and the count is always `len(batch_data)` |
| ClipBatch.AsWrittenRecordsShape | image-clip-tool/json_generator_with_tag.py:55-69 | record `k` comes from the `k`-th kept position: its name, its blob's digest, the vector at that position of the converted images, the model name and the tag; there are at most as many records as the shortest list |
| ClipBatch.NoFailuresAligned | image-clip-tool/json_generator_with_tag.py:53-69 | with no failures, record `i` pairs name `i`, digest `i` and the embedding of picture `i`; no errors; the count is the batch size |
| ClipBatch.ReturnedErrorsNamed | image-clip-tool/json_generator_with_tag.py:71-73 | the returned errors are one per failed blob, ascending, each with its file name and message |
| ClipBatch.AsWrittenShiftsVectors | image-clip-tool/json_generator_with_tag.py:55-58 | as written, after blob 0 fails, the record of `1.jpg` carries the embedding of blob 2's picture |
| ClipBatch.NamedFailures | image-clip-tool/json_generator_with_tag.py:71 | with every failed index named, the errors pair each failure with its file name and message, in order |
| ClipBatch.AlignedRecordsDescribeInputs | image-clip-tool/json_generator_with_tag.py:55-69 | corrected: every record has the name, digest and own picture's embedding of one decoded input, and every decoded input with a name gets its record |
| ClipBatch.AlignedRecordsDescribed | image-clip-tool/json_generator_with_tag.py:55-69 | corrected: every record describes one decoded input |
| ClipBatch.AlignedRecordsComplete | image-clip-tool/json_generator_with_tag.py:55-69 | corrected: every decoded input with a name has its record |

## Left out

- File system work is not modelled: listing, reading, copying, moving, `makedirs`/`rmtree`, zip writing and reading, JSON and CSV serialisation and `to_string` layout. Inputs are listings of `DiskFile` values, and outputs are sequences of directories, archives, rows and report lines.
- SHA-256, PIL decoding, EXIF stripping and CLIP inference are not modelled. A file carries its digest, a blob its decoding outcome, a listing entry the outcome of its EXIF rewrite, and the embedding is the parameter `encode`. Vectors are `seq<real>`, and floating point is not modelled.
- Printing, progress bars, argparse and the `ACTION` copy/move switch are left out. The sorters' directories are the same either way.
- The loader `open_zip_to_ram` and `clip_json_generator` (`image-clip-tool/json_generator_with_tag.py`, lines 15-27 and 76-123) are I/O glue and are not part of this model. The caller that splits a zip's files into batches is not either.
- Outputs written before a script stops with an exception are not modelled. Examples are the directories, zips or manifests made before an unparsable stem. The model returns only the error.
- Sorting uses a stable insertion sort. Python's `sorted` is stable. pandas `sort_values`/`sort_index` are not guaranteed stable, so the order among rows of equal `ImageId` is one of the orders pandas may produce.
- `Lower` folds ASCII letters only. Python's `str.lower` also folds other letters, which cannot turn a name into one ending in `.jpg`.
- `ScoreDictionary` keys are the ratings as numbers 1..10. pandas uses the column names `'1'`..`'10'`.
- `read_csv` turning empty fields into NaN and inferring float columns is not modelled. A line is a sequence of integers.
- AvaTable.BuildTable: reads only files whose every line has 15 fields, and names any other line as malformed. `read_csv` stops only on a first line without 15 fields (naming the 15 columns fails), on a later line with more fields, or on an empty file. It pads a shorter later line with NaN and goes on, which the model does not follow.
- AvaTable.FirstBadLine: names the first line without 15 fields, which is where the model stops, not where `read_csv` does (see the line above).
- FileNames.ParseDecimal: reads only non-empty runs of ASCII digits. Python's `int` also accepts a sign, surrounding whitespace, underscores between digits and non-ASCII decimal digits, and can return a negative number. The model treats such stems as unreadable. `-3.jpg`, which the scripts sort first and pack, stops the model's run with `BadStem`.
- Listing.StemValue: the sort key is `ParseDecimal` of the stem, so the same narrower grammar applies.
- Listing.FirstBadStem: names the first stem that is not a plain run of ASCII digits, which can be a stem `int` would read.
- Listing.SortByStem: fails on the stems `ParseDecimal` does not read, where the scripts would sort and go on. The failure paths of RootSorter.SortImages, AvaSorter.SortAvaImages, AvaJson.DirFiles and AvaJson.WalkStopsAtFirstBadDirectory inherit this.
- ZipProperties.IntendedStartZipsEveryFile: stated for kept files with distinct stem values. With `5.jpg` and `05.jpg`, `.at[5, 'FileName']` keeps only the last writer, so even the corrected script zips one of the two.
- AvaSorter.EveryKeptImageCopied: requires every EXIF rewrite to leave a non-empty file. A rewritten file of zero bytes after the last cut is never copied.
- The zip counter `zip_file_name` is kept as a number. The script keeps it as a decimal string and increments it with `str(int(x) + 1)`, and `FileNames.DecimalRoundTrip` shows the two agree.
- A description of the packing as putting an oversized file into a shard of its own does not match the code. The code adds the file to the open shard before testing, so it closes that shard. The model follows the code, and `Packing.OversizedFileJoinsOpenShard` shows the difference.
- In `convert_ava_txt.py` line 61, the `FileName` write uses a mask computed on `df` rather than on `df_images`. The mask is aligned on the row labels that `df_images` keeps from `df`, so it selects the same rows as the `FileHash` mask of line 59. Both writes are modelled as one masked write.
- Every entry of the images directory is treated as a directory. `os.listdir` on a plain file there raises, which is not modelled.
- AvaJson.DirRowsOnePerFile: requires distinct `ImageId`s in AVA.txt. With a repeated id, `df.loc[[image_id]]` appends every row of that id, and the lemma does not describe that case.
- AvaJson.AvaJsonManifests: requires distinct `ImageId`s in AVA.txt, for the same reason.
- AvaJson.AvaJsonFoundAndErrors: requires every listed digest to be non-empty, which holds for hex SHA-256 digests. This rules out a written row whose hash is `''`.
- AvaTable.FoundIffSomeFile: requires non-empty digests, for the same reason.
- ConvertAva.ConvertRowsFound: requires non-empty digests, for the same reason.
- ZipProperties.ZipCatalogueComplete: requires non-empty digests, for the same reason.
- ZipGenerator.GenerateZips: with two AVA rows of the same `ImageId`, `dataframe.at[image_id, 'FileName']` returns several values and opening the file raises. The model adds one name per manifest row instead.
- ZipProperties.LowIdsLeftOut: stated for a file of the first shard. A file of a later shard is always at or above its window.
- ClipBatch.AsWrittenShiftsVectors: shows the misalignment on one concrete batch for every `encode`. It is not stated for every batch with a failure.

## Findings

| source | as written | input that shows it | evidently intended | confidence | as-written member | corrected member |
|---|---|---|---|---|---|---|
| zip_generator.py:68 | the first manifest window opens at `df_images.index[0]`, the smallest matched id, but the packing counts every kept file from the first one | AVA.txt with one line, of `ImageId` 5; kept files `1.jpg` and `5.jpg`, both in the first shard: `1.jpg` is counted and written into the table but put in no zip | the first window opens at the first kept file's id, so every placed file goes into its shard's zip (for kept files with distinct stem values) | not executed | ZipProperties.LowIdsLeftOut | ZipProperties.IntendedStartZipsEveryFile |
| image-clip-tool/json_generator_with_tag.py:55-58 | `zip(file_names, image_hashes, clip_vectors)` pairs batch position `idx` with vector `idx`, but there is one vector per decoded image only, so after a failure the vectors shift | a batch of three blobs where blob 0 fails to decode: the one record, `1.jpg`, gets blob 2's embedding and blob 2 gets no record | the `k`-th vector goes with the `k`-th decoded position | not executed | ClipBatch.AsWrittenShiftsVectors | ClipBatch.AlignedRecordsDescribeInputs |
