/**
 * `zip_generator.py`: pack the `.jpg` images of the extraction directory, in ascending
 * id order, into zip archives of at least 500 000 000 bytes of images each; every
 * archive also holds a JSON manifest with the AVA rows of the ids it covers. The whole
 * filled table goes to `AVA.json` and the AVA rows with no image to `errors.txt`.
 *
 * Reading files, hashing and writing zips are outside the model: each file comes with
 * its byte length and its SHA-256 hex digest, and an archive is the value of its name
 * counter, its manifest rows and the image names put in it.
 */
module ZipGenerator {
  import opened Util
  import opened FileNames
  import opened Sorting
  import opened Listing
  import opened Packing
  import opened AvaTable

  /**
   * One zip: `number` is the value of the counter `zip_file_name` when it was written;
   * the manifest is the JSON written into it, `images` the files it received, in order.
   */
  datatype Archive = Archive(number: nat, manifest: seq<Row>, images: seq<string>) {
    /** `dataset-ava-` followed by `zip_file_name.zfill(3)`. */
    function Name(): string {
      ShardName(number)
    }
  }

  /** The outputs: the zips, `AVA.json` (the filled `df_images`) and the lines of `errors.txt`. */
  datatype ZipRun = ZipRun(archives: seq<Archive>, catalogue: seq<Row>, errors: seq<ReportLine>)

  /**
   * Where the script stops with an exception: a line of AVA.txt without 15 fields, a kept
   * file whose stem is not a plain run of digits, or `df_images.index[0]` on an empty selection.
   */
  datatype ZipError = MalformedLine(line: nat) | BadStem(name: string) | NoMatchingRows

  /** The `FileName` column. */
  function RowNames(rows: seq<Row>): (r: seq<string>)
    ensures |r| == |rows|
  {
    seq(|rows|, i requires 0 <= i < |rows| => rows[i].fileName)
  }

  /** The names `generate_zip_file` adds: row after row, until the first label `>= next`. */
  function NamesBefore(rows: seq<Row>, next: int): seq<string> {
    if rows == [] || rows[0].key >= next then [] else [rows[0].fileName] + NamesBefore(rows[1..], next)
  }

  /** When every label is below `next` the loop never breaks: every row's file is added. */
  lemma {:induction false} NamesBeforeAll(rows: seq<Row>, next: int)
    requires forall i :: 0 <= i < |rows| ==> rows[i].key < next
    ensures NamesBefore(rows, next) == RowNames(rows)
  {
    if rows != [] {
      NamesBeforeAll(rows[1..], next);
      assert RowNames(rows) == [rows[0].fileName] + RowNames(rows[1..]);
    }
  }

  /** On a manifest cut to the ids up to `hi`, the image loop never breaks before its end. */
  lemma WindowImagesAll(rows: seq<Row>, lo: int, hi: int)
    ensures NamesBefore(Select(rows, KeyBetween(lo, hi), true), hi + 1) == RowNames(Select(rows, KeyBetween(lo, hi), true))
  {
    var manifest := Select(rows, KeyBetween(lo, hi), true);
    SelectMembers(rows, KeyBetween(lo, hi), true);
    assert forall i :: 0 <= i < |manifest| ==> manifest[i] in manifest;
    NamesBeforeAll(manifest, hi + 1);
  }

  /** The image loop of `generate_zip_file`, with its `break`. */
  method TakeImages(manifest: seq<Row>, next: int) returns (images: seq<string>)
    ensures images == NamesBefore(manifest, next)
  {
    images := [];
    var i := 0;
    while i < |manifest|
      invariant 0 <= i <= |manifest|
      invariant images + NamesBefore(manifest[i..], next) == NamesBefore(manifest, next)
    {
      if manifest[i].key >= next {
        break;
      }
      assert manifest[i..][1..] == manifest[i + 1..];
      images := images + [manifest[i].fileName];
      i := i + 1;
    }
    assert images + [] == images;
  }

  /**
   * `generate_zip_file`: the zip numbered `number` holds the JSON of the rows of `t`
   * labelled from `lo` to `hi` and, in that order, the images those rows name.
   */
  method GenerateZipFile(number: nat, lo: int, hi: int, t: seq<Row>) returns (archive: Archive)
    ensures archive == Archive(number, Select(t, KeyBetween(lo, hi), true), RowNames(Select(t, KeyBetween(lo, hi), true)))
  {
    var manifest := Select(t, KeyBetween(lo, hi), true);
    WindowImagesAll(t, lo, hi);
    var images := TakeImages(manifest, hi + 1);
    archive := Archive(number, manifest, images);
  }

  /** The lowest id of a shard's manifest: the first matched id, or one past the id that closed the previous shard. */
  function WindowStart(files: seq<DiskFile>, firstStart: int, first: nat): int
    requires first <= |files|
  {
    if first == 0 then firstStart else StemKey(files[first - 1]) + 1
  }

  /**
   * The archive a shard of the packing becomes: its manifest is the table, filled with
   * the files up to the shard's last one, restricted to the ids from the shard's window
   * start up to that last file's id; it receives the files named by its manifest rows.
   */
  function ArchiveOf(files: seq<DiskFile>, table: seq<Row>, firstStart: int, s: Shard): Archive
    requires s.first <= s.last < |files|
  {
    var manifest := Select(FillByLabel(table, files[..s.last + 1]),
                           KeyBetween(WindowStart(files, firstStart, s.first), StemKey(files[s.last])), true);
    Archive(s.index, manifest, RowNames(manifest))
  }

  /** The archives of a list of shards, in order. */
  function Archives(files: seq<DiskFile>, table: seq<Row>, firstStart: int, shards: seq<Shard>): (r: seq<Archive>)
    requires forall i :: 0 <= i < |shards| ==> shards[i].first <= shards[i].last < |files|
    ensures |r| == |shards|
  {
    if shards == [] then []
    else Archives(files, table, firstStart, shards[..|shards| - 1]) + [ArchiveOf(files, table, firstStart, shards[|shards| - 1])]
  }

  /** The `k`-th archive is the one of the `k`-th shard. */
  lemma {:induction false} ArchivesAt(files: seq<DiskFile>, table: seq<Row>, firstStart: int, shards: seq<Shard>, k: nat)
    requires forall i :: 0 <= i < |shards| ==> shards[i].first <= shards[i].last < |files|
    requires k < |shards|
    ensures Archives(files, table, firstStart, shards)[k] == ArchiveOf(files, table, firstStart, shards[k])
  {
    if k < |shards| - 1 {
      ArchivesAt(files, table, firstStart, shards[..|shards| - 1], k);
    }
  }

  /** The shards closed so far all lie inside the file list. */
  ghost predicate InFiles(files: seq<DiskFile>, shards: seq<Shard>) {
    forall i :: 0 <= i < |shards| ==> shards[i].first <= shards[i].last < |files|
  }

  /** Adding file `i` to the open shard without reaching the limit. */
  lemma FileKeep(files: seq<DiskFile>, i: nat, start: nat, total: nat, shards: seq<Shard>)
    requires CutState(Sizes(files), Reaches, i, start, total, shards)
    requires i < |files| && !Crosses(total + files[i].size, Reaches)
    ensures CutState(Sizes(files), Reaches, i + 1, start, total + files[i].size, shards)
  {
    assert Sizes(files)[i] == files[i].size;
    CutKeep(Sizes(files), Reaches, i, start, total, shards);
  }

  /** Adding file `i` reaches the limit: the open shard is closed at `i`. */
  lemma FileCut(files: seq<DiskFile>, i: nat, start: nat, total: nat, shards: seq<Shard>)
    requires CutState(Sizes(files), Reaches, i, start, total, shards) && InFiles(files, shards)
    requires i < |files| && Crosses(total + files[i].size, Reaches)
    ensures CutState(Sizes(files), Reaches, i + 1, i + 1, 0, shards + [Shard(|shards|, start, i, total + files[i].size)])
    ensures InFiles(files, shards + [Shard(|shards|, start, i, total + files[i].size)])
  {
    assert Sizes(files)[i] == files[i].size;
    CutClose(Sizes(files), Reaches, i, start, total, shards);
  }

  /** Writing file `i` by label extends the fill of the first `i` files. */
  lemma FillStep(table: seq<Row>, files: seq<DiskFile>, i: nat, t: seq<Row>)
    requires i < |files| && t == FillByLabel(table, files[..i])
    ensures SetByLabel(t, StemKey(files[i]), files[i]) == FillByLabel(table, files[..i + 1])
  {
    FillByLabelStep(table, files, i);
  }

  /**
   * Closing the shard from `start` to `i` after the closed `shards` adds the archive of
   * its window over the table `t` filled with the files up to `i`.
   */
  lemma ArchiveStep(files: seq<DiskFile>, table: seq<Row>, firstStart: int, shards: seq<Shard>,
                    archives: seq<Archive>, start: nat, i: nat, bytes: nat, t: seq<Row>, startIndex: int)
    requires InFiles(files, shards) && archives == Archives(files, table, firstStart, shards)
    requires start <= i < |files| && t == FillByLabel(table, files[..i + 1])
    requires startIndex == WindowStart(files, firstStart, start)
    ensures archives + [Archive(|shards|, Select(t, KeyBetween(startIndex, StemKey(files[i])), true),
                                RowNames(Select(t, KeyBetween(startIndex, StemKey(files[i])), true)))]
      == Archives(files, table, firstStart, shards + [Shard(|shards|, start, i, bytes)])
  {
    var s := Shard(|shards|, start, i, bytes);
    var manifest := Select(t, KeyBetween(startIndex, StemKey(files[i])), true);
    assert ArchiveOf(files, table, firstStart, s) == Archive(|shards|, manifest, RowNames(manifest));
    assert (shards + [s])[..|shards|] == shards;
  }

  /**
   * The state of the zip loop after `i` files: the byte packing is at `CutState`, the
   * table holds the first `i` files, `startIndex` is the open shard's window start and
   * the archives written are those of the closed shards.
   */
  ghost predicate ZipState(files: seq<DiskFile>, table: seq<Row>, firstStart: int, i: nat, start: nat,
                           total: nat, shards: seq<Shard>, t: seq<Row>, startIndex: int, archives: seq<Archive>)
  {
    && CutState(Sizes(files), Reaches, i, start, total, shards)
    && InFiles(files, shards)
    && t == FillByLabel(table, files[..i])
    && start <= |files| && startIndex == WindowStart(files, firstStart, start)
    && archives == Archives(files, table, firstStart, shards)
  }

  lemma ZipBegin(files: seq<DiskFile>, table: seq<Row>, firstStart: int)
    ensures ZipState(files, table, firstStart, 0, 0, 0, [], table, firstStart, [])
  {
    CutBegin(Sizes(files), Reaches);
    assert files[..0] == [];
  }

  /** Adding file `i` to the open shard: `t2` is the table with the file written by label. */
  lemma ZipKeep(files: seq<DiskFile>, table: seq<Row>, firstStart: int, i: nat, start: nat,
                total: nat, shards: seq<Shard>, t: seq<Row>, startIndex: int, archives: seq<Archive>,
                total2: nat, t2: seq<Row>)
    requires ZipState(files, table, firstStart, i, start, total, shards, t, startIndex, archives)
    requires i < |files| && total2 == total + files[i].size && !Crosses(total2, Reaches)
    requires t2 == SetByLabel(t, StemKey(files[i]), files[i])
    ensures ZipState(files, table, firstStart, i + 1, start, total2, shards, t2, startIndex, archives)
  {
    FileKeep(files, i, start, total, shards);
    FillStep(table, files, i, t);
  }

  /**
   * Closing the open shard at file `i`: the archive written, over the table `t2` with
   * the file written by label, is the one of the packing's next shard.
   */
  lemma ZipCut(files: seq<DiskFile>, table: seq<Row>, firstStart: int, i: nat, start: nat,
               total: nat, shards: seq<Shard>, t: seq<Row>, startIndex: int, archives: seq<Archive>,
               shards2: seq<Shard>, t2: seq<Row>, archives2: seq<Archive>)
    requires ZipState(files, table, firstStart, i, start, total, shards, t, startIndex, archives)
    requires i < |files| && Crosses(total + files[i].size, Reaches)
    requires t2 == SetByLabel(t, StemKey(files[i]), files[i])
    requires shards2 == shards + [Shard(|shards|, start, i, total + files[i].size)]
    requires archives2 == archives + [Archive(|shards|, Select(t2, KeyBetween(startIndex, StemKey(files[i])), true),
                                              RowNames(Select(t2, KeyBetween(startIndex, StemKey(files[i])), true)))]
    ensures ZipState(files, table, firstStart, i + 1, i + 1, 0, shards2, t2, StemKey(files[i]) + 1, archives2)
  {
    FileCut(files, i, start, total, shards);
    FillStep(table, files, i, t);
    ArchiveStep(files, table, firstStart, shards, archives, start, i, total + files[i].size, t2, startIndex);
  }

  /** After the last file with nothing left open: the archives are those of the whole packing. */
  lemma ZipDone(files: seq<DiskFile>, table: seq<Row>, firstStart: int, start: nat,
                shards: seq<Shard>, t: seq<Row>, startIndex: int, archives: seq<Archive>)
    requires ZipState(files, table, firstStart, |files|, start, 0, shards, t, startIndex, archives)
    ensures t == FillByLabel(table, files)
    ensures archives == Archives(files, table, firstStart, Packing.Packing(Sizes(files), 0, 0, Reaches))
  {
    assert files[..|files|] == files;
    CutFinish(Sizes(files), Reaches, start, 0, shards);
  }

  /** After the last file with bytes left open: one archive more, of the packing's last shard. */
  lemma ZipTail(files: seq<DiskFile>, table: seq<Row>, firstStart: int, start: nat,
                total: nat, shards: seq<Shard>, t: seq<Row>, startIndex: int, archives: seq<Archive>)
    requires ZipState(files, table, firstStart, |files|, start, total, shards, t, startIndex, archives)
    requires total > 0
    ensures t == FillByLabel(table, files)
    ensures start < |files|
    ensures archives + [Archive(|shards|, Select(t, KeyBetween(startIndex, StemKey(files[|files| - 1])), true),
                                RowNames(Select(t, KeyBetween(startIndex, StemKey(files[|files| - 1])), true)))]
      == Archives(files, table, firstStart, Packing.Packing(Sizes(files), 0, 0, Reaches))
  {
    var last := |files| - 1;
    assert |Sizes(files)| == |files|;
    CutFinish(Sizes(files), Reaches, start, total, shards);
    assert files[..last + 1] == files;
    ArchiveStep(files, table, firstStart, shards, archives, start, last, total, t, startIndex);
  }

  /**
   * One pass of the script's loop (lines 98-125) over file `i`: add its bytes, write its
   * hash and name by label and, when the total reaches the limit, write the zip of the
   * window from `startIndex` to its id and reset the counters.
   */
  method ZipStep(files: seq<DiskFile>, table: seq<Row>, firstStart: int, i: nat,
                 total: nat, t: seq<Row>, startIndex: int, zipNumber: nat, archives: seq<Archive>,
                 ghost start: nat, ghost shards: seq<Shard>)
    returns (total2: nat, index: int, t2: seq<Row>, startIndex2: int, zipNumber2: nat, archives2: seq<Archive>,
             ghost start2: nat, ghost shards2: seq<Shard>)
    requires i < |files| && zipNumber == |shards|
    requires ZipState(files, table, firstStart, i, start, total, shards, t, startIndex, archives)
    ensures ZipState(files, table, firstStart, i + 1, start2, total2, shards2, t2, startIndex2, archives2)
    ensures zipNumber2 == |shards2| && index == StemKey(files[i])
  {
    var file := files[i];
    total2 := total + file.size;
    index := StemKey(file);
    t2 := SetByLabel(t, index, file);
    if total2 >= Limit {
      var archive := GenerateZipFile(zipNumber, startIndex, index, t2);
      archives2 := archives + [archive];
      zipNumber2 := zipNumber + 1;
      shards2 := shards + [Shard(|shards|, start, i, total2)];
      ZipCut(files, table, firstStart, i, start, total, shards, t, startIndex, archives, shards2, t2, archives2);
      total2 := 0;
      startIndex2 := index + 1;
      start2 := i + 1;
    } else {
      ZipKeep(files, table, firstStart, i, start, total, shards, t, startIndex, archives, total2, t2);
      archives2, zipNumber2, startIndex2, start2, shards2 := archives, zipNumber, startIndex, start, shards;
    }
  }

  /**
   * The loop of the script over the sorted files (lines 97-131): add each file's bytes,
   * write its hash and name into `df_images` by label, and once the running total
   * reaches 500 000 000 write the zip of the ids from `start_index` to the current one;
   * afterwards one zip more for the rest when its total is non-zero. The archives are
   * those of the reference packing with the `>=` rule.
   */
  method PackZips(files: seq<DiskFile>, table: seq<Row>, firstStart: int)
    returns (archives: seq<Archive>, t: seq<Row>)
    ensures archives == Archives(files, table, firstStart, Packing.Packing(Sizes(files), 0, 0, Reaches))
    ensures t == FillByLabel(table, files)
  {
    var zipNumber := 0;
    var total: nat := 0;
    var startIndex := firstStart;
    var index := 0;
    ghost var start := 0;
    ghost var shards: seq<Shard> := [];
    t := table;
    archives := [];
    ZipBegin(files, table, firstStart);
    for i := 0 to |files|
      invariant ZipState(files, table, firstStart, i, start, total, shards, t, startIndex, archives)
      invariant zipNumber == |shards|
      invariant i > 0 ==> index == StemKey(files[i - 1])
    {
      total, index, t, startIndex, zipNumber, archives, start, shards :=
        ZipStep(files, table, firstStart, i, total, t, startIndex, zipNumber, archives, start, shards);
    }
    if total == 0 {
      ZipDone(files, table, firstStart, start, shards, t, startIndex, archives);
    } else {
      ZipTail(files, table, firstStart, start, total, shards, t, startIndex, archives);
      var archive := GenerateZipFile(zipNumber, startIndex, index, t);
      archives := archives + [archive];
    }
  }

  /** `start_index = df_images.index[0]`: the first window opens at the smallest matched id. */
  function FirstWindowStart(matched: seq<Row>): int
    requires matched != []
  {
    matched[0].key
  }

  /**
   * The whole script: read AVA.txt, keep and sort the `.jpg` files, select and sort their
   * AVA rows, pack the files into zips, and report the AVA rows that no kept file names.
   * `AVA.json` is the selected table after every file was written into it by label.
   */
  function ZipSpec(lines: seq<AvaLine>, listing: seq<DiskFile>): Result<ZipRun, ZipError> {
    match BuildTable(lines)
    case Failure(n) => Failure(MalformedLine(n))
    case Success(table) =>
      match SortByStem(JpgFiles(listing))
      case Failure(name) => Failure(BadStem(name))
      case Success(files) =>
        var matched := MatchedRows(table, files);
        if matched == [] then Failure(NoMatchingRows)
        else
          var catalogue := FillByLabel(matched, files);
          Success(ZipRun(Archives(files, matched, FirstWindowStart(matched), Packing.Packing(Sizes(files), 0, 0, Reaches)),
                         catalogue,
                         ErrorReport(Select(table, KeyIn(EntryIds(catalogue)), false))))
  }

  /** The script from reading AVA.txt to writing `errors.txt`. */
  method GenerateZips(lines: seq<AvaLine>, listing: seq<DiskFile>) returns (r: Result<ZipRun, ZipError>)
    ensures r == ZipSpec(lines, listing)
  {
    var read := BuildTable(lines);
    if read.Failure? {
      return Failure(MalformedLine(read.error));
    }
    var df := read.value;
    var kept := CollectJpg(listing);
    var sorted := SortByStem(kept);
    if sorted.Failure? {
      return Failure(BadStem(sorted.error));
    }
    var files := sorted.value;
    var images := ByKey(Select(df, KeyIn(StemKeys(files)), true));
    if |images| == 0 {
      return Failure(NoMatchingRows);
    }
    var archives, catalogue := PackZips(files, images, images[0].key);
    var errors := ErrorReport(Select(df, KeyIn(EntryIds(catalogue)), false));
    r := Success(ZipRun(archives, catalogue, errors));
  }
}
