/**
 * `convert_ava_txt.py`: read AVA.txt, keep the AVA rows whose `ImageId` is the stem of
 * a `.jpg` file of the extraction directory, record each file's SHA-256 digest and name
 * in the rows of its id, and report the AVA rows that no file matched.
 *
 * Reading and hashing the images is outside the model: each listing entry carries its
 * hex digest. The writes go through boolean masks on `ImageId`, so they never append a
 * row (unlike the label writes of the zip generator).
 */
module ConvertAva {
  import opened Util
  import opened FileNames
  import opened Sorting
  import opened Listing
  import opened AvaTable

  /** The outputs: the rows written to `AVA.json` and the lines of `errors.txt`. */
  datatype ConvertRun = ConvertRun(catalogue: seq<Row>, errors: seq<ReportLine>)

  /** Where the script stops with an exception: a line without 15 fields, or a stem that is not a plain run of digits. */
  datatype ConvertError = MalformedLine(line: nat) | BadStem(name: string)

  /**
   * The whole script: the matched rows, sorted by id, with the files written through the
   * `ImageId` mask in ascending stem order; then the AVA rows whose id is not in them.
   */
  function ConvertSpec(lines: seq<AvaLine>, listing: seq<DiskFile>): Result<ConvertRun, ConvertError> {
    match BuildTable(lines)
    case Failure(n) => Failure(MalformedLine(n))
    case Success(table) =>
      match SortByStem(JpgFiles(listing))
      case Failure(name) => Failure(BadStem(name))
      case Success(files) =>
        var catalogue := FillWhere(MatchedRows(table, files), files);
        Success(ConvertRun(catalogue, ErrorReport(Select(table, KeyIn(EntryIds(catalogue)), false))))
  }

  /** Writing one more file through the mask extends the fill by one write. */
  lemma FillWhereStep(rows: seq<Row>, files: seq<DiskFile>, n: nat)
    requires n < |files|
    ensures FillWhere(rows, files[..n + 1]) == SetWhere(FillWhere(rows, files[..n]), StemKey(files[n]), files[n])
  {
    assert files[..n + 1][..n] == files[..n];
  }

  /**
   * The loop over the sorted files: each file's digest and name go into every row whose
   * `ImageId` is the file's stem value.
   */
  method RecordFiles(rows: seq<Row>, files: seq<DiskFile>) returns (t: seq<Row>)
    ensures t == FillWhere(rows, files)
  {
    t := rows;
    for i := 0 to |files|
      invariant t == FillWhere(rows, files[..i])
    {
      var index := StemKey(files[i]);
      FillWhereStep(rows, files, i);
      t := SetWhere(t, index, files[i]);
    }
    assert files[..|files|] == files;
  }

  method ConvertAvaTxt(lines: seq<AvaLine>, listing: seq<DiskFile>) returns (r: Result<ConvertRun, ConvertError>)
    ensures r == ConvertSpec(lines, listing)
  {
    var read := BuildTable(lines);
    if read.Failure? {
      return Failure(MalformedLine(read.error));
    }
    var df := read.value;
    var kept := CollectJpg(listing);
    var sorted := SortByStem(kept);
    if sorted.Failure? {
      return Failure(BadStem(sorted.error));
    }
    var files := sorted.value;
    var images := ByKey(Select(df, KeyIn(StemKeys(files)), true));
    images := RecordFiles(images, files);
    var diff := Select(df, KeyIn(EntryIds(images)), false);
    r := Success(ConvertRun(images, ErrorReport(diff)));
  }

  /** Masked writes keep every row's AVA columns, so they keep the set of ids. */
  lemma EntryIdsFilledWhere(rows: seq<Row>, files: seq<DiskFile>)
    ensures EntryIds(FillWhere(rows, files)) == EntryIds(rows)
  {
    var t := FillWhere(rows, files);
    FillWhereLastWriterWins(rows, files);
    forall id | id in EntryIds(t) ensures id in EntryIds(rows) {
      var r :| r in t && r.entry.Some? && r.entry.value.imageId == id;
      var i :| 0 <= i < |t| && t[i] == r;
      assert rows[i].entry == r.entry;
    }
    forall id | id in EntryIds(rows) ensures id in EntryIds(t) {
      var r :| r in rows && r.entry.Some? && r.entry.value.imageId == id;
      var i :| 0 <= i < |rows| && rows[i] == r;
      assert t[i].entry == r.entry;
    }
  }

  /**
   * `AVA.json` holds exactly the AVA rows whose id is a kept file's stem, in id order, each
   * with the digest and name of the last file (in stem order) of its id.
   */
  lemma ConvertCatalogueRows(lines: seq<AvaLine>, listing: seq<DiskFile>)
    requires ConvertSpec(lines, listing).Success?
    ensures BuildTable(lines).Success? && SortByStem(JpgFiles(listing)).Success?
    ensures var files := SortByStem(JpgFiles(listing)).value;
      var matched := MatchedRows(BuildTable(lines).value, files);
      var catalogue := ConvertSpec(lines, listing).value.catalogue;
      && |catalogue| == |matched| && SortedBy(matched, KeyLe)
      && (forall x :: x in matched <==> x in BuildTable(lines).value && x.key in StemKeys(files))
      && (forall i :: 0 <= i < |matched| ==> catalogue[i] == Updated(matched[i], LastWith(files, matched[i].key)))
  {
    var files := SortByStem(JpgFiles(listing)).value;
    MatchedRowsShape(BuildTable(lines).value, files);
    FillWhereLastWriterWins(MatchedRows(BuildTable(lines).value, files), files);
  }

  /**
   * `errors.txt` lists, in AVA.txt order, exactly the AVA rows whose id is no kept file's
   * stem; with the rows of `AVA.json` they make up every AVA row, each once.
   */
  lemma ConvertErrorsAreUnmatchedRows(lines: seq<AvaLine>, listing: seq<DiskFile>)
    requires ConvertSpec(lines, listing).Success?
    ensures BuildTable(lines).Success? && SortByStem(JpgFiles(listing)).Success?
    ensures var table := BuildTable(lines).value;
      var files := SortByStem(JpgFiles(listing)).value;
      && ConvertSpec(lines, listing).value.errors == ErrorReport(Select(table, KeyIn(StemKeys(files)), false))
      && multiset(MatchedRows(table, files)) + multiset(Select(table, KeyIn(StemKeys(files)), false)) == multiset(table)
  {
    var table := BuildTable(lines).value;
    var files := SortByStem(JpgFiles(listing)).value;
    var matched := MatchedRows(table, files);
    EntryIdsFilledWhere(matched, files);
    MatchedIds(table, files);
    SelectSameMask(table, KeyIn(EntryIds(FillWhere(matched, files))), KeyIn(StemKeys(files)), false);
    SelectPartition(table, KeyIn(StemKeys(files)));
  }

  /** Masked writes of files whose digests are not empty into rows labelled by their stems leave no row without a hash. */
  lemma MaskedFillFound(matched: seq<Row>, files: seq<DiskFile>)
    requires KeysFromFiles(matched, files) && NonEmptyDigests(files)
    ensures forall x :: x in FillWhere(matched, files) ==> IsFound(x)
  {
    var catalogue := FillWhere(matched, files);
    FillWhereLastWriterWins(matched, files);
    KeysHaveFiles(matched, files);
    forall x | x in catalogue ensures IsFound(x) {
      var i :| 0 <= i < |catalogue| && catalogue[i] == x;
      assert HasFileOf(files, matched[i].key);
      var w := LastWith(files, matched[i].key);
      var j :| 0 <= j < |files| && files[j] == w.value;
    }
  }

  /** With non-empty digests, every row of `AVA.json` has a hash: every matched id has a file. */
  lemma ConvertRowsFound(lines: seq<AvaLine>, listing: seq<DiskFile>)
    requires ConvertSpec(lines, listing).Success?
    requires forall f :: f in listing ==> f.digest != ""
    ensures forall x :: x in ConvertSpec(lines, listing).value.catalogue ==> IsFound(x)
  {
    var table := BuildTable(lines).value;
    var files := SortByStem(JpgFiles(listing)).value;
    MatchedRowsShape(table, files);
    KeptFilesListed(listing, files);
    assert NonEmptyDigests(files) by {
      forall j | 0 <= j < |files| ensures files[j].digest != "" {
        assert files[j] in files;
      }
    }
    MaskedFillFound(MatchedRows(table, files), files);
  }
}
