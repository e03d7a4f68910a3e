/**
 * The AVA.txt table as the three table scripts build and fill it with pandas.
 *
 * Each line of AVA.txt has 15 numeric columns: `Index`, `ImageId`, the vote counts
 * for ratings 1..10, two semantic tags and a challenge id. A table row keeps `Index`,
 * `ImageId`, the vote total `ScoreCount`, the votes as `ScoreDictionary` and two text
 * columns `FileHash` and `FileName` that start empty. `key` is the `ImageId` column,
 * which is also the row label once a script calls `set_index('ImageId')`.
 *
 * Writing through a label (`df.at[id, col] = v`, `df.loc[id, col] = v`) with no row of
 * that label appends a row: such a row has `entry == None` (its AVA columns are NaN).
 * Writing through a boolean mask never appends.
 */
module AvaTable {
  import opened Util
  import opened FileNames
  import opened Sorting
  import opened Listing

  /** `Index`, `ImageId`, ten vote columns, `SemanticTag_1`, `SemanticTag_2`, `ChallengeId`. */
  const ColumnCount: nat := 15
  /** The vote columns are named `1` .. `10`. */
  const RatingCount: nat := 10

  /** One line of AVA.txt, as the numbers `read_csv` splits it into. */
  type AvaLine = seq<int>

  /** The AVA columns a row keeps after the drops. */
  datatype Entry = Entry(index: int, imageId: int, scoreCount: int, scores: map<nat, int>)

  datatype Row = Row(key: int, entry: Option<Entry>, fileHash: string, fileName: string)

  /** Votes for ratings `1..k` of a line (columns `2..k+1`). */
  function VoteSum(line: AvaLine, k: nat): int
    requires |line| == ColumnCount && k <= RatingCount
  {
    if k == 0 then 0 else VoteSum(line, k - 1) + line[k + 1]
  }

  /** The vote count of rating `r`, in column `r + 1` of the line. */
  function Vote(line: AvaLine, r: nat): int
    requires |line| == ColumnCount && 1 <= r <= RatingCount
  {
    line[r + 1]
  }

  /** `ScoreDictionary`: rating `r` (column `r`) to its vote count. */
  function Scores(line: AvaLine): map<nat, int>
    requires |line| == ColumnCount
  {
    map r: nat | 1 <= r <= RatingCount :: Vote(line, r)
  }

  /** Sum of a score dictionary's counts for ratings `1..k`. */
  function ScoreTotal(scores: map<nat, int>, k: nat): int
    requires forall r: nat :: 1 <= r <= k ==> r in scores
  {
    if k == 0 then 0 else ScoreTotal(scores, k - 1) + scores[k]
  }

  lemma {:induction false} VoteSumIsScoreTotal(line: AvaLine, k: nat)
    requires |line| == ColumnCount && k <= RatingCount
    ensures VoteSum(line, k) == ScoreTotal(Scores(line), k)
  {
    if k > 0 {
      VoteSumIsScoreTotal(line, k - 1);
    }
  }

  /**
   * The table row of one AVA line: labelled by its `ImageId`, its `ScoreCount` the total
   * of its `ScoreDictionary`, which maps exactly the ratings 1..10 to the vote columns,
   * and no file recorded yet.
   */
  function MakeRow(line: AvaLine): (row: Row)
    requires |line| == ColumnCount
    ensures row.entry.Some? && row.key == row.entry.value.imageId == line[1]
    ensures row.entry.value.index == line[0]
    ensures forall r: nat :: r in row.entry.value.scores <==> 1 <= r <= RatingCount
    ensures forall r: nat :: 1 <= r <= RatingCount ==> row.entry.value.scores[r] == line[r + 1]
    ensures row.entry.value.scoreCount == ScoreTotal(row.entry.value.scores, RatingCount)
    ensures row.fileHash == "" && row.fileName == ""
  {
    VoteSumIsScoreTotal(line, RatingCount);
    Row(line[1], Some(Entry(line[0], line[1], VoteSum(line, RatingCount), Scores(line))), "", "")
  }

  /** Every row comes from AVA.txt, is labelled by its `ImageId` and has no file yet. */
  predicate Unfilled(rows: seq<Row>) {
    forall i :: 0 <= i < |rows| ==>
      rows[i].entry.Some? && rows[i].key == rows[i].entry.value.imageId &&
      rows[i].fileHash == "" && rows[i].fileName == ""
  }

  predicate WellFormedLines(lines: seq<AvaLine>) {
    forall i :: 0 <= i < |lines| ==> |lines[i]| == ColumnCount
  }

  function FirstBadLine(lines: seq<AvaLine>): (i: nat)
    requires !WellFormedLines(lines)
    ensures i < |lines| && |lines[i]| != ColumnCount
    ensures forall j :: 0 <= j < i ==> |lines[j]| == ColumnCount
  {
    if |lines[0]| != ColumnCount then 0
    else
      assert !WellFormedLines(lines[1..]) by {
        var j :| 0 <= j < |lines| && |lines[j]| != ColumnCount;
        assert lines[1..][j - 1] == lines[j];
      }
      1 + FirstBadLine(lines[1..])
  }

  /**
   * Reading AVA.txt and naming its columns: one row per line, in file order, when every
   * line has the 15 fields of the format. The model names the first other line as
   * malformed; `read_csv` itself stops only on a first line without 15 fields (naming
   * the columns fails) or a later line with more, and pads a shorter later line with NaN.
   */
  function BuildTable(lines: seq<AvaLine>): (r: Result<seq<Row>, nat>)
    ensures r.Success? <==> WellFormedLines(lines)
    ensures r.Success? ==> |r.value| == |lines| && Unfilled(r.value)
    ensures r.Success? ==> forall i :: 0 <= i < |lines| ==> r.value[i] == MakeRow(lines[i])
    ensures r.Failure? ==> r.error < |lines| && |lines[r.error]| != ColumnCount
    ensures r.Failure? ==> forall j :: 0 <= j < r.error ==> |lines[j]| == ColumnCount
  {
    if WellFormedLines(lines) then
      Success(seq(|lines|, i requires 0 <= i < |lines| => MakeRow(lines[i])))
    else
      Failure(FirstBadLine(lines))
  }

  /**
   * Boolean selection in table order: `df[mask]` when `keep` is true, `df[~mask]` when
   * it is false.
   */
  function Select(rows: seq<Row>, mask: Row -> bool, keep: bool): seq<Row> {
    if rows == [] then []
    else
      Select(rows[..|rows| - 1], mask, keep)
        + (if mask(rows[|rows| - 1]) == keep then [rows[|rows| - 1]] else [])
  }

  lemma SplitLast<T>(s: seq<T>)
    requires s != []
    ensures s[..|s| - 1] + [s[|s| - 1]] == s
  {
  }

  lemma MultisetLast<T>(s: seq<T>)
    requires s != []
    ensures multiset(s) == multiset(s[..|s| - 1]) + multiset{s[|s| - 1]}
  {
    assert s == s[..|s| - 1] + [s[|s| - 1]];
  }

  /** The selection holds exactly the rows whose mask value is `keep`. */
  lemma {:induction false} SelectMembers(rows: seq<Row>, mask: Row -> bool, keep: bool)
    ensures forall x :: x in Select(rows, mask, keep) <==> x in rows && mask(x) == keep
  {
    if rows != [] {
      var last := rows[|rows| - 1];
      var front := rows[..|rows| - 1];
      SelectMembers(front, mask, keep);
      assert rows == front + [last];
    }
  }

  /** `df[mask]` and `df[~mask]` split the table: every row lands on exactly one side. */
  lemma {:induction false} SelectPartition(rows: seq<Row>, mask: Row -> bool)
    ensures multiset(Select(rows, mask, true)) + multiset(Select(rows, mask, false)) == multiset(rows)
  {
    if rows != [] {
      SelectPartition(rows[..|rows| - 1], mask);
      MultisetLast(rows);
    }
  }

  predicate HasKey(rows: seq<Row>, key: int) {
    exists i :: 0 <= i < |rows| && rows[i].key == key
  }

  /** The row after `FileHash` and `FileName` are set from file `f`. */
  function Record(row: Row, f: DiskFile): Row {
    row.(fileHash := f.digest, fileName := f.name)
  }

  /** Masked assignment `df.loc[df.ImageId == key, col] = v`: every row with that key. */
  function SetWhere(rows: seq<Row>, key: int, f: DiskFile): seq<Row> {
    seq(|rows|, i requires 0 <= i < |rows| => if rows[i].key == key then Record(rows[i], f) else rows[i])
  }

  /** Label assignment `df.loc[key, col] = v`: the masked update, or a new row when no row has the label. */
  function SetByLabel(rows: seq<Row>, key: int, f: DiskFile): seq<Row> {
    SetWhere(rows, key, f) + (if HasKey(rows, key) then [] else [Row(key, None, f.digest, f.name)])
  }

  /** The table after the files, in order, were recorded by label. */
  function FillByLabel(rows: seq<Row>, files: seq<DiskFile>): seq<Row> {
    if files == [] then rows
    else
      var f := files[|files| - 1];
      SetByLabel(FillByLabel(rows, files[..|files| - 1]), StemKey(f), f)
  }

  /** Recording one more file by label extends the fill by one write. */
  lemma FillByLabelStep(rows: seq<Row>, files: seq<DiskFile>, n: nat)
    requires n < |files|
    ensures FillByLabel(rows, files[..n + 1]) == SetByLabel(FillByLabel(rows, files[..n]), StemKey(files[n]), files[n])
  {
    assert files[..n + 1][..n] == files[..n];
  }

  /** The table after the files, in order, were recorded through the `ImageId` mask. */
  function FillWhere(rows: seq<Row>, files: seq<DiskFile>): seq<Row> {
    if files == [] then rows
    else
      var f := files[|files| - 1];
      SetWhere(FillWhere(rows, files[..|files| - 1]), StemKey(f), f)
  }

  /** The last of the files whose stem value is `key`. */
  function LastWith(files: seq<DiskFile>, key: int): (r: Option<DiskFile>)
    ensures r.Some? ==> r.value in files && StemKey(r.value) == key
    ensures r.None? <==> forall j :: 0 <= j < |files| ==> StemKey(files[j]) != key
  {
    if files == [] then None
    else
      var f := files[|files| - 1];
      var front := files[..|files| - 1];
      assert files == front + [f];
      if StemKey(f) == key then Some(f) else LastWith(front, key)
  }

  /** A row with the file that last wrote to it, if any. */
  function Updated(row: Row, writer: Option<DiskFile>): Row {
    match writer
    case None => row
    case Some(f) => Record(row, f)
  }

  lemma LastWithSnoc(files: seq<DiskFile>, f: DiskFile)
    ensures forall key :: LastWith(files + [f], key) == if StemKey(f) == key then Some(f) else LastWith(files, key)
  {
    assert (files + [f])[..|files|] == files;
  }

  /**
   * The table `t` is `rows` after the files were written by label: each original row
   * carries the hash and name of the last file with its key (unchanged when there is
   * none); after them come rows of no AVA line, one per key that had no row, each
   * carrying the last file with that key; and every file's key has a row.
   */
  ghost predicate FilledFrom(rows: seq<Row>, files: seq<DiskFile>, t: seq<Row>) {
    && |rows| <= |t|
    && (forall i :: 0 <= i < |rows| ==> t[i] == Updated(rows[i], LastWith(files, rows[i].key)))
    && (forall i :: |rows| <= i < |t| ==>
          && !HasKey(rows, t[i].key)
          && LastWith(files, t[i].key).Some?
          && t[i] == Record(Row(t[i].key, None, "", ""), LastWith(files, t[i].key).value))
    && (forall i, j :: |rows| <= i < j < |t| ==> t[i].key != t[j].key)
    && (forall j :: 0 <= j < |files| ==> HasKey(t, StemKey(files[j])))
  }

  /** What one label write does to the table, row by row. */
  lemma SetByLabelShape(t: seq<Row>, key: int, f: DiskFile)
    ensures var t' := SetByLabel(t, key, f);
      && |t'| == (if HasKey(t, key) then |t| else |t| + 1)
      && (forall i :: 0 <= i < |t| ==> t'[i] == if t[i].key == key then Record(t[i], f) else t[i])
      && (!HasKey(t, key) ==> t'[|t|] == Row(key, None, f.digest, f.name))
    ensures HasKey(SetByLabel(t, key, f), key)
    ensures forall k :: HasKey(t, k) ==> HasKey(SetByLabel(t, key, f), k)
  {
    var t' := SetByLabel(t, key, f);
    assert forall i :: 0 <= i < |t| ==> t'[i].key == t[i].key;
    if !HasKey(t, key) {
      assert t'[|t|].key == key;
    }
  }

  lemma StepKeepsOriginalRows(rows: seq<Row>, files: seq<DiskFile>, t: seq<Row>, f: DiskFile)
    requires FilledFrom(rows, files, t)
    ensures forall i :: 0 <= i < |rows| ==>
      SetByLabel(t, StemKey(f), f)[i] == Updated(rows[i], LastWith(files + [f], rows[i].key))
  {
    SetByLabelShape(t, StemKey(f), f);
    LastWithSnoc(files, f);
  }

  lemma FilledKeepsKeys(rows: seq<Row>, files: seq<DiskFile>, t: seq<Row>)
    requires FilledFrom(rows, files, t)
    ensures forall k :: HasKey(rows, k) ==> HasKey(t, k)
  {
    forall m | 0 <= m < |rows| ensures t[m].key == rows[m].key {
    }
  }

  lemma StepKeepsAppendedRows(rows: seq<Row>, files: seq<DiskFile>, t: seq<Row>, f: DiskFile)
    requires FilledFrom(rows, files, t)
    ensures var t' := SetByLabel(t, StemKey(f), f);
      forall i :: |rows| <= i < |t'| ==>
        && !HasKey(rows, t'[i].key)
        && LastWith(files + [f], t'[i].key).Some?
        && t'[i] == Record(Row(t'[i].key, None, "", ""), LastWith(files + [f], t'[i].key).value)
  {
    var key := StemKey(f);
    var t' := SetByLabel(t, key, f);
    SetByLabelShape(t, key, f);
    LastWithSnoc(files, f);
    FilledKeepsKeys(rows, files, t);
  }

  lemma StepKeepsKeysDistinct(rows: seq<Row>, files: seq<DiskFile>, t: seq<Row>, f: DiskFile)
    requires FilledFrom(rows, files, t)
    ensures var t' := SetByLabel(t, StemKey(f), f);
      forall i, j :: |rows| <= i < j < |t'| ==> t'[i].key != t'[j].key
  {
    SetByLabelShape(t, StemKey(f), f);
  }

  lemma StepCoversFiles(rows: seq<Row>, files: seq<DiskFile>, t: seq<Row>, f: DiskFile)
    requires FilledFrom(rows, files, t)
    ensures forall j :: 0 <= j < |files + [f]| ==> HasKey(SetByLabel(t, StemKey(f), f), StemKey((files + [f])[j]))
  {
    SetByLabelShape(t, StemKey(f), f);
  }

  lemma FilledFromStep(rows: seq<Row>, files: seq<DiskFile>, t: seq<Row>, f: DiskFile)
    requires FilledFrom(rows, files, t)
    ensures FilledFrom(rows, files + [f], SetByLabel(t, StemKey(f), f))
  {
    SetByLabelShape(t, StemKey(f), f);
    StepKeepsOriginalRows(rows, files, t, f);
    StepKeepsAppendedRows(rows, files, t, f);
    StepKeepsKeysDistinct(rows, files, t, f);
    StepCoversFiles(rows, files, t, f);
  }

  lemma {:induction false} FillByLabelFilled(rows: seq<Row>, files: seq<DiskFile>)
    ensures FilledFrom(rows, files, FillByLabel(rows, files))
  {
    if files == [] {
      assert forall key :: LastWith(files, key) == None;
    } else {
      var front := files[..|files| - 1];
      var f := files[|files| - 1];
      FillByLabelFilled(rows, front);
      FilledFromStep(rows, front, FillByLabel(rows, front), f);
      SplitLast(files);
    }
  }

  /**
   * Masked writes (`convert_ava_txt.py`): the table keeps its rows and their order, and
   * each row carries the hash and name of the last file whose stem is its key.
   */
  lemma {:induction false} FillWhereLastWriterWins(rows: seq<Row>, files: seq<DiskFile>)
    ensures |FillWhere(rows, files)| == |rows|
    ensures forall i :: 0 <= i < |rows| ==>
      FillWhere(rows, files)[i] == Updated(rows[i], LastWith(files, rows[i].key))
  {
    if files == [] {
      assert forall key :: LastWith(files, key) == None;
    } else {
      var front := files[..|files| - 1];
      var f := files[|files| - 1];
      FillWhereLastWriterWins(rows, front);
      LastWithSnoc(front, f);
      SplitLast(files);
    }
  }

  /** A row counts as found once a hash was written into it. */
  predicate IsFound(r: Row) {
    r.fileHash != ""
  }

  predicate NonEmptyDigests(files: seq<DiskFile>) {
    forall j :: 0 <= j < |files| ==> files[j].digest != ""
  }

  /**
   * After label writes into an unfilled table, with hex digests (never empty), a row
   * still without a hash is an AVA row that no file wrote to.
   */
  lemma MissingRowsUnwritten(rows: seq<Row>, files: seq<DiskFile>)
    requires Unfilled(rows) && NonEmptyDigests(files)
    ensures var t := FillByLabel(rows, files);
      && |rows| <= |t|
      && (forall i :: 0 <= i < |rows| ==> t[i].key == rows[i].key)
      && (forall i :: 0 <= i < |rows| && LastWith(files, rows[i].key).None? ==> t[i] == rows[i])
      && (forall i :: 0 <= i < |t| && !IsFound(t[i]) ==>
            i < |rows| && LastWith(files, rows[i].key).None? && t[i] == rows[i])
  {
    var t := FillByLabel(rows, files);
    FillByLabelFilled(rows, files);
    forall i | 0 <= i < |rows| ensures t[i].key == rows[i].key {
    }
    forall i | 0 <= i < |t| && !(i < |rows| && LastWith(files, t[i].key).None?)
      ensures IsFound(t[i])
    {
      var w := LastWith(files, t[i].key).value;
      var j :| 0 <= j < |files| && files[j] == w;
    }
  }

  /**
   * `df_found`: an AVA row gets a hash exactly when some file has its `ImageId` as stem
   * (digests are never empty).
   */
  lemma FoundIffSomeFile(rows: seq<Row>, files: seq<DiskFile>)
    requires Unfilled(rows) && NonEmptyDigests(files)
    ensures |rows| <= |FillByLabel(rows, files)|
    ensures forall i :: 0 <= i < |rows| ==>
      (IsFound(FillByLabel(rows, files)[i]) <==> exists j :: 0 <= j < |files| && StemKey(files[j]) == rows[i].key)
  {
    MissingRowsUnwritten(rows, files);
  }

  /**
   * `df_not_found`: the rows left without a hash are exactly the AVA rows whose
   * `ImageId` is the stem of no file; rows appended for unknown ids are never among them.
   */
  lemma NotFoundIffNoFile(rows: seq<Row>, files: seq<DiskFile>)
    requires Unfilled(rows) && NonEmptyDigests(files)
    ensures forall x :: x in Select(FillByLabel(rows, files), IsFound, false) <==>
      x in rows && forall j :: 0 <= j < |files| ==> StemKey(files[j]) != x.key
  {
    var t := FillByLabel(rows, files);
    MissingRowsUnwritten(rows, files);
    SelectMembers(t, IsFound, false);
    forall x | x in rows && forall j :: 0 <= j < |files| ==> StemKey(files[j]) != x.key
      ensures x in Select(t, IsFound, false)
    {
      var i :| 0 <= i < |rows| && rows[i] == x;
      assert t[i] == x;
    }
  }

  predicate KeyLe(a: Row, b: Row) {
    a.key <= b.key
  }

  lemma KeyLeIsTotalPreorder()
    ensures TotalPreorder(KeyLe)
  {
  }

  /** `sort_values(by='ImageId')` / `sort_index()`: ascending by key, a permutation of the rows. */
  function ByKey(rows: seq<Row>): (r: seq<Row>)
    ensures SortedBy(r, KeyLe) && multiset(r) == multiset(rows) && |r| == |rows|
    ensures forall x :: Ties(r, x, KeyLe) == Ties(rows, x, KeyLe)
  {
    KeyLeIsTotalPreorder();
    Sort(rows, KeyLe)
  }

  /** A line of `errors.txt`: `Index` and `ImageId`, `None` where the cell is NaN. */
  datatype ReportLine = ReportLine(index: Option<int>, imageId: Option<int>)

  /** `rows.loc[:, ['Index', 'ImageId']]`, one line per row in table order. */
  function ErrorReport(rows: seq<Row>): (r: seq<ReportLine>)
    ensures |r| == |rows|
    ensures forall i :: 0 <= i < |rows| && rows[i].entry.Some? ==>
      r[i] == ReportLine(Some(rows[i].entry.value.index), Some(rows[i].entry.value.imageId))
    ensures forall i :: 0 <= i < |rows| && rows[i].entry.None? ==> r[i] == ReportLine(None, None)
  {
    seq(|rows|, i requires 0 <= i < |rows| =>
      match rows[i].entry
      case Some(e) => ReportLine(Some(e.index), Some(e.imageId))
      case None => ReportLine(None, None))
  }

  /** The mask `ImageId.isin(keys)`. */
  function KeyIn(keys: set<int>): Row -> bool {
    (r: Row) => r.key in keys
  }

  /** The mask `(index >= lo) & (index <= hi)`. */
  function KeyBetween(lo: int, hi: int): Row -> bool {
    (r: Row) => lo <= r.key <= hi
  }

  /** The stem values of the files (the list `indexes`). */
  function StemKeys(files: seq<DiskFile>): set<int> {
    set f | f in files :: StemKey(f)
  }

  /** The non-NaN values of a table's `ImageId` column. */
  function EntryIds(rows: seq<Row>): set<int> {
    set r | r in rows && r.entry.Some? :: r.entry.value.imageId
  }

  /** The AVA rows whose `ImageId` is a kept file's stem, sorted by id (`df_images`). */
  function MatchedRows(table: seq<Row>, files: seq<DiskFile>): seq<Row> {
    ByKey(Select(table, KeyIn(StemKeys(files)), true))
  }

  /** Every row of the table is labelled by the stem of some file (true of `df_images`). */
  ghost predicate KeysFromFiles(table: seq<Row>, files: seq<DiskFile>) {
    forall i :: 0 <= i < |table| ==> table[i].key in StemKeys(files)
  }

  /** Two masks that agree on every row select the same rows. */
  lemma SelectSameMask(rows: seq<Row>, m1: Row -> bool, m2: Row -> bool, keep: bool)
    requires forall x :: x in rows ==> m1(x) == m2(x)
    ensures Select(rows, m1, keep) == Select(rows, m2, keep)
  {
    if rows != [] {
      SelectSameMask(rows[..|rows| - 1], m1, m2, keep);
    }
  }

  /** The matched rows are the AVA rows whose id is a file's stem, sorted by id; each keeps its AVA columns. */
  lemma MatchedRowsShape(table: seq<Row>, files: seq<DiskFile>)
    requires Unfilled(table)
    ensures var matched := MatchedRows(table, files);
      && SortedBy(matched, KeyLe)
      && (forall x :: x in matched <==> x in table && x.key in StemKeys(files))
      && Unfilled(matched) && KeysFromFiles(matched, files)
  {
    var matched := MatchedRows(table, files);
    SelectMembers(table, KeyIn(StemKeys(files)), true);
    assert forall x :: x in matched <==> x in multiset(Select(table, KeyIn(StemKeys(files)), true));
    forall i | 0 <= i < |matched|
      ensures matched[i].entry.Some? && matched[i].key == matched[i].entry.value.imageId
      ensures matched[i].fileHash == "" && matched[i].fileName == ""
      ensures matched[i].key in StemKeys(files)
    {
      assert matched[i] in multiset(matched);
      assert matched[i] in table;
      var n :| 0 <= n < |table| && table[n] == matched[i];
    }
  }

  /** For an AVA row, its id is among the ids of the matched rows exactly when some file has it as stem. */
  lemma MatchedIds(table: seq<Row>, files: seq<DiskFile>)
    requires Unfilled(table)
    ensures forall x :: x in table ==> (x.key in EntryIds(MatchedRows(table, files)) <==> x.key in StemKeys(files))
  {
    MatchedRowsShape(table, files);
    forall x | x in table
      ensures x.key in EntryIds(MatchedRows(table, files)) <==> x.key in StemKeys(files)
    {
      MatchedId(table, files, x);
    }
  }

  lemma MatchedId(table: seq<Row>, files: seq<DiskFile>, x: Row)
    requires Unfilled(table) && x in table
    requires forall y :: y in MatchedRows(table, files) <==> y in table && y.key in StemKeys(files)
    requires Unfilled(MatchedRows(table, files))
    ensures x.key in EntryIds(MatchedRows(table, files)) <==> x.key in StemKeys(files)
  {
    var matched := MatchedRows(table, files);
    var n :| 0 <= n < |table| && table[n] == x;
    if x.key in StemKeys(files) {
      assert x in matched;
    }
    if x.key in EntryIds(matched) {
      var r :| r in matched && r.entry.Some? && r.entry.value.imageId == x.key;
      var i :| 0 <= i < |matched| && matched[i] == r;
    }
  }

  /** Some position of the list holds a file whose stem value is `key`. */
  ghost predicate HasFileOf(files: seq<DiskFile>, key: int) {
    exists j :: 0 <= j < |files| && StemKey(files[j]) == key
  }

  /** Every row labelled by a file's stem has a file at some position of the list. */
  lemma KeysHaveFiles(table: seq<Row>, files: seq<DiskFile>)
    requires KeysFromFiles(table, files)
    ensures forall i :: 0 <= i < |table| ==> HasFileOf(files, table[i].key)
  {
    forall i | 0 <= i < |table|
      ensures HasFileOf(files, table[i].key)
    {
      var f :| f in files && StemKey(f) == table[i].key;
      var j :| 0 <= j < |files| && files[j] == f;
      assert StemKey(files[j]) == table[i].key;
    }
  }
}
