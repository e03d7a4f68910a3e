/**
 * `ava-tools/ava_json_generator.py`: read AVA.txt into a table labelled and sorted by
 * `ImageId`; walk the shard directories in name order; in each, take the `.jpg`/`.png`
 * files in ascending stem order, write each file's digest and name into the rows
 * labelled by its stem (appending a row when there is none) and collect those rows as
 * the directory's manifest; finally split the table into the rows that got a hash and
 * the rows that did not, and report the latter.
 *
 * Listing directories, reading and hashing images and writing JSON are outside the
 * model: a directory is its name and its listing, and each entry carries its digest.
 */
module AvaJson {
  import opened Util
  import opened FileNames
  import opened Sorting
  import opened Listing
  import opened AvaTable

  /** A shard directory under the images directory and the entries `os.listdir` gives for it. */
  datatype Directory = Directory(name: string, listing: seq<DiskFile>)

  /** The manifest written as `<name>/<name>.json`: the rows collected in `df_new`. */
  datatype DirJson = DirJson(directory: string, rows: seq<Row>)

  /** The table and the manifests after some directories were processed. */
  datatype Walked = Walked(table: seq<Row>, manifests: seq<DirJson>)

  /**
   * The outputs: the manifests, the final table, its rows with a hash (`AVA.json`) and
   * the `Index`/`ImageId` lines of the rows without one (`errors.txt`).
   */
  datatype AvaJsonRun = AvaJsonRun(manifests: seq<DirJson>, table: seq<Row>, found: seq<Row>, errors: seq<ReportLine>)

  /** Where the script stops with an exception: a line without 15 fields, or a stem that is not a plain run of digits. */
  datatype AvaJsonError = MalformedLine(line: nat) | BadStem(directory: string, name: string)

  /** Python's string order: code point by code point, a proper prefix first. */
  predicate NameLe(a: string, b: string) {
    if a == [] then true
    else if b == [] then false
    else if a[0] != b[0] then a[0] < b[0]
    else NameLe(a[1..], b[1..])
  }

  lemma {:induction false} NameLeTotal(a: string, b: string)
    ensures NameLe(a, b) || NameLe(b, a)
  {
    if a != [] && b != [] && a[0] == b[0] {
      NameLeTotal(a[1..], b[1..]);
    }
  }

  lemma {:induction false} NameLeTransitive(a: string, b: string, c: string)
    requires NameLe(a, b) && NameLe(b, c)
    ensures NameLe(a, c)
  {
    if a != [] && b != [] && c != [] && a[0] == b[0] && b[0] == c[0] {
      NameLeTransitive(a[1..], b[1..], c[1..]);
    }
  }

  predicate DirLe(a: Directory, b: Directory) {
    NameLe(a.name, b.name)
  }

  lemma DirLeIsTotalPreorder()
    ensures TotalPreorder(DirLe)
  {
    forall a: Directory, b: Directory ensures DirLe(a, b) || DirLe(b, a) {
      NameLeTotal(a.name, b.name);
    }
    forall a: Directory, b: Directory, c: Directory | DirLe(a, b) && DirLe(b, c)
      ensures DirLe(a, c)
    {
      NameLeTransitive(a.name, b.name, c.name);
    }
  }

  /** `sorted(directories)`: the same directories, in ascending name order. */
  function SortedDirs(dirs: seq<Directory>): (r: seq<Directory>)
    ensures multiset(r) == multiset(dirs) && |r| == |dirs|
    ensures forall i, j :: 0 <= i < j < |r| ==> NameLe(r[i].name, r[j].name)
  {
    DirLeIsTotalPreorder();
    var r := Sort(dirs, DirLe);
    assert SortedBy(r, DirLe);
    r
  }

  /** `[file for file in files if file.split('.')[-1] in ALLOWED_EXTENSIONS]`, in listing order. */
  function AllowedFiles(listing: seq<DiskFile>): (r: seq<DiskFile>)
    ensures forall f :: f in r <==> f in listing && AllowedExtension(f.name)
  {
    if listing == [] then []
    else
      var last := listing[|listing| - 1];
      var front := listing[..|listing| - 1];
      assert listing == front + [last];
      AllowedFiles(front) + (if AllowedExtension(last.name) then [last] else [])
  }

  lemma PermutedStemsParse(a: seq<DiskFile>, b: seq<DiskFile>)
    requires StemsParse(a) && multiset(a) == multiset(b)
    ensures StemsParse(b)
  {
    forall i | 0 <= i < |b| ensures StemValue(b[i].name).Some? {
      assert b[i] in multiset(a);
      var j :| 0 <= j < |a| && a[j] == b[i];
    }
  }

  /**
   * The files a directory contributes: its `.jpg`/`.png` entries in ascending stem
   * order; a stem that is not a plain run of digits names the file that stops the script.
   */
  function DirFiles(d: Directory): (r: Result<seq<DiskFile>, string>)
    ensures r.Success? ==> SortedBy(r.value, StemLe) && StemsParse(r.value)
    ensures r.Success? ==> forall f :: f in r.value <==> f in d.listing && AllowedExtension(f.name)
    ensures r.Failure? ==> exists f :: f in d.listing && AllowedExtension(f.name) && f.name == r.error && StemValue(f.name).None?
  {
    var kept := AllowedFiles(d.listing);
    var r := SortByStem(kept);
    if r.Success? then
      PermutedStemsParse(kept, r.value);
      assert forall f :: f in r.value <==> f in multiset(kept);
      r
    else
      r
  }

  /** The mask of `df.loc[[image_id]]`: the rows labelled `key`. */
  function KeyIs(key: int): Row -> bool {
    (r: Row) => r.key == key
  }

  /**
   * `df_new` of one directory, starting from table `t`: after each file is written by
   * label, every row labelled by its stem is appended.
   */
  function DirRows(t: seq<Row>, files: seq<DiskFile>): seq<Row> {
    if files == [] then []
    else
      var f := files[|files| - 1];
      DirRows(t, files[..|files| - 1]) + Select(FillByLabel(t, files), KeyIs(StemKey(f)), true)
  }

  lemma DirRowsStep(t: seq<Row>, files: seq<DiskFile>, n: nat)
    requires n < |files|
    ensures DirRows(t, files[..n + 1]) == DirRows(t, files[..n]) + Select(FillByLabel(t, files[..n + 1]), KeyIs(StemKey(files[n])), true)
  {
    assert files[..n + 1][..n] == files[..n];
  }

  /** The files of the directories, in processing order (a directory that fails adds none). */
  function ProcessedFiles(dirs: seq<Directory>): seq<DiskFile> {
    if dirs == [] then []
    else
      ProcessedFiles(dirs[..|dirs| - 1]) +
        match DirFiles(dirs[|dirs| - 1])
        case Success(files) => files
        case Failure(_) => []
  }

  /** The directory loop from table `t`: each directory writes into the table left by the ones before it. */
  function Walk(t: seq<Row>, dirs: seq<Directory>): Result<Walked, AvaJsonError> {
    if dirs == [] then Success(Walked(t, []))
    else
      var d := dirs[|dirs| - 1];
      match Walk(t, dirs[..|dirs| - 1])
      case Failure(e) => Failure(e)
      case Success(w) =>
        match DirFiles(d)
        case Failure(name) => Failure(BadStem(d.name, name))
        case Success(files) => Success(Advance(w, d, files))
  }

  /** Directory `d` with its sorted `files` processed on top of `w`. */
  function Advance(w: Walked, d: Directory, files: seq<DiskFile>): Walked {
    Walked(FillByLabel(w.table, files), w.manifests + [DirJson(d.name, DirRows(w.table, files))])
  }

  /** The whole script. */
  function AvaJsonSpec(lines: seq<AvaLine>, dirs: seq<Directory>): Result<AvaJsonRun, AvaJsonError> {
    match BuildTable(lines)
    case Failure(n) => Failure(MalformedLine(n))
    case Success(table) =>
      match Walk(ByKey(table), SortedDirs(dirs))
      case Failure(e) => Failure(e)
      case Success(w) =>
        Success(AvaJsonRun(w.manifests, w.table, Select(w.table, IsFound, true), ErrorReport(Select(w.table, IsFound, false))))
  }

  /**
   * One pass of the directory loop: filter and sort the listing, then for each file
   * write its digest and name by label and append the rows of its id to `df_new`.
   */
  method ProcessDirectory(df: seq<Row>, d: Directory) returns (r: Result<(seq<Row>, seq<Row>), string>)
    ensures DirFiles(d).Failure? ==> r == Failure(DirFiles(d).error)
    ensures DirFiles(d).Success? ==>
      r == Success((FillByLabel(df, DirFiles(d).value), DirRows(df, DirFiles(d).value)))
  {
    var sorted := DirFiles(d);
    if sorted.Failure? {
      return Failure(sorted.error);
    }
    var files := sorted.value;
    var t := df;
    var rows: seq<Row> := [];
    for i := 0 to |files|
      invariant t == FillByLabel(df, files[..i])
      invariant rows == DirRows(df, files[..i])
    {
      var file := files[i];
      assert file in files;
      JsonBranchUnreachable(file.name);
      if EndsWith(Lower(file.name), "json") {
        assert false;
      }
      var imageId := StemKey(file);
      FillByLabelStep(df, files, i);
      t := SetByLabel(t, imageId, file);
      DirRowsStep(df, files, i);
      rows := rows + Select(t, KeyIs(imageId), true);
    }
    assert files[..|files|] == files;
    r := Success((t, rows));
  }

  lemma WalkStep(t: seq<Row>, dirs: seq<Directory>, k: nat, w: Walked)
    requires k < |dirs| && Walk(t, dirs[..k]) == Success(w)
    ensures DirFiles(dirs[k]).Failure? ==> Walk(t, dirs[..k + 1]) == Failure(BadStem(dirs[k].name, DirFiles(dirs[k]).error))
    ensures DirFiles(dirs[k]).Success? ==> Walk(t, dirs[..k + 1]) == Success(Advance(w, dirs[k], DirFiles(dirs[k]).value))
  {
    assert dirs[..k + 1][..k] == dirs[..k];
  }

  /** Once a directory fails, the walk over any longer list fails with the same error. */
  lemma {:induction false} WalkPrefixFailure(t: seq<Row>, dirs: seq<Directory>, n: nat)
    requires n <= |dirs| && Walk(t, dirs[..n]).Failure?
    ensures Walk(t, dirs) == Walk(t, dirs[..n])
    decreases |dirs|
  {
    if n == |dirs| {
      assert dirs[..n] == dirs;
    } else {
      var front := dirs[..|dirs| - 1];
      assert front[..n] == dirs[..n];
      WalkPrefixFailure(t, front, n);
    }
  }

  method GenerateAvaJson(lines: seq<AvaLine>, dirs: seq<Directory>) returns (r: Result<AvaJsonRun, AvaJsonError>)
    ensures r == AvaJsonSpec(lines, dirs)
  {
    var read := BuildTable(lines);
    if read.Failure? {
      return Failure(MalformedLine(read.error));
    }
    var start := ByKey(read.value);
    var df := start;
    var directories := SortedDirs(dirs);
    var manifests: seq<DirJson> := [];
    for k := 0 to |directories|
      invariant Walk(start, directories[..k]) == Success(Walked(df, manifests))
    {
      var d := directories[k];
      WalkStep(start, directories, k, Walked(df, manifests));
      var step := ProcessDirectory(df, d);
      if step.Failure? {
        WalkPrefixFailure(start, directories, k + 1);
        return Failure(BadStem(d.name, step.error));
      }
      df := step.value.0;
      manifests := manifests + [DirJson(d.name, step.value.1)];
    }
    assert directories[..|directories|] == directories;
    var found := Select(df, IsFound, true);
    var notFound := Select(df, IsFound, false);
    r := Success(AvaJsonRun(manifests, df, found, ErrorReport(notFound)));
  }

  /** Writing `files` after `a` is writing `a + files`. */
  lemma {:induction false} FillByLabelAppend(t: seq<Row>, a: seq<DiskFile>, files: seq<DiskFile>)
    ensures FillByLabel(t, a + files) == FillByLabel(FillByLabel(t, a), files)
  {
    if files == [] {
      assert a + files == a;
    } else {
      var front := files[..|files| - 1];
      FillByLabelAppend(t, a, front);
      assert (a + files)[..|a + files| - 1] == a + front;
    }
  }

  predicate AllParse(dirs: seq<Directory>) {
    forall k :: 0 <= k < |dirs| ==> DirFiles(dirs[k]).Success?
  }

  /**
   * `w` is what processing `dirs` from table `t` leaves: the table has every processed
   * file written into it, in order, and manifest `k` belongs to directory `k` and holds
   * its rows as written on top of the directories before it.
   */
  ghost predicate WalkDescribed(t: seq<Row>, dirs: seq<Directory>, w: Walked) {
    && AllParse(dirs)
    && w.table == FillByLabel(t, ProcessedFiles(dirs))
    && |w.manifests| == |dirs|
    && forall k :: 0 <= k < |dirs| ==> w.manifests[k] == ManifestOf(t, dirs, k)
  }

  /** The manifest directory `k` gets when the directories before it were processed from `t`. */
  ghost function ManifestOf(t: seq<Row>, dirs: seq<Directory>, k: nat): DirJson
    requires k < |dirs| && DirFiles(dirs[k]).Success?
  {
    DirJson(dirs[k].name, DirRows(FillByLabel(t, ProcessedFiles(dirs[..k])), DirFiles(dirs[k]).value))
  }

  lemma ProcessedSnoc(front: seq<Directory>, d: Directory, files: seq<DiskFile>)
    requires DirFiles(d) == Success(files)
    ensures (front + [d])[..|front|] == front
    ensures ProcessedFiles(front + [d]) == ProcessedFiles(front) + files
  {
    assert (front + [d])[..|front|] == front;
  }

  lemma ManifestOfSnoc(t: seq<Row>, front: seq<Directory>, d: Directory, k: nat)
    requires k < |front| && DirFiles(front[k]).Success?
    ensures (front + [d])[k] == front[k]
    ensures ManifestOf(t, front + [d], k) == ManifestOf(t, front, k)
  {
    assert (front + [d])[..k] == front[..k];
  }

  lemma AllParseSnoc(front: seq<Directory>, d: Directory)
    requires AllParse(front) && DirFiles(d).Success?
    ensures AllParse(front + [d])
  {
    var dirs := front + [d];
    forall k | 0 <= k < |dirs| ensures DirFiles(dirs[k]).Success? {
      if k < |front| {
        assert dirs[k] == front[k];
      }
    }
  }

  lemma ManifestsSnoc(t: seq<Row>, front: seq<Directory>, d: Directory, ms: seq<DirJson>, m: DirJson)
    requires AllParse(front) && AllParse(front + [d]) && |ms| == |front|
    requires forall k :: 0 <= k < |front| ==> ms[k] == ManifestOf(t, front, k)
    requires m == ManifestOf(t, front + [d], |front|)
    ensures forall k :: 0 <= k < |front| + 1 ==> (ms + [m])[k] == ManifestOf(t, front + [d], k)
  {
    forall k | 0 <= k < |front| ensures ms[k] == ManifestOf(t, front + [d], k) {
      ManifestOfSnoc(t, front, d, k);
    }
  }

  lemma WalkDescribedStep(t: seq<Row>, front: seq<Directory>, d: Directory, w: Walked, files: seq<DiskFile>)
    requires WalkDescribed(t, front, w) && DirFiles(d) == Success(files)
    ensures WalkDescribed(t, front + [d], Advance(w, d, files))
  {
    ProcessedSnoc(front, d, files);
    FillByLabelAppend(t, ProcessedFiles(front), files);
    AllParseSnoc(front, d);
    ManifestsSnoc(t, front, d, w.manifests, DirJson(d.name, DirRows(w.table, files)));
  }

  /** The walk succeeds exactly when every directory's stems parse, and then it is described by `WalkDescribed`. */
  lemma {:induction false} WalkShape(t: seq<Row>, dirs: seq<Directory>)
    ensures Walk(t, dirs).Success? <==> AllParse(dirs)
    ensures Walk(t, dirs).Success? ==> WalkDescribed(t, dirs, Walk(t, dirs).value)
  {
    if dirs != [] {
      var front := dirs[..|dirs| - 1];
      var d := dirs[|dirs| - 1];
      WalkShape(t, front);
      SplitLast(dirs);
      assert AllParse(dirs) <==> AllParse(front) && DirFiles(d).Success? by {
        assert forall k :: 0 <= k < |front| ==> dirs[k] == front[k];
      }
      if Walk(t, front).Success? && DirFiles(d).Success? {
        WalkDescribedStep(t, front, d, Walk(t, front).value, DirFiles(d).value);
      }
    }
  }

  /** A failing walk stops at the first directory, in processing order, whose stems do not parse. */
  lemma {:induction false} WalkStopsAtFirstBadDirectory(t: seq<Row>, dirs: seq<Directory>)
    requires Walk(t, dirs).Failure?
    ensures exists k | 0 <= k < |dirs| ::
      && DirFiles(dirs[k]).Failure?
      && (forall m :: 0 <= m < k ==> DirFiles(dirs[m]).Success?)
      && Walk(t, dirs).error == BadStem(dirs[k].name, DirFiles(dirs[k]).error)
  {
    var front := dirs[..|dirs| - 1];
    var d := dirs[|dirs| - 1];
    assert forall k :: 0 <= k < |front| ==> dirs[k] == front[k];
    if Walk(t, front).Failure? {
      WalkStopsAtFirstBadDirectory(t, front);
    } else {
      WalkShape(t, front);
      assert DirFiles(dirs[|front|]).Failure?;
    }
  }

  /** No two rows of the table share a label. */
  predicate DistinctKeys(rows: seq<Row>) {
    forall i, j :: 0 <= i < j < |rows| ==> rows[i].key != rows[j].key
  }

  /** A label write keeps labels distinct: it appends only a label the table lacks. */
  lemma SetByLabelKeepsDistinct(t: seq<Row>, key: int, f: DiskFile)
    requires DistinctKeys(t)
    ensures DistinctKeys(SetByLabel(t, key, f))
  {
    SetByLabelShape(t, key, f);
  }

  lemma {:induction false} FillByLabelKeepsDistinct(t: seq<Row>, files: seq<DiskFile>)
    requires DistinctKeys(t)
    ensures DistinctKeys(FillByLabel(t, files))
  {
    if files != [] {
      var f := files[|files| - 1];
      FillByLabelKeepsDistinct(t, files[..|files| - 1]);
      SetByLabelKeepsDistinct(FillByLabel(t, files[..|files| - 1]), StemKey(f), f);
    }
  }

  /** A value present twice in a sequence, at two positions. */
  lemma TwoPositions<T>(s: seq<T>, x: T)
    requires multiset(s)[x] >= 2
    ensures exists p, q :: 0 <= p < q < |s| && s[p] == x && s[q] == x
  {
    assert x in multiset(s);
    var p :| 0 <= p < |s| && s[p] == x;
    assert s == s[..p] + [x] + s[p + 1..];
    assert multiset(s[..p] + s[p + 1..])[x] >= 1;
    if x in s[..p] {
      var q :| 0 <= q < p && s[..p][q] == x;
      assert s[q] == x;
    } else {
      assert x in s[p + 1..];
      var q :| 0 <= q < |s| - p - 1 && s[p + 1..][q] == x;
      assert s[p + 1 + q] == x;
    }
  }

  /** Two positions of a reordering come from two positions of the original. */
  lemma DistinctOrigins<T>(a: seq<T>, b: seq<T>, i: nat, j: nat)
    requires multiset(a) == multiset(b) && i < j < |b|
    ensures exists p, q :: 0 <= p < |a| && 0 <= q < |a| && p != q && a[p] == b[i] && a[q] == b[j]
  {
    assert b[i] in multiset(a) && b[j] in multiset(a);
    if b[i] == b[j] {
      assert b == b[..j] + b[j..];
      assert b[i] in b[..j] && b[j] in b[j..];
      assert multiset(b)[b[i]] == multiset(b[..j])[b[i]] + multiset(b[j..])[b[i]];
      TwoPositions(a, b[i]);
    } else {
      var p :| 0 <= p < |a| && a[p] == b[i];
      var q :| 0 <= q < |a| && a[q] == b[j];
      assert a[p] != a[q];
    }
  }

  /** Reordering the rows keeps the labels distinct. */
  lemma PermutationKeepsDistinct(a: seq<Row>, b: seq<Row>)
    requires DistinctKeys(a) && multiset(a) == multiset(b)
    ensures DistinctKeys(b)
  {
    forall i, j | 0 <= i < j < |b| ensures b[i].key != b[j].key {
      DistinctOrigins(a, b, i, j);
      var p, q :| 0 <= p < |a| && 0 <= q < |a| && p != q && a[p] == b[i] && a[q] == b[j];
      if p < q {
        assert a[p].key != a[q].key;
      } else {
        assert a[q].key != a[p].key;
      }
    }
  }

  /** A mask no row satisfies selects nothing. */
  lemma {:induction false} SelectNone(rows: seq<Row>, mask: Row -> bool)
    requires forall i :: 0 <= i < |rows| ==> !mask(rows[i])
    ensures Select(rows, mask, true) == []
  {
    if rows != [] {
      SelectNone(rows[..|rows| - 1], mask);
    }
  }

  /** With distinct labels, `df.loc[[key]]` is the single row labelled `key`. */
  lemma {:induction false} SelectOnly(rows: seq<Row>, key: int, m: nat)
    requires DistinctKeys(rows) && m < |rows| && rows[m].key == key
    ensures Select(rows, KeyIs(key), true) == [rows[m]]
  {
    var front := rows[..|rows| - 1];
    if m == |rows| - 1 {
      assert forall i :: 0 <= i < |front| ==> front[i].key != rows[m].key;
      SelectNone(front, KeyIs(key));
    } else {
      SelectOnly(front, key, m);
      assert rows[|rows| - 1].key != key;
    }
  }

  /**
   * The manifest row of file `f`: labelled by its stem, carrying its digest and name,
   * and holding the AVA columns of the AVA row with that id, or none when AVA.txt has
   * no such row (the row was appended by the label write).
   */
  ghost predicate ManifestRow(ava: seq<Row>, f: DiskFile, x: Row) {
    && x.key == StemKey(f) && x.fileHash == f.digest && x.fileName == f.name
    && (if HasKey(ava, x.key) then exists a :: a in ava && a.key == x.key && a.entry == x.entry
        else x.entry.None?)
  }

  /** One manifest row per file, in file order. */
  ghost predicate OnePerFile(ava: seq<Row>, files: seq<DiskFile>, rows: seq<Row>) {
    |rows| == |files| && forall i :: 0 <= i < |files| ==> ManifestRow(ava, files[i], rows[i])
  }

  /** What a row of a filled table keeps of the AVA table it was filled from. */
  lemma FilledRowEntry(ava: seq<Row>, files: seq<DiskFile>, t: seq<Row>, m: nat)
    requires FilledFrom(ava, files, t) && m < |t|
    ensures m < |ava| ==> t[m].key == ava[m].key && t[m].entry == ava[m].entry
    ensures m >= |ava| ==> !HasKey(ava, t[m].key) && t[m].entry.None?
  {
  }

  /** The row that the last write of `f` leaves under its label is a manifest row of `f`. */
  lemma WrittenRowIsManifestRow(ava: seq<Row>, files: seq<DiskFile>, f: DiskFile, m: nat)
    requires m < |FillByLabel(ava, files + [f])| && FillByLabel(ava, files + [f])[m].key == StemKey(f)
    ensures ManifestRow(ava, f, FillByLabel(ava, files + [f])[m])
  {
    var t0 := FillByLabel(ava, files);
    var t := FillByLabel(ava, files + [f]);
    assert (files + [f])[..|files|] == files;
    assert t == SetByLabel(t0, StemKey(f), f);
    SetByLabelShape(t0, StemKey(f), f);
    FillByLabelFilled(ava, files + [f]);
    FilledRowEntry(ava, files + [f], t, m);
    if m < |ava| {
      assert ava[m] in ava;
    }
  }

  /** With distinct ids, the rows `df.loc[[image_id]]` appends for the last file are that file's one manifest row. */
  lemma LastFileRow(ava: seq<Row>, all: seq<DiskFile>, f: DiskFile)
    requires DistinctKeys(ava)
    ensures var rows := Select(FillByLabel(ava, all + [f]), KeyIs(StemKey(f)), true);
      |rows| == 1 && ManifestRow(ava, f, rows[0])
  {
    var table := FillByLabel(ava, all + [f]);
    assert (all + [f])[..|all|] == all;
    SetByLabelShape(FillByLabel(ava, all), StemKey(f), f);
    var m :| 0 <= m < |table| && table[m].key == StemKey(f);
    FillByLabelKeepsDistinct(ava, all + [f]);
    SelectOnly(table, StemKey(f), m);
    WrittenRowIsManifestRow(ava, all, f, m);
  }

  lemma OnePerFileSnoc(ava: seq<Row>, front: seq<DiskFile>, f: DiskFile, rows: seq<Row>, last: seq<Row>)
    requires OnePerFile(ava, front, rows) && |last| == 1 && ManifestRow(ava, f, last[0])
    ensures OnePerFile(ava, front + [f], rows + last)
  {
    var files := front + [f];
    forall i | 0 <= i < |files| ensures ManifestRow(ava, files[i], (rows + last)[i]) {
      if i < |front| {
        assert files[i] == front[i] && (rows + last)[i] == rows[i];
      }
    }
  }

  /**
   * With distinct ids, each directory's `df_new` has exactly one row per processed file,
   * in file order: the file's own row as just written.
   */
  lemma {:induction false} DirRowsOnePerFile(ava: seq<Row>, before: seq<DiskFile>, files: seq<DiskFile>)
    requires DistinctKeys(ava)
    ensures OnePerFile(ava, files, DirRows(FillByLabel(ava, before), files))
  {
    if files != [] {
      var t := FillByLabel(ava, before);
      var front := files[..|files| - 1];
      var f := files[|files| - 1];
      DirRowsOnePerFile(ava, before, front);
      FillByLabelAppend(ava, before, files);
      SplitLast(files);
      assert before + files == (before + front) + [f];
      LastFileRow(ava, before + front, f);
      OnePerFileSnoc(ava, front, f, DirRows(t, front), Select(FillByLabel(ava, (before + front) + [f]), KeyIs(StemKey(f)), true));
    }
  }

  lemma HasKeyPermuted(a: seq<Row>, b: seq<Row>, key: int)
    requires multiset(a) == multiset(b) && HasKey(a, key)
    ensures HasKey(b, key)
  {
    var m :| 0 <= m < |a| && a[m].key == key;
    assert a[m] in multiset(b);
    var n :| 0 <= n < |b| && b[n] == a[m];
  }

  /** Manifest rows say the same thing about a reordered AVA table. */
  lemma ManifestRowPermuted(a: seq<Row>, b: seq<Row>, f: DiskFile, x: Row)
    requires multiset(a) == multiset(b) && ManifestRow(a, f, x)
    ensures ManifestRow(b, f, x)
  {
    assert forall y :: y in a <==> y in multiset(b);
    if HasKey(a, x.key) {
      HasKeyPermuted(a, b, x.key);
    }
    if HasKey(b, x.key) {
      HasKeyPermuted(b, a, x.key);
    }
  }

  /**
   * With distinct `ImageId`s in AVA.txt, the run writes one manifest per directory, in
   * name order, each with one row per processed file of that directory, in file order.
   */
  lemma AvaJsonManifests(lines: seq<AvaLine>, dirs: seq<Directory>)
    requires BuildTable(lines).Success? && DistinctKeys(BuildTable(lines).value)
    requires AvaJsonSpec(lines, dirs).Success?
    ensures var ava := BuildTable(lines).value;
      var sorted := SortedDirs(dirs);
      var run := AvaJsonSpec(lines, dirs).value;
      && |run.manifests| == |dirs|
      && forall k :: 0 <= k < |dirs| ==>
        && DirFiles(sorted[k]).Success?
        && run.manifests[k].directory == sorted[k].name
        && OnePerFile(ava, DirFiles(sorted[k]).value, run.manifests[k].rows)
  {
    var ava := BuildTable(lines).value;
    var start := ByKey(ava);
    var sorted := SortedDirs(dirs);
    var run := AvaJsonSpec(lines, dirs).value;
    WalkShape(start, sorted);
    PermutationKeepsDistinct(ava, start);
    forall k | 0 <= k < |dirs|
      ensures OnePerFile(ava, DirFiles(sorted[k]).value, run.manifests[k].rows)
    {
      var files := DirFiles(sorted[k]).value;
      var rows := run.manifests[k].rows;
      DirRowsOnePerFile(start, ProcessedFiles(sorted[..k]), files);
      forall i | 0 <= i < |files| ensures ManifestRow(ava, files[i], rows[i]) {
        ManifestRowPermuted(start, ava, files[i], rows[i]);
      }
    }
  }

  /** A label write sets `FileHash` and `FileName` together, in every row with that label and only there. */
  lemma LabelWriteSetsHashAndName(t: seq<Row>, key: int, f: DiskFile)
    ensures var t' := SetByLabel(t, key, f);
      && HasKey(t', key)
      && (forall i :: 0 <= i < |t'| && t'[i].key == key ==> t'[i].fileHash == f.digest && t'[i].fileName == f.name)
      && (forall i :: 0 <= i < |t| && t[i].key != key ==> t'[i] == t[i])
      && (forall i :: 0 <= i < |t| ==> t'[i].key == t[i].key && t'[i].entry == t[i].entry)
  {
    SetByLabelShape(t, key, f);
  }

  /** Every file listed in any of the directories has a (hex, never empty) digest. */
  ghost predicate ListedDigests(dirs: seq<Directory>) {
    forall d, f :: d in dirs && f in d.listing ==> f.digest != ""
  }

  lemma {:induction false} ProcessedDigests(dirs: seq<Directory>)
    requires ListedDigests(dirs)
    ensures NonEmptyDigests(ProcessedFiles(dirs))
  {
    if dirs != [] {
      var front := dirs[..|dirs| - 1];
      var d := dirs[|dirs| - 1];
      assert ListedDigests(front) by {
        assert forall e :: e in front ==> e in dirs;
      }
      ProcessedDigests(front);
      assert d in dirs;
    }
  }

  /** The `Index`/`ImageId` line of an AVA row that no processed file has as its stem. */
  ghost predicate ReportsMissingRow(ava: seq<Row>, files: seq<DiskFile>, line: ReportLine) {
    exists x :: x in ava && !HasFileOf(files, x.key) && x.entry.Some? &&
      line == ReportLine(Some(x.entry.value.index), Some(x.entry.value.imageId))
  }

  lemma SortedUnfilled(ava: seq<Row>)
    requires Unfilled(ava)
    ensures Unfilled(ByKey(ava)) && forall x :: x in ByKey(ava) <==> x in ava
  {
    var s := ByKey(ava);
    assert forall x :: x in s <==> x in multiset(ava);
    forall i | 0 <= i < |s|
      ensures s[i].entry.Some? && s[i].key == s[i].entry.value.imageId && s[i].fileHash == "" && s[i].fileName == ""
    {
      assert s[i] in multiset(ava);
      var j :| 0 <= j < |ava| && ava[j] == s[i];
    }
  }

  /**
   * `df_found` and `df_not_found` split the final table; with digests never empty, the
   * rows without a hash are exactly the AVA rows whose id is the stem of no processed
   * file, and `errors.txt` has one `Index`/`ImageId` line for each of them and no other.
   */
  lemma AvaJsonFoundAndErrors(lines: seq<AvaLine>, dirs: seq<Directory>)
    requires AvaJsonSpec(lines, dirs).Success? && ListedDigests(dirs)
    ensures BuildTable(lines).Success?
    ensures var ava := BuildTable(lines).value;
      var files := ProcessedFiles(SortedDirs(dirs));
      var run := AvaJsonSpec(lines, dirs).value;
      var missing := Select(run.table, IsFound, false);
      && multiset(run.found) + multiset(missing) == multiset(run.table)
      && (forall x :: x in run.found <==> x in run.table && IsFound(x))
      && (forall x :: x in missing <==> x in ava && !HasFileOf(files, x.key))
      && |run.errors| == |missing|
      && (forall i :: 0 <= i < |run.errors| ==> ReportsMissingRow(ava, files, run.errors[i]))
      && (forall x :: x in ava && x.entry.Some? && !HasFileOf(files, x.key) ==>
            ReportLine(Some(x.entry.value.index), Some(x.entry.value.imageId)) in run.errors)
  {
    var ava := BuildTable(lines).value;
    var start := ByKey(ava);
    var sorted := SortedDirs(dirs);
    var files := ProcessedFiles(sorted);
    var run := AvaJsonSpec(lines, dirs).value;
    var missing := Select(run.table, IsFound, false);
    WalkShape(start, sorted);
    assert run.table == FillByLabel(start, files);
    SortedUnfilled(ava);
    assert ListedDigests(sorted) by {
      assert forall d :: d in sorted ==> d in multiset(dirs);
    }
    ProcessedDigests(sorted);
    NotFoundIffNoFile(start, files);
    SelectPartition(run.table, IsFound);
    SelectMembers(run.table, IsFound, true);
    forall x | x in missing ensures x in ava && !HasFileOf(files, x.key) {
    }
    forall i | 0 <= i < |run.errors| ensures ReportsMissingRow(ava, files, run.errors[i]) {
      assert missing[i] in missing;
    }
    forall x | x in ava && x.entry.Some? && !HasFileOf(files, x.key)
      ensures ReportLine(Some(x.entry.value.index), Some(x.entry.value.imageId)) in run.errors
    {
      assert x in missing;
      var i :| 0 <= i < |missing| && missing[i] == x;
      assert run.errors[i] == ReportLine(Some(x.entry.value.index), Some(x.entry.value.imageId));
    }
  }
}
