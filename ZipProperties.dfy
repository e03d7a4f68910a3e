/**
 * What the zips of `zip_generator.py` contain: their numbering, the id windows of their
 * manifests, the images that go with the manifest rows, and how `AVA.json` and
 * `errors.txt` split the AVA table.
 */
module ZipProperties {
  import opened Util
  import opened FileNames
  import opened Sorting
  import opened Listing
  import opened Packing
  import opened AvaTable
  import opened ZipGenerator

  /** Stem values never decrease along the list (what the sort by stem gives). */
  ghost predicate Ascending(files: seq<DiskFile>) {
    forall i, j :: 0 <= i < j < |files| ==> StemKey(files[i]) <= StemKey(files[j])
  }

  /** No two files share a stem value, and the values increase along the list. */
  ghost predicate StrictlyAscending(files: seq<DiskFile>) {
    forall i, j :: 0 <= i < j < |files| ==> StemKey(files[i]) < StemKey(files[j])
  }

  /** The shards of the packing lie inside the list, each one right after the previous one. */
  lemma ShardsOrdered(p: seq<Shard>, start: nat, a: nat, b: nat)
    requires Contiguous(p, start)
    requires forall i :: 0 <= i < |p| ==> p[i].first <= p[i].last
    requires a < b < |p|
    ensures p[a].last < p[b].first
    decreases b - a
  {
    if a + 1 < b {
      ShardsOrdered(p, start, a, b - 1);
    }
  }

  /** A row of the filled table with a writer carries that writer's name. */
  lemma FilledRowName(table: seq<Row>, prefix: seq<DiskFile>, t: seq<Row>, i: nat)
    requires FilledFrom(table, prefix, t) && i < |t|
    requires i >= |table| || LastWith(prefix, t[i].key).Some?
    ensures LastWith(prefix, t[i].key).Some?
    ensures t[i].fileName == LastWith(prefix, t[i].key).value.name
  {
    if i < |table| {
      assert t[i] == Updated(table[i], LastWith(prefix, table[i].key));
    }
  }

  /** In an ascending list, an id reached by some file and not above file `last`'s id is reached by the files up to `last`. */
  lemma IdReachedByPrefix(files: seq<DiskFile>, last: nat, key: int)
    requires Ascending(files) && last < |files|
    requires key in StemKeys(files) && key <= StemKey(files[last])
    ensures LastWith(files[..last + 1], key).Some?
  {
    var f :| f in files && StemKey(f) == key;
    var j :| 0 <= j < |files| && files[j] == f;
    var prefix := files[..last + 1];
    if j <= last {
      assert prefix[j] == f;
    } else {
      assert StemKey(files[last]) <= StemKey(files[j]);
      assert StemKey(prefix[last]) == key;
    }
  }

  /** The images of an archive go with its manifest rows: image `m` is a file of the id of row `m`. */
  ghost predicate ImagesMatchRows(files: seq<DiskFile>, last: nat, a: Archive)
    requires last < |files|
  {
    && |a.images| == |a.manifest|
    && forall m :: 0 <= m < |a.manifest| ==>
         exists j :: 0 <= j <= last && StemKey(files[j]) == a.manifest[m].key && a.images[m] == files[j].name
  }

  /** A row of the filled table that some file wrote carries the name of a file of its id. */
  lemma WrittenRowNamesFile(table: seq<Row>, prefix: seq<DiskFile>, t: seq<Row>, i: nat)
    requires FilledFrom(table, prefix, t) && i < |t|
    requires i >= |table| || LastWith(prefix, t[i].key).Some?
    ensures exists j :: 0 <= j < |prefix| && StemKey(prefix[j]) == t[i].key && t[i].fileName == prefix[j].name
  {
    FilledRowName(table, prefix, t, i);
    var w := LastWith(prefix, t[i].key).value;
    var j :| 0 <= j < |prefix| && prefix[j] == w;
  }

  /** A row of the table filled up to file `last` that lies in a window ending at `last`'s id names a file of its id. */
  lemma WindowRowNamed(files: seq<DiskFile>, table: seq<Row>, last: nat, t: seq<Row>, i: nat)
    requires Ascending(files) && KeysFromFiles(table, files) && last < |files|
    requires FilledFrom(table, files[..last + 1], t) && i < |t| && t[i].key <= StemKey(files[last])
    ensures exists j :: 0 <= j <= last && StemKey(files[j]) == t[i].key && t[i].fileName == files[j].name
  {
    var prefix := files[..last + 1];
    if i < |table| {
      assert t[i] == Updated(table[i], LastWith(prefix, table[i].key));
      IdReachedByPrefix(files, last, t[i].key);
    }
    WrittenRowNamesFile(table, prefix, t, i);
    var j :| 0 <= j < |prefix| && StemKey(prefix[j]) == t[i].key && t[i].fileName == prefix[j].name;
    assert prefix[j] == files[j];
  }

  /** One row of a window of the table filled up to file `last` names a file of its id. */
  lemma ManifestRowNamed(files: seq<DiskFile>, table: seq<Row>, lo: int, last: nat, t: seq<Row>, manifest: seq<Row>, m: nat)
    requires Ascending(files) && KeysFromFiles(table, files) && last < |files|
    requires FilledFrom(table, files[..last + 1], t)
    requires manifest == Select(t, KeyBetween(lo, StemKey(files[last])), true) && m < |manifest|
    ensures exists j :: 0 <= j <= last && StemKey(files[j]) == manifest[m].key && manifest[m].fileName == files[j].name
  {
    SelectMembers(t, KeyBetween(lo, StemKey(files[last])), true);
    assert manifest[m] in manifest;
    var i :| 0 <= i < |t| && t[i] == manifest[m];
    WindowRowNamed(files, table, last, t, i);
  }

  /** Every row of such a window names a file of its id. */
  lemma WindowNamesMatch(files: seq<DiskFile>, table: seq<Row>, lo: int, last: nat, t: seq<Row>, manifest: seq<Row>)
    requires Ascending(files) && KeysFromFiles(table, files) && last < |files|
    requires FilledFrom(table, files[..last + 1], t)
    requires manifest == Select(t, KeyBetween(lo, StemKey(files[last])), true)
    ensures forall m :: 0 <= m < |manifest| ==>
      exists j :: 0 <= j <= last && StemKey(files[j]) == manifest[m].key && RowNames(manifest)[m] == files[j].name
  {
    forall m | 0 <= m < |manifest|
      ensures exists j :: 0 <= j <= last && StemKey(files[j]) == manifest[m].key && RowNames(manifest)[m] == files[j].name
    {
      ManifestRowNamed(files, table, lo, last, t, manifest, m);
    }
  }

  /** Each of the rows names a file of its id among the files up to `last`. */
  ghost predicate RowsNameFiles(files: seq<DiskFile>, last: nat, manifest: seq<Row>)
    requires last < |files|
  {
    forall m :: 0 <= m < |manifest| ==>
      exists j :: 0 <= j <= last && StemKey(files[j]) == manifest[m].key && RowNames(manifest)[m] == files[j].name
  }

  /** The same, for the window of the table filled up to file `last`. */
  lemma FilledWindowNamesMatch(files: seq<DiskFile>, table: seq<Row>, lo: int, last: nat)
    requires Ascending(files) && KeysFromFiles(table, files) && last < |files|
    ensures RowsNameFiles(files, last, Select(FillByLabel(table, files[..last + 1]), KeyBetween(lo, StemKey(files[last])), true))
  {
    FillByLabelFilled(table, files[..last + 1]);
    WindowNamesMatch(files, table, lo, last, FillByLabel(table, files[..last + 1]),
                     Select(FillByLabel(table, files[..last + 1]), KeyBetween(lo, StemKey(files[last])), true));
  }

  lemma ArchiveImagesMatchRows(files: seq<DiskFile>, table: seq<Row>, firstStart: int, s: Shard)
    requires Ascending(files) && KeysFromFiles(table, files) && s.first <= s.last < |files|
    ensures ImagesMatchRows(files, s.last, ArchiveOf(files, table, firstStart, s))
  {
    var manifest := Select(FillByLabel(table, files[..s.last + 1]),
                           KeyBetween(WindowStart(files, firstStart, s.first), StemKey(files[s.last])), true);
    FilledWindowNamesMatch(files, table, WindowStart(files, firstStart, s.first), s.last);
    assert ArchiveOf(files, table, firstStart, s) == Archive(s.index, manifest, RowNames(manifest));
  }

  /** Every manifest row's id lies in its shard's window. */
  lemma ManifestInWindow(files: seq<DiskFile>, table: seq<Row>, firstStart: int, s: Shard)
    requires s.first <= s.last < |files|
    ensures forall x :: x in ArchiveOf(files, table, firstStart, s).manifest ==>
      WindowStart(files, firstStart, s.first) <= x.key <= StemKey(files[s.last])
  {
    SelectMembers(FillByLabel(table, files[..s.last + 1]),
                  KeyBetween(WindowStart(files, firstStart, s.first), StemKey(files[s.last])), true);
  }

  /** The windows of two shards, the first ending before the second starts, hold increasing ids. */
  lemma WindowsOrdered(files: seq<DiskFile>, table: seq<Row>, firstStart: int, sa: Shard, sb: Shard)
    requires Ascending(files)
    requires sa.first <= sa.last < sb.first <= sb.last < |files|
    ensures forall x, y | x in ArchiveOf(files, table, firstStart, sa).manifest
                       && y in ArchiveOf(files, table, firstStart, sb).manifest :: x.key < y.key
  {
    assert StemKey(files[sa.last]) < WindowStart(files, firstStart, sb.first) by {
      assert StemKey(files[sa.last]) <= StemKey(files[sb.first - 1]);
    }
    ManifestInWindow(files, table, firstStart, sa);
    ManifestInWindow(files, table, firstStart, sb);
  }

  /** The archives of the whole packing, numbered 0, 1, ... in order. */
  ghost function ZipArchives(files: seq<DiskFile>, table: seq<Row>, firstStart: int): seq<Archive> {
    Archives(files, table, firstStart, Packing.Packing(Sizes(files), 0, 0, Reaches))
  }

  /**
   * The zips follow the `>=` packing: zip `k` is numbered `k` (named `dataset-ava-` and
   * `k` padded to three digits), holds the images its manifest rows name, each a file
   * of the row's id placed no later than the shard's last file, and every zip but the
   * last was closed by the first file that brought its total to 500 000 000 bytes.
   */
  lemma ZipArchivesFollowPacking(files: seq<DiskFile>, table: seq<Row>, firstStart: int)
    requires Ascending(files) && KeysFromFiles(table, files)
    ensures var p := Packing.Packing(Sizes(files), 0, 0, Reaches);
      && |ZipArchives(files, table, firstStart)| == |p|
      && CutAtThreshold(Sizes(files), p, Reaches)
    ensures forall k :: 0 <= k < |ZipArchives(files, table, firstStart)| ==>
      ZipArchives(files, table, firstStart)[k].number == k &&
      ZipArchives(files, table, firstStart)[k].Name() == ShardName(k)
    ensures forall k :: 0 <= k < |ZipArchives(files, table, firstStart)| ==>
      var s := Packing.Packing(Sizes(files), 0, 0, Reaches)[k];
      s.last < |files| && ImagesMatchRows(files, s.last, ZipArchives(files, table, firstStart)[k])
  {
    var p := Packing.Packing(Sizes(files), 0, 0, Reaches);
    PackingIndexes(Sizes(files), 0, 0, Reaches);
    PackingThreshold(Sizes(files), 0, 0, Reaches);
    forall k | 0 <= k < |p|
      ensures ZipArchives(files, table, firstStart)[k] == ArchiveOf(files, table, firstStart, p[k])
      ensures ImagesMatchRows(files, p[k].last, ArchiveOf(files, table, firstStart, p[k]))
    {
      ArchivesAt(files, table, firstStart, p, k);
      ArchiveImagesMatchRows(files, table, firstStart, p[k]);
    }
  }

  /** Ids increase across zips: every row of an earlier zip's manifest has a smaller id than every row of a later one. */
  lemma ZipManifestsDisjoint(files: seq<DiskFile>, table: seq<Row>, firstStart: int, a: nat, b: nat)
    requires Ascending(files)
    requires a < b < |ZipArchives(files, table, firstStart)|
    ensures forall x, y | x in ZipArchives(files, table, firstStart)[a].manifest
                       && y in ZipArchives(files, table, firstStart)[b].manifest :: x.key < y.key
  {
    var p := Packing.Packing(Sizes(files), 0, 0, Reaches);
    PackingContiguous(Sizes(files), 0, 0, Reaches);
    ShardsOrdered(p, 0, a, b);
    ArchivesAt(files, table, firstStart, p, a);
    ArchivesAt(files, table, firstStart, p, b);
    WindowsOrdered(files, table, firstStart, p[a], p[b]);
  }

  /** The shard a placed position belongs to. */
  lemma {:induction false} ShardOf(p: seq<Shard>, start: nat, j: nat) returns (k: nat)
    requires Contiguous(p, start)
    requires forall i :: 0 <= i < |p| ==> p[i].first <= p[i].last
    requires start <= j < Covered(p, start)
    ensures k < |p| && p[k].first <= j <= p[k].last
  {
    var n := |p|;
    if j >= p[n - 1].first {
      k := n - 1;
    } else {
      var q := p[..n - 1];
      assert n > 1;
      assert Contiguous(q, start);
      k := ShardOf(q, start, j);
      assert q[k] == p[k];
    }
  }

  /** A file whose id is below a shard's window is not among the images of the shard's zip. */
  lemma IdBelowWindowNotIn(files: seq<DiskFile>, table: seq<Row>, firstStart: int, s: Shard, j: nat)
    requires Ascending(files) && KeysFromFiles(table, files) && s.first <= s.last < |files| && j < |files|
    requires StemKey(files[j]) < WindowStart(files, firstStart, s.first)
    ensures files[j].name !in ArchiveOf(files, table, firstStart, s).images
  {
    var a := ArchiveOf(files, table, firstStart, s);
    ArchiveImagesMatchRows(files, table, firstStart, s);
    ManifestInWindow(files, table, firstStart, s);
    forall m | 0 <= m < |a.images| ensures a.images[m] != files[j].name {
      assert a.manifest[m] in a.manifest;
      var j' :| 0 <= j' <= s.last && StemKey(files[j']) == a.manifest[m].key && a.images[m] == files[j'].name;
    }
  }

  /**
   * As written, the first window opens at the smallest matched id (`start_index =
   * df_images.index[0]`): a file of the first shard whose id is below it is counted in
   * that shard's bytes and recorded in the table, but is put in no zip.
   */
  lemma LowIdsLeftOut(files: seq<DiskFile>, table: seq<Row>, firstStart: int, j: nat)
    requires Ascending(files) && KeysFromFiles(table, files)
    requires Packing.Packing(Sizes(files), 0, 0, Reaches) != []
    requires j <= Packing.Packing(Sizes(files), 0, 0, Reaches)[0].last
    requires StemKey(files[j]) < firstStart
    ensures forall k :: 0 <= k < |ZipArchives(files, table, firstStart)| ==>
      files[j].name !in ZipArchives(files, table, firstStart)[k].images
  {
    forall k | 0 <= k < |ZipArchives(files, table, firstStart)|
      ensures files[j].name !in ZipArchives(files, table, firstStart)[k].images
    {
      LowIdNotInZip(files, table, firstStart, j, k);
    }
  }

  /** One zip of `LowIdsLeftOut`: the low id is below its window. */
  lemma LowIdNotInZip(files: seq<DiskFile>, table: seq<Row>, firstStart: int, j: nat, k: nat)
    requires Ascending(files) && KeysFromFiles(table, files)
    requires Packing.Packing(Sizes(files), 0, 0, Reaches) != []
    requires j <= Packing.Packing(Sizes(files), 0, 0, Reaches)[0].last
    requires StemKey(files[j]) < firstStart
    requires k < |ZipArchives(files, table, firstStart)|
    ensures files[j].name !in ZipArchives(files, table, firstStart)[k].images
  {
    var p := Packing.Packing(Sizes(files), 0, 0, Reaches);
    PackingContiguous(Sizes(files), 0, 0, Reaches);
    ArchivesAt(files, table, firstStart, p, k);
    if k > 0 {
      ShardsOrdered(p, 0, 0, k);
      var m := p[k].first - 1;
      assert j <= m < |files|;
      if j < m {
        assert StemKey(files[j]) <= StemKey(files[m]);
      }
    }
    IdBelowWindowNotIn(files, table, firstStart, p[k], j);
  }

  /** The window of a shard holds the id of each of its files when ids are strictly increasing. */
  lemma IdInOwnWindow(files: seq<DiskFile>, s: Shard, j: nat)
    requires StrictlyAscending(files) && s.first <= j <= s.last < |files|
    ensures WindowStart(files, StemKey(files[0]), s.first) <= StemKey(files[j]) <= StemKey(files[s.last])
  {
    if j < s.last {
      assert StemKey(files[j]) < StemKey(files[s.last]);
    }
    if s.first > 0 {
      assert StemKey(files[s.first - 1]) < StemKey(files[j]);
    } else if j > 0 {
      assert StemKey(files[0]) < StemKey(files[j]);
    }
  }

  /** The images of a shard's zip are the names in its manifest window. */
  lemma ArchiveImages(files: seq<DiskFile>, table: seq<Row>, firstStart: int, s: Shard)
    requires s.first <= s.last < |files|
    ensures ArchiveOf(files, table, firstStart, s).images
      == RowNames(Select(FillByLabel(table, files[..s.last + 1]),
                         KeyBetween(WindowStart(files, firstStart, s.first), StemKey(files[s.last])), true))
  {
  }

  lemma StrictlyAscendingAscends(files: seq<DiskFile>)
    requires StrictlyAscending(files)
    ensures Ascending(files)
  {
  }

  /** A file up to `last` whose id lies in a window ending at `last`'s id is among the window's images. */
  lemma FileInWindow(files: seq<DiskFile>, table: seq<Row>, lo: int, last: nat, t: seq<Row>, manifest: seq<Row>, j: nat)
    requires StrictlyAscending(files) && Ascending(files) && KeysFromFiles(table, files) && j <= last < |files|
    requires FilledFrom(table, files[..last + 1], t)
    requires manifest == Select(t, KeyBetween(lo, StemKey(files[last])), true)
    requires lo <= StemKey(files[j]) <= StemKey(files[last])
    ensures files[j].name in RowNames(manifest)
  {
    assert files[..last + 1][j] == files[j];
    assert HasKey(t, StemKey(files[j]));
    var i :| 0 <= i < |t| && t[i].key == StemKey(files[j]);
    SelectMembers(t, KeyBetween(lo, StemKey(files[last])), true);
    assert t[i] in manifest;
    var m :| 0 <= m < |manifest| && manifest[m] == t[i];
    WindowRowNamed(files, table, last, t, i);
    var j' :| 0 <= j' <= last && StemKey(files[j']) == t[i].key && t[i].fileName == files[j'].name;
    assert j' == j;
    assert RowNames(manifest)[m] == files[j].name;
  }

  /** A file of a shard is among the images of the shard's zip when the first window opens at the first file's id. */
  lemma FileInOwnArchive(files: seq<DiskFile>, table: seq<Row>, s: Shard, j: nat)
    requires StrictlyAscending(files) && KeysFromFiles(table, files) && s.first <= j <= s.last < |files|
    ensures files[j].name in ArchiveOf(files, table, StemKey(files[0]), s).images
  {
    var prefix := files[..s.last + 1];
    var t := FillByLabel(table, prefix);
    var lo := WindowStart(files, StemKey(files[0]), s.first);
    var manifest := Select(t, KeyBetween(lo, StemKey(files[s.last])), true);
    ArchiveImages(files, table, StemKey(files[0]), s);
    FillByLabelFilled(table, prefix);
    IdInOwnWindow(files, s, j);
    StrictlyAscendingAscends(files);
    FileInWindow(files, table, lo, s.last, t, manifest, j);
  }

  /**
   * Corrected: with the first window opening at the first file's id and no two files of
   * the same id, every file the packing places goes into the zip of its shard.
   */
  lemma IntendedStartZipsEveryFile(files: seq<DiskFile>, table: seq<Row>, j: nat)
    requires StrictlyAscending(files) && KeysFromFiles(table, files)
    requires j < Covered(Packing.Packing(Sizes(files), 0, 0, Reaches), 0)
    ensures exists k | 0 <= k < |ZipArchives(files, table, StemKey(files[0]))| ::
      files[j].name in ZipArchives(files, table, StemKey(files[0]))[k].images
  {
    var p := Packing.Packing(Sizes(files), 0, 0, Reaches);
    PackingContiguous(Sizes(files), 0, 0, Reaches);
    var k := ShardOf(p, 0, j);
    var za := ZipArchives(files, table, StemKey(files[0]));
    assert |za| == |p|;
    ArchivesAt(files, table, StemKey(files[0]), p, k);
    FileInOwnArchive(files, table, p[k], j);
    assert files[j].name in za[k].images;
  }

  /** Writing files by label keeps the AVA columns of the original rows and appends rows without them. */
  lemma EntryIdsFilled(rows: seq<Row>, files: seq<DiskFile>)
    ensures EntryIds(FillByLabel(rows, files)) == EntryIds(rows)
  {
    var t := FillByLabel(rows, files);
    FillByLabelFilled(rows, files);
    forall id | id in EntryIds(t) ensures id in EntryIds(rows) {
      var r :| r in t && r.entry.Some? && r.entry.value.imageId == id;
      var i :| 0 <= i < |t| && t[i] == r;
      assert i < |rows|;
      assert rows[i].entry == r.entry;
    }
    forall id | id in EntryIds(rows) ensures id in EntryIds(t) {
      var r :| r in rows && r.entry.Some? && r.entry.value.imageId == id;
      var i :| 0 <= i < |rows| && rows[i] == r;
      assert t[i].entry == r.entry;
    }
  }

  /** What a successful run is made of: the sorted kept files and their matched rows. */
  lemma ZipRunArchives(lines: seq<AvaLine>, listing: seq<DiskFile>)
    requires ZipSpec(lines, listing).Success?
    ensures BuildTable(lines).Success? && SortByStem(JpgFiles(listing)).Success?
    ensures var files := SortByStem(JpgFiles(listing)).value;
      var matched := MatchedRows(BuildTable(lines).value, files);
      && matched != [] && Ascending(files) && KeysFromFiles(matched, files)
      && multiset(files) == multiset(JpgFiles(listing))
      && ZipSpec(lines, listing).value.archives == ZipArchives(files, matched, FirstWindowStart(matched))
  {
    var files := SortByStem(JpgFiles(listing)).value;
    MatchedRowsShape(BuildTable(lines).value, files);
    forall i, j | 0 <= i < j < |files| ensures StemKey(files[i]) <= StemKey(files[j]) {
      assert StemLe(files[i], files[j]);
    }
  }

  /**
   * `errors.txt` lists, in AVA.txt order, exactly the AVA rows whose id is no kept file's
   * stem; together with the rows of `df_images` they are every AVA row, each once.
   */
  lemma ZipErrorsAreUnmatchedRows(lines: seq<AvaLine>, listing: seq<DiskFile>)
    requires ZipSpec(lines, listing).Success?
    ensures BuildTable(lines).Success? && SortByStem(JpgFiles(listing)).Success?
    ensures var table := BuildTable(lines).value;
      var files := SortByStem(JpgFiles(listing)).value;
      && ZipSpec(lines, listing).value.errors == ErrorReport(Select(table, KeyIn(StemKeys(files)), false))
      && multiset(MatchedRows(table, files)) + multiset(Select(table, KeyIn(StemKeys(files)), false)) == multiset(table)
  {
    var table := BuildTable(lines).value;
    var files := SortByStem(JpgFiles(listing)).value;
    var matched := MatchedRows(table, files);
    EntryIdsFilled(matched, files);
    MatchedIds(table, files);
    SelectSameMask(table, KeyIn(EntryIds(FillByLabel(matched, files))), KeyIn(StemKeys(files)), false);
    SelectPartition(table, KeyIn(StemKeys(files)));
  }

  /** Filling rows labelled by file stems: every original row is found, every appended row has no AVA columns. */
  lemma CatalogueRows(matched: seq<Row>, files: seq<DiskFile>)
    requires Unfilled(matched) && KeysFromFiles(matched, files) && NonEmptyDigests(files)
    ensures var catalogue := FillByLabel(matched, files);
      && |matched| <= |catalogue|
      && (forall i :: 0 <= i < |matched| ==>
            catalogue[i].key == matched[i].key && catalogue[i].entry == matched[i].entry && IsFound(catalogue[i]))
      && (forall i :: |matched| <= i < |catalogue| ==> catalogue[i].entry.None?)
  {
    var catalogue := FillByLabel(matched, files);
    FillByLabelFilled(matched, files);
    FoundIffSomeFile(matched, files);
    KeysHaveFiles(matched, files);
    forall i | 0 <= i < |matched| ensures IsFound(catalogue[i]) {
      assert HasFileOf(files, matched[i].key);
    }
  }

  /**
   * `AVA.json`: the matched AVA rows in id order, each with the hash and name of a file
   * of its id (digests are never empty), followed only by rows appended for file ids
   * with no AVA line.
   */
  lemma ZipCatalogueComplete(lines: seq<AvaLine>, listing: seq<DiskFile>)
    requires ZipSpec(lines, listing).Success?
    requires forall f :: f in listing ==> f.digest != ""
    ensures BuildTable(lines).Success? && SortByStem(JpgFiles(listing)).Success?
    ensures var matched := MatchedRows(BuildTable(lines).value, SortByStem(JpgFiles(listing)).value);
      var catalogue := ZipSpec(lines, listing).value.catalogue;
      && |matched| <= |catalogue|
      && (forall i :: 0 <= i < |matched| ==>
            catalogue[i].key == matched[i].key && catalogue[i].entry == matched[i].entry && IsFound(catalogue[i]))
      && (forall i :: |matched| <= i < |catalogue| ==> catalogue[i].entry.None?)
  {
    var table := BuildTable(lines).value;
    var files := SortByStem(JpgFiles(listing)).value;
    MatchedRowsShape(table, files);
    KeptFilesListed(listing, files);
    assert NonEmptyDigests(files) by {
      forall j | 0 <= j < |files| ensures files[j].digest != "" {
        assert files[j] in files;
      }
    }
    CatalogueRows(MatchedRows(table, files), files);
  }
}
