/**
 * How the scripts turn a directory listing into the list they pack: the extension
 * filters (three different ones) and the sort by the integer value of the file stem.
 */
module Listing {
  import opened Util
  import opened FileNames
  import opened Sorting

  /** `name.endswith('.jpg') or name.endswith('.png')`, case-sensitive (image_sorter.py). */
  predicate HasImageSuffix(name: string) {
    EndsWith(name, ".jpg") || EndsWith(name, ".png")
  }

  /** `name.split('.')[-1] in ['jpg', 'png']` (ava-tools scripts). */
  predicate AllowedExtension(name: string) {
    LastSegment(name) == "jpg" || LastSegment(name) == "png"
  }

  /**
   * The zip generator's and the converter's test, as written: a name is skipped when
   * `not lower.endswith('.jpg') or lower.endswith('.png')`, so it is kept when neither holds.
   */
  predicate KeptAsWritten(name: string) {
    !(!EndsWith(Lower(name), ".jpg") || EndsWith(Lower(name), ".png"))
  }

  /**
   * `not` binds tighter than `or`: the test keeps exactly the names ending in `.jpg` in
   * any letter case, and never a `.png` file.
   */
  lemma KeptAsWrittenIsJpgOnly(name: string)
    ensures KeptAsWritten(name) <==> EndsWith(Lower(name), ".jpg")
    ensures EndsWith(Lower(name), ".png") ==> !KeptAsWritten(name)
  {
  }

  /** The listing entries the zip generator and the converter keep, in listing order. */
  function JpgFiles(listing: seq<DiskFile>): seq<DiskFile> {
    if listing == [] then []
    else
      var last := listing[|listing| - 1];
      JpgFiles(listing[..|listing| - 1]) + (if KeptAsWritten(last.name) then [last] else [])
  }

  /** The kept files are exactly the listing entries the test keeps. */
  lemma {:induction false} JpgFilesMembers(listing: seq<DiskFile>)
    ensures forall f :: f in JpgFiles(listing) <==> f in listing && KeptAsWritten(f.name)
  {
    if listing != [] {
      var last := listing[|listing| - 1];
      var front := listing[..|listing| - 1];
      JpgFilesMembers(front);
      assert listing == front + [last];
    }
  }

  /** The filter loop over `os.listdir` that appends each kept name to `files`. */
  method CollectJpg(listing: seq<DiskFile>) returns (files: seq<DiskFile>)
    ensures files == JpgFiles(listing)
  {
    files := [];
    for i := 0 to |listing|
      invariant files == JpgFiles(listing[..i])
    {
      assert listing[..i + 1][..i] == listing[..i];
      if !KeptAsWritten(listing[i].name) {
        continue;
      }
      files := files + [listing[i]];
    }
    assert listing[..|listing|] == listing;
  }

  /** The kept files are listing entries. */
  lemma KeptFilesListed(listing: seq<DiskFile>, files: seq<DiskFile>)
    requires multiset(files) == multiset(JpgFiles(listing))
    ensures forall f :: f in files ==> f in listing
  {
    JpgFilesMembers(listing);
    assert forall f :: f in files ==> f in multiset(JpgFiles(listing));
  }

  /** `file.split('.')[-1]` being `jpg`/`png` means the name ends in `.jpg`/`.png` or is exactly `jpg`/`png`. */
  lemma AllowedExtensionShape(name: string)
    requires AllowedExtension(name)
    ensures HasImageSuffix(name) || name == "jpg" || name == "png"
  {
    var e := LastSegment(name);
    LastSegmentShape(name);
    var n := |name|;
    if |e| < n {
      var tail := name[n - 4..];
      assert tail[0] == '.' && tail[1..] == name[n - 3..] == e;
      assert tail == ['.'] + e;
    } else {
      assert name == name[n - |e|..] == e;
    }
  }

  /**
   * After the ava-tools filter, `file.lower().endswith('json')` cannot hold: the name ends
   * in `g`, not in `n`. The manifest generator's `.json` removal branch is dead code.
   */
  lemma JsonBranchUnreachable(name: string)
    requires AllowedExtension(name)
    ensures !EndsWith(Lower(name), "json")
  {
    var e := LastSegment(name);
    LastSegmentShape(name);
    assert name[|name| - 1] == e[|e| - 1] == 'g';
    assert Lower(name)[|name| - 1] == 'g';
  }

  /** The key `int(name.split('.')[0])` when the stem is a plain run of ASCII digits, `None` otherwise. */
  function StemValue(name: string): Option<nat> {
    ParseDecimal(Stem(name))
  }

  predicate StemsParse(files: seq<DiskFile>) {
    forall i :: 0 <= i < |files| ==> StemValue(files[i].name).Some?
  }

  /** The sort key of a file whose stem parses (`-1` stands for no key and is never compared). */
  function StemKey(f: DiskFile): int {
    match StemValue(f.name)
    case Some(v) => v
    case None => -1
  }

  predicate StemLe(a: DiskFile, b: DiskFile) {
    StemKey(a) <= StemKey(b)
  }

  lemma StemLeIsTotalPreorder()
    ensures TotalPreorder(StemLe)
  {
  }

  /** The first file, in list order, whose stem does not parse. */
  function FirstBadStem(files: seq<DiskFile>): (i: nat)
    requires !StemsParse(files)
    ensures i < |files| && StemValue(files[i].name).None?
    ensures forall j :: 0 <= j < i ==> StemValue(files[j].name).Some?
  {
    if StemValue(files[0].name).None? then 0
    else
      assert !StemsParse(files[1..]) by {
        var j :| 0 <= j < |files| && StemValue(files[j].name).None?;
        assert files[1..][j - 1] == files[j];
      }
      1 + FirstBadStem(files[1..])
  }

  /**
   * `sorted(files, key=lambda x: int(x.split('.')[0]))`: ascending by stem value, a
   * permutation of the input, files of equal stem value in their input order (`sorted` is
   * stable). The model stops on a stem that is not a plain run of digits, naming that file.
   */
  function SortByStem(files: seq<DiskFile>): (r: Result<seq<DiskFile>, string>)
    ensures r.Success? <==> StemsParse(files)
    ensures r.Success? ==> SortedBy(r.value, StemLe) && multiset(r.value) == multiset(files)
    ensures r.Success? ==> forall f :: Ties(r.value, f, StemLe) == Ties(files, f, StemLe)
    ensures r.Failure? ==> exists i :: 0 <= i < |files| && r.error == files[i].name && StemValue(files[i].name).None?
  {
    if StemsParse(files) then
      StemLeIsTotalPreorder();
      Success(Sort(files, StemLe))
    else
      var i := FirstBadStem(files);
      Failure(files[i].name)
  }

  /** Sorted by `StemLe` with every stem parsed means ascending stem values. */
  lemma SortedStemsAscend(files: seq<DiskFile>)
    requires SortedBy(files, StemLe) && StemsParse(files)
    ensures forall i, j :: 0 <= i < j < |files| ==>
      StemValue(files[i].name).value <= StemValue(files[j].name).value
  {
    forall i, j | 0 <= i < j < |files|
      ensures StemValue(files[i].name).value <= StemValue(files[j].name).value
    {
      assert StemLe(files[i], files[j]);
    }
  }
}
