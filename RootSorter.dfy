/**
 * `image_sorter.py`: keep the `.jpg`/`.png` names of the listing, sort them by stem
 * value and move them into `dataset-ava-NNN` directories of just over 500 MB each.
 * The listing (`os.listdir`) is an input, in whatever order the file system gives it,
 * with each file's byte length as read in the packing loop.
 */
module RootSorter {
  import opened Util
  import opened FileNames
  import opened Sorting
  import opened Listing
  import opened Packing

  /** `[file for file in files if file.endswith('.jpg') or file.endswith('.png')]`. */
  function ImageFiles(listing: seq<DiskFile>): (r: seq<DiskFile>)
    ensures forall f :: f in r <==> f in listing && HasImageSuffix(f.name)
    ensures multiset(r) <= multiset(listing)
  {
    if listing == [] then []
    else
      var last := listing[|listing| - 1];
      var front := listing[..|listing| - 1];
      assert listing == front + [last];
      ImageFiles(front) + (if HasImageSuffix(last.name) then [last] else [])
  }

  /**
   * The whole script: the packing of the sorted image list, or the name of the file
   * whose stem is not a plain run of digits.
   */
  method SortImages(listing: seq<DiskFile>) returns (r: Result<seq<ShardDir>, string>)
    ensures match SortByStem(ImageFiles(listing))
      case Success(files) => r == Success(Layout(Names(files), Packing.Packing(Sizes(files), 0, 0, Exceeds)))
      case Failure(name) => r == Failure(name)
  {
    var files := ImageFiles(listing);
    var sorted := SortByStem(files);
    match sorted
    case Failure(name) =>
      r := Failure(name);
    case Success(ordered) =>
      var dirs := MoveIntoShards(ordered);
      r := Success(dirs);
  }

  /**
   * Every image file with at least one byte is moved exactly once, in ascending stem
   * order; only zero-byte files after the last cut stay behind.
   */
  lemma SortedImagesPlaced(listing: seq<DiskFile>)
    requires SortByStem(ImageFiles(listing)).Success?
    ensures var files := SortByStem(ImageFiles(listing)).value;
      var p := Packing.Packing(Sizes(files), 0, 0, Exceeds);
      && multiset(files) == multiset(ImageFiles(listing))
      && Flatten(Layout(Names(files), p)) == Names(files)[..Covered(p, 0)]
      && forall j :: Covered(p, 0) <= j < |files| ==> files[j].size == 0
  {
    var files := SortByStem(ImageFiles(listing)).value;
    var p := Packing.Packing(Sizes(files), 0, 0, Exceeds);
    PackingPlacesInOrder(Names(files), Sizes(files), 0, 0, Exceeds);
    PackingLeavesOnlyEmptyTail(Sizes(files), 0, 0, Exceeds);
    assert Names(files)[0..Covered(p, 0)] == Names(files)[..Covered(p, 0)];
    forall j | Covered(p, 0) <= j < |files| ensures files[j].size == 0 {
      assert Sizes(files)[j] == 0;
    }
  }
}
