/**
 * `ava-tools/image_sorter.py`: keep the listing entries whose last dot-segment is
 * `jpg` or `png`, skip empty files and files the EXIF stripper cannot rewrite, sort
 * the rest by stem value and copy them into `dataset-ava-NNN` shards with the same
 * `> 500000000` rule as the root sorter.
 *
 * Rewriting an image through PIL is outside the model: each listing entry carries what
 * `remove_all_exif_data` does to it, either the byte length of the rewritten file or
 * the message of the exception it raises.
 */
module AvaSorter {
  import opened Util
  import opened FileNames
  import opened Sorting
  import opened Listing
  import opened Packing

  /** What `remove_all_exif_data` did to one file. */
  datatype ExifOutcome = Rewritten(newSize: nat) | Raised(message: string)

  /** A listing entry: the file as `os.stat` sees it, and what stripping its EXIF data does. */
  datatype Listed = Listed(file: DiskFile, exif: ExifOutcome)

  /** The three skip conditions of the filter loop, in their order. */
  predicate Accepted(e: Listed) {
    AllowedExtension(e.file.name) && e.file.size != 0 && e.exif.Rewritten?
  }

  /** The file as the packing loop later reads it: same name, rewritten length. */
  function Stripped(e: Listed): (g: DiskFile)
    requires e.exif.Rewritten?
    ensures g.name == e.file.name && g.size == e.exif.newSize
  {
    DiskFile(e.file.name, e.exif.newSize, e.file.digest)
  }

  /** `files_images` after the filter loop has seen `listing`. */
  function Collected(listing: seq<Listed>): seq<DiskFile> {
    if listing == [] then []
    else
      var last := listing[|listing| - 1];
      Collected(listing[..|listing| - 1])
        + (if Accepted(last) then [Stripped(last)] else [])
  }

  /** One more listing entry extends `Collected` by its rewritten form exactly when it is accepted. */
  lemma CollectedStep(listing: seq<Listed>, i: nat)
    requires i < |listing|
    ensures Collected(listing[..i + 1]) == Collected(listing[..i])
      + (if Accepted(listing[i]) then [Stripped(listing[i])] else [])
  {
    assert listing[..i + 1][..i] == listing[..i];
  }

  /** Every collected file is the rewritten form of an accepted listing entry ... */
  lemma {:induction false} CollectedSound(listing: seq<Listed>)
    ensures forall g :: g in Collected(listing) ==>
      exists j :: 0 <= j < |listing| && Accepted(listing[j]) && g == Stripped(listing[j])
  {
    if listing != [] {
      var front := listing[..|listing| - 1];
      CollectedSound(front);
      forall g | g in Collected(listing)
        ensures exists j :: 0 <= j < |listing| && Accepted(listing[j]) && g == Stripped(listing[j])
      {
        if g in Collected(front) {
          var j :| 0 <= j < |front| && Accepted(front[j]) && g == Stripped(front[j]);
          assert listing[j] == front[j];
        } else {
          assert g == Stripped(listing[|listing| - 1]);
        }
      }
    }
  }

  /** ... and every accepted entry is collected, in listing order. */
  lemma {:induction false} CollectedComplete(listing: seq<Listed>)
    ensures forall j :: 0 <= j < |listing| && Accepted(listing[j]) ==>
      Stripped(listing[j]) in Collected(listing)
  {
    if listing != [] {
      var n := |listing| - 1;
      var front := listing[..n];
      var last := listing[n];
      CollectedComplete(front);
      var before := Collected(front);
      var tail := if Accepted(last) then [Stripped(last)] else [];
      assert Collected(listing) == before + tail;
      forall j | 0 <= j < |listing| && Accepted(listing[j])
        ensures Stripped(listing[j]) in before + tail
      {
        if j < n {
          assert listing[j] == front[j];
          assert Stripped(listing[j]) in before;
        } else {
          assert Stripped(listing[j]) in tail;
        }
      }
    }
  }

  /** Every file that reaches the packing has at least one byte, provided a rewrite never yields an empty file. */
  lemma CollectedNonEmpty(listing: seq<Listed>)
    requires forall j :: 0 <= j < |listing| && listing[j].exif.Rewritten? ==> listing[j].exif.newSize > 0
    ensures forall g :: g in Collected(listing) ==> g.size > 0
  {
    CollectedSound(listing);
  }

  /** The filter loop of the script. */
  method CollectImages(listing: seq<Listed>) returns (kept: seq<DiskFile>)
    ensures kept == Collected(listing)
  {
    kept := [];
    var i := 0;
    while i < |listing|
      invariant 0 <= i <= |listing|
      invariant kept == Collected(listing[..i])
    {
      var file := listing[i].file;
      CollectedStep(listing, i);
      if !AllowedExtension(file.name) {
        i := i + 1;
        continue;
      }
      if file.size == 0 {
        i := i + 1;
        continue;
      }
      match listing[i].exif
      case Raised(_) =>
        i := i + 1;
        continue;
      case Rewritten(n) =>
        kept := kept + [DiskFile(file.name, n, file.digest)];
        i := i + 1;
    }
    assert listing[..i] == listing;
  }

  /** The whole script: the shards of the sorted kept files, or the file whose stem is not a plain run of digits. */
  method SortAvaImages(listing: seq<Listed>)
    returns (r: Result<seq<ShardDir>, string>)
    ensures match SortByStem(Collected(listing))
      case Success(files) => r == Success(Layout(Names(files), Packing.Packing(Sizes(files), 0, 0, Exceeds)))
      case Failure(name) => r == Failure(name)
  {
    var kept := CollectImages(listing);
    var sorted := SortByStem(kept);
    match sorted
    case Failure(name) =>
      r := Failure(name);
    case Success(ordered) =>
      var dirs := MoveIntoShards(ordered);
      r := Success(dirs);
  }

  /**
   * When rewritten files are never empty, every kept file is copied exactly once, and
   * the concatenated shard contents are the kept names in ascending stem order.
   */
  lemma EveryKeptImageCopied(listing: seq<Listed>)
    requires forall j :: 0 <= j < |listing| && listing[j].exif.Rewritten? ==> listing[j].exif.newSize > 0
    requires SortByStem(Collected(listing)).Success?
    ensures var files := SortByStem(Collected(listing)).value;
      && multiset(files) == multiset(Collected(listing))
      && Flatten(Layout(Names(files), Packing.Packing(Sizes(files), 0, 0, Exceeds))) == Names(files)
  {
    var files := SortByStem(Collected(listing)).value;
    var kept := Collected(listing);
    CollectedNonEmpty(listing);
    assert forall g :: g in multiset(files) ==> g in multiset(kept);
    PositiveSizesAllPlaced(Names(files), Sizes(files), Exceeds);
  }
}
