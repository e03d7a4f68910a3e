/**
 * `image-clip-tool/json_generator_with_tag.py`, the batch step: decode every blob of a
 * batch, hash every blob, embed the decoded images with CLIP, and emit one JSON record
 * per position of the zip of file names, hashes and vectors that did not fail to decode.
 *
 * PIL decoding, SHA-256 and the CLIP model are outside the model: each blob carries
 * its decoding outcome and its hex digest, and the embedding is a function parameter.
 */
module ClipBatch {
  import opened Util

  /** The CLIP model the records name. */
  const ModelName: string := "ViT-L/14"

  /** An embedding, as the list of floats `tolist()` returns. */
  type Vector = seq<real>

  /** A decoded RGB image. */
  datatype Picture = Picture(rgb: seq<int>)

  /** What `Image.open(...).convert("RGB")` does with a blob: an image, or an exception's message. */
  datatype Decoded = Decoded(picture: Picture) | Unreadable(message: string)

  /** One entry of `batch_data`: its decoding outcome and its SHA-256 hex digest. */
  datatype Blob = Blob(decoded: Decoded, digest: string)

  /** An entry of `conversion_errors`: `(idx, str(e))`. */
  datatype ConversionError = ConversionError(index: nat, message: string)

  // ---------------------------------------------------------------- convert_images

  /** `converted_images`: the decoded images, in batch order. */
  function Converted(batch: seq<Blob>): seq<Picture> {
    if batch == [] then []
    else
      var last := batch[|batch| - 1];
      Converted(batch[..|batch| - 1]) + (if last.decoded.Decoded? then [last.decoded.picture] else [])
  }

  /** The batch positions that decoded, ascending. */
  function OkIndices(batch: seq<Blob>): seq<nat> {
    if batch == [] then []
    else
      OkIndices(batch[..|batch| - 1]) + (if batch[|batch| - 1].decoded.Decoded? then [|batch| - 1] else [])
  }

  /** `errors`: position and message of every blob that failed to decode, in batch order. */
  function Failures(batch: seq<Blob>): seq<ConversionError> {
    if batch == [] then []
    else
      var last := batch[|batch| - 1];
      Failures(batch[..|batch| - 1]) +
        (if last.decoded.Unreadable? then [ConversionError(|batch| - 1, last.decoded.message)] else [])
  }

  /** `[error[0] for error in conversion_errors]`, as a set. */
  function FailedIndexes(errors: seq<ConversionError>): set<nat> {
    set e | e in errors :: e.index
  }

  lemma PrefixOfSnoc<T>(s: seq<T>, n: nat)
    requires n < |s|
    ensures s[..n + 1][..n] == s[..n] && s[..n + 1][n] == s[n]
  {
  }

  /** The `convert_images` loop. */
  method ConvertImages(batch: seq<Blob>) returns (converted: seq<Picture>, errors: seq<ConversionError>)
    ensures converted == Converted(batch) && errors == Failures(batch)
  {
    converted := [];
    errors := [];
    for idx := 0 to |batch|
      invariant converted == Converted(batch[..idx]) && errors == Failures(batch[..idx])
    {
      PrefixOfSnoc(batch, idx);
      match batch[idx].decoded
      case Decoded(image) =>
        converted := converted + [image];
      case Unreadable(e) =>
        errors := errors + [ConversionError(idx, e)];
    }
    assert batch[..|batch|] == batch;
  }

  /**
   * The converted images are the pictures of the positions that decoded, in ascending
   * position order, and a position is among them exactly when its blob decodes.
   */
  lemma {:induction false} OkIndicesShape(batch: seq<Blob>)
    ensures |Converted(batch)| == |OkIndices(batch)|
    ensures forall k :: 0 <= k < |OkIndices(batch)| ==>
      OkIndices(batch)[k] < |batch| && batch[OkIndices(batch)[k]].decoded == Decoded(Converted(batch)[k])
    ensures forall k, m :: 0 <= k < m < |OkIndices(batch)| ==> OkIndices(batch)[k] < OkIndices(batch)[m]
    ensures forall i :: 0 <= i < |batch| ==> (i in OkIndices(batch) <==> batch[i].decoded.Decoded?)
  {
    if batch != [] {
      var front := batch[..|batch| - 1];
      OkIndicesShape(front);
      assert forall i :: 0 <= i < |front| ==> batch[i] == front[i];
    }
  }

  /** Each error names a position whose blob does not decode, with its message; the positions ascend strictly. */
  lemma {:induction false} FailuresShape(batch: seq<Blob>)
    ensures forall k :: 0 <= k < |Failures(batch)| ==>
      Failures(batch)[k].index < |batch| && batch[Failures(batch)[k].index].decoded == Unreadable(Failures(batch)[k].message)
    ensures forall k, m :: 0 <= k < m < |Failures(batch)| ==> Failures(batch)[k].index < Failures(batch)[m].index
  {
    if batch != [] {
      var front := batch[..|batch| - 1];
      FailuresShape(front);
      assert forall i :: 0 <= i < |front| ==> batch[i] == front[i];
    }
  }

  /** The errors name exactly the positions whose blob does not decode. */
  lemma {:induction false} FailedIndexesExact(batch: seq<Blob>)
    ensures forall i :: 0 <= i < |batch| ==> (i in FailedIndexes(Failures(batch)) <==> batch[i].decoded.Unreadable?)
  {
    if batch != [] {
      var front := batch[..|batch| - 1];
      FailedIndexesExact(front);
      FailuresShape(front);
      var last := batch[|batch| - 1];
      var extra := if last.decoded.Unreadable? then [ConversionError(|batch| - 1, last.decoded.message)] else [];
      assert FailedIndexes(Failures(batch)) == FailedIndexes(Failures(front)) + FailedIndexes(extra);
      forall i | 0 <= i < |batch|
        ensures i in FailedIndexes(Failures(batch)) <==> batch[i].decoded.Unreadable?
      {
        if i < |front| {
          assert batch[i] == front[i];
          assert i !in FailedIndexes(extra);
        } else {
          assert |front| !in FailedIndexes(Failures(front));
        }
      }
    }
  }

  /** Every position lands on exactly one side: decoded or failed. */
  lemma {:induction false} ConversionCounts(batch: seq<Blob>)
    ensures |OkIndices(batch)| + |Failures(batch)| == |batch|
  {
    if batch != [] {
      ConversionCounts(batch[..|batch| - 1]);
    }
  }

  // ---------------------------------------------------------------- compute_sha256, process_images

  /** `compute_sha256`: one digest per blob, in batch order. */
  function Hashes(batch: seq<Blob>): (r: seq<string>)
    ensures |r| == |batch| && forall i :: 0 <= i < |batch| ==> r[i] == batch[i].digest
  {
    seq(|batch|, i requires 0 <= i < |batch| => batch[i].digest)
  }

  /**
   * `process_images`: one embedding per converted image, in order; `torch.stack` of an
   * empty list raises, so a batch where nothing decoded fails.
   */
  function ProcessImages(images: seq<Picture>, encode: Picture -> Vector): (r: Result<seq<Vector>, string>)
    ensures r.Failure? <==> images == []
    ensures r.Success? ==> |r.value| == |images| && forall k :: 0 <= k < |images| ==> r.value[k] == encode(images[k])
  {
    if images == [] then Failure("stack expects a non-empty TensorList")
    else Success(seq(|images|, k requires 0 <= k < |images| => encode(images[k])))
  }

  // ---------------------------------------------------------------- paths

  /** The position of the last `/`, if any. */
  function LastSlash(p: string): (r: Option<nat>)
    ensures r.Some? ==> r.value < |p| && p[r.value] == '/' && forall j :: r.value < j < |p| ==> p[j] != '/'
    ensures r.None? ==> forall j :: 0 <= j < |p| ==> p[j] != '/'
  {
    if p == [] then None
    else if p[|p| - 1] == '/' then Some(|p| - 1)
    else LastSlash(p[..|p| - 1])
  }

  /** `os.path.basename`: the text after the last `/`. */
  function Basename(p: string): string {
    match LastSlash(p)
    case None => p
    case Some(i) => p[i + 1..]
  }

  function StripTrailingSlashes(p: string): string {
    if p != [] && p[|p| - 1] == '/' then StripTrailingSlashes(p[..|p| - 1]) else p
  }

  predicate AllSlashes(p: string) {
    forall j :: 0 <= j < |p| ==> p[j] == '/'
  }

  /** `os.path.dirname`: up to the last `/`, without trailing slashes unless it is all slashes. */
  function Dirname(p: string): string {
    var head := match LastSlash(p) case None => "" case Some(i) => p[..i + 1];
    if head != [] && !AllSlashes(head) then StripTrailingSlashes(head) else head
  }

  /** `os.path.join(a, b)`: `b` when absolute, otherwise `a` and `b` with one `/` between them. */
  function Join(a: string, b: string): string {
    if b != [] && b[0] == '/' then b
    else if a == [] || a[|a| - 1] == '/' then a + b
    else a + "/" + b
  }

  /** A `/` with no `/` after it is the last one. */
  lemma {:induction false} LastSlashAt(p: string, k: nat)
    requires k < |p| && p[k] == '/' && forall j :: k < j < |p| ==> p[j] != '/'
    ensures LastSlash(p) == Some(k)
  {
    if k < |p| - 1 {
      var q := p[..|p| - 1];
      assert q[k] == '/';
      LastSlashAt(q, k);
    }
  }

  /**
   * For an archive path that does not end in `/` and a member name without `/`, the
   * record's `file_path` is the archive path and the joined path's basename is the name.
   */
  lemma JoinPlainName(dir: string, name: string)
    requires dir != [] && dir[|dir| - 1] != '/'
    requires forall j :: 0 <= j < |name| ==> name[j] != '/'
    ensures Dirname(Join(dir, name)) == dir && Basename(Join(dir, name)) == name
  {
    var p := Join(dir, name);
    assert p == dir + "/" + name;
    LastSlashAt(p, |dir|);
    var head := p[..|dir| + 1];
    assert head == dir + "/";
    assert !AllSlashes(head) by {
      assert head[|dir| - 1] != '/';
    }
    assert head[..|head| - 1] == dir;
    assert StripTrailingSlashes(head) == StripTrailingSlashes(dir) == dir;
    assert Dirname(p) == StripTrailingSlashes(head);
    assert p[|dir| + 1..] == name;
  }

  // ---------------------------------------------------------------- process_and_append_images

  /** One JSON record of `image_data`. */
  datatype ClipRecord = ClipRecord(
    fileArchive: string, fileName: string, filePath: string, fileHash: string,
    clipModel: string, clipVector: Vector, tag: string)

  function MakeRecord(zipPath: string, name: string, hash: string, vector: Vector, tag: string): ClipRecord {
    ClipRecord(Basename(zipPath), name, Dirname(Join(zipPath, name)), hash, ModelName, vector, tag)
  }

  /** The length of `zip` over three lists. */
  function Min3(a: nat, b: nat, c: nat): (m: nat)
    ensures m <= a && m <= b && m <= c && (m == a || m == b || m == c)
  {
    if a <= b && a <= c then a else if b <= c then b else c
  }

  /** The positions `0 .. n-1` of the zip whose index is not a failed one, ascending. */
  function KeptPositions(n: nat, failed: set<nat>): (r: seq<nat>)
    ensures forall k :: 0 <= k < |r| ==> r[k] < n && r[k] !in failed
    ensures forall k, m :: 0 <= k < m < |r| ==> r[k] < r[m]
    ensures forall i :: 0 <= i < n && i !in failed ==> i in r
  {
    if n == 0 then []
    else KeptPositions(n - 1, failed) + (if n - 1 in failed then [] else [n - 1])
  }

  /** The records of the given zip positions, in order. */
  function RecordsAt(ps: seq<nat>, names: seq<string>, hashes: seq<string>, vectors: seq<Vector>, zipPath: string, tag: string): seq<ClipRecord>
    requires forall k :: 0 <= k < |ps| ==> ps[k] < |names| && ps[k] < |hashes| && ps[k] < |vectors|
  {
    seq(|ps|, k requires 0 <= k < |ps| => MakeRecord(zipPath, names[ps[k]], hashes[ps[k]], vectors[ps[k]], tag))
  }

  lemma RecordsAtSnoc(ps: seq<nat>, i: nat, names: seq<string>, hashes: seq<string>, vectors: seq<Vector>, zipPath: string, tag: string)
    requires forall k :: 0 <= k < |ps| ==> ps[k] < |names| && ps[k] < |hashes| && ps[k] < |vectors|
    requires i < |names| && i < |hashes| && i < |vectors|
    ensures RecordsAt(ps + [i], names, hashes, vectors, zipPath, tag) ==
      RecordsAt(ps, names, hashes, vectors, zipPath, tag) + [MakeRecord(zipPath, names[i], hashes[i], vectors[i], tag)]
  {
  }

  /**
   * The records as written: `zip(file_names, image_hashes, clip_vectors)` pairs the
   * three lists by position, and a position is skipped when it is a failed index.
   */
  function AsWrittenRecords(names: seq<string>, hashes: seq<string>, vectors: seq<Vector>, failed: set<nat>, zipPath: string, tag: string): seq<ClipRecord> {
    RecordsAt(KeptPositions(Min3(|names|, |hashes|, |vectors|), failed), names, hashes, vectors, zipPath, tag)
  }

  /** An entry of the returned errors: `(idx, file_names[idx], error)`. */
  datatype NamedError = NamedError(index: nat, fileName: string, message: string)

  /**
   * The comprehension that names the errors; `file_names[idx]` raises for the first
   * failed index past the end of `file_names`.
   */
  function NameErrors(errors: seq<ConversionError>, names: seq<string>): (r: Result<seq<NamedError>, nat>)
    ensures r.Success? <==> forall k :: 0 <= k < |errors| ==> errors[k].index < |names|
    ensures r.Success? ==> |r.value| == |errors| && forall k :: 0 <= k < |errors| ==>
      r.value[k] == NamedError(errors[k].index, names[errors[k].index], errors[k].message)
    ensures r.Failure? ==> exists k | 0 <= k < |errors| ::
      errors[k].index == r.error >= |names| && (forall m :: 0 <= m < k ==> errors[m].index < |names|)
  {
    if errors == [] then Success([])
    else if errors[0].index >= |names| then Failure(errors[0].index)
    else
      match NameErrors(errors[1..], names)
      case Failure(i) =>
        assert forall m :: 1 <= m < |errors| ==> errors[m] == errors[1..][m - 1];
        Failure(i)
      case Success(rest) =>
        Success([NamedError(errors[0].index, names[errors[0].index], errors[0].message)] + rest)
  }

  /** The value `process_and_append_images` returns: the records, `len(batch_data)` and the named errors. */
  datatype BatchOutput = BatchOutput(records: seq<ClipRecord>, count: nat, errors: seq<NamedError>)

  /** Where the call raises: `torch.stack([])`, or a failed index with no file name. */
  datatype BatchFailure = EmptyStack(message: string) | NameIndexOutOfRange(index: nat)

  /** `process_and_append_images` as written. */
  function ProcessAndAppendSpec(batch: seq<Blob>, names: seq<string>, encode: Picture -> Vector, zipPath: string, tag: string): Result<BatchOutput, BatchFailure> {
    var failures := Failures(batch);
    match ProcessImages(Converted(batch), encode)
    case Failure(message) => Failure(EmptyStack(message))
    case Success(vectors) =>
      var records := AsWrittenRecords(names, Hashes(batch), vectors, FailedIndexes(failures), zipPath, tag);
      match NameErrors(failures, names)
      case Failure(i) => Failure(NameIndexOutOfRange(i))
      case Success(named) => Success(BatchOutput(records, |batch|, named))
  }

  lemma KeptPositionsStep(idx: nat, failed: set<nat>)
    ensures KeptPositions(idx + 1, failed) == KeptPositions(idx, failed) + (if idx in failed then [] else [idx])
  {
  }

  /** One more zip position adds its record unless it is a failed index. */
  lemma RecordsStep(idx: nat, names: seq<string>, hashes: seq<string>, vectors: seq<Vector>, failed: set<nat>, zipPath: string, tag: string)
    requires idx < |names| && idx < |hashes| && idx < |vectors|
    ensures RecordsAt(KeptPositions(idx + 1, failed), names, hashes, vectors, zipPath, tag) ==
      RecordsAt(KeptPositions(idx, failed), names, hashes, vectors, zipPath, tag) +
        (if idx in failed then [] else [MakeRecord(zipPath, names[idx], hashes[idx], vectors[idx], tag)])
  {
    KeptPositionsStep(idx, failed);
    if idx !in failed {
      RecordsAtSnoc(KeptPositions(idx, failed), idx, names, hashes, vectors, zipPath, tag);
    }
  }

  /** The loop over `zip(file_names, image_hashes, clip_vectors)` that skips the failed indexes. */
  method CollectRecords(names: seq<string>, hashes: seq<string>, vectors: seq<Vector>, failed: set<nat>, zipPath: string, tag: string)
    returns (imageData: seq<ClipRecord>)
    ensures imageData == AsWrittenRecords(names, hashes, vectors, failed, zipPath, tag)
  {
    var n := Min3(|names|, |hashes|, |vectors|);
    imageData := [];
    for idx := 0 to n
      invariant imageData == RecordsAt(KeptPositions(idx, failed), names, hashes, vectors, zipPath, tag)
    {
      RecordsStep(idx, names, hashes, vectors, failed, zipPath, tag);
      if idx !in failed {
        imageData := imageData + [MakeRecord(zipPath, names[idx], hashes[idx], vectors[idx], tag)];
      }
    }
  }

  method ProcessAndAppendImages(batch: seq<Blob>, names: seq<string>, encode: Picture -> Vector, zipPath: string, tag: string)
    returns (r: Result<BatchOutput, BatchFailure>)
    ensures r == ProcessAndAppendSpec(batch, names, encode, zipPath, tag)
    ensures r.Success? ==> r.value.count == |batch|
  {
    var converted, conversionErrors := ConvertImages(batch);
    var imageHashes := Hashes(batch);
    var stacked := ProcessImages(converted, encode);
    if stacked.Failure? {
      return Failure(EmptyStack(stacked.error));
    }
    var clipVectors := stacked.value;
    var failed := FailedIndexes(conversionErrors);
    var imageData := CollectRecords(names, imageHashes, clipVectors, failed, zipPath, tag);
    var named := NameErrors(conversionErrors, names);
    if named.Failure? {
      return Failure(NameIndexOutOfRange(named.error));
    }
    r := Success(BatchOutput(imageData, |batch|, named.value));
  }

  /**
   * The records as written, position by position: the `k`-th record is built from the
   * `k`-th zip position that did not fail, with that position's name and hash, the
   * vector at that position of the converted images, the model name and the tag; there
   * are at most as many records as names, blobs and converted images.
   */
  lemma AsWrittenRecordsShape(batch: seq<Blob>, names: seq<string>, encode: Picture -> Vector, zipPath: string, tag: string)
    requires ProcessAndAppendSpec(batch, names, encode, zipPath, tag).Success?
    ensures var records := ProcessAndAppendSpec(batch, names, encode, zipPath, tag).value.records;
      var ps := KeptPositions(Min3(|names|, |batch|, |Converted(batch)|), FailedIndexes(Failures(batch)));
      && |records| == |ps| <= Min3(|names|, |batch|, |Converted(batch)|)
      && forall k :: 0 <= k < |ps| ==>
        && ps[k] < |batch| && batch[ps[k]].decoded.Decoded?
        && records[k].fileName == names[ps[k]] && records[k].fileHash == batch[ps[k]].digest
        && records[k].clipVector == encode(Converted(batch)[ps[k]])
        && records[k].clipModel == ModelName && records[k].tag == tag
  {
    FailedIndexesExact(batch);
    var ps := KeptPositions(Min3(|names|, |batch|, |Converted(batch)|), FailedIndexes(Failures(batch)));
    assert forall k, m :: 0 <= k < m < |ps| ==> ps[k] < ps[m];
    StrictlyAscendingBound(ps, Min3(|names|, |batch|, |Converted(batch)|));
  }

  /** A strictly ascending list of numbers below `n` has at most `n` entries. */
  lemma {:induction false} StrictlyAscendingBound(ps: seq<nat>, n: nat)
    requires forall k :: 0 <= k < |ps| ==> ps[k] < n
    requires forall k, m :: 0 <= k < m < |ps| ==> ps[k] < ps[m]
    ensures |ps| <= n
  {
    if ps != [] {
      var front := ps[..|ps| - 1];
      assert forall k :: 0 <= k < |front| ==> front[k] < ps[|ps| - 1];
      StrictlyAscendingBound(front, ps[|ps| - 1]);
    }
  }

  /** Without failures every blob's picture is converted, in place. */
  lemma {:induction false} AllDecodedConverted(batch: seq<Blob>)
    requires forall i :: 0 <= i < |batch| ==> batch[i].decoded.Decoded?
    ensures |Converted(batch)| == |batch| && Failures(batch) == []
    ensures forall i :: 0 <= i < |batch| ==> Converted(batch)[i] == batch[i].decoded.picture
  {
    if batch != [] {
      var front := batch[..|batch| - 1];
      assert forall i :: 0 <= i < |front| ==> front[i] == batch[i];
      AllDecodedConverted(front);
    }
  }

  lemma {:induction false} KeptPositionsNoneFailed(n: nat, failed: set<nat>)
    requires forall i :: 0 <= i < n ==> i !in failed
    ensures KeptPositions(n, failed) == seq(n, i => i)
  {
    if n > 0 {
      KeptPositionsNoneFailed(n - 1, failed);
      assert seq(n - 1, i => i) + [n - 1] == seq(n, i => i);
    }
  }

  /**
   * When every blob decodes, record `i` pairs name `i`, the digest of blob `i` and the
   * embedding of picture `i`, with the model name and the tag, for every position up to
   * the shorter of the names and the batch; no error is returned and the count is the
   * batch size.
   */
  lemma NoFailuresAligned(batch: seq<Blob>, names: seq<string>, encode: Picture -> Vector, zipPath: string, tag: string)
    requires batch != [] && forall i :: 0 <= i < |batch| ==> batch[i].decoded.Decoded?
    ensures ProcessAndAppendSpec(batch, names, encode, zipPath, tag).Success?
    ensures var out := ProcessAndAppendSpec(batch, names, encode, zipPath, tag).value;
      && out.errors == [] && out.count == |batch|
      && |out.records| == (if |names| < |batch| then |names| else |batch|)
      && forall i :: 0 <= i < |out.records| ==>
        out.records[i] == MakeRecord(zipPath, names[i], batch[i].digest, encode(batch[i].decoded.picture), tag)
  {
    AllDecodedConverted(batch);
    var n := Min3(|names|, |batch|, |Converted(batch)|);
    assert FailedIndexes(Failures(batch)) == {};
    KeptPositionsNoneFailed(n, {});
  }

  /**
   * The errors returned by a call that did not raise: one per blob that failed to
   * decode, in ascending position order, each with that position's file name and the
   * decoder's message.
   */
  lemma ReturnedErrorsNamed(batch: seq<Blob>, names: seq<string>, encode: Picture -> Vector, zipPath: string, tag: string)
    requires ProcessAndAppendSpec(batch, names, encode, zipPath, tag).Success?
    ensures var errors := ProcessAndAppendSpec(batch, names, encode, zipPath, tag).value.errors;
      && (forall k :: 0 <= k < |errors| ==>
            && errors[k].index < |batch| && errors[k].index < |names|
            && errors[k].fileName == names[errors[k].index]
            && batch[errors[k].index].decoded == Unreadable(errors[k].message))
      && (forall k, m :: 0 <= k < m < |errors| ==> errors[k].index < errors[m].index)
      && (forall i :: 0 <= i < |batch| && batch[i].decoded.Unreadable? ==> exists k :: 0 <= k < |errors| && errors[k].index == i)
  {
    assert NameErrors(Failures(batch), names).Success?;
    NamedFailures(batch, names);
  }

  /** The named errors of a batch, when every failed index has a name. */
  lemma NamedFailures(batch: seq<Blob>, names: seq<string>)
    requires NameErrors(Failures(batch), names).Success?
    ensures var errors := NameErrors(Failures(batch), names).value;
      && (forall k :: 0 <= k < |errors| ==>
            && errors[k].index < |batch| && errors[k].index < |names|
            && errors[k].fileName == names[errors[k].index]
            && batch[errors[k].index].decoded == Unreadable(errors[k].message))
      && (forall k, m :: 0 <= k < m < |errors| ==> errors[k].index < errors[m].index)
      && (forall i :: 0 <= i < |batch| && batch[i].decoded.Unreadable? ==> exists k :: 0 <= k < |errors| && errors[k].index == i)
  {
    FailuresShape(batch);
    var failures := Failures(batch);
    var errors := NameErrors(failures, names).value;
    forall i | 0 <= i < |batch| && batch[i].decoded.Unreadable?
      ensures exists k :: 0 <= k < |errors| && errors[k].index == i
    {
      var k := FailureAt(batch, i);
      assert errors[k].index == i;
    }
  }

  /** The position of the error a blob that does not decode gets. */
  lemma FailureAt(batch: seq<Blob>, i: nat) returns (k: nat)
    requires i < |batch| && batch[i].decoded.Unreadable?
    ensures k < |Failures(batch)| && Failures(batch)[k].index == i
  {
    FailedIndexesExact(batch);
    var failures := Failures(batch);
    assert i in FailedIndexes(failures);
    var e :| e in failures && e.index == i;
    k :| 0 <= k < |failures| && failures[k] == e;
  }

  /** A batch of three blobs whose first one does not decode. */
  const Sample: seq<Blob> := [Blob(Unreadable("cannot identify image file"), "h0"),
                              Blob(Decoded(Picture([7])), "h1"),
                              Blob(Decoded(Picture([7, 7])), "h2")]

  lemma SampleConversion()
    ensures Converted(Sample) == [Picture([7]), Picture([7, 7])]
    ensures Failures(Sample) == [ConversionError(0, "cannot identify image file")]
    ensures FailedIndexes(Failures(Sample)) == {0}
  {
    var b := Sample;
    var b1 := b[..1];
    var b2 := b[..2];
    assert b1 == [b[0]] && b1[..0] == [];
    assert Converted(b1) == [] && Failures(b1) == [ConversionError(0, "cannot identify image file")];
    assert b2 == b1 + [b[1]] && b2[..1] == b1;
    assert Converted(b2) == [Picture([7])] && Failures(b2) == Failures(b1);
    assert b == b2 + [b[2]] && b[..2] == b2;
    assert Failures(b) == Failures(b2);
    assert FailedIndexes(Failures(b)) == {0};
  }

  /**
   * The zip pairs position `idx` of the names and hashes with position `idx` of the
   * converted images. When blob 0 fails to decode, the one record, that of `1.jpg`,
   * carries the embedding of blob 2's picture, and blob 2 gets no record.
   */
  lemma AsWrittenShiftsVectors(encode: Picture -> Vector)
    ensures var out := ProcessAndAppendSpec(Sample, SampleNames, encode, "shards/a.zip", "tag");
      && out.Success?
      && out.value.records == [MakeRecord("shards/a.zip", "1.jpg", "h1", encode(Picture([7, 7])), "tag")]
  {
    SampleConversion();
    var vectors := SampleVectors(encode);
    SampleRecords(vectors);
    SampleNamed();
  }

  /** The file names of the sample batch. */
  const SampleNames: seq<string> := ["0.jpg", "1.jpg", "2.jpg"]

  lemma SampleVectors(encode: Picture -> Vector) returns (vectors: seq<Vector>)
    requires Converted(Sample) == [Picture([7]), Picture([7, 7])]
    ensures ProcessImages(Converted(Sample), encode) == Success(vectors)
    ensures vectors == [encode(Picture([7])), encode(Picture([7, 7]))]
  {
    vectors := ProcessImages(Converted(Sample), encode).value;
  }

  lemma SampleRecords(vectors: seq<Vector>)
    requires |vectors| == 2
    ensures AsWrittenRecords(SampleNames, Hashes(Sample), vectors, {0}, "shards/a.zip", "tag") ==
      [MakeRecord("shards/a.zip", "1.jpg", "h1", vectors[1], "tag")]
  {
    assert Min3(|SampleNames|, |Hashes(Sample)|, |vectors|) == 2;
    SampleKept();
    assert Hashes(Sample)[1] == "h1";
  }

  lemma SampleKept()
    ensures KeptPositions(2, {0}) == [1]
  {
    assert KeptPositions(1, {0}) == [];
  }

  lemma SampleNamed()
    requires Failures(Sample) == [ConversionError(0, "cannot identify image file")]
    ensures NameErrors(Failures(Sample), SampleNames).Success?
  {
  }

  // ---------------------------------------------------------------- the corrected alignment

  /**
   * The intended records: the `k`-th vector belongs to the `k`-th position that decoded,
   * so each decoded position with a file name gets its own name, hash and vector.
   */
  function AlignedRecords(oks: seq<nat>, names: seq<string>, hashes: seq<string>, vectors: seq<Vector>, zipPath: string, tag: string): seq<ClipRecord>
    requires |vectors| == |oks| && forall k :: 0 <= k < |oks| ==> oks[k] < |hashes|
  {
    if oks == [] then []
    else
      var k := |oks| - 1;
      AlignedRecords(oks[..k], names, hashes, vectors[..k], zipPath, tag) +
        (if oks[k] < |names| then [MakeRecord(zipPath, names[oks[k]], hashes[oks[k]], vectors[k], tag)] else [])
  }

  /** `process_and_append_images` with the vectors matched to the positions that decoded. */
  function ProcessAndAppendAligned(batch: seq<Blob>, names: seq<string>, encode: Picture -> Vector, zipPath: string, tag: string): Result<BatchOutput, BatchFailure> {
    var failures := Failures(batch);
    match ProcessImages(Converted(batch), encode)
    case Failure(message) => Failure(EmptyStack(message))
    case Success(vectors) =>
      OkIndicesShape(batch);
      var records := AlignedRecords(OkIndices(batch), names, Hashes(batch), vectors, zipPath, tag);
      match NameErrors(failures, names)
      case Failure(i) => Failure(NameIndexOutOfRange(i))
      case Success(named) => Success(BatchOutput(records, |batch|, named))
  }

  /** Record `r` describes one input: a decoded blob with a file name, its digest and its own picture's embedding. */
  ghost predicate DescribesInput(batch: seq<Blob>, names: seq<string>, encode: Picture -> Vector, zipPath: string, tag: string, r: ClipRecord) {
    exists i :: 0 <= i < |batch| && i < |names| && batch[i].decoded.Decoded? &&
      r == MakeRecord(zipPath, names[i], batch[i].digest, encode(batch[i].decoded.picture), tag)
  }

  /** The precondition on the decoded positions and their vectors, kept by every prefix. */
  ghost predicate VectorsOfDecoded(batch: seq<Blob>, encode: Picture -> Vector, oks: seq<nat>, vectors: seq<Vector>) {
    |vectors| == |oks| &&
    forall k :: 0 <= k < |oks| ==>
      oks[k] < |batch| && batch[oks[k]].decoded.Decoded? && vectors[k] == encode(batch[oks[k]].decoded.picture)
  }

  lemma VectorsOfDecodedPrefix(batch: seq<Blob>, encode: Picture -> Vector, oks: seq<nat>, vectors: seq<Vector>, n: nat)
    requires VectorsOfDecoded(batch, encode, oks, vectors) && n <= |oks|
    ensures VectorsOfDecoded(batch, encode, oks[..n], vectors[..n])
  {
    assert forall k :: 0 <= k < n ==> oks[..n][k] == oks[k] && vectors[..n][k] == vectors[k];
  }

  /** Every aligned record describes one decoded input with a file name. */
  lemma {:induction false} AlignedRecordsDescribed(batch: seq<Blob>, names: seq<string>, encode: Picture -> Vector, zipPath: string, tag: string,
                                                   oks: seq<nat>, vectors: seq<Vector>)
    requires VectorsOfDecoded(batch, encode, oks, vectors)
    ensures forall r :: r in AlignedRecords(oks, names, Hashes(batch), vectors, zipPath, tag) ==>
      DescribesInput(batch, names, encode, zipPath, tag, r)
  {
    if oks != [] {
      var n := |oks| - 1;
      VectorsOfDecodedPrefix(batch, encode, oks, vectors, n);
      AlignedRecordsDescribed(batch, names, encode, zipPath, tag, oks[..n], vectors[..n]);
      var i := oks[n];
      var before := AlignedRecords(oks[..n], names, Hashes(batch), vectors[..n], zipPath, tag);
      forall r | r in AlignedRecords(oks, names, Hashes(batch), vectors, zipPath, tag)
        ensures DescribesInput(batch, names, encode, zipPath, tag, r)
      {
        if r !in before {
          assert i < |names| && r == MakeRecord(zipPath, names[i], Hashes(batch)[i], vectors[n], tag);
          assert r == MakeRecord(zipPath, names[i], batch[i].digest, encode(batch[i].decoded.picture), tag);
        }
      }
    }
  }

  /** Every decoded position with a file name gets the record of its own name, digest and picture. */
  lemma {:induction false} AlignedRecordsComplete(batch: seq<Blob>, names: seq<string>, encode: Picture -> Vector, zipPath: string, tag: string,
                                                  oks: seq<nat>, vectors: seq<Vector>)
    requires VectorsOfDecoded(batch, encode, oks, vectors)
    ensures forall k :: 0 <= k < |oks| && oks[k] < |names| ==>
      MakeRecord(zipPath, names[oks[k]], batch[oks[k]].digest, encode(batch[oks[k]].decoded.picture), tag)
        in AlignedRecords(oks, names, Hashes(batch), vectors, zipPath, tag)
  {
    if oks != [] {
      var n := |oks| - 1;
      VectorsOfDecodedPrefix(batch, encode, oks, vectors, n);
      AlignedRecordsComplete(batch, names, encode, zipPath, tag, oks[..n], vectors[..n]);
      var records := AlignedRecords(oks, names, Hashes(batch), vectors, zipPath, tag);
      var before := AlignedRecords(oks[..n], names, Hashes(batch), vectors[..n], zipPath, tag);
      assert forall r :: r in before ==> r in records;
      forall k | 0 <= k < |oks| && oks[k] < |names|
        ensures MakeRecord(zipPath, names[oks[k]], batch[oks[k]].digest, encode(batch[oks[k]].decoded.picture), tag) in records
      {
        if k < n {
          assert oks[..n][k] == oks[k];
        } else {
          assert Hashes(batch)[oks[n]] == batch[oks[n]].digest;
        }
      }
    }
  }

  /**
   * With the vectors matched to the positions that decoded, every record describes one
   * input consistently (its name, its digest and the embedding of its own picture), and
   * every decoded input that has a file name gets its record.
   */
  lemma AlignedRecordsDescribeInputs(batch: seq<Blob>, names: seq<string>, encode: Picture -> Vector, zipPath: string, tag: string)
    requires ProcessAndAppendAligned(batch, names, encode, zipPath, tag).Success?
    ensures var records := ProcessAndAppendAligned(batch, names, encode, zipPath, tag).value.records;
      && (forall r :: r in records ==> DescribesInput(batch, names, encode, zipPath, tag, r))
      && (forall i :: 0 <= i < |batch| && i < |names| && batch[i].decoded.Decoded? ==>
            MakeRecord(zipPath, names[i], batch[i].digest, encode(batch[i].decoded.picture), tag) in records)
  {
    OkIndicesShape(batch);
    var oks := OkIndices(batch);
    var vectors := ProcessImages(Converted(batch), encode).value;
    AlignedRecordsDescribed(batch, names, encode, zipPath, tag, oks, vectors);
    AlignedRecordsComplete(batch, names, encode, zipPath, tag, oks, vectors);
    forall i | 0 <= i < |batch| && i < |names| && batch[i].decoded.Decoded?
      ensures MakeRecord(zipPath, names[i], batch[i].digest, encode(batch[i].decoded.picture), tag)
        in ProcessAndAppendAligned(batch, names, encode, zipPath, tag).value.records
    {
      assert i in oks;
      var k :| 0 <= k < |oks| && oks[k] == i;
    }
  }
}
