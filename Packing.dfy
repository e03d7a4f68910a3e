/**
 * Streaming shard packing. The scripts walk a sorted file list keeping a running byte
 * total; the first file that makes the total cross 500 000 000 closes a shard that
 * runs from the open shard's first file up to and including that file; a final shard
 * takes what is left, but only when the leftover total is non-zero.
 *
 * `Packing` is the reference definition, stated per shard ("the shard starting at
 * `start` ends at the first position where its own sum crosses the limit") rather than
 * as a running total; the loops of the scripts are proved equal to it.
 */
module Packing {
  import opened Util
  import opened FileNames

  /** The 500 MB shard threshold, in bytes. */
  const Limit: nat := 500000000

  /** The image sorters cut when the total is `> Limit`, the zip generator when it is `>= Limit`. */
  datatype CutRule = Exceeds | Reaches

  predicate Crosses(total: nat, rule: CutRule) {
    match rule
    case Exceeds => total > Limit
    case Reaches => total >= Limit
  }

  /** Sum of `sizes[lo..hi]`. */
  function SpanSum(sizes: seq<nat>, lo: nat, hi: nat): nat
    requires lo <= hi <= |sizes|
    decreases hi - lo
  {
    if lo == hi then 0 else SpanSum(sizes, lo, hi - 1) + sizes[hi - 1]
  }

  /** Shard number `index` holds positions `first..last` (inclusive) and `bytes` bytes. */
  datatype Shard = Shard(index: nat, first: nat, last: nat, bytes: nat)

  /**
   * For a shard opened at `start`, the first position `c >= from` whose inclusion makes
   * the shard's sum cross the limit, if any.
   */
  function FirstCrossing(sizes: seq<nat>, start: nat, from: nat, rule: CutRule): (c: Option<nat>)
    requires start <= from <= |sizes|
    ensures c.Some? ==> from <= c.value < |sizes| && Crosses(SpanSum(sizes, start, c.value + 1), rule)
    decreases |sizes| - from
  {
    if from == |sizes| then None
    else if Crosses(SpanSum(sizes, start, from + 1), rule) then Some(from)
    else FirstCrossing(sizes, start, from + 1, rule)
  }

  /** No prefix `sizes[start..e]` with `lo < e <= hi` crosses the limit. */
  ghost predicate NoCrossingIn(sizes: seq<nat>, start: nat, lo: nat, hi: nat, rule: CutRule)
    requires start <= lo && hi <= |sizes|
  {
    forall e :: lo < e <= hi ==> !Crosses(SpanSum(sizes, start, e), rule)
  }

  /** `FirstCrossing` is the first crossing: none happens before it, and none at all when it is `None`. */
  lemma {:induction false} FirstCrossingIsFirst(sizes: seq<nat>, start: nat, from: nat, rule: CutRule)
    requires start <= from <= |sizes|
    decreases |sizes| - from
    ensures match FirstCrossing(sizes, start, from, rule)
      case Some(c) => NoCrossingIn(sizes, start, from, c, rule)
      case None => NoCrossingIn(sizes, start, from, |sizes|, rule)
  {
    if from < |sizes| && !Crosses(SpanSum(sizes, start, from + 1), rule) {
      FirstCrossingIsFirst(sizes, start, from + 1, rule);
    }
  }

  /** The shards cut from `sizes[start..]`, numbered from `k`. */
  function Packing(sizes: seq<nat>, start: nat, k: nat, rule: CutRule): (p: seq<Shard>)
    requires start <= |sizes|
    ensures forall i :: 0 <= i < |p| ==> start <= p[i].first <= p[i].last < |sizes|
    decreases |sizes| - start
  {
    match FirstCrossing(sizes, start, start, rule)
    case Some(c) =>
      [Shard(k, start, c, SpanSum(sizes, start, c + 1))] + Packing(sizes, c + 1, k + 1, rule)
    case None =>
      var total := SpanSum(sizes, start, |sizes|);
      if total > 0 then [Shard(k, start, |sizes| - 1, total)] else []
  }

  /** The shard was closed by the first file whose inclusion made its sum cross the limit. */
  ghost predicate CutAtFirstCrossing(sizes: seq<nat>, s: Shard, rule: CutRule) {
    && s.first <= s.last < |sizes|
    && Crosses(SpanSum(sizes, s.first, s.last + 1), rule)
    && NoCrossingIn(sizes, s.first, s.first, s.last, rule)
  }

  /** One past the last position placed in a shard (`start` when there is no shard). */
  function Covered(p: seq<Shard>, start: nat): nat {
    if p == [] then start else p[|p| - 1].last + 1
  }

  /** Shard numbers are consecutive, starting at `k`. */
  ghost predicate NumberedFrom(p: seq<Shard>, k: nat) {
    forall i :: 0 <= i < |p| ==> p[i].index == k + i
  }

  /** The first shard opens at `start`, each next one right after the previous one. */
  ghost predicate Contiguous(p: seq<Shard>, start: nat) {
    && (|p| > 0 ==> p[0].first == start)
    && (forall i :: 0 < i < |p| ==> p[i].first == p[i - 1].last + 1)
  }

  /**
   * Every shard holds a positive number of bytes, equal to the sum of its files; every
   * shard but the last was cut on the first file that made its sum cross the limit; the
   * last one was cut the same way or runs to the end of the list without crossing.
   */
  ghost predicate CutAtThreshold(sizes: seq<nat>, p: seq<Shard>, rule: CutRule) {
    && (forall i :: 0 <= i < |p| ==>
          p[i].first <= p[i].last < |sizes| &&
          p[i].bytes == SpanSum(sizes, p[i].first, p[i].last + 1) && p[i].bytes > 0)
    && (forall i :: 0 <= i < |p| - 1 ==> CutAtFirstCrossing(sizes, p[i], rule))
    && (|p| > 0 ==>
          || CutAtFirstCrossing(sizes, p[|p| - 1], rule)
          || (p[|p| - 1].last == |sizes| - 1 && !Crosses(p[|p| - 1].bytes, rule)))
  }

  lemma {:induction false} PackingIndexes(sizes: seq<nat>, start: nat, k: nat, rule: CutRule)
    requires start <= |sizes|
    decreases |sizes| - start
    ensures NumberedFrom(Packing(sizes, start, k, rule), k)
  {
    var p := Packing(sizes, start, k, rule);
    match FirstCrossing(sizes, start, start, rule)
    case Some(c) =>
      var q := Packing(sizes, c + 1, k + 1, rule);
      PackingIndexes(sizes, c + 1, k + 1, rule);
      assert p == [p[0]] + q;
      forall i | 0 < i < |p| ensures p[i].index == k + i {
        assert p[i] == q[i - 1];
      }
    case None =>
  }

  lemma {:induction false} PackingContiguous(sizes: seq<nat>, start: nat, k: nat, rule: CutRule)
    requires start <= |sizes|
    decreases |sizes| - start
    ensures Contiguous(Packing(sizes, start, k, rule), start)
  {
    var p := Packing(sizes, start, k, rule);
    match FirstCrossing(sizes, start, start, rule)
    case Some(c) =>
      var q := Packing(sizes, c + 1, k + 1, rule);
      PackingContiguous(sizes, c + 1, k + 1, rule);
      assert p == [p[0]] + q;
      forall i | 1 < i < |p| ensures p[i].first == p[i - 1].last + 1 {
        assert p[i] == q[i - 1] && p[i - 1] == q[i - 2];
      }
    case None =>
  }

  /** Inductive step of `PackingThreshold`: the shard cut at `c` followed by the rest. */
  lemma ThresholdAfterCut(sizes: seq<nat>, start: nat, c: nat, k: nat, rule: CutRule)
    requires start <= c < |sizes|
    requires FirstCrossing(sizes, start, start, rule) == Some(c)
    requires CutAtThreshold(sizes, Packing(sizes, c + 1, k + 1, rule), rule)
    ensures CutAtThreshold(sizes, Packing(sizes, start, k, rule), rule)
  {
    var q := Packing(sizes, c + 1, k + 1, rule);
    var s0 := Shard(k, start, c, SpanSum(sizes, start, c + 1));
    assert Packing(sizes, start, k, rule) == [s0] + q;
    FirstCrossingIsFirst(sizes, start, start, rule);
    ThresholdCons(sizes, s0, q, rule);
  }

  /** Base case of `PackingThreshold`: the final shard, if any, never crosses. */
  lemma ThresholdWithoutCut(sizes: seq<nat>, start: nat, k: nat, rule: CutRule)
    requires start <= |sizes|
    requires FirstCrossing(sizes, start, start, rule).None?
    ensures CutAtThreshold(sizes, Packing(sizes, start, k, rule), rule)
  {
    var total := SpanSum(sizes, start, |sizes|);
    if total > 0 {
      FirstCrossingIsFirst(sizes, start, start, rule);
      assert start < |sizes|;
      assert !Crosses(total, rule);
    }
  }

  lemma {:induction false} PackingThreshold(sizes: seq<nat>, start: nat, k: nat, rule: CutRule)
    requires start <= |sizes|
    decreases |sizes| - start
    ensures CutAtThreshold(sizes, Packing(sizes, start, k, rule), rule)
  {
    match FirstCrossing(sizes, start, start, rule)
    case Some(c) =>
      PackingThreshold(sizes, c + 1, k + 1, rule);
      ThresholdAfterCut(sizes, start, c, k, rule);
    case None =>
      ThresholdWithoutCut(sizes, start, k, rule);
  }

  lemma ThresholdCons(sizes: seq<nat>, s: Shard, q: seq<Shard>, rule: CutRule)
    requires CutAtFirstCrossing(sizes, s, rule) && s.bytes == SpanSum(sizes, s.first, s.last + 1)
    requires CutAtThreshold(sizes, q, rule)
    ensures CutAtThreshold(sizes, [s] + q, rule)
  {
    var p := [s] + q;
    forall i | 0 < i < |p| ensures p[i] == q[i - 1] { }
    if q != [] {
      assert p[|p| - 1] == q[|q| - 1];
    }
  }

  lemma {:induction false} SpanSumZero(sizes: seq<nat>, lo: nat, hi: nat)
    requires lo <= hi <= |sizes| && SpanSum(sizes, lo, hi) == 0
    ensures forall j :: lo <= j < hi ==> sizes[j] == 0
  {
    if lo < hi {
      SpanSumZero(sizes, lo, hi - 1);
    }
  }

  /**
   * The positions left out of every shard are a trailing run of empty files: the
   * leftover total after the last cut was zero, so no final shard was made for them.
   */
  lemma {:induction false} PackingLeavesOnlyEmptyTail(sizes: seq<nat>, start: nat, k: nat, rule: CutRule)
    requires start <= |sizes|
    decreases |sizes| - start
    ensures var p := Packing(sizes, start, k, rule);
      && start <= Covered(p, start) <= |sizes|
      && forall j :: Covered(p, start) <= j < |sizes| ==> sizes[j] == 0
  {
    var p := Packing(sizes, start, k, rule);
    match FirstCrossing(sizes, start, start, rule)
    case Some(c) =>
      PackingLeavesOnlyEmptyTail(sizes, c + 1, k + 1, rule);
      var q := Packing(sizes, c + 1, k + 1, rule);
      assert Covered(p, start) == Covered(q, c + 1);
    case None =>
      if SpanSum(sizes, start, |sizes|) == 0 {
        SpanSumZero(sizes, start, |sizes|);
      }
  }

  /** The sizes of the files, in list order. */
  function Sizes(files: seq<DiskFile>): (r: seq<nat>)
    ensures |r| == |files|
  {
    seq(|files|, i requires 0 <= i < |files| => files[i].size)
  }

  /** The names of the files, in list order. */
  function Names(files: seq<DiskFile>): (r: seq<string>)
    ensures |r| == |files|
  {
    seq(|files|, i requires 0 <= i < |files| => files[i].name)
  }

  /**
   * An output directory: its number and the files placed in it, in placement order. On
   * disk it is named `Name()`, which `ShardNameRoundTrip` shows is distinct per number.
   */
  datatype ShardDir = ShardDir(number: nat, files: seq<string>) {
    function Name(): string {
      ShardName(number)
    }
  }

  /** The directory a shard becomes: number `s.index`, holding the shard's files in order. */
  function DirOf(names: seq<string>, s: Shard): ShardDir
    requires s.first <= s.last < |names|
  {
    ShardDir(s.index, names[s.first..s.last + 1])
  }

  /** The directories the shards become, in shard order. */
  function Layout(names: seq<string>, shards: seq<Shard>): seq<ShardDir>
    requires forall i :: 0 <= i < |shards| ==> shards[i].first <= shards[i].last < |names|
  {
    seq(|shards|, i requires 0 <= i < |shards| => DirOf(names, shards[i]))
  }

  /** All placed files, directory after directory. */
  function Flatten(dirs: seq<ShardDir>): seq<string> {
    if dirs == [] then [] else dirs[0].files + Flatten(dirs[1..])
  }

  lemma LayoutCons(names: seq<string>, s: Shard, rest: seq<Shard>)
    requires s.first <= s.last < |names|
    requires forall i :: 0 <= i < |rest| ==> rest[i].first <= rest[i].last < |names|
    ensures Layout(names, [s] + rest) == [DirOf(names, s)] + Layout(names, rest)
  {
    var all := [s] + rest;
    assert forall i :: 0 < i < |all| ==> all[i] == rest[i - 1];
  }

  lemma FlattenCons(d: ShardDir, dirs: seq<ShardDir>)
    ensures Flatten([d] + dirs) == d.files + Flatten(dirs)
  {
    assert ([d] + dirs)[1..] == dirs;
  }

  /** The loop's step without a cut: the open shard's first crossing is still ahead. */
  lemma NoCutStep(sizes: seq<nat>, start: nat, index: nat, rule: CutRule)
    requires start <= index < |sizes|
    requires FirstCrossing(sizes, start, start, rule) == FirstCrossing(sizes, start, index, rule)
    requires !Crosses(SpanSum(sizes, start, index + 1), rule)
    ensures FirstCrossing(sizes, start, start, rule) == FirstCrossing(sizes, start, index + 1, rule)
  {
  }

  /**
   * The loop's step at a cut: when the running total first crosses at `index`, the open
   * shard is the next one of the packing, and what remains is the packing from `index + 1`.
   */
  lemma CutStep(names: seq<string>, sizes: seq<nat>, start: nat, index: nat, k: nat, rule: CutRule,
                dirs: seq<ShardDir>, goal: seq<ShardDir>)
    requires |names| == |sizes| && start <= index < |sizes|
    requires FirstCrossing(sizes, start, start, rule) == FirstCrossing(sizes, start, index, rule)
    requires Crosses(SpanSum(sizes, start, index + 1), rule)
    requires dirs + Layout(names, Packing(sizes, start, k, rule)) == goal
    ensures (dirs + [ShardDir(k, names[start..index + 1])])
      + Layout(names, Packing(sizes, index + 1, k + 1, rule)) == goal
  {
    assert FirstCrossing(sizes, start, index, rule) == Some(index);
    var s0 := Shard(k, start, index, SpanSum(sizes, start, index + 1));
    var rest := Packing(sizes, index + 1, k + 1, rule);
    assert Packing(sizes, start, k, rule) == [s0] + rest;
    LayoutCons(names, s0, rest);
  }

  /** After the loop: one last directory for the rest, only when its total is non-zero. */
  lemma FinalStep(names: seq<string>, sizes: seq<nat>, start: nat, k: nat, rule: CutRule,
                  dirs: seq<ShardDir>, goal: seq<ShardDir>)
    requires |names| == |sizes| && start <= |sizes|
    requires FirstCrossing(sizes, start, start, rule) == FirstCrossing(sizes, start, |sizes|, rule)
    requires dirs + Layout(names, Packing(sizes, start, k, rule)) == goal
    ensures SpanSum(sizes, start, |sizes|) > 0 ==> dirs + [ShardDir(k, names[start..])] == goal
    ensures SpanSum(sizes, start, |sizes|) == 0 ==> dirs == goal
  {
    var total := SpanSum(sizes, start, |sizes|);
    if total > 0 {
      var s0 := Shard(k, start, |sizes| - 1, total);
      assert Packing(sizes, start, k, rule) == [s0] + [];
      LayoutCons(names, s0, []);
      assert names[start..] == names[start..|sizes| - 1 + 1];
    } else {
      assert dirs + [] == dirs;
    }
  }

  lemma SliceSplit<T>(s: seq<T>, a: nat, b: nat, c: nat)
    requires a <= b <= c <= |s|
    ensures s[a..c] == s[a..b] + s[b..c]
  {
  }

  /** Placing one more shard in front keeps the directories reading as a slice of the list. */
  lemma PlacedCons(names: seq<string>, s: Shard, q: seq<Shard>)
    requires s.first <= s.last < |names|
    requires forall i :: 0 <= i < |q| ==> q[i].first <= q[i].last < |names|
    requires s.last + 1 <= Covered(q, s.last + 1) <= |names|
    requires Flatten(Layout(names, q)) == names[s.last + 1..Covered(q, s.last + 1)]
    ensures Flatten(Layout(names, [s] + q)) == names[s.first..Covered(q, s.last + 1)]
  {
    var d := DirOf(names, s);
    LayoutCons(names, s, q);
    var e := Covered(q, s.last + 1);
    FlattenCons(d, Layout(names, q));
    SliceSplit(names, s.first, s.last + 1, e);
  }

  lemma CoveredCons(s: Shard, q: seq<Shard>)
    ensures Covered([s] + q, s.first) == Covered(q, s.last + 1)
  {
    if q != [] {
      assert ([s] + q)[|q|] == q[|q| - 1];
    }
  }

  /** The directories of `Packing(sizes, start, k, rule)` read as `names[start..end]`. */
  ghost predicate PlacedInOrder(names: seq<string>, sizes: seq<nat>, start: nat, k: nat, rule: CutRule)
    requires |names| == |sizes| && start <= |sizes|
  {
    var p := Packing(sizes, start, k, rule);
    start <= Covered(p, start) <= |sizes| &&
    Flatten(Layout(names, p)) == names[start..Covered(p, start)]
  }

  /** Inductive step of `PackingPlacesInOrder`: a cut at `c` followed by the rest. */
  lemma PlacedAfterCut(names: seq<string>, sizes: seq<nat>, start: nat, c: nat, k: nat, rule: CutRule)
    requires |names| == |sizes| && start <= c < |sizes|
    requires FirstCrossing(sizes, start, start, rule) == Some(c)
    requires PlacedInOrder(names, sizes, c + 1, k + 1, rule)
    ensures PlacedInOrder(names, sizes, start, k, rule)
  {
    var p := Packing(sizes, start, k, rule);
    var q := Packing(sizes, c + 1, k + 1, rule);
    var s0 := Shard(k, start, c, SpanSum(sizes, start, c + 1));
    assert p == [s0] + q;
    CoveredCons(s0, q);
    PlacedCons(names, s0, q);
  }

  /** Base case of `PackingPlacesInOrder`: no crossing from `start` on. */
  lemma PlacedWithoutCut(names: seq<string>, sizes: seq<nat>, start: nat, k: nat, rule: CutRule)
    requires |names| == |sizes| && start <= |sizes|
    requires FirstCrossing(sizes, start, start, rule).None?
    ensures PlacedInOrder(names, sizes, start, k, rule)
  {
    var p := Packing(sizes, start, k, rule);
    if SpanSum(sizes, start, |sizes|) > 0 {
      var s0 := Shard(k, start, |sizes| - 1, SpanSum(sizes, start, |sizes|));
      assert p == [s0] + [];
      CoveredCons(s0, []);
      PlacedCons(names, s0, []);
    }
  }

  /**
   * Reading the shard directories in order gives back the sorted list from `start` up to
   * the covered end: no file is placed twice, none is reordered, and only the empty tail
   * of `PackingLeavesOnlyEmptyTail` is missing.
   */
  lemma {:induction false} PackingPlacesInOrder(names: seq<string>, sizes: seq<nat>, start: nat, k: nat, rule: CutRule)
    requires |names| == |sizes| && start <= |sizes|
    decreases |sizes| - start
    ensures PlacedInOrder(names, sizes, start, k, rule)
  {
    match FirstCrossing(sizes, start, start, rule)
    case Some(c) =>
      PackingPlacesInOrder(names, sizes, c + 1, k + 1, rule);
      PlacedAfterCut(names, sizes, start, c, k, rule);
    case None =>
      PlacedWithoutCut(names, sizes, start, k, rule);
  }

  /**
   * When every file has a positive size, every file lands in exactly one shard, in
   * sorted order and with no gap: the directories read in order are the whole list.
   */
  lemma PositiveSizesAllPlaced(names: seq<string>, sizes: seq<nat>, rule: CutRule)
    requires |names| == |sizes|
    requires forall j :: 0 <= j < |sizes| ==> sizes[j] > 0
    ensures Flatten(Layout(names, Packing(sizes, 0, 0, rule))) == names
  {
    var p := Packing(sizes, 0, 0, rule);
    PackingLeavesOnlyEmptyTail(sizes, 0, 0, rule);
    PackingPlacesInOrder(names, sizes, 0, 0, rule);
    if |sizes| > 0 {
      assert sizes[|sizes| - 1] > 0;
    }
    assert names[0..|names|] == names;
  }

  /**
   * Sizes 1, 1, 1 000 000 000, 1 make two shards under either rule, not three: the
   * oversized file is added to the open shard before the test, so it closes that shard.
   */
  lemma OversizedFileJoinsOpenShard(rule: CutRule)
    ensures Packing([1, 1, 1000000000, 1], 0, 0, rule)
      == [Shard(0, 0, 2, 1000000002), Shard(1, 3, 3, 1)]
  {
    var sizes: seq<nat> := [1, 1, 1000000000, 1];
    assert SpanSum(sizes, 0, 1) == 1;
    assert SpanSum(sizes, 0, 2) == 2;
    assert SpanSum(sizes, 0, 3) == 1000000002;
    assert FirstCrossing(sizes, 0, 0, rule) == Some(2);
    assert SpanSum(sizes, 3, 4) == 1;
    assert FirstCrossing(sizes, 3, 3, rule) == None;
  }

  /**
   * The state of the packing loop after `index` files: the open shard starts at `start`
   * and holds `total` bytes, its first crossing (if any) is not before `index`, and the
   * directories made so far followed by the packing of the rest are the whole packing.
   */
  ghost predicate LoopState(sizes: seq<nat>, names: seq<string>, rule: CutRule,
                            index: nat, start: nat, total: nat, dirs: seq<ShardDir>)
  {
    && |names| == |sizes|
    && start <= index <= |sizes|
    && total == SpanSum(sizes, start, index)
    && FirstCrossing(sizes, start, start, rule) == FirstCrossing(sizes, start, index, rule)
    && dirs + Layout(names, Packing(sizes, start, |dirs|, rule)) == Layout(names, Packing(sizes, 0, 0, rule))
  }

  lemma LoopStart(sizes: seq<nat>, names: seq<string>, rule: CutRule)
    requires |names| == |sizes|
    ensures LoopState(sizes, names, rule, 0, 0, 0, [])
  {
    assert [] + Layout(names, Packing(sizes, 0, 0, rule)) == Layout(names, Packing(sizes, 0, 0, rule));
  }

  /** One file added to the open shard without crossing. */
  lemma LoopKeep(sizes: seq<nat>, names: seq<string>, rule: CutRule,
                 index: nat, start: nat, total: nat, dirs: seq<ShardDir>)
    requires LoopState(sizes, names, rule, index, start, total, dirs) && index < |sizes|
    requires !Crosses(total + sizes[index], rule)
    ensures LoopState(sizes, names, rule, index + 1, start, total + sizes[index], dirs)
  {
    NoCutStep(sizes, start, index, rule);
  }

  /** One file added to the open shard, which crosses: the shard becomes the next directory. */
  lemma LoopCut(sizes: seq<nat>, names: seq<string>, rule: CutRule,
                index: nat, start: nat, total: nat, dirs: seq<ShardDir>)
    requires LoopState(sizes, names, rule, index, start, total, dirs) && index < |sizes|
    requires Crosses(total + sizes[index], rule)
    ensures LoopState(sizes, names, rule, index + 1, index + 1, 0,
                      dirs + [ShardDir(|dirs|, names[start..index + 1])])
  {
    CutStep(names, sizes, start, index, |dirs|, rule, dirs, Layout(names, Packing(sizes, 0, 0, rule)));
  }

  /** After the last file: the rest becomes one more directory only if it is non-empty in bytes. */
  lemma LoopEnd(sizes: seq<nat>, names: seq<string>, rule: CutRule,
                start: nat, total: nat, dirs: seq<ShardDir>)
    requires LoopState(sizes, names, rule, |sizes|, start, total, dirs)
    ensures total > 0 ==> dirs + [ShardDir(|dirs|, names[start..])] == Layout(names, Packing(sizes, 0, 0, rule))
    ensures total == 0 ==> dirs == Layout(names, Packing(sizes, 0, 0, rule))
  {
    FinalStep(names, sizes, start, |dirs|, rule, dirs, Layout(names, Packing(sizes, 0, 0, rule)));
  }

  /**
   * The same loop seen at the level of shards: the shards closed so far followed by the
   * packing of the rest (numbered on from them) are the whole packing.
   */
  ghost predicate CutState(sizes: seq<nat>, rule: CutRule, index: nat, start: nat, total: nat, shards: seq<Shard>) {
    && start <= index <= |sizes|
    && total == SpanSum(sizes, start, index)
    && FirstCrossing(sizes, start, start, rule) == FirstCrossing(sizes, start, index, rule)
    && shards + Packing(sizes, start, |shards|, rule) == Packing(sizes, 0, 0, rule)
  }

  lemma CutBegin(sizes: seq<nat>, rule: CutRule)
    ensures CutState(sizes, rule, 0, 0, 0, [])
  {
    assert [] + Packing(sizes, 0, 0, rule) == Packing(sizes, 0, 0, rule);
  }

  lemma CutKeep(sizes: seq<nat>, rule: CutRule, index: nat, start: nat, total: nat, shards: seq<Shard>)
    requires CutState(sizes, rule, index, start, total, shards) && index < |sizes|
    requires !Crosses(total + sizes[index], rule)
    ensures CutState(sizes, rule, index + 1, start, total + sizes[index], shards)
  {
    NoCutStep(sizes, start, index, rule);
  }

  /** The shard closed at `index` is the next shard of the packing. */
  lemma CutClose(sizes: seq<nat>, rule: CutRule, index: nat, start: nat, total: nat, shards: seq<Shard>)
    requires CutState(sizes, rule, index, start, total, shards) && index < |sizes|
    requires Crosses(total + sizes[index], rule)
    ensures CutState(sizes, rule, index + 1, index + 1, 0,
                     shards + [Shard(|shards|, start, index, total + sizes[index])])
  {
    var k := |shards|;
    assert FirstCrossing(sizes, start, index, rule) == Some(index);
    var s0 := Shard(k, start, index, SpanSum(sizes, start, index + 1));
    var rest := Packing(sizes, index + 1, k + 1, rule);
    assert Packing(sizes, start, k, rule) == [s0] + rest;
    assert (shards + [s0]) + rest == shards + ([s0] + rest);
  }

  /** After the last position: the open shard is the last one of the packing when it holds bytes. */
  lemma CutFinish(sizes: seq<nat>, rule: CutRule, start: nat, total: nat, shards: seq<Shard>)
    requires CutState(sizes, rule, |sizes|, start, total, shards)
    ensures total > 0 ==> start < |sizes|
    ensures total > 0 ==> shards + [Shard(|shards|, start, |sizes| - 1, total)] == Packing(sizes, 0, 0, rule)
    ensures total == 0 ==> shards == Packing(sizes, 0, 0, rule)
  {
    if total > 0 {
      assert Packing(sizes, start, |shards|, rule) == [Shard(|shards|, start, |sizes| - 1, total)];
    } else {
      assert shards + [] == shards;
    }
  }

  /** The shards closed so far are the first shards of the packing. */
  lemma CutStateShards(sizes: seq<nat>, rule: CutRule, index: nat, start: nat, total: nat, shards: seq<Shard>)
    requires CutState(sizes, rule, index, start, total, shards)
    ensures |shards| <= |Packing(sizes, 0, 0, rule)|
    ensures forall i :: 0 <= i < |shards| ==> shards[i] == Packing(sizes, 0, 0, rule)[i]
    ensures forall i :: 0 <= i < |shards| ==> shards[i].first <= shards[i].last < |sizes|
  {
    var all := Packing(sizes, 0, 0, rule);
    assert forall i :: 0 <= i < |shards| ==> all[i] == (shards + Packing(sizes, start, |shards|, rule))[i];
  }

  /** Copy the names of `files[lo..hi]`, in order, as the loop over the open shard does. */
  method CollectNames(files: seq<DiskFile>, lo: nat, hi: nat) returns (moved: seq<string>)
    requires lo <= hi <= |files|
    ensures moved == Names(files)[lo..hi]
  {
    moved := [];
    for i := lo to hi
      invariant moved == Names(files)[lo..i]
    {
      moved := moved + [files[i].name];
    }
  }

  /**
   * The packing loop shared by both image sorters (cut on `> Limit`): move files
   * `start..index` into directory `directoryIndex` when the running total crosses, then
   * reset the total, move the start past the cut and count the directory; after the loop
   * make one last directory for the rest, only if the leftover total is non-zero.
   */
  method MoveIntoShards(files: seq<DiskFile>) returns (dirs: seq<ShardDir>)
    ensures dirs == Layout(Names(files), Packing(Sizes(files), 0, 0, Exceeds))
  {
    ghost var sizes := Sizes(files);
    ghost var names := Names(files);
    var total: nat := 0;
    var start := 0;
    var directoryIndex := 0;
    dirs := [];
    LoopStart(sizes, names, Exceeds);
    for index := 0 to |files|
      invariant directoryIndex == |dirs|
      invariant LoopState(sizes, names, Exceeds, index, start, total, dirs)
    {
      ghost var before := total;
      total := total + files[index].size;
      if total > Limit {
        LoopCut(sizes, names, Exceeds, index, start, before, dirs);
        var moved := CollectNames(files, start, index + 1);
        dirs := dirs + [ShardDir(directoryIndex, moved)];
        total := 0;
        start := index + 1;
        directoryIndex := directoryIndex + 1;
      } else {
        LoopKeep(sizes, names, Exceeds, index, start, before, dirs);
      }
    }
    LoopEnd(sizes, names, Exceeds, start, total, dirs);
    if total > 0 {
      var moved := CollectNames(files, start, |files|);
      dirs := dirs + [ShardDir(directoryIndex, moved)];
    }
  }
}
