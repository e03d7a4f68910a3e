/**
 * File-name conventions shared by the scripts: the numeric stem used as sort and
 * lookup key, the text after the last dot, case folding for extension tests, decimal
 * printing and parsing, `zfill` and the `dataset-ava-NNN` shard names.
 */
module FileNames {
  import opened Util

  /** A file as the scripts see it: its name, its byte length and the hex SHA-256 of its bytes. */
  datatype DiskFile = DiskFile(name: string, size: nat, digest: string)

  /** `name.split('.')[0]`: the text before the first dot (all of it if there is none). */
  function Stem(name: string): string {
    if name == [] || name[0] == '.' then [] else [name[0]] + Stem(name[1..])
  }

  /** The stem is a dot-free prefix of the name, followed by a dot when it is not the whole name. */
  lemma {:induction false} StemShape(name: string)
    ensures Stem(name) <= name && '.' !in Stem(name)
    ensures |Stem(name)| < |name| ==> name[|Stem(name)|] == '.'
  {
    if name != [] && name[0] != '.' {
      StemShape(name[1..]);
    }
  }

  /** `name.split('.')[-1]`: the text after the last dot, or the whole name if it has none. */
  function LastSegment(name: string): string {
    if name == [] || name[|name| - 1] == '.' then []
    else LastSegment(name[..|name| - 1]) + [name[|name| - 1]]
  }

  /** The last segment is a dot-free suffix of the name, preceded by a dot when it is not the whole name. */
  lemma {:induction false} LastSegmentShape(name: string)
    ensures var r := LastSegment(name);
      |r| <= |name| && r == name[|name| - |r|..] && '.' !in r
    ensures var r := LastSegment(name);
      |r| < |name| ==> name[|name| - |r| - 1] == '.'
  {
    if name != [] && name[|name| - 1] != '.' {
      var front := name[..|name| - 1];
      var c := name[|name| - 1];
      LastSegmentShape(front);
      var r := LastSegment(front);
      assert LastSegment(name) == r + [c];
      assert name == front + [c];
      assert name[|name| - |r| - 1..] == front[|front| - |r|..] + [c];
      assert |r| < |front| ==> name[|name| - |r| - 2] == front[|front| - |r| - 1];
    }
  }

  predicate EndsWith(s: string, suffix: string) {
    |suffix| <= |s| && s[|s| - |suffix|..] == suffix
  }

  /** `str.lower()` restricted to ASCII letters. */
  function LowerChar(c: char): char {
    if 'A' <= c <= 'Z' then (c as int + 32) as char else c
  }

  function Lower(s: string): string {
    seq(|s|, i requires 0 <= i < |s| => LowerChar(s[i]))
  }

  predicate AllDigits(s: string) {
    forall i :: 0 <= i < |s| ==> '0' <= s[i] <= '9'
  }

  function DigitsValue(s: string): nat
    requires AllDigits(s)
  {
    if s == [] then 0 else DigitsValue(s[..|s| - 1]) * 10 + (s[|s| - 1] as int - '0' as int)
  }

  /**
   * `int(s)` on a non-empty run of ASCII digits, `None` on anything else. Python's `int`
   * also reads a sign, surrounding whitespace, underscores between digits and non-ASCII
   * decimal digits; the model treats such strings as unreadable.
   */
  function ParseDecimal(s: string): Option<nat> {
    if s != [] && AllDigits(s) then Some(DigitsValue(s)) else None
  }

  function DigitChar(d: nat): char
    requires d < 10
  {
    ('0' as int + d) as char
  }

  /** `str(n)` for a natural number. */
  function DecimalString(n: nat): (r: string)
    ensures r != [] && AllDigits(r)
    ensures n < 10 ==> |r| == 1
    ensures 10 <= n < 100 ==> |r| == 2
    ensures 100 <= n < 1000 ==> |r| == 3
  {
    if n < 10 then [DigitChar(n)] else DecimalString(n / 10) + [DigitChar(n % 10)]
  }

  /** Printing a number and reading it back with `int` gives the number. */
  lemma {:induction false} DecimalRoundTrip(n: nat)
    ensures ParseDecimal(DecimalString(n)) == Some(n)
  {
    var s := DecimalString(n);
    if n < 10 {
      assert s[..0] == [];
    } else {
      DecimalRoundTrip(n / 10);
      assert s[..|s| - 1] == DecimalString(n / 10);
      assert DigitsValue(s) == (n / 10) * 10 + n % 10;
    }
  }

  function Zeros(k: nat): string {
    seq(k, _ => '0')
  }

  lemma {:induction false} ZerosAreDigits(k: nat)
    ensures AllDigits(Zeros(k)) && DigitsValue(Zeros(k)) == 0
  {
    if k > 0 {
      ZerosAreDigits(k - 1);
      assert Zeros(k)[..k - 1] == Zeros(k - 1);
    }
  }

  /** Leading zeros do not change the value `int` reads. */
  lemma {:induction false} LeadingZeros(k: nat, s: string)
    requires AllDigits(s)
    ensures AllDigits(Zeros(k) + s)
    ensures DigitsValue(Zeros(k) + s) == DigitsValue(s)
  {
    var t := Zeros(k) + s;
    ZerosAreDigits(k);
    if s == [] {
      assert t == Zeros(k);
    } else {
      LeadingZeros(k, s[..|s| - 1]);
      assert t[..|t| - 1] == Zeros(k) + s[..|s| - 1];
    }
  }

  /** `s.zfill(width)` for a digit string: pad on the left with '0' up to `width`. */
  function ZFill(s: string, width: nat): string
  {
    if |s| >= width then s else Zeros(width - |s|) + s
  }

  const ShardPrefix: string := "dataset-ava-"

  /** Shard `k` is named `dataset-ava-` followed by `str(k).zfill(3)`. */
  function ShardName(k: nat): string {
    ShardPrefix + ZFill(DecimalString(k), 3)
  }

  /** Reads a shard number back out of a shard name. */
  function ShardIndexOf(name: string): Option<nat> {
    if |ShardPrefix| <= |name| && name[..|ShardPrefix|] == ShardPrefix
    then ParseDecimal(name[|ShardPrefix|..])
    else None
  }

  /**
   * The shard number can be read back from the shard name, so names of distinct shards
   * differ; shards 0..999 get exactly three digits after the prefix.
   */
  lemma ShardNameRoundTrip(k: nat)
    ensures ShardIndexOf(ShardName(k)) == Some(k)
    ensures k < 1000 ==> |ShardName(k)| == |ShardPrefix| + 3
    ensures forall j: nat :: j != k ==> ShardName(j) != ShardName(k)
  {
    forall j: nat ensures ShardIndexOf(ShardName(j)) == Some(j) {
      var d := DecimalString(j);
      DecimalRoundTrip(j);
      if |d| < 3 {
        LeadingZeros(3 - |d|, d);
      }
      assert ShardName(j)[|ShardPrefix|..] == ZFill(d, 3);
    }
  }
}
