/**
 * Stable insertion sort under a total preorder. It stands for Python's `sorted(..., key=...)`
 * and pandas' `sort_values` / `sort_index` wherever the scripts sort a list or a table.
 */
module Sorting {

  ghost predicate TotalPreorder<T(!new)>(le: (T, T) -> bool) {
    && (forall a, b :: le(a, b) || le(b, a))
    && (forall a, b, c :: le(a, b) && le(b, c) ==> le(a, c))
  }

  ghost predicate SortedBy<T>(s: seq<T>, le: (T, T) -> bool) {
    forall i, j :: 0 <= i < j < |s| ==> le(s[i], s[j])
  }

  /** Puts `x` after every element of `s` that is not greater than it. */
  function Insert<T(!new)>(x: T, s: seq<T>, le: (T, T) -> bool): (r: seq<T>)
    requires TotalPreorder(le) && SortedBy(s, le)
    ensures SortedBy(r, le)
    ensures multiset(r) == multiset(s) + multiset{x}
    ensures |r| == |s| + 1
  {
    if s == [] then [x]
    else if le(s[0], x) then
      var rest := Insert(x, s[1..], le);
      assert s == [s[0]] + s[1..];
      assert forall y :: y in rest ==> le(s[0], y) by {
        forall y | y in rest ensures le(s[0], y) {
          assert y in multiset(rest);
          if y != x {
            assert y in multiset(s[1..]);
            var j :| 0 <= j < |s[1..]| && s[1..][j] == y;
            assert s[j + 1] == y;
          }
        }
      }
      [s[0]] + rest
    else
      [x] + s
  }

  /** The elements of `s` that `le` ranks equal to `k`, in their order in `s`. */
  function Ties<T>(s: seq<T>, k: T, le: (T, T) -> bool): seq<T> {
    if s == [] then []
    else (if le(k, s[0]) && le(s[0], k) then [s[0]] else []) + Ties(s[1..], k, le)
  }

  lemma {:induction false} TiesAppend<T>(a: seq<T>, b: seq<T>, k: T, le: (T, T) -> bool)
    ensures Ties(a + b, k, le) == Ties(a, k, le) + Ties(b, k, le)
  {
    if a != [] {
      assert (a + b)[0] == a[0] && (a + b)[1..] == a[1..] + b;
      TiesAppend(a[1..], b, k, le);
    } else {
      assert a + b == b;
    }
  }

  lemma {:induction false} TiesNone<T>(s: seq<T>, k: T, le: (T, T) -> bool)
    requires forall i :: 0 <= i < |s| ==> !(le(k, s[i]) && le(s[i], k))
    ensures Ties(s, k, le) == []
  {
    if s != [] {
      TiesNone(s[1..], k, le);
    }
  }

  /** When `x` sorts before all of `s`, no element of `s` ranks equal to `x`. */
  lemma NoTiesAfter<T(!new)>(x: T, s: seq<T>, k: T, le: (T, T) -> bool)
    requires TotalPreorder(le) && SortedBy(s, le)
    requires s != [] && !le(s[0], x) && le(k, x) && le(x, k)
    ensures Ties(s, k, le) == []
  {
    forall i | 0 <= i < |s| ensures !(le(k, s[i]) && le(s[i], k)) {
      assert le(s[0], s[i]);
      assert !le(s[i], x);
    }
    TiesNone(s, k, le);
  }

  /** Inserting `x` puts it after the elements ranked equal to it and keeps their order. */
  lemma {:induction false} InsertTies<T(!new)>(x: T, s: seq<T>, k: T, le: (T, T) -> bool)
    requires TotalPreorder(le) && SortedBy(s, le)
    ensures Ties(Insert(x, s, le), k, le) == Ties(s, k, le) + (if le(k, x) && le(x, k) then [x] else [])
  {
    var tie := if le(k, x) && le(x, k) then [x] else [];
    if s == [] {
      assert Insert(x, s, le) == [x];
      assert [x][1..] == [];
    } else if le(s[0], x) {
      var head := if le(k, s[0]) && le(s[0], k) then [s[0]] else [];
      var rest := Insert(x, s[1..], le);
      assert Insert(x, s, le) == [s[0]] + rest;
      assert ([s[0]] + rest)[1..] == rest;
      InsertTies(x, s[1..], k, le);
      assert Ties([s[0]] + rest, k, le) == head + Ties(rest, k, le);
      assert Ties(s, k, le) == head + Ties(s[1..], k, le);
      calc {
        Ties(Insert(x, s, le), k, le);
        head + Ties(rest, k, le);
        head + (Ties(s[1..], k, le) + tie);
        (head + Ties(s[1..], k, le)) + tie;
        Ties(s, k, le) + tie;
      }
    } else {
      assert Insert(x, s, le) == [x] + s;
      assert ([x] + s)[1..] == s;
      assert Ties([x] + s, k, le) == tie + Ties(s, k, le);
      if tie != [] {
        NoTiesAfter(x, s, k, le);
      }
    }
  }

  /**
   * The sorted list: same elements, same multiplicities, in `le` order; elements ranked
   * equal keep their input order (the sort is stable).
   */
  function Sort<T(!new)>(s: seq<T>, le: (T, T) -> bool): (r: seq<T>)
    requires TotalPreorder(le)
    ensures SortedBy(r, le)
    ensures multiset(r) == multiset(s)
    ensures |r| == |s|
    ensures forall k :: Ties(r, k, le) == Ties(s, k, le)
  {
    if s == [] then []
    else
      var front, last := s[..|s| - 1], s[|s| - 1];
      assert s == front + [last];
      var r := Insert(last, Sort(front, le), le);
      assert forall k :: Ties(r, k, le) == Ties(s, k, le) by {
        forall k ensures Ties(r, k, le) == Ties(s, k, le) {
          InsertTies(last, Sort(front, le), k, le);
          TiesAppend(front, [last], k, le);
          assert [last][1..] == [];
        }
      }
      r
  }
}
