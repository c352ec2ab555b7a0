/** Tables as sequences of rows.

    Every query of the core is a SELECT or DELETE with equality filters on a
    single table. A table is modelled as the sequence of its rows in primary
    key order, a SELECT as the subsequence of rows a predicate keeps, and a
    DELETE as the subsequence of rows it does not match.
 */
module Rows {

  /** The rows of `s` that `keep` accepts, in their original order. */
  function Filter<T(!new)>(s: seq<T>, keep: T -> bool): (r: seq<T>)
    ensures |r| <= |s|
    ensures forall x :: x in r <==> x in s && keep(x)
  {
    if s == [] then [] else (if keep(s[0]) then [s[0]] else []) + Filter(s[1..], keep)
  }

  /** Keys strictly increase along the sequence: the order in which the
      database hands back rows that carry an AUTO_INCREMENT primary key. */
  ghost predicate Increasing<T>(s: seq<T>, key: T -> int)
  {
    forall i, j :: 0 <= i < j < |s| ==> key(s[i]) < key(s[j])
  }

  /** Appending a row filters like filtering the old rows and then the new one. */
  lemma {:induction false} FilterAppend<T(!new)>(s: seq<T>, x: T, keep: T -> bool)
    ensures Filter(s + [x], keep) == Filter(s, keep) + (if keep(x) then [x] else [])
  {
    if s == [] {
      assert s + [x] == [x];
    } else {
      assert (s + [x])[1..] == s[1..] + [x];
      FilterAppend(s[1..], x, keep);
    }
  }

  /** A filter that rejects nothing returns its input. */
  lemma {:induction false} FilterAll<T(!new)>(s: seq<T>, keep: T -> bool)
    requires forall x :: x in s ==> keep(x)
    ensures Filter(s, keep) == s
  {
    if s != [] {
      FilterAll(s[1..], keep);
    }
  }

  /** A filter that accepts nothing returns the empty sequence. */
  lemma FilterNone<T(!new)>(s: seq<T>, keep: T -> bool)
    requires forall x :: x in s ==> !keep(x)
    ensures Filter(s, keep) == []
  {
  }

  /** Filtering keeps the keys increasing. */
  lemma {:induction false} FilterIncreasing<T(!new)>(s: seq<T>, keep: T -> bool, key: T -> int)
    requires Increasing(s, key)
    ensures Increasing(Filter(s, keep), key)
  {
    if s != [] {
      var tail := Filter(s[1..], keep);
      IncreasingTail(s, key);
      FilterIncreasing(s[1..], keep, key);
      if keep(s[0]) {
        var r := [s[0]] + tail;
        forall i, j | 0 <= i < j < |r|
          ensures key(r[i]) < key(r[j])
        {
          if i == 0 {
            assert r[j] == tail[j - 1];
            assert tail[j - 1] in s[1..];
            var k :| 0 <= k < |s[1..]| && s[1..][k] == tail[j - 1];
            assert s[1..][k] == s[k + 1];
          } else {
            assert r[i] == tail[i - 1] && r[j] == tail[j - 1];
          }
        }
      } else {
        assert Filter(s, keep) == tail;
      }
    }
  }

  /** A filter and its complement split the rows between them. */
  lemma {:induction false} FilterSplit<T(!new)>(s: seq<T>, keep: T -> bool, drop: T -> bool)
    requires forall x :: drop(x) <==> !keep(x)
    ensures |Filter(s, keep)| + |Filter(s, drop)| == |s|
  {
    if s != [] {
      FilterSplit(s[1..], keep, drop);
    }
  }

  /** Dropping the first row keeps the keys increasing. */
  lemma IncreasingTail<T>(s: seq<T>, key: T -> int)
    requires s != [] && Increasing(s, key)
    ensures Increasing(s[1..], key)
  {
    forall i, j | 0 <= i < j < |s[1..]|
      ensures key(s[1..][i]) < key(s[1..][j])
    {
      assert s[1..][i] == s[i + 1] && s[1..][j] == s[j + 1];
    }
  }

  /** Where keys increase, a filter that only accepts one key value returns
      at most one row: a primary key identifies its row. */
  lemma {:induction false} AtMostOneWithKey<T(!new)>(s: seq<T>, key: T -> int, keep: T -> bool, k: int)
    requires Increasing(s, key)
    requires forall x :: keep(x) ==> key(x) == k
    ensures |Filter(s, keep)| <= 1
  {
    if s != [] {
      IncreasingTail(s, key);
      if keep(s[0]) {
        forall x | x in s[1..]
          ensures !keep(x)
        {
          var j :| 0 <= j < |s[1..]| && s[1..][j] == x;
          assert s[1..][j] == s[j + 1];
        }
        FilterNone(s[1..], keep);
      } else {
        AtMostOneWithKey(s[1..], key, keep, k);
      }
    }
  }

  /** The invariant of a table with an AUTO_INCREMENT key: keys are
      positive, below the next value the counter hands out, and increasing. */
  ghost predicate KeyedBelow<T>(s: seq<T>, key: T -> int, next: int)
  {
    && 0 < next
    && Increasing(s, key)
    && forall i :: 0 <= i < |s| ==> 0 < key(s[i]) < next
  }

  /** An INSERT that takes the counter's value keeps the invariant. */
  lemma InsertKeyed<T>(s: seq<T>, x: T, key: T -> int, next: int)
    requires KeyedBelow(s, key, next)
    requires key(x) == next
    ensures KeyedBelow(s + [x], key, next + 1)
  {
    var r := s + [x];
    forall i, j | 0 <= i < j < |r|
      ensures key(r[i]) < key(r[j])
    {
      assert r[i] == s[i];
      if j < |s| {
        assert r[j] == s[j];
      }
    }
    forall i | 0 <= i < |r|
      ensures 0 < key(r[i]) < next + 1
    {
      if i < |s| {
        assert r[i] == s[i];
      }
    }
  }

  /** A DELETE keeps the invariant. */
  lemma FilterKeyed<T(!new)>(s: seq<T>, keep: T -> bool, key: T -> int, next: int)
    requires KeyedBelow(s, key, next)
    ensures KeyedBelow(Filter(s, keep), key, next)
  {
    var r := Filter(s, keep);
    FilterIncreasing(s, keep, key);
    forall i | 0 <= i < |r|
      ensures 0 < key(r[i]) < next
    {
      assert r[i] in r;
      var j :| 0 <= j < |s| && s[j] == r[i];
    }
  }

  /** An UPDATE that leaves the key column alone keeps the invariant. */
  lemma SameKeysKeyed<T>(s: seq<T>, t: seq<T>, key: T -> int, next: int)
    requires KeyedBelow(s, key, next)
    requires |t| == |s|
    requires forall i :: 0 <= i < |s| ==> key(t[i]) == key(s[i])
    ensures KeyedBelow(t, key, next)
  {
  }
}
