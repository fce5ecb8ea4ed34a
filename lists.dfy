/** The two array methods the view pipeline is built from:
    `Array.prototype.filter` and `Array.prototype.sort` with a comparator.
    The sort is the stable sort the language requires, written as an
    insertion sort that places each element after the ones it ties with. */
module Lists {

  /** `s.filter(p)`. */
  function Filter<T>(s: seq<T>, p: T -> bool): (r: seq<T>)
    ensures |r| <= |s|
    ensures forall i :: 0 <= i < |r| ==> p(r[i])
    ensures multiset(r) <= multiset(s)
  {
    if s == [] then []
    else
      assert s == [s[0]] + s[1..];
      (if p(s[0]) then [s[0]] else []) + Filter(s[1..], p)
  }

  /** The filter keeps every element that passes, as often as it occurs. */
  lemma {:induction false} FilterKeeps<T>(s: seq<T>, p: T -> bool, x: T)
    requires p(x)
    ensures multiset(Filter(s, p))[x] == multiset(s)[x]
  {
    if s != [] {
      assert s == [s[0]] + s[1..];
      FilterKeeps(s[1..], p, x);
    }
  }

  function Sign(x: int): int
  {
    if x < 0 then -1 else if x > 0 then 1 else 0
  }

  /** A comparator that answers the opposite when its arguments are swapped,
      as `localeCompare` does and as the specification of `sort` expects of
      a consistent comparator. */
  ghost predicate Antisymmetric<T(!new)>(cmp: (T, T) -> int)
  {
    forall x, y :: Sign(cmp(x, y)) == -Sign(cmp(y, x))
  }

  /** A comparator whose "at most equal" chains: `x <= y` and `y <= z` give
      `x <= z`. */
  ghost predicate Transitive<T(!new)>(cmp: (T, T) -> int)
  {
    forall x, y, z :: cmp(x, y) <= 0 && cmp(y, z) <= 0 ==> cmp(x, z) <= 0
  }

  /** Each element compares at most equal to the next one. */
  ghost predicate Sorted<T>(s: seq<T>, cmp: (T, T) -> int)
  {
    forall i :: 0 < i < |s| ==> cmp(s[i - 1], s[i]) <= 0
  }

  /** `x` placed after every leading element it does not compare below. */
  function Insert<T>(x: T, s: seq<T>, cmp: (T, T) -> int): (r: seq<T>)
    ensures |r| == |s| + 1
    ensures multiset(r) == multiset(s) + multiset{x}
    ensures r[0] == x || (s != [] && r[0] == s[0])
  {
    if s == [] then [x]
    else if cmp(x, s[0]) < 0 then [x] + s
    else
      assert s == [s[0]] + s[1..];
      [s[0]] + Insert(x, s[1..], cmp)
  }

  /** `[...s].sort(cmp)`: each element in turn inserted after the ones
      before it that it ties with. */
  function SortBy<T>(s: seq<T>, cmp: (T, T) -> int): (r: seq<T>)
    ensures |r| == |s|
    ensures multiset(r) == multiset(s)
  {
    if s == [] then []
    else
      assert s == s[..|s| - 1] + [s[|s| - 1]];
      Insert(s[|s| - 1], SortBy(s[..|s| - 1], cmp), cmp)
  }

  /** Inserting into a sorted list keeps it sorted. */
  lemma {:induction false} InsertSorted<T(!new)>(x: T, s: seq<T>, cmp: (T, T) -> int)
    requires Antisymmetric(cmp) && Sorted(s, cmp)
    ensures Sorted(Insert(x, s, cmp), cmp)
  {
    if s != [] && cmp(x, s[0]) >= 0 {
      var tail := s[1..];
      assert Sorted(tail, cmp) by {
        forall i | 0 < i < |tail| ensures cmp(tail[i - 1], tail[i]) <= 0 {
          assert tail[i - 1] == s[i] && tail[i] == s[i + 1];
        }
      }
      InsertSorted(x, tail, cmp);
      assert Sign(cmp(s[0], x)) == -Sign(cmp(x, s[0]));
      var r := [s[0]] + Insert(x, tail, cmp);
      forall i | 0 < i < |r| ensures cmp(r[i - 1], r[i]) <= 0 {
        if i == 1 {
          if tail != [] && r[1] == tail[0] {
            assert cmp(s[0], s[1]) <= 0;
          }
        } else {
          assert r[i - 1] == Insert(x, tail, cmp)[i - 2] && r[i] == Insert(x, tail, cmp)[i - 1];
        }
      }
    }
  }

  /** The sort returns a sorted rearrangement of its input. */
  lemma {:induction false} SortBySorted<T(!new)>(s: seq<T>, cmp: (T, T) -> int)
    requires Antisymmetric(cmp)
    ensures Sorted(SortBy(s, cmp), cmp)
  {
    if s != [] {
      SortBySorted(s[..|s| - 1], cmp);
      InsertSorted(s[|s| - 1], SortBy(s[..|s| - 1], cmp), cmp);
    }
  }

  /** For a transitive comparator, a list sorted between neighbours is
      sorted between any two positions. */
  lemma SortedAllPairs<T(!new)>(s: seq<T>, cmp: (T, T) -> int)
    requires Transitive(cmp) && Sorted(s, cmp)
    ensures forall i, j :: 0 <= i < j < |s| ==> cmp(s[i], s[j]) <= 0
  {
    forall i, j | 0 <= i < j < |s| ensures cmp(s[i], s[j]) <= 0 {
      SortedBetween(s, cmp, i, j);
    }
  }

  lemma {:induction false} SortedBetween<T(!new)>(s: seq<T>, cmp: (T, T) -> int, i: int, j: int)
    requires Transitive(cmp) && Sorted(s, cmp)
    requires 0 <= i < j < |s|
    ensures cmp(s[i], s[j]) <= 0
    decreases j - i
  {
    if i + 1 < j {
      SortedBetween(s, cmp, i, j - 1);
      assert cmp(s[j - 1], s[j]) <= 0;
    }
  }

  /** Two comparators that agree everywhere sort alike. */
  lemma {:induction false} SortBySameOrder<T>(s: seq<T>, cmp1: (T, T) -> int, cmp2: (T, T) -> int)
    requires forall x, y :: cmp1(x, y) == cmp2(x, y)
    ensures SortBy(s, cmp1) == SortBy(s, cmp2)
  {
    if s != [] {
      SortBySameOrder(s[..|s| - 1], cmp1, cmp2);
      InsertSameOrder(s[|s| - 1], SortBy(s[..|s| - 1], cmp1), cmp1, cmp2);
    }
  }

  lemma {:induction false} InsertSameOrder<T>(x: T, s: seq<T>, cmp1: (T, T) -> int, cmp2: (T, T) -> int)
    requires forall x, y :: cmp1(x, y) == cmp2(x, y)
    ensures Insert(x, s, cmp1) == Insert(x, s, cmp2)
  {
    if s != [] {
      InsertSameOrder(x, s[1..], cmp1, cmp2);
    }
  }
}
