/** A stable sort under a comparator that is only known to be a total
    preorder, the contract LINQ's `OrderBy` / `ThenBy` give: the result is
    a permutation, it is ordered, and elements the comparator ranks equal
    keep their original relative order. */
module Sorting {

  ghost predicate Total<T(!new)>(le: (T, T) -> bool) {
    forall a, b :: le(a, b) || le(b, a)
  }

  ghost predicate Transitive<T(!new)>(le: (T, T) -> bool) {
    forall a, b, c :: le(a, b) && le(b, c) ==> le(a, c)
  }

  /** What a key comparer must be for ordering by it to make sense. */
  ghost predicate TotalPreorder<T(!new)>(le: (T, T) -> bool) {
    Total(le) && Transitive(le)
  }

  ghost predicate SortedBy<T>(s: seq<T>, le: (T, T) -> bool) {
    forall i, j :: 0 <= i < j < |s| ==> le(s[i], s[j])
  }

  /** a and b have the same rank: each is at most the other. */
  predicate SameRank<T>(le: (T, T) -> bool, a: T, b: T) {
    le(a, b) && le(b, a)
  }

  /** The elements of s ranked equal to x, in their order in s. */
  function RankClass<T>(s: seq<T>, le: (T, T) -> bool, x: T): seq<T>
  {
    if |s| == 0 then []
    else (if SameRank(le, x, s[0]) then [s[0]] else []) + RankClass(s[1..], le, x)
  }

  /** Puts x in front of the first element it is at most. */
  function Insert<T>(x: T, s: seq<T>, le: (T, T) -> bool): (r: seq<T>)
    ensures multiset(r) == multiset(s) + multiset{x}
  {
    if |s| == 0 || le(x, s[0]) then [x] + s
    else
      var r := [s[0]] + Insert(x, s[1..], le);
      assert s == [s[0]] + s[1..];
      r
  }

  /** Insertion sort, taking elements from the front. */
  function Sort<T>(s: seq<T>, le: (T, T) -> bool): (r: seq<T>)
    ensures multiset(r) == multiset(s)
    ensures |r| == |s|
  {
    if |s| == 0 then []
    else
      var r := Insert(s[0], Sort(s[1..], le), le);
      assert s == [s[0]] + s[1..];
      assert |r| == |multiset(r)|;
      r
  }

  lemma {:induction false} InsertSorted<T(!new)>(x: T, s: seq<T>, le: (T, T) -> bool)
    requires TotalPreorder(le)
    requires SortedBy(s, le)
    ensures SortedBy(Insert(x, s, le), le)
  {
    if |s| == 0 || le(x, s[0]) {
      var r := [x] + s;
      forall i, j | 0 <= i < j < |r| ensures le(r[i], r[j]) {
        if i == 0 && j > 1 {
          assert le(x, s[0]) && le(s[0], s[j - 1]);
        }
      }
    } else {
      var t := Insert(x, s[1..], le);
      InsertSorted(x, s[1..], le);
      var r := [s[0]] + t;
      assert le(s[0], x);
      forall i, j | 0 <= i < j < |r| ensures le(r[i], r[j]) {
        if i == 0 {
          assert r[j] in multiset(t);
          assert r[j] in multiset(s[1..]) + multiset{x};
          if r[j] != x {
            var k :| 1 <= k < |s| && s[k] == r[j];
          }
        }
      }
    }
  }

  /** The result of Sort is ordered by the comparator. */
  lemma {:induction false} SortSorted<T(!new)>(s: seq<T>, le: (T, T) -> bool)
    requires TotalPreorder(le)
    ensures SortedBy(Sort(s, le), le)
  {
    if |s| > 0 {
      SortSorted(s[1..], le);
      InsertSorted(s[0], Sort(s[1..], le), le);
    }
  }

  /** Inserting x in front of the elements it passes over does not reorder
      the elements of any rank class. */
  lemma {:induction false} InsertStable<T(!new)>(x: T, s: seq<T>, le: (T, T) -> bool, y: T)
    requires Transitive(le)
    ensures RankClass(Insert(x, s, le), le, y) == RankClass([x] + s, le, y)
  {
    if |s| > 0 && !le(x, s[0]) {
      var h, t := s[0], s[1..];
      var rest := Insert(x, t, le);
      var cx := if SameRank(le, y, x) then [x] else [];
      var c0 := if SameRank(le, y, h) then [h] else [];
      assert cx == [] || c0 == [] by {
        // x passes over h, so h cannot share a rank class with x
        assert le(x, y) && le(y, h) ==> le(x, h);
      }
      assert s == [h] + t;
      calc {
        RankClass(Insert(x, s, le), le, y);
        { assert Insert(x, s, le) == [h] + rest; }
        RankClass([h] + rest, le, y);
        { RankClassCons(h, rest, le, y); }
        c0 + RankClass(rest, le, y);
        { InsertStable(x, t, le, y); }
        c0 + RankClass([x] + t, le, y);
        { RankClassCons(x, t, le, y); }
        c0 + (cx + RankClass(t, le, y));
        { SwapEmpty(c0, cx, RankClass(t, le, y)); }
        cx + (c0 + RankClass(t, le, y));
        { RankClassCons(h, t, le, y); }
        cx + RankClass(s, le, y);
        { RankClassCons(x, s, le, y); }
        RankClass([x] + s, le, y);
      }
    }
  }

  lemma SwapEmpty<T>(a: seq<T>, b: seq<T>, r: seq<T>)
    requires a == [] || b == []
    ensures a + (b + r) == b + (a + r)
  {
    if a == [] {
      assert a + (b + r) == b + r == b + (a + r);
    } else {
      assert a + (b + r) == a + r == b + (a + r);
    }
  }

  lemma RankClassCons<T>(h: T, t: seq<T>, le: (T, T) -> bool, y: T)
    ensures RankClass([h] + t, le, y) == (if SameRank(le, y, h) then [h] else []) + RankClass(t, le, y)
  {
    assert ([h] + t)[1..] == t;
  }

  /** Sort is stable: every rank class comes out in its original order. */
  lemma {:induction false} SortStable<T(!new)>(s: seq<T>, le: (T, T) -> bool, y: T)
    requires Transitive(le)
    ensures RankClass(Sort(s, le), le, y) == RankClass(s, le, y)
  {
    if |s| > 0 {
      SortStable(s[1..], le, y);
      InsertStable(s[0], Sort(s[1..], le), le, y);
      assert ([s[0]] + Sort(s[1..], le))[1..] == Sort(s[1..], le);
      assert s == [s[0]] + s[1..];
    }
  }

  /** Under a total preorder there is only one stable ordering: two ordered
      permutations of each other whose rank classes agree are equal. */
  lemma {:induction false} SortedStableUnique<T(!new)>(r1: seq<T>, r2: seq<T>, le: (T, T) -> bool)
    requires TotalPreorder(le)
    requires multiset(r1) == multiset(r2)
    requires SortedBy(r1, le) && SortedBy(r2, le)
    requires forall y :: RankClass(r1, le, y) == RankClass(r2, le, y)
    ensures r1 == r2
  {
    if |r1| == 0 {
      assert |r2| == |multiset(r2)| == 0;
    } else {
      assert |r2| == |multiset(r2)| == |r1|;
      SameHead(r1, r2, le);
      var a := r1[0];
      assert r1 == [a] + r1[1..] && r2 == [a] + r2[1..];
      SameTail(a, r1[1..], r2[1..], le);
      SortedStableUnique(r1[1..], r2[1..], le);
    }
  }

  /** Two such sequences start with the same element. */
  lemma SameHead<T(!new)>(r1: seq<T>, r2: seq<T>, le: (T, T) -> bool)
    requires TotalPreorder(le)
    requires |r1| > 0 && |r2| > 0
    requires multiset(r1) == multiset(r2)
    requires SortedBy(r1, le) && SortedBy(r2, le)
    requires forall y :: RankClass(r1, le, y) == RankClass(r2, le, y)
    ensures r1[0] == r2[0]
  {
    var a, b := r1[0], r2[0];
    assert SameRank(le, a, b) by {
      assert b in multiset(r1) && a in multiset(r2);
      LeastLeAll(r1, le, b);
      LeastLeAll(r2, le, a);
    }
    assert SameRank(le, a, a) by {
      assert le(a, a) || le(a, a);
    }
    HeadOfRankClass(r1, le, a);
    HeadOfRankClass(r2, le, a);
  }

  lemma HeadOfRankClass<T>(r: seq<T>, le: (T, T) -> bool, y: T)
    requires |r| > 0 && SameRank(le, y, r[0])
    ensures |RankClass(r, le, y)| > 0 && RankClass(r, le, y)[0] == r[0]
  {
  }

  /** Dropping a common first element keeps both requirements. */
  lemma SameTail<T>(a: T, t1: seq<T>, t2: seq<T>, le: (T, T) -> bool)
    requires multiset([a] + t1) == multiset([a] + t2)
    requires forall y :: RankClass([a] + t1, le, y) == RankClass([a] + t2, le, y)
    ensures multiset(t1) == multiset(t2)
    ensures forall y :: RankClass(t1, le, y) == RankClass(t2, le, y)
  {
    assert multiset(t1) == multiset([a] + t1) - multiset{a};
    assert multiset(t2) == multiset([a] + t2) - multiset{a};
    forall y ensures RankClass(t1, le, y) == RankClass(t2, le, y) {
      var c := if SameRank(le, y, a) then [a] else [];
      RankClassCons(a, t1, le, y);
      RankClassCons(a, t2, le, y);
      assert RankClass(t1, le, y) == (c + RankClass(t1, le, y))[|c|..];
      assert RankClass(t2, le, y) == (c + RankClass(t2, le, y))[|c|..];
    }
  }

  /** The first element of an ordered sequence is at most every element. */
  lemma LeastLeAll<T(!new)>(r: seq<T>, le: (T, T) -> bool, x: T)
    requires Total(le)
    requires |r| > 0 && SortedBy(r, le)
    requires x in multiset(r)
    ensures le(r[0], x)
  {
    var k :| 0 <= k < |r| && r[k] == x;
    if k == 0 {
      assert le(x, x) || le(x, x);
    }
  }

  /** Sort is the stable sort: any ordered permutation of s that keeps every
      rank class in its order in s is Sort(s). */
  lemma SortIsTheStableSort<T(!new)>(s: seq<T>, r: seq<T>, le: (T, T) -> bool)
    requires TotalPreorder(le)
    requires multiset(r) == multiset(s)
    requires SortedBy(r, le)
    requires forall y :: RankClass(r, le, y) == RankClass(s, le, y)
    ensures r == Sort(s, le)
  {
    SortSorted(s, le);
    forall y ensures RankClass(r, le, y) == RankClass(Sort(s, le), le, y) {
      SortStable(s, le, y);
    }
    SortedStableUnique(r, Sort(s, le), le);
  }
}
