/**
 * Sorting rows by a text column, as a query with `.order(column, { ascending: true })`
 * returns them. The model sorts by insertion; what its callers rely on is that the
 * result is ordered by the key and is a permutation of the input.
 */
module Ordering {
  import opened Strings
  import opened Seqs

  ghost predicate SortedBy<T>(key: T -> string, s: seq<T>) {
    forall i, j :: 0 <= i < j < |s| ==> LexLe(key(s[i]), key(s[j]))
  }

  /** Inserts `x` before the first element whose key is not smaller than its own. */
  function InsertBy<T>(key: T -> string, x: T, s: seq<T>): (r: seq<T>)
    ensures multiset(r) == multiset(s) + multiset{x}
  {
    if s == [] then [x]
    else if LexLe(key(x), key(s[0])) then [x] + s
    else
      assert s == [s[0]] + s[1..];
      [s[0]] + InsertBy(key, x, s[1..])
  }

  function SortBy<T>(key: T -> string, s: seq<T>): (r: seq<T>)
    ensures multiset(r) == multiset(s)
  {
    if s == [] then []
    else
      assert s == [s[0]] + s[1..];
      InsertBy(key, s[0], SortBy(key, s[1..]))
  }

  lemma SortedTail<T>(key: T -> string, s: seq<T>)
    requires s != [] && SortedBy(key, s)
    ensures SortedBy(key, s[1..])
  {
    forall i, j | 0 <= i < j < |s| - 1
      ensures LexLe(key(s[1..][i]), key(s[1..][j]))
    {
      assert s[1..][i] == s[i + 1] && s[1..][j] == s[j + 1];
    }
  }

  /** The head of a sorted sequence sorts no later than any of its elements. */
  lemma HeadIsLeast<T>(key: T -> string, s: seq<T>, y: T)
    requires s != [] && SortedBy(key, s) && y in s
    ensures LexLe(key(s[0]), key(y))
  {
    var k :| 0 <= k < |s| && s[k] == y;
    if k == 0 {
      LexLeTotal(key(y), key(y));
    }
  }

  /** Putting an element no larger than the head in front keeps a sequence sorted. */
  lemma ConsSorted<T>(key: T -> string, x: T, s: seq<T>)
    requires s != [] && SortedBy(key, s) && LexLe(key(x), key(s[0]))
    ensures SortedBy(key, [x] + s)
  {
    var r := [x] + s;
    forall i, j | 0 <= i < j < |r| ensures LexLe(key(r[i]), key(r[j])) {
      if i == 0 && j > 1 {
        LexLeTransitive(key(x), key(s[0]), key(s[j - 1]));
      } else if i > 0 {
        assert r[i] == s[i - 1] && r[j] == s[j - 1];
      }
    }
  }

  /** Putting a lower bound of every element in front of a sorted sequence keeps it sorted. */
  lemma ConsLeast<T>(key: T -> string, y: T, t: seq<T>)
    requires SortedBy(key, t)
    requires forall z :: z in multiset(t) ==> LexLe(key(y), key(z))
    ensures SortedBy(key, [y] + t)
  {
    var r := [y] + t;
    forall i, j | 0 <= i < j < |r| ensures LexLe(key(r[i]), key(r[j])) {
      if i == 0 {
        assert r[j] == t[j - 1] && t[j - 1] in multiset(t);
      } else {
        assert r[i] == t[i - 1] && r[j] == t[j - 1];
      }
    }
  }

  lemma {:induction false} InsertBySorted<T>(key: T -> string, x: T, s: seq<T>)
    requires SortedBy(key, s)
    ensures SortedBy(key, InsertBy(key, x, s))
  {
    if s == [] {
      return;
    }
    if LexLe(key(x), key(s[0])) {
      ConsSorted(key, x, s);
    } else {
      LexLeTotal(key(x), key(s[0]));
      SortedTail(key, s);
      var t := InsertBy(key, x, s[1..]);
      InsertBySorted(key, x, s[1..]);
      forall z | z in multiset(t) ensures LexLe(key(s[0]), key(z)) {
        if z != x {
          assert z in multiset(s[1..]);
          assert z in s[1..];
          HeadIsLeast(key, s, z);
        }
      }
      ConsLeast(key, s[0], t);
    }
  }

  lemma {:induction false} SortBySorted<T>(key: T -> string, s: seq<T>)
    ensures SortedBy(key, SortBy(key, s))
  {
    if s != [] {
      SortBySorted(key, s[1..]);
      InsertBySorted(key, s[0], SortBy(key, s[1..]));
    }
  }

  /** Filtering a sorted sequence leaves it sorted. */
  lemma {:induction false} FilterSorted<T>(key: T -> string, p: T -> bool, s: seq<T>)
    requires SortedBy(key, s)
    ensures SortedBy(key, Filter(p, s))
  {
    if s != [] {
      SortedTail(key, s);
      FilterSorted(key, p, s[1..]);
      var rest := Filter(p, s[1..]);
      if p(s[0]) {
        forall z | z in multiset(rest) ensures LexLe(key(s[0]), key(z)) {
          assert z in rest;
          assert z in s[1..];
          HeadIsLeast(key, s, z);
        }
        ConsLeast(key, s[0], rest);
        assert Filter(p, s) == [s[0]] + rest;
      } else {
        assert Filter(p, s) == rest;
      }
    }
  }

  /** Inserting at the front and then filtering equals filtering first. */
  lemma FilterInsertByFront<T>(key: T -> string, p: T -> bool, x: T, s: seq<T>)
    requires SortedBy(key, s) && s != [] && LexLe(key(x), key(s[0]))
    ensures Filter(p, InsertBy(key, x, s)) == if p(x) then InsertBy(key, x, Filter(p, s)) else Filter(p, s)
  {
    var fs := Filter(p, s);
    assert InsertBy(key, x, s) == [x] + s;
    FilterConcat(p, [x], s);
    if p(x) && fs != [] {
      assert fs[0] in fs;
      HeadIsLeast(key, s, fs[0]);
      LexLeTransitive(key(x), key(s[0]), key(fs[0]));
      assert InsertBy(key, x, fs) == [x] + fs;
    }
  }

  /** Inserting into a sorted sequence and then filtering equals filtering first. */
  lemma {:induction false} FilterInsertBy<T>(key: T -> string, p: T -> bool, x: T, s: seq<T>)
    requires SortedBy(key, s)
    ensures Filter(p, InsertBy(key, x, s)) == if p(x) then InsertBy(key, x, Filter(p, s)) else Filter(p, s)
  {
    if s == [] {
      return;
    }
    if LexLe(key(x), key(s[0])) {
      FilterInsertByFront(key, p, x, s);
      return;
    }
    SortedTail(key, s);
    FilterInsertBy(key, p, x, s[1..]);
    var t := InsertBy(key, x, s[1..]);
    assert InsertBy(key, x, s) == [s[0]] + t;
    FilterConcat(p, [s[0]], t);
    assert s == [s[0]] + s[1..];
    FilterConcat(p, [s[0]], s[1..]);
    var fs := Filter(p, s);
    if p(s[0]) {
      assert fs == [s[0]] + Filter(p, s[1..]);
      assert fs[0] == s[0] && fs[1..] == Filter(p, s[1..]);
    } else {
      assert fs == Filter(p, s[1..]);
    }
  }

  /** Sorting commutes with filtering: the sort keeps equal keys in input order. */
  lemma {:induction false} SortByFilter<T>(key: T -> string, p: T -> bool, s: seq<T>)
    ensures SortBy(key, Filter(p, s)) == Filter(p, SortBy(key, s))
  {
    if s != [] {
      SortByFilter(key, p, s[1..]);
      SortBySorted(key, s[1..]);
      FilterInsertBy(key, p, s[0], SortBy(key, s[1..]));
      var fs := Filter(p, s);
      if p(s[0]) {
        assert fs == [s[0]] + Filter(p, s[1..]);
        assert fs[0] == s[0] && fs[1..] == Filter(p, s[1..]);
      } else {
        assert fs == Filter(p, s[1..]);
      }
    }
  }
}
