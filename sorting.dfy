/**
 * Stable sorting by a numeric key, largest first: Python's
 * `list.sort(key=..., reverse=True)` (build_dashboard.py:107), which keeps
 * elements with equal keys in their original order. The model also uses it
 * for the history sort and the status table, where pandas leaves the order of
 * ties unspecified.
 */
module Sorting {
  import opened Text

  /** Every element's key is at least that of every later element. */
  predicate NonIncreasing<T>(s: seq<T>, key: T -> nat) {
    forall i, j :: 0 <= i < j < |s| ==> key(s[i]) >= key(s[j])
  }

  /** `x` goes before the first element whose key is not larger than its own,
      so it stays ahead of the equal-keyed elements that followed it. */
  function Insert<T>(x: T, s: seq<T>, key: T -> nat): (r: seq<T>)
    ensures |r| == |s| + 1
    ensures multiset(r) == multiset(s) + multiset{x}
  {
    if s == [] || key(s[0]) <= key(x) then [x] + s
    else
      var r := [s[0]] + Insert(x, s[1..], key);
      assert s == [s[0]] + s[1..];
      r
  }

  /** Stable descending sort, by inserting each element, from the last to the
      first, in front of the later elements with the same key. */
  function SortDesc<T>(s: seq<T>, key: T -> nat): (r: seq<T>)
    ensures |r| == |s|
  {
    if s == [] then [] else Insert(s[0], SortDesc(s[1..], key), key)
  }

  /** The sorted list is a permutation of the input, largest key first. */
  lemma SortDescFacts<T>(s: seq<T>, key: T -> nat)
    ensures multiset(SortDesc(s, key)) == multiset(s)
    ensures NonIncreasing(SortDesc(s, key), key)
  {
    SortDescPermutes(s, key);
    SortDescOrdered(s, key);
  }

  lemma {:induction false} SortDescPermutes<T>(s: seq<T>, key: T -> nat)
    ensures multiset(SortDesc(s, key)) == multiset(s)
  {
    if s != [] {
      SortDescPermutes(s[1..], key);
      MultisetHead(s);
    }
  }

  /** A proof step: a list's multiset is its tail's plus its head. */
  lemma MultisetHead<T>(s: seq<T>)
    requires s != []
    ensures multiset(s) == multiset(s[1..]) + multiset{s[0]}
  {
    assert s == [s[0]] + s[1..];
  }

  lemma {:induction false} SortDescOrdered<T>(s: seq<T>, key: T -> nat)
    ensures NonIncreasing(SortDesc(s, key), key)
  {
    if s != [] {
      SortDescOrdered(s[1..], key);
      InsertSorted(s[0], SortDesc(s[1..], key), key);
    }
  }

  lemma {:induction false} InsertSorted<T>(x: T, s: seq<T>, key: T -> nat)
    requires NonIncreasing(s, key)
    ensures NonIncreasing(Insert(x, s, key), key)
  {
    if s != [] && key(s[0]) > key(x) {
      InsertSorted(x, s[1..], key);
      var r := Insert(x, s, key);
      var t := Insert(x, s[1..], key);
      assert r == [s[0]] + t;
      forall j | 1 <= j < |r| ensures key(r[0]) >= key(r[j]) {
        assert r[j] == t[j - 1];
        if t[j - 1] != x {
          var k := InsertedFrom(x, s[1..], key, j - 1);
          assert s[1..][k] == s[k + 1];
        }
      }
    }
  }

  /** `a` belongs before `b` in a ranking: a larger key, or an equal key and
      a smaller name. */
  predicate RankedBefore<T>(a: T, b: T, key: T -> nat, name: T -> string) {
    key(a) > key(b) || (key(a) == key(b) && LexLess(name(a), name(b)))
  }

  predicate Ranked<T>(s: seq<T>, key: T -> nat, name: T -> string) {
    forall i, j :: 0 <= i < j < |s| ==> RankedBefore(s[i], s[j], key, name)
  }

  predicate StrictlyAscending<T>(s: seq<T>, name: T -> string) {
    forall i, j :: 0 <= i < j < |s| ==> LexLess(name(s[i]), name(s[j]))
  }

  lemma {:induction false} InsertRanked<T>(x: T, s: seq<T>, key: T -> nat, name: T -> string)
    requires Ranked(s, key, name)
    requires forall k :: 0 <= k < |s| ==> LexLess(name(x), name(s[k]))
    ensures Ranked(Insert(x, s, key), key, name)
  {
    var r := Insert(x, s, key);
    if s == [] || key(s[0]) <= key(x) {
      assert r == [x] + s;
      forall i, j | 0 <= i < j < |r| ensures RankedBefore(r[i], r[j], key, name) {
        if i == 0 {
          assert r[j] == s[j - 1];
          if j > 1 {
            assert RankedBefore(s[0], s[j - 1], key, name);
          }
        } else {
          assert r[i] == s[i - 1] && r[j] == s[j - 1];
        }
      }
    } else {
      var t := Insert(x, s[1..], key);
      assert Ranked(s[1..], key, name) by {
        forall i, j | 0 <= i < j < |s[1..]| ensures RankedBefore(s[1..][i], s[1..][j], key, name) {
          assert s[1..][i] == s[i + 1] && s[1..][j] == s[j + 1];
        }
      }
      InsertRanked(x, s[1..], key, name);
      assert r == [s[0]] + t;
      forall j | 1 <= j < |r| ensures RankedBefore(r[0], r[j], key, name) {
        assert r[j] == t[j - 1];
        if t[j - 1] != x {
          var k := InsertedFrom(x, s[1..], key, j - 1);
          assert RankedBefore(s[0], s[k + 1], key, name);
        }
      }
    }
  }

  /** Every element of an insertion other than the inserted one comes from
      the list. */
  lemma InsertedFrom<T>(x: T, s: seq<T>, key: T -> nat, j: nat) returns (k: nat)
    requires j < |Insert(x, s, key)| && Insert(x, s, key)[j] != x
    ensures k < |s| && s[k] == Insert(x, s, key)[j]
  {
    var r := Insert(x, s, key);
    assert r[j] in multiset(r);
    assert r[j] in multiset(s);
    k :| 0 <= k < |s| && s[k] == r[j];
  }

  /** Sorting a list whose labels ascend gives the ranking: larger keys first,
      equal keys in name order (the stability of the sort). */
  lemma {:induction false} SortRanked<T>(s: seq<T>, key: T -> nat, name: T -> string)
    requires StrictlyAscending(s, name)
    ensures Ranked(SortDesc(s, key), key, name)
  {
    if s != [] {
      var rest := SortDesc(s[1..], key);
      assert StrictlyAscending(s[1..], name) by {
        forall i, j | 0 <= i < j < |s[1..]| ensures LexLess(name(s[1..][i]), name(s[1..][j])) {
          assert s[1..][i] == s[i + 1] && s[1..][j] == s[j + 1];
        }
      }
      SortRanked(s[1..], key, name);
      SortDescFacts(s[1..], key);
      forall k | 0 <= k < |rest| ensures LexLess(name(s[0]), name(rest[k])) {
        assert rest[k] in multiset(s[1..]);
        var m :| 0 <= m < |s[1..]| && s[1..][m] == rest[k];
        assert s[1..][m] == s[m + 1];
      }
      InsertRanked(s[0], rest, key, name);
    }
  }

  /** Every element of the input is somewhere in the sorted output. */
  lemma SortKeeps<T>(s: seq<T>, key: T -> nat, x: T) returns (i: nat)
    requires x in s
    ensures i < |s| && SortDesc(s, key)[i] == x
  {
    var r := SortDesc(s, key);
    SortDescFacts(s, key);
    assert x in multiset(r);
    i :| 0 <= i < |r| && r[i] == x;
  }

  /** A ranking never holds the same element twice. */
  lemma RankedDistinct<T>(s: seq<T>, key: T -> nat, name: T -> string, i: nat, j: nat)
    requires Ranked(s, key, name) && i < j < |s|
    ensures s[i] != s[j]
  {
    if s[i] == s[j] {
      assert RankedBefore(s[i], s[j], key, name);
      LexLessIrreflexive(name(s[i]));
    }
  }

  /** Total of the keys. */
  function Sum<T>(s: seq<T>, key: T -> nat): nat {
    if s == [] then 0 else Sum(s[..|s| - 1], key) + key(s[|s| - 1])
  }

  lemma SumPrefix<T>(s: seq<T>, key: T -> nat, j: nat)
    requires 0 < j <= |s|
    ensures Sum(s[..j], key) == Sum(s[..j - 1], key) + key(s[j - 1])
  {
    assert s[..j][..j - 1] == s[..j - 1];
  }

  lemma {:induction false} SumAppend<T>(s: seq<T>, t: seq<T>, key: T -> nat)
    ensures Sum(s + t, key) == Sum(s, key) + Sum(t, key)
    decreases |t|
  {
    if t == [] {
      assert s + t == s;
    } else {
      var n := |t| - 1;
      assert (s + t)[..|s + t| - 1] == s + t[..n];
      SumAppend(s, t[..n], key);
    }
  }

  lemma {:induction false} InsertSum<T>(x: T, s: seq<T>, key: T -> nat)
    ensures Sum(Insert(x, s, key), key) == key(x) + Sum(s, key)
  {
    if s == [] || key(s[0]) <= key(x) {
      SumAppend([x], s, key);
      assert Sum([x], key) == key(x) by {
        assert [x][..0] == [];
      }
    } else {
      InsertSum(x, s[1..], key);
      SumAppend([s[0]], Insert(x, s[1..], key), key);
      SumAppend([s[0]], s[1..], key);
      assert Sum([s[0]], key) == key(s[0]) by {
        assert [s[0]][..0] == [];
      }
      assert [s[0]] + s[1..] == s;
    }
  }

  /** Sorting keeps the total. */
  lemma {:induction false} SortSum<T>(s: seq<T>, key: T -> nat)
    ensures Sum(SortDesc(s, key), key) == Sum(s, key)
  {
    if s != [] {
      SortSum(s[1..], key);
      InsertSum(s[0], SortDesc(s[1..], key), key);
      SumAppend([s[0]], s[1..], key);
      assert Sum([s[0]], key) == key(s[0]) by {
        assert [s[0]][..0] == [];
      }
      assert [s[0]] + s[1..] == s;
    }
  }
}
