/**
  The stable sort that `Array.prototype.sort` (ES2019 and later, with a consistent comparator)
  and Python's `sorted`/`list.sort` (also with `reverse=True`) perform. `le(a, b)` means that
  `a` may come before `b`; it must be a total preorder. The result is the unique stable ordering:
  sorted, a permutation of the input, and equivalent elements keep their relative order.
*/
module StableSort {
  import opened Seqs

  ghost predicate TotalPreorder<T(!new)>(le: (T, T) -> bool) {
    && (forall a, b :: le(a, b) || le(b, a))
    && (forall a, b, c :: le(a, b) && le(b, c) ==> le(a, c))
  }

  predicate Sorted<T>(s: seq<T>, le: (T, T) -> bool) {
    forall i, j :: 0 <= i < j < |s| ==> le(s[i], s[j])
  }

  /** Puts `x` in front of the first element it may precede. */
  function Insert<T>(x: T, s: seq<T>, le: (T, T) -> bool): (r: seq<T>)
    ensures multiset(r) == multiset(s) + multiset{x}
    ensures |r| == |s| + 1
    decreases |s|
  {
    if s == [] then [x]
    else if le(x, s[0]) then [x] + s
    else
      assert s == [s[0]] + s[1..];
      [s[0]] + Insert(x, s[1..], le)
  }

  /** Insertion sort from the back: earlier elements are inserted in front of equivalent later ones. */
  function Sort<T>(s: seq<T>, le: (T, T) -> bool): (r: seq<T>)
    ensures multiset(r) == multiset(s)
    ensures |r| == |s|
    decreases |s|
  {
    if s == [] then []
    else
      assert s == [s[0]] + s[1..];
      Insert(s[0], Sort(s[1..], le), le)
  }

  lemma {:induction false} InsertSorted<T(!new)>(x: T, s: seq<T>, le: (T, T) -> bool)
    requires TotalPreorder(le)
    requires Sorted(s, le)
    ensures Sorted(Insert(x, s, le), le)
    decreases |s|
  {
    if s != [] && !le(x, s[0]) {
      InsertSorted(x, s[1..], le);
      var r := Insert(x, s, le);
      var t := Insert(x, s[1..], le);
      assert r == [s[0]] + t;
      forall k | 0 <= k < |t| ensures le(s[0], t[k]) {
        assert t[k] in multiset(t);
        assert t[k] == x || t[k] in multiset(s[1..]);
        if t[k] != x {
          var j :| 0 <= j < |s[1..]| && s[1..][j] == t[k];
          assert s[1..][j] == s[j + 1];
        }
      }
    }
  }

  lemma {:induction false} SortSorted<T(!new)>(s: seq<T>, le: (T, T) -> bool)
    requires TotalPreorder(le)
    ensures Sorted(Sort(s, le), le)
    decreases |s|
  {
    if s != [] {
      SortSorted(s[1..], le);
      InsertSorted(s[0], Sort(s[1..], le), le);
    }
  }

  lemma {:induction false} FilterInsert<T(!new)>(x: T, s: seq<T>, le: (T, T) -> bool, p: T -> bool)
    requires TotalPreorder(le)
    requires Sorted(s, le)
    ensures Filter(Insert(x, s, le), p) == if p(x) then Insert(x, Filter(s, p), le) else Filter(s, p)
    decreases |s|
  {
    if s == [] {
    } else if le(x, s[0]) {
      if p(x) {
        var f := Filter(s, p);
        if f != [] {
          assert f[0] in s;
          var j :| 0 <= j < |s| && s[j] == f[0];
          assert le(s[0], s[j]) || j == 0;
        }
      }
    } else {
      FilterInsert(x, s[1..], le, p);
    }
  }

  /** Filtering a sorted sequence gives the sorted filtered sequence. */
  lemma {:induction false} FilterSort<T(!new)>(s: seq<T>, le: (T, T) -> bool, p: T -> bool)
    requires TotalPreorder(le)
    ensures Filter(Sort(s, le), p) == Sort(Filter(s, p), le)
    decreases |s|
  {
    if s != [] {
      FilterSort(s[1..], le, p);
      SortSorted(s[1..], le);
      FilterInsert(s[0], Sort(s[1..], le), le, p);
    }
  }

  /** Sorting a sequence whose elements are all equivalent changes nothing. */
  lemma {:induction false} SortEquivalent<T(!new)>(s: seq<T>, le: (T, T) -> bool)
    requires forall i, j :: 0 <= i < |s| && 0 <= j < |s| ==> le(s[i], s[j])
    ensures Sort(s, le) == s
    decreases |s|
  {
    if s != [] {
      SortEquivalent(s[1..], le);
      assert Sort(s[1..], le) == s[1..];
      if |s| > 1 {
        assert le(s[0], s[1]);
      }
    }
  }

  /** The elements equivalent to `y` under `le`. */
  function EquivalentTo<T>(le: (T, T) -> bool, y: T): T -> bool {
    x => le(x, y) && le(y, x)
  }

  /**
    Stability: for every element `y`, the elements equivalent to `y` appear in the
    sorted output in exactly the order they had in the input.
  */
  lemma {:induction false} SortStable<T(!new)>(s: seq<T>, le: (T, T) -> bool, y: T)
    requires TotalPreorder(le)
    ensures Filter(Sort(s, le), EquivalentTo(le, y)) == Filter(s, EquivalentTo(le, y))
  {
    var eq := EquivalentTo(le, y);
    FilterSort(s, le, eq);
    var f := Filter(s, eq);
    forall i, j | 0 <= i < |f| && 0 <= j < |f| ensures le(f[i], f[j]) {
      assert eq(f[i]) && eq(f[j]);
    }
    SortEquivalent(f, le);
  }

  /** `le` on the keys read by `key`, smallest first. */
  function ByKeyAscending<T>(key: T -> int): (T, T) -> bool {
    (a: T, b: T) => key(a) <= key(b)
  }

  /** `le` on the keys read by `key`, largest first. */
  function ByKeyDescending<T>(key: T -> int): (T, T) -> bool {
    (a: T, b: T) => key(b) <= key(a)
  }

  lemma ByKeyTotal<T(!new)>(key: T -> int)
    ensures TotalPreorder(ByKeyAscending(key))
    ensures TotalPreorder(ByKeyDescending(key))
  {
  }

  /** Lexicographic order on strings (Python's `<=` on `str`): a total preorder. */
  predicate LexLe(a: string, b: string)
    decreases |a|
  {
    a == [] || (b != [] && (a[0] < b[0] || (a[0] == b[0] && LexLe(a[1..], b[1..]))))
  }

  lemma {:induction false} LexLeTotal(a: string, b: string)
    ensures LexLe(a, b) || LexLe(b, a)
    decreases |a|
  {
    if a != [] && b != [] && a[0] == b[0] {
      LexLeTotal(a[1..], b[1..]);
    }
  }

  lemma {:induction false} LexLeTransitive(a: string, b: string, c: string)
    requires LexLe(a, b) && LexLe(b, c)
    ensures LexLe(a, c)
    decreases |a|
  {
    if a != [] && b != [] && c != [] && a[0] == b[0] && b[0] == c[0] {
      LexLeTransitive(a[1..], b[1..], c[1..]);
    }
  }

  /** Comparing strings after mapping them through `key`, in either direction. */
  function ByStringKey<T>(key: T -> string, descending: bool): (T, T) -> bool {
    if descending then (a: T, b: T) => LexLe(key(b), key(a))
    else (a: T, b: T) => LexLe(key(a), key(b))
  }

  lemma ByStringKeyTotal<T(!new)>(key: T -> string, descending: bool)
    ensures TotalPreorder(ByStringKey(key, descending))
  {
    var le := ByStringKey(key, descending);
    forall a, b ensures le(a, b) || le(b, a) {
      LexLeTotal(key(a), key(b));
    }
    forall a, b, c | le(a, b) && le(b, c) ensures le(a, c) {
      if descending {
        LexLeTransitive(key(c), key(b), key(a));
      } else {
        LexLeTransitive(key(a), key(b), key(c));
      }
    }
  }
}
