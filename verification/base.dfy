/** Generic building blocks shared by the editors: an optional value,
    order-preserving filtering (JavaScript's `Array.prototype.filter`),
    subsequences, and a stable insertion sort standing in for
    `Array.prototype.sort` with a numeric comparator. */
module Base {

  datatype Option<+T> = None | Some(value: T)

  /** `a` is obtained from `b` by deleting elements, keeping the order of the rest. */
  predicate IsSubsequence<T(==)>(a: seq<T>, b: seq<T>)
    decreases |b|
  {
    if |a| == 0 then true
    else if |b| == 0 then false
    else if a[0] == b[0] then IsSubsequence(a[1..], b[1..])
    else IsSubsequence(a, b[1..])
  }

  /** The elements of `s` that satisfy `p`, in their original order. */
  function Filter<T(==)>(s: seq<T>, p: T -> bool): (r: seq<T>)
    ensures |r| <= |s|
    ensures forall i :: 0 <= i < |r| ==> r[i] in s && p(r[i])
    ensures forall i :: 0 <= i < |s| && p(s[i]) ==> s[i] in r
    ensures multiset(r) <= multiset(s)
    ensures IsSubsequence(r, s)
    decreases |s|
  {
    if |s| == 0 then []
    else
      var rest := Filter(s[1..], p);
      assert s == [s[0]] + s[1..];
      if p(s[0]) then [s[0]] + rest
      else
        assert |rest| > 0 ==> rest[0] != s[0] by {
          if |rest| > 0 { assert rest[0] in rest; }
        }
        rest
  }

  /** Filtering keeps every copy of an element that passes: an element
      occurs as often in the result as in the list. */
  lemma {:induction false} FilterCount<T>(s: seq<T>, p: T -> bool, x: T)
    requires p(x)
    ensures multiset(Filter(s, p))[x] == multiset(s)[x]
    decreases |s|
  {
    if |s| > 0 {
      FilterCount(s[1..], p, x);
      assert s == [s[0]] + s[1..];
      assert multiset(s) == multiset{s[0]} + multiset(s[1..]);
      if p(s[0]) {
        assert multiset(Filter(s, p)) == multiset{s[0]} + multiset(Filter(s[1..], p));
      }
    }
  }

  /** `Filter(s, p)` holds exactly the passing elements of `s`, each as
      often as in `s`: together with the order kept, this pins the result. */
  lemma FilterCounts<T>(s: seq<T>, p: T -> bool)
    ensures forall i :: 0 <= i < |s| && p(s[i]) ==> multiset(Filter(s, p))[s[i]] == multiset(s)[s[i]]
  {
    forall i | 0 <= i < |s| && p(s[i]) ensures multiset(Filter(s, p))[s[i]] == multiset(s)[s[i]] {
      FilterCount(s, p, s[i]);
    }
  }

  /** Filtering a list one of whose elements was appended at the end. */
  lemma {:induction false} FilterAppend<T>(s: seq<T>, x: T, p: T -> bool)
    ensures Filter(s + [x], p) == Filter(s, p) + (if p(x) then [x] else [])
    decreases |s|
  {
    if |s| == 0 {
      assert s + [x] == [x];
      assert [x][1..] == [];
    } else {
      assert (s + [x])[1..] == s[1..] + [x];
      FilterAppend(s[1..], x, p);
    }
  }

  /** Filtering keeps a list whose every element passes. */
  lemma {:induction false} FilterAllPass<T>(s: seq<T>, p: T -> bool)
    requires forall i :: 0 <= i < |s| ==> p(s[i])
    ensures Filter(s, p) == s
    decreases |s|
  {
    if |s| > 0 {
      FilterAllPass(s[1..], p);
    }
  }

  /** The number of elements of `s` that satisfy `p`. */
  function CountWhere<T(==)>(s: seq<T>, p: T -> bool): (n: nat)
    ensures n == |Filter(s, p)|
    ensures n <= |s|
    decreases |s|
  {
    if |s| == 0 then 0 else (if p(s[0]) then 1 else 0) + CountWhere(s[1..], p)
  }

  /** Every element of `s` has a sort key. */
  predicate AllKeyed<T(==)>(s: seq<T>, key: T -> Option<int>)
  {
    forall i :: 0 <= i < |s| ==> key(s[i]).Some?
  }

  /** The keys of `s` are non-decreasing, where every key is known. */
  predicate SortedBy<T>(s: seq<T>, key: T -> Option<int>)
  {
    forall i, j :: 0 <= i < j < |s| && key(s[i]).Some? && key(s[j]).Some? ==> key(s[i]).value <= key(s[j]).value
  }

  /** `a` may stay ahead of `b`: a comparator that returns a non-positive number.
      A comparison involving an unknown key (JavaScript's NaN) never
      counts as "ahead". */
  predicate NotAfter<T>(a: T, b: T, key: T -> Option<int>)
  {
    key(a).Some? && key(b).Some? && key(a).value <= key(b).value
  }

  /** Inserts `x` after the leading elements that need not come after it. */
  function Insert<T(==)>(x: T, s: seq<T>, key: T -> Option<int>): (r: seq<T>)
    ensures |r| == |s| + 1
    ensures multiset(r) == multiset(s) + multiset{x}
    decreases |s|
  {
    if |s| == 0 then [x]
    else if NotAfter(s[0], x, key) then
      assert s == [s[0]] + s[1..];
      [s[0]] + Insert(x, s[1..], key)
    else
      [x] + s
  }

  /** Every element of `Insert(x, s, key)` is `x` or an element of `s`. */
  lemma InsertFrom<T>(x: T, s: seq<T>, key: T -> Option<int>, i: nat)
    requires i < |Insert(x, s, key)|
    ensures Insert(x, s, key)[i] == x || Insert(x, s, key)[i] in s
  {
    var r := Insert(x, s, key);
    assert r[i] in multiset(r);
  }

  /** Inserting into a sorted list of known keys keeps it sorted. */
  lemma {:induction false} InsertSorted<T>(x: T, s: seq<T>, key: T -> Option<int>)
    requires key(x).Some? && AllKeyed(s, key) && SortedBy(s, key)
    ensures SortedBy(Insert(x, s, key), key)
    decreases |s|
  {
    if |s| > 0 && NotAfter(s[0], x, key) {
      var rest := Insert(x, s[1..], key);
      assert AllKeyed(s[1..], key);
      InsertSorted(x, s[1..], key);
      forall i | 0 <= i < |rest|
        ensures key(rest[i]).Some? && key(s[0]).value <= key(rest[i]).value
      {
        InsertFrom(x, s[1..], key, i);
        if rest[i] != x {
          var j :| 0 <= j < |s[1..]| && s[1..][j] == rest[i];
          assert s[j + 1] == rest[i];
        }
      }
      assert Insert(x, s, key) == [s[0]] + rest;
    }
  }

  /** A stable insertion sort by `key`: later elements are inserted behind
      earlier ones with the same key. */
  function SortBy<T(==)>(s: seq<T>, key: T -> Option<int>): (r: seq<T>)
    ensures |r| == |s|
    ensures multiset(r) == multiset(s)
    ensures AllKeyed(s, key) ==> SortedBy(r, key)
    decreases |s|
  {
    if |s| == 0 then []
    else
      var init := s[..|s| - 1];
      var sorted := SortBy(init, key);
      assert s == init + [s[|s| - 1]];
      assert AllKeyed(s, key) ==> AllKeyed(sorted, key) by {
        if AllKeyed(s, key) {
          forall i | 0 <= i < |sorted| ensures key(sorted[i]).Some? {
            assert sorted[i] in multiset(sorted);
          }
        }
      }
      if AllKeyed(s, key) then
        InsertSorted(s[|s| - 1], sorted, key);
        Insert(s[|s| - 1], sorted, key)
      else
        Insert(s[|s| - 1], sorted, key)
  }

  /** Sorting a list whose keys are all known and already in order leaves it as it is. */
  lemma {:induction false} SortBySorted<T>(s: seq<T>, key: T -> Option<int>)
    requires AllKeyed(s, key) && SortedBy(s, key)
    ensures SortBy(s, key) == s
    decreases |s|
  {
    if |s| > 0 {
      var init, last := s[..|s| - 1], s[|s| - 1];
      SortedPrefix(s, key);
      forall i | 0 <= i < |init| ensures key(init[i]).value <= key(last).value {
        assert init[i] == s[i];
      }
      calc {
        SortBy(s, key);
      == { SortByLast(s, key); }
        Insert(last, SortBy(init, key), key);
      == { SortBySorted(init, key); }
        Insert(last, init, key);
      == { InsertAfterAll(last, init, key); }
        init + [last];
      == { assert init + [last] == s; }
        s;
      }
    }
  }

  /** `SortBy` inserts the last element into the sorted rest. */
  lemma SortByLast<T>(s: seq<T>, key: T -> Option<int>)
    requires |s| > 0
    ensures SortBy(s, key) == Insert(s[|s| - 1], SortBy(s[..|s| - 1], key), key)
  {
  }

  /** Dropping the last element of a sorted, keyed list leaves one that is
      still sorted and keyed, and none of whose keys exceed the last one. */
  lemma SortedPrefix<T>(s: seq<T>, key: T -> Option<int>)
    requires |s| > 0 && AllKeyed(s, key) && SortedBy(s, key)
    ensures AllKeyed(s[..|s| - 1], key) && SortedBy(s[..|s| - 1], key)
    ensures key(s[|s| - 1]).Some?
    ensures forall i :: 0 <= i < |s| - 1 ==> key(s[i]).value <= key(s[|s| - 1]).value
  {
  }

  /** An element whose key is at least every key of `s` is inserted at the end. */
  lemma {:induction false} InsertAfterAll<T>(x: T, s: seq<T>, key: T -> Option<int>)
    requires key(x).Some? && AllKeyed(s, key)
    requires forall i :: 0 <= i < |s| ==> key(s[i]).value <= key(x).value
    ensures Insert(x, s, key) == s + [x]
    decreases |s|
  {
    if |s| > 0 {
      assert NotAfter(s[0], x, key);
      assert AllKeyed(s[1..], key);
      InsertAfterAll(x, s[1..], key);
      assert s == [s[0]] + s[1..];
    }
  }

  /** The elements of `s` whose key is `k`, in their order in `s`. */
  function KeyRun<T>(s: seq<T>, key: T -> Option<int>, k: Option<int>): seq<T>
    decreases |s|
  {
    if |s| == 0 then []
    else (if key(s[0]) == k then [s[0]] else []) + KeyRun(s[1..], key, k)
  }

  /** The run of a list with an element appended at the end. */
  lemma {:induction false} KeyRunAppend<T>(s: seq<T>, x: T, key: T -> Option<int>, k: Option<int>)
    ensures KeyRun(s + [x], key, k) == KeyRun(s, key, k) + (if key(x) == k then [x] else [])
    decreases |s|
  {
    if |s| == 0 {
      assert s + [x] == [x];
      assert [x][1..] == [];
    } else {
      assert (s + [x])[1..] == s[1..] + [x];
      KeyRunAppend(s[1..], x, key, k);
      var h := if key(s[0]) == k then [s[0]] else [];
      assert h + (KeyRun(s[1..], key, k) + (if key(x) == k then [x] else []))
          == (h + KeyRun(s[1..], key, k)) + (if key(x) == k then [x] else []);
    }
  }

  /** Inserting a keyed element into a sorted list puts it behind every
      element with the same key. */
  lemma {:induction false} InsertBehindEqual<T>(x: T, s: seq<T>, key: T -> Option<int>, k: Option<int>)
    requires key(x).Some? && AllKeyed(s, key) && SortedBy(s, key)
    ensures KeyRun(Insert(x, s, key), key, k) == KeyRun(s, key, k) + (if key(x) == k then [x] else [])
    decreases |s|
  {
    if |s| == 0 {
      assert Insert(x, s, key) == [x];
      assert [x][1..] == [];
    } else if NotAfter(s[0], x, key) {
      assert AllKeyed(s[1..], key) && SortedBy(s[1..], key);
      InsertBehindEqual(x, s[1..], key, k);
      var rest := Insert(x, s[1..], key);
      assert Insert(x, s, key) == [s[0]] + rest;
      assert ([s[0]] + rest)[1..] == rest;
      var h := if key(s[0]) == k then [s[0]] else [];
      assert h + (KeyRun(s[1..], key, k) + (if key(x) == k then [x] else []))
          == (h + KeyRun(s[1..], key, k)) + (if key(x) == k then [x] else []);
    } else {
      assert Insert(x, s, key) == [x] + s;
      assert ([x] + s)[1..] == s;
      if key(x) == k {
        forall i | 0 <= i < |s| ensures key(s[i]) != k {
          if i > 0 {
            assert key(s[0]).value <= key(s[i]).value;
          }
        }
        KeyRunNone(s, key, k);
      }
    }
  }

  /** No element has key `k`: the run is empty. */
  lemma {:induction false} KeyRunNone<T>(s: seq<T>, key: T -> Option<int>, k: Option<int>)
    requires forall i :: 0 <= i < |s| ==> key(s[i]) != k
    ensures KeyRun(s, key, k) == []
    decreases |s|
  {
    if |s| > 0 {
      KeyRunNone(s[1..], key, k);
    }
  }

  /** A keyed list sorts to a keyed list. */
  lemma SortByKeyed<T>(s: seq<T>, key: T -> Option<int>)
    requires AllKeyed(s, key)
    ensures AllKeyed(SortBy(s, key), key)
  {
    var r := SortBy(s, key);
    forall i | 0 <= i < |r| ensures key(r[i]).Some? {
      assert r[i] in multiset(s);
    }
  }

  /** The sort is stable: on a keyed list, the elements with any one key
      come out in the order they went in. */
  lemma {:induction false} SortByStable<T>(s: seq<T>, key: T -> Option<int>, k: Option<int>)
    requires AllKeyed(s, key)
    ensures KeyRun(SortBy(s, key), key, k) == KeyRun(s, key, k)
    decreases |s|
  {
    if |s| > 0 {
      var init, last := s[..|s| - 1], s[|s| - 1];
      var sorted, e := SortBy(init, key), if key(last) == k then [last] else [];
      assert AllKeyed(init, key);
      calc {
        KeyRun(SortBy(s, key), key, k);
      == { SortByLast(s, key); }
        KeyRun(Insert(last, sorted, key), key, k);
      == { SortByKeyed(init, key); InsertBehindEqual(last, sorted, key, k); }
        KeyRun(sorted, key, k) + e;
      == { SortByStable(init, key, k); }
        KeyRun(init, key, k) + e;
      == { KeyRunAppend(init, last, key, k); assert init + [last] == s; }
        KeyRun(s, key, k);
      }
    }
  }

  /** `s` without the element at index `i` (JavaScript's
      `filter((_, j) => j !== i)`, or `splice(i, 1)`). */
  function RemoveAt<T>(s: seq<T>, i: nat): (r: seq<T>)
    ensures i < |s| ==> |r| == |s| - 1
    ensures i < |s| ==> forall j :: 0 <= j < |r| ==> r[j] == (if j < i then s[j] else s[j + 1])
    ensures i >= |s| ==> r == s
  {
    if i < |s| then s[..i] + s[i + 1..] else s
  }

  /** Removing an element and putting it back where it was are inverse. */
  lemma RemoveAtSplit<T>(a: seq<T>, x: T, b: seq<T>)
    ensures RemoveAt(a + [x] + b, |a|) == a + b
    ensures multiset(a + [x] + b) == multiset(a + b) + multiset{x}
  {
    var s := a + [x] + b;
    assert s[..|a|] == a;
    assert s[|a| + 1..] == b;
  }

  /** Filtering drops a list none of whose elements passes. */
  lemma {:induction false} FilterNonePass<T>(s: seq<T>, p: T -> bool)
    requires forall i :: 0 <= i < |s| ==> !p(s[i])
    ensures Filter(s, p) == []
    decreases |s|
  {
    if |s| > 0 {
      FilterNonePass(s[1..], p);
    }
  }

  /** When exactly the element at `i` passes, filtering yields just that element. */
  lemma {:induction false} FilterOnly<T>(s: seq<T>, i: nat, p: T -> bool)
    requires i < |s| && p(s[i])
    requires forall j :: 0 <= j < |s| && j != i ==> !p(s[j])
    ensures Filter(s, p) == [s[i]]
    decreases i
  {
    var t := s[1..];
    assert forall j :: 0 <= j < |t| ==> t[j] == s[j + 1];
    if i == 0 {
      FilterNonePass(t, p);
    } else {
      FilterOnly(t, i - 1, p);
    }
  }

  /** `Array.prototype.map`. */
  function Map<T, U>(s: seq<T>, f: T -> U): (r: seq<U>)
    ensures |r| == |s| && forall i :: 0 <= i < |s| ==> r[i] == f(s[i])
  {
    seq(|s|, i requires 0 <= i < |s| => f(s[i]))
  }

  /** Mapping both sides keeps a subsequence a subsequence. */
  lemma {:induction false} MapSubsequence<T, U>(a: seq<T>, b: seq<T>, f: T -> U)
    requires IsSubsequence(a, b)
    ensures IsSubsequence(Map(a, f), Map(b, f))
    decreases |b|
  {
    if |a| > 0 && |b| > 0 {
      var ma, mb := Map(a, f), Map(b, f);
      assert ma[1..] == Map(a[1..], f) && mb[1..] == Map(b[1..], f);
      if a[0] == b[0] {
        MapSubsequence(a[1..], b[1..], f);
      } else {
        MapSubsequence(a, b[1..], f);
        if ma[0] == mb[0] {
          SubsequenceDropHead(ma, mb[1..]);
        }
      }
    }
  }

  /** Dropping the first element of a subsequence leaves a subsequence. */
  lemma {:induction false} SubsequenceDropHead<T>(a: seq<T>, b: seq<T>)
    requires |a| > 0 && IsSubsequence(a, b)
    ensures IsSubsequence(a[1..], b)
    decreases |b|, 1
  {
    if a[0] == b[0] {
      SubsequenceExtend(a[1..], b);
    } else {
      SubsequenceDropHead(a, b[1..]);
      SubsequenceExtend(a[1..], b);
    }
  }

  /** A subsequence of the tail is a subsequence of the whole. */
  lemma {:induction false} SubsequenceExtend<T>(a: seq<T>, b: seq<T>)
    requires |b| > 0 && IsSubsequence(a, b[1..])
    ensures IsSubsequence(a, b)
    decreases |b|, 0
  {
    if |a| > 0 && a[0] == b[0] {
      SubsequenceDropHead(a, b[1..]);
    }
  }

  /** A value is in the mapped filter exactly when some passing element maps to it. */
  lemma MapFilterMember<T, U>(s: seq<T>, p: T -> bool, f: T -> U, u: U)
    ensures u in Map(Filter(s, p), f) <==> exists i :: 0 <= i < |s| && p(s[i]) && f(s[i]) == u
  {
    var kept := Filter(s, p);
    var r := Map(kept, f);
    if u in r {
      var j :| 0 <= j < |r| && r[j] == u;
      assert kept[j] in s;
    }
    if exists i :: 0 <= i < |s| && p(s[i]) && f(s[i]) == u {
      var i :| 0 <= i < |s| && p(s[i]) && f(s[i]) == u;
      var j :| 0 <= j < |kept| && kept[j] == s[i];
      assert r[j] == u;
    }
  }

  /** A file chosen in the browser: its name, MIME type and size in bytes. */
  datatype File = File(name: string, mimeType: string, size: nat)

  /** An expand/collapse toggle that shows one item at a time: choosing the
      expanded item collapses it, choosing another expands that one. */
  function Toggle<T(==)>(expanded: Option<T>, x: T): (r: Option<T>)
    ensures r == Some(x) <==> expanded != Some(x)
    ensures r.None? <==> expanded == Some(x)
  {
    if expanded == Some(x) then None else Some(x)
  }

  /** Choosing the same item twice restores the previous state exactly when
      nothing, or that item, was expanded before. */
  lemma ToggleTwice<T>(expanded: Option<T>, x: T)
    ensures Toggle(Toggle(expanded, x), x) == expanded <==> expanded.None? || expanded == Some(x)
  {
  }

  /** A permutation of a list whose keys are all known has all keys known. */
  lemma KeyedPermutation<T>(a: seq<T>, b: seq<T>, key: T -> Option<int>)
    requires multiset(a) == multiset(b) && AllKeyed(a, key)
    ensures AllKeyed(b, key)
  {
    forall i | 0 <= i < |b| ensures key(b[i]).Some? {
      assert b[i] in multiset(a);
    }
  }

  /** No element of `s` occurs twice. */
  predicate Distinct<T(==)>(s: seq<T>)
  {
    forall i, j :: 0 <= i < j < |s| ==> s[i] != s[j]
  }

  /** The set of elements of a list. */
  function Elements<T(==)>(s: seq<T>): set<T>
  {
    set x | x in s
  }

  /** A list without repetitions has as many elements as its set. */
  lemma {:induction false} DistinctCard<T>(s: seq<T>)
    requires Distinct(s)
    ensures |Elements(s)| == |s|
    decreases |s|
  {
    if |s| > 0 {
      DistinctCard(s[1..]);
      assert Elements(s) == {s[0]} + Elements(s[1..]);
      assert s[0] !in Elements(s[1..]);
    }
  }

  /** A subset as large as the set it is in is that set. */
  lemma SubsetSameCard<T>(a: set<T>, b: set<T>)
    requires a <= b && |a| == |b|
    ensures a == b
  {
    if a != b {
      var x :| x in b && x !in a;
      assert a <= b - {x};
      assert |b - {x}| == |b| - 1;
      SubsetCard(a, b - {x});
    }
  }

  lemma {:induction false} SubsetCard<T>(a: set<T>, b: set<T>)
    requires a <= b
    ensures |a| <= |b|
    decreases |b|
  {
    if a != {} {
      var x :| x in a;
      SubsetCard(a - {x}, b - {x});
    }
  }

  /** Filtering a list without repetitions leaves one without repetitions. */
  lemma {:induction false} FilterDistinct<T>(s: seq<T>, p: T -> bool)
    requires Distinct(s)
    ensures Distinct(Filter(s, p))
    decreases |s|
  {
    if |s| > 0 {
      FilterDistinct(s[1..], p);
    }
  }
}
