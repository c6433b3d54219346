/**
 * Camera preview sizes as (width, height) pairs, and the list operations the
 * three size selectors share: the stable sort that `Collections.sort` performs
 * with an area comparator, and the "first element that satisfies a test" that
 * their early-return loops compute.
 */
module CameraSizes {

  /** A dimension of a supported preview size. Bounded so that areas, their
      differences and their distance to 640x480 stay far inside Java's int. */
  type Dim = d: int | 0 <= d < 0x8000

  datatype Size = Size(width: Dim, height: Dim)

  datatype Option<T> = None | Some(value: T)

  /** Outcome of a size selector: the supported list was null, a size was
      picked, or the selector threw (an index into an empty list). */
  datatype Pick = NoList | Picked(size: Size) | Thrown

  const VGA: Size := Size(640, 480)

  function Area(s: Size): int
  {
    s.width * s.height
  }

  lemma MulLe(a: int, b: int, c: int)
    requires 0 <= a && b <= c
    ensures a * b <= a * c
  {
    assert a * c - a * b == a * (c - b);
  }

  /** Areas fit in 30 bits. */
  lemma AreaBounds(s: Size)
    ensures 0 <= Area(s) < 0x4000_0000
  {
    var w: int, h: int := s.width, s.height;
    MulLe(w, h, 0x7FFF);
    MulLe(0x7FFF, w, 0x7FFF);
  }

  /** Sort key of the descending comparator `b.area - a.area`. */
  function NegatedArea(s: Size): int
  {
    -Area(s)
  }

  /** Index of the first element of `s` that passes `p`, or |s| when none does. */
  function IndexOfFirst(s: seq<Size>, p: Size -> bool): (k: nat)
    ensures k <= |s|
    ensures k < |s| ==> p(s[k])
    ensures forall j :: 0 <= j < k ==> !p(s[j])
  {
    if s == [] then 0
    else if p(s[0]) then 0
    else 1 + IndexOfFirst(s[1..], p)
  }

  ghost predicate SortedByKey(s: seq<Size>, key: Size -> int)
  {
    forall i, j :: 0 <= i < j < |s| ==> key(s[i]) <= key(s[j])
  }

  /** Inserts `x` after every element whose key is at most `key(x)`; into a
      sorted list this is one step of a stable insertion sort. */
  function InsertByKey(x: Size, s: seq<Size>, key: Size -> int): (r: seq<Size>)
    ensures |r| == |s| + 1
    ensures multiset(r) == multiset(s) + multiset{x}
  {
    if s == [] || key(x) < key(s[0]) then [x] + s
    else
      assert s == [s[0]] + s[1..];
      [s[0]] + InsertByKey(x, s[1..], key)
  }

  /** The list that a stable sort by ascending `key` produces: elements are
      inserted in input order, each after the equal-keyed ones already placed. */
  function SortByKey(s: seq<Size>, key: Size -> int): (r: seq<Size>)
    ensures |r| == |s|
    ensures multiset(r) == multiset(s)
  {
    if s == [] then []
    else
      assert s == s[..|s| - 1] + [s[|s| - 1]];
      InsertByKey(s[|s| - 1], SortByKey(s[..|s| - 1], key), key)
  }

  lemma {:induction false} InsertByKeySorted(x: Size, s: seq<Size>, key: Size -> int)
    requires SortedByKey(s, key)
    ensures SortedByKey(InsertByKey(x, s, key), key)
  {
    if s == [] || key(x) < key(s[0]) {
    } else {
      var tail := InsertByKey(x, s[1..], key);
      InsertByKeySorted(x, s[1..], key);
      forall j | 0 <= j < |tail| ensures key(s[0]) <= key(tail[j]) {
        assert tail[j] in multiset(tail);
        assert tail[j] in multiset(s[1..]) || tail[j] == x;
        if tail[j] != x {
          var m :| 0 <= m < |s[1..]| && s[1..][m] == tail[j];
          assert s[m + 1] == tail[j];
        }
      }
    }
  }

  /** The sort puts its result in ascending key order. */
  lemma {:induction false} SortByKeySorted(s: seq<Size>, key: Size -> int)
    ensures SortedByKey(SortByKey(s, key), key)
  {
    if s != [] {
      SortByKeySorted(s[..|s| - 1], key);
      InsertByKeySorted(s[|s| - 1], SortByKey(s[..|s| - 1], key), key);
    }
  }

  /** The sort keeps exactly the elements of its input. */
  lemma SortByKeySameElements(s: seq<Size>, key: Size -> int, x: Size)
    ensures x in SortByKey(s, key) <==> x in s
  {
    var r := SortByKey(s, key);
    assert x in r <==> x in multiset(r);
    assert x in s <==> x in multiset(s);
  }

  /** In a list sorted by `key`, the first element passing `p` has the least
      key of all elements passing `p`. */
  lemma FirstPassingHasLeastKey(sorted: seq<Size>, key: Size -> int, p: Size -> bool, x: Size)
    requires SortedByKey(sorted, key)
    requires x in sorted && p(x)
    ensures IndexOfFirst(sorted, p) < |sorted|
    ensures key(sorted[IndexOfFirst(sorted, p)]) <= key(x)
  {
    var j :| 0 <= j < |sorted| && sorted[j] == x;
    var k := IndexOfFirst(sorted, p);
    assert k <= j;
    if k < j {
      assert key(sorted[k]) <= key(sorted[j]);
    }
  }

  /** In a list sorted by `key`, the last element has the greatest key. */
  lemma LastHasGreatestKey(sorted: seq<Size>, key: Size -> int, x: Size)
    requires SortedByKey(sorted, key)
    requires x in sorted
    ensures key(x) <= key(sorted[|sorted| - 1])
  {
    var j :| 0 <= j < |sorted| && sorted[j] == x;
    if j < |sorted| - 1 {
      assert key(sorted[j]) <= key(sorted[|sorted| - 1]);
    }
  }

  /** When no element passes `p`, none of the sorted list does either. */
  lemma NonePassAfterSort(s: seq<Size>, key: Size -> int, p: Size -> bool)
    requires forall x :: x in s ==> !p(x)
    ensures IndexOfFirst(SortByKey(s, key), p) == |s|
  {
    var sorted := SortByKey(s, key);
    var k := IndexOfFirst(sorted, p);
    if k < |sorted| {
      SortByKeySameElements(s, key, sorted[k]);
      assert false;
    }
  }

  /** The elements of `s` that pass `p`, in their order in `s`. */
  function Filter(s: seq<Size>, p: Size -> bool): (r: seq<Size>)
    ensures |r| <= |s|
  {
    if s == [] then []
    else Filter(s[..|s| - 1], p) + (if p(s[|s| - 1]) then [s[|s| - 1]] else [])
  }

  lemma {:induction false} FilterAppend(a: seq<Size>, b: seq<Size>, p: Size -> bool)
    ensures Filter(a + b, p) == Filter(a, p) + Filter(b, p)
  {
    if b == [] {
      assert a + b == a;
    } else {
      var b' := b[..|b| - 1];
      assert (a + b)[..|a + b| - 1] == a + b';
      assert (a + b)[|a + b| - 1] == b[|b| - 1];
      FilterAppend(a, b', p);
    }
  }

  lemma {:induction false} FilterNone(s: seq<Size>, p: Size -> bool)
    requires forall j :: 0 <= j < |s| ==> !p(s[j])
    ensures Filter(s, p) == []
  {
    if s != [] {
      FilterNone(s[..|s| - 1], p);
    }
  }

  /** The first element of `s` passing `p` heads the filtered list. */
  lemma {:induction false} FilterFirst(s: seq<Size>, p: Size -> bool, m: int)
    requires 0 <= m < |s| && p(s[m])
    requires forall j :: 0 <= j < m ==> !p(s[j])
    ensures Filter(s, p) != [] && Filter(s, p)[0] == s[m]
  {
    var init := s[..|s| - 1];
    if m == |s| - 1 {
      FilterNone(init, p);
    } else {
      FilterFirst(init, p, m);
    }
  }

  /** The last element of `s` passing `p` ends the filtered list. */
  lemma {:induction false} FilterLast(s: seq<Size>, p: Size -> bool, m: int)
    requires 0 <= m < |s| && p(s[m])
    requires forall j :: m < j < |s| ==> !p(s[j])
    ensures Filter(s, p) != [] && Filter(s, p)[|Filter(s, p)| - 1] == s[m]
  {
    if m < |s| - 1 {
      FilterLast(s[..|s| - 1], p, m);
    }
  }

  /** Inserting into a sorted list puts `x` after every element of its key, so
      among elements of one key the new one comes last. */
  /** Filtering a list with `x` in front: `x` is kept, and comes last, when no
      later element passes. */
  lemma FilterConsFirst(x: Size, s: seq<Size>, p: Size -> bool)
    requires p(x) ==> forall j :: 0 <= j < |s| ==> !p(s[j])
    ensures Filter([x] + s, p) == Filter(s, p) + (if p(x) then [x] else [])
  {
    FilterAppend([x], s, p);
    assert [x][..0] == [];
    if p(x) {
      FilterNone(s, p);
    }
  }

  lemma FilterConsLater(y: Size, tail: seq<Size>, inserted: seq<Size>, e: seq<Size>, p: Size -> bool)
    requires Filter(inserted, p) == Filter(tail, p) + e
    ensures Filter([y] + inserted, p) == Filter([y] + tail, p) + e
  {
    FilterAppend([y], inserted, p);
    FilterAppend([y], tail, p);
    ConcatAssoc(Filter([y], p), Filter(tail, p), e);
  }

  lemma ConcatAssoc(a: seq<Size>, b: seq<Size>, c: seq<Size>)
    ensures a + (b + c) == (a + b) + c
  {
  }

  /** Inserting into a sorted list puts `x` after every element of its key, so
      among elements of one key the new one comes last. */
  lemma {:induction false} InsertByKeyFilter(x: Size, s: seq<Size>, key: Size -> int, p: Size -> bool, k: int)
    requires SortedByKey(s, key)
    requires forall y :: p(y) ==> key(y) == k
    ensures Filter(InsertByKey(x, s, key), p) == Filter(s, p) + (if p(x) then [x] else [])
  {
    if s == [] || key(x) < key(s[0]) {
      assert InsertByKey(x, s, key) == [x] + s;
      if p(x) {
        forall j | 0 <= j < |s| ensures !p(s[j]) {
          if 0 < j {
            assert key(s[0]) <= key(s[j]);
          }
        }
      }
      FilterConsFirst(x, s, p);
    } else {
      var tail := s[1..];
      assert InsertByKey(x, s, key) == [s[0]] + InsertByKey(x, tail, key);
      InsertByKeyFilter(x, tail, key, p, k);
      FilterConsLater(s[0], tail, InsertByKey(x, tail, key), if p(x) then [x] else [], p);
      assert [s[0]] + tail == s;
    }
  }

  /** `Collections.sort` is stable: elements that share one key keep their
      input order. Stated for any test `p` passed only by elements of key `k`. */
  lemma {:induction false} SortByKeyStable(s: seq<Size>, key: Size -> int, p: Size -> bool, k: int)
    requires forall y :: p(y) ==> key(y) == k
    ensures Filter(SortByKey(s, key), p) == Filter(s, p)
  {
    if s != [] {
      var init := s[..|s| - 1];
      SortByKeyStable(init, key, p, k);
      SortByKeySorted(init, key);
      InsertByKeyFilter(s[|s| - 1], SortByKey(init, key), key, p, k);
    }
  }

  /** Some element of `s` passes `p` exactly when the search finds one. */
  lemma IndexOfFirstFinds(s: seq<Size>, p: Size -> bool, i: int)
    requires 0 <= i < |s| && p(s[i])
    ensures IndexOfFirst(s, p) <= i
  {
  }

  /** Index of the last element of `s` that passes `p`, or -1 when none does. */
  function IndexOfLast(s: seq<Size>, p: Size -> bool): (k: int)
    ensures -1 <= k < |s|
    ensures 0 <= k ==> p(s[k])
    ensures forall j :: k < j < |s| ==> !p(s[j])
  {
    if s == [] then -1
    else if p(s[|s| - 1]) then |s| - 1
    else IndexOfLast(s[..|s| - 1], p)
  }

  /** The test "passes `p` and has key `k`", as a predicate value. */
  function WithKey(p: Size -> bool, key: Size -> int, k: int): (q: Size -> bool)
    ensures forall y :: q(y) == (p(y) && key(y) == k)
  {
    y => p(y) && key(y) == k
  }

  /** Ties after a stable sort, forwards: if `sorted[i]` is the first element
      passing `p` with its key, then it is the first such element of the input. */
  lemma StableFirst(s: seq<Size>, key: Size -> int, p: Size -> bool, sorted: seq<Size>, i: int)
      returns (m: int)
    requires sorted == SortByKey(s, key)
    requires 0 <= i < |sorted| && p(sorted[i])
    requires forall j :: 0 <= j < i && p(sorted[j]) ==> key(sorted[j]) != key(sorted[i])
    ensures 0 <= m < |s| && s[m] == sorted[i]
    ensures forall j :: 0 <= j < m && p(s[j]) ==> key(s[j]) != key(s[m])
  {
    var x := sorted[i];
    var q := WithKey(p, key, key(x));
    FilterFirst(sorted, q, i);
    SortByKeyStable(s, key, q, key(x));
    SortByKeySameElements(s, key, x);
    var w :| 0 <= w < |s| && s[w] == x;
    IndexOfFirstFinds(s, q, w);
    m := IndexOfFirst(s, q);
    FilterFirst(s, q, m);
  }

  /** Ties after a stable sort, backwards: if `sorted[i]` is the last element
      passing `p` with its key, then it is the last such element of the input. */
  lemma StableLast(s: seq<Size>, key: Size -> int, p: Size -> bool, sorted: seq<Size>, i: int)
      returns (m: int)
    requires sorted == SortByKey(s, key)
    requires 0 <= i < |sorted| && p(sorted[i])
    requires forall j :: i < j < |sorted| && p(sorted[j]) ==> key(sorted[j]) != key(sorted[i])
    ensures 0 <= m < |s| && s[m] == sorted[i]
    ensures forall j :: m < j < |s| && p(s[j]) ==> key(s[j]) != key(s[m])
  {
    var x := sorted[i];
    var q := WithKey(p, key, key(x));
    FilterLast(sorted, q, i);
    SortByKeyStable(s, key, q, key(x));
    SortByKeySameElements(s, key, x);
    var w :| 0 <= w < |s| && s[w] == x;
    m := IndexOfLast(s, q);
    assert q(s[w]);
    FilterLast(s, q, m);
  }

  /** Every size, as a test. */
  predicate AnySize(s: Size)
  {
    true
  }

  /** `Collections.sort(list, comparator)` on a list held in an array: the
      array ends up holding the stable sort of its old contents. */
  method SortInPlace(a: array<Size>, key: Size -> int)
    modifies a
    ensures a[..] == SortByKey(old(a[..]), key)
  {
    var sorted := SortByKey(a[..], key);
    forall i | 0 <= i < a.Length {
      a[i] := sorted[i];
    }
  }
}
