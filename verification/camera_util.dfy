/**
 * CameraUtil: the front camera id, and calBestPreviewSize, which picks a
 * preview size for a requested width and height: an exact match, else (for a
 * square request) a square of side at least 400 in list order, else the
 * smallest-area size covering the request, else the largest size.
 */
module CameraUtil {
  import opened CameraSizes

  /** getFrontFacingCameraId: the context is ignored. */
  function FrontFacingCameraId(): (id: int)
    ensures id == 1
  {
    1
  }

  predicate Matches(s: Size, width: int, height: int)
  {
    s.width == width && s.height == height
  }

  predicate IsSquareAtLeast400(s: Size)
  {
    s.width == s.height && s.width >= 400
  }

  predicate Covers(s: Size, width: int, height: int)
  {
    s.width >= width && s.height >= height
  }

  /** The test of the exact-match scan, as a predicate value. */
  function MatchesRequest(width: int, height: int): (p: Size -> bool)
    ensures forall s :: p(s) == Matches(s, width, height)
  {
    s => Matches(s, width, height)
  }

  /** The test of the covering scan, as a predicate value. */
  function CoversRequest(width: int, height: int): (p: Size -> bool)
    ensures forall s :: p(s) == Covers(s, width, height)
  {
    s => Covers(s, width, height)
  }

  /** The list after `Collections.sort` with `lhs.area - rhs.area`. */
  function ByAscendingArea(sizes: seq<Size>): seq<Size>
  {
    SortByKey(sizes, Area)
  }

  function ExactIndex(sizes: seq<Size>, width: int, height: int): nat
  {
    IndexOfFirst(sizes, MatchesRequest(width, height))
  }

  function SquareIndex(sizes: seq<Size>): nat
  {
    IndexOfFirst(sizes, IsSquareAtLeast400)
  }

  /** Whether calBestPreviewSize gets as far as sorting the list. */
  predicate SortsList(sizes: seq<Size>, width: int, height: int)
  {
    ExactIndex(sizes, width, height) == |sizes| &&
    (width == height ==> SquareIndex(sizes) == |sizes|)
  }

  /** What the covering scan and the final `get` return from the sorted list. */
  function PickFromSorted(sorted: seq<Size>, width: int, height: int): Pick
  {
    var c := IndexOfFirst(sorted, CoversRequest(width, height));
    if c < |sorted| then Picked(sorted[c])
    else if sorted == [] then Thrown  // get(size() - 1) on an empty list
    else Picked(sorted[|sorted| - 1])
  }

  /** calBestPreviewSize on a non-null supported list. */
  function BestPreviewSize(sizes: seq<Size>, width: int, height: int): Pick
  {
    var e := ExactIndex(sizes, width, height);
    if e < |sizes| then Picked(sizes[e])
    else if width == height && SquareIndex(sizes) < |sizes| then Picked(sizes[SquareIndex(sizes)])
    else PickFromSorted(ByAscendingArea(sizes), width, height)
  }

  method CalBestPreviewSize(sizes: array?<Size>, width: int, height: int) returns (r: Pick)
    modifies sizes
    ensures sizes == null ==> r == NoList
    ensures sizes != null ==> r == BestPreviewSize(old(sizes[..]), width, height)
    ensures sizes != null ==> sizes[..] == if SortsList(old(sizes[..]), width, height)
                                           then ByAscendingArea(old(sizes[..]))
                                           else old(sizes[..])
  {
    if sizes == null {
      return NoList;
    }
    var early := ScanOriginalOrder(sizes, width, height);
    if early.Some? {
      return Picked(early.value);
    }
    SortInPlace(sizes, Area);
    r := ScanSortedOrder(sizes, width, height);
  }

  /** The exact-match scan, then (for a square request) the square scan, both
      over the list in its original order. */
  method ScanOriginalOrder(sizes: array<Size>, width: int, height: int) returns (found: Option<Size>)
    ensures found.None? <==> SortsList(sizes[..], width, height)
    ensures found.Some? ==> BestPreviewSize(sizes[..], width, height) == Picked(found.value)
  {
    for i := 0 to sizes.Length
      invariant forall j :: 0 <= j < i ==> !Matches(sizes[j], width, height)
    {
      if sizes[i].width == width && sizes[i].height == height {
        assert ExactIndex(sizes[..], width, height) == i;
        return Some(sizes[i]);
      }
    }
    assert ExactIndex(sizes[..], width, height) == sizes.Length;
    if width == height {
      for i := 0 to sizes.Length
        invariant forall j :: 0 <= j < i ==> !IsSquareAtLeast400(sizes[j])
      {
        if sizes[i].width == sizes[i].height && sizes[i].width >= 400 {
          assert SquareIndex(sizes[..]) == i;
          return Some(sizes[i]);
        }
      }
      assert SquareIndex(sizes[..]) == sizes.Length;
    }
    return None;
  }

  /** The covering scan over the sorted list, then the last element. */
  method ScanSortedOrder(sizes: array<Size>, width: int, height: int) returns (r: Pick)
    ensures r == PickFromSorted(sizes[..], width, height)
  {
    for i := 0 to sizes.Length
      invariant forall j :: 0 <= j < i ==> !Covers(sizes[j], width, height)
    {
      if sizes[i].width >= width && sizes[i].height >= height {
        assert IndexOfFirst(sizes[..], CoversRequest(width, height)) == i;
        return Picked(sizes[i]);
      }
    }
    assert IndexOfFirst(sizes[..], CoversRequest(width, height)) == sizes.Length;
    if sizes.Length == 0 {
      return Thrown;
    }
    return Picked(sizes[sizes.Length - 1]);
  }

  /** An exact match is returned, and the list is left unsorted. */
  lemma ExactMatchWins(sizes: seq<Size>, width: int, height: int)
    requires exists i :: 0 <= i < |sizes| && Matches(sizes[i], width, height)
    ensures BestPreviewSize(sizes, width, height).Picked?
    ensures Matches(BestPreviewSize(sizes, width, height).size, width, height)
    ensures !SortsList(sizes, width, height)
  {
    var i :| 0 <= i < |sizes| && Matches(sizes[i], width, height);
    assert ExactIndex(sizes, width, height) <= i;
  }

  /** For a square request without an exact match, the first square of side
      at least 400 in the original (unsorted) order is returned. */
  lemma SquareRequestTakesFirstLargeSquare(sizes: seq<Size>, width: int, height: int)
    requires width == height
    requires forall i :: 0 <= i < |sizes| ==> !Matches(sizes[i], width, height)
    requires exists i :: 0 <= i < |sizes| && IsSquareAtLeast400(sizes[i])
    ensures !SortsList(sizes, width, height)
    ensures exists k :: 0 <= k < |sizes| && BestPreviewSize(sizes, width, height) == Picked(sizes[k])
                        && IsSquareAtLeast400(sizes[k])
                        && forall j :: 0 <= j < k ==> !IsSquareAtLeast400(sizes[j])
  {
    var k := SquareIndex(sizes);
    assert k < |sizes|;
  }

  /** Once sorted, the first covering size is a smallest-area covering size. */
  lemma SortedPickIsSmallestCovering(sizes: seq<Size>, width: int, height: int)
    requires SortsList(sizes, width, height)
    requires exists q :: q in sizes && Covers(q, width, height)
    ensures BestPreviewSize(sizes, width, height).Picked?
    ensures BestPreviewSize(sizes, width, height).size in sizes
    ensures Covers(BestPreviewSize(sizes, width, height).size, width, height)
    ensures forall q :: q in sizes && Covers(q, width, height) ==>
              Area(BestPreviewSize(sizes, width, height).size) <= Area(q)
    ensures exists m :: 0 <= m < |sizes| && sizes[m] == BestPreviewSize(sizes, width, height).size &&
              forall j :: 0 <= j < m && Covers(sizes[j], width, height) ==> Area(sizes[m]) < Area(sizes[j])
  {
    var sorted := ByAscendingArea(sizes);
    var covers := CoversRequest(width, height);
    SortByKeySorted(sizes, Area);
    var q0 :| q0 in sizes && Covers(q0, width, height);
    SortByKeySameElements(sizes, Area, q0);
    FirstPassingHasLeastKey(sorted, Area, covers, q0);
    var c := IndexOfFirst(sorted, covers);
    SortByKeySameElements(sizes, Area, sorted[c]);
    forall q | q in sizes && Covers(q, width, height) ensures Area(sorted[c]) <= Area(q) {
      SortByKeySameElements(sizes, Area, q);
      FirstPassingHasLeastKey(sorted, Area, covers, q);
    }
    // Equal areas keep their input order, so the first of the smallest covering sizes wins.
    var m := StableFirst(sizes, Area, covers, sorted, c);
    forall j | 0 <= j < m && Covers(sizes[j], width, height) ensures Area(sizes[m]) < Area(sizes[j]) {
      assert sizes[j] in sizes && covers(sizes[j]);
    }
  }

  /** When nothing covers the request, the largest-area size is returned; an
      empty list makes calBestPreviewSize throw. */
  lemma UncoveredPickIsLargest(sizes: seq<Size>, width: int, height: int)
    requires SortsList(sizes, width, height)
    requires forall q :: q in sizes ==> !Covers(q, width, height)
    ensures sizes == [] ==> BestPreviewSize(sizes, width, height) == Thrown
    ensures sizes != [] ==> BestPreviewSize(sizes, width, height).Picked? &&
                            BestPreviewSize(sizes, width, height).size in sizes
    ensures forall q :: q in sizes ==> Area(q) <= Area(BestPreviewSize(sizes, width, height).size)
    ensures sizes != [] ==>
              exists m :: 0 <= m < |sizes| && sizes[m] == BestPreviewSize(sizes, width, height).size &&
                          forall j :: m < j < |sizes| ==> Area(sizes[j]) < Area(sizes[m])
  {
    var sorted := ByAscendingArea(sizes);
    NonePassAfterSort(sizes, Area, CoversRequest(width, height));
    if sizes != [] {
      SortByKeySorted(sizes, Area);
      var last := sorted[|sorted| - 1];
      assert BestPreviewSize(sizes, width, height) == Picked(last);
      SortByKeySameElements(sizes, Area, last);
      forall q | q in sizes ensures Area(q) <= Area(last) {
        SortByKeySameElements(sizes, Area, q);
        LastHasGreatestKey(sorted, Area, q);
      }
      // Equal areas keep their input order, so the last of the largest sizes wins.
      var m := StableLast(sizes, Area, AnySize, sorted, |sorted| - 1);
      forall j | m < j < |sizes| ensures Area(sizes[j]) < Area(sizes[m]) {
        assert sizes[j] in sizes;
        assert AnySize(sizes[j]);
      }
    }
  }
}
