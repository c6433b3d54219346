/**
 * The preview-size choice made before a preview starts
 * (ConfigureAndStartPreviewCallable.findBestSize): sort the supported sizes by
 * descending area, then take the first square of side at least 480, else an
 * exact 640x480, else the largest size.
 */
module PreviewConfig {
  import opened CameraSizes

  predicate IsLargeSquare(s: Size)
  {
    s.width == s.height && s.width >= 480
  }

  /** The supported list after `Collections.sort` with `b.area - a.area`. */
  function ByDescendingArea(sizes: seq<Size>): seq<Size>
  {
    SortByKey(sizes, NegatedArea)
  }

  /** What the three scans of findBestSize return from the sorted list. */
  function ChooseFromSorted(sorted: seq<Size>): Pick
  {
    var k := IndexOfFirst(sorted, IsLargeSquare);
    if k < |sorted| then Picked(sorted[k])
    else if VGA in sorted then Picked(VGA)
    else if sorted == [] then Thrown
    else Picked(sorted[0])
  }

  /** findBestSize on a non-null supported list. */
  function BestSize(sizes: seq<Size>): Pick
  {
    ChooseFromSorted(ByDescendingArea(sizes))
  }

  method FindBestSize(sizes: array?<Size>) returns (r: Pick)
    modifies sizes
    ensures sizes == null ==> r == NoList
    ensures sizes != null ==> sizes[..] == ByDescendingArea(old(sizes[..]))
    ensures sizes != null ==> r == BestSize(old(sizes[..]))
  {
    if sizes == null {
      return NoList;
    }
    SortInPlace(sizes, NegatedArea);
    r := ScanSorted(sizes);
  }

  /** The three scans of findBestSize over the sorted list: a large square,
      then 640x480, then the first (largest) entry. */
  method ScanSorted(sizes: array<Size>) returns (r: Pick)
    ensures r == ChooseFromSorted(sizes[..])
  {
    for i := 0 to sizes.Length
      invariant forall j :: 0 <= j < i ==> !IsLargeSquare(sizes[j])
    {
      if IsLargeSquare(sizes[i]) {
        assert IndexOfFirst(sizes[..], IsLargeSquare) == i;
        return Picked(sizes[i]);
      }
    }
    assert IndexOfFirst(sizes[..], IsLargeSquare) == sizes.Length;
    for i := 0 to sizes.Length
      invariant VGA !in sizes[..i]
    {
      if sizes[i] == VGA {
        return Picked(sizes[i]);
      }
    }
    assert sizes[..sizes.Length] == sizes[..];
    if sizes.Length == 0 {
      return Thrown;  // sizes.get(0) on an empty list
    }
    return Picked(sizes[0]);
  }

  /** run(): the camera's preview size after configuration. A null list, or a
      selector that threw (the throw is caught by run), leaves it unchanged. */
  method ConfigurePreviewSize(sizes: array?<Size>, current: Size) returns (preview: Size)
    modifies sizes
    ensures sizes == null ==> preview == current
    ensures sizes != null ==> preview == match BestSize(old(sizes[..]))
                                         case Picked(s) => s
                                         case _ => current
  {
    var best := FindBestSize(sizes);
    preview := if best.Picked? then best.size else current;
  }

  /** Every size findBestSize returns comes from the supported list, and only
      the empty list makes it throw. */
  lemma BestSizeIsListed(sizes: seq<Size>)
    ensures BestSize(sizes) != NoList
    ensures BestSize(sizes) == Thrown <==> sizes == []
    ensures BestSize(sizes).Picked? ==> BestSize(sizes).size in sizes
  {
    var sorted := ByDescendingArea(sizes);
    if BestSize(sizes).Picked? {
      SortByKeySameElements(sizes, NegatedArea, BestSize(sizes).size);
    }
  }

  /** With a square of side at least 480 in the list, the pick is such a
      square, and no qualifying square has a larger area. */
  lemma BestSizePrefersLargestSquare(sizes: seq<Size>)
    requires exists q :: q in sizes && IsLargeSquare(q)
    ensures BestSize(sizes).Picked? && IsLargeSquare(BestSize(sizes).size)
    ensures forall q :: q in sizes && IsLargeSquare(q) ==> Area(q) <= Area(BestSize(sizes).size)
    ensures exists m :: 0 <= m < |sizes| && sizes[m] == BestSize(sizes).size &&
              forall j :: 0 <= j < m && IsLargeSquare(sizes[j]) ==> Area(sizes[j]) < Area(sizes[m])
  {
    var sorted := ByDescendingArea(sizes);
    SortByKeySorted(sizes, NegatedArea);
    var q0 :| q0 in sizes && IsLargeSquare(q0);
    SortByKeySameElements(sizes, NegatedArea, q0);
    FirstPassingHasLeastKey(sorted, NegatedArea, IsLargeSquare, q0);
    forall q | q in sizes && IsLargeSquare(q)
      ensures NegatedArea(sorted[IndexOfFirst(sorted, IsLargeSquare)]) <= NegatedArea(q)
    {
      SortByKeySameElements(sizes, NegatedArea, q);
      FirstPassingHasLeastKey(sorted, NegatedArea, IsLargeSquare, q);
    }
    // Equal areas keep their input order, so the first of the largest squares wins.
    var m := StableFirst(sizes, NegatedArea, IsLargeSquare, sorted, IndexOfFirst(sorted, IsLargeSquare));
    forall j | 0 <= j < m && IsLargeSquare(sizes[j]) ensures Area(sizes[j]) < Area(sizes[m]) {
      assert sizes[j] in sizes;
    }
  }

  /** Without a qualifying square, an exact 640x480 entry is picked. */
  lemma BestSizeFallsBackToVga(sizes: seq<Size>)
    requires forall q :: q in sizes ==> !IsLargeSquare(q)
    requires VGA in sizes
    ensures BestSize(sizes) == Picked(VGA)
  {
    var sorted := ByDescendingArea(sizes);
    SortByKeySameElements(sizes, NegatedArea, VGA);
    var k := IndexOfFirst(sorted, IsLargeSquare);
    if k < |sorted| {
      SortByKeySameElements(sizes, NegatedArea, sorted[k]);
    }
  }

  /** Without a qualifying square or 640x480, a largest-area size is picked. */
  lemma BestSizeFallsBackToLargest(sizes: seq<Size>)
    requires forall q :: q in sizes ==> !IsLargeSquare(q)
    requires VGA !in sizes
    requires sizes != []
    ensures BestSize(sizes).Picked? && BestSize(sizes).size in sizes
    ensures forall q :: q in sizes ==> Area(q) <= Area(BestSize(sizes).size)
    ensures exists m :: 0 <= m < |sizes| && sizes[m] == BestSize(sizes).size &&
              forall j :: 0 <= j < m ==> Area(sizes[j]) < Area(sizes[m])
  {
    var sorted := ByDescendingArea(sizes);
    SortByKeySorted(sizes, NegatedArea);
    SortByKeySameElements(sizes, NegatedArea, VGA);
    var k := IndexOfFirst(sorted, IsLargeSquare);
    if k < |sorted| {
      SortByKeySameElements(sizes, NegatedArea, sorted[k]);
    }
    SortByKeySameElements(sizes, NegatedArea, sorted[0]);
    forall q | q in sizes ensures Area(q) <= Area(sorted[0]) {
      SortByKeySameElements(sizes, NegatedArea, q);
      var j :| 0 <= j < |sorted| && sorted[j] == q;
      if 0 < j {
        assert NegatedArea(sorted[0]) <= NegatedArea(sorted[j]);
      }
    }
    // Equal areas keep their input order, so the first of the largest sizes wins.
    var m := StableFirst(sizes, NegatedArea, AnySize, sorted, 0);
    forall j | 0 <= j < m ensures Area(sizes[j]) < Area(sizes[m]) {
      assert sizes[j] in sizes;
      assert AnySize(sizes[j]);
    }
  }
}
