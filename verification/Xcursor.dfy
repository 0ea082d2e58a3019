/** Choosing the images of a cursor from the table of contents of an Xcursor file (Xcursor(3), CURSOR FILES): one
    loop picks the size and counts its images, another finds each of them. */
module Xcursor {
  import opened Sequences

  const IMAGE_TYPE := 0xfffd0002

  type Image = nat

  /** An entry; for an image the subtype is its nominal size. */
  datatype Toc = Toc(kind: nat, subtype: nat, position: nat) {
    predicate Image() { kind == IMAGE_TYPE }
  }

  function Dist(a: nat, b: nat): (r: nat)
    ensures a == b + r || b == a + r
  {
    if a > b then a - b else b - a
  }

  // ----- what is asked for

  /** The indexes of the image entries of a size, in order. */
  function Entries(tocs: seq<Toc>, size: nat): (r: seq<nat>)
    ensures forall k :: 0 <= k < |r| ==> r[k] < |tocs|
  {
    if tocs == [] then []
    else
      var last := |tocs| - 1;
      Entries(tocs[..last], size) + if tocs[last].Image() && tocs[last].subtype == size then [last] else []
  }

  lemma {:induction false} EntriesAreAll(tocs: seq<Toc>, size: nat, i: nat)
    requires i < |tocs|
    ensures i in Entries(tocs, size) <==> tocs[i].kind == 0xfffd0002 && tocs[i].subtype == size
  {
    if i < |tocs| - 1 {
      EntriesAreAll(tocs[..|tocs| - 1], size, i);
    }
  }

  lemma {:induction false} EntriesIncrease(tocs: seq<Toc>, size: nat)
    ensures forall j, k :: 0 <= j < k < |Entries(tocs, size)| ==> Entries(tocs, size)[j] < Entries(tocs, size)[k]
  {
    if tocs != [] {
      EntriesIncrease(tocs[..|tocs| - 1], size);
    }
  }

  lemma {:induction false} EntriesOfPrefix(tocs: seq<Toc>, size: nat, n: nat)
    requires n <= |tocs|
    ensures |Entries(tocs[..n], size)| <= |Entries(tocs, size)|
    ensures Entries(tocs[..n], size) == Entries(tocs, size)[..|Entries(tocs[..n], size)|]
  {
    if n == |tocs| {
      assert tocs[..n] == tocs;
    } else {
      EntriesOfPrefix(tocs[..|tocs| - 1], size, n);
      assert tocs[..|tocs| - 1][..n] == tocs[..n];
    }
  }

  /** `size` is that of an image entry nearest to the request and `count` the number of image entries of that size;
      both are zero when there is no image. */
  ghost predicate IsNearest(tocs: seq<Toc>, request: nat, size: nat, count: nat) {
    && count == |Entries(tocs, size)|
    && (count == 0 ==> size == 0)
    && forall i :: 0 <= i < |tocs| && tocs[i].Image() ==>
         count > 0 && Dist(size, request) <= Dist(tocs[i].subtype, request)
  }

  // ----- what is done

  datatype Choice = Choice(size: nat, count: nat)

  /** What _XcursorFindBestSize makes of a table of contents, entry by entry. */
  function BestSize(tocs: seq<Toc>, request: nat): Choice {
    if tocs == [] then Choice(0, 0)
    else
      var best, toc := BestSize(tocs[..|tocs| - 1], request), tocs[|tocs| - 1];
      if !toc.Image() then best
      else if best.size == 0 || Dist(toc.subtype, request) < Dist(best.size, request) then Choice(toc.subtype, 1)
      else if toc.subtype == best.size then best.(count := best.count + 1)
      else best
  }

  method FindBestSize(tocs: seq<Toc>, size: nat) returns (bestSize: nat, nsizes: nat)
    ensures Choice(bestSize, nsizes) == BestSize(tocs, size)
    ensures NoZeroBeforeAnImage(tocs) ==> IsNearest(tocs, size, bestSize, nsizes)
  {
    bestSize, nsizes := 0, 0;
    for n := 0 to |tocs|
      invariant Choice(bestSize, nsizes) == BestSize(tocs[..n], size)
    {
      assert tocs[..n + 1] == tocs[..n] + [tocs[n]];
      assert tocs[..n + 1][..n] == tocs[..n];
      if !tocs[n].Image() {
        continue;
      }
      var thisSize := tocs[n].subtype;
      if bestSize == 0 || Dist(thisSize, size) < Dist(bestSize, size) {
        bestSize := thisSize;
        nsizes := 1;
      } else if thisSize == bestSize {
        nsizes := nsizes + 1;
      }
    }
    assert tocs[..|tocs|] == tocs;
    if NoZeroBeforeAnImage(tocs) {
      BestIsNearest(tocs, size);
    }
  }

  /** No image entry of size zero has an image entry after it. */
  ghost predicate NoZeroBeforeAnImage(tocs: seq<Toc>) {
    forall i, j :: 0 <= i < j < |tocs| && tocs[i].Image() && tocs[j].Image() ==> tocs[i].subtype != 0
  }

  lemma {:induction false} BestIsNearest(tocs: seq<Toc>, request: nat)
    requires NoZeroBeforeAnImage(tocs)
    ensures IsNearest(tocs, request, BestSize(tocs, request).size, BestSize(tocs, request).count)
  {
    if tocs != [] {
      var front, last := tocs[..|tocs| - 1], tocs[|tocs| - 1];
      var best := BestSize(front, request);
      BestIsNearest(front, request);
      if last.Image() {
        if best.size == 0 {
          ZeroMeansNone(front, request);
        }
        if best.size == 0 || Dist(last.subtype, request) < Dist(best.size, request) {
          NoneOf(front, last.subtype);
        }
        assert forall i :: 0 <= i < |front| ==> front[i] == tocs[i];
      }
    }
  }

  /** Where all image entries have a size, a best size of zero means that there is none. */
  lemma {:induction false} ZeroMeansNone(tocs: seq<Toc>, request: nat)
    requires forall i :: 0 <= i < |tocs| && tocs[i].Image() ==> tocs[i].subtype != 0
    ensures BestSize(tocs, request).size == 0 ==> forall i :: 0 <= i < |tocs| ==> !tocs[i].Image()
  {
    if tocs != [] {
      ZeroMeansNone(tocs[..|tocs| - 1], request);
    }
  }

  lemma {:induction false} NoneOf(tocs: seq<Toc>, size: nat)
    requires forall i :: 0 <= i < |tocs| && tocs[i].Image() ==> tocs[i].subtype != size
    ensures Entries(tocs, size) == []
  {
    if tocs != [] {
      NoneOf(tocs[..|tocs| - 1], size);
    }
  }

  /** A best size of zero is that of the last image entry, and counts it alone. */
  lemma {:induction false} ZeroIsLast(tocs: seq<Toc>, request: nat, i: nat) returns (last: nat)
    requires i < |tocs| && tocs[i].Image() && BestSize(tocs, request).size == 0
    ensures i <= last < |tocs| && tocs[last].Image() && tocs[last].subtype == 0 && BestSize(tocs, request).count == 1
  {
    last := |tocs| - 1;
    if !tocs[last].Image() {
      var front := tocs[..last];
      assert BestSize(tocs, request) == BestSize(front, request);
      last := ZeroIsLast(front, request, i);
      assert tocs[last] == front[last];
    } else {
      assert tocs[last].subtype == 0;
      assert BestSize(tocs, request).count == 1;
    }
  }

  ghost predicate ChosenRight(tocs: seq<Toc>, request: nat) {
    IsNearest(tocs, request, BestSize(tocs, request).size, BestSize(tocs, request).count)
  }

  /** The choice is right for every request exactly if no image entry of size zero is followed by another image: such
      a size also stands for not having found one yet. */
  lemma {:induction false} NearestUnlessZero(tocs: seq<Toc>)
    ensures (forall request: nat :: ChosenRight(tocs, request)) <==> NoZeroBeforeAnImage(tocs)
  {
    if NoZeroBeforeAnImage(tocs) {
      forall request: nat
        ensures ChosenRight(tocs, request)
      {
        BestIsNearest(tocs, request);
      }
    } else {
      var i, j :| 0 <= i < j < |tocs| && tocs[i].Image() && tocs[j].Image() && tocs[i].subtype == 0;
      var best := BestSize(tocs, 0);
      if best.size == 0 {
        var last := ZeroIsLast(tocs, 0, j);
        EntriesAreAll(tocs, 0, i);
        EntriesAreAll(tocs, 0, last);
        assert best.count == 1 && |Entries(tocs, 0)| > 1;
      }
      assert !ChosenRight(tocs, 0);
    }
  }

  /** Whatever the table, there are at least as many entries as were counted. */
  lemma {:induction false} NotTooMany(tocs: seq<Toc>, request: nat)
    ensures BestSize(tocs, request).count <= |Entries(tocs, BestSize(tocs, request).size)|
  {
    if tocs != [] {
      NotTooMany(tocs[..|tocs| - 1], request);
    }
  }

  /** The count-th image entry of a size, or -1. */
  method FindImageToc(tocs: seq<Toc>, size: nat, count: nat) returns (toc: int)
    ensures toc == if count < |Entries(tocs, size)| then Entries(tocs, size)[count] else -1
  {
    var left: nat := count;
    toc := 0;
    while toc < |tocs|
      invariant 0 <= toc <= |tocs|
      invariant left + |Entries(tocs[..toc], size)| == count
    {
      assert tocs[..toc + 1][..toc] == tocs[..toc];
      if tocs[toc].Image() && tocs[toc].subtype == size {
        if left == 0 {
          break;
        }
        left := left - 1;
      }
      toc := toc + 1;
    }
    if toc == |tocs| {
      assert tocs[..toc] == tocs;
      return -1;
    }
    assert tocs[..toc + 1][..toc] == tocs[..toc];
    EntriesOfPrefix(tocs, size, toc + 1);
  }

  /** The images of the entries of the chosen size; `chunks` holds those that can be read. */
  method LoadImages(tocs: seq<Toc>, size: int, chunks: map<nat, Image>) returns (images: Option<seq<Image>>)
    ensures size < 0 ==> images.None?
    ensures size >= 0 ==>
              var best := BestSize(tocs, size);
              && best.count <= |Entries(tocs, best.size)|
              && (images.Some? <==>
                  (best.size > 0 && forall k :: 0 <= k < best.count ==> Entries(tocs, best.size)[k] in chunks))
              && (images.Some? ==>
                  (&& |images.value| == best.count
                   && forall k :: 0 <= k < best.count ==> images.value[k] == chunks[Entries(tocs, best.size)[k]]))
  {
    if size < 0 {
      return None;
    }
    var bestSize, nsize := FindBestSize(tocs, size);
    NotTooMany(tocs, size);
    if bestSize == 0 {
      return None;
    }
    var loaded: seq<Image> := [];
    var n := 0;
    while n < nsize
      invariant 0 <= n <= nsize && |loaded| == n
      invariant forall k :: 0 <= k < n ==>
                  Entries(tocs, bestSize)[k] in chunks && loaded[k] == chunks[Entries(tocs, bestSize)[k]]
    {
      var toc := FindImageToc(tocs, bestSize, n);
      if toc < 0 || toc !in chunks {
        break;
      }
      loaded := loaded + [chunks[toc]];
      n := n + 1;
    }
    if |loaded| != nsize {
      return None;
    }
    return Some(loaded);
  }
}
