/** The stacking order, bottom to top, and what raising a tree does to it. */
module ZOrder {
  import opened Sequences
  import opened Forest

  /** The focus controller's promise: the raised windows come to the top en bloc, in their relative order. */
  function Raise(stack: seq<Window>, windows: set<Window>): seq<Window> {
    Without(stack, windows) + Within(stack, windows)
  }

  /** raise_tree: the ancestors' trees first, then the window's own. */
  ghost function RaiseTree(f: Links, stack: seq<Window>, w: Window): seq<Window>
    requires IsForest(f) && w in f
    decreases Rank(f, w)
  {
    var below := if f[w].parent.Some?
                 then ParentRank(f, f[w].parent.value, w); RaiseTree(f, stack, f[w].parent.value) else stack;
    Raise(below, Subtree(f, w))
  }

  lemma {:induction false} RaiseKeepsWindows(stack: seq<Window>, windows: set<Window>)
    ensures forall x :: x in Raise(stack, windows) <==> x in stack
    ensures NoDup(stack) ==> NoDup(Raise(stack, windows))
  {
    if NoDup(stack) {
      WithoutNoDup(stack, windows);
      WithinNoDup(stack, windows);
      ConcatNoDup(Without(stack, windows), Within(stack, windows));
    }
  }

  lemma {:induction false} RaiseTreeKeepsWindows(f: Links, stack: seq<Window>, w: Window)
    requires IsForest(f) && w in f
    ensures forall x :: x in RaiseTree(f, stack, w) <==> x in stack
    ensures NoDup(stack) ==> NoDup(RaiseTree(f, stack, w))
    decreases Rank(f, w)
  {
    var below := stack;
    if f[w].parent.Some? {
      var p := f[w].parent.value;
      ParentRank(f, p, w);
      RaiseTreeKeepsWindows(f, stack, p);
      below := RaiseTree(f, stack, p);
    }
    RaiseKeepsWindows(below, Subtree(f, w));
  }

  // ----- the final order

  /** The ancestors of w from the root of its tree down to w itself. */
  ghost function Path(f: Links, w: Window): seq<Window>
    requires IsForest(f) && w in f
    decreases Rank(f, w)
  {
    (if f[w].parent.Some? then ParentRank(f, f[w].parent.value, w); Path(f, f[w].parent.value) else []) + [w]
  }

  /** Block i of the raised order: below the i-th window of the path but not below the next one. */
  ghost function Block(f: Links, stack: seq<Window>, path: seq<Window>, i: nat): seq<Window>
    requires IsForest(f) && i < |path|
  {
    Within(stack, if i + 1 < |path| then Subtree(f, path[i]) - Subtree(f, path[i + 1]) else Subtree(f, path[i]))
  }

  /** The first n blocks, one above the other. */
  ghost function Blocks(f: Links, stack: seq<Window>, path: seq<Window>, n: nat): seq<Window>
    requires IsForest(f) && n <= |path|
  {
    if n == 0 then [] else Blocks(f, stack, path, n - 1) + Block(f, stack, path, n - 1)
  }

  lemma {:induction false} PathEnds(f: Links, w: Window)
    requires IsForest(f) && w in f
    ensures |Path(f, w)| > 0 && Path(f, w)[|Path(f, w)| - 1] == w && Path(f, w)[0] == Root(f, w)
    ensures forall i :: 0 <= i < |Path(f, w)| ==> Path(f, w)[i] in f && Below(f, Path(f, w)[i], w)
    ensures forall i :: 0 < i < |Path(f, w)| ==> IsParent(f, Path(f, w)[i - 1], Path(f, w)[i])
    decreases Rank(f, w)
  {
    if f[w].parent.Some? {
      ParentRank(f, f[w].parent.value, w);
      PathEnds(f, f[w].parent.value);
    }
  }

  lemma {:induction false} SubtreeShrinks(f: Links, p: Window, w: Window)
    requires IsForest(f) && IsParent(f, p, w)
    ensures Subtree(f, w) <= Subtree(f, p)
  {
    ParentRank(f, p, w);
    assert Below(f, p, w);
    forall x | x in Subtree(f, w)
      ensures x in Subtree(f, p)
    {
      BelowTransitive(f, p, w, x);
    }
  }

  /** Nothing of the subtree of w lies in the blocks above an ancestor's. */
  lemma {:induction false} EarlierBlocksOutside(f: Links, stack: seq<Window>, path: seq<Window>, n: nat, w: Window)
    requires IsForest(f) && n < |path|
    requires forall i :: 0 < i < |path| ==> path[i] in f && Subtree(f, path[i]) <= Subtree(f, path[i - 1])
    requires Subtree(f, w) <= Subtree(f, path[n])
    ensures forall x :: x in Blocks(f, stack, path, n) ==> x !in Subtree(f, w)
  {
    if n > 0 {
      assert Subtree(f, path[n]) <= Subtree(f, path[n - 1]);
      EarlierBlocksOutside(f, stack, path, n - 1, w);
    }
  }

  lemma {:induction false} BlocksOfPrefix(f: Links, stack: seq<Window>, path: seq<Window>, w: Window, n: nat)
    requires IsForest(f) && n < |path|
    ensures Blocks(f, stack, path + [w], n) == Blocks(f, stack, path, n)
  {
    if n > 0 {
      BlocksOfPrefix(f, stack, path, w, n - 1);
    }
  }

  /** Raising part of the topmost block splits that block and moves nothing else. */
  lemma {:induction false} RaiseStep(stack: seq<Window>, under: seq<Window>, top: set<Window>, sub: set<Window>)
    requires sub <= top && forall x :: x in under ==> x !in sub
    ensures Raise(under + Within(stack, top), sub) == under + Within(stack, top - sub) + Within(stack, sub)
  {
    assert top * sub == sub;
    assert Without(under + Within(stack, top), sub) == under + Within(stack, top - sub) by {
      WithoutConcat(under, Within(stack, top), sub);
      WithoutNothing(under, sub);
      WithoutWithin(stack, top, sub);
    }
    assert Within(under + Within(stack, top), sub) == Within(stack, sub) by {
      WithinConcat(under, Within(stack, top), sub);
      WithinNothing(under, sub);
      WithinWithin(stack, top, sub);
    }
  }

  /** One more window at the end of the path splits the last block. */
  lemma {:induction false} BlocksOfLongerPath(f: Links, stack: seq<Window>, path: seq<Window>, w: Window)
    requires IsForest(f) && |path| > 0
    ensures var under, p := Blocks(f, stack, path, |path| - 1), path[|path| - 1];
            && Blocks(f, stack, path, |path|) == under + Within(stack, Subtree(f, p))
            && Blocks(f, stack, path + [w], |path| + 1) ==
                 under + Within(stack, Subtree(f, p) - Subtree(f, w)) + Within(stack, Subtree(f, w))
  {
    BlocksOfPrefix(f, stack, path, w, |path| - 1);
    assert (path + [w])[|path| - 1] == path[|path| - 1];
  }

  lemma {:induction false} PathShrinks(f: Links, w: Window)
    requires IsForest(f) && w in f
    ensures var path := Path(f, w);
            forall i :: 0 < i < |path| ==> path[i] in f && Subtree(f, path[i]) <= Subtree(f, path[i - 1])
  {
    PathEnds(f, w);
    var path := Path(f, w);
    forall i | 0 < i < |path|
      ensures Subtree(f, path[i]) <= Subtree(f, path[i - 1])
    {
      SubtreeShrinks(f, path[i - 1], path[i]);
    }
  }

  /** The stack raise_tree(w) leaves, bottom to top: the windows outside w's tree; then for each ancestor, from the
      root down, its subtree without the next one's; then w's own subtree. Each block keeps its order. */
  ghost function RaisedOrder(f: Links, stack: seq<Window>, w: Window): seq<Window>
    requires IsForest(f) && w in f
  {
    Without(stack, Subtree(f, Root(f, w))) + Blocks(f, stack, Path(f, w), |Path(f, w)|)
  }

  lemma {:induction false} RaiseTreeOrder(f: Links, stack: seq<Window>, w: Window)
    requires IsForest(f) && w in f
    ensures RaiseTree(f, stack, w) == RaisedOrder(f, stack, w)
    decreases Rank(f, w)
  {
    if f[w].parent.None? {
      assert Path(f, w) == [w];
      assert Blocks(f, stack, [w], 1) == Blocks(f, stack, [w], 0) + Block(f, stack, [w], 0);
      assert [] + Block(f, stack, [w], 0) == Within(stack, Subtree(f, w));
    } else {
      var p := f[w].parent.value;
      ParentRank(f, p, w);
      RaiseTreeOrder(f, stack, p);
      RaiseOneFurther(f, stack, p, w);
    }
  }

  lemma {:induction false} RaiseOneFurther(f: Links, stack: seq<Window>, p: Window, w: Window)
    requires IsForest(f) && p in f && w in f && IsParent(f, p, w)
    ensures Raise(RaisedOrder(f, stack, p), Subtree(f, w)) == RaisedOrder(f, stack, w)
  {
    var path := Path(f, p);
    var k := |path| - 1;
    PathEnds(f, p);
    PathShrinks(f, p);
    SubtreeShrinks(f, p, w);
    RootIsOutermost(f, w);
    var outside, blocks := Without(stack, Subtree(f, Root(f, w))), Blocks(f, stack, path, k);
    EarlierBlocksOutside(f, stack, path, k, w);
    RaiseStep(stack, outside + blocks, Subtree(f, p), Subtree(f, w));
    BlocksOfLongerPath(f, stack, path, w);
    Regroup(outside, blocks, Within(stack, Subtree(f, p)), []);
    Regroup(outside, blocks, Within(stack, Subtree(f, p) - Subtree(f, w)), Within(stack, Subtree(f, w)));
    assert Path(f, w) == path + [w];
  }

  lemma {:induction false} Regroup(a: seq<Window>, b: seq<Window>, c: seq<Window>, d: seq<Window>)
    ensures a + (b + c) == (a + b) + c
    ensures a + (b + c + d) == (a + b) + c + d
  {
  }

  lemma {:induction false} RootIsOutermost(f: Links, w: Window)
    requires IsForest(f) && w in f
    ensures Subtree(f, w) <= Subtree(f, Root(f, w))
  {
    BelowRoot(f, w);
    forall x | x in Subtree(f, w)
      ensures x in Subtree(f, Root(f, w))
    {
      BelowTransitive(f, Root(f, w), w, x);
    }
  }

  lemma {:induction false} RaisedIsOnTop(f: Links, stack: seq<Window>, w: Window)
    requires IsForest(f) && w in f && w in stack
    ensures var raised := RaisedOrder(f, stack, w); |raised| > 0 && raised[|raised| - 1] in Subtree(f, w)
  {
    PathEnds(f, w);
    var path := Path(f, w);
    var own := Block(f, stack, path, |path| - 1);
    assert Below(f, w, w);
    assert w in own && own[|own| - 1] in own;
    assert Blocks(f, stack, path, |path|) == Blocks(f, stack, path, |path| - 1) + own;
  }
}
