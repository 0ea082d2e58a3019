/** The parent and children links of the windows (miral/window_info.cpp:417-444), taken on their own:
    what makes them a forest, the relation "a is x or an ancestor of x", the preorder walk every tree operation
    of the window manager makes, and the three ways the links change. */
module Forest {
  import opened Sequences

  type Window = nat

  datatype Node = Node(parent: Option<Window>, children: seq<Window>)

  type Links = map<Window, Node>

  predicate IsParent(f: Links, p: Window, c: Window) {
    c in f && f[c].parent == Some(p)
  }

  /** No dangling link, and each link is recorded once at either end. */
  ghost predicate Linked(f: Links) {
    && (forall p, c :: IsParent(f, p, c) ==> p in f && c in f[p].children)
    && (forall p, c :: p in f && c in f[p].children ==> IsParent(f, p, c))
    && (forall p :: p in f ==> NoDup(f[p].children))
  }

  /** A rank that grows from parent to child, below a bound. */
  ghost predicate Ranked(f: Links, rank: map<Window, nat>, bound: nat) {
    && (forall w :: w in f ==> w in rank && rank[w] < bound)
    && (forall p, c :: IsParent(f, p, c) && p in f ==> rank[p] < rank[c])
  }

  ghost predicate Acyclic(f: Links) {
    exists rank, bound :: Ranked(f, rank, bound)
  }

  ghost predicate IsForest(f: Links) {
    Linked(f) && Acyclic(f)
  }

  ghost function Ranking(f: Links): (r: (map<Window, nat>, nat))
    requires IsForest(f)
    ensures Ranked(f, r.0, r.1)
  {
    var rank, bound :| Ranked(f, rank, bound);
    (rank, bound)
  }

  /** Grows going down. */
  ghost function Rank(f: Links, w: Window): nat
    requires IsForest(f) && w in f
  {
    Ranking(f).0[w]
  }

  /** Shrinks going down. */
  ghost function Room(f: Links, w: Window): nat
    requires IsForest(f) && w in f
  {
    Ranking(f).1 - Rank(f, w)
  }

  lemma {:induction false} ParentRank(f: Links, p: Window, c: Window)
    requires IsForest(f) && IsParent(f, p, c)
    ensures p in f && c in f && c in f[p].children && Rank(f, p) < Rank(f, c) && Room(f, c) < Room(f, p)
  {
  }

  /** a is x or one of its ancestors: x lies in the subtree of a. */
  ghost predicate Below(f: Links, a: Window, x: Window)
    requires IsForest(f) && x in f
    decreases Rank(f, x)
  {
    x == a || (f[x].parent.Some? && (ParentRank(f, f[x].parent.value, x); Below(f, a, f[x].parent.value)))
  }

  ghost function Root(f: Links, x: Window): (r: Window)
    requires IsForest(f) && x in f
    ensures r in f && f[r].parent.None?
    decreases Rank(f, x)
  {
    if f[x].parent.Some? then ParentRank(f, f[x].parent.value, x); Root(f, f[x].parent.value) else x
  }

  ghost function Subtree(f: Links, a: Window): set<Window>
    requires IsForest(f)
  {
    set x | x in f && Below(f, a, x)
  }

  // ----- order theory of Below

  lemma {:induction false} BelowRank(f: Links, a: Window, x: Window)
    requires IsForest(f) && x in f && Below(f, a, x)
    ensures a in f && (a == x || (Rank(f, a) < Rank(f, x) && Room(f, x) < Room(f, a)))
    decreases Rank(f, x)
  {
    if x != a {
      ParentRank(f, f[x].parent.value, x);
      BelowRank(f, a, f[x].parent.value);
    }
  }

  lemma {:induction false} BelowTransitive(f: Links, a: Window, b: Window, x: Window)
    requires IsForest(f) && x in f && b in f && Below(f, a, b) && Below(f, b, x)
    ensures Below(f, a, x)
    decreases Rank(f, x)
  {
    if x != b {
      ParentRank(f, f[x].parent.value, x);
      BelowTransitive(f, a, b, f[x].parent.value);
    }
  }

  lemma {:induction false} BelowChain(f: Links, a: Window, b: Window, x: Window)
    requires IsForest(f) && x in f && Below(f, a, x) && Below(f, b, x)
    ensures a in f && b in f && (Below(f, a, b) || Below(f, b, a))
    decreases Rank(f, x)
  {
    BelowRank(f, a, x);
    BelowRank(f, b, x);
    if x != a && x != b {
      ParentRank(f, f[x].parent.value, x);
      BelowChain(f, a, b, f[x].parent.value);
    }
  }

  lemma {:induction false} BelowAntisymmetric(f: Links, a: Window, b: Window)
    requires IsForest(f) && a in f && b in f && Below(f, a, b) && Below(f, b, a)
    ensures a == b
  {
    BelowRank(f, a, b);
    BelowRank(f, b, a);
  }

  /** The subtrees of two siblings share no window, and do not hold their parent. */
  lemma {:induction false} SiblingsDisjoint(f: Links, p: Window, c: Window, d: Window, x: Window)
    requires IsForest(f) && IsParent(f, p, c) && IsParent(f, p, d) && x in f && Below(f, c, x)
    ensures !Below(f, c, p) && x != p
    ensures c != d ==> !Below(f, d, x)
  {
    ParentRank(f, p, c);
    ParentRank(f, p, d);
    if Below(f, c, p) {
      BelowRank(f, c, p);
    }
    if Below(f, d, p) {
      BelowRank(f, d, p);
    }
    if c != d && Below(f, d, x) {
      BelowChain(f, c, d, x);
    }
  }

  /** A proper descendant is below exactly one child. */
  lemma {:induction false} BelowAChild(f: Links, a: Window, x: Window) returns (c: Window)
    requires IsForest(f) && x in f && Below(f, a, x) && a != x
    ensures IsParent(f, a, c) && Below(f, c, x)
    decreases Rank(f, x)
  {
    var p := f[x].parent.value;
    ParentRank(f, p, x);
    if p == a {
      c := x;
    } else {
      c := BelowAChild(f, a, p);
    }
  }

  lemma {:induction false} RootOfBelow(f: Links, a: Window, x: Window)
    requires IsForest(f) && x in f && Below(f, a, x)
    ensures a in f && Root(f, a) == Root(f, x)
    decreases Rank(f, x)
  {
    BelowRank(f, a, x);
    if x != a {
      ParentRank(f, f[x].parent.value, x);
      RootOfBelow(f, a, f[x].parent.value);
    }
  }

  lemma {:induction false} BelowRoot(f: Links, x: Window)
    requires IsForest(f) && x in f
    ensures Below(f, Root(f, x), x)
    decreases Rank(f, x)
  {
    if f[x].parent.Some? {
      ParentRank(f, f[x].parent.value, x);
      BelowRoot(f, f[x].parent.value);
    }
  }

  // ----- the preorder walk

  /** w, then the walks of its children in order: the list the recursive add_children builds. */
  ghost function Preorder(f: Links, w: Window): seq<Window>
    requires IsForest(f) && w in f
    decreases Room(f, w), 1, 0
  {
    [w] + Walk(f, w, |f[w].children|)
  }

  ghost function Walk(f: Links, w: Window, n: nat): seq<Window>
    requires IsForest(f) && w in f && n <= |f[w].children|
    decreases Room(f, w), 0, n
  {
    if n == 0 then []
    else
      var c := f[w].children[n - 1];
      assert IsParent(f, w, c);
      ParentRank(f, w, c);
      Walk(f, w, n - 1) + Preorder(f, c)
  }

  lemma {:induction false} PreorderMembers(f: Links, w: Window)
    requires IsForest(f) && w in f
    ensures forall x :: x in Preorder(f, w) <==> x in f && Below(f, w, x)
    decreases Room(f, w), 1, 0
  {
    WalkMembers(f, w, |f[w].children|);
    assert f[w].children[..|f[w].children|] == f[w].children;
    forall x | x in f && Below(f, w, x)
      ensures x in Preorder(f, w)
    {
      if x != w {
        var c := BelowAChild(f, w, x);
        ParentRank(f, w, c);
        assert BelowOneOf(f, f[w].children, x);
      }
    }
    forall x | x in Preorder(f, w)
      ensures x in f && Below(f, w, x)
    {
      if x != w {
        var c :| c in f[w].children && x in f && Below(f, c, x);
        assert IsParent(f, w, c);
        assert Below(f, w, c);
        BelowTransitive(f, w, c, x);
      }
    }
  }

  lemma {:induction false} WalkMembers(f: Links, w: Window, n: nat)
    requires IsForest(f) && w in f && n <= |f[w].children|
    ensures forall x :: x in Walk(f, w, n) <==> x in f && BelowOneOf(f, f[w].children[..n], x)
    decreases Room(f, w), 0, n
  {
    if n > 0 {
      var c := f[w].children[n - 1];
      assert IsParent(f, w, c);
      WalkMembers(f, w, n - 1);
      PreorderMembers(f, c);
      assert f[w].children[..n] == f[w].children[..n - 1] + [c];
      forall x | x in f
        ensures BelowOneOf(f, f[w].children[..n], x) <==> BelowOneOf(f, f[w].children[..n - 1], x) || Below(f, c, x)
      {
        BelowOneMore(f, f[w].children[..n - 1], c, x);
      }
    }
  }

  ghost predicate BelowOneOf(f: Links, cs: seq<Window>, x: Window)
    requires IsForest(f) && x in f
  {
    exists c :: c in cs && Below(f, c, x)
  }

  lemma {:induction false} BelowOneMore(f: Links, cs: seq<Window>, c: Window, x: Window)
    requires IsForest(f) && x in f
    ensures BelowOneOf(f, cs + [c], x) <==> BelowOneOf(f, cs, x) || Below(f, c, x)
  {
    assert c in cs + [c];
    if BelowOneOf(f, cs, x) {
      var d :| d in cs && Below(f, d, x);
      assert d in cs + [c];
    }
  }

  /** The walk meets no window twice. */
  lemma {:induction false} PreorderNoDup(f: Links, w: Window)
    requires IsForest(f) && w in f
    ensures NoDup(Preorder(f, w))
    decreases Room(f, w), 1, 0
  {
    WalkNoDup(f, w, |f[w].children|);
    WalkMembers(f, w, |f[w].children|);
    assert f[w].children[..|f[w].children|] == f[w].children;
    forall x | x in Walk(f, w, |f[w].children|)
      ensures x != w
    {
      var c :| c in f[w].children && Below(f, c, x);
      SiblingsDisjoint(f, w, c, c, x);
    }
    ConcatNoDup([w], Walk(f, w, |f[w].children|));
  }

  lemma {:induction false} WalkNoDup(f: Links, w: Window, n: nat)
    requires IsForest(f) && w in f && n <= |f[w].children|
    ensures NoDup(Walk(f, w, n))
    decreases Room(f, w), 0, n
  {
    if n > 0 {
      var c := f[w].children[n - 1];
      assert IsParent(f, w, c);
      WalkNoDup(f, w, n - 1);
      WalkMembers(f, w, n - 1);
      PreorderNoDup(f, c);
      PreorderMembers(f, c);
      forall x | x in Walk(f, w, n - 1)
        ensures x !in Preorder(f, c)
      {
        var d :| d in f[w].children[..n - 1] && Below(f, d, x);
        SiblingsDisjoint(f, w, d, c, x);
      }
      ConcatNoDup(Walk(f, w, n - 1), Preorder(f, c));
    }
  }

  /** Each window of the list but the first has its parent earlier in the list. */
  ghost predicate ParentsFirst(f: Links, s: seq<Window>, top: Window) {
    forall i :: 0 <= i < |s| && s[i] != top ==>
      exists p :: p in s[..i] && IsParent(f, p, s[i])
  }

  lemma {:induction false} PreorderParentsFirst(f: Links, w: Window)
    requires IsForest(f) && w in f
    ensures ParentsFirst(f, Preorder(f, w), w)
    decreases Room(f, w), 1, 0
  {
    WalkParentsFirst(f, w, |f[w].children|);
  }

  lemma {:induction false} WalkParentsFirst(f: Links, w: Window, n: nat)
    requires IsForest(f) && w in f && n <= |f[w].children|
    ensures ParentsFirst(f, [w] + Walk(f, w, n), w)
    decreases Room(f, w), 0, n
  {
    if n > 0 {
      var c := f[w].children[n - 1];
      assert IsParent(f, w, c);
      WalkParentsFirst(f, w, n - 1);
      PreorderParentsFirst(f, c);
      var a, b := [w] + Walk(f, w, n - 1), Preorder(f, c);
      assert [w] + Walk(f, w, n) == a + b;
      forall i | 0 <= i < |a + b| && (a + b)[i] != w
        ensures exists p :: p in (a + b)[..i] && IsParent(f, p, (a + b)[i])
      {
        if i < |a| {
          assert (a + b)[..i] == a[..i];
        } else if (a + b)[i] == c {
          assert (a + b)[..i][0] == w;
        } else {
          var p :| p in b[..i - |a|] && IsParent(f, p, b[i - |a|]);
          assert (a + b)[..i] == a + b[..i - |a|];
        }
      }
    }
  }

  // ----- changes of the links

  /** A new window, last among its parent's children (add_surface). */
  function AddLeaf(f: Links, w: Window, parent: Option<Window>): Links {
    var g := f[w := Node(parent, [])];
    if parent.Some? && parent.value in f && parent.value != w
    then g[parent.value := g[parent.value].(children := g[parent.value].children + [w])] else g
  }

  /** The window goes, its children become roots (erase). */
  function EraseNode(f: Links, w: Window): Links {
    map x | x in f && x != w ::
      Node(if f[x].parent == Some(w) then None else f[x].parent, RemoveFirst(f[x].children, w))
  }

  /** w moves to the end of the children of another parent, or becomes a root (modify_window). */
  function Reparent(f: Links, w: Window, parent: Option<Window>): Links
    requires w in f
  {
    if parent == f[w].parent then f else
    var g := f[w := f[w].(parent := parent)];
    var h := if f[w].parent.Some? && f[w].parent.value in g
             then var p := f[w].parent.value; g[p := g[p].(children := RemoveFirst(g[p].children, w))]
             else g;
    if parent.Some? && parent.value in h
    then h[parent.value := h[parent.value].(children := h[parent.value].children + [w])] else h
  }

  lemma {:induction false} AddLeafLinks(f: Links, w: Window, parent: Option<Window>)
    requires w !in f && (parent.Some? ==> parent.value in f)
    ensures var g := AddLeaf(f, w, parent);
            && g.Keys == f.Keys + {w} && g[w] == Node(parent, [])
            && forall x :: x in f ==>
                 g[x] == Node(f[x].parent, if parent == Some(x) then f[x].children + [w] else f[x].children)
  {
  }

  lemma {:induction false} EraseLinks(f: Links, w: Window)
    requires IsForest(f) && w in f
    ensures var g := EraseNode(f, w);
            && g.Keys == f.Keys - {w}
            && forall x :: x in g ==>
                 && g[x].children == Without(f[x].children, {w})
                 && g[x].parent == if f[x].parent == Some(w) then None else f[x].parent
  {
    hide Acyclic, Without, RemoveFirst, NoDup;
    forall x | x in f && x != w
      ensures RemoveFirst(f[x].children, w) == Without(f[x].children, {w})
    {
      RemoveFirstIsWithout(f[x].children, w);
    }
  }

  /** With another parent, a window is taken from the children of the former one and put last among those of the new. */
  lemma {:induction false} ReparentLinks(f: Links, w: Window, parent: Option<Window>)
    requires IsForest(f) && w in f && parent != f[w].parent && (parent.Some? ==> parent.value in f)
    ensures var g := Reparent(f, w, parent);
            && g.Keys == f.Keys
            && forall x :: x in f ==>
                 && g[x].parent == (if x == w then parent else f[x].parent)
                 && g[x].children == Without(f[x].children, {w}) + if parent == Some(x) then [w] else []
  {
    hide Acyclic, Without, RemoveFirst, NoDup;
    var g := Reparent(f, w, parent);
    forall x | x in f
      ensures g[x].children == Without(f[x].children, {w}) + if parent == Some(x) then [w] else []
    {
      RemoveFirstIsWithout(f[x].children, w);
      if f[w].parent != Some(x) {
        assert w in f[x].children ==> IsParent(f, x, w);
      }
    }
  }

  lemma {:induction false} AddLeafKeepsForest(f: Links, w: Window, parent: Option<Window>)
    requires IsForest(f) && w !in f && (parent.Some? ==> parent.value in f)
    ensures IsForest(AddLeaf(f, w, parent))
  {
    var g := AddLeaf(f, w, parent);
    assert w !in f;
    forall p, c | IsParent(g, p, c)
      ensures p in g && c in g[p].children
    {
      if c != w {
        assert IsParent(f, p, c);
      }
    }
    forall p, c | p in g && c in g[p].children
      ensures IsParent(g, p, c)
    {
      if c in f && p in f && c in f[p].children {
        assert IsParent(f, p, c);
      }
    }
    forall p | p in g
      ensures NoDup(g[p].children)
    {
      if Some(p) == parent && p in f {
        assert w in f[p].children ==> IsParent(f, p, w);
        ConcatNoDup(f[p].children, [w]);
      }
    }
    var (rank, bound) := Ranking(f);
    var k := if parent.Some? then rank[parent.value] + 1 else 0;
    var rank' := rank[w := k];
    forall p, c | IsParent(g, p, c) && p in g
      ensures rank'[p] < rank'[c]
    {
      if c != w {
        assert IsParent(f, p, c);
      }
    }
    assert Ranked(g, rank', bound + k + 1);
  }

  lemma {:induction false} AddLeafBelow(f: Links, w: Window, parent: Option<Window>, a: Window, x: Window)
    requires IsForest(f) && w !in f && (parent.Some? ==> parent.value in f)
    requires IsForest(AddLeaf(f, w, parent)) && (x in f || x == w)
    ensures x in f ==> (Below(AddLeaf(f, w, parent), a, x) <==> Below(f, a, x))
    ensures x == w ==> (Below(AddLeaf(f, w, parent), a, w) <==> a == w || (parent.Some? && Below(f, a, parent.value)))
    decreases if x in f then Rank(f, x) else Ranking(f).1
  {
    if x == w {
      if parent.Some? {
        AddLeafBelow(f, w, parent, a, parent.value);
      }
    } else if f[x].parent.Some? {
      ParentRank(f, f[x].parent.value, x);
      AddLeafBelow(f, w, parent, a, f[x].parent.value);
    }
  }

  lemma {:induction false} EraseKeepsForest(f: Links, w: Window)
    requires IsForest(f) && w in f
    ensures IsForest(EraseNode(f, w))
  {
    var g := EraseNode(f, w);
    forall p, c | IsParent(g, p, c)
      ensures p in g && c in g[p].children
    {
      assert IsParent(f, p, c);
    }
    forall p, c | p in g && c in g[p].children
      ensures IsParent(g, p, c)
    {
      RemoveFirstNoDup(f[p].children, w);
      assert IsParent(f, p, c);
    }
    forall p | p in g
      ensures NoDup(g[p].children)
    {
      RemoveFirstNoDup(f[p].children, w);
    }
    var (rank, bound) := Ranking(f);
    forall p, c | IsParent(g, p, c) && p in g
      ensures rank[p] < rank[c]
    {
      assert IsParent(f, p, c);
    }
    assert Ranked(g, rank, bound);
  }

  /** Exactly the paths through w are cut. */
  lemma {:induction false} EraseBelow(f: Links, w: Window, a: Window, x: Window)
    requires IsForest(f) && w in f && IsForest(EraseNode(f, w)) && x in f && x != w && a != w
    ensures Below(EraseNode(f, w), a, x) <==> Below(f, a, x) && !(Below(f, w, x) && Below(f, a, w))
    decreases Rank(f, x)
  {
    var g := EraseNode(f, w);
    if x == a {
      if Below(f, w, x) && Below(f, a, w) {
        BelowAntisymmetric(f, a, w);
      }
    } else if f[x].parent.Some? {
      var p := f[x].parent.value;
      ParentRank(f, p, x);
      if p != w {
        EraseBelow(f, w, a, p);
      } else {
        assert g[x].parent.None?;
        assert Below(f, w, x);
        assert Below(f, a, x) <==> Below(f, a, w);
      }
    }
  }

  lemma {:induction false} ReparentLinked(f: Links, w: Window, parent: Option<Window>)
    requires IsForest(f) && w in f && (parent.Some? ==> parent.value in f)
    ensures Linked(Reparent(f, w, parent))
  {
    if parent != f[w].parent {
      ReparentedListed(f, w, parent);
      ReparentedPoint(f, w, parent);
      ReparentedOnce(f, w, parent);
    }
  }

  lemma {:induction false} ReparentedListed(f: Links, w: Window, parent: Option<Window>)
    requires Linked(f) && w in f && (parent.Some? ==> parent.value in f) && parent != f[w].parent
    ensures var g := Reparent(f, w, parent); forall p, c :: IsParent(g, p, c) ==> p in g && c in g[p].children
  {
    var g := Reparent(f, w, parent);
    forall p, c | IsParent(g, p, c)
      ensures p in g && c in g[p].children
    {
      if c != w {
        assert IsParent(f, p, c);
      }
    }
  }

  lemma {:induction false} ReparentedPoint(f: Links, w: Window, parent: Option<Window>)
    requires IsForest(f) && w in f && (parent.Some? ==> parent.value in f) && parent != f[w].parent
    ensures var g := Reparent(f, w, parent); forall p, c :: p in g && c in g[p].children ==> IsParent(g, p, c)
  {
    var g := Reparent(f, w, parent);
    if f[w].parent.Some? {
      ParentRank(f, f[w].parent.value, w);
      RemoveFirstNoDup(f[f[w].parent.value].children, w);
    }
    forall p, c | p in g && c in g[p].children
      ensures IsParent(g, p, c)
    {
      assert c in f[p].children ==> IsParent(f, p, c);
    }
  }

  lemma {:induction false} ReparentedOnce(f: Links, w: Window, parent: Option<Window>)
    requires IsForest(f) && w in f && (parent.Some? ==> parent.value in f) && parent != f[w].parent
    ensures var g := Reparent(f, w, parent); forall p :: p in g ==> NoDup(g[p].children)
  {
    var g := Reparent(f, w, parent);
    if f[w].parent.Some? {
      ParentRank(f, f[w].parent.value, w);
      RemoveFirstNoDup(f[f[w].parent.value].children, w);
    }
    forall p | p in g
      ensures NoDup(g[p].children)
    {
      if Some(p) == parent {
        assert w in f[p].children ==> IsParent(f, p, w);
        ConcatNoDup(f[p].children, [w]);
      }
    }
  }

  /** A window whose chain of parents returns to it has no rank. */
  lemma {:induction false} NoRankOnCycle(f: Links, g: Links, w: Window, x: Window, rank: map<Window, nat>, bound: nat)
    requires IsForest(f) && x in f && Below(f, w, x) && Ranked(g, rank, bound)
    requires forall c :: c in f && c != w ==> c in g && g[c].parent == f[c].parent
    requires w in g
    ensures rank[w] <= rank[x]
    decreases Rank(f, x)
  {
    if x != w {
      var p := f[x].parent.value;
      ParentRank(f, p, x);
      NoRankOnCycle(f, g, w, p, rank, bound);
      assert IsParent(g, p, x);
    }
  }

  lemma {:induction false} ReparentToDescendant(f: Links, w: Window, p: Window)
    requires IsForest(f) && w in f && p in f && Below(f, w, p)
    ensures !Acyclic(Reparent(f, w, Some(p)))
  {
    var g := Reparent(f, w, Some(p));
    BelowRank(f, w, p);
    if f[w].parent == Some(p) {
      ParentRank(f, p, w);
    } else if Acyclic(g) {
      var rank, bound :| Ranked(g, rank, bound);
      NoRankOnCycle(f, g, w, p, rank, bound);
      assert IsParent(g, p, w);
    }
  }

  lemma {:induction false} ReparentElsewhere(f: Links, w: Window, parent: Option<Window>)
    requires IsForest(f) && w in f && (parent.Some? ==> parent.value in f && !Below(f, w, parent.value))
    ensures Acyclic(Reparent(f, w, parent))
  {
    var g := Reparent(f, w, parent);
    var (rank, bound) := Ranking(f);
    var rank' := map x | x in f :: if Below(f, w, x) then rank[x] + bound else rank[x];
    forall p, c | IsParent(g, p, c) && p in g
      ensures rank'[p] < rank'[c]
    {
      assert c != w ==> IsParent(f, p, c);
      assert Below(f, w, w);
    }
    assert Ranked(g, rank', bound + bound);
  }

  /** Giving w a new parent keeps the links a forest exactly when that parent is not w or below it. */
  lemma {:induction false} ReparentKeepsForest(f: Links, w: Window, parent: Option<Window>)
    requires IsForest(f) && w in f && (parent.Some? ==> parent.value in f)
    ensures IsForest(Reparent(f, w, parent)) <==> !(parent.Some? && Below(f, w, parent.value))
  {
    ReparentLinked(f, w, parent);
    if parent.Some? && Below(f, w, parent.value) {
      ReparentToDescendant(f, w, parent.value);
    } else {
      ReparentElsewhere(f, w, parent);
    }
  }
}
