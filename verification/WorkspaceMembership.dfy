/** Membership of workspaces goes by whole trees, whatever is done short of reparenting; and the focus, when it has
    to move, stays in a workspace of the window it leaves. */
module WorkspaceMembership {
  import opened Sequences
  import opened Forest
  import opened WindowModel
  import opened FocusInvariance

  /** Each pair of a child comes after the pair of its parent with the same workspace. */
  ghost predicate ParentsEarlier(f: Links, pairs: Pairs) {
    pairs == [] || (
      var last := pairs[|pairs| - 1];
      && ParentsEarlier(f, pairs[..|pairs| - 1])
      && forall p: Window :: IsParent(f, p, last.1) ==> (last.0, p) in pairs[..|pairs| - 1])
  }

  ghost predicate ParentsToo(f: Links, pairs: Pairs) {
    forall ws: Workspace, p: Window, c: Window :: (ws, c) in pairs && IsParent(f, p, c) ==> (ws, p) in pairs
  }

  ghost predicate ChildrenToo(f: Links, pairs: Pairs) {
    forall ws: Workspace, p: Window, c: Window :: (ws, p) in pairs && IsParent(f, p, c) ==> (ws, c) in pairs
  }

  ghost predicate KnownWindows(f: Links, pairs: Pairs) {
    forall pair: (Workspace, Window) :: pair in pairs ==> pair.1 in f
  }

  /** No pair twice, only windows that exist, each window together with its parent and its children. */
  ghost predicate TreesTogether(f: Links, pairs: Pairs) {
    NoDup(pairs) && KnownWindows(f, pairs) && ParentsToo(f, pairs) && ChildrenToo(f, pairs)
  }

  ghost predicate WorkspaceInvariant(m: Model) {
    WellLinked(m.info) && TreesTogether(LinksOf(m.info), m.pairs)
  }

  /** Parents have joined each workspace before their children. */
  ghost predicate Ordered(m: Model) {
    ParentsEarlier(LinksOf(m.info), m.pairs)
  }

  lemma {:induction false} SameAsRoot(f: Links, pairs: Pairs, ws: Workspace, x: Window)
    requires IsForest(f) && TreesTogether(f, pairs) && x in f
    ensures (ws, x) in pairs <==> (ws, Root(f, x)) in pairs
    decreases Rank(f, x)
  {
    if f[x].parent.Some? {
      var p := f[x].parent.value;
      ParentRank(f, p, x);
      SameAsRoot(f, pairs, ws, p);
    }
  }

  lemma {:induction false} InWorkspace(pairs: Pairs, ws: Workspace, w: Window)
    ensures ws in WorkspacesOf(pairs, w) <==> (ws, w) in pairs
  {
    if (ws, w) in pairs {
      var p := (ws, w);
      assert p in pairs && p.1 == w && p.0 == ws;
    }
  }

  /** Two windows of one tree are in the same workspaces. */
  lemma {:induction false} TreeSharesWorkspaces(m: Model, x: Window, y: Window)
    requires WorkspaceInvariant(m) && x in m.info && y in m.info
    requires Root(LinksOf(m.info), x) == Root(LinksOf(m.info), y)
    ensures WorkspacesOf(m.pairs, x) == WorkspacesOf(m.pairs, y)
  {
    forall ws: Workspace
      ensures ws in WorkspacesOf(m.pairs, x) <==> ws in WorkspacesOf(m.pairs, y)
    {
      SameAsRoot(LinksOf(m.info), m.pairs, ws, x);
      SameAsRoot(LinksOf(m.info), m.pairs, ws, y);
      InWorkspace(m.pairs, ws, x);
      InWorkspace(m.pairs, ws, y);
    }
  }

  // ----- adding to a workspace

  /** Each window of the list that has a parent has it earlier in the list. */
  ghost predicate Descending(f: Links, s: seq<Window>) {
    forall i, p: Window :: 0 <= i < |s| && IsParent(f, p, s[i]) ==> p in s[..i]
  }

  ghost predicate WithParents(f: Links, s: seq<Window>) {
    forall p: Window, c: Window :: c in s && IsParent(f, p, c) ==> p in s
  }

  ghost predicate WithChildren(f: Links, s: seq<Window>) {
    forall p: Window, c: Window :: p in s && IsParent(f, p, c) ==> c in s
  }

  lemma {:induction false} AddedMembers(pairs: Pairs, ws: Workspace, windows: seq<Window>)
    ensures forall pair: (Workspace, Window) ::
              pair in AddPairs(pairs, ws, windows) <==> pair in pairs || (pair.0 == ws && pair.1 in windows)
  {
    forall x: Window
      ensures x in WindowsIn(pairs, ws) <==> (ws, x) in pairs
    {
      var p := (ws, x);
      assert p in pairs ==> p.1 in WindowsIn(pairs, ws);
    }
    var added := Paired(ws, Without(windows, WindowsIn(pairs, ws)));
    forall pair: (Workspace, Window) | pair in pairs || (pair.0 == ws && pair.1 in windows)
      ensures pair in pairs + added
    {
      assert pair == (pair.0, pair.1);
    }
  }

  lemma {:induction false} AddedNoDup(pairs: Pairs, ws: Workspace, windows: seq<Window>)
    requires NoDup(pairs) && NoDup(windows)
    ensures NoDup(AddPairs(pairs, ws, windows))
  {
    var missing := Without(windows, WindowsIn(pairs, ws));
    WithoutNoDup(windows, WindowsIn(pairs, ws));
    var added := Paired(ws, missing);
    assert NoDup(added) by {
      forall i, j | 0 <= i < j < |added|
        ensures added[i] != added[j]
      {
        assert missing[i] != missing[j];
      }
    }
    forall pair: (Workspace, Window) | pair in pairs
      ensures pair !in added
    {
      assert pair.0 == ws ==> pair.1 in WindowsIn(pairs, ws);
    }
    ConcatNoDup(pairs, added);
  }

  lemma {:induction false} AddedParentsEarlier(f: Links, pairs: Pairs, ws: Workspace, windows: seq<Window>)
    requires ParentsEarlier(f, pairs) && Descending(f, windows)
    ensures ParentsEarlier(f, AddPairs(pairs, ws, windows))
  {
    var inside := WindowsIn(pairs, ws);
    if windows == [] {
      assert AddPairs(pairs, ws, []) == pairs;
    } else {
      var front, x := windows[..|windows| - 1], windows[|windows| - 1];
      assert Descending(f, front) by {
        forall i, p: Window | 0 <= i < |front| && IsParent(f, p, front[i])
          ensures p in front[..i]
        {
          assert windows[i] == front[i] && windows[..i] == front[..i];
        }
      }
      AddedParentsEarlier(f, pairs, ws, front);
      AddedMembers(pairs, ws, front);
      if x in inside {
        assert AddPairs(pairs, ws, windows) == AddPairs(pairs, ws, front);
      } else {
        AddOneMore(pairs, ws, windows);
        var all := AddPairs(pairs, ws, windows);
        assert all[..|all| - 1] == AddPairs(pairs, ws, front);
        forall p: Window | IsParent(f, p, x)
          ensures (ws, p) in all[..|all| - 1]
        {
          assert p in front;
        }
      }
    }
  }

  lemma {:induction false} AddOneMore(pairs: Pairs, ws: Workspace, windows: seq<Window>)
    requires |windows| > 0 && windows[|windows| - 1] !in WindowsIn(pairs, ws)
    ensures AddPairs(pairs, ws, windows) ==
            AddPairs(pairs, ws, windows[..|windows| - 1]) + [(ws, windows[|windows| - 1])]
  {
    var inside, front, x := WindowsIn(pairs, ws), windows[..|windows| - 1], windows[|windows| - 1];
    assert Without(windows, inside) == Without(front, inside) + [x];
    assert Paired(ws, Without(windows, inside)) == Paired(ws, Without(front, inside)) + [(ws, x)];
  }

  lemma {:induction false} AddingKeepsTogether(f: Links, pairs: Pairs, ws: Workspace, windows: seq<Window>)
    requires TreesTogether(f, pairs) && NoDup(windows) && WithParents(f, windows) && WithChildren(f, windows)
    requires forall x: Window :: x in windows ==> x in f
    ensures TreesTogether(f, AddPairs(pairs, ws, windows))
  {
    AddedMembers(pairs, ws, windows);
    AddedNoDup(pairs, ws, windows);
  }

  /** The list add_tree_to_workspace works on. */
  lemma {:induction false} TreeListFits(f: Links, w: Window)
    requires IsForest(f) && w in f
    ensures var tree := Preorder(f, Root(f, w));
            && NoDup(tree) && Descending(f, tree) && WithParents(f, tree) && WithChildren(f, tree)
            && forall x: Window :: x in tree <==> x in f && Root(f, x) == Root(f, w)
  {
    var root := Root(f, w);
    var tree := Preorder(f, root);
    PreorderMembers(f, root);
    PreorderNoDup(f, root);
    PreorderParentsFirst(f, root);
    forall x: Window | x in f
      ensures Below(f, root, x) <==> Root(f, x) == root
    {
      BelowRoot(f, x);
      if Below(f, root, x) {
        RootOfBelow(f, root, x);
        RootOfRoot(f, w);
      }
    }
    forall p: Window, c: Window | p in tree && IsParent(f, p, c)
      ensures c in tree
    {
      ParentRank(f, p, c);
    }
    forall i, p: Window | 0 <= i < |tree| && IsParent(f, p, tree[i])
      ensures p in tree[..i]
    {
      assert tree[i] != root;
      var q :| q in tree[..i] && IsParent(f, q, tree[i]);
    }
  }

  lemma {:induction false} RootOfRoot(f: Links, w: Window)
    requires IsForest(f) && w in f
    ensures Root(f, Root(f, w)) == Root(f, w)
  {
  }

  lemma {:induction false} AddTreeKeepsWorkspaces(m: Model, w: Window, ws: Workspace)
    requires WorkspaceInvariant(m) && w in m.info
    ensures WorkspaceInvariant(AddTree(m, w, ws)) && (Ordered(m) ==> Ordered(AddTree(m, w, ws)))
    ensures forall x: Window, v: Workspace :: x in m.info ==>
              ((v, x) in AddTree(m, w, ws).pairs <==>
                 (v, x) in m.pairs || (v == ws && Root(LinksOf(m.info), x) == Root(LinksOf(m.info), w)))
  {
    var tree := TreeOf(m.info, w);
    TreeListFits(LinksOf(m.info), w);
    AddingKeepsTogether(LinksOf(m.info), m.pairs, ws, tree);
    AddedMembers(m.pairs, ws, tree);
    if Ordered(m) {
      AddedParentsEarlier(LinksOf(m.info), m.pairs, ws, tree);
    }
  }

  // ----- removing from a workspace

  lemma {:induction false} RemovingKeepsTogether(f: Links, g: Links, pairs: Pairs, drop: set<(Workspace, Window)>)
    requires TreesTogether(f, pairs)
    requires forall p: Window, c: Window :: IsParent(g, p, c) ==> IsParent(f, p, c)
    requires forall ws: Workspace, p: Window, c: Window :: IsParent(g, p, c) ==> ((ws, p) in drop <==> (ws, c) in drop)
    requires forall pair: (Workspace, Window) :: pair in pairs && pair !in drop ==> pair.1 in g
    ensures TreesTogether(g, Without(pairs, drop))
  {
    WithoutNoDup(pairs, drop);
  }

  lemma {:induction false} RemovedParentsEarlier(f: Links, g: Links, pairs: Pairs, drop: set<(Workspace, Window)>)
    requires ParentsEarlier(f, pairs)
    requires forall p: Window, c: Window :: IsParent(g, p, c) ==> IsParent(f, p, c)
    requires forall ws: Workspace, p: Window, c: Window :: IsParent(g, p, c) ==> ((ws, p) in drop <==> (ws, c) in drop)
    ensures ParentsEarlier(g, Without(pairs, drop))
  {
    if pairs != [] {
      var front, last := pairs[..|pairs| - 1], pairs[|pairs| - 1];
      RemovedParentsEarlier(f, g, front, drop);
      if last !in drop {
        KeptParent(f, g, front, last, drop);
        LastParentEarlier(g, Without(front, drop), last);
      } else {
        assert Without(pairs, drop) == Without(front, drop);
      }
    }
  }

  lemma {:induction false} LastParentEarlier(g: Links, pairs: Pairs, last: (Workspace, Window))
    requires ParentsEarlier(g, pairs) && forall p: Window :: IsParent(g, p, last.1) ==> (last.0, p) in pairs
    ensures ParentsEarlier(g, pairs + [last])
  {
    assert (pairs + [last])[..|pairs + [last]| - 1] == pairs;
  }

  lemma {:induction false} KeptParent(
      f: Links, g: Links, front: Pairs, last: (Workspace, Window), drop: set<(Workspace, Window)>)
    requires forall p: Window :: IsParent(f, p, last.1) ==> (last.0, p) in front
    requires forall p: Window, c: Window :: IsParent(g, p, c) ==> IsParent(f, p, c)
    requires forall ws: Workspace, p: Window, c: Window :: IsParent(g, p, c) ==> ((ws, p) in drop <==> (ws, c) in drop)
    requires last !in drop
    ensures forall p: Window :: IsParent(g, p, last.1) ==> (last.0, p) in Without(front, drop)
  {
    assert last == (last.0, last.1);
  }

  lemma {:induction false} RemoveTreeKeepsWorkspaces(m: Model, w: Window, ws: Workspace)
    requires WorkspaceInvariant(m) && w in m.info
    ensures WorkspaceInvariant(RemoveTree(m, w, ws)) && (Ordered(m) ==> Ordered(RemoveTree(m, w, ws)))
    ensures forall x: Window, v: Workspace :: x in m.info ==>
              ((v, x) in RemoveTree(m, w, ws).pairs <==>
                 (v, x) in m.pairs && !(v == ws && Root(LinksOf(m.info), x) == Root(LinksOf(m.info), w)))
  {
    var f, tree := LinksOf(m.info), TreeOf(m.info, w);
    TreeListFits(f, w);
    var drop := set p | p in m.pairs && p.0 == ws && p.1 in tree;
    forall v: Workspace, p: Window, c: Window | IsParent(f, p, c)
      ensures (v, p) in drop <==> (v, c) in drop
    {
      ParentRank(f, p, c);
    }
    RemovingKeepsTogether(f, f, m.pairs, drop);
    if Ordered(m) {
      RemovedParentsEarlier(f, f, m.pairs, drop);
    }
  }

  /** Locker drops what is left of the workspaces that have died. */
  lemma {:induction false} DropWorkspaceKeepsWorkspaces(m: Model, ws: Workspace)
    requires WorkspaceInvariant(m)
    ensures WorkspaceInvariant(DropWorkspace(m, ws)) && (Ordered(m) ==> Ordered(DropWorkspace(m, ws)))
    ensures forall x: Window, v: Workspace :: (v, x) in DropWorkspace(m, ws).pairs <==> (v, x) in m.pairs && v != ws
  {
    var f := LinksOf(m.info);
    var drop := set p | p in m.pairs && p.0 == ws;
    RemovingKeepsTogether(f, f, m.pairs, drop);
    if Ordered(m) {
      RemovedParentsEarlier(f, f, m.pairs, drop);
    }
  }

  lemma {:induction false} ContentFits(pairs: Pairs, ws: Workspace)
    requires NoDup(pairs)
    ensures NoDup(ContentOf(pairs, ws)) && forall x: Window :: x in ContentOf(pairs, ws) <==> (ws, x) in pairs
  {
    if pairs != [] {
      var front, last := pairs[..|pairs| - 1], pairs[|pairs| - 1];
      ContentFits(front, ws);
      var content, c := ContentOf(front, ws), ContentOf(pairs, ws);
      assert pairs == front + [last];
      assert last !in front;
      if last.0 == ws {
        assert last.1 !in content by {
          assert (ws, last.1) == last;
        }
        ConcatNoDup(content, [last.1]);
      }
      forall x: Window
        ensures x in c <==> (ws, x) in pairs
      {
        assert (ws, x) in pairs <==> (ws, x) in front || (ws, x) == last;
      }
    }
  }

  lemma {:induction false} ContentDescends(f: Links, pairs: Pairs, ws: Workspace)
    requires NoDup(pairs) && ParentsEarlier(f, pairs)
    ensures Descending(f, ContentOf(pairs, ws))
  {
    if pairs != [] {
      var front, last := pairs[..|pairs| - 1], pairs[|pairs| - 1];
      ContentDescends(f, front, ws);
      ContentFits(front, ws);
      var content, c := ContentOf(front, ws), ContentOf(pairs, ws);
      forall i, p: Window | 0 <= i < |c| && IsParent(f, p, c[i])
        ensures p in c[..i]
      {
        if i < |content| {
          assert c[..i] == content[..i];
        } else {
          assert c[..i] == content;
        }
      }
    }
  }

  lemma {:induction false} ContentWhole(f: Links, pairs: Pairs, ws: Workspace)
    requires TreesTogether(f, pairs)
    ensures var content := ContentOf(pairs, ws);
            && NoDup(content) && WithParents(f, content) && WithChildren(f, content)
            && forall x: Window :: x in content ==> x in f
  {
    ContentFits(pairs, ws);
  }

  lemma {:induction false} ContentLeaves(f: Links, pairs: Pairs, from: Workspace)
    requires TreesTogether(f, pairs)
    ensures var rest := RemovePairs(pairs, from, ContentOf(pairs, from));
            && TreesTogether(f, rest) && (ParentsEarlier(f, pairs) ==> ParentsEarlier(f, rest))
            && forall x: Window, v: Workspace :: (v, x) in rest <==> v != from && (v, x) in pairs
  {
    var moved := ContentOf(pairs, from);
    ContentFits(pairs, from);
    var drop := set p | p in pairs && p.0 == from && p.1 in moved;
    RemovingKeepsTogether(f, f, pairs, drop);
    if ParentsEarlier(f, pairs) {
      RemovedParentsEarlier(f, f, pairs, drop);
    }
    forall x: Window, v: Workspace
      ensures (v, x) in Without(pairs, drop) <==> v != from && (v, x) in pairs
    {
      assert (v, x) in drop <==> (v, x) in pairs && v == from;
    }
  }

  lemma {:induction false} MoveContentKeepsWorkspaces(m: Model, to: Workspace, from: Workspace)
    requires WorkspaceInvariant(m)
    ensures WorkspaceInvariant(MoveContent(m, to, from)) && (Ordered(m) ==> Ordered(MoveContent(m, to, from)))
    ensures forall x: Window, v: Workspace :: (v, x) in MoveContent(m, to, from).pairs <==>
              (v != from && (v, x) in m.pairs) || (v == to && (from, x) in m.pairs)
  {
    var f, moved := LinksOf(m.info), ContentOf(m.pairs, from);
    ContentLeaves(f, m.pairs, from);
    ContentFits(m.pairs, from);
    ContentWhole(f, m.pairs, from);
    var rest := RemovePairs(m.pairs, from, moved);
    AddingKeepsTogether(f, rest, to, moved);
    AddedMembers(rest, to, moved);
    if Ordered(m) {
      ContentDescends(f, m.pairs, from);
      AddedParentsEarlier(f, rest, to, moved);
    }
  }

  // ----- windows come and go

  lemma {:induction false} WorkspaceListFits(pairs: Pairs, w: Window)
    requires NoDup(pairs)
    ensures NoDup(WorkspaceListOf(pairs, w))
  {
    if pairs != [] {
      var front, last := pairs[..|pairs| - 1], pairs[|pairs| - 1];
      WorkspaceListFits(front, w);
      assert last !in front;
      if last.1 == w {
        assert last == (last.0, w);
        ConcatNoDup(WorkspaceListOf(front, w), [last.0]);
      }
    }
  }

  function JoinPairs(wss: seq<Workspace>, w: Window): (r: Pairs)
    ensures forall p: (Workspace, Window) :: p in r <==> p.1 == w && p.0 in wss
  {
    if wss == [] then [] else
    assert wss == wss[..|wss| - 1] + [wss[|wss| - 1]];
    JoinPairs(wss[..|wss| - 1], w) + [(wss[|wss| - 1], w)]
  }

  lemma {:induction false} JoinsOne(info: Windows, pairs: Pairs, w: Window, ws: Workspace)
    requires WellLinked(info) && w in info && (ws, w) !in pairs
    requires forall x: Window :: x in TreeOf(info, w) && x != w ==> (ws, x) in pairs
    ensures AddPairs(pairs, ws, TreeOf(info, w)) == pairs + [(ws, w)]
  {
    var tree, inside := TreeOf(info, w), WindowsIn(pairs, ws);
    TreeListFits(LinksOf(info), w);
    forall x: Window
      ensures x in inside <==> (ws, x) in pairs
    {
      var p := (ws, x);
      assert p in pairs ==> p.1 in inside;
    }
    OnlyOneMissing(tree, inside, w);
    assert Paired(ws, [w]) == [(ws, w)];
  }

  /** While a new window joins the workspaces of its parent, nothing else joins anything. */
  lemma {:induction false} JoinsOnlyItself(m: Model, w: Window, wss: seq<Workspace>)
    requires WellLinked(m.info) && w in m.info && NoDup(wss)
    requires forall ws: Workspace :: ws in wss ==> (ws, w) !in m.pairs
    requires forall ws: Workspace, x: Window :: ws in wss && x in TreeOf(m.info, w) && x != w ==> (ws, x) in m.pairs
    ensures JoinAll(m, w, wss) == m.(pairs := m.pairs + JoinPairs(wss, w))
  {
    if wss == [] {
      assert m.pairs + [] == m.pairs;
    } else {
      var front, ws := wss[..|wss| - 1], wss[|wss| - 1];
      assert ws in wss && ws !in front;
      JoinsOnlyItself(m, w, front);
      var pairs := m.pairs + JoinPairs(front, w);
      JoinsOne(m.info, pairs, w, ws);
      assert pairs + [(ws, w)] == m.pairs + (JoinPairs(front, w) + [(ws, w)]);
    }
  }

  lemma {:induction false} JoinedParentsEarlier(f: Links, pairs: Pairs, wss: seq<Workspace>, w: Window)
    requires ParentsEarlier(f, pairs)
    requires forall ws: Workspace, p: Window :: ws in wss && IsParent(f, p, w) ==> (ws, p) in pairs
    ensures ParentsEarlier(f, pairs + JoinPairs(wss, w))
  {
    if wss == [] {
      assert pairs + [] == pairs;
    } else {
      var front := wss[..|wss| - 1];
      JoinedParentsEarlier(f, pairs, front, w);
      var all := pairs + JoinPairs(wss, w);
      assert all[..|all| - 1] == pairs + JoinPairs(front, w);
    }
  }

  lemma {:induction false} MoreLinksParentsEarlier(f: Links, g: Links, pairs: Pairs)
    requires ParentsEarlier(f, pairs)
    requires forall p: Window, pair: (Workspace, Window) ::
               pair in pairs && IsParent(g, p, pair.1) ==> IsParent(f, p, pair.1)
    ensures ParentsEarlier(g, pairs)
  {
    if pairs != [] {
      MoreLinksParentsEarlier(f, g, pairs[..|pairs| - 1]);
    }
  }

  lemma {:induction false} JoinPairsNoDup(wss: seq<Workspace>, w: Window)
    requires NoDup(wss)
    ensures NoDup(JoinPairs(wss, w))
  {
    if wss != [] {
      var front := wss[..|wss| - 1];
      JoinPairsNoDup(front, w);
      assert wss[|wss| - 1] !in front;
      ConcatNoDup(JoinPairs(front, w), [(wss[|wss| - 1], w)]);
    }
  }

  /** A new window joins exactly the workspaces of its parent; a new root joins none. */
  lemma {:induction false} AddWindowKeepsWorkspaces(m: Model, w: Window, spec: NewWindow)
    requires WorkspaceInvariant(m) && w !in m.info && (spec.parent.Some? ==> spec.parent.value in m.info)
    ensures WorkspaceInvariant(AddWindow(m, w, spec)) && (Ordered(m) ==> Ordered(AddWindow(m, w, spec)))
    ensures AddWindow(m, w, spec).pairs ==
            m.pairs + if spec.parent.Some? then JoinPairs(WorkspaceListOf(m.pairs, spec.parent.value), w) else []
  {
    hide TreesTogether, ParentsEarlier, Preorder, Root, AddTree, Linked, Acyclic, Ranking;
    NewWindowLinks(m.info, w, spec);
    var m1, f := Added(m, w, spec), LinksOf(m.info);
    var wss := if spec.parent.Some? then WorkspaceListOf(m.pairs, spec.parent.value) else [];
    PairsKnown(f, m.pairs);
    if spec.parent.Some? {
      WorkspaceListFits(m.pairs, spec.parent.value);
      RestOfTreeInside(m, w, spec);
      JoinsOnlyItself(m1, w, wss);
    }
    assert m.pairs + JoinPairs([], w) == m.pairs;
    NewcomerTogether(f, m.pairs, w, spec.parent, wss);
    if Ordered(m) {
      NewcomerLater(f, m.pairs, w, spec.parent, wss);
    }
  }

  lemma {:induction false} PairsKnown(f: Links, pairs: Pairs)
    requires TreesTogether(f, pairs)
    ensures NoDup(pairs) && KnownWindows(f, pairs)
  {
  }

  /** The links with a new window: it has no children, and the others have the parents they had. */
  lemma {:induction false} NewcomerLinks(f: Links, w: Window, parent: Option<Window>)
    requires IsForest(f) && w !in f && (parent.Some? ==> parent.value in f) && IsForest(AddLeaf(f, w, parent))
    ensures var g := AddLeaf(f, w, parent);
            && (forall p: Window, c: Window :: IsParent(g, p, c) ==> p != w && (c != w ==> IsParent(f, p, c)))
            && (forall p: Window :: IsParent(g, p, w) <==> parent == Some(p))
  {
    var g := AddLeaf(f, w, parent);
    forall p: Window, c: Window | IsParent(g, p, c)
      ensures p != w
    {
      if p == w {
        ParentRank(g, w, c);
      }
    }
  }

  lemma {:induction false} NewcomerTogether(
      f: Links, pairs: Pairs, w: Window, parent: Option<Window>, wss: seq<Workspace>)
    requires IsForest(f) && w !in f && (parent.Some? ==> parent.value in f) && IsForest(AddLeaf(f, w, parent))
    requires TreesTogether(f, pairs) && NoDup(wss) && (parent.None? ==> wss == [])
    requires parent.Some? ==> forall ws: Workspace :: ws in wss <==> (ws, parent.value) in pairs
    ensures TreesTogether(AddLeaf(f, w, parent), pairs + JoinPairs(wss, w))
  {
    hide AddLeaf;
    NewcomerLinks(f, w, parent);
    AddLeafKeys(f, w, parent);
    JoinPairsNoDup(wss, w);
    ConcatNoDup(pairs, JoinPairs(wss, w));
  }

  lemma {:induction false} AddLeafKeys(f: Links, w: Window, parent: Option<Window>)
    requires parent.Some? ==> parent.value in f
    ensures AddLeaf(f, w, parent).Keys == f.Keys + {w}
  {
  }

  lemma {:induction false} NewcomerLater(
      f: Links, pairs: Pairs, w: Window, parent: Option<Window>, wss: seq<Workspace>)
    requires IsForest(f) && w !in f && (parent.Some? ==> parent.value in f) && IsForest(AddLeaf(f, w, parent))
    requires KnownWindows(f, pairs) && ParentsEarlier(f, pairs) && (parent.None? ==> wss == [])
    requires parent.Some? ==> forall ws: Workspace :: ws in wss <==> (ws, parent.value) in pairs
    ensures ParentsEarlier(AddLeaf(f, w, parent), pairs + JoinPairs(wss, w))
  {
    hide AddLeaf;
    NewcomerLinks(f, w, parent);
    MoreLinksParentsEarlier(f, AddLeaf(f, w, parent), pairs);
    JoinedParentsEarlier(AddLeaf(f, w, parent), pairs, wss, w);
  }

  lemma {:induction false} RestOfTreeInside(m: Model, w: Window, spec: NewWindow)
    requires WorkspaceInvariant(m) && w !in m.info && spec.parent.Some? && spec.parent.value in m.info
    requires WellLinked(WithNewWindow(m.info, w, spec))
    ensures forall ws: Workspace, x: Window :: (ws in WorkspaceListOf(m.pairs, spec.parent.value) &&
                             x in TreeOf(WithNewWindow(m.info, w, spec), w) && x != w) ==> (ws, x) in m.pairs
  {
    var f, p := LinksOf(m.info), spec.parent.value;
    NewWindowLinks(m.info, w, spec);
    var g := LinksOf(WithNewWindow(m.info, w, spec));
    TreeListFits(g, w);
    forall ws: Workspace, x: Window |
      ws in WorkspaceListOf(m.pairs, p) && x in TreeOf(WithNewWindow(m.info, w, spec), w) && x != w
      ensures (ws, x) in m.pairs
    {
      NewWindowRoot(f, w, p, x);
      NewWindowRoot(f, w, p, p);
      SameAsRoot(f, m.pairs, ws, x);
      SameAsRoot(f, m.pairs, ws, p);
    }
  }

  lemma {:induction false} NewWindowRoot(f: Links, w: Window, p: Window, x: Window)
    requires IsForest(f) && w !in f && p in f && IsForest(AddLeaf(f, w, Some(p))) && x in f
    ensures Root(AddLeaf(f, w, Some(p)), x) == Root(f, x)
    ensures Root(AddLeaf(f, w, Some(p)), w) == Root(AddLeaf(f, w, Some(p)), p)
    decreases Rank(f, x)
  {
    if f[x].parent.Some? {
      ParentRank(f, f[x].parent.value, x);
      NewWindowRoot(f, w, p, f[x].parent.value);
    }
  }

  lemma {:induction false} ForgetKeepsWorkspaces(m: Model, w: Window)
    requires WorkspaceInvariant(m) && w in m.info
    ensures WorkspaceInvariant(Forget(m, w)) && (Ordered(m) ==> Ordered(Forget(m, w)))
    ensures forall x: Window, ws: Workspace :: (ws, x) in Forget(m, w).pairs <==> (ws, x) in m.pairs && x != w
  {
    WithoutWindowLinks(m.info, w);
    var f, g := LinksOf(m.info), LinksOf(WithoutWindow(m.info, w));
    var drop := set p | p in m.pairs && p.1 == w;
    forall p: Window, c: Window | IsParent(g, p, c)
      ensures IsParent(f, p, c) && p != w && c != w
    {
    }
    RemovingKeepsTogether(f, g, m.pairs, drop);
    if Ordered(m) {
      RemovedParentsEarlier(f, g, m.pairs, drop);
    }
  }
}
