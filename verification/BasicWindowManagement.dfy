/** miral/basic_window_manager.cpp: the window manager itself, changing its fields step by step. Each method is
    proved to do to the fields, taken together as a Model, what the function of the same name does to a Model. */
module BasicWindowManagement {
  import opened Sequences
  import opened Geometry
  import opened Forest
  import Z = ZOrder
  import M = WindowModel
  import opened WindowModel
  import opened WindowStates
  import opened WorkspaceMembership
  import opened MRUList

  // ----- facts about partly done work

  /** The windows moved when the root and the trees of its first n children have been. */
  ghost function MovedSoFar(info: Windows, w: Window, n: nat, movement: Displacement): Windows
    requires WellLinked(info) && w in info && n <= |info[w].node.children|
  {
    map x | x in info ::
      if x == w || BelowOneOf(LinksOf(info), info[w].node.children[..n], x) then Moved(info[x], movement) else info[x]
  }

  lemma {:induction false} GeometryKeepsLinks(info: Windows, info': Windows)
    requires info'.Keys == info.Keys && forall x :: x in info ==> info'[x].node == info[x].node
    ensures LinksOf(info') == LinksOf(info)
  {
  }

  lemma {:induction false} MoveNextChild(info: Windows, w: Window, n: nat, movement: Displacement)
    requires WellLinked(info) && w in info && n < |info[w].node.children|
    ensures var now := MovedSoFar(info, w, n, movement); var c := info[w].node.children[n];
            && LinksOf(now) == LinksOf(info) && c in now && now[c] == info[c]
            && PlaceAndSize(now, c, Shift(info[c].surface.rect.topLeft, movement), info[c].surface.rect.size) ==
                 MovedSoFar(info, w, n + 1, movement)
  {
    hide IsParent, Room, Rank;
    var f, kids := LinksOf(info), info[w].node.children;
    var now, c := MovedSoFar(info, w, n, movement), kids[n];
    assert f[w].children == kids;
    assert IsParent(f, w, c);
    ParentRank(f, w, c);
    assert kids[..n + 1] == kids[..n] + [c];
    GeometryKeepsLinks(info, now);
    forall x | x in info
      ensures BelowOneOf(f, kids[..n + 1], x) <==> BelowOneOf(f, kids[..n], x) || Below(f, c, x)
      ensures Below(f, c, x) ==> x != w && !BelowOneOf(f, kids[..n], x)
    {
      BelowOneMore(f, kids[..n], c, x);
      if Below(f, c, x) {
        SiblingsDisjoint(f, w, c, c, x);
        forall d | d in kids[..n]
          ensures !Below(f, d, x)
        {
          assert d != c && IsParent(f, w, d);
          SiblingsDisjoint(f, w, c, d, x);
        }
      }
    }
    assert Below(f, c, c);
    assert now[c] == info[c];
  }

  lemma {:induction false} AllChildrenMoved(info: Windows, w: Window, movement: Displacement)
    requires WellLinked(info) && w in info
    ensures MovedSoFar(info, w, |info[w].node.children|, movement) == MoveTree(info, w, movement)
    ensures MovedSoFar(info, w, 0, movement) == info[w := Moved(info[w], movement)]
  {
    var f, kids := LinksOf(info), info[w].node.children;
    assert kids[..|kids|] == kids && kids[..0] == [];
    forall x | x in info
      ensures Below(f, w, x) <==> x == w || BelowOneOf(f, kids, x)
    {
      if Below(f, w, x) && x != w {
        var c := BelowAChild(f, w, x);
        ParentRank(f, w, c);
      }
      if BelowOneOf(f, kids, x) {
        var c :| c in kids && Below(f, c, x);
        assert c in f[w].children;
        assert IsParent(f, w, c) && Below(f, w, c);
        BelowTransitive(f, w, c, x);
      }
    }
  }

  /** Resizing the root and then moving its tree is placing it. */
  lemma {:induction false} ResizeThenMove(info: Windows, w: Window, pos: Point, size: Size)
    requires WellLinked(info) && w in info
    ensures var resized := info[w := info[w].PlacedAt(Rectangle(info[w].surface.rect.topLeft, size))];
            && LinksOf(resized) == LinksOf(info)
            && MoveTree(resized, w, Between(info[w].surface.rect.topLeft, pos)) == PlaceAndSize(info, w, pos, size)
  {
    var resized := info[w := info[w].PlacedAt(Rectangle(info[w].surface.rect.topLeft, size))];
    GeometryKeepsLinks(info, resized);
    assert Below(LinksOf(info), w, w);
  }

  lemma {:induction false} NoMovement(info: Windows, w: Window)
    requires WellLinked(info) && w in info
    ensures MoveTree(info, w, Displacement(0, 0)) == info
  {
  }

  lemma {:induction false} RemoveFirstAt(s: seq<Window>, i: nat, x: Window)
    requires i < |s| && s[i] == x && x !in s[..i]
    ensures RemoveFirst(s, x) == s[..i] + s[i + 1..]
  {
    if i > 0 {
      assert s[0] in s[..i];
      assert x !in s[1..][..i - 1] by {
        assert s[1..][..i - 1] == s[..i][1..];
      }
      RemoveFirstAt(s[1..], i - 1, x);
      assert [s[0]] + (s[1..][..i - 1] + s[1..][i..]) == s[..i] + s[i + 1..];
    }
  }

  method EraseFirst(siblings: seq<Window>, child: Window) returns (rest: seq<Window>)
    ensures rest == RemoveFirst(siblings, child)
  {
    for i := 0 to |siblings|
      invariant child !in siblings[..i]
    {
      if siblings[i] == child {
        RemoveFirstAt(siblings, i, child);
        return siblings[..i] + siblings[i + 1..];
      }
    }
    rest := siblings;
  }

  lemma {:induction false} PreorderIsSubtree(f: Links, w: Window)
    requires IsForest(f) && w in f
    ensures (set x | x in Preorder(f, w)) == Subtree(f, w)
  {
    PreorderMembers(f, w);
  }

  function HavingChildren(i: WindowInfo, children: seq<Window>): WindowInfo {
    i.(node := i.node.(children := children))
  }

  function HavingParent(i: WindowInfo, parent: Option<Window>): WindowInfo {
    i.(node := i.node.(parent := parent))
  }

  /** modify_window's steps: the window's own entry, then the old parent's children, then the new parent's. */
  function Rehung(info: Windows, w: Window, changed: WindowInfo): Windows
    requires w in info && (changed.node.parent.Some? ==> changed.node.parent.value in info)
  {
    var info1 := info[w := changed];
    if changed.node.parent == info[w].node.parent then info1
    else
      var info2 := if info[w].node.parent.Some? && info[w].node.parent.value in info1
                   then
                     var p := info[w].node.parent.value;
                     info1[p := HavingChildren(info1[p], RemoveFirst(info1[p].node.children, w))]
                   else info1;
      if changed.node.parent.Some?
      then
        var p := changed.node.parent.value;
        info2[p := HavingChildren(info2[p], info2[p].node.children + [w])]
      else info2
  }

  lemma {:induction false} RehungIsRelinked(info: Windows, w: Window, mods: Modifications)
    requires w in info && (NewParent(info[w], mods).Some? ==> NewParent(info[w], mods).value in info)
    ensures var outputId := if mods.outputId.Some? then mods.outputId else info[w].outputId;
            var changed := info[w].(kind := NewKind(info[w], mods), outputId := outputId,
                                    limits := mods.limits.AppliedTo(info[w].limits),
                                    node := info[w].node.(parent := NewParent(info[w], mods)));
            Rehung(info, w, changed) == Relinked(info, w, mods)
  {
  }

  /** erase() after its parent has let go of w and the given children have become roots. */
  function PartlyErased(info: Windows, w: Window, orphans: seq<Window>): Windows
    requires w in info
  {
    map x | x in info ::
      var i := if info[w].node.parent == Some(x) then HavingChildren(info[x], RemoveFirst(info[x].node.children, w))
               else info[x];
      if x in orphans then HavingParent(i, None) else i
  }

  lemma {:induction false} OneMoreOrphan(info: Windows, w: Window, orphans: seq<Window>, c: Window)
    requires w in info && c in info
    ensures var now := PartlyErased(info, w, orphans);
            now[c := HavingParent(now[c], None)] == PartlyErased(info, w, orphans + [c])
  {
  }

  lemma {:induction false} ErasedAtLast(info: Windows, w: Window)
    requires WellLinked(info) && w in info
    ensures var last := PartlyErased(info, w, info[w].node.children);
            (map x | x in last && x != w :: last[x]) == WithoutWindow(info, w)
  {
    var f := LinksOf(info);
    forall x | x in info && x != w
      ensures x in info[w].node.children <==> info[x].node.parent == Some(w)
      ensures info[w].node.parent != Some(x) ==> RemoveFirst(info[x].node.children, w) == info[x].node.children
    {
      assert x in f[w].children ==> IsParent(f, w, x);
      assert info[x].node.parent == Some(w) ==> IsParent(f, w, x);
      assert w in f[x].children ==> IsParent(f, x, w);
    }
  }

  lemma {:induction false} PairInside(pairs: Pairs, ws: Workspace, w: Window)
    ensures w in WindowsIn(pairs, ws) <==> (ws, w) in pairs
  {
    var p := (ws, w);
    assert p in pairs ==> p.1 in WindowsIn(pairs, ws);
  }

  /** Whether the next of the windows that join a workspace is in it, when some have joined already. */
  lemma {:induction false} NextToJoin(pairs: Pairs, ws: Workspace, windows: seq<Window>, i: nat, added: seq<Window>)
    requires NoDup(windows) && i < |windows| && added == Without(windows[..i], WindowsIn(pairs, ws))
    ensures (ws, windows[i]) in pairs + Paired(ws, added) <==> windows[i] in WindowsIn(pairs, ws)
    ensures Without(windows[..i + 1], WindowsIn(pairs, ws)) ==
            if windows[i] in WindowsIn(pairs, ws) then added else added + [windows[i]]
    ensures Paired(ws, added + [windows[i]]) == Paired(ws, added) + [(ws, windows[i])]
  {
    hide WindowsIn, Paired;
    assert windows[..i + 1][..i] == windows[..i];
    NewlyPaired(ws, added, windows[i]);
    PairInside(pairs, ws, windows[i]);
    assert windows[i] !in added;
  }

  lemma {:induction false} NewlyPaired(ws: Workspace, added: seq<Window>, w: Window)
    ensures Paired(ws, added + [w]) == Paired(ws, added) + [(ws, w)]
    ensures (ws, w) in Paired(ws, added) <==> w in added
  {
  }

  lemma {:induction false} ContentGrows(front: Pairs, last: (Workspace, Window), ws: Workspace, keep: set<Window>)
    ensures Within(ContentOf(front + [last], ws), keep) ==
            Within(ContentOf(front, ws), keep) + if last.0 == ws && last.1 in keep then [last.1] else []
  {
    assert (front + [last])[..|front + [last]| - 1] == front;
    WithinConcat(ContentOf(front, ws), if last.0 == ws then [last.1] else [], keep);
    assert [last.1][..0] == [];
  }

  lemma {:induction false} PairsGrow(front: Pairs, last: (Workspace, Window), drop: set<(Workspace, Window)>)
    ensures Without(front + [last], drop) == Without(front, drop) + if last in drop then [] else [last]
  {
    assert (front + [last])[..|front + [last]| - 1] == front;
  }

  lemma {:induction false} ContentHasNoDup(pairs: Pairs, ws: Workspace)
    requires NoDup(pairs)
    ensures NoDup(ContentOf(pairs, ws)) && forall x :: x in ContentOf(pairs, ws) ==> (ws, x) in pairs
  {
    if pairs != [] {
      var front, last := pairs[..|pairs| - 1], pairs[|pairs| - 1];
      ContentHasNoDup(front, ws);
      assert pairs == front + [last] && last !in front;
      if last.0 == ws {
        assert last == (ws, last.1);
        ConcatNoDup(ContentOf(front, ws), [last.1]);
      }
    }
  }

  function Elements(wss: seq<Workspace>): set<Workspace> {
    set ws | ws in wss
  }

  class BasicWindowManager {
    var windowInfo: Windows
    const mruActiveWindows: MRUWindowList
    var fullscreenSurfaces: set<Window>
    var workspacesToWindows: Pairs

    // The focus controller's side: which surface has the focus, and the surfaces bottom to top.
    var focused: Option<Window>
    var zOrder: seq<Window>

    ghost function State(): Model
      reads this, mruActiveWindows
    {
      Model(windowInfo, mruActiveWindows.windows, fullscreenSurfaces, workspacesToWindows, focused, zOrder)
    }

    ghost predicate Valid()
      reads this, mruActiveWindows
    {
      WellLinked(windowInfo) && forall w :: w in mruActiveWindows.windows ==> w in windowInfo
    }

    constructor ()
      ensures Valid() && fresh(mruActiveWindows) && State() == Model(map[], [], {}, [], None, [])
    {
      windowInfo, fullscreenSurfaces, workspacesToWindows := map[], {}, [];
      focused, zOrder := None, [];
      mruActiveWindows := new MRUWindowList();
      new;
      assert Ranked(LinksOf(windowInfo), map[], 0);
    }

    // ----- trees

    /** The window and everything below it, parents before children. */
    method CollectTree(root: Window) returns (windows: seq<Window>)
      requires WellLinked(windowInfo) && root in windowInfo
      ensures windows == Preorder(LinksOf(windowInfo), root)
      decreases Room(LinksOf(windowInfo), root)
    {
      ghost var f := LinksOf(windowInfo);
      windows := [root];
      var children := windowInfo[root].node.children;
      for i := 0 to |children|
        invariant windows == [root] + Walk(f, root, i)
      {
        assert children[i] in f[root].children;
        assert IsParent(f, root, children[i]);
        ParentRank(f, root, children[i]);
        var below := CollectTree(children[i]);
        windows := windows + below;
      }
    }

    method RootOf(window: Window) returns (root: Window)
      requires WellLinked(windowInfo) && window in windowInfo
      ensures root == Root(LinksOf(windowInfo), window)
    {
      root := window;
      while windowInfo[root].node.parent.Some?
        invariant root in windowInfo && Root(LinksOf(windowInfo), root) == Root(LinksOf(windowInfo), window)
        decreases Rank(LinksOf(windowInfo), root)
      {
        ParentRank(LinksOf(windowInfo), windowInfo[root].node.parent.value, root);
        root := windowInfo[root].node.parent.value;
      }
    }

    /** Raise the trees of the window's ancestors, outermost first, and then its own. */
    method RaiseTree(root: Window)
      requires WellLinked(windowInfo) && root in windowInfo
      modifies this`zOrder
      ensures zOrder == Z.RaiseTree(LinksOf(windowInfo), old(zOrder), root)
      decreases Rank(LinksOf(windowInfo), root)
    {
      if windowInfo[root].node.parent.Some? {
        ParentRank(LinksOf(windowInfo), windowInfo[root].node.parent.value, root);
        RaiseTree(windowInfo[root].node.parent.value);
      }
      var windows := CollectTree(root);
      var members := set x | x in windows;
      assert members == Subtree(LinksOf(windowInfo), root) by {
        PreorderIsSubtree(LinksOf(windowInfo), root);
      }
      zOrder := Z.Raise(zOrder, members);
    }

    // ----- geometry

    method MoveTree(root: Window, movement: Displacement)
      requires WellLinked(windowInfo) && root in windowInfo
      modifies this`windowInfo
      ensures windowInfo == M.MoveTree(old(windowInfo), root, movement)
      ensures LinksOf(windowInfo) == LinksOf(old(windowInfo))
      decreases Room(LinksOf(windowInfo), root), 0
    {
      NoMovement(windowInfo, root);
      if movement == Displacement(0, 0) {
        return;
      }
      ghost var before, f := windowInfo, LinksOf(windowInfo);
      windowInfo := windowInfo[root := Moved(windowInfo[root], movement)];
      AllChildrenMoved(before, root, movement);
      GeometryKeepsLinks(before, windowInfo);
      var children := windowInfo[root].node.children;
      for i := 0 to |children|
        invariant children == before[root].node.children
        invariant LinksOf(windowInfo) == f && windowInfo == MovedSoFar(before, root, i, movement)
      {
        var child := children[i];
        assert child in f[root].children;
        assert IsParent(f, root, child);
        ParentRank(f, root, child);
        MoveNextChild(before, root, i, movement);
        var pos := ConfirmInheritedMove(child, movement);
        PlaceAndSize(child, pos.topLeft, pos.size);
      }
    }

    /** The canonical policy: a child moves along with its parent. */
    method ConfirmInheritedMove(window: Window, movement: Displacement) returns (pos: Rectangle)
      requires window in windowInfo
      ensures pos == Moved(windowInfo[window], movement).surface.rect
    {
      var rect := windowInfo[window].surface.rect;
      pos := Rectangle(Shift(rect.topLeft, movement), rect.size);
    }

    method PlaceAndSize(root: Window, newPos: Point, newSize: Size)
      requires WellLinked(windowInfo) && root in windowInfo
      modifies this`windowInfo
      ensures windowInfo == M.PlaceAndSize(old(windowInfo), root, newPos, newSize)
      ensures LinksOf(windowInfo) == LinksOf(old(windowInfo))
      decreases Room(LinksOf(windowInfo), root), 1
    {
      var rect := windowInfo[root].surface.rect;
      ResizeThenMove(windowInfo, root, newPos, newSize);
      if rect.size != newSize {
        windowInfo := windowInfo[root := windowInfo[root].PlacedAt(Rectangle(rect.topLeft, newSize))];
      } else {
        assert windowInfo[root := windowInfo[root].PlacedAt(Rectangle(rect.topLeft, newSize))] == windowInfo;
      }
      MoveTree(root, Between(windowInfo[root].surface.rect.topLeft, newPos));
    }

    // ----- focus

    method ActiveWindow() returns (active: Option<Window>)
      ensures active == M.ActiveWindow(State())
    {
      active := mruActiveWindows.Top(windowInfo);
    }

    /** The window itself is selected. */
    method FocusOn(w: Window)
      requires Valid() && w in windowInfo
      modifies this`focused, this`zOrder, mruActiveWindows
      ensures Valid() && State() == GiveFocus(old(State()), w)
    {
      mruActiveWindows.Push(w);
      focused := Some(w);
      RaiseTree(w);
    }

    /** Give the focus to the hint or to the window of its tree that should have it instead. */
    method SelectActiveWindow(hint: Option<Window>) returns (selected: Option<Window>)
      requires Valid() && (hint.Some? ==> hint.value in windowInfo)
      modifies this`focused, this`zOrder, mruActiveWindows
      ensures Valid() && (State(), selected) == Select(old(State()), hint)
      decreases if hint.Some? then FocusPhase(windowInfo, hint.value) else 0,
                if hint.Some? then FocusSteps(windowInfo, hint.value) else 0
    {
      var prevWindow := ActiveWindow();
      if hint.None? {
        if prevWindow.Some? {
          focused := None;
        }
        return None;
      }
      var info := windowInfo[hint.value];
      var dialog := FindVisibleDialog(info.node.children);
      if dialog.Some? {
        FocusStepDown(windowInfo, hint.value, dialog.value);
        selected := SelectActiveWindow(dialog);
        return;
      }
      if info.kind.CanBeActive() && info.IsVisible() {
        FocusOn(hint.value);
        return hint;
      } else if info.node.parent.Some? {
        FocusStepUp(windowInfo, hint.value, info.node.parent.value);
        selected := SelectActiveWindow(info.node.parent);
        return;
      }
      return None;
    }

    method FindVisibleDialog(children: seq<Window>) returns (dialog: Option<Window>)
      ensures dialog == FirstVisibleDialog(windowInfo, children)
    {
      var i := 0;
      while i < |children|
        invariant 0 <= i <= |children|
        invariant FirstVisibleDialog(windowInfo, children) == FirstVisibleDialog(windowInfo, children[i..])
      {
        assert children[i..][1..] == children[i + 1..];
        if children[i] in windowInfo && windowInfo[children[i]].VisibleDialog() {
          return Some(children[i]);
        }
        i := i + 1;
      }
      dialog := None;
    }

    method WorkspacesContaining(window: Window) returns (wss: seq<Workspace>)
      ensures wss == WorkspaceListOf(workspacesToWindows, window)
      ensures Elements(wss) == WorkspacesOf(workspacesToWindows, window)
    {
      var pairs := workspacesToWindows;
      wss := [];
      for i := 0 to |pairs|
        invariant wss == WorkspaceListOf(pairs[..i], window)
      {
        assert pairs[..i + 1][..i] == pairs[..i];
        if pairs[i].1 == window {
          wss := wss + [pairs[i].0];
        }
      }
      assert pairs[..|pairs|] == pairs;
      forall ws
        ensures ws in wss <==> ws in WorkspacesOf(pairs, window)
      {
        InWorkspace(pairs, ws, window);
      }
    }

    method SharesWorkspace(window: Window, wss: set<Workspace>) returns (shares: bool)
      ensures shares <==> WorkspacesOf(workspacesToWindows, window) * wss != {}
    {
      var containing := WorkspacesContaining(window);
      for i := 0 to |containing|
        invariant forall j :: 0 <= j < i ==> containing[j] !in wss
      {
        if containing[i] in wss {
          assert containing[i] in WorkspacesOf(workspacesToWindows, window) * wss;
          return true;
        }
      }
      forall ws | ws in WorkspacesOf(workspacesToWindows, window)
        ensures ws !in wss
      {
        assert ws in containing;
      }
      shares := false;
    }

    method IsConsidered(s: Search, window: Window) returns (considered: bool)
      requires window in windowInfo
      ensures considered <==> Considers(State(), s, window)
    {
      if s.except == Some(window) || (s.application.Some? && windowInfo[window].application != s.application.value) {
        return false;
      }
      if s.workspaces.Some? {
        considered := SharesWorkspace(window, s.workspaces.value);
        return;
      }
      considered := true;
    }

    /** Go through the visible windows, the most recently used first, until one of those looked for can be selected.
        The list only changes when that happens, and then the search is over. */
    method ActivateMostRecent(s: Search) returns (newFocus: Option<Window>)
      requires Valid()
      modifies this`focused, this`zOrder, mruActiveWindows
      ensures Valid() && (State(), newFocus) == M.ActivateMostRecent(old(State()), s)
    {
      hide Target, WellLinked, GiveFocus;
      var i := |mruActiveWindows.windows|;
      ghost var good, list := Selectable(State(), s), mruActiveWindows.windows;
      assert list[..i] == list;
      newFocus := None;
      while i > 0
        invariant 0 <= i <= |list|
        invariant Valid() && State() == old(State()) && newFocus == None
        invariant LastIn(list, good) == LastIn(list[..i], good)
      {
        i := i - 1;
        assert list[..i + 1][..i] == list[..i];
        var window := mruActiveWindows.windows[i];
        assert window in list;
        if windowInfo[window].SurfaceShows() {
          var considered := IsConsidered(s, window);
          if considered {
            newFocus := SelectActiveWindow(Some(window));
            if newFocus.Some? {
              return;
            }
          }
        }
      }
      assert LastIn(list, good).None?;
    }

    // ----- state

    method SetState(window: Window, value: WindowState)
      requires Valid() && window in windowInfo
      modifies this, mruActiveWindows
      ensures Valid() && State() == M.SetState(old(State()), window, value)
    {
      if !value.Fullscreen? {
        fullscreenSurfaces := fullscreenSurfaces - {window};
      } else {
        fullscreenSurfaces := fullscreenSurfaces + {window};
      }
      if windowInfo[window].state == value {
        return;
      }
      var wasHidden := windowInfo[window].state.Conceals();
      StateKeepsLinks(windowInfo, window, value);
      StateKeepsLinks(WithState(windowInfo, window, value), window, value);
      if value.Conceals() {
        windowInfo := windowInfo[window := windowInfo[window].(state := value)];
        var active := ActiveWindow();
        if active == Some(window) {
          PassFocusOn(window);
        }
        var surface := windowInfo[window].surface;
        windowInfo := windowInfo[window := windowInfo[window].(surface := surface.(state := value, shown := false))];
      } else {
        var active := ActiveWindow();
        windowInfo := windowInfo[window := windowInfo[window].(state := value)];
        var surface := windowInfo[window].surface;
        windowInfo := windowInfo[window := windowInfo[window].(surface := surface.(state := value, shown := true))];
        if wasHidden && active.None? {
          var selected := SelectActiveWindow(Some(window));
        }
      }
    }

    /** The part of set_state that looks for another active window before the active one is hidden. */
    method PassFocusOn(window: Window)
      requires Valid() && window in windowInfo
      modifies this`focused, this`zOrder, mruActiveWindows
      ensures Valid() && State() == M.PassFocusOn(old(State()), window)
    {
      var selected := SelectActiveWindow(Some(window));
      var wss := WorkspacesContaining(window);
      PassFocusAmong(window, Search(None, Some(Elements(wss)), Some(window)));
      PassFocusAmong(window, Search(None, None, Some(window)));
      var active := ActiveWindow();
      if active == Some(window) {
        selected := SelectActiveWindow(None);
      }
    }

    method PassFocusAmong(window: Window, s: Search)
      requires Valid()
      modifies this`focused, this`zOrder, mruActiveWindows
      ensures Valid() && State() == if M.ActiveWindow(old(State())) in {Some(window), None}
                                    then M.ActivateMostRecent(old(State()), s).0 else old(State())
    {
      var active := ActiveWindow();
      if active == Some(window) || active.None? {
        var selected := ActivateMostRecent(s);
      }
    }

    // ----- modifications

    method RemoveChild(parent: Window, child: Window)
      requires parent in windowInfo
      modifies this`windowInfo
      ensures windowInfo ==
              var info := old(windowInfo);
              info[parent := HavingChildren(info[parent], RemoveFirst(info[parent].node.children, child))]
    {
      var rest := EraseFirst(windowInfo[parent].node.children, child);
      windowInfo := windowInfo[parent := HavingChildren(windowInfo[parent], rest)];
    }

    method AddChild(parent: Window, child: Window)
      requires parent in windowInfo
      modifies this`windowInfo
      ensures windowInfo == old(windowInfo)[parent := HavingChildren(old(windowInfo)[parent],
                                                                   old(windowInfo)[parent].node.children + [child])]
    {
      var children := windowInfo[parent].node.children + [child];
      windowInfo := windowInfo[parent := HavingChildren(windowInfo[parent], children)];
    }

    /** The new type, parent and output of the window, unless the change has to be refused. */
    method Relink(window: Window, mods: Modifications) returns (accepted: bool)
      requires Valid() && window in windowInfo
      modifies this`windowInfo
      ensures accepted <==> Acceptable(old(windowInfo), window, mods)
      ensures windowInfo == if accepted then Relinked(old(windowInfo), window, mods) else old(windowInfo)
    {
      var info := windowInfo[window];
      var changed := info;
      if mods.kind.Some? {
        changed := changed.(kind := mods.kind.value);
      }
      if mods.outputId.Some? {
        changed := changed.(outputId := mods.outputId);
      }
      changed := changed.(limits := mods.limits.AppliedTo(changed.limits));
      if mods.parent.Some? {
        if mods.parent.value !in windowInfo {
          return false;
        }
        changed := changed.(node := changed.node.(parent := mods.parent));
      }
      if info.kind != changed.kind {
        if !info.kind.CanMorphTo(changed.kind) {
          return false;
        }
        if changed.kind.MustNotHaveParent() {
          if mods.parent.Some? {
            return false;
          }
          changed := changed.(node := changed.node.(parent := None));
        } else if changed.kind.MustHaveParent() && changed.node.parent.None? {
          return false;
        }
      }
      assert changed == info.(kind := changed.kind, outputId := changed.outputId, limits := changed.limits,
                              node := info.node.(parent := NewParent(info, mods)));
      if info.node.parent.Some? {
        ParentRank(LinksOf(windowInfo), info.node.parent.value, window);
      }
      RehungIsRelinked(windowInfo, window, mods);
      Rehang(window, changed);
      accepted := true;
    }

    /** Store the changed information and update the children of the old and the new parent. */
    method Rehang(window: Window, changed: WindowInfo)
      requires WellLinked(windowInfo) && window in windowInfo
      requires changed.node.parent.Some? ==> changed.node.parent.value in windowInfo
      requires changed.node.children == windowInfo[window].node.children
      modifies this`windowInfo
      ensures windowInfo == Rehung(old(windowInfo), window, changed)
    {
      var info := windowInfo[window];
      if info.node.parent.Some? {
        ParentRank(LinksOf(windowInfo), info.node.parent.value, window);
      }
      windowInfo := windowInfo[window := changed];
      if changed.node.parent != info.node.parent {
        if info.node.parent.Some? {
          RemoveChild(info.node.parent.value, window);
        }
        if changed.node.parent.Some? {
          AddChild(changed.node.parent.value, window);
        }
      }
    }

    method ModifyWindow(window: Window, mods: Modifications) returns (accepted: bool)
      requires Valid() && window in windowInfo
      requires Acceptable(windowInfo, window, mods) ==> KeepsForest(windowInfo, window, mods)
      modifies this, mruActiveWindows
      ensures Valid() && (accepted <==> Acceptable(old(windowInfo), window, mods))
      ensures State() == if accepted then M.ModifyWindow(old(State()), window, mods) else old(State())
    {
      hide Placed, LinksOf;
      ghost var before := State();
      accepted := Relink(window, mods);
      if !accepted {
        return;
      }
      RelinkedWellLinked(before.info, window, mods);
      var info := windowInfo[window];
      if mods.state.Some? && info.state != mods.state.value {
        NoteRestoreRect(window);
      }
      assert windowInfo == Noted(Relinked(before.info, window, mods), window, mods);
      Place(window, mods);
      if mods.state.Some? {
        SetState(window, mods.state.value);
      }
    }

    /** Size and position as asked for, or as new limits want them; and then beside the parent, if that is asked for. */
    method Place(window: Window, mods: Modifications)
      requires WellLinked(windowInfo) && window in windowInfo
      modifies this`windowInfo
      ensures windowInfo == Placed(old(windowInfo), window, mods) && LinksOf(windowInfo) == LinksOf(old(windowInfo))
    {
      PlaceByRequest(window, mods);
      if mods.place.Some? {
        PlaceByParent(window, mods);
      }
    }

    method PlaceByRequest(window: Window, mods: Modifications)
      requires WellLinked(windowInfo) && window in windowInfo
      modifies this`windowInfo
      ensures windowInfo == PlacedIf(old(windowInfo), window, NewRect(old(windowInfo)[window], mods))
      ensures LinksOf(windowInfo) == LinksOf(old(windowInfo))
    {
      var info := windowInfo[window];
      var rect := info.surface.rect;
      var newPos := if mods.topLeft.Some? then mods.topLeft.value else rect.topLeft;
      if mods.size.Some? {
        PlaceAndSize(window, newPos, mods.size.value);
      } else if mods.limits.Resizes() {
        var constrained := C.ConstrainResize(info.limits, info.state, rect, newPos, rect.size);
        if constrained.Some? {
          PlaceAndSize(window, constrained.value.topLeft, constrained.value.size);
        }
      } else if mods.topLeft.Some? {
        PlaceAndSize(window, newPos, rect.size);
      }
    }

    method PlaceByParent(window: Window, mods: Modifications)
      requires WellLinked(windowInfo) && window in windowInfo && mods.place.Some?
      modifies this`windowInfo
      ensures windowInfo == PlacedIf(old(windowInfo), window, NewRectByParent(old(windowInfo), window, mods))
      ensures LinksOf(windowInfo) == LinksOf(old(windowInfo))
    {
      var info := windowInfo[window];
      if info.node.parent.Some? && info.node.parent.value in windowInfo {
        var parent := windowInfo[info.node.parent.value].surface.rect;
        var size := if mods.size.Some? then mods.size.value else info.surface.rect.size;
        var display, placing := mods.place.value.display, mods.place.value.placing;
        var newPos := P.PlaceRelative(display, parent, placing, size);
        P.PlacedIsFirstFit(display, parent, placing, size);
        P.FirstFitUnique(display, P.Candidates(display, parent, placing, size), P.Plain(parent, placing, size),
                         newPos, P.PlacedRelative(display, parent, placing, size));
        PlaceAndSize(window, newPos.topLeft, newPos.size);
      }
    }

    /** Keep the place to come back to, as far as the present state leaves it to the window. */
    method NoteRestoreRect(window: Window)
      requires window in windowInfo
      modifies this`windowInfo
      ensures windowInfo == old(windowInfo)[window := old(windowInfo)[window].(
                              restoreRect := old(windowInfo)[window].EffectiveRestore())]
    {
      var info := windowInfo[window];
      var rect, restore := info.surface.rect, info.restoreRect;
      match info.state {
        case Restored | Hidden =>
          restore := rect;
        case VertMaximized =>
          restore := restore.(topLeft := restore.topLeft.(x := rect.topLeft.x));
          restore := restore.(size := restore.size.(width := rect.size.width));
        case HorizMaximized =>
          restore := restore.(topLeft := restore.topLeft.(y := rect.topLeft.y));
          restore := restore.(size := restore.size.(height := rect.size.height));
        case _ =>
      }
      windowInfo := windowInfo[window := info.(restoreRect := restore)];
    }

    /** A request from the client: validated, given a default geometry for its state, and then carried out. */
    method ModifySurface(window: Window, request: Modifications, displays: Displays) returns (accepted: bool)
      requires Valid() && window in windowInfo
      requires var mods := PlaceAndSizeForState(request, windowInfo[window], displays);
               Acceptable(windowInfo, window, mods) ==> KeepsForest(windowInfo, window, mods)
      modifies this, mruActiveWindows
      ensures Valid()
      ensures accepted <==>
                ClientMay(old(windowInfo), window, request) && Acceptable(old(windowInfo), window, request)
      ensures State() == if accepted then M.ClientModify(old(State()), window, request, displays) else old(State())
    {
      hide WindowModel.ModifyWindow;
      var info := windowInfo[window];
      if !ClientMay(windowInfo, window, request) {
        return false;
      }
      var mods := PlaceAndSizeForState(request, info, displays);
      accepted := ModifyWindow(window, mods);
    }

    // ----- workspaces

    /** The whole tree of the window joins the workspace; answers which windows were not in it yet. */
    method AddTreeToWorkspace(window: Window, workspace: Workspace) returns (added: seq<Window>)
      requires Valid() && window in windowInfo
      modifies this`workspacesToWindows
      ensures Valid() && State() == AddTree(old(State()), window, workspace)
      ensures added == Without(TreeOf(windowInfo, window), WindowsIn(old(workspacesToWindows), workspace))
    {
      var root := RootOf(window);
      var windows := CollectTree(root);
      TreeListFits(LinksOf(windowInfo), window);
      added := JoinWorkspace(windows, workspace);
    }

    /** The common end of add_tree_to_workspace and move_workspace_content_to_workspace. The range of the workspace's
        pairs is fixed beforehand: if it is empty then, the pairs added meanwhile are not seen in it. */
    method JoinWorkspace(windows: seq<Window>, workspace: Workspace) returns (added: seq<Window>)
      requires NoDup(windows)
      modifies this`workspacesToWindows
      ensures workspacesToWindows == AddPairs(old(workspacesToWindows), workspace, windows)
      ensures added == Without(windows, WindowsIn(old(workspacesToWindows), workspace))
    {
      ghost var before, inside := workspacesToWindows, WindowsIn(workspacesToWindows, workspace);
      var rangeIsEmpty := |WindowsIn(workspacesToWindows, workspace)| == 0;
      added := [];
      for i := 0 to |windows|
        invariant added == Without(windows[..i], inside)
        invariant workspacesToWindows == before + Paired(workspace, added)
      {
        hide Without, WindowsIn, Paired;
        var w := windows[i];
        NextToJoin(before, workspace, windows, i, added);
        if rangeIsEmpty || (workspace, w) !in workspacesToWindows {
          workspacesToWindows := workspacesToWindows + [(workspace, w)];
          added := added + [w];
        }
      }
      assert windows[..|windows|] == windows;
    }

    /** The pairs of the workspace with the given windows go; answers the windows in the order they had joined. */
    method LeaveWorkspace(windows: seq<Window>, workspace: Workspace) returns (removed: seq<Window>)
      modifies this`workspacesToWindows
      ensures workspacesToWindows == RemovePairs(old(workspacesToWindows), workspace, windows)
      ensures removed == Within(ContentOf(old(workspacesToWindows), workspace), set w | w in windows)
    {
      hide Without;
      var pairs, kept := workspacesToWindows, [];
      ghost var drop, keep := (set p | p in pairs && p.0 == workspace && p.1 in windows), (set w | w in windows);
      removed := [];
      for i := 0 to |pairs|
        invariant kept == Without(pairs[..i], drop)
        invariant removed == Within(ContentOf(pairs[..i], workspace), keep)
      {
        var pair := pairs[i];
        assert pair in drop <==> pair.0 == workspace && pair.1 in keep by {
          assert pair in pairs;
        }
        assert pairs[..i + 1] == pairs[..i] + [pair];
        ContentGrows(pairs[..i], pair, workspace, keep);
        PairsGrow(pairs[..i], pair, drop);
        if pair.0 == workspace && pair.1 in windows {
          removed := removed + [pair.1];
        } else {
          kept := kept + [pair];
        }
      }
      assert pairs[..|pairs|] == pairs;
      workspacesToWindows := kept;
    }

    method RemoveTreeFromWorkspace(window: Window, workspace: Workspace) returns (removed: seq<Window>)
      requires Valid() && window in windowInfo
      modifies this`workspacesToWindows
      ensures Valid() && State() == RemoveTree(old(State()), window, workspace)
      ensures removed == Within(ContentOf(old(workspacesToWindows), workspace),
                                set w | w in TreeOf(windowInfo, window))
    {
      var root := RootOf(window);
      var windows := CollectTree(root);
      removed := LeaveWorkspace(windows, workspace);
    }

    method MoveWorkspaceContent(to: Workspace, from: Workspace)
      requires Valid() && NoDup(workspacesToWindows)
      modifies this`workspacesToWindows
      ensures Valid() && State() == MoveContent(old(State()), to, from)
    {
      var moved := WindowsInWorkspace(from);
      ContentHasNoDup(workspacesToWindows, from);
      var removed := LeaveWorkspace(moved, from);
      var added := JoinWorkspace(moved, to);
    }

    /** for_each_window_in_workspace: the windows in the order they joined. */
    method WindowsInWorkspace(workspace: Workspace) returns (windows: seq<Window>)
      ensures windows == ContentOf(workspacesToWindows, workspace)
    {
      var pairs := workspacesToWindows;
      windows := [];
      for i := 0 to |pairs|
        invariant windows == ContentOf(pairs[..i], workspace)
      {
        assert pairs[..i + 1][..i] == pairs[..i];
        if pairs[i].0 == workspace {
          windows := windows + [pairs[i].1];
        }
      }
      assert pairs[..|pairs|] == pairs;
    }

    // ----- windows come and go

    method AddSurface(window: Window, spec: NewWindow)
      requires Valid() && window !in windowInfo && (spec.parent.Some? ==> spec.parent.value in windowInfo)
      modifies this
      ensures Valid() && State() == AddWindow(old(State()), window, spec)
    {
      hide JoinAll, WellLinked, WorkspaceListOf;
      ghost var before := State();
      NewWindowLinks(windowInfo, window, spec);
      var surface := Surface(spec.rect, spec.state, true, false);
      windowInfo := windowInfo[window := WindowInfo(spec.application, spec.kind, spec.state, spec.rect,
                                                    spec.limits, spec.outputId, Node(spec.parent, []), surface)];
      zOrder := zOrder + [window];
      if spec.parent.Some? {
        AddChild(spec.parent.value, window);
      }
      assert windowInfo == WithNewWindow(before.info, window, spec);
      if spec.state.Fullscreen? {
        fullscreenSurfaces := fullscreenSurfaces + {window};
      }
      if spec.parent.Some? {
        JoinParent(window, spec.parent.value);
      }
    }

    /** Add the tree of a window to each workspace its parent is in. */
    method JoinParent(window: Window, parent: Window)
      requires Valid() && window in windowInfo
      modifies this`workspacesToWindows
      ensures Valid()
      ensures State() == JoinAll(old(State()), window, WorkspaceListOf(old(workspacesToWindows), parent))
    {
      hide AddTree, WellLinked, WorkspaceListOf, WorkspacesOf;
      var wss := WorkspacesContaining(parent);
      ghost var joining := State();
      for i := 0 to |wss|
        invariant Valid() && State() == JoinAll(joining, window, wss[..i])
      {
        assert wss[..i + 1][..i] == wss[..i];
        var added := AddTreeToWorkspace(window, wss[i]);
      }
      assert wss[..|wss|] == wss;
    }

    /** Unlink the window: its parent loses it, its children become roots. */
    method Erase(window: Window)
      requires WellLinked(windowInfo) && window in windowInfo
      modifies this`windowInfo
      ensures windowInfo == WithoutWindow(old(windowInfo), window)
    {
      hide WithoutWindow, Rank, Room, HavingChildren, RemoveFirst, WithLinks, EraseNode, Acyclic;
      ghost var before, f := windowInfo, LinksOf(windowInfo);
      var info := windowInfo[window];
      if info.node.parent.Some? {
        ParentRank(f, info.node.parent.value, window);
        RemoveChild(info.node.parent.value, window);
      }
      assert windowInfo == PartlyErased(before, window, info.node.children[..0]);
      Orphan(window, info.node.children, before);
      ErasedAtLast(before, window);
      windowInfo := map x | x in windowInfo && x != window :: windowInfo[x];
    }

    /** The children of a window that is being unlinked become roots; before is what was recorded before that. */
    method Orphan(window: Window, children: seq<Window>, ghost before: Windows)
      requires WellLinked(before) && window in before && children == before[window].node.children
      requires windowInfo == PartlyErased(before, window, children[..0])
      modifies this`windowInfo
      ensures windowInfo == PartlyErased(before, window, children)
    {
      hide Acyclic, WithLinks;
      ghost var f := LinksOf(before);
      for i := 0 to |children|
        invariant windowInfo == PartlyErased(before, window, children[..i])
      {
        assert children[i] in f[window].children;
        assert IsParent(f, window, children[i]);
        assert children[..i + 1] == children[..i] + [children[i]];
        OneMoreOrphan(before, window, children[..i], children[i]);
        windowInfo := windowInfo[children[i] := HavingParent(windowInfo[children[i]], None)];
      }
      assert children[..|children|] == children;
    }

    /** Look for the next active window: through the parent, then by application and workspace. */
    method Refocus(application: Application, parent: Option<Window>, wss: set<Workspace>)
      returns (newFocus: Option<Window>)
      requires Valid() && (parent.Some? ==> parent.value in windowInfo)
      modifies this`focused, this`zOrder, mruActiveWindows
      ensures Valid() && (State(), newFocus) == M.Refocus(old(State()), application, parent, wss)
    {
      if parent.Some? {
        newFocus := SelectActiveWindow(parent);
        if newFocus.Some? {
          return;
        }
      }
      newFocus := ActivateMostRecent(Search(Some(application), Some(wss), None));
      if newFocus.Some? {
        return;
      }
      newFocus := ActivateMostRecent(Search(None, Some(wss), None));
      if newFocus.Some? {
        return;
      }
      newFocus := ActivateMostRecent(Search(Some(application), None, None));
      if newFocus.Some? {
        return;
      }
      newFocus := ActivateMostRecent(Search(None, None, None));
    }

    /** Drop the window from every record. */
    method Drop(window: Window)
      requires Valid() && window in windowInfo
      modifies this, mruActiveWindows
      ensures Valid() && State() == Forget(old(State()), window)
    {
      hide Without;
      WithoutWindowLinks(windowInfo, window);
      workspacesToWindows := Without(workspacesToWindows, set p | p in workspacesToWindows && p.1 == window);
      mruActiveWindows.Erase(window);
      fullscreenSurfaces := fullscreenSurfaces - {window};
      zOrder := Without(zOrder, {window});
      if focused == Some(window) {
        focused := None;
      }
      Erase(window);
    }

    method RemoveWindow(window: Window)
      requires Valid() && window in windowInfo
      modifies this, mruActiveWindows
      ensures Valid() && State() == M.RemoveWindow(old(State()), window)
    {
      RemovedParent(State(), window);
      var active := ActiveWindow();
      var containing := WorkspacesContaining(window);
      var wss := Elements(containing);
      var application, parent := windowInfo[window].application, windowInfo[window].node.parent;
      Drop(window);
      if active == Some(window) {
        var newFocus := Refocus(application, parent, wss);
      }
    }

    /** The first buffer of the window was posted; the canonical policy selects it if it can be active. */
    method HandleWindowReady(window: Window)
      requires Valid() && window in windowInfo
      modifies this, mruActiveWindows
      ensures Valid() && State() == WindowReady(old(State()), window)
    {
      ghost var before := windowInfo;
      var surface := windowInfo[window].surface;
      windowInfo := windowInfo[window := windowInfo[window].(surface := surface.(ready := true))];
      GeometryKeepsLinks(before, windowInfo);
      if windowInfo[window].kind.CanBeActive() {
        var selected := SelectActiveWindow(Some(window));
      }
    }
  }
}
