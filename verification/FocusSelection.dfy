/** What select_active_window chooses, and that the active window and the focus controller never disagree. */
module FocusSelection {
  import opened Sequences
  import opened Forest
  import opened ZOrder
  import opened WindowModel
  import opened WindowStates

  ghost predicate Seen(i: WindowInfo) {
    i.state !in {Hidden, Minimized} && i.surface.shown && i.surface.ready
  }

  ghost predicate CanHaveFocus(i: WindowInfo) {
    i.kind in {Normal, Utility, Dialog, Freestyle, Menu} && Seen(i)
  }

  ghost predicate HasVisibleDialog(info: Windows, w: Window)
    requires w in info
  {
    exists d :: d in info[w].node.children && d in info && info[d].kind == Dialog && Seen(info[d])
  }

  /** The search for a focus goes no further up than here. */
  ghost predicate Stops(info: Windows, w: Window)
    requires w in info
  {
    CanHaveFocus(info[w]) || HasVisibleDialog(info, w)
  }

  lemma {:induction false} StopsWhere(info: Windows, w: Window)
    requires w in info
    ensures Stops(info, w) <==> info[w].Focusable() || FirstVisibleDialog(info, info[w].node.children).Some?
  {
  }

  /** The chosen window is of the hint's tree, can have the focus, and has no visible dialog of its own. */
  lemma {:induction false} TargetIsFit(info: Windows, hint: Window)
    requires WellLinked(info) && hint in info && Target(info, hint).Some?
    ensures var t := Target(info, hint).value;
            && t in info && info[t].Focusable() && CanHaveFocus(info[t]) && !HasVisibleDialog(info, t)
            && Root(LinksOf(info), t) == Root(LinksOf(info), hint)
    decreases FocusPhase(info, hint), FocusSteps(info, hint)
  {
    var dialog := FirstVisibleDialog(info, info[hint].node.children);
    if dialog.Some? {
      FocusStepDown(info, hint, dialog.value);
      TargetIsFit(info, dialog.value);
    } else if !info[hint].Focusable() {
      FocusStepUp(info, hint, info[hint].node.parent.value);
      TargetIsFit(info, info[hint].node.parent.value);
    }
  }

  lemma {:induction false} DialogHasTarget(info: Windows, d: Window)
    requires WellLinked(info) && d in info && info[d].VisibleDialog()
    ensures Target(info, d).Some?
    decreases FocusSteps(info, d)
  {
    var dialog := FirstVisibleDialog(info, info[d].node.children);
    if dialog.Some? {
      FocusStepDown(info, d, dialog.value);
      DialogHasTarget(info, dialog.value);
    }
  }

  /** No window is chosen exactly when neither the hint nor any ancestor of it can have the focus or has a visible
      dialog. */
  lemma {:induction false} NoTarget(info: Windows, hint: Window)
    requires WellLinked(info) && hint in info
    ensures Target(info, hint).None? <==>
            forall a :: a in info && Below(LinksOf(info), a, hint) ==> !Stops(info, a)
    decreases Rank(LinksOf(info), hint)
  {
    var f := LinksOf(info);
    var dialog := FirstVisibleDialog(info, info[hint].node.children);
    assert Below(f, hint, hint);
    if dialog.Some? {
      DialogHasTarget(info, dialog.value);
      assert Stops(info, hint);
    } else if info[hint].Focusable() {
      assert Stops(info, hint);
    } else if info[hint].node.parent.Some? {
      var p := info[hint].node.parent.value;
      FocusStepUp(info, hint, p);
      ParentRank(f, p, hint);
      NoTarget(info, p);
      assert !Stops(info, hint);
      assert forall a :: a in info && a != hint ==> (Below(f, a, hint) <==> Below(f, a, p));
    }
  }

  /** None of the children listed before y is a visible dialog. */
  predicate NoneBefore(info: Windows, children: seq<Window>, y: Window) {
    forall i, j :: 0 <= i < j < |children| && children[j] == y && children[i] in info ==>
      !info[children[i]].VisibleDialog()
  }

  /** y is a visible dialog, and the first of its parent's children that is one. */
  predicate FirstDialog(info: Windows, y: Window)
    requires y in info
  {
    && info[y].VisibleDialog()
    && info[y].node.parent.Some? && info[y].node.parent.value in info
    && NoneBefore(info, info[info[y].node.parent.value].node.children, y)
  }

  lemma {:induction false} FoundIsFirst(info: Windows, children: seq<Window>, d: Window)
    requires NoDup(children) && FirstVisibleDialog(info, children) == Some(d)
    ensures NoneBefore(info, children, d)
  {
    if children[0] != d {
      FoundIsFirst(info, children[1..], d);
      forall i, j | 0 <= i < j < |children| && children[j] == d && children[i] in info
        ensures !info[children[i]].VisibleDialog()
      {
        assert children[1..][j - 1] == d;
        assert i > 0 ==> children[1..][i - 1] == children[i];
      }
    }
  }

  lemma {:induction false} ChildIsFirst(info: Windows, w: Window, d: Window)
    requires WellLinked(info) && w in info && FirstVisibleDialog(info, info[w].node.children) == Some(d)
    ensures d in info && FirstDialog(info, d) && IsParent(LinksOf(info), w, d)
  {
    FocusStepDown(info, w, d);
    FoundIsFirst(info, LinksOf(info)[w].children, d);
  }

  /** Every window on the way down from a, a left out, to x is the first visible dialog of its parent. */
  ghost predicate ByDialogs(info: Windows, a: Window, x: Window)
    requires WellLinked(info) && x in info
  {
    && Below(LinksOf(info), a, x)
    && forall y :: y in info && y != a && Below(LinksOf(info), a, y) && Below(LinksOf(info), y, x) ==>
         FirstDialog(info, y)
  }

  lemma {:induction false} DownByDialogs(info: Windows, a: Window, d: Window, x: Window)
    requires WellLinked(info) && a in info && d in info && x in info && IsParent(LinksOf(info), a, d)
    requires FirstDialog(info, d) && ByDialogs(info, d, x)
    ensures ByDialogs(info, a, x)
  {
    var f := LinksOf(info);
    assert Below(f, a, d);
    BelowTransitive(f, a, d, x);
    forall y | y in info && y != a && Below(f, a, y) && Below(f, y, x)
      ensures FirstDialog(info, y)
    {
      if y != d && !Below(f, d, y) {
        BelowChain(f, d, y, x);
        ParentRank(f, a, d);
        BelowAntisymmetric(f, a, y);
      }
    }
  }

  /** The choice: up from the hint to the nearest window a where the search stops, then down from a, each time to the
      first visible dialog among the children. */
  lemma {:induction false} TargetPath(info: Windows, hint: Window) returns (a: Window)
    requires WellLinked(info) && hint in info && Target(info, hint).Some?
    ensures a in info && Below(LinksOf(info), a, hint) && Stops(info, a)
    ensures forall b :: b in info && b != a && Below(LinksOf(info), a, b) && Below(LinksOf(info), b, hint) ==>
                          !Stops(info, b)
    ensures Target(info, hint).value in info && ByDialogs(info, a, Target(info, hint).value)
    decreases FocusPhase(info, hint), FocusSteps(info, hint)
  {
    hide Stops, HasVisibleDialog, CanHaveFocus, Seen;
    StopsWhere(info, hint);
    var f := LinksOf(info);
    var dialog := FirstVisibleDialog(info, info[hint].node.children);
    if dialog.Some? || info[hint].Focusable() {
      a := hint;
      forall b | b in info && b != a && Below(f, a, b)
        ensures !Below(f, b, hint)
      {
        if Below(f, b, hint) {
          BelowAntisymmetric(f, a, b);
        }
      }
      TargetIsFit(info, hint);
      if dialog.Some? {
        FocusStepDown(info, hint, dialog.value);
        ChildIsFirst(info, hint, dialog.value);
        TargetBelow(info, dialog.value);
        DownByDialogs(info, hint, dialog.value, Target(info, hint).value);
      } else {
        forall y | y in info && y != a && Below(f, a, y)
          ensures !Below(f, y, a)
        {
          if Below(f, y, a) {
            BelowAntisymmetric(f, a, y);
          }
        }
      }
    } else {
      var p := info[hint].node.parent.value;
      FocusStepUp(info, hint, p);
      a := TargetPath(info, p);
      assert !Stops(info, hint);
    }
  }

  /** From a visible dialog the search only goes down. */
  lemma {:induction false} TargetBelow(info: Windows, d: Window)
    requires WellLinked(info) && d in info && info[d].VisibleDialog()
    ensures Target(info, d).Some? && Target(info, d).value in info && ByDialogs(info, d, Target(info, d).value)
    decreases FocusSteps(info, d)
  {
    var f := LinksOf(info);
    DialogHasTarget(info, d);
    TargetIsFit(info, d);
    var dialog := FirstVisibleDialog(info, info[d].node.children);
    if dialog.Some? {
      FocusStepDown(info, d, dialog.value);
      ChildIsFirst(info, d, dialog.value);
      TargetBelow(info, dialog.value);
      DownByDialogs(info, d, dialog.value, Target(info, d).value);
    } else {
      forall y | y in info && y != d && Below(f, d, y)
        ensures !Below(f, y, d)
      {
        if Below(f, y, d) {
          BelowAntisymmetric(f, d, y);
        }
      }
    }
  }

  // ----- the invariant

  /** The window manager's idea of the states agrees with the surfaces'; a surface is only not shown in a state
      that conceals it. */
  ghost predicate Synced(info: Windows) {
    forall w :: w in info ==>
      info[w].state == info[w].surface.state && (info[w].surface.shown || info[w].state.Conceals())
  }

  /** Every window ever made active can be so again once it is visible. */
  ghost predicate MruFit(m: Model) {
    && NoDup(m.mru)
    && forall w :: w in m.mru ==> w in m.info && m.info[w].kind.CanBeActive() && m.info[w].surface.ready
  }

  /** Either no window of the MRU list is visible and nothing has the focus, or the last window of the list is
      visible and is the one that has the focus. */
  ghost predicate FocusAgrees(m: Model) {
    if forall w :: w in m.mru && w in m.info ==> !m.info[w].SurfaceShows() then m.focus == None
    else
      var last := m.mru[|m.mru| - 1];
      last in m.info && m.info[last].SurfaceShows() && m.focus == Some(last)
  }

  ghost predicate StackAgrees(m: Model) {
    NoDup(m.stack) && forall w :: w in m.stack <==> w in m.info
  }

  ghost predicate FullscreenAgrees(m: Model) {
    forall w :: w in m.fullscreen <==> w in m.info && m.info[w].state.Fullscreen?
  }

  ghost predicate FocusInvariant(m: Model) {
    && WellLinked(m.info) && Synced(m.info) && MruFit(m) && FocusAgrees(m) && StackAgrees(m) && FullscreenAgrees(m)
  }

  /** active_window() is what the focus controller has focused. */
  lemma {:induction false} ActiveIsFocused(m: Model)
    requires FocusInvariant(m)
    ensures ActiveWindow(m) == m.focus
  {
    if ActiveWindow(m).Some? {
      assert ActiveWindow(m).value in VisibleSurfaces(m.info);
    }
  }

  lemma {:induction false} GivenFocusIsActive(m: Model, t: Window)
    requires WellLinked(m.info) && t in m.info && m.info[t].SurfaceShows()
    ensures ActiveWindow(GiveFocus(m, t)) == Some(t)
  {
    var mru := Without(m.mru, {t}) + [t];
    assert mru[|mru| - 1] == t;
  }

  lemma {:induction false} GiveFocusKeeps(m: Model, t: Window)
    requires WellLinked(m.info) && MruFit(m) && StackAgrees(m)
    requires t in m.info && m.info[t].Focusable()
    ensures MruFit(GiveFocus(m, t)) && StackAgrees(GiveFocus(m, t))
    ensures m.info[t].SurfaceShows() ==> FocusAgrees(GiveFocus(m, t))
  {
    WithoutNoDup(m.mru, {t});
    ConcatNoDup(Without(m.mru, {t}), [t]);
    RaiseTreeKeepsWindows(LinksOf(m.info), m.stack, t);
    var mru := Without(m.mru, {t}) + [t];
    assert mru[|mru| - 1] == t && t in mru;
  }

  /** Selecting any window keeps the invariant; if a window is returned it is the active one. */
  lemma {:induction false} SelectKeepsFocus(m: Model, hint: Window)
    requires FocusInvariant(m) && hint in m.info
    ensures FocusInvariant(Select(m, Some(hint)).0)
    ensures var r := Select(m, Some(hint)); r.1.Some? ==> ActiveWindow(r.0) == r.1
  {
    if Target(m.info, hint).Some? {
      TargetIsFit(m.info, hint);
      GiveFocusKeeps(m, Target(m.info, hint).value);
      GivenFocusIsActive(m, Target(m.info, hint).value);
    }
  }

  /** The selected window is raised: the stack is as raise_tree leaves it, and its topmost window is the selected one
      or below it. */
  lemma {:induction false} SelectedIsOnTop(m: Model, hint: Window)
    requires FocusInvariant(m) && hint in m.info && Target(m.info, hint).Some?
    ensures var t := Target(m.info, hint).value; var stack := Select(m, Some(hint)).0.stack;
            && t in m.info && stack == RaisedOrder(LinksOf(m.info), m.stack, t)
            && |stack| > 0 && stack[|stack| - 1] in Subtree(LinksOf(m.info), t)
  {
    TargetIsFit(m.info, hint);
    RaiseTreeOrder(LinksOf(m.info), m.stack, Target(m.info, hint).value);
    RaisedIsOnTop(LinksOf(m.info), m.stack, Target(m.info, hint).value);
  }

  /** Selecting the null window keeps it exactly when there is no active window: the list is left as it was. */
  lemma {:induction false} SelectNull(m: Model)
    requires FocusInvariant(m)
    ensures FocusInvariant(Select(m, None).0) <==> ActiveWindow(m).None?
  {
    ActiveIsFocused(m);
  }

  /** While the invariant holds, each visible window of the list has a target. */
  lemma {:induction false} ShownHasTarget(m: Model, w: Window)
    requires WellLinked(m.info) && w in m.info && m.info[w].Focusable()
    ensures Target(m.info, w).Some?
  {
    var f := LinksOf(m.info);
    assert Below(f, w, w) && Stops(m.info, w);
    NoTarget(m.info, w);
  }

  lemma {:induction false} ActivateKeepsFocus(m: Model, s: Search)
    requires FocusInvariant(m)
    ensures FocusInvariant(ActivateMostRecent(m, s).0)
    ensures var r := ActivateMostRecent(m, s); r.1.Some? ==> ActiveWindow(r.0) == r.1
    ensures ActivateMostRecent(m, s).1.None? ==>
              && ActivateMostRecent(m, s).0 == m
              && forall w :: w in m.mru && Considers(m, s, w) ==> !m.info[w].SurfaceShows()
  {
    var found := LastIn(m.mru, Selectable(m, s));
    if found.Some? {
      SelectKeepsFocus(m, found.value);
    } else {
      forall w | w in m.mru && Considers(m, s, w)
        ensures !m.info[w].SurfaceShows()
      {
        if m.info[w].SurfaceShows() {
          ShownHasTarget(m, w);
        }
      }
    }
  }
}
