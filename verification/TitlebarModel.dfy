/** The workspaces of the titlebar policy (miral-shell/titlebar_window_manager.cpp) as a value on top of the window
    manager's: which windows it hides because their workspace is not the active one. */
module TitlebarModel {
  import opened Sequences
  import opened Forest
  import opened WindowModel
  import opened WindowStates
  import opened FocusSelection
  import opened FocusInvariance
  import opened WorkspaceMembership
  import opened RestoreRectangle
  import opened Runs

  datatype PolicyData = PolicyData(inHiddenWorkspace: bool, oldState: WindowState)

  datatype Titlebar = Titlebar(
    m: Model,
    data: map<Window, PolicyData>,
    active: Workspace,
    lastActive: map<Workspace, Window>,
    decorations: Application,
    displays: Displays)
  {
    predicate IsDecoration(w: Window)
      requires w in m.info
    {
      m.info[w].application == decorations
    }
  }

  ghost predicate Sound(t: Titlebar) {
    WellLinked(t.m.info) && t.data.Keys == t.m.info.Keys && KnownWindows(LinksOf(t.m.info), t.m.pairs)
  }

  /** The same windows with the same links, under the same policy. */
  ghost predicate SameWindows(t: Titlebar, t': Titlebar) {
    && Sound(t') && LinksOf(t'.m.info) == LinksOf(t.m.info) && t'.m.info.Keys == t.m.info.Keys
    && t'.m.pairs == t.m.pairs && t'.active == t.active && t'.lastActive == t.lastActive
    && t'.decorations == t.decorations && t'.displays == t.displays
    && forall w :: w in t.m.info ==> t'.m.info[w].application == t.m.info[w].application
  }

  /** The window changes its state, and the policy's data for it. */
  ghost function Restate(t: Titlebar, w: Window, value: WindowState, entry: PolicyData): (r: Titlebar)
    requires Sound(t) && w in t.m.info
    ensures SameWindows(t, r)
  {
    hide ChangeState, LinksOf, KnownWindows, PlaceAndSizeForState;
    ChangeStateEffect(t.m, w, value, t.displays);
    ChangeStateElsewhere(t.m, w, value, t.displays);
    t.(data := t.data[w := entry], m := ChangeState(t.m, w, value, t.displays))
  }

  ghost function ApplyHidden(t: Titlebar, w: Window): (r: Titlebar)
    requires Sound(t) && w in t.m.info
    ensures SameWindows(t, r)
    ensures forall x :: x in t.data ==> (r.data[x].inHiddenWorkspace <==> t.data[x].inHiddenWorkspace || x == w)
  {
    if t.data[w].inHiddenWorkspace then t
    else Restate(t, w, Hidden, PolicyData(true, t.m.info[w].state))
  }

  ghost function ApplyVisible(t: Titlebar, w: Window): (r: Titlebar)
    requires Sound(t) && w in t.m.info
    ensures SameWindows(t, r)
    ensures forall x :: x in t.data ==> (r.data[x].inHiddenWorkspace <==> t.data[x].inHiddenWorkspace && x != w)
  {
    if !t.data[w].inHiddenWorkspace then t
    else Restate(t, w, t.data[w].oldState, t.data[w].(inHiddenWorkspace := false))
  }

  /** The state the window has or will have back when its workspace is the active one. */
  function Intended(t: Titlebar, w: Window): WindowState
    requires w in t.m.info && w in t.data
  {
    if t.data[w].inHiddenWorkspace then t.data[w].oldState else t.m.info[w].state
  }

  /** The windows flagged as hidden are. */
  ghost predicate FlaggedAreHidden(t: Titlebar) {
    forall w :: w in t.m.info && w in t.data && t.data[w].inHiddenWorkspace && !t.IsDecoration(w) ==>
      t.m.info[w].state.Hidden?
  }

  /** What each window is stays, and so does the state it is meant to have. */
  ghost predicate SameIntentions(t: Titlebar, t': Titlebar) {
    forall w :: w in t.m.info && w in t.data && w in t'.m.info && w in t'.data ==>
      && t'.m.info[w].application == t.m.info[w].application && t'.m.info[w].kind == t.m.info[w].kind
      && Intended(t', w) == Intended(t, w)
  }

  lemma {:induction false} RestatedKeepsInvariants(t: Titlebar, w: Window, value: WindowState, entry: PolicyData)
    requires Sound(t) && FocusInvariant(t.m) && WorkspaceInvariant(t.m) && w in t.m.info
    ensures FocusInvariant(Restate(t, w, value, entry).m) && WorkspaceInvariant(Restate(t, w, value, entry).m)
  {
    hide Sound, SameWindows, ModifyWindow, KnownWindows, LinksOf, WellLinked, FocusAgrees, StackAgrees;
    hide FullscreenAgrees, Synced, TreesTogether;
    var mods := PlaceAndSizeForState(OnlyState(value), t.m.info[w], t.displays);
    OnlyStateIsFine(t.m.info, w, value);
    ModifyWindowKeepsFocus(t.m, w, mods);
    ModifyKeepsWorkspaces(t.m, w, mods);
  }

  lemma {:induction false} RestatedStates(t: Titlebar, w: Window, value: WindowState, entry: PolicyData)
    requires Sound(t) && w in t.m.info
    ensures var t' := Restate(t, w, value, entry);
            t'.data == t.data[w := entry] && forall x :: x in t.m.info ==>
              && t'.m.info[x].application == t.m.info[x].application && t'.m.info[x].kind == t.m.info[x].kind
              && t'.m.info[x].state == if x == w then value else t.m.info[x].state
  {
    hide SameWindows, ChangeState, LinksOf, KnownWindows, PlaceAndSizeForState;
    ChangeStateEffect(t.m, w, value, t.displays);
    ChangeStateElsewhere(t.m, w, value, t.displays);
  }

  /** A change of the state of w together with its policy data, such that its intended state stays. */
  lemma {:induction false} RestatedKeepsIntentions(t: Titlebar, w: Window, value: WindowState, entry: PolicyData)
    requires Sound(t) && FlaggedAreHidden(t) && w in t.m.info
    requires Intended(t, w) == if entry.inHiddenWorkspace then entry.oldState else value
    requires entry.inHiddenWorkspace ==> value.Hidden?
    ensures SameIntentions(t, Restate(t, w, value, entry)) && FlaggedAreHidden(Restate(t, w, value, entry))
  {
    RestatedStates(t, w, value, entry);
    IntentionsKept(t, Restate(t, w, value, entry), w, value, entry);
  }

  lemma {:induction false} IntentionsKept(t: Titlebar, t': Titlebar, w: Window, value: WindowState, entry: PolicyData)
    requires FlaggedAreHidden(t) && w in t.m.info && t.m.info.Keys == t.data.Keys
    requires t'.m.info.Keys == t.m.info.Keys && t'.data == t.data[w := entry] && t'.decorations == t.decorations
    requires forall x :: x in t.m.info ==>
               && t'.m.info[x].application == t.m.info[x].application && t'.m.info[x].kind == t.m.info[x].kind
               && t'.m.info[x].state == if x == w then value else t.m.info[x].state
    requires Intended(t, w) == if entry.inHiddenWorkspace then entry.oldState else value
    requires entry.inHiddenWorkspace ==> value.Hidden?
    ensures SameIntentions(t, t') && FlaggedAreHidden(t')
  {
  }

  ghost predicate Invariants(t: Titlebar) {
    FocusInvariant(t.m) && WorkspaceInvariant(t.m)
  }

  ghost predicate Kept(t: Titlebar, t': Titlebar) {
    Invariants(t') && FlaggedAreHidden(t') && SameIntentions(t, t')
  }

  lemma {:induction false} KeptOnwards(a: Titlebar, b: Titlebar, c: Titlebar)
    requires Kept(a, b) && Kept(b, c)
    requires a.m.info.Keys == b.m.info.Keys == c.m.info.Keys && a.data.Keys == b.data.Keys == c.data.Keys
    ensures Kept(a, c)
  {
  }

  lemma {:induction false} HidingKeeps(t: Titlebar, w: Window)
    requires Sound(t) && Invariants(t) && FlaggedAreHidden(t) && w in t.m.info
    ensures Kept(t, ApplyHidden(t, w))
  {
    if !t.data[w].inHiddenWorkspace {
      RestatedKeepsInvariants(t, w, Hidden, PolicyData(true, t.m.info[w].state));
      RestatedKeepsIntentions(t, w, Hidden, PolicyData(true, t.m.info[w].state));
    }
  }

  lemma {:induction false} ShowingKeeps(t: Titlebar, w: Window)
    requires Sound(t) && Invariants(t) && FlaggedAreHidden(t) && w in t.m.info
    ensures Kept(t, ApplyVisible(t, w))
  {
    if t.data[w].inHiddenWorkspace {
      RestatedKeepsInvariants(t, w, t.data[w].oldState, t.data[w].(inHiddenWorkspace := false));
      RestatedKeepsIntentions(t, w, t.data[w].oldState, t.data[w].(inHiddenWorkspace := false));
    }
  }

  // ----- a workspace full of windows

  /** Show every window of the list; decorations are left alone. */
  ghost function ShowEach(t: Titlebar, windows: seq<Window>): (r: Titlebar)
    requires Sound(t) && forall w :: w in windows ==> w in t.m.info
    ensures SameWindows(t, r)
  {
    if windows == [] then t
    else
      var front, w := windows[..|windows| - 1], windows[|windows| - 1];
      if t.IsDecoration(w) then ShowEach(t, front) else ApplyVisible(ShowEach(t, front), w)
  }

  /** Hide every window of the list but one; decorations are left alone. */
  ghost function HideEach(t: Titlebar, windows: seq<Window>, spared: Option<Window>): (r: Titlebar)
    requires Sound(t) && forall w :: w in windows ==> w in t.m.info
    ensures SameWindows(t, r)
  {
    if windows == [] then t
    else
      var front, w := windows[..|windows| - 1], windows[|windows| - 1];
      if t.IsDecoration(w) || spared == Some(w) then HideEach(t, front, spared)
      else ApplyHidden(HideEach(t, front, spared), w)
  }

  lemma {:induction false} ShownFlags(t: Titlebar, windows: seq<Window>)
    requires Sound(t) && forall w :: w in windows ==> w in t.m.info
    ensures forall x :: x in t.m.info ==>
              (ShowEach(t, windows).data[x].inHiddenWorkspace <==>
                 t.data[x].inHiddenWorkspace && !(x in windows && !t.IsDecoration(x)))
  {
    hide SameWindows;
    if windows != [] {
      ShownFlags(t, windows[..|windows| - 1]);
      assert windows == windows[..|windows| - 1] + [windows[|windows| - 1]];
    }
  }

  lemma {:induction false} HiddenFlags(t: Titlebar, windows: seq<Window>, spared: Option<Window>)
    requires Sound(t) && forall w :: w in windows ==> w in t.m.info
    ensures forall x :: x in t.m.info ==>
              (HideEach(t, windows, spared).data[x].inHiddenWorkspace <==>
                 t.data[x].inHiddenWorkspace || (x in windows && !t.IsDecoration(x) && spared != Some(x)))
  {
    hide LinksOf, ApplyHidden;
    if windows != [] {
      HiddenFlags(t, windows[..|windows| - 1], spared);
      assert windows == windows[..|windows| - 1] + [windows[|windows| - 1]];
    }
  }

  lemma {:induction false} ShowEachKeeps(t: Titlebar, windows: seq<Window>)
    requires Sound(t) && Invariants(t) && FlaggedAreHidden(t) && forall w :: w in windows ==> w in t.m.info
    ensures Kept(t, ShowEach(t, windows))
  {
    hide Invariants, ApplyVisible, WellLinked;
    if windows != [] {
      var front, w := windows[..|windows| - 1], windows[|windows| - 1];
      ShowEachKeeps(t, front);
      ShowingKeeps(ShowEach(t, front), w);
      KeptOnwards(t, ShowEach(t, front), ApplyVisible(ShowEach(t, front), w));
    }
  }

  lemma {:induction false} HideEachKeeps(t: Titlebar, windows: seq<Window>, spared: Option<Window>)
    requires Sound(t) && Invariants(t) && FlaggedAreHidden(t) && forall w :: w in windows ==> w in t.m.info
    ensures Kept(t, HideEach(t, windows, spared))
  {
    hide Invariants, ApplyHidden, WellLinked;
    if windows != [] {
      var front, w := windows[..|windows| - 1], windows[|windows| - 1];
      HideEachKeeps(t, front, spared);
      HidingKeeps(HideEach(t, front, spared), w);
      KeptOnwards(t, HideEach(t, front, spared), ApplyHidden(HideEach(t, front, spared), w));
    }
  }

  /** What hiding a window for its workspace and showing it again does to its place: it is where it was exactly if it
      was in place, and can be restored to where it would have been exactly if it is there. */
  lemma {:induction false} HiddenAndShown(t: Titlebar, w: Window)
    requires Sound(t) && w in t.m.info && !t.data[w].inHiddenWorkspace && !t.m.info[w].state.Hidden?
    ensures var i, t2 := t.m.info[w], ApplyVisible(ApplyHidden(t, w), w);
            && t2.m.info[w].state == i.state && !t2.data[w].inHiddenWorkspace
            && (t2.m.info[w].surface.rect == i.surface.rect <==> InPlace(i, t.displays))
            && (InPlace(i, t.displays) ==>
                  (t2.m.info[w].EffectiveRestore() == i.EffectiveRestore() <==> i.surface.rect == i.EffectiveRestore()))
  {
    HiddenAndBack(t.m, w, t.displays);
  }
}
