/** Every run under the titlebar policy: windows come, go, ask for changes and are switched between workspaces. */
module TitlebarRuns {
  import opened Sequences
  import opened Forest
  import opened WindowModel
  import opened WindowStates
  import opened FocusSelection
  import opened FocusInvariance
  import opened WorkspaceMembership
  import opened RestoreRectangle
  import R = Runs
  import opened TitlebarModel
  import opened TitlebarSwitching

  // ----- the other operations

  /** The policy hears of each workspace a new window joins because its parent is in it. */
  ghost function AdviseEach(t: Titlebar, w: Window, wss: seq<Workspace>): (r: Titlebar)
    requires Sound(t) && w in t.m.info
    ensures SameWindows(t, r)
  {
    if wss == [] then t
    else AdviseAdding(AdviseEach(t, w, wss[..|wss| - 1]), wss[|wss| - 1], [w])
  }

  lemma {:induction false} ArrivedFits(m: Model, w: Window, spec: NewWindow)
    requires WorkspaceInvariant(m) && w !in m.info && (spec.parent.Some? ==> spec.parent.value in m.info)
    ensures var m1 := AddWindow(m, w, spec);
            WellLinked(m1.info) && m1.info.Keys == m.info.Keys + {w} && KnownWindows(LinksOf(m1.info), m1.pairs)
  {
    hide JoinAll, WorkspaceListOf;
    AddWindowKeepsWorkspaces(m, w, spec);
  }

  /** The window manager's part of add_surface, with fresh policy data. */
  ghost function Arrived(t: Titlebar, w: Window, spec: NewWindow): (r: Titlebar)
    requires Sound(t) && WorkspaceInvariant(t.m) && w !in t.m.info
    requires spec.parent.Some? ==> spec.parent.value in t.m.info
    ensures Sound(r) && w in r.m.info
  {
    ArrivedFits(t.m, w, spec);
    t.(m := AddWindow(t.m, w, spec), data := t.data[w := PolicyData(false, Unknown)])
  }

  /** add_surface together with advise_new_window: a root goes to the active workspace, a child to its parent's. */
  ghost function NewWindowIn(t: Titlebar, w: Window, spec: NewWindow): Titlebar
    requires Sound(t) && WorkspaceInvariant(t.m) && w !in t.m.info
    requires spec.parent.Some? ==> spec.parent.value in t.m.info
  {
    var t1 := Arrived(t, w, spec);
    if spec.parent.None? then JoinWorkspace(t1, w, t.active)
    else
      var t2 := AdviseEach(t1, w, WorkspaceListOf(t.m.pairs, spec.parent.value));
      if t.data[spec.parent.value].inHiddenWorkspace then ApplyHidden(t2, w) else t2
  }

  /** What handle_modify_window does first: a state asked for while the window is hidden away is remembered. */
  function StateRemembered(data: map<Window, PolicyData>, w: Window, mods: Modifications): map<Window, PolicyData>
    requires w in data
  {
    if data[w].inHiddenWorkspace && mods.state.Some? then data[w := data[w].(oldState := mods.state.value)] else data
  }

  /** And is not passed on to the window manager. */
  function LeftToAsk(data: map<Window, PolicyData>, w: Window, mods: Modifications): Modifications
    requires w in data
  {
    if data[w].inHiddenWorkspace then mods.(state := None) else mods
  }

  /** handle_modify_window. What was remembered stays so if the window manager refuses the rest. */
  ghost function HandleModify(t: Titlebar, w: Window, mods: Modifications): Titlebar
    requires Sound(t) && w in t.m.info && (Acceptable(t.m.info, w, mods) ==> KeepsForest(t.m.info, w, mods))
  {
    var t1 := t.(data := StateRemembered(t.data, w, mods));
    if Acceptable(t.m.info, w, mods) then t1.(m := ModifyWindow(t.m, w, LeftToAsk(t.data, w, mods))) else t1
  }

  /** The state asked for becomes the one the window is meant to have. */
  predicate TakesHold(t: Titlebar, w: Window, mods: Modifications)
    requires w in t.m.info && w in t.data
  {
    mods.state.Some? && (t.data[w].inHiddenWorkspace || Acceptable(t.m.info, w, mods))
  }

  ghost function Request(t: Titlebar, w: Window, request: Modifications): Titlebar
    requires Sound(t) && w in t.m.info && (Acceptable(t.m.info, w, request) ==> KeepsForest(t.m.info, w, request))
  {
    HandleModify(t, w, PlaceAndSizeForState(request, t.m.info[w], t.displays))
  }

  ghost function Remove(t: Titlebar, w: Window): Titlebar
    requires Sound(t) && w in t.m.info
  {
    t.(m := RemoveWindow(t.m, w), data := t.data - {w})
  }

  /** toggle: the active window goes to the given state or back to restored. */
  ghost function Toggle(t: Titlebar, value: WindowState): Titlebar
    requires Sound(t) && (ActiveWindow(t.m).Some? ==> ActiveWindow(t.m).value in t.m.info)
  {
    var active := ActiveWindow(t.m);
    if active.None? then t
    else
      var asked := if t.m.info[active.value].state == value then Restored else value;
      t.(m := ChangeState(t.m, active.value, asked, t.displays))
  }

  // ----- a new window

  lemma {:induction false} AdvisingEachKeeps(t: Titlebar, w: Window, wss: seq<Workspace>)
    requires Sound(t) && Invariants(t) && FlaggedAreHidden(t) && w in t.m.info
    ensures Kept(t, AdviseEach(t, w, wss))
  {
    if wss != [] {
      var t1 := AdviseEach(t, w, wss[..|wss| - 1]);
      AdvisingEachKeeps(t, w, wss[..|wss| - 1]);
      AdvisingKeeps(t1, wss[|wss| - 1], [w]);
      KeptOnwards(t, t1, AdviseEach(t, w, wss));
    }
  }

  lemma {:induction false} ArrivedInvariants(t: Titlebar, w: Window, spec: NewWindow)
    requires Sound(t) && Invariants(t) && w !in t.m.info && (spec.parent.Some? ==> spec.parent.value in t.m.info)
    ensures Invariants(Arrived(t, w, spec))
  {
    AddWindowKeepsFocus(t.m, w, spec);
    AddWindowKeepsWorkspaces(t.m, w, spec);
  }

  lemma {:induction false} ArrivedWindows(info: Windows, w: Window, spec: NewWindow)
    requires w !in info
    ensures var info1 := WithNewWindow(info, w, spec);
            && info1.Keys == info.Keys + {w} && info1[w].state == spec.state
            && info1[w].application == spec.application && info1[w].kind == spec.kind
            && forall x :: x in info ==>
                  && info1[x].application == info[x].application
                  && info1[x].kind == info[x].kind && info1[x].state == info[x].state
  {
  }

  lemma {:induction false} ArrivedIntentions(t: Titlebar, w: Window, spec: NewWindow)
    requires Sound(t) && WorkspaceInvariant(t.m) && FlaggedAreHidden(t)
    requires w !in t.m.info && (spec.parent.Some? ==> spec.parent.value in t.m.info)
    ensures FlaggedAreHidden(Arrived(t, w, spec)) && SameIntentions(t, Arrived(t, w, spec))
  {
    ArrivedWindows(t.m.info, w, spec);
    IntentionsUnmoved(t, Arrived(t, w, spec), w);
  }

  lemma {:induction false} IntentionsUnmoved(t: Titlebar, t': Titlebar, w: Window)
    requires FlaggedAreHidden(t) && t.m.info.Keys == t.data.Keys && w !in t.m.info
    requires t'.decorations == t.decorations && t'.data == t.data[w := PolicyData(false, Unknown)]
    requires forall x :: x in t.m.info ==>
               && x in t'.m.info && t'.m.info[x].application == t.m.info[x].application
               && t'.m.info[x].kind == t.m.info[x].kind && t'.m.info[x].state == t.m.info[x].state
    ensures FlaggedAreHidden(t') && SameIntentions(t, t')
  {
  }

  lemma {:induction false} JoinKeeps(t: Titlebar, w: Window, ws: Workspace)
    requires Sound(t) && Invariants(t) && FlaggedAreHidden(t) && w in t.m.info
    ensures Kept(t, JoinWorkspace(t, w, ws))
  {
    JoiningKeeps(t, w, ws);
    AdvisingKeeps(Joined(t, w, ws), ws, Newcomers(t, w, ws));
    KeptOnwards(t, Joined(t, w, ws), JoinWorkspace(t, w, ws));
  }

  ghost predicate SameKinds(t: Titlebar, t': Titlebar) {
    t'.decorations == t.decorations && forall x :: x in t.m.info && x in t'.m.info ==>
      t'.m.info[x].application == t.m.info[x].application && t'.m.info[x].kind == t.m.info[x].kind
  }

  lemma {:induction false} DecorationsStayInactive(t: Titlebar, w: Window, spec: NewWindow, t': Titlebar)
    requires DecorationsInactive(t) && w !in t.m.info
    requires spec.application == t.decorations ==> !spec.kind.CanBeActive()
    requires Sound(t) && WorkspaceInvariant(t.m) && (spec.parent.Some? ==> spec.parent.value in t.m.info)
    requires SameKinds(Arrived(t, w, spec), t') && t'.m.info.Keys == t.m.info.Keys + {w}
    ensures DecorationsInactive(t')
  {
    ArrivedWindows(t.m.info, w, spec);
  }

  lemma {:induction false} IntentionsSinceArrival(t: Titlebar, w: Window, spec: NewWindow, t': Titlebar)
    requires Sound(t) && Invariants(t) && FlaggedAreHidden(t)
    requires w !in t.m.info && (spec.parent.Some? ==> spec.parent.value in t.m.info)
    requires SameIntentions(Arrived(t, w, spec), t') && t'.m.info.Keys == t'.data.Keys == t.m.info.Keys + {w}
    ensures SameIntentions(t, t')
  {
    ArrivedIntentions(t, w, spec);
    ArrivedWindows(t.m.info, w, spec);
  }

  /** A new root goes to the active workspace and is not hidden. */
  lemma {:induction false} NewRootKeeps(t: Titlebar, w: Window, spec: NewWindow)
    requires TitlebarInvariant(t) && w !in t.m.info && spec.parent.None?
    requires spec.application == t.decorations ==> !spec.kind.CanBeActive()
    ensures TitlebarInvariant(NewWindowIn(t, w, spec)) && SameIntentions(t, NewWindowIn(t, w, spec))
  {
    hide JoinWorkspace, AdviseEach, ApplyHidden;
    ArrivedInvariants(t, w, spec);
    ArrivedIntentions(t, w, spec);
    ArrivedWindows(t.m.info, w, spec);
    JoinKeeps(Arrived(t, w, spec), w, t.active);
    NewRootWhere(t, w, spec);
    DecorationsStayInactive(t, w, spec, NewWindowIn(t, w, spec));
    IntentionsSinceArrival(t, w, spec, NewWindowIn(t, w, spec));
  }

  lemma {:induction false} NewRootAlone(t: Titlebar, w: Window, spec: NewWindow)
    requires Sound(t) && w !in t.m.info && spec.parent.None? && WorkspaceInvariant(t.m)
    ensures var t1 := Arrived(t, w, spec);
            && t1.m.pairs == t.m.pairs
            && forall x :: x in t1.m.info && Root(LinksOf(t1.m.info), x) == Root(LinksOf(t1.m.info), w) ==> x == w
  {
    AddWindowKeepsWorkspaces(t.m, w, spec);
    NewWindowLinks(t.m.info, w, spec);
    assert t.m.pairs + [] == t.m.pairs;
    var f := LinksOf(t.m.info);
    forall x | x in t.m.info
      ensures Root(AddLeaf(f, w, None), x) != w
    {
      OldRoots(f, w, x);
    }
  }

  lemma {:induction false} OldRoots(f: Links, w: Window, x: Window)
    requires IsForest(f) && w !in f && x in f && IsForest(AddLeaf(f, w, None))
    ensures Root(AddLeaf(f, w, None), x) == Root(f, x)
    decreases Rank(f, x)
  {
    if f[x].parent.Some? {
      ParentRank(f, f[x].parent.value, x);
      OldRoots(f, w, f[x].parent.value);
    }
  }

  /** Where the new window w is and whether it is flagged, with nothing else changed in that respect. */
  lemma {:induction false} NewcomerPlaced(t: Titlebar, w: Window, v: Workspace, t': Titlebar)
    requires Assigned(t) && FlagsRight(t) && KnownWindows(LinksOf(t.m.info), t.m.pairs) && w !in t.m.info
    requires t.data.Keys == t.m.info.Keys && t'.data.Keys == t'.m.info.Keys == t.m.info.Keys + {w}
    requires t'.active == t.active && t'.decorations == t.decorations
    requires forall x: Window, u: Workspace :: (u, x) in t'.m.pairs <==> (u, x) in t.m.pairs || (x == w && u == v)
    requires forall x :: x in t.m.info ==>
               && t'.m.info[x].application == t.m.info[x].application
               && t'.data[x].inHiddenWorkspace == t.data[x].inHiddenWorkspace
    requires t'.data[w].inHiddenWorkspace <==> v != t.active
    ensures Assigned(t') && FlagsRight(t')
  {
    forall x | x in t'.m.info
      ensures InOneWorkspace(t'.m.pairs, x)
      ensures !t'.IsDecoration(x) ==> (t'.data[x].inHiddenWorkspace <==> (t.active, x) !in t'.m.pairs)
    {
      if x == w {
        assert (v, w) in t'.m.pairs;
        assert forall u: Workspace :: (u, w) in t.m.pairs ==> (u, w).1 in t.m.info;
      } else {
        assert InOneWorkspace(t.m.pairs, x);
      }
    }
  }

  lemma {:induction false} NewRootWhere(t: Titlebar, w: Window, spec: NewWindow)
    requires TitlebarInvariant(t) && w !in t.m.info && spec.parent.None?
    ensures Assigned(NewWindowIn(t, w, spec)) && FlagsRight(NewWindowIn(t, w, spec))
  {
    NewRootPairs(t, w, spec);
    NewRootFlags(t, w, spec);
    NewcomerPlaced(t, w, t.active, NewWindowIn(t, w, spec));
  }

  /** A tree of one window that joins the active workspace is not hidden. */
  lemma {:induction false} JoinedFlags(t: Titlebar, w: Window)
    requires Sound(t) && w in t.m.info && !t.data[w].inHiddenWorkspace
    requires forall x :: x in t.m.info && Root(LinksOf(t.m.info), x) == Root(LinksOf(t.m.info), w) ==> x == w
    ensures forall x :: x in t.m.info ==>
              JoinWorkspace(t, w, t.active).data[x].inHiddenWorkspace == t.data[x].inHiddenWorkspace
  {
    AdvisedFlags(Joined(t, w, t.active), t.active, Newcomers(t, w, t.active));
  }

  lemma {:induction false} NewRootFlags(t: Titlebar, w: Window, spec: NewWindow)
    requires TitlebarInvariant(t) && w !in t.m.info && spec.parent.None?
    ensures var t' := NewWindowIn(t, w, spec);
            && t'.m.info.Keys == t.m.info.Keys + {w} && !t'.data[w].inHiddenWorkspace
            && forall x :: x in t.m.info ==>
                 && t'.m.info[x].application == t.m.info[x].application
                 && t'.data[x].inHiddenWorkspace == t.data[x].inHiddenWorkspace
  {
    NewRootAlone(t, w, spec);
    ArrivedWindows(t.m.info, w, spec);
    JoinedFlags(Arrived(t, w, spec), w);
  }

  lemma {:induction false} NewParentIs(t: Titlebar, w: Window, spec: NewWindow)
    requires Sound(t) && WorkspaceInvariant(t.m) && w !in t.m.info
    requires spec.parent.Some? ==> spec.parent.value in t.m.info
    ensures LinksOf(Arrived(t, w, spec).m.info)[w].parent == spec.parent
  {
    NewWindowLinks(t.m.info, w, spec);
  }

  /** While the policy is told of the workspaces of a new window, no other window's data changes. */
  lemma {:induction false} AdvisedAlone(t: Titlebar, w: Window, wss: seq<Workspace>)
    requires Sound(t) && w in t.m.info
    ensures forall x :: x in t.m.info && x != w ==>
              AdviseEach(t, w, wss).data[x].inHiddenWorkspace == t.data[x].inHiddenWorkspace
  {
    if wss != [] {
      AdvisedAlone(t, w, wss[..|wss| - 1]);
      AdvisedFlags(AdviseEach(t, w, wss[..|wss| - 1]), wss[|wss| - 1], [w]);
    }
  }

  lemma {:induction false} NewRootPairs(t: Titlebar, w: Window, spec: NewWindow)
    requires Sound(t) && WorkspaceInvariant(t.m) && w !in t.m.info && spec.parent.None?
    ensures forall x: Window, u: Workspace ::
              (u, x) in NewWindowIn(t, w, spec).m.pairs <==> (u, x) in t.m.pairs || (x == w && u == t.active)
  {
    var t1 := Arrived(t, w, spec);
    NewRootAlone(t, w, spec);
    TreeListFits(LinksOf(t1.m.info), w);
    AddedMembers(t1.m.pairs, t.active, TreeOf(t1.m.info, w));
  }

  lemma {:induction false} Repeated<T(!new)>(s: seq<T>, v: T)
    requires |s| > 1 && forall x :: x in s ==> x == v
    ensures !NoDup(s)
  {
    assert s[0] in s && s[1] in s;
  }

  lemma {:induction false} OneWorkspaceListed(pairs: Pairs, p: Window, v: Workspace)
    requires NoDup(pairs) && (v, p) in pairs && forall u :: (u, p) in pairs ==> u == v
    ensures WorkspaceListOf(pairs, p) == [v]
  {
    var list := WorkspaceListOf(pairs, p);
    WorkspaceListFits(pairs, p);
    assert v in list && forall u :: u in list ==> u == v;
    if |list| > 1 {
      Repeated(list, v);
    }
  }

  /** A new child joins its parent's workspace and is hidden if that is not the active one. */
  lemma {:induction false} NewChildKeeps(t: Titlebar, w: Window, spec: NewWindow)
    requires TitlebarInvariant(t) && w !in t.m.info && spec.parent.Some? && spec.parent.value in t.m.info
    requires !t.IsDecoration(spec.parent.value)
    requires spec.application == t.decorations ==> !spec.kind.CanBeActive()
    ensures TitlebarInvariant(NewWindowIn(t, w, spec)) && SameIntentions(t, NewWindowIn(t, w, spec))
  {
    hide JoinWorkspace, AdviseEach, ApplyHidden, WithNewWindow, SameKinds, WellLinked, KnownWindows, LinksOf;
    NewChildKept(t, w, spec);
    ArrivedWindows(t.m.info, w, spec);
    NewChildWhere(t, w, spec);
    DecorationsStayInactive(t, w, spec, NewWindowIn(t, w, spec));
    IntentionsSinceArrival(t, w, spec, NewWindowIn(t, w, spec));
  }

  lemma {:induction false} NewChildKept(t: Titlebar, w: Window, spec: NewWindow)
    requires Sound(t) && Invariants(t) && FlaggedAreHidden(t)
    requires w !in t.m.info && spec.parent.Some? && spec.parent.value in t.m.info
    ensures Kept(Arrived(t, w, spec), NewWindowIn(t, w, spec))
  {
    hide FocusInvariant, AddWindow, Restate;
    ArrivedInvariants(t, w, spec);
    ArrivedIntentions(t, w, spec);
    AdvisedAndHidden(Arrived(t, w, spec), w, WorkspaceListOf(t.m.pairs, spec.parent.value));
  }

  lemma {:induction false} AdvisedAndHidden(t: Titlebar, w: Window, wss: seq<Workspace>)
    requires Sound(t) && Invariants(t) && FlaggedAreHidden(t) && w in t.m.info
    ensures Kept(t, AdviseEach(t, w, wss)) && Kept(t, ApplyHidden(AdviseEach(t, w, wss), w))
  {
    var t2 := AdviseEach(t, w, wss);
    AdvisingEachKeeps(t, w, wss);
    HidingKeeps(t2, w);
    KeptOnwards(t, t2, ApplyHidden(t2, w));
  }

  lemma {:induction false} NewChildWhere(t: Titlebar, w: Window, spec: NewWindow)
    requires TitlebarInvariant(t) && w !in t.m.info && spec.parent.Some? && spec.parent.value in t.m.info
    requires !t.IsDecoration(spec.parent.value)
    ensures Assigned(NewWindowIn(t, w, spec)) && FlagsRight(NewWindowIn(t, w, spec))
  {
    var p := spec.parent.value;
    assert InOneWorkspace(t.m.pairs, p);
    var v :| (v, p) in t.m.pairs && forall u :: (u, p) in t.m.pairs ==> u == v;
    OneWorkspaceListed(t.m.pairs, p, v);
    NewChildAt(t, w, spec, v);
  }

  lemma {:induction false} NewChildAt(t: Titlebar, w: Window, spec: NewWindow, v: Workspace)
    requires Sound(t) && WorkspaceInvariant(t.m) && Assigned(t) && FlagsRight(t)
    requires w !in t.m.info && spec.parent.Some? && spec.parent.value in t.m.info
    requires WorkspaceListOf(t.m.pairs, spec.parent.value) == [v]
    requires t.data[spec.parent.value].inHiddenWorkspace ==> v != t.active
    ensures Assigned(NewWindowIn(t, w, spec)) && FlagsRight(NewWindowIn(t, w, spec))
  {
    hide InOneWorkspace, JoinWorkspace, AdviseEach, ApplyHidden;
    NewChildPairs(t, w, spec, v);
    ArrivedWindows(t.m.info, w, spec);
    NewChildFlags(t, w, spec, v);
    NewcomerPlaced(t, w, v, NewWindowIn(t, w, spec));
  }

  lemma {:induction false} NewChildFlags(t: Titlebar, w: Window, spec: NewWindow, v: Workspace)
    requires Sound(t) && WorkspaceInvariant(t.m) && w !in t.m.info && spec.parent.Some? && spec.parent.value in t.m.info
    requires WorkspaceListOf(t.m.pairs, spec.parent.value) == [v]
    requires t.data[spec.parent.value].inHiddenWorkspace ==> v != t.active
    ensures forall x :: x in Arrived(t, w, spec).m.info ==>
              (NewWindowIn(t, w, spec).data[x].inHiddenWorkspace <==>
                 if x == w then v != t.active else t.data[x].inHiddenWorkspace)
  {
    AdvisedOnce(Arrived(t, w, spec), w, v);
  }

  lemma {:induction false} AdvisedOnce(t: Titlebar, w: Window, v: Workspace)
    requires Sound(t) && w in t.m.info
    ensures forall x :: x in t.m.info ==>
              (AdviseEach(t, w, [v]).data[x].inHiddenWorkspace <==>
                 if x == w then v != t.active else t.data[x].inHiddenWorkspace)
  {
    assert [v][..0] == [];
    AdvisedFlags(t, v, [w]);
  }

  lemma {:induction false} NewChildPairs(t: Titlebar, w: Window, spec: NewWindow, v: Workspace)
    requires Sound(t) && WorkspaceInvariant(t.m) && w !in t.m.info && spec.parent.Some? && spec.parent.value in t.m.info
    requires WorkspaceListOf(t.m.pairs, spec.parent.value) == [v]
    ensures forall x: Window, u: Workspace ::
              (u, x) in NewWindowIn(t, w, spec).m.pairs <==> (u, x) in t.m.pairs || (x == w && u == v)
  {
    hide Sound, WorkspaceInvariant, AddWindow;
    AddWindowKeepsWorkspaces(t.m, w, spec);
  }

  // ----- requests

  /** The windows after a modification of w: only its state and type may be others. */
  ghost predicate OnlyRestated(info: Windows, info': Windows, w: Window, state: WindowState, kind: WindowType) {
    && info'.Keys == info.Keys
    && forall x :: x in info ==>
         && info'[x].application == info[x].application
         && info'[x].state == (if x == w then state else info[x].state)
         && info'[x].kind == (if x == w then kind else info[x].kind)
  }

  lemma {:induction false} RelinkedStates(info: Windows, w: Window, mods: Modifications)
    requires WellLinked(info) && w in info && Acceptable(info, w, mods) && KeepsForest(info, w, mods)
    ensures OnlyRestated(info, Noted(Relinked(info, w, mods), w, mods), w, info[w].state, NewKind(info[w], mods))
  {
  }

  lemma {:induction false} PlacedStates(info: Windows, w: Window, mods: Modifications)
    requires WellLinked(info) && w in info
    ensures OnlyRestated(info, Placed(info, w, mods), w, info[w].state, info[w].kind)
  {
  }

  /** modify_window changes the state of no window but w, and that only to the state asked for. */
  lemma {:induction false} ModifyStates(m: Model, w: Window, mods: Modifications)
    requires WellLinked(m.info) && w in m.info && Acceptable(m.info, w, mods) && KeepsForest(m.info, w, mods)
    ensures OnlyRestated(m.info, ModifyWindow(m, w, mods).info, w,
                         Or(mods.state, m.info[w].state), NewKind(m.info[w], mods))
  {
    RelinkedWellLinked(m.info, w, mods);
    var info2 := Noted(Relinked(m.info, w, mods), w, mods);
    StepsKeepLinks(info2, w, mods);
    RelinkedStates(m.info, w, mods);
    PlacedStates(info2, w, mods);
    var info3 := Placed(info2, w, mods);
    var kind := NewKind(m.info[w], mods);
    RestatedOnwards(m.info, info2, info3, w, m.info[w].state, kind, m.info[w].state, kind);
    if mods.state.Some? {
      var m4 := SetState(m.(info := info3), w, mods.state.value);
      SetStateStates(m.(info := info3), w, mods.state.value);
      RestatedOnwards(m.info, info3, m4.info, w, m.info[w].state, NewKind(m.info[w], mods),
                      mods.state.value, NewKind(m.info[w], mods));
    }
  }

  lemma {:induction false} SetStateStates(m: Model, w: Window, value: WindowState)
    requires WellLinked(m.info) && w in m.info
    ensures OnlyRestated(m.info, SetState(m, w, value).info, w, value, m.info[w].kind)
  {
    SetStateEffect(m, w, value);
  }

  lemma {:induction false} RestatedOnwards(
      a: Windows, b: Windows, c: Windows, w: Window,
      state: WindowState, kind: WindowType, state': WindowState, kind': WindowType)
    requires OnlyRestated(a, b, w, state, kind) && OnlyRestated(b, c, w, state', kind')
    ensures OnlyRestated(a, c, w, state', kind')
  {
  }

  /** modify_window adds and removes no windows and moves none between workspaces. */
  lemma {:induction false} ModifyKeepsKnown(m: Model, w: Window, mods: Modifications)
    requires WellLinked(m.info) && w in m.info && Acceptable(m.info, w, mods) && KeepsForest(m.info, w, mods)
    requires KnownWindows(LinksOf(m.info), m.pairs)
    ensures ModifyWindow(m, w, mods).info.Keys == m.info.Keys && ModifyWindow(m, w, mods).pairs == m.pairs
    ensures KnownWindows(LinksOf(ModifyWindow(m, w, mods).info), ModifyWindow(m, w, mods).pairs)
  {
    ModifyStates(m, w, mods);
    RelinkedWellLinked(m.info, w, mods);
    var info3 := Placed(Noted(Relinked(m.info, w, mods), w, mods), w, mods);
    if mods.state.Some? {
      SetStateEffect(m.(info := info3), w, mods.state.value);
    }
  }

  lemma {:induction false} ModifiedSound(t: Titlebar, w: Window, mods: Modifications, data: map<Window, PolicyData>)
    requires Sound(t) && w in t.m.info && Acceptable(t.m.info, w, mods) && KeepsForest(t.m.info, w, mods)
    requires data.Keys == t.data.Keys && WellLinked(ModifyWindow(t.m, w, mods).info)
    ensures Sound(t.(data := data, m := ModifyWindow(t.m, w, mods)))
  {
    ModifyKeepsKnown(t.m, w, mods);
  }

  lemma {:induction false} HandledSound(t: Titlebar, w: Window, mods: Modifications)
    requires Sound(t) && w in t.m.info && (Acceptable(t.m.info, w, mods) ==> KeepsForest(t.m.info, w, mods))
    requires WellLinked(HandleModify(t, w, mods).m.info)
    ensures Sound(HandleModify(t, w, mods))
  {
    hide ModifyWindow;
    if Acceptable(t.m.info, w, mods) {
      ModifiedSound(t, w, LeftToAsk(t.data, w, mods), StateRemembered(t.data, w, mods));
    }
  }

  /** If it is not refused, the request gives the window no parent elsewhere and no other type. */
  ghost predicate Harmless(t: Titlebar, w: Window, mods: Modifications)
    requires Sound(t) && w in t.m.info
  {
    Acceptable(t.m.info, w, mods) ==>
      && KeepsForest(t.m.info, w, mods) && !R.TornApart(t.m, w, mods)
      && NewKind(t.m.info[w], mods) == t.m.info[w].kind
  }

  lemma {:induction false} HandledInvariants(t: Titlebar, w: Window, mods: Modifications)
    requires Sound(t) && Invariants(t) && w in t.m.info && Harmless(t, w, mods)
    ensures Invariants(HandleModify(t, w, mods)) && HandleModify(t, w, mods).m.pairs == t.m.pairs
  {
    hide ModifyWindow, TreesTogether, FocusAgrees, StackAgrees, FullscreenAgrees, Synced;
    var mods1 := LeftToAsk(t.data, w, mods);
    if Acceptable(t.m.info, w, mods) {
      ModifyWindowKeepsFocus(t.m, w, mods1);
      R.ModifyKeepsTogether(t.m, w, mods1);
      R.ModifiedLinks(t.m, w, mods1);
    }
  }

  /** A state that is asked for becomes the one the window is meant to have if it takes hold, and no other window's
      does. */
  lemma {:induction false} HandledIntentions(t: Titlebar, w: Window, mods: Modifications)
    requires Sound(t) && w in t.m.info && Harmless(t, w, mods)
    ensures var t' := HandleModify(t, w, mods);
            && t'.data.Keys == t'.m.info.Keys == t.m.info.Keys && t'.active == t.active && SameKinds(t, t')
            && forall x :: x in t.m.info ==>
                 && t'.data[x].inHiddenWorkspace == t.data[x].inHiddenWorkspace
                 && (t.data[x].inHiddenWorkspace ==> t'.m.info[x].state == t.m.info[x].state)
                 && Intended(t', x) == if x == w && TakesHold(t, w, mods) then mods.state.value else Intended(t, x)
  {
    hide ModifyWindow;
    if Acceptable(t.m.info, w, mods) {
      ModifyStates(t.m, w, LeftToAsk(t.data, w, mods));
    }
  }

  /** The workspaces' side of the invariant goes by pairs, flags, states of flagged windows and types only. */
  lemma {:induction false} WorkspacesGoOn(t: Titlebar, t': Titlebar)
    requires t.data.Keys == t.m.info.Keys == t'.data.Keys == t'.m.info.Keys
    requires FlaggedAreHidden(t) && Assigned(t) && FlagsRight(t) && DecorationsInactive(t)
    requires t'.m.pairs == t.m.pairs && t'.active == t.active && SameKinds(t, t')
    requires forall x :: x in t.m.info ==>
               && t'.data[x].inHiddenWorkspace == t.data[x].inHiddenWorkspace
               && (t.data[x].inHiddenWorkspace ==> t'.m.info[x].state == t.m.info[x].state)
    ensures FlaggedAreHidden(t') && Assigned(t') && FlagsRight(t') && DecorationsInactive(t')
  {
  }

  lemma {:induction false} HandledKeeps(t: Titlebar, w: Window, mods: Modifications)
    requires TitlebarInvariant(t) && w in t.m.info && Harmless(t, w, mods)
    ensures var t' := HandleModify(t, w, mods);
            && TitlebarInvariant(t') && t'.m.info.Keys == t.m.info.Keys && t'.active == t.active
            && forall x :: x in t.m.info ==>
                 Intended(t', x) == if x == w && TakesHold(t, w, mods) then mods.state.value else Intended(t, x)
  {
    hide HandleModify;
    HandledInvariants(t, w, mods);
    HandledIntentions(t, w, mods);
    WorkspacesGoOn(t, HandleModify(t, w, mods));
  }

  // ----- steps that leave the workspaces alone

  /** Nothing the workspaces depend on changes but the state of at most one window that is not hidden away. */
  lemma {:induction false} QuietStepKeeps(t: Titlebar, m': Model)
    requires TitlebarInvariant(t) && FocusInvariant(m') && WorkspaceInvariant(m') && m'.pairs == t.m.pairs
    requires m'.info.Keys == t.m.info.Keys
    requires forall x :: x in t.m.info ==>
               && m'.info[x].application == t.m.info[x].application && m'.info[x].kind == t.m.info[x].kind
               && (t.data[x].inHiddenWorkspace ==> m'.info[x].state == t.m.info[x].state)
    ensures TitlebarInvariant(t.(m := m'))
  {
    WorkspacesGoOn(t, t.(m := m'));
  }

  lemma {:induction false} FocusingKeeps(t: Titlebar, w: Window)
    requires TitlebarInvariant(t) && w in t.m.info
    ensures var t' := t.(m := Select(t.m, Some(w)).0); TitlebarInvariant(t') && SameIntentions(t, t')
  {
    hide FocusInvariant;
    SelectKeepsFocus(t.m, w);
    QuietStepKeeps(t, Select(t.m, Some(w)).0);
  }

  lemma {:induction false} ReadyStates(m: Model, w: Window)
    requires WellLinked(m.info) && w in m.info
    ensures var m' := WindowReady(m, w);
            && m'.pairs == m.pairs && LinksOf(m'.info) == LinksOf(m.info) && m'.info.Keys == m.info.Keys
            && forall x :: x in m.info ==>
                 m'.info[x].application == m.info[x].application && m'.info[x].kind == m.info[x].kind &&
                 m'.info[x].state == m.info[x].state
  {
    var info1 := m.info[w := m.info[w].(surface := m.info[w].surface.(ready := true))];
    assert LinksOf(info1) == LinksOf(m.info);
  }

  lemma {:induction false} ReadyKeeps(t: Titlebar, w: Window)
    requires TitlebarInvariant(t) && w in t.m.info
    ensures var t' := t.(m := WindowReady(t.m, w)); TitlebarInvariant(t') && SameIntentions(t, t')
  {
    hide FocusInvariant, FlaggedAreHidden, FlagsRight, DecorationsInactive, TreesTogether;
    WindowReadyKeepsFocus(t.m, w);
    ReadyStates(t.m, w);
    QuietStepKeeps(t, WindowReady(t.m, w));
  }

  /** The active window is not hidden away, so toggling its state is not lost on it. */
  lemma {:induction false} ActiveNotHidden(t: Titlebar)
    requires TitlebarInvariant(t) && ActiveWindow(t.m).Some?
    ensures var w := ActiveWindow(t.m).value;
            w in t.m.info && !t.IsDecoration(w) && !t.data[w].inHiddenWorkspace && (t.active, w) in t.m.pairs
  {
    var w := ActiveWindow(t.m).value;
    assert w in t.m.mru && w in VisibleSurfaces(t.m.info);
  }

  lemma {:induction false} ToggleIsHandled(t: Titlebar, w: Window, value: WindowState)
    requires Sound(t) && w in t.m.info && !t.data[w].inHiddenWorkspace && ActiveWindow(t.m) == Some(w)
    ensures var asked := if t.m.info[w].state == value then Restored else value;
            var mods := PlaceAndSizeForState(OnlyState(asked), t.m.info[w], t.displays);
            && Acceptable(t.m.info, w, mods) && Harmless(t, w, mods)
            && Toggle(t, value) == HandleModify(t, w, mods) && mods.state == Some(asked)
  {
    hide ModifyWindow;
    OnlyStateIsFine(t.m.info, w, if t.m.info[w].state == value then Restored else value);
  }

  lemma {:induction false} ToggleKeeps(t: Titlebar, value: WindowState)
    requires TitlebarInvariant(t)
    ensures ActiveWindow(t.m).Some? ==> ActiveWindow(t.m).value in t.m.info
    ensures var t' := Toggle(t, value); var active := ActiveWindow(t.m);
            && TitlebarInvariant(t') && t'.m.info.Keys == t.m.info.Keys
            && forall x :: x in t.m.info ==>
                 Intended(t', x) == if active != Some(x) then Intended(t, x)
                                    else if t.m.info[x].state == value then Restored else value
  {
    if ActiveWindow(t.m).Some? {
      var w := ActiveWindow(t.m).value;
      ActiveNotHidden(t);
      ToggleIsHandled(t, w, value);
      var asked := if t.m.info[w].state == value then Restored else value;
      HandledKeeps(t, w, PlaceAndSizeForState(OnlyState(asked), t.m.info[w], t.displays));
    }
  }

  lemma {:induction false} RemovedWindows(m: Model, w: Window)
    requires WellLinked(m.info) && w in m.info
    ensures var m' := RemoveWindow(m, w);
            && m'.info.Keys == m.info.Keys - {w} && m'.pairs == Forget(m, w).pairs && m'.info == Forget(m, w).info
            && forall x :: x in m'.info ==>
                 && m'.info[x].application == m.info[x].application && m'.info[x].kind == m.info[x].kind
                 && m'.info[x].state == m.info[x].state
  {
    hide LinksOf, EraseNode, IsForest, Refocus, Without;
    WithoutWindowLinks(m.info, w);
    RemovedParent(m, w);
  }

  lemma {:induction false} RemovalInvariants(t: Titlebar, w: Window)
    requires Sound(t) && Invariants(t) && w in t.m.info
    ensures Invariants(Remove(t, w))
    ensures forall x: Window, v: Workspace :: (v, x) in Remove(t, w).m.pairs <==> (v, x) in t.m.pairs && x != w
  {
    RemoveWindowKeepsFocus(t.m, w);
    ForgetKeepsWorkspaces(t.m, w);
    RemovedWindows(t.m, w);
  }

  lemma {:induction false} RemainingWindows(t: Titlebar, w: Window)
    requires Sound(t) && WorkspaceInvariant(t.m) && Assigned(t) && FlagsRight(t) && w in t.m.info
    requires forall x: Window, v: Workspace :: (v, x) in Remove(t, w).m.pairs <==> (v, x) in t.m.pairs && x != w
    ensures Assigned(Remove(t, w)) && FlagsRight(Remove(t, w))
  {
    hide Sound, WellLinked, RemoveWindow;
    var t' := Remove(t, w);
    RemovedWindows(t.m, w);
    forall x | x in t'.m.info
      ensures InOneWorkspace(t'.m.pairs, x)
    {
      assert InOneWorkspace(t.m.pairs, x);
      var v :| (v, x) in t.m.pairs && forall u :: (u, x) in t.m.pairs ==> u == v;
      assert (v, x) in t'.m.pairs;
    }
  }

  lemma {:induction false} RemainingFlags(t: Titlebar, w: Window)
    requires Sound(t) && FlaggedAreHidden(t) && DecorationsInactive(t) && w in t.m.info
    ensures FlaggedAreHidden(Remove(t, w)) && DecorationsInactive(Remove(t, w)) && SameIntentions(t, Remove(t, w))
  {
    hide WellLinked;
    RemovedWindows(t.m, w);
  }

  lemma {:induction false} RemovalKeeps(t: Titlebar, w: Window)
    requires TitlebarInvariant(t) && w in t.m.info
    ensures TitlebarInvariant(Remove(t, w)) && SameIntentions(t, Remove(t, w))
  {
    RemovalInvariants(t, w);
    RemainingWindows(t, w);
    RemainingFlags(t, w);
    RemovalSound(t, w);
  }

  lemma {:induction false} RemovalSound(t: Titlebar, w: Window)
    requires Sound(t) && WorkspaceInvariant(t.m) && w in t.m.info
    ensures Sound(Remove(t, w))
  {
    RemovedWindows(t.m, w);
    WithoutWindowLinks(t.m.info, w);
    ForgetKeepsWorkspaces(t.m, w);
  }

  // ----- runs

  datatype Step =
    | Create(w: Window, spec: NewWindow)
    | Ready(w: Window)
    | Activate(w: Window)
    | Ask(w: Window, request: Modifications)
    | Delete(w: Window)
    | ToggleState(value: WindowState)
    | SwitchWorkspace(ws: Workspace, taking: bool)

  /** Decorations have no children and cannot have the focus. No request makes a window its own ancestor or gives it a
      parent of another workspace; one that will be refused may come at any time. */
  ghost predicate Enabled(t: Titlebar, s: Step)
    requires Sound(t)
  {
    match s
    case Create(w, spec) =>
      && w !in t.m.info
      && (spec.parent.Some? ==> spec.parent.value in t.m.info && !t.IsDecoration(spec.parent.value))
      && (spec.application == t.decorations ==> !spec.kind.CanBeActive())
    case Ready(w) => w in t.m.info
    case Activate(w) => w in t.m.info
    case Ask(w, request) =>
      w in t.m.info &&
      (R.Granted(t.m, w, request) ==> KeepsForest(t.m.info, w, request) && !R.TornApart(t.m, w, request))
    case Delete(w) => w in t.m.info
    case ToggleState(value) => true
    case SwitchWorkspace(ws, taking) => true
  }

  ghost function After(t: Titlebar, s: Step): Titlebar
    requires TitlebarInvariant(t) && Enabled(t, s)
  {
    hide FlaggedAreHidden, Assigned, FlagsRight, DecorationsInactive;
    match s
    case Create(w, spec) => NewWindowIn(t, w, spec)
    case Ready(w) => t.(m := WindowReady(t.m, w))
    case Activate(w) => t.(m := Select(t.m, Some(w)).0)
    case Ask(w, request) => if ClientMay(t.m.info, w, request) then Request(t, w, request) else t
    case Delete(w) => Remove(t, w)
    case ToggleState(value) => ToggleKeeps(t, value); Toggle(t, value)
    case SwitchWorkspace(ws, taking) =>
      if taking && ActiveWindow(t.m).Some? then ActiveNotHidden(t); SwitchTo(t, ws, ActiveWindow(t.m))
      else SwitchTo(t, ws, None)
  }

  /** The state the step asks for, and for which window, if it takes hold. */
  function Asked(t: Titlebar, s: Step): Option<(Window, WindowState)> {
    match s
    case Ask(w, request) =>
      if w in t.m.info && w in t.data && ClientMay(t.m.info, w, request) && TakesHold(t, w, request)
      then Some((w, request.state.value)) else None
    case ToggleState(value) =>
      var active := ActiveWindow(t.m);
      if active.Some? && active.value in t.m.info
      then Some((active.value, if t.m.info[active.value].state == value then Restored else value)) else None
    case _ => None
  }

  /** What a step does to the states the windows are meant to have. */
  ghost predicate IntentionsAfter(t: Titlebar, s: Step, t': Titlebar) {
    var asked := Asked(t, s);
    forall x :: x in t.m.info && x in t'.m.info && x in t.data && x in t'.data ==>
      Intended(t', x) == if asked.Some? && asked.value.0 == x then asked.value.1 else Intended(t, x)
  }

  lemma {:induction false} RequestHarmless(t: Titlebar, w: Window, request: Modifications)
    requires Sound(t) && w in t.m.info && ClientMay(t.m.info, w, request) && Enabled(t, Ask(w, request))
    ensures var mods := PlaceAndSizeForState(request, t.m.info[w], t.displays);
            && Harmless(t, w, request) && Harmless(t, w, mods) && mods.state == request.state
            && (TakesHold(t, w, mods) <==> TakesHold(t, w, request))
  {
    R.ClientKeepsType(t.m.info[w].kind, NewKind(t.m.info[w], request));
  }

  lemma {:induction false} AskKeeps(t: Titlebar, w: Window, request: Modifications)
    requires TitlebarInvariant(t) && Enabled(t, Ask(w, request))
    ensures TitlebarInvariant(After(t, Ask(w, request)))
    ensures IntentionsAfter(t, Ask(w, request), After(t, Ask(w, request)))
  {
    hide Invariants, FlaggedAreHidden, Assigned, FlagsRight, DecorationsInactive, NewWindowIn, WindowReady, SwitchTo;
    hide LinksOf, ClientModify;
    if ClientMay(t.m.info, w, request) {
      RequestHarmless(t, w, request);
      HandledKeeps(t, w, PlaceAndSizeForState(request, t.m.info[w], t.displays));
    }
  }

  lemma {:induction false} SwitchStepKeeps(t: Titlebar, ws: Workspace, taking: bool)
    requires TitlebarInvariant(t)
    ensures TitlebarInvariant(After(t, SwitchWorkspace(ws, taking)))
    ensures SameIntentions(t, After(t, SwitchWorkspace(ws, taking)))
  {
    hide TitlebarInvariant, ActiveWindow, WellLinked, Invariants, FlaggedAreHidden, FlagsRight, DecorationsInactive;
    hide NewWindowIn, Select, Remove;
    if ws != t.active {
      if taking && ActiveWindow(t.m).Some? {
        ActiveNotHidden(t);
        SwitchKeeps(t, ws, ActiveWindow(t.m));
      } else {
        SwitchKeeps(t, ws, None);
      }
    }
  }

  lemma {:induction false} CreateKeeps(t: Titlebar, w: Window, spec: NewWindow)
    requires TitlebarInvariant(t) && Enabled(t, Create(w, spec))
    ensures TitlebarInvariant(After(t, Create(w, spec))) && SameIntentions(t, After(t, Create(w, spec)))
  {
    if spec.parent.None? {
      NewRootKeeps(t, w, spec);
    } else {
      NewChildKeeps(t, w, spec);
    }
  }

  lemma {:induction false} StepKeepsInvariant(t: Titlebar, s: Step)
    requires TitlebarInvariant(t) && Enabled(t, s)
    ensures TitlebarInvariant(After(t, s))
  {
    hide Sound, SameIntentions, Select, IntentionsAfter, Remove, Invariants;
    match s
    case Create(w, spec) => CreateKeeps(t, w, spec);
    case Ready(w) => ReadyKeeps(t, w);
    case Activate(w) => FocusingKeeps(t, w);
    case Ask(w, request) => AskKeeps(t, w, request);
    case Delete(w) => RemovalKeeps(t, w);
    case ToggleState(value) => ToggleKeeps(t, value);
    case SwitchWorkspace(ws, taking) => SwitchStepKeeps(t, ws, taking);
  }

  lemma {:induction false} NothingAsked(t: Titlebar, s: Step, t': Titlebar)
    requires Asked(t, s).None? && SameIntentions(t, t')
    ensures IntentionsAfter(t, s, t')
  {
  }

  lemma {:induction false} ToggleAsked(t: Titlebar, value: WindowState, t': Titlebar)
    requires ActiveWindow(t.m).Some? ==> ActiveWindow(t.m).value in t.m.info
    requires t'.m.info.Keys == t.m.info.Keys == t.data.Keys == t'.data.Keys
    requires forall x :: x in t.m.info ==>
               Intended(t', x) == if ActiveWindow(t.m) != Some(x) then Intended(t, x)
                                  else if t.m.info[x].state == value then Restored else value
    ensures IntentionsAfter(t, ToggleState(value), t')
  {
  }

  /** Only what a client or the user asks for changes the state a window is meant to have. */
  lemma {:induction false} StepKeepsIntentions(t: Titlebar, s: Step)
    requires TitlebarInvariant(t) && Enabled(t, s)
    ensures IntentionsAfter(t, s, After(t, s))
  {
    hide Toggle, SameIntentions, Invariants, LinksOf, ClientModify, ModifyWindow;
    match s
    case Ask(w, request) => AskKeeps(t, w, request);
    case ToggleState(value) =>
      ToggleKeeps(t, value);
      ToggleAsked(t, value, Toggle(t, value));
    case _ =>
      UnaskedKeeps(t, s);
      NothingAsked(t, s, After(t, s));
  }

  lemma {:induction false} UnaskedKeeps(t: Titlebar, s: Step)
    requires TitlebarInvariant(t) && Enabled(t, s) && !s.Ask? && !s.ToggleState?
    ensures SameIntentions(t, After(t, s))
  {
    hide Sound, Select, Remove, Invariants;
    match s
    case Create(w, spec) => CreateKeeps(t, w, spec);
    case Ready(w) => ReadyKeeps(t, w);
    case Activate(w) => FocusingKeeps(t, w);
    case Delete(w) => RemovalKeeps(t, w);
    case SwitchWorkspace(ws, taking) => SwitchStepKeeps(t, ws, taking);
  }

  /** A run from the start: no windows and no records of any; the active workspace, the displays and what is remembered
      of the other workspaces are arbitrary. */
  ghost predicate IsRun(states: seq<Titlebar>, steps: seq<Step>) {
    && |states| == |steps| + 1
    && states[0].m == R.START && states[0].data == map[]
    && forall i :: 0 <= i < |steps| ==> Next(states[i], steps[i], states[i + 1])
  }

  /** What a step does is defined where the invariant holds; that it always does is what is proved. */
  ghost predicate Next(t: Titlebar, s: Step, t': Titlebar) {
    TitlebarInvariant(t) ==> Enabled(t, s) && t' == After(t, s)
  }

  lemma {:induction false} NextKeepsInvariant(t: Titlebar, s: Step, t': Titlebar)
    requires TitlebarInvariant(t) && Next(t, s, t')
    ensures TitlebarInvariant(t')
  {
    StepKeepsInvariant(t, s);
  }

  lemma {:induction false} StartFits(t: Titlebar)
    requires t.m == R.START && t.data == map[]
    ensures TitlebarInvariant(t)
  {
    R.StartFits();
  }

  lemma {:induction false} RunsKeepInvariant(states: seq<Titlebar>, steps: seq<Step>, n: nat)
    requires IsRun(states, steps) && n < |states|
    ensures TitlebarInvariant(states[n])
  {
    if n == 0 {
      StartFits(states[0]);
    } else {
      RunsKeepInvariant(states, steps, n - 1);
      NextKeepsInvariant(states[n - 1], steps[n - 1], states[n]);
    }
  }

  /** In every state of every run each window is in exactly one workspace, and it has the state it is meant to have
      if that is the active one and is hidden if not. */
  lemma {:induction false} RunsKeepTitlebar(states: seq<Titlebar>, steps: seq<Step>, n: nat)
    requires IsRun(states, steps) && n < |states|
    ensures TitlebarInvariant(states[n])
    ensures var t := states[n];
            forall w :: w in t.m.info ==>
              && InOneWorkspace(t.m.pairs, w)
              && (!t.IsDecoration(w) ==>
                    t.m.info[w].state == if (t.active, w) in t.m.pairs then Intended(t, w) else Hidden)
  {
    RunsKeepInvariant(states, steps, n);
    var t := states[n];
    forall w | w in t.m.info && !t.IsDecoration(w)
      ensures t.m.info[w].state == if (t.active, w) in t.m.pairs then Intended(t, w) else Hidden
    {
      StateByWorkspace(t, w);
    }
  }

  // ----- the last state asked for

  ghost predicate PresentThroughout(states: seq<Titlebar>, i: nat, j: nat, w: Window)
    requires i <= j < |states|
  {
    forall k :: i <= k <= j ==> w in states[k].m.info
  }

  /** The last state asked for w between two states of a run, or else a given one. */
  function LastAsked(
      states: seq<Titlebar>, steps: seq<Step>, i: nat, j: nat, w: Window, otherwise: WindowState): WindowState
    requires i <= j < |states| == |steps| + 1
  {
    if i == j then otherwise
    else
      var asked := Asked(states[j - 1], steps[j - 1]);
      if asked.Some? && asked.value.0 == w then asked.value.1 else LastAsked(states, steps, i, j - 1, w, otherwise)
  }

  ghost predicate Follows(t: Titlebar, s: Step, t': Titlebar, w: Window) {
    && w in t.m.info && w in t.data && w in t'.m.info && w in t'.data
    && Intended(t', w) == if Asked(t, s).Some? && Asked(t, s).value.0 == w then Asked(t, s).value.1 else Intended(t, w)
  }

  lemma {:induction false} NextFollows(t: Titlebar, s: Step, t': Titlebar, w: Window)
    requires TitlebarInvariant(t) && Next(t, s, t') && w in t.m.info && w in t'.m.info
    ensures Follows(t, s, t', w)
  {
    StepKeepsInvariant(t, s);
    StepKeepsIntentions(t, s);
  }

  lemma {:induction false} StepFollows(states: seq<Titlebar>, steps: seq<Step>, k: nat, w: Window)
    requires IsRun(states, steps) && k < |steps| && w in states[k].m.info && w in states[k + 1].m.info
    ensures Follows(states[k], steps[k], states[k + 1], w)
  {
    RunsKeepInvariant(states, steps, k);
    NextFollows(states[k], steps[k], states[k + 1], w);
  }

  lemma {:induction false} FollowsThroughout(states: seq<Titlebar>, steps: seq<Step>, i: nat, j: nat, w: Window)
    requires i <= j < |states| == |steps| + 1 && w in states[i].m.info && w in states[i].data
    requires forall k :: i <= k < j ==> Follows(states[k], steps[k], states[k + 1], w)
    ensures w in states[j].m.info && w in states[j].data
    ensures Intended(states[j], w) == LastAsked(states, steps, i, j, w, Intended(states[i], w))
  {
    if i < j {
      FollowsThroughout(states, steps, i, j - 1, w);
      assert Follows(states[j - 1], steps[j - 1], states[j - 1 + 1], w);
    }
  }

  /** Between any two states of a run in which a window is there throughout, the state it is meant to have is the last
      one asked for in between, however often it was hidden and shown, and otherwise the one it was meant to have. */
  lemma {:induction false} RunsKeepIntentions(states: seq<Titlebar>, steps: seq<Step>, i: nat, j: nat, w: Window)
    requires IsRun(states, steps) && i <= j < |states| && PresentThroughout(states, i, j, w)
    ensures w in states[i].data && w in states[j].data
    ensures Intended(states[j], w) == LastAsked(states, steps, i, j, w, Intended(states[i], w))
  {
    RunsKeepInvariant(states, steps, i);
    KnownData(states[i], w);
    forall k | i <= k < j
      ensures Follows(states[k], steps[k], states[k + 1], w)
    {
      StepFollows(states, steps, k, w);
    }
    FollowsThroughout(states, steps, i, j, w);
  }

  lemma {:induction false} KnownData(t: Titlebar, w: Window)
    requires TitlebarInvariant(t) && w in t.m.info
    ensures w in t.data
  {
  }

  /** So at any time of a run a window that is no decoration has the last state asked for if it is in the active
      workspace, and is hidden if not. */
  lemma {:induction false} StateIsLastAsked(states: seq<Titlebar>, steps: seq<Step>, i: nat, j: nat, w: Window)
    requires IsRun(states, steps) && i <= j < |states| && PresentThroughout(states, i, j, w)
    requires !states[j].IsDecoration(w)
    ensures w in states[i].data
    ensures states[j].m.info[w].state ==
            if (states[j].active, w) in states[j].m.pairs
            then LastAsked(states, steps, i, j, w, Intended(states[i], w)) else Hidden
  {
    RunsKeepIntentions(states, steps, i, j, w);
    RunsKeepInvariant(states, steps, j);
    StateByWorkspace(states[j], w);
  }

  // ----- away and back

  /** It moves no window between workspaces and changes no intended state. */
  lemma {:induction false} SwitchedKeeps(t: Titlebar, ws: Workspace)
    requires TitlebarInvariant(t) && ws != t.active
    ensures var t' := Switched(t, ws);
            && t' == SwitchTo(t, ws, None) && t'.m.pairs == t.m.pairs && t'.decorations == t.decorations
            && SameIntentions(t, t') && LinksOf(t'.m.info) == LinksOf(t.m.info)
            && forall x :: x in t.m.info ==> t'.m.info[x].application == t.m.info[x].application
  {
    hide Swap, Prepared, Sound, Invariants, FlaggedAreHidden, Assigned, FlagsRight, DecorationsInactive;
    SwitchKeeps(t, ws, None);
    SwitchMovesNothing(t, ws);
  }

  lemma {:induction false} SwitchMovesNothing(t: Titlebar, ws: Workspace)
    requires TitlebarInvariant(t)
    ensures var t' := SwitchTo(t, ws, None);
            && t'.m.pairs == t.m.pairs && t'.decorations == t.decorations && LinksOf(t'.m.info) == LinksOf(t.m.info)
            && forall x :: x in t.m.info ==> t'.m.info[x].application == t.m.info[x].application
  {
    hide TitlebarInvariant;
  }

  /** Switching to another workspace and back gives every window its state back. */
  lemma {:induction false} AwayAndBack(t: Titlebar, ws: Workspace, w: Window)
    requires TitlebarInvariant(t) && ws != t.active && w in t.m.info && !t.IsDecoration(w)
    ensures Switched(Switched(t, ws), t.active).m.info[w].state == t.m.info[w].state
  {
    hide Switched, SwitchTo;
    var t1 := Switched(t, ws);
    var t2 := Switched(t1, t.active);
    SwitchedKeeps(t, ws);
    SwitchedKeeps(t1, t.active);
    StateByWorkspace(t, w);
    StateByWorkspace(t2, w);
  }

  /** A state a client asks for while its window is hidden away is the one it has when its workspace is back, whether
      modify_window refuses the request or not. */
  lemma {:induction false} AskedMeanwhile(t: Titlebar, ws: Workspace, w: Window, request: Modifications)
    requires TitlebarInvariant(t) && ws != t.active && w in t.m.info && !t.IsDecoration(w) && (ws, w) in t.m.pairs
    requires Enabled(t, Ask(w, request)) && ClientMay(t.m.info, w, request) && request.state.Some?
    ensures var t1 := After(t, Ask(w, request));
            && TitlebarInvariant(t1) && t1.active == t.active && w in t1.m.info
            && Switched(t1, ws).m.info[w].state == request.state.value
  {
    hide Switched, SwitchTo, Enabled, After, Invariants, Acceptable, ClientMay, WellLinked, FlaggedAreHidden, Assigned;
    hide FlagsRight, DecorationsInactive;
    OutOfSight(t, ws, w);
    AskKeeps(t, w, request);
    AskedWhere(t, w, request);
    BackAsAsked(After(t, Ask(w, request)), ws, w);
  }

  lemma {:induction false} OutOfSight(t: Titlebar, ws: Workspace, w: Window)
    requires TitlebarInvariant(t) && ws != t.active && w in t.m.info && !t.IsDecoration(w) && (ws, w) in t.m.pairs
    ensures t.data[w].inHiddenWorkspace && t.m.info[w].state.Hidden?
  {
    assert InOneWorkspace(t.m.pairs, w);
  }

  lemma {:induction false} BackAsAsked(t: Titlebar, ws: Workspace, w: Window)
    requires TitlebarInvariant(t) && ws != t.active && w in t.m.info && !t.IsDecoration(w) && (ws, w) in t.m.pairs
    ensures w in t.data && Switched(t, ws).m.info[w].state == Intended(t, w)
  {
    hide Switched, SwitchTo;
    SwitchedKeeps(t, ws);
    StateByWorkspace(Switched(t, ws), w);
  }

  lemma {:induction false} AskedWhere(t: Titlebar, w: Window, request: Modifications)
    requires TitlebarInvariant(t) && Enabled(t, Ask(w, request))
    ensures var t' := After(t, Ask(w, request));
            && t'.m.pairs == t.m.pairs && t'.active == t.active && t'.decorations == t.decorations
            && t'.m.info.Keys == t.m.info.Keys
            && forall x :: x in t.m.info ==> t'.m.info[x].application == t.m.info[x].application
  {
    if ClientMay(t.m.info, w, request) {
      RequestHarmless(t, w, request);
      var mods := PlaceAndSizeForState(request, t.m.info[w], t.displays);
      HandledInvariants(t, w, mods);
      HandledIntentions(t, w, mods);
    }
  }

  // ----- refused requests

  /** Of the requests that pass validation modify_window refuses exactly those that name a parent there is not, or is
      no more. */
  lemma {:induction false} PassedButRefused(info: Windows, w: Window, request: Modifications)
    requires w in info && ClientMay(info, w, request)
    ensures !Acceptable(info, w, request) <==> request.parent.Some? && request.parent.value !in info
  {
    R.ClientKeepsType(info[w].kind, NewKind(info[w], request));
  }

  /** A request that is refused changes nothing but what is remembered of its window, and the state that is meant to
      have exactly if validation lets it pass, the window is hidden away, and another state is asked for. */
  lemma {:induction false} RefusedYetRemembered(t: Titlebar, w: Window, request: Modifications)
    requires TitlebarInvariant(t) && w in t.m.info && !R.Granted(t.m, w, request)
    ensures Enabled(t, Ask(w, request)) && w in t.data
    ensures var t' := After(t, Ask(w, request));
            && t' == t.(data := t'.data) && w in t'.data
            && t'.data == t.data[w := t.data[w].(oldState := t'.data[w].oldState)]
            && (Intended(t', w) != Intended(t, w) <==>
                  && ClientMay(t.m.info, w, request) && t.data[w].inHiddenWorkspace
                  && request.state.Some? && request.state.value != t.data[w].oldState)
  {
    hide Invariants, FlaggedAreHidden, Assigned, FlagsRight, DecorationsInactive, ModifyWindow, WellLinked, LinksOf;
    hide NewWindowIn, WindowReady, Select, Remove, Toggle, SwitchTo, ActiveWindow;
    var t1 := After(t, Ask(w, request));
    assert t1.data == t.data[w := t1.data[w]];
  }

  /** A window that is normally restored, hidden away, and asks to be maximized and for a parent that is gone, is
      refused that, and is maximized when its workspace is back. */
  lemma {:induction false} RefusedYetShown(t: Titlebar, ws: Workspace, w: Window, gone: Window)
    requires TitlebarInvariant(t) && ws != t.active && w in t.m.info && !t.IsDecoration(w) && (ws, w) in t.m.pairs
    requires t.m.info[w].kind.Normal? && Intended(t, w).Restored? && gone !in t.m.info
    ensures var s := Ask(w, NO_CHANGE.(parent := Some(gone), state := Some(Maximized)));
            && Enabled(t, s) && !R.Granted(t.m, w, s.request)
            && TitlebarInvariant(After(t, s)) && After(t, s).m == t.m && After(t, s).active == t.active
            && Switched(t, ws).m.info[w].state.Restored? && Switched(After(t, s), ws).m.info[w].state.Maximized?
  {
    hide Switched, SwitchTo, After, Invariants, FlaggedAreHidden, Assigned, FlagsRight, DecorationsInactive;
    hide WellLinked, LinksOf;
    var request := NO_CHANGE.(parent := Some(gone), state := Some(Maximized));
    BackAsAsked(t, ws, w);
    RefusedYetRemembered(t, w, request);
    AskedMeanwhile(t, ws, w, request);
  }
}
