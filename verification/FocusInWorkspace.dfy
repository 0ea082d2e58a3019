/** Where the focus goes when the active window is removed or concealed: to a window of a shared workspace whenever
    there is one. */
module FocusInWorkspace {
  import opened Sequences
  import opened Forest
  import opened WindowModel
  import opened WindowStates
  import opened FocusSelection
  import opened FocusInvariance
  import opened WorkspaceMembership

  ghost predicate Shares(pairs: Pairs, w: Window, wss: set<Workspace>) {
    WorkspacesOf(pairs, w) * wss != {}
  }

  /** Some visible window other than w that was active once shares a workspace with w. */
  ghost predicate VisibleSharing(m: Model, w: Window) {
    exists x :: x in m.mru && x in m.info && x != w && m.info[x].SurfaceShows() &&
                Shares(m.pairs, x, WorkspacesOf(m.pairs, w))
  }

  /** A search among the windows of some workspaces ends on a window of those workspaces. */
  lemma {:induction false} ActivatedShares(m: Model, s: Search)
    requires WorkspaceInvariant(m) && s.workspaces.Some? && ActivateMostRecent(m, s).1.Some?
    ensures var t := ActivateMostRecent(m, s).1.value; Shares(m.pairs, t, s.workspaces.value)
  {
    var found := LastIn(m.mru, Selectable(m, s));
    TargetIsFit(m.info, found.value);
    TreeSharesWorkspaces(m, Target(m.info, found.value).value, found.value);
  }

  lemma {:induction false} ForgottenWorkspaces(m: Model, w: Window, x: Window)
    requires WorkspaceInvariant(m) && w in m.info && x != w
    ensures WorkspacesOf(Forget(m, w).pairs, x) == WorkspacesOf(m.pairs, x)
  {
    ForgetKeepsWorkspaces(m, w);
    forall ws
      ensures ws in WorkspacesOf(Forget(m, w).pairs, x) <==> ws in WorkspacesOf(m.pairs, x)
    {
      InWorkspace(Forget(m, w).pairs, ws, x);
      InWorkspace(m.pairs, ws, x);
    }
  }

  ghost predicate ParentSelectable(m: Model, w: Window)
    requires WellLinked(m.info) && w in m.info
  {
    WithoutWindowLinks(m.info, w);
    RemovedParent(m, w);
    m.info[w].node.parent.Some? && Target(Forget(m, w).info, m.info[w].node.parent.value).Some?
  }

  lemma {:induction false} ParentsChoiceShares(m: Model, w: Window)
    requires WorkspaceInvariant(m) && w in m.info && ParentSelectable(m, w)
    ensures var p := m.info[w].node.parent.value; var m1 := Forget(m, w);
            && WellLinked(m1.info) && p in m1.info && Target(m1.info, p).value in m1.info
            && WorkspacesOf(m.pairs, Target(m1.info, p).value) == WorkspacesOf(m.pairs, w)
  {
    var p, m1, f := m.info[w].node.parent.value, Forget(m, w), LinksOf(m.info);
    WithoutWindowLinks(m.info, w);
    RemovedParent(m, w);
    ForgetKeepsWorkspaces(m, w);
    TargetIsFit(m1.info, p);
    var t := Target(m1.info, p).value;
    TreeSharesWorkspaces(m1, t, p);
    ForgottenWorkspaces(m, w, t);
    ForgottenWorkspaces(m, w, p);
    ParentRank(f, p, w);
    assert Below(f, p, w);
    RootOfBelow(f, p, w);
    TreeSharesWorkspaces(m, p, w);
  }

  /** When the active window goes, a window that shares a workspace with it becomes active if the search through the
      parent finds one in a workspace, or if any visible window of the MRU list shares a workspace. */
  lemma {:induction false} RemovalStaysInWorkspace(m: Model, w: Window)
    requires FocusInvariant(m) && WorkspaceInvariant(m) && w in m.info && ActiveWindow(m) == Some(w)
    requires (ParentSelectable(m, w) && WorkspacesOf(m.pairs, w) != {}) || VisibleSharing(m, w)
    ensures var active := ActiveWindow(RemoveWindow(m, w));
            active.Some? && active.value != w && Shares(m.pairs, active.value, WorkspacesOf(m.pairs, w))
  {
    hide FocusInvariant, ActiveWindow, ActivateMostRecent, WellLinked, FocusAgrees, SameButFocus, TreesTogether;
    hide Without;
    var m1, info, wss := Forget(m, w), m.info[w], WorkspacesOf(m.pairs, w);
    WithoutWindowLinks(m.info, w);
    RemovedParent(m, w);
    ForgetKeepsFocus(m, w);
    ForgetKeepsWorkspaces(m, w);
    RefocusRestores(m1, info.application, info.node.parent, wss);
    if ParentSelectable(m, w) {
      ParentsChoiceShares(m, w);
    } else {
      var sameBoth, same := Search(Some(info.application), Some(wss), None), Search(None, Some(wss), None);
      AttemptRestores(m1, sameBoth);
      AttemptRestores(m1, same);
      if ActivateMostRecent(m1, sameBoth).1.Some? {
        ActivatedShares(m1, sameBoth);
        ForgottenWorkspaces(m, w, ActivateMostRecent(m1, sameBoth).1.value);
      } else {
        var x :| x in m.mru && x in m.info && x != w && m.info[x].SurfaceShows() && Shares(m.pairs, x, wss);
        ForgottenWorkspaces(m, w, x);
        assert x in m1.mru && Considers(m1, same, x);
        ActivatedShares(m1, same);
        ForgottenWorkspaces(m, w, ActivateMostRecent(m1, same).1.value);
      }
    }
  }

  // ----- the order of preference

  /** The visible windows of the MRU list a search looks at. */
  ghost function Candidates(m: Model, s: Search): set<Window> {
    set w | && w in m.mru && w in m.info && m.info[w].SurfaceShows() && s.except != Some(w)
            && (s.application.Some? ==> m.info[w].application == s.application.value)
            && (s.workspaces.Some? ==> Shares(m.pairs, w, s.workspaces.value))
  }

  /** The most recently used candidate of the first search that has any. */
  ghost function FirstChoice(m: Model, searches: seq<Search>): Option<Window> {
    if searches == [] then None
    else
      var found := LastIn(m.mru, Candidates(m, searches[0]));
      if found.Some? then found else FirstChoice(m, searches[1..])
  }

  /** Same application in a shared workspace, any application there, same application anywhere, anything. */
  function Preferences(application: Application, wss: set<Workspace>): seq<Search> {
    [Search(Some(application), Some(wss), None), Search(None, Some(wss), None),
     Search(Some(application), None, None), Search(None, None, None)]
  }

  lemma {:induction false} AttemptTakesMostRecent(m: Model, s: Search)
    requires WellLinked(m.info) && Synced(m.info) && MruFit(m)
    ensures ActivateMostRecent(m, s) ==
            var found := LastIn(m.mru, Candidates(m, s)); if found.Some? then Select(m, found) else (m, None)
    ensures LastIn(m.mru, Candidates(m, s)).Some? <==> ActivateMostRecent(m, s).1.Some?
  {
    forall w | w in Candidates(m, s)
      ensures w in Selectable(m, s)
    {
      ShownHasTarget(m, w);
    }
    assert Candidates(m, s) == Selectable(m, s);
  }

  /** The nested attempts of refocus come to one choice. */
  lemma {:induction false} RefocusByPreference(
      m: Model, application: Application, parent: Option<Window>, wss: set<Workspace>)
    requires WellLinked(m.info) && Synced(m.info) && MruFit(m) && (parent.Some? ==> parent.value in m.info)
    ensures var choice := if parent.Some? && Target(m.info, parent.value).Some? then parent
                          else FirstChoice(m, Preferences(application, wss));
            && (choice.Some? ==> choice.value in m.info)
            && Refocus(m, application, parent, wss) == if choice.Some? then Select(m, choice) else (m, None)
  {
    var prefs := Preferences(application, wss);
    AttemptTakesMostRecent(m, prefs[0]);
    AttemptTakesMostRecent(m, prefs[1]);
    AttemptTakesMostRecent(m, prefs[2]);
    AttemptTakesMostRecent(m, prefs[3]);
    UnfoldChoice(m, prefs);
  }

  /** Which window is active after a removal: the parent's choice, or else the target of the most recent candidate
      of the first search that has one, or none. */
  lemma {:induction false} RemovalPreference(m: Model, w: Window)
    requires FocusInvariant(m) && w in m.info && ActiveWindow(m) == Some(w)
    ensures WellLinked(Forget(m, w).info)
    ensures var m1 := Forget(m, w);
            var choice := if ParentSelectable(m, w) then m.info[w].node.parent
                          else FirstChoice(m1, Preferences(m.info[w].application, WorkspacesOf(m.pairs, w)));
            ActiveWindow(RemoveWindow(m, w)) ==
            if choice.Some? && choice.value in m1.info then Target(m1.info, choice.value) else None
  {
    var m1, info, wss := Forget(m, w), m.info[w], WorkspacesOf(m.pairs, w);
    WithoutWindowLinks(m.info, w);
    RemovedParent(m, w);
    ForgetKeepsFocus(m, w);
    RefocusRestores(m1, info.application, info.node.parent, wss);
    RefocusByPreference(m1, info.application, info.node.parent, wss);
    ActiveIsFocused(RemoveWindow(m, w));
  }

  lemma {:induction false} UnfoldChoice(m: Model, s: seq<Search>)
    requires |s| == 4
    ensures FirstChoice(m, s) ==
            if LastIn(m.mru, Candidates(m, s[0])).Some? then LastIn(m.mru, Candidates(m, s[0]))
            else if LastIn(m.mru, Candidates(m, s[1])).Some? then LastIn(m.mru, Candidates(m, s[1]))
            else if LastIn(m.mru, Candidates(m, s[2])).Some? then LastIn(m.mru, Candidates(m, s[2]))
            else LastIn(m.mru, Candidates(m, s[3]))
  {
    assert s[1..][1..] == s[2..] && s[2..][1..] == s[3..] && s[3..][1..] == [];
    assert FirstChoice(m, s[3..]) == LastIn(m.mru, Candidates(m, s[3]));
    assert FirstChoice(m, s[2..]) ==
           if LastIn(m.mru, Candidates(m, s[2])).Some? then LastIn(m.mru, Candidates(m, s[2]))
           else FirstChoice(m, s[3..]);
    assert FirstChoice(m, s[1..]) ==
           if LastIn(m.mru, Candidates(m, s[1])).Some? then LastIn(m.mru, Candidates(m, s[1]))
           else FirstChoice(m, s[2..]);
  }

  // ----- hiding

  /** Whatever set_state's searches find when the active window is concealed has the focus afterwards. */
  lemma {:induction false} SuccessorIsActive(m: Model, w: Window, value: WindowState)
    requires FocusInvariant(m) && w in m.info && ActiveWindow(m) == Some(w) && value.Conceals()
    ensures LinksOf(Recorded(m, w, value).info) == LinksOf(m.info) && AboutToConceal(Recorded(m, w, value), w)
    ensures ActiveWindow(SetState(m, w, value)) == Successor(Recorded(m, w, value), w) != Some(w)
  {
    var m1 := Recorded(m, w, value);
    ActiveIsFocused(m);
    RecordedFits(m, w, value);
    assert OthersSynced(m1.info, w);
    FocusIsPassedOn(m1, w);
    SetStateKeepsFocus(m, w, value);
    ActiveIsFocused(SetState(m, w, value));
  }

  lemma {:induction false} AttemptAmongOthers(m: Model, w: Window, s: Search)
    requires AboutToConceal(m, w) && s.except == Some(w)
    ensures var found := LastIn(m.mru, Candidates(m, s));
            && (found.Some? ==> found.value in m.info && Target(m.info, found.value).Some?)
            && ActivateMostRecent(m, s).1 == if found.Some? then Target(m.info, found.value) else None
  {
    forall c | c in Candidates(m, s)
      ensures c in Selectable(m, s)
    {
      ShownHasTarget(m, c);
    }
    assert Candidates(m, s) == Selectable(m, s);
  }

  /** Which window is active after the active one is concealed: the one it leads to, or else the target of the most
      recently used other visible window that shares a workspace, or else of the most recently used other one, or
      none. */
  lemma {:induction false} HidingPreference(m: Model, w: Window, value: WindowState)
    requires FocusInvariant(m) && w in m.info && ActiveWindow(m) == Some(w) && value.Conceals()
    ensures var m1 := Recorded(m, w, value); var wss := WorkspacesOf(m.pairs, w);
            var searches := [Search(None, Some(wss), Some(w)), Search(None, None, Some(w))];
            WellLinked(m1.info) && w in m1.info &&
            var choice := if Target(m1.info, w).Some? then Some(w) else FirstChoice(m1, searches);
            ActiveWindow(SetState(m, w, value)) ==
            if choice.Some? && choice.value in m1.info then Target(m1.info, choice.value) else None
  {
    hide SetState, FocusInvariant, OthersSynced, Candidates, ActivateMostRecent;
    var m1, wss := Recorded(m, w, value), WorkspacesOf(m.pairs, w);
    var near, all := Search(None, Some(wss), Some(w)), Search(None, None, Some(w));
    SuccessorIsActive(m, w, value);
    AttemptAmongOthers(m1, w, near);
    AttemptAmongOthers(m1, w, all);
    assert [near, all][1..] == [all] && [all][1..] == [];
    assert FirstChoice(m1, [all]) == LastIn(m1.mru, Candidates(m1, all));
  }

  lemma {:induction false} SuccessorShares(m: Model, w: Window)
    requires WorkspaceInvariant(m) && AboutToConceal(m, w) && VisibleSharing(m, w)
    ensures Successor(m, w).Some? && Shares(m.pairs, Successor(m, w).value, WorkspacesOf(m.pairs, w))
  {
    var wss := WorkspacesOf(m.pairs, w);
    var x :| x in m.mru && x in m.info && x != w && m.info[x].SurfaceShows() && Shares(m.pairs, x, wss);
    var s := Search(None, Some(wss), Some(w));
    if Target(m.info, w).Some? {
      TargetIsFit(m.info, w);
      TreeSharesWorkspaces(m, Target(m.info, w).value, w);
    } else {
      SearchOthers(m, w, s);
      assert Considers(m, s, x);
      ActivatedShares(m, s);
    }
  }

  lemma {:induction false} RecordedSharing(m: Model, w: Window, value: WindowState)
    requires w in m.info && VisibleSharing(m, w)
    ensures VisibleSharing(Recorded(m, w, value), w)
  {
    var x :| x in m.mru && x in m.info && x != w && m.info[x].SurfaceShows() &&
             Shares(m.pairs, x, WorkspacesOf(m.pairs, w));
    assert Recorded(m, w, value).info[x].SurfaceShows();
  }

  /** When the active window is concealed and a visible window of the MRU list shares a workspace with it, the new
      active window does too. */
  lemma {:induction false} HidingStaysInWorkspace(m: Model, w: Window, value: WindowState)
    requires FocusInvariant(m) && WorkspaceInvariant(m) && w in m.info && ActiveWindow(m) == Some(w)
    requires value.Conceals() && VisibleSharing(m, w)
    ensures var active := ActiveWindow(SetState(m, w, value));
            active.Some? && active.value != w && Shares(m.pairs, active.value, WorkspacesOf(m.pairs, w))
  {
    var m1 := Recorded(m, w, value);
    SuccessorIsActive(m, w, value);
    RecordedSharing(m, w, value);
    SuccessorShares(m1, w);
  }
}
