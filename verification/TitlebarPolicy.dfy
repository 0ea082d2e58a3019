/** miral-shell/titlebar_window_manager.cpp: the policy's methods on its own fields and, through its tools, on those
    of the window manager; each proved to do what the functions of TitlebarModel and TitlebarSwitching say. */
module TitlebarPolicy {
  import opened Sequences
  import opened Forest
  import opened WindowModel
  import opened WindowStates
  import opened BasicWindowManagement
  import opened WorkspaceMembership
  import opened RestoreRectangle
  import opened TitlebarModel
  import S = TitlebarSwitching
  import R = TitlebarRuns

  class TitlebarWindowManagerPolicy {
    const tools: BasicWindowManager
    const decorations: Application
    const displays: Displays

    var policyData: map<Window, PolicyData>
    var activeWorkspace: Workspace
    var workspaceToActive: map<Workspace, Window>

    ghost function State(): Titlebar
      reads this, tools, tools.mruActiveWindows
    {
      Titlebar(tools.State(), policyData, activeWorkspace, workspaceToActive, decorations, displays)
    }

    ghost predicate Valid()
      reads this, tools, tools.mruActiveWindows
    {
      tools.Valid() && Sound(State())
    }

    constructor (tools: BasicWindowManager, decorations: Application, displays: Displays, firstWorkspace: Workspace)
      requires tools.State().info == map[] && tools.State().pairs == [] && tools.Valid()
      ensures this.tools == tools && Valid()
      ensures State() == Titlebar(tools.State(), map[], firstWorkspace, map[], decorations, displays)
    {
      this.tools, this.decorations, this.displays := tools, decorations, displays;
      policyData, activeWorkspace, workspaceToActive := map[], firstWorkspace, map[];
    }

    method IsDecoration(window: Window) returns (decoration: bool)
      requires Valid() && window in tools.windowInfo
      ensures decoration == State().IsDecoration(window)
    {
      decoration := tools.windowInfo[window].application == decorations;
    }

    /** Ask the tools for a state, with the default geometry for it. */
    method ModifyState(window: Window, value: WindowState)
      requires Valid() && window in tools.windowInfo
      modifies tools, tools.mruActiveWindows
      ensures Valid() && tools.State() == ChangeState(old(tools.State()), window, value, displays)
    {
      hide ModifyWindow, WellLinked;
      ghost var before := tools.State();
      OnlyStateIsFine(tools.windowInfo, window, value);
      ChangeStateEffect(before, window, value, displays);
      ChangeStateElsewhere(before, window, value, displays);
      var mods := PlaceAndSizeForState(OnlyState(value), tools.windowInfo[window], displays);
      var accepted := tools.ModifyWindow(window, mods);
    }

    method ApplyWorkspaceHiddenTo(window: Window)
      requires Valid() && window in tools.windowInfo
      modifies this`policyData, tools, tools.mruActiveWindows
      ensures Valid() && State() == ApplyHidden(old(State()), window)
    {
      if !policyData[window].inHiddenWorkspace {
        policyData := policyData[window := PolicyData(true, tools.windowInfo[window].state)];
        ModifyState(window, Hidden);
      }
    }

    method ApplyWorkspaceVisibleTo(window: Window)
      requires Valid() && window in tools.windowInfo
      modifies this`policyData, tools, tools.mruActiveWindows
      ensures Valid() && State() == ApplyVisible(old(State()), window)
    {
      if policyData[window].inHiddenWorkspace {
        policyData := policyData[window := policyData[window].(inHiddenWorkspace := false)];
        ModifyState(window, policyData[window].oldState);
      }
    }

    method AdviseAddingToWorkspace(workspace: Workspace, windows: seq<Window>)
      requires Valid() && forall w :: w in windows ==> w in tools.windowInfo
      modifies this`policyData, tools, tools.mruActiveWindows
      ensures Valid() && State() == S.AdviseAdding(old(State()), workspace, windows)
    {
      hide ApplyVisible, ApplyHidden;
      ghost var before := State();
      for i := 0 to |windows|
        invariant Valid() && State() == S.AdviseAdding(before, workspace, windows[..i])
      {
        assert windows[..i + 1][..i] == windows[..i] && windows[i] in windows;
        if workspace == activeWorkspace {
          ApplyWorkspaceVisibleTo(windows[i]);
        } else {
          ApplyWorkspaceHiddenTo(windows[i]);
        }
      }
      assert windows[..|windows|] == windows;
    }

    /** add_tree_to_workspace with this policy listening. */
    method AddTreeToWorkspace(window: Window, workspace: Workspace)
      requires Valid() && window in tools.windowInfo
      modifies this`policyData, tools, tools.mruActiveWindows
      ensures Valid() && State() == S.JoinWorkspace(old(State()), window, workspace)
    {
      ghost var before := State();
      ghost var joined, newcomers := S.Joined(before, window, workspace), S.Newcomers(before, window, workspace);
      var added := tools.AddTreeToWorkspace(window, workspace);
      assert added == newcomers && State() == joined;
      AdviseAddingToWorkspace(workspace, added);
    }

    method SwitchWorkspaceTo(workspace: Workspace, window: Option<Window>)
      requires Valid() && (window.Some? ==> window.value in tools.windowInfo)
      modifies this, tools, tools.mruActiveWindows
      ensures Valid() && State() == S.SwitchTo(old(State()), workspace, window)
    {
      if workspace == activeWorkspace {
        return;
      }
      var oldActive := activeWorkspace;
      var oldActiveWindow := tools.ActiveWindow();
      Prepare(workspace, window, oldActiveWindow);
      Exchange(oldActive, oldActiveWindow);
    }

    /** Show the window that should get the focus, and take the given tree along. */
    method Prepare(workspace: Workspace, window: Option<Window>, oldActiveWindow: Option<Window>)
      requires Valid() && (window.Some? ==> window.value in tools.windowInfo)
      requires oldActiveWindow == ActiveWindow(tools.State())
      modifies this, tools, tools.mruActiveWindows
      ensures Valid() && State() == S.Prepared(old(State()), workspace, window)
    {
      hide ActiveWindow, ApplyVisible, S.JoinWorkspace, TreeOf, WindowsIn, WellLinked;
      var oldActive := activeWorkspace;
      activeWorkspace := workspace;
      if oldActiveWindow.None? {
        if workspace in workspaceToActive && workspaceToActive[workspace] in tools.windowInfo {
          var containing := tools.WorkspacesContaining(workspaceToActive[workspace]);
          if workspace in Elements(containing) {
            ApplyWorkspaceVisibleTo(workspaceToActive[workspace]);
          }
        }
      }
      assert State() == S.ShowLastActive(old(State()).(active := workspace), workspace);
      if window.Some? {
        var removed := tools.RemoveTreeFromWorkspace(window.value, oldActive);
        AddTreeToWorkspace(window.value, activeWorkspace);
      }
    }

    /** Show the windows of the active workspace and hide those of the old one; the window that was active is hidden
        last, since hiding it moves the focus, and remembered. */
    method Exchange(oldActive: Workspace, oldActiveWindow: Option<Window>)
      requires Valid() && (oldActiveWindow.Some? ==> oldActiveWindow.value in tools.windowInfo)
      modifies this, tools, tools.mruActiveWindows
      ensures Valid() && State() == S.Swap(old(State()), oldActive, oldActiveWindow)
    {
      hide ShowEach, HideEach, ApplyHidden, ContentOf, WellLinked, KnownWindows;
      ghost var before := State();
      S.ContentKnown(before, activeWorkspace);
      S.ContentKnown(before, oldActive);
      var arriving := tools.WindowsInWorkspace(activeWorkspace);
      Show(arriving);
      ghost var shown := State();
      var leaving := tools.WindowsInWorkspace(oldActive);
      Hide(leaving, oldActiveWindow);
      assert State() == S.Exchange(before, oldActive, oldActiveWindow);
      if oldActiveWindow.Some? && oldActiveWindow.value in leaving {
        HideLast(oldActive, oldActiveWindow.value);
      }
    }

    method HideLast(oldActive: Workspace, window: Window)
      requires Valid() && window in tools.windowInfo
      modifies this, tools, tools.mruActiveWindows
      ensures Valid()
      ensures var t := old(State());
              State() == if t.IsDecoration(window) then t
                         else ApplyHidden(t, window).(lastActive := t.lastActive[oldActive := window])
    {
      var decoration := IsDecoration(window);
      if !decoration {
        ApplyWorkspaceHiddenTo(window);
        workspaceToActive := workspaceToActive[oldActive := window];
      }
    }

    method Show(windows: seq<Window>)
      requires Valid() && forall w :: w in windows ==> w in tools.windowInfo
      modifies this`policyData, tools, tools.mruActiveWindows
      ensures Valid() && State() == ShowEach(old(State()), windows)
    {
      hide ApplyVisible;
      ghost var before := State();
      for i := 0 to |windows|
        invariant Valid() && State() == ShowEach(before, windows[..i])
      {
        assert windows[..i + 1][..i] == windows[..i] && windows[i] in windows;
        var decoration := IsDecoration(windows[i]);
        if !decoration {
          ApplyWorkspaceVisibleTo(windows[i]);
        }
      }
      assert windows[..|windows|] == windows;
    }

    method Hide(windows: seq<Window>, spared: Option<Window>)
      requires Valid() && forall w :: w in windows ==> w in tools.windowInfo
      modifies this`policyData, tools, tools.mruActiveWindows
      ensures Valid() && State() == HideEach(old(State()), windows, spared)
    {
      hide ApplyHidden;
      ghost var before := State();
      for i := 0 to |windows|
        invariant Valid() && State() == HideEach(before, windows[..i], spared)
      {
        assert windows[..i + 1][..i] == windows[..i] && windows[i] in windows;
        var decoration := IsDecoration(windows[i]);
        if !decoration && spared != Some(windows[i]) {
          ApplyWorkspaceHiddenTo(windows[i]);
        }
      }
      assert windows[..|windows|] == windows;
    }

    /** The state is remembered before the window manager can refuse the request. */
    method HandleModifyWindow(window: Window, modifications: Modifications) returns (accepted: bool)
      requires Valid() && window in tools.windowInfo
      requires Acceptable(tools.windowInfo, window, modifications) ==>
                 KeepsForest(tools.windowInfo, window, modifications)
      modifies this`policyData, tools, tools.mruActiveWindows
      ensures Valid() && State() == R.HandleModify(old(State()), window, modifications)
      ensures accepted <==> Acceptable(old(tools.windowInfo), window, modifications)
    {
      hide ModifyWindow;
      var mods := modifications;
      ghost var before := State();
      if policyData[window].inHiddenWorkspace && mods.state.Some? {
        policyData := policyData[window := policyData[window].(oldState := mods.state.value)];
        mods := mods.(state := None);
      }
      assert mods == R.LeftToAsk(before.data, window, modifications);
      accepted := tools.ModifyWindow(window, mods);
      R.HandledSound(before, window, modifications);
    }

    /** advise_new_window: a root joins the active workspace, a child of a hidden parent is hidden. */
    method AdviseNewWindow(window: Window)
      requires Valid() && window in tools.windowInfo
      requires tools.windowInfo[window].node.parent.Some? ==> tools.windowInfo[window].node.parent.value in policyData
      modifies this`policyData, tools, tools.mruActiveWindows
      ensures Valid()
      ensures var t := old(State()); var parent := t.m.info[window].node.parent;
              State() == if parent.None? then S.JoinWorkspace(t, window, t.active)
                         else if t.data[parent.value].inHiddenWorkspace then ApplyHidden(t, window) else t
    {
      var parent := tools.windowInfo[window].node.parent;
      if parent.None? {
        AddTreeToWorkspace(window, activeWorkspace);
      } else if policyData[parent.value].inHiddenWorkspace {
        ApplyWorkspaceHiddenTo(window);
      }
    }

    /** add_surface with this policy: the window manager adds the window, the policy hears of each workspace it joins
        because its parent is in it, and then of the window. */
    method AddSurface(window: Window, spec: NewWindow)
      requires Valid() && WorkspaceInvariant(tools.State()) && window !in tools.windowInfo
      requires spec.parent.Some? ==> spec.parent.value in tools.windowInfo
      modifies this, tools, tools.mruActiveWindows
      ensures Valid() && State() == R.NewWindowIn(old(State()), window, spec)
    {
      hide S.JoinWorkspace, ApplyHidden, WellLinked, KnownWindows, S.AdviseAdding, AddWindow;
      ghost var before := State();
      var wss: seq<Workspace> := [];
      if spec.parent.Some? {
        wss := tools.WorkspacesContaining(spec.parent.value);
      }
      Arrive(window, spec);
      ghost var arrived := State();
      AdviseWorkspaces(window, wss);
      R.AdvisedAlone(arrived, window, wss);
      R.NewParentIs(before, window, spec);
      AdviseNewWindow(window);
    }

    /** The window manager's part, and the policy's data for the window. */
    method Arrive(window: Window, spec: NewWindow)
      requires Valid() && WorkspaceInvariant(tools.State()) && window !in tools.windowInfo
      requires spec.parent.Some? ==> spec.parent.value in tools.windowInfo
      modifies this`policyData, tools, tools.mruActiveWindows
      ensures Valid() && State() == R.Arrived(old(State()), window, spec)
    {
      hide AddWindow, WellLinked, KnownWindows;
      ghost var before := State();
      tools.AddSurface(window, spec);
      policyData := policyData[window := PolicyData(false, Unknown)];
      assert State() == R.Arrived(before, window, spec);
    }

    method AdviseWorkspaces(window: Window, wss: seq<Workspace>)
      requires Valid() && window in tools.windowInfo
      modifies this`policyData, tools, tools.mruActiveWindows
      ensures Valid() && State() == R.AdviseEach(old(State()), window, wss)
    {
      hide S.AdviseAdding, WellLinked;
      ghost var before := State();
      for i := 0 to |wss|
        invariant Valid() && State() == R.AdviseEach(before, window, wss[..i])
      {
        assert wss[..i + 1][..i] == wss[..i];
        AdviseAddingToWorkspace(wss[i], [window]);
      }
      assert wss[..|wss|] == wss;
    }

    /** The active window goes to the given state, or back to restored if it has it. */
    method Toggle(state: WindowState)
      requires Valid()
      modifies tools, tools.mruActiveWindows
      ensures Valid()
      ensures ActiveWindow(old(tools.State())).Some? ==> ActiveWindow(old(tools.State())).value in old(tools.windowInfo)
      ensures State() == R.Toggle(old(State()), state)
    {
      hide ChangeState;
      var window := tools.ActiveWindow();
      if window.Some? {
        var value := if tools.windowInfo[window.value].state == state then Restored else state;
        ModifyState(window.value, value);
      }
    }
  }
}
