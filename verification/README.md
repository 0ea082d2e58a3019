# Verification of MirAL's window management logic

MirAL is a library for writing window managers on top of Mir. Its logic is state and integer geometry: a forest of
windows, a most-recently-used list that decides which window is active, a stacking order, workspaces, a window state
with a rectangle to go back to, and policies that keep their own records consistent with all that. This project models
that logic in Dafny and proves what it keeps, over every run where that is the point.

## How it is laid out

- `Sequences.dfy`, `Geometry.dfy`: vectors that are erased from and pushed to; points, sizes and rectangles.
- `Forest.dfy`: the parent and child links alone, the preorder walk, and the three changes of the links.
- `ZOrder.dfy`: the stacking order and `raise_tree`.
- `WindowStates.dfy`, `WindowModel.dfy`: the states of a window; the state of `BasicWindowManager` as one value
  (`Model`) and what each operation does to it.
- `MRUList.dfy`, `BasicWindowManagement.dfy`: the classes, working on their fields step by step. Each method is
  proved to do what the function of the same name says, including that the recursion over the forest ends.
- `FocusSelection.dfy`, `FocusInvariance.dfy`, `FocusInWorkspace.dfy`: which window gets the focus, that the active
  window and the focus controller agree, and that the focus stays in a workspace.
- `WorkspaceMembership.dfy`, `WorkspaceDeath.dfy`: whole trees share their workspaces; workspaces that die while other
  threads work.
- `RestoreRectangle.dfy`, `ModifiedPlaces.dfy`: the rectangle a window is restored to; what `modify_window`
  accepts, what it leaves of a window's attributes, and where it puts the window.
- `Runs.dfy`: every run of the window manager.
- `TitlebarModel.dfy`, `TitlebarSwitching.dfy`, `TitlebarRuns.dfy`, `TitlebarFocus.dfy`, `TitlebarReturn.dfy`,
  `TitlebarPlaces.dfy`, `TitlebarPolicy.dfy`: switching workspaces in the titlebar policy, on top of the window manager,
  over every run of both; how the focus comes back and where the windows are then; and the policy's class.
- `ConstrainResizing.dfy`, `Placement.dfy`, `Tiling.dfy`: the arithmetic of sizes, positions and tiles.
- `ActiveOutputs.dfy`, `LiveDisplays.dfy`: display configurations as notices to listeners, and one listener.
- `Xcursor.dfy`: choosing the images of a cursor.

`dafny verify dfyconfig.toml` checks everything.

## What the model takes from its environment

A window is a number; its Mir surface is a rectangle, a state, whether it is shown and whether it has posted a buffer,
and it is visible when it is shown and has. The focus controller is the window that has the focus and the stacking
order, bottom to top; raising a set of windows moves it to the top in its relative order, as
`include/miral/window_management_policy.h:168-174` promises, and destroying the focused surface clears the focus. The
policy under `BasicWindowManager` is the canonical one. The area of the displays and the place the display layout gives
a fullscreen window are parameters, and so is the active display in the placement of windows. Notices that a policy may
ignore are left out, except where a policy modelled here acts on them.

`CollectTree` stands for the recursive `add_children` closures, `Search` for the closures handed to
`MRUWindowList::enumerate`. An exception from `modify_window` is an `accepted` result of `false`, with
nothing of the window manager's changed; what the titlebar policy has remembered by then stays.

## What does not hold, and when it does

- Selecting the null window takes the focus away but leaves the MRU list as it is, so the two then disagree exactly if
  a window was active (`SelectNull`). `set_state` does so only where no window of the list remains visible.
- `modify_window` does not check that a new parent is not the window itself or one below it; the links stay a forest
  exactly if it is not (`ReparentKeepsForest`). It does not move windows between workspaces either, so trees stay
  together exactly if the new parent is in the window's workspaces already (`ReparentKeepsTogether`,
  `StepKeepsWorkspaces`).
- The titlebar policy remembers the state asked for of a window that is hidden away before the window manager can refuse
  the request. A refused request changes the state the window is meant to have exactly if validation lets it pass, the
  window is hidden away, and another state is asked for (`RefusedYetRemembered`); those that pass and are refused are
  the ones that name a parent there is not (`PassedButRefused`). `RefusedYetShown` is an example for every such window.
- Hiding a window overwrites the rectangle it is restored to unless it is where it would be restored
  (`RestoreRectKept`, with `HiddenWhileMaximized` as the example). So hiding a window for its workspace and showing it
  again keeps its rectangle exactly if it is where its state puts it, and then the place to restore it to exactly if it
  is there already (`HiddenAndBack`, `HiddenAndShown`). A switch of workspaces moves no window if all are where their
  states put them, but a maximized window has no other place to go back to afterwards (`AwayAndBackPlaces`).
  A request to a window that is hidden away moves it at once, and where that leaves it is the place to restore it to: a
  state alone keeps the former one exactly if the window is already where that state puts it (`AskedOutOfSight`).
- Under the focus invariant `modify_window` breaks it exactly if it gives a window of the MRU list a type that cannot
  have the focus (`ModifyWindowFocus`); clients cannot (`ClientKeepsType`), the shell can.
- `can_morph_to` (`miral/window_info.cpp:167-207`) allows changes of type that `validate_modification_request` refuses
  to clients: its cases fall through (`ClientKeepsType`).
- `constrain_resize` adds the change of size to a dragged near edge where it would have to subtract it; the far edge
  is where it was asked for exactly if the size is granted as asked (`ConstrainResize`). Without aspect ratios that is
  so exactly if the size is a whole number of increments above the minimum and above the maximum by at most half of one
  (`FarEdgeStays`); with them a size can be granted that its increments do not allow (`GrantedAnyway`).
- Constrained sizes do not always fit an `int`. Rounding to an increment exceeds it exactly if the request brought
  within the limits is rounded up and the next increment does not fit (`AxisOverflows`); the height corrected for a
  maximum aspect ratio does so exactly if it is the height that is corrected and width * ratio height exceeds
  `INT_MAX` * ratio width (`HeightOverflows`), by tens of thousands for ratios that the types can hold
  (`HeightOverflowsFar`). If neither axis is rounded past an `int`, everything else on the way fits its type
  (`ConstrainedFits`).
- The divisions of `constrain_resize` are not guarded. Those of a minimum ratio never divide by zero exactly if it asks
  for no width or has a height (`MinDivides`), those of a maximum ratio exactly if it asks for no height or has a width
  (`MaxDivides`), and the increments must not be zero; with that no request leads to a division by zero
  (`DefinedByLimits`).
- Cutting a window to the display leaves it an area exactly if it had a part on the display: with both resize hints
  `place_relative` returns a rectangle of no or negative size exactly if nothing fits at full size and the plain place
  does not meet the display (`ResizedHasArea`, with `BeyondTheEdge` as the example).
- The tiling policy lays tiles out from the origin, whatever rectangle the displays fill: the tiles are inside it
  exactly if it begins there, give or take the pixel an odd width leaves unused (`InsideDisplays`), and none is on it if
  it begins at or beyond its own width or height (`NoneOnDisplays`).
- A listener that is added late is told nothing of the outputs there are; it is in step after a configuration exactly
  if it already knew those nothing is said about, and none that are neither held nor new (`InStepAfter`).
- The tiling policy keeps its own list of displays from the notices, but equivalent outputs are not announced and all
  outputs that are switched off are equivalent. Its list is right after a configuration exactly if the extents kept
  silently are the same ones, taken together, as before (`ExcessStays`); a rectangle that is on it wrongly stays for
  good (`StaleRectangle`, `StaleForGood`).
- A size of zero also stands for not having found an image yet in `_XcursorFindBestSize`; the choice is right for every
  request exactly if no image entry of size zero is followed by another image (`NearestUnlessZero`).
- A window placed in its tile keeps inside it exactly under the condition in `ConstrainSizeAndPlace`: a position that
  was not asked for is never moved right or down.

## Model

| member | source | states |
|---|---|---|
| `Forest.AddLeafKeepsForest` | miral/basic_window_manager.cpp:129-142 | A new window listed last among its parent's children leaves a forest without dangling links: c's parent is p if and only if c occurs, once, in p's children, and there is no cycle. |
| `Forest.AddLeafBelow` | miral/basic_window_manager.cpp:129-142 | A new window changes no other's ancestors and has exactly its parent's, and itself. |
| `Forest.EraseKeepsForest` | miral/basic_window_manager.cpp:284-293 | Erasing a window, its children becoming roots, leaves a forest without dangling links. |
| `Forest.EraseBelow` | miral/basic_window_manager.cpp:284-293 | Erasing cuts exactly the paths through the erased window. |
| `Forest.EraseLinks` | miral/basic_window_manager.cpp:284-293 | What erasing leaves: no other window has it among its children, and its own have no parent; all else is as it was, order included. |
| `Forest.ReparentKeepsForest` | miral/basic_window_manager.cpp:788-834 | A new parent keeps the links a forest if and only if it is neither the window nor one below it. |
| `Forest.ReparentLinks` | miral/basic_window_manager.cpp:808-834 | A window that is given another parent is taken out of the children of the former one, in their order, and put last among those of the new one. |
| `Forest.PreorderMembers` | miral/basic_window_manager.cpp:725-738 | The walk of a tree lists exactly the window and what is below it. |
| `Forest.PreorderNoDup` | miral/basic_window_manager.cpp:1932-1944 | The walk lists no window twice, which is why no pair is added twice. |
| `Forest.PreorderParentsFirst` | include/miral/window_management_policy.h:168-174 | In every list passed to advise_raise each window comes after its parent, from the root on. |
| `Forest.SiblingsDisjoint` | miral/window_info.cpp:422-430 | The subtrees of two children of a window are disjoint and do not hold the window. |
| `ZOrder.RaiseTreeOrder` | miral/basic_window_manager.cpp:718-742 | The stack raise_tree leaves, bottom to top: what is outside the tree, then for each ancestor from the root down its subtree without the next one's, then the window's own, each block in its former order. |
| `ZOrder.RaiseTreeKeepsWindows` | miral/basic_window_manager.cpp:718-742 | Raising neither loses nor duplicates a window of the stack. |
| `WindowModel.FocusStepDown` | miral/basic_window_manager.cpp:1221-1227 | Going down to a visible dialog makes the lexicographic measure (not yet on a visible dialog, then room below or rank) smaller. |
| `WindowModel.FocusStepUp` | miral/basic_window_manager.cpp:1240-1245 | Going up to the parent, which only happens off a visible dialog, makes the same measure smaller: the search ends on every forest. |
| `FocusSelection.TargetIsFit` | miral/basic_window_manager.cpp:1204-1248 | The window selected is of the hint's tree, visible, of a type that can have the focus, and has no visible dialog among its children. |
| `FocusSelection.NoTarget` | miral/basic_window_manager.cpp:1204-1248 | Nothing is selected for a hint if and only if neither it nor any ancestor is focusable and visible or has a visible dialog. |
| `FocusSelection.TargetPath` | miral/basic_window_manager.cpp:1221-1245 | The selection goes up to the nearest window where it can stop and from there down, each time to the first visible dialog among the children. |
| `FocusSelection.ActiveIsFocused` | miral/mru_window_list.cpp:54-58 | Under the focus invariant active_window() is what the focus controller has focused. |
| `FocusSelection.SelectKeepsFocus` | miral/basic_window_manager.cpp:1219-1247 | Selecting any window keeps the focus invariant, and a window that is returned is the active one. |
| `FocusSelection.SelectedIsOnTop` | miral/canonical_window_manager.cpp:68-71 | After a selection the stack is as raise_tree leaves it, and its topmost window is the selected one or below it. |
| `FocusSelection.SelectNull` | miral/basic_window_manager.cpp:1206-1217 | Selecting the null window keeps the focus invariant if and only if there was no active window. |
| `FocusSelection.ActivateKeepsFocus` | miral/basic_window_manager.cpp:1330-1357 | A search through the MRU list keeps the focus invariant; it fails only if no window it considers is visible, and then changes nothing. |
| `FocusInvariance.FocusIsPassedOn` | miral/basic_window_manager.cpp:1104-1145 | Before the active window is concealed the focus goes to another visible focusable window, or there is no other visible one in the MRU list and nothing has the focus. |
| `FocusInvariance.SetStateKeepsFocus` | miral/basic_window_manager.cpp:1075-1162 | set_state keeps the focus invariant for every window and every state. |
| `FocusInvariance.AddWindowKeepsFocus` | miral/basic_window_manager.cpp:114-169 | add_surface keeps the focus invariant. |
| `RestoreRectangle.NewWindowAsAsked` | miral/basic_window_manager.cpp:114-169 | A new window is what it was asked to be and where it was asked to be, to be restored there, without children and without a buffer; it comes last among the children of its parent, and all else is as it was. |
| `FocusInvariance.WindowReadyKeepsFocus` | miral/canonical_window_manager.cpp:48-54 | So does the first buffer of a window, after which it is selected if its type allows. |
| `FocusInvariance.ReadyIsSelected` | miral/canonical_window_manager.cpp:48-54 | Its first buffer makes a window active if it can be and has no visible dialog; where it leads to another, that one is active, and where to none, nothing else changes. |
| `FocusInvariance.RefocusRestores` | miral/basic_window_manager.cpp:226-278 | After the active window is gone refocus restores the invariant; it finds nothing only if no window of the MRU list is visible. |
| `FocusInvariance.RemoveWindowKeepsFocus` | miral/basic_window_manager.cpp:192-224 | remove_window keeps the focus invariant. |
| `FocusInvariance.ModifyWindowFocus` | miral/basic_window_manager.cpp:761-920 | modify_window keeps the focus invariant if and only if a window of the MRU list is left with a type that can have the focus. |
| `FocusInWorkspace.RemovalStaysInWorkspace` | miral/basic_window_manager.cpp:192-278 | When the active window is removed, the new active window shares a workspace with it if the parent can be selected, and the window was in a workspace, or any visible window of the MRU list shares one. |
| `FocusInWorkspace.RemovalPreference` | miral/basic_window_manager.cpp:226-278 | Which window is active after a removal: the parent's choice, else that of the most recent visible window of the same application in a shared workspace, else of any application there, else of the same application, else of any, else none. |
| `FocusInWorkspace.HidingPreference` | miral/basic_window_manager.cpp:1099-1146 | Which window is active after the active one is concealed: the one it leads to, else that of the most recent other visible window in a shared workspace, else of the most recent other one, else none. |
| `FocusInWorkspace.HidingStaysInWorkspace` | miral/basic_window_manager.cpp:1104-1145 | When the active window is hidden or minimized and a visible window of the MRU list shares a workspace, the new active window does too. |
| `WorkspaceMembership.TreeSharesWorkspaces` | include/miral/window_manager_tools.h:46-49 | Under the workspace invariant two windows with the same root are in the same workspaces. |
| `WorkspaceMembership.AddTreeKeepsWorkspaces` | miral/basic_window_manager.cpp:1919-1964 | add_tree_to_workspace keeps the invariant, no pair twice, parent and child together, and the order, the parent's pair first; exactly the pairs of the tree are added. |
| `WorkspaceMembership.RemoveTreeKeepsWorkspaces` | miral/basic_window_manager.cpp:1966-2010 | So does remove_tree_from_workspace, which removes exactly those pairs. |
| `WorkspaceMembership.DropWorkspaceKeepsWorkspaces` | miral/basic_window_manager.cpp:56-69 | And erasing the pairs of a workspace that has died. |
| `WorkspaceMembership.MoveContentKeepsWorkspaces` | miral/basic_window_manager.cpp:2012-2043 | And moving the content of one workspace to another. |
| `WorkspaceMembership.AddWindowKeepsWorkspaces` | miral/basic_window_manager.cpp:144-145 | A new window keeps it, and joins exactly the workspaces of its parent; nothing else joins anything. |
| `WorkspaceMembership.ForgetKeepsWorkspaces` | miral/basic_window_manager.cpp:205-218 | Removing a window keeps it for the trees that remain. |
| `RestoreRectangle.ChangeStateEffect` | miral/basic_window_manager.cpp:842-914 | What a change of state without explicit geometry does to the window: place_and_size_for_state, the cached rectangle, the placing and set_state come to one record. |
| `RestoreRectangle.RestoreRectKept` | miral/basic_window_manager.cpp:842-892 | A change of state keeps the rectangle to go back to, whatever the displays, if and only if it does not hide a window that is in another state than restored or hidden and away from that rectangle; restoring puts the window there. |
| `RestoreRectangle.RestoreRectKeptThroughout` | miral/basic_window_manager.cpp:960-1056 | The rectangle is the same after any sequence of changes of state other than to hidden, with the displays changing meanwhile. |
| `RestoreRectangle.RoundTrip` | miral/basic_window_manager.cpp:960-1056 | A restored window that goes through any such sequence and ends up restored is exactly where it was. |
| `RestoreRectangle.HiddenWhileMaximized` | miral/basic_window_manager.cpp:847-849 | Maximized, hidden and restored, a window is left on the whole display area: the round trip fails through hidden. |
| `RestoreRectangle.HiddenAndBack` | miral/basic_window_manager.cpp:842-892 | Hidden and given its state back, a window is where it was if and only if it was where its state puts it, and then has the place to go back to if and only if it is there already. |
| `ModifiedPlaces.AcceptedExactly` | miral/basic_window_manager.cpp:786-807 | Which changes modify_window accepts: a known parent, and exactly these changes of type, one to a type without parents only if no parent is asked for, one to a satellite only with a parent. |
| `ModifiedPlaces.ModifiedAsAsked` | miral/basic_window_manager.cpp:763-834 | After modify_window the type, output, parent, state and each limit of the window are the ones asked for if they were, and the former ones if not; of other windows at most links and places change. |
| `ModifiedPlaces.ModifiedWhere` | miral/basic_window_manager.cpp:874-892 | Where that leaves the window: a size asked for wins, then new limits have their say on the present one, then a position alone moves it. |
| `ModifiedPlaces.LimitsTakeEffect` | miral/basic_window_manager.cpp:880-888 | A restored window that is given new limits and no size takes the size the limits it then has make of its own, and stays where it is unless moved. |
| `ModifiedPlaces.AskedWithGeometry` | miral/basic_window_manager.cpp:960-1056 | A client's request for another state, with or without geometry: what the state leaves to the window is as asked for or where it would be restored to, and the rest is the displays'. |
| `ModifiedPlaces.PresentStateAsked` | miral/basic_window_manager.cpp:960-980 | A request for the state the window has does no more than its geometry asks for, except to a fullscreen window that is to be on another output, which is placed anew. |
| `ModifiedPlaces.ModifiedTogether` | miral/basic_window_manager.cpp:744-759 | Through the whole of modify_window the windows that are then below this one keep their sizes and their places relative to it, and all others stay where they are. |
| `ModifiedPlaces.TreeMovesTogether` | miral/basic_window_manager.cpp:744-759 | Moving a tree moves its root by the displacement, and all below it keep their places relative to it; the sizes stay, and so do all other windows. |
| `ModifiedPlaces.ModifiedBeside` | miral/basic_window_manager.cpp:894-909 | A child asked to be beside its parent has, after the whole of modify_window, the first of its candidates there inside the display, in the size it would have had without, and the parent has not moved. |
| `Runs.RunsKeepFocus` | miral/basic_window_manager.cpp:114-293 | In every state of every run of creation, readiness, selection, raising, requests of clients and of the shell, removal and workspace changes, the links are a forest and either no MRU window is visible and nothing has the focus or the last entry is visible and has it. |
| `Runs.RunsKeepTreesTogether` | miral/basic_window_manager.cpp:1919-2043 | In every state of every run in which windows get only parents that are in their workspaces already, with workspaces dying meanwhile, windows of one tree are in the same workspaces and no pair occurs twice. |
| `Runs.StepKeepsWorkspaces` | miral/basic_window_manager.cpp:56-293 | Any step keeps that if and only if it does not give a window a parent that is in other workspaces. |
| `Runs.RunsKeepOrder` | miral/basic_window_manager.cpp:1919-2043 | In every run without reparenting parents also come before their children in each workspace. |
| `Runs.ModifyKeepsTogether` | miral/basic_window_manager.cpp:761-920 | modify_window leaves the pairs alone, so trees stay together if and only if it gives the window no parent that is in other workspaces. |
| `Runs.ReparentKeepsTogether` | miral/basic_window_manager.cpp:821-834 | The same of the links: another parent, or none, keeps trees together if and only if it is none or in the same workspaces as the window. |
| `Runs.ClientKeepsType` | miral/basic_window_manager.cpp:1809-1854 | validate_modification_request lets a requested type through if and only if it is the present one and that is not normal, utility or dialog. |
| `Runs.GrantedExactly` | miral/basic_window_manager.cpp:1805-1892 | Which requests of clients are carried out: exactly those that leave the type alone or name the present one where that passes, name no unknown parent, keep to whether the type has a parent, and ask for no size without area. |
| `MRUList.MRUWindowList.Push` | miral/mru_window_list.cpp:43-47 | The window is the last of the list, once, and the others keep their order. |
| `MRUList.MRUWindowList.Erase` | miral/mru_window_list.cpp:49-52 | The window is gone from the list, and the others keep their order. |
| `MRUList.MRUWindowList.Top` | miral/mru_window_list.cpp:54-58 | The last window of the list that is visible, if any is. |
| `BasicWindowManagement.BasicWindowManager.CollectTree` | miral/basic_window_manager.cpp:725-738 | The recursive collection gives the preorder walk, and ends. |
| `BasicWindowManagement.BasicWindowManager.RaiseTree` | miral/basic_window_manager.cpp:718-742 | The recursion over the parents leaves the stack whose order RaiseTreeOrder gives. |
| `BasicWindowManagement.BasicWindowManager.MoveTree` | miral/basic_window_manager.cpp:744-759 | The window and every descendant move by exactly the displacement and keep their sizes, as the canonical policy has it (miral/canonical_window_manager.cpp:73-77), and no other window is touched; the mutual recursion with place_and_size ends. |
| `BasicWindowManagement.BasicWindowManager.PlaceAndSize` | miral/basic_window_manager.cpp:949-958 | The window has exactly the rectangle asked for, its descendants have moved with its corner, and no other window is touched. |
| `BasicWindowManagement.BasicWindowManager.ActiveWindow` | miral/mru_window_list.cpp:54-58 | The most recently used visible window. |
| `BasicWindowManagement.BasicWindowManager.SelectActiveWindow` | miral/basic_window_manager.cpp:1204-1248 | Selects what Target says, which TargetPath and TargetIsFit pin down, pushing it on the MRU list, focusing and raising it, or changes nothing if there is no target; the recursion up and down ends. |
| `BasicWindowManagement.BasicWindowManager.WorkspacesContaining` | miral/basic_window_manager.cpp:532-547 | The workspaces paired with the window, in order, while all of them live. |
| `BasicWindowManagement.BasicWindowManager.ActivateMostRecent` | miral/basic_window_manager.cpp:1330-1357 | The loop over the MRU list, which selecting changes, selects for the most recent window considered that can be selected, and otherwise changes nothing. |
| `BasicWindowManagement.BasicWindowManager.SetState` | miral/basic_window_manager.cpp:1075-1162 | set_state on the fields, about which SetStateKeepsFocus and ChangeStateEffect are proved. |
| `BasicWindowManagement.BasicWindowManager.PassFocusOn` | miral/basic_window_manager.cpp:1104-1145 | The searches for another active window, about which FocusIsPassedOn is proved. |
| `BasicWindowManagement.BasicWindowManager.Relink` | miral/basic_window_manager.cpp:788-834 | Refuses a change of type or parent if and only if it is not acceptable, and then changes nothing; else links, type and output are as requested. |
| `BasicWindowManagement.BasicWindowManager.NoteRestoreRect` | miral/basic_window_manager.cpp:842-872 | Caches the rectangle restoring would give now, which is the one place_and_size_for_state computes. |
| `BasicWindowManagement.BasicWindowManager.Place` | miral/basic_window_manager.cpp:874-909 | The branches for size, limits and position, and then the place beside the parent, come to what LimitsTakeEffect and ModifiedBeside are proved of. |
| `BasicWindowManagement.BasicWindowManager.ModifyWindow` | miral/basic_window_manager.cpp:761-920 | modify_window on the fields, size limits and placement hints included, of which ModifiedAsAsked, ModifiedWhere and ModifiedBeside are proved; it is refused with nothing changed if and only if the request is not acceptable. |
| `BasicWindowManagement.BasicWindowManager.ModifySurface` | miral/basic_window_manager.cpp:171-182 | A client's request is carried out with the geometry of its state, or refused with nothing changed, exactly if validation or modify_window refuses it. |
| `BasicWindowManagement.BasicWindowManager.AddTreeToWorkspace` | miral/basic_window_manager.cpp:1919-1964 | The whole tree of the window is in the workspace, each new pair after its parent's; answers those not in it before. |
| `BasicWindowManagement.BasicWindowManager.JoinWorkspace` | miral/basic_window_manager.cpp:1946-1960 | Although the range looked through is fixed beforehand, the pairs added are those of the windows not in the workspace. |
| `BasicWindowManagement.BasicWindowManager.RemoveTreeFromWorkspace` | miral/basic_window_manager.cpp:1966-2010 | The pairs of the tree with the workspace are gone, all others in place; answers the windows in the order they had joined. |
| `BasicWindowManagement.BasicWindowManager.MoveWorkspaceContent` | miral/basic_window_manager.cpp:2012-2043 | The content of one workspace is in the other and not in the first, about which MoveContentKeepsWorkspaces is proved. |
| `BasicWindowManagement.BasicWindowManager.WindowsInWorkspace` | miral/basic_window_manager.cpp:2056-2062 | The windows of a workspace in the order they joined. |
| `BasicWindowManagement.BasicWindowManager.AddSurface` | miral/basic_window_manager.cpp:114-169 | add_surface on the fields, about which AddWindowKeepsFocus and AddWindowKeepsWorkspaces are proved. |
| `BasicWindowManagement.BasicWindowManager.Erase` | miral/basic_window_manager.cpp:284-293 | The loop over the children and the parent's list leave exactly the links without the window. |
| `BasicWindowManagement.BasicWindowManager.Refocus` | miral/basic_window_manager.cpp:226-278 | The sequence of attempts, which RemovalPreference sums up. |
| `BasicWindowManagement.BasicWindowManager.RemoveWindow` | miral/basic_window_manager.cpp:192-224 | remove_window on the fields, about which RemoveWindowKeepsFocus is proved. |
| `BasicWindowManagement.BasicWindowManager.HandleWindowReady` | miral/canonical_window_manager.cpp:48-54 | The canonical policy's answer to a first buffer, about which WindowReadyKeepsFocus is proved. |
| `WorkspaceDeath.RunsKeepInvariant` | miral/basic_window_manager.cpp:1894-1910 | In every interleaving of threads every workspace with pairs is live, dying, queued or being drained, a dead one is in one of these places, once, and what a query has found stays owned. |
| `WorkspaceDeath.DrainedBeforeUse` | miral/basic_window_manager.cpp:56-69 | A workspace queued before the lock is taken, or before the queue is, has no pairs once the lock is held, and never has any again. |
| `WorkspaceDeath.QueuedOnce` | miral/basic_window_manager.cpp:1902-1906 | No workspace is queued twice. |
| `WorkspaceDeath.PairedByTheLast` | miral/basic_window_manager.cpp:1940-2040 | As long as a workspace is live, it and a window are a pair if and only if the last step to insert or remove that pair or the window inserted it: no owner, death, drain or query in between loses or invents one. |
| `WorkspaceDeath.NeverPaired` | miral/basic_window_manager.cpp:1940-2040 | Those that no step has put together are no pair, whatever the interleaving. |
| `WorkspaceDeath.QueryDeliversTheLive` | miral/basic_window_manager.cpp:532-547 | A query under the lock delivers only workspaces that are live when it is answered and hold the window, and every such one that was live all the while, whatever other threads drop in between; the pairs do not change under it. |
| `WorkspaceDeath.TriedOnce` | miral/basic_window_manager.cpp:535-545 | From its beginning to its answer it tries each workspace that was paired with the window, and no other, exactly once. |
| `TitlebarModel.HidingKeeps` | miral-shell/titlebar_window_manager.cpp:719-733 | Hiding a window for its workspace keeps the invariants of the window manager and the state every window is meant to have. |
| `TitlebarModel.ShowingKeeps` | miral-shell/titlebar_window_manager.cpp:735-747 | So does showing it again: hiding is undone by showing. |
| `TitlebarModel.HiddenAndShown` | miral-shell/titlebar_window_manager.cpp:719-747 | What that does to the place of the window: it is where it was if and only if it was where its state puts it, and has its restore rectangle if and only if it is there. |
| `TitlebarSwitching.AdvisingKeeps` | miral-shell/titlebar_window_manager.cpp:637-654 | So does showing or hiding all that was added to a workspace. |
| `TitlebarSwitching.StateByWorkspace` | miral-shell/titlebar_window_manager.cpp:719-747 | A window that is no decoration has its intended state if its workspace is the active one and is hidden if not. |
| `TitlebarSwitching.SwitchKeeps` | miral-shell/titlebar_window_manager.cpp:656-717 | Switching workspaces, taking a tree along or not, keeps the whole invariant and the state every window is meant to have. |
| `TitlebarRuns.NewRootKeeps` | miral-shell/titlebar_window_manager.cpp:300-301 | A new root joins the active workspace, and the invariant is kept. |
| `TitlebarRuns.NewChildKeeps` | miral-shell/titlebar_window_manager.cpp:302-306 | A new child joins its parent's workspace and is hidden exactly if that is not the active one, and the invariant is kept. |
| `TitlebarRuns.HandledKeeps` | miral-shell/titlebar_window_manager.cpp:749-759 | A request keeps the invariant, refused or not; a state asked for becomes the intended one of that window if it is hidden away or the request is not refused, and no other's changes. |
| `TitlebarRuns.ActiveNotHidden` | miral-shell/titlebar_window_manager.cpp:517-529 | The active window is never flagged as hidden, so toggling does not fight the policy. |
| `TitlebarRuns.RunsKeepIntentions` | miral-shell/titlebar_window_manager.cpp:637-759 | Between any two states of a run the state a window is meant to have is the last one asked for that took hold, which while it is hidden away one of a refused request does as well, however often it was hidden and shown; and otherwise the one it was meant to have. |
| `TitlebarRuns.RefusedYetRemembered` | miral-shell/titlebar_window_manager.cpp:749-759 | A refused request changes nothing but what is remembered of its window, and the state that is meant to have if and only if validation lets it pass, the window is hidden away and another state is asked for. |
| `TitlebarRuns.PassedButRefused` | miral/basic_window_manager.cpp:787-787 | Of the requests that pass validation exactly those that name a parent there is not are refused. |
| `TitlebarRuns.RefusedYetShown` | miral-shell/titlebar_window_manager.cpp:749-759 | A hidden normal window that is to be restored, and is refused a parent that is gone along with being maximized, is maximized when its workspace is switched to. |
| `TitlebarRuns.RunsKeepTitlebar` | miral-shell/titlebar_window_manager.cpp:637-759 | In every state of every run in which no window gets a parent of another workspace each window is in exactly one workspace and, unless it is a decoration, has its intended state in the active one and is hidden in any other. |
| `TitlebarRuns.StateIsLastAsked` | miral-shell/titlebar_window_manager.cpp:719-759 | So at any time of a run a window that is no decoration has the last state asked for that took hold if its workspace is the active one, and is hidden if not. |
| `TitlebarRuns.AwayAndBack` | miral-shell/titlebar_window_manager.cpp:656-747 | Switching away and back gives every window that is no decoration its state back. |
| `TitlebarRuns.AskedMeanwhile` | miral-shell/titlebar_window_manager.cpp:755-756 | A state a client asks for while its window is hidden away is the one it has when its workspace is switched to, whether modify_window refuses the request or not. |
| `TitlebarPlaces.SwitchStill` | miral-shell/titlebar_window_manager.cpp:656-747 | If every window is where the state it is meant to have puts it, switching workspaces, taking a tree along or not, moves no window at all. |
| `TitlebarPlaces.AwayAndBackPlaces` | miral-shell/titlebar_window_manager.cpp:656-747 | Then after switching away and back every window is where it was, and a window of the workspace can be restored to where it could be before if and only if it was there. |
| `TitlebarPlaces.AskedOutOfSight` | miral-shell/titlebar_window_manager.cpp:749-758 | A window hidden away that is asked for a state alone can, once shown, be restored to where it could before if and only if it was already where that state puts it. |
| `TitlebarPlaces.AskedMeanwhilePlaces` | miral-shell/titlebar_window_manager.cpp:656-759 | After any request to a window that is hidden away, and a switch to its workspace with every window where it is meant to be, it is where the request put it, and keeps the place to restore it to if and only if that did not move it. |
| `TitlebarFocus.ChangeLeavesFocus` | miral/basic_window_manager.cpp:1099-1161 | A change of state of another window than the focused one, whatever the states, leaves the focus where it is. |
| `TitlebarReturn.FocusComesBack` | miral-shell/titlebar_window_manager.cpp:656-717 | Away to any workspace and back, the window that was active is so again if nothing was active there; otherwise the one that selecting it leads to is, because hiding the active window of the other workspace last makes the search meet it first. |
| `TitlebarReturn.LeftNext` | miral-shell/titlebar_window_manager.cpp:696-714 | After a switch to a workspace with a window to activate that one comes last in the MRU list and the former active one right before it. |
| `TitlebarFocus.FocusComesBackAlone` | miral-shell/titlebar_window_manager.cpp:668-715 | After a workspace in which nothing was active the window that was active before is so again, although the windows are shown one after the other and the first shown grabs the focus. |
| `TitlebarPolicy.TitlebarWindowManagerPolicy.ApplyWorkspaceHiddenTo` | miral-shell/titlebar_window_manager.cpp:719-733 | Hides an unflagged window through the window manager and remembers its state; HidingKeeps is proved of it. |
| `TitlebarPolicy.TitlebarWindowManagerPolicy.ApplyWorkspaceVisibleTo` | miral-shell/titlebar_window_manager.cpp:735-747 | Gives a flagged window its remembered state; ShowingKeeps is proved of it. |
| `TitlebarPolicy.TitlebarWindowManagerPolicy.AdviseAddingToWorkspace` | miral-shell/titlebar_window_manager.cpp:637-654 | Shows or hides what was added by whether the workspace is the active one; AdvisingKeeps is proved of it. |
| `TitlebarPolicy.TitlebarWindowManagerPolicy.SwitchWorkspaceTo` | miral-shell/titlebar_window_manager.cpp:656-717 | switch_workspace_to on the fields of the policy and of the window manager, about which SwitchKeeps is proved. |
| `TitlebarPolicy.TitlebarWindowManagerPolicy.HandleModifyWindow` | miral-shell/titlebar_window_manager.cpp:749-759 | handle_modify_window on those fields, in the source's order and for every request, refused ones included; HandledKeeps is proved of it. |
| `TitlebarPolicy.TitlebarWindowManagerPolicy.AddSurface` | miral-shell/titlebar_window_manager.cpp:284-307 | A new window with this policy listening: the window manager adds it, the policy is told of the workspaces it joins and then of the window; NewRootKeeps and NewChildKeeps are proved of exactly this. |
| `TitlebarPolicy.TitlebarWindowManagerPolicy.Toggle` | miral-shell/titlebar_window_manager.cpp:517-529 | toggle on those fields, a step of the runs that RunsKeepTitlebar and RunsKeepIntentions are about. |
| `ConstrainResizing.AxisFits` | miral/window_info.cpp:244-268 | Limits and increment on one axis: a whole number of increments above the minimum, at most half of one from the clamped request and from the maximum upwards, and stable under repetition. |
| `ConstrainResizing.AxisWithinMaximum` | miral/window_info.cpp:244-268 | At most the maximum when a whole number of increments lies between the limits. |
| `ConstrainResizing.IncrementsReached` | miral/window_info.cpp:244-312 | The same for both axes of constrain_resize when no aspect ratio was asked for; constraining the result changes nothing. |
| `ConstrainResizing.MinAspectReached` | miral/window_info.cpp:270-290 | The first correction always reaches the minimum ratio, widening at most to the height, and nothing goes negative. |
| `ConstrainResizing.MaxAspectReached` | miral/window_info.cpp:292-312 | The second always reaches the maximum ratio, and with one pixel less correction would not have. |
| `ConstrainResizing.MinCorrection` | miral/window_info.cpp:275-289 | Of the least correction in width and the least in height that would reach the minimum ratio the one of fewer pixels is made, and the one in height if they are equal. |
| `ConstrainResizing.MaxCorrection` | miral/window_info.cpp:297-311 | So it is for the maximum ratio, the other way round. |
| `ConstrainResizing.AspectsReached` | miral/window_info.cpp:270-312 | Together: the maximum always holds, the minimum if the second correction was not needed and within one pixel if it was, and nothing is negative, for every pair of ratios in order. |
| `ConstrainResizing.ConstrainedAspects` | miral/window_info.cpp:236-312 | So does the size constrain_resize computes for any request, under any limits whose ratios are in order; that it is computed at all is concluded. |
| `ConstrainResizing.NoOverflow` | miral/window_info.cpp:273-279 | For sizes that fit an int and unsigned ratios the products, errors and rounding sums fit a 64-bit long. |
| `ConstrainResizing.CorrectionsFit` | miral/window_info.cpp:281-310 | For such sizes every correction that is converted to DeltaX or DeltaY fits an int, and so does the intermediate size. |
| `ConstrainResizing.AxisOverflows` | miral/window_info.cpp:244-268 | An axis rounded to its increment exceeds an int if and only if what the limits make of the request is rounded up and the next increment does not fit. |
| `ConstrainResizing.HeightOverflows` | miral/window_info.cpp:292-312 | The height corrected last exceeds an int if and only if it is the height that is corrected and the ratio asks for more than an int. |
| `ConstrainResizing.ConstrainedFits` | miral/window_info.cpp:236-312 | For every request: if neither axis is rounded past an int, the errors, rounding sums, corrections and the intermediate size fit their types, and the result fits if and only if the height is not corrected past an int. |
| `ConstrainResizing.MinDivides` | miral/window_info.cpp:281-283 | A minimum ratio leads to no division by zero, whatever the size, if and only if it asks for no width or has a height. |
| `ConstrainResizing.MaxDivides` | miral/window_info.cpp:303-305 | A maximum ratio leads to none if and only if it asks for no height or has a width. |
| `ConstrainResizing.DefinedByLimits` | miral/window_info.cpp:244-312 | Limits that pass these conditions, with increments of at least one, lead to none for any request. |
| `ConstrainResizing.AnyAspect` | miral/window_info.cpp:82-83 | The default aspect limits change nothing. |
| `ConstrainResizing.ConstrainResize` | miral/window_info.cpp:236-352 | The size is the constrained one on the axes the state leaves free, and the window's own place and size stay on the others, or there is a division by zero; a dragged near edge moves on by the change of size, and the far edge is as requested if and only if the size is granted. |
| `ConstrainResizing.AxisGrants` | miral/window_info.cpp:244-268 | An axis is granted as asked if and only if it is a whole number of increments above the minimum, and above the maximum by at most half of one. |
| `ConstrainResizing.FarEdgeStays` | miral/window_info.cpp:236-352 | So without aspect ratios a dragged near edge leaves the far edge where it was asked for if and only if the limits grant that axis. |
| `ConstrainResizing.GrantedWithAspects` | miral/window_info.cpp:244-312 | With aspect ratios a size is granted if the limits grant both axes and it has both ratios, and only if it has the maximum one. |
| `Placement.AnchorIsThere` | miral/basic_window_manager.cpp:1589-1626 | The point a gravity stands for: at the left, the right or the middle of the rectangle, and at its top, bottom or middle. |
| `Placement.PlainThere` | miral/basic_window_manager.cpp:1664-1700 | The plain place puts the window's point on that of the rectangle asked for, which is relative to the parent, plus the offset, brought within the parent. |
| `Placement.FlipsMirror` | miral/basic_window_manager.cpp:1482-1570 | One flip exchanges left and right and keeps the height, the other top and bottom and keeps the side; the antipode is both. |
| `Placement.Flips` | miral/basic_window_manager.cpp:1482-1570 | Flips and antipodes are their own inverses, and the order of two flips does not matter. |
| `Placement.PlaceRelative` | miral/basic_window_manager.cpp:1664-1803 | The result is the first of the candidates, in their fixed order, inside the display, or the first one unadjusted if none is. |
| `Placement.TriedInOrder` | miral/basic_window_manager.cpp:1687-1802 | Which that is, attempt by attempt: as asked for, flipped sideways, flipped up or down, both, then the same for the antipode, then slid, then cut, each for both gravities, as far as the hints allow. |
| `Placement.FirstFitUnique` | miral/basic_window_manager.cpp:1687-1802 | There is only one such result. |
| `Placement.SlidesAlong` | miral/basic_window_manager.cpp:1728-1757 | Sliding along an axis moves the window along that axis alone, to the nearest place within the display. |
| `Placement.SlidingKeepsSize` | miral/basic_window_manager.cpp:1728-1757 | With both slide hints and a size no larger than the display, the window is inside the display at its full size, for every anchor, gravity and offset. |
| `Placement.CutAlong` | miral/basic_window_manager.cpp:1759-1800 | Cutting along an axis leaves the part within the display along that axis alone. |
| `Placement.CutToDisplay` | miral/basic_window_manager.cpp:1759-1800 | A rectangle cut on both axes does not reach over the display's edges; it is the part that was on the display, and has an area if and only if there was one. |
| `Placement.ResizingCrops` | miral/basic_window_manager.cpp:1759-1800 | With both resize hints, and any others, and no candidate that fits at full size, the result is the plain place cut to the display, whatever the antipode. |
| `Placement.ResizedHasArea` | miral/basic_window_manager.cpp:1664-1803 | With both resize hints the result has an area if and only if a candidate fits at full size or the plain place has a part on the display. |
| `Placement.OnlyResizing` | miral/basic_window_manager.cpp:1759-1800 | With the resize hints alone the result is the plain place cut to the display, which is their intersection if they meet. |
| `Placement.OffDisplay` | miral/basic_window_manager.cpp:1802-1802 | The result reaches over an edge of the display if and only if every candidate does, and then is the plain one; it has another than the full size only if nothing fits at full size and there is a resize hint. |
| `Placement.AnchorOnParent` | miral/basic_window_manager.cpp:1572-1587 | The anchor is the point of the parent nearest to the one asked for. |
| `ActiveOutputs.EquivalentIsEquivalence` | miral/output.cpp:104-118 | equivalent_display_area is reflexive, symmetric and transitive, outputs out of use included. |
| `ActiveOutputs.ActiveOutputsMonitor.ConfigurationApplied` | miral/active_outputs.cpp:187-235 | The monitor holds the connected valid outputs, and every listener has been told begin, what is new or different in order, what is gone, end. |
| `ActiveOutputs.ToldExactly` | miral/active_outputs.cpp:193-234 | An update is told exactly of an output that was there and of which one of seven fields differs, both being in use, or its being in use does; a creation exactly of one that was not there; a deletion exactly of one that is no more. |
| `ActiveOutputs.ToldInOrder` | miral/active_outputs.cpp:189-234 | Begin is told first and end last; between them what is new or different in the order of the configuration, and then what is gone in the order it was held. |
| `ActiveOutputs.ListenerHears` | miral/active_outputs.cpp:193-234 | A listener hears exactly the notices of a configuration, in order, each as often as it is registered. |
| `ActiveOutputs.HearsWhatIsDue` | miral/active_outputs.cpp:93-106 | Over any sequence of add_listener, delete_listener and configurations a listener hears of each configuration the difference from the last one, as often as it was added since it was last deleted, and nothing else. |
| `ActiveOutputs.HeldAsItIs` | miral/output.cpp:104-118 | A listener in step holds each output in use with exactly its extents, form factor, orientation, pixel format, physical size, scale and type, and the others as out of use. |
| `ActiveOutputs.InStepAfter` | miral/active_outputs.cpp:187-235 | Whatever a listener knew, after a configuration it is in step with the monitor if and only if it knew the outputs nothing is said about and none that the monitor neither had nor has. |
| `ActiveOutputs.FollowerStaysInStep` | miral/active_outputs.cpp:93-235 | A listener in step at some time of a run stays in step with the monitor's outputs by following what it is told, whoever else comes and goes, as long as no configuration has two outputs of one identity. |
| `ActiveOutputs.ListenerMirrors` | miral/active_outputs.cpp:187-235 | For any sequence of configurations without two outputs of one identity, a listener that follows the notices from nothing holds the monitor's outputs, each up to equivalent_display_area. |
| `LiveDisplays.ExcessStays` | miral-shell/tiling_window_manager.cpp:648-669 | The tiling policy's displays, if they are the outputs' extents and an excess before a configuration, are so after it, with the same excess, if and only if the extents of the unannounced outputs are together what they were. |
| `LiveDisplays.LiveDisplaysFollow` | miral-shell/tiling_window_manager.cpp:648-669 | So the displays on the list, right before a configuration, are right after it under exactly that condition. |
| `LiveDisplays.OnlyWhileOff` | miral-shell/tiling_window_manager.cpp:648-669 | The condition holds as long as no output changes its extents while it is out of use. |
| `LiveDisplays.StaleRectangle` | miral-shell/tiling_window_manager.cpp:654-663 | An output switched off, given another mode and switched on again leaves its first extents on the policy's list beside the present ones. |
| `LiveDisplays.StaleForGood` | miral-shell/tiling_window_manager.cpp:654-669 | They stay there through any configurations that change no other extents silently. |
| `Tiling.TilingWindowManagerPolicy.Push` | miral-shell/tiling_window_manager.cpp:54-58 | The tile is last in the MRU list, where every tile occurs once. |
| `Tiling.TilingWindowManagerPolicy.Erase` | miral-shell/tiling_window_manager.cpp:60-63 | The tile is gone from the list, where every other still occurs once. |
| `Tiling.TilingWindowManagerPolicy.UpdateTiles` | miral-shell/tiling_window_manager.cpp:460-509 | Each tile has been given its share, the most recently used first, and keeps the rectangle it had as its former one; nothing happens without tiles or displays. |
| `Tiling.TiledOnce` | miral-shell/tiling_window_manager.cpp:475-509 | The tile at each place of the list has the rectangle of that place, whatever the others were given. |
| `Tiling.FewTilesPartition` | miral-shell/tiling_window_manager.cpp:473-486 | One or two tiles divide the width exactly, in halves but for an odd pixel, at full height. |
| `Tiling.InsideDisplays` | miral-shell/tiling_window_manager.cpp:466-505 | The tiles are inside the displays' bounding rectangle if and only if that begins at the origin, three or more also if it begins one pixel to the left of it and the width is odd. |
| `Tiling.NoneOnDisplays` | miral-shell/tiling_window_manager.cpp:466-505 | No tile is on displays that begin at or beyond their own width or height. |
| `Tiling.ManyTilesDisjoint` | miral-shell/tiling_window_manager.cpp:488-509 | They share no point. |
| `Tiling.ManyTilesFill` | miral-shell/tiling_window_manager.cpp:488-509 | The first is as wide as the others, which are all of one size; they leave unused at most one column of pixels and at most one row under each right-hand tile. |
| `Tiling.ConstrainSizeAndPlace` | miral-shell/tiling_window_manager.cpp:200-230 | The size is cut to the tile, the position moved off its edges; the window ends up inside the tile if and only if its size was given or fits and its position was given or is not beyond the near edges; a position is set exactly if it changes. |
| `Xcursor.FindBestSize` | miral/xcursor.c:398-426 | Unless an image of size zero is followed by another, the size of an image nearest to the request and the exact number of images of that size. |
| `Xcursor.NearestUnlessZero` | miral/xcursor.c:411-423 | The choice is right for every request if and only if no image entry of size zero is followed by another image. |
| `Xcursor.NotTooMany` | miral/xcursor.c:411-423 | Whatever the table, there are at least as many entries of the size as were counted. |
| `Xcursor.FindImageToc` | miral/xcursor.c:428-453 | The count-th image entry of the size, or -1 if there are not that many. |
| `Xcursor.EntriesAreAll` | miral/xcursor.c:439-449 | The entries counted are exactly the image entries of the size. |
| `Xcursor.EntriesIncrease` | miral/xcursor.c:439-449 | They are found in strictly increasing order. |
| `Xcursor.LoadImages` | miral/xcursor.c:513-558 | Every index below the count is found; the result is the images of those entries in order, and there is one if and only if the size is not negative, a size was found and all of them can be read. |

## Left out

- `focus_next_application` (`miral/basic_window_manager.cpp:498-530`) walks Mir's ring of sessions, which is not part
  of this model, so the last resort of `refocus` (`miral/basic_window_manager.cpp:280-281`) is not either; the model
  stops where it would be called. `focus_next_within_application` goes by the per-application lists of windows, which
  are not modelled.
- Runs.RunsKeepFocus: select_active_window with a null window is not a step, because it breaks the invariant
  (SelectNull); a request that would make a window its own ancestor is not one, because the code does not refuse it
  (ReparentKeepsForest); nor is a shell's request that gives a window of the MRU list a type that cannot have the focus,
  after which the list would hold a window that cannot be selected (ModifyWindowFocus).
- TitlebarRuns.RunsKeepTitlebar: no request gives a window a parent of another workspace or makes it its own ancestor,
  which the code does not refuse either; workspaces do not die, as the policy keeps those it begins with
  (`miral-shell/titlebar_window_manager.cpp:62`); decorations have no children and cannot have the focus, and what
  `DecorationProvider` itself does to them is not modelled.
- TitlebarPolicy.TitlebarWindowManagerPolicy.AddSurface: painting the title bars is not modelled; the window manager
  joins all the parent's workspaces before the policy is told of each, which for the one workspace a window has in the
  runs is the same.
- BasicWindowManagement.BasicWindowManager.ModifyWindow: of the attributes of a window the type, parent, output,
  position, size, size limits, placement hints and state are modelled; its name, input shape, orientation, shell chrome,
  cursor confinement and the notice of the relative placement are not. An exception after part of the attributes were
  copied leaves the copy behind, so nothing is changed; one from placement hints without gravity or rectangle is not
  modelled, as a place comes with both. Limits that lead to a division by zero are taken to place nothing.
- BasicWindowManagement.BasicWindowManager.ModifySurface: the same, for the requests of clients.
- BasicWindowManagement.BasicWindowManager.AddSurface: `place_new_surface` (the default position of a new window) and
  the per-application lists of windows are not modelled; the window is given with its specification.
- BasicWindowManagement.BasicWindowManager.WorkspacesContaining: that it passes over workspaces that have died is
  modelled in `WorkspaceDeath.dfy`, where what a query delivers under the lock is proved (QueryDeliversTheLive).
- Adding and removing displays, which places the fullscreen windows anew: an easy member.
- ConstrainResizing.ConstrainResize: integers are unbounded; ConstrainedFits says when the code's `int`, `unsigned` and
  `long` hold the values, AxisOverflows and HeightOverflows when they do not, and what the code then computes is not
  modelled.
- Placement.PlaceRelative: the exception for a value that is no placement gravity; the search for the active display.
- Tiling: integers are unbounded (the code multiplies widths and indexes in an `int`); resizing the windows of an
  application along with its tile uses floating-point factors and is not modelled, and neither are the transformations
  of requested states.
- WorkspaceDeath: what the policy does under the lock is reduced to inserting, removing and querying pairs; a pair is
  inserted only for a workspace the inserting thread owns a reference to, as the operations take shared pointers.
  Memory reclamation of control blocks is not modelled: a workspace's identity is never used again.
- Xcursor: reading and writing bytes, limits on image sizes and memory; which entries can be read is a parameter.
- Event decoding, key bindings, pinch and drag gestures, the throttling of resizes, internal clients, fonts, spinner
  and EGL, process launch, command line options and the tracing wrapper: input, output or thin layers.
- Getters and setters, `WindowSpecification` copying, keymap and list parsing, `active_display`: easy members.
