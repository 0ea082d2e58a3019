/** Switching workspaces: what is hidden, what is shown, and that every window gets its state back. */
module TitlebarSwitching {
  import opened Sequences
  import opened Forest
  import opened WindowModel
  import opened WindowStates
  import opened FocusInvariance
  import opened WorkspaceMembership
  import opened TitlebarModel

  /** advise_adding_to_workspace. */
  ghost function AdviseAdding(t: Titlebar, ws: Workspace, windows: seq<Window>): (r: Titlebar)
    requires Sound(t) && forall w :: w in windows ==> w in t.m.info
    ensures SameWindows(t, r)
  {
    if windows == [] then t
    else
      var t1, w := AdviseAdding(t, ws, windows[..|windows| - 1]), windows[|windows| - 1];
      if ws == t.active then ApplyVisible(t1, w) else ApplyHidden(t1, w)
  }

  lemma {:induction false} AdvisedFlags(t: Titlebar, ws: Workspace, windows: seq<Window>)
    requires Sound(t) && forall w :: w in windows ==> w in t.m.info
    ensures forall x :: x in t.m.info ==>
              (AdviseAdding(t, ws, windows).data[x].inHiddenWorkspace <==>
                 if x in windows then ws != t.active else t.data[x].inHiddenWorkspace)
  {
    if windows != [] {
      AdvisedFlags(t, ws, windows[..|windows| - 1]);
      assert windows == windows[..|windows| - 1] + [windows[|windows| - 1]];
    }
  }

  lemma {:induction false} AdvisingKeeps(t: Titlebar, ws: Workspace, windows: seq<Window>)
    requires Sound(t) && Invariants(t) && FlaggedAreHidden(t) && forall w :: w in windows ==> w in t.m.info
    ensures Kept(t, AdviseAdding(t, ws, windows))
  {
    if windows != [] {
      var t1, w := AdviseAdding(t, ws, windows[..|windows| - 1]), windows[|windows| - 1];
      AdvisingKeeps(t, ws, windows[..|windows| - 1]);
      if ws == t.active {
        ShowingKeeps(t1, w);
        KeptOnwards(t, t1, ApplyVisible(t1, w));
      } else {
        HidingKeeps(t1, w);
        KeptOnwards(t, t1, ApplyHidden(t1, w));
      }
    }
  }

  /** The windows of the tree that are not in the workspace yet. */
  ghost function Newcomers(t: Titlebar, w: Window, ws: Workspace): (r: seq<Window>)
    requires Sound(t) && w in t.m.info
    ensures forall x :: x in r ==> x in t.m.info && Root(LinksOf(t.m.info), x) == Root(LinksOf(t.m.info), w)
  {
    TreeListFits(LinksOf(t.m.info), w);
    Without(TreeOf(t.m.info, w), WindowsIn(t.m.pairs, ws))
  }

  ghost function Joined(t: Titlebar, w: Window, ws: Workspace): (r: Titlebar)
    requires Sound(t) && w in t.m.info
    ensures Sound(r)
  {
    AddedMembers(t.m.pairs, ws, TreeOf(t.m.info, w));
    TreeListFits(LinksOf(t.m.info), w);
    t.(m := AddTree(t.m, w, ws))
  }

  /** add_tree_to_workspace and the policy's answer to it. */
  ghost function JoinWorkspace(t: Titlebar, w: Window, ws: Workspace): (r: Titlebar)
    requires Sound(t) && w in t.m.info
    ensures SameWindows(Joined(t, w, ws), r)
  {
    AdviseAdding(Joined(t, w, ws), ws, Newcomers(t, w, ws))
  }

  /** Take the tree of w from one workspace to another. */
  ghost function Carry(t: Titlebar, w: Window, from: Workspace, to: Workspace): (r: Titlebar)
    requires Sound(t) && w in t.m.info
    ensures Sound(r) && r.m.info.Keys == t.m.info.Keys
  {
    JoinWorkspace(t.(m := RemoveTree(t.m, w, from)), w, to)
  }

  /** If nothing is active, the window last active in the workspace is shown first, so that it gets the focus. */
  ghost function ShowLastActive(t: Titlebar, ws: Workspace): (r: Titlebar)
    requires Sound(t)
    ensures SameWindows(t, r)
  {
    if ActiveWindow(t.m).None? && ws in t.lastActive && t.lastActive[ws] in t.m.info &&
       ws in WorkspacesOf(t.m.pairs, t.lastActive[ws])
    then ApplyVisible(t, t.lastActive[ws]) else t
  }

  lemma {:induction false} ContentKnown(t: Titlebar, ws: Workspace)
    requires Sound(t)
    ensures forall x :: x in ContentOf(t.m.pairs, ws) <==> (ws, x) in t.m.pairs
    ensures forall x :: x in ContentOf(t.m.pairs, ws) ==> x in t.m.info
  {
    ContentMembers(t.m.pairs, ws);
    forall x | x in ContentOf(t.m.pairs, ws)
      ensures x in t.m.info
    {
      assert (ws, x) in t.m.pairs;
    }
  }

  lemma {:induction false} ContentMembers(pairs: Pairs, ws: Workspace)
    ensures forall x :: x in ContentOf(pairs, ws) <==> (ws, x) in pairs
  {
    if pairs != [] {
      var front, last := pairs[..|pairs| - 1], pairs[|pairs| - 1];
      ContentMembers(front, ws);
      assert pairs == front + [last];
      forall x: Window
        ensures x in ContentOf(pairs, ws) <==> (ws, x) in pairs
      {
        assert (ws, x) in pairs <==> (ws, x) in front || (ws, x) == last;
      }
    }
  }

  /** Show what is in the new workspace, hide what is in the old one but for the window that was active. */
  ghost function Exchange(t: Titlebar, from: Workspace, was: Option<Window>): (r: Titlebar)
    requires Sound(t)
    ensures SameWindows(t, r)
  {
    ContentKnown(t, t.active);
    ContentKnown(t, from);
    HideEach(ShowEach(t, ContentOf(t.m.pairs, t.active)), ContentOf(t.m.pairs, from), was)
  }

  /** Then hide that window too, if it is in the old workspace, and remember it. */
  ghost function Swap(t: Titlebar, from: Workspace, was: Option<Window>): (r: Titlebar)
    requires Sound(t) && (was.Some? ==> was.value in t.m.info)
    ensures SameWindows(t, r.(lastActive := t.lastActive))
  {
    var t2 := Exchange(t, from, was);
    if was.Some? && was.value in ContentOf(t.m.pairs, from) && !t.IsDecoration(was.value)
    then ApplyHidden(t2, was.value).(lastActive := t.lastActive[from := was.value]) else t2
  }

  /** Up to the exchange. */
  ghost function Prepared(t: Titlebar, ws: Workspace, taking: Option<Window>): (r: Titlebar)
    requires Sound(t) && (taking.Some? ==> taking.value in t.m.info)
    ensures Sound(r) && r.m.info.Keys == t.m.info.Keys
  {
    var t1 := ShowLastActive(t.(active := ws), ws);
    if taking.Some? then Carry(t1, taking.value, t.active, ws) else t1
  }

  /** switch_workspace_to. */
  ghost function SwitchTo(t: Titlebar, ws: Workspace, taking: Option<Window>): (r: Titlebar)
    requires Sound(t) && (taking.Some? ==> taking.value in t.m.info)
    requires forall w :: w in t.m.mru ==> w in t.m.info
    ensures Sound(r) && r.m.info.Keys == t.m.info.Keys
  {
    if ws == t.active then t
    else
      Swap(Prepared(t, ws, taking), t.active, ActiveWindow(t.m))
  }

  // ----- the invariant

  ghost predicate InOneWorkspace(pairs: Pairs, w: Window) {
    exists ws :: (ws, w) in pairs && forall v :: (v, w) in pairs ==> v == ws
  }

  ghost predicate Assigned(t: Titlebar) {
    forall w :: w in t.m.info ==> InOneWorkspace(t.m.pairs, w)
  }

  /** A window is flagged as hidden exactly when its workspace is not the active one. */
  ghost predicate FlagsRight(t: Titlebar) {
    forall w :: w in t.m.info && w in t.data && !t.IsDecoration(w) ==>
      (t.data[w].inHiddenWorkspace <==> (t.active, w) !in t.m.pairs)
  }

  ghost predicate DecorationsInactive(t: Titlebar) {
    forall w :: w in t.m.info && t.IsDecoration(w) ==> !t.m.info[w].kind.CanBeActive()
  }

  ghost predicate TitlebarInvariant(t: Titlebar) {
    && Sound(t) && Invariants(t) && FlaggedAreHidden(t) && Assigned(t) && FlagsRight(t) && DecorationsInactive(t)
  }

  /** So the workspaces decide what is hidden: a window has the state it is meant to have when its workspace is the
      active one, and is hidden otherwise. */
  lemma {:induction false} StateByWorkspace(t: Titlebar, w: Window)
    requires TitlebarInvariant(t) && w in t.m.info && !t.IsDecoration(w)
    ensures t.m.info[w].state == if (t.active, w) in t.m.pairs then Intended(t, w) else Hidden
  {
  }

  // ----- switching keeps it

  lemma {:induction false} CarriedKeeps(t: Titlebar, w: Window, from: Workspace, to: Workspace)
    requires Sound(t) && Invariants(t) && FlaggedAreHidden(t) && w in t.m.info
    ensures Kept(t, Carry(t, w, from, to))
  {
    var t1 := t.(m := RemoveTree(t.m, w, from));
    LeavingKeeps(t, w, from);
    JoiningKeeps(t1, w, to);
    AdvisingKeeps(Joined(t1, w, to), to, Newcomers(t1, w, to));
    KeptOnwards(t, t1, Joined(t1, w, to));
    KeptOnwards(t, Joined(t1, w, to), Carry(t, w, from, to));
  }

  lemma {:induction false} LeavingKeeps(t: Titlebar, w: Window, ws: Workspace)
    requires Sound(t) && Invariants(t) && FlaggedAreHidden(t) && w in t.m.info
    ensures var t1 := t.(m := RemoveTree(t.m, w, ws)); Sound(t1) && Kept(t, t1)
  {
    RemoveTreeKeepsWorkspaces(t.m, w, ws);
    WorkspacesLeaveFocus(t.m, RemoveTree(t.m, w, ws).pairs);
  }

  lemma {:induction false} JoiningKeeps(t: Titlebar, w: Window, ws: Workspace)
    requires Sound(t) && Invariants(t) && FlaggedAreHidden(t) && w in t.m.info
    ensures Kept(t, Joined(t, w, ws))
  {
    AddTreeKeepsWorkspaces(t.m, w, ws);
    WorkspacesLeaveFocus(t.m, AddTree(t.m, w, ws).pairs);
  }

  ghost predicate OfTree(t: Titlebar, w: Window, x: Window)
    requires Sound(t) && w in t.m.info && x in t.m.info
  {
    Root(LinksOf(t.m.info), x) == Root(LinksOf(t.m.info), w)
  }

  /** The tree of w is taken over and nothing else moves. */
  ghost predicate CarriedOver(t: Titlebar, t': Titlebar, w: Window, from: Workspace, to: Workspace)
    requires Sound(t) && w in t.m.info
  {
    && t'.active == t.active && t'.decorations == t.decorations && t'.lastActive == t.lastActive
    && LinksOf(t'.m.info) == LinksOf(t.m.info) && t'.displays == t.displays
    && t'.m.info.Keys == t.m.info.Keys == t'.data.Keys
    && forall x :: x in t.m.info ==>
         && (forall v :: (v, x) in t'.m.pairs <==>
               ((v, x) in t.m.pairs && !(v == from && OfTree(t, w, x))) || (v == to && OfTree(t, w, x)))
         && (!OfTree(t, w, x) ==> t'.data[x].inHiddenWorkspace == t.data[x].inHiddenWorkspace)
         && t'.m.info[x].application == t.m.info[x].application
  }

  lemma {:induction false} CarriedWhere(t: Titlebar, w: Window, from: Workspace, to: Workspace)
    requires Sound(t) && Invariants(t) && w in t.m.info && from != to && to == t.active
    ensures CarriedOver(t, Carry(t, w, from, to), w, from, to)
  {
    hide RemoveTree, AdviseAdding;
    var t1 := t.(m := RemoveTree(t.m, w, from));
    LeftWhere(t, w, from);
    JoinedWhere(t1, w, to);
    var t2 := Joined(t1, w, to);
    AdvisedFlags(t2, to, Newcomers(t1, w, to));
    CarriedTogether(t, t1, t2, Carry(t, w, from, to), w, from, to);
  }

  lemma {:induction false} LeftWhere(t: Titlebar, w: Window, from: Workspace)
    requires Sound(t) && Invariants(t) && w in t.m.info
    ensures var t1 := t.(m := RemoveTree(t.m, w, from));
            && Sound(t1) && WorkspaceInvariant(t1.m) && t1.m.info == t.m.info
            && forall x: Window, v: Workspace :: x in t.m.info ==>
                 ((v, x) in t1.m.pairs <==> (v, x) in t.m.pairs && !(v == from && OfTree(t, w, x)))
  {
    RemoveTreeKeepsWorkspaces(t.m, w, from);
  }

  lemma {:induction false} JoinedWhere(t: Titlebar, w: Window, to: Workspace)
    requires Sound(t) && WorkspaceInvariant(t.m) && w in t.m.info
    ensures var t2 := Joined(t, w, to);
            && t2 == t.(m := t.m.(pairs := t2.m.pairs))
            && forall x: Window, v: Workspace :: x in t.m.info ==>
                 ((v, x) in t2.m.pairs <==> (v, x) in t.m.pairs || (v == to && OfTree(t, w, x)))
  {
    AddTreeKeepsWorkspaces(t.m, w, to);
  }

  lemma {:induction false} CarriedTogether(t: Titlebar, t1: Titlebar, t2: Titlebar, t3: Titlebar, w: Window,
                                           from: Workspace, to: Workspace)
    requires Sound(t) && Sound(t1) && w in t.m.info && w in t1.m.info && to == t.active
    requires t1 == t.(m := t1.m) && t1.m.info == t.m.info && t2 == t1.(m := t1.m.(pairs := t2.m.pairs))
    requires SameWindows(t2, t3)
    requires forall x: Window, v: Workspace :: x in t.m.info ==>
               ((v, x) in t1.m.pairs <==> (v, x) in t.m.pairs && !(v == from && OfTree(t, w, x)))
    requires forall x: Window, v: Workspace :: x in t.m.info ==>
               ((v, x) in t2.m.pairs <==> (v, x) in t1.m.pairs || (v == to && OfTree(t, w, x)))
    requires forall x :: x in t2.m.info ==>
               (t3.data[x].inHiddenWorkspace <==>
                  if x in Newcomers(t1, w, to) then to != t2.active else t2.data[x].inHiddenWorkspace)
    ensures CarriedOver(t, t3, w, from, to)
  {
    hide WellLinked, KnownWindows, LinksOf;
  }

  lemma {:induction false} ExchangeKeeps(t: Titlebar, from: Workspace, was: Option<Window>)
    requires Sound(t) && Invariants(t) && FlaggedAreHidden(t)
    ensures Kept(t, Exchange(t, from, was))
  {
    ContentKnown(t, t.active);
    ContentKnown(t, from);
    var t1 := ShowEach(t, ContentOf(t.m.pairs, t.active));
    ShowEachKeeps(t, ContentOf(t.m.pairs, t.active));
    HideEachKeeps(t1, ContentOf(t.m.pairs, from), was);
    KeptOnwards(t, t1, Exchange(t, from, was));
  }

  lemma {:induction false} MemoryKept(t: Titlebar, t': Titlebar, lastActive: map<Workspace, Window>)
    requires Kept(t, t')
    ensures Kept(t, t'.(lastActive := lastActive))
  {
  }

  lemma {:induction false} SwappedKeeps(t: Titlebar, from: Workspace, was: Option<Window>)
    requires Sound(t) && Invariants(t) && FlaggedAreHidden(t) && (was.Some? ==> was.value in t.m.info)
    ensures Kept(t, Swap(t, from, was))
  {
    var t2 := Exchange(t, from, was);
    ExchangeKeeps(t, from, was);
    if Swap(t, from, was) != t2 {
      HidingKeeps(t2, was.value);
      KeptOnwards(t, t2, ApplyHidden(t2, was.value));
      MemoryKept(t, ApplyHidden(t2, was.value), t.lastActive[from := was.value]);
    }
  }

  lemma {:induction false} ExchangedFlags(t: Titlebar, from: Workspace, was: Option<Window>)
    requires Sound(t)
    ensures var t' := Exchange(t, from, was);
            forall x :: x in t.m.info && !t.IsDecoration(x) ==>
              (t'.data[x].inHiddenWorkspace <==>
                 (t.data[x].inHiddenWorkspace && (t.active, x) !in t.m.pairs) ||
                 ((from, x) in t.m.pairs && was != Some(x)))
  {
    ContentKnown(t, t.active);
    ContentKnown(t, from);
    ShownFlags(t, ContentOf(t.m.pairs, t.active));
    HiddenFlags(ShowEach(t, ContentOf(t.m.pairs, t.active)), ContentOf(t.m.pairs, from), was);
  }

  lemma {:induction false} SwappedFlags(t: Titlebar, from: Workspace, was: Option<Window>)
    requires Sound(t) && (was.Some? ==> was.value in t.m.info)
    ensures var t' := Swap(t, from, was);
            forall x :: x in t.m.info && !t.IsDecoration(x) ==>
              (t'.data[x].inHiddenWorkspace <==>
                 (t.data[x].inHiddenWorkspace && (t.active, x) !in t.m.pairs) || (from, x) in t.m.pairs)
  {
    ContentKnown(t, from);
    ExchangedFlags(t, from, was);
  }

  lemma {:induction false} ShowingLastActiveKeeps(t: Titlebar, ws: Workspace)
    requires Sound(t) && Invariants(t) && FlaggedAreHidden(t)
    ensures Kept(t, ShowLastActive(t, ws))
  {
    if ShowLastActive(t, ws) != t {
      ShowingKeeps(t, t.lastActive[ws]);
    }
  }

  lemma {:induction false} PreparedKeeps(t: Titlebar, ws: Workspace, taking: Option<Window>)
    requires Sound(t) && Invariants(t) && FlaggedAreHidden(t) && (taking.Some? ==> taking.value in t.m.info)
    ensures Kept(t.(active := ws), Prepared(t, ws, taking))
  {
    var t0 := t.(active := ws);
    var t1 := ShowLastActive(t0, ws);
    ShowingLastActiveKeeps(t0, ws);
    if taking.Some? {
      CarriedKeeps(t1, taking.value, t.active, ws);
      KeptOnwards(t0, t1, Prepared(t, ws, taking));
    }
  }

  lemma {:induction false} ChoiceKept(t: Titlebar, ws: Workspace, t': Titlebar)
    requires Kept(t.(active := ws), t')
    ensures Kept(t, t')
  {
  }

  lemma {:induction false} SwitchKeepsIntentions(t: Titlebar, ws: Workspace, taking: Option<Window>)
    requires Sound(t) && Invariants(t) && FlaggedAreHidden(t) && ws != t.active
    requires taking.Some? ==> taking.value in t.m.info
    ensures Kept(t, SwitchTo(t, ws, taking))
  {
    hide Prepared, Swap;
    var t2 := Prepared(t, ws, taking);
    PreparedKeeps(t, ws, taking);
    ChoiceKept(t, ws, t2);
    SwappedKeeps(t2, t.active, ActiveWindow(t.m));
    KeptOnwards(t, t2, SwitchTo(t, ws, taking));
  }

  /** Switching, with or without taking the tree of a window of the active workspace along, keeps the invariant and
      the state every window is meant to have. */
  lemma {:induction false} SwitchKeeps(t: Titlebar, ws: Workspace, taking: Option<Window>)
    requires TitlebarInvariant(t) && ws != t.active
    requires taking.Some? ==> taking.value in t.m.info && (t.active, taking.value) in t.m.pairs
    ensures TitlebarInvariant(SwitchTo(t, ws, taking)) && SameIntentions(t, SwitchTo(t, ws, taking))
    ensures SwitchTo(t, ws, taking).active == ws
  {
    var t' := SwitchTo(t, ws, taking);
    SwitchKeepsIntentions(t, ws, taking);
    SwitchedFlags(t, ws, taking);
  }

  /** A switch that takes nothing along, from a state in which the invariant holds. */
  ghost function Switched(t: Titlebar, ws: Workspace): (r: Titlebar)
    requires TitlebarInvariant(t) && ws != t.active
    ensures TitlebarInvariant(r) && r.active == ws && r.m.info.Keys == t.m.info.Keys
  {
    SwitchKeeps(t, ws, None);
    SwitchTo(t, ws, None)
  }

  /** Only a window in the workspace is shown. */
  lemma {:induction false} ShownInWorkspace(t: Titlebar, ws: Workspace)
    requires Sound(t)
    ensures forall x :: x in t.data && (ws, x) !in t.m.pairs ==>
              ShowLastActive(t, ws).data[x].inHiddenWorkspace == t.data[x].inHiddenWorkspace
  {
    if ws in t.lastActive {
      InWorkspace(t.m.pairs, ws, t.lastActive[ws]);
    }
  }

  /** A window outside both workspaces was not in the one left and is flagged as it was. */
  ghost predicate OthersStay(t: Titlebar, t2: Titlebar, ws: Workspace) {
    && t2.active == ws && t2.decorations == t.decorations && LinksOf(t2.m.info) == LinksOf(t.m.info)
    && t2.m.info.Keys == t.m.info.Keys == t.data.Keys == t2.data.Keys
    && forall x :: x in t.m.info ==>
         && t2.m.info[x].application == t.m.info[x].application
         && ((ws, x) !in t2.m.pairs && (t.active, x) !in t2.m.pairs ==>
               (t.active, x) !in t.m.pairs && t2.data[x].inHiddenWorkspace == t.data[x].inHiddenWorkspace)
  }

  lemma {:induction false} CarriedPast(t: Titlebar, t1: Titlebar, t2: Titlebar, ws: Workspace, w: Window)
    requires OthersStay(t, t1, ws) && t1.m.pairs == t.m.pairs && Sound(t1) && w in t1.m.info
    requires CarriedOver(t1, t2, w, t.active, ws)
    ensures OthersStay(t, t2, ws)
  {
  }

  /** Before the swap: who is where, and which flags have not changed. */
  lemma {:induction false} SwitchedWhere(t: Titlebar, ws: Workspace, taking: Option<Window>)
    requires TitlebarInvariant(t) && ws != t.active
    requires taking.Some? ==> taking.value in t.m.info && (t.active, taking.value) in t.m.pairs
    ensures OthersStay(t, Prepared(t, ws, taking), ws) && Assigned(Prepared(t, ws, taking))
  {
    hide LinksOf, InOneWorkspace, ActiveWindow, ApplyVisible, JoinWorkspace, WellLinked, KnownWindows;
    hide WorkspaceInvariant, SameIntentions;
    var t0 := t.(active := ws);
    var t1 := ShowLastActive(t0, ws);
    ShownInWorkspace(t0, ws);
    assert OthersStay(t, t1, ws);
    if taking.Some? {
      ShowingLastActiveKeeps(t0, ws);
      CarriedWhere(t1, taking.value, t.active, ws);
      CarriedPast(t, t1, Carry(t1, taking.value, t.active, ws), ws, taking.value);
      CarriedAssigned(t1, taking.value, t.active, ws);
    }
  }

  lemma {:induction false} CarriedAssigned(t: Titlebar, w: Window, from: Workspace, to: Workspace)
    requires Sound(t) && Invariants(t) && Assigned(t) && w in t.m.info && from != to && to == t.active
    requires (from, w) in t.m.pairs
    ensures Assigned(Carry(t, w, from, to))
  {
    var t' := Carry(t, w, from, to);
    CarriedWhere(t, w, from, to);
    forall x | x in t'.m.info
      ensures InOneWorkspace(t'.m.pairs, x)
    {
      var v :| (v, x) in t.m.pairs && forall u :: (u, x) in t.m.pairs ==> u == v;
      if OfTree(t, w, x) {
        TreeSharesWorkspaces(t.m, x, w);
        InWorkspace(t.m.pairs, from, w);
        InWorkspace(t.m.pairs, from, x);
        assert (to, x) in t'.m.pairs;
      } else {
        assert (v, x) in t'.m.pairs;
      }
    }
  }

  lemma {:induction false} SwitchedFlags(t: Titlebar, ws: Workspace, taking: Option<Window>)
    requires TitlebarInvariant(t) && ws != t.active
    requires taking.Some? ==> taking.value in t.m.info && (t.active, taking.value) in t.m.pairs
    ensures var t' := SwitchTo(t, ws, taking);
            FlagsRight(t') && Assigned(t') && t'.active == ws && t'.decorations == t.decorations
  {
    hide Swap, ShowLastActive, Carry;
    var t2 := Prepared(t, ws, taking);
    SwitchedWhere(t, ws, taking);
    SwappedFlags(t2, t.active, ActiveWindow(t.m));
    FlagsAfter(t, t2, SwitchTo(t, ws, taking), ws);
  }

  lemma {:induction false} FlagsAfter(t: Titlebar, t2: Titlebar, t': Titlebar, ws: Workspace)
    requires Sound(t) && FlagsRight(t) && Assigned(t2) && ws != t.active
    requires t'.m.info.Keys == t2.m.info.Keys == t.m.info.Keys && t'.data.Keys == t2.data.Keys == t.data.Keys
    requires t'.m.pairs == t2.m.pairs && t'.active == ws && t'.decorations == t2.decorations == t.decorations
    requires forall x :: x in t.m.info ==>
               && t2.m.info[x].application == t.m.info[x].application == t'.m.info[x].application
               && ((ws, x) !in t2.m.pairs && (t.active, x) !in t2.m.pairs ==>
                     (t.active, x) !in t.m.pairs && t2.data[x].inHiddenWorkspace == t.data[x].inHiddenWorkspace)
    requires forall x :: x in t.m.info && !t2.IsDecoration(x) ==>
               (t'.data[x].inHiddenWorkspace <==>
                  (t2.data[x].inHiddenWorkspace && (ws, x) !in t2.m.pairs) || (t.active, x) in t2.m.pairs)
    ensures FlagsRight(t') && Assigned(t')
  {
    forall x | x in t'.m.info
      ensures InOneWorkspace(t'.m.pairs, x)
      ensures !t'.IsDecoration(x) ==> (t'.data[x].inHiddenWorkspace <==> (ws, x) !in t'.m.pairs)
    {
      assert InOneWorkspace(t2.m.pairs, x);
    }
  }
}
