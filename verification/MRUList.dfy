/** miral/mru_window_list.cpp: the windows in the order they were last active. */
module MRUList {
  import opened Sequences
  import opened Forest
  import opened WindowModel

  class MRUWindowList {
    var windows: seq<Window>

    constructor ()
      ensures windows == []
    {
      windows := [];
    }

    method Push(window: Window)
      modifies this
      ensures windows == Without(old(windows), {window}) + [window]
    {
      Erase(window);
      windows := windows + [window];
    }

    method Erase(window: Window)
      modifies this
      ensures windows == Without(old(windows), {window})
    {
      var kept := [];
      for i := 0 to |windows|
        invariant windows == old(windows)
        invariant kept == Without(windows[..i], {window})
      {
        assert windows[..i + 1][..i] == windows[..i];
        if windows[i] != window {
          kept := kept + [windows[i]];
        }
      }
      assert windows[..|windows|] == windows;
      windows := kept;
    }

    /** The last window of the list that is visible. */
    method Top(info: Windows) returns (top: Option<Window>)
      ensures top == LastIn(windows, VisibleSurfaces(info))
    {
      var i := |windows|;
      assert windows[..i] == windows;
      while i > 0
        invariant 0 <= i <= |windows|
        invariant LastIn(windows, VisibleSurfaces(info)) == LastIn(windows[..i], VisibleSurfaces(info))
      {
        i := i - 1;
        assert windows[..i + 1][..i] == windows[..i];
        if windows[i] in info && info[windows[i]].SurfaceShows() {
          return Some(windows[i]);
        }
      }
      top := None;
    }
  }
}
