/** A session: its windows, the counter that names the next one, and the
    input bytes handed to it. */
module Sessions {
  import opened Wrappers
  import opened Ids
  import opened Grids
  import opened Panes
  import opened Windows
  import Events

  class Session {
    const id: SessionId
    var windows: seq<Window>
    var nextWindowId: nat
    /** The input bytes handed to the session, oldest first. */
    var input: seq<byte>

    /** Windows are numbered in creation order: the window at position `i`
        has local id `i` in this session, and the counter is the number of
        windows. Each window is numbered itself and has a pane. */
    ghost predicate Numbered()
      reads this, windows
    {
      && nextWindowId == |windows|
      && forall i :: 0 <= i < |windows| ==>
           windows[i].id == WindowId(id, i) && windows[i].Valid() && windows[i].panes != []
    }

    /** A session made by `Session::new`: numbered, with a window. */
    ghost predicate Valid()
      reads this, windows
    {
      Numbered() && windows != []
    }

    /** The session before its first window is opened. */
    constructor Empty(id: SessionId)
      ensures this.id == id && windows == [] && nextWindowId == 0 && input == []
      ensures Numbered()
    {
      this.id := id;
      windows := [];
      nextWindowId := 0;
      input := [];
    }

    /** `Session::new`: a session with exactly one window, local id 0, or
        the error from opening its first pane. */
    static method New(id: SessionId, spawnError: Option<Error>) returns (r: Result<Session>)
      ensures r.Ok? <==> spawnError.None?
      ensures spawnError.Some? ==> r == Err(spawnError.value)
      ensures r.Ok? ==> && fresh(r.value) && r.value.Valid() && r.value.id == id && r.value.input == []
                        && |r.value.windows| == 1 && fresh(r.value.windows[0])
                        && r.value.windows[0].panes == [Pane(PaneId(WindowId(id, 0), 0), [])]
    {
      var session := new Session.Empty(id);
      var made := session.NewWindow(spawnError);
      if made.Err? {
        return Err(made.error);
      }
      return Ok(session);
    }

    /** `new_window`: a window named by the counter at the end of the
        windows, and the counter moves on; the existing windows are left as
        they are, and on failure nothing changes. */
    method NewWindow(spawnError: Option<Error>) returns (r: Result<()>)
      requires Numbered()
      modifies this
      ensures Numbered() && input == old(input)
      ensures r.Ok? <==> spawnError.None?
      ensures spawnError.Some? ==> r == Err(spawnError.value) && windows == old(windows)
      ensures r.Ok? ==> && |windows| == |old(windows)| + 1 && windows[..|old(windows)|] == old(windows)
                        && fresh(windows[|old(windows)|])
                        && windows[|old(windows)|].id == WindowId(id, |old(windows)|)
                        && windows[|old(windows)|].panes == [Pane(PaneId(WindowId(id, |old(windows)|), 0), [])]
    {
      var windowId := NewWindowId(id, nextWindowId);
      var window := Window.New(windowId, spawnError);
      if window.Err? {
        return Err(window.error);
      }
      windows := windows + [window.value];
      nextWindowId := nextWindowId + 1;
      return Ok(());
    }

    /** The window at position `window` exists and has a pane at position
        `pane`. */
    predicate HasPane(pane: PaneId)
      reads this`windows, windows`panes
    {
      && pane.GetWindow().Get() < |windows|
      && pane.Get() < |windows[pane.GetWindow().Get()].panes|
    }

    /** The session's side of a routed pane update: the window named by the
        pane id's window part takes the update for the pane named by its
        local index; no other window changes. */
    method UpdatePane(pane: PaneId, update: Events.GridUpdate)
      requires Valid() && HasPane(pane)
      modifies windows[pane.GetWindow().Get()]
      ensures Valid()
      ensures var w, p := pane.GetWindow().Get(), pane.Get();
        windows[w].panes == old(windows[w].panes)[p := Pane(old(windows[w].panes[p].id), Apply(old(windows[w].panes[p].grid), update))]
      ensures windows[pane.GetWindow().Get()].pending == old(windows[pane.GetWindow().Get()].pending)
    {
      var window := windows[pane.GetWindow().Get()];
      window.UpdatePane(pane.Get(), update);
      DistinctWindows();
    }

    /** Windows with different positions are different windows. */
    lemma DistinctWindows()
      requires Numbered()
      ensures forall i, j :: 0 <= i < j < |windows| ==> windows[i] != windows[j]
    {
      forall i, j | 0 <= i < j < |windows|
        ensures windows[i] != windows[j]
      {
        assert windows[i].id.Get() == i && windows[j].id.Get() == j;
      }
    }

    /** The session's side of an input byte: it is handed over in order;
        the windows are not touched. */
    method ProcessInput(b: byte)
      modifies this
      ensures input == old(input) + [b]
      ensures windows == old(windows) && nextWindowId == old(nextWindowId)
    {
      input := input + [b];
    }

    /** The window at position `i`, whose local id is `i`. */
    function GetWindow(i: nat): (w: Window)
      reads this, windows
      requires Numbered() && i < |windows|
      ensures w.id == WindowId(id, i) && w.id.Get() == i && w.Valid() && w.panes != []
    {
      windows[i]
    }
  }
}
