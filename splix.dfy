/** The multiplexer: its sessions, the renderer, and the event loop that
    routes pane updates to their session and redraws, and hands input bytes
    to the first session. The event channel is the `events` sequence. */
module Multiplexer {
  import opened Wrappers
  import opened Ids
  import opened Events
  import opened Grids
  import Panes
  import opened Windows
  import opened Sessions
  import opened Renderers

  /** The input bytes among some events, in order. */
  function Inputs(events: seq<Event>): (r: seq<byte>)
    ensures |r| <= |events|
  {
    if events == [] then []
    else
      var last := events[|events| - 1];
      Inputs(events[..|events| - 1]) + (if last.Input? then [last.input] else [])
  }

  /** The number of pane updates among some events. */
  function CountPaneUpdates(events: seq<Event>): (n: nat)
    ensures n <= |events|
  {
    if events == [] then 0
    else CountPaneUpdates(events[..|events| - 1]) + (if events[|events| - 1].PaneUpdate? then 1 else 0)
  }

  /** The length of the text of one redraw: the move home, then each row
      and its move to the next line. */
  function FrameLength(width: nat, height: nat): nat
  {
    |CursorHome| + RowStart(width + |NextLine|, height)
  }

  /** The length of the text of the redraws for some events: one redraw per
      pane update. */
  function RedrawsLength(events: seq<Event>, frame: nat): nat
  {
    if events == [] then 0
    else RedrawsLength(events[..|events| - 1], frame) + (if events[|events| - 1].PaneUpdate? then frame else 0)
  }

  /** The text of one redraw of `grid` when it fits. */
  function FrameText(grid: Lines, width: nat, height: nat): (r: seq<char>)
    requires Fits(grid, width, height)
    ensures |r| == FrameLength(width, height)
  {
    var cells := Drawn(Blank(RowStart(width, height)), grid, width, Rows(grid, height));
    ScreenLength(cells, width, height);
    CursorHome + Screen(cells, width, height)
  }

  /** Input bytes reach the first session in the order they were sent,
      however the queue is split. */
  lemma {:induction false} InputsAppend(a: seq<Event>, b: seq<Event>)
    ensures Inputs(a + b) == Inputs(a) + Inputs(b)
    decreases |b|
  {
    if b != [] {
      assert (a + b)[..|a + b| - 1] == a + b[..|b| - 1];
      InputsAppend(a, b[..|b| - 1]);
    } else {
      assert a + b == a;
    }
  }

  /** The input bytes of a queue of input events are its bytes. */
  lemma {:induction false} InputsOfBytes(bytes: seq<byte>)
    ensures Inputs(seq(|bytes|, i requires 0 <= i < |bytes| => Input(bytes[i]))) == bytes
    ensures CountPaneUpdates(seq(|bytes|, i requires 0 <= i < |bytes| => Input(bytes[i]))) == 0
  {
    if bytes != [] {
      var events := seq(|bytes|, i requires 0 <= i < |bytes| => Input(bytes[i]));
      var front := bytes[..|bytes| - 1];
      assert events[..|events| - 1] == seq(|front|, i requires 0 <= i < |front| => Input(front[i]));
      InputsOfBytes(front);
      assert bytes == front + [bytes[|bytes| - 1]];
    }
  }

  /** The redraws of a queue write one frame per pane update. */
  lemma {:induction false} RedrawsLengthIsCount(events: seq<Event>, frame: nat)
    ensures RedrawsLength(events, frame) == CountPaneUpdates(events) * frame
  {
    if events != [] {
      RedrawsLengthIsCount(events[..|events| - 1], frame);
    }
  }

  /** The panes of the whole tree, as values: by session position, then
      window position, then pane position. */
  type Tree = seq<seq<seq<Panes.Pane>>>

  /** The panes of some windows, as values. */
  ghost function WindowPanes(windows: seq<Window>): seq<seq<Panes.Pane>>
    reads windows`panes
  {
    if windows == [] then [] else WindowPanes(windows[..|windows| - 1]) + [windows[|windows| - 1].panes]
  }

  /** Position `w` of `WindowPanes` holds the panes of window `w`. */
  lemma {:induction false} WindowPanesAt(windows: seq<Window>)
    ensures |WindowPanes(windows)| == |windows|
    ensures forall w :: 0 <= w < |windows| ==> WindowPanes(windows)[w] == windows[w].panes
  {
    if windows != [] {
      WindowPanesAt(windows[..|windows| - 1]);
    }
  }

  /** Every window of some sessions. */
  ghost function WindowsOf(sessions: seq<Session>): set<Window>
    reads sessions`windows
  {
    set s, w | s in sessions && w in s.windows :: w
  }

  /** The windows of the last session are among all windows. */
  lemma WindowsOfLast(sessions: seq<Session>)
    requires sessions != []
    ensures forall w :: w in sessions[|sessions| - 1].windows ==> w in WindowsOf(sessions)
  {
    var last := sessions[|sessions| - 1];
    assert last in sessions;
    forall w | w in last.windows
      ensures w in WindowsOf(sessions)
    {
    }
  }

  /** The windows of all but the last session are among all windows. */
  lemma WindowsOfPrefix(sessions: seq<Session>)
    requires sessions != []
    ensures WindowsOf(sessions[..|sessions| - 1]) <= WindowsOf(sessions)
  {
    forall w | w in WindowsOf(sessions[..|sessions| - 1])
      ensures w in WindowsOf(sessions)
    {
      var s :| s in sessions[..|sessions| - 1] && w in s.windows;
    }
  }

  /** The panes of the windows of some sessions, as values. */
  ghost function TreeOf(sessions: seq<Session>): Tree
    reads sessions`windows, WindowsOf(sessions)`panes
  {
    if sessions == [] then []
    else
      var last := sessions[|sessions| - 1];
      WindowsOfLast(sessions);
      TreeOf(sessions[..|sessions| - 1]) + [WindowPanes(last.windows)]
  }

  /** Position `(s, w)` of `TreeOf` holds the panes of window `w` of
      session `s`. */
  lemma {:induction false} TreeOfAt(sessions: seq<Session>)
    ensures |TreeOf(sessions)| == |sessions|
    ensures forall s :: 0 <= s < |sessions| ==> |TreeOf(sessions)[s]| == |sessions[s].windows|
    ensures forall s, w :: 0 <= s < |sessions| && 0 <= w < |sessions[s].windows| ==>
      TreeOf(sessions)[s][w] == sessions[s].windows[w].panes
  {
    if sessions != [] {
      TreeOfAt(sessions[..|sessions| - 1]);
      WindowPanesAt(sessions[|sessions| - 1].windows);
    }
  }

  /** The pane values of some windows change only when a window's panes
      do. */
  twostate lemma {:induction false} WindowPanesUnchanged(windows: seq<Window>)
    requires forall w :: w in windows ==> w.panes == old(w.panes)
    ensures WindowPanes(windows) == old(WindowPanes(windows))
  {
    if windows != [] {
      WindowPanesUnchanged(windows[..|windows| - 1]);
    }
  }

  /** The pane tree of some sessions changes only when a session's
      windows or a window's panes do. */
  twostate lemma {:induction false} TreeOfUnchanged(sessions: seq<Session>)
    requires forall s :: s in sessions ==> s.windows == old(s.windows)
    requires forall w :: w in WindowsOf(sessions) ==> w.panes == old(w.panes)
    ensures TreeOf(sessions) == old(TreeOf(sessions))
  {
    if sessions != [] {
      var last := sessions[|sessions| - 1];
      WindowsOfLast(sessions);
      WindowsOfPrefix(sessions);
      TreeOfUnchanged(sessions[..|sessions| - 1]);
      WindowPanesUnchanged(last.windows);
    }
  }

  /** Two trees with the same sessions, windows and panes, position for
      position. */
  predicate SameShape(a: Tree, b: Tree)
  {
    && |a| == |b|
    && (forall s :: 0 <= s < |a| ==> |a[s]| == |b[s]|)
    && (forall s, w :: 0 <= s < |a| && 0 <= w < |a[s]| ==> |a[s][w]| == |b[s][w]|)
  }

  /** A pane id names a pane of the tree: its session part, its window
      part and its local index are all in range. */
  predicate InTree(tree: Tree, pane: PaneId)
  {
    var s, w := pane.GetWindow().GetSession().Get(), pane.GetWindow().Get();
    s < |tree| && w < |tree[s]| && pane.Get() < |tree[s][w]|
  }

  /** A pane update delivered as `handle_pane_update` delivers it: to the
      session named by the id's session part, the window named by its
      window part, and there the pane at its local index. */
  function Route(tree: Tree, pane: PaneId, update: GridUpdate): (r: Tree)
    ensures SameShape(r, tree)
  {
    if InTree(tree, pane) then
      var s, w, p := pane.GetWindow().GetSession().Get(), pane.GetWindow().Get(), pane.Get();
      tree[s := tree[s][w := tree[s][w][p := Panes.Pane(tree[s][w][p].id, Apply(tree[s][w][p].grid, update))]]]
    else
      tree
  }

  /** Routing changes only the addressed pane, which takes the update;
      every other window, and every other pane of its window, is as it
      was, and an id naming no pane changes nothing. */
  lemma RouteAt(tree: Tree, pane: PaneId, update: GridUpdate)
    ensures forall s, w ::
      (0 <= s < |tree| && 0 <= w < |tree[s]| && (s, w) != (pane.GetWindow().GetSession().Get(), pane.GetWindow().Get()))
      ==> Route(tree, pane, update)[s][w] == tree[s][w]
    ensures InTree(tree, pane) ==>
      var s, w, p := pane.GetWindow().GetSession().Get(), pane.GetWindow().Get(), pane.Get();
      Route(tree, pane, update)[s][w] == tree[s][w][p := Panes.Pane(tree[s][w][p].id, Apply(tree[s][w][p].grid, update))]
    ensures !InTree(tree, pane) ==> Route(tree, pane, update) == tree
  {
  }

  /** The tree after one event: a pane update is routed, an input byte
      changes no pane. */
  function Step(tree: Tree, e: Event): (r: Tree)
    ensures SameShape(r, tree)
  {
    if e.PaneUpdate? then Route(tree, e.event.GetPane(), e.event.GetGridUpdate()) else tree
  }

  /** The tree after some events, handled oldest first. */
  function Handled(tree: Tree, events: seq<Event>): (r: Tree)
    ensures SameShape(r, tree)
  {
    if events == [] then tree
    else Step(Handled(tree, events[..|events| - 1]), events[|events| - 1])
  }

  /** The grid every redraw shows: the first pane of the first window of
      the first session. */
  function Front(tree: Tree): Lines
  {
    if |tree| > 0 && |tree[0]| > 0 && |tree[0][0]| > 0 then tree[0][0][0].grid else []
  }

  /** Every redraw that some events cause can be drawn without a panic. */
  predicate FitsThroughout(tree: Tree, events: seq<Event>, width: nat, height: nat)
  {
    events == [] ||
    (&& FitsThroughout(tree, events[..|events| - 1], width, height)
     && (events[|events| - 1].PaneUpdate? ==> Fits(Front(Handled(tree, events)), width, height)))
  }

  /** The text the redraws for some events write: after each pane update,
      one frame of the front grid as it is then. */
  function Redraws(tree: Tree, events: seq<Event>, width: nat, height: nat): seq<char>
    requires FitsThroughout(tree, events, width, height)
  {
    if events == [] then []
    else
      Redraws(tree, events[..|events| - 1], width, height)
        + (if events[|events| - 1].PaneUpdate? then FrameText(Front(Handled(tree, events)), width, height) else [])
  }

  /** Whether an event is a pane update for the pane at session `s`,
      window `w`, position `p`. */
  predicate AddressedTo(e: Event, s: nat, w: nat, p: nat)
  {
    && e.PaneUpdate?
    && e.event.GetPane().GetWindow().GetSession().Get() == s
    && e.event.GetPane().GetWindow().Get() == w
    && e.event.GetPane().Get() == p
  }

  /** The grid updates addressed to one pane, in the order they were sent. */
  function UpdatesFor(events: seq<Event>, s: nat, w: nat, p: nat): (us: seq<GridUpdate>)
    ensures |us| <= |events|
  {
    if events == [] then []
    else
      var last := events[|events| - 1];
      UpdatesFor(events[..|events| - 1], s, w, p) + (if AddressedTo(last, s, w, p) then [last.event.GetGridUpdate()] else [])
  }

  /** Each pane ends up with its own updates applied in the order they were
      sent, whatever other panes' updates are interleaved with them; its id
      does not change. */
  lemma {:induction false} HandledPane(tree: Tree, events: seq<Event>, s: nat, w: nat, p: nat)
    requires s < |tree| && w < |tree[s]| && p < |tree[s][w]|
    ensures Handled(tree, events)[s][w][p]
      == Panes.Pane(tree[s][w][p].id, ApplyAll(tree[s][w][p].grid, UpdatesFor(events, s, w, p)))
  {
    if events != [] {
      var front, e := events[..|events| - 1], events[|events| - 1];
      var before := Handled(tree, front);
      HandledPane(tree, front, s, w, p);
      if AddressedTo(e, s, w, p) {
        ApplyAllSnoc(tree[s][w][p].grid, UpdatesFor(front, s, w, p), e.event.GetGridUpdate());
      } else {
        assert UpdatesFor(events, s, w, p) == UpdatesFor(front, s, w, p);
        if e.PaneUpdate? {
          var pane := e.event.GetPane();
          var after := Route(before, pane, e.event.GetGridUpdate());
          RouteAt(before, pane, e.event.GetGridUpdate());
          if (s, w) != (pane.GetWindow().GetSession().Get(), pane.GetWindow().Get()) {
            assert after[s][w] == before[s][w];
          } else if InTree(before, pane) {
            assert pane.Get() != p;
          }
          assert after[s][w][p] == before[s][w][p];
          assert Handled(tree, events) == after;
        }
        assert Handled(tree, events)[s][w][p] == before[s][w][p];
      }
    }
  }

  /** Handling two batches in turn is handling their concatenation. */
  lemma {:induction false} HandledAppend(tree: Tree, a: seq<Event>, b: seq<Event>)
    ensures Handled(tree, a + b) == Handled(Handled(tree, a), b)
    decreases |b|
  {
    if b == [] {
      assert a + b == a;
    } else {
      assert (a + b)[..|a + b| - 1] == a + b[..|b| - 1];
      HandledAppend(tree, a, b[..|b| - 1]);
    }
  }

  /** Input bytes never change a pane. */
  lemma {:induction false} InputsKeepTree(tree: Tree, events: seq<Event>, width: nat, height: nat)
    requires forall i :: 0 <= i < |events| ==> events[i].Input?
    ensures Handled(tree, events) == tree
    ensures FitsThroughout(tree, events, width, height) && Redraws(tree, events, width, height) == []
  {
    if events != [] {
      InputsKeepTree(tree, events[..|events| - 1], width, height);
    }
  }

  /** The redraws write one frame, of the fixed frame length, per pane
      update. */
  lemma {:induction false} RedrawsLengthMatches(tree: Tree, events: seq<Event>, width: nat, height: nat)
    requires FitsThroughout(tree, events, width, height)
    ensures |Redraws(tree, events, width, height)| == RedrawsLength(events, FrameLength(width, height))
  {
    if events != [] {
      RedrawsLengthMatches(tree, events[..|events| - 1], width, height);
    }
  }

  /** Two trees that agree on every window are equal. */
  lemma TreeEquality(a: Tree, b: Tree)
    requires |a| == |b|
    requires forall s :: 0 <= s < |a| ==> |a[s]| == |b[s]|
    requires forall s, w :: 0 <= s < |a| && 0 <= w < |a[s]| ==> a[s][w] == b[s][w]
    ensures a == b
  {
    forall s | 0 <= s < |a|
      ensures a[s] == b[s]
    {
    }
  }

  /** Every pane update of a queue names a pane of the tree. */
  predicate Routable(tree: Tree, queue: seq<Event>)
  {
    forall i :: 0 <= i < |queue| && queue[i].PaneUpdate? ==> InTree(tree, queue[i].event.GetPane())
  }

  /** Trees of the same shape have the same panes to route to. */
  lemma InTreeOfSameShape(a: Tree, b: Tree, pane: PaneId)
    requires SameShape(a, b)
    ensures InTree(a, pane) <==> InTree(b, pane)
  {
  }

  /** Handling one more event of a queue adds its input byte, if any, its
      routed update, if any, and its redraw, if any. */
  lemma HandledOneMore(tree: Tree, queue: seq<Event>, handled: nat, width: nat, height: nat)
    requires handled < |queue|
    ensures Inputs(queue[..handled + 1]) == Inputs(queue[..handled]) + Inputs([queue[handled]])
    ensures Handled(tree, queue[..handled + 1]) == Step(Handled(tree, queue[..handled]), queue[handled])
    ensures FitsThroughout(tree, queue[..handled + 1], width, height) <==>
      && FitsThroughout(tree, queue[..handled], width, height)
      && (queue[handled].PaneUpdate? ==> Fits(Front(Handled(tree, queue[..handled + 1])), width, height))
    ensures FitsThroughout(tree, queue[..handled + 1], width, height) ==>
      Redraws(tree, queue[..handled + 1], width, height) == Redraws(tree, queue[..handled], width, height)
        + (if queue[handled].PaneUpdate? then FrameText(Front(Handled(tree, queue[..handled + 1])), width, height) else [])
  {
    assert queue[..handled + 1][..handled] == queue[..handled];
    assert [queue[handled]][..0] == [];
  }

  /** One more turn of the loop leaves the pane tree as handling the
      longer prefix of the queue does. */
  lemma TurnTree(tree: Tree, queue: seq<Event>, handled: nat, before: Tree, after: Tree)
    requires handled < |queue| && before == Handled(tree, queue[..handled])
    requires after == Step(before, queue[handled])
    ensures after == Handled(tree, queue[..handled + 1])
  {
    HandledOneMore(tree, queue, handled, 0, 0);
  }

  /** One more turn of the loop forwards the input bytes of the longer
      prefix of the queue. */
  lemma TurnInput(queue: seq<Event>, handled: nat, start: seq<byte>, before: seq<byte>, after: seq<byte>)
    requires handled < |queue| && before == start + Inputs(queue[..handled])
    requires after == before + Inputs([queue[handled]])
    ensures after == start + Inputs(queue[..handled + 1])
  {
    HandledOneMore([], queue, handled, 0, 0);
    AppendAssociative(start, Inputs(queue[..handled]), Inputs([queue[handled]]));
  }

  /** One more turn of the loop either writes the redraws of the longer
      prefix of the queue, or stops on a pane update whose grid does not
      fit. */
  lemma TurnOutput(tree: Tree, queue: seq<Event>, handled: nat, after: Tree, width: nat, height: nat,
                   start: seq<char>, before: seq<char>, written: seq<char>, ok: bool)
    requires handled < |queue| && after == Handled(tree, queue[..handled + 1])
    requires FitsThroughout(tree, queue[..handled], width, height)
    requires before == start + Redraws(tree, queue[..handled], width, height)
    requires queue[handled].Input? ==> ok && written == before
    requires queue[handled].PaneUpdate? ==> ok == Fits(Front(after), width, height)
    requires queue[handled].PaneUpdate? && ok ==> written == before + FrameText(Front(after), width, height)
    ensures ok ==> FitsThroughout(tree, queue[..handled + 1], width, height)
    ensures ok ==> written == start + Redraws(tree, queue[..handled + 1], width, height)
    ensures !ok ==> queue[handled].PaneUpdate? && !Fits(Front(after), width, height)
  {
    HandledOneMore(tree, queue, handled, width, height);
    if ok {
      var frame := if queue[handled].PaneUpdate? then FrameText(Front(after), width, height) else [];
      assert written == before + frame;
      AppendAssociative(start, Redraws(tree, queue[..handled], width, height), frame);
    }
  }

  class Splix {
    var sessions: seq<Session>
    var nextSessionId: nat
    const renderer: Renderer
    /** The event channel: pane updates and input bytes, oldest first. */
    var events: seq<Event>

    /** Every window of every session. */
    ghost function AllWindows(): set<Window>
      reads this`sessions, sessions`windows
    {
      WindowsOf(sessions)
    }

    /** The panes of every window of every session, as values. */
    ghost function PaneTree(): Tree
      reads this`sessions, sessions`windows, AllWindows()`panes
    {
      TreeOf(sessions)
    }

    /** Position `(s, w)` of the pane tree holds the panes of window `w` of
        session `s`. */
    lemma PaneTreeAt()
      ensures |PaneTree()| == |sessions|
      ensures forall s :: 0 <= s < |sessions| ==> |PaneTree()[s]| == |sessions[s].windows|
      ensures forall s, w :: 0 <= s < |sessions| && 0 <= w < |sessions[s].windows| ==>
        PaneTree()[s][w] == sessions[s].windows[w].panes
    {
      TreeOfAt(sessions);
    }

    /** Sessions are numbered in creation order: the session at position
        `i` has id `i`, and the counter is the number of sessions. */
    ghost predicate Numbered()
      reads this`sessions, this`nextSessionId, sessions, AllWindows()
    {
      InAllWindows();
      && nextSessionId == |sessions|
      && renderer.Valid()
      && forall i :: 0 <= i < |sessions| ==> sessions[i].id == SessionId(i) && sessions[i].Valid()
    }

    /** A multiplexer made by `Splix::new`: numbered, with a session. */
    ghost predicate Valid()
      reads this`sessions, this`nextSessionId, sessions, AllWindows()
    {
      Numbered() && sessions != []
    }

    /** The pane a pane id names: its session by the session part, its
        window by the window part and the pane by the local index. */
    predicate Addressable(pane: PaneId)
      reads this`sessions, sessions`windows, AllWindows()`panes
    {
      InAllWindows();
      var s := pane.GetWindow().GetSession().Get();
      s < |sessions| && sessions[s].HasPane(pane)
    }

    /** The window that holds the pane a pane id names. */
    ghost function TargetWindow(pane: PaneId): Window
      reads this`sessions, sessions`windows
      requires pane.GetWindow().GetSession().Get() < |sessions|
      requires pane.GetWindow().Get() < |sessions[pane.GetWindow().GetSession().Get()].windows|
    {
      sessions[pane.GetWindow().GetSession().Get()].windows[pane.GetWindow().Get()]
    }

    /** What every redraw shows: the first pane of the first window of the
        first session. */
    ghost function FrontGrid(): Lines
      reads this`sessions, this`nextSessionId, sessions, AllWindows()
      requires Valid()
    {
      InAllWindows();
      sessions[0].windows[0].panes[0].grid
    }

    /** A pane id is addressable exactly when it names a pane of the pane
        tree. */
    lemma AddressableInTree(pane: PaneId)
      ensures Addressable(pane) <==> InTree(PaneTree(), pane)
    {
      PaneTreeAt();
    }

    /** The grid every redraw shows is the front of the pane tree. */
    lemma FrontGridIsFront()
      requires Valid()
      ensures FrontGrid() == Front(PaneTree())
    {
      PaneTreeAt();
    }

    /** The multiplexer before its first session is opened. */
    constructor Empty(width: nat, height: nat)
      ensures sessions == [] && nextSessionId == 0 && events == []
      ensures fresh(renderer) && fresh(renderer.buffer) && renderer.Valid()
      ensures renderer.width == width && renderer.height == height && renderer.output == []
      ensures renderer.buffer[..] == Blank(width * height)
      ensures Numbered()
    {
      sessions := [];
      nextSessionId := 0;
      events := [];
      renderer := new Renderer(width, height);
    }

    /** `Splix::new`, given the screen size: a blank renderer and exactly
        one session, id 0, or the error from opening its first pane. */
    static method New(width: nat, height: nat, spawnError: Option<Error>) returns (r: Result<Splix>)
      ensures r.Ok? <==> spawnError.None?
      ensures spawnError.Some? ==> r == Err(spawnError.value)
      ensures r.Ok? ==> && fresh(r.value) && r.value.Valid() && r.value.events == []
                        && |r.value.sessions| == 1 && r.value.sessions[0].id == SessionId(0)
                        && r.value.renderer.width == width && r.value.renderer.height == height
                        && r.value.renderer.output == []
    {
      var splix := new Splix.Empty(width, height);
      var made := splix.NewSession(spawnError);
      if made.Err? {
        return Err(made.error);
      }
      return Ok(splix);
    }

    /** `new_session`: a session named by the counter at the end of the
        sessions, and the counter moves on; on failure nothing changes. */
    method NewSession(spawnError: Option<Error>) returns (r: Result<()>)
      requires Numbered()
      modifies this
      ensures Numbered() && events == old(events)
      ensures r.Ok? <==> spawnError.None?
      ensures spawnError.Some? ==> r == Err(spawnError.value) && sessions == old(sessions) && nextSessionId == old(nextSessionId)
      ensures r.Ok? ==> && |sessions| == |old(sessions)| + 1 && sessions[..|old(sessions)|] == old(sessions)
                        && fresh(sessions[|old(sessions)|])
                        && sessions[|old(sessions)|].id == SessionId(|old(sessions)|)
                        && |sessions[|old(sessions)|].windows| == 1
    {
      var id := NewSessionId(nextSessionId);
      var session := Session.New(id, spawnError);
      if session.Err? {
        return Err(session.error);
      }
      sessions := sessions + [session.value];
      nextSessionId := nextSessionId + 1;
      return Ok(());
    }

    /** `redraw`: a full frame of the first pane of the first window of the
        first session, whichever pane changed. `ok` is false when drawing
        that pane panics. */
    method Redraw() returns (ok: bool)
      requires Valid()
      modifies renderer, renderer.buffer
      ensures Valid()
      ensures ok == Fits(FrontGrid(), renderer.width, renderer.height)
      ensures ok ==> renderer.output == old(renderer.output) + FrameText(FrontGrid(), renderer.width, renderer.height)
    {
      renderer.BeginFrame();
      ok := renderer.DrawWindow(sessions[0].GetWindow(0));
      if ok {
        renderer.EndFrame();
      }
    }

    /** The routing half of `handle_pane_update`: the update goes to the
        session the pane id names, which applies it to that pane; no other
        pane changes. */
    method RouteUpdate(e: PaneUpdateEvent)
      requires Valid() && Addressable(e.GetPane())
      modifies TargetWindow(e.GetPane())
      ensures Valid() && sessions == old(sessions)
      ensures forall i :: 0 <= i < |sessions| ==> sessions[i].windows == old(sessions[i].windows)
      ensures var window, p := TargetWindow(e.GetPane()), e.GetPane().Get();
        window.panes == old(window.panes)[p := Panes.Pane(old(window.panes[p].id), Apply(old(window.panes[p].grid), e.GetGridUpdate()))]
      ensures PaneTree() == Route(old(PaneTree()), e.GetPane(), e.GetGridUpdate())
      ensures forall win :: win in AllWindows() ==> win.pending == old(win.pending)
    {
      ghost var before := PaneTree();
      PaneTreeAt();
      var pane := e.GetPane();
      var session := sessions[pane.GetWindow().GetSession().Get()];
      session.UpdatePane(pane, e.GetGridUpdate());
      DistinctWindows();
      RoutedTree(before, e.GetPane(), e.GetGridUpdate());
    }

    /** `handle_pane_update`: the update is routed to its pane, and then the
        screen is redrawn once. */
    method HandlePaneUpdate(e: PaneUpdateEvent) returns (ok: bool)
      requires Valid() && Addressable(e.GetPane())
      modifies TargetWindow(e.GetPane()), renderer, renderer.buffer
      ensures Valid() && sessions == old(sessions)
      ensures forall i :: 0 <= i < |sessions| ==> sessions[i].windows == old(sessions[i].windows)
      ensures PaneTree() == Route(old(PaneTree()), e.GetPane(), e.GetGridUpdate())
      ensures ok == Fits(FrontGrid(), renderer.width, renderer.height)
      ensures ok ==> renderer.output == old(renderer.output) + FrameText(FrontGrid(), renderer.width, renderer.height)
      ensures forall win :: win in AllWindows() ==> win.pending == old(win.pending)
    {
      RouteUpdate(e);
      label routed:
      ok := Redraw();
      TreeOfUnchanged@routed(sessions);
    }

    /** The tree after a routed update, from the one window that changed. */
    lemma RoutedTree(before: Tree, pane: PaneId, update: GridUpdate)
      requires Numbered() && InTree(before, pane) && |before| == |sessions|
      requires forall s :: 0 <= s < |sessions| ==> |before[s]| == |sessions[s].windows|
      requires var s, w, p := pane.GetWindow().GetSession().Get(), pane.GetWindow().Get(), pane.Get();
        sessions[s].windows[w].panes == before[s][w][p := Panes.Pane(before[s][w][p].id, Apply(before[s][w][p].grid, update))]
      requires forall s, w ::
        (0 <= s < |sessions| && 0 <= w < |sessions[s].windows| && (s, w) != (pane.GetWindow().GetSession().Get(), pane.GetWindow().Get()))
        ==> sessions[s].windows[w].panes == before[s][w]
      ensures PaneTree() == Route(before, pane, update)
    {
      PaneTreeAt();
      RouteAt(before, pane, update);
      TreeEquality(PaneTree(), Route(before, pane, update));
    }

    /** `handle_input`: the byte goes to the first session; no pane changes
        and nothing is redrawn. */
    method HandleInput(b: byte)
      requires Valid()
      modifies sessions[0]
      ensures Valid() && sessions == old(sessions)
      ensures forall i :: 0 <= i < |sessions| ==> sessions[i].windows == old(sessions[i].windows)
      ensures PaneTree() == old(PaneTree())
      ensures sessions[0].input == old(sessions[0].input) + [b]
      ensures renderer.output == old(renderer.output)
    {
      ghost var before := PaneTree();
      PaneTreeAt();
      sessions[0].ProcessInput(b);
      PaneTreeAt();
      TreeEquality(PaneTree(), before);
    }

    /** `handle_event`: pane updates to `handle_pane_update`, input bytes to
        `handle_input`. `ok` is false when the redraw panics. */
    method HandleEvent(e: Event) returns (ok: bool)
      requires Valid() && (e.PaneUpdate? ==> InTree(PaneTree(), e.event.GetPane()))
      modifies sessions[0], AllWindows(), renderer, renderer.buffer
      ensures Valid() && sessions == old(sessions)
      ensures forall i :: 0 <= i < |sessions| ==> sessions[i].windows == old(sessions[i].windows)
      ensures PaneTree() == Step(old(PaneTree()), e)
      ensures sessions[0].input == old(sessions[0].input) + (if e.Input? then [e.input] else [])
      ensures e.Input? ==> ok && renderer.output == old(renderer.output)
      ensures e.PaneUpdate? ==> ok == Fits(Front(PaneTree()), renderer.width, renderer.height)
      ensures e.PaneUpdate? && ok ==> renderer.output == old(renderer.output) + FrameText(Front(PaneTree()), renderer.width, renderer.height)
      ensures forall win :: win in AllWindows() ==> win.pending == old(win.pending)
    {
      match e
      case PaneUpdate(event) =>
        AddressableInTree(event.GetPane());
        InAllWindows();
        ok := HandlePaneUpdate(event);
        FrontGridIsFront();
      case Input(b) =>
        HandleInput(b);
        ok := true;
    }

    /** One turn of the event loop: the oldest event is taken off the
        channel and handled. */
    method HandleNext() returns (ok: bool)
      requires Valid() && events != [] && (events[0].PaneUpdate? ==> InTree(PaneTree(), events[0].event.GetPane()))
      modifies this, sessions[0], AllWindows(), renderer, renderer.buffer
      ensures Valid() && sessions == old(sessions)
      ensures forall i :: 0 <= i < |sessions| ==> sessions[i].windows == old(sessions[i].windows)
      ensures events == old(events)[1..]
      ensures PaneTree() == Step(old(PaneTree()), old(events)[0])
      ensures sessions[0].input == old(sessions[0].input) + Inputs([old(events)[0]])
      ensures old(events)[0].Input? ==> ok && renderer.output == old(renderer.output)
      ensures old(events)[0].PaneUpdate? ==> ok == Fits(Front(PaneTree()), renderer.width, renderer.height)
      ensures old(events)[0].PaneUpdate? && ok ==>
        renderer.output == old(renderer.output) + FrameText(Front(PaneTree()), renderer.width, renderer.height)
      ensures forall win :: win in AllWindows() ==> win.pending == old(win.pending)
    {
      var e := events[0];
      events := events[1..];
      ok := HandleEvent(e);
      assert [e][..0] == [];
    }

    /** A turn of the event loop stated against the whole queue: after
        `handled` events of `queue`, handling the next one gives the state
        after `handled + 1` events, or stops on a redraw that panics. */
    method Turn(ghost tree: Tree, ghost queue: seq<Event>, ghost handled: nat,
                ghost typed: seq<byte>, ghost shown: seq<char>) returns (ok: bool)
      requires Valid() && handled < |queue| && events == queue[handled..] && Routable(tree, queue)
      requires PaneTree() == Handled(tree, queue[..handled])
      requires sessions[0].input == typed + Inputs(queue[..handled])
      requires FitsThroughout(tree, queue[..handled], renderer.width, renderer.height)
      requires renderer.output == shown + Redraws(tree, queue[..handled], renderer.width, renderer.height)
      modifies this, sessions[0], AllWindows(), renderer, renderer.buffer
      ensures Valid() && sessions == old(sessions)
      ensures forall i :: 0 <= i < |sessions| ==> sessions[i].windows == old(sessions[i].windows)
      ensures events == queue[handled + 1..]
      ensures PaneTree() == Handled(tree, queue[..handled + 1])
      ensures sessions[0].input == typed + Inputs(queue[..handled + 1])
      ensures ok ==> FitsThroughout(tree, queue[..handled + 1], renderer.width, renderer.height)
      ensures ok ==> renderer.output == shown + Redraws(tree, queue[..handled + 1], renderer.width, renderer.height)
      ensures !ok ==> queue[handled].PaneUpdate? && !Fits(Front(PaneTree()), renderer.width, renderer.height)
      ensures forall win :: win in AllWindows() ==> win.pending == old(win.pending)
    {
      if queue[handled].PaneUpdate? {
        InTreeOfSameShape(tree, PaneTree(), queue[handled].event.GetPane());
      }
      ghost var before := PaneTree();
      ok := HandleNext();
      TurnTree(tree, queue, handled, before, PaneTree());
      TurnInput(queue, handled, typed, old(sessions[0].input), sessions[0].input);
      TurnOutput(tree, queue, handled, PaneTree(), renderer.width, renderer.height,
                 shown, old(renderer.output), renderer.output, ok);
    }

    /** `run`: events are handled one at a time, oldest first, until the
        channel is empty. A redraw that panics ends the loop early, after
        `handled` events. */
    method Run() returns (ok: bool, handled: nat)
      requires Valid() && Routable(PaneTree(), events)
      modifies this, sessions, AllWindows(), renderer, renderer.buffer
      ensures Valid() && sessions == old(sessions)
      ensures handled <= |old(events)| && events == old(events)[handled..]
      ensures ok ==> handled == |old(events)|
      ensures !ok ==> handled > 0 && old(events)[handled - 1].PaneUpdate?
      ensures PaneTree() == Handled(old(PaneTree()), old(events)[..handled])
      ensures sessions[0].input == old(sessions[0].input) + Inputs(old(events)[..handled])
      ensures ok ==> FitsThroughout(old(PaneTree()), old(events), renderer.width, renderer.height)
      ensures ok ==> renderer.output == old(renderer.output) + Redraws(old(PaneTree()), old(events), renderer.width, renderer.height)
      ensures !ok ==> !Fits(Front(PaneTree()), renderer.width, renderer.height)
      ensures forall i :: 0 <= i < |sessions| ==> sessions[i].windows == old(sessions[i].windows)
      ensures forall win :: win in old(AllWindows()) ==> win.pending == old(win.pending)
    {
      ghost var queue := events;
      ghost var tree := PaneTree();
      handled := 0;
      ok := true;
      while ok && events != []
        invariant Valid() && sessions == old(sessions)
        invariant forall i :: 0 <= i < |sessions| ==> sessions[i].windows == old(sessions[i].windows)
        invariant forall win :: win in old(AllWindows()) ==> win.pending == old(win.pending)
        invariant handled <= |queue| && events == queue[handled..]
        invariant PaneTree() == Handled(tree, queue[..handled])
        invariant sessions[0].input == old(sessions[0].input) + Inputs(queue[..handled])
        invariant ok ==> FitsThroughout(tree, queue[..handled], renderer.width, renderer.height)
        invariant ok ==> renderer.output == old(renderer.output) + Redraws(tree, queue[..handled], renderer.width, renderer.height)
        invariant !ok ==> handled > 0 && queue[handled - 1].PaneUpdate? && !Fits(Front(PaneTree()), renderer.width, renderer.height)
        decreases |events|
      {
        ok := Turn(tree, queue, handled, old(sessions[0].input), old(renderer.output));
        handled := handled + 1;
      }
      if ok {
        assert queue[..handled] == queue;
      }
    }

    /** Every window of a session is one of `AllWindows()`. */
    lemma InAllWindows()
      ensures forall i, w :: 0 <= i < |sessions| && w in sessions[i].windows ==> w in AllWindows()
    {
      forall i, w | 0 <= i < |sessions| && w in sessions[i].windows
        ensures w in AllWindows()
      {
        assert sessions[i] in sessions;
      }
    }

    /** Windows in different places of the tree are different windows. */
    lemma DistinctWindows()
      requires Numbered()
      ensures forall s, t, i, j ::
        (0 <= s < |sessions| && 0 <= t < |sessions| && 0 <= i < |sessions[s].windows|
         && 0 <= j < |sessions[t].windows| && (s, i) != (t, j)) ==> sessions[s].windows[i] != sessions[t].windows[j]
    {
      forall s, t, i, j | 0 <= s < |sessions| && 0 <= t < |sessions| && 0 <= i < |sessions[s].windows|
        && 0 <= j < |sessions[t].windows| && (s, i) != (t, j)
        ensures sessions[s].windows[i] != sessions[t].windows[j]
      {
        assert sessions[s].windows[i].id == WindowId(SessionId(s), i);
        assert sessions[t].windows[j].id == WindowId(SessionId(t), j);
      }
    }
  }
}
