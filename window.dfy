/** A window: its panes, the counter that names the next one, and the queue
    of grid updates the panes' bridging tasks send to it. */
module Windows {
  import opened Wrappers
  import opened Ids
  import opened Grids
  import opened Panes
  import Events

  /** The grid updates in a queue that `get_pane_grid(index)` applies, in
      queue order: those whose pane has local index `index`. Only the local
      index is compared; the window part of the pane id is not. */
  function Matching(queue: seq<PaneUpdate>, index: nat): (us: seq<Events.GridUpdate>)
    ensures |us| <= |queue|
  {
    if queue == [] then []
    else
      var last := queue[|queue| - 1];
      Matching(queue[..|queue| - 1], index) + (if last.paneId.Get() == index then [last.update] else [])
  }

  /** The panes after the queue is drained for pane `index`: its grid takes
      the matching updates in order; the other updates are dropped. */
  function Drained(panes: seq<Pane>, queue: seq<PaneUpdate>, index: nat): (r: seq<Pane>)
    requires index < |panes| || Matching(queue, index) == []
    ensures |r| == |panes|
    ensures forall i :: 0 <= i < |panes| && i != index ==> r[i] == panes[i]
    ensures index < |panes| ==> r[index].id == panes[index].id
  {
    if index < |panes| then panes[index := Pane(panes[index].id, ApplyAll(panes[index].grid, Matching(queue, index)))]
    else panes
  }

  class Window {
    const id: WindowId
    var panes: seq<Pane>
    var nextPaneId: nat
    /** The update channel: the bridging tasks' sends, oldest first. */
    var pending: seq<PaneUpdate>

    /** Panes are numbered in creation order: the pane at position `i` has
        local id `i`, and the counter is the number of panes. */
    ghost predicate Valid()
      reads this
    {
      && nextPaneId == |panes|
      && forall i :: 0 <= i < |panes| ==> panes[i].id == PaneId(id, i)
    }

    /** The window before its first pane is opened. */
    constructor Empty(id: WindowId)
      ensures this.id == id && panes == [] && nextPaneId == 0 && pending == []
      ensures Valid()
    {
      this.id := id;
      panes := [];
      nextPaneId := 0;
      pending := [];
    }

    /** `Window::new`: a window with exactly one pane, local id 0, or the
        error from opening that pane's terminal. */
    static method New(id: WindowId, spawnError: Option<Error>) returns (r: Result<Window>)
      ensures r.Ok? <==> spawnError.None?
      ensures spawnError.Some? ==> r == Err(spawnError.value)
      ensures r.Ok? ==> && fresh(r.value) && r.value.Valid() && r.value.id == id
                        && r.value.panes == [Pane(PaneId(id, 0), [])] && r.value.nextPaneId == 1
                        && r.value.pending == []
    {
      var window := new Window.Empty(id);
      var made := window.NewPane(spawnError);
      if made.Err? {
        return Err(made.error);
      }
      return Ok(window);
    }

    /** `new_pane`: a pane named by the counter at the end of the panes, and
        the counter moves on; on failure nothing changes. */
    method NewPane(spawnError: Option<Error>) returns (r: Result<()>)
      requires Valid()
      modifies this
      ensures Valid() && pending == old(pending)
      ensures r.Ok? <==> spawnError.None?
      ensures spawnError.Some? ==> r == Err(spawnError.value) && panes == old(panes)
      ensures r.Ok? ==> panes == old(panes) + [Pane(PaneId(id, old(nextPaneId)), [])]
    {
      var paneId := NewPaneId(id, nextPaneId);
      var pane := Panes.NewPane(paneId, spawnError);
      if pane.Err? {
        return Err(pane.error);
      }
      panes := panes + [pane.value];
      nextPaneId := nextPaneId + 1;
      return Ok(());
    }

    /** A bridging task's sends arriving on the update channel. */
    method Enqueue(updates: seq<PaneUpdate>)
      modifies this
      ensures pending == old(pending) + updates
      ensures panes == old(panes) && nextPaneId == old(nextPaneId)
    {
      pending := pending + updates;
    }

    /** `get_pane_grid`: drain the whole queue, apply the updates for pane
        `index` in order and drop the rest, then return that pane's grid, or
        nothing when there is no such pane. An update for a missing pane
        would index out of bounds, so the queue must hold none. */
    method GetPaneGrid(index: nat) returns (grid: Option<Lines>)
      requires Valid()
      requires index < |panes| || Matching(pending, index) == []
      modifies this
      ensures Valid() && pending == []
      ensures panes == Drained(old(panes), old(pending), index)
      ensures grid.Some? <==> index < |panes|
      ensures grid.Some? ==> grid.value == panes[index].grid
    {
      ghost var queue := pending;
      ghost var start := panes;
      ghost var k := 0;
      assert queue[..0] == [];
      while pending != []
        invariant k <= |queue| && pending == queue[k..]
        invariant index < |start| || Matching(queue[..k], index) == []
        invariant panes == Drained(start, queue[..k], index)
        invariant Valid()
      {
        var update := pending[0];
        DrainStep(start, queue, k, index);
        pending := pending[1..];
        if update.paneId.Get() == index {
          match update.update
          case AppendChar(c) =>
            panes := panes[index := Pane(panes[index].id, Appended(panes[index].grid, c))];
          case NewLine =>
            panes := panes[index := Pane(panes[index].id, panes[index].grid + [[]])];
        }
        k := k + 1;
      }
      assert queue[..k] == queue;
      if index < |panes| {
        grid := Some(panes[index].grid);
      } else {
        grid := None;
      }
    }

    /** The window's side of a routed pane update: pane `index` takes the
        update. */
    method UpdatePane(index: nat, update: Events.GridUpdate)
      requires Valid() && index < |panes|
      modifies this
      ensures Valid() && pending == old(pending)
      ensures panes == old(panes)[index := Pane(old(panes)[index].id, Apply(old(panes)[index].grid, update))]
    {
      var pane := panes[index];
      panes := panes[index := Pane(pane.id, Apply(pane.grid, update))];
    }

    /** The pane at position `i`, whose local id is `i`. */
    function GetPane(i: nat): (p: Pane)
      reads this
      requires Valid() && i < |panes|
      ensures p.id == PaneId(id, i) && p.id.Get() == i
    {
      panes[i]
    }
  }

  /** One more dequeued update: applied to the target pane when it matches,
      dropped otherwise. A matching update means the target pane exists. */
  lemma DrainStep(start: seq<Pane>, queue: seq<PaneUpdate>, k: nat, index: nat)
    requires k < |queue|
    requires index < |start| || Matching(queue, index) == []
    requires index < |start| || Matching(queue[..k], index) == []
    ensures queue[k].paneId.Get() == index ==> index < |start|
    ensures index < |start| || Matching(queue[..k + 1], index) == []
    ensures Drained(start, queue[..k + 1], index)
         == if queue[k].paneId.Get() == index
            then
              var before := Drained(start, queue[..k], index);
              before[index := Pane(before[index].id, Apply(before[index].grid, queue[k].update))]
            else Drained(start, queue[..k], index)
  {
    MatchingSnoc(queue, k, index);
    assert queue[..k + 1] + queue[k + 1..] == queue;
    MatchingAppend(queue[..k + 1], queue[k + 1..], index);
    if index < |start| {
      var grid := start[index].grid;
      var m := Matching(queue[..k], index);
      if queue[k].paneId.Get() == index {
        var u := queue[k].update;
        ApplyAllSnoc(grid, m, u);
        var before := Drained(start, queue[..k], index);
        var after := Pane(start[index].id, Apply(ApplyAll(grid, m), u));
        assert before[index] == Pane(start[index].id, ApplyAll(grid, m));
        assert before[index := after] == start[index := after];
        assert Matching(queue[..k + 1], index) == m + [u];
        assert Drained(start, queue[..k + 1], index) == start[index := after];
      } else {
        assert Matching(queue[..k + 1], index) == m;
      }
    }
  }

  /** The matching updates of one more dequeued update. */
  lemma MatchingSnoc(queue: seq<PaneUpdate>, k: nat, index: nat)
    requires k < |queue|
    ensures Matching(queue[..k + 1], index)
         == Matching(queue[..k], index) + (if queue[k].paneId.Get() == index then [queue[k].update] else [])
  {
    var prefix := queue[..k + 1];
    assert prefix[..|prefix| - 1] == queue[..k];
  }

  /** The queue is first in, first out: the matching updates of two queued
      runs are those of the first run followed by those of the second. */
  lemma {:induction false} MatchingAppend(a: seq<PaneUpdate>, b: seq<PaneUpdate>, index: nat)
    ensures Matching(a + b, index) == Matching(a, index) + Matching(b, index)
    decreases |b|
  {
    if b == [] {
      assert a + b == a;
    } else {
      var b' := b[..|b| - 1];
      assert (a + b)[..|a + b| - 1] == a + b';
      assert (a + b)[|a + b| - 1] == b[|b| - 1];
      MatchingAppend(a, b', index);
    }
  }

  /** Draining in two steps leaves the panes as draining once would. */
  lemma DrainInTwoSteps(panes: seq<Pane>, a: seq<PaneUpdate>, b: seq<PaneUpdate>, index: nat)
    requires index < |panes|
    ensures Drained(Drained(panes, a, index), b, index) == Drained(panes, a + b, index)
  {
    MatchingAppend(a, b, index);
    ApplyAllAppend(panes[index].grid, Matching(a, index), Matching(b, index));
  }

  /** An update sent by a pane of another window with the same local index
      is applied all the same. */
  lemma ForeignUpdateApplied(panes: seq<Pane>, other: WindowId, update: Events.GridUpdate, index: nat)
    requires index < |panes|
    ensures Drained(panes, [PaneUpdate(PaneId(other, index), update)], index)[index].grid == Apply(panes[index].grid, update)
  {
    var queue := [PaneUpdate(PaneId(other, index), update)];
    assert queue[..|queue| - 1] == [];
    assert Matching(queue, index) == [update];
    ApplyAllSnoc(panes[index].grid, [], update);
    assert [] + [update] == [update];
  }

  /** Draining never loses a character of the target pane: its grid gains
      one for every matching append and keeps the others. */
  lemma DrainedCharCount(panes: seq<Pane>, queue: seq<PaneUpdate>, index: nat)
    requires index < |panes|
    ensures TotalChars(Drained(panes, queue, index)[index].grid)
         == TotalChars(panes[index].grid) + CountAppends(Matching(queue, index))
  {
    TotalCharsOfApplyAll(panes[index].grid, Matching(queue, index));
  }
}
