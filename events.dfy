/** The events of the bus: one grid mutation addressed to one pane, or one
    keystroke byte. */
module Events {
  import opened Ids
  import opened Wrappers

  /** One incremental mutation of a pane's grid. */
  datatype GridUpdate = AppendChar(c: char) | NewLine

  /** An update of one pane's grid, addressed by its pane id. */
  datatype PaneUpdateEvent = PaneUpdateEvent(pane: PaneId, gridUpdate: GridUpdate)
  {
    function GetPane(): PaneId { pane }
    function GetGridUpdate(): GridUpdate { gridUpdate }
  }

  /** What the dispatch loop receives. */
  datatype Event = PaneUpdate(event: PaneUpdateEvent) | Input(input: byte)

  /** `PaneUpdateEvent::new`: the getters return exactly what was passed. */
  function NewPaneUpdateEvent(pane: PaneId, gridUpdate: GridUpdate): (e: PaneUpdateEvent)
    ensures e.GetPane() == pane && e.GetGridUpdate() == gridUpdate
  {
    PaneUpdateEvent(pane, gridUpdate)
  }

  /** An event is determined by its pane and its update. */
  lemma PaneUpdateEventDeterminedByParts(a: PaneUpdateEvent, b: PaneUpdateEvent)
    ensures a == b <==> (a.GetPane() == b.GetPane() && a.GetGridUpdate() == b.GetGridUpdate())
  {
  }
}
