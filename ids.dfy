/** Hierarchical identifiers: a session id, a window id inside a session and a
    pane id inside a window. They are plain copyable values; the local index of
    each is the position of the entity in its parent's list. */
module Ids {

  datatype SessionId = SessionId(id: nat)
  {
    /** The index passed at construction. */
    function Get(): nat { id }
  }

  datatype WindowId = WindowId(session: SessionId, id: nat)
  {
    /** The local index of the window inside its session. */
    function Get(): nat { id }
    /** The owning session. */
    function GetSession(): SessionId { session }
  }

  datatype PaneId = PaneId(window: WindowId, id: nat)
  {
    /** The local index of the pane inside its window. */
    function Get(): nat { id }
    /** The owning window. */
    function GetWindow(): WindowId { window }
  }

  /** `SessionId::new`: any index is accepted, and `get` gives it back. */
  function NewSessionId(id: nat): (s: SessionId)
    ensures s.Get() == id
  {
    SessionId(id)
  }

  /** `WindowId::new`: any session and index are accepted and both are kept. */
  function NewWindowId(session: SessionId, id: nat): (w: WindowId)
    ensures w.Get() == id && w.GetSession() == session
  {
    WindowId(session, id)
  }

  /** `PaneId::new`: any window and index are accepted and both are kept. */
  function NewPaneId(window: WindowId, id: nat): (p: PaneId)
    ensures p.Get() == id && p.GetWindow() == window
  {
    PaneId(window, id)
  }

  /** A session id has a single field: two ids with the same index are equal. */
  lemma SessionIdDeterminedByGet(a: SessionId, b: SessionId)
    ensures a == b <==> a.Get() == b.Get()
  {
  }

  /** Window ids are equal exactly when both their components are. */
  lemma WindowIdDeterminedByParts(a: WindowId, b: WindowId)
    ensures a == b <==> (a.Get() == b.Get() && a.GetSession() == b.GetSession())
  {
  }

  /** Pane ids are equal exactly when both their components are. */
  lemma PaneIdDeterminedByParts(a: PaneId, b: PaneId)
    ensures a == b <==> (a.Get() == b.Get() && a.GetWindow() == b.GetWindow())
  {
  }
}
