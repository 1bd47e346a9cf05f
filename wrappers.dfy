/** Error kinds and the Option/Result wrappers shared by every component. */
module Wrappers {

  /** The error variants the core actually raises (the error enum in the
      repository is out of date, so the variants used at the raise sites are
      collected here). */
  datatype Error =
    | ReadFromTerminal        // fill_buf failed on the PTY master
    | WriteToTerminal         // a keystroke could not be written to the PTY
    | ForkChildProcessInPty   // forkpty failed
    | TerminalSpawnChild      // control came back after exec in the child
    | SendPaneUpdate          // the receiver of the pane-update channel is gone

  /** An octet, as read from or written to a byte stream. */
  newtype byte = x: int | 0 <= x < 256

  datatype Option<+T> = None | Some(value: T)

  datatype Result<+T> = Ok(value: T) | Err(error: Error)

  /** Concatenation regroups freely; used where a stream grows by pieces. */
  lemma AppendAssociative<T>(a: seq<T>, b: seq<T>, c: seq<T>)
    ensures a + (b + c) == (a + b) + c
  {
  }
}
