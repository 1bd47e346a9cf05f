/** A pane and its bridging task: the loop that turns what the terminal reads
    into grid updates sent to the window. The outcomes of the reads are a parameter
    and the channel is the sequence of updates sent. */
module Panes {
  import opened Wrappers
  import opened Ids
  import Events
  import opened Grids
  import Terminals
  import Utf8

  /** The outcome of one terminal read. */
  type ReadResult = Result<seq<char>>

  /** What the bridging task sends: one grid update addressed to its pane. */
  datatype PaneUpdate = PaneUpdate(paneId: PaneId, update: Events.GridUpdate)

  /** A pane as its window holds it: its id and its grid. */
  datatype Pane = Pane(id: PaneId, grid: Lines)
  {
    /** `get_grid`. */
    function GetGrid(): Lines { grid }
  }

  /** `Pane::new`: a pane with the given id and an empty grid, or the error
      from opening its terminal (`spawnError`, the outcome of the fork and
      exec, which are not modelled). */
  function NewPane(id: PaneId, spawnError: Option<Error>): (r: Result<Pane>)
    ensures r.Ok? <==> spawnError.None?
    ensures r.Ok? ==> r.value.id == id && r.value.GetGrid() == []
    ensures spawnError.Some? ==> r == Err(spawnError.value)
  {
    if spawnError.Some? then Err(spawnError.value) else Ok(Pane(id, []))
  }

  /** The grid update for one character read from the terminal. */
  function ToGridUpdate(ch: char): (u: Events.GridUpdate)
    ensures u.NewLine? <==> ch == '\n'
    ensures u.AppendChar? ==> u.c == ch
  {
    if ch == '\n' then Events.NewLine else Events.AppendChar(ch)
  }

  /** The updates for a run of characters, one per character, in order. */
  function Updates(id: PaneId, chars: seq<char>): seq<PaneUpdate>
  {
    if chars == [] then []
    else Updates(id, chars[..|chars| - 1]) + [PaneUpdate(id, ToGridUpdate(chars[|chars| - 1]))]
  }

  /** The position of the first read that ends the loop: a failed read or an
      empty one (end of stream); `|outcomes|` when there is none. */
  function FirstStop(outcomes: seq<ReadResult>): (k: nat)
    ensures k <= |outcomes|
    ensures forall i :: 0 <= i < k ==> outcomes[i].Ok? && outcomes[i].value != []
    ensures k < |outcomes| ==> outcomes[k].Err? || outcomes[k].value == []
  {
    if outcomes == [] || outcomes[0].Err? || outcomes[0].value == [] then 0
    else 1 + FirstStop(outcomes[1..])
  }

  /** The characters of a run of successful outcomes, in order. */
  function Chars(outcomes: seq<ReadResult>): seq<char>
  {
    if outcomes == [] then []
    else Chars(outcomes[..|outcomes| - 1]) + (if outcomes[|outcomes| - 1].Ok? then outcomes[|outcomes| - 1].value else [])
  }

  /** Where the bridging task is: still waiting for the next read, or returned
      with a result. */
  datatype TaskState = Running | Returned(result: Result<()>)

  /** What the bridging task sends and where it ends up, given the outcomes
      of its reads and the number of sends the channel accepts before its
      receiver is gone: the updates for every character read before the
      first empty or failed read, cut short by the first failed send. */
  function Bridge(id: PaneId, outcomes: seq<ReadResult>, accepted: nat): (seq<PaneUpdate>, TaskState)
  {
    var all := Updates(id, Chars(outcomes[..FirstStop(outcomes)]));
    if accepted < |all| then (all[..accepted], Returned(Err(SendPaneUpdate)))
    else if FirstStop(outcomes) < |outcomes| then (all, Returned(Ok(())))
    else (all, Running)
  }

  /** `handle_terminal_io`: read, stop at the first empty or failed read, and
      send one update per character; a failed send ends the task at once. */
  method HandleTerminalIo(id: PaneId, outcomes: seq<ReadResult>, accepted: nat)
    returns (sent: seq<PaneUpdate>, state: TaskState)
    ensures (sent, state) == Bridge(id, outcomes, accepted)
  {
    sent := [];
    var i := 0;
    while i < |outcomes|
      invariant i <= FirstStop(outcomes)
      invariant sent == Updates(id, Chars(outcomes[..i]))
      invariant |sent| <= accepted
    {
      match outcomes[i]
      case Err(_) =>
        BridgeStopsAt(id, outcomes, i, accepted);
        return sent, Returned(Ok(()));
      case Ok(chars) =>
        if chars == [] {
          BridgeStopsAt(id, outcomes, i, accepted);
          return sent, Returned(Ok(()));
        }
        assert Chars(outcomes[..i]) + chars[..0] == Chars(outcomes[..i]);
        var j := 0;
        while j < |chars|
          invariant j <= |chars|
          invariant sent == Updates(id, Chars(outcomes[..i]) + chars[..j])
          invariant |sent| <= accepted
        {
          if |sent| == accepted {
            BridgeSendFails(id, outcomes, i, j, accepted);
            return sent, Returned(Err(SendPaneUpdate));
          }
          SendOne(id, Chars(outcomes[..i]), chars, j);
          sent := sent + [PaneUpdate(id, ToGridUpdate(chars[j]))];
          j := j + 1;
        }
        BatchDone(id, outcomes, i);
        i := i + 1;
    }
    state := Running;
  }

  /** Sending the update for the next character of a batch extends what
      was sent by that update. */
  lemma SendOne(id: PaneId, before: seq<char>, chars: seq<char>, j: nat)
    requires j < |chars|
    ensures Updates(id, before + chars[..j + 1]) == Updates(id, before + chars[..j]) + [PaneUpdate(id, ToGridUpdate(chars[j]))]
  {
    assert before + chars[..j + 1] == (before + chars[..j]) + [chars[j]];
  }

  /** Sending every character of a non-empty batch is sending the characters
      of one more outcome. */
  lemma BatchDone(id: PaneId, outcomes: seq<ReadResult>, i: nat)
    requires i < |outcomes| && outcomes[i].Ok?
    ensures Updates(id, Chars(outcomes[..i]) + outcomes[i].value[..|outcomes[i].value|]) == Updates(id, Chars(outcomes[..i + 1]))
  {
    assert outcomes[i].value[..|outcomes[i].value|] == outcomes[i].value;
    CharsStep(outcomes, i);
  }

  /** A stop (failed or empty read) before any failed send: everything read
      so far was sent and the task returns `Ok`. */
  lemma BridgeStopsAt(id: PaneId, outcomes: seq<ReadResult>, i: nat, accepted: nat)
    requires i < |outcomes| && i <= FirstStop(outcomes)
    requires outcomes[i].Err? || outcomes[i].value == []
    requires |Updates(id, Chars(outcomes[..i]))| <= accepted
    ensures Bridge(id, outcomes, accepted) == (Updates(id, Chars(outcomes[..i])), Returned(Ok(())))
  {
    assert FirstStop(outcomes) == i;
  }

  /** A failed send in the middle of a batch: what was sent is a prefix of
      every update the reads would give, and the task returns the send
      error. */
  lemma BridgeSendFails(id: PaneId, outcomes: seq<ReadResult>, i: nat, j: nat, accepted: nat)
    requires i < FirstStop(outcomes) && j < |outcomes[i].value|
    requires |Updates(id, Chars(outcomes[..i]) + outcomes[i].value[..j])| == accepted
    ensures Bridge(id, outcomes, accepted) == (Updates(id, Chars(outcomes[..i]) + outcomes[i].value[..j]), Returned(Err(SendPaneUpdate)))
  {
    var stop := FirstStop(outcomes);
    var before := Chars(outcomes[..i]);
    var chars := outcomes[i].value;
    CharsStep(outcomes, i);
    CharsMonotone(outcomes, i + 1, stop);
    assert before + chars[..j + 1] <= Chars(outcomes[..stop]);
    SentIsPrefix(id, before + chars[..j + 1], Chars(outcomes[..stop]));
    SentIsPrefix(id, before + chars[..j], Chars(outcomes[..stop]));
  }

  /** The updates of a prefix of some characters are a prefix of their
      updates, and there is one update per character. */
  lemma SentIsPrefix(id: PaneId, prefix: seq<char>, chars: seq<char>)
    requires prefix <= chars
    ensures |Updates(id, prefix)| == |prefix| && |Updates(id, chars)| == |chars|
    ensures Updates(id, prefix) == Updates(id, chars)[..|prefix|]
  {
    var rest := chars[|prefix|..];
    assert chars == prefix + rest;
    UpdatesAppend(id, prefix, rest);
    UpdatesAt(id, prefix);
    UpdatesAt(id, rest);
  }

  /** Reading one more outcome adds its characters at the end. */
  lemma CharsStep(outcomes: seq<ReadResult>, i: nat)
    requires i < |outcomes|
    ensures Chars(outcomes[..i + 1]) == Chars(outcomes[..i]) + (if outcomes[i].Ok? then outcomes[i].value else [])
  {
    assert outcomes[..i + 1][..i] == outcomes[..i];
  }

  /** The characters of fewer outcomes are a prefix of those of more. */
  lemma {:induction false} CharsMonotone(outcomes: seq<ReadResult>, a: nat, b: nat)
    requires a <= b <= |outcomes|
    ensures Chars(outcomes[..a]) <= Chars(outcomes[..b])
    decreases b
  {
    if a < b {
      CharsMonotone(outcomes, a, b - 1);
      CharsStep(outcomes, b - 1);
    }
  }

  /** The updates of two runs of characters are the updates of the first run
      followed by those of the second. */
  lemma {:induction false} UpdatesAppend(id: PaneId, a: seq<char>, b: seq<char>)
    ensures Updates(id, a + b) == Updates(id, a) + Updates(id, b)
    decreases |b|
  {
    if b != [] {
      var b' := b[..|b| - 1];
      assert (a + b)[..|a + b| - 1] == a + b';
      UpdatesAppend(id, a, b');
    } else {
      assert a + b == a;
    }
  }

  /** One update per character, in character order, each tagged with the
      pane's id: `NewLine` for a line feed and `AppendChar` for anything
      else, a carriage return included. */
  lemma {:induction false} UpdatesAt(id: PaneId, chars: seq<char>)
    ensures |Updates(id, chars)| == |chars|
    ensures forall k :: 0 <= k < |chars| ==> Updates(id, chars)[k] == PaneUpdate(id, ToGridUpdate(chars[k]))
    decreases |chars|
  {
    if chars != [] {
      UpdatesAt(id, chars[..|chars| - 1]);
    }
  }

  /** What the bridge does, stated without its loop: it sends a prefix of the
      updates for every character read before the first stop, all of them
      unless the channel gives out first; it fails exactly when the channel
      gives out, and it keeps running exactly when no read stopped it. */
  lemma BridgeOutcome(id: PaneId, outcomes: seq<ReadResult>, accepted: nat)
    ensures var (sent, state) := Bridge(id, outcomes, accepted);
      var chars := Chars(outcomes[..FirstStop(outcomes)]);
      && |sent| == (if accepted < |chars| then accepted else |chars|)
      && (forall k :: 0 <= k < |sent| ==> sent[k] == PaneUpdate(id, ToGridUpdate(chars[k])))
      && (state == Returned(Err(SendPaneUpdate)) <==> accepted < |chars|)
      && (state == Running <==> |chars| <= accepted && FirstStop(outcomes) == |outcomes|)
      && (state.Returned? && state.result.Ok? <==> |chars| <= accepted && FirstStop(outcomes) < |outcomes|)
  {
    UpdatesAt(id, Chars(outcomes[..FirstStop(outcomes)]));
  }

  /** Nothing after the first empty or failed read matters: the loop has
      ended by then. */
  lemma LaterReadsIgnored(id: PaneId, outcomes: seq<ReadResult>, later: seq<ReadResult>, accepted: nat)
    requires FirstStop(outcomes) < |outcomes|
    ensures Bridge(id, outcomes + later, accepted) == Bridge(id, outcomes, accepted)
  {
    var k := FirstStop(outcomes);
    StopOfExtension(outcomes, later);
    assert (outcomes + later)[..k] == outcomes[..k];
    var all := Updates(id, Chars(outcomes[..k]));
    assert Updates(id, Chars((outcomes + later)[..FirstStop(outcomes + later)])) == all;
    assert k < |outcomes + later|;
  }

  /** Extending the reads does not move a stop that has already happened. */
  lemma {:induction false} StopOfExtension(outcomes: seq<ReadResult>, later: seq<ReadResult>)
    requires FirstStop(outcomes) < |outcomes|
    ensures FirstStop(outcomes + later) == FirstStop(outcomes)
  {
    if outcomes[0].Ok? && outcomes[0].value != [] {
      assert (outcomes + later)[1..] == outcomes[1..] + later;
      StopOfExtension(outcomes[1..], later);
    }
  }

  /** A read that fails ends the pane's task with `Ok`, not with the read
      error, after sending everything read before it. */
  lemma ReadErrorReturnsOk(id: PaneId, chars: seq<char>, e: Error)
    requires chars != []
    ensures Bridge(id, [Ok(chars), Err(e)], |chars|) == (Updates(id, chars), Returned(Ok(())))
  {
    var outcomes: seq<ReadResult> := [Ok(chars), Err(e)];
    assert FirstStop(outcomes[1..]) == 0;
    assert FirstStop(outcomes) == 1;
    assert outcomes[..1] == [Ok(chars)];
    assert [Ok(chars)][..0] == [];
    assert Chars(outcomes[..1]) == [] + chars == chars;
    UpdatesAt(id, chars);
  }

  /** The terminal's first read of a character cut after its lead byte
      returns no characters, which the loop takes for the end of the
      stream: the pane stops, whatever the shell writes afterwards. */
  lemma CutCharStopsPane(id: PaneId, carry: seq<byte>, b: byte, later: seq<ReadResult>, accepted: nat)
    requires Utf8.LeadLen(b) >= 2
    ensures Bridge(id, [Terminals.ReadStep(carry, Terminals.Filled([b])).0] + later, accepted) == ([], Returned(Ok(())))
  {
    Terminals.CutCharReadsAsNothing(carry, b);
    var outcomes: seq<ReadResult> := [Ok([])];
    assert FirstStop(outcomes) == 0;
    LaterReadsIgnored(id, outcomes, later, accepted);
  }
}
