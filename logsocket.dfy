/** The socket of the log server and its client: the one-word request the
    client sends, the snapshot of buffered logs the server answers with, and
    the stream of new logs a following client keeps receiving. */
module LogSockets {
  import opened Wrappers

  /** An unsigned 64-bit word, as `read_u64` and `write_u64` carry it. */
  newtype u64 = x: int | 0 <= x < 0x1_0000_0000_0000_0000

  /** What a client asks for; the discriminants are 0, 1 and 2. */
  datatype Request = Unknown | GetAll | Follow

  /** `request as u64`. */
  function Discriminant(r: Request): (v: u64)
    ensures v <= 2
  {
    match r
    case Unknown => 0
    case GetAll => 1
    case Follow => 2
  }

  /** `Request::from`: 1 and 2 name a request, every other word is
      `Unknown`. */
  function FromU64(value: u64): (r: Request)
    ensures r == GetAll <==> value == 1
    ensures r == Follow <==> value == 2
    ensures r == Unknown <==> value != 1 && value != 2
  {
    match value
    case 1 => GetAll
    case 2 => Follow
    case _ => Unknown
  }

  /** Decoding a discriminant gives back its request. */
  lemma DiscriminantRoundTrip(r: Request)
    ensures FromU64(Discriminant(r)) == r
  {
    match r
    case Unknown =>
    case GetAll =>
    case Follow =>
  }

  /** The words that survive decoding and encoding are exactly the three
      discriminants; every larger word is read as `Unknown`. */
  lemma KnownWordsAreDiscriminants(value: u64)
    ensures Discriminant(FromU64(value)) == value <==> value <= 2
    ensures value > 2 ==> FromU64(value) == Unknown
  {
  }

  /** The request `LogClient::run` sends: `Follow` when following,
      `GetAll` otherwise. */
  function ClientRequest(follow: bool): (r: Request)
    ensures r != Unknown
    ensures r == Follow <==> follow
  {
    if follow then Follow else GetAll
  }

  /** 256 to the power `n`. */
  function Pow256(n: nat): (p: nat)
    ensures p >= 1
  {
    if n == 0 then 1 else 256 * Pow256(n - 1)
  }

  /** The `n` low bytes of `v`, most significant first. */
  function ToBigEndian(v: nat, n: nat): (bs: seq<byte>)
    ensures |bs| == n
  {
    if n == 0 then [] else ToBigEndian(v / 256, n - 1) + [(v % 256) as byte]
  }

  /** The number some bytes spell, most significant first. */
  function FromBigEndian(bs: seq<byte>): (v: nat)
    ensures v < Pow256(|bs|)
  {
    if bs == [] then 0
    else
      var front := FromBigEndian(bs[..|bs| - 1]);
      DigitBound(front, bs[|bs| - 1] as nat, Pow256(|bs| - 1));
      front * 256 + bs[|bs| - 1] as nat
  }

  lemma DigitBound(front: nat, digit: nat, p: nat)
    requires front < p && digit < 256
    ensures front * 256 + digit < 256 * p
  {
  }

  /** Spelling a number that fits in `n` bytes and reading it back gives
      the number. */
  lemma {:induction false} FromToBigEndian(v: nat, n: nat)
    requires v < Pow256(n)
    ensures FromBigEndian(ToBigEndian(v, n)) == v
  {
    if n > 0 {
      var bs := ToBigEndian(v, n);
      assert bs[..n - 1] == ToBigEndian(v / 256, n - 1);
      FromToBigEndian(v / 256, n - 1);
    }
  }

  /** Reading some bytes and spelling the number back gives the bytes. */
  lemma {:induction false} ToFromBigEndian(bs: seq<byte>)
    ensures ToBigEndian(FromBigEndian(bs), |bs|) == bs
  {
    if bs != [] {
      var v := FromBigEndian(bs);
      var front := bs[..|bs| - 1];
      assert v / 256 == FromBigEndian(front) && v % 256 == bs[|bs| - 1] as nat;
      ToFromBigEndian(front);
      assert bs == front + [bs[|bs| - 1]];
    }
  }

  lemma WordBound()
    ensures Pow256(8) == 0x1_0000_0000_0000_0000
  {
  }

  /** `write_u64`: the eight bytes of a word, most significant first. */
  function WriteU64(v: u64): (bs: seq<byte>)
    ensures |bs| == 8
  {
    ToBigEndian(v as nat, 8)
  }

  /** `read_u64`: the word in the first eight bytes, or nothing when the
      peer sent fewer. */
  function ReadU64(bs: seq<byte>): (r: Option<u64>)
    ensures r.Some? <==> |bs| >= 8
  {
    if |bs| < 8 then None
    else
      WordBound();
      Some(FromBigEndian(bs[..8]) as u64)
  }

  /** A word written and then read back is the word, whatever follows it. */
  lemma ReadWriteU64(v: u64, rest: seq<byte>)
    ensures ReadU64(WriteU64(v) + rest) == Some(v)
  {
    WordBound();
    assert (WriteU64(v) + rest)[..8] == WriteU64(v);
    FromToBigEndian(v as nat, 8);
  }

  /** The request a client sends reaches the server as that request. */
  lemma ClientRequestArrives(follow: bool, rest: seq<byte>)
    ensures var word := ReadU64(WriteU64(Discriminant(ClientRequest(follow))) + rest);
      word.Some? && FromU64(word.value) == ClientRequest(follow)
  {
    ReadWriteU64(Discriminant(ClientRequest(follow)), rest);
    DiscriminantRoundTrip(ClientRequest(follow));
  }

  /** The chunks `handle_connection` writes for some logs, in order: each
      log, then a newline. */
  function Chunks(logs: seq<string>): (cs: seq<string>)
    ensures |cs| == 2 * |logs|
  {
    if logs == [] then [] else [logs[0], "\n"] + Chunks(logs[1..])
  }

  /** The text of some chunks, one after the other. */
  function Concat(cs: seq<string>): string
  {
    if cs == [] then [] else cs[0] + Concat(cs[1..])
  }

  /** The text a snapshot of logs puts on the socket. */
  function Framed(logs: seq<string>): (text: string)
    ensures |text| >= |logs|
  {
    if logs == [] then [] else logs[0] + "\n" + Framed(logs[1..])
  }

  /** The chunks of some logs spell their framed text. */
  lemma {:induction false} ChunksSpellFramed(logs: seq<string>)
    ensures Concat(Chunks(logs)) == Framed(logs)
  {
    if logs != [] {
      var rest := Chunks(logs[1..]);
      var tail := ["\n"] + rest;
      assert Chunks(logs) == [logs[0]] + tail;
      assert ([logs[0]] + tail)[1..] == tail;
      assert tail[1..] == rest;
      assert Concat(tail) == "\n" + Concat(rest);
      ChunksSpellFramed(logs[1..]);
    }
  }

  lemma {:induction false} ChunksAppend(a: seq<string>, b: seq<string>)
    ensures Chunks(a + b) == Chunks(a) + Chunks(b)
  {
    if a == [] {
      assert a + b == b;
    } else {
      assert (a + b)[1..] == a[1..] + b;
      ChunksAppend(a[1..], b);
    }
  }

  /** Framing logs one batch after another frames them all: the snapshot
      and the followed stream read as one framed sequence of logs. */
  lemma {:induction false} FramedAppend(a: seq<string>, b: seq<string>)
    ensures Framed(a + b) == Framed(a) + Framed(b)
  {
    if a == [] {
      assert a + b == b;
    } else {
      assert (a + b)[1..] == a[1..] + b;
      FramedAppend(a[1..], b);
    }
  }

  /** The length of the first line of `text`: up to its first newline, or
      all of it. */
  function LineEnd(text: string): (k: nat)
    ensures k <= |text|
    ensures forall i :: 0 <= i < k ==> text[i] != '\n'
    ensures k < |text| ==> text[k] == '\n'
  {
    if text == [] || text[0] == '\n' then 0 else 1 + LineEnd(text[1..])
  }

  /** What a reader of the socket gets back by cutting the text at each
      newline; text after the last newline is a final, unterminated line. */
  function SplitLines(text: string): (lines: seq<string>)
    decreases |text|
  {
    if text == [] then []
    else
      var k := LineEnd(text);
      [text[..k]] + SplitLines(if k < |text| then text[k + 1..] else [])
  }

  /** Logs without a newline of their own come back, one per line, from
      the framed text. */
  lemma {:induction false} SplitFramed(logs: seq<string>)
    requires forall i :: 0 <= i < |logs| ==> '\n' !in logs[i]
    ensures SplitLines(Framed(logs)) == logs
  {
    if logs != [] {
      var text := Framed(logs);
      var k := |logs[0]|;
      assert text == logs[0] + ("\n" + Framed(logs[1..]));
      assert text[k] == '\n';
      assert LineEnd(text) == k by {
        LineEndAt(text, k);
      }
      assert text[..k] == logs[0];
      assert text[k + 1..] == Framed(logs[1..]);
      SplitFramed(logs[1..]);
    }
  }

  lemma {:induction false} LineEndAt(text: string, k: nat)
    requires k < |text| && text[k] == '\n'
    requires forall i :: 0 <= i < k ==> text[i] != '\n'
    ensures LineEnd(text) == k
  {
  }

  /** A log that holds a newline comes back as two lines. */
  lemma MultiLineLogSplits()
    ensures Framed(["a\nb"]) == "a\nb\n"
    ensures SplitLines(Framed(["a\nb"])) == ["a", "b"]
  {
    var text := "a\nb\n";
    assert Framed(["a\nb"]) == text;
    assert LineEnd(text) == 1 by {
      LineEndAt(text, 1);
    }
    assert text[..1] == "a" && text[2..] == "b\n";
    var second := "b\n";
    assert LineEnd(second) == 1 by {
      LineEndAt(second, 1);
    }
    assert second[..1] == "b" && second[2..] == [];
    assert SplitLines(second) == ["b"];
  }

  /** Why a connection handler or a client gives up. */
  datatype SocketError = ReadRequest | WriteLog | Connect | SendRequest | ReadLogs

  /** How a connection handler or a client ends: it returns `Ok`, it
      returns an error, or it is still waiting on its peer. */
  datatype Outcome = Finished | Failed(error: SocketError) | Waiting

  /** What the broadcast receiver yields: a new log, the news that the
      receiver lagged and missed some logs, or the end of the channel. */
  datatype Received = Log(log: string) | Lagged(missed: nat) | Closed

  /** The logs a follower is sent: every received log until the channel
      closes; lag notices send nothing. */
  function Followed(stream: seq<Received>): (logs: seq<string>)
    ensures |logs| <= |stream|
  {
    if stream == [] then []
    else
      match stream[0]
      case Log(log) => [log] + Followed(stream[1..])
      case Lagged(_) => Followed(stream[1..])
      case Closed => []
  }

  /** Every chunk `handle_connection` means to write: the snapshot and,
      for a follow request, the followed logs. */
  function Planned(request: Request, logs: seq<string>, stream: seq<Received>): seq<string>
  {
    Chunks(logs) + (if request == Follow then Chunks(Followed(stream)) else [])
  }

  /** What the snapshot loop writes with a socket that accepts the first
      `accepted` writes, and whether it wrote everything. */
  function Snapshot(logs: seq<string>, accepted: nat): (seq<string>, bool)
  {
    var planned := Chunks(logs);
    if accepted < |planned| then (planned[..accepted], false) else (planned, true)
  }

  /** What the follow loop writes with a socket that accepts the first
      `accepted` writes, and how it ends. */
  function Streamed(stream: seq<Received>, accepted: nat): (seq<string>, Outcome)
  {
    var planned := Chunks(Followed(stream));
    if accepted < |planned| then (planned[..accepted], Failed(WriteLog))
    else (planned, if Closed in stream then Finished else Waiting)
  }

  /** What `handle_connection` writes after reading `request`, and how it
      ends, when the buffer held `logs`, the receiver yields `stream`, and
      the socket accepts the first `accepted` writes and fails the next. */
  function Respond(request: Request, logs: seq<string>, stream: seq<Received>, accepted: nat): (seq<string>, Outcome)
  {
    var snapshot := Snapshot(logs, accepted);
    if !snapshot.1 then (snapshot.0, Failed(WriteLog))
    else if request != Follow then (snapshot.0, Finished)
    else
      var more := Streamed(stream, accepted - |snapshot.0|);
      (snapshot.0 + more.0, more.1)
  }

  /** The writes `handle_connection` makes are the first `accepted` of
      those it means to make, and it fails exactly when they are fewer. */
  lemma RespondIsPlannedPrefix(request: Request, logs: seq<string>, stream: seq<Received>, accepted: nat)
    ensures var planned, r := Planned(request, logs, stream), Respond(request, logs, stream, accepted);
      && r.0 == (if accepted < |planned| then planned[..accepted] else planned)
      && (r.1 == Failed(WriteLog) <==> accepted < |planned|)
      && (r.1 == Waiting <==> accepted >= |planned| && request == Follow && Closed !in stream)
  {
    var planned := Planned(request, logs, stream);
    var snapshot := Chunks(logs);
    if accepted >= |snapshot| && request == Follow {
      var more := Chunks(Followed(stream));
      var k := accepted - |snapshot|;
      if k < |more| {
        assert planned[..accepted] == snapshot + more[..k];
      }
    }
  }

  /** What `handle_connection` does when the client sent `input`: nothing
      but an error when no request word arrives. */
  function Served(input: seq<byte>, logs: seq<string>, stream: seq<Received>, accepted: nat): (seq<string>, Outcome)
  {
    match ReadU64(input)
    case None => ([], Failed(ReadRequest))
    case Some(word) => Respond(FromU64(word), logs, stream, accepted)
  }

  /** `handle_connection`: read the request word, write the snapshot, and
      for a follow request write each new log until the channel closes. */
  method HandleConnection(input: seq<byte>, logs: seq<string>, stream: seq<Received>, accepted: nat)
    returns (written: seq<string>, outcome: Outcome)
    ensures (written, outcome) == Served(input, logs, stream, accepted)
  {
    var word := ReadU64(input);
    if word.None? {
      return [], Failed(ReadRequest);
    }
    var request := FromU64(word.value);
    var complete;
    written, complete := WriteSnapshot(logs, accepted);
    if !complete {
      return written, Failed(WriteLog);
    }
    if request != Follow {
      return written, Finished;
    }
    var more;
    more, outcome := StreamLogs(stream, accepted - |written|);
    written := written + more;
  }

  /** The snapshot loop of `handle_connection`: each buffered log, then a
      newline. */
  method WriteSnapshot(logs: seq<string>, accepted: nat) returns (written: seq<string>, complete: bool)
    ensures (written, complete) == Snapshot(logs, accepted)
  {
    ghost var planned := Chunks(logs);
    written := [];
    var i := 0;
    while i < |logs|
      invariant i <= |logs| && |written| <= accepted
      invariant planned == written + Chunks(logs[i..])
    {
      ghost var before := written;
      ghost var rest := Chunks(logs[i + 1..]);
      assert Chunks(logs[i..]) == [logs[i], "\n"] + rest by {
        assert logs[i..][1..] == logs[i + 1..];
      }
      if |written| == accepted {
        assert planned[..accepted] == written;
        return written, false;
      }
      written := written + [logs[i]];
      if |written| == accepted {
        assert planned[..accepted] == written;
        return written, false;
      }
      written := written + ["\n"];
      assert written == before + [logs[i], "\n"];
      AppendAssociative(before, [logs[i], "\n"], rest);
      i := i + 1;
    }
    assert planned == written;
    return written, true;
  }

  /** The follow loop of `handle_connection`: each received log, then a
      newline; lag notices are skipped and the end of the channel ends the
      loop. */
  method StreamLogs(stream: seq<Received>, accepted: nat) returns (written: seq<string>, outcome: Outcome)
    ensures (written, outcome) == Streamed(stream, accepted)
  {
    ghost var planned := Chunks(Followed(stream));
    written := [];
    var j := 0;
    while j < |stream|
      invariant j <= |stream| && |written| <= accepted
      invariant Closed !in stream[..j]
      invariant planned == written + Chunks(Followed(stream[j..]))
    {
      assert stream[j..][1..] == stream[j + 1..];
      assert stream[..j + 1] == stream[..j] + [stream[j]];
      match stream[j] {
        case Log(log) =>
          ghost var before := written;
          ghost var rest := Chunks(Followed(stream[j + 1..]));
          assert Chunks(Followed(stream[j..])) == [log, "\n"] + rest by {
            assert ([log] + Followed(stream[j + 1..]))[1..] == Followed(stream[j + 1..]);
          }
          if |written| == accepted {
            assert planned[..accepted] == written;
            return written, Failed(WriteLog);
          }
          written := written + [log];
          if |written| == accepted {
            assert planned[..accepted] == written;
            return written, Failed(WriteLog);
          }
          written := written + ["\n"];
          assert written == before + [log, "\n"];
          AppendAssociative(before, [log, "\n"], rest);
        case Lagged(_) =>
        case Closed =>
          assert planned == written;
          assert Closed in stream by {
            assert stream[j] == Closed;
          }
          return written, Finished;
      }
      j := j + 1;
    }
    assert planned == written;
    assert stream[..j] == stream;
    return written, Waiting;
  }

  /** Whatever the request, the snapshot comes first: each buffered log in
      buffer order, each followed by a newline. */
  lemma SnapshotFirst(request: Request, logs: seq<string>, stream: seq<Received>, accepted: nat)
    requires accepted >= 2 * |logs|
    ensures var written := Respond(request, logs, stream, accepted).0;
      |written| >= 2 * |logs| && Concat(written[..2 * |logs|]) == Framed(logs)
  {
    var written := Respond(request, logs, stream, accepted).0;
    var n := 2 * |logs|;
    assert written[..n] == Chunks(logs);
    ChunksSpellFramed(logs);
  }

  /** Only a follow request streams: the others return `Ok` right after
      the snapshot, whatever the receiver would yield, and a follower whose
      channel stays open keeps waiting. */
  lemma OnlyFollowStreams(request: Request, logs: seq<string>, stream: seq<Received>, accepted: nat)
    requires accepted >= 2 * |logs|
    ensures request != Follow ==> Respond(request, logs, stream, accepted) == (Chunks(logs), Finished)
    ensures request == Follow && Closed !in stream && accepted >= 2 * (|logs| + |Followed(stream)|)
      ==> Respond(request, logs, stream, accepted).1 == Waiting
  {
    assert Chunks(logs) + [] == Chunks(logs);
  }

  /** A follower whose writes all succeed reads the snapshot and the
      followed logs as one framed sequence. */
  lemma FollowedText(logs: seq<string>, stream: seq<Received>, accepted: nat)
    requires accepted >= 2 * (|logs| + |Followed(stream)|)
    ensures Concat(Respond(Follow, logs, stream, accepted).0) == Framed(logs + Followed(stream))
  {
    ChunksAppend(logs, Followed(stream));
    ChunksSpellFramed(logs + Followed(stream));
  }

  /** A request word that fails to arrive ends the connection before
      anything is written; one that arrives is answered as its request. */
  lemma ServedByWord(word: u64, rest: seq<byte>, short: seq<byte>, logs: seq<string>, stream: seq<Received>, accepted: nat)
    requires |short| < 8
    ensures Served(short, logs, stream, accepted) == ([], Failed(ReadRequest))
    ensures Served(WriteU64(word) + rest, logs, stream, accepted) == Respond(FromU64(word), logs, stream, accepted)
  {
    ReadWriteU64(word, rest);
  }

  /** A lag notice is skipped: the follower is sent the same logs as if it
      had not lagged. */
  lemma {:induction false} LaggedSkipped(before: seq<Received>, missed: nat, after: seq<Received>)
    ensures Followed(before + [Lagged(missed)] + after) == Followed(before + after)
  {
    if before == [] {
      assert before + [Lagged(missed)] + after == [Lagged(missed)] + after;
      assert ([Lagged(missed)] + after)[1..] == after;
      assert before + after == after;
    } else {
      assert (before + [Lagged(missed)] + after)[1..] == before[1..] + [Lagged(missed)] + after;
      assert (before + after)[1..] == before[1..] + after;
      LaggedSkipped(before[1..], missed, after);
    }
  }

  /** The end of the channel ends the stream: nothing after it is sent. */
  lemma {:induction false} ClosedEnds(before: seq<Received>, after: seq<Received>)
    requires Closed !in before
    ensures Followed(before + [Closed] + after) == Followed(before)
  {
    if before == [] {
      assert before + [Closed] + after == [Closed] + after;
    } else {
      assert (before + [Closed] + after)[1..] == before[1..] + [Closed] + after;
      assert Closed !in before[1..] by {
        assert before == [before[0]] + before[1..];
      }
      ClosedEnds(before[1..], after);
    }
  }

  /** The result of one `read` on the client's socket: some bytes (none
      when the server has nothing more for now, or has closed), or an
      error. */
  datatype ReadResult = Data(bytes: seq<byte>) | ReadFailed

  /** What the client's read loop prints, chunk by chunk, and how it ends. */
  function Client(follow: bool, results: seq<ReadResult>): (seq<seq<byte>>, Outcome)
  {
    if results == [] then ([], Waiting)
    else
      match results[0]
      case ReadFailed => ([], Failed(ReadLogs))
      case Data(bytes) =>
        if bytes == [] then
          if follow then Client(follow, results[1..]) else ([], Finished)
        else
          var rest := Client(follow, results[1..]);
          ([bytes] + rest.0, rest.1)
  }

  /** `LogClient::run`: connect, send the request word, then print what
      arrives until a read returns nothing (when not following) or fails.
      `sent` is the request word's bytes. */
  method ClientRun(follow: bool, connectFails: bool, sendFails: bool, results: seq<ReadResult>)
    returns (sent: seq<byte>, printed: seq<seq<byte>>, outcome: Outcome)
    ensures connectFails ==> sent == [] && printed == [] && outcome == Failed(Connect)
    ensures !connectFails ==> sent == WriteU64(Discriminant(ClientRequest(follow)))
    ensures !connectFails && sendFails ==> printed == [] && outcome == Failed(SendRequest)
    ensures !connectFails && !sendFails ==> (printed, outcome) == Client(follow, results)
  {
    if connectFails {
      return [], [], Failed(Connect);
    }
    sent := WriteU64(Discriminant(ClientRequest(follow)));
    if sendFails {
      return sent, [], Failed(SendRequest);
    }
    printed := [];
    var i := 0;
    while i < |results|
      invariant i <= |results|
      invariant printed + Client(follow, results[i..]).0 == Client(follow, results).0
      invariant Client(follow, results[i..]).1 == Client(follow, results).1
    {
      assert results[i..][1..] == results[i + 1..];
      ghost var rest := Client(follow, results[i + 1..]);
      match results[i] {
        case ReadFailed =>
          assert printed + [] == printed;
          return sent, printed, Failed(ReadLogs);
        case Data(bytes) =>
          if |bytes| == 0 {
            if !follow {
              assert printed + [] == printed;
              return sent, printed, Finished;
            }
            assert Client(follow, results[i..]) == rest;
          } else {
            assert Client(follow, results[i..]) == ([bytes] + rest.0, rest.1);
            AppendAssociative(printed, [bytes], rest.0);
            printed := printed + [bytes];
          }
      }
      i := i + 1;
    }
    assert printed + [] == printed;
    return sent, printed, Waiting;
  }

  /** The bytes of some results, in order. */
  function DataOf(results: seq<ReadResult>): (chunks: seq<seq<byte>>)
    requires forall i :: 0 <= i < |results| ==> results[i].Data?
    ensures |chunks| == |results|
  {
    if results == [] then [] else [results[0].bytes] + DataOf(results[1..])
  }

  /** A client that does not follow stops at the first empty read: it has
      printed everything before it, and nothing after it is read. */
  lemma {:induction false} FirstEmptyReadStops(before: seq<ReadResult>, after: seq<ReadResult>)
    requires forall i :: 0 <= i < |before| ==> before[i].Data? && before[i].bytes != []
    ensures Client(false, before + [Data([])] + after) == (DataOf(before), Finished)
  {
    if before == [] {
      assert before + [Data([])] + after == [Data([])] + after;
    } else {
      assert (before + [Data([])] + after)[1..] == before[1..] + [Data([])] + after;
      FirstEmptyReadStops(before[1..], after);
    }
  }

  /** A following client never stops on its own: it ends only on a failed
      read, and otherwise keeps waiting. */
  lemma {:induction false} FollowerNeverFinishes(results: seq<ReadResult>)
    ensures Client(true, results).1 != Finished
  {
    if results != [] && results[0].Data? {
      FollowerNeverFinishes(results[1..]);
    }
  }

  /** A following client results past an empty read as if it had not
      happened. */
  lemma {:induction false} FollowerSkipsEmptyRead(before: seq<ReadResult>, after: seq<ReadResult>)
    ensures Client(true, before + [Data([])] + after) == Client(true, before + after)
  {
    if before == [] {
      assert before + [Data([])] + after == [Data([])] + after;
      assert ([Data([])] + after)[1..] == after;
      assert before + after == after;
    } else {
      assert (before + [Data([])] + after)[1..] == before[1..] + [Data([])] + after;
      assert (before + after)[1..] == before[1..] + after;
      FollowerSkipsEmptyRead(before[1..], after);
    }
  }
}
