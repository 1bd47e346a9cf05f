/** The PTY terminal driver's read path: the bytes `fill_buf` hands back are a
    parameter, and the bytes of an incomplete UTF-8 sequence kept between
    reads (`incomplete_utf8`) are the object's state. */
module Terminals {
  import opened Wrappers
  import opened Utf8

  /** What `fill_buf` hands back: the bytes available on the PTY master (none
      at end of stream), or an I/O failure. */
  datatype Fill = Filled(bytes: seq<byte>) | FillFailed

  /** The result of one `read` and the new carry, as the code computes them.
      The carried bytes only grow: they are never put in front of the new
      buffer, so they never reach the decoder. */
  function ReadStep(carry: seq<byte>, fill: Fill): (out: (Result<seq<char>>, seq<byte>))
    ensures fill.FillFailed? ==> out == (Err(ReadFromTerminal), carry)
    ensures fill.Filled? && fill.bytes == [] ==> out == (Ok([]), carry)
    ensures fill.Filled? && fill.bytes != [] && Valid(fill.bytes) ==> out == (Ok(Decode(fill.bytes)), [])
    ensures fill.Filled? && !Valid(fill.bytes) ==>
              ValidUpTo(fill.bytes) < |fill.bytes|
              && out == (Ok(Decode(fill.bytes[..ValidUpTo(fill.bytes)])),
                         carry + fill.bytes[ValidUpTo(fill.bytes)..])
  {
    match fill
    case FillFailed => (Err(ReadFromTerminal), carry)
    case Filled(buffer) =>
      if buffer == [] then (Ok([]), carry)
      else if Valid(buffer) then (Ok(Decode(buffer)), [])
      else
        var v := ValidUpTo(buffer);
        ValidIffValidUpToIsLength(buffer);
        assert buffer[..0] == [] && [] + buffer[v..] == buffer[v..];
        var chars := if v > 0 then Decode(buffer[..v]) else [];
        var newCarry :=
          if v < |buffer| then (if carry != [] then carry + buffer[v..] else buffer[v..])
          else [];
        (Ok(chars), newCarry)
  }

  class Terminal {
    /** Bytes of an incomplete UTF-8 sequence kept from earlier reads. */
    var incompleteUtf8: seq<byte>
    /** Number of bytes consumed from the PTY stream so far. */
    var consumed: nat

    /** The state `Terminal::new` starts from (spawning the shell is not
        modelled): no carried bytes. */
    constructor ()
      ensures incompleteUtf8 == [] && consumed == 0
    {
      incompleteUtf8 := [];
      consumed := 0;
    }

    /** `read`: decode what `fill_buf` returned and consume all of it. */
    method Read(fill: Fill) returns (r: Result<seq<char>>)
      modifies this
      ensures (r, incompleteUtf8) == ReadStep(old(incompleteUtf8), fill)
      ensures consumed == old(consumed) + (if fill.Filled? then |fill.bytes| else 0)
    {
      if fill.FillFailed? {
        return Err(ReadFromTerminal);
      }
      var buffer := fill.bytes;
      if buffer == [] {
        return Ok([]);
      }
      var chars: seq<char> := [];
      var bufferLen := |buffer|;
      var carry := incompleteUtf8;
      if Valid(buffer) {
        chars := chars + Decode(buffer);
        assert chars == Decode(buffer);
        carry := [];
      } else {
        var validUpTo := ValidUpTo(buffer);
        assert buffer[..0] == [] && [] + buffer[validUpTo..] == buffer[validUpTo..];
        if validUpTo > 0 {
          chars := chars + Decode(buffer[..validUpTo]);
          assert chars == Decode(buffer[..validUpTo]);
        }
        if validUpTo < bufferLen {
          if carry != [] {
            carry := carry + buffer[validUpTo..];
          } else {
            carry := buffer[validUpTo..];
          }
        } else {
          carry := [];
        }
      }
      incompleteUtf8 := carry;
      consumed := consumed + bufferLen;
      r := Ok(chars);
    }
  }

  /** A buffer that is not well formed always has bytes after `valid_up_to`,
      so the branch of `read` that clears the carry on an error is dead. */
  lemma ErrorLeavesIncompleteTail(buffer: seq<byte>)
    requires !Valid(buffer)
    ensures ValidUpTo(buffer) < |buffer|
  {
    ValidIffValidUpToIsLength(buffer);
  }

  /** The characters a read returns depend on the new buffer only, never on
      the carried bytes. */
  lemma ReadIgnoresCarry(carry1: seq<byte>, carry2: seq<byte>, fill: Fill)
    ensures ReadStep(carry1, fill).0 == ReadStep(carry2, fill).0
  {
  }

  /** The lead byte of a multi-byte character alone: a non-empty buffer
      that reads as no characters at all, which the pane takes for end of
      stream. The byte is carried, and never decoded. */
  lemma CutCharReadsAsNothing(carry: seq<byte>, b: byte)
    requires LeadLen(b) >= 2
    ensures ReadStep(carry, Filled([b])) == (Ok([]), carry + [b])
  {
    assert CharLen([b]) == 0;
    assert !Valid([b]);
    assert ValidUpTo([b]) == 0;
    assert [b][..0] == [] && [b][0..] == [b];
  }

  // ---------------------------------------------------------------------
  // Reading a stream split into chunks

  function Concat(chunks: seq<seq<byte>>): seq<byte>
  {
    if chunks == [] then [] else chunks[0] + Concat(chunks[1..])
  }

  /** The characters of successive reads of the chunks, and the final carry,
      as the code computes them. */
  function Feed(carry: seq<byte>, chunks: seq<seq<byte>>): (seq<char>, seq<byte>)
    decreases |chunks|
  {
    if chunks == [] then ([], carry)
    else
      var (r, next) := ReadStep(carry, Filled(chunks[0]));
      var (rest, last) := Feed(next, chunks[1..]);
      ((if r.Ok? then r.value else []) + rest, last)
  }

  /** The read the code evidently intends: the carried bytes are put in front
      of the new buffer, and whatever follows the valid prefix is carried. */
  function JoinedReadStep(carry: seq<byte>, fill: Fill): (out: (Result<seq<char>>, seq<byte>))
    ensures fill.Filled? && fill.bytes != [] ==>
              out.0.Ok? && out.0.value + Decode(out.1) == Decode(carry + fill.bytes)
  {
    match fill
    case FillFailed => (Err(ReadFromTerminal), carry)
    case Filled(buffer) =>
      if buffer == [] then (Ok([]), carry)
      else
        var data := carry + buffer;
        var v := ValidUpTo(data);
        DecodeStopsAtValidUpTo(data);
        (Ok(Decode(data[..v])), data[v..])
  }

  /** The characters of successive joined reads of the chunks, and the final
      carry. */
  function FeedJoined(carry: seq<byte>, chunks: seq<seq<byte>>): (seq<char>, seq<byte>)
    decreases |chunks|
  {
    if chunks == [] then ([], carry)
    else
      var (r, next) := JoinedReadStep(carry, Filled(chunks[0]));
      var (rest, last) := FeedJoined(next, chunks[1..]);
      ((if r.Ok? then r.value else []) + rest, last)
  }

  /** With the carry put in front, splitting a well-formed stream into
      non-empty chunks at arbitrary byte boundaries does not change what is
      decoded, and nothing is left over at the end. */
  lemma {:induction false} JoinedReadsAreChunkingInvariant(carry: seq<byte>, chunks: seq<seq<byte>>)
    requires chunks != [] && forall i :: 0 <= i < |chunks| ==> chunks[i] != []
    requires Valid(carry + Concat(chunks))
    ensures FeedJoined(carry, chunks) == (Decode(carry + Concat(chunks)), [])
    decreases |chunks|
  {
    var data := carry + chunks[0];
    var rest := Concat(chunks[1..]);
    assert carry + Concat(chunks) == data + rest;
    SplitAtValidUpTo(data, rest);
    var v := ValidUpTo(data);
    assert JoinedReadStep(carry, Filled(chunks[0])) == (Ok(Decode(data[..v])), data[v..]);
    if chunks[1..] == [] {
      assert data + rest == data;
      ValidIffValidUpToIsLength(data);
      assert data[..v] == data && data[v..] == [];
    } else {
      JoinedReadsAreChunkingInvariant(data[v..], chunks[1..]);
    }
  }

  /** With the carry put in front, what is carried between reads of a
      well-formed stream is a cut-short character: at most three bytes. */
  lemma JoinedCarryIsShort(carry: seq<byte>, buffer: seq<byte>, rest: seq<byte>)
    requires buffer != [] && Valid(carry + buffer + rest)
    ensures |JoinedReadStep(carry, Filled(buffer)).1| <= 3
  {
    SplitAtValidUpTo(carry + buffer, rest);
  }

  /** As written, a two-byte character split across two reads is never
      decoded: both reads return no characters and its bytes stay carried,
      while the joined read returns the character. */
  lemma SplitCharIsLost()
    ensures Decode([0xC3, 0xA9]) == ['\U{E9}']
    ensures Feed([], [[0xC3], [0xA9]]) == ([], [0xC3, 0xA9])
    ensures FeedJoined([], [[0xC3], [0xA9]]).0 == ['\U{E9}']
  {
    var e: seq<byte> := [0xC3, 0xA9];
    assert CharLen(e) == 2 && e[2..] == [];
    assert ReadStep([], Filled([0xC3])) == (Ok([]), [0xC3]) by {
      CutCharReadsAsNothing([], 0xC3);
    }
    var b: seq<byte> := [0xA9];
    assert !Valid(b) && ValidUpTo(b) == 0;
    assert b[..0] == [] && b[0..] == b && [0xC3] + b == e;
    assert ReadStep([0xC3], Filled([0xA9])) == (Ok([]), [0xC3, 0xA9]);
    assert [[0xC3], [0xA9]][1..] == [[0xA9]];
    assert [[0xA9]][1..] == [];
    assert ([] + [0xC3]) + [0xA9] == e;
    assert JoinedReadStep([], Filled([0xC3])) == (Ok([]), [0xC3]);
    assert JoinedReadStep([0xC3], Filled([0xA9])) == (Ok(['\U{E9}']), []) by {
      assert [0xC3] + [0xA9] == e;
      assert ValidUpTo(e) == 2 && e[..2] == e && e[2..] == [];
      assert Decode(e) == ['\U{E9}'];
    }
  }
}
