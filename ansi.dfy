/** The ANSI encoder: a code preceded by the control sequence introducer
    (CSI, `ESC [`, section 5.4 of ECMA-48). The code is not checked. */
module Ansi {
  import opened Wrappers

  /** The escape character, 0x1B. */
  const Escape: char := '\U{1B}'

  /** The control sequence introducer. */
  const Csi: seq<char> := [Escape, '[']

  /** The codes that enter and leave the alternate screen buffer. */
  const EnterAlternateScreen: seq<char> := "?1049h"
  const LeaveAlternateScreen: seq<char> := "?1049l"

  /** `AnsiEncoder::encode`: the introducer, then the code as given. */
  function Encode(code: seq<char>): (r: seq<char>)
    ensures |r| == |code| + 2
    ensures r[..2] == Csi && r[2..] == code
  {
    Csi + code
  }

  /** The code of an encoded sequence, or nothing when the text does not
      start with the introducer. */
  function CodeOf(s: seq<char>): (r: Option<seq<char>>)
    ensures r.Some? <==> 2 <= |s| && s[..2] == Csi
  {
    if 2 <= |s| && s[..2] == Csi then Some(s[2..]) else None
  }

  /** Every code survives encoding. */
  lemma CodeOfEncode(code: seq<char>)
    ensures CodeOf(Encode(code)) == Some(code)
  {
  }

  /** Every text that starts with the introducer is the encoding of its
      code: encoding loses nothing and adds nothing else. */
  lemma EncodeCodeOf(s: seq<char>)
    requires CodeOf(s).Some?
    ensures Encode(CodeOf(s).value) == s
  {
    assert s == s[..2] + s[2..];
  }

  /** Different codes give different sequences. */
  lemma EncodeInjective(a: seq<char>, b: seq<char>)
    ensures Encode(a) == Encode(b) <==> a == b
  {
    if Encode(a) == Encode(b) {
      CodeOfEncode(a);
      CodeOfEncode(b);
    }
  }

  /** The empty code is accepted and yields the bare introducer. */
  lemma EmptyCode()
    ensures Encode([]) == [Escape, '[']
  {
  }

  /** The alternate-screen sequences, written out. */
  lemma AlternateScreenSequences()
    ensures Encode(EnterAlternateScreen) == [Escape, '[', '?', '1', '0', '4', '9', 'h']
    ensures Encode(LeaveAlternateScreen) == [Escape, '[', '?', '1', '0', '4', '9', 'l']
    ensures Encode(EnterAlternateScreen) != Encode(LeaveAlternateScreen)
  {
    assert Encode(EnterAlternateScreen)[7] == 'h';
  }
}
