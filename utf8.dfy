/** UTF-8 as defined by the syntax of section 4 of RFC 3629: which byte
    sequences are well formed, the length of the longest well-formed prefix
    (Rust's `Utf8Error::valid_up_to`), decoding to Unicode scalar values and
    encoding back. */
module Utf8 {
  import opened Wrappers

  /** UTF8-tail = %x80-BF */
  predicate Tail(b: byte) { 0x80 <= b <= 0xBF }

  /** The length of the character a lead byte announces: 1 to 4, or 0 for a
      byte that cannot start a character (%x80-C1 and %xF5-FF). */
  function LeadLen(b: byte): nat
  {
    if b <= 0x7F then 1
    else if b < 0xC2 then 0
    else if b <= 0xDF then 2
    else if b <= 0xEF then 3
    else if b <= 0xF4 then 4
    else 0
  }

  /** The range allowed for the byte after a multi-byte lead byte: narrower
      than UTF8-tail after %xE0, %xED, %xF0 and %xF4, which excludes overlong
      forms, surrogates and values above U+10FFFF. */
  function SecondLow(b: byte): byte
  {
    if b == 0xE0 then 0xA0 else if b == 0xF0 then 0x90 else 0x80
  }

  function SecondHigh(b: byte): byte
  {
    if b == 0xED then 0x9F else if b == 0xF4 then 0x8F else 0xBF
  }

  /** The number of bytes of the well-formed character at the front of `s`
      (UTF8-char of section 4 of RFC 3629), or 0 when `s` does not start with
      a complete well-formed character. */
  function CharLen(s: seq<byte>): (n: nat)
    ensures n <= 4 && n <= |s|
  {
    if |s| == 0 then 0
    else
      var n := LeadLen(s[0]);
      if n == 0 || |s| < n then 0
      else if n == 1 then 1
      else if SecondLow(s[0]) <= s[1] <= SecondHigh(s[0])
              && (n < 3 || Tail(s[2])) && (n < 4 || Tail(s[3])) then n
      else 0
  }

  /** A byte sequence is well formed when it is a sequence of well-formed
      characters. */
  predicate Valid(s: seq<byte>)
    decreases |s|
  {
    s == [] || (CharLen(s) > 0 && Valid(s[CharLen(s)..]))
  }

  /** Length of the prefix made of complete well-formed characters, read from
      the front. */
  function ValidUpTo(s: seq<byte>): (v: nat)
    ensures v <= |s|
    decreases |s|
  {
    if CharLen(s) == 0 then 0 else CharLen(s) + ValidUpTo(s[CharLen(s)..])
  }

  predicate IsScalar(v: int) { 0 <= v < 0xD800 || 0xE000 <= v < 0x11_0000 }

  /** The scalar value of the character at the front of `s`. */
  function ScalarAt(s: seq<byte>): (v: int)
    requires CharLen(s) > 0
    ensures IsScalar(v)
  {
    var n := CharLen(s);
    if n == 1 then s[0] as int
    else if n == 2 then (s[0] as int - 0xC0) * 64 + (s[1] as int - 0x80)
    else if n == 3 then (s[0] as int - 0xE0) * 4096 + (s[1] as int - 0x80) * 64 + (s[2] as int - 0x80)
    else (s[0] as int - 0xF0) * 262144 + (s[1] as int - 0x80) * 4096
         + (s[2] as int - 0x80) * 64 + (s[3] as int - 0x80)
  }

  /** The Unicode scalar values of the characters read from the front of `s`
      up to the first byte that does not start a complete well-formed
      character: on a well-formed sequence, Rust's `str::chars` over
      `str::from_utf8`. */
  function Decode(s: seq<byte>): seq<char>
    decreases |s|
  {
    if CharLen(s) == 0 then [] else [ScalarAt(s) as char] + Decode(s[CharLen(s)..])
  }

  /** The UTF-8 form of one character. */
  function EncodeChar(c: char): (r: seq<byte>)
    ensures 1 <= |r| <= 4
  {
    var v := c as int;
    if v < 0x80 then [v as byte]
    else if v < 0x800 then [(0xC0 + v / 64) as byte, (0x80 + v % 64) as byte]
    else if v < 0x1_0000 then
      var r := v % 4096;
      [(0xE0 + v / 4096) as byte, (0x80 + r / 64) as byte, (0x80 + r % 64) as byte]
    else
      var q := v % 262144;
      var r := q % 4096;
      [(0xF0 + v / 262144) as byte, (0x80 + q / 4096) as byte,
       (0x80 + r / 64) as byte, (0x80 + r % 64) as byte]
  }

  /** The UTF-8 form of a string. */
  function Encode(cs: seq<char>): seq<byte>
  {
    if cs == [] then [] else EncodeChar(cs[0]) + Encode(cs[1..])
  }

  // ---------------------------------------------------------------------
  // Lemmas about single characters

  /** The length and value of the front character depend only on its own
      bytes, whatever follows them. */
  lemma CharLenOfExtension(s: seq<byte>, t: seq<byte>)
    requires CharLen(s) > 0
    requires CharLen(s) <= |t| && t[..CharLen(s)] == s[..CharLen(s)]
    ensures CharLen(t) == CharLen(s)
    ensures ScalarAt(t) == ScalarAt(s)
  {
    var n := CharLen(s);
    assert t[0] == s[0];
    assert n >= 2 ==> t[1] == s[1];
    assert n >= 3 ==> t[2] == s[2];
    assert n >= 4 ==> t[3] == s[3];
  }

  /** A character cut short is not a character: if the front character of
      `a + b` needs more bytes than `a` has, `a` starts with no character. */
  lemma CharLenOfTruncation(a: seq<byte>, b: seq<byte>)
    requires |a| < CharLen(a + b)
    ensures CharLen(a) == 0
  {
    var s := a + b;
    if a != [] {
      assert a[0] == s[0];
      assert |a| >= 2 ==> a[1] == s[1];
      assert |a| >= 3 ==> a[2] == s[2];
    }
  }

  /** The encoding of a character is one well-formed character whose scalar
      value is the character, whatever bytes follow it. */
  lemma EncodeCharIsChar(c: char, t: seq<byte>)
    ensures CharLen(EncodeChar(c) + t) == |EncodeChar(c)|
    ensures ScalarAt(EncodeChar(c) + t) == c as int
  {
    var v := c as int;
    if v < 0x80 {
    } else if v < 0x800 {
      EncodeTwo(v, EncodeChar(c) + t);
    } else if v < 0x1_0000 {
      EncodeThree(v, EncodeChar(c) + t);
    } else {
      EncodeFour(v, EncodeChar(c) + t);
    }
  }

  lemma EncodeTwo(v: int, s: seq<byte>)
    requires 0x80 <= v < 0x800 && |s| >= 2
    requires s[0] == (0xC0 + v / 64) as byte && s[1] == (0x80 + v % 64) as byte
    ensures CharLen(s) == 2 && ScalarAt(s) == v
  {
  }

  lemma EncodeThree(v: int, s: seq<byte>)
    requires 0x800 <= v < 0x1_0000 && IsScalar(v) && |s| >= 3
    requires s[0] == (0xE0 + v / 4096) as byte
    requires s[1] == (0x80 + (v % 4096) / 64) as byte && s[2] == (0x80 + (v % 4096) % 64) as byte
    ensures CharLen(s) == 3 && ScalarAt(s) == v
  {
    var a, r := v / 4096, v % 4096;
    assert v == a * 4096 + r;
    assert r == (r / 64) * 64 + r % 64;
  }

  lemma EncodeFour(v: int, s: seq<byte>)
    requires 0x1_0000 <= v < 0x11_0000 && |s| >= 4
    requires s[0] == (0xF0 + v / 262144) as byte
    requires s[1] == (0x80 + (v % 262144) / 4096) as byte
    requires s[2] == (0x80 + ((v % 262144) % 4096) / 64) as byte
    requires s[3] == (0x80 + ((v % 262144) % 4096) % 64) as byte
    ensures CharLen(s) == 4 && ScalarAt(s) == v
  {
    var a, q := v / 262144, v % 262144;
    var r := q % 4096;
    assert v == a * 262144 + q;
    assert q == (q / 4096) * 4096 + r;
    assert r == (r / 64) * 64 + r % 64;
  }

  // ---------------------------------------------------------------------
  // Lemmas about sequences of characters

  /** `valid_up_to` marks a well-formed prefix... */
  lemma {:induction false} ValidUpToIsValidPrefix(s: seq<byte>)
    ensures Valid(s[..ValidUpTo(s)])
    decreases |s|
  {
    var n := CharLen(s);
    if n > 0 {
      var v := ValidUpTo(s);
      ValidUpToIsValidPrefix(s[n..]);
      CharLenOfExtension(s, s[..v]);
      assert s[..v][n..] == s[n..][..ValidUpTo(s[n..])];
    }
  }

  /** ... and no longer prefix is well formed. */
  lemma {:induction false} ValidUpToIsLongest(s: seq<byte>, k: nat)
    requires ValidUpTo(s) < k <= |s|
    ensures !Valid(s[..k])
    decreases |s|
  {
    var n := CharLen(s);
    var p := s[..k];
    if Valid(p) {
      assert p != [];
      var m := CharLen(p);
      CharLenOfExtension(p, s);
      assert m == n && n > 0;
      assert p[n..] == s[n..][..k - n];
      ValidUpToIsLongest(s[n..], k - n);
    }
  }

  /** A sequence is well formed exactly when all of it is its valid prefix:
      so an error from `from_utf8` always leaves bytes after `valid_up_to`. */
  lemma ValidIffValidUpToIsLength(s: seq<byte>)
    ensures Valid(s) <==> ValidUpTo(s) == |s|
  {
    if ValidUpTo(s) == |s| {
      ValidUpToIsValidPrefix(s);
      assert s[..|s|] == s;
    } else if Valid(s) {
      ValidUpToIsLongest(s, |s|);
      assert s[..|s|] == s;
    }
  }

  /** Decoding reads exactly the valid prefix: the bytes from `valid_up_to` on
      decode to nothing. */
  lemma {:induction false} DecodeStopsAtValidUpTo(s: seq<byte>)
    ensures Decode(s[..ValidUpTo(s)]) == Decode(s)
    ensures Decode(s[ValidUpTo(s)..]) == []
    decreases |s|
  {
    var n := CharLen(s);
    var v := ValidUpTo(s);
    if n == 0 {
      assert s[..v] == [] && s[v..] == s;
    } else {
      var t := s[n..];
      DecodeStopsAtValidUpTo(t);
      var p := s[..v];
      CharLenOfExtension(s, p);
      assert p[n..] == t[..ValidUpTo(t)];
      assert s[v..] == t[ValidUpTo(t)..];
    }
  }

  /** Encoding gives well-formed UTF-8 that decodes back to the same string. */
  lemma {:induction false} DecodeEncode(cs: seq<char>)
    ensures Valid(Encode(cs))
    ensures Decode(Encode(cs)) == cs
  {
    if cs != [] {
      var e := Encode(cs);
      var head := EncodeChar(cs[0]);
      EncodeCharIsChar(cs[0], Encode(cs[1..]));
      assert e[|head|..] == Encode(cs[1..]);
      DecodeEncode(cs[1..]);
    }
  }

  /** If `data` is followed by `rest` in a well-formed stream, then decoding
      the valid prefix of `data` and then its leftover bytes glued to `rest`
      decodes the whole stream; the leftover is a cut-short character of at
      most three bytes. */
  lemma {:induction false} SplitAtValidUpTo(data: seq<byte>, rest: seq<byte>)
    requires Valid(data + rest)
    ensures Valid(data[..ValidUpTo(data)])
    ensures Valid(data[ValidUpTo(data)..] + rest)
    ensures Decode(data + rest) == Decode(data[..ValidUpTo(data)]) + Decode(data[ValidUpTo(data)..] + rest)
    ensures |data| - ValidUpTo(data) <= 3
    decreases |data|, 1
  {
    var v := ValidUpTo(data);
    ValidUpToIsValidPrefix(data);
    var s := data + rest;
    if data == [] {
      assert data[v..] + rest == s;
    } else if CharLen(s) <= |data| {
      SplitAfterFirstChar(data, rest);
    } else {
      CharLenOfTruncation(data, rest);
      assert data[..v] == [] && data[v..] == data;
    }
  }

  /** The case of `SplitAtValidUpTo` where the first character of the stream
      lies inside `data`. */
  lemma {:induction false} SplitAfterFirstChar(data: seq<byte>, rest: seq<byte>)
    requires Valid(data + rest) && data != [] && CharLen(data + rest) <= |data|
    ensures Valid(data[..ValidUpTo(data)])
    ensures Valid(data[ValidUpTo(data)..] + rest)
    ensures Decode(data + rest) == Decode(data[..ValidUpTo(data)]) + Decode(data[ValidUpTo(data)..] + rest)
    ensures |data| - ValidUpTo(data) <= 3
    decreases |data|, 0
  {
    var s := data + rest;
    var n := CharLen(s);
    var tail := data[n..];
    var w := ValidUpTo(tail);
    var v := ValidUpTo(data);
    assert v == n + w by {
      CharLenOfExtension(s, data);
    }
    DecodeFirst(s);
    SliceFacts(data, rest, n, w);
    SplitAtValidUpTo(tail, rest);
    DecodeFirstOfPrefix(s, data[..v]);
    AppendAssociative([ScalarAt(s) as char], Decode(tail[..w]), Decode(tail[w..] + rest));
  }

  lemma SliceFacts(data: seq<byte>, rest: seq<byte>, n: nat, w: nat)
    requires n + w <= |data|
    ensures (data + rest)[n..] == data[n..] + rest
    ensures data[..n + w][n..] == data[n..][..w]
    ensures data[n + w..] + rest == data[n..][w..] + rest
    ensures (data + rest)[..n + w] == data[..n + w]
  {
  }

  /** Decoding a well-formed non-empty sequence yields its front character
      and then the decoding of the rest. */
  lemma DecodeFirst(s: seq<byte>)
    requires Valid(s) && s != []
    ensures CharLen(s) > 0 && Valid(s[CharLen(s)..])
    ensures Decode(s) == [ScalarAt(s) as char] + Decode(s[CharLen(s)..])
  {
  }

  /** A prefix of `s` that holds the front character of `s` and then
      well-formed bytes is well formed and decodes to that character first. */
  lemma DecodeFirstOfPrefix(s: seq<byte>, p: seq<byte>)
    requires CharLen(s) > 0 && CharLen(s) <= |p| <= |s| && p == s[..|p|]
    requires Valid(p[CharLen(s)..])
    ensures Valid(p)
    ensures Decode(p) == [ScalarAt(s) as char] + Decode(p[CharLen(s)..])
  {
    CharLenOfExtension(s, p);
  }
}
