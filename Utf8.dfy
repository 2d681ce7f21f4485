/**
  Python's `str.encode()` and `bytes.decode()` with their default codec, UTF-8,
  and the default "strict" error handling: a string is a sequence of Unicode
  scalar values (Dafny's `char`), and decoding fails on any byte sequence that
  is not well-formed UTF-8 (Table 3-7 of the Unicode Standard).
*/
module Utf8 {
  import opened Common

  predicate IsAscii(s: string) {
    forall i :: 0 <= i < |s| ==> s[i] as int < 0x80
  }

  predicate IsContinuation(b: int) {
    0x80 <= b <= 0xBF
  }

  /** The UTF-8 encoding of one character. */
  function EncodeChar(c: char): (bs: seq<Byte>)
    ensures 1 <= |bs| <= 4
    ensures |bs| == 1 <==> c as int < 0x80
    ensures |bs| == 1 ==> bs[0] == c as int
  {
    var n := c as int;
    var q1 := n / 64;
    var q2 := q1 / 64;
    var q3 := q2 / 64;
    if n < 0x80 then [n]
    else if n < 0x800 then [0xC0 + q1, 0x80 + n % 64]
    else if n < 0x10000 then [0xE0 + q2, 0x80 + q1 % 64, 0x80 + n % 64]
    else [0xF0 + q3, 0x80 + q2 % 64, 0x80 + q1 % 64, 0x80 + n % 64]
  }

  /** `s.encode()`: the characters' encodings, one after the other. */
  function Encode(s: string): (bs: seq<Byte>)
  {
    if s == [] then [] else EncodeChar(s[0]) + Encode(s[1..])
  }

  /**
    The first character of `bs` and the number of bytes it takes, or None when
    `bs` does not start with a well-formed UTF-8 sequence.
  */
  function DecodeFirst(bs: seq<Byte>): (r: Option<(char, nat)>)
    requires bs != []
    ensures r.Some? ==> 1 <= r.value.1 <= |bs| && r.value.1 <= 4
    ensures r.Some? ==> EncodeChar(r.value.0) == bs[..r.value.1]
  {
    var b0: int := bs[0];
    if b0 < 0x80 then
      Some((b0 as char, 1))
    else if 0xC2 <= b0 <= 0xDF then
      if 2 <= |bs| && IsContinuation(bs[1]) then
        DecodeTwo(b0, bs[1]);
        Some((((b0 - 0xC0) * 64 + (bs[1] as int - 0x80)) as char, 2))
      else None
    else if 0xE0 <= b0 <= 0xEF then
      var lo := if b0 == 0xE0 then 0xA0 else 0x80;
      var hi := if b0 == 0xED then 0x9F else 0xBF;
      if 3 <= |bs| && lo <= bs[1] <= hi && IsContinuation(bs[2]) then
        DecodeThree(b0, bs[1], bs[2]);
        Some((((b0 - 0xE0) * 4096 + (bs[1] as int - 0x80) * 64 + (bs[2] as int - 0x80)) as char, 3))
      else None
    else if 0xF0 <= b0 <= 0xF4 then
      var lo := if b0 == 0xF0 then 0x90 else 0x80;
      var hi := if b0 == 0xF4 then 0x8F else 0xBF;
      if 4 <= |bs| && lo <= bs[1] <= hi && IsContinuation(bs[2]) && IsContinuation(bs[3]) then
        DecodeFour(b0, bs[1], bs[2], bs[3]);
        Some((((b0 - 0xF0) * 262144 + (bs[1] as int - 0x80) * 4096 + (bs[2] as int - 0x80) * 64 + (bs[3] as int - 0x80)) as char, 4))
      else None
    else
      None
  }

  /** `bs.decode()`: the decoded string, or DecodeError. */
  function Decode(bs: seq<Byte>): (r: Result<string>)
    ensures r.Err? ==> r.error == DecodeError
    ensures r.Ok? ==> |r.value| <= |bs|
    decreases |bs|
  {
    if bs == [] then Ok([])
    else
      match DecodeFirst(bs)
      case None => Err(DecodeError)
      case Some((c, n)) =>
        match Decode(bs[n..])
        case Err(e) => Err(e)
        case Ok(s) => Ok([c] + s)
  }

  /** Every character takes at least one byte. */
  lemma {:induction false} EncodeLength(s: string)
    ensures |Encode(s)| >= |s|
  {
    if s != [] {
      EncodeLength(s[1..]);
    }
  }

  /** The encoding has one byte per character exactly when the string is ASCII. */
  lemma {:induction false} OneBytePerCharIffAscii(s: string)
    ensures |Encode(s)| == |s| <==> IsAscii(s)
  {
    if s != [] {
      OneBytePerCharIffAscii(s[1..]);
      EncodeLength(s[1..]);
      if IsAscii(s[1..]) && s[0] as int < 0x80 {
        assert forall i :: 1 <= i < |s| ==> s[i] == s[1..][i - 1];
      }
    }
  }

  /** Decoding only accepts what encoding produces: a decoded string re-encodes to its bytes. */
  lemma {:induction false} DecodeSound(bs: seq<Byte>)
    ensures Decode(bs).Ok? ==> Encode(Decode(bs).value) == bs
    decreases |bs|
  {
    if bs != [] && DecodeFirst(bs).Some? {
      var (c, n) := DecodeFirst(bs).value;
      DecodeSound(bs[n..]);
      if Decode(bs[n..]).Ok? {
        EncodeCons(c, Decode(bs[n..]).value, bs, n);
      }
    }
  }

  /** A character's encoding followed by the encoding of the rest is the encoding of both. */
  lemma EncodeCons(c: char, s: string, bs: seq<Byte>, n: nat)
    requires n <= |bs| && EncodeChar(c) == bs[..n] && Encode(s) == bs[n..]
    ensures Encode([c] + s) == bs
  {
    assert ([c] + s)[1..] == s;
    assert bs == bs[..n] + bs[n..];
  }

  lemma DecodeTwo(b0: int, b1: int)
    requires 0xC2 <= b0 <= 0xDF && IsContinuation(b1)
    ensures var n := (b0 - 0xC0) * 64 + (b1 - 0x80);
      0x80 <= n < 0x800 && EncodeChar(n as char) == [b0, b1]
  {
    var n := (b0 - 0xC0) * 64 + (b1 - 0x80);
    assert n / 64 == b0 - 0xC0 && n % 64 == b1 - 0x80;
  }

  lemma DecodeThree(b0: int, b1: int, b2: int)
    requires 0xE0 <= b0 <= 0xEF && IsContinuation(b1) && IsContinuation(b2)
    requires b0 == 0xE0 ==> b1 >= 0xA0
    requires b0 == 0xED ==> b1 <= 0x9F
    ensures var n := (b0 - 0xE0) * 4096 + (b1 - 0x80) * 64 + (b2 - 0x80);
      0x800 <= n < 0x10000 && (n < 0xD800 || 0xE000 <= n) && EncodeChar(n as char) == [b0, b1, b2]
  {
    var n := (b0 - 0xE0) * 4096 + (b1 - 0x80) * 64 + (b2 - 0x80);
    var q1 := (b0 - 0xE0) * 64 + (b1 - 0x80);
    assert n == q1 * 64 + (b2 - 0x80);
    assert n / 64 == q1 && n % 64 == b2 - 0x80;
    assert q1 / 64 == b0 - 0xE0 && q1 % 64 == b1 - 0x80;
  }

  lemma DecodeFour(b0: int, b1: int, b2: int, b3: int)
    requires 0xF0 <= b0 <= 0xF4 && IsContinuation(b1) && IsContinuation(b2) && IsContinuation(b3)
    requires b0 == 0xF0 ==> b1 >= 0x90
    requires b0 == 0xF4 ==> b1 <= 0x8F
    ensures var n := (b0 - 0xF0) * 262144 + (b1 - 0x80) * 4096 + (b2 - 0x80) * 64 + (b3 - 0x80);
      0x10000 <= n < 0x110000 && EncodeChar(n as char) == [b0, b1, b2, b3]
  {
    var n := (b0 - 0xF0) * 262144 + (b1 - 0x80) * 4096 + (b2 - 0x80) * 64 + (b3 - 0x80);
    var q2 := (b0 - 0xF0) * 64 + (b1 - 0x80);
    var q1 := q2 * 64 + (b2 - 0x80);
    assert n == q1 * 64 + (b3 - 0x80);
    assert n / 64 == q1 && n % 64 == b3 - 0x80;
    assert q1 / 64 == q2 && q1 % 64 == b2 - 0x80;
    assert q2 / 64 == b0 - 0xF0 && q2 % 64 == b1 - 0x80;
  }

  /** Every character's encoding is read back as that character, whatever follows it. */
  lemma EncodeCharDecodes(c: char, rest: seq<Byte>)
    ensures DecodeFirst(EncodeChar(c) + rest) == Some((c, |EncodeChar(c)|))
  {
    var n := c as int;
    var bs := EncodeChar(c) + rest;
    var q1 := n / 64;
    var q2 := q1 / 64;
    if n < 0x80 {
    } else if n < 0x800 {
      assert n == q1 * 64 + n % 64;
    } else if n < 0x10000 {
      assert q1 == q2 * 64 + q1 % 64;
      assert n == q1 * 64 + n % 64;
    } else {
      var q3 := q2 / 64;
      assert q2 == q3 * 64 + q2 % 64;
      assert q1 == q2 * 64 + q1 % 64;
      assert n == q1 * 64 + n % 64;
    }
  }

  lemma {:induction false} EncodeAppend(a: string, b: string)
    ensures Encode(a + b) == Encode(a) + Encode(b)
  {
    if a == [] {
      assert a + b == b;
    } else {
      assert (a + b)[0] == a[0];
      assert (a + b)[1..] == a[1..] + b;
      EncodeAppend(a[1..], b);
    }
  }

  /** Decoding undoes encoding: `s.encode().decode() == s` for every string. */
  lemma {:induction false} DecodeEncode(s: string)
    ensures Decode(Encode(s)) == Ok(s)
  {
    if s != [] {
      var e := EncodeChar(s[0]);
      var bs := Encode(s);
      EncodeCharDecodes(s[0], Encode(s[1..]));
      assert bs[|e|..] == Encode(s[1..]);
      DecodeEncode(s[1..]);
      assert [s[0]] + s[1..] == s;
    }
  }

  /** On ASCII text the encoding is the sequence of code points, one byte per character. */
  lemma {:induction false} AsciiEncoding(s: string)
    requires IsAscii(s)
    ensures |Encode(s)| == |s|
    ensures forall i :: 0 <= i < |s| ==> Encode(s)[i] == s[i] as int
  {
    if s != [] {
      assert IsAscii(s[1..]);
      AsciiEncoding(s[1..]);
    }
  }

  /** Any prefix of an ASCII string's encoding decodes to the same prefix of the string. */
  lemma AsciiPrefixDecodes(s: string, k: nat)
    requires IsAscii(s) && k <= |s|
    ensures |Encode(s)| == |s| && Encode(s)[..k] == Encode(s[..k])
    ensures Decode(Encode(s)[..k]) == Ok(s[..k])
  {
    var front, back := s[..k], s[k..];
    assert s == front + back;
    EncodeAppend(front, back);
    assert IsAscii(front);
    AsciiEncoding(front);
    var e := Encode(front);
    assert Encode(s) == e + Encode(back);
    assert (e + Encode(back))[..|e|] == e;
    DecodeEncode(front);
  }
}
