/**
  The length-prefixed wire codec of protocol.py. A message is two frames, the
  command and then the argument string; a frame is a 4-byte length in network
  byte order followed by the frame's payload.
*/
module Protocol {
  import opened Common
  import opened Stream
  import Utf8

  /** LENGTH_SIZE: the width of a length field. */
  const LengthSize: nat := 4
  /** The first length that `socket.htonl` refuses. */
  const Two32: nat := 0x1_0000_0000

  /** `struct.pack('I', socket.htonl(n))`: `n` as four bytes, most significant first. */
  function EncodeU32(n: nat): (bs: seq<Byte>)
    requires n < Two32
    ensures |bs| == LengthSize
    ensures DecodeU32(bs) == n
  {
    var q1 := n / 0x100;
    var q2 := q1 / 0x100;
    var q3 := q2 / 0x100;
    assert q2 == q3 * 0x100 + q2 % 0x100;
    assert q1 == q2 * 0x100 + q1 % 0x100;
    assert n == q1 * 0x100 + n % 0x100;
    [q3, q2 % 0x100, q1 % 0x100, n % 0x100]
  }

  /** `socket.ntohl(struct.unpack('I', bs)[0])`: four bytes read as a big-endian unsigned number. */
  function DecodeU32(bs: seq<Byte>): (n: nat)
    requires |bs| == LengthSize
    ensures n < Two32
  {
    ((bs[0] as int * 0x100 + bs[1]) * 0x100 + bs[2]) * 0x100 + bs[3]
  }

  /** The other direction: every 4-byte field is the encoding of the number it denotes. */
  lemma EncodeDecodeU32(bs: seq<Byte>)
    requires |bs| == LengthSize
    ensures EncodeU32(DecodeU32(bs)) == bs
  {
    var q2 := bs[0] as int * 0x100 + bs[1];
    var q1 := q2 * 0x100 + bs[2];
    var n := q1 * 0x100 + bs[3];
    assert n / 0x100 == q1 && n % 0x100 == bs[3];
    assert q1 / 0x100 == q2 && q1 % 0x100 == bs[2];
    assert q2 / 0x100 == bs[0] && q2 % 0x100 == bs[1];
  }

  /**
    The buffer `send` builds: the length field of each string counts its
    characters (`len(cmd)`), while its payload is its UTF-8 encoding.
  */
  function EncodeMessage(cmd: string, args: string): (r: Result<seq<Byte>>)
    ensures r.Err? <==> |cmd| >= Two32 || |args| >= Two32
    ensures r.Err? ==> r.error == LengthOverflow
    ensures r.Ok? ==>
      var m, c, a := r.value, Utf8.Encode(cmd), Utf8.Encode(args);
      && |m| == 2 * LengthSize + |c| + |a|
      && DecodeU32(m[..4]) == |cmd|
      && m[4..4 + |c|] == c
      && DecodeU32(m[4 + |c|..8 + |c|]) == |args|
      && m[8 + |c|..] == a
  {
    if |cmd| >= Two32 || |args| >= Two32 then Err(LengthOverflow)
    else
      var c, a := Utf8.Encode(cmd), Utf8.Encode(args);
      FrameLayout(EncodeU32(|cmd|), c, EncodeU32(|args|), a);
      Ok(EncodeU32(|cmd|) + c + EncodeU32(|args|) + a)
  }

  /** The same buffer with each length field counting the bytes of its payload. */
  function EncodeMessageCorrected(cmd: string, args: string): (r: Result<seq<Byte>>)
    ensures r.Err? <==> |Utf8.Encode(cmd)| >= Two32 || |Utf8.Encode(args)| >= Two32
    ensures r.Err? ==> r.error == LengthOverflow
    ensures r.Ok? ==>
      var m, c, a := r.value, Utf8.Encode(cmd), Utf8.Encode(args);
      && |m| == 2 * LengthSize + |c| + |a|
      && DecodeU32(m[..4]) == |c|
      && m[4..4 + |c|] == c
      && DecodeU32(m[4 + |c|..8 + |c|]) == |a|
      && m[8 + |c|..] == a
  {
    var c, a := Utf8.Encode(cmd), Utf8.Encode(args);
    if |c| >= Two32 || |a| >= Two32 then Err(LengthOverflow)
    else
      FrameLayout(EncodeU32(|c|), c, EncodeU32(|a|), a);
      Ok(EncodeU32(|c|) + c + EncodeU32(|a|) + a)
  }

  /** Where the four pieces of a two-frame buffer sit. */
  lemma FrameLayout(h1: seq<Byte>, c: seq<Byte>, h2: seq<Byte>, a: seq<Byte>)
    requires |h1| == LengthSize && |h2| == LengthSize
    ensures var m := h1 + c + h2 + a;
      && |m| == 2 * LengthSize + |c| + |a|
      && m[..4] == h1
      && m[4..4 + |c|] == c
      && m[4 + |c|..8 + |c|] == h2
      && m[8 + |c|..] == a
  {
  }

  /**
    What `receive_with_length` returns, and what it leaves unread: the next
    `length` bytes, or nothing at all when the peer closes first (having
    consumed what there was).
  */
  function ReadExactly(inbox: seq<Byte>, length: nat): (r: (seq<Byte>, seq<Byte>))
    ensures |r.0| == length || r.0 == []
    ensures |inbox| >= length ==> |r.0| == length && r.0 + r.1 == inbox
    ensures |inbox| < length ==> r == ([], [])
  {
    if |inbox| >= length then (inbox[..length], inbox[length..]) else ([], [])
  }

  /** The bytes `receive_part` reads as a frame's payload (None: no length field), and what it leaves unread. */
  function ReadFrame(inbox: seq<Byte>): (r: (Option<seq<Byte>>, seq<Byte>))
  {
    var (prefix, rest) := ReadExactly(inbox, LengthSize);
    if |prefix| != LengthSize then (None, rest)
    else
      var (payload, rest') := ReadExactly(rest, DecodeU32(prefix));
      (Some(payload), rest')
  }

  /** What `receive_part` returns, and what it leaves unread. */
  function ReadPart(inbox: seq<Byte>): (r: (Result<string>, seq<Byte>))
    ensures |r.1| <= |inbox| && r.1 == inbox[|inbox| - |r.1|..]
    ensures r.0 == Err(ShortLengthPrefix) <==> |inbox| < LengthSize
    ensures |inbox| >= LengthSize && |inbox| - LengthSize < DecodeU32(inbox[..LengthSize]) ==> r == (Ok([]), [])
  {
    match ReadFrame(inbox)
    case (None, rest) => (Err(ShortLengthPrefix), rest)
    case (Some(payload), rest) => (Utf8.Decode(payload), rest)
  }

  /** What `receive` returns, and what it leaves unread. */
  function ReadMessage(inbox: seq<Byte>): (r: (Result<(string, string)>, seq<Byte>))
    ensures |r.1| <= |inbox| && r.1 == inbox[|inbox| - |r.1|..]
    ensures ReadPart(inbox).0.Err? ==> r == (Err(ReadPart(inbox).0.error), ReadPart(inbox).1)
    ensures r.0.Ok? ==> ReadPart(inbox).0 == Ok(r.0.value.0)
  {
    var (cmd, rest) := ReadPart(inbox);
    match cmd
    case Err(e) => (Err(e), rest)
    case Ok(c) =>
      var (data, rest') := ReadPart(rest);
      SuffixOfSuffix(inbox, rest, rest');
      match data
      case Err(e) => (Err(e), rest')
      case Ok(d) => (Ok((c, d)), rest')
  }

  lemma SuffixOfSuffix(a: seq<Byte>, b: seq<Byte>, c: seq<Byte>)
    requires |b| <= |a| && b == a[|a| - |b|..]
    requires |c| <= |b| && c == b[|b| - |c|..]
    ensures c == a[|a| - |c|..]
  {
  }

  /** A length field followed by that many bytes is read as a frame with exactly those bytes, whatever follows. */
  lemma ReadFrameOf(header: seq<Byte>, payload: seq<Byte>, more: seq<Byte>)
    requires |header| == LengthSize && DecodeU32(header) == |payload|
    ensures ReadFrame(header + payload + more) == (Some(payload), more)
  {
    assert header + payload + more == header + (payload + more);
    PrefixSplit(header, payload + more);
    PrefixSplit(payload, more);
  }

  /** A frame whose length field counts its payload's bytes is read back whole, whatever follows it. */
  lemma ReadPartOfFrame(payload: seq<Byte>, more: seq<Byte>)
    requires |payload| < Two32
    ensures ReadPart(EncodeU32(|payload|) + payload + more) == (Utf8.Decode(payload), more)
  {
    ReadFrameOf(EncodeU32(|payload|), payload, more);
  }

  lemma PrefixSplit(a: seq<Byte>, b: seq<Byte>)
    ensures ReadExactly(a + b, |a|) == (a, b)
  {
    assert (a + b)[..|a|] == a && (a + b)[|a|..] == b;
  }

  /** A frame whose length field is `k`, shorter than its payload, is read as the payload's first `k` bytes. */
  lemma ReadPartOfShortHeader(payload: seq<Byte>, k: nat, more: seq<Byte>)
    requires k < |payload| && k < Two32
    ensures ReadPart(EncodeU32(k) + payload + more).0 == Utf8.Decode(payload[..k])
  {
    assert payload + more == payload[..k] + (payload[k..] + more);
    ReadFrameOf(EncodeU32(k), payload[..k], payload[k..] + more);
    assert EncodeU32(k) + payload + more == EncodeU32(k) + payload[..k] + (payload[k..] + more);
  }

  /**
    Repairing the length fields (EncodeMessageCorrected) makes `receive` read
    back every message `send` writes, consuming exactly its bytes.
  */
  lemma CorrectedRoundTrip(cmd: string, args: string, more: seq<Byte>)
    requires EncodeMessageCorrected(cmd, args).Ok?
    ensures ReadMessage(EncodeMessageCorrected(cmd, args).value + more) == (Ok((cmd, args)), more)
  {
    var c, a := Utf8.Encode(cmd), Utf8.Encode(args);
    var tail := EncodeU32(|a|) + a + more;
    assert EncodeMessageCorrected(cmd, args).value + more == EncodeU32(|c|) + c + tail;
    ReadPartOfFrame(c, tail);
    ReadPartOfFrame(a, more);
    Utf8.DecodeEncode(cmd);
    Utf8.DecodeEncode(args);
  }

  /** On ASCII strings the code's length fields and the corrected ones coincide. */
  lemma CorrectedAgreesOnAscii(cmd: string, args: string)
    requires Utf8.IsAscii(cmd) && Utf8.IsAscii(args)
    ensures EncodeMessage(cmd, args) == EncodeMessageCorrected(cmd, args)
  {
    Utf8.OneBytePerCharIffAscii(cmd);
    Utf8.OneBytePerCharIffAscii(args);
  }

  /**
    The code as written: `receive` reads back what `send` wrote, consuming
    exactly its bytes, if and only if both strings are ASCII. A non-ASCII
    character makes the length field shorter than the payload, so the reader
    stops inside the payload.
  */
  lemma {:induction false} RoundTripIffAscii(cmd: string, args: string, more: seq<Byte>)
    requires |cmd| < Two32 && |args| < Two32
    ensures ReadMessage(EncodeMessage(cmd, args).value + more).0 == Ok((cmd, args))
        <==> Utf8.IsAscii(cmd) && Utf8.IsAscii(args)
    ensures Utf8.IsAscii(cmd) && Utf8.IsAscii(args) ==>
        ReadMessage(EncodeMessage(cmd, args).value + more).1 == more
  {
    var c, a := Utf8.Encode(cmd), Utf8.Encode(args);
    var tail := EncodeU32(|args|) + a + more;
    var inbox := EncodeMessage(cmd, args).value + more;
    assert inbox == EncodeU32(|cmd|) + c + tail;
    if Utf8.IsAscii(cmd) && Utf8.IsAscii(args) {
      CorrectedAgreesOnAscii(cmd, args);
      CorrectedRoundTrip(cmd, args, more);
    } else if !Utf8.IsAscii(cmd) {
      ShortHeaderIsNotReadBack(cmd, tail);
    } else {
      Utf8.OneBytePerCharIffAscii(cmd);
      ReadPartOfFrame(c, tail);
      Utf8.DecodeEncode(cmd);
      assert ReadPart(inbox) == (Ok(cmd), tail);
      ShortHeaderIsNotReadBack(args, more);
    }
  }

  /**
    A string with a non-ASCII character, framed as `send` frames it, is not
    read back: the length field stops the reader inside the payload.
  */
  lemma ShortHeaderIsNotReadBack(s: string, more: seq<Byte>)
    requires |s| < Two32 && !Utf8.IsAscii(s)
    ensures ReadPart(EncodeU32(|s|) + Utf8.Encode(s) + more).0 != Ok(s)
  {
    var e := Utf8.Encode(s);
    Utf8.OneBytePerCharIffAscii(s);
    Utf8.EncodeLength(s);
    ReadPartOfShortHeader(e, |s|, more);
    Utf8.DecodeSound(e[..|s|]);
  }

  /** One concrete case: a one-character command 'é' (two bytes in UTF-8) is refused by the reader. */
  lemma NonAsciiCommandIsNotReadBack()
    ensures EncodeMessage("\U{E9}", "").Ok?
    ensures ReadMessage(EncodeMessage("\U{E9}", "").value).0 == Err(DecodeError)
  {
    var m := EncodeMessage("\U{E9}", "").value;
    assert Utf8.Encode("\U{E9}") == [0xC3, 0xA9];
    assert m == [0, 0, 0, 1, 0xC3, 0xA9, 0, 0, 0, 0];
    assert ReadExactly(m, LengthSize).0 == [0, 0, 0, 1];
    assert ReadExactly(m[4..], 1).0 == [0xC3];
  }

  /** `send_data`: loops until the socket has accepted every byte of `data`. */
  method SendData(sock: Socket, data: seq<Byte>)
    modifies sock
    ensures sock.outbox == old(sock.outbox) + data
    ensures sock.inbox == old(sock.inbox)
    ensures sock.sendCalls <= old(sock.sendCalls) + |data|
    ensures data == [] ==> sock.sendCalls == old(sock.sendCalls)
  {
    var rest := data;
    while rest != []
      invariant |rest| <= |data| && rest == data[|data| - |rest|..]
      invariant sock.outbox == old(sock.outbox) + data[..|data| - |rest|]
      invariant sock.inbox == old(sock.inbox)
      invariant old(sock.sendCalls) <= sock.sendCalls <= old(sock.sendCalls) + (|data| - |rest|)
      decreases |rest|
    {
      var count := sock.Send(rest);
      assert data[..|data| - |rest|] + rest[..count] == data[..|data| - |rest| + count];
      rest := rest[count..];
    }
  }

  /** `send`: writes the command frame and then the argument frame; an overlong string raises before anything is written. */
  method Send(sock: Socket, cmd: string, args: string) returns (outcome: Outcome)
    modifies sock
    ensures EncodeMessage(cmd, args).Ok? ==>
      outcome == Pass && sock.outbox == old(sock.outbox) + EncodeMessage(cmd, args).value
    ensures EncodeMessage(cmd, args).Err? ==>
      outcome == Fail(LengthOverflow) && sock.outbox == old(sock.outbox)
    ensures sock.inbox == old(sock.inbox)
  {
    match EncodeMessage(cmd, args)
    case Err(e) =>
      outcome := Fail(e);
    case Ok(data) =>
      SendData(sock, data);
      outcome := Pass;
  }

  /**
    `receive_with_length`: calls `recv` until `length` bytes have arrived. The
    result does not depend on how the network splits the bytes: every choice
    `Recv` may make ends in the same state.
  */
  method ReceiveWithLength(sock: Socket, length: nat) returns (result: seq<Byte>)
    modifies sock
    ensures (result, sock.inbox) == ReadExactly(old(sock.inbox), length)
    ensures sock.outbox == old(sock.outbox)
    ensures sock.recvCalls <= old(sock.recvCalls) + length
    ensures length == 0 ==> sock.recvCalls == old(sock.recvCalls)
  {
    result := [];
    while |result| < length
      invariant |result| <= length
      invariant result + sock.inbox == old(sock.inbox)
      invariant sock.outbox == old(sock.outbox)
      invariant old(sock.recvCalls) <= sock.recvCalls <= old(sock.recvCalls) + |result|
      decreases length - |result|
    {
      var received := sock.Recv(length - |result|);
      if received == [] {
        result := [];
        break;
      }
      result := result + received;
    }
  }

  /** `receive_part`: a length field, then that many bytes, decoded as UTF-8. */
  method ReceivePart(sock: Socket) returns (r: Result<string>)
    modifies sock
    ensures (r, sock.inbox) == ReadPart(old(sock.inbox))
    ensures sock.outbox == old(sock.outbox)
  {
    var lenBytes := ReceiveWithLength(sock, LengthSize);
    if |lenBytes| != LengthSize {
      return Err(ShortLengthPrefix);
    }
    var payload := ReceiveWithLength(sock, DecodeU32(lenBytes));
    r := Utf8.Decode(payload);
  }

  /** `receive`: the command frame, then the argument frame. */
  method Receive(sock: Socket) returns (r: Result<(string, string)>)
    modifies sock
    ensures (r, sock.inbox) == ReadMessage(old(sock.inbox))
    ensures sock.outbox == old(sock.outbox)
  {
    var cmd := ReceivePart(sock);
    if cmd.Err? {
      return Err(cmd.error);
    }
    var data := ReceivePart(sock);
    if data.Err? {
      return Err(data.error);
    }
    r := Ok((cmd.value, data.value));
  }

  /**
    One end of a connection calls `send`, the other calls `receive` on what
    arrived: the message comes back exactly when both strings are ASCII.
  */
  method Loopback(cmd: string, args: string) returns (r: Result<(string, string)>)
    requires |cmd| < Two32 && |args| < Two32
    ensures r == Ok((cmd, args)) <==> Utf8.IsAscii(cmd) && Utf8.IsAscii(args)
  {
    ghost var m := EncodeMessage(cmd, args).value;
    RoundTripIffAscii(cmd, args, []);
    assert m + [] == m;
    var near := new Socket([]);
    var _ := Send(near, cmd, args);
    assert near.outbox == m;
    var far := new Socket(near.outbox);
    r := Receive(far);
    assert r == ReadMessage(m).0;
  }
}
