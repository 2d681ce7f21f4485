/**
  Properties of the client and the server taken together: the server's
  answers to the commands the client lets through, and the client's reading
  of the server's `len$content` replies.
*/
module Exchange {
  import opened Common
  import opened Decimal
  import Utf8
  import Server
  import Client

  /**
    The server answers "Invalid command." exactly to the requests the client
    refuses to send (unless the clock itself reads "Invalid command.").
  */
  lemma ServerRejectsExactlyInvalid(request: string, now: string, roll: Server.Die)
    requires now != Server.InvalidCommand
    ensures Server.RequestToResponse(request, now, roll) == Server.InvalidCommand
        <==> !Client.IsCmdValid(request)
  {
    Client.IsCmdValidIff(request);
    Server.RequestToResponseCases(request, now, roll);
    var r := Server.RequestToResponse(request, now, roll);
    if request == "RAND" {
      assert IsDigit(r[0]);
      assert !IsDigit(Server.InvalidCommand[0]);
    }
    assert Server.ServerName[0] != Server.InvalidCommand[0];
    assert Server.Exiting[0] != Server.InvalidCommand[0];
  }

  /** Every response, and so every message, is ASCII text when the clock's reading is. */
  lemma ResponseIsAscii(request: string, now: string, roll: Server.Die)
    requires Utf8.IsAscii(now)
    ensures Utf8.IsAscii(Server.RequestToResponse(request, now, roll))
    ensures Utf8.IsAscii(Server.Reply(request, now, roll))
  {
    Server.RequestToResponseCases(request, now, roll);
    var r := Server.RequestToResponse(request, now, roll);
    if request == "RAND" {
      assert forall i :: 0 <= i < |r| ==> IsDigit(r[i]);
    }
    ProtocolizeIsAscii(r);
  }

  lemma ProtocolizeIsAscii(content: string)
    requires Utf8.IsAscii(content)
    ensures Utf8.IsAscii(Server.ProtocolizeContent(content))
  {
    var h := NatToDecimal(|content|);
    NatToDecimalDenotes(|content|);
    var m := Server.ProtocolizeContent(content);
    assert m == h + "$" + content;
    forall i | 0 <= i < |m|
      ensures m[i] as int < 0x80
    {
      if i < |h| {
        assert m[i] == h[i] && IsDigit(h[i]);
      } else if i > |h| {
        assert m[i] == content[i - |h| - 1];
      }
    }
  }

  /** The bytes of a framed message: the length field's digits, the `$`, the content's bytes. */
  lemma EncodeProtocolized(content: string)
    ensures Utf8.Encode(Server.ProtocolizeContent(content))
      == Utf8.Encode(NatToDecimal(|content|)) + [Client.Dollar] + Utf8.Encode(content)
  {
    var h := NatToDecimal(|content|);
    Utf8.EncodeAppend(h + "$", content);
    Utf8.EncodeAppend(h, "$");
    assert Utf8.Encode("$") == [Client.Dollar];
  }

  /**
    `get_response` on a stream that starts with `protocolize_content(c)`, for
    ASCII `c`: the length field is read as `len(c)`, and the single final read
    yields a prefix of `c`, with at least one character when `c` has one. It
    yields all of `c` exactly when that read took the whole content.
  */
  lemma ClientReadsProtocolized(c: string, more: seq<Byte>, r: Result<string>, after: seq<Byte>)
    requires Utf8.IsAscii(c)
    requires Client.GetResponseOutcome(Utf8.Encode(Server.ProtocolizeContent(c)) + more, r, after)
    ensures r.Ok? && |r.value| <= |c| && r.value == c[..|r.value|]
    ensures c != [] ==> r.value != []
    ensures r == Ok(c) <==> after == more
  {
    LengthFieldOfProtocolized(c, more, r, after);
    FinalReadOfAscii(c, more, r, after);
  }

  /** `get_response` reads the length field of `protocolize_content(c)` as `len(c)` and then makes its final read from the content's bytes. */
  lemma LengthFieldOfProtocolized(c: string, more: seq<Byte>, r: Result<string>, after: seq<Byte>)
    requires Client.GetResponseOutcome(Utf8.Encode(Server.ProtocolizeContent(c)) + more, r, after)
    ensures Client.FinalRead(Utf8.Encode(c) + more, |c|, r, after)
  {
    var h := NatToDecimal(|c|);
    var rest := Utf8.Encode(c) + more;
    NatToDecimalDenotes(|c|);
    EncodeProtocolized(c);
    AppendAssoc(Utf8.Encode(h) + [Client.Dollar], Utf8.Encode(c), more);
    Client.OutcomeAfterDigits(h, rest, r, after);
  }

  lemma AppendAssoc(a: seq<Byte>, b: seq<Byte>, c: seq<Byte>)
    ensures (a + b) + c == a + (b + c)
  {
  }

  /** The final read of `len(c)` bytes from the bytes of an ASCII `c` yields a prefix of `c`. */
  lemma FinalReadOfAscii(c: string, more: seq<Byte>, r: Result<string>, after: seq<Byte>)
    requires Utf8.IsAscii(c)
    requires Client.FinalRead(Utf8.Encode(c) + more, |c|, r, after)
    ensures r.Ok? && |r.value| <= |c| && r.value == c[..|r.value|]
    ensures c != [] ==> r.value != []
    ensures r == Ok(c) <==> after == more
  {
    var e := Utf8.Encode(c);
    var rest := e + more;
    var k := |rest| - |after|;
    Utf8.AsciiPrefixDecodes(c, k);
    assert rest[..k] == e[..k];
    assert r == Ok(c[..k]);
    if after == more {
      assert c[..k] == c;
    }
    if r == Ok(c) {
      assert |c[..k]| == |c|;
      assert after == rest[|c|..] == more;
    }
  }

  /**
    End to end: when the client's final read takes the whole content of the
    server's reply, `get_response` returns exactly what `request_to_response`
    answered.
  */
  lemma ClientGetsServerResponse(request: string, now: string, roll: Server.Die, more: seq<Byte>, r: Result<string>)
    requires Utf8.IsAscii(now)
    requires Client.GetResponseOutcome(Utf8.Encode(Server.Reply(request, now, roll)) + more, r, more)
    ensures r == Ok(Server.RequestToResponse(request, now, roll))
  {
    ResponseIsAscii(request, now, roll);
    ClientReadsProtocolized(Server.RequestToResponse(request, now, roll), more, r, more);
  }

  /**
    No command the client sends in a session is answered "Invalid command."
    (unless the clock itself reads so): the client only sends commands the
    server tells apart.
  */
  lemma SentCommandsAreNeverRejected(inputs: seq<string>, reply: nat -> Result<string>, j: nat, now: string, roll: Server.Die)
    requires now != Server.InvalidCommand
    requires j < |Client.Session(inputs, reply).0|
    ensures Server.RequestToResponse(Client.Session(inputs, reply).0[j], now, roll) != Server.InvalidCommand
  {
    Client.SessionSendsValidUntilEnd(inputs, reply);
    ServerRejectsExactlyInvalid(Client.Session(inputs, reply).0[j], now, roll);
  }
}
