/**
  The reading side of client.py: command validation, the parser of the
  server's `len$content` responses, and the loop that sends the user's
  commands until EXIT or until the server says it has closed.
*/
module Client {
  import opened Common
  import opened Decimal
  import opened Stream
  import Utf8

  /** COMMANDS. */
  const Commands: seq<string> := ["TIME", "NAME", "RAND", "EXIT"]
  /** SERVER_CLOSED_MSG: the response that makes the client stop. */
  const ServerClosedMsg: string := "Server has closed, disconnecting."
  /** The byte of `$`, which ends the length field of a response. */
  const Dollar: Byte := 0x24

  /** Python's `x in xs` on a list: a scan from the front. */
  predicate Member(x: string, xs: seq<string>)
    decreases |xs|
  {
    xs != [] && (xs[0] == x || Member(x, xs[1..]))
  }

  /** `is_cmd_valid`: membership in COMMANDS. */
  predicate IsCmdValid(cmd: string) {
    Member(cmd, Commands)
  }

  /** A command is valid exactly when it is one of the four. */
  lemma IsCmdValidIff(cmd: string)
    ensures IsCmdValid(cmd) <==> cmd == "TIME" || cmd == "NAME" || cmd == "RAND" || cmd == "EXIT"
  {
    var c := Commands;
    assert c[1..] == ["NAME", "RAND", "EXIT"];
    assert c[1..][1..] == ["RAND", "EXIT"];
    assert c[1..][1..][1..] == ["EXIT"];
    assert c[1..][1..][1..][1..] == [];
  }

  /** client.py's self-test. */
  lemma SelfTestCommands()
    ensures IsCmdValid("TIME") && IsCmdValid("RAND") && IsCmdValid("NAME") && IsCmdValid("EXIT")
    ensures !IsCmdValid("I HAVE THE HIGH GROUND")
  {
  }

  /**
    The length field `get_response` reads, one `recv(1)` at a time, from
    `inbox` with `count` accumulated so far, and what is left after the `$`.
    Each byte is decoded on its own: a byte of 0x80 or more is not a
    character (UnicodeDecodeError); an exhausted stream yields `''`, which
    `int` refuses, as it refuses every other character but a digit.
  */
  function ReadCount(inbox: seq<Byte>, count: nat): (Result<nat>, seq<Byte>)
    decreases |inbox|
  {
    if inbox == [] then (Err(NotADigit), [])
    else if inbox[0] >= 0x80 then (Err(DecodeError), inbox[1..])
    else
      var c := inbox[0] as char;
      if c == '$' then (Ok(count), inbox[1..])
      else if IsDigit(c) then ReadCount(inbox[1..], count * 10 + DigitValue(c))
      else (Err(NotADigit), inbox[1..])
  }

  /**
    The one `recv(count)` that ends `get_response`, on what `rest` holds: it
    takes at most `count` bytes and leaves `after`; it takes at least one
    when one was asked for and the stream is not exhausted; and the result is
    what it took, decoded.
  */
  predicate FinalRead(rest: seq<Byte>, count: nat, r: Result<string>, after: seq<Byte>) {
    && |after| <= |rest|
    && after == rest[|rest| - |after|..]
    && |rest| - |after| <= count
    && (count > 0 && rest != [] ==> |after| < |rest|)
    && r == Utf8.Decode(rest[..|rest| - |after|])
  }

  /** What `get_response` may return when the stream holds `inbox`, leaving `after` unread. */
  predicate GetResponseOutcome(inbox: seq<Byte>, r: Result<string>, after: seq<Byte>) {
    match ReadCount(inbox, 0)
    case (Err(e), rest) => r == Err(e) && after == rest
    case (Ok(count), rest) => FinalRead(rest, count, r, after)
  }

  /** `bytes.decode()` of what `recv(1)` returns. */
  lemma DecodeOneByte(received: seq<Byte>)
    requires |received| <= 1
    ensures received == [] ==> Utf8.Decode(received) == Ok("")
    ensures received != [] && received[0] < 0x80 ==> Utf8.Decode(received) == Ok([received[0] as char])
    ensures received != [] && received[0] >= 0x80 ==> Utf8.Decode(received) == Err(DecodeError)
  {
    if received != [] {
      if received[0] < 0x80 {
        assert Utf8.DecodeFirst(received) == Some((received[0] as char, 1));
        assert received[1..] == [];
        assert [received[0] as char] + [] == [received[0] as char];
      } else {
        assert Utf8.DecodeFirst(received) == None;
      }
    }
  }

  /** `server_socket.recv(1).decode()`: the byte read, if any, and what decoding it gives. */
  method RecvChar(sock: Socket) returns (received: seq<Byte>, ch: Result<string>)
    modifies sock
    ensures received + sock.inbox == old(sock.inbox)
    ensures |received| <= 1 && (received == [] <==> old(sock.inbox) == [])
    ensures received == [] ==> ch == Ok("")
    ensures received != [] && received[0] < 0x80 ==> ch == Ok([received[0] as char])
    ensures received != [] && received[0] >= 0x80 ==> ch == Err(DecodeError)
    ensures sock.outbox == old(sock.outbox)
  {
    received := sock.Recv(1);
    DecodeOneByte(received);
    ch := Utf8.Decode(received);
  }

  /** The step ReadCount takes on one byte. */
  lemma ReadCountCons(b: Byte, rest: seq<Byte>, count: nat)
    ensures ReadCount([b] + rest, count) ==
      if b >= 0x80 then (Err(DecodeError), rest)
      else if b == Dollar then (Ok(count), rest)
      else if IsDigit(b as char) then ReadCount(rest, count * 10 + DigitValue(b as char))
      else (Err(NotADigit), rest)
  {
    assert ([b] + rest)[1..] == rest;
  }

  /**
    `get_response`: reads the decimal length one byte at a time up to `$`,
    then makes a single `recv(count)` and decodes it. Its result, and what it
    leaves unread, are the ones GetResponseOutcome allows, however the network
    splits the stream.
  */
  method GetResponse(sock: Socket) returns (r: Result<string>)
    modifies sock
    ensures GetResponseOutcome(old(sock.inbox), r, sock.inbox)
    ensures sock.outbox == old(sock.outbox)
  {
    var count: nat := 0;
    var received, ch := RecvChar(sock);
    while ch != Ok("$")
      invariant received + sock.inbox != [] ==> received != []
      invariant |received| <= 1
      invariant received == [] ==> ch == Ok("")
      invariant received != [] && received[0] < 0x80 ==> ch == Ok([received[0] as char])
      invariant received != [] && received[0] >= 0x80 ==> ch == Err(DecodeError)
      invariant ReadCount(old(sock.inbox), 0) == ReadCount(received + sock.inbox, count)
      invariant sock.outbox == old(sock.outbox)
      decreases |received| + |sock.inbox|
    {
      if received != [] {
        ReadCountCons(received[0], sock.inbox, count);
      }
      if ch.Err? {
        r := Err(ch.error);
        OutcomeOfError(old(sock.inbox), r.error, sock.inbox);
        return;
      }
      if |ch.value| != 1 || !IsDigit(ch.value[0]) {
        r := Err(NotADigit);
        OutcomeOfError(old(sock.inbox), r.error, sock.inbox);
        return;
      }
      count := count * 10 + DigitValue(ch.value[0]);
      received, ch := RecvChar(sock);
    }
    ReadCountCons(received[0], sock.inbox, count);
    ghost var rest := sock.inbox;
    var payload := sock.Recv(count);
    r := Utf8.Decode(payload);
    OutcomeOfFinalRead(old(sock.inbox), count, rest, payload, sock.inbox);
  }

  /** An error the length field raises is one GetResponseOutcome allows. */
  lemma OutcomeOfError(inbox: seq<Byte>, e: Error, after: seq<Byte>)
    requires ReadCount(inbox, 0).0 == Err(e) && ReadCount(inbox, 0).1 == after
    ensures GetResponseOutcome(inbox, Err(e), after)
  {
  }

  /** A final read that takes `payload` and leaves `after` is one GetResponseOutcome allows. */
  lemma OutcomeOfFinalRead(inbox: seq<Byte>, count: nat, rest: seq<Byte>, payload: seq<Byte>, after: seq<Byte>)
    requires ReadCount(inbox, 0).0 == Ok(count) && ReadCount(inbox, 0).1 == rest
    requires payload + after == rest && |payload| <= count
    requires count > 0 && rest != [] ==> payload != []
    ensures GetResponseOutcome(inbox, Utf8.Decode(payload), after)
  {
    assert rest[..|rest| - |after|] == payload;
  }

  /** Digits followed by `$` are read as the number they denote, scaled onto what was accumulated. */
  lemma {:induction false} ReadCountOfDigits(digits: string, count: nat, more: seq<Byte>)
    requires AllDigits(digits)
    ensures ReadCount(Utf8.Encode(digits) + [Dollar] + more, count).0
      == Ok(count * Pow10(|digits|) + DecimalValue(digits))
    ensures ReadCount(Utf8.Encode(digits) + [Dollar] + more, count).1 == more
  {
    if digits == [] {
      assert Utf8.Encode(digits) + [Dollar] + more == [Dollar] + more;
    } else {
      var d, ds := digits[0], digits[1..];
      assert digits == [d] + ds;
      assert AllDigits(ds);
      var v := DigitValue(d);
      var tail := Utf8.Encode(ds) + [Dollar] + more;
      assert Utf8.Encode(digits) + [Dollar] + more == [d as int] + tail;
      assert ([d as int] + tail)[1..] == tail;
      ReadCountOfDigits(ds, count * 10 + v, more);
      DecimalValueFront(d, ds);
      Scale(count, v, Pow10(|ds|), DecimalValue(ds));
    }
  }

  /** After a length field of digits and a `$`, all that is left is the final read of as many bytes as the digits denote. */
  lemma OutcomeAfterDigits(digits: string, rest: seq<Byte>, r: Result<string>, after: seq<Byte>)
    requires AllDigits(digits)
    requires GetResponseOutcome(Utf8.Encode(digits) + [Dollar] + rest, r, after)
    ensures FinalRead(rest, DecimalValue(digits), r, after)
  {
    ReadCountOfDigits(digits, 0, rest);
  }

  lemma Scale(a: int, v: int, p: int, w: int)
    ensures (a * 10 + v) * p + w == a * (10 * p) + (v * p + w)
  {
    assert (a * 10 + v) * p == a * 10 * p + v * p;
  }

  /**
    A byte that is neither a digit nor `$` inside the length field ends
    `get_response` with an error: DecodeError when it is not ASCII, the
    error of `int(char)` otherwise.
  */
  lemma {:induction false} ReadCountRejects(digits: string, b: Byte, count: nat, more: seq<Byte>)
    requires AllDigits(digits) && b != Dollar && !(0x30 <= b <= 0x39)
    ensures ReadCount(Utf8.Encode(digits) + [b] + more, count).0
      == if b >= 0x80 then Err(DecodeError) else Err(NotADigit)
  {
    if digits != [] {
      var d, ds := digits[0], digits[1..];
      assert digits == [d] + ds;
      assert AllDigits(ds);
      var tail := Utf8.Encode(ds) + [b] + more;
      assert Utf8.Encode(digits) + [b] + more == [d as int] + tail;
      assert ([d as int] + tail)[1..] == tail;
      ReadCountRejects(ds, b, count * 10 + DigitValue(d), more);
    } else {
      assert Utf8.Encode(digits) + [b] + more == [b] + more;
    }
  }

  /** The commands of `inputs` that pass `is_cmd_valid`, in order. */
  function ValidOnly(inputs: seq<string>): (r: seq<string>)
    ensures |r| <= |inputs|
    ensures forall i :: 0 <= i < |r| ==> IsCmdValid(r[i])
  {
    if inputs == [] then []
    else
      var n := |inputs| - 1;
      ValidOnly(inputs[..n]) + (if IsCmdValid(inputs[n]) then [inputs[n]] else [])
  }

  /** Reading one more input adds it to the filter exactly when it is valid. */
  lemma ValidOnlySnoc(inputs: seq<string>, input: string)
    ensures ValidOnly(inputs + [input]) == ValidOnly(inputs) + (if IsCmdValid(input) then [input] else [])
  {
    assert (inputs + [input])[..|inputs|] == inputs;
  }

  /** Filtering keeps exactly the valid commands: a sequence of valid commands is its own filter. */
  lemma {:induction false} ValidOnlyOfValid(inputs: seq<string>)
    ensures ValidOnly(inputs) == inputs <==> forall i :: 0 <= i < |inputs| ==> IsCmdValid(inputs[i])
  {
    if inputs != [] {
      var n := |inputs| - 1;
      ValidOnlyOfValid(inputs[..n]);
      if forall i :: 0 <= i < |inputs| ==> IsCmdValid(inputs[i]) {
        assert forall i :: 0 <= i < n ==> inputs[..n][i] == inputs[i];
        assert inputs[..n] + [inputs[n]] == inputs;
      }
    }
  }

  /** A response after which the client stops: `get_response` raised, or the server said it closed. */
  predicate Ends(response: Result<string>) {
    response.Err? || response.value == ServerClosedMsg
  }

  /**
    What `main_loop` does from the `consumed`-th line the user types on,
    having sent `sent`: the commands it sends, in order, and how many lines it
    has read when it stops. `reply(j)` is what `get_response` returns for the
    `j`-th command sent.
  */
  function Run(inputs: seq<string>, reply: nat -> Result<string>, consumed: nat, sent: seq<string>): (seq<string>, nat)
    requires consumed <= |inputs|
    decreases |inputs| - consumed
  {
    if consumed == |inputs| then (sent, consumed)
    else
      var req := inputs[consumed];
      if !IsCmdValid(req) then Run(inputs, reply, consumed + 1, sent)
      else if req == "EXIT" || Ends(reply(|sent|)) then (sent + [req], consumed + 1)
      else Run(inputs, reply, consumed + 1, sent + [req])
  }

  /** A whole session: `main_loop` from its first line on. */
  function Session(inputs: seq<string>, reply: nat -> Result<string>): (seq<string>, nat) {
    Run(inputs, reply, 0, [])
  }

  /**
    `main_loop`, over the lines the user types (`inputs`) and the responses
    `get_response` returns (`reply(j)` for the `j`-th command sent): the
    commands it sends and the number of lines it reads.
  */
  method MainLoop(inputs: seq<string>, reply: nat -> Result<string>) returns (sent: seq<string>, consumed: nat)
    ensures (sent, consumed) == Session(inputs, reply)
  {
    sent := [];
    consumed := 0;
    var req := "";
    while req != "EXIT"
      invariant consumed <= |inputs|
      invariant req != "EXIT" ==> Session(inputs, reply) == Run(inputs, reply, consumed, sent)
      invariant req == "EXIT" ==> Session(inputs, reply) == (sent, consumed)
      decreases |inputs| - consumed
    {
      if consumed == |inputs| {
        break;
      }
      req := inputs[consumed];
      consumed := consumed + 1;
      if IsCmdValid(req) {
        var response := reply(|sent|);
        sent := sent + [req];
        if Ends(response) {
          break;
        }
      }
    }
  }

  /** A run that starts from the filter of the lines read so far sends exactly the valid lines it reads. */
  lemma {:induction false} RunSendsValid(inputs: seq<string>, reply: nat -> Result<string>, consumed: nat, sent: seq<string>)
    requires consumed <= |inputs|
    requires sent == ValidOnly(inputs[..consumed])
    ensures var r := Run(inputs, reply, consumed, sent);
      consumed <= r.1 <= |inputs| && r.0 == ValidOnly(inputs[..r.1])
    decreases |inputs| - consumed
  {
    if consumed < |inputs| {
      var req := inputs[consumed];
      assert inputs[..consumed + 1] == inputs[..consumed] + [req];
      ValidOnlySnoc(inputs[..consumed], req);
      if !IsCmdValid(req) {
        RunSendsValid(inputs, reply, consumed + 1, sent);
      } else if !(req == "EXIT" || Ends(reply(|sent|))) {
        RunSendsValid(inputs, reply, consumed + 1, sent + [req]);
      }
    }
  }

  /**
    A run from a state in which no command sent was EXIT or was answered with
    a response that ends the session: no command but the last it sends is
    either, and it stops before the input runs out only right after sending a
    valid command that is EXIT or whose response ends the session. When it
    sends such a command it stops right there: the last line it reads is
    that command. What was sent before the run is kept as a prefix.
  */
  lemma {:induction false} RunStopsAtEnd(inputs: seq<string>, reply: nat -> Result<string>, consumed: nat, sent: seq<string>)
    requires consumed <= |inputs|
    requires forall j :: 0 <= j < |sent| ==> sent[j] != "EXIT" && !Ends(reply(j))
    ensures var r := Run(inputs, reply, consumed, sent);
      && |sent| <= |r.0| && r.0[..|sent|] == sent
      && (forall j :: 0 <= j < |r.0| - 1 ==> r.0[j] != "EXIT" && !Ends(reply(j)))
      && (r.1 < |inputs| ==>
            && consumed < r.1 && r.0 != [] && IsCmdValid(inputs[r.1 - 1])
            && (inputs[r.1 - 1] == "EXIT" || Ends(reply(|r.0| - 1))))
      && (r.0 != [] && |r.0| > |sent| && (r.0[|r.0| - 1] == "EXIT" || Ends(reply(|r.0| - 1))) ==>
            consumed < r.1 <= |inputs| && inputs[r.1 - 1] == r.0[|r.0| - 1])
    decreases |inputs| - consumed
  {
    if consumed < |inputs| {
      var req := inputs[consumed];
      if !IsCmdValid(req) {
        RunStopsAtEnd(inputs, reply, consumed + 1, sent);
      } else if !(req == "EXIT" || Ends(reply(|sent|))) {
        var sent' := sent + [req];
        RunStopsAtEnd(inputs, reply, consumed + 1, sent');
        var r := Run(inputs, reply, consumed + 1, sent');
        assert r.0[..|sent|] == r.0[..|sent'|][..|sent|];
        if |r.0| == |sent'| {
          assert r.0 == sent';
        }
      }
    }
  }

  /**
    The client's session: it sends the valid lines only, and it stops before
    the input runs out only after EXIT or after a response that ends the
    session; no earlier command was EXIT or got such a response. When the
    last command sent is EXIT or got such a response, the session stops at
    that very line and reads no further.
  */
  lemma SessionSendsValidUntilEnd(inputs: seq<string>, reply: nat -> Result<string>)
    ensures var (sent, consumed) := Session(inputs, reply);
      && consumed <= |inputs|
      && sent == ValidOnly(inputs[..consumed])
      && (forall j :: 0 <= j < |sent| - 1 ==> sent[j] != "EXIT" && !Ends(reply(j)))
      && (consumed < |inputs| ==>
            && 0 < consumed && sent != [] && IsCmdValid(inputs[consumed - 1])
            && (inputs[consumed - 1] == "EXIT" || Ends(reply(|sent| - 1))))
      && (sent != [] && (sent[|sent| - 1] == "EXIT" || Ends(reply(|sent| - 1))) ==>
            0 < consumed && inputs[consumed - 1] == sent[|sent| - 1])
  {
    assert inputs[..0] == [];
    RunSendsValid(inputs, reply, 0, []);
    RunStopsAtEnd(inputs, reply, 0, []);
  }
}
