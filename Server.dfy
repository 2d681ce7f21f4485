/**
  The request side of server.py: the mapping from a four-letter request to
  its response, the `len$content` framing of responses, and the loop that
  answers requests until EXIT.
*/
module Server {
  import opened Decimal

  /** SERVER_NAME. */
  const ServerName: string := "the yoyo server"
  /** The response to EXIT. */
  const Exiting: string := "Exiting."
  /** The response to anything that is not one of the four requests. */
  const InvalidCommand: string := "Invalid command."

  /** A value `random.randint(1, 10)` may return. */
  type Die = d: int | 1 <= d <= 10 witness 1

  /** `return_name`. */
  function ReturnName(): string {
    ServerName
  }

  /** `str(return_rand())` for the number the generator picked. */
  function RandResponse(roll: Die): string {
    NatToDecimal(roll)
  }

  /** The RAND response is the decimal text of a number from 1 to 10: one or two digits, no leading zero. */
  lemma RandResponseRange(roll: Die)
    ensures var s := RandResponse(roll);
      AllDigits(s) && 1 <= DecimalValue(s) <= 10 && 1 <= |s| <= 2 && s[0] != '0'
  {
    NatToDecimalDenotes(roll);
    assert roll == 10 ==> NatToDecimal(roll) == NatToDecimal(1) + [DigitChar(0)];
  }

  /**
    The requests `request_to_response` tells apart, in the order its `if`/`elif`
    chain tests them, each paired with its response. `now` stands for what
    `return_time` reads from the clock and `roll` for what `return_rand` draws.
  */
  function Handlers(now: string, roll: Die): seq<(string, string)> {
    [("TIME", now), ("NAME", ReturnName()), ("RAND", RandResponse(roll)), ("EXIT", Exiting)]
  }

  /** The `if`/`elif` chain: the first entry whose request matches answers; past the last, "Invalid command.". */
  function Dispatch(request: string, table: seq<(string, string)>): string
    decreases |table|
  {
    if table == [] then InvalidCommand
    else if request == table[0].0 then table[0].1
    else Dispatch(request, table[1..])
  }

  /** `request_to_response`. */
  function RequestToResponse(request: string, now: string, roll: Die): string {
    Dispatch(request, Handlers(now, roll))
  }

  /** The response to each of the four requests, and to anything else. */
  lemma RequestToResponseCases(request: string, now: string, roll: Die)
    ensures var r := RequestToResponse(request, now, roll);
      && (request == "TIME" ==> r == now)
      && (request == "NAME" ==> r == ServerName)
      && (request == "RAND" ==>
            r == RandResponse(roll) && AllDigits(r) && 1 <= DecimalValue(r) <= 10 && 1 <= |r| <= 2 && r[0] != '0')
      && (request == "EXIT" ==> r == Exiting)
      && (request != "TIME" && request != "NAME" && request != "RAND" && request != "EXIT" ==>
            r == InvalidCommand)
  {
    RandResponseRange(roll);
    var t := Handlers(now, roll);
    var r := RequestToResponse(request, now, roll);
    if request != "TIME" {
      assert r == Dispatch(request, t[1..]);
      if request != "NAME" {
        assert r == Dispatch(request, t[2..]);
        if request != "RAND" {
          assert r == Dispatch(request, t[3..]);
          if request != "EXIT" {
            assert r == Dispatch(request, t[4..]);
          }
        }
      }
    }
  }

  /** server.py's self-test: NAME and EXIT. */
  lemma SelfTestResponses(now: string, roll: Die)
    ensures RequestToResponse("NAME", now, roll) == ServerName
    ensures RequestToResponse("EXIT", now, roll) == Exiting
  {
    RequestToResponseCases("NAME", now, roll);
    RequestToResponseCases("EXIT", now, roll);
  }

  /** `protocolize_content`: the decimal length of `content`, a `$`, then `content`. */
  function ProtocolizeContent(content: string): string {
    NatToDecimal(|content|) + "$" + content
  }

  /**
    The text before the last `|content| + 1` characters is a digits-only
    length field with the value `|content|` and no leading zero; then comes a
    `$`, then `content`. As the field holds no `$`, this `$` is the first one.
  */
  lemma ProtocolizeContentLayout(content: string)
    ensures var m := ProtocolizeContent(content);
      var k := |m| - |content| - 1;
      && 1 <= k < |m|
      && m[k + 1..] == content
      && m[k] == '$'
      && AllDigits(m[..k])
      && DecimalValue(m[..k]) == |content|
      && (m[0] == '0' <==> content == [])
      && (forall i :: 0 <= i <= k ==> (m[i] == '$' <==> i == k))
  {
    var header := NatToDecimal(|content|);
    NatToDecimalDenotes(|content|);
    var m := ProtocolizeContent(content);
    assert m[..|header|] == header;
    assert m[|header| + 1..] == content;
  }

  /** A content of 31 characters gets the length field "31". */
  lemma ProtocolizeThirtyOne(content: string)
    requires |content| == 31
    ensures ProtocolizeContent(content) == "31$" + content
  {
    assert DigitChar(3) == '3' && DigitChar(1) == '1';
    assert NatToDecimal(31) == [DigitChar(3)] + [DigitChar(1)];
  }

  /** The example from server.py's self-test. */
  lemma ProtocolizeYoda()
    ensures ProtocolizeContent("Do. Or do not. There is no try.") == "31$" + "Do. Or do not. There is no try."
  {
    ProtocolizeThirtyOne("Do. Or do not. There is no try.");
  }

  /** The message `main_loop` sends in answer to `request`. */
  function Reply(request: string, now: string, roll: Die): string {
    ProtocolizeContent(RequestToResponse(request, now, roll))
  }

  /**
    What `main_loop` sends while it reads `requests`, one framed response per
    request; the `i`-th request is answered with `clock(i)` as the time and
    `dice(i)` as the random number.
  */
  function Replies(requests: seq<string>, clock: nat -> string, dice: nat -> Die): (rs: seq<string>)
    ensures |rs| == |requests|
  {
    if requests == [] then []
    else
      var n := |requests| - 1;
      Replies(requests[..n], clock, dice) + [Reply(requests[n], clock(n), dice(n))]
  }

  /** Each reply answers the request at the same position. */
  lemma {:induction false} ReplyAt(requests: seq<string>, clock: nat -> string, dice: nat -> Die, i: nat)
    requires i < |requests|
    ensures Replies(requests, clock, dice)[i] == Reply(requests[i], clock(i), dice(i))
  {
    var n := |requests| - 1;
    if i < n {
      ReplyAt(requests[..n], clock, dice, i);
    }
  }

  /** The requests `main_loop` reads: everything up to and including the first EXIT. */
  function UpToExit(requests: seq<string>): (r: seq<string>)
    ensures |r| <= |requests| && r == requests[..|r|]
    ensures forall i :: 0 <= i < |r| - 1 ==> r[i] != "EXIT"
    ensures r == requests || (r != [] && r[|r| - 1] == "EXIT")
  {
    if requests == [] then []
    else if requests[0] == "EXIT" then [requests[0]]
    else [requests[0]] + UpToExit(requests[1..])
  }

  /** One turn of `main_loop` after the request has been read: the response, framed. */
  method Answer(request: string, now: string, roll: Die) returns (message: string)
    ensures message == Reply(request, now, roll)
  {
    var response := RequestToResponse(request, now, roll);
    message := ProtocolizeContent(response);
  }

  /**
    `main_loop`, over the requests the client's successive `recv(4)` calls
    deliver, decoded: it answers each with its framed response (the bytes it
    sends are the message's UTF-8 encoding) and stops after answering the
    first EXIT, so later requests are never read. The loop also stops when
    the requests run out (the connection has failed).
  */
  method MainLoop(requests: seq<string>, clock: nat -> string, dice: nat -> Die)
    returns (replies: seq<string>)
    ensures replies == Replies(UpToExit(requests), clock, dice)
  {
    replies := [];
    var req := "";
    var n := 0;
    while req != "EXIT"
      invariant n <= |requests|
      invariant replies == Replies(requests[..n], clock, dice)
      invariant forall i :: 0 <= i < n - 1 ==> requests[i] != "EXIT"
      invariant n > 0 ==> req == requests[n - 1]
      invariant n == 0 ==> req == ""
      decreases |requests| - n
    {
      if n == |requests| {
        break;
      }
      req := requests[n];
      var message := Answer(req, clock(n), dice(n));
      assert requests[..n + 1][..n] == requests[..n];
      replies := replies + [message];
      n := n + 1;
    }
    UpToExitIsPrefix(requests, n);
  }

  /** A prefix with no EXIT before its last request, ending at an EXIT or at the end, is what `UpToExit` takes. */
  lemma {:induction false} UpToExitIsPrefix(requests: seq<string>, n: nat)
    requires n <= |requests|
    requires forall i :: 0 <= i < n - 1 ==> requests[i] != "EXIT"
    requires n == |requests| || (n > 0 && requests[n - 1] == "EXIT")
    ensures UpToExit(requests) == requests[..n]
  {
    if requests != [] && requests[0] != "EXIT" {
      assert n > 0;
      UpToExitIsPrefix(requests[1..], n - 1);
      assert requests[..n] == [requests[0]] + requests[1..][..n - 1];
    }
  }
}
