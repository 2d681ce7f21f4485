# A time/name/random-number server and its client, with their wire codec

The system is a small TCP client/server pair. The client reads a command
from the user and checks that it is one of `TIME`, `NAME`, `RAND` or `EXIT`.
It sends only valid commands, as their raw four bytes. It then reads the
server's answer and prints it. The server answers each request with a
framed response:

- the current time for `TIME`;
- its name for `NAME`;
- a random number from 1 to 10 for `RAND`;
- `Exiting.` for `EXIT`;
- `Invalid command.` for anything else.

A response is framed as `len$content`: the decimal length of the content,
a `$`, then the content. The server stops serving a client after its first
`EXIT`. The client stops after sending `EXIT`, or when the server answers
`Server has closed, disconnecting.`.

`protocol.py` is a separate, reusable codec. It sends a message `(cmd, args)`
as two frames. Each frame is a 4-byte length in network byte order followed
by the string's UTF-8 bytes. It reads messages back with loops that do not
depend on how the network splits the stream.

The Dafny modules follow the program:

- `Common`: bytes, the exceptions the code raises (as `Error`), `Result`.
- `Stream`: a class `Socket` with the bytes yet to be received (`inbox`) and
  the bytes sent so far (`outbox`). `Recv` and `Send` take or accept any
  non-empty prefix the network chooses, so every property stated on top of
  them holds for every fragmentation.
- `Utf8`: `str.encode()` and strict `bytes.decode()`.
- `Decimal`: `str(n)` and `int(c)` for one digit.
- `Protocol`: protocol.py. Its functions state what a call returns and
  leaves unread. Its methods update a `Socket` and are proved equal to those
  functions.
- `Server`: server.py. `request_to_response`, `protocolize_content`, and
  `main_loop` over the sequence of requests it reads.
- `Client`: client.py. `is_cmd_valid`, `get_response` on a `Socket`, and
  `main_loop` over the lines the user types.
- `Exchange`: properties of client and server taken together.

These stand in for the code's inputs:

- The clock is a parameter: `now`, or `clock(i)` for the `i`-th request.
- The random number generator is a parameter: `roll`, or `dice(i)`, of type
  `Die` (1 to 10).
- The user's input is a sequence of lines.
- What `get_response` returns for the `j`-th command the client sends is the
  parameter `reply(j)`.

## Model

| member | source | states |
|---|---|---|
| Protocol.DecodeU32 | protocol.py:75 | `socket.ntohl(struct.unpack('I', bs)[0])`: four bytes read as a big-endian number below 2^32; Protocol.EncodeU32 and Protocol.EncodeDecodeU32 show it inverts the packing |
| Protocol.ReadFrame | protocol.py:74-76 | the bytes receive_part reads as a frame's payload (none without a full length field) and what it leaves; Protocol.ReadFrameOf gives its meaning on a well-formed frame |
| Protocol.ReadFrameOf | protocol.py:74-76 | a length field followed by that many bytes is read as a frame with exactly those bytes, whatever follows |
| Stream.Socket.Recv | protocol.py:57 | `sock.recv(bufsize)`: some non-empty prefix of the unread bytes of at most `bufsize`, or nothing only when `bufsize` is 0 or the peer's bytes are exhausted; nothing is sent |
| Stream.Socket.Send | protocol.py:23 | `sock.send(data)`: the network accepts a non-empty prefix of `data` (none of empty data), appends it to what was sent, and returns its length |
| Protocol.EncodeU32 | protocol.py:39-40 | a length below 2^32 packs into exactly 4 bytes, most significant first, and unpacks back to the same number |
| Protocol.EncodeDecodeU32 | protocol.py:75 | every 4-byte field is the packing of the number it unpacks to, so packing and unpacking are inverse bijections |
| Protocol.EncodeMessage | protocol.py:39-41 | send's buffer fails with LengthOverflow exactly when a string has 2^32 characters or more. Otherwise it is the character count of cmd, cmd's UTF-8 bytes, the character count of args, then args' bytes, with the total length |
| Protocol.EncodeMessageCorrected | protocol.py:39-41 | the same buffer with each length field counting its payload's bytes; it fails exactly when a payload has 2^32 bytes or more |
| Protocol.ReadExactly | protocol.py:55-62 | receive_with_length yields exactly `length` bytes, namely the next ones on the stream, with the rest left unread. If the peer closes first it yields nothing and everything is consumed |
| Protocol.ReadPart | protocol.py:65-76 | receive_part fails with a short-prefix error exactly when fewer than 4 bytes are left. A frame whose length exceeds the rest of the stream reads as "" with nothing left. What remains is always a suffix of the stream |
| Protocol.ReadMessage | protocol.py:79-89 | an error of the first frame is receive's error and nothing more is read. A success returns the first frame's string as the command. What remains is a suffix of the stream |
| Protocol.ReadPartOfFrame | protocol.py:74-76 | a frame whose length field counts its payload's bytes is read as that payload, decoded, whatever follows it |
| Protocol.ReadPartOfShortHeader | protocol.py:74-76 | a frame whose length field is shorter than its payload is read as the payload's first bytes only |
| Protocol.CorrectedRoundTrip | protocol.py:39-42 | with byte-counting length fields, receive reads back every message send writes, and consumes exactly its bytes |
| Protocol.CorrectedAgreesOnAscii | protocol.py:39-41 | on ASCII strings the code's length fields and the byte-counting ones give the same buffer |
| Protocol.RoundTripIffAscii | protocol.py:39-42 | as written, receive reads back what send wrote if and only if both strings are ASCII, and then consumes exactly its bytes |
| Protocol.ShortHeaderIsNotReadBack | protocol.py:39-41 | a non-ASCII string framed with its character count is never read back as itself |
| Protocol.NonAsciiCommandIsNotReadBack | protocol.py:39-41 | the command "é" with empty arguments is encoded, and reading it back fails with a decoding error |
| Protocol.SendData | protocol.py:22-24 | send_data hands the network every byte of `data`, in order and nothing else, however little each send accepts. It makes at most one send per byte and none for empty data |
| Protocol.Send | protocol.py:39-42 | send writes exactly EncodeMessage's buffer, or raises LengthOverflow before writing anything. It reads nothing |
| Protocol.ReceiveWithLength | protocol.py:55-62 | the result and the unread stream are ReadExactly's under every fragmentation. It makes at most `length` recv calls, and none for length 0 |
| Protocol.ReceivePart | protocol.py:74-76 | the result and the unread stream are ReadPart's under every fragmentation |
| Protocol.Receive | protocol.py:87-89 | the result and the unread stream are ReadMessage's under every fragmentation |
| Protocol.Loopback | protocol.py:27-89 | a message sent through one socket and received from the bytes that arrived comes back equal exactly when both strings are ASCII |
| Utf8.EncodeChar | protocol.py:41 | one character's UTF-8 encoding takes 1 to 4 bytes, exactly one for ASCII, and that byte is the code point |
| Utf8.Encode | protocol.py:41 | `s.encode()`; Utf8.DecodeEncode, Utf8.EncodeAppend and Utf8.OneBytePerCharIffAscii give its meaning |
| Utf8.DecodeFirst | protocol.py:76 | the first character of well-formed UTF-8 and the 1 to 4 bytes it takes, which are exactly its encoding; None on ill-formed input |
| Utf8.Decode | protocol.py:76 | strict `bs.decode()`: its only error is the decoding error, and it yields no more characters than bytes; Utf8.DecodeEncode and Utf8.DecodeSound show it inverts Utf8.Encode |
| Utf8.DecodeEncode | protocol.py:76 | `s.encode().decode() == s` for every string |
| Utf8.DecodeSound | protocol.py:76 | decode accepts only what encode produces: a decoded string re-encodes to the bytes it came from |
| Utf8.OneBytePerCharIffAscii | protocol.py:39-41 | a string's encoding has one byte per character exactly when the string is ASCII |
| Utf8.EncodeAppend | protocol.py:41 | the encoding of a concatenation is the concatenation of the encodings |
| Utf8.AsciiPrefixDecodes | client.py:37 | every prefix of an ASCII string's encoding decodes to the same prefix of the string |
| Decimal.NatToDecimal | server.py:118 | `str(n)` for a length; Decimal.NatToDecimalDenotes gives its meaning |
| Decimal.DigitValue | client.py:34 | `int(c)` of a digit, a number below 10 |
| Decimal.DecimalValue | client.py:34 | the number a digit string denotes, most significant first; Decimal.DecimalValueFront reads it from the front as get_response does |
| Decimal.DecimalValueFront | client.py:34 | the first of k+1 digits weighs 10^k in the value of a digit string |
| Decimal.NatToDecimalDenotes | server.py:118 | `str(n)` is non-empty, digits only, denotes n, starts with 0 only for n = 0, and has one digit exactly when n < 10 |
| Server.ReturnName | server.py:38-44 | `return_name` returns SERVER_NAME; Server.SelfTestResponses shows NAME answers it |
| Server.RandResponse | server.py:70-71 | `str(return_rand())` for the number drawn; Server.RandResponseRange gives its range |
| Server.Handlers | server.py:64-75 | the four requests in the order the `if`/`elif` chain tests them, each with its response |
| Server.Dispatch | server.py:64-78 | the first entry whose request matches answers, past the last "Invalid command."; Server.RequestToResponseCases gives its five outcomes |
| Server.RequestToResponse | server.py:56-78 | `request_to_response` as a scan of Server.Handlers; Server.RequestToResponseCases shows it answers as the `if`/`elif` chain does |
| Server.RandResponseRange | server.py:47-53 | the RAND response is the decimal text of a number from 1 to 10: one or two digits, no leading zero |
| Server.RequestToResponseCases | server.py:56-78 | TIME answers the clock's reading, NAME the server name, RAND the decimal text of the roll (a number from 1 to 10, no leading zero), EXIT "Exiting.", and anything else "Invalid command." |
| Server.SelfTestResponses | server.py:211-212 | request_to_response('NAME') is SERVER_NAME and request_to_response('EXIT') is 'Exiting.' |
| Server.ProtocolizeContentLayout | server.py:110-118 | a framed message is a digits-only field with value len(content) and no leading zero (unless the content is empty), then the first `$`, then the content |
| Server.ProtocolizeThirtyOne | server.py:118 | every 31-character content gets the prefix "31$" |
| Server.ProtocolizeYoda | server.py:213 | the self-test's example frames as "31$Do. Or do not. There is no try." |
| Server.ProtocolizeContent | server.py:110-118 | `protocolize_content`; Server.ProtocolizeContentLayout gives its layout and Exchange.ClientReadsProtocolized its reading by the client |
| Server.Reply | server.py:138-139 | the framed response to one request; Server.ReplyAt places it in the loop's output |
| Server.Answer | server.py:138-139 | one turn of main_loop after the read: the message sent is the framed response to the request |
| Server.Replies | server.py:134-143 | the server sends exactly one reply per request it reads |
| Server.ReplyAt | server.py:135-142 | the i-th reply is the framed response to the i-th request, using the i-th clock reading and random draw |
| Server.UpToExit | server.py:133-135 | the requests read are a prefix of those sent, with no EXIT before the last one. They run up to the first EXIT, or to the end when there is none |
| Server.UpToExitIsPrefix | server.py:134 | any prefix that has no EXIT before its last request, and ends at an EXIT or at the end, is exactly the requests main_loop reads |
| Server.MainLoop | server.py:121-143 | main_loop sends exactly the framed replies to the requests up to and including the first EXIT. It sends one per request and reads nothing after that EXIT |
| Client.IsCmdValidIff | client.py:40-48 | is_cmd_valid holds if and only if the command is TIME, NAME, RAND or EXIT |
| Client.Member | client.py:48 | `x in xs` on a list, scanning from the front |
| Client.IsCmdValid | client.py:40-48 | `is_cmd_valid`: membership in COMMANDS; Client.IsCmdValidIff names the four commands |
| Client.SelfTestCommands | client.py:106-110 | the four commands are valid and 'I HAVE THE HIGH GROUND' is not |
| Client.DecodeOneByte | client.py:32 | decoding one received byte gives "" at end of stream, the character for an ASCII byte, and a decoding error otherwise |
| Client.ReadCount | client.py:30-36 | the length field read one byte at a time up to `$`, with its errors; Client.ReadCountOfDigits and Client.ReadCountRejects give its outcomes |
| Client.RecvChar | client.py:32 | `recv(1).decode()` on a Socket: at most one byte, taken from the front; "" at end of stream, the character for an ASCII byte, a decoding error otherwise |
| Client.FinalRead | client.py:37 | the one `recv(count)` that ends get_response: at most `count` bytes, at least one when asked and available, decoded |
| Client.GetResponseOutcome | client.py:22-37 | what get_response may return and leave unread: the length field's error, or the final read after a successful field |
| Client.GetResponse | client.py:22-37 | get_response's result and unread stream are among those GetResponseOutcome allows for the stream it started on, under every fragmentation. It sends nothing |
| Client.ReadCountOfDigits | client.py:30-35 | a length field of digits ending in `$` accumulates to count·10^k plus the value of the digits, leaving exactly what follows the `$` |
| Client.ReadCountRejects | client.py:33-34 | a byte in the length field that is neither a digit nor `$` is an error: a decoding error when it is not ASCII, `int`'s error otherwise |
| Client.OutcomeAfterDigits | client.py:30-37 | after a digits-and-`$` field, get_response makes one final read of at most as many bytes as the digits denote, and returns them decoded |
| Client.ValidOnly | client.py:63 | the filtered commands are all valid, and there are no more than there were lines |
| Client.ValidOnlyOfValid | client.py:63 | the filter leaves a sequence unchanged if and only if every command in it is valid |
| Client.Ends | client.py:67-72 | a reply after which the client stops: get_response raised, or the server said it closed |
| Client.Run | client.py:59-75 | the loop from a given line on: Client.RunSendsValid and Client.RunStopsAtEnd give its meaning |
| Client.Session | client.py:51-75 | a whole main_loop session; Client.SessionSendsValidUntilEnd gives its meaning |
| Client.MainLoop | client.py:51-75 | main_loop sends the commands, and reads the number of lines, that Session describes |
| Client.RunSendsValid | client.py:59-64 | from a state whose sent commands are the valid lines read so far, the loop goes on sending exactly the valid lines it reads |
| Client.RunStopsAtEnd | client.py:59-72 | no command sent before the last is EXIT or is answered by a response that ends the session. The loop stops before the input runs out only right after sending a valid command that is EXIT or whose response ends the session. When it sends such a command it stops at that line, which is the last one it reads. The commands sent before the run stay a prefix of what it sends |
| Client.SessionSendsValidUntilEnd | client.py:51-75 | a session sends exactly the valid lines it reads, never an invalid one. It ends at the first EXIT, the first SERVER_CLOSED_MSG or error from get_response, or when the input runs out, and never earlier. When it ends on such a command, that command's line is the last line it reads |
| Exchange.ServerRejectsExactlyInvalid | server.py:64-78 | the server answers "Invalid command." exactly to the commands is_cmd_valid refuses, unless the clock itself reads so |
| Exchange.ResponseIsAscii | server.py:56-78 | every response and every framed reply is ASCII when the clock's reading is |
| Exchange.ProtocolizeIsAscii | server.py:118 | framing keeps ASCII content ASCII |
| Exchange.EncodeProtocolized | server.py:142 | the bytes of a framed reply are the length field's digits, the `$` byte, then the content's bytes |
| Exchange.LengthFieldOfProtocolized | client.py:30-35 | get_response reads the length field of a framed reply as the content's length, and its final read starts at the content's first byte |
| Exchange.FinalReadOfAscii | client.py:37 | the final read from an ASCII content yields a prefix of the content, non-empty when the content is non-empty. It yields the whole content exactly when it takes all of it |
| Exchange.ClientReadsProtocolized | client.py:22-37 | on a stream that starts with a framed ASCII reply, get_response yields a prefix of the content, non-empty when the content is. It yields the whole content exactly when it consumes the whole reply |
| Exchange.ClientGetsServerResponse | client.py:22-37 | when the final read takes the whole reply, get_response returns exactly what request_to_response answered |
| Exchange.SentCommandsAreNeverRejected | server.py:76-78 | no command a client session sends is answered "Invalid command." (unless the clock reads so), as the code's comment on the else branch expects |

## Left out

- Protocol.Send, Protocol.EncodeMessage: do not model the UnicodeEncodeError
  that `cmd.encode()` or `args.encode()` (protocol.py:41) raises before
  anything is sent when a string holds a lone surrogate (U+D800 to U+DFFF).
  A Python `str` may hold one, but a Dafny `char` is a Unicode scalar value
  and cannot, so that error path is not expressible here.

- Sockets: creating, binding, listening, accepting, connecting and closing
  (`connect_socket`, `connect_to_client`, `connect_client_loop`, both `main`
  functions) are I/O with no logic beyond sequencing. The server's loop over
  successive clients is left out too.
- Socket errors (`socket.error` on a reset connection) are not modelled.
  The `Socket` class never fails.
- `KeyboardInterrupt` depends on timing. So the server's interrupt path
  (server.py:153-157), which sends SERVER_CLOSED_MSG framed and returns
  False, is left out. So is the client's, which sends EXIT (client.py:96-98).
  SERVER_CLOSED_MSG still appears in the client's model, as a `reply` value
  that ends its session.
- `logging`, `print`, `input`, the log directory and the self-test of
  `return_time` against the real clock are left out.
- `return_time` is replaced by the clock parameter and `return_rand` by the
  dice parameter. The model does not check the `strftime` format.
- Server.MainLoop works on requests, not bytes. It reads the sequence of
  strings that successive `recv(4).decode()` calls return. How the client's
  bytes split into those four-byte reads is not modelled. Neither is a
  `UnicodeDecodeError` in that decode.
- The end of the request sequence stands for the connection failing. The
  code goes on answering the empty reads of a closed connection with
  "Invalid command." until `send` raises. Requests may contain "" to model
  those reads.
- Server.MainLoop gives the message `send` is called with. The server's
  single `send` may accept only part of it, and that is not modelled.
- Client.MainLoop takes what `get_response` returns as the parameter
  `reply`. GetResponse models that function on a `Socket` on its own. The
  client's single `send(req.encode())` is likewise modelled as sending the
  whole command. An exception from `get_response` ends the client, since the
  code does not catch it; `Ends` treats an `Err` reply that way.
- The client stopping when `input` hits end of file is modelled as the
  input sequence running out.
- `protocolize_content` counts characters, although its docstring says
  bytes, and the client reads that many bytes. The client's round trip is
  therefore proved for ASCII content only
  (Exchange.ClientReadsProtocolized). Every response is ASCII when the clock
  reading is.
- Server.RequestToResponse is written as a first-match scan over a table of
  the four requests in the code's order. Server.RequestToResponseCases shows
  that it gives the `if`/`elif` chain's answers.

## Findings

| source | as written | input that shows it | evidently intended | confidence | as-written member | corrected member |
|---|---|---|---|---|---|---|
| protocol.py:39-41 | each length field is `len(cmd)` or `len(args)`, a count of characters, while the payload after it is the string's UTF-8 bytes | `send(sock, "é", "")` writes the length 1 and then two bytes; `receive` then decodes the lone byte 0xC3 and raises UnicodeDecodeError | each length field counts its payload's bytes (`len(cmd.encode())`), so that every message is read back | not executed | Protocol.NonAsciiCommandIsNotReadBack | Protocol.CorrectedRoundTrip |

Protocol.RoundTripIffAscii spells the finding out in general: the code as
written reads a message back if and only if both strings are ASCII.
Protocol.Send still models the code as written. EncodeMessageCorrected is the
repaired encoder, and Protocol.CorrectedRoundTrip proves the full round trip
for it.
