/**
  A connected TCP socket seen from one end, as the blocking Python socket
  calls `recv` and `send` use it. The peer has already written everything in
  `inbox` and then closed its side; every `recv` hands out some non-empty
  prefix of what is left, of any length the network chooses up to the
  requested size, and an empty one once the peer's bytes are exhausted.
  Every `send` accepts some non-empty prefix of the buffer it is given and
  appends it to `outbox`. Socket errors (a reset connection, a timeout) are
  not part of this model.
*/
module Stream {
  import opened Common

  class Socket {
    /** Bytes the peer has sent that have not been received yet. */
    var inbox: seq<Byte>
    /** Bytes this end has handed to the network, in order. */
    var outbox: seq<Byte>
    /** How often `Recv` and `Send` have been called. */
    ghost var recvCalls: nat
    ghost var sendCalls: nat

    constructor (incoming: seq<Byte>)
      ensures inbox == incoming && outbox == []
      ensures recvCalls == 0 && sendCalls == 0
    {
      inbox := incoming;
      outbox := [];
      recvCalls := 0;
      sendCalls := 0;
    }

    /** `sock.recv(bufsize)`. */
    method Recv(bufsize: nat) returns (chunk: seq<Byte>)
      modifies this
      ensures chunk + inbox == old(inbox)
      ensures |chunk| <= bufsize
      ensures chunk == [] ==> bufsize == 0 || old(inbox) == []
      ensures outbox == old(outbox) && sendCalls == old(sendCalls)
      ensures recvCalls == old(recvCalls) + 1
    {
      recvCalls := recvCalls + 1;
      if bufsize == 0 || inbox == [] {
        chunk := [];
      } else {
        var n :| 1 <= n <= bufsize && n <= |inbox|;
        chunk := inbox[..n];
        inbox := inbox[n..];
      }
    }

    /** `sock.send(data)`: the number of bytes the network accepted. */
    method Send(data: seq<Byte>) returns (count: nat)
      modifies this
      ensures count <= |data| && (data != [] ==> count >= 1)
      ensures outbox == old(outbox) + data[..count]
      ensures inbox == old(inbox) && recvCalls == old(recvCalls)
      ensures sendCalls == old(sendCalls) + 1
    {
      sendCalls := sendCalls + 1;
      if data == [] {
        count := 0;
      } else {
        count :| 1 <= count <= |data|;
      }
      outbox := outbox + data[..count];
    }
  }
}
