/** The relay of relay.c: a reusable send buffer ahead of a queue, and one receive buffer. */
module RelayObject {
  import opened RelaySpec

  class Relay {
    var remote: bool        // remote_sa_len is not 0
    const dynamicOut: bool  // the remote address follows the sender of the last datagram received
    var queue: seq<Datagram>
    var sendBuffer: array?<Byte>
    var sendSize: nat
    var recvBuffer: array?<Byte>
    var recvSize: nat
    ghost var ledger: Ledger

    /** The deferred datagrams, oldest first: what the buffer holds, then the queue. */
    ghost function Pending(): seq<Datagram>
      reads this, sendBuffer
    {
      (if sendBuffer == null || sendSize == 0 || sendSize > sendBuffer.Length then [] else [sendBuffer[..sendSize]]) + queue
    }

    ghost function Unread(): Datagram
      reads this, recvBuffer
    {
      if recvBuffer == null || recvSize > recvBuffer.Length then [] else recvBuffer[..recvSize]
    }

    ghost function State(): State
      reads this, sendBuffer, recvBuffer
    {
      RelaySpec.State(remote, dynamicOut, Pending(), Unread(), ledger)
    }

    ghost predicate Valid()
      reads this, sendBuffer, recvBuffer
    {
      && (sendSize > 0 ==> sendBuffer != null && sendSize <= sendBuffer.Length)
      && (recvSize > 0 ==> recvBuffer != null)
      && (recvBuffer != null ==> recvBuffer.Length == BUF_SZ && recvSize <= BUF_SZ && recvBuffer != sendBuffer)
      && Conserved(State())
    }

    /** new_relay, once its socket is set up. */
    constructor (hasRemote: bool)
      ensures Valid() && State() == Init(hasRemote) && sendBuffer == null && recvBuffer == null
    {
      remote, dynamicOut := hasRemote, !hasRemote;
      queue, sendBuffer, sendSize, recvBuffer, recvSize := [], null, 0, null, 0;
      ledger := Init(hasRemote).ledger;
    }

    /** relay_queued: the socket is watched for writing exactly while the FIFO is not empty. */
    predicate Queued()
      reads this, sendBuffer, recvBuffer
      ensures Valid() ==> (Queued() <==> Pending() != [])
    {
      queue != [] || sendSize != 0
    }

    /** sendto with these bytes; the ledger records what the network took and what it refused for good. */
    method SendTo(bytes: Datagram, result: SendResult) returns (sz: int)
      modifies this`ledger
      ensures sz == if result == Transferred then |bytes| else -1
      ensures ledger == old(ledger).(sent := old(ledger).sent + (if sz > 0 then [bytes] else []),
                                     dropped := old(ledger).dropped + (if result == Undeliverable then [bytes] else []))
    {
      sz := -1;
      match result
      case Transferred =>
        sz := |bytes|;
        if sz > 0 {
          ledger := ledger.(sent := ledger.sent + [bytes]);
        }
      case Undeliverable =>
        ledger := ledger.(dropped := ledger.dropped + [bytes]);
      case WouldBlock =>
      case SendBroken =>
    }

    /** relay_enqueue, with what sendto answers; `ok` is a return value of 0. */
    method Enqueue(d: Datagram, result: SendResult) returns (ok: bool)
      requires Valid()
      modifies this, sendBuffer
      ensures Valid() && recvBuffer == old(recvBuffer) && (sendBuffer == old(sendBuffer) || fresh(sendBuffer))
      ensures State() == RelaySpec.Enqueue(old(State()), d, result).state
      ensures ok == RelaySpec.Enqueue(old(State()), d, result).ok
    {
      hide Conserved;
      OfferConserves(State(), d, result);
      ghost var after := RelaySpec.Enqueue(State(), d, result).state;
      ledger := ledger.(offered := ledger.offered + [d]);
      if !remote {
        ledger := ledger.(taken := ledger.taken + [d], dropped := ledger.dropped + [d]);
        ok := true;
      } else {
        var sz := SendTo(d, result);
        if sz > 0 {
          ledger := ledger.(taken := ledger.taken + [d]);
          ok := true;
        } else if sz < 0 && result == Undeliverable {
          ledger := ledger.(taken := ledger.taken + [d]);
          ok := true;
        } else if sz == 0 || (sz < 0 && result != WouldBlock) {
          ok := false;
        } else {
          Defer(d);
          ok := true;
        }
      }
      assert State() == after;
    }

    /** What follows when the socket would block. */
    method Defer(d: Datagram)
      requires (sendSize > 0 ==> sendBuffer != null && sendSize <= sendBuffer.Length)
      requires recvBuffer != null ==> recvBuffer != sendBuffer
      modifies this`queue, this`sendBuffer, this`sendSize, this`ledger, sendBuffer
      ensures (sendSize > 0 ==> sendBuffer != null && sendSize <= sendBuffer.Length)
      ensures (sendBuffer == old(sendBuffer) || fresh(sendBuffer)) && (recvBuffer != null ==> recvBuffer != sendBuffer)
      ensures var lost := d == [] && old(Pending()) == [];
              && Pending() == old(Pending()) + (if lost then [] else [d])
              && ledger == (if lost then old(ledger).(taken := old(ledger).taken + [d], vanished := old(ledger).vanished + [d])
                            else old(ledger).(taken := old(ledger).taken + [d], deferred := old(ledger).deferred + [d]))
    {
      ledger := ledger.(taken := ledger.taken + [d]);
      if Queued() {
        queue := queue + [d];
        ledger := ledger.(deferred := ledger.deferred + [d]);
      } else {
        Buffer(d);
        if sendSize == 0 {
          ledger := ledger.(vanished := ledger.vanished + [d]);
        } else {
          ledger := ledger.(deferred := ledger.deferred + [d]);
        }
      }
    }

    /** Puts a datagram into the send buffer, which grows when it is too small. */
    method Buffer(d: Datagram)
      requires sendSize == 0 && (recvBuffer != null ==> recvBuffer != sendBuffer)
      modifies this`sendBuffer, this`sendSize, sendBuffer
      ensures sendBuffer != null && sendSize == |d| <= sendBuffer.Length && sendBuffer[..sendSize] == d
      ensures (sendBuffer == old(sendBuffer) || fresh(sendBuffer)) && (recvBuffer != null ==> recvBuffer != sendBuffer)
    {
      if sendBuffer == null {
        sendBuffer := new Byte[|d|];
      } else if |d| > sendBuffer.Length {
        sendBuffer := new Byte[|d| + |d| / 2];
      }
      forall i | 0 <= i < |d| {
        sendBuffer[i] := d[i];
      }
      sendSize := |d|;
    }

    /** relay_receive hands out its internal buffer, and marks it read. */
    method Receive() returns (sz: nat, buffer: array?<Byte>)
      requires Valid()
      modifies this`recvSize
      ensures Valid() && State() == RelaySpec.Receive(old(State())) && sz == |old(State()).unread|
      ensures sz > 0 ==> buffer != null && buffer == recvBuffer && sz <= buffer.Length && buffer[..sz] == old(State()).unread
    {
      SamePending(State(), RelaySpec.Receive(State()));
      sz, buffer := 0, null;
      if recvSize != 0 {
        sz, buffer := recvSize, recvBuffer;
        recvSize := 0;
      }
    }

    /** recvfrom writes the datagram to the start of the receive buffer. */
    method Fill(d: Datagram, sz: nat)
      requires recvBuffer != null && recvBuffer != sendBuffer && sz <= recvBuffer.Length && sz <= |d|
      modifies recvBuffer
      ensures recvBuffer[..sz] == d[..sz] && Pending() == old(Pending())
    {
      forall i | 0 <= i < sz {
        recvBuffer[i] := d[i];
      }
    }

    /** The read event of relay_handle. */
    method HandleRead(readable: bool, result: RecvResult) returns (ok: bool)
      requires Valid()
      modifies this`remote, this`recvBuffer, this`recvSize, recvBuffer
      ensures Valid() && (recvBuffer == old(recvBuffer) || fresh(recvBuffer))
      ensures State() == RelaySpec.HandleRead(old(State()), readable, result).state
      ensures ok == RelaySpec.HandleRead(old(State()), readable, result).ok
    {
      hide Conserved;
      hide Pending;
      hide Unread;
      ghost var after := RelaySpec.HandleRead(State(), readable, result);
      SamePending(State(), after.state);
      UnreadSize();
      ok := true;
      if readable && recvSize == 0 {
        AllocateRecvBuffer();
        ok := Take(result);
      }
      assert State() == after.state;
    }

    lemma UnreadSize()
      requires Valid()
      ensures |Unread()| == recvSize
    {
    }

    method AllocateRecvBuffer()
      requires Valid() && recvSize == 0
      modifies this`recvBuffer
      ensures Valid() && State() == old(State()) && recvBuffer != null
      ensures recvBuffer == old(recvBuffer) || fresh(recvBuffer)
    {
      if recvBuffer == null {
        recvBuffer := new Byte[BUF_SZ];
        assert Unread() == old(Unread());
      }
    }

    /** What follows recvfrom in relay_handle. */
    method Take(result: RecvResult) returns (ok: bool)
      requires recvBuffer != null && recvBuffer.Length == BUF_SZ && recvBuffer != sendBuffer && recvSize == 0
      modifies this`remote, this`recvSize, recvBuffer
      ensures recvSize <= BUF_SZ
      ensures State() == RelaySpec.HandleRead(old(State()), true, result).state
      ensures ok == RelaySpec.HandleRead(old(State()), true, result).ok
    {
      ok := true;
      match result
      case Nothing =>
      case RecvBroken => ok := false;
      case Received(bytes) =>
        var sz := if |bytes| <= BUF_SZ then |bytes| else BUF_SZ;
        Fill(bytes, sz);
        if sz == 0 {
          ok := false;
        } else {
          recvSize := sz;
          if dynamicOut {
            remote := true;
          }
        }
    }

    /** The write event of relay_handle: the buffer first, then the head of the queue. */
    method HandleWrite(writable: bool, result: SendResult) returns (ok: bool)
      requires Valid()
      modifies this`queue, this`sendSize, this`ledger
      ensures Valid()
      ensures State() == RelaySpec.HandleWrite(old(State()), writable, result).state
      ensures ok == RelaySpec.HandleWrite(old(State()), writable, result).ok
    {
      hide Conserved;
      ghost var s := State();
      if s.pending != [] {
        DepartConserves(s, true);
        DepartConserves(s, false);
      }
      ok := true;
      if writable {
        if sendSize != 0 {
          var bytes := sendBuffer[..sendSize];
          var sz := SendTo(bytes, result);
          if sz > 0 || (sz < 0 && result != SendBroken) {
            if sz > 0 || (sz < 0 && result != WouldBlock) {
              ledger := ledger.(departed := ledger.departed + [bytes]);
              sendSize := 0;
            }
          } else {
            ok := false;
          }
        } else if queue != [] {
          var bytes := queue[0];
          var sz := SendTo(bytes, result);
          if sz > 0 || (sz < 0 && result != SendBroken) {
            if sz > 0 || (sz < 0 && result != WouldBlock) {
              ledger := ledger.(departed := ledger.departed + [bytes]);
              queue := queue[1..];
            }
          } else {
            ok := false;
          }
        }
      }
      assert State() == RelaySpec.HandleWrite(s, writable, result).state;
    }

    /** relay_handle */
    method Handle(e: Event) returns (ok: bool)
      requires Valid()
      modifies this, recvBuffer
      ensures Valid() && sendBuffer == old(sendBuffer) && (recvBuffer == old(recvBuffer) || fresh(recvBuffer))
      ensures State() == RelaySpec.Handle(old(State()), e).state && ok == RelaySpec.Handle(old(State()), e).ok
    {
      ok := HandleRead(e.readable, e.received);
      if ok {
        ok := HandleWrite(e.writable, e.written);
      }
    }
  }
}
