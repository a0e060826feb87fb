/**
  The receive side of a TCP socket against an arbitrary network: segments of one
  sender's stream may be lost, repeated and reordered.
 */
module Tcp {
  import opened Common
  import opened Ring

  const SEQ_MOD: nat := 0x1_0000_0000
  const RX_SIZE: nat := 8192

  /** A position as the 32-bit sequence number it travels under. */
  function Num(x: nat): (r: nat)
    ensures r < SEQ_MOD
  {
    x % SEQ_MOD
  }

  datatype State =
    Closed | Listen | SynSent | SynReceived | Established | FinWait1 | FinWait2 | CloseWait | LastAck | TimeWait

  datatype Segment = Segment(seqNo: nat, ackNo: nat, syn: bool, ack: bool, fin: bool, rst: bool, payload: seq<Byte>)

  /** A segment some sender of this stream may have sent; first is the number of the stream's first byte. */
  ghost predicate Genuine(g: Segment, stream: seq<Byte>, first: nat)
  {
    && g.seqNo < SEQ_MOD
    && (g.syn ==> g.payload == [] && Num(g.seqNo + 1) == Num(first))
    && (g.payload != [] ==> exists k :: CutFrom(g, stream, first, k))
  }

  /** The payload is the stretch of the stream that starts at byte k. */
  ghost predicate CutFrom(g: Segment, stream: seq<Byte>, first: nat, k: nat)
  {
    && k + |g.payload| <= |stream|
    && g.seqNo == Num(first + k)
    && g.payload == stream[k..k + |g.payload|]
  }

  /** Sequence numbers tell the positions of a stream shorter than 2^32 apart. */
  lemma SameNumberSamePlace(first: nat, k: nat, n: nat)
    requires k < SEQ_MOD && n < SEQ_MOD && Num(first + k) == Num(first + n)
    ensures k == n
  {
  }

  lemma NumAdd(x: nat, y: nat)
    ensures Num(Num(x) + y) == Num(x + y)
  {
  }

  /** The segment that carries the expected number carries the next bytes of the stream. */
  lemma InOrderIsNext(g: Segment, stream: seq<Byte>, first: nat, n: nat)
    requires Genuine(g, stream, first) && g.payload != [] && |stream| < SEQ_MOD && n <= |stream|
    requires g.seqNo == Num(first + n)
    ensures n + |g.payload| <= |stream| && stream[..n] + g.payload == stream[..n + |g.payload|]
    ensures Num(g.seqNo + |g.payload|) == Num(first + n + |g.payload|)
  {
    hide Num;
    var k: nat :| CutFrom(g, stream, first, k);
    SameNumberSamePlace(first, k, n);
    NumAdd(first + n, |g.payload|);
  }

  lemma SynNumber(g: Segment, stream: seq<Byte>, first: nat)
    requires Genuine(g, stream, first)
    ensures g.syn ==> Num(g.seqNo + 1) == Num(first)
  {
  }

  datatype ReadResult = WouldBlock | Bytes(data: seq<Byte>)

  datatype Event = Arrive(g: Segment) | Read(count: nat)

  class Socket {
    const ring: Buffer
    var state: State
    var rcvNxt: nat
    var sndUna: nat
    var connected: bool
    var closed: bool
    var shutRead: bool
    var shutWrite: bool
    ghost var received: seq<Byte>
    ghost var delivered: seq<Byte>

    /** Every byte ever accepted has been read or is still in the ring, in order. */
    ghost predicate Valid()
      reads this, ring, ring.data
    {
      ring.Ok() && ring.data.Length == RX_SIZE && rcvNxt < SEQ_MOD && received == delivered + ring.Contents()
    }

    /** What was accepted is the start of the stream, and the next number expected is its continuation. */
    ghost predicate InStep(stream: seq<Byte>, first: nat)
      reads this
    {
      && received <= stream
      && (state == SynSent ==> received == [])
      && (state == SynReceived || state == Established ==> rcvNxt == Num(first + |received|))
    }

    /** An active open, after its SYN has been sent. */
    constructor Connect(isn: nat)
      ensures Valid() && fresh(ring) && fresh(ring.data) && state == SynSent && received == [] && delivered == []
    {
      ring := new Buffer(RX_SIZE);
      state, rcvNxt, sndUna := SynSent, 0, isn;
      connected, closed, shutRead, shutWrite := false, false, false, false;
      received, delivered := [], [];
    }

    /** The child socket a listener makes for a SYN. */
    constructor Accept(syn: Segment)
      requires syn.syn && syn.seqNo < SEQ_MOD
      ensures Valid() && fresh(ring) && fresh(ring.data) && state == SynReceived && received == [] && delivered == []
      ensures rcvNxt == Num(syn.seqNo + 1)
    {
      ring := new Buffer(RX_SIZE);
      state, rcvNxt, sndUna := SynReceived, Num(syn.seqNo + 1), 1000;
      connected, closed, shutRead, shutWrite := false, false, false, false;
      received, delivered := [], [];
    }

    /** g carries the bytes expected next and the ring has room for them. */
    ghost predicate Takes(g: Segment)
      requires ring.Ok()
      reads this, ring, ring.data
    {
      g.payload != [] && g.seqNo == rcvNxt && RX_SIZE - |ring.Contents()| > |g.payload| + 1
    }

    /** In-order data goes to the ring when it fits; anything else is dropped. */
    method Append(g: Segment)
      requires Valid()
      modifies this`rcvNxt, this`received, ring`wr, ring.data
      ensures Valid() && delivered == old(delivered)
      ensures received == if old(Takes(g)) then old(received) + g.payload else old(received)
      ensures rcvNxt == if old(Takes(g)) then Num(old(rcvNxt) + |g.payload|) else old(rcvNxt)
      ensures ring.Contents() == if old(Takes(g)) then old(ring.Contents()) + g.payload else old(ring.Contents())
    {
      if |g.payload| > 0 && g.seqNo == rcvNxt {
        var free := ring.Free();
        if free > |g.payload| + 1 {
          ring.PutAll(g.payload);
          rcvNxt := Num(rcvNxt + |g.payload|);
          received := received + g.payload;
        }
      }
    }

    /** The handshake part of net_tcp_receive. */
    method Handshake(g: Segment)
      requires Valid()
      modifies this`state, this`rcvNxt, this`connected, this`sndUna
      ensures Valid()
      ensures state == if (old(state) == SynSent && g.syn && g.ack) || (old(state) == SynReceived && g.ack)
                       then Established else old(state)
      ensures rcvNxt == if old(state) == SynSent && g.syn && g.ack then Num(g.seqNo + 1) else old(rcvNxt)
    {
      if state == SynSent {
        if g.syn && g.ack {
          rcvNxt := Num(g.seqNo + 1);
          sndUna := g.ackNo;
          state := Established;
          connected := true;
        }
      } else if state == SynReceived {
        if g.ack {
          sndUna := g.ackNo;
          state := Established;
          connected := true;
        }
      }
    }

    /** The closing states of net_tcp_receive. */
    method Closing(g: Segment)
      requires Valid() && state != Established
      modifies this`state, this`rcvNxt, this`sndUna, this`closed
      ensures Valid()
      ensures state == old(state) || state in {FinWait2, TimeWait, Closed}
      ensures old(state) in {SynSent, SynReceived} ==> state == old(state) && rcvNxt == old(rcvNxt)
    {
      if state == FinWait1 {
        if g.ack {
          sndUna := g.ackNo;
          state := FinWait2;
        }
        if g.fin {
          rcvNxt := Num(rcvNxt + 1);
          state, closed := TimeWait, true;
        }
      } else if state == FinWait2 {
        if g.fin {
          rcvNxt := Num(rcvNxt + 1);
          state, closed := TimeWait, true;
        }
      } else if state == LastAck {
        if g.ack {
          sndUna := g.ackNo;
          state, closed := Closed, true;
        }
      }
    }

    /** The established part of net_tcp_receive: data, then FIN. */
    method Data(g: Segment, ghost stream: seq<Byte>, ghost first: nat)
      requires Valid() && InStep(stream, first) && state == Established
      requires Genuine(g, stream, first) && |stream| < SEQ_MOD
      modifies this`state, this`rcvNxt, this`sndUna, this`received, ring`wr, ring.data
      ensures Valid() && InStep(stream, first) && delivered == old(delivered)
      ensures received == old(received) || received == old(received) + g.payload
      ensures old(ring.Contents()) <= ring.Contents()
    {
      hide Genuine, Num, Window;
      if g.ack {
        sndUna := g.ackNo;
      }
      ghost var n := |received|;
      assert received == stream[..n];
      if g.payload != [] && g.seqNo == rcvNxt {
        InOrderIsNext(g, stream, first, n);
      }
      Append(g);
      assert received <= stream;
      if g.fin {
        rcvNxt := Num(rcvNxt + 1);
        state := CloseWait;
      }
    }

    /** net_tcp_receive on a matched socket. */
    method Receive(g: Segment, ghost stream: seq<Byte>, ghost first: nat)
      requires Valid() && InStep(stream, first)
      requires Genuine(g, stream, first) && |stream| < SEQ_MOD
      modifies this`state, this`rcvNxt, this`sndUna, this`connected, this`closed, this`received, ring`wr, ring.data
      ensures Valid() && InStep(stream, first) && delivered == old(delivered)
      ensures received == old(received) || received == old(received) + g.payload
      ensures old(ring.Contents()) <= ring.Contents()
    {
      hide Genuine, Num, Window;
      if g.rst {
        state, closed := Closed, true;
        return;
      }
      if g.ack && g.ackNo > sndUna {
        sndUna := g.ackNo;
      }
      SynNumber(g, stream, first);
      Handshake(g);
      if state == Established {
        Data(g, stream, first);
      } else {
        Closing(g);
      }
    }

    /** The TCP branch of socket_read. */
    method ReadUpTo(count: nat) returns (r: ReadResult)
      requires Valid()
      modifies this`delivered, ring`rd
      ensures Valid() && received == old(received)
      ensures r.Bytes? ==> |r.data| <= count && delivered == old(delivered) + r.data
      ensures r.Bytes? && old(ring.Contents()) != [] ==>
                |r.data| == if count < |old(ring.Contents())| then count else |old(ring.Contents())|
      ensures r.WouldBlock? ==> old(ring.Contents()) == [] && delivered == old(delivered)
    {
      hide Window;
      ring.Empty();
      if ring.rd == ring.wr {
        if shutRead || state == Closed || state == CloseWait || closed || shutWrite {
          return Bytes([]);
        }
        return WouldBlock;
      }
      var buf := ring.Take(count);
      assert delivered + (buf + ring.Contents()) == (delivered + buf) + ring.Contents();
      delivered := delivered + buf;
      return Bytes(buf);
    }

    /**
      Any interleaving of arrivals and reads: what the reader has been given is
      a prefix of the sender's stream.
     */
    method Run(events: seq<Event>, ghost stream: seq<Byte>, ghost first: nat) returns (given: seq<Byte>)
      requires Valid() && InStep(stream, first) && delivered == [] && |stream| < SEQ_MOD
      requires forall e :: e in events && e.Arrive? ==> Genuine(e.g, stream, first)
      modifies this, ring, ring.data
      ensures Valid() && InStep(stream, first)
      ensures given == delivered && given <= received <= stream
    {
      hide Genuine, Num, Window;
      given := [];
      var i := 0;
      while i < |events|
        invariant 0 <= i <= |events| && Valid() && InStep(stream, first) && given == delivered
      {
        match events[i] {
          case Arrive(g) =>
            assert events[i] in events;
            Receive(g, stream, first);
          case Read(count) =>
            var r := ReadUpTo(count);
            if r.Bytes? {
              given := given + r.data;
            }
        }
        i := i + 1;
      }
    }
  }
}
