/**
  The UDP receive ring as a queue of datagrams.  Arrivals are atomic; a reader
  takes its record byte by byte, and records may arrive between any two bytes.
 */
module Udp {
  import opened Common
  import opened Ring

  const RX_SIZE: nat := 8192
  const META: nat := 8

  datatype Datagram = Datagram(ip: seq<Byte>, port: nat, payload: seq<Byte>)

  predicate WellFormed(d: Datagram)
  {
    |d.ip| == 4 && d.port < 0x1_0000 && |d.payload| < 0x1_0000
  }

  function Low(n: nat): Byte { n % 0x100 }

  function High(n: nat): Byte { n / 0x100 % 0x100 }

  lemma Halves(n: nat)
    requires n < 0x1_0000
    ensures Low(n) + 0x100 * (High(n) as int) == n
  {
  }

  /** A record: source address, source port and length low byte first, then the payload. */
  function Encode(d: Datagram): (r: seq<Byte>)
    requires WellFormed(d)
    ensures |r| == META + |d.payload|
    ensures r[..4] == d.ip && r[META..] == d.payload
    ensures r[4] == Low(d.port) && r[5] == High(d.port) && r[6] == Low(|d.payload|) && r[7] == High(|d.payload|)
  {
    d.ip + [Low(d.port), High(d.port), Low(|d.payload|), High(|d.payload|)] + d.payload
  }

  lemma RecordBytes(was: seq<Byte>, d: Datagram)
    requires WellFormed(d)
    ensures was + d.ip + [Low(d.port)] + [High(d.port)] + [Low(|d.payload|)] + [High(|d.payload|)] + d.payload == was + Encode(d)
  {
  }

  ghost function Flatten(ds: seq<Datagram>): seq<Byte>
    requires forall d :: d in ds ==> WellFormed(d)
  {
    if ds == [] then [] else Encode(ds[0]) + Flatten(ds[1..])
  }

  lemma {:induction false} FlattenAppend(ds: seq<Datagram>, d: Datagram)
    requires WellFormed(d) && forall x :: x in ds ==> WellFormed(x)
    ensures Flatten(ds + [d]) == Flatten(ds) + Encode(d)
  {
    if ds == [] {
      assert ds + [d] == [d] && [d][1..] == [];
    } else {
      assert (ds + [d])[1..] == ds[1..] + [d];
      FlattenAppend(ds[1..], d);
    }
  }

  /** a keeps the order of b and may leave some of it out. */
  ghost predicate Sublist(a: seq<Datagram>, b: seq<Datagram>)
  {
    || a == []
    || (b != [] && (|| (a[|a| - 1] == b[|b| - 1] && Sublist(a[..|a| - 1], b[..|b| - 1]))
                    || Sublist(a, b[..|b| - 1])))
  }

  lemma {:induction false} SublistConcat(a: seq<Datagram>, b: seq<Datagram>, c: seq<Datagram>, d: seq<Datagram>)
    requires Sublist(a, b) && Sublist(c, d)
    ensures Sublist(a + c, b + d)
    decreases |d|
  {
    if d == [] {
      assert a + c == a && b + d == b;
    } else {
      var d' := d[..|d| - 1];
      assert (b + d)[..|b + d| - 1] == b + d';
      if c == [] {
        SublistConcat(a, b, c, d');
      } else if c[|c| - 1] == d[|d| - 1] && Sublist(c[..|c| - 1], d') {
        SublistConcat(a, b, c[..|c| - 1], d');
        assert (a + c)[..|a + c| - 1] == a + c[..|c| - 1];
      } else {
        SublistConcat(a, b, c, d');
      }
    }
  }

  lemma SublistNil()
    ensures Sublist([], [])
  {
  }

  /** Everything that arrives before the n bytes read from step on. */
  ghost function Arrivals(arrivals: nat -> seq<Datagram>, step: nat, n: nat): seq<Datagram>
  {
    if n == 0 then [] else Arrivals(arrivals, step, n - 1) + arrivals(step + n - 1)
  }

  lemma {:induction false} ArrivalsSplit(arrivals: nat -> seq<Datagram>, step: nat, m: nat, n: nat)
    ensures Arrivals(arrivals, step, m + n) == Arrivals(arrivals, step, m) + Arrivals(arrivals, step + m, n)
  {
    if n > 0 {
      ArrivalsSplit(arrivals, step, m, n - 1);
    }
  }

  /** The four stretches of a record and what comes before the rest is skipped, put together. */
  lemma RecordArrivals(arrivals: nat -> seq<Datagram>, n: nat, a: seq<Datagram>, b: seq<Datagram>,
                       c: seq<Datagram>, d: seq<Datagram>, e: seq<Datagram>)
    requires Sublist(a, Arrivals(arrivals, 0, 4)) && Sublist(b, Arrivals(arrivals, 4, 2))
    requires Sublist(c, Arrivals(arrivals, 6, 2)) && Sublist(d, Arrivals(arrivals, META, n))
    requires Sublist(e, arrivals(META + n))
    ensures Sublist(a + b + c + d + e, Arrivals(arrivals, 0, META + n + 1))
  {
    hide Sublist, Arrivals;
    ArrivalsSplit(arrivals, 0, 4, 2);
    ArrivalsSplit(arrivals, 0, 6, 2);
    ArrivalsSplit(arrivals, 0, META, n);
    SublistConcat(a, Arrivals(arrivals, 0, 4), b, Arrivals(arrivals, 4, 2));
    SublistConcat(a + b, Arrivals(arrivals, 0, 6), c, Arrivals(arrivals, 6, 2));
    SublistConcat(a + b + c, Arrivals(arrivals, 0, META), d, Arrivals(arrivals, META, n));
    SublistConcat(a + b + c + d, Arrivals(arrivals, 0, META + n), e, arrivals(META + n));
    OneMore(arrivals, META + n);
  }

  lemma Regrouped(q: seq<Datagram>, a: seq<Datagram>, b: seq<Datagram>, c: seq<Datagram>, d: seq<Datagram>, e: seq<Datagram>)
    ensures q + a + b + c + d + e == q + (a + b + c + d + e)
  {
  }

  lemma OneMore(arrivals: nat -> seq<Datagram>, n: nat)
    ensures Arrivals(arrivals, 0, n + 1) == Arrivals(arrivals, 0, n) + arrivals(n)
  {
  }

  // ---------- runs ----------

  datatype Event = Arrived(ds: seq<Datagram>) | Received(count: nat, arrivals: nat -> seq<Datagram>)

  datatype Got = Got(ip: seq<Byte>, port: nat, data: seq<Byte>)

  ghost predicate AllWell(e: Event)
  {
    match e
    case Arrived(ds) => forall d :: d in ds ==> WellFormed(d)
    case Received(_, arrivals) => forall i, d :: d in arrivals(i) ==> WellFormed(d)
  }

  /** A datagram as a receiver with a buffer of count bytes sees it. */
  function Seen(d: Datagram, count: nat): Got
  {
    Got(d.ip, d.port, d.payload[..if count < |d.payload| then count else |d.payload|])
  }

  /** q' is q with some of ds behind it, in order. */
  ghost predicate Queued(q: seq<Datagram>, ds: seq<Datagram>, q': seq<Datagram>)
  {
    q <= q' && Sublist(q'[|q|..], ds)
  }

  /** One event on a queue of datagrams; a receive on an empty queue waits. */
  ghost predicate QueueStep(q: seq<Datagram>, e: Event, r: Option<Got>, q': seq<Datagram>)
  {
    match e
    case Arrived(ds) => r == None && Queued(q, ds, q')
    case Received(count, arrivals) =>
      if q == [] then r == None && q' == q
      else r == Some(Seen(q[0], count)) && Queued(q[1..], Arrivals(arrivals, 0, META + |r.value.data| + 1), q')
  }

  lemma QueuedIs(q: seq<Datagram>, kept: seq<Datagram>, ds: seq<Datagram>)
    requires Sublist(kept, ds)
    ensures Queued(q, ds, q + kept)
  {
    assert (q + kept)[|q|..] == kept;
  }

  lemma TakeFirst(p: seq<Byte>, f: seq<Byte>, x: Byte, rest: seq<Byte>)
    requires p != [] && p + f == [x] + rest
    ensures x == p[0] && rest == p[1..] + f
  {
    assert (p + f)[0] == x && (p + f)[1..] == rest;
    assert (p + f)[1..] == p[1..] + f;
  }

  lemma SkipAll(p: seq<Byte>, f: seq<Byte>)
    ensures (p + f)[|p|..] == f == [] + f
  {
  }

  class Socket {
    const ring: Buffer
    ghost var partial: seq<Byte>
    ghost var fifo: seq<Datagram>

    /** The ring holds the rest of the record being read, then whole records. */
    ghost predicate Valid()
      reads this, ring, ring.data
    {
      && ring.Ok() && ring.data.Length == RX_SIZE
      && (forall d :: d in fifo ==> WellFormed(d))
      && ring.Contents() == partial + Flatten(fifo)
    }

    constructor ()
      ensures Valid() && fresh(ring) && fresh(ring.data) && partial == [] && fifo == []
    {
      ring := new Buffer(RX_SIZE);
      partial, fifo := [], [];
    }

    /** net_udp_receive for a bound socket: the whole record or nothing. */
    method Arrive(d: Datagram)
      requires Valid() && WellFormed(d)
      modifies this`fifo, ring`wr, ring.data
      ensures Valid()
      ensures fifo == if |old(ring.Contents())| + META + |d.payload| + 1 < RX_SIZE then old(fifo) + [d] else old(fifo)
    {
      hide Window, Low, High, Encode;
      var free := ring.Free();
      if free > META + |d.payload| + 1 {
        ghost var was := ring.Contents();
        PutRecord(d);
        FlattenAppend(fifo, d);
        assert was + Encode(d) == partial + (Flatten(fifo) + Encode(d));
        fifo := fifo + [d];
      }
    }

    method PutRecord(d: Datagram)
      requires ring.Ok() && WellFormed(d) && |ring.Contents()| + META + |d.payload| < ring.data.Length
      modifies ring`wr, ring.data
      ensures ring.Ok() && ring.Contents() == old(ring.Contents()) + Encode(d)
    {
      hide Window, Low, High, Encode;
      ghost var was := ring.Contents();
      ring.PutAll(d.ip);
      ring.Put(Low(d.port));
      ring.Put(High(d.port));
      ring.Put(Low(|d.payload|));
      ring.Put(High(|d.payload|));
      ring.PutAll(d.payload);
      RecordBytes(was, d);
    }

    /** The records that arrive between two bytes. */
    method ArriveAll(ds: seq<Datagram>) returns (ghost kept: seq<Datagram>)
      requires Valid() && forall d :: d in ds ==> WellFormed(d)
      modifies this`fifo, ring`wr, ring.data
      ensures Valid() && fifo == old(fifo) + kept && Sublist(kept, ds)
    {
      kept := [];
      var i := 0;
      while i < |ds|
        invariant 0 <= i <= |ds| && Valid()
        invariant fifo == old(fifo) + kept && Sublist(kept, ds[..i])
      {
        ghost var was := fifo;
        Arrive(ds[i]);
        assert ds[..i + 1][..i] == ds[..i];
        if fifo != was {
          kept := kept + [ds[i]];
        }
        i := i + 1;
      }
      assert ds[..i] == ds;
    }

    /** One byte of the record being read, after whatever arrived before it. */
    method NextByte(ds: seq<Datagram>) returns (x: Byte, ghost kept: seq<Datagram>)
      requires Valid() && partial != [] && forall d :: d in ds ==> WellFormed(d)
      modifies this`fifo, this`partial, ring`rd, ring`wr, ring.data
      ensures Valid() && old(partial) == [x] + partial && fifo == old(fifo) + kept && Sublist(kept, ds)
    {
      hide Window;
      kept := ArriveAll(ds);
      ghost var p, f := partial, Flatten(fifo);
      x := ring.Get();
      TakeFirst(p, f, x, ring.Contents());
      partial := partial[1..];
    }

    /** n bytes of the record being read, one by one, from step on. */
    method NextBytes(n: nat, arrivals: nat -> seq<Datagram>, step: nat) returns (xs: seq<Byte>, ghost kept: seq<Datagram>)
      requires Valid() && n <= |partial| && forall i, d :: d in arrivals(i) ==> WellFormed(d)
      modifies this`fifo, this`partial, ring`rd, ring`wr, ring.data
      ensures Valid() && xs == old(partial)[..n] && partial == old(partial)[n..] && fifo == old(fifo) + kept
      ensures Sublist(kept, Arrivals(arrivals, step, n))
    {
      hide Window, Sublist;
      xs, kept := [], [];
      SublistNil();
      while |xs| < n
        invariant |xs| <= n && Valid() && old(partial) == xs + partial && fifo == old(fifo) + kept
        invariant Sublist(kept, Arrivals(arrivals, step, |xs|))
      {
        var x;
        ghost var more;
        x, more := NextByte(arrivals(step + |xs|));
        SublistConcat(kept, Arrivals(arrivals, step, |xs|), more, arrivals(step + |xs|));
        xs, kept := xs + [x], kept + more;
      }
    }

    /** Two bytes, low byte first. */
    method NextWord(arrivals: nat -> seq<Datagram>, step: nat) returns (w: nat, ghost kept: seq<Datagram>)
      requires Valid() && 2 <= |partial| && forall i, d :: d in arrivals(i) ==> WellFormed(d)
      modifies this`fifo, this`partial, ring`rd, ring`wr, ring.data
      ensures Valid() && partial == old(partial)[2..] && fifo == old(fifo) + kept
      ensures Sublist(kept, Arrivals(arrivals, step, 2))
      ensures w == old(partial)[0] + 0x100 * (old(partial)[1] as int)
    {
      hide Window;
      var xs;
      xs, kept := NextBytes(2, arrivals, step);
      w := xs[0] + 0x100 * (xs[1] as int);
    }

    /** The UDP branch of sys_recvfrom: one record, its payload cut to the caller's buffer. */
    method Recv(count: nat, arrivals: nat -> seq<Datagram>)
      returns (ip: seq<Byte>, port: nat, data: seq<Byte>, ghost kept: seq<Datagram>)
      requires Valid() && partial == [] && fifo != []
      requires forall i, d :: d in arrivals(i) ==> WellFormed(d)
      modifies this`fifo, this`partial, ring`rd, ring`wr, ring.data
      ensures Valid() && partial == []
      ensures var d := old(fifo)[0];
              ip == d.ip && port == d.port && data == d.payload[..if count < |d.payload| then count else |d.payload|]
      ensures fifo == old(fifo)[1..] + kept && Sublist(kept, Arrivals(arrivals, 0, META + |data| + 1))
    {
      hide Window, Low, High, Flatten, Sublist, Arrivals, Encode;
      ghost var d := fifo[0];
      ghost var rec := Encode(d);
      Halves(d.port);
      Halves(|d.payload|);
      BeginRecord();
      ghost var q := fifo;
      ghost var k1, k2, k3, k4;
      var len;
      ip, kept := NextBytes(4, arrivals, 0);
      port, k1 := NextWord(arrivals, 4);
      len, k2 := NextWord(arrivals, 6);
      assert partial == rec[META..];
      var copied := if len < count then len else count;
      data, k3 := NextBytes(copied, arrivals, META);
      k4 := ArriveAll(arrivals(META + copied));
      RecordArrivals(arrivals, copied, kept, k1, k2, k3, k4);
      Regrouped(q, kept, k1, k2, k3, k4);
      kept := kept + k1 + k2 + k3 + k4;
      if len > copied {
        SkipRest(len - copied);
      }
    }

    /** What the caller's buffer had no room for is passed over. */
    method SkipRest(n: nat)
      requires Valid() && n == |partial|
      modifies this`partial, ring`rd
      ensures Valid() && partial == []
    {
      hide Window;
      ghost var p := partial;
      ring.Skip(n);
      SkipAll(p, Flatten(fifo));
      partial := [];
    }

    /** The first record of the queue becomes the one being read. */
    ghost method BeginRecord()
      requires Valid() && partial == [] && fifo != []
      modifies this`fifo, this`partial
      ensures Valid() && fifo == old(fifo)[1..] && partial == Encode(old(fifo)[0])
    {
      partial := Encode(fifo[0]);
      fifo := fifo[1..];
    }

    lemma EmptyQueue()
      requires Valid() && partial == []
      ensures ring.Contents() == [] <==> fifo == []
    {
      assert [] + Flatten(fifo) == Flatten(fifo);
    }

    method Do(e: Event) returns (r: Option<Got>)
      requires Valid() && partial == [] && AllWell(e)
      modifies this`fifo, this`partial, ring`rd, ring`wr, ring.data
      ensures Valid() && partial == [] && QueueStep(old(fifo), e, r, fifo)
    {
      EmptyQueue();
      ring.Empty();
      hide Sublist, Arrivals, Flatten, Window;
      ghost var q, kept := fifo, [];
      r := None;
      match e {
        case Arrived(ds) =>
          kept := ArriveAll(ds);
          QueuedIs(q, kept, ds);
        case Received(count, arrivals) =>
          if ring.rd != ring.wr {
            var ip, port, data;
            ip, port, data, kept := Recv(count, arrivals);
            r := Some(Got(ip, port, data));
            QueuedIs(q[1..], kept, Arrivals(arrivals, 0, META + |data| + 1));
          }
      }
    }

    /** Over every run the ring is a queue of whole datagrams: in at the back, out at the front, once each. */
    method Run(events: seq<Event>) returns (rs: seq<Option<Got>>, ghost queues: seq<seq<Datagram>>)
      requires Valid() && partial == [] && forall k :: 0 <= k < |events| ==> AllWell(events[k])
      modifies this`fifo, this`partial, ring`rd, ring`wr, ring.data
      ensures Valid() && partial == [] && |rs| == |events| && |queues| == |events| + 1
      ensures queues[0] == old(fifo) && queues[|events|] == fifo
      ensures forall k :: 0 <= k < |events| ==> QueueStep(queues[k], events[k], rs[k], queues[k + 1])
    {
      hide Valid, QueueStep, AllWell;
      rs, queues := [], [fifo];
      while |rs| < |events|
        invariant Valid() && partial == [] && |rs| <= |events| && |queues| == |rs| + 1
        invariant queues[0] == old(fifo) && queues[|rs|] == fifo
        invariant forall k :: 0 <= k < |rs| ==> QueueStep(queues[k], events[k], rs[k], queues[k + 1])
      {
        var r := Do(events[|rs|]);
        rs, queues := rs + [r], queues + [fifo];
      }
    }
  }
}
