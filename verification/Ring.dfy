/** The receive ring of a socket: a byte buffer with a read and a write position. */
module Ring {
  import opened Common

  /** The unread bytes, oldest first; equal positions mean empty. */
  ghost function Window(b: seq<Byte>, rd: nat, wr: nat): seq<Byte>
    requires rd < |b| && wr < |b|
  {
    if rd <= wr then b[rd..wr] else b[rd..] + b[..wr]
  }

  /** Free space as the receive paths compute it. */
  function FreeSpace(size: nat, rd: nat, wr: nat): int
  {
    if wr >= rd then size - (wr - rd) else rd - wr
  }

  lemma FreeSpaceMeans(b: seq<Byte>, rd: nat, wr: nat)
    requires rd < |b| && wr < |b|
    ensures FreeSpace(|b|, rd, wr) == |b| - |Window(b, rd, wr)|
  {
  }

  lemma ModOnce(x: nat, n: nat)
    requires 0 < n && x < 2 * n
    ensures x % n == if x < n then x else x - n
  {
  }

  lemma PutWindow(b: seq<Byte>, rd: nat, wr: nat, x: Byte)
    requires rd < |b| && wr < |b| && |Window(b, rd, wr)| + 1 < |b|
    ensures Window(b[wr := x], rd, (wr + 1) % |b|) == Window(b, rd, wr) + [x]
  {
    ModOnce(wr + 1, |b|);
    var b', w' := b[wr := x], (wr + 1) % |b|;
    if rd <= wr && w' == 0 {
      assert b'[rd..] + b'[..0] == b[rd..wr] + [x];
    }
  }

  lemma SkipWindow(b: seq<Byte>, rd: nat, wr: nat, k: nat)
    requires rd < |b| && wr < |b| && k <= |Window(b, rd, wr)|
    ensures Window(b, (rd + k) % |b|, wr) == Window(b, rd, wr)[k..]
  {
    ModOnce(rd + k, |b|);
    if rd <= wr {
      assert b[rd..wr][k..] == b[rd + k..wr];
    } else if rd + k < |b| {
      assert (b[rd..] + b[..wr])[k..] == b[rd + k..] + b[..wr];
    } else {
      assert (b[rd..] + b[..wr])[k..] == b[rd + k - |b|..wr];
    }
  }

  class Buffer {
    const data: array<Byte>
    var rd: nat
    var wr: nat

    ghost predicate Ok()
      reads this, data
    {
      data.Length > 1 && rd < data.Length && wr < data.Length
    }

    ghost function Contents(): seq<Byte>
      requires Ok()
      reads this, data
    {
      Window(data[..], rd, wr)
    }

    constructor (size: nat)
      requires size > 1
      ensures Ok() && fresh(data) && data.Length == size && Contents() == []
    {
      data := new Byte[size](_ => 0);
      rd, wr := 0, 0;
    }

    method Free() returns (n: int)
      requires Ok()
      ensures n == data.Length - |Contents()|
    {
      FreeSpaceMeans(data[..], rd, wr);
      n := FreeSpace(data.Length, rd, wr);
    }

    /** One byte at the write position. */
    method Put(x: Byte)
      requires Ok() && |Contents()| + 1 < data.Length
      modifies this`wr, data
      ensures Ok() && Contents() == old(Contents()) + [x]
    {
      PutWindow(data[..], rd, wr, x);
      ghost var b := data[..];
      data[wr] := x;
      assert data[..] == b[wr := x];
      wr := (wr + 1) % data.Length;
    }

    /** A run of bytes, for which there is room. */
    method PutAll(xs: seq<Byte>)
      requires Ok() && |Contents()| + |xs| < data.Length
      modifies this`wr, data
      ensures Ok() && Contents() == old(Contents()) + xs
    {
      var k := 0;
      while k < |xs|
        invariant 0 <= k <= |xs| && Ok()
        invariant Contents() == old(Contents()) + xs[..k]
      {
        Put(xs[k]);
        k := k + 1;
      }
    }

    /** One byte from the read position. */
    method Get() returns (x: Byte)
      requires Ok() && Contents() != []
      modifies this`rd
      ensures Ok() && old(Contents()) == [x] + Contents()
    {
      SkipWindow(data[..], rd, wr, 1);
      x := data[rd];
      rd := (rd + 1) % data.Length;
    }

    method Skip(k: nat)
      requires Ok() && k <= |Contents()|
      modifies this`rd
      ensures Ok() && Contents() == old(Contents())[k..]
    {
      SkipWindow(data[..], rd, wr, k);
      rd := (rd + k) % data.Length;
    }

    lemma Empty()
      requires Ok()
      ensures rd == wr <==> Contents() == []
    {
    }

    /** Bytes one by one until the ring is empty or count of them are taken. */
    method Take(count: nat) returns (buf: seq<Byte>)
      requires Ok()
      modifies this`rd
      ensures Ok() && old(Contents()) == buf + Contents()
      ensures |buf| == if count < |old(Contents())| then count else |old(Contents())|
    {
      hide Window;
      buf := [];
      while rd != wr && |buf| < count
        invariant Ok() && |buf| <= count && old(Contents()) == buf + Contents()
        decreases count - |buf|
      {
        Empty();
        var x := Get();
        buf := buf + [x];
      }
      Empty();
    }
  }
}
