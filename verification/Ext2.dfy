/** The mutable ext2 block layer: allocation, the block index, and file read, write, truncate, unlink. */
module Ext2 {
  import opened Common
  import opened Ext2Disk
  import opened Ext2Fs
  import opened Ext2Bytes

  datatype Status = OK | ENOSPC | EFBIG

  const USER_TOP: nat := 0x7fff_ffff_ffff

  datatype Op =
    | Create
    | Write(ino: nat, offset: nat, data: seq<Byte>)
    | Read(ino: nat, from: nat, count: nat)
    | Truncate(ino: nat, n: nat)
    | Unlink(ino: nat)

  /** What an operation reports; NoFile when there is no such file to call it on. */
  datatype Reply = Done(status: Status) | Got(bytes: seq<Byte>) | NoFile

  /** Offsets and sizes are 64-bit, and a buffer fits in user memory. */
  predicate InRange(op: Op)
  {
    match op
    case Write(_, offset, data) => offset < U64 && |data| <= USER_TOP
    case Truncate(_, n) => n < U64
    case _ => true
  }

  /** Blocks needed for a size, computed in 64-bit arithmetic. */
  function BlocksFor(size: nat): nat
  {
    (size + 1023) % U64 / BLOCK_SIZE
  }

  lemma BlocksForCovers(n: nat, p: nat)
    requires p < n <= SIZE_LIMIT
    ensures p / BLOCK_SIZE < BlocksFor(n) && forall m :: !Gone(BlocksFor(n), m, p / BLOCK_SIZE)
  {
  }

  function Min(a: nat, b: nat): nat { if a < b then a else b }
  function Max(a: nat, b: nat): nat { if a < b then b else a }

  /** One operation on the files of a volume. */
  ghost predicate FileStep(f: map<nat, Sparse>, op: Op, r: Reply, f': map<nat, Sparse>)
  {
    match op
    case Create =>
      || (r == Done(OK) && exists ino: nat :: ino !in f && f' == f[ino := Sparse(0, NoCells())])
      || (r == Done(ENOSPC) && f' == f)
    case Write(ino, offset, data) =>
      if ino in f then r.Done? && ino in f' && f' == f[ino := f'[ino]] && WriteStep(f[ino], offset, data, r.status, f'[ino])
      else r == NoFile && f' == f
    case Read(ino, from, count) =>
      f' == f && r == if ino in f then Got(ReadCells(f[ino], from, count)) else NoFile
    case Truncate(ino, n) =>
      if ino in f then r == Done(OK) && f' == f[ino := CutTo(f[ino], n)] else r == NoFile && f' == f
    case Unlink(ino) => f' == f - {ino} && r == if ino in f then Done(OK) else NoFile
  }

  /** A write puts all its data in place, or the part that there was room for, or is refused for its size. */
  ghost predicate WriteStep(c: Sparse, offset: nat, data: seq<Byte>, r: Status, c': Sparse)
  {
    && (r == OK ==> c' == Sparse(Max(c.size, offset + |data|), WriteCells(c.cells, offset, data, |data|)))
    && (r == EFBIG ==> c' == c)
    && (r == ENOSPC ==> exists w: nat :: w <= |data| && CutShort(c, offset, data, w, c'))
    && (offset + |data| < U64 ==> (r == EFBIG <==> offset + |data| > SIZE_LIMIT))
    && (offset + |data| >= U64 ==> r != OK)
  }

  ghost predicate CutShort(c: Sparse, offset: nat, data: seq<Byte>, w: nat, c': Sparse)
    requires w <= |data|
  {
    && c'.cells == WriteCells(c.cells, offset, data, w) && (w > 0 ==> offset + |data| <= SIZE_LIMIT)
    && c.size <= c'.size <= (if w == 0 then c.size else Max(c.size, offset + w))
  }

  function CutTo(c: Sparse, n: nat): Sparse
  {
    Sparse(n, if n < c.size then CutCells(c.cells, BlocksFor(n), BlocksFor(c.size)) else c.cells)
  }

  /** On a file without holes a write inside it or at its end is that of a byte sequence. */
  lemma PlainWriteStep(c: Sparse, offset: nat, data: seq<Byte>, r: Status, c': Sparse)
    requires Full(c) && offset <= c.size && WriteStep(c, offset, data, r, c')
    ensures Full(c')
    ensures r == OK ==> Bytes(c') == Overwrite(Bytes(c), offset, data)
    ensures r == ENOSPC ==> exists w: nat :: w <= |data| && PartOf(c, offset, data, w, c')
  {
    if r == OK {
      PlainWrite(c, offset, data, |data|, c'.size);
      assert data[..|data|] == data;
    } else if r == ENOSPC {
      var w: nat :| w <= |data| && CutShort(c, offset, data, w, c');
      PlainWrite(c, offset, data, w, c'.size);
      assert PartOf(c, offset, data, w, c');
    }
  }

  ghost predicate PartOf(c: Sparse, offset: nat, data: seq<Byte>, w: nat, c': Sparse)
    requires Full(c) && Full(c') && offset <= c.size && w <= |data|
  {
    var all := Overwrite(Bytes(c), offset, data[..w]);
    c'.size <= |all| && Bytes(c') == all[..c'.size]
  }

  lemma PlainCutTo(c: Sparse, n: nat)
    requires Full(c) && n <= c.size
    ensures Full(CutTo(c, n)) && Bytes(CutTo(c, n)) == Bytes(c)[..n]
  {
    forall p | 0 <= p < n ensures !Gone(BlocksFor(n), BlocksFor(c.size), p / BLOCK_SIZE) {
      BlocksForCovers(n, p);
    }
    if n < c.size {
      PlainCut(c, BlocksFor(n), BlocksFor(c.size), n);
    }
  }

  /** Nothing is zeroed: a file cut short and grown again within its last block shows what it held. */
  lemma StaleTail(c: Sparse, n: nat, m: nat)
    requires Full(c) && n <= m <= c.size && BlocksFor(n) == BlocksFor(m)
    ensures Full(CutTo(CutTo(c, n), m)) && Bytes(CutTo(CutTo(c, n), m)) == Bytes(c)[..m]
  {
    var cut := CutTo(c, n);
    forall p | 0 <= p < m ensures !Gone(BlocksFor(n), BlocksFor(c.size), p / BLOCK_SIZE) {
      BlocksForCovers(m, p);
    }
    assert forall p :: 0 <= p < m ==> cut.cells[p] == c.cells[p];
  }

  class Volume {
    ghost const reserved: set<nat>
    const inodesPerGroup: nat
    var bitmap: seq<bool>
    var free: nat
    var disk: seq<Block>
    var inodeMap: seq<bool>
    var inodes: seq<Inode>
    var nodes: map<nat, Node>

    /** No clear bit stands for a block of the device. */
    static ghost predicate Exhausted(fs: Fs)
      requires |fs.bitmap| == BITMAP_BITS
    {
      forall k :: 0 <= k < BITMAP_BITS && k + 1 < |fs.disk| ==> fs.bitmap[k]
    }

    static ghost predicate SameSizes(fs: Fs, fs': Fs)
    {
      fs'.nodes.Keys == fs.nodes.Keys && forall f :: Size(fs', f) == Size(fs, f)
    }

    ghost function St(): Fs
      reads this
    {
      Fs(reserved, bitmap, free, disk, inodeMap, inodes, nodes)
    }

    /** ext2_alloc_block: the lowest clear bit whose block exists, zeroed. */
    method AllocBlock() returns (b: nat)
      requires |bitmap| == BITMAP_BITS
      modifies this`bitmap, this`free, this`disk
      ensures b == 0 <==> Exhausted(old(St()))
      ensures b == 0 ==> St() == old(St())
      ensures b != 0 ==> && 0 < b < |old(disk)| && b <= BITMAP_BITS && !old(bitmap)[b - 1]
                         && St() == Allocated(old(St()), b)
                         && forall k :: 0 <= k < b - 1 ==> old(bitmap)[k]
    {
      var i := 0;
      while i < BITMAP_BITS
        invariant 0 <= i <= BITMAP_BITS
        invariant forall k :: 0 <= k < i && k + 1 < |disk| ==> bitmap[k]
      {
        if !bitmap[i] && i + 1 < |disk| {
          bitmap := bitmap[i := true];
          free := (free - 1) % COUNT_MOD;
          disk := disk[i + 1 := ZeroBlock()];
          return i + 1;
        }
        i := i + 1;
      }
      return 0;
    }

    /** ext2_free_block. */
    method FreeBlock(b: nat)
      requires |bitmap| == BITMAP_BITS
      modifies this`bitmap, this`free
      ensures St() == Freed(old(St()), b)
    {
      if 0 < b < |disk| && b - 1 < BITMAP_BITS && bitmap[b - 1] {
        bitmap := bitmap[b - 1 := false];
        free := (free + 1) % COUNT_MOD;
      }
    }

    /** Entry k of the cached table, then of the saved inode. */
    method PutEntry(ino: nat, k: nat, v: nat)
      requires ino in nodes && 0 < ino <= |inodes| && k < 15
      modifies this`nodes, this`inodes
      ensures St() == SetEntry(old(St()), ino, k, v)
    {
      nodes := nodes[ino := nodes[ino].WithEntry(k, v)];
      inodes := inodes[ino - 1 := inodes[ino - 1].WithEntry(k, v)];
    }

    /** Allocates the root of the single (Sib) or double (Dib) index when it is missing. */
    method EnsureRoot(ino: nat, s0: Slot, ghost loose: nat) returns (ok: bool)
      requires Inv(St(), loose) && ino in nodes && (s0 == Sib || s0 == Dib)
      requires loose == 0 || Val(St(), ino, s0) != 0
      modifies this`bitmap, this`free, this`disk, this`nodes, this`inodes
      ensures Inv(St(), loose) && Grown(old(St()), St(), ino)
      ensures ok <==> Val(St(), ino, s0) != 0
      ensures Val(old(St()), ino, s0) != 0 || !ok ==> St() == old(St())
    {
      var k := if s0 == Sib then 12 else 13;
      if nodes[ino].blocks[k] == 0 {
        var b := AllocBlock();
        if b == 0 {
          return false;
        }
        GrowRoot(old(St()), ino, s0, b);
        PutEntry(ino, k, b);
      }
      return true;
    }

    /** Allocates the o-th second-level index block when it is missing. */
    method EnsureOuter(ino: nat, o: nat, ghost loose: nat) returns (ok: bool)
      requires Inv(St(), loose) && Val(St(), ino, Dib) != 0 && o < PTRS
      requires loose == 0 || Val(St(), ino, Outer(o)) != 0
      modifies this`bitmap, this`free, this`disk
      ensures Inv(St(), loose) && Grown(old(St()), St(), ino)
      ensures ok <==> Val(St(), ino, Outer(o)) != 0
      ensures Val(old(St()), ino, Outer(o)) != 0 || !ok ==> St() == old(St())
    {
      var dib := nodes[ino].blocks[13];
      assert Sound(St(), Val(St(), ino, Dib));
      if Ptr(disk[dib], o) == 0 {
        assert Val(St(), ino, Outer(o)) == 0;
        var b := AllocBlock();
        if b == 0 {
          return false;
        }
        GrowOuter(old(St()), ino, o, b);
        disk := disk[dib := SetPtr(disk[dib], o, b)];
      }
      return true;
    }

    /** The lazily allocated index blocks on the way to data pointer i. */
    method EnsureIndex(ino: nat, i: nat, ghost loose: nat) returns (ok: bool)
      requires Inv(St(), loose) && ino in nodes && i < MAX_BLOCKS
      requires loose == 0 || Ready(St(), ino, i)
      modifies this`bitmap, this`free, this`disk, this`nodes, this`inodes
      ensures Inv(St(), loose) && Grown(old(St()), St(), ino)
      ensures ok <==> Ready(St(), ino, i)
      ensures !ok ==> loose == 0 && Val(St(), ino, Data(i)) == 0
      ensures Ready(old(St()), ino, i) ==> St() == old(St())
    {
      hide Unshared, CacheOk, Balance;
      ok := true;
      if DIRECT <= i < FIRST_DOUBLE {
        ok := EnsureRoot(ino, Sib, loose);
      } else if FIRST_DOUBLE <= i {
        ok := EnsureRoot(ino, Dib, loose);
        if ok {
          ghost var mid := St();
          ok := EnsureOuter(ino, (i - FIRST_DOUBLE) / PTRS, loose);
          GrownTrans(old(St()), mid, St(), ino);
        }
      }
      if ok {
        IndexReady(St(), ino, i, loose);
      }
    }

    /** ext2_set_block_num. */
    method SetBlockNum(ino: nat, i: nat, b: nat, ghost loose: nat) returns (r: Status)
      requires Inv(St(), loose) && ino in nodes
      requires b != 0 ==> Linkable(St(), b)
      requires loose != 0 ==> loose == Val(St(), ino, Data(i))
      modifies this`bitmap, this`free, this`disk, this`nodes, this`inodes
      ensures Inv(St(), 0) && SameShape(old(St()), St(), ino) && Balance(St()) == Balance(old(St()))
      ensures r == EFBIG <==> i >= MAX_BLOCKS
      ensures r == OK ==> Linked(old(St()), St(), ino, i, b)
      ensures r == ENOSPC ==> Grown(old(St()), St(), ino) && Val(St(), ino, Data(i)) == 0
      ensures r == EFBIG ==> St() == old(St())
      ensures Ready(old(St()), ino, i) ==> r == OK && b < SIZE_MOD && St() == LinkData(old(St()), ino, i, b)
    {
      hide Unshared, CacheOk, Balance, Linked, Linkable;
      if i >= MAX_BLOCKS {
        return EFBIG;
      }
      ghost var fs := St();
      if loose != 0 {
        NonzeroReady(fs, ino, i, loose);
      }
      var ok := EnsureIndex(ino, i, loose);
      if !ok {
        return ENOSPC;
      }
      LinkFinish(fs, St(), ino, i, b, loose);
      if i < DIRECT {
        PutEntry(ino, i, b);
      } else if i < FIRST_DOUBLE {
        var sib := nodes[ino].blocks[12];
        disk := disk[sib := SetPtr(disk[sib], i - DIRECT, b)];
      } else {
        var sib := Ptr(disk[nodes[ino].blocks[13]], (i - FIRST_DOUBLE) / PTRS);
        disk := disk[sib := SetPtr(disk[sib], (i - FIRST_DOUBLE) % PTRS, b)];
      }
      return OK;
    }

    method PutSize(ino: nat, n: nat)
      requires ino in nodes && 0 < ino <= |inodes|
      modifies this`nodes, this`inodes
      ensures St() == SetSize(old(St()), ino, n)
    {
      nodes := nodes[ino := nodes[ino].WithSize(n)];
      inodes := inodes[ino - 1 := inodes[ino - 1].WithSize(n)];
    }

    /** The allocating branch of ext2_file_write: find or create block i, whose data starts at pos. */
    method MapBlock(ino: nat, i: nat, pos: nat) returns (r: Status)
      requires Inv(St(), 0) && ino in nodes
      modifies this`bitmap, this`free, this`disk, this`nodes, this`inodes
      ensures Inv(St(), 0) && Balance(St()) == Balance(old(St()))
      ensures nodes.Keys == old(nodes).Keys
      ensures forall f :: f != ino ==> Size(St(), f) == Size(old(St()), f)
      ensures r == OK ==> Val(St(), ino, Data(i)) != 0 && Backed(old(St()), St(), ino, i)
      ensures r == OK ==> Size(old(St()), ino) <= Size(St(), ino) <= Max(Size(old(St()), ino), pos)
      ensures r != OK ==> SamePeeks(old(St()), St()) && Size(St(), ino) == Size(old(St()), ino)
      ensures r == EFBIG ==> i >= MAX_BLOCKS
      ensures i >= MAX_BLOCKS ==> r == if Exhausted(old(St())) then ENOSPC else EFBIG
      ensures r == EFBIG ==> free == (old(free) - 1) % COUNT_MOD
    {
      hide Unshared, CacheOk, Sound, Grown, Linked, Peek, SamePeeks, Exhausted, Backed, Balance;
      ghost var fs := St();
      if Get(disk, nodes[ino].blocks, i) != 0 {
        BackedAlready(fs, ino, i);
        return OK;
      }
      assert Val(fs, ino, Data(i)) == 0;
      var b := AllocBlock();
      if b == 0 {
        SamePeeksRefl(fs);
        return ENOSPC;
      }
      AllocatedKeeps(fs, b);
      r := SetBlockNum(ino, i, b, 0);
      if r != OK {
        MapFailed(fs, b, St(), ino);
        return;
      }
      var n := Max(pos, nodes[ino].size);
      MapDone(fs, b, St(), ino, i, n);
      PutSize(ino, n);
    }

    /** ext2_file_read: stops at the end of the file, after count bytes, or at a hole. */
    method FileRead(ino: nat, offset: nat, count: nat) returns (buf: seq<Byte>)
      requires Inv(St(), 0) && ino in nodes
      ensures |buf| <= count && (buf != [] ==> offset + |buf| <= nodes[ino].size)
      ensures forall k :: 0 <= k < |buf| ==> Peek(St(), ino, offset + k) == Octet(buf[k])
      ensures |buf| < count && offset + |buf| < nodes[ino].size ==> Peek(St(), ino, offset + |buf|) == Hole
      ensures HoleFree(St(), ino) && offset <= nodes[ino].size ==>
                buf == Content(St(), ino)[offset..Min(offset + count, nodes[ino].size)]
    {
      buf := [];
      if offset >= nodes[ino].size {
        return;
      }
      var copy := Min(count, nodes[ino].size - offset);
      while copy > 0
        invariant 0 <= copy && |buf| + copy == Min(count, nodes[ino].size - offset)
        invariant forall k :: 0 <= k < |buf| ==> Peek(St(), ino, offset + k) == Octet(buf[k])
        decreases copy
      {
        var i, at := (offset + |buf|) / BLOCK_SIZE, (offset + |buf|) % BLOCK_SIZE;
        var b := Get(disk, nodes[ino].blocks, i);
        assert Val(St(), ino, Data(i)) == b;
        if b == 0 || b >= |disk| {
          assert Peek(St(), ino, offset + |buf|) == Hole;
          break;
        }
        var chunk := Min(BLOCK_SIZE - at, copy);
        var buf' := buf + disk[b][at..at + chunk];
        forall k | |buf| <= k < |buf'| ensures Peek(St(), ino, offset + k) == Octet(buf'[k]) {
          assert (offset + k) / BLOCK_SIZE == i && (offset + k) % BLOCK_SIZE == at + (k - |buf|);
        }
        buf := buf';
        copy := copy - chunk;
      }
      if HoleFree(St(), ino) {
        var c := Content(St(), ino);
        assert copy == 0;
        assert forall k :: 0 <= k < |buf| ==> c[offset + k] == buf[k];
        assert buf == c[offset..offset + |buf|];
      }
    }

    /** One round of the write loop: back the block at pos and copy piece into it. */
    method WriteChunk(ino: nat, pos: nat, piece: seq<Byte>) returns (r: Status)
      requires Inv(St(), 0) && ino in nodes
      requires pos % BLOCK_SIZE + |piece| <= BLOCK_SIZE && piece != []
      modifies this`bitmap, this`free, this`disk, this`nodes, this`inodes
      ensures Inv(St(), 0) && Balance(St()) == Balance(old(St()))
      ensures nodes.Keys == old(nodes).Keys
      ensures Wrote(old(St()), St(), ino, pos, piece, if r == OK then |piece| else 0)
      ensures Size(old(St()), ino) <= Size(St(), ino) <= Max(Size(old(St()), ino), pos)
      ensures r != OK ==> Size(St(), ino) == Size(old(St()), ino)
      ensures r == EFBIG ==> pos >= SIZE_LIMIT && free == (old(free) - 1) % COUNT_MOD
      ensures pos >= SIZE_LIMIT ==> r == if Exhausted(old(St())) then ENOSPC else EFBIG
    {
      hide Unshared, Peek, CacheOk, Exhausted, Balance;
      var i, at := pos / BLOCK_SIZE, pos % BLOCK_SIZE;
      r := MapBlock(ino, i, pos);
      ghost var fs2 := St();
      if r == OK {
        var b := Get(disk, nodes[ino].blocks, i);
        assert b == Val(St(), ino, Data(i));
        StoreData(fs2, ino, i, Splice(disk[b], at, piece));
        disk := disk[b := Splice(disk[b], at, piece)];
        WroteStep(old(St()), fs2, St(), ino, pos, piece);
      }
    }

    /** The loop of ext2_file_write, entered once the size limit has been checked. */
    method WriteLoop(ino: nat, offset: nat, data: seq<Byte>) returns (r: Status, w: nat)
      requires Inv(St(), 0) && ino in nodes
      requires offset < U64 && |data| <= USER_TOP && (offset + |data|) % U64 <= SIZE_LIMIT
      modifies this`bitmap, this`free, this`disk, this`nodes, this`inodes
      ensures Inv(St(), 0) && Balance(St()) == Balance(old(St()))
      ensures nodes.Keys == old(nodes).Keys
      ensures w > 0 ==> offset + |data| <= SIZE_LIMIT
      ensures w == 0 ==> Size(St(), ino) == Size(old(St()), ino)
      ensures w <= |data| && (r == OK <==> w == |data|) && (r == OK ==> offset + |data| <= SIZE_LIMIT)
      ensures Wrote(old(St()), St(), ino, offset, data, w)
      ensures Size(old(St()), ino) <= Size(St(), ino) <= Max(Size(old(St()), ino), offset + w)
      ensures r == EFBIG ==> offset + |data| >= U64 && free == (old(free) - 1) % COUNT_MOD
      ensures offset + |data| >= U64 ==> r == if Exhausted(old(St())) then ENOSPC else EFBIG
    {
      hide Inv, Peek, Exhausted, Balance, Wrote;
      w := 0;
      WroteNothing(St(), ino, offset, data);
      while w < |data|
        invariant 0 <= w <= |data|
        invariant w == 0 ==> St() == old(St())
        invariant w > 0 ==> offset + |data| <= SIZE_LIMIT
        invariant Inv(St(), 0) && Balance(St()) == Balance(old(St())) && nodes.Keys == old(nodes).Keys
        invariant Wrote(old(St()), St(), ino, offset, data, w)
        invariant Size(old(St()), ino) <= Size(St(), ino) <= Max(Size(old(St()), ino), offset + w)
      {
        var pos := (offset + w) % U64;
        assert pos == offset + w;
        var n := Min(BLOCK_SIZE - pos % BLOCK_SIZE, |data| - w);
        ghost var fs1 := St();
        r := WriteChunk(ino, pos, data[w..w + n]);
        WroteMore(old(St()), fs1, St(), ino, offset, data, w, n, if r == OK then n else 0);
        if r != OK {
          return;
        }
        w := w + n;
      }
      r := OK;
    }

    /** ext2_file_write. */
    method FileWrite(ino: nat, offset: nat, data: seq<Byte>) returns (r: Status, ghost done: nat)
      requires Inv(St(), 0) && ino in nodes
      requires offset < U64 && |data| <= USER_TOP
      modifies this`bitmap, this`free, this`disk, this`nodes, this`inodes
      ensures Inv(St(), 0) && Balance(St()) == Balance(old(St()))
      ensures done <= |data| && (r == OK ==> done == |data| && offset + |data| <= SIZE_LIMIT)
      ensures done > 0 ==> offset + |data| <= SIZE_LIMIT
      ensures Wrote(old(St()), St(), ino, offset, data, done)
      ensures r == OK ==> Size(St(), ino) == Max(Size(old(St()), ino), offset + |data|)
      ensures Size(old(St()), ino) <= Size(St(), ino) <= Max(Size(old(St()), ino), offset + done)
      ensures r != OK && done == 0 ==> Size(St(), ino) == Size(old(St()), ino)
      ensures HoleFree(old(St()), ino) && offset <= Size(old(St()), ino) ==>
                && HoleFree(St(), ino)
                && Content(St(), ino)
                   == Overwrite(Content(old(St()), ino), offset, data[..done])[..Size(St(), ino)]
      ensures r == OK && HoleFree(old(St()), ino) && offset <= Size(old(St()), ino) ==>
                && HoleFree(St(), ino)
                && Content(St(), ino) == Overwrite(Content(old(St()), ino), offset, data)
      // The size limit is what reports EFBIG, before anything is changed, unless offset + count wraps.
      ensures offset + |data| < U64 ==>
                (r == EFBIG <==> offset + |data| > SIZE_LIMIT) && (r == EFBIG ==> St() == old(St()))
      // When it wraps below the limit, the index's own EFBIG branch is reached and a block is lost.
      ensures offset + |data| >= U64 && (offset + |data|) % U64 <= SIZE_LIMIT ==>
                && r == (if Exhausted(old(St())) then ENOSPC else EFBIG)
                && (r == EFBIG ==> free == (old(free) - 1) % COUNT_MOD)
    {
      hide Inv, Peek, Exhausted, Balance, Wrote, HoleFree;
      r, done := PutData(ino, offset, data);
      if HoleFree(old(St()), ino) && offset <= Size(old(St()), ino) {
        WroteContent(old(St()), St(), ino, offset, data, done);
      }
    }

    /** The limit, the loop and the final size of ext2_file_write. */
    method PutData(ino: nat, offset: nat, data: seq<Byte>) returns (r: Status, ghost done: nat)
      requires Inv(St(), 0) && ino in nodes
      requires offset < U64 && |data| <= USER_TOP
      modifies this`bitmap, this`free, this`disk, this`nodes, this`inodes
      ensures Inv(St(), 0) && Balance(St()) == Balance(old(St()))
      ensures done <= |data| && (r == OK ==> done == |data| && offset + |data| <= SIZE_LIMIT)
      ensures done > 0 ==> offset + |data| <= SIZE_LIMIT
      ensures Wrote(old(St()), St(), ino, offset, data, done)
      ensures r == OK ==> Size(St(), ino) == Max(Size(old(St()), ino), offset + |data|)
      ensures Size(old(St()), ino) <= Size(St(), ino) <= Max(Size(old(St()), ino), offset + done)
      ensures r != OK && done == 0 ==> Size(St(), ino) == Size(old(St()), ino)
      ensures offset + |data| < U64 ==>
                (r == EFBIG <==> offset + |data| > SIZE_LIMIT) && (r == EFBIG ==> St() == old(St()))
      ensures offset + |data| >= U64 && (offset + |data|) % U64 <= SIZE_LIMIT ==>
                && r == (if Exhausted(old(St())) then ENOSPC else EFBIG)
                && (r == EFBIG ==> free == (old(free) - 1) % COUNT_MOD)
    {
      hide Inv, Peek, Exhausted, Balance, Wrote;
      if (offset + |data|) % U64 > SIZE_LIMIT {
        r, done := EFBIG, 0;
        WroteNothing(St(), ino, offset, data);
      } else {
        var w;
        r, w := WriteLoop(ino, offset, data);
        done := w;
        if r == OK && offset + w > nodes[ino].size {
          ghost var fs1 := St();
          SetSizeKeeps(fs1, ino, offset + w);
          PutSize(ino, offset + w);
          WroteSame(old(St()), fs1, St(), ino, offset, data, w);
        }
      }
    }

    /** A successful write within the file, then any read: the bytes of a plain file, and no stale ones. */
    method WriteThenRead(ino: nat, offset: nat, data: seq<Byte>, from: nat, count: nat)
      returns (r: Status, buf: seq<Byte>)
      requires Inv(St(), 0) && ino in nodes && HoleFree(St(), ino)
      requires offset <= nodes[ino].size < U64 && |data| <= USER_TOP
      modifies this`bitmap, this`free, this`disk, this`nodes, this`inodes
      ensures r == OK ==>
                var c := Overwrite(Content(old(St()), ino), offset, data);
                buf == if from <= |c| then c[from..Min(from + count, |c|)] else []
    {
      ghost var done;
      r, done := FileWrite(ino, offset, data);
      buf := FileRead(ino, from, count);
    }

    /** The loop of ext2_truncate that frees data blocks first..last. */
    method TrimData(ino: nat, first: nat, last: nat)
      requires Inv(St(), 0) && ino in nodes
      modifies this`bitmap, this`free, this`disk, this`nodes, this`inodes
      ensures Inv(St(), 0) && Balance(St()) == Balance(old(St())) && SameSizes(old(St()), St())
      ensures Holed(old(St()), St(), ino, first, last)
      ensures GaveBack(old(St()), St(), ino, DataSlots(first, last))
      ensures forall s: Slot :: !s.Data? ==> Val(St(), ino, s) == Val(old(St()), ino, s)
    {
      hide Inv, Peek, Balance, Holed, GaveBack;
      var b := first;
      TrimmedNone(St(), ino, first);
      while b < last
        invariant first <= b && (b <= last || b == first)
        invariant Inv(St(), 0) && Balance(St()) == Balance(old(St())) && SameSizes(old(St()), St())
        invariant Holed(old(St()), St(), ino, first, b)
        invariant GaveBack(old(St()), St(), ino, DataSlots(first, b))
        invariant forall s: Slot :: !s.Data? || s.i >= b ==> Val(St(), ino, s) == Val(old(St()), ino, s)
      {
        ghost var fs := St();
        TrimBlock(ino, b);
        HoledMore(old(St()), fs, St(), ino, first, b);
        GaveThen(old(St()), fs, St(), ino, DataSlots(first, b), iset{Data(b)}, DataSlots(first, b + 1));
        b := b + 1;
      }
      assert first < last ==> b == last;
      NothingTrimmed(old(St()), St(), ino, first, b, last);
    }

    static lemma TrimmedNone(fs: Fs, ino: nat, b: nat)
      requires Inv(fs, 0)
      ensures Holed(fs, fs, ino, b, b) && GaveBack(fs, fs, ino, DataSlots(b, b)) && SameSizes(fs, fs)
    {
      GaveNothing(fs, ino, DataSlots(b, b));
    }

    static lemma NothingTrimmed(fs: Fs, fs': Fs, ino: nat, first: nat, b: nat, last: nat)
      requires Holed(fs, fs', ino, first, b) && GaveBack(fs, fs', ino, DataSlots(first, b))
      requires b == last || (b == first && last <= first)
      ensures Holed(fs, fs', ino, first, last) && GaveBack(fs, fs', ino, DataSlots(first, last))
    {
      assert DataSlots(first, b) == DataSlots(first, last);
    }

    /** One round of that loop. */
    method TrimBlock(ino: nat, b: nat)
      requires Inv(St(), 0) && ino in nodes
      modifies this`bitmap, this`free, this`disk, this`nodes, this`inodes
      ensures Inv(St(), 0) && Balance(St()) == Balance(old(St())) && SameSizes(old(St()), St())
      ensures Holed(old(St()), St(), ino, b, b + 1)
      ensures GaveBack(old(St()), St(), ino, iset{Data(b)})
      ensures forall s: Slot :: s != Data(b) ==> Val(St(), ino, s) == Val(old(St()), ino, s)
    {
      hide Unshared, CacheOk, Peek, Balance, LinkData, Freed, GaveBack;
      ghost var fs := St();
      var blk := Get(disk, nodes[ino].blocks, b);
      assert blk == Val(fs, ino, Data(b));
      if blk != 0 {
        FreedLoose(fs, ino, b);
        GaveOne(fs, ino, Data(b));
        FreedVals(fs, blk);
        FreeBlock(blk);
        ghost var mid := St();
        NonzeroReady(mid, ino, b, blk);
        LinkDataVals(mid, ino, b, 0, blk);
        var r := SetBlockNum(ino, b, 0, blk);
        UnlinkedData(fs, St(), ino, b);
        SameBits(fs, mid, St(), ino, b, iset{Data(b)});
      } else {
        HoleBlock(fs, ino, b);
        GaveNothing(fs, ino, iset{Data(b)});
      }
    }

    /** Clearing a pointer leaves the bitmap alone. */
    static lemma SameBits(fs: Fs, mid: Fs, fs': Fs, ino: nat, i: nat, slots: iset<Slot>)
      requires GaveBack(fs, mid, ino, slots) && Ready(mid, ino, i) && fs' == LinkData(mid, ino, i, 0)
      ensures GaveBack(fs, fs', ino, slots)
    {
    }

    /** ext2_truncate drops the single index when no block above the direct ones is left. */
    method TrimSingle(ino: nat, n: nat)
      requires Inv(St(), 0) && ino in nodes
      modifies this`bitmap, this`free, this`nodes, this`inodes
      ensures Inv(St(), 0) && Balance(St()) == Balance(old(St())) && SameSizes(old(St()), St())
      ensures Holed(old(St()), St(), ino, DIRECT, if n <= DIRECT then FIRST_DOUBLE else DIRECT)
      ensures GaveBack(old(St()), St(), ino, if n <= DIRECT then iset{Sib} else iset{})
      ensures forall s: Slot :: s == Dib || s.Outer? ==> Val(St(), ino, s) == Val(old(St()), ino, s)
    {
      hide Unshared, Balance, GaveBack, Holed, Freed;
      ghost var fs := St();
      NoIndexNoBytes(fs, ino);
      GaveNothing(fs, ino, iset{});
      if n <= DIRECT && nodes[ino].blocks[12] != 0 {
        DropSib(fs, ino);
        GaveOne(fs, ino, Sib);
        FreeBlock(nodes[ino].blocks[12]);
        ghost var mid := St();
        PutEntry(ino, 12, 0);
        CutTrims(fs, St(), ino, 12);
        SameBitmap(fs, mid, St(), ino, iset{Sib});
      } else if n <= DIRECT {
        assert Val(fs, ino, Sib) == 0;
        GaveNothing(fs, ino, iset{Sib});
      } else {
        HoledNone(fs, ino, DIRECT);
      }
    }

    static lemma HoledNone(fs: Fs, ino: nat, b: nat)
      ensures Holed(fs, fs, ino, b, b)
    {
    }

    static lemma SameBitmap(fs: Fs, mid: Fs, fs': Fs, ino: nat, slots: iset<Slot>)
      requires GaveBack(fs, mid, ino, slots) && fs'.bitmap == mid.bitmap
      ensures GaveBack(fs, fs', ino, slots)
    {
    }

    /** ext2_truncate drops the double index when no block above the single ones is left. */
    method TrimDouble(ino: nat, n: nat)
      requires Inv(St(), 0) && ino in nodes
      modifies this`bitmap, this`free, this`nodes, this`inodes
      ensures Inv(St(), 0) && Balance(St()) == Balance(old(St())) && SameSizes(old(St()), St())
      ensures Holed(old(St()), St(), ino, FIRST_DOUBLE, if n <= FIRST_DOUBLE then MAX_BLOCKS else FIRST_DOUBLE)
      ensures GaveBack(old(St()), St(), ino, if n <= FIRST_DOUBLE then DoubleSlots() else iset{})
    {
      hide Unshared, Balance, Freed, GaveBack, Holed;
      ghost var fs := St();
      NoIndexNoBytes(fs, ino);
      GaveNothing(fs, ino, iset{});
      if n <= FIRST_DOUBLE && nodes[ino].blocks[13] != 0 {
        ghost var os, dib := Outers(fs, ino, PTRS), nodes[ino].blocks[13];
        FreeOuters(ino);
        FreeBlock(nodes[ino].blocks[13]);
        ghost var mid := St();
        DropDib(fs, mid, ino);
        GaveDouble(fs, ino);
        assert (os + [dib])[..|os|] == os;
        PutEntry(ino, 13, 0);
        CutTrims(fs, St(), ino, 13);
        SameBitmap(fs, mid, St(), ino, DoubleSlots());
      } else if n <= FIRST_DOUBLE {
        GaveNothing(fs, ino, DoubleSlots());
      } else {
        HoledNone(fs, ino, FIRST_DOUBLE);
      }
    }

    static lemma FreedSize(fs: Fs, b: nat)
      ensures |Freed(fs, b).bitmap| == |fs.bitmap| && Freed(fs, b).disk == fs.disk && Freed(fs, 0) == fs
    {
    }

    method FreeOuters(ino: nat)
      requires Inv(St(), 0) && ino in nodes && nodes[ino].blocks[13] != 0
      modifies this`bitmap, this`free
      ensures |bitmap| == BITMAP_BITS && St() == FreedAll(old(St()), Outers(old(St()), ino, PTRS))
    {
      var dib := nodes[ino].blocks[13];
      ghost var fs := St();
      assert Val(fs, ino, Dib) == dib && |bitmap| == BITMAP_BITS && 0 < dib < |disk|;
      hide Inv, Freed;
      var i := 0;
      while i < PTRS
        invariant 0 <= i <= PTRS && |bitmap| == BITMAP_BITS && disk == fs.disk
        invariant St() == FreedAll(fs, Outers(fs, ino, i))
      {
        assert Outers(fs, ino, i + 1)[..i] == Outers(fs, ino, i);
        assert Ptr(disk[dib], i) == Val(fs, ino, Outer(i));
        FreedSize(St(), Ptr(disk[dib], i));
        if Ptr(disk[dib], i) != 0 {
          FreeBlock(Ptr(disk[dib], i));
        }
        i := i + 1;
      }
    }

    /** The shrinking branch of ext2_truncate. */
    method Trim(ino: nat, n: nat)
      requires Inv(St(), 0) && ino in nodes
      modifies this`bitmap, this`free, this`disk, this`nodes, this`inodes
      ensures Inv(St(), 0) && Balance(St()) == Balance(old(St())) && SameSizes(old(St()), St())
      ensures Trimmed(old(St()), St(), ino, BlocksFor(n), BlocksFor(old(nodes)[ino].size))
      ensures GaveBack(old(St()), St(), ino, Spare(BlocksFor(n), BlocksFor(old(nodes)[ino].size)))
    {
      hide Inv, Peek, Balance, BlocksFor, Holed, GaveBack, Trimmed;
      ghost var fs := St();
      var newBlocks, oldBlocks := BlocksFor(n), BlocksFor(nodes[ino].size);
      TrimData(ino, newBlocks, oldBlocks);
      ghost var fs1 := St();
      TrimSingle(ino, newBlocks);
      ghost var fs2 := St();
      TrimDouble(ino, newBlocks);
      HoledThrice(fs, fs1, fs2, St(), ino, newBlocks, oldBlocks);
      ghost var d := DataSlots(newBlocks, oldBlocks);
      ghost var i: iset<Slot> := if newBlocks <= DIRECT then iset{Sib} else iset{};
      ghost var ii := if newBlocks <= FIRST_DOUBLE then DoubleSlots() else iset{};
      GaveThen(fs, fs1, fs2, ino, d, i, d + i);
      GaveThen(fs, fs2, St(), ino, d + i, ii, d + i + ii);
      assert d + i + ii == Spare(newBlocks, oldBlocks);
    }

    /** ext2_truncate. */
    method Truncate(ino: nat, n: nat)
      requires Inv(St(), 0) && ino in nodes && nodes[ino].size < U64 && n < U64
      modifies this`bitmap, this`free, this`disk, this`nodes, this`inodes
      ensures Inv(St(), 0) && Balance(St()) == Balance(old(St()))
      ensures nodes.Keys == old(nodes).Keys && Size(St(), ino) == n
      ensures forall f :: f != ino ==> Size(St(), f) == Size(old(St()), f)
      ensures n >= old(nodes)[ino].size ==> SamePeeks(old(St()), St()) && bitmap == old(bitmap)
      // A cut makes holes of exactly the blocks wholly past the new size, and clears exactly their bits and
      // those of the index blocks that go.
      ensures n < old(nodes)[ino].size ==>
                && Trimmed(old(St()), St(), ino, BlocksFor(n), BlocksFor(old(nodes)[ino].size))
                && GaveBack(old(St()), St(), ino, Spare(BlocksFor(n), BlocksFor(old(nodes)[ino].size)))
      ensures forall f, p: nat :: f != ino ==> Peek(St(), f, p) == Peek(old(St()), f, p)
      ensures HoleFree(old(St()), ino) && n <= old(nodes)[ino].size ==>
                HoleFree(St(), ino) && Content(St(), ino) == Content(old(St()), ino)[..n]
    {
      hide Inv, Peek, Balance, HoleFree, BlocksFor, GaveBack;
      ghost var fs := St();
      if n < nodes[ino].size {
        Trim(ino, n);
      }
      ghost var mid := St();
      SetSizeKeeps(mid, ino, n);
      PutSize(ino, n);
      if n < Size(fs, ino) {
        SameBitmap(fs, mid, St(), ino, Spare(BlocksFor(n), BlocksFor(Size(fs, ino))));
      }
      if HoleFree(fs, ino) && n <= Size(fs, ino) {
        HoleFreeBound(fs, ino);
        forall p: nat | p < n ensures Peek(St(), ino, p) == Peek(fs, ino, p) {
          BlocksForCovers(n, p);
        }
        CutContent(fs, St(), ino);
      }
    }

    /** The loop of ext2_unlink that frees the direct blocks listed in the inode. */
    method FreeDirect(t: BlockTable)
      requires |bitmap| == BITMAP_BITS
      modifies this`bitmap, this`free
      ensures St() == FreedAll(old(St()), t[..DIRECT])
    {
      var i := 0;
      while i < DIRECT
        invariant 0 <= i <= DIRECT && |bitmap| == BITMAP_BITS
        invariant St() == FreedAll(old(St()), t[..i])
      {
        assert t[..i + 1][..i] == t[..i];
        if t[i] != 0 {
          FreeBlock(t[i]);
        }
        i := i + 1;
      }
    }

    /** ext2_unlink once the directory entry has named inode ino; the node leaves the tree. */
    method Unlink(ino: nat)
      requires Inv(St(), 0) && ino in nodes
      modifies this`bitmap, this`free, this`inodeMap, this`nodes, this`inodes
      ensures Inv(St(), 0) && Balance(St()) == Balance(old(St()))
      ensures nodes == old(nodes) - {ino} && disk == old(disk)
      ensures forall f, p: nat :: f != ino ==> Peek(St(), f, p) == Peek(old(St()), f, p)
      // The last link gives back the direct blocks and the inode; an earlier one only lowers the count.
      ensures 0 < ino <= |old(inodes)| && |old(bitmap)| == BITMAP_BITS
      ensures var inode := old(inodes)[ino - 1];
        if inode.links == 1 then
          && bitmap == FreedAll(old(St()), inode.block[..DIRECT]).bitmap
          && inodeMap == if ino - 1 < BITMAP_BITS then old(inodeMap)[ino - 1 := false] else old(inodeMap)
        else
          && bitmap == old(bitmap) && inodeMap == old(inodeMap)
          && inodes == old(inodes)[ino - 1 := inode.(links := inode.links - 1)]
    {
      ghost var fs := St();
      InvBasics(fs, 0);
      ghost var freed: seq<nat> := [];
      var inode := inodes[ino - 1];
      if inode.links == 1 {
        FreeDirect(inode.block);
        freed := inode.block[..DIRECT];
        inodes := inodes[ino - 1 := Inode(0, 0, 0, NoBlocks()[..DIRECT] + inode.block[DIRECT..])];
        if ino - 1 < BITMAP_BITS {
          inodeMap := inodeMap[ino - 1 := false];
        }
      } else {
        inodes := inodes[ino - 1 := Inode(inode.size, inode.sectors, inode.links - 1, inode.block)];
      }
      nodes := nodes - {ino};
      FreedAllKeeps(fs, freed);
      Removed(fs, St(), ino, freed);
      RemovedPeeks(fs, St(), ino);
    }

    /** Inodes the bitmap of the group can name. */
    function GroupInodes(): nat
    {
      if inodesPerGroup > BITMAP_BITS then BITMAP_BITS else inodesPerGroup
    }

    /** ext2_alloc_inode and the new node of ext2_create; 0 when no inode is free. */
    method Create() returns (ino: nat)
      requires Inv(St(), 0)
      modifies this`inodeMap, this`inodes, this`nodes
      ensures Inv(St(), 0) && Balance(St()) == Balance(old(St())) && disk == old(disk)
      ensures |inodeMap| == |old(inodeMap)| == BITMAP_BITS && ino <= GroupInodes()
      ensures ino == 0 ==> St() == old(St()) && forall i :: 10 <= i < GroupInodes() && i < |inodes| ==> inodeMap[i]
      ensures ino != 0 ==> ino > 10 && ino !in old(nodes) && nodes == old(nodes)[ino := Node(0, NoBlocks())]
      ensures ino != 0 ==> !old(inodeMap)[ino - 1] && forall i :: 10 <= i < ino - 1 && i < |inodes| ==> old(inodeMap)[i]
      ensures SamePeeks(old(St()), St())
    {
      var i := 10;
      while i < GroupInodes()
        invariant St() == old(St()) && |inodeMap| == BITMAP_BITS >= i && forall j :: 10 <= j < i && j < |inodes| ==> inodeMap[j]
      {
        if !inodeMap[i] && i + 1 <= |inodes| {
          inodeMap := inodeMap[i := true];
          inodes := inodes[i := Inode(0, 0, 1, NoBlocks())];
          nodes := nodes[i + 1 := Node(0, NoBlocks())];
          Created(old(St()), St(), i + 1);
          return i + 1;
        }
        i := i + 1;
      }
      return 0;
    }

    /** Mounting an undamaged image whose directories name the inodes `found`. */
    constructor (blocks: seq<Block>, taken: seq<bool>, counter: nat, inodesTaken: seq<bool>, inodeTable: seq<Inode>,
                 perGroup: nat, found: seq<nat>, ghost meta: set<nat>)
      requires Clean(Fs(meta, taken, counter, blocks, inodesTaken, inodeTable, Scanned(inodeTable, found)))
      ensures St() == Fs(meta, taken, counter, blocks, inodesTaken, inodeTable, Scanned(inodeTable, found))
      ensures Inv(St(), 0)
    {
      reserved := meta;
      inodesPerGroup := perGroup;
      bitmap, free, disk, inodeMap, inodes, nodes := taken, counter, blocks, inodesTaken, inodeTable, map[];
      new;
      var k := 0;
      while k < |found|
        invariant k <= |found| && nodes == Scanned(inodeTable, found[..k]) && inodes == inodeTable && disk == blocks
        invariant bitmap == taken && free == counter && inodeMap == inodesTaken
      {
        assert found[..k + 1][..k] == found[..k];
        var ino := found[k];
        if 0 < ino <= |inodes| {
          nodes := nodes[ino := Node(inodes[ino - 1].size, inodes[ino - 1].block)];
        }
        k := k + 1;
      }
      assert found[..k] == found;
      forall ino | ino in nodes
        ensures 0 < ino <= |inodes| && nodes[ino] == Node(inodes[ino - 1].size, inodes[ino - 1].block)
      {
        ScannedCaches(inodeTable, found, ino);
      }
    }

    /** A write of one block at 2^64 - 1024 passes the size limit, fails in the index and loses a block. */
    method WrappedWrite(ino: nat, data: seq<Byte>) returns (r: Status)
      requires Inv(St(), 0) && ino in nodes && |data| == BLOCK_SIZE && |bitmap| == BITMAP_BITS && !Exhausted(St())
      modifies this`bitmap, this`free, this`disk, this`nodes, this`inodes
      ensures r == EFBIG && free == (old(free) - 1) % COUNT_MOD
    {
      hide Inv, Peek, Balance, Wrote, HoleFree, Exhausted;
      ghost var done: nat;
      r, done := FileWrite(ino, U64 - BLOCK_SIZE, data);
    }

    // ---------- runs ----------

    /** The ownership invariant, and sizes are 64-bit. */
    ghost predicate Valid()
      reads this
    {
      Inv(St(), 0) && forall f :: f in nodes ==> nodes[f].size < U64
    }

    method DoCreate() returns (r: Reply)
      requires Valid()
      modifies this`inodeMap, this`inodes, this`nodes
      ensures Valid() && Balance(St()) == Balance(old(St()))
      ensures FileStep(AllFiles(old(St())), Op.Create, r, AllFiles(St()))
    {
      ghost var fs := St();
      hide Inv, Peek, Balance;
      var ino := Create();
      if ino == 0 {
        return Done(ENOSPC);
      }
      assert forall f :: f != ino ==> Size(St(), f) == Size(fs, f);
      OtherFiles(fs, St(), ino);
      NewFile(fs, St(), ino);
      assert ino !in AllFiles(fs);
      r := Done(OK);
    }

    static lemma NewFile(fs: Fs, fs': Fs, ino: nat)
      requires ino !in fs.nodes && Size(fs', ino) == 0 && SamePeeks(fs, fs')
      ensures SparseOf(fs', ino) == Sparse(0, NoCells())
    {
      assert SparseOf(fs', ino).cells == NoCells();
    }

    method DoWrite(ino: nat, offset: nat, data: seq<Byte>) returns (r: Reply)
      requires Valid() && InRange(Op.Write(ino, offset, data))
      modifies this`bitmap, this`free, this`disk, this`nodes, this`inodes
      ensures Valid() && Balance(St()) == Balance(old(St()))
      ensures FileStep(AllFiles(old(St())), Op.Write(ino, offset, data), r, AllFiles(St()))
    {
      ghost var fs := St();
      hide Inv, Peek, Balance, Touched;
      if ino !in nodes {
        return NoFile;
      }
      ghost var done: nat;
      var e;
      e, done := PutData(ino, offset, data);
      r := Done(e);
      WroteSizes(fs, St(), ino, offset, data, done);
      OtherFiles(fs, St(), ino);
      WroteCells(fs, St(), ino, offset, data, done);
      ghost var c, c' := SparseOf(fs, ino), SparseOf(St(), ino);
      assert e == EFBIG ==> done == 0 && c' == c;
      assert e == ENOSPC ==> CutShort(c, offset, data, done, c');
    }

    static lemma WroteCells(fs: Fs, fs': Fs, ino: nat, offset: nat, data: seq<Byte>, w: nat)
      requires w <= |data| && Wrote(fs, fs', ino, offset, data, w)
      ensures SparseOf(fs', ino).cells == WriteCells(SparseOf(fs, ino).cells, offset, data, w)
      ensures w == 0 ==> SparseOf(fs', ino).cells == SparseOf(fs, ino).cells
    {
      hide Peek;
    }

    method DoTruncate(ino: nat, n: nat) returns (r: Reply)
      requires Valid() && n < U64
      modifies this`bitmap, this`free, this`disk, this`nodes, this`inodes
      ensures Valid() && Balance(St()) == Balance(old(St()))
      ensures FileStep(AllFiles(old(St())), Op.Truncate(ino, n), r, AllFiles(St()))
    {
      ghost var fs := St();
      hide Inv, Peek, Balance, HoleFree, BlocksFor, GaveBack;
      if ino !in nodes {
        return NoFile;
      }
      Truncate(ino, n);
      OtherFiles(fs, St(), ino);
      assert forall f :: f in nodes ==> nodes[f].size == Size(St(), f);
      CutIs(fs, St(), ino);
      r := Done(OK);
    }

    static lemma CutIs(fs: Fs, fs': Fs, ino: nat)
      requires var n, m := Size(fs', ino), Size(fs, ino);
        if n < m then Trimmed(fs, fs', ino, BlocksFor(n), BlocksFor(m)) else SamePeeks(fs, fs')
      ensures SparseOf(fs', ino) == CutTo(SparseOf(fs, ino), Size(fs', ino))
    {
      hide Peek, BlocksFor, Gone;
      assert SparseOf(fs', ino).cells == CutTo(SparseOf(fs, ino), Size(fs', ino)).cells;
    }

    method DoRead(ino: nat, from: nat, count: nat) returns (r: Reply)
      requires Valid()
      ensures FileStep(AllFiles(St()), Op.Read(ino, from, count), r, AllFiles(St()))
    {
      hide Inv, Peek, HoleFree;
      if ino !in nodes {
        return NoFile;
      }
      var buf := FileRead(ino, from, count);
      ghost var c := SparseOf(St(), ino);
      forall p | from <= p < from + |buf| ensures p < SIZE_LIMIT && c.cells[p] == Octet(buf[p - from]) {
        assert Peek(St(), ino, from + (p - from)) == Octet(buf[p - from]);
        PastLimit(St(), ino, p);
      }
      if buf != [] {
        assert Peek(St(), ino, from + (|buf| - 1)) == Octet(buf[|buf| - 1]);
        PastLimit(St(), ino, from + |buf| - 1);
      }
      ReadIs(c, from, count, buf);
      r := Got(buf);
    }

    static lemma PastLimit(fs: Fs, ino: nat, p: nat)
      ensures Peek(fs, ino, p) != Hole ==> p < SIZE_LIMIT
    {
      if p >= SIZE_LIMIT {
        assert p / BLOCK_SIZE >= MAX_BLOCKS;
      }
    }

    method DoUnlink(ino: nat) returns (r: Reply)
      requires Valid()
      modifies this`bitmap, this`free, this`inodeMap, this`nodes, this`inodes
      ensures Valid() && Balance(St()) == Balance(old(St()))
      ensures FileStep(AllFiles(old(St())), Op.Unlink(ino), r, AllFiles(St()))
    {
      ghost var fs := St();
      hide Inv, Peek, Balance;
      if ino !in nodes {
        assert AllFiles(fs) - {ino} == AllFiles(fs);
        return NoFile;
      }
      Unlink(ino);
      OtherFiles(fs, St(), ino);
      r := Done(OK);
    }

    method DoOp(op: Op) returns (r: Reply)
      requires Valid() && InRange(op)
      modifies this`bitmap, this`free, this`disk, this`inodeMap, this`inodes, this`nodes
      ensures Valid() && Balance(St()) == Balance(old(St()))
      ensures FileStep(AllFiles(old(St())), op, r, AllFiles(St()))
    {
      hide Valid, Balance, FileStep, AllFiles;
      match op {
        case Create => r := DoCreate();
        case Write(ino, offset, data) => r := DoWrite(ino, offset, data);
        case Read(ino, from, count) => r := DoRead(ino, from, count);
        case Truncate(ino, n) => r := DoTruncate(ino, n);
        case Unlink(ino) => r := DoUnlink(ino);
      }
    }

    /**
      Over every run of creates, writes, reads, truncations and unlinks, failing ones included, no block has
      two owners, the counter keeps its distance, and the files are what the operations make of cells.
     */
    method Run(ops: seq<Op>) returns (rs: seq<Reply>, ghost states: seq<map<nat, Sparse>>)
      requires Valid() && forall op :: op in ops ==> InRange(op)
      modifies this`bitmap, this`free, this`disk, this`inodeMap, this`inodes, this`nodes
      ensures Valid() && Balance(St()) == Balance(old(St()))
      ensures |rs| == |ops| && |states| == |ops| + 1
      ensures states[0] == AllFiles(old(St())) && states[|ops|] == AllFiles(St())
      ensures forall k :: 0 <= k < |ops| ==> FileStep(states[k], ops[k], rs[k], states[k + 1])
    {
      hide Valid, Balance, FileStep, AllFiles;
      rs, states := [], [AllFiles(St())];
      while |rs| < |ops|
        invariant |rs| <= |ops| && |states| == |rs| + 1
        invariant Valid() && Balance(St()) == Balance(old(St()))
        invariant states[0] == AllFiles(old(St())) && states[|rs|] == AllFiles(St())
        invariant forall k :: 0 <= k < |rs| ==> FileStep(states[k], ops[k], rs[k], states[k + 1])
      {
        var op := ops[|rs|];
        assert InRange(op);
        var r := DoOp(op);
        rs, states := rs + [r], states + [AllFiles(St())];
      }
    }
  }
}
