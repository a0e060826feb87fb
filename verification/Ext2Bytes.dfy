/**
  What a reader of a file can see: the byte at a position, or a hole.  Lemmas
  here carry the ownership invariant over to file contents.
 */
module Ext2Bytes {
  import opened Common
  import opened Ext2Disk
  import opened Ext2Fs

  datatype Cell = Hole | Octet(value: Byte)

  const SIZE_LIMIT: nat := MAX_BLOCKS * BLOCK_SIZE

  /** The byte stored at position p of file ino. */
  ghost function Peek(fs: Fs, ino: nat, p: nat): Cell
  {
    var v := Val(fs, ino, Data(p / BLOCK_SIZE));
    if 0 < v < |fs.disk| then Octet(fs.disk[v][p % BLOCK_SIZE]) else Hole
  }

  ghost predicate SamePeeks(fs: Fs, fs': Fs)
  {
    forall f, p: nat :: Peek(fs', f, p) == Peek(fs, f, p)
  }

  /** Block i of ino is backed in fs'; a block that was missing reads as zeros. */
  ghost predicate Backed(fs: Fs, fs': Fs, ino: nat, i: nat)
  {
    forall f, p: nat :: Peek(fs', f, p) == if f == ino && p / BLOCK_SIZE == i && Peek(fs, f, p) == Hole
                                      then Octet(0) else Peek(fs, f, p)
  }

  ghost function Size(fs: Fs, ino: nat): nat
  {
    if ino in fs.nodes then fs.nodes[ino].size else 0
  }

  ghost predicate HoleFree(fs: Fs, ino: nat)
  {
    forall p :: 0 <= p < Size(fs, ino) ==> Peek(fs, ino, p) != Hole
  }

  ghost function Content(fs: Fs, ino: nat): (c: seq<Byte>)
    requires HoleFree(fs, ino)
    ensures |c| == Size(fs, ino)
    ensures forall p :: 0 <= p < |c| ==> Peek(fs, ino, p) == Octet(c[p])
  {
    seq(Size(fs, ino), p requires 0 <= p < Size(fs, ino) => Peek(fs, ino, p).value)
  }

  /** A file of plain bytes after writing data at offset. */
  function Overwrite(c: seq<Byte>, offset: nat, data: seq<Byte>): seq<Byte>
    requires offset <= |c|
  {
    c[..offset] + data + if offset + |data| < |c| then c[offset + |data|..] else []
  }

  lemma AllocatedPeeks(fs: Fs, b: nat)
    requires Inv(fs, 0)
    requires 0 < b < |fs.disk| && b <= BITMAP_BITS && !fs.bitmap[b - 1]
    ensures SamePeeks(fs, Allocated(fs, b))
  {
    AllocatedKeeps(fs, b);
    var fs' := Allocated(fs, b);
    forall f, p: nat ensures Peek(fs', f, p) == Peek(fs, f, p) {
      assert Val(fs', f, Data(p / BLOCK_SIZE)) == Val(fs, f, Data(p / BLOCK_SIZE)) != b;
    }
  }

  lemma DataNotIndex(fs: Fs, ino: nat, f: nat, i: nat, loose: nat)
    requires Inv(fs, loose) && Val(fs, f, Data(i)) != 0
    ensures NotIndex(fs, ino, Val(fs, f, Data(i)))
  {
  }

  lemma GrownPeeks(fs: Fs, fs': Fs, ino: nat)
    requires Inv(fs, 0) && Grown(fs, fs', ino)
    ensures SamePeeks(fs, fs')
  {
  }

  /** Linking a zeroed block where there was none backs that block and moves nothing else. */
  lemma LinkedPeeks(fs: Fs, fs': Fs, ino: nat, i: nat, b: nat)
    requires Inv(fs, 0) && Linked(fs, fs', ino, i, b)
    requires Linkable(fs, b) && fs.disk[b] == ZeroBlock() && Val(fs, ino, Data(i)) == 0
    ensures Backed(fs, fs', ino, i)
  {
  }

  lemma BackedAlready(fs: Fs, ino: nat, i: nat)
    requires Inv(fs, 0) && Val(fs, ino, Data(i)) != 0
    ensures Backed(fs, fs, ino, i)
  {
  }

  lemma SamePeeksRefl(fs: Fs)
    ensures SamePeeks(fs, fs)
  {
  }

  lemma SamePeeksTrans(fs: Fs, mid: Fs, fs': Fs)
    requires SamePeeks(fs, mid) && SamePeeks(mid, fs')
    ensures SamePeeks(fs, fs')
  {
  }

  lemma BackedThen(fs: Fs, mid: Fs, fs': Fs, ino: nat, i: nat)
    requires Backed(fs, mid, ino, i) && SamePeeks(mid, fs')
    ensures Backed(fs, fs', ino, i)
  {
  }

  lemma BackedTrans(fs: Fs, mid: Fs, fs': Fs, ino: nat, i: nat)
    requires SamePeeks(fs, mid) && Backed(mid, fs', ino, i)
    ensures Backed(fs, fs', ino, i)
  {
  }

  lemma SetSizeKeeps(fs: Fs, ino: nat, n: nat)
    requires Inv(fs, 0) && ino in fs.nodes
    ensures 0 < ino <= |fs.inodes|
    ensures Inv(SetSize(fs, ino, n), 0) && SamePeeks(fs, SetSize(fs, ino, n))
    ensures forall f, s :: Val(SetSize(fs, ino, n), f, s) == Val(fs, f, s)
    ensures Balance(SetSize(fs, ino, n)) == Balance(fs)
  {
    var fs' := SetSize(fs, ino, n);
    assert forall f, s :: Val(fs', f, s) == Val(fs, f, s);
    Shrink(fs, fs', 0);
  }

  lemma MapFailed(fs: Fs, b: nat, fs2: Fs, ino: nat)
    requires Inv(fs, 0)
    requires 0 < b < |fs.disk| && b <= BITMAP_BITS && !fs.bitmap[b - 1]
    requires fs2 == Allocated(fs, b) || Grown(Allocated(fs, b), fs2, ino)
    ensures SamePeeks(fs, fs2)
  {
    AllocatedKeeps(fs, b);
    AllocatedPeeks(fs, b);
    if fs2 != Allocated(fs, b) {
      GrownPeeks(Allocated(fs, b), fs2, ino);
    }
    SamePeeksTrans(fs, Allocated(fs, b), fs2);
  }

  lemma MapDone(fs: Fs, b: nat, fs2: Fs, ino: nat, i: nat, n: nat)
    requires Inv(fs, 0) && ino in fs.nodes && Val(fs, ino, Data(i)) == 0
    requires 0 < b < |fs.disk| && b <= BITMAP_BITS && !fs.bitmap[b - 1]
    requires Linked(Allocated(fs, b), fs2, ino, i, b) && Inv(fs2, 0)
    ensures ino in fs2.nodes && 0 < ino <= |fs2.inodes|
    ensures Inv(SetSize(fs2, ino, n), 0) && Backed(fs, SetSize(fs2, ino, n), ino, i)
    ensures Val(SetSize(fs2, ino, n), ino, Data(i)) != 0
    ensures Balance(SetSize(fs2, ino, n)) == Balance(fs)
  {
    hide Unshared, Peek;
    AllocatedKeeps(fs, b);
    AllocatedPeeks(fs, b);
    LinkedPeeks(Allocated(fs, b), fs2, ino, i, b);
    BackedTrans(fs, Allocated(fs, b), fs2, ino, i);
    SetSizeKeeps(fs2, ino, n);
    BackedThen(fs, fs2, SetSize(fs2, ino, n), ino, i);
  }

  /** Rewriting the block behind data pointer i changes the bytes of that block of that file alone. */
  lemma StoreData(fs: Fs, ino: nat, i: nat, c: Block)
    requires Inv(fs, 0) && Val(fs, ino, Data(i)) != 0
    ensures var v := Val(fs, ino, Data(i));
            && 0 < v < |fs.disk|
            && Inv(Store(fs, v, c), 0)
            && Balance(Store(fs, v, c)) == Balance(fs)
            && forall f, p: nat :: Peek(Store(fs, v, c), f, p)
                              == if f == ino && p / BLOCK_SIZE == i then Octet(c[p % BLOCK_SIZE]) else Peek(fs, f, p)
  {
    var v := Val(fs, ino, Data(i));
    forall f, s: Slot | !s.Data? ensures Val(fs, f, s) != v {
    }
    StoreVals(fs, v, c);
    var fs' := Store(fs, v, c);
    Shrink(fs, fs', 0);
    forall f, p: nat ensures Peek(fs', f, p)
                        == if f == ino && p / BLOCK_SIZE == i then Octet(c[p % BLOCK_SIZE]) else Peek(fs, f, p)
    {
      assert Val(fs', f, Data(p / BLOCK_SIZE)) == Val(fs, f, Data(p / BLOCK_SIZE));
    }
  }

  /** Position p shares a block with one of the w bytes from offset on. */
  predicate Touched(offset: nat, w: nat, p: nat)
  {
    w > 0 && offset / BLOCK_SIZE <= p / BLOCK_SIZE <= (offset + w - 1) / BLOCK_SIZE
  }

  /**
    What a write of data at offset, stopped after its first w bytes, does: those bytes
    are in place, the holes of their blocks read 0, everything else is kept.
   */
  ghost predicate Wrote(fs: Fs, fs': Fs, ino: nat, offset: nat, data: seq<Byte>, w: nat)
    requires w <= |data|
  {
    && fs'.nodes.Keys == fs.nodes.Keys
    && (forall f :: f != ino ==> Size(fs', f) == Size(fs, f))
    && (forall f, p: nat :: f != ino ==> Peek(fs', f, p) == Peek(fs, f, p))
    && (forall p :: offset <= p < offset + w ==> Peek(fs', ino, p) == Octet(data[p - offset]))
    && (forall p: nat :: !(offset <= p < offset + w) ==>
          Peek(fs', ino, p) == if Peek(fs, ino, p) == Hole && Touched(offset, w, p) then Octet(0) else Peek(fs, ino, p))
  }

  /** On a file without holes, Wrote from offset <= size is overwriting a plain byte sequence. */
  lemma WroteContent(fs: Fs, fs': Fs, ino: nat, offset: nat, data: seq<Byte>, w: nat)
    requires w <= |data| && Wrote(fs, fs', ino, offset, data, w)
    requires HoleFree(fs, ino) && offset <= Size(fs, ino)
    requires Size(fs, ino) <= Size(fs', ino)
    requires Size(fs', ino) <= Size(fs, ino) || Size(fs', ino) <= offset + w
    ensures HoleFree(fs', ino)
    ensures Content(fs', ino) == Overwrite(Content(fs, ino), offset, data[..w])[..Size(fs', ino)]
  {
  }

  /** memcpy of piece into a copy of a block. */
  function Splice(b: Block, at: nat, piece: seq<Byte>): Block
    requires at + |piece| <= BLOCK_SIZE
  {
    b[..at] + piece + b[at + |piece|..]
  }

  lemma WroteNothing(fs: Fs, ino: nat, offset: nat, data: seq<Byte>)
    ensures Wrote(fs, fs, ino, offset, data, 0)
  {
  }

  /** Backing the block at pos and splicing piece into it is a write of piece at pos. */
  lemma WroteStep(fs: Fs, fs1: Fs, fs2: Fs, ino: nat, pos: nat, piece: seq<Byte>)
    requires pos % BLOCK_SIZE + |piece| <= BLOCK_SIZE && piece != []
    requires fs1.nodes.Keys == fs.nodes.Keys && forall f :: f != ino ==> Size(fs1, f) == Size(fs, f)
    requires Backed(fs, fs1, ino, pos / BLOCK_SIZE)
    requires var v := Val(fs1, ino, Data(pos / BLOCK_SIZE));
             && 0 < v < |fs1.disk|
             && var c := Splice(fs1.disk[v], pos % BLOCK_SIZE, piece);
             && fs2.nodes == fs1.nodes
             && forall f, p: nat :: Peek(fs2, f, p)
                  == if f == ino && p / BLOCK_SIZE == pos / BLOCK_SIZE then Octet(c[p % BLOCK_SIZE]) else Peek(fs1, f, p)
    ensures Wrote(fs, fs2, ino, pos, piece, |piece|)
  {
  }

  /** Consecutive writes compose. */
  lemma WroteMore(fs: Fs, fs1: Fs, fs2: Fs, ino: nat, offset: nat, data: seq<Byte>, w: nat, n: nat, m: nat)
    requires w + n <= |data| && m <= n
    requires Wrote(fs, fs1, ino, offset, data, w)
    requires Wrote(fs1, fs2, ino, offset + w, data[w..w + n], m)
    ensures Wrote(fs, fs2, ino, offset, data, w + m)
  {
  }

  lemma WroteSame(fs0: Fs, fs1: Fs, fs2: Fs, ino: nat, offset: nat, data: seq<Byte>, w: nat)
    requires w <= |data| && Wrote(fs0, fs1, ino, offset, data, w) && SamePeeks(fs1, fs2)
    requires fs2.nodes.Keys == fs1.nodes.Keys && forall f :: f != ino ==> Size(fs2, f) == Size(fs1, f)
    ensures Wrote(fs0, fs2, ino, offset, data, w)
  {
  }

  /** Blocks lo up to hi of file ino have become holes; everything else is kept. */
  ghost predicate Holed(fs: Fs, fs': Fs, ino: nat, lo: nat, hi: nat)
  {
    forall f, p: nat ::
      Peek(fs', f, p) == if f == ino && lo <= p / BLOCK_SIZE < hi then Hole else Peek(fs, f, p)
  }

  lemma HoledMore(fs: Fs, mid: Fs, fs': Fs, ino: nat, lo: nat, b: nat)
    requires Holed(fs, mid, ino, lo, b) && Holed(mid, fs', ino, b, b + 1) && lo <= b
    ensures Holed(fs, fs', ino, lo, b + 1)
  {
  }

  /** The blocks a cut from m blocks to n takes away: those in between, and all under an index that goes. */
  predicate Gone(n: nat, m: nat, i: nat)
  {
    n <= i < m || n <= DIRECT <= i < FIRST_DOUBLE || n <= FIRST_DOUBLE <= i
  }

  ghost predicate Trimmed(fs: Fs, fs': Fs, ino: nat, n: nat, m: nat)
  {
    forall f, p: nat ::
      Peek(fs', f, p) == if f == ino && Gone(n, m, p / BLOCK_SIZE) then Hole else Peek(fs, f, p)
  }

  lemma HoledThrice(fs: Fs, fs1: Fs, fs2: Fs, fs3: Fs, ino: nat, n: nat, m: nat)
    requires Holed(fs, fs1, ino, n, m)
    requires Holed(fs1, fs2, ino, DIRECT, if n <= DIRECT then FIRST_DOUBLE else DIRECT)
    requires Holed(fs2, fs3, ino, FIRST_DOUBLE, if n <= FIRST_DOUBLE then MAX_BLOCKS else FIRST_DOUBLE)
    ensures Trimmed(fs, fs3, ino, n, m)
  {
    forall f, p: nat ensures Peek(fs3, f, p) == if f == ino && Gone(n, m, p / BLOCK_SIZE) then Hole else Peek(fs, f, p) {
      if p / BLOCK_SIZE >= MAX_BLOCKS {
        assert Peek(fs3, f, p) == Hole == Peek(fs, f, p);
      }
    }
  }

  lemma CutTrims(fs: Fs, fs': Fs, ino: nat, k: nat)
    requires CutOff(fs, fs', ino) && fs'.disk == fs.disk && (k == 12 || k == 13)
    requires forall s :: Val(fs', ino, s) == if Under(k, s) then 0 else Val(fs, ino, s)
    ensures k == 12 ==> Holed(fs, fs', ino, DIRECT, FIRST_DOUBLE)
    ensures k == 13 ==> Holed(fs, fs', ino, FIRST_DOUBLE, MAX_BLOCKS)
  {
  }

  lemma NoIndexNoBytes(fs: Fs, ino: nat)
    requires ino in fs.nodes
    ensures fs.nodes[ino].blocks[12] == 0 ==> Holed(fs, fs, ino, DIRECT, FIRST_DOUBLE)
    ensures fs.nodes[ino].blocks[13] == 0 ==> Holed(fs, fs, ino, FIRST_DOUBLE, MAX_BLOCKS)
  {
  }

  /** Freeing data block i and clearing its pointer makes that block a hole, and touches nothing else. */
  lemma UnlinkedData(fs: Fs, fs': Fs, ino: nat, i: nat)
    requires Inv(fs, 0) && Val(fs, ino, Data(i)) != 0
    requires Ready(Freed(fs, Val(fs, ino, Data(i))), ino, i)
    requires fs' == LinkData(Freed(fs, Val(fs, ino, Data(i))), ino, i, 0)
    ensures SameShape(fs, fs', ino)
    ensures forall f, p: nat :: Peek(fs', f, p) == if f == ino && p / BLOCK_SIZE == i then Hole else Peek(fs, f, p)
  {
    var b := Val(fs, ino, Data(i));
    var mid := Freed(fs, b);
    FreedLoose(fs, ino, i);
    FreedVals(fs, b);
    LinkDataVals(mid, ino, i, 0, b);
    LinkDataKeeps(mid, ino, i, 0, b);
    forall f, p: nat ensures Peek(fs', f, p) == if f == ino && p / BLOCK_SIZE == i then Hole else Peek(fs, f, p) {
      var j := p / BLOCK_SIZE;
      assert Val(fs', f, Data(j)) == if f == ino && j == i then 0 else Val(mid, f, Data(j));
      assert Val(mid, f, Data(j)) == Val(fs, f, Data(j));
      if Val(fs, f, Data(j)) != 0 {
        DataNotIndex(mid, ino, f, j, b);
      }
    }
  }

  /** A file cut down to n of its bytes keeps exactly those. */
  lemma CutContent(fs: Fs, fs': Fs, ino: nat)
    requires HoleFree(fs, ino) && Size(fs', ino) <= Size(fs, ino)
    requires forall p: nat :: p < Size(fs', ino) ==> Peek(fs', ino, p) == Peek(fs, ino, p)
    ensures HoleFree(fs', ino) && Content(fs', ino) == Content(fs, ino)[..Size(fs', ino)]
  {
  }

  lemma HoleBlock(fs: Fs, ino: nat, i: nat)
    requires Val(fs, ino, Data(i)) == 0
    ensures forall p: nat :: p / BLOCK_SIZE == i ==> Peek(fs, ino, p) == Hole
  {
  }

  lemma HoleFreeBound(fs: Fs, ino: nat)
    requires HoleFree(fs, ino)
    ensures Size(fs, ino) <= SIZE_LIMIT
  {
    var p: nat := SIZE_LIMIT;
    assert p / BLOCK_SIZE == MAX_BLOCKS;
    assert Peek(fs, ino, p) == Hole;
  }

  lemma RemovedPeeks(fs: Fs, fs': Fs, ino: nat)
    requires fs'.disk == fs.disk && forall f, s :: f != ino ==> Val(fs', f, s) == Val(fs, f, s)
    ensures forall f, p: nat :: f != ino ==> Peek(fs', f, p) == Peek(fs, f, p)
  {
  }

  lemma WroteSizes(fs: Fs, fs': Fs, ino: nat, offset: nat, data: seq<Byte>, w: nat)
    requires w <= |data| && Wrote(fs, fs', ino, offset, data, w)
    ensures fs'.nodes.Keys == fs.nodes.Keys
    ensures forall f :: f in fs'.nodes && f != ino ==> fs'.nodes[f].size == fs.nodes[f].size
  {
    forall f | f in fs'.nodes && f != ino ensures fs'.nodes[f].size == fs.nodes[f].size {
      assert Size(fs', f) == Size(fs, f);
    }
  }

  // ---------- files as values ----------

  /** Every position a file can have, holes included, also those past its size. */
  type Cells = c: seq<Cell> | |c| == SIZE_LIMIT ghost witness NoCells()

  datatype Sparse = Sparse(size: nat, cells: Cells)

  function NoCells(): seq<Cell>
  {
    seq(SIZE_LIMIT, _ => Hole)
  }

  ghost function SparseOf(fs: Fs, ino: nat): (c: Sparse)
    ensures c.size == Size(fs, ino) && forall p :: 0 <= p < SIZE_LIMIT ==> c.cells[p] == Peek(fs, ino, p)
  {
    Sparse(Size(fs, ino), seq(SIZE_LIMIT, p requires 0 <= p < SIZE_LIMIT => Peek(fs, ino, p)))
  }

  ghost function AllFiles(fs: Fs): map<nat, Sparse>
  {
    map f | f in fs.nodes :: SparseOf(fs, f)
  }

  /** When one file changes, appears or goes, the others stay as they were. */
  lemma OtherFiles(fs: Fs, fs': Fs, ino: nat)
    requires fs'.nodes.Keys + {ino} == fs.nodes.Keys + {ino}
    requires forall f :: f != ino ==> Size(fs', f) == Size(fs, f)
    requires forall f, p: nat :: f != ino ==> Peek(fs', f, p) == Peek(fs, f, p)
    ensures AllFiles(fs') == if ino in fs'.nodes then AllFiles(fs)[ino := SparseOf(fs', ino)] else AllFiles(fs) - {ino}
  {
    hide Peek;
    forall f | f in fs'.nodes && f != ino ensures f in fs.nodes && SparseOf(fs', f) == SparseOf(fs, f) {
      assert f in fs'.nodes.Keys + {ino};
      assert SparseOf(fs', f).cells == SparseOf(fs, f).cells;
    }
    assert forall f :: f in fs.nodes && f != ino ==> f in fs.nodes.Keys + {ino};
  }

  /** The cells after the first w bytes of data have been written at offset. */
  function WriteCells(c: Cells, offset: nat, data: seq<Byte>, w: nat): Cells
    requires w <= |data|
  {
    seq(SIZE_LIMIT, p requires 0 <= p < SIZE_LIMIT =>
      if offset <= p < offset + w then Octet(data[p - offset])
      else if c[p] == Hole && Touched(offset, w, p) then Octet(0)
      else c[p])
  }

  /** The cells after a cut from m blocks to n. */
  function CutCells(c: Cells, n: nat, m: nat): Cells
  {
    seq(SIZE_LIMIT, p requires 0 <= p < SIZE_LIMIT => if Gone(n, m, p / BLOCK_SIZE) then Hole else c[p])
  }

  /** What a read returns: up to count bytes, up to the end of the file or its first hole. */
  function ReadCells(c: Sparse, from: nat, count: nat): seq<Byte>
    decreases count
  {
    if count == 0 || from >= c.size || from >= SIZE_LIMIT || c.cells[from] == Hole then []
    else [c.cells[from].value] + ReadCells(c, from + 1, count - 1)
  }

  lemma {:induction false} ReadIs(c: Sparse, from: nat, count: nat, buf: seq<Byte>)
    requires |buf| <= count && (buf != [] ==> from + |buf| <= c.size && from + |buf| <= SIZE_LIMIT)
    requires forall p :: from <= p < from + |buf| ==> c.cells[p] == Octet(buf[p - from])
    requires |buf| < count && from + |buf| < c.size && from + |buf| < SIZE_LIMIT ==> c.cells[from + |buf|] == Hole
    ensures buf == ReadCells(c, from, count)
    decreases count
  {
    if buf != [] {
      assert c.cells[from] == Octet(buf[0]);
      ReadIs(c, from + 1, count - 1, buf[1..]);
      assert buf == [buf[0]] + buf[1..];
    }
  }

  // ---------- files without holes are byte sequences ----------

  predicate Full(c: Sparse)
  {
    c.size <= SIZE_LIMIT && forall p :: 0 <= p < c.size ==> c.cells[p] != Hole
  }

  function Bytes(c: Sparse): seq<Byte>
    requires Full(c)
  {
    seq(c.size, p requires 0 <= p < c.size => c.cells[p].value)
  }

  lemma PlainWrite(c: Sparse, offset: nat, data: seq<Byte>, w: nat, size: nat)
    requires Full(c) && offset <= c.size && w <= |data| && c.size <= size <= SIZE_LIMIT
    requires size == c.size || size <= offset + w
    ensures var c' := Sparse(size, WriteCells(c.cells, offset, data, w));
            Full(c') && Bytes(c') == Overwrite(Bytes(c), offset, data[..w])[..size]
  {
  }

  lemma PlainCut(c: Sparse, n: nat, m: nat, size: nat)
    requires Full(c) && size <= c.size && forall p :: 0 <= p < size ==> !Gone(n, m, p / BLOCK_SIZE)
    ensures var c' := Sparse(size, CutCells(c.cells, n, m)); Full(c') && Bytes(c') == Bytes(c)[..size]
  {
  }

  lemma {:induction false} PlainRead(c: Sparse, from: nat, count: nat)
    requires Full(c) && from <= c.size
    ensures ReadCells(c, from, count) == Bytes(c)[from..if from + count < c.size then from + count else c.size]
    decreases count
  {
    if count > 0 && from < c.size {
      PlainRead(c, from + 1, count - 1);
    }
  }
}
