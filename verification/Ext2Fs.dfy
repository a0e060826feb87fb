/**
  The mounted file system as a value: allocation bitmap and free counter, block
  contents, inode table, and the in-memory nodes with their cached block tables.
  Inv is the ownership invariant that every operation keeps.
 */
module Ext2Fs {
  import opened Common
  import opened Ext2Disk

  const SIZE_MOD: nat := 0x1_0000_0000
  const COUNT_MOD: nat := 0x1_0000

  /** struct ext2_inode, reduced to the fields the block layer uses. */
  datatype Inode = Inode(size: nat, sectors: nat, links: nat, block: BlockTable) {
    function WithEntry(k: nat, v: nat): Inode
      requires k < 15
    {
      Inode(size, sectors, links, Put(block, k, v))
    }

    function WithSize(n: nat): Inode {
      Inode(n % SIZE_MOD, Sectors(n), links, block)
    }
  }

  /** struct vfs_node with its struct ext2_vfs_data. */
  datatype Node = Node(size: nat, blocks: BlockTable) {
    function WithEntry(k: nat, v: nat): Node
      requires k < 15
    {
      Node(size, Put(blocks, k, v))
    }

    function WithSize(n: nat): Node {
      Node(n, blocks)
    }
  }

  /** reserved: superblock, descriptors, bitmaps, inode table and directory blocks. */
  datatype Fs = Fs(
    reserved: set<nat>,
    bitmap: seq<bool>,
    free: nat,
    disk: seq<Block>,
    inodeMap: seq<bool>,
    inodes: seq<Inode>,
    nodes: map<nat, Node>)

  // ---------- ownership ----------

  ghost function Val(fs: Fs, ino: nat, s: Slot): nat
  {
    if ino in fs.nodes then SlotVal(fs.disk, fs.nodes[ino].blocks, s) else 0
  }

  /** Block b may belong to a file. */
  ghost predicate Sound(fs: Fs, b: nat)
  {
    0 < b < |fs.disk| && b <= BITMAP_BITS && b !in fs.reserved
  }

  ghost predicate Marked(fs: Fs, b: nat)
    requires |fs.bitmap| == BITMAP_BITS
  {
    0 < b <= BITMAP_BITS && fs.bitmap[b - 1]
  }

  ghost predicate CacheOk(fs: Fs)
  {
    && |fs.inodeMap| == BITMAP_BITS
    && forall ino :: ino in fs.nodes ==>
         && 0 < ino <= |fs.inodes|
         && (ino <= BITMAP_BITS ==> fs.inodeMap[ino - 1])
         && fs.inodes[ino - 1].block == fs.nodes[ino].blocks
         && fs.inodes[ino - 1].size == fs.nodes[ino].size % SIZE_MOD
         && fs.inodes[ino - 1].links > 0
  }

  ghost predicate Unshared(fs: Fs)
  {
    forall ino1, s1, ino2, s2 :: Val(fs, ino1, s1) == Val(fs, ino2, s2) != 0 ==> ino1 == ino2 && s1 == s2
  }

  /**
    Every reachable block is sound, marked and reachable from one slot of one
    file; reserved blocks are marked; caches equal the inode table.  A nonzero
    loose names the one block whose bit truncation has cleared before its pointer.
   */
  ghost predicate Inv(fs: Fs, loose: nat)
  {
    && |fs.bitmap| == BITMAP_BITS
    && fs.free < COUNT_MOD
    && CacheOk(fs)
    && (forall ino, s :: Val(fs, ino, s) != 0 ==> Sound(fs, Val(fs, ino, s)))
    && (forall ino, s :: Val(fs, ino, s) != 0 && Val(fs, ino, s) != loose ==> Marked(fs, Val(fs, ino, s)))
    && Unshared(fs)
    && (forall b :: b in fs.reserved && 0 < b <= BITMAP_BITS ==> Marked(fs, b))
  }

  /** An undamaged image: what a mounted volume's directories reach is allocated and singly owned. */
  ghost predicate Clean(fs: Fs)
  {
    && |fs.bitmap| == |fs.inodeMap| == BITMAP_BITS && fs.free < COUNT_MOD
    && (forall ino :: ino in fs.nodes && 0 < ino <= |fs.inodes| ==>
          && (ino <= BITMAP_BITS ==> fs.inodeMap[ino - 1])
          && fs.inodes[ino - 1].size < SIZE_MOD && fs.inodes[ino - 1].links > 0)
    && (forall ino, s :: Val(fs, ino, s) != 0 ==> Sound(fs, Val(fs, ino, s)) && Marked(fs, Val(fs, ino, s)))
    && Unshared(fs)
    && (forall b :: b in fs.reserved && 0 < b <= BITMAP_BITS ==> Marked(fs, b))
  }

  /** The nodes for the inodes named by directory entries, each caching its inode. */
  function Scanned(table: seq<Inode>, found: seq<nat>): map<nat, Node>
  {
    if found == [] then map[]
    else
      var rest, ino := Scanned(table, found[..|found| - 1]), found[|found| - 1];
      if 0 < ino <= |table| then rest[ino := Node(table[ino - 1].size, table[ino - 1].block)] else rest
  }

  lemma {:induction false} ScannedCaches(table: seq<Inode>, found: seq<nat>, ino: nat)
    ensures ino in Scanned(table, found) <==> ino in found && 0 < ino <= |table|
    ensures ino in Scanned(table, found) ==> Scanned(table, found)[ino] == Node(table[ino - 1].size, table[ino - 1].block)
    decreases |found|
  {
    if found != [] {
      ScannedCaches(table, found[..|found| - 1], ino);
      assert found == found[..|found| - 1] + [found[|found| - 1]];
    }
  }

  lemma InvBasics(fs: Fs, loose: nat)
    requires Inv(fs, loose)
    ensures |fs.bitmap| == BITMAP_BITS
    ensures forall ino :: ino in fs.nodes ==> 0 < ino <= |fs.inodes|
  {
  }

  ghost predicate Unreachable(fs: Fs, b: nat)
  {
    forall ino, s :: Val(fs, ino, s) != b
  }

  /** A block a file may be made to point at. */
  ghost predicate Linkable(fs: Fs, b: nat)
    requires |fs.bitmap| == BITMAP_BITS
  {
    Sound(fs, b) && Marked(fs, b) && Unreachable(fs, b)
  }

  // ---------- the free counter ----------

  /** The counter's distance from the number of clear bits, in 16-bit arithmetic. */
  ghost function Balance(fs: Fs): nat
  {
    (fs.free - Clear(fs.bitmap)) % COUNT_MOD
  }

  // ---------- primitive transitions ----------

  function Store(fs: Fs, x: nat, b: Block): Fs
    requires x < |fs.disk|
  {
    fs.(disk := fs.disk[x := b])
  }

  function Allocated(fs: Fs, b: nat): Fs
    requires 0 < b < |fs.disk| && b <= |fs.bitmap|
  {
    fs.(bitmap := fs.bitmap[b - 1 := true], free := (fs.free - 1) % COUNT_MOD, disk := fs.disk[b := ZeroBlock()])
  }

  /** ext2_free_block. */
  function Freed(fs: Fs, b: nat): Fs
  {
    if 0 < b < |fs.disk| && b <= |fs.bitmap| && fs.bitmap[b - 1]
    then fs.(bitmap := fs.bitmap[b - 1 := false], free := (fs.free + 1) % COUNT_MOD)
    else fs
  }

  /** Entry k of the cached table and of the inode's table, written together. */
  function SetEntry(fs: Fs, ino: nat, k: nat, v: nat): Fs
    requires ino in fs.nodes && 0 < ino <= |fs.inodes| && k < 15
  {
    fs.(inodes := fs.inodes[ino - 1 := fs.inodes[ino - 1].WithEntry(k, v)],
        nodes := fs.nodes[ino := fs.nodes[ino].WithEntry(k, v)])
  }

  function SetSize(fs: Fs, ino: nat, size: nat): Fs
    requires ino in fs.nodes && 0 < ino <= |fs.inodes|
  {
    fs.(inodes := fs.inodes[ino - 1 := fs.inodes[ino - 1].WithSize(size)],
        nodes := fs.nodes[ino := fs.nodes[ino].WithSize(size)])
  }

  /** i_blocks for a size, stored in 32 bits. */
  function Sectors(size: nat): nat
  {
    ((size + 1023) / 1024) * 2 % SIZE_MOD
  }

  // ---------- what the transitions keep ----------

  lemma BalanceAllocated(fs: Fs, b: nat)
    requires 0 < b < |fs.disk| && b <= |fs.bitmap| && !fs.bitmap[b - 1]
    ensures Balance(Allocated(fs, b)) == Balance(fs)
  {
    ClearUpdated(fs.bitmap, b - 1, true);
  }

  lemma BalanceFreed(fs: Fs, b: nat)
    ensures Balance(Freed(fs, b)) == Balance(fs)
  {
    if 0 < b < |fs.disk| && b <= |fs.bitmap| && fs.bitmap[b - 1] {
      ClearUpdated(fs.bitmap, b - 1, false);
    }
  }

  /** Writing a block that is nobody's index block moves no pointer. */
  lemma StoreVals(fs: Fs, x: nat, b: Block)
    requires 0 < x < |fs.disk|
    requires forall ino, s: Slot :: !s.Data? ==> Val(fs, ino, s) != x
    ensures forall ino, s :: Val(Store(fs, x, b), ino, s) == Val(fs, ino, s)
  {
    forall ino, s ensures Val(Store(fs, x, b), ino, s) == Val(fs, ino, s) {
      if ino in fs.nodes {
        forall s: Slot | !s.Data? ensures SlotVal(fs.disk, fs.nodes[ino].blocks, s) != x {
          assert Val(fs, ino, s) != x;
        }
        FrameSlots(fs.disk, Store(fs, x, b).disk, fs.nodes[ino].blocks);
      }
    }
  }

  /** Writing an index block of one file moves no pointer of the others. */
  lemma StoreOthers(fs: Fs, ino0: nat, x: nat, b: Block)
    requires 0 < x < |fs.disk|
    requires forall ino, s :: ino != ino0 ==> Val(fs, ino, s) != x
    ensures forall ino, s :: ino != ino0 ==> Val(Store(fs, x, b), ino, s) == Val(fs, ino, s)
  {
    forall ino, s | ino != ino0 ensures Val(Store(fs, x, b), ino, s) == Val(fs, ino, s) {
      if ino in fs.nodes {
        forall s ensures SlotVal(fs.disk, fs.nodes[ino].blocks, s) != x {
          assert Val(fs, ino, s) != x;
        }
        FrameSlots(fs.disk, Store(fs, x, b).disk, fs.nodes[ino].blocks);
      }
    }
  }

  /** One slot takes a new value; the bitmap only grows. */
  lemma Relink(fs: Fs, fs': Fs, loose: nat, ino0: nat, s0: Slot, b: nat)
    requires Inv(fs, loose) && CacheOk(fs')
    requires fs'.reserved == fs.reserved && |fs'.disk| == |fs.disk|
    requires |fs'.bitmap| == BITMAP_BITS && fs'.free < COUNT_MOD
    requires forall k :: 0 <= k < BITMAP_BITS && fs.bitmap[k] ==> fs'.bitmap[k]
    requires forall ino, s :: Val(fs', ino, s) == if ino == ino0 && s == s0 then b else Val(fs, ino, s)
    requires b != 0 ==> Sound(fs, b) && Marked(fs', b) && Unreachable(fs, b)
    requires loose != 0 ==> loose == Val(fs, ino0, s0)
    ensures Inv(fs', 0)
  {
  }

  /** Slots only lose their values, and a cleared bit is one no slot still needs. */
  lemma Shrink(fs: Fs, fs': Fs, loose: nat)
    requires Inv(fs, loose) && CacheOk(fs')
    requires fs'.reserved == fs.reserved && |fs'.disk| == |fs.disk|
    requires |fs'.bitmap| == BITMAP_BITS && fs'.free < COUNT_MOD
    requires forall ino, s :: Val(fs', ino, s) == 0 || Val(fs', ino, s) == Val(fs, ino, s)
    requires forall b :: 0 < b <= BITMAP_BITS && fs.bitmap[b - 1] && !fs'.bitmap[b - 1] ==>
                           Unreachable(fs', b) && b !in fs.reserved
    requires loose != 0 ==> Unreachable(fs', loose)
    ensures Inv(fs', 0)
  {
  }

  lemma AllocatedKeeps(fs: Fs, b: nat)
    requires Inv(fs, 0)
    requires 0 < b < |fs.disk| && b <= BITMAP_BITS && !fs.bitmap[b - 1]
    ensures var fs' := Allocated(fs, b);
            && Inv(fs', 0) && Linkable(fs', b) && Balance(fs') == Balance(fs)
            && forall ino, s :: Val(fs', ino, s) == Val(fs, ino, s)
  {
    var fs' := Allocated(fs, b);
    forall ino, s ensures Val(fs, ino, s) != b {
    }
    StoreVals(fs, b, ZeroBlock());
    forall ino, s ensures Val(fs', ino, s) == Val(fs, ino, s) {
      assert Val(Store(fs, b, ZeroBlock()), ino, s) == Val(fs, ino, s);
    }
    BalanceAllocated(fs, b);
    assert forall x :: Marked(fs, x) ==> Marked(fs', x);
    assert Unshared(fs');
  }

  // ---------- growing one file's index ----------

  ghost predicate NotIndex(fs: Fs, ino: nat, b: nat)
  {
    forall s: Slot :: !s.Data? ==> Val(fs, ino, s) != b
  }

  /** Only ino's cached table, its inode and the bitmap may differ between the two. */
  ghost predicate SameShape(fs: Fs, fs': Fs, ino: nat)
  {
    && fs'.reserved == fs.reserved && |fs'.disk| == |fs.disk| && |fs'.bitmap| == |fs.bitmap|
    && fs'.inodeMap == fs.inodeMap && |fs'.inodes| == |fs.inodes| && fs'.nodes.Keys == fs.nodes.Keys
    && (forall k :: 0 <= k < |fs.inodes| && k != ino - 1 ==> fs'.inodes[k] == fs.inodes[k])
    && (forall k :: k in fs.nodes && k != ino ==> fs'.nodes[k] == fs.nodes[k])
    && (ino in fs.nodes ==> fs'.nodes[ino].size == fs.nodes[ino].size)
  }

  /**
    fs' adds index blocks to file ino and nothing else: no data pointer moves in
    any file, bits are only set, and the index gains only blocks that were
    unmarked, which are also the only other blocks written.
   */
  ghost predicate Grown(fs: Fs, fs': Fs, ino: nat)
    requires |fs.bitmap| == BITMAP_BITS
  {
    && SameShape(fs, fs', ino)
    && Balance(fs') == Balance(fs)
    && (forall k :: 0 <= k < BITMAP_BITS && fs.bitmap[k] ==> fs'.bitmap[k])
    && (forall i, s: Slot :: i != ino || s.Data? ==> Val(fs', i, s) == Val(fs, i, s))
    && (forall b :: 0 < b < |fs.disk| && Marked(fs, b) && NotIndex(fs, ino, b) ==>
          fs'.disk[b] == fs.disk[b] && NotIndex(fs', ino, b))
  }

  lemma GrownTrans(fs: Fs, fs1: Fs, fs2: Fs, ino: nat)
    requires |fs.bitmap| == BITMAP_BITS == |fs1.bitmap|
    requires Grown(fs, fs1, ino) && Grown(fs1, fs2, ino)
    ensures Grown(fs, fs2, ino)
  {
  }

  lemma EntryVals(fs: Fs, ino: nat, k: nat, v: nat, s0: Slot)
    requires ino in fs.nodes && 0 < ino <= |fs.inodes| && k < 15
    requires forall s :: SlotVal(fs.disk, Put(fs.nodes[ino].blocks, k, v), s)
                         == if s == s0 then v else SlotVal(fs.disk, fs.nodes[ino].blocks, s)
    ensures forall i, s :: Val(SetEntry(fs, ino, k, v), i, s)
                           == if i == ino && s == s0 then v else Val(fs, i, s)
  {
  }

  /** A fresh zeroed block becomes the root of the single (12) or double (13) index. */
  lemma GrowRoot(fs: Fs, ino: nat, s0: Slot, b: nat)
    requires Inv(fs, 0) && ino in fs.nodes
    requires s0 == Sib || s0 == Dib
    requires Val(fs, ino, s0) == 0
    requires 0 < b < |fs.disk| && b <= BITMAP_BITS && !fs.bitmap[b - 1]
    ensures var fs' := SetEntry(Allocated(fs, b), ino, if s0 == Sib then 12 else 13, b);
            Inv(fs', 0) && Grown(fs, fs', ino) && Val(fs', ino, s0) == b
  {
    hide Unshared;
    AllocatedKeeps(fs, b);
    var fs1 := Allocated(fs, b);
    var k := if s0 == Sib then 12 else 13;
    assert Val(fs1, ino, s0) == 0;
    SetRoot(fs1.disk, fs1.nodes[ino].blocks, s0, b);
    EntryVals(fs1, ino, k, b, s0);
    Relink(fs1, SetEntry(fs1, ino, k, b), 0, ino, s0, b);
  }

  /** A fresh zeroed block becomes the o-th second-level index block. */
  lemma GrowOuter(fs: Fs, ino: nat, o: nat, b: nat)
    requires Inv(fs, 0) && ino in fs.nodes && o < PTRS
    requires Val(fs, ino, Dib) != 0 && Val(fs, ino, Outer(o)) == 0
    requires 0 < b < |fs.disk| && b <= BITMAP_BITS && !fs.bitmap[b - 1]
    ensures var fs1 := Allocated(fs, b);
            var dib := fs.nodes[ino].blocks[13];
            && 0 < dib < |fs.disk|
            && var fs' := Store(fs1, dib, SetPtr(fs1.disk[dib], o, b));
            Inv(fs', 0) && Grown(fs, fs', ino) && Val(fs', ino, Outer(o)) == b
  {
    AllocatedKeeps(fs, b);
    var fs1 := Allocated(fs, b);
    var t := fs1.nodes[ino].blocks;
    var dib := t[13];
    assert Val(fs1, ino, Dib) == dib && Val(fs1, ino, Outer(o)) == 0;
    forall s ensures SlotVal(fs1.disk, t, s) != b && (s != Dib ==> SlotVal(fs1.disk, t, s) != dib) {
      assert Val(fs1, ino, s) == SlotVal(fs1.disk, t, s);
    }
    SetOuter(fs1.disk, t, o, b);
    StoreOthers(fs1, ino, dib, SetPtr(fs1.disk[dib], o, b));
    Relink(fs1, Store(fs1, dib, SetPtr(fs1.disk[dib], o, b)), 0, ino, Outer(o), b);
  }

  // ---------- one data pointer ----------

  /** The index block that holds data pointer i is present. */
  predicate Ready(fs: Fs, ino: nat, i: nat)
  {
    && ino in fs.nodes && 0 < ino <= |fs.inodes| && i < MAX_BLOCKS
    && (DIRECT <= i < FIRST_DOUBLE ==> 0 < fs.nodes[ino].blocks[12] < |fs.disk|)
    && (FIRST_DOUBLE <= i ==>
          0 < IndexPtr(fs.disk, fs.nodes[ino].blocks[13], (i - FIRST_DOUBLE) / PTRS) < |fs.disk|)
  }

  /** The write of ext2_set_block_num once the index block exists. */
  function LinkData(fs: Fs, ino: nat, i: nat, b: nat): Fs
    requires Ready(fs, ino, i) && b < SIZE_MOD
  {
    if i < DIRECT then SetEntry(fs, ino, i, b)
    else
      var x := if i < FIRST_DOUBLE then fs.nodes[ino].blocks[12]
               else IndexPtr(fs.disk, fs.nodes[ino].blocks[13], (i - FIRST_DOUBLE) / PTRS);
      var k := if i < FIRST_DOUBLE then i - DIRECT else (i - FIRST_DOUBLE) % PTRS;
      Store(fs, x, SetPtr(fs.disk[x], k, b))
  }

  /** A data pointer that reads nonzero is held by an index block that exists. */
  lemma NonzeroReady(fs: Fs, ino: nat, i: nat, loose: nat)
    requires Inv(fs, loose) && Val(fs, ino, Data(i)) != 0
    ensures Ready(fs, ino, i)
  {
  }

  lemma LinkDataVals(fs: Fs, ino: nat, i: nat, b: nat, loose: nat)
    requires Inv(fs, loose) && Ready(fs, ino, i) && b < SIZE_MOD
    ensures forall ino', s :: Val(LinkData(fs, ino, i, b), ino', s)
                              == if ino' == ino && s == Data(i) then b else Val(fs, ino', s)
    ensures forall x :: 0 < x < |fs.disk| && NotIndex(fs, ino, x) ==> LinkData(fs, ino, i, b).disk[x] == fs.disk[x]
  {
    var t := fs.nodes[ino].blocks;
    if i < DIRECT {
      SetDirect(fs.disk, t, i, b);
      EntryVals(fs, ino, i, b, Data(i));
    } else {
      var s1 := if i < FIRST_DOUBLE then Sib else Outer((i - FIRST_DOUBLE) / PTRS);
      var x := SlotVal(fs.disk, t, s1);
      assert Val(fs, ino, s1) == x;
      forall s | s != s1 ensures SlotVal(fs.disk, t, s) != x {
        assert Val(fs, ino, s) == SlotVal(fs.disk, t, s);
      }
      if i < FIRST_DOUBLE {
        SetSingle(fs.disk, t, i, b);
        StoreOthers(fs, ino, x, SetPtr(fs.disk[x], i - DIRECT, b));
      } else {
        SetDouble(fs.disk, t, i, b);
        StoreOthers(fs, ino, x, SetPtr(fs.disk[x], (i - FIRST_DOUBLE) % PTRS, b));
      }
    }
  }

  /** Linking a linkable block, or clearing the pointer to the loose one, restores the full invariant. */
  lemma LinkDataKeeps(fs: Fs, ino: nat, i: nat, b: nat, loose: nat)
    requires Inv(fs, loose) && Ready(fs, ino, i)
    requires b != 0 ==> Linkable(fs, b)
    requires loose != 0 ==> loose == Val(fs, ino, Data(i))
    ensures b < SIZE_MOD && Inv(LinkData(fs, ino, i, b), 0)
    ensures SameShape(fs, LinkData(fs, ino, i, b), ino)
    ensures Balance(LinkData(fs, ino, i, b)) == Balance(fs)
  {
    LinkDataVals(fs, ino, i, b, loose);
    Relink(fs, LinkData(fs, ino, i, b), loose, ino, Data(i), b);
  }

  /** fs' is fs with data pointer i of file ino set to b, and possibly more index blocks. */
  ghost predicate Linked(fs: Fs, fs': Fs, ino: nat, i: nat, b: nat)
    requires |fs.bitmap| == BITMAP_BITS
  {
    && SameShape(fs, fs', ino)
    && Balance(fs') == Balance(fs)
    && (forall k :: 0 <= k < BITMAP_BITS && fs.bitmap[k] ==> fs'.bitmap[k])
    && (forall f, s: Slot :: f != ino || s.Data? ==>
          Val(fs', f, s) == if f == ino && s == Data(i) then b else Val(fs, f, s))
    && (forall x :: 0 < x < |fs.disk| && Marked(fs, x) && NotIndex(fs, ino, x) ==>
          fs'.disk[x] == fs.disk[x] && NotIndex(fs', ino, x))
  }

  lemma GrownKeepsLinkable(fs: Fs, fs': Fs, ino: nat, b: nat)
    requires |fs.bitmap| == BITMAP_BITS && Grown(fs, fs', ino) && Linkable(fs, b)
    ensures Linkable(fs', b) && fs'.disk[b] == fs.disk[b]
  {
  }

  lemma LinkDataLinked(fs: Fs, ino: nat, i: nat, b: nat, loose: nat)
    requires Inv(fs, loose) && Ready(fs, ino, i) && b < SIZE_MOD
    ensures Linked(fs, LinkData(fs, ino, i, b), ino, i, b)
  {
    LinkDataVals(fs, ino, i, b, loose);
  }

  lemma GrownThenLinked(fs: Fs, mid: Fs, fs': Fs, ino: nat, i: nat, b: nat)
    requires |fs.bitmap| == BITMAP_BITS == |mid.bitmap|
    requires Grown(fs, mid, ino) && Linked(mid, fs', ino, i, b)
    ensures Linked(fs, fs', ino, i, b)
  {
  }

  lemma IndexReady(fs: Fs, ino: nat, i: nat, loose: nat)
    requires Inv(fs, loose) && ino in fs.nodes && i < MAX_BLOCKS
    requires DIRECT <= i < FIRST_DOUBLE ==> Val(fs, ino, Sib) != 0
    requires FIRST_DOUBLE <= i ==> Val(fs, ino, Outer((i - FIRST_DOUBLE) / PTRS)) != 0
    ensures Ready(fs, ino, i)
    ensures FIRST_DOUBLE <= i ==> 0 < fs.nodes[ino].blocks[13] < |fs.disk|
  {
  }

  /** The last write of ext2_set_block_num, after the index has been grown as needed. */
  lemma LinkFinish(fs: Fs, mid: Fs, ino: nat, i: nat, b: nat, loose: nat)
    requires |fs.bitmap| == BITMAP_BITS && Inv(mid, loose) && Grown(fs, mid, ino)
    requires Ready(mid, ino, i)
    requires b != 0 ==> Linkable(fs, b)
    requires loose != 0 ==> loose == Val(fs, ino, Data(i))
    ensures b < SIZE_MOD
    ensures Inv(LinkData(mid, ino, i, b), 0) && Linked(fs, LinkData(mid, ino, i, b), ino, i, b)
    ensures SameShape(fs, LinkData(mid, ino, i, b), ino) && Balance(LinkData(mid, ino, i, b)) == Balance(fs)
  {
    hide Unshared, CacheOk;
    assert Val(mid, ino, Data(i)) == Val(fs, ino, Data(i));
    if b != 0 {
      GrownKeepsLinkable(fs, mid, ino, b);
    }
    LinkDataKeeps(mid, ino, i, b, loose);
    LinkDataLinked(mid, ino, i, b, loose);
    GrownThenLinked(fs, mid, LinkData(mid, ino, i, b), ino, i, b);
  }

  // ---------- giving blocks back ----------

  lemma FreedVals(fs: Fs, b: nat)
    ensures forall f, s :: Val(Freed(fs, b), f, s) == Val(fs, f, s)
  {
  }

  /** Clearing the bit of a linked data block leaves it loose. */
  lemma FreedLoose(fs: Fs, ino: nat, i: nat)
    requires Inv(fs, 0) && Val(fs, ino, Data(i)) != 0
    ensures var b := Val(fs, ino, Data(i));
            Inv(Freed(fs, b), b) && Val(Freed(fs, b), ino, Data(i)) == b && Balance(Freed(fs, b)) == Balance(fs)
  {
    var b := Val(fs, ino, Data(i));
    FreedVals(fs, b);
    BalanceFreed(fs, b);
    assert Unshared(Freed(fs, b));
  }

  /** ext2_free_block on each block number of a list. */
  function FreedAll(fs: Fs, bs: seq<nat>): Fs
  {
    if bs == [] then fs else Freed(FreedAll(fs, bs[..|bs| - 1]), bs[|bs| - 1])
  }

  lemma {:induction false} FreedAllKeeps(fs: Fs, bs: seq<nat>)
    requires |fs.bitmap| == BITMAP_BITS && fs.free < COUNT_MOD
    ensures var fs' := FreedAll(fs, bs);
            && fs' == fs.(bitmap := fs'.bitmap, free := fs'.free)
            && |fs'.bitmap| == BITMAP_BITS && fs'.free < COUNT_MOD
            && Balance(fs') == Balance(fs)
            && forall k :: 0 <= k < BITMAP_BITS && fs'.bitmap[k] != fs.bitmap[k] ==> k + 1 in bs && fs.bitmap[k]
  {
    if bs != [] {
      FreedAllKeeps(fs, bs[..|bs| - 1]);
      BalanceFreed(FreedAll(fs, bs[..|bs| - 1]), bs[|bs| - 1]);
    }
  }

  lemma {:induction false} FreedAllBits(fs: Fs, bs: seq<nat>)
    requires |fs.bitmap| == BITMAP_BITS
    ensures var fs' := FreedAll(fs, bs);
            && |fs'.disk| == |fs.disk| && |fs'.bitmap| == BITMAP_BITS
            && forall b: nat :: Marked(fs', b) <==> Marked(fs, b) && !(b in bs && b < |fs.disk|)
  {
    if bs != [] {
      FreedAllBits(fs, bs[..|bs| - 1]);
      assert bs == bs[..|bs| - 1] + [bs[|bs| - 1]];
    }
  }

  ghost predicate Holds(fs: Fs, ino: nat, slots: iset<Slot>, b: nat)
  {
    exists s :: s in slots && Val(fs, ino, s) == b
  }

  /** Exactly the bits of the blocks that the given slots of file ino held are cleared. */
  ghost predicate GaveBack(fs: Fs, fs': Fs, ino: nat, slots: iset<Slot>)
  {
    && |fs.bitmap| == |fs'.bitmap| == BITMAP_BITS
    && forall b :: Marked(fs', b) <==> Marked(fs, b) && !Holds(fs, ino, slots, b)
  }

  ghost function DataSlots(lo: nat, hi: nat): iset<Slot>
  {
    iset s: Slot | s.Data? && lo <= s.i < hi
  }

  /** The slots a cut from m blocks to n gives up: data in between, and each index when nothing below it is kept. */
  predicate Spared(n: nat, m: nat, s: Slot)
  {
    match s
    case Data(i) => n <= i < m
    case Sib => n <= DIRECT
    case _ => n <= FIRST_DOUBLE
  }

  ghost function Spare(n: nat, m: nat): iset<Slot>
  {
    iset s: Slot | Spared(n, m, s)
  }

  lemma GaveNothing(fs: Fs, ino: nat, slots: iset<Slot>)
    requires |fs.bitmap| == BITMAP_BITS && forall s :: s in slots ==> Val(fs, ino, s) == 0
    ensures GaveBack(fs, fs, ino, slots)
  {
  }

  lemma GaveOne(fs: Fs, ino: nat, s: Slot)
    requires Inv(fs, 0)
    ensures GaveBack(fs, Freed(fs, Val(fs, ino, s)), ino, iset{s})
  {
    hide Unshared, CacheOk;
    var b := Val(fs, ino, s);
    assert forall x: nat :: Holds(fs, ino, iset{s}, x) <==> x == b;
  }

  lemma GaveThen(fs: Fs, mid: Fs, fs': Fs, ino: nat, first: iset<Slot>, second: iset<Slot>, both: iset<Slot>)
    requires GaveBack(fs, mid, ino, first) && GaveBack(mid, fs', ino, second) && both == first + second
    requires forall s :: s in second ==> Val(mid, ino, s) == Val(fs, ino, s)
    ensures GaveBack(fs, fs', ino, both)
  {
    hide Val;
    forall b: nat
      ensures Holds(fs, ino, both, b) <==> Holds(fs, ino, first, b) || Holds(mid, ino, second, b)
    {
      if s :| s in both && Val(fs, ino, s) == b {
        assert s in first || (s in second && Val(mid, ino, s) == b);
      }
      if s :| s in first && Val(fs, ino, s) == b {
        assert s in both;
      }
      if s :| s in second && Val(mid, ino, s) == b {
        assert s in both;
      }
    }
  }

  /** Freeing all second-level blocks and the doubly indirect block. */
  lemma GaveDouble(fs: Fs, ino: nat)
    requires Inv(fs, 0) && ino in fs.nodes
    ensures GaveBack(fs, FreedAll(fs, Outers(fs, ino, PTRS) + [fs.nodes[ino].blocks[13]]), ino, DoubleSlots())
  {
    var bs := Outers(fs, ino, PTRS) + [fs.nodes[ino].blocks[13]];
    FreedAllBits(fs, bs);
    hide FreedAll, Unshared, CacheOk;
    forall b: nat | 0 < b
      ensures Holds(fs, ino, DoubleSlots(), b) <==> b in bs && b < |fs.disk|
    {
      DoubleHolds(fs, ino, b);
    }
  }

  ghost function DoubleSlots(): iset<Slot>
  {
    iset s: Slot | s == Dib || s.Outer?
  }

  lemma DoubleHolds(fs: Fs, ino: nat, b: nat)
    requires Inv(fs, 0) && ino in fs.nodes && 0 < b
    ensures Holds(fs, ino, DoubleSlots(), b)
            <==> b in Outers(fs, ino, PTRS) + [fs.nodes[ino].blocks[13]] && b < |fs.disk|
  {
    hide Unshared, CacheOk;
    var os := Outers(fs, ino, PTRS);
    if s :| s in DoubleSlots() && Val(fs, ino, s) == b {
      if s.Outer? {
        assert s.k < PTRS && os[s.k] == b;
      }
    }
    if b in os {
      var k :| 0 <= k < |os| && os[k] == b;
      assert Outer(k) in DoubleSlots() && Val(fs, ino, Outer(k)) == b;
    }
    assert Dib in DoubleSlots() && Val(fs, ino, Dib) == fs.nodes[ino].blocks[13];
  }

  /** The root entries of file ino at 12 or 13, or the whole file, cut off. */
  ghost predicate CutOff(fs: Fs, fs': Fs, ino: nat)
  {
    && fs'.reserved == fs.reserved && |fs'.disk| == |fs.disk|
    && (forall f, s :: f != ino ==> Val(fs', f, s) == Val(fs, f, s))
    && (forall s :: Val(fs', ino, s) == 0 || Val(fs', ino, s) == Val(fs, ino, s))
  }

  /** Cutting off slots and freeing blocks that only those slots held keeps the invariant. */
  lemma CutKeeps(fs: Fs, fs': Fs, ino: nat, bs: seq<nat>)
    requires Inv(fs, 0) && CacheOk(fs') && CutOff(fs, fs', ino)
    requires fs'.bitmap == FreedAll(fs, bs).bitmap && fs'.free == FreedAll(fs, bs).free
    requires forall b :: b in bs && b != 0 ==> exists s :: Val(fs, ino, s) == b && Val(fs', ino, s) == 0
    ensures Inv(fs', 0) && Balance(fs') == Balance(fs)
  {
    FreedAllKeeps(fs, bs);
    forall b | 0 < b <= BITMAP_BITS && fs.bitmap[b - 1] && !fs'.bitmap[b - 1]
      ensures Unreachable(fs', b) && b !in fs.reserved
    {
      assert b in bs;
      var s0 :| Val(fs, ino, s0) == b && Val(fs', ino, s0) == 0;
      forall f, s ensures Val(fs', f, s) != b {
        assert Val(fs, f, s) == Val(fs, ino, s0) ==> f == ino && s == s0;
      }
    }
    Shrink(fs, fs', 0);
  }

  /** The slots reached through table entry k. */
  ghost predicate Under(k: nat, s: Slot)
  {
    if k == 12 then s == Sib || (s.Data? && DIRECT <= s.i < FIRST_DOUBLE)
    else s == Dib || s.Outer? || (s.Data? && FIRST_DOUBLE <= s.i)
  }

  lemma CutRoot(fs: Fs, fs': Fs, ino: nat, k: nat)
    requires ino in fs.nodes && (k == 12 || k == 13)
    requires fs'.reserved == fs.reserved && fs'.disk == fs.disk
    requires fs'.nodes == fs.nodes[ino := fs.nodes[ino].WithEntry(k, 0)]
    ensures CutOff(fs, fs', ino)
    ensures forall s :: Val(fs', ino, s) == if Under(k, s) then 0 else Val(fs, ino, s)
  {
  }

  /** Dropping the single index: its entries leave with it. */
  lemma DropSib(fs: Fs, ino: nat)
    requires Inv(fs, 0) && ino in fs.nodes && fs.nodes[ino].blocks[12] != 0
    ensures var fs' := SetEntry(Freed(fs, fs.nodes[ino].blocks[12]), ino, 12, 0);
            && Inv(fs', 0) && Balance(fs') == Balance(fs) && CutOff(fs, fs', ino) && SameShape(fs, fs', ino)
            && forall s :: Val(fs', ino, s) == if Under(12, s) then 0 else Val(fs, ino, s)
  {
    hide Unshared, Balance;
    var b := fs.nodes[ino].blocks[12];
    var fs' := SetEntry(Freed(fs, b), ino, 12, 0);
    assert FreedAll(fs, [b]) == Freed(FreedAll(fs, []), b) by {
      assert [b][..0] == [];
    }
    CutRoot(fs, fs', ino, 12);
    assert Val(fs, ino, Sib) == b && Val(fs', ino, Sib) == 0;
    CutKeeps(fs, fs', ino, [b]);
  }

  /** All second-level index blocks of a file, as the doubly indirect block lists them. */
  ghost function Outers(fs: Fs, ino: nat, n: nat): seq<nat>
    requires n <= PTRS && ino in fs.nodes
  {
    seq(n, k requires 0 <= k < n => Val(fs, ino, Outer(k)))
  }

  lemma OutersHeld(fs: Fs, fs': Fs, ino: nat, b: nat)
    requires ino in fs.nodes && b in Outers(fs, ino, PTRS) + [fs.nodes[ino].blocks[13]]
    requires forall s :: Val(fs', ino, s) == if Under(13, s) then 0 else Val(fs, ino, s)
    ensures exists s :: Val(fs, ino, s) == b && Val(fs', ino, s) == 0
  {
    var os := Outers(fs, ino, PTRS);
    if b in os {
      var k :| 0 <= k < |os| && os[k] == b;
      assert Val(fs, ino, Outer(k)) == b && Val(fs', ino, Outer(k)) == 0;
    } else {
      assert Val(fs, ino, Dib) == b && Val(fs', ino, Dib) == 0;
    }
  }

  /** Dropping the double index with all its second-level blocks. */
  lemma DropDib(fs: Fs, mid: Fs, ino: nat)
    requires Inv(fs, 0) && ino in fs.nodes && fs.nodes[ino].blocks[13] != 0
    requires mid == Freed(FreedAll(fs, Outers(fs, ino, PTRS)), fs.nodes[ino].blocks[13])
    ensures ino in mid.nodes && 0 < ino <= |mid.inodes|
    ensures var fs' := SetEntry(mid, ino, 13, 0);
            && Inv(fs', 0) && Balance(fs') == Balance(fs) && CutOff(fs, fs', ino) && SameShape(fs, fs', ino)
            && forall s :: Val(fs', ino, s) == if Under(13, s) then 0 else Val(fs, ino, s)
  {
    hide Unshared, Balance, Freed;
    var dib := fs.nodes[ino].blocks[13];
    var os := Outers(fs, ino, PTRS);
    var bs := os + [dib];
    assert FreedAll(fs, bs) == mid by {
      assert bs[..|os|] == os;
    }
    FreedAllKeeps(fs, bs);
    var fs' := SetEntry(mid, ino, 13, 0);
    CutRoot(fs, fs', ino, 13);
    forall b | b in bs && b != 0 ensures exists s :: Val(fs, ino, s) == b && Val(fs', ino, s) == 0 {
      OutersHeld(fs, fs', ino, b);
    }
    CutKeeps(fs, fs', ino, bs);
  }

  /** Removing a node frees at most its direct blocks; what hangs under its index roots is no longer reachable. */
  lemma Removed(fs: Fs, fs': Fs, ino: nat, bs: seq<nat>)
    requires Inv(fs, 0) && ino in fs.nodes && bs <= fs.nodes[ino].blocks[..DIRECT]
    requires fs'.reserved == fs.reserved && fs'.disk == fs.disk && fs'.nodes == fs.nodes - {ino}
    requires fs'.bitmap == FreedAll(fs, bs).bitmap && fs'.free == FreedAll(fs, bs).free
    requires |fs'.inodes| == |fs.inodes| && |fs'.inodeMap| == |fs.inodeMap|
    requires forall k :: 0 <= k < |fs.inodes| && k != ino - 1 ==> fs'.inodes[k] == fs.inodes[k]
    requires forall k :: 0 <= k < |fs.inodeMap| && k != ino - 1 ==> fs'.inodeMap[k] == fs.inodeMap[k]
    ensures Inv(fs', 0) && Balance(fs') == Balance(fs)
    ensures forall f, s :: f != ino ==> Val(fs', f, s) == Val(fs, f, s)
  {
    forall b | b in bs && b != 0 ensures exists s :: Val(fs, ino, s) == b && Val(fs', ino, s) == 0 {
      var k :| 0 <= k < |bs| && bs[k] == b;
      assert Val(fs, ino, Data(k)) == b && Val(fs', ino, Data(k)) == 0;
    }
    CutKeeps(fs, fs', ino, bs);
  }

  /** A node for an unused inode starts with no blocks. */
  lemma Created(fs: Fs, fs': Fs, ino: nat)
    requires Inv(fs, 0) && 0 < ino <= |fs.inodes| && ino <= BITMAP_BITS && !fs.inodeMap[ino - 1]
    requires fs' == fs.(inodeMap := fs.inodeMap[ino - 1 := true],
                        inodes := fs.inodes[ino - 1 := Inode(0, 0, 1, NoBlocks())],
                        nodes := fs.nodes[ino := Node(0, NoBlocks())])
    ensures ino !in fs.nodes && Inv(fs', 0) && Balance(fs') == Balance(fs)
    ensures forall f, s :: Val(fs', f, s) == Val(fs, f, s)
  {
    Shrink(fs, fs', 0);
  }
}
