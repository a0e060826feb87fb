/**
  On-disk layout of the ext2 block layer: blocks of bytes, little-endian block
  pointers, and the direct / singly indirect / doubly indirect index of a file.
  Block numbers accepted by ext2_is_valid_block are exactly those b with
  0 < b < |disk|.
 */
module Ext2Disk {
  import opened Common

  const BLOCK_SIZE: nat := 1024
  const PTRS: nat := 256
  const DIRECT: nat := 12
  const FIRST_DOUBLE: nat := 268
  const MAX_BLOCKS: nat := 65804
  const BITMAP_BITS: nat := 8192

  type Block = b: seq<Byte> | |b| == 1024 witness seq(1024, _ => 0)
  type BlockTable = t: seq<nat> | |t| == 15 witness seq(15, _ => 0)

  function ZeroBlock(): (b: Block)
    ensures forall k :: 0 <= k < 1024 ==> b[k] == 0
  {
    seq(1024, _ => 0)
  }

  function NoBlocks(): (t: BlockTable)
    ensures forall k :: 0 <= k < 15 ==> t[k] == 0
  {
    seq(15, _ => 0)
  }

  /** The k-th 32-bit little-endian pointer of an index block. */
  function Ptr(b: Block, k: nat): nat
    requires k < PTRS
  {
    var b0: int, b1: int, b2: int, b3: int := b[4 * k], b[4 * k + 1], b[4 * k + 2], b[4 * k + 3];
    b0 + 0x100 * b1 + 0x1_0000 * b2 + 0x100_0000 * b3
  }

  function SetPtr(b: Block, k: nat, v: nat): Block
    requires k < PTRS && v < 0x1_0000_0000
  {
    b[4 * k := v % 0x100]
     [4 * k + 1 := v / 0x100 % 0x100]
     [4 * k + 2 := v / 0x1_0000 % 0x100]
     [4 * k + 3 := v / 0x100_0000]
  }

  lemma PtrAfterSet(b: Block, k: nat, v: nat, j: nat)
    requires k < PTRS && j < PTRS && v < 0x1_0000_0000
    ensures Ptr(SetPtr(b, k, v), j) == if j == k then v else Ptr(b, j)
  {
    var b' := SetPtr(b, k, v);
    if j == k {
      assert b'[4 * k] == v % 0x100 && b'[4 * k + 1] == v / 0x100 % 0x100;
      assert b'[4 * k + 2] == v / 0x1_0000 % 0x100 && b'[4 * k + 3] == v / 0x100_0000;
      WordBytes(v);
    } else {
      assert 4 * j + 3 < 4 * k || 4 * k + 3 < 4 * j;
      assert b'[4 * j] == b[4 * j] && b'[4 * j + 1] == b[4 * j + 1];
      assert b'[4 * j + 2] == b[4 * j + 2] && b'[4 * j + 3] == b[4 * j + 3];
    }
  }

  lemma WordBytes(v: nat)
    ensures v == v % 0x100 + 0x100 * (v / 0x100 % 0x100) + 0x1_0000 * (v / 0x1_0000 % 0x100) + 0x100_0000 * (v / 0x100_0000)
  {
    var q := v / 0x100;
    var r := q / 0x100;
    assert v / 0x1_0000 == r && v / 0x100_0000 == r / 0x100;
  }

  function Put(t: BlockTable, k: nat, v: nat): BlockTable
    requires k < 15
  {
    t[k := v]
  }

  /** Pointer k read through block x; an absent or invalid x reads as 0. */
  function IndexPtr(disk: seq<Block>, x: nat, k: nat): nat
    requires k < PTRS
  {
    if 0 < x < |disk| then Ptr(disk[x], k) else 0
  }

  /** ext2_get_block_num. */
  function Get(disk: seq<Block>, t: BlockTable, i: nat): nat
  {
    if i < DIRECT then t[i]
    else if i < FIRST_DOUBLE then IndexPtr(disk, t[12], i - DIRECT)
    else if i < MAX_BLOCKS then
      IndexPtr(disk, IndexPtr(disk, t[13], (i - FIRST_DOUBLE) / PTRS), (i - FIRST_DOUBLE) % PTRS)
    else 0
  }

  /** Every place of a file's tree that can hold a block number. */
  datatype Slot = Data(i: nat) | Sib | Dib | Outer(k: nat)

  function SlotVal(disk: seq<Block>, t: BlockTable, s: Slot): nat
  {
    match s
    case Data(i) => Get(disk, t, i)
    case Sib => t[12]
    case Dib => t[13]
    case Outer(k) => if k < PTRS then IndexPtr(disk, t[13], k) else 0
  }

  /** A disk that keeps a file's index blocks keeps the whole index. */
  lemma FrameSlots(disk: seq<Block>, disk': seq<Block>, t: BlockTable)
    requires |disk'| == |disk|
    requires forall s: Slot :: !s.Data? && 0 < SlotVal(disk, t, s) < |disk| ==>
                           disk'[SlotVal(disk, t, s)] == disk[SlotVal(disk, t, s)]
    ensures forall s :: SlotVal(disk', t, s) == SlotVal(disk, t, s)
  {
    forall s ensures SlotVal(disk', t, s) == SlotVal(disk, t, s) {
      assert SlotVal(disk, t, Sib) == t[12] && SlotVal(disk, t, Dib) == t[13];
      if s.Data? && FIRST_DOUBLE <= s.i < MAX_BLOCKS {
        var o := (s.i - FIRST_DOUBLE) / PTRS;
        assert SlotVal(disk, t, Outer(o)) == IndexPtr(disk, t[13], o);
      }
    }
  }

  /** Writing data entry i of the pointer block that holds it changes slot Data(i) alone. */
  lemma SetSingle(disk: seq<Block>, t: BlockTable, i: nat, v: nat)
    requires DIRECT <= i < FIRST_DOUBLE && v < 0x1_0000_0000
    requires 0 < t[12] < |disk|
    requires forall s :: s != Sib ==> SlotVal(disk, t, s) != t[12]
    ensures var disk' := disk[t[12] := SetPtr(disk[t[12]], i - DIRECT, v)];
            forall s :: SlotVal(disk', t, s) == if s == Data(i) then v else SlotVal(disk, t, s)
  {
    var disk' := disk[t[12] := SetPtr(disk[t[12]], i - DIRECT, v)];
    forall s ensures SlotVal(disk', t, s) == if s == Data(i) then v else SlotVal(disk, t, s) {
      assert SlotVal(disk, t, Dib) == t[13];
      if s.Data? && DIRECT <= s.i < FIRST_DOUBLE {
        PtrAfterSet(disk[t[12]], i - DIRECT, v, s.i - DIRECT);
      } else if s.Data? && FIRST_DOUBLE <= s.i < MAX_BLOCKS {
        var o := (s.i - FIRST_DOUBLE) / PTRS;
        assert SlotVal(disk, t, Outer(o)) == IndexPtr(disk, t[13], o);
      }
    }
  }

  lemma SetDouble(disk: seq<Block>, t: BlockTable, i: nat, v: nat)
    requires FIRST_DOUBLE <= i < MAX_BLOCKS && v < 0x1_0000_0000
    requires var x := SlotVal(disk, t, Outer((i - FIRST_DOUBLE) / PTRS));
             0 < x < |disk| && forall s :: s != Outer((i - FIRST_DOUBLE) / PTRS) ==> SlotVal(disk, t, s) != x
    ensures var x := SlotVal(disk, t, Outer((i - FIRST_DOUBLE) / PTRS));
            var disk' := disk[x := SetPtr(disk[x], (i - FIRST_DOUBLE) % PTRS, v)];
            forall s :: SlotVal(disk', t, s) == if s == Data(i) then v else SlotVal(disk, t, s)
  {
    var o := (i - FIRST_DOUBLE) / PTRS;
    var x := SlotVal(disk, t, Outer(o));
    var disk' := disk[x := SetPtr(disk[x], (i - FIRST_DOUBLE) % PTRS, v)];
    assert SlotVal(disk, t, Dib) == t[13] && SlotVal(disk, t, Sib) == t[12];
    forall s ensures SlotVal(disk', t, s) == if s == Data(i) then v else SlotVal(disk, t, s) {
      if s.Data? && FIRST_DOUBLE <= s.i < MAX_BLOCKS {
        var o2 := (s.i - FIRST_DOUBLE) / PTRS;
        assert SlotVal(disk, t, Outer(o2)) == IndexPtr(disk, t[13], o2);
        if o2 == o {
          PtrAfterSet(disk[x], (i - FIRST_DOUBLE) % PTRS, v, (s.i - FIRST_DOUBLE) % PTRS);
        }
      }
    }
  }

  /** Hanging a zeroed block n under an empty Outer(o) entry changes slot Outer(o) alone. */
  lemma SetOuter(disk: seq<Block>, t: BlockTable, o: nat, n: nat)
    requires o < PTRS && n < 0x1_0000_0000
    requires 0 < t[13] < |disk| && 0 < n < |disk| && disk[n] == ZeroBlock()
    requires SlotVal(disk, t, Outer(o)) == 0
    requires forall s :: SlotVal(disk, t, s) != n && (s != Dib ==> SlotVal(disk, t, s) != t[13])
    ensures var disk' := disk[t[13] := SetPtr(disk[t[13]], o, n)];
            forall s :: SlotVal(disk', t, s) == if s == Outer(o) then n else SlotVal(disk, t, s)
  {
    var disk' := disk[t[13] := SetPtr(disk[t[13]], o, n)];
    assert SlotVal(disk, t, Dib) == t[13] && SlotVal(disk, t, Sib) == t[12];
    forall s ensures SlotVal(disk', t, s) == if s == Outer(o) then n else SlotVal(disk, t, s) {
      if s.Outer? && s.k < PTRS {
        PtrAfterSet(disk[t[13]], o, n, s.k);
      } else if s.Data? && FIRST_DOUBLE <= s.i < MAX_BLOCKS {
        var o2 := (s.i - FIRST_DOUBLE) / PTRS;
        PtrAfterSet(disk[t[13]], o, n, o2);
        assert SlotVal(disk, t, Outer(o2)) == IndexPtr(disk, t[13], o2);
      }
    }
  }

  /** Hanging a zeroed block under an empty table entry changes that one slot. */
  lemma SetRoot(disk: seq<Block>, t: BlockTable, s0: Slot, n: nat)
    requires s0 == Sib || s0 == Dib
    requires SlotVal(disk, t, s0) == 0
    requires 0 < n < |disk| && disk[n] == ZeroBlock()
    ensures forall s :: SlotVal(disk, Put(t, if s0 == Sib then 12 else 13, n), s)
                        == if s == s0 then n else SlotVal(disk, t, s)
  {
  }

  lemma SetDirect(disk: seq<Block>, t: BlockTable, i: nat, v: nat)
    requires i < DIRECT
    ensures forall s :: SlotVal(disk, Put(t, i, v), s) == if s == Data(i) then v else SlotVal(disk, t, s)
  {
  }
}
