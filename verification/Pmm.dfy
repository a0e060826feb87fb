/** The physical page allocator: a lowest-first bitmap allocator with 16-bit reference counts. */
module Pmm {
  import opened Common
  import opened PmmBits

  datatype Outcome = Done | Panic

  datatype Op =
    | Alloc
    | AllocRun(count: nat)
    | FreeOne(addr: nat)
    | FreeRange(base: nat, n: nat)
    | Share(page: nat)

  /** Pages first, first + 1, ..., end - 1. */
  datatype Range = Range(first: nat, end: nat) {
    predicate Has(i: nat)
    {
      first <= i < end
    }
  }

  predicate InSome(ranges: seq<Range>, i: nat)
  {
    exists k :: 0 <= k < |ranges| && ranges[k].Has(i)
  }

  /** Trampolines live in the first 256 pages, and at most 16 of them are kept. */
  const LOW_PAGES: nat := 256
  const POOL_SIZE: nat := 16

  class Allocator {
    const total: nat
    const pageBitmap: array<bv8>
    const managedBitmap: array<bv8>
    const refs: array<int>
    var freePages: int
    var pool: seq<nat>

    ghost predicate Shape()
    {
      && total <= 8 * pageBitmap.Length && total <= 8 * managedBitmap.Length
      && refs.Length == total && pageBitmap != managedBitmap
      && refs as object !in {pageBitmap as object, managedBitmap as object}
    }

    ghost function Used(): (r: seq<bool>)
      requires Shape()
      reads pageBitmap
      ensures |r| == total
    {
      Bits(pageBitmap[..], total)
    }

    ghost function Managed(): (r: seq<bool>)
      requires Shape()
      reads managedBitmap
      ensures |r| == total
    {
      Bits(managedBitmap[..], total)
    }

    /** What the initialisation keeps: only managed pages are clear, counts fit their width. */
    ghost predicate Core()
      reads this, pageBitmap, managedBitmap, refs
    {
      && Shape()
      && (forall i :: 0 <= i < total ==> 0 <= refs[i] < WIDTH)
      && (forall i :: 0 <= i < total ==> Used()[i] || Managed()[i])
    }

    /** And page 0 is never handed out, so address 0 can mean failure. */
    ghost predicate Valid()
      reads this, pageBitmap, managedBitmap, refs
    {
      Core() && (total > 0 ==> Used()[0] && !Managed()[0])
    }

    /** How far the counter is ahead of the number of clear bits. */
    ghost function Surplus(): int
      requires Shape()
      reads this, pageBitmap
    {
      freePages - Clear(Used())
    }

    /** The page as its own little state machine. */
    ghost function PageAt(i: nat): Page
      requires Core() && i < total
      reads this, pageBitmap, managedBitmap, refs
    {
      Page(Used()[i], refs[i])
    }

    method TestBit(bm: array<bv8>, i: nat) returns (b: bool)
      requires i < 8 * bm.Length
      ensures b == Test(bm[..], i)
    {
      b := bm[i / 8] & Mask(i % 8) != 0;
    }

    method SetUsed(i: nat)
      requires Shape() && i < total
      modifies pageBitmap
      ensures Used() == old(Used())[i := true]
    {
      BitsUpdated(pageBitmap[..], total, i);
      assert pageBitmap[..][i / 8] == pageBitmap[i / 8];
      ghost var was := pageBitmap[..];
      pageBitmap[i / 8] := pageBitmap[i / 8] | Mask(i % 8);
      assert pageBitmap[..] == SetBit(was, i);
    }

    method ClearUsed(i: nat)
      requires Shape() && i < total
      modifies pageBitmap
      ensures Used() == old(Used())[i := false]
    {
      BitsUpdated(pageBitmap[..], total, i);
      ghost var was := pageBitmap[..];
      pageBitmap[i / 8] := pageBitmap[i / 8] & !Mask(i % 8);
      assert pageBitmap[..] == ClearBit(was, i);
    }

    method IsFree(i: nat) returns (b: bool)
      requires Shape() && i < total
      ensures b == FreeAt(Used(), Managed(), i)
    {
      var m := TestBit(managedBitmap, i);
      var u := TestBit(pageBitmap, i);
      b := m && !u;
    }

    // ---------- allocation ----------

    method FindPage() returns (found: bool, i: nat)
      requires Shape()
      ensures found ==> FreeAt(Used(), Managed(), i) && forall j :: 0 <= j < i ==> !FreeAt(Used(), Managed(), j)
      ensures !found ==> forall j :: 0 <= j < total ==> !FreeAt(Used(), Managed(), j)
    {
      i := 0;
      while i < total
        invariant i <= total && forall j :: 0 <= j < i ==> !FreeAt(Used(), Managed(), j)
      {
        found := IsFree(i);
        if found {
          return;
        }
        i := i + 1;
      }
      found := false;
    }

    /** The lowest free page; address 0 exactly when there is none. */
    method AllocPage() returns (addr: nat)
      requires Valid()
      modifies this`freePages, pageBitmap, refs
      ensures Valid() && Managed() == old(Managed()) && Surplus() == old(Surplus())
      ensures addr == 0 <==> forall i :: 0 <= i < total ==> !FreeAt(old(Used()), old(Managed()), i)
      ensures addr == 0 ==> Used() == old(Used()) && refs[..] == old(refs[..]) && freePages == old(freePages)
      ensures addr != 0 ==>
        var i := addr / PAGE;
        && addr == i * PAGE && FreeAt(old(Used()), old(Managed()), i)
        && (forall j :: 0 <= j < i ==> !FreeAt(old(Used()), old(Managed()), j))
        && Used() == old(Used())[i := true]
        && forall j :: 0 <= j < total ==> refs[j] == if j == i then 1 else old(refs[j])
    {
      hide Clear, Bits, Surplus;
      var found, i := FindPage();
      if !found {
        return 0;
      }
      assert i > 0;
      TakePage(i);
      addr := i * PAGE;
      assert addr / PAGE == i && addr > 0;
    }

    method TakePage(i: nat)
      requires Valid() && FreeAt(Used(), Managed(), i)
      modifies this`freePages, pageBitmap, refs
      ensures Valid() && Managed() == old(Managed()) && Surplus() == old(Surplus())
      ensures Used() == old(Used())[i := true]
      ensures forall j :: 0 <= j < total ==> refs[j] == if j == i then 1 else old(refs[j])
    {
      hide Clear, Bits;
      ClearUpdated(Used(), i, true);
      SetUsed(i);
      freePages := freePages - 1;
      refs[i] := 1;
    }

    method TakeRun(start: nat, count: nat)
      requires Shape() && start + count <= total
      modifies pageBitmap, refs
      ensures Used() == Taken(old(Used()), start, count)
      ensures forall i :: 0 <= i < total ==> refs[i] == if start <= i < start + count then 1 else old(refs[i])
    {
      var j := 0;
      while j < count
        invariant j <= count && Used() == Taken(old(Used()), start, j)
        invariant forall i :: 0 <= i < total ==> refs[i] == if start <= i < start + j then 1 else old(refs[i])
      {
        SetUsed(start + j);
        refs[start + j] := 1;
        j := j + 1;
      }
    }

    /** The first run of `count` free pages, scanning upwards. */
    method FindRun(count: nat) returns (found: bool, start: nat)
      requires Shape() && count > 0
      ensures found ==> FreeRun(Used(), Managed(), start, count)
      ensures found ==> forall s :: 0 <= s < start ==> !FreeRun(Used(), Managed(), s, count)
      ensures !found ==> forall s :: 0 <= s ==> !FreeRun(Used(), Managed(), s, count)
    {
      hide Bits, FreeAt, FreeRun;
      var length, i := 0, 0;
      start := 0;
      ghost var used, managed := Used(), Managed();
      ScanStarts(used, managed, count);
      while i < total
        invariant i <= total && used == Used() && managed == Managed()
        invariant length > 0 ==> start == i - length
        invariant Scanned(used, managed, count, i, length)
      {
        var free := IsFree(i);
        if !free {
          ScanBlocked(used, managed, count, i, length);
          length, i := 0, i + 1;
          continue;
        }
        ScanGrows(used, managed, count, i, length);
        if length == 0 {
          start := i;
        }
        length := length + 1;
        if length == count {
          return true, start;
        }
        i := i + 1;
      }
      ScanEnds(used, managed, count, i, length);
      found := false;
    }

    /** The lowest run of `count` free pages; address 0 exactly when there is none. */
    method AllocContiguous(count: nat) returns (addr: nat)
      requires Valid()
      modifies this`freePages, pageBitmap, refs
      ensures Valid() && Managed() == old(Managed()) && Surplus() == old(Surplus())
      ensures addr == 0 <==>
        count == 0 || forall s :: 0 <= s ==> !FreeRun(old(Used()), old(Managed()), s, count)
      ensures addr == 0 ==> Used() == old(Used()) && refs[..] == old(refs[..]) && freePages == old(freePages)
      ensures addr != 0 ==>
        var start := addr / PAGE;
        && addr == start * PAGE && FreeRun(old(Used()), old(Managed()), start, count)
        && (forall s :: 0 <= s < start ==> !FreeRun(old(Used()), old(Managed()), s, count))
        && Used() == Taken(old(Used()), start, count)
        && forall i :: 0 <= i < total ==> refs[i] == if start <= i < start + count then 1 else old(refs[i])
    {
      hide Clear, Bits, Surplus, FreeAt;
      if count == 0 || count > total {
        return 0;
      }
      var found, start := FindRun(count);
      if !found {
        return 0;
      }
      assert start > 0 by { NotZero(start, count); }
      hide FreeRun, Valid;
      TakeFound(start, count);
      addr := start * PAGE;
      assert addr / PAGE == start && addr > 0;
    }

    lemma NotZero(start: nat, count: nat)
      requires Valid() && count > 0 && FreeRun(Used(), Managed(), start, count)
      ensures start > 0
    {
      hide Bits;
      assert FreeAt(Used(), Managed(), start);
    }

    /** A free run of pages is marked, counted and no longer free. */
    method TakeFound(start: nat, count: nat)
      requires Valid() && count > 0 && FreeRun(Used(), Managed(), start, count)
      modifies this`freePages, pageBitmap, refs
      ensures Valid() && Managed() == old(Managed()) && Surplus() == old(Surplus())
      ensures Used() == Taken(old(Used()), start, count)
      ensures forall i :: 0 <= i < total ==> refs[i] == if start <= i < start + count then 1 else old(refs[i])
    {
      hide Clear, Bits;
      ClearTaken(Used(), Managed(), start, count);
      TakeRun(start, count);
      freePages := freePages - count;
    }

    // ---------- initialisation ----------

    method MarkFree(i: nat)
      requires Core()
      modifies this`freePages, pageBitmap, managedBitmap
      ensures Core() && Surplus() == old(Surplus())
      ensures i < total ==> Used() == old(Used())[i := false]
      ensures i >= total ==> Used() == old(Used())
    {
      hide Clear, Bits;
      if i >= total {
        return;
      }
      var used := TestBit(pageBitmap, i);
      if !used {
        return;
      }
      SetManaged(i);
      ClearUpdated(Used(), i, false);
      ClearUsed(i);
      freePages := freePages + 1;
    }

    method SetManaged(i: nat)
      requires Shape() && i < total
      modifies managedBitmap
      ensures Managed() == old(Managed())[i := true]
    {
      BitsUpdated(managedBitmap[..], total, i);
      ghost var was := managedBitmap[..];
      managedBitmap[i / 8] := managedBitmap[i / 8] | Mask(i % 8);
      assert managedBitmap[..] == SetBit(was, i);
    }

    method ClearManaged(i: nat)
      requires Shape() && i < total
      modifies managedBitmap
      ensures Managed() == old(Managed())[i := false]
    {
      BitsUpdated(managedBitmap[..], total, i);
      ghost var was := managedBitmap[..];
      managedBitmap[i / 8] := managedBitmap[i / 8] & !Mask(i % 8);
      assert managedBitmap[..] == ClearBit(was, i);
    }

    method MarkReserved(i: nat)
      requires Core()
      modifies this`freePages, pageBitmap, managedBitmap
      ensures Core() && Surplus() == old(Surplus())
      ensures i < total ==> Used() == old(Used())[i := true] && Managed() == old(Managed())[i := false]
      ensures i >= total ==> Used() == old(Used()) && Managed() == old(Managed())
    {
      hide Clear, Bits;
      if i >= total {
        return;
      }
      ClearUpdated(Used(), i, true);
      var used := TestBit(pageBitmap, i);
      if !used {
        freePages := freePages - 1;
      }
      ClearManaged(i);
      SetUsed(i);
    }

    method ReleaseRange(range: Range)
      requires Core()
      modifies this`freePages, pageBitmap, managedBitmap
      ensures Core() && Surplus() == old(Surplus())
      ensures forall i :: 0 <= i < total ==> Used()[i] == (old(Used())[i] && !range.Has(i))
    {
      hide Clear, Bits;
      var k := range.first;
      while k < range.end
        invariant range.first <= k && (k <= range.end || k == range.first)
        invariant Core() && Surplus() == old(Surplus())
        invariant forall i :: 0 <= i < total ==> Used()[i] == (old(Used())[i] && !(range.first <= i < k))
      {
        MarkFree(k);
        k := k + 1;
      }
    }

    method Release(usable: seq<Range>)
      requires Core()
      modifies this`freePages, pageBitmap, managedBitmap
      ensures Core() && Surplus() == old(Surplus())
      ensures forall i :: 0 <= i < total ==> Used()[i] == (old(Used())[i] && !InSome(usable, i))
    {
      hide Clear, Bits;
      var k := 0;
      while k < |usable|
        invariant k <= |usable| && Core() && Surplus() == old(Surplus())
        invariant forall i :: 0 <= i < total ==> Used()[i] == (old(Used())[i] && !InSome(usable[..k], i))
      {
        ReleaseRange(usable[k]);
        assert forall i: nat :: InSome(usable[..k + 1], i) <==> InSome(usable[..k], i) || usable[k].Has(i) by {
          SomeMore(usable, k);
        }
        k := k + 1;
      }
      assert usable[..k] == usable;
    }

    method Reserve(range: Range)
      requires Core()
      modifies this`freePages, pageBitmap, managedBitmap
      ensures Core() && Surplus() == old(Surplus())
      ensures forall i :: 0 <= i < total ==>
        && Used()[i] == (old(Used())[i] || range.Has(i))
        && Managed()[i] == (old(Managed())[i] && !range.Has(i))
    {
      hide Clear, Bits;
      var k := range.first;
      while k < range.end
        invariant range.first <= k && (k <= range.end || k == range.first)
        invariant Core() && Surplus() == old(Surplus())
        invariant forall i :: 0 <= i < total ==>
          && Used()[i] == (old(Used())[i] || range.first <= i < k)
          && Managed()[i] == (old(Managed())[i] && !(range.first <= i < k))
      {
        MarkReserved(k);
        k := k + 1;
      }
    }

    /** The pool holds pages that were free, and the counter still counts them. */
    ghost predicate Pooled(free: seq<bool>)
      reads this, pageBitmap, managedBitmap, refs
    {
      && Valid() && |free| == total && Surplus() == |pool|
      && forall i :: 0 <= i < total ==> (FreeAt(Used(), Managed(), i) <==> free[i] && i * PAGE !in pool)
    }

    /** One trampoline page leaves the clear bits but not the counter. */
    method Keep(i: nat, ghost free: seq<bool>)
      requires Pooled(free) && i < total && !Used()[i]
      modifies this`pool, pageBitmap, managedBitmap, refs
      ensures Pooled(free) && pool == old(pool) + [i * PAGE]
    {
      hide Clear, Bits;
      ClearUpdated(Used(), i, true);
      SetUsed(i);
      SetManaged(i);
      refs[i] := 1;
      pool := pool + [i * PAGE];
    }

    method KeepFrom(range: Range, count: nat, ghost free: seq<bool>)
      requires Pooled(free) && |pool| <= count
      modifies this`pool, pageBitmap, managedBitmap, refs
      ensures Pooled(free) && |pool| <= count
    {
      hide Clear, Bits;
      var end := if range.end > LOW_PAGES then LOW_PAGES else range.end;
      var i := range.first;
      while i < end && |pool| < count
        invariant Pooled(free) && |pool| <= count
      {
        if i >= total {
          break;
        }
        var used := TestBit(pageBitmap, i);
        if !used {
          Keep(i, free);
        }
        i := i + 1;
      }
    }

    method KeepTrampolines(usable: seq<Range>, trampolines: nat, ghost free: seq<bool>)
      requires Pooled(free) && pool == []
      modifies this`pool, pageBitmap, managedBitmap, refs
      ensures Pooled(free) && |pool| <= POOL_SIZE
    {
      var count := if trampolines > POOL_SIZE then POOL_SIZE else trampolines;
      var k := 0;
      while k < |usable| && |pool| < count
        invariant Pooled(free) && |pool| <= count
      {
        KeepFrom(usable[k], count, free);
        k := k + 1;
      }
    }

    method Populate(usable: seq<Range>, bitmap: Range, kernel: Range, trampolines: nat)
      requires Core() && Surplus() == 0 && pool == []
      requires forall i :: 0 <= i < total ==> Used()[i]
      modifies this, pageBitmap, managedBitmap, refs
      ensures Valid() && Surplus() == |pool| <= POOL_SIZE
      ensures forall i :: 0 <= i < total ==>
        (FreeAt(Used(), Managed(), i) <==>
           InSome(usable, i) && i != 0 && !bitmap.Has(i) && !kernel.Has(i) && i * PAGE !in pool)
    {
      hide Clear, Bits, InSome;
      Release(usable);
      Reserve(Range(0, 1));
      Reserve(bitmap);
      Reserve(kernel);
      ghost var free := seq(total, i requires 0 <= i < total =>
        InSome(usable, i) && i != 0 && !bitmap.Has(i) && !kernel.Has(i));
      KeepTrampolines(usable, trampolines, free);
    }

    /** Free pages are the usable ones not set aside; the counter is ahead by the trampoline pages. */
    constructor (pages: nat, usable: seq<Range>, bitmap: Range, kernel: Range, trampolines: nat)
      ensures Valid() && total == pages && Surplus() == |pool| <= POOL_SIZE
      ensures forall i :: 0 <= i < total ==>
        (FreeAt(Used(), Managed(), i) <==>
           InSome(usable, i) && i != 0 && !bitmap.Has(i) && !kernel.Has(i) && i * PAGE !in pool)
    {
      var bytes := (pages + 7) / 8;
      total := pages;
      pageBitmap := new bv8[bytes](_ => 0xFF);
      managedBitmap := new bv8[bytes](_ => 0xFF);
      refs := new int[pages](_ => 0);
      freePages := 0;
      pool := [];
      new;
      FullBits(pageBitmap[..], total);
      FullBits(managedBitmap[..], total);
      ClearNone(Used());
      hide Clear, Bits, InSome, FreeAt;
      Populate(usable, bitmap, kernel, trampolines);
    }

    // ---------- references and frees ----------

    /** Counts one more holder of a managed page; the count wraps at its width. */
    method RefPage(page: nat)
      requires Valid()
      modifies refs
      ensures Valid() && Used() == old(Used()) && Managed() == old(Managed()) && Surplus() == old(Surplus())
      ensures var i := page / PAGE;
        forall j :: 0 <= j < total ==>
          PageAt(j) == if j == i && Managed()[i] then Shared(old(PageAt(j))) else old(PageAt(j))
    {
      hide Clear, Bits;
      var i := page / PAGE;
      if i < total {
        var managed := TestBit(managedBitmap, i);
        if managed {
          refs[i] := (refs[i] + 1) % WIDTH;
        }
      }
    }

    /** Drops one holder; the page becomes free when none is counted any more. */
    method Drop(i: nat)
      requires Valid() && i < total && Used()[i] && Managed()[i]
      modifies this`freePages, pageBitmap, refs
      ensures Valid() && Managed() == old(Managed()) && Surplus() == old(Surplus())
      ensures forall j :: 0 <= j < total ==>
        PageAt(j) == if j == i then Freed(old(PageAt(j))) else old(PageAt(j))
    {
      hide Clear, Bits;
      if refs[i] > 0 {
        refs[i] := refs[i] - 1;
      }
      if refs[i] == 0 {
        ClearUpdated(Used(), i, false);
        ClearUsed(i);
        freePages := freePages + 1;
      }
    }

    predicate InRange(base: nat, count: nat)
    {
      base % PAGE == 0 && count > 0 && base / PAGE < total && count <= total - base / PAGE
    }

    /** Panics unless the page is managed and in use; drops one holder otherwise. */
    method FreePage(addr: nat) returns (r: Outcome)
      requires Valid()
      modifies this`freePages, pageBitmap, refs
      ensures Valid() && Managed() == old(Managed()) && Surplus() == old(Surplus())
      ensures var i := addr / PAGE;
        && (r.Done? <==> InRange(addr, 1) && old(Managed())[i] && old(Used())[i])
        && forall j :: 0 <= j < total ==>
          PageAt(j) == if r.Done? && j == i then Freed(old(PageAt(j))) else old(PageAt(j))
    {
      hide Clear, Bits, Freed;
      if !InRange(addr, 1) {
        return Panic;
      }
      var i := addr / PAGE;
      var managed := TestBit(managedBitmap, i);
      var used := TestBit(pageBitmap, i);
      if !managed || !used {
        return Panic;
      }
      Drop(i);
      r := Done;
    }

    ghost predicate AllHeld(start: nat, count: nat)
      requires Shape() && start + count <= total
      reads pageBitmap, managedBitmap
    {
      forall i :: start <= i < start + count ==> Managed()[i] && Used()[i]
    }

    method CheckHeld(start: nat, count: nat) returns (ok: bool)
      requires Shape() && start + count <= total
      ensures ok == AllHeld(start, count)
    {
      var i := 0;
      while i < count
        invariant i <= count && AllHeld(start, i)
      {
        var managed := TestBit(managedBitmap, start + i);
        var used := TestBit(pageBitmap, start + i);
        if !managed || !used {
          assert !(Managed()[start + i] && Used()[start + i]);
          return false;
        }
        i := i + 1;
      }
      ok := true;
    }

    /** Every page of the range is checked before any changes, so a panic leaves all as it was. */
    method FreeContiguous(base: nat, count: nat) returns (r: Outcome)
      requires Valid()
      modifies this`freePages, pageBitmap, refs
      ensures Valid() && Managed() == old(Managed()) && Surplus() == old(Surplus())
      ensures var start := base / PAGE;
        && (r.Done? <==> InRange(base, count) && old(AllHeld(start, count)))
        && forall j :: 0 <= j < total ==>
          PageAt(j) == if r.Done? && start <= j < start + count then Freed(old(PageAt(j))) else old(PageAt(j))
    {
      hide Clear, Bits, Freed;
      if !InRange(base, count) {
        return Panic;
      }
      var start := base / PAGE;
      var ok := CheckHeld(start, count);
      if !ok {
        return Panic;
      }
      var i := 0;
      while i < count
        invariant i <= count && Valid() && Managed() == old(Managed()) && Surplus() == old(Surplus())
        invariant forall j :: 0 <= j < total ==>
          PageAt(j) == if start <= j < start + i then Freed(old(PageAt(j))) else old(PageAt(j))
      {
        assert PageAt(start + i) == old(PageAt(start + i));
        Drop(start + i);
        i := i + 1;
      }
      r := Done;
    }

    /** References and frees of one managed page drive it through the page's own steps. */
    method RunPage(i: nat, ops: seq<PageOp>)
      requires Valid() && i < total && Managed()[i]
      modifies this`freePages, pageBitmap, refs
      ensures Valid() && Surplus() == old(Surplus())
      ensures PageAt(i) == After(old(PageAt(i)), ops)
      ensures forall j :: 0 <= j < total && j != i ==> PageAt(j) == old(PageAt(j))
    {
      hide Clear, Bits, Freed, Shared, After;
      ghost var p := PageAt(i);
      AfterNone(p);
      var k := 0;
      while k < |ops|
        invariant k <= |ops| && Valid() && Surplus() == old(Surplus()) && Managed() == old(Managed())
        invariant PageAt(i) == After(p, ops[..k])
        invariant forall j :: 0 <= j < total && j != i ==> PageAt(j) == old(PageAt(j))
      {
        AfterMore(p, ops, k);
        assert i * PAGE / PAGE == i && i * PAGE % PAGE == 0;
        match ops[k] {
          case Ref => RefPage(i * PAGE);
          case Free => var _ := FreePage(i * PAGE);
        }
        k := k + 1;
      }
      assert ops[..k] == ops;
    }

    /** Over every run the counter stays the same distance from the number of clear bits. */
    method Run(ops: seq<Op>)
      requires Valid()
      modifies this`freePages, pageBitmap, refs
      ensures Valid() && Managed() == old(Managed()) && Surplus() == old(Surplus())
    {
      hide Clear, Bits, Freed, Shared, FreeRun, Taken;
      var k := 0;
      while k < |ops|
        invariant k <= |ops| && Valid() && Managed() == old(Managed()) && Surplus() == old(Surplus())
      {
        match ops[k] {
          case Alloc => var _ := AllocPage();
          case AllocRun(count) => var _ := AllocContiguous(count);
          case FreeOne(addr) => var _ := FreePage(addr);
          case FreeRange(base, n) => var _ := FreeContiguous(base, n);
          case Share(page) => RefPage(page);
        }
        k := k + 1;
      }
    }
  }

  lemma SomeMore(ranges: seq<Range>, k: nat)
    requires k < |ranges|
    ensures forall i: nat :: InSome(ranges[..k + 1], i) <==> InSome(ranges[..k], i) || ranges[k].Has(i)
  {
  }

  lemma AfterNone(p: Page)
    ensures After(p, []) == p
  {
  }

  lemma AfterMore(p: Page, ops: seq<PageOp>, k: nat)
    requires k < |ops|
    ensures var q := After(p, ops[..k]);
            After(p, ops[..k + 1]) == match ops[k] case Ref => Shared(q) case Free => if q.used then Freed(q) else q
  {
    Prefixes(ops, k);
  }

  // ---------- the scan for a run ----------

  /** Below i there is no run of count pages, and exactly the last `length` pages are free. */
  ghost predicate Scanned(used: seq<bool>, managed: seq<bool>, count: nat, i: nat, length: nat)
    requires |used| == |managed|
  {
    && length < count && length <= i <= |used|
    && FreeRun(used, managed, i - length, length)
    && (i - length > 0 ==> !FreeAt(used, managed, i - length - 1))
    && forall s :: 0 <= s && s + count <= i ==> !FreeRun(used, managed, s, count)
  }

  lemma ScanStarts(used: seq<bool>, managed: seq<bool>, count: nat)
    requires |used| == |managed| && count > 0
    ensures Scanned(used, managed, count, 0, 0)
  {
  }

  lemma ScanBlocked(used: seq<bool>, managed: seq<bool>, count: nat, i: nat, length: nat)
    requires |used| == |managed| && i < |used| && Scanned(used, managed, count, i, length)
    requires !FreeAt(used, managed, i)
    ensures Scanned(used, managed, count, i + 1, 0)
  {
  }

  lemma ScanGrows(used: seq<bool>, managed: seq<bool>, count: nat, i: nat, length: nat)
    requires |used| == |managed| && i < |used| && Scanned(used, managed, count, i, length)
    requires FreeAt(used, managed, i)
    ensures length + 1 < count ==> Scanned(used, managed, count, i + 1, length + 1)
    ensures length + 1 == count ==>
      && FreeRun(used, managed, i - length, count)
      && forall s :: 0 <= s < i - length ==> !FreeRun(used, managed, s, count)
  {
  }

  lemma ScanEnds(used: seq<bool>, managed: seq<bool>, count: nat, i: nat, length: nat)
    requires |used| == |managed| == i && Scanned(used, managed, count, i, length)
    ensures forall s :: 0 <= s ==> !FreeRun(used, managed, s, count)
  {
  }
}
