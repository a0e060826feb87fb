/** The slab heap: kmalloc, kmalloc_aligned and kfree. */
module Heap {
  import opened Common
  import opened HeapModel

  /** The size with its header, in 64-bit arithmetic. */
  function WithHeader(size: nat): nat
  {
    (size + HEADER) % U64
  }

  /** A bin large enough for the wrapped sum holds the request exactly when the sum did not wrap. */
  lemma BinHoldsRequest(size: nat, bin: nat)
    requires size < U64 && bin < BINS && WithHeader(size) <= BinSize(bin)
    ensures size + HEADER <= BinSize(bin) <==> size + HEADER < U64
  {
  }

  /** A size whose sum wraps is given a chunk of 32 bytes. */
  lemma WrappedRequest()
    ensures WithHeader(U64 - 1) == 23 && BinSize(0) < WithHeader(U64 - 1) <= BinSize(1) < U64 - 1
  {
  }

  /** A chunk of the smallest bin is shorter than a header: writing one spoils the next chunk's link. */
  lemma ShortChunk(mem: Mem, a: nat, cell: Cell)
    requires a + BinSize(0) in mem
    ensures a + BinSize(0) !in Put(mem, a, cell)
  {
  }

  /**
    A bin for what kmalloc_aligned asks for holds header, padding, inner header and request exactly
    when no sum wrapped.
   */
  lemma AlignedTotalHolds(size: nat, alignment: nat, bin: nat)
    requires size < U64 && 8 <= alignment <= U64 / 2 && bin < BINS
    requires WithHeader((size + alignment + HEADER) % U64) <= BinSize(bin)
    ensures size + alignment + 2 * HEADER <= BinSize(bin) <==> size + alignment + 2 * HEADER < U64
  {
  }

  /** An aligned request of 2^64 - 40 bytes is given a chunk of 16. */
  lemma WrappedAligned()
    ensures (U64 - 40 + 8 + HEADER) % U64 == U64 - 8 && WithHeader(U64 - 8) == 16 == BinSize(0) < U64 - 40
  {
  }

  predicate PowerOfTwo(n: nat)
  {
    n == 1 || (n > 0 && n % 2 == 0 && PowerOfTwo(n / 2))
  }

  /** The next multiple of n from v on. */
  function AlignUp(v: nat, n: nat): (r: nat)
    requires n > 0
    ensures v <= r < v + n && r % n == 0
  {
    var q := (v + n - 1) / n;
    assert v + n - 1 == n * q + (v + n - 1) % n;
    QuotientIs(n * q, n, q, 0);
    n * q
  }

  /** An ordinary block: the pointer follows the block's own header. */
  ghost predicate Plain(blocks: Blocks, ptr: nat, size: nat)
  {
    && ptr >= HEADER && ptr - HEADER in blocks
    && blocks[ptr - HEADER].ptr == ptr && blocks[ptr - HEADER].size == size
  }

  /** No one holds this pointer yet. */
  ghost predicate Unheld(ranges: set<Range>, ptr: nat)
  {
    forall r :: r in ranges ==> r.ptr != ptr
  }

  // ---------- page frames ----------

  /** Every mapped page has a frame of its own among those the page allocator has given out. */
  ghost predicate Backed(pages: map<nat, nat>, frames: set<nat>)
  {
    && (forall v :: v in pages ==> pages[v] in frames)
    && (forall v, w :: v in pages && w in pages && pages[v] == pages[w] ==> v == w)
  }

  lemma BackedMore(pages: map<nat, nat>, frames: set<nat>, v: nat, f: nat)
    requires Backed(pages, frames) && f !in frames
    ensures Backed(pages[v := f], frames + {f})
  {
  }

  lemma BackedLess(pages: map<nat, nat>, frames: set<nat>, v: nat)
    requires Backed(pages, frames) && v in pages
    ensures pages[v] in frames && Backed(pages - {v}, frames - {pages[v]})
  {
  }

  /** Frames phys on, n of them, that the heap does not hold: what the page allocator hands out. */
  predicate Unused(frames: set<nat>, phys: nat, n: nat)
  {
    forall f :: f in frames ==> !(phys <= f < phys + n * PAGE)
  }

  /** n pages from base on mapped to n frames from phys on. */
  ghost function MapRun(pages: map<nat, nat>, base: nat, phys: nat, n: nat): map<nat, nat>
  {
    if n == 0 then pages else MapRun(pages, base, phys, n - 1)[base + (n - 1) * PAGE := phys + (n - 1) * PAGE]
  }

  ghost function FrameRun(phys: nat, n: nat): set<nat>
  {
    if n == 0 then {} else FrameRun(phys, n - 1) + {phys + (n - 1) * PAGE}
  }

  lemma {:induction false} FrameRunBelow(phys: nat, n: nat, f: nat)
    ensures f in FrameRun(phys, n) ==> phys <= f < phys + n * PAGE
  {
    if n > 0 {
      FrameRunBelow(phys, n - 1, f);
    }
  }

  lemma {:induction false} MapRunBacked(pages: map<nat, nat>, frames: set<nat>, base: nat, phys: nat, i: nat, n: nat)
    requires Backed(pages, frames) && Unused(frames, phys, n) && i <= n
    ensures Backed(MapRun(pages, base, phys, i), frames + FrameRun(phys, i))
  {
    if i > 0 {
      MapRunBacked(pages, frames, base, phys, i - 1, n);
      var f := phys + (i - 1) * PAGE;
      FrameRunBelow(phys, i - 1, f);
      assert (i - 1) * PAGE < n * PAGE;
      BackedMore(MapRun(pages, base, phys, i - 1), frames + FrameRun(phys, i - 1), base + (i - 1) * PAGE, f);
      assert frames + FrameRun(phys, i) == frames + FrameRun(phys, i - 1) + {f};
    }
  }

  lemma {:induction false} MapRunAt(pages: map<nat, nat>, base: nat, phys: nat, n: nat)
    ensures forall j :: 0 <= j < n ==>
      base + j * PAGE in MapRun(pages, base, phys, n) && MapRun(pages, base, phys, n)[base + j * PAGE] == phys + j * PAGE
    ensures forall v :: v in pages && v < base ==> v in MapRun(pages, base, phys, n)
  {
    if n > 0 {
      MapRunAt(pages, base, phys, n - 1);
    }
  }

  /** Off the run nothing changes. */
  lemma {:induction false} MapRunElsewhere(pages: map<nat, nat>, base: nat, phys: nat, n: nat, v: nat)
    requires forall j :: 0 <= j < n ==> v != base + j * PAGE
    ensures v in MapRun(pages, base, phys, n) ==> v in pages && MapRun(pages, base, phys, n)[v] == pages[v]
  {
    if n > 0 {
      assert v != base + (n - 1) * PAGE;
      MapRunElsewhere(pages, base, phys, n - 1, v);
    }
  }

  /** Page frames a request may ask for. */
  function FramesFor(size: nat): nat
  {
    var n := ((size + HEADER + PAGE - 1) % U64) / PAGE;
    if n == 0 then 1 else n
  }

  class Heap {
    var mem: Mem
    var slabs: map<nat, Slab>
    var bins: seq<seq<nat>>
    var top: nat
    var pages: map<nat, nat>
    /** Frames the page allocator counts as given to the heap. */
    var frames: set<nat>
    var allocations: nat
    var frees: nat
    ghost var blocks: Blocks
    ghost var lists: map<nat, seq<nat>>

    ghost predicate Valid()
      reads this
    {
      Inv(mem, slabs, bins, top, pages, blocks, lists) && Backed(pages, frames)
    }

    constructor ()
      ensures Valid() && Ranges(blocks) == {} && allocations == 0 && frees == 0
    {
      mem, slabs, pages, top, frames := map[], map[], map[], HEAP_START, {};
      bins := seq(BINS, _ => []);
      allocations, frees := 0, 0;
      blocks, lists := map[], map[];
    }

    method BinForSize(size: nat) returns (i: int)
      ensures -1 <= i < BINS
      ensures i == -1 ==> WithHeader(size) > 2048
      ensures i >= 0 ==> WithHeader(size) <= BinSize(i) && forall j :: 0 <= j < i ==> WithHeader(size) > BinSize(j)
    {
      i := 0;
      while i < BINS
        invariant 0 <= i <= BINS && forall j :: 0 <= j < i ==> WithHeader(size) > BinSize(j)
      {
        if WithHeader(size) <= BinSize(i) {
          return;
        }
        i := i + 1;
      }
      assert WithHeader(size) > BinSize(7);
      i := -1;
    }

    /** The chunk at `chunk`, above all others, goes onto the free list of the newest slab. */
    method AddChunk(s: nat, chunk: nat)
      requires Valid() && s in slabs && 1 <= slabs[s].bin < BINS && top == s + PAGE
      requires s + HEADER <= chunk && chunk + BinSize(slabs[s].bin) <= s + PAGE
      requires forall a :: a in blocks ==> a + blocks[a].bytes <= chunk
      modifies `mem, `slabs, `blocks, `lists
      ensures Valid() && Ranges(blocks) == old(Ranges(blocks))
      ensures s in slabs && slabs[s] == Slab(old(slabs[s].bin), old(slabs[s].freeChunks) + 1, chunk)
      ensures forall a :: a in blocks ==> a + blocks[a].bytes <= chunk + BinSize(slabs[s].bin)
    {
      hide Inv, Ranges, BinSize;
      ghost var k := Blk(BinSize(slabs[s].bin), s, slabs[s].bin, 0, 0);
      NextChunkFits(mem, slabs, bins, top, pages, blocks, lists, s, chunk, k);
      ChunkAdded(mem, slabs, bins, top, pages, blocks, lists, s, chunk);
      RangesSame(blocks, chunk, k);
      mem := Put(mem, chunk, Link(slabs[s].freeList));
      slabs := slabs[s := slabs[s].(freeChunks := slabs[s].freeChunks + 1, freeList := chunk)];
      blocks, lists := blocks[chunk := k], lists[s := [chunk] + lists[s]];
    }

    /** Cuts a fresh page into chunks, all on its free list. */
    method SlabCreate(bin: nat, phys: nat, mapped: bool) returns (s: nat)
      requires Valid() && 1 <= bin < BINS && phys !in frames
      modifies `mem, `slabs, `bins, `top, `pages, `frames, `blocks, `lists
      ensures Valid() && Ranges(blocks) == old(Ranges(blocks))
      ensures s == 0 <==> old(top) >= HEAP_END || phys == 0 || !mapped
      ensures s == 0 ==> slabs == old(slabs) && bins == old(bins)
      ensures s != 0 ==> s in slabs && slabs[s].bin == bin && slabs[s].freeChunks == (PAGE - HEADER) / BinSize(bin) > 0
    {
      hide Inv, Ranges, BinSize;
      if top >= HEAP_END || phys == 0 || !mapped {
        return 0;
      }
      s := top;
      Registered(mem, slabs, bins, top, pages, blocks, lists, bin, phys);
      BlocksBelow(mem, slabs, bins, top, pages, blocks, lists);
      slabs, bins := slabs[s := Slab(bin, 0, 0)], bins[bin := [s] + bins[bin]];
      BackedMore(pages, frames, s, phys);
      top, pages, frames := top + PAGE, pages[s := phys], frames + {phys};
      lists := lists[s := []];
      var chunk, available := s + HEADER, PAGE - HEADER;
      while available >= BinSize(bin)
        invariant Valid() && Ranges(blocks) == old(Ranges(blocks))
        invariant s in slabs && slabs[s].bin == bin && top == s + PAGE
        invariant s + HEADER <= chunk && chunk + available == s + PAGE && available >= 0
        invariant BinSize(bin) * slabs[s].freeChunks + available == PAGE - HEADER
        invariant forall a :: a in blocks ==> a + blocks[a].bytes <= chunk
        decreases available
      {
        AddChunk(s, chunk);
        chunk, available := chunk + BinSize(bin), available - BinSize(bin);
      }
      QuotientIs(PAGE - HEADER, BinSize(bin), slabs[s].freeChunks, available);
    }

    /** Pops the first free chunk of a slab of the bin, made first if there is none, and writes its header. */
    method SlabAlloc(bin: nat, size: nat, phys: nat, mapped: bool) returns (ptr: nat)
      requires Valid() && 1 <= bin < BINS && size + HEADER <= BinSize(bin) && phys !in frames
      modifies `mem, `slabs, `bins, `top, `pages, `frames, `blocks, `lists
      ensures Valid()
      ensures ptr == 0 ==> Ranges(blocks) == old(Ranges(blocks))
      ensures phys != 0 && mapped && old(top) < HEAP_END ==> ptr != 0
      ensures ptr != 0 ==> Ranges(blocks) == old(Ranges(blocks)) + {Range(ptr, size)}
      ensures ptr != 0 ==> Plain(blocks, ptr, size) && Unheld(old(Ranges(blocks)), ptr)
    {
      hide Inv, Ranges, BinSize;
      BinsFacts(mem, slabs, bins, top, pages, blocks, lists);
      var s: nat;
      if bins[bin] == [] {
        s := SlabCreate(bin, phys, mapped);
        if s == 0 {
          return 0;
        }
      } else {
        s := bins[bin][0];
        if slabs[s].freeChunks == 0 {
          s := SlabCreate(bin, phys, mapped);
          if s == 0 {
            return 0;
          }
        }
      }
      var a := slabs[s].freeList;
      ChunkTaken(mem, slabs, bins, top, pages, blocks, lists, s, a, size);
      FreshChunk(mem, slabs, bins, top, pages, blocks, lists, a);
      RangesGrow(blocks, a, blocks[a].(ptr := a + HEADER, size := size));
      slabs := slabs[s := Slab(bin, slabs[s].freeChunks - 1, mem[a].next)];
      mem := Put(mem, a, Hdr(bin, ALLOC, 0));
      blocks, lists := blocks[a := blocks[a].(ptr := a + HEADER, size := size)], lists[s := lists[s][1..]];
      ptr := a + HEADER;
    }

    /** Maps n fresh pages one by one; when one fails the ones before it are unmapped and all frames given back. */
    method MapPages(n: nat, phys: nat, failsAt: nat) returns (ok: bool)
      requires Valid() && n > 0 && Unused(frames, phys, n)
      modifies `top, `pages, `frames
      ensures ok <==> failsAt >= n
      ensures top == if ok then old(top) + n * PAGE else old(top)
      ensures forall v :: v in old(pages) && v < old(top) ==> v in pages
      ensures ok ==> forall i :: 0 <= i < n ==> old(top) + i * PAGE in pages && pages[old(top) + i * PAGE] == phys + i * PAGE
      ensures Backed(pages, frames) && (!ok ==> frames == old(frames))
    {
      hide Inv, Backed, Unused;
      var base, i, was := top, 0, frames;
      while i < n
        invariant i <= n && i <= failsAt && top == base + i * PAGE
        invariant pages == MapRun(old(pages), base, phys, i) && frames == was + FrameRun(phys, i)
      {
        if i == failsAt {
          MapRunAt(old(pages), base, phys, i);
          Unmap(base, i);
          top, frames := base, was;
          OnlyOld(old(pages), pages, was, base, phys, i);
          return false;
        }
        pages, frames := pages[top := phys + i * PAGE], frames + {phys + i * PAGE};
        top, i := top + PAGE, i + 1;
      }
      MapRunAt(old(pages), base, phys, n);
      MapRunBacked(old(pages), was, base, phys, n, n);
      ok := true;
    }

    static lemma OnlyOld(was: map<nat, nat>, pages: map<nat, nat>, frames: set<nat>, base: nat, phys: nat, n: nat)
      requires Backed(was, frames) && forall j :: 0 <= j < n ==> base + j * PAGE !in pages
      requires forall v :: v in pages ==> v in MapRun(was, base, phys, n) && pages[v] == MapRun(was, base, phys, n)[v]
      ensures Backed(pages, frames)
    {
      hide MapRun;
      forall v | v in pages ensures v in was && pages[v] == was[v] {
        MapRunElsewhere(was, base, phys, n, v);
      }
    }

    method Unmap(base: nat, n: nat)
      modifies `pages
      ensures forall v :: v in old(pages) && Apart(v, 1, base, n * PAGE) ==> v in pages
      ensures forall v :: v in pages ==> v in old(pages) && pages[v] == old(pages)[v]
      ensures forall j :: 0 <= j < n ==> base + j * PAGE !in pages
    {
      var j := 0;
      while j < n
        invariant j <= n && forall v :: v in old(pages) && Apart(v, 1, base, n * PAGE) ==> v in pages
        invariant forall v :: v in pages ==> v in old(pages) && pages[v] == old(pages)[v]
        invariant forall i :: 0 <= i < j ==> base + i * PAGE !in pages
      {
        assert j * PAGE < n * PAGE;
        pages := pages - {base + j * PAGE};
        j := j + 1;
      }
    }

    /** Large requests get pages of their own; the header keeps 16 bits of their number. */
    method DirectAlloc(size: nat, phys: nat, failsAt: nat) returns (ptr: nat)
      requires Valid() && size + HEADER < U64 && size > 2048 - HEADER && Unused(frames, phys, FramesFor(size))
      modifies `mem, `top, `pages, `frames, `blocks
      ensures Valid()
      ensures ptr == 0 ==> Ranges(blocks) == old(Ranges(blocks))
      ensures ptr != 0 ==> Ranges(blocks) == old(Ranges(blocks)) + {Range(ptr, size)}
      ensures ptr != 0 ==> Plain(blocks, ptr, size) && Unheld(old(Ranges(blocks)), ptr)
      ensures size < failsAt && size + HEADER + PAGE <= U64 && phys != 0 ==> ptr != 0
    {
      hide Inv, Ranges;
      var n := ((size + HEADER + PAGE - 1) % U64) / PAGE;
      BinsFacts(mem, slabs, bins, top, pages, blocks, lists);
      PagesHold(size, n);
      if n == 0 || phys == 0 {
        return 0;
      }
      var base := top;
      ghost var was := pages;
      var ok := MapPages(n, phys, failsAt);
      if !ok {
        TopRaised(mem, slabs, bins, top, top, was, pages, blocks, lists);
        return 0;
      }
      var count := n % 65536;
      ghost var k := Blk(n * PAGE, 0, count, base + HEADER, size);
      DirectAdded(mem, slabs, bins, base, was, pages, blocks, lists, n, count, size);
      FreshPages(mem, slabs, bins, base, was, blocks, lists);
      RangesGrow(blocks, base, k);
      mem := Put(mem, base, Hdr(count, DIRECT, 0));
      blocks := blocks[base := k];
      ptr := base + HEADER;
    }

    /** A block of at least `size` bytes, apart from every other live one; 0 when there is no memory. */
    method Kmalloc(size: nat, phys: nat, failsAt: nat) returns (ptr: nat)
      requires Valid() && size + HEADER < U64 && Unused(frames, phys, FramesFor(size))
      modifies this
      ensures Valid() && frees == old(frees)
      ensures ptr == 0 ==> Ranges(blocks) == old(Ranges(blocks)) && allocations == old(allocations)
      ensures ptr != 0 ==> Ranges(blocks) == old(Ranges(blocks)) + {Range(ptr, size)} && allocations == old(allocations) + 1
      ensures ptr != 0 ==> Plain(blocks, ptr, size) && Unheld(old(Ranges(blocks)), ptr)
      ensures size == 0 ==> ptr == 0
      ensures 0 < size < failsAt && size + HEADER + PAGE <= U64 && phys != 0 && old(top) < HEAP_END ==> ptr != 0
    {
      hide Inv, Ranges, BinSize;
      if size == 0 {
        return 0;
      }
      var bin := BinForSize(size);
      if bin >= 0 {
        SmallBin(size, bin);
        ptr := SlabAlloc(bin, size, phys, failsAt > 0);
      } else {
        ptr := DirectAlloc(size, phys, failsAt);
      }
      if ptr != 0 {
        allocations := allocations + 1;
      }
    }

    // ---------- kfree ----------

    /** The slab of the bin whose page holds the chunk; 0 when there is none. */
    method FindSlab(bin: nat, raw: nat) returns (s: nat)
      requires |bins| == BINS && bin < BINS && 0 !in bins[bin]
      ensures s != 0 ==> s in bins[bin] && s <= raw < s + PAGE
      ensures s == 0 ==> forall t :: t in bins[bin] ==> !(t <= raw < t + PAGE)
    {
      var j := 0;
      while j < |bins[bin]|
        invariant j <= |bins[bin]| && forall i :: 0 <= i < j ==> !(bins[bin][i] <= raw < bins[bin][i] + PAGE)
      {
        s := bins[bin][j];
        if s <= raw < s + PAGE {
          return;
        }
        j := j + 1;
      }
      s := 0;
    }

    /** A live chunk goes back to its own slab. */
    method FreeChunkAt(raw: nat, bin: nat) returns (panic: bool)
      requires Valid() && raw in blocks && blocks[raw].ptr == raw + HEADER && blocks[raw].slab != 0
      requires bin == blocks[raw].bin
      modifies `mem, `slabs, `blocks, `lists, `frees
      ensures !panic && Valid() && frees == old(frees) + 1
      ensures Ranges(blocks) == old(Ranges(blocks)) - {old(Range(raw + HEADER, blocks[raw].size))}
    {
      hide Inv, Ranges;
      ChunkHome(mem, slabs, bins, top, pages, blocks, lists, raw);
      var s := FindSlab(bin, raw);
      if s == 0 {
        return true;
      }
      OnePage(s, blocks[raw].slab, raw);
      ChunkGiven(mem, slabs, bins, top, pages, blocks, lists, s, raw);
      ghost var blocks' := blocks[raw := blocks[raw].(ptr := 0, size := 0)];
      Shrunk(mem, slabs, bins, top, pages, blocks, blocks', lists, raw);
      mem := Put(mem, raw, Link(slabs[s].freeList));
      slabs := slabs[s := slabs[s].(freeChunks := slabs[s].freeChunks + 1, freeList := raw)];
      blocks, lists := blocks', lists[s := [raw] + lists[s]];
      frees := frees + 1;
      panic := false;
    }

    /** pmm_free_page as the heap meets it: it panics for a frame that is not out. */
    method GiveBack(f: nat) returns (panic: bool)
      modifies `frames
      ensures panic <==> f !in old(frames)
      ensures frames == old(frames) - {f}
    {
      panic := f !in frames;
      frames := frames - {f};
    }

    /** Pages of a direct block are translated, unmapped and given back one by one. */
    method FreePagesAt(raw: nat, count: nat) returns (panic: bool, freed: seq<nat>)
      requires Valid() && raw in blocks && blocks[raw].ptr == raw + HEADER && blocks[raw].slab == 0
      requires count == blocks[raw].bin
      modifies `pages, `frames, `blocks, `frees
      ensures !panic && Valid() && frees == old(frees) + 1
      ensures Ranges(blocks) == old(Ranges(blocks)) - {old(Range(raw + HEADER, blocks[raw].size))}
      ensures |freed| == count && frames == old(frames) - (set f | f in freed)
      ensures forall i :: 0 <= i < count ==>
        raw + i * PAGE !in pages && raw + i * PAGE in old(pages) && freed[i] == old(pages)[raw + i * PAGE]
    {
      hide Inv, Ranges, Backed;
      DirectHome(mem, slabs, bins, top, pages, blocks, lists, raw);
      assert raw / PAGE * PAGE == raw;
      panic, freed := ReleasePages(raw / PAGE * PAGE, count);
      DirectRemoved(mem, slabs, bins, top, old(pages), pages, blocks, lists, raw);
      Shrunk(mem, slabs, bins, top, old(pages), blocks, blocks - {raw}, lists, raw);
      blocks := blocks - {raw};
      frees := frees + 1;
    }

    /** The loop of a direct free: a page that does not translate, or a frame that is not out, would panic. */
    method ReleasePages(base: nat, count: nat) returns (panic: bool, freed: seq<nat>)
      requires Backed(pages, frames) && forall i :: 0 <= i < count ==> base + i * PAGE in pages
      modifies `pages, `frames
      ensures !panic && |freed| == count && frames == old(frames) - (set f | f in freed) && Backed(pages, frames)
      ensures forall i :: 0 <= i < count ==> base + i * PAGE !in pages && freed[i] == old(pages)[base + i * PAGE]
      ensures forall v :: v in old(pages) && Apart(v, 1, base, count * PAGE) ==> v in pages
    {
      hide Backed;
      var i := 0;
      freed := [];
      while i < count
        invariant i <= count && |freed| == i && Backed(pages, frames)
        invariant frames == old(frames) - (set f | f in freed)
        invariant forall j :: 0 <= j < i ==> freed[j] == old(pages)[base + j * PAGE]
        invariant forall j :: 0 <= j < i ==> base + j * PAGE !in pages
        invariant forall j :: i <= j < count ==> base + j * PAGE in pages && pages[base + j * PAGE] == old(pages)[base + j * PAGE]
        invariant forall v :: v in old(pages) && Apart(v, 1, base, count * PAGE) ==> v in pages
      {
        if base + i * PAGE !in pages {
          return true, freed;
        }
        var frame := pages[base + i * PAGE];
        BackedLess(pages, frames, base + i * PAGE);
        freed := freed + [frame];
        assert i * PAGE < count * PAGE;
        pages := pages - {base + i * PAGE};
        panic := GiveBack(frame);
        if panic {
          return;
        }
        i := i + 1;
      }
      panic := false;
    }

    method FreeRaw(ptr: nat, ghost a: nat) returns (panic: bool)
      requires Valid() && a in blocks && ptr == blocks[a].ptr == a + HEADER
      modifies `mem, `slabs, `pages, `frames, `blocks, `lists, `frees
      ensures !panic && Valid() && frees == old(frees) + 1
      ensures Ranges(blocks) == old(Ranges(blocks)) - {old(Range(ptr, blocks[a].size))}
    {
      hide Inv, Ranges;
      HeaderOf(mem, slabs, bins, top, pages, blocks, lists, a);
      var raw := ptr - HEADER;
      var hdr := mem[raw];
      if hdr.magic == ALLOC {
        panic := FreeChunkAt(raw, hdr.bin);
      } else if hdr.magic == DIRECT {
        var given: seq<nat>;
        panic, given := FreePagesAt(raw, hdr.bin);
      } else {
        panic := true;
      }
    }

    /** Freeing a pointer some earlier call returned never panics and drops exactly its range. */
    method Kfree(ptr: nat, ghost size: nat) returns (panic: bool)
      requires Valid() && (ptr != 0 ==> Range(ptr, size) in Ranges(blocks))
      modifies `mem, `slabs, `pages, `frames, `blocks, `lists, `frees
      ensures !panic && Valid()
      ensures ptr == 0 ==> Ranges(blocks) == old(Ranges(blocks)) && frees == old(frees)
      ensures ptr != 0 ==> Ranges(blocks) == old(Ranges(blocks)) - {Range(ptr, size)} && frees == old(frees) + 1
    {
      hide Inv, Ranges;
      if ptr == 0 {
        return false;
      }
      ghost var a := OwnsRange(blocks, Range(ptr, size));
      HeaderOf(mem, slabs, bins, top, pages, blocks, lists, a);
      var raw := ptr - HEADER;
      var hdr := mem[raw];
      if hdr.magic == FREE {
        return true;
      }
      if hdr.magic == ALIGNED {
        Unaligned(mem, slabs, bins, top, pages, blocks, lists, a);
        BareRanges(mem, slabs, bins, top, pages, blocks, lists, a);
        mem := Put(mem, raw, hdr.(magic := FREE));
        blocks := blocks[a := blocks[a].(ptr := a + HEADER, size := 0)];
        panic := FreeRaw(hdr.base, a);
        return;
      }
      panic := FreeRaw(ptr, a);
    }

    // ---------- aligned blocks ----------

    method Padding(raw: nat, alignment: nat) returns (p: nat)
      requires alignment > 0
      ensures p % alignment == 0 && raw + HEADER <= p < raw + HEADER + alignment
    {
      p := AlignUp(raw, alignment);
      while p - raw < HEADER
        invariant raw <= p < raw + HEADER + alignment && p % alignment == 0
        decreases raw + HEADER - p
      {
        StillAligned(p, alignment);
        p := p + alignment;
      }
    }

    /** An aligned pointer with `size` bytes behind it, all inside one ordinary block. */
    method KmallocAligned(size: nat, alignment: nat, phys: nat, failsAt: nat) returns (ptr: nat)
      requires Valid() && size + AtLeast8(alignment) + 2 * HEADER < U64
      requires Unused(frames, phys, FramesFor(size + AtLeast8(alignment) + HEADER))
      modifies this
      ensures Valid() && frees == old(frees)
      ensures ptr == 0 ==> Ranges(blocks) == old(Ranges(blocks)) && allocations == old(allocations)
      ensures ptr != 0 ==> Ranges(blocks) == old(Ranges(blocks)) + {Range(ptr, size)} && allocations == old(allocations) + 1
      ensures ptr != 0 ==> Unheld(old(Ranges(blocks)), ptr)
      ensures ptr != 0 ==> PowerOfTwo(AtLeast8(alignment)) && ptr % AtLeast8(alignment) == 0
      ensures var total := size + AtLeast8(alignment) + HEADER;
        (PowerOfTwo(AtLeast8(alignment)) && total < failsAt && total + HEADER + PAGE <= U64
         && phys != 0 && old(top) < HEAP_END) ==> ptr != 0
    {
      hide Inv, Ranges, Unheld;
      var al := AtLeast8(alignment);
      if !PowerOfTwo(al) {
        return 0;
      }
      var total := size + al + HEADER;
      var raw := Kmalloc(total, phys, failsAt);
      if raw == 0 {
        return 0;
      }
      ptr := Padding(raw, al);
      ghost var a, k := raw - HEADER, blocks[raw - HEADER].(ptr := ptr, size := size);
      MadeAligned(mem, slabs, bins, top, pages, blocks, lists, a, ptr, size);
      AlignedRanges(mem, slabs, bins, top, pages, blocks, lists, old(Ranges(blocks)), a, ptr, size);
      mem := Put(mem, ptr - HEADER, Hdr(0, ALIGNED, raw));
      blocks := blocks[a := k];
    }

    /** Whatever a holder writes into its own bytes, the heap stays whole. */
    method Write(ptr: nat, size: nat, mem': Mem)
      requires Valid() && Range(ptr, size) in Ranges(blocks) && WroteWithin(mem, mem', ptr, ptr + size)
      modifies `mem
      ensures Valid() && mem == mem'
    {
      hide Inv, Ranges, WroteWithin;
      ghost var a := OwnsRange(blocks, Range(ptr, size));
      Written(mem, mem', slabs, bins, top, pages, blocks, lists, a);
      mem := mem';
    }

    /** Over every run, whatever the holders write, the live ranges stay apart and are counted exactly. */
    method Run(ops: seq<Op>) returns (live: map<nat, nat>)
      requires Valid() && Ranges(blocks) == {} && allocations == frees
      modifies this
      ensures Valid() && allocations - frees == |live|
      ensures forall r :: r in Ranges(blocks) <==> r.ptr in live && live[r.ptr] == r.size
      ensures forall p, q :: p in live && q in live && p != q ==> Apart(p, live[p], q, live[q])
    {
      live := map[];
      var k := 0;
      while k < |ops|
        invariant k <= |ops| && Valid() && Held(Ranges(blocks), live) && allocations - frees == |live|
      {
        live := Step(ops[k], live);
        k := k + 1;
      }
      forall p, q | p in live && q in live && p != q
        ensures Apart(p, live[p], q, live[q])
      {
        RangesApart(mem, slabs, top, pages, blocks, Range(p, live[p]), Range(q, live[q]));
      }
    }

    method Step(op: Op, live: map<nat, nat>) returns (live': map<nat, nat>)
      requires Valid() && Held(Ranges(blocks), live) && allocations - frees == |live|
      modifies this
      ensures Valid() && Held(Ranges(blocks), live') && allocations - frees == |live'|
    {
      hide Inv, Ranges, Unheld, Held;
      live' := live;
      var ptr: nat;
      match op {
        case Malloc(size, phys, failsAt) =>
          if size + HEADER < U64 && Unused(frames, phys, FramesFor(size)) {
            ptr := Kmalloc(size, phys, failsAt);
            if ptr != 0 {
              LiveMore(old(Ranges(blocks)), live, ptr, size);
              live' := live[ptr := size];
            }
          }
        case MallocAligned(size, alignment, phys, failsAt) =>
          var total := size + AtLeast8(alignment) + HEADER;
          if total + HEADER < U64 && Unused(frames, phys, FramesFor(total)) {
            ptr := KmallocAligned(size, alignment, phys, failsAt);
            if ptr != 0 {
              LiveMore(old(Ranges(blocks)), live, ptr, size);
              live' := live[ptr := size];
            }
          }
        case Free(p) =>
          if p in live && p != 0 {
            LiveLess(Ranges(blocks), live, p);
            var _ := Kfree(p, live[p]);
            live' := live - {p};
          }
        case WriteTo(p, mem') =>
          if p in live && WroteWithin(mem, mem', p, p + live[p]) {
            HeldRange(Ranges(blocks), live, p);
            Write(p, live[p], mem');
          }
      }
    }
  }

  datatype Op =
    | Malloc(size: nat, phys: nat, failsAt: nat)
    | MallocAligned(size: nat, alignment: nat, phys: nat, failsAt: nat)
    | Free(ptr: nat)
    | WriteTo(ptr: nat, mem': Mem)

  /** `live` lists exactly the live ranges. */
  ghost predicate Held(ranges: set<Range>, live: map<nat, nat>)
  {
    forall r :: r in ranges <==> r.ptr in live && live[r.ptr] == r.size
  }

  lemma HeldRange(ranges: set<Range>, live: map<nat, nat>, p: nat)
    requires Held(ranges, live) && p in live
    ensures Range(p, live[p]) in ranges
  {
  }

  lemma LiveMore(ranges: set<Range>, live: map<nat, nat>, p: nat, size: nat)
    requires Held(ranges, live) && Unheld(ranges, p)
    ensures Held(ranges + {Range(p, size)}, live[p := size]) && |live[p := size]| == |live| + 1
  {
    if p in live {
      HeldRange(ranges, live, p);
    }
    assert live[p := size].Keys == live.Keys + {p};
    assert |live| == |live.Keys| && |live[p := size]| == |live[p := size].Keys|;
  }

  lemma LiveLess(ranges: set<Range>, live: map<nat, nat>, p: nat)
    requires Held(ranges, live) && p in live
    ensures Range(p, live[p]) in ranges
    ensures Held(ranges - {Range(p, live[p])}, live - {p}) && |live - {p}| == |live| - 1
  {
  }

  function AtLeast8(n: nat): nat
  {
    if n < 8 then 8 else n
  }

  lemma StillAligned(p: nat, n: nat)
    requires n > 0 && p % n == 0
    ensures (p + n) % n == 0
  {
    assert p == n * (p / n);
    assert p + n == n * (p / n + 1);
    QuotientIs(p + n, n, p / n + 1, 0);
  }

  lemma MadeAligned(mem: Mem, slabs: map<nat, Slab>, bins: seq<seq<nat>>, top: nat, pages: map<nat, nat>,
                    blocks: Blocks, lists: map<nat, seq<nat>>, a: nat, p: nat, size: nat)
    requires Inv(mem, slabs, bins, top, pages, blocks, lists) && a in blocks && blocks[a].ptr == a + HEADER
    requires a + 2 * HEADER <= p && p + size <= a + HEADER + blocks[a].size
    ensures Inv(Put(mem, p - HEADER, Hdr(0, ALIGNED, a + HEADER)), slabs, bins, top, pages,
                blocks[a := blocks[a].(ptr := p, size := size)], lists)
  {
    assert TagOk(mem, a, blocks[a], pages);
    hide Inv;
    var mem' := Put(mem, p - HEADER, Hdr(0, ALIGNED, a + HEADER));
    PutWithin(mem, p - HEADER, Hdr(0, ALIGNED, a + HEADER));
    assert TagOk(mem', a, blocks[a].(ptr := p, size := size), pages);
    hide TagOk, Put, WroteWithin;
    LiveChanged(mem, mem', slabs, bins, top, pages, blocks, lists, a, p, size, p - HEADER, p);
  }

  /** The aligned range takes the place of the ordinary one. */
  lemma AlignedRanges(mem: Mem, slabs: map<nat, Slab>, bins: seq<seq<nat>>, top: nat, pages: map<nat, nat>,
                      blocks: Blocks, lists: map<nat, seq<nat>>, was: set<Range>, a: nat, p: nat, size: nat)
    requires Inv(mem, slabs, bins, top, pages, blocks, lists) && a in blocks && blocks[a].ptr == a + HEADER
    requires a + 2 * HEADER <= p && p + size <= a + HEADER + blocks[a].size
    requires Ranges(blocks) == was + {Range(a + HEADER, blocks[a].size)} && Unheld(was, a + HEADER)
    ensures Ranges(blocks[a := blocks[a].(ptr := p, size := size)]) == was + {Range(p, size)}
    ensures Unheld(was, p)
  {
    forall r | r in was
      ensures r.ptr != p
    {
      var b := OwnsRange(blocks, r);
      assert TagOk(mem, a, blocks[a], pages) && TagOk(mem, b, blocks[b], pages);
      assert a != b ==> Apart(a, blocks[a].bytes, b, blocks[b].bytes);
    }
    hide Inv, Ranges, Unheld;
    var k := blocks[a].(ptr := p, size := size);
    var bare := blocks[a := blocks[a].(ptr := 0, size := 0)];
    Shrunk(mem, slabs, bins, top, pages, blocks, bare, lists, a);
    RangesGrow(bare, a, k);
    assert bare[a := k] == blocks[a := k];
    assert was + {Range(a + HEADER, blocks[a].size)} - {Range(a + HEADER, blocks[a].size)} == was by {
      assert Unheld(was, a + HEADER);
      NotHeld(was, a + HEADER, blocks[a].size);
    }
  }

  lemma NotHeld(ranges: set<Range>, ptr: nat, size: nat)
    requires Unheld(ranges, ptr)
    ensures Range(ptr, size) !in ranges
  {
  }

  lemma Written(mem: Mem, mem': Mem, slabs: map<nat, Slab>, bins: seq<seq<nat>>, top: nat, pages: map<nat, nat>,
                blocks: Blocks, lists: map<nat, seq<nat>>, a: nat)
    requires Inv(mem, slabs, bins, top, pages, blocks, lists) && a in blocks && blocks[a].ptr != 0
    requires WroteWithin(mem, mem', blocks[a].ptr, blocks[a].ptr + blocks[a].size)
    ensures Inv(mem', slabs, bins, top, pages, blocks, lists)
  {
    var k := blocks[a];
    assert TagOk(mem, a, k, pages);
    hide Inv;
    assert TagOk(mem', a, k, pages);
    hide TagOk, WroteWithin;
    assert k.(ptr := k.ptr, size := k.size) == k && blocks[a := k] == blocks;
    LiveChanged(mem, mem', slabs, bins, top, pages, blocks, lists, a, k.ptr, k.size, k.ptr, k.ptr + k.size);
  }

  lemma FreshChunk(mem: Mem, slabs: map<nat, Slab>, bins: seq<seq<nat>>, top: nat, pages: map<nat, nat>,
                   blocks: Blocks, lists: map<nat, seq<nat>>, a: nat)
    requires Inv(mem, slabs, bins, top, pages, blocks, lists) && a in blocks && blocks[a].ptr == 0
    ensures Unheld(Ranges(blocks), a + HEADER)
  {
  }

  lemma FreshPages(mem: Mem, slabs: map<nat, Slab>, bins: seq<seq<nat>>, top: nat, pages: map<nat, nat>,
                   blocks: Blocks, lists: map<nat, seq<nat>>)
    requires Inv(mem, slabs, bins, top, pages, blocks, lists)
    ensures Unheld(Ranges(blocks), top + HEADER)
  {
  }

  // ---------- what the invariant says about one block ----------

  lemma HeaderOf(mem: Mem, slabs: map<nat, Slab>, bins: seq<seq<nat>>, top: nat, pages: map<nat, nat>,
                 blocks: Blocks, lists: map<nat, seq<nat>>, a: nat)
    requires Inv(mem, slabs, bins, top, pages, blocks, lists) && a in blocks && blocks[a].ptr != 0
    ensures a > 0 && a + HEADER <= blocks[a].ptr && a in mem
    ensures mem[a] == Hdr(blocks[a].bin, if blocks[a].slab != 0 then ALLOC else DIRECT, 0)
    ensures blocks[a].ptr != a + HEADER ==>
      && blocks[a].ptr - HEADER in mem && mem[blocks[a].ptr - HEADER] == Hdr(0, ALIGNED, a + HEADER)
  {
  }

  lemma ChunkHome(mem: Mem, slabs: map<nat, Slab>, bins: seq<seq<nat>>, top: nat, pages: map<nat, nat>,
                  blocks: Blocks, lists: map<nat, seq<nat>>, a: nat)
    requires Inv(mem, slabs, bins, top, pages, blocks, lists) && a in blocks && blocks[a].slab != 0
    ensures var k := blocks[a];
      && |bins| == BINS && k.bin < BINS && k.slab in slabs && k.slab in bins[k.bin] && 0 !in bins[k.bin]
      && k.slab <= a < k.slab + PAGE && k.slab % PAGE == 0
      && forall t :: t in bins[k.bin] ==> t in slabs && t % PAGE == 0
  {
  }

  lemma DirectHome(mem: Mem, slabs: map<nat, Slab>, bins: seq<seq<nat>>, top: nat, pages: map<nat, nat>,
                   blocks: Blocks, lists: map<nat, seq<nat>>, a: nat)
    requires Inv(mem, slabs, bins, top, pages, blocks, lists)
    requires a in blocks && blocks[a].slab == 0 && blocks[a].ptr != 0
    ensures a % PAGE == 0 && blocks[a].bin * PAGE <= blocks[a].bytes
    ensures forall i :: 0 <= i < blocks[a].bin ==> a + i * PAGE in pages
  {
  }

  lemma OnePage(s: nat, t: nat, raw: nat)
    requires s % PAGE == 0 && t % PAGE == 0 && s <= raw < s + PAGE && t <= raw < t + PAGE
    ensures s == t
  {
  }

  /** Dropping a live block drops its range and no other. */
  lemma Shrunk(mem: Mem, slabs: map<nat, Slab>, bins: seq<seq<nat>>, top: nat, pages: map<nat, nat>,
               blocks: Blocks, blocks': Blocks, lists: map<nat, seq<nat>>, a: nat)
    requires Inv(mem, slabs, bins, top, pages, blocks, lists) && a in blocks && blocks[a].ptr != 0
    requires (a in blocks' ==> blocks'[a].ptr == 0) && OnlyAt(blocks, blocks', a)
    ensures Ranges(blocks') == Ranges(blocks) - {Range(blocks[a].ptr, blocks[a].size)}
  {
  }

  lemma TagOf(mem: Mem, slabs: map<nat, Slab>, bins: seq<seq<nat>>, top: nat, pages: map<nat, nat>,
              blocks: Blocks, lists: map<nat, seq<nat>>, a: nat)
    requires Inv(mem, slabs, bins, top, pages, blocks, lists) && a in blocks
    ensures TagOk(mem, a, blocks[a], pages)
  {
  }

  lemma Outside(mem: Mem, mem': Mem, lo: nat, hi: nat, c: nat)
    requires WroteWithin(mem, mem', lo, hi) && c in mem && (c + HEADER <= lo || hi <= c)
    ensures c in mem' && mem'[c] == mem[c]
  {
  }

  /** Spoiling the inner header of an aligned block leaves the block around it whole. */
  lemma Unaligned(mem: Mem, slabs: map<nat, Slab>, bins: seq<seq<nat>>, top: nat, pages: map<nat, nat>,
                  blocks: Blocks, lists: map<nat, seq<nat>>, a: nat)
    requires Inv(mem, slabs, bins, top, pages, blocks, lists) && a in blocks
    requires blocks[a].ptr != 0 && blocks[a].ptr != a + HEADER
    ensures blocks[a].ptr >= HEADER
    ensures Inv(Put(mem, blocks[a].ptr - HEADER, Hdr(0, FREE, a + HEADER)), slabs, bins, top, pages,
                blocks[a := blocks[a].(ptr := a + HEADER, size := 0)], lists)
  {
    hide Inv, Put, WroteWithin;
    TagOf(mem, slabs, bins, top, pages, blocks, lists, a);
    var c := blocks[a].ptr - HEADER;
    var mem' := Put(mem, c, Hdr(0, FREE, a + HEADER));
    PutWithin(mem, c, Hdr(0, FREE, a + HEADER));
    assert a in mem' && mem'[a] == mem[a] by {
      Outside(mem, mem', c, c + HEADER, a);
    }
    assert TagOk(mem', a, blocks[a].(ptr := a + HEADER, size := 0), pages);
    hide TagOk;
    LiveChanged(mem, mem', slabs, bins, top, pages, blocks, lists, a, a + HEADER, 0, c, c + HEADER);
  }

  lemma BareRanges(mem: Mem, slabs: map<nat, Slab>, bins: seq<seq<nat>>, top: nat, pages: map<nat, nat>,
                   blocks: Blocks, lists: map<nat, seq<nat>>, a: nat)
    requires Inv(mem, slabs, bins, top, pages, blocks, lists) && a in blocks
    requires blocks[a].ptr != 0 && blocks[a].ptr != a + HEADER
    ensures var r := Ranges(blocks) - {Range(blocks[a].ptr, blocks[a].size)};
      && Ranges(blocks[a := blocks[a].(ptr := a + HEADER, size := 0)]) == r + {Range(a + HEADER, 0)}
      && Range(a + HEADER, 0) !in r
  {
    if Range(a + HEADER, 0) in Ranges(blocks) {
      var b := OwnsRange(blocks, Range(a + HEADER, 0));
      NotInside(mem, slabs, top, pages, blocks, a, b);
    }
    hide Inv, Ranges;
    var bare := blocks[a := blocks[a].(ptr := 0, size := 0)];
    Shrunk(mem, slabs, bins, top, pages, blocks, bare, lists, a);
    RangesGrow(bare, a, blocks[a].(ptr := a + HEADER, size := 0));
    assert bare[a := blocks[a].(ptr := a + HEADER, size := 0)] == blocks[a := blocks[a].(ptr := a + HEADER, size := 0)];
  }

  lemma NotInside(mem: Mem, slabs: map<nat, Slab>, top: nat, pages: map<nat, nat>, blocks: Blocks, a: nat, b: nat)
    requires Laid(blocks, slabs, top) && Tagged(mem, blocks, pages)
    requires a in blocks && b in blocks && blocks[a].ptr != a + HEADER && blocks[b].ptr != 0
    ensures blocks[b].ptr != a + HEADER
  {
  }

  lemma BinsFacts(mem: Mem, slabs: map<nat, Slab>, bins: seq<seq<nat>>, top: nat, pages: map<nat, nat>,
                  blocks: Blocks, lists: map<nat, seq<nat>>)
    requires Inv(mem, slabs, bins, top, pages, blocks, lists)
    ensures |bins| == BINS && top % PAGE == 0
    ensures forall b, j :: 0 <= b < BINS && 0 <= j < |bins[b]| ==> bins[b][j] in slabs && slabs[bins[b][j]].bin == b
  {
  }

  /** A request never lands in the smallest bin, whose chunks are shorter than a header. */
  lemma SmallBin(size: nat, bin: nat)
    requires 0 < size && size + HEADER < U64 && bin < BINS && WithHeader(size) <= BinSize(bin)
    ensures 1 <= bin && size + HEADER <= BinSize(bin)
  {
  }

  lemma PagesHold(size: nat, n: nat)
    requires size + HEADER < U64 && n == ((size + HEADER + PAGE - 1) % U64) / PAGE && size > 2048 - HEADER
    ensures n == 0 <==> size + HEADER + PAGE > U64
    ensures n > 0 ==> size + HEADER <= n * PAGE && n <= size
  {
  }

  lemma BlocksBelow(mem: Mem, slabs: map<nat, Slab>, bins: seq<seq<nat>>, top: nat, pages: map<nat, nat>,
                    blocks: Blocks, lists: map<nat, seq<nat>>)
    requires Inv(mem, slabs, bins, top, pages, blocks, lists)
    ensures |bins| == BINS && HEAP_START <= top && forall a :: a in blocks ==> a + blocks[a].bytes <= top
  {
  }

  lemma NextChunkFits(mem: Mem, slabs: map<nat, Slab>, bins: seq<seq<nat>>, top: nat, pages: map<nat, nat>,
                      blocks: Blocks, lists: map<nat, seq<nat>>, s: nat, a: nat, k: Blk)
    requires Inv(mem, slabs, bins, top, pages, blocks, lists) && s in slabs && top == s + PAGE
    requires forall b :: b in blocks ==> b + blocks[b].bytes <= a
    requires s + HEADER <= a && a + k.bytes <= s + PAGE
    requires k.slab == s && k.bin == slabs[s].bin < BINS && k.bin > 0 && k.bytes == BinSize(k.bin)
    ensures a !in blocks && FitsIn(blocks, slabs, top, a, k)
  {
  }
}
