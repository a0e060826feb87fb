/** The slab heap as values: blocks, the cells written into them, free lists and slabs. */
module HeapModel {
  import opened Common

  const HEAP_START: nat := 0xffffffffa0000000
  const HEAP_END: nat := 0xffffffffb0000000
  const PAGE: nat := 4096
  /** Both headers are 24 bytes long. */
  const HEADER: nat := 24
  const BINS: nat := 8

  datatype Magic = ALLOC | DIRECT | FREE | ALIGNED

  /** What the allocator writes at an address: an allocation header, or a free chunk's link over it. */
  datatype Cell = Link(next: nat) | Hdr(bin: nat, magic: Magic, base: nat)

  datatype Slab = Slab(bin: nat, freeChunks: nat, freeList: nat)

  /** A chunk of the slab at `slab`, or pages of its own when that is 0; free when `ptr` is 0. */
  datatype Blk = Blk(bytes: nat, slab: nat, bin: nat, ptr: nat, size: nat)

  type Mem = map<nat, Cell>
  type Blocks = map<nat, Blk>

  function BinSize(b: nat): (r: nat)
    requires b < BINS
    ensures 16 <= r <= 2048 && (b > 0 ==> r >= 32)
  {
    if b == 0 then 16 else if b == 1 then 32 else if b == 2 then 64 else if b == 3 then 128
    else if b == 4 then 256 else if b == 5 then 512 else if b == 6 then 1024 else 2048
  }

  /** A write replaces the cell and spoils every cell it overlaps. */
  function Put(mem: Mem, c: nat, cell: Cell): Mem
  {
    (map k | k in mem && (k + HEADER <= c || c + HEADER <= k) :: mem[k])[c := cell]
  }

  /** Writes of the owner of [lo, hi) leave every cell outside it alone. */
  predicate WroteWithin(mem: Mem, mem': Mem, lo: nat, hi: nat)
  {
    forall k :: k in mem && (k + HEADER <= lo || hi <= k) ==> k in mem' && mem'[k] == mem[k]
  }

  predicate Apart(a: nat, m: nat, b: nat, n: nat)
  {
    a + m <= b || b + n <= a
  }

  // ---------- the invariant ----------

  /** Blocks lie in the heap, apart from each other and from every slab header. */
  ghost predicate Laid(blocks: Blocks, slabs: map<nat, Slab>, top: nat)
  {
    && (forall a :: a in blocks ==> HEAP_START <= a && HEADER <= blocks[a].bytes && a + blocks[a].bytes <= top)
    && (forall a, b :: a in blocks && b in blocks && a != b ==> Apart(a, blocks[a].bytes, b, blocks[b].bytes))
    && (forall a, s :: a in blocks && s in slabs ==> Apart(a, blocks[a].bytes, s, HEADER))
  }

  /** A live block's pointer lies inside it and its headers say how to free it. */
  ghost predicate TagOk(mem: Mem, a: nat, k: Blk, pages: map<nat, nat>)
  {
    k.ptr != 0 ==>
      && a + HEADER <= k.ptr && k.ptr + k.size <= a + k.bytes
      && a in mem && mem[a] == Hdr(k.bin, if k.slab != 0 then ALLOC else DIRECT, 0)
      && (k.ptr != a + HEADER ==>
            a + 2 * HEADER <= k.ptr && k.ptr - HEADER in mem && mem[k.ptr - HEADER] == Hdr(0, ALIGNED, a + HEADER))
      && (k.slab == 0 ==> a % PAGE == 0 && k.bin * PAGE <= k.bytes && forall i :: 0 <= i < k.bin ==> a + i * PAGE in pages)
  }

  ghost predicate Tagged(mem: Mem, blocks: Blocks, pages: map<nat, nat>)
  {
    forall a :: a in blocks ==> TagOk(mem, a, blocks[a], pages)
  }

  ghost predicate Chain(mem: Mem, head: nat, list: seq<nat>)
    decreases |list|
  {
    if list == [] then head == 0
    else head == list[0] != 0 && head in mem && mem[head].Link? && Chain(mem, mem[head].next, list[1..])
  }

  predicate Distinct(list: seq<nat>)
  {
    forall i, j :: 0 <= i < j < |list| ==> list[i] != list[j]
  }

  ghost predicate FreeChunk(blocks: Blocks, s: nat, a: nat)
  {
    a in blocks && blocks[a].slab == s && blocks[a].ptr == 0
  }

  /** The free list runs through exactly the slab's free chunks, each once. */
  ghost predicate ListOk(mem: Mem, s: nat, slab: Slab, blocks: Blocks, list: seq<nat>)
  {
    && Chain(mem, slab.freeList, list) && Distinct(list) && |list| == slab.freeChunks
    && forall a :: a in list <==> FreeChunk(blocks, s, a)
  }

  ghost predicate Listed(mem: Mem, slabs: map<nat, Slab>, blocks: Blocks, lists: map<nat, seq<nat>>)
  {
    forall s :: s in slabs ==> s in lists && ListOk(mem, s, slabs[s], blocks, lists[s])
  }

  /** Slabs are whole pages, each on the list of its bin, and chunks lie in the page of their slab. */
  ghost predicate Housed(slabs: map<nat, Slab>, bins: seq<seq<nat>>, blocks: Blocks, top: nat)
  {
    && |bins| == BINS
    && (forall s :: s in slabs ==>
          && s % PAGE == 0 && HEAP_START <= s && s + PAGE <= top
          && slabs[s].bin < BINS && s in bins[slabs[s].bin])
    && (forall b, j :: 0 <= b < BINS && 0 <= j < |bins[b]| ==> bins[b][j] in slabs && slabs[bins[b][j]].bin == b)
    && (forall a :: a in blocks && blocks[a].slab != 0 ==>
          var k := blocks[a];
          && k.slab in slabs && k.bin == slabs[k.slab].bin && k.bytes == BinSize(k.bin)
          && k.slab + HEADER <= a && a + k.bytes <= k.slab + PAGE)
  }

  // ---------- cells of other blocks survive ----------

  /** The two cells a block may own are the same in both memories. */
  ghost predicate Quiet(mem: Mem, mem': Mem, a: nat, k: Blk)
  {
    && (a in mem ==> a in mem' && mem'[a] == mem[a])
    && (k.ptr > a + HEADER && k.ptr - HEADER in mem ==>
          k.ptr - HEADER in mem' && mem'[k.ptr - HEADER] == mem[k.ptr - HEADER])
  }

  ghost predicate QuietBut(mem: Mem, mem': Mem, blocks: Blocks, a: nat)
  {
    forall b :: b in blocks && b != a ==> Quiet(mem, mem', b, blocks[b])
  }

  /** A change inside one block, or in memory apart from all of them, spoils no other block. */
  lemma QuietAround(mem: Mem, mem': Mem, blocks: Blocks, slabs: map<nat, Slab>, top: nat, pages: map<nat, nat>,
                    a: nat, n: nat, lo: nat, hi: nat)
    requires Laid(blocks, slabs, top) && Tagged(mem, blocks, pages)
    requires forall b :: b in blocks && b != a ==> Apart(a, n, b, blocks[b].bytes)
    requires a <= lo <= hi <= a + n && WroteWithin(mem, mem', lo, hi)
    ensures QuietBut(mem, mem', blocks, a)
  {
  }

  lemma PutWithin(mem: Mem, c: nat, cell: Cell)
    ensures WroteWithin(mem, Put(mem, c, cell), c, c + HEADER)
    ensures c in Put(mem, c, cell) && Put(mem, c, cell)[c] == cell
  {
  }

  lemma {:induction false} ChainSame(mem: Mem, mem': Mem, head: nat, list: seq<nat>)
    requires Chain(mem, head, list)
    requires forall i :: 0 <= i < |list| && list[i] in mem ==> list[i] in mem' && mem'[list[i]] == mem[list[i]]
    ensures Chain(mem', head, list)
    decreases |list|
  {
    if list != [] {
      assert list[0] in mem && list[0] in mem';
      assert forall i :: 0 <= i < |list[1..]| ==> list[1..][i] == list[i + 1];
      ChainSame(mem, mem', mem[head].next, list[1..]);
    }
  }

  ghost predicate PagesKept(a: nat, k: Blk, pages: map<nat, nat>, pages': map<nat, nat>)
  {
    forall i :: 0 <= i < k.bin && a + i * PAGE in pages ==> a + i * PAGE in pages'
  }

  /** Tags of the other blocks survive. */
  lemma TagsSame(mem: Mem, mem': Mem, blocks: Blocks, blocks': Blocks, pages: map<nat, nat>, pages': map<nat, nat>, a: nat)
    requires Tagged(mem, blocks, pages) && QuietBut(mem, mem', blocks, a)
    requires forall b :: b in blocks' && b != a ==> b in blocks && blocks'[b] == blocks[b]
    requires a in blocks' ==> TagOk(mem', a, blocks'[a], pages')
    requires forall b :: b in blocks' && b != a ==> PagesKept(b, blocks'[b], pages, pages')
    ensures Tagged(mem', blocks', pages')
  {
  }

  /** Lists of slabs that neither own nor list the changed block survive. */
  lemma ListSame(mem: Mem, mem': Mem, s: nat, slab: Slab, blocks: Blocks, blocks': Blocks, list: seq<nat>, a: nat)
    requires ListOk(mem, s, slab, blocks, list) && QuietBut(mem, mem', blocks, a)
    requires forall b :: b != a ==> (FreeChunk(blocks', s, b) <==> FreeChunk(blocks, s, b))
    requires !FreeChunk(blocks, s, a) && !FreeChunk(blocks', s, a)
    ensures ListOk(mem', s, slab, blocks', list)
  {
    forall i | 0 <= i < |list| && list[i] in mem
      ensures list[i] in mem' && mem'[list[i]] == mem[list[i]]
    {
      assert list[i] in list;
      assert FreeChunk(blocks, s, list[i]);
      assert Quiet(mem, mem', list[i], blocks[list[i]]);
    }
    ChainSame(mem, mem', slab.freeList, list);
    hide Chain, FreeChunk, QuietBut, Distinct;
    forall b
      ensures b in list <==> FreeChunk(blocks', s, b)
    {
      if b != a {
        assert b in list <==> FreeChunk(blocks, s, b);
      }
    }
  }

  ghost predicate Inv(mem: Mem, slabs: map<nat, Slab>, bins: seq<seq<nat>>, top: nat, pages: map<nat, nat>,
                      blocks: Blocks, lists: map<nat, seq<nat>>)
  {
    && HEAP_START <= top && top % PAGE == 0
    && Laid(blocks, slabs, top) && Tagged(mem, blocks, pages)
    && Listed(mem, slabs, blocks, lists) && Housed(slabs, bins, blocks, top)
  }

  // ---------- the steps ----------

  /** The blocks are the same but for one. */
  ghost predicate OnlyAt(blocks: Blocks, blocks': Blocks, a: nat)
  {
    forall b :: b != a ==> (b in blocks' <==> b in blocks) && (b in blocks ==> blocks'[b] == blocks[b])
  }

  /** The other slabs keep their lists when one block of slab `s`, or of none, changes. */
  lemma OtherLists(mem: Mem, mem': Mem, slabs: map<nat, Slab>, slabs': map<nat, Slab>, blocks: Blocks, blocks': Blocks,
                   lists: map<nat, seq<nat>>, lists': map<nat, seq<nat>>, s: nat, a: nat)
    requires Listed(mem, slabs, blocks, lists) && QuietBut(mem, mem', blocks, a) && OnlyAt(blocks, blocks', a)
    requires a in blocks ==> blocks[a].ptr != 0 || blocks[a].slab == s
    requires a in blocks' ==> blocks'[a].ptr != 0 || blocks'[a].slab == s
    requires forall t :: t in slabs' && t != s ==> t in slabs && slabs'[t] == slabs[t]
    requires forall t :: t in lists && t != s ==> t in lists' && lists'[t] == lists[t]
    requires s in slabs' ==> s in lists' && ListOk(mem', s, slabs'[s], blocks', lists'[s])
    ensures Listed(mem', slabs', blocks', lists')
  {
    hide ListOk, QuietBut;
    forall t | t in slabs'
      ensures t in lists' && ListOk(mem', t, slabs'[t], blocks', lists'[t])
    {
      if t != s {
        assert t in lists && ListOk(mem, t, slabs[t], blocks, lists[t]);
        ListSame(mem, mem', t, slabs[t], blocks, blocks', lists[t], a);
      }
    }
  }

  lemma Registered(mem: Mem, slabs: map<nat, Slab>, bins: seq<seq<nat>>, top: nat, pages: map<nat, nat>,
                   blocks: Blocks, lists: map<nat, seq<nat>>, bin: nat, phys: nat)
    requires Inv(mem, slabs, bins, top, pages, blocks, lists) && bin < BINS
    ensures Inv(mem, slabs[top := Slab(bin, 0, 0)], bins[bin := [top] + bins[bin]], top + PAGE, pages[top := phys],
                blocks, lists[top := []])
  {
    NoneYet(slabs, bins, blocks, top);
    LaidMore(blocks, slabs, top, Slab(bin, 0, 0));
    HousedMore(slabs, bins, blocks, top, bin);
    ListedMore(mem, slabs, blocks, lists, top, bin);
    hide Laid, Housed, Listed;
    forall a | a in blocks
      ensures TagOk(mem, a, blocks[a], pages[top := phys])
    {
      assert TagOk(mem, a, blocks[a], pages);
    }
  }

  lemma NoneYet(slabs: map<nat, Slab>, bins: seq<seq<nat>>, blocks: Blocks, top: nat)
    requires Housed(slabs, bins, blocks, top) && HEAP_START <= top
    ensures top !in slabs && forall a :: !FreeChunk(blocks, top, a)
  {
  }

  lemma LaidMore(blocks: Blocks, slabs: map<nat, Slab>, top: nat, slab: Slab)
    requires Laid(blocks, slabs, top)
    ensures Laid(blocks, slabs[top := slab], top + PAGE)
  {
  }

  lemma ListedMore(mem: Mem, slabs: map<nat, Slab>, blocks: Blocks, lists: map<nat, seq<nat>>, s: nat, bin: nat)
    requires Listed(mem, slabs, blocks, lists) && forall a :: !FreeChunk(blocks, s, a)
    ensures Listed(mem, slabs[s := Slab(bin, 0, 0)], blocks, lists[s := []])
  {
  }

  lemma HousedMore(slabs: map<nat, Slab>, bins: seq<seq<nat>>, blocks: Blocks, top: nat, bin: nat)
    requires Housed(slabs, bins, blocks, top) && bin < BINS && top % PAGE == 0 && HEAP_START <= top
    ensures Housed(slabs[top := Slab(bin, 0, 0)], bins[bin := [top] + bins[bin]], blocks, top + PAGE)
  {
  }

  /** `slabs` but for the list of slab `s`. */
  ghost predicate SameSlabs(slabs: map<nat, Slab>, slabs': map<nat, Slab>, s: nat)
  {
    && slabs'.Keys == slabs.Keys
    && forall t :: t in slabs ==> slabs'[t].bin == slabs[t].bin && (t != s ==> slabs'[t] == slabs[t])
  }

  /** Where a block that changes, or a new one, may lie. */
  ghost predicate FitsIn(blocks: Blocks, slabs: map<nat, Slab>, top: nat, a: nat, k: Blk)
  {
    if a in blocks then k.bytes == blocks[a].bytes && k.slab == blocks[a].slab && k.bin == blocks[a].bin
    else
      && HEAP_START <= a && HEADER <= k.bytes && a + k.bytes <= top
      && (forall b :: b in blocks ==> Apart(a, k.bytes, b, blocks[b].bytes))
      && (forall s :: s in slabs ==> Apart(a, k.bytes, s, HEADER))
      && (k.slab != 0 ==>
            && k.slab in slabs && k.bin == slabs[k.slab].bin < BINS && k.bytes == BinSize(k.bin)
            && k.slab + HEADER <= a && a + k.bytes <= k.slab + PAGE)
  }

  lemma LaidChanged(blocks: Blocks, blocks': Blocks, slabs: map<nat, Slab>, slabs': map<nat, Slab>, top: nat, s: nat, a: nat)
    requires Laid(blocks, slabs, top) && OnlyAt(blocks, blocks', a) && SameSlabs(slabs, slabs', s)
    requires a in blocks' && FitsIn(blocks, slabs, top, a, blocks'[a])
    ensures Laid(blocks', slabs', top)
    ensures forall b :: b in blocks && b != a ==> Apart(a, blocks'[a].bytes, b, blocks[b].bytes)
  {
  }

  lemma HousedChanged(blocks: Blocks, blocks': Blocks, slabs: map<nat, Slab>, slabs': map<nat, Slab>,
                      bins: seq<seq<nat>>, top: nat, s: nat, a: nat)
    requires Housed(slabs, bins, blocks, top) && OnlyAt(blocks, blocks', a) && SameSlabs(slabs, slabs', s)
    requires a in blocks' && FitsIn(blocks, slabs, top, a, blocks'[a])
    ensures Housed(slabs', bins, blocks', top)
  {
  }

  /** One write inside block `a`, one block and at most the list of its slab changed: the rest follows. */
  lemma Changed(mem: Mem, mem': Mem, slabs: map<nat, Slab>, slabs': map<nat, Slab>, bins: seq<seq<nat>>, top: nat,
                pages: map<nat, nat>, blocks: Blocks, blocks': Blocks, lists: map<nat, seq<nat>>,
                lists': map<nat, seq<nat>>, s: nat, a: nat, lo: nat, hi: nat)
    requires Inv(mem, slabs, bins, top, pages, blocks, lists)
    requires OnlyAt(blocks, blocks', a) && SameSlabs(slabs, slabs', s)
    requires a in blocks' && FitsIn(blocks, slabs, top, a, blocks'[a])
    requires a in blocks ==> blocks[a].ptr != 0 || blocks[a].slab == s
    requires blocks'[a].ptr != 0 || blocks'[a].slab == s
    requires forall t :: t in lists && t != s ==> t in lists' && lists'[t] == lists[t]
    requires a <= lo <= hi <= a + blocks'[a].bytes && WroteWithin(mem, mem', lo, hi)
    requires TagOk(mem', a, blocks'[a], pages)
    requires QuietBut(mem, mem', blocks, a) ==> s in slabs' ==> s in lists' && ListOk(mem', s, slabs'[s], blocks', lists'[s])
    ensures Inv(mem', slabs', bins, top, pages, blocks', lists')
  {
    LaidChanged(blocks, blocks', slabs, slabs', top, s, a);
    HousedChanged(blocks, blocks', slabs, slabs', bins, top, s, a);
    QuietAround(mem, mem', blocks, slabs, top, pages, a, blocks'[a].bytes, lo, hi);
    hide Laid, Housed, ListOk, QuietBut, TagOk, FitsIn;
    TagsSame(mem, mem', blocks, blocks', pages, pages, a);
    OtherLists(mem, mem', slabs, slabs', blocks, blocks', lists, lists', s, a);
  }

  lemma ListPushed(mem: Mem, mem': Mem, s: nat, slab: Slab, blocks: Blocks, blocks': Blocks, list: seq<nat>, a: nat)
    requires ListOk(mem, s, slab, blocks, list) && QuietBut(mem, mem', blocks, a) && OnlyAt(blocks, blocks', a)
    requires a != 0 && !FreeChunk(blocks, s, a) && FreeChunk(blocks', s, a)
    requires a in mem' && mem'[a] == Link(slab.freeList)
    ensures ListOk(mem', s, slab.(freeChunks := slab.freeChunks + 1, freeList := a), blocks', [a] + list)
  {
    var list' := [a] + list;
    forall i | 0 <= i < |list| && list[i] in mem
      ensures list[i] in mem' && mem'[list[i]] == mem[list[i]]
    {
      assert list[i] in list;
      assert FreeChunk(blocks, s, list[i]);
      assert Quiet(mem, mem', list[i], blocks[list[i]]);
    }
    ChainSame(mem, mem', slab.freeList, list);
    assert list'[1..] == list;
    assert a !in list;
    hide QuietBut;
    forall b
      ensures b in list' <==> FreeChunk(blocks', s, b)
    {
      assert b in list <==> FreeChunk(blocks, s, b);
    }
  }

  lemma ListPopped(mem: Mem, mem': Mem, s: nat, slab: Slab, blocks: Blocks, blocks': Blocks, list: seq<nat>, a: nat)
    requires ListOk(mem, s, slab, blocks, list) && QuietBut(mem, mem', blocks, a) && OnlyAt(blocks, blocks', a)
    requires list != [] && a == list[0] && !FreeChunk(blocks', s, a)
    ensures a in mem && mem[a].Link? && slab.freeChunks > 0
    ensures ListOk(mem', s, slab.(freeChunks := slab.freeChunks - 1, freeList := mem[a].next), blocks', list[1..])
  {
    var list' := list[1..];
    assert forall i :: 0 <= i < |list'| ==> list'[i] == list[i + 1] && list'[i] != a;
    forall i | 0 <= i < |list'| && list'[i] in mem
      ensures list'[i] in mem' && mem'[list'[i]] == mem[list'[i]]
    {
      assert list[i + 1] in list;
      assert FreeChunk(blocks, s, list'[i]);
      assert Quiet(mem, mem', list'[i], blocks[list'[i]]);
    }
    ChainSame(mem, mem', mem[a].next, list');
    hide QuietBut, Chain;
    forall b
      ensures b in list' <==> FreeChunk(blocks', s, b)
    {
      assert b in list <==> FreeChunk(blocks, s, b);
      assert b in list <==> b == a || b in list';
    }
  }

  lemma OneBlock(blocks: Blocks, a: nat, k: Blk)
    ensures OnlyAt(blocks, blocks[a := k], a)
  {
  }

  lemma OneSlab(slabs: map<nat, Slab>, s: nat, slab: Slab)
    requires s in slabs && slab.bin == slabs[s].bin
    ensures SameSlabs(slabs, slabs[s := slab], s)
  {
  }

  lemma SameFits(blocks: Blocks, slabs: map<nat, Slab>, top: nat, a: nat, ptr: nat, size: nat)
    requires a in blocks
    ensures FitsIn(blocks, slabs, top, a, blocks[a].(ptr := ptr, size := size))
  {
  }

  lemma SlabFacts(mem: Mem, slabs: map<nat, Slab>, bins: seq<seq<nat>>, top: nat, pages: map<nat, nat>,
                  blocks: Blocks, lists: map<nat, seq<nat>>, s: nat)
    requires Inv(mem, slabs, bins, top, pages, blocks, lists) && s in slabs
    ensures s != 0 && slabs[s].bin < BINS && s in lists && ListOk(mem, s, slabs[s], blocks, lists[s])
    ensures forall a :: a in blocks && blocks[a].slab == s ==>
              a != 0 && blocks[a].bytes >= HEADER && blocks[a].bin == slabs[s].bin && blocks[a].bytes == BinSize(slabs[s].bin)
  {
  }

  lemma HeadFacts(mem: Mem, s: nat, slab: Slab, blocks: Blocks, list: seq<nat>)
    requires ListOk(mem, s, slab, blocks, list) && slab.freeChunks > 0
    ensures list != [] && list[0] == slab.freeList && FreeChunk(blocks, s, slab.freeList)
    ensures slab.freeList in mem && mem[slab.freeList].Link?
  {
  }

  /** slab_create threads one more chunk onto the free list. */
  lemma ChunkAdded(mem: Mem, slabs: map<nat, Slab>, bins: seq<seq<nat>>, top: nat, pages: map<nat, nat>,
                   blocks: Blocks, lists: map<nat, seq<nat>>, s: nat, a: nat)
    requires Inv(mem, slabs, bins, top, pages, blocks, lists) && s in slabs && a !in blocks && slabs[s].bin < BINS
    requires var bin := slabs[s].bin; FitsIn(blocks, slabs, top, a, Blk(BinSize(bin), s, bin, 0, 0))
    ensures s in lists && s != 0
    ensures var slab := slabs[s];
            Inv(Put(mem, a, Link(slab.freeList)),
                slabs[s := slab.(freeChunks := slab.freeChunks + 1, freeList := a)],
                bins, top, pages, blocks[a := Blk(BinSize(slab.bin), s, slab.bin, 0, 0)], lists[s := [a] + lists[s]])
  {
    hide Inv, Put, WroteWithin, ListOk, QuietBut, BinSize, FitsIn, OnlyAt, SameSlabs;
    SlabFacts(mem, slabs, bins, top, pages, blocks, lists, s);
    var slab := slabs[s];
    var k := Blk(BinSize(slab.bin), s, slab.bin, 0, 0);
    NewFits(blocks, slabs, top, a, k);
    var mem', blocks' := Put(mem, a, Link(slab.freeList)), blocks[a := k];
    var slabs' := slabs[s := slab.(freeChunks := slab.freeChunks + 1, freeList := a)];
    PutWithin(mem, a, Link(slab.freeList));
    OneBlock(blocks, a, k);
    OneSlab(slabs, s, slabs'[s]);
    if QuietBut(mem, mem', blocks, a) {
      ListPushed(mem, mem', s, slab, blocks, blocks', lists[s], a);
    }
    Changed(mem, mem', slabs, slabs', bins, top, pages, blocks, blocks', lists, lists[s := [a] + lists[s]], s, a, a, a + HEADER);
  }

  lemma NewFits(blocks: Blocks, slabs: map<nat, Slab>, top: nat, a: nat, k: Blk)
    requires a !in blocks && FitsIn(blocks, slabs, top, a, k)
    ensures a > 0 && HEADER <= k.bytes
  {
  }

  lemma ChunkTagged(mem: Mem, a: nat, k: Blk, size: nat, pages: map<nat, nat>)
    requires k.slab != 0 && size + HEADER <= k.bytes && a in mem && mem[a] == Hdr(k.bin, ALLOC, 0)
    ensures TagOk(mem, a, k.(ptr := a + HEADER, size := size), pages)
  {
  }

  /** Popping the first free chunk and writing its header makes it a live block. */
  lemma ChunkTaken(mem: Mem, slabs: map<nat, Slab>, bins: seq<seq<nat>>, top: nat, pages: map<nat, nat>,
                   blocks: Blocks, lists: map<nat, seq<nat>>, s: nat, a: nat, size: nat)
    requires Inv(mem, slabs, bins, top, pages, blocks, lists) && s in slabs && slabs[s].freeChunks > 0
    requires slabs[s].bin < BINS && size + HEADER <= BinSize(slabs[s].bin) && a == slabs[s].freeList
    ensures s in lists && lists[s] != [] && s != 0 && FreeChunk(blocks, s, a)
    ensures a in mem && mem[a].Link?
    ensures Inv(Put(mem, a, Hdr(slabs[s].bin, ALLOC, 0)),
                slabs[s := Slab(slabs[s].bin, slabs[s].freeChunks - 1, mem[a].next)],
                bins, top, pages, blocks[a := blocks[a].(ptr := a + HEADER, size := size)], lists[s := lists[s][1..]])
  {
    SlabFacts(mem, slabs, bins, top, pages, blocks, lists, s);
    var slab, list := slabs[s], lists[s];
    HeadFacts(mem, s, slab, blocks, list);
    hide Inv, Put, WroteWithin, ListOk, QuietBut, BinSize, OnlyAt, SameSlabs, FitsIn, TagOk;
    var mem' := Put(mem, a, Hdr(slab.bin, ALLOC, 0));
    var blocks' := blocks[a := blocks[a].(ptr := a + HEADER, size := size)];
    var slabs' := slabs[s := Slab(slab.bin, slab.freeChunks - 1, mem[a].next)];
    PutWithin(mem, a, Hdr(slab.bin, ALLOC, 0));
    OneBlock(blocks, a, blocks'[a]);
    OneSlab(slabs, s, slabs'[s]);
    SameFits(blocks, slabs, top, a, a + HEADER, size);
    ChunkTagged(mem', a, blocks[a], size, pages);
    if QuietBut(mem, mem', blocks, a) {
      ListPopped(mem, mem', s, slab, blocks, blocks', list, a);
    }
    Changed(mem, mem', slabs, slabs', bins, top, pages, blocks, blocks', lists, lists[s := list[1..]], s, a, a, a + HEADER);
  }

  /** Freeing a live chunk puts it back at the head of its slab's list. */
  lemma ChunkGiven(mem: Mem, slabs: map<nat, Slab>, bins: seq<seq<nat>>, top: nat, pages: map<nat, nat>,
                   blocks: Blocks, lists: map<nat, seq<nat>>, s: nat, a: nat)
    requires Inv(mem, slabs, bins, top, pages, blocks, lists) && s in slabs
    requires a in blocks && blocks[a].slab == s && blocks[a].ptr != 0
    ensures s in lists && s != 0
    ensures var slab := slabs[s];
            Inv(Put(mem, a, Link(slab.freeList)),
                slabs[s := slab.(freeChunks := slab.freeChunks + 1, freeList := a)],
                bins, top, pages, blocks[a := blocks[a].(ptr := 0, size := 0)], lists[s := [a] + lists[s]])
  {
    SlabFacts(mem, slabs, bins, top, pages, blocks, lists, s);
    hide Inv, Put, WroteWithin, ListOk, QuietBut, BinSize;
    var slab := slabs[s];
    var mem' := Put(mem, a, Link(slab.freeList));
    var blocks' := blocks[a := blocks[a].(ptr := 0, size := 0)];
    var slabs' := slabs[s := slab.(freeChunks := slab.freeChunks + 1, freeList := a)];
    PutWithin(mem, a, Link(slab.freeList));
    OneBlock(blocks, a, blocks'[a]);
    OneSlab(slabs, s, slabs'[s]);
    SameFits(blocks, slabs, top, a, 0, 0);
    hide OnlyAt, SameSlabs, FitsIn;
    if QuietBut(mem, mem', blocks, a) {
      ListPushed(mem, mem', s, slab, blocks, blocks', lists[s], a);
    }
    Changed(mem, mem', slabs, slabs', bins, top, pages, blocks, blocks', lists, lists[s := [a] + lists[s]], s, a, a, a + HEADER);
  }

  /** Any change within the owner's part of a live block, headers of the block itself given. */
  lemma LiveChanged(mem: Mem, mem': Mem, slabs: map<nat, Slab>, bins: seq<seq<nat>>, top: nat, pages: map<nat, nat>,
                    blocks: Blocks, lists: map<nat, seq<nat>>, a: nat, ptr: nat, size: nat, lo: nat, hi: nat)
    requires Inv(mem, slabs, bins, top, pages, blocks, lists)
    requires a in blocks && blocks[a].ptr != 0 && ptr != 0
    requires a <= lo <= hi <= a + blocks[a].bytes && WroteWithin(mem, mem', lo, hi)
    requires TagOk(mem', a, blocks[a].(ptr := ptr, size := size), pages)
    ensures Inv(mem', slabs, bins, top, pages, blocks[a := blocks[a].(ptr := ptr, size := size)], lists)
  {
    var blocks' := blocks[a := blocks[a].(ptr := ptr, size := size)];
    assert 0 !in slabs;
    hide Laid, Tagged, WroteWithin, TagOk, Listed, Housed, QuietBut;
    Changed(mem, mem', slabs, slabs, bins, top, pages, blocks, blocks', lists, lists, 0, a, lo, hi);
  }

  // ---------- whole pages ----------

  lemma TopRaised(mem: Mem, slabs: map<nat, Slab>, bins: seq<seq<nat>>, top: nat, top': nat, pages: map<nat, nat>,
                  pages': map<nat, nat>, blocks: Blocks, lists: map<nat, seq<nat>>)
    requires Inv(mem, slabs, bins, top, pages, blocks, lists) && top <= top' && top' % PAGE == 0
    requires forall v :: v in pages && v < top ==> v in pages'
    ensures Inv(mem, slabs, bins, top', pages', blocks, lists)
  {
  }

  lemma AboveAll(blocks: Blocks, slabs: map<nat, Slab>, bins: seq<seq<nat>>, top: nat, k: Blk)
    requires Laid(blocks, slabs, top) && Housed(slabs, bins, blocks, top) && HEAP_START <= top
    requires k.slab == 0 && HEADER <= k.bytes
    ensures top !in blocks && FitsIn(blocks, slabs, top + k.bytes, top, k)
  {
  }

  /** A block of `n` pages of its own is added at the top of the heap. */
  lemma DirectAdded(mem: Mem, slabs: map<nat, Slab>, bins: seq<seq<nat>>, top: nat, pages: map<nat, nat>,
                    pages': map<nat, nat>, blocks: Blocks, lists: map<nat, seq<nat>>, n: nat, bin: nat, size: nat)
    requires Inv(mem, slabs, bins, top, pages, blocks, lists)
    requires n > 0 && bin <= n && size + HEADER <= n * PAGE
    requires forall v :: v in pages && v < top ==> v in pages'
    requires forall i :: 0 <= i < bin ==> top + i * PAGE in pages'
    ensures top !in blocks
    ensures Inv(Put(mem, top, Hdr(bin, DIRECT, 0)), slabs, bins, top + n * PAGE, pages',
                blocks[top := Blk(n * PAGE, 0, bin, top + HEADER, size)], lists)
  {
    var top' := top + n * PAGE;
    assert top' % PAGE == 0;
    TopRaised(mem, slabs, bins, top, top', pages, pages', blocks, lists);
    var mem', k := Put(mem, top, Hdr(bin, DIRECT, 0)), Blk(n * PAGE, 0, bin, top + HEADER, size);
    PutWithin(mem, top, Hdr(bin, DIRECT, 0));
    assert 0 !in slabs;
    AboveAll(blocks, slabs, bins, top, k);
    OneBlock(blocks, top, k);
    assert TagOk(mem', top, k, pages');
    hide Inv, Put, WroteWithin, QuietBut, FitsIn, TagOk, OnlyAt;
    Changed(mem, mem', slabs, slabs, bins, top', pages', blocks, blocks[top := k], lists, lists, 0, top, top, top + HEADER);
  }

  /** A block of whole pages goes, with pages inside it unmapped. */
  lemma DirectRemoved(mem: Mem, slabs: map<nat, Slab>, bins: seq<seq<nat>>, top: nat, pages: map<nat, nat>,
                      pages': map<nat, nat>, blocks: Blocks, lists: map<nat, seq<nat>>, a: nat)
    requires Inv(mem, slabs, bins, top, pages, blocks, lists)
    requires a in blocks && blocks[a].slab == 0
    requires forall v :: v in pages && Apart(v, 1, a, blocks[a].bytes) ==> v in pages'
    ensures Inv(mem, slabs, bins, top, pages', blocks - {a}, lists)
  {
    var blocks' := blocks - {a};
    assert Laid(blocks', slabs, top) && Housed(slabs, bins, blocks', top) && 0 !in slabs;
    assert Tagged(mem, blocks', pages') by {
      hide Listed, Housed;
      forall b | b in blocks'
        ensures TagOk(mem, b, blocks'[b], pages')
      {
        assert TagOk(mem, b, blocks[b], pages) && Apart(a, blocks[a].bytes, b, blocks[b].bytes);
      }
    }
    hide Laid, Tagged, Housed;
    forall s | s in slabs
      ensures s in lists && ListOk(mem, s, slabs[s], blocks', lists[s])
    {
      assert ListOk(mem, s, slabs[s], blocks, lists[s]);
      assert forall b :: FreeChunk(blocks', s, b) <==> FreeChunk(blocks, s, b);
    }
  }

  // ---------- what the callers hold ----------

  datatype Range = Range(ptr: nat, size: nat)

  /** The pointer and requested size of every live block. */
  ghost function Ranges(blocks: Blocks): set<Range>
  {
    set a | a in blocks && blocks[a].ptr != 0 :: Range(blocks[a].ptr, blocks[a].size)
  }

  lemma OwnsRange(blocks: Blocks, r: Range) returns (a: nat)
    requires r in Ranges(blocks)
    ensures a in blocks && blocks[a].ptr == r.ptr != 0 && blocks[a].size == r.size
  {
    a :| a in blocks && blocks[a].ptr != 0 && Range(blocks[a].ptr, blocks[a].size) == r;
  }

  /** Pointers to live blocks differ and the bytes behind them do not overlap. */
  lemma RangesApart(mem: Mem, slabs: map<nat, Slab>, top: nat, pages: map<nat, nat>, blocks: Blocks, q: Range, r: Range)
    requires Laid(blocks, slabs, top) && Tagged(mem, blocks, pages)
    requires q in Ranges(blocks) && r in Ranges(blocks) && q != r
    ensures q.ptr != r.ptr && Apart(q.ptr, q.size, r.ptr, r.size)
  {
  }

  lemma RangesGrow(blocks: Blocks, a: nat, k: Blk)
    requires k.ptr != 0 && (a in blocks ==> blocks[a].ptr == 0)
    ensures Ranges(blocks[a := k]) == Ranges(blocks) + {Range(k.ptr, k.size)}
  {
    var blocks' := blocks[a := k];
    forall r | r in Ranges(blocks) + {Range(k.ptr, k.size)}
      ensures r in Ranges(blocks')
    {
      var b := a;
      if r != Range(k.ptr, k.size) {
        b := OwnsRange(blocks, r);
      }
      assert b in blocks' && Range(blocks'[b].ptr, blocks'[b].size) == r;
    }
    forall r | r in Ranges(blocks')
      ensures r in Ranges(blocks) + {Range(k.ptr, k.size)}
    {
      var b := OwnsRange(blocks', r);
    }
  }

  lemma RangesSame(blocks: Blocks, a: nat, k: Blk)
    requires k.ptr == 0 && a !in blocks
    ensures Ranges(blocks[a := k]) == Ranges(blocks)
  {
    var blocks' := blocks[a := k];
    forall r | r in Ranges(blocks)
      ensures r in Ranges(blocks')
    {
      var b := OwnsRange(blocks, r);
      assert b in blocks' && blocks'[b] == blocks[b];
    }
  }
}
