/** Loading the segments of an executable and of its interpreter, page by page. */
module Elf {
  import opened Common

  const PAGE: nat := 4096
  const PT_LOAD: nat := 1
  const HUGE: nat := 0x200000

  datatype Seg = Seg(kind: nat, flags: nat, offset: nat, vaddr: nat, filesz: nat, memsz: nat)

  /** Memory from the start of the file's buffer on: the file, and behind it whatever the kernel has there. */
  type Source = nat -> Byte

  datatype Page = Page(bytes: seq<Byte>, flags: nat)

  /** Present and user; writable for PF_W (2), no-execute without PF_X (1). */
  function PageFlags(p: nat): nat
  {
    5 + (if p / 2 % 2 == 1 then 2 else 0) + (if p % 2 == 1 then 0 else 0x8000_0000_0000_0000)
  }

  function PageOf(a: nat): nat
  {
    a / PAGE * PAGE
  }

  ghost predicate Whole(pages: map<nat, Page>)
  {
    forall v :: v in pages ==> v % PAGE == 0 && |pages[v].bytes| == PAGE
  }

  /** The byte at an address; a page not mapped yet looks like the zeros it would be filled with. */
  ghost function Look(pages: map<nat, Page>, a: nat): Byte
    requires Whole(pages)
  {
    if PageOf(a) in pages then pages[PageOf(a)].bytes[a % PAGE] else 0
  }

  // ---------- a segment's addresses, in 64-bit arithmetic ----------

  function Start(seg: Seg, base: nat): nat
  {
    (base + seg.vaddr) % U64
  }

  function DataEnd(seg: Seg, base: nat): nat
  {
    (Start(seg, base) + seg.filesz) % U64
  }

  /** The end of the segment's last page. */
  function MemEnd(seg: Seg, base: nat): nat
  {
    PageOf(((Start(seg, base) + seg.memsz) % U64 + PAGE - 1) % U64)
  }

  /** The pages a segment loaded at `base` occupies. */
  predicate Occupies(seg: Seg, base: nat, a: nat)
  {
    PageOf(Start(seg, base)) <= a < MemEnd(seg, base)
  }

  /** The addresses that get a byte of the file. */
  predicate Covers(seg: Seg, base: nat, a: nat)
  {
    Occupies(seg, base, a) && Start(seg, base) <= a < DataEnd(seg, base)
  }

  /** The byte the segment asks for at an address. */
  function FileByte(seg: Seg, base: nat, file: Source, a: nat): Byte
    requires Start(seg, base) <= a
  {
    file((seg.offset + (a - Start(seg, base))) % U64)
  }

  /** What an address should hold after all segments: the byte of the last one that covers it. */
  ghost function Image(segs: seq<Seg>, base: nat, file: Source, a: nat, start: Byte): Byte
  {
    if segs == [] then start
    else
      var seg := segs[|segs| - 1];
      if seg.kind == PT_LOAD && Covers(seg, base, a) then FileByte(seg, base, file, a)
      else Image(segs[..|segs| - 1], base, file, a, start)
  }

  /** No address belongs to the file bytes of two segments. */
  ghost predicate Separate(segs: seq<Seg>, base: nat)
  {
    forall i, j, a: nat :: 0 <= i < j < |segs| && segs[i].kind == PT_LOAD && segs[j].kind == PT_LOAD ==>
      !(Covers(segs[i], base, a) && Covers(segs[j], base, a))
  }

  /** With segments apart, each address holds its own segment's byte, and what it held where there is none. */
  lemma {:induction false} ImageMeans(segs: seq<Seg>, base: nat, file: Source, a: nat, start: Byte)
    requires Separate(segs, base)
    ensures forall i :: 0 <= i < |segs| && segs[i].kind == PT_LOAD && Covers(segs[i], base, a) ==>
      Image(segs, base, file, a, start) == FileByte(segs[i], base, file, a)
    ensures (forall i :: 0 <= i < |segs| && segs[i].kind == PT_LOAD ==> !Covers(segs[i], base, a)) ==>
      Image(segs, base, file, a, start) == start
    decreases |segs|
  {
    if segs != [] {
      var n := |segs| - 1;
      ImageMeans(segs[..n], base, file, a, start);
      assert forall i :: 0 <= i < n ==> segs[..n][i] == segs[i];
    }
  }

  ghost function FlagsAt(pages: map<nat, Page>, v: nat): Option<nat>
  {
    if v in pages then Some(pages[v].flags) else None
  }

  /** A page is mapped with the flags of the last segment that has it. */
  function FlagsImage(segs: seq<Seg>, base: nat, v: nat, start: Option<nat>): Option<nat>
  {
    if segs == [] then start
    else
      var seg := segs[|segs| - 1];
      if seg.kind == PT_LOAD && Occupies(seg, base, v) then Some(PageFlags(seg.flags))
      else FlagsImage(segs[..|segs| - 1], base, v, start)
  }

  lemma PageFacts(a: nat, v: nat)
    requires v % PAGE == 0
    ensures PageOf(a) == v <==> v <= a < v + PAGE
    ensures v <= a < v + PAGE ==> a % PAGE == a - v
    ensures PageOf(a) % PAGE == 0 && PageOf(v) == v
  {
  }

  class AddressSpace {
    var pages: map<nat, Page>
    /** Page frames the page allocator can still give out. */
    var frames: nat

    ghost predicate Valid()
      reads this
    {
      Whole(pages)
    }

    method Provide(v: nat, flags: nat) returns (ok: bool)
      requires Valid() && v % PAGE == 0
      modifies this
      ensures Valid() && (ok <==> v in old(pages) || old(frames) > 0) && (!ok ==> frames == 0)
      ensures ok ==> v in pages && frames + |pages| == old(frames) + old(|pages|)
      ensures forall a :: Look(pages, a) == old(Look(pages, a))
      ensures ok ==> forall w :: FlagsAt(pages, w) == if w == v then Some(flags) else old(FlagsAt(pages, w))
    {
      if v in pages {
        pages := pages[v := pages[v].(flags := flags)];
      } else {
        if frames == 0 {
          return false;
        }
        frames := frames - 1;
        pages := pages[v := Page(seq(PAGE, _ => 0), flags)];
      }
      ok := true;
    }

    method CopyInto(v: nat, offset: nat, data: seq<Byte>)
      requires Valid() && v in pages && offset + |data| <= PAGE
      modifies `pages
      ensures Valid() && pages.Keys == old(pages.Keys) && |pages| == old(|pages|)
      ensures forall w :: FlagsAt(pages, w) == old(FlagsAt(pages, w))
      ensures forall a: nat ::
        Look(pages, a) == if v + offset <= a < v + offset + |data| then data[a - v - offset] else old(Look(pages, a))
    {
      var b := pages[v].bytes;
      ghost var was := pages;
      pages := pages[v := pages[v].(bytes := b[..offset] + data + b[offset + |data|..])];
      assert pages.Keys == was.Keys;
      forall a: nat
        ensures Look(pages, a) ==
          if v + offset <= a < v + offset + |data| then data[a - v - offset] else Look(was, a)
      {
        PageFacts(a, v);
      }
    }

    /** One page of a segment: mapped, and the file bytes that fall into it copied. */
    method LoadPage(seg: Seg, base: nat, file: Source, v: nat) returns (ok: bool)
      requires Valid() && v % PAGE == 0 && Occupies(seg, base, v)
      modifies this
      ensures Valid() && (!ok ==> frames == 0)
      ensures ok ==> frames + |pages| == old(frames) + old(|pages|)
      ensures ok ==> Between(old(pages), pages, seg, base, file, v, v + PAGE)
    {
      hide PageOf, Start, DataEnd, MemEnd, Occupies, Look, FlagsAt, Between, Covers, PageFlags, Whole;
      ok := Provide(v, PageFlags(seg.flags));
      if !ok {
        return;
      }
      var at, dataEnd := Start(seg, base), DataEnd(seg, base);
      var from := if v > at then v else at;
      var to := if v + PAGE < dataEnd then v + PAGE else dataEnd;
      InPage(seg, base, v);
      ghost var data: seq<Byte> := [];
      if from < to {
        var offset := seg.offset + (from - at);
        var copied := seq(to - from, i requires 0 <= i < to - from => file((offset + i) % U64));
        CopyInto(v, from - v, copied);
        data := copied;
      }
      PageIsBetween(old(pages), pages, seg, base, file, v, from, data);
    }

    method LoadSegment(seg: Seg, base: nat, file: Source) returns (ok: bool)
      requires Valid()
      modifies this
      ensures Valid() && (!ok ==> frames == 0)
      ensures ok ==> frames + |pages| == old(frames) + old(|pages|)
      ensures ok ==> Loaded(old(pages), pages, seg, base, file)
    {
      hide PageOf, Start, MemEnd, Whole, Occupies, Between, Loaded;
      var v, end := PageOf(Start(seg, base)), MemEnd(seg, base);
      ghost var start := v;
      Span(seg, base, start, end);
      BetweenNone(pages, seg, base, file, v);
      while v < end
        invariant Valid() && v % PAGE == 0 && start <= v && (v <= end || v == start)
        invariant frames + |pages| == old(frames) + old(|pages|)
        invariant Between(old(pages), pages, seg, base, file, start, v)
      {
        ghost var mid := pages;
        ok := LoadPage(seg, base, file, v);
        if !ok {
          return;
        }
        BetweenMore(old(pages), mid, pages, seg, base, file, start, v);
        v := v + PAGE;
      }
      BetweenAll(old(pages), pages, seg, base, file, start, v);
      ok := true;
    }

    /** Loads every PT_LOAD segment in order and finds the end of the highest page. */
    method LoadAll(segs: seq<Seg>, base: nat, file: Source) returns (ok: bool, top: nat)
      requires Valid()
      modifies this
      ensures Valid() && (!ok ==> frames == 0)
      ensures ok ==> frames + |pages| == old(frames) + old(|pages|) && top == Top(segs, base)
      ensures ok ==> forall w: nat :: w % PAGE == 0 ==> FlagsAt(pages, w) == FlagsImage(segs, base, w, old(FlagsAt(pages, w)))
      ensures ok ==> forall a: nat :: Look(pages, a) == Image(segs, base, file, a, old(Look(pages, a)))
    {
      hide Look, FlagsAt, Covers, Occupies, FileByte, MemEnd, Whole;
      var i := 0;
      top := 0;
      while i < |segs|
        invariant i <= |segs| && Valid() && top == Top(segs[..i], base)
        invariant frames + |pages| == old(frames) + old(|pages|)
        invariant forall w: nat :: w % PAGE == 0 ==>
          FlagsAt(pages, w) == FlagsImage(segs[..i], base, w, old(FlagsAt(pages, w)))
        invariant forall a: nat :: Look(pages, a) == Image(segs[..i], base, file, a, old(Look(pages, a)))
      {
        ghost var done := segs[..i + 1];
        assert done[..i] == segs[..i] && done[i] == segs[i];
        if segs[i].kind == PT_LOAD {
          var end := MemEnd(segs[i], base);
          if end > top {
            top := end;
          }
          ok := LoadSegment(segs[i], base, file);
          if !ok {
            return;
          }
        }
        i := i + 1;
      }
      assert segs[..i] == segs;
      ok := true;
    }

    /** The executable, and above it the interpreter it names, if any. */
    method LoadProgram(main: seq<Seg>, base: nat, file: Source, hasInterp: bool, interp: seq<Seg>, interpFile: Source)
      returns (ok: bool, interpBase: nat)
      requires Valid() && pages == map[]
      modifies this
      ensures Valid() && (!ok ==> frames == 0)
      ensures ok ==> interpBase == if hasInterp then InterpBase(Top(main, base)) else 0
      ensures ok && !hasInterp ==> forall a: nat :: Look(pages, a) == Image(main, base, file, a, 0)
      ensures ok && hasInterp ==>
        forall a: nat :: Look(pages, a) == Image(interp, interpBase, interpFile, a, Image(main, base, file, a, 0))
      ensures ok && !hasInterp ==>
        forall w: nat :: w % PAGE == 0 ==> FlagsAt(pages, w) == FlagsImage(main, base, w, None)
      ensures ok && hasInterp ==>
        forall w: nat :: w % PAGE == 0 ==>
          FlagsAt(pages, w) == FlagsImage(interp, interpBase, w, FlagsImage(main, base, w, None))
    {
      hide Image, FlagsImage, Top, InterpBase;
      var top: nat;
      ok, top := LoadAll(main, base, file);
      interpBase := 0;
      if ok && hasInterp {
        interpBase := InterpBase(top);
        ok, top := LoadAll(interp, interpBase, interpFile);
      }
    }
  }

  /** The end of the highest page of any segment. */
  function Top(segs: seq<Seg>, base: nat): (t: nat)
    ensures t < U64
  {
    if segs == [] then 0
    else
      var seg, rest := segs[|segs| - 1], Top(segs[..|segs| - 1], base);
      var end := MemEnd(seg, base);
      if seg.kind == PT_LOAD && end > rest then end else rest
  }

  /** The next 2 MiB boundary in 64-bit arithmetic, or 16 MiB when that is 0. */
  function InterpBase(top: nat): nat
  {
    var b := (top + HUGE - 1) % U64 / HUGE * HUGE;
    if b == 0 then 0x1000000 else b
  }

  /** The interpreter is put above the executable exactly when the rounding does not wrap. */
  lemma InterpAbove(top: nat)
    requires top < U64
    ensures InterpBase(top) % PAGE == 0
    ensures top <= InterpBase(top) <==> top + HUGE - 1 < U64
  {
  }

  /** No segment of the interpreter wraps around past 2^64 when the base is added to its address. */
  predicate Upward(interp: seq<Seg>, base: nat)
  {
    forall j :: 0 <= j < |interp| && interp[j].kind == PT_LOAD ==> base + interp[j].vaddr < U64
  }

  lemma StartAbove(seg: Seg, base: nat)
    requires base % PAGE == 0 && base < U64 && seg.vaddr < U64
    ensures base <= PageOf(Start(seg, base)) <==> base + seg.vaddr < U64
  {
  }

  /**
    The interpreter lies above the executable, segment by segment, exactly when neither rounding up
    its base nor adding the base to an address of its own wraps.
   */
  lemma WhollyAbove(main: seq<Seg>, base: nat, interp: seq<Seg>)
    requires forall j :: 0 <= j < |interp| ==> interp[j].vaddr < U64
    ensures var top, ib := Top(main, base), InterpBase(Top(main, base));
      (&& top <= ib
       && forall j :: 0 <= j < |interp| && interp[j].kind == PT_LOAD ==> ib <= PageOf(Start(interp[j], ib)))
      <==> top + HUGE - 1 < U64 && Upward(interp, ib)
  {
    var top, ib := Top(main, base), InterpBase(Top(main, base));
    InterpAbove(top);
    forall j | 0 <= j < |interp|
      ensures ib <= PageOf(Start(interp[j], ib)) <==> ib + interp[j].vaddr < U64
    {
      StartAbove(interp[j], ib);
    }
  }

  /** With neither wrap, no segment of the executable reaches a page of the interpreter. */
  lemma InterpreterApart(main: seq<Seg>, base: nat, interp: seq<Seg>, i: nat, j: nat, a: nat)
    requires i < |main| && j < |interp| && main[i].kind == interp[j].kind == PT_LOAD
    requires Top(main, base) + HUGE - 1 < U64 && Upward(interp, InterpBase(Top(main, base)))
    requires Occupies(main[i], base, a)
    ensures !Occupies(interp[j], InterpBase(Top(main, base)), a)
  {
    hide Top, InterpBase, MemEnd, PageOf, Start;
    TopIsHighest(main, base, i);
    InterpAbove(Top(main, base));
    StartAbove(interp[j], InterpBase(Top(main, base)));
  }

  /** An empty segment near the top of the address space puts the interpreter onto the executable. */
  lemma InterpreterOverlaps()
    ensures var main := [Seg(PT_LOAD, 5, 0, 0x1000000, 4096, 4096), Seg(PT_LOAD, 5, 0, 0xffff_ffff_ffff_c000, 0, 0)];
      var interp := [Seg(PT_LOAD, 5, 0, 0, 4096, 4096)];
      && Separate(main, 0) && Upward(interp, InterpBase(Top(main, 0)))
      && InterpBase(Top(main, 0)) == 0x1000000
      && Covers(main[0], 0, 0x1000000) && Covers(interp[0], InterpBase(Top(main, 0)), 0x1000000)
  {
    hide Top;
    var x, y := Seg(PT_LOAD, 5, 0, 0x1000000, 4096, 4096), Seg(PT_LOAD, 5, 0, 0xffff_ffff_ffff_c000, 0, 0);
    TopOfTwo(x, y, 0);
    assert MemEnd(x, 0) == 0x1001000 && MemEnd(y, 0) == 0xffff_ffff_ffff_c000;
    assert forall a: nat :: !Covers(y, 0, a);
  }

  lemma TopOfTwo(x: Seg, y: Seg, base: nat)
    requires x.kind == PT_LOAD && y.kind == PT_LOAD
    ensures Top([x], base) == MemEnd(x, base)
    ensures Top([x, y], base) == if MemEnd(y, base) > MemEnd(x, base) then MemEnd(y, base) else MemEnd(x, base)
  {
    hide MemEnd;
    assert [x, y][..1] == [x] && [x][..0] == [];
  }

  /** So does an interpreter whose own address wraps when the base is added. */
  lemma InterpreterWraps()
    ensures var main := [Seg(PT_LOAD, 5, 0, 0x400000, 4096, 4096)];
      var interp := [Seg(PT_LOAD, 5, 0, 0xffff_ffff_ffe0_0000, 4096, 4096)];
      && Top(main, 0) == 0x401000 && InterpBase(Top(main, 0)) == 0x600000 && !Upward(interp, 0x600000)
      && Covers(main[0], 0, 0x400000) && Covers(interp[0], 0x600000, 0x400000)
  {
    hide Top;
    var x, y := Seg(PT_LOAD, 5, 0, 0x400000, 4096, 4096), Seg(PT_LOAD, 5, 0, 0xffff_ffff_ffe0_0000, 4096, 4096);
    TopOfTwo(x, x, 0);
    assert MemEnd(x, 0) == 0x401000;
    assert Start(y, 0x600000) == 0x400000 && [y][0].kind == PT_LOAD;
  }

  /** The loaded program: the interpreter's bytes, then the executable's, then zeros. */
  lemma ProgramMeans(main: seq<Seg>, base: nat, file: Source, interp: seq<Seg>, interpFile: Source, a: nat)
    requires Separate(main, base) && Separate(interp, InterpBase(Top(main, base)))
    ensures var ib := InterpBase(Top(main, base));
      var held := Image(interp, ib, interpFile, a, Image(main, base, file, a, 0));
      && (forall j :: 0 <= j < |interp| && interp[j].kind == PT_LOAD && Covers(interp[j], ib, a) ==>
            held == FileByte(interp[j], ib, interpFile, a))
      && (NoneCovers(interp, ib, a) ==>
            forall i :: 0 <= i < |main| && main[i].kind == PT_LOAD && Covers(main[i], base, a) ==>
              held == FileByte(main[i], base, file, a))
      && (NoneCovers(main, base, a) && NoneCovers(interp, ib, a) ==> held == 0)
  {
    var ib := InterpBase(Top(main, base));
    hide InterpBase, Top, Separate, Covers;
    ImageMeans(main, base, file, a, 0);
    ImageMeans(interp, ib, interpFile, a, Image(main, base, file, a, 0));
  }

  predicate NoneCovers(segs: seq<Seg>, base: nat, a: nat)
  {
    forall i :: 0 <= i < |segs| && segs[i].kind == PT_LOAD ==> !Covers(segs[i], base, a)
  }

  /** With no wrap, executable and interpreter both keep every file byte of theirs. */
  lemma BothKept(main: seq<Seg>, base: nat, file: Source, interp: seq<Seg>, interpFile: Source, i: nat, a: nat)
    requires Separate(main, base) && Separate(interp, InterpBase(Top(main, base)))
    requires Top(main, base) + HUGE - 1 < U64 && Upward(interp, InterpBase(Top(main, base)))
    requires i < |main| && main[i].kind == PT_LOAD && Covers(main[i], base, a)
    ensures Image(interp, InterpBase(Top(main, base)), interpFile, a, Image(main, base, file, a, 0))
      == FileByte(main[i], base, file, a)
  {
    var ib := InterpBase(Top(main, base));
    forall j | 0 <= j < |interp| && interp[j].kind == PT_LOAD
      ensures !Covers(interp[j], ib, a)
    {
      InterpreterApart(main, base, interp, i, j, a);
    }
    hide Image, FileByte, InterpBase, Top, Separate, Covers;
    ProgramMeans(main, base, file, interp, interpFile, a);
  }

  lemma {:induction false} TopIsHighest(segs: seq<Seg>, base: nat, i: nat)
    requires i < |segs| && segs[i].kind == PT_LOAD
    ensures MemEnd(segs[i], base) <= Top(segs, base)
    decreases |segs|
  {
    hide MemEnd;
    var n := |segs| - 1;
    if i < n {
      TopIsHighest(segs[..n], base, i);
    }
  }

  /** The part of a segment from page lo up to page hi is loaded, all else as before. */
  ghost predicate Between(was: map<nat, Page>, pages: map<nat, Page>, seg: Seg, base: nat, file: Source, lo: nat, hi: nat)
  {
    && Whole(was) && Whole(pages)
    && (forall w: nat :: w % PAGE == 0 ==>
          FlagsAt(pages, w) == if lo <= w < hi then Some(PageFlags(seg.flags)) else FlagsAt(was, w))
    && (forall a: nat ::
          Look(pages, a) == if lo <= a < hi && Covers(seg, base, a) then FileByte(seg, base, file, a) else Look(was, a))
  }

  /** The whole segment is loaded, all else as before. */
  ghost predicate Loaded(was: map<nat, Page>, pages: map<nat, Page>, seg: Seg, base: nat, file: Source)
  {
    && Whole(was) && Whole(pages)
    && (forall w: nat :: w % PAGE == 0 ==>
          FlagsAt(pages, w) == if Occupies(seg, base, w) then Some(PageFlags(seg.flags)) else FlagsAt(was, w))
    && (forall a: nat ::
          Look(pages, a) == if Covers(seg, base, a) then FileByte(seg, base, file, a) else Look(was, a))
  }

  lemma Span(seg: Seg, base: nat, lo: nat, hi: nat)
    requires lo == PageOf(Start(seg, base)) && hi == MemEnd(seg, base)
    ensures lo % PAGE == 0 && hi % PAGE == 0
    ensures forall a: nat :: lo <= a < hi ==> Occupies(seg, base, a)
  {
  }

  /** Copying the overlap of the file bytes with one page loads that page. */
  lemma PageIsBetween(was: map<nat, Page>, pages: map<nat, Page>, seg: Seg, base: nat, file: Source,
                      v: nat, from: nat, data: seq<Byte>)
    requires Whole(was) && Whole(pages) && v % PAGE == 0
    requires forall a :: v <= a < v + PAGE ==> Occupies(seg, base, a)
    requires var at, dataEnd := Start(seg, base), DataEnd(seg, base);
      var to := if v + PAGE < dataEnd then v + PAGE else dataEnd;
      && from == (if v > at then v else at)
      && |data| == (if from < to then to - from else 0)
      && forall i :: 0 <= i < |data| ==> data[i] == file((seg.offset + (from - at) + i) % U64)
    requires forall w :: FlagsAt(pages, w) == if w == v then Some(PageFlags(seg.flags)) else FlagsAt(was, w)
    requires forall a: nat ::
      Look(pages, a) == if from <= a < from + |data| then data[a - from] else Look(was, a)
    ensures Between(was, pages, seg, base, file, v, v + PAGE)
  {
    hide Look, FlagsAt, Whole, Occupies, Start, DataEnd, PageFlags;
    forall a: nat
      ensures Look(pages, a) == if v <= a < v + PAGE && Covers(seg, base, a) then FileByte(seg, base, file, a) else Look(was, a)
    {
      assert from <= a < from + |data| <==> v <= a < v + PAGE && Covers(seg, base, a);
    }
  }

  lemma BetweenNone(pages: map<nat, Page>, seg: Seg, base: nat, file: Source, v: nat)
    requires Whole(pages)
    ensures Between(pages, pages, seg, base, file, v, v)
  {
  }

  lemma BetweenMore(was: map<nat, Page>, mid: map<nat, Page>, pages: map<nat, Page>, seg: Seg, base: nat,
                    file: Source, lo: nat, v: nat)
    requires lo <= v && v % PAGE == 0
    requires Between(was, mid, seg, base, file, lo, v) && Between(mid, pages, seg, base, file, v, v + PAGE)
    ensures Between(was, pages, seg, base, file, lo, v + PAGE)
  {
  }

  lemma BetweenAll(was: map<nat, Page>, pages: map<nat, Page>, seg: Seg, base: nat, file: Source, lo: nat, hi: nat)
    requires lo == PageOf(Start(seg, base))
    requires hi == MemEnd(seg, base) || (hi == lo && hi >= MemEnd(seg, base))
    requires Between(was, pages, seg, base, file, lo, hi)
    ensures Loaded(was, pages, seg, base, file)
  {
  }

  lemma InPage(seg: Seg, base: nat, v: nat)
    requires v % PAGE == 0 && Occupies(seg, base, v)
    ensures forall a :: v <= a < v + PAGE ==> Occupies(seg, base, a)
  {
  }
}
