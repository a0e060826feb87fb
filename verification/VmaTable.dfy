/** The system calls that edit a process's VMA slots in place. */
module VmaTable {
  import opened Common
  import opened VmaMap

  const VMA_MAX: nat := 128
  const PAGE: nat := 4096

  datatype Status = OK | EINVAL | ENOMEM | EBADF | ENODEV | ENOSYS

  /** What the file descriptor of mmap names. */
  datatype FileArg = BadFd | NotRegular | Regular(id: nat)

  /** page_align_up in 64-bit arithmetic. */
  function AlignUp(x: nat): (r: nat)
    ensures r < U64 && r % PAGE == 0
    ensures x + 0xfff < U64 ==> x <= r < x + PAGE
  {
    (x + 0xfff) % U64 / PAGE * PAGE
  }

  ghost predicate EndsBy(t: seq<Vma>, top: nat)
  {
    forall k :: 0 <= k < |t| && t[k].valid ==> t[k].end <= top
  }

  /** No mapping of t' reaches higher than those of t. */
  ghost predicate NoHigher(t: seq<Vma>, t': seq<Vma>)
  {
    forall top :: EndsBy(t, top) ==> EndsBy(t', top)
  }

  // ---------- counting slots ----------

  function ValidCount(t: seq<Vma>): nat
  {
    if t == [] then 0 else ValidCount(t[..|t| - 1]) + if t[|t| - 1].valid then 1 else 0
  }

  lemma {:induction false} ValidCountUpdate(t: seq<Vma>, i: int, p: Vma)
    requires 0 <= i < |t|
    ensures ValidCount(t[i := p])
            == ValidCount(t) - (if t[i].valid then 1 else 0) + (if p.valid then 1 else 0)
  {
    var n := |t| - 1;
    if i == n {
      assert t[i := p][..n] == t[..n];
    } else {
      assert t[i := p][..n] == t[..n][i := p];
      ValidCountUpdate(t[..n], i, p);
    }
  }

  lemma {:induction false} ValidCountFull(t: seq<Vma>)
    requires ValidCount(t) < |t|
    ensures exists k :: 0 <= k < |t| && !t[k].valid
  {
    if t[|t| - 1].valid {
      ValidCountFull(t[..|t| - 1]);
      var k :| 0 <= k < |t| - 1 && !t[..|t| - 1][k].valid;
      assert !t[k].valid;
    }
  }

  lemma {:induction false} ValidCountFree(t: seq<Vma>)
    ensures ValidCount(t) <= |t| && (HasFree(t) <==> ValidCount(t) < |t|)
  {
    if t != [] {
      var n := |t| - 1;
      ValidCountFree(t[..n]);
      if k :| 0 <= k < n && !t[..n][k].valid {
        assert !t[k].valid;
      }
      if k :| 0 <= k < |t| && !t[k].valid {
        assert k < n ==> !t[..n][k].valid;
      }
    }
  }

  /** v reaches past both ends of [lo, hi). */
  predicate Strict(v: Vma, lo: nat, hi: nat)
  {
    v.valid && v.start < lo && v.end > hi
  }

  ghost predicate AnyStrict(t: seq<Vma>, lo: nat, hi: nat)
  {
    exists k :: 0 <= k < |t| && Strict(t[k], lo, hi)
  }

  ghost predicate HasFree(t: seq<Vma>)
  {
    exists k :: 0 <= k < |t| && !t[k].valid
  }

  lemma SplitMeans(t: seq<Vma>, i: nat, j: nat, lo: nat, hi: nat)
    requires Wf(t) && i < |t| && j < |t| && Strict(t[i], lo, hi) && !t[j].valid && lo <= hi
    ensures var t' := t[i := t[i].(end := lo)][j := Sub(t[i], hi, t[i].end)];
            Wf(t') && forall a :: At(t', a) == if lo <= a < hi then None else At(t, a)
  {
    hide Wrap;
    var v := t[i];
    var left, right := v.(end := lo), Sub(v, hi, v.end);
    SlotChanged(t, i, left);
    SlotChanged(t[i := left], j, right);
    forall a ensures Contains(v, a) ==> At(t, a) == Some(AttrAt(v, a)) && AttrAt(right, a) == AttrAt(v, a) {
      SubAttr(v, hi, v.end, a);
      assert Contains(v, a) ==> Covers(t, i, a);
    }
  }

  lemma NoneCovers(t: seq<Vma>, a: int, lo: nat, hi: nat)
    requires lo <= a < hi && forall k :: 0 <= k < |t| ==> !Overlaps(t[k], lo, hi)
    ensures At(t, a) == None
  {
  }

  // ---------- cutting a range out of the table ----------

  predicate Inside(v: Vma, lo: nat, hi: nat)
  {
    v.valid && v.start >= lo && v.end <= hi
  }

  /** v does not touch [lo, hi), not even as an empty slot at one of its ends. */
  predicate Clean(v: Vma, lo: nat, hi: nat)
  {
    v.valid ==> (v.end <= lo && v.start < lo) || (v.start >= hi && v.end > hi)
  }

  /** What is left of a slot that does not span [lo, hi). */
  function CutPiece(v: Vma, lo: nat, hi: nat): Vma
  {
    if Inside(v, lo, hi) then v.(valid := false)
    else if v.valid && v.start < lo < v.end && v.end <= hi then v.(end := lo)
    else if v.valid && lo <= v.start < hi < v.end then Sub(v, hi, v.end)
    else v
  }

  ghost predicate SplitInto(t: seq<Vma>, t': seq<Vma>, i: nat, j: nat, lo: nat, hi: nat)
    requires i < |t| && j < |t|
  {
    !t[j].valid && t' == t[i := t[i].(end := lo)][j := Sub(t[i], hi, t[i].end)]
  }

  /** Slot i has given up [lo, hi). */
  ghost predicate CutAt(t: seq<Vma>, t': seq<Vma>, i: nat, lo: nat, hi: nat)
    requires i < |t|
  {
    if Strict(t[i], lo, hi) then exists j: nat :: j < |t| && SplitInto(t, t', i, j, lo, hi)
    else t' == t[i := CutPiece(t[i], lo, hi)]
  }

  lemma CutMeans(t: seq<Vma>, t': seq<Vma>, i: nat, lo: nat, hi: nat)
    requires Wf(t) && i < |t| && lo <= hi < U64 && CutAt(t, t', i, lo, hi)
    ensures Wf(t') && forall a :: !(lo <= a < hi) ==> At(t', a) == At(t, a)
  {
    hide Wrap;
    var v := t[i];
    if Strict(v, lo, hi) {
      var j: nat :| j < |t| && SplitInto(t, t', i, j, lo, hi);
      SplitMeans(t, i, j, lo, hi);
    } else {
      var p := CutPiece(v, lo, hi);
      SlotChanged(t, i, p);
      forall a | Contains(v, a) && !(lo <= a < hi) ensures Contains(p, a) && At(t, a) == Some(AttrAt(p, a)) {
        assert Covers(t, i, a);
        AtSlot(t, i, a);
        SubAttr(v, hi, v.end, a);
      }
    }
  }

  lemma OneStrict(t: seq<Vma>, i: nat, k: nat, lo: nat, hi: nat)
    requires Wf(t) && i < k < |t| && Strict(t[k], lo, hi) && lo <= hi
    ensures !Strict(t[i], lo, hi)
  {
  }

  lemma CutKeepsFree(t: seq<Vma>, t': seq<Vma>, i: nat, lo: nat, hi: nat)
    requires i < |t| && CutAt(t, t', i, lo, hi) && !Strict(t[i], lo, hi) && HasFree(t)
    ensures HasFree(t')
  {
    var free :| 0 <= free < |t| && !t[free].valid;
    assert !t'[free].valid;
  }

  lemma CutCleans(t: seq<Vma>, t': seq<Vma>, i: nat, lo: nat, hi: nat)
    requires Wf(t) && i < |t| && lo <= hi < U64 && CutAt(t, t', i, lo, hi)
    ensures |t'| == |t| && Clean(t'[i], lo, hi) && NoHigher(t, t')
    ensures forall k :: 0 <= k < |t| && k != i ==> t'[k] == t[k] || (!t[k].valid && Clean(t'[k], lo, hi))
    ensures !Strict(t[i], lo, hi) ==> forall k :: 0 <= k < |t| && k != i ==> t'[k] == t[k]
  {
    hide Wrap;
  }

  /** How many slots the cut of v takes, or gives back. */
  function Delta(v: Vma, lo: nat, hi: nat): int
  {
    if Inside(v, lo, hi) then -1 else if Strict(v, lo, hi) then 1 else 0
  }

  function DeltaFrom(t: seq<Vma>, i: nat, lo: nat, hi: nat): int
    decreases |t| - i
  {
    if i >= |t| then 0 else Delta(t[i], lo, hi) + DeltaFrom(t, i + 1, lo, hi)
  }

  lemma {:induction false} DeltaFromSame(t: seq<Vma>, t': seq<Vma>, i: nat, lo: nat, hi: nat)
    requires |t'| == |t| && forall k :: i <= k < |t| ==> Delta(t'[k], lo, hi) == Delta(t[k], lo, hi)
    ensures DeltaFrom(t', i, lo, hi) == DeltaFrom(t, i, lo, hi)
    decreases |t| - i
  {
    if i < |t| {
      DeltaFromSame(t, t', i + 1, lo, hi);
    }
  }

  lemma CutCounts(t: seq<Vma>, t': seq<Vma>, i: nat, lo: nat, hi: nat)
    requires Wf(t) && i < |t| && lo <= hi < U64 && CutAt(t, t', i, lo, hi)
    ensures |t'| == |t| && ValidCount(t') == ValidCount(t) + Delta(t[i], lo, hi)
    ensures DeltaFrom(t', i + 1, lo, hi) == DeltaFrom(t, i + 1, lo, hi)
  {
    hide Wrap, ValidCount;
    var v := t[i];
    if Strict(v, lo, hi) {
      var j: nat :| j < |t| && SplitInto(t, t', i, j, lo, hi);
      ValidCountUpdate(t, i, v.(end := lo));
      ValidCountUpdate(t[i := v.(end := lo)], j, Sub(v, hi, v.end));
    } else {
      ValidCountUpdate(t, i, CutPiece(v, lo, hi));
    }
    CutCleans(t, t', i, lo, hi);
    DeltaFromSame(t, t', i + 1, lo, hi);
  }

  /** Slot k of t' is slot o of t, whole, or its part below lo, or its part from hi on. */
  ghost predicate From(t: seq<Vma>, t': seq<Vma>, k: nat, o: nat, lo: nat, hi: nat)
    requires |t'| == |t| && k < |t| && o < |t|
  {
    && t[o].valid
    && (|| (o == k && t'[k] == t[k])
        || (o == k && t[k].start < lo < t[k].end && t'[k] == t[k].(end := lo))
        || (t[o].start < hi < t[o].end && t'[k] == Sub(t[o], hi, t[o].end)
            && (if o == k then lo <= t[o].start else t[o].start < lo)))
  }

  ghost predicate Pieces(t: seq<Vma>, t': seq<Vma>, lo: nat, hi: nat)
  {
    |t'| == |t| && forall k: nat :: k < |t| && t'[k].valid ==> exists o: nat :: o < |t| && From(t, t', k, o, lo, hi)
  }

  lemma PiecesStart(t: seq<Vma>, lo: nat, hi: nat)
    ensures Pieces(t, t, lo, hi)
  {
    forall k: nat | k < |t| && t[k].valid ensures exists o: nat :: o < |t| && From(t, t, k, o, lo, hi) {
      assert From(t, t, k, k, lo, hi);
    }
  }

  lemma PiecesCut(t: seq<Vma>, mid: seq<Vma>, t': seq<Vma>, i: nat, lo: nat, hi: nat)
    requires Pieces(t, mid, lo, hi) && i < |t| && lo <= hi < U64 && CutAt(mid, t', i, lo, hi)
    requires mid[i].valid ==> mid[i] == t[i] || Clean(mid[i], lo, hi)
    ensures Pieces(t, t', lo, hi)
  {
    hide Wrap, Wf, Pieces;
    PiecesLength(t, mid, lo, hi);
    if Strict(mid[i], lo, hi) {
      var j: nat :| j < |mid| && SplitInto(mid, t', i, j, lo, hi);
      assert From(t, t', i, i, lo, hi) && From(t, t', j, i, lo, hi);
      PiecesSame(t, mid, t', lo, hi, iset{i, j});
    } else {
      if t'[i].valid && t'[i] != mid[i] {
        assert From(t, t', i, i, lo, hi);
        PiecesSame(t, mid, t', lo, hi, iset{i});
      } else {
        PiecesSame(t, mid, t', lo, hi, iset{});
      }
    }
  }

  lemma PiecesLength(t: seq<Vma>, t': seq<Vma>, lo: nat, hi: nat)
    ensures Pieces(t, t', lo, hi) ==> |t'| == |t|
  {
  }

  lemma PiecesSame(t: seq<Vma>, mid: seq<Vma>, t': seq<Vma>, lo: nat, hi: nat, changed: iset<nat>)
    requires Pieces(t, mid, lo, hi) && |t'| == |t|
    requires forall k: nat :: k < |t| && k !in changed ==> t'[k] == mid[k] || !t'[k].valid
    requires forall k: nat :: k < |t| && k in changed ==> exists o: nat :: o < |t| && From(t, t', k, o, lo, hi)
    ensures Pieces(t, t', lo, hi)
  {
    hide Wrap;
    forall k: nat | k < |t| && t'[k].valid ensures exists o: nat :: o < |t| && From(t, t', k, o, lo, hi) {
      if k !in changed {
        var o: nat :| o < |t| && From(t, mid, k, o, lo, hi);
        assert From(t, t', k, o, lo, hi);
      }
    }
  }

  // ---------- empty slots ----------

  /** A valid slot that maps nothing; mprotect leaves one when its length rounds to 0. */
  predicate Speck(v: Vma)
  {
    v.valid && v.start == v.end
  }

  /** Every empty slot lies inside a mapped stretch. */
  ghost predicate Snug(t: seq<Vma>)
  {
    forall k :: 0 <= k < |t| && Speck(t[k]) ==> At(t, t[k].start - 1) != None && At(t, t[k].start) != None
  }

  lemma CutSnug(t: seq<Vma>, t': seq<Vma>, lo: nat, hi: nat)
    requires Snug(t) && Pieces(t, t', lo, hi) && lo <= hi && forall k :: 0 <= k < |t'| ==> Clean(t'[k], lo, hi)
    requires forall a :: !(lo <= a < hi) ==> At(t', a) == At(t, a)
    ensures Snug(t')
  {
    hide Wrap, At;
    forall k: nat | k < |t'| && Speck(t'[k]) ensures At(t', t'[k].start - 1) != None && At(t', t'[k].start) != None {
      var o: nat :| o < |t| && From(t, t', k, o, lo, hi);
      assert Speck(t[o]) && t[o].start == t'[k].start;
    }
  }

  lemma NotMerged(t: seq<Vma>, i: nat, j: nat)
    requires i < |t| && j < |t| && Mergeable(t, i, j)
    ensures !Merged(t)
  {
  }

  lemma NoHigherRefl(t: seq<Vma>)
    ensures NoHigher(t, t)
  {
  }

  lemma NoHigherTrans(t: seq<Vma>, mid: seq<Vma>, t': seq<Vma>)
    requires NoHigher(t, mid) && NoHigher(mid, t')
    ensures NoHigher(t, t')
  {
  }

  lemma MergeStepFacts(t: seq<Vma>, i: nat, j: nat)
    requires i < |t| && j < |t| && Mergeable(t, i, j)
    ensures var t' := MergeStep(t, i, j);
            && ValidCount(t') < ValidCount(t) && NoHigher(t, t')
            && (Wf(t) ==> Wf(t') && forall a :: At(t', a) == At(t, a))
            && (Wf(t) && Snug(t) ==> Snug(t'))
  {
    hide Wf, At, Snug, ValidCount, Wrap;
    ValidCountUpdate(t, i, t[i].(end := t[j].end));
    ValidCountUpdate(t[i := t[i].(end := t[j].end)], j, t[j].(valid := false));
    if Wf(t) {
      MergeStepKeeps(t, i, j);
      if Snug(t) {
        MergeStepSnug(t, i, j);
      }
    }
  }

  lemma MergeStepSnug(t: seq<Vma>, i: nat, j: nat)
    requires Wf(t) && Snug(t) && i < |t| && j < |t| && Mergeable(t, i, j)
    ensures Snug(MergeStep(t, i, j))
  {
    hide Wrap, At;
    MergeStepKeeps(t, i, j);
  }

  /** Cutting a range that is not empty makes no neighbours that could be joined. */
  lemma CutMerged(t: seq<Vma>, t': seq<Vma>, lo: nat, hi: nat)
    requires Wf(t) && Merged(t) && Pieces(t, t', lo, hi) && lo < hi
    requires forall k :: 0 <= k < |t'| ==> Clean(t'[k], lo, hi)
    ensures Merged(t')
  {
    hide Wrap, Pieces;
    PiecesLength(t, t', lo, hi);
    forall i: nat, j: nat | i < |t'| && j < |t'| ensures !Mergeable(t', i, j) {
      if Mergeable(t', i, j) {
        PiecesMergeable(t, t', i, j, lo, hi);
      }
    }
  }

  lemma PiecesMergeable(t: seq<Vma>, t': seq<Vma>, i: nat, j: nat, lo: nat, hi: nat)
    requires Wf(t) && Pieces(t, t', lo, hi) && lo < hi && i < |t'| && j < |t'| && Mergeable(t', i, j)
    requires Clean(t'[i], lo, hi) && Clean(t'[j], lo, hi)
    ensures !Merged(t)
  {
    hide Wrap, Wf;
    var x: nat :| x < |t| && From(t, t', i, x, lo, hi);
    var y: nat :| y < |t| && From(t, t', j, y, lo, hi);
    FromEnds(t, t', i, j, x, y, lo, hi);
    FromOffset(t, t', i, x, lo, hi);
    assert Mergeable(t, x, y);
  }

  lemma FromEnds(t: seq<Vma>, t': seq<Vma>, i: nat, j: nat, x: nat, y: nat, lo: nat, hi: nat)
    requires |t'| == |t| && i < |t| && j < |t| && x < |t| && y < |t| && i != j && lo < hi
    requires From(t, t', i, x, lo, hi) && From(t, t', j, y, lo, hi) && t'[i].end == t'[j].start
    requires t'[i].valid && t'[j].valid && Clean(t'[i], lo, hi) && Clean(t'[j], lo, hi)
    ensures x != y && t'[i].end == t[x].end && t'[j].start == t[y].start && t'[j].offset == t[y].offset
  {
    hide Wrap;
  }

  lemma FromOffset(t: seq<Vma>, t': seq<Vma>, k: nat, o: nat, lo: nat, hi: nat)
    requires |t'| == |t| && k < |t| && o < |t| && From(t, t', k, o, lo, hi) && t'[k].end == t[o].end
    ensures !t[o].anonymous ==>
              Wrap(t'[k].offset + (t'[k].end - t'[k].start)) == Wrap(t[o].offset + (t[o].end - t[o].start))
  {
    hide Wrap;
    WrapAdd(t[o].offset + (hi - t[o].start), t[o].end - hi);
  }

  // ---------- re-protection ----------

  /** Page-table flags for a protection, as the 32-bit flags field of a slot keeps them. */
  function FlagsFor(prot: nat): nat
  {
    1 + 4 + (if prot / 2 % 2 == 1 then 2 else 0)
  }

  function Recolor(v: Vma, prot: nat): Vma
  {
    v.(prot := prot, flags := FlagsFor(prot))
  }

  /** The map after re-protecting [lo, hi) of whatever is mapped there. */
  function Reprotect(x: Option<Attr>, prot: nat): Option<Attr>
  {
    match x
    case None => None
    case Some(at) => Some(at.(prot := prot, flags := FlagsFor(prot)))
  }

  /** t' re-protects exactly the part of slot i that lies in [lo, hi). */
  ghost predicate Reprotected(t: seq<Vma>, t': seq<Vma>, i: int, lo: nat, hi: nat, prot: nat)
    requires 0 <= i < |t|
  {
    && Wf(t')
    && forall a :: At(t', a) == if lo <= a < hi && Contains(t[i], a) then Reprotect(At(t, a), prot) else At(t, a)
  }

  lemma CoveredAt(t: seq<Vma>, i: int, lo: nat, hi: nat, prot: nat)
    requires Wf(t) && 0 <= i < |t|
    ensures forall a :: Contains(t[i], a) ==> At(t, a) == Some(AttrAt(t[i], a))
    ensures forall a :: AttrAt(Recolor(Sub(t[i], lo, hi), prot), a)
                        == AttrAt(t[i], a).(prot := prot, flags := FlagsFor(prot))
    ensures forall a :: AttrAt(Sub(t[i], lo, hi), a) == AttrAt(t[i], a)
  {
    hide Wrap;
    forall a ensures AttrAt(Sub(t[i], lo, hi), a) == AttrAt(t[i], a)
             ensures Contains(t[i], a) ==> At(t, a) == Some(AttrAt(t[i], a))
    {
      SubAttr(t[i], lo, hi, a);
      assert Contains(t[i], a) ==> Covers(t, i, a);
    }
  }

  /** The mapping crosses lo only: its upper part moves to slot j. */
  lemma ProtectTail(t: seq<Vma>, i: int, j: int, lo: nat, hi: nat, prot: nat)
    requires Wf(t) && 0 <= i < |t| && 0 <= j < |t| && !t[j].valid
    requires t[i].valid && t[i].start < lo < t[i].end <= hi
    ensures Reprotected(t, t[i := t[i].(end := lo)][j := Recolor(Sub(t[i], lo, t[i].end), prot)], i, lo, hi, prot)
  {
    hide Wrap;
    var v := t[i];
    CoveredAt(t, i, lo, v.end, prot);
    SlotChanged(t, i, v.(end := lo));
    SlotChanged(t[i := v.(end := lo)], j, Recolor(Sub(v, lo, v.end), prot));
  }

  /** The mapping crosses hi only: its lower part moves to slot j. */
  lemma ProtectHead(t: seq<Vma>, i: int, j: int, lo: nat, hi: nat, prot: nat)
    requires Wf(t) && 0 <= i < |t| && 0 <= j < |t| && !t[j].valid
    requires t[i].valid && lo <= t[i].start < hi < t[i].end
    ensures Reprotected(t, t[i := Sub(t[i], hi, t[i].end)][j := Recolor(Sub(t[i], t[i].start, hi), prot)], i, lo, hi, prot)
  {
    hide Wrap;
    var v := t[i];
    CoveredAt(t, i, hi, v.end, prot);
    CoveredAt(t, i, v.start, hi, prot);
    SlotChanged(t, i, Sub(v, hi, v.end));
    SlotChanged(t[i := Sub(v, hi, v.end)], j, Recolor(Sub(v, v.start, hi), prot));
  }

  /** The mapping crosses both ends: middle to slot j, upper part to slot m. */
  lemma ProtectMiddle(t: seq<Vma>, i: int, j: int, m: int, lo: nat, hi: nat, prot: nat)
    requires Wf(t) && 0 <= i < |t| && 0 <= j < |t| && 0 <= m < |t| && j != m && !t[j].valid && !t[m].valid
    requires Strict(t[i], lo, hi) && lo <= hi
    ensures Reprotected(t, t[i := t[i].(end := lo)][j := Recolor(Sub(t[i], lo, hi), prot)]
                            [m := Sub(t[i], hi, t[i].end)], i, lo, hi, prot)
  {
    hide Wrap;
    var v := t[i];
    SplitMeans(t, i, m, lo, hi);
    var t1 := t[i := v.(end := lo)][m := Sub(v, hi, v.end)];
    CoveredAt(t, i, lo, hi, prot);
    SlotChanged(t1, j, Recolor(Sub(v, lo, hi), prot));
    assert t[i := v.(end := lo)][j := Recolor(Sub(v, lo, hi), prot)][m := Sub(v, hi, v.end)]
        == t1[j := Recolor(Sub(v, lo, hi), prot)];
  }

  lemma ProtectWhole(t: seq<Vma>, i: int, lo: nat, hi: nat, prot: nat)
    requires Wf(t) && 0 <= i < |t|
    requires t[i].valid && lo <= t[i].start && t[i].end <= hi
    ensures Reprotected(t, t[i := Recolor(t[i], prot)], i, lo, hi, prot)
  {
    hide Wrap;
    CoveredAt(t, i, lo, hi, prot);
    SlotChanged(t, i, Recolor(t[i], prot));
  }

  /** Free slots that re-protecting [lo, hi) of v takes. */
  function Need(v: Vma, lo: nat, hi: nat): nat
  {
    if !v.valid then 0
    else if v.start < lo && v.end > hi then 2
    else if v.start < lo && v.end > lo && v.end <= hi then 1
    else if v.start >= lo && v.start < hi && v.end > hi then 1
    else 0
  }

  function NeedFrom(t: seq<Vma>, i: nat, lo: nat, hi: nat): nat
    decreases |t| - i
  {
    if i >= |t| then 0 else Need(t[i], lo, hi) + NeedFrom(t, i + 1, lo, hi)
  }

  lemma {:induction false} NeedFromSame(t: seq<Vma>, t': seq<Vma>, i: nat, lo: nat, hi: nat)
    requires |t'| == |t| && forall k :: i <= k < |t| ==> Need(t'[k], lo, hi) == Need(t[k], lo, hi)
    ensures NeedFrom(t', i, lo, hi) == NeedFrom(t, i, lo, hi)
    decreases |t| - i
  {
    if i < |t| {
      NeedFromSame(t, t', i + 1, lo, hi);
    }
  }

  ghost predicate InTwo(t: seq<Vma>, t': seq<Vma>, i: nat, j: nat, p: Vma, q: Vma)
    requires i < |t| && j < |t|
  {
    !t[j].valid && t' == t[i := p][j := q]
  }

  ghost predicate InThree(t: seq<Vma>, t': seq<Vma>, i: nat, j: nat, m: nat, lo: nat, hi: nat, prot: nat)
    requires i < |t| && j < |t| && m < |t|
  {
    && j != m && !t[j].valid && !t[m].valid
    && t' == t[i := t[i].(end := lo)][j := Recolor(Sub(t[i], lo, hi), prot)][m := Sub(t[i], hi, t[i].end)]
  }

  /** Slot i after its round of the mprotect loop. */
  ghost predicate ProtAt(t: seq<Vma>, t': seq<Vma>, i: nat, lo: nat, hi: nat, prot: nat)
    requires i < |t|
  {
    var v := t[i];
    if Inside(v, lo, hi) then t' == t[i := Recolor(v, prot)]
    else if Strict(v, lo, hi) then exists j: nat, m: nat :: j < |t| && m < |t| && InThree(t, t', i, j, m, lo, hi, prot)
    else if v.valid && v.start < lo < v.end && v.end <= hi then
      exists j: nat :: j < |t| && InTwo(t, t', i, j, v.(end := lo), Recolor(Sub(v, lo, v.end), prot))
    else if v.valid && lo <= v.start < hi < v.end then
      exists j: nat :: j < |t| && InTwo(t, t', i, j, Sub(v, hi, v.end), Recolor(Sub(v, v.start, hi), prot))
    else t' == t
  }

  lemma ProtMeans(t: seq<Vma>, t': seq<Vma>, i: nat, lo: nat, hi: nat, prot: nat)
    requires Wf(t) && i < |t| && lo <= hi < U64 && ProtAt(t, t', i, lo, hi, prot)
    ensures Wf(t') && Reprotected(t, t', i, lo, hi, prot)
  {
    hide Wrap, Wf, At;
    var v := t[i];
    if Inside(v, lo, hi) {
      ProtectWhole(t, i, lo, hi, prot);
    } else if Strict(v, lo, hi) {
      var j: nat, m: nat :| j < |t| && m < |t| && InThree(t, t', i, j, m, lo, hi, prot);
      ProtectMiddle(t, i, j, m, lo, hi, prot);
    } else if v.valid && v.start < lo < v.end && v.end <= hi {
      var j: nat :| j < |t| && InTwo(t, t', i, j, v.(end := lo), Recolor(Sub(v, lo, v.end), prot));
      ProtectTail(t, i, j, lo, hi, prot);
    } else if v.valid && lo <= v.start < hi < v.end {
      var j: nat :| j < |t| && InTwo(t, t', i, j, Sub(v, hi, v.end), Recolor(Sub(v, v.start, hi), prot));
      ProtectHead(t, i, j, lo, hi, prot);
    } else {
      ProtectNothing(t, i, lo, hi, prot);
    }
  }

  lemma ProtectNothing(t: seq<Vma>, i: nat, lo: nat, hi: nat, prot: nat)
    requires Wf(t) && i < |t| && !Overlaps(t[i], lo, hi)
    ensures Reprotected(t, t, i, lo, hi, prot)
  {
  }

  lemma ProtCounts(t: seq<Vma>, t': seq<Vma>, i: nat, lo: nat, hi: nat, prot: nat)
    requires i < |t| && ProtAt(t, t', i, lo, hi, prot) && lo <= hi
    ensures |t'| == |t| && ValidCount(t') == ValidCount(t) + Need(t[i], lo, hi)
  {
    hide Wrap, ValidCount;
    var v := t[i];
    if Inside(v, lo, hi) {
      ValidCountUpdate(t, i, Recolor(v, prot));
    } else if Strict(v, lo, hi) {
      var j: nat, m: nat :| j < |t| && m < |t| && InThree(t, t', i, j, m, lo, hi, prot);
      var left, mid := v.(end := lo), Recolor(Sub(v, lo, hi), prot);
      ValidCountUpdate(t, i, left);
      ValidCountUpdate(t[i := left], j, mid);
      ValidCountUpdate(t[i := left][j := mid], m, Sub(v, hi, v.end));
    } else if v.valid && v.start < lo < v.end && v.end <= hi {
      var j: nat :| j < |t| && InTwo(t, t', i, j, v.(end := lo), Recolor(Sub(v, lo, v.end), prot));
      ValidCountUpdate(t, i, v.(end := lo));
      ValidCountUpdate(t[i := v.(end := lo)], j, Recolor(Sub(v, lo, v.end), prot));
    } else if v.valid && lo <= v.start < hi < v.end {
      var j: nat :| j < |t| && InTwo(t, t', i, j, Sub(v, hi, v.end), Recolor(Sub(v, v.start, hi), prot));
      ValidCountUpdate(t, i, Sub(v, hi, v.end));
      ValidCountUpdate(t[i := Sub(v, hi, v.end)], j, Recolor(Sub(v, v.start, hi), prot));
    }
  }

  lemma ProtSettles(t: seq<Vma>, t': seq<Vma>, i: nat, lo: nat, hi: nat, prot: nat)
    requires Wf(t) && i < |t| && ProtAt(t, t', i, lo, hi, prot) && lo <= hi
    ensures |t'| == |t| && Settled(t'[i], lo, hi, prot) && NoHigher(t, t')
    ensures forall k :: 0 <= k < |t| && k != i ==>
              t'[k] == t[k] || (!t[k].valid && Need(t'[k], lo, hi) == 0 && Settled(t'[k], lo, hi, prot))
  {
    hide Wrap;
  }

  /** Re-protecting makes an empty slot only where a mapping lies on both sides. */
  lemma ProtSnug(t: seq<Vma>, t': seq<Vma>, i: nat, lo: nat, hi: nat, prot: nat)
    requires Wf(t) && Snug(t) && i < |t| && lo <= hi && ProtAt(t, t', i, lo, hi, prot)
    requires Reprotected(t, t', i, lo, hi, prot)
    ensures Snug(t')
  {
    hide Wrap, At, Wf;
    if Strict(t[i], lo, hi) {
      StrictMapped(t, i, lo, hi);
    }
    assert forall a :: At(t', a) == None <==> At(t, a) == None;
    assert forall k :: 0 <= k < |t'| && Speck(t'[k]) ==>
      (Speck(t[k]) && t'[k].start == t[k].start) || (Strict(t[i], lo, hi) && t'[k].start == lo == hi);
  }

  lemma StrictMapped(t: seq<Vma>, i: nat, lo: nat, hi: nat)
    requires i < |t| && Strict(t[i], lo, hi) && lo <= hi
    ensures At(t, lo - 1) != None && At(t, lo) != None
  {
    assert Covers(t, i, lo - 1) && Covers(t, i, lo);
  }

  /** What v maps in [lo, hi) already has the new protection, and v does not cross an end. */
  predicate Settled(v: Vma, lo: nat, hi: nat, prot: nat)
  {
    Overlaps(v, lo, hi) ==> lo <= v.start && v.end <= hi && v.prot == prot && v.flags == FlagsFor(prot)
  }

  lemma SettledAt(t: seq<Vma>, a: int, lo: nat, hi: nat, prot: nat)
    requires lo <= a < hi && forall k :: 0 <= k < |t| ==> Settled(t[k], lo, hi, prot)
    ensures Reprotect(At(t, a), prot) == At(t, a)
  {
  }

  // ---------- the search for a free region ----------

  const MMAP_BASE: nat := 0x7f00_0000_0000
  const MMAP_TOP: nat := 0x7fff_0000_0000
  const USER_END: nat := 0x8000_0000_0000

  /** A page-aligned range of len bytes in the arena, free of every mapping. */
  ghost predicate Room(t: seq<Vma>, x: nat, len: nat)
  {
    && MMAP_BASE <= x && x % PAGE == 0 && x + len <= MMAP_TOP
    && forall k :: 0 <= k < |t| ==> !Overlaps(t[k], x, x + len)
  }

  /** The address space as a partial map. */
  type Space = int -> Option<Attr>

  ghost function Meaning(t: seq<Vma>): Space { (a: int) => At(t, a) }

  /** A page-aligned range of len bytes in the arena that is not mapped. */
  ghost predicate Vacant(m: Space, x: nat, len: nat)
  {
    && MMAP_BASE <= x && x % PAGE == 0 && x + len <= MMAP_TOP
    && forall a :: x <= a < x + len ==> m(a) == None
  }

  /** Slots that map nothing are never in the way. */
  lemma RoomMeans(t: seq<Vma>, x: nat, len: nat)
    requires Wf(t) && Snug(t) && len > 0
    ensures Room(t, x, len) <==> Vacant(Meaning(t), x, len)
  {
    if Room(t, x, len) {
      forall a | x <= a < x + len ensures At(t, a) == None {
        NoneCovers(t, a, x, x + len);
      }
    }
    if Vacant(Meaning(t), x, len) {
      forall k | 0 <= k < |t| ensures !Overlaps(t[k], x, x + len) {
        var a: int := if t[k].start < x then x else t[k].start;
        if Overlaps(t[k], x, x + len) {
          assert Meaning(t)(a) == None;
          assert t[k].start < t[k].end ==> Covers(t, k, a);
        }
      }
    }
  }

  /** The answer the search owes its caller. */
  ghost predicate FoundRoom(t: seq<Vma>, r: nat, len: nat)
  {
    if r == 0 then forall x :: !Room(t, x, len) else Room(t, r, len)
  }

  /** Where the search starts. */
  function FirstCandidate(hint: nat, last: nat, len: nat): nat
  {
    var addr := if hint != 0 then hint / PAGE * PAGE else last;
    if addr < MMAP_BASE || Wrap(addr + len) > MMAP_TOP then MMAP_BASE else addr
  }

  ghost predicate NoRoomIn(t: seq<Vma>, lo: nat, hi: nat, len: nat)
  {
    forall x :: lo <= x < hi && x % PAGE == 0 ==> !Room(t, x, len)
  }

  /** Everything already passed over has no room: from start up, then from the base of the arena. */
  ghost predicate Searched(t: seq<Vma>, start: nat, addr: nat, len: nat, wrapped: bool)
  {
    && MMAP_BASE <= addr && addr % PAGE == 0 && addr + len < U64
    && (start + len > MMAP_TOP ==> start == addr == MMAP_BASE)
    && (start + len <= MMAP_TOP ==> addr <= USER_END)
    && (if wrapped then NoRoomIn(t, start, U64, len) && NoRoomIn(t, MMAP_BASE, addr, len)
        else start <= addr && NoRoomIn(t, start, addr, len))
  }

  lemma SearchStarts(t: seq<Vma>, start: nat, len: nat)
    requires start >= MMAP_BASE && start % PAGE == 0 && len < U64
    requires start == MMAP_BASE || Wrap(start + len) <= MMAP_TOP
    ensures start + len < U64 ==> Searched(t, start, start, len, false)
    ensures start + len >= U64 && start < U64 && len % PAGE == 0 ==> Astray(t, start, start, len, false, 0, 0)
  {
  }

  lemma SearchFacts(t: seq<Vma>, start: nat, addr: nat, len: nat, wrapped: bool)
    ensures Searched(t, start, addr, len, wrapped) ==> Wrap(addr + len) == addr + len
  {
  }

  lemma SearchWraps(t: seq<Vma>, start: nat, addr: nat, len: nat)
    requires Searched(t, start, addr, len, false) && addr + len > MMAP_TOP && start >= MMAP_BASE
    ensures Searched(t, start, MMAP_BASE, len, true)
  {
  }

  /** After a jump over a mapping, every aligned start below the new candidate would still have met it. */
  lemma SearchJumps(t: seq<Vma>, start: nat, addr: nat, len: nat, wrapped: bool, k: nat)
    requires Searched(t, start, addr, len, wrapped) && addr + len <= MMAP_TOP && start >= MMAP_BASE
    requires k < |t| && EndsBy(t, USER_END) && Overlaps(t[k], addr, addr + len)
    ensures Searched(t, start, AlignUp(t[k].end), len, wrapped)
  {
    forall x: nat | addr <= x < AlignUp(t[k].end) && x % PAGE == 0 ensures !Room(t, x, len) {
      assert x < t[k].end;
      assert Overlaps(t[k], x, x + len);
    }
  }

  lemma SearchFails(t: seq<Vma>, start: nat, addr: nat, len: nat)
    requires Searched(t, start, addr, len, true) && (addr + len > MMAP_TOP || addr >= start)
    ensures FoundRoom(t, 0, len)
  {
  }

  /** A candidate that meets no mapping is room. */
  lemma SearchHits(t: seq<Vma>, start: nat, addr: nat, len: nat, wrapped: bool)
    requires Searched(t, start, addr, len, wrapped) && addr + len <= MMAP_TOP
    requires forall k :: 0 <= k < |t| ==> !Overlaps(t[k], addr, addr + len)
    ensures FoundRoom(t, addr, len)
  {
  }

  // ---------- the search when the end of the first candidate wraps ----------

  /** The wrapped end of a candidate. */
  function Over(c: nat, len: nat): int
  {
    c + len - U64
  }

  /** Slot k meets candidate c, whose end has wrapped: it spans everything between end and start. */
  ghost predicate Meets(t: seq<Vma>, k: nat, c: nat, len: nat)
  {
    k < |t| && Overlaps(t[k], c, Over(c, len))
  }

  /** A mapping that keeps the search from every candidate; it reaches above the arena. */
  predicate Blocks(v: Vma, start: nat, len: nat)
  {
    v.valid && start < v.end && v.start < Over(MMAP_BASE, len) && Over(AlignUp(v.end), len) > MMAP_TOP
  }

  ghost predicate Blocked(t: seq<Vma>, start: nat, len: nat)
  {
    exists k :: 0 <= k < |t| && Blocks(t[k], start, len)
  }

  /** Each pass makes at most one jump: over slot `first`, then over slot `second`. */
  ghost predicate Astray(t: seq<Vma>, start: nat, addr: nat, len: nat, wrapped: bool, first: nat, second: nat)
  {
    && MMAP_BASE <= start < U64 && start % PAGE == 0 && len % PAGE == 0 && len < U64 && 0 <= Over(start, len) <= MMAP_TOP
    && if !wrapped then addr == start || (Meets(t, first, start, len) && addr == AlignUp(t[first].end))
       else
         && Meets(t, first, start, len) && Over(AlignUp(t[first].end), len) > MMAP_TOP
         && (addr == MMAP_BASE
             || (addr < start && Meets(t, second, MMAP_BASE, len) && addr == AlignUp(t[second].end)))
  }

  /** Behind a mapping that spans a wrapped candidate there is no second one. */
  lemma MeetsOnce(t: seq<Vma>, j: nat, k: nat, c: nat, len: nat)
    requires Wf(t) && EndsBy(t, USER_END) && len % PAGE == 0 && len < U64 && c % PAGE == 0
    requires Meets(t, j, c, len)
    ensures Meets(t, k, c, len) ==> j == k
    ensures c < AlignUp(t[j].end) <= USER_END && !Meets(t, k, AlignUp(t[j].end), len)
  {
    var d := U64 - len;
    assert d >= PAGE;
    assert t[j].start < c + len - U64 && c < t[j].end;
  }

  lemma AstrayFacts(t: seq<Vma>, start: nat, addr: nat, len: nat, wrapped: bool, first: nat, second: nat)
    requires Wf(t) && EndsBy(t, USER_END) && Astray(t, start, addr, len, wrapped, first, second)
    ensures MMAP_BASE <= addr && addr % PAGE == 0 && (!wrapped ==> addr >= start)
    ensures Wrap(addr + len) == Over(addr, len) && (wrapped ==> Over(addr, len) <= MMAP_TOP)
  {
    if wrapped || addr != start {
      MeetsOnce(t, first, first, start, len);
    }
    if wrapped && addr != MMAP_BASE {
      MeetsOnce(t, second, second, MMAP_BASE, len);
    }
  }

  lemma AstrayJumps(t: seq<Vma>, start: nat, addr: nat, len: nat, wrapped: bool, first: nat, second: nat, k: nat)
    requires Wf(t) && EndsBy(t, USER_END) && Astray(t, start, addr, len, wrapped, first, second)
    requires Meets(t, k, addr, len)
    ensures !wrapped ==> addr == start && Astray(t, start, AlignUp(t[k].end), len, false, k, second)
    ensures wrapped ==> addr == MMAP_BASE
    ensures wrapped && AlignUp(t[k].end) >= start ==> Blocked(t, start, len)
    ensures wrapped && AlignUp(t[k].end) < start ==> Astray(t, start, AlignUp(t[k].end), len, true, first, k)
  {
    MeetsOnce(t, k, k, addr, len);
    if wrapped || addr != start {
      MeetsOnce(t, first, k, start, len);
    }
    if wrapped && addr != MMAP_BASE {
      MeetsOnce(t, second, k, MMAP_BASE, len);
    }
    if wrapped && AlignUp(t[k].end) >= start {
      MeetsBoth(t, first, k, start, len);
    }
  }

  /** A mapping that spans the wrapped candidate at the base and ends past the first candidate spans that one too. */
  lemma MeetsBoth(t: seq<Vma>, j: nat, k: nat, start: nat, len: nat)
    requires Wf(t) && EndsBy(t, USER_END) && len % PAGE == 0 && len < U64 && start % PAGE == 0 && start >= MMAP_BASE
    requires Meets(t, j, start, len) && Meets(t, k, MMAP_BASE, len) && AlignUp(t[k].end) >= start
    ensures j == k
  {
  }

  lemma AstrayWraps(t: seq<Vma>, start: nat, addr: nat, len: nat, first: nat, second: nat)
    requires Wf(t) && EndsBy(t, USER_END) && Astray(t, start, addr, len, false, first, second)
    requires Over(addr, len) > MMAP_TOP
    ensures Astray(t, start, MMAP_BASE, len, true, first, second)
  {
  }

  lemma AstrayHits(t: seq<Vma>, start: nat, addr: nat, len: nat, wrapped: bool, first: nat, second: nat)
    requires Wf(t) && EndsBy(t, USER_END) && Astray(t, start, addr, len, wrapped, first, second)
    requires Wrap(addr + len) == Over(addr, len) <= MMAP_TOP && forall k: nat :: !Meets(t, k, addr, len)
    ensures !Blocked(t, start, len) && !FoundRoom(t, addr, len)
  {
    forall k: nat | k < |t| && Blocks(t[k], start, len)
      ensures false
    {
      assert Meets(t, k, start, len);
      if !wrapped {
        if addr != start {
          MeetsOnce(t, first, k, start, len);
        }
      } else {
        assert Meets(t, k, MMAP_BASE, len);
        if addr != MMAP_BASE {
          MeetsOnce(t, second, k, MMAP_BASE, len);
        }
      }
    }
  }

  /** When the first end wraps below the arena's mappings no range of that length exists. */
  lemma BlockedMeans(t: seq<Vma>, start: nat, len: nat)
    requires EndsBy(t, USER_END) && start + len >= U64 && Blocked(t, start, len)
    ensures FoundRoom(t, 0, len)
  {
  }

  /** The first end wraps for a length of 2^64 - 4096, and without mappings nothing blocks: the answer is wrong. */
  lemma EmptyTableIsWrong(t: seq<Vma>)
    requires forall k :: 0 <= k < |t| ==> !t[k].valid
    ensures var len := U64 - 0x1000;
      FirstCandidate(0, MMAP_BASE, len) == MMAP_BASE && MMAP_BASE + len >= U64 && !Blocked(t, MMAP_BASE, len)
  {
  }

  /** A mapping from 0x1000 to beyond the arena blocks that search: the answer 0 is then right. */
  lemma StraddlingBlocks(v: Vma)
    requires v.valid && v.start == 0x1000 && v.end == MMAP_TOP + 0x2000
    ensures Blocks(v, MMAP_BASE, U64 - 0x1000)
  {
  }

  // ---------- both kinds of search together ----------

  /** What holds of the search at a candidate, whether or not the first end wraps. */
  ghost predicate Going(t: seq<Vma>, start: nat, addr: nat, len: nat, wrapped: bool, first: nat, second: nat)
  {
    && Wf(t) && EndsBy(t, USER_END) && start >= MMAP_BASE
    && (start + len < U64 ==> Searched(t, start, addr, len, wrapped))
    && (start + len >= U64 ==> Astray(t, start, addr, len, wrapped, first, second))
  }

  /** An answer is right exactly when it should be. */
  ghost predicate Answers(t: seq<Vma>, start: nat, len: nat, r: nat)
  {
    FoundRoom(t, r, len) <==> start + len < U64 || Blocked(t, start, len)
  }

  lemma SearchEnds(t: seq<Vma>, start: nat, addr: nat, len: nat, first: nat, second: nat)
    requires Going(t, start, addr, len, true, first, second) && Wrap(addr + len) > MMAP_TOP
    ensures Answers(t, start, len, 0)
  {
    hide Wf, Searched, Astray, Blocked, FoundRoom;
    if start + len < U64 {
      SearchFacts(t, start, addr, len, true);
      SearchFails(t, start, addr, len);
    } else {
      AstrayFacts(t, start, addr, len, true, first, second);
    }
  }

  lemma SearchTurns(t: seq<Vma>, start: nat, addr: nat, len: nat, first: nat, second: nat)
    requires Going(t, start, addr, len, false, first, second) && Wrap(addr + len) > MMAP_TOP
    ensures Going(t, start, MMAP_BASE, len, true, first, second)
  {
    hide Wf, Searched, Astray;
    if start + len < U64 {
      SearchFacts(t, start, addr, len, false);
      SearchWraps(t, start, addr, len);
    } else {
      AstrayFacts(t, start, addr, len, false, first, second);
      AstrayWraps(t, start, addr, len, first, second);
    }
  }

  lemma SearchMisses(t: seq<Vma>, start: nat, addr: nat, len: nat, wrapped: bool, first: nat, second: nat)
    requires Going(t, start, addr, len, wrapped, first, second) && Wrap(addr + len) <= MMAP_TOP
    requires forall k :: 0 <= k < |t| ==> !Overlaps(t[k], addr, Wrap(addr + len))
    ensures Answers(t, start, len, addr)
  {
    hide Wf, Searched, Astray, Blocked, FoundRoom;
    if start + len < U64 {
      SearchFacts(t, start, addr, len, wrapped);
      SearchHits(t, start, addr, len, wrapped);
    } else {
      AstrayFacts(t, start, addr, len, wrapped, first, second);
      AstrayHits(t, start, addr, len, wrapped, first, second);
    }
  }

  lemma SearchMeets(t: seq<Vma>, start: nat, addr: nat, len: nat, wrapped: bool, first: nat, second: nat, k: nat)
    requires Going(t, start, addr, len, wrapped, first, second) && Wrap(addr + len) <= MMAP_TOP
    requires k < |t| && Overlaps(t[k], addr, Wrap(addr + len))
    ensures var next := AlignUp(t[k].end);
      && (wrapped && next >= start ==> Answers(t, start, len, 0))
      && (!(wrapped && next >= start) ==>
            Going(t, start, next, len, wrapped, if wrapped then first else k, if wrapped then k else second))
  {
    hide Wf, Searched, Astray, Blocked, FoundRoom, AlignUp;
    if start + len < U64 {
      SearchFacts(t, start, addr, len, wrapped);
      SearchJumps(t, start, addr, len, wrapped, k);
      if wrapped && AlignUp(t[k].end) >= start {
        SearchFails(t, start, AlignUp(t[k].end), len);
      }
    } else {
      AstrayFacts(t, start, addr, len, wrapped, first, second);
      AstrayJumps(t, start, addr, len, wrapped, first, second, k);
      if wrapped && AlignUp(t[k].end) >= start {
        BlockedMeans(t, start, len);
      }
    }
  }

  // ---------- mmap ----------

  const USER_BASE: nat := 0x1000
  const USER_TOP: nat := 0x7fff_ffff_ffff

  predicate IsFixed(flags: nat) { flags / 0x10 % 2 == 1 }

  predicate IsAnonymous(flags: nat) { flags / 0x20 % 2 == 1 }

  /** The slot sys_mmap fills in; a private file mapping starts read-only. */
  function NewVma(at: nat, len: nat, prot: nat, flags: nat, file: FileArg, offset: nat): Vma
  {
    if IsAnonymous(flags) then
      Vma(true, at, Wrap(at + len), prot, flags, true, true, 0, 0, FlagsFor(prot))
    else
      Vma(true, at, Wrap(at + len), prot, flags, false, true, if file.Regular? then file.id else 0, offset, 1 + 4)
  }

  /** What sys_mmap finds wrong with its arguments, in the order it looks; OK when nothing. */
  function MmapCheck(addr: nat, length: nat, flags: nat, file: FileArg, offset: nat): Status
  {
    var shared, private := flags % 2 == 1, flags / 2 % 2 == 1;
    if shared == private || length == 0 || length + 0xfff >= U64 || addr + AlignUp(length) >= U64 then EINVAL
    else if IsFixed(flags) && (addr % PAGE != 0 || addr < USER_BASE || addr + AlignUp(length) > USER_TOP) then EINVAL
    else if !IsAnonymous(flags) && file.BadFd? then EBADF
    else if !IsAnonymous(flags) && file.NotRegular? then ENODEV
    else if !IsAnonymous(flags) && offset % PAGE != 0 then EINVAL
    else if shared then ENOSYS
    else OK
  }

  lemma AlignUpTwice(x: nat)
    ensures AlignUp(AlignUp(x)) == AlignUp(x)
  {
  }

  lemma UnmappedFits(t: seq<Vma>, at: nat, len: nat, prot: nat, flags: nat, file: FileArg, offset: nat)
    requires Wf(t) && at + len < U64 && offset < U64
    requires forall a :: at <= a < at + len ==> At(t, a) == None
    ensures Fits(t, -1, NewVma(at, len, prot, flags, file, offset))
    ensures len > 0 ==> Live(NewVma(at, len, prot, flags, file, offset))
  {
    WrapSmall(at + len);
    forall k | 0 <= k < |t| && Live(t[k]) && len > 0 ensures !Overlaps(t[k], at, at + len) {
      var a := if at < t[k].start then t[k].start else at;
      assert at <= a < at + len ==> At(t, a) == None;
      assert Overlaps(t[k], at, at + len) ==> Covers(t, k, a);
    }
  }

  lemma RoomFits(t: seq<Vma>, at: nat, len: nat, prot: nat, flags: nat, file: FileArg, offset: nat)
    requires offset < U64
    ensures Room(t, at, len) ==> Fits(t, -1, NewVma(at, len, prot, flags, file, offset))
    ensures Room(t, at, len) && len > 0 ==> Live(NewVma(at, len, prot, flags, file, offset))
  {
  }

  /** Nothing of that length can be put anywhere. */
  ghost predicate NoRange(t: seq<Vma>, len: nat)
  {
    !HasFree(t) || forall x: nat :: !Vacant(Meaning(t), x, len)
  }

  lemma RoomsMean(t: seq<Vma>, len: nat)
    requires Wf(t) && Snug(t) && len > 0
    ensures forall x: nat :: Room(t, x, len) <==> Vacant(Meaning(t), x, len)
  {
    forall x: nat ensures Room(t, x, len) <==> Vacant(Meaning(t), x, len) {
      RoomMeans(t, x, len);
    }
  }

  lemma FilledSnug(t: seq<Vma>, j: nat, v: Vma)
    requires Wf(t) && Snug(t) && j < |t| && !t[j].valid && Live(v) && Fits(t, j, v)
    ensures Snug(t[j := v])
  {
    hide Wrap, At;
    SlotChanged(t, j, v);
  }

  /** No slot would be left for a mapping at [lo, hi) once the range is cleared, or clearing it fails. */
  ghost predicate NoSlotFor(t: seq<Vma>, lo: nat, hi: nat)
  {
    || (!HasFree(t) && AnyStrict(t, lo, hi))
    || ValidCount(t) + DeltaFrom(t, 0, lo, hi) >= |t|
  }

  /** t' adds mapping v over t, replacing what t had there, and is merged. */
  ghost predicate Placed(t: seq<Vma>, t': seq<Vma>, v: Vma)
  {
    Merged(t') && forall a :: At(t', a) == if Contains(v, a) then Some(AttrAt(v, a)) else At(t, a)
  }

  /** The calls that change the address space. The hint is shared by all processes. */
  datatype Call =
    | Map(addr: nat, length: nat, prot: nat, flags: nat, file: FileArg, offset: nat)
    | Unmap(addr: nat, length: nat)
    | Protect(addr: nat, length: nat, prot: nat)
    | HintMoved(hint: nat)

  datatype Reply = Reply(status: Status, at: nat)

  /** Arguments are words; a mapping placed by the kernel is no longer than what lies above the arena. */
  predicate Callable(c: Call)
  {
    match c
    case Map(addr, length, _, flags, _, offset) =>
      && addr < U64 && length < U64 && offset < U64
      && (IsFixed(flags) || AlignUp(length) <= U64 - MMAP_TOP)
    case Unmap(addr, length) => addr < U64 && length < U64
    case Protect(addr, length, _) => addr < U64 && length < U64
    case HintMoved(hint) => hint < MMAP_TOP && hint % PAGE == 0
  }

  /** What a call finds wrong with its arguments; OK when nothing. */
  function ArgCheck(c: Call): Status
  {
    match c
    case Map(addr, length, _, flags, file, offset) => MmapCheck(addr, length, flags, file, offset)
    case Unmap(addr, length) =>
      if length == 0 || addr % PAGE != 0 || addr + AlignUp(length) >= U64 then EINVAL else OK
    case Protect(addr, length, _) =>
      if addr % PAGE != 0 || (length != 0 && addr + AlignUp(length) >= U64) then EINVAL else OK
    case HintMoved(_) => OK
  }

  predicate In(a: int, lo: nat, length: nat) { lo <= a < lo + AlignUp(length) }

  ghost predicate Removed(m: Space, m': Space, lo: nat, length: nat)
  {
    forall a :: m'(a) == if In(a, lo, length) then None else m(a)
  }

  /** Memory is short for a call: no slot, or no unmapped range, by the table it finds. */
  ghost predicate Short(t: seq<Vma>, c: Call)
  {
    match c
    case Map(addr, length, _, flags, _, _) =>
      if IsFixed(flags) then NoSlotFor(t, addr, addr + AlignUp(length)) else NoRange(t, AlignUp(length))
    case Unmap(addr, length) => !HasFree(t) && AnyStrict(t, addr, addr + AlignUp(length))
    case Protect(addr, length, _) =>
      length != 0 && |t| - ValidCount(t) < NeedFrom(t, 0, addr, addr + AlignUp(length))
    case HintMoved(_) => false
  }

  /** A fixed mapping that fails after its range has been cleared. */
  ghost predicate Lost(t: seq<Vma>, c: Call, r: Reply)
  {
    && c.Map? && IsFixed(c.flags) && r.status == ENOMEM
    && (HasFree(t) || !AnyStrict(t, c.addr, c.addr + AlignUp(c.length)))
  }

  predicate FixedMap(c: Call) { c.Map? && IsFixed(c.flags) }

  /**
    One call: wrong arguments are refused, else it does what it should to the partial map, or fails for lack of
    memory, exactly when memory is short. Only a fixed mapping on a table with pairs to join may do better.
   */
  ghost predicate SpaceStep(t: seq<Vma>, c: Call, r: Reply, t': seq<Vma>)
  {
    && (if ArgCheck(c) != OK then r.status == ArgCheck(c) else r.status == OK || r.status == ENOMEM)
    && (r.status == ENOMEM ==> Short(t, c))
    && (ArgCheck(c) == OK && Short(t, c) && (Merged(t) || !FixedMap(c)) ==> r.status == ENOMEM)
    && (if r.status == OK then MapStep(Meaning(t), c, r, Meaning(t')) && (Idle(c) || Merged(t'))
        else if Lost(t, c, r) then Removed(Meaning(t), Meaning(t'), c.addr, c.length)
        else t' == t)
  }

  /** A call that succeeds without looking at the table. */
  predicate Idle(c: Call)
  {
    c.HintMoved? || (c.Protect? && c.length == 0)
  }

  /** What a call that succeeds does to the partial map. */
  ghost predicate MapStep(m: Space, c: Call, r: Reply, m': Space)
  {
    match c
    case Map(addr, length, prot, flags, file, offset) =>
      && (forall a :: m'(a) == if In(a, r.at, length)
                               then Some(AttrAt(NewVma(r.at, AlignUp(length), prot, flags, file, offset), a)) else m(a))
      && (if IsFixed(flags) then r.at == addr else Vacant(m, r.at, AlignUp(length)))
    case Unmap(addr, length) => Removed(m, m', addr, length)
    case Protect(addr, length, prot) =>
      forall a :: m'(a) == if In(a, addr, length) then Reprotect(m(a), prot) else m(a)
    case HintMoved(_) => forall a :: m'(a) == m(a)
  }

  lemma FirstSmall(hint: nat, last: nat, len: nat)
    requires last < MMAP_TOP && len <= U64 - MMAP_TOP && hint + len < U64
    ensures FirstCandidate(hint, last, len) + len < U64
  {
  }

  lemma PlacedSpace(t: seq<Vma>, t': seq<Vma>, at: nat, c: Call)
    requires c.Map? && at + AlignUp(c.length) < U64
    requires Placed(t, t', NewVma(at, AlignUp(c.length), c.prot, c.flags, c.file, c.offset))
    requires if IsFixed(c.flags) then at == c.addr else Vacant(Meaning(t), at, AlignUp(c.length))
    ensures MapStep(Meaning(t), c, Reply(OK, at), Meaning(t')) && Merged(t')
  {
    hide At, AlignUp, Wrap, Vacant;
    WrapSmall(at + AlignUp(c.length));
  }

  class Process {
    const vmas: array<Vma>
    var mmapHint: nat

    ghost predicate Valid()
      reads this, vmas
    {
      vmas.Length == VMA_MAX && Wf(vmas[..])
    }

    /** Sound, and no empty slot lies in the open. */
    ghost predicate Tidy()
      reads this, vmas
    {
      Valid() && Snug(vmas[..])
    }

    /** The hint is a page of the arena's span, and mappings end in user space. */
    ghost predicate ArenaOk()
      reads this, vmas
    {
      mmapHint < MMAP_TOP && mmapHint % PAGE == 0 && EndsBy(vmas[..], USER_END)
    }

    /** The scan of vma_merge_adjacent for the first pair that can be joined. */
    method FindPair() returns (found: bool, i: nat, j: nat)
      requires vmas.Length == VMA_MAX
      ensures found ==> i < VMA_MAX && j < VMA_MAX && Mergeable(vmas[..], i, j)
      ensures !found ==> Merged(vmas[..])
    {
      found, i, j := false, 0, 0;
      while i < VMA_MAX
        invariant 0 <= i <= VMA_MAX
        invariant forall x, y :: 0 <= x < i && 0 <= y < VMA_MAX ==> !Mergeable(vmas[..], x, y)
      {
        j := 0;
        while j < VMA_MAX
          invariant 0 <= j <= VMA_MAX
          invariant forall y :: 0 <= y < j ==> !Mergeable(vmas[..], i, y)
        {
          if Mergeable(vmas[..], i, j) {
            return true, i, j;
          }
          j := j + 1;
        }
        i := i + 1;
      }
    }

    /** vma_merge_adjacent: leaves no pair to join and, on a sound table, keeps the map. */
    method MergeAdjacent()
      requires vmas.Length == VMA_MAX
      modifies vmas
      ensures Merged(vmas[..]) && NoHigher(old(vmas[..]), vmas[..])
      ensures Wf(old(vmas[..])) ==> Wf(vmas[..]) && forall a :: At(vmas[..], a) == At(old(vmas[..]), a)
      ensures Wf(old(vmas[..])) && Snug(old(vmas[..])) ==> Snug(vmas[..])
      ensures ValidCount(vmas[..]) <= ValidCount(old(vmas[..]))
      ensures Merged(old(vmas[..])) ==> vmas[..] == old(vmas[..])
    {
      hide Snug, Merged, Wf, At, NoHigher, ValidCount;
      NoHigherRefl(vmas[..]);
      var merged := true;
      while merged
        invariant Wf(old(vmas[..])) ==> Wf(vmas[..]) && forall a :: At(vmas[..], a) == At(old(vmas[..]), a)
        invariant Wf(old(vmas[..])) && Snug(old(vmas[..])) ==> Snug(vmas[..])
        invariant ValidCount(vmas[..]) <= ValidCount(old(vmas[..]))
        invariant Merged(old(vmas[..])) ==> vmas[..] == old(vmas[..])
        invariant !merged ==> Merged(vmas[..])
        invariant NoHigher(old(vmas[..]), vmas[..])
        decreases ValidCount(vmas[..]), merged
      {
        var i, j;
        merged, i, j := FindPair();
        if merged {
          ghost var t := vmas[..];
          NotMerged(t, i, j);
          MergeStepFacts(t, i, j);
          NoHigherTrans(old(vmas[..]), t, MergeStep(t, i, j));
          vmas[i] := vmas[i].(end := vmas[j].end);
          vmas[j] := vmas[j].(valid := false);
          assert vmas[..] == MergeStep(t, i, j);
        }
      }
    }

    /** The lowest invalid slot, or VMA_MAX. */
    method FindFreeSlot(from: nat) returns (j: nat)
      requires vmas.Length == VMA_MAX && from <= VMA_MAX
      ensures from <= j <= VMA_MAX && (j < VMA_MAX ==> !vmas[j].valid)
      ensures forall k :: from <= k < j ==> vmas[k].valid
    {
      j := from;
      while j < VMA_MAX
        invariant from <= j <= VMA_MAX && forall k :: from <= k < j ==> vmas[k].valid
      {
        if !vmas[j].valid {
          return;
        }
        j := j + 1;
      }
    }

    /** Slot i keeps its part below lo; its part from hi on moves to a free slot. */
    method SplitSlot(i: nat, lo: nat, hi: nat) returns (j: nat)
      requires Valid() && i < VMA_MAX && lo <= hi && Strict(vmas[i], lo, hi) && HasFree(vmas[..])
      modifies vmas
      ensures Valid() && j < VMA_MAX && j != i && !old(vmas[j]).valid
      ensures vmas[..] == old(vmas[..])[i := old(vmas[i]).(end := lo)][j := Sub(old(vmas[i]), hi, old(vmas[i]).end)]
      ensures forall a :: At(vmas[..], a) == if lo <= a < hi then None else At(old(vmas[..]), a)
    {
      ghost var free :| 0 <= free < VMA_MAX && !vmas[free].valid;
      j := FindFreeSlot(0);
      assert j <= free;
      SplitMeans(vmas[..], i, j, lo, hi);
      var v := vmas[i];
      vmas[i] := v.(end := lo);
      vmas[j] := Sub(v, hi, v.end);
      assert vmas[..] == old(vmas[..])[i := v.(end := lo)][j := Sub(v, hi, v.end)];
    }

    /** One round of the munmap loop: slot i gives up [lo, hi). */
    method CutSlot(i: nat, lo: nat, hi: nat)
      requires Valid() && i < VMA_MAX && lo <= hi < U64
      requires Strict(vmas[i], lo, hi) ==> HasFree(vmas[..])
      modifies vmas
      ensures Valid() && CutAt(old(vmas[..]), vmas[..], i, lo, hi)
      ensures forall a :: !(lo <= a < hi) ==> At(vmas[..], a) == At(old(vmas[..]), a)
    {
      hide Wrap, Wf, At;
      var v := vmas[i];
      ghost var t := vmas[..];
      if v.valid && v.start < lo && v.end > hi {
        var j := SplitSlot(i, lo, hi);
        assert SplitInto(t, vmas[..], i, j, lo, hi);
      } else {
        if v.valid {
          if v.start >= lo && v.end <= hi {
            vmas[i] := v.(valid := false);
          } else if v.start < lo && v.end > lo && v.end <= hi {
            vmas[i] := v.(end := lo);
          } else if v.start >= lo && v.start < hi && v.end > hi {
            vmas[i] := Sub(v, hi, v.end);
          }
        }
        assert vmas[..] == t[i := CutPiece(v, lo, hi)];
      }
      CutMeans(t, vmas[..], i, lo, hi);
    }

    /** sys_munmap: the slots it needs for a split are checked before anything changes. */
    method Munmap(addr: nat, length: nat) returns (r: Status)
      requires Valid() && addr < U64 && length < U64
      modifies vmas
      ensures Valid() && NoHigher(old(vmas[..]), vmas[..]) && r in {OK, EINVAL, ENOMEM}
      ensures r == EINVAL <==> length == 0 || addr % PAGE != 0 || addr + AlignUp(length) >= U64
      ensures r != OK ==> vmas[..] == old(vmas[..])
      ensures r == ENOMEM <==> r != EINVAL && !HasFree(old(vmas[..]))
                               && AnyStrict(old(vmas[..]), addr, addr + AlignUp(length))
      ensures r == OK ==> Merged(vmas[..])
      ensures r == OK ==> forall a :: At(vmas[..], a)
                            == if addr <= a < addr + AlignUp(length) then None else At(old(vmas[..]), a)
      ensures Snug(old(vmas[..])) ==> Snug(vmas[..])
      // The slots in use afterwards: one less for each mapping inside the range, one more for one across it.
      ensures r == OK ==>
                && ValidCount(vmas[..]) <= ValidCount(old(vmas[..])) + DeltaFrom(old(vmas[..]), 0, addr, addr + AlignUp(length))
                && (Merged(old(vmas[..])) && AlignUp(length) > 0 ==>
                      ValidCount(vmas[..]) == ValidCount(old(vmas[..])) + DeltaFrom(old(vmas[..]), 0, addr, addr + AlignUp(length)))
    {
      hide Wf, At, Wrap, AlignUp, EndsBy, Snug, Merged, ValidCount, DeltaFrom, Pieces;
      if length == 0 || addr % PAGE != 0 {
        return EINVAL;
      }
      var len := AlignUp(length);
      if (addr + len) % U64 < addr {
        return EINVAL;
      }
      var lo, hi := addr, addr + len;
      var needSplit := false;
      for i := 0 to VMA_MAX
        invariant needSplit <==> exists k :: 0 <= k < i && Strict(vmas[..][k], lo, hi)
      {
        needSplit := needSplit || Strict(vmas[i], lo, hi);
      }
      if needSplit {
        var j := FindFreeSlot(0);
        if j == VMA_MAX {
          return ENOMEM;
        }
      }
      ghost var t := vmas[..];
      CutAll(lo, hi);
      if Snug(t) {
        CutSnug(t, vmas[..], lo, hi);
      }
      if Merged(t) && lo < hi {
        CutMerged(t, vmas[..], lo, hi);
      }
      MergeAdjacent();
      return OK;
    }

    /** The update loop of sys_munmap. */
    method CutAll(lo: nat, hi: nat)
      requires Valid() && lo <= hi < U64
      requires AnyStrict(vmas[..], lo, hi) ==> HasFree(vmas[..])
      modifies vmas
      ensures Valid() && NoHigher(old(vmas[..]), vmas[..])
      ensures forall a :: At(vmas[..], a) == if lo <= a < hi then None else At(old(vmas[..]), a)
      ensures Pieces(old(vmas[..]), vmas[..], lo, hi) && forall k :: 0 <= k < VMA_MAX ==> Clean(vmas[..][k], lo, hi)
      ensures ValidCount(vmas[..]) == ValidCount(old(vmas[..])) + DeltaFrom(old(vmas[..]), 0, lo, hi)
    {
      hide Wrap, At, EndsBy, ValidCount, Wf, Pieces, CutAt;
      ghost var t := vmas[..];
      PiecesStart(t, lo, hi);
      var i := 0;
      while i < VMA_MAX
        invariant 0 <= i <= VMA_MAX && Valid() && NoHigher(t, vmas[..])
        invariant forall a :: !(lo <= a < hi) ==> At(vmas[..], a) == At(t, a)
        invariant forall k :: 0 <= k < VMA_MAX ==> Clean(vmas[..][k], lo, hi) || (k >= i && vmas[..][k] == t[k])
        invariant forall k :: i <= k < VMA_MAX && Strict(vmas[..][k], lo, hi) ==> HasFree(vmas[..])
        invariant Pieces(t, vmas[..], lo, hi)
        invariant ValidCount(vmas[..]) + DeltaFrom(vmas[..], i, lo, hi) == ValidCount(t) + DeltaFrom(t, 0, lo, hi)
      {
        ghost var was := vmas[..];
        CutSlot(i, lo, hi);
        PiecesLength(t, was, lo, hi);
        PiecesCut(t, was, vmas[..], i, lo, hi);
        CutCleans(was, vmas[..], i, lo, hi);
        CutCounts(was, vmas[..], i, lo, hi);
        forall k | i < k < VMA_MAX && Strict(vmas[..][k], lo, hi) ensures HasFree(vmas[..]) {
          assert vmas[..][k] == was[k];
          OneStrict(was, i, k, lo, hi);
          CutKeepsFree(was, vmas[..], i, lo, hi);
        }
        i := i + 1;
      }
      forall a | lo <= a < hi ensures At(vmas[..], a) == None {
        NoneCovers(vmas[..], a, lo, hi);
      }
    }

    /** Slot i of sys_mprotect's loop; the free slots it takes are there. */
    method ProtectSlot(i: nat, lo: nat, hi: nat, prot: nat)
      requires Valid() && i < VMA_MAX && lo <= hi < U64
      requires ValidCount(vmas[..]) + Need(vmas[i], lo, hi) <= VMA_MAX
      modifies vmas
      ensures Valid() && Reprotected(old(vmas[..]), vmas[..], i, lo, hi, prot)
      ensures NoHigher(old(vmas[..]), vmas[..]) && (Snug(old(vmas[..])) ==> Snug(vmas[..]))
      ensures ValidCount(vmas[..]) == ValidCount(old(vmas[..])) + Need(old(vmas[i]), lo, hi)
      ensures Settled(vmas[i], lo, hi, prot)
      ensures forall k :: 0 <= k < VMA_MAX && k != i ==>
                || vmas[k] == old(vmas[k])
                || (!old(vmas[k]).valid && Need(vmas[k], lo, hi) == 0 && Settled(vmas[k], lo, hi, prot))
    {
      hide Wrap, Wf, At, ValidCount, Snug, NoHigher, Reprotected;
      var v := vmas[i];
      ghost var t := vmas[..];
      if v.valid && v.start >= lo && v.end <= hi {
        vmas[i] := Recolor(v, prot);
        assert vmas[..] == t[i := Recolor(v, prot)];
      } else if v.valid && v.start < lo && v.end > hi {
        var j, m := FindTwoFree();
        var left, mid, right := v.(end := lo), Recolor(Sub(v, lo, hi), prot), Sub(v, hi, v.end);
        vmas[i] := left;
        vmas[j] := mid;
        vmas[m] := right;
        assert vmas[..] == t[i := left][j := mid][m := right];
        assert InThree(t, vmas[..], i, j, m, lo, hi, prot);
      } else if v.valid && v.start < lo && v.end > lo && v.end <= hi {
        var j := FindOneFree();
        var left, right := v.(end := lo), Recolor(Sub(v, lo, v.end), prot);
        vmas[i] := left;
        vmas[j] := right;
        assert vmas[..] == t[i := left][j := right];
        assert InTwo(t, vmas[..], i, j, left, right);
      } else if v.valid && v.start >= lo && v.start < hi && v.end > hi {
        var j := FindOneFree();
        var right := Sub(v, hi, v.end);
        var left := Recolor(right.(start := v.start, end := hi,
                                   offset := if v.anonymous then right.offset else Wrap(right.offset - (hi - v.start))), prot);
        WrapAdd(v.offset + (hi - v.start), -(hi - v.start));
        assert left == Recolor(Sub(v, v.start, hi), prot);
        vmas[i] := right;
        vmas[j] := left;
        assert vmas[..] == t[i := right][j := left];
        assert InTwo(t, vmas[..], i, j, right, left);
      }
      assert ProtAt(t, vmas[..], i, lo, hi, prot);
      ProtMeans(t, vmas[..], i, lo, hi, prot);
      ProtCounts(t, vmas[..], i, lo, hi, prot);
      ProtSettles(t, vmas[..], i, lo, hi, prot);
      if Snug(t) {
        ProtSnug(t, vmas[..], i, lo, hi, prot);
      }
    }

    method FindOneFree() returns (j: nat)
      requires Valid() && ValidCount(vmas[..]) < VMA_MAX
      ensures j < VMA_MAX && !vmas[j].valid
    {
      ValidCountFull(vmas[..]);
      j := FindFreeSlot(0);
    }

    method FindTwoFree() returns (j: nat, m: nat)
      requires Valid() && ValidCount(vmas[..]) + 2 <= VMA_MAX
      ensures j < m < VMA_MAX && !vmas[j].valid && !vmas[m].valid
    {
      ValidCountFull(vmas[..]);
      j := FindFreeSlot(0);
      ghost var t := vmas[..][j := vmas[j].(valid := true)];
      ValidCountUpdate(vmas[..], j, vmas[j].(valid := true));
      ValidCountFull(t);
      m := FindFreeSlot(j + 1);
    }

    /** The update loop of sys_mprotect; it may revisit pieces it has made. */
    method ProtectAll(lo: nat, hi: nat, prot: nat)
      requires Valid() && lo <= hi < U64
      requires ValidCount(vmas[..]) + NeedFrom(vmas[..], 0, lo, hi) <= VMA_MAX
      modifies vmas
      ensures Valid() && NoHigher(old(vmas[..]), vmas[..]) && (Snug(old(vmas[..])) ==> Snug(vmas[..]))
      ensures forall a :: At(vmas[..], a)
                == if lo <= a < hi then Reprotect(At(old(vmas[..]), a), prot) else At(old(vmas[..]), a)
    {
      hide Wrap, At, ValidCount, Wf, EndsBy, Snug;
      var i := 0;
      while i < VMA_MAX
        invariant 0 <= i <= VMA_MAX && Valid() && NoHigher(old(vmas[..]), vmas[..])
        invariant Snug(old(vmas[..])) ==> Snug(vmas[..])
        invariant forall a :: At(vmas[..], a) == At(old(vmas[..]), a)
                    || (lo <= a < hi && At(vmas[..], a) == Reprotect(At(old(vmas[..]), a), prot))
        invariant forall k :: 0 <= k < i ==> Settled(vmas[k], lo, hi, prot)
        invariant ValidCount(vmas[..]) + NeedFrom(vmas[..], i, lo, hi) <= VMA_MAX
      {
        ghost var t := vmas[..];
        ProtectSlot(i, lo, hi, prot);
        NeedFromSame(t, vmas[..], i + 1, lo, hi);
        i := i + 1;
      }
      forall a | lo <= a < hi ensures At(vmas[..], a) == Reprotect(At(old(vmas[..]), a), prot) {
        SettledAt(vmas[..], a, lo, hi, prot);
      }
    }

    /** sys_mprotect: all free slots are counted before anything changes. */
    method Mprotect(addr: nat, length: nat, prot: nat) returns (r: Status)
      requires Valid() && addr < U64 && length < U64
      modifies vmas
      ensures Valid() && NoHigher(old(vmas[..]), vmas[..]) && r in {OK, EINVAL, ENOMEM}
      ensures r == EINVAL <==> addr % PAGE != 0 || (length != 0 && addr + AlignUp(length) >= U64)
      ensures r != OK || length == 0 ==> vmas[..] == old(vmas[..])
      ensures r == ENOMEM <==> (r != EINVAL && length != 0 && VMA_MAX - ValidCount(old(vmas[..]))
                                < NeedFrom(old(vmas[..]), 0, addr, addr + AlignUp(length)))
      ensures Snug(old(vmas[..])) ==> Snug(vmas[..])
      ensures r == OK && length != 0 ==> Merged(vmas[..])
      ensures r == OK && length != 0 ==>
                forall a :: At(vmas[..], a) == if addr <= a < addr + AlignUp(length)
                                               then Reprotect(At(old(vmas[..]), a), prot) else At(old(vmas[..]), a)
    {
      hide Wf, At, Wrap, AlignUp, EndsBy, Snug, Merged;
      if addr % PAGE != 0 {
        return EINVAL;
      }
      if length == 0 {
        return OK;
      }
      var len := AlignUp(length);
      if (addr + len) % U64 < addr {
        return EINVAL;
      }
      var lo, hi := addr, addr + len;
      var needed, available := 0, 0;
      var t := vmas[..];
      for i := 0 to VMA_MAX
        invariant needed + NeedFrom(t, i, lo, hi) == NeedFrom(t, 0, lo, hi)
      {
        needed := needed + Need(vmas[i], lo, hi);
      }
      for j := 0 to VMA_MAX
        invariant available + ValidCount(t[..j]) == j
      {
        assert t[..j + 1][..j] == t[..j];
        if !vmas[j].valid {
          available := available + 1;
        }
      }
      assert t[..VMA_MAX] == t;
      if available < needed {
        return ENOMEM;
      }
      ProtectAll(lo, hi, prot);
      MergeAdjacent();
      return OK;
    }

    /** The slot scan of vma_find_free_region: the first slot met by [addr, sum), or VMA_MAX. */
    method FirstHit(addr: nat, sum: nat) returns (k: nat)
      requires Valid()
      ensures k <= VMA_MAX && (k < VMA_MAX ==> Overlaps(vmas[k], addr, sum))
      ensures forall j :: 0 <= j < k ==> !Overlaps(vmas[j], addr, sum)
    {
      k := 0;
      while k < VMA_MAX
        invariant 0 <= k <= VMA_MAX && forall j :: 0 <= j < k ==> !Overlaps(vmas[j], addr, sum)
      {
        if Overlaps(vmas[k], addr, sum) {
          return;
        }
        k := k + 1;
      }
    }

    /** The loop of vma_find_free_region from its first candidate. */
    method Search(start: nat, len: nat) returns (r: nat)
      requires Valid() && ArenaOk() && MMAP_BASE <= start < U64 && start % PAGE == 0
      requires len < U64 && len % PAGE == 0 && (start == MMAP_BASE || Wrap(start + len) <= MMAP_TOP)
      ensures r != 0 ==> r % PAGE == 0 && Wrap(r + len) <= MMAP_TOP
      ensures Answers(vmas[..], start, len, r)
    {
      ghost var t := vmas[..];
      SearchStarts(t, start, len);
      hide AlignUp, Going, Wf, Answers, FoundRoom, Blocked;
      var addr, wrapped := start, false;
      ghost var first: nat, second: nat := 0, 0;
      ghost var top := if start < USER_END then USER_END else start;
      while true
        invariant MMAP_BASE <= addr <= top && addr % PAGE == 0
        invariant Going(t, start, addr, len, wrapped, first, second)
        decreases !wrapped, top - addr
      {
        var sum := Wrap(addr + len);
        if sum > MMAP_TOP {
          if wrapped {
            SearchEnds(t, start, addr, len, first, second);
            return 0;
          }
          SearchTurns(t, start, addr, len, first, second);
          addr, wrapped := MMAP_BASE, true;
          continue;
        }
        var k := FirstHit(addr, sum);
        if k == VMA_MAX {
          SearchMisses(t, start, addr, len, wrapped, first, second);
          return addr;
        }
        SearchMeets(t, start, addr, len, wrapped, first, second, k);
        addr := AlignUp(vmas[k].end);
        if wrapped && addr >= start {
          return 0;
        }
        if wrapped {
          second := k;
        } else {
          first := k;
        }
      }
    }

    /** vma_find_free_region. */
    method FindFreeRegion(hint: nat, length: nat) returns (r: nat)
      requires Valid() && ArenaOk() && hint < U64 && length < U64
      modifies this`mmapHint
      ensures Valid() && ArenaOk() && (r != 0 ==> Wrap(r + AlignUp(length)) <= MMAP_TOP)
      // Right exactly when the first candidate's end does not wrap past 2^64, or a mapping blocks every candidate.
      ensures var first, len := FirstCandidate(hint, old(mmapHint), AlignUp(length)), AlignUp(length);
        FoundRoom(vmas[..], r, len) <==> first + len < U64 || Blocked(vmas[..], first, len)
    {
      hide AlignUp, Wf, FoundRoom, Blocked;
      var len := AlignUp(length);
      var addr := if hint != 0 then hint / PAGE * PAGE else mmapHint;
      if addr < MMAP_BASE || Wrap(addr + len) > MMAP_TOP {
        addr := MMAP_BASE;
      }
      r := Search(addr, len);
      if r != 0 {
        mmapHint := AlignUp((r + len + PAGE) % U64);
        if mmapHint >= MMAP_TOP {
          mmapHint := MMAP_BASE;
        }
      }
    }

    /** The tail of sys_mmap: the first free slot takes the mapping, then neighbours are joined. */
    method Insert(v: Vma) returns (r: Status)
      requires Valid() && v.valid
      modifies vmas
      ensures r == ENOMEM <==> !HasFree(old(vmas[..]))
      ensures r == ENOMEM ==> vmas[..] == old(vmas[..])
      ensures r == OK || r == ENOMEM
      ensures forall top :: EndsBy(old(vmas[..]), top) && v.end <= top ==> EndsBy(vmas[..], top)
      ensures r == OK && Fits(old(vmas[..]), -1, v) && Live(v) && Snug(old(vmas[..])) ==> Snug(vmas[..])
      ensures r == OK && Fits(old(vmas[..]), -1, v) ==>
                && Valid() && Merged(vmas[..])
                && forall a :: At(vmas[..], a) == if Contains(v, a) then Some(AttrAt(v, a)) else At(old(vmas[..]), a)
    {
      hide Wrap, Wf, At, Snug, ValidCount, Merged;
      var j := FindFreeSlot(0);
      if j == VMA_MAX {
        return ENOMEM;
      }
      ghost var t := vmas[..];
      if Fits(t, -1, v) {
        SlotChanged(t, j, v);
        if Live(v) && Snug(t) {
          FilledSnug(t, j, v);
        }
      }
      vmas[j] := v;
      assert vmas[..] == t[j := v];
      MergeAdjacent();
      return OK;
    }

    /** sys_mmap. */
    method Mmap(addr: nat, length: nat, prot: nat, flags: nat, file: FileArg, offset: nat)
      returns (r: Status, at: nat)
      requires Tidy() && ArenaOk()
      requires addr < U64 && length < U64 && offset < U64
      modifies vmas, this`mmapHint
      ensures ArenaOk() && (r == OK <==> at != 0)
      ensures var e := MmapCheck(addr, length, flags, file, offset);
        if e != OK then r == e else r == OK || r == ENOMEM
      // A mapping anywhere fails for lack of memory exactly when no slot or no range is free.
      ensures MmapCheck(addr, length, flags, file, offset) == OK && !IsFixed(flags)
              && FirstCandidate(addr, old(mmapHint), AlignUp(length)) + AlignUp(length) < U64 ==>
                (r == ENOMEM <==> NoRange(old(vmas[..]), AlignUp(length)))
      // A fixed one exactly when no slot is left once its range is cleared; on a table with pairs to join, at most then.
      ensures MmapCheck(addr, length, flags, file, offset) == OK && IsFixed(flags) ==>
                && (r == ENOMEM ==> NoSlotFor(old(vmas[..]), addr, addr + AlignUp(length)))
                && (Merged(old(vmas[..])) && NoSlotFor(old(vmas[..]), addr, addr + AlignUp(length)) ==> r == ENOMEM)
      // A fixed mapping lands where it was asked for; another lands in free space of the arena.
      ensures r == OK && IsFixed(flags) ==> at == addr
      ensures r == OK && (IsFixed(flags) || FirstCandidate(addr, old(mmapHint), AlignUp(length)) + AlignUp(length) < U64) ==>
                && Tidy()
                && Placed(old(vmas[..]), vmas[..], NewVma(at, AlignUp(length), prot, flags, file, offset))
                && (IsFixed(flags) || Vacant(Meaning(old(vmas[..])), at, AlignUp(length)))
      // A failed mapping changes nothing, except that a fixed one whose range could be cleared has lost it.
      ensures r != OK ==>
                && Tidy()
                && if r == ENOMEM && IsFixed(flags)
                      && (HasFree(old(vmas[..])) || !AnyStrict(old(vmas[..]), addr, addr + AlignUp(length)))
                   then forall a :: At(vmas[..], a)
                          == if addr <= a < addr + AlignUp(length) then None else At(old(vmas[..]), a)
                   else vmas[..] == old(vmas[..])
    {
      hide Wrap, Wf, At, AlignUp, Searched, Astray, EndsBy, Snug, Merged, ValidCount, DeltaFrom, Room, Vacant, Meaning, FirstCandidate;
      at := 0;
      var shared, private := flags % 2 == 1, flags / 2 % 2 == 1;
      if shared == private || length == 0 || length > U64 - 1 - 0xfff {
        return EINVAL, 0;
      }
      var len := AlignUp(length);
      if (addr + len) % U64 < addr {
        return EINVAL, 0;
      }
      if IsFixed(flags) && (addr % PAGE != 0 || addr < USER_BASE || addr + len > USER_TOP) {
        return EINVAL, 0;
      }
      if !IsAnonymous(flags) {
        if file.BadFd? { return EBADF, 0; }
        if file.NotRegular? { return ENODEV, 0; }
        if offset % PAGE != 0 { return EINVAL, 0; }
      }
      if shared {
        return ENOSYS, 0;
      }
      var m := addr;
      AlignUpTwice(length);
      WrapSmall(addr + len);
      ghost var t := vmas[..];
      RoomsMean(t, len);
      ValidCountFree(t);
      if IsFixed(flags) {
        var ignored := Munmap(addr, len);
        ValidCountFree(vmas[..]);
        if ignored == OK {
          UnmappedFits(vmas[..], addr, len, prot, flags, file, offset);
        }
      } else {
        m := FindFreeRegion(addr, len);
        if m == 0 {
          return ENOMEM, 0;
        }
        RoomFits(vmas[..], m, len, prot, flags, file, offset);
      }
      r := Insert(NewVma(m, len, prot, flags, file, offset));
      if r == OK {
        at := m;
      }
    }

    method DoMap(c: Call) returns (r: Reply)
      requires Tidy() && ArenaOk() && Callable(c) && c.Map?
      modifies vmas, this`mmapHint
      ensures Tidy() && ArenaOk() && SpaceStep(old(vmas[..]), c, r, vmas[..])
    {
      hide At, AlignUp, Wrap, Wf, Merged, EndsBy, FirstCandidate, Placed, Snug, NoRange, NoSlotFor, MapStep, HasFree, AnyStrict;
      ghost var t := vmas[..];
      if c.addr + AlignUp(c.length) < U64 && !IsFixed(c.flags) {
        FirstSmall(c.addr, mmapHint, AlignUp(c.length));
      }
      var e, at := Mmap(c.addr, c.length, c.prot, c.flags, c.file, c.offset);
      r := Reply(e, at);
      if e == OK {
        assert at + AlignUp(c.length) < U64;
        PlacedSpace(t, vmas[..], at, c);
      }
    }

    method Do(c: Call) returns (r: Reply)
      requires Tidy() && ArenaOk() && Callable(c)
      modifies vmas, this`mmapHint
      ensures Tidy() && ArenaOk() && SpaceStep(old(vmas[..]), c, r, vmas[..])
    {
      hide At, AlignUp, Wrap, Wf, Merged, EndsBy, Snug, HasFree, AnyStrict, ValidCount, NeedFrom, NoRange, NoSlotFor;
      r := Reply(OK, 0);
      match c {
        case Map(addr, length, prot, flags, file, offset) =>
          r := DoMap(c);
        case Unmap(addr, length) =>
          var e := Munmap(addr, length);
          r := Reply(e, 0);
        case Protect(addr, length, prot) =>
          var e := Mprotect(addr, length, prot);
          r := Reply(e, 0);
          ZeroLength();
        case HintMoved(hint) =>
          mmapHint := hint;
      }
    }

    static lemma ZeroLength()
      ensures AlignUp(0) == 0
    {
    }

    /** Over every run of calls the table behaves as a partial map from addresses to attributes. */
    method Run(calls: seq<Call>) returns (rs: seq<Reply>, ghost tables: seq<seq<Vma>>)
      requires Tidy() && ArenaOk() && forall k :: 0 <= k < |calls| ==> Callable(calls[k])
      modifies vmas, this`mmapHint
      ensures Tidy() && ArenaOk() && |rs| == |calls| && |tables| == |calls| + 1
      ensures tables[0] == old(vmas[..]) && tables[|calls|] == vmas[..]
      ensures forall k :: 0 <= k < |calls| ==> SpaceStep(tables[k], calls[k], rs[k], tables[k + 1])
    {
      hide Tidy, ArenaOk, SpaceStep, Callable;
      rs, tables := [], [vmas[..]];
      while |rs| < |calls|
        invariant Tidy() && ArenaOk() && |rs| <= |calls| && |tables| == |rs| + 1
        invariant tables[0] == old(vmas[..]) && tables[|rs|] == vmas[..]
        invariant forall k :: 0 <= k < |rs| ==> SpaceStep(tables[k], calls[k], rs[k], tables[k + 1])
      {
        var r := Do(calls[|rs|]);
        rs, tables := rs + [r], tables + [vmas[..]];
      }
    }
  }
}
