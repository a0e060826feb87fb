/**
  A process's VMA slots and their meaning: a partial map from address to mapping
  attributes.  Slots are unordered and may be invalid.
 */
module VmaMap {
  import opened Common

  /** struct vma. */
  datatype Vma = Vma(
    valid: bool, start: nat, end: nat,
    prot: nat, mmapFlags: nat, anonymous: bool, private: bool, file: nat, offset: nat, flags: nat)

  /** What one mapped address carries; offset is the file position behind it, 0 when anonymous. */
  datatype Attr = Attr(prot: nat, mmapFlags: nat, anonymous: bool, private: bool, file: nat, flags: nat, offset: nat)

  function Wrap(x: int): (r: nat)
    ensures r < U64
  {
    x % U64
  }

  lemma WrapAdd(x: int, y: int)
    ensures Wrap(Wrap(x) + y) == Wrap(x + y)
  {
  }

  lemma WrapShift(x: int, y: int, z: int)
    ensures Wrap(x) == Wrap(y) ==> Wrap(x + z) == Wrap(y + z)
  {
  }

  lemma WrapSmall(x: nat)
    ensures x < U64 ==> Wrap(x) == x
  {
  }

  function AttrAt(v: Vma, a: int): Attr
  {
    Attr(v.prot, v.mmapFlags, v.anonymous, v.private, v.file, v.flags,
         if v.anonymous then 0 else Wrap(v.offset + (a - v.start)))
  }

  predicate Contains(v: Vma, a: int)
  {
    v.valid && v.start <= a < v.end
  }

  predicate Overlaps(v: Vma, lo: int, hi: int)
  {
    v.valid && lo < v.end && v.start < hi
  }

  /** A valid slot that maps at least one address. */
  predicate Live(v: Vma)
  {
    v.valid && v.start < v.end
  }

  /** Valid slots are 64-bit intervals, and those that map anything are pairwise disjoint. */
  ghost predicate Wf(t: seq<Vma>)
  {
    && (forall k :: 0 <= k < |t| && t[k].valid ==> t[k].start <= t[k].end < U64 && t[k].offset < U64)
    && (forall j, k :: 0 <= j < |t| && 0 <= k < |t| && j != k && Live(t[j]) && Live(t[k]) ==>
          t[j].end <= t[k].start || t[k].end <= t[j].start)
  }

  ghost predicate Covers(t: seq<Vma>, k: int, a: int)
  {
    0 <= k < |t| && Contains(t[k], a)
  }

  /** The map a table stands for. */
  ghost function At(t: seq<Vma>, a: int): Option<Attr>
  {
    if k :| Covers(t, k, a) then Some(AttrAt(t[k], a)) else None
  }

  lemma AtSlot(t: seq<Vma>, k: int, a: int)
    requires Wf(t) && Covers(t, k, a)
    ensures At(t, a) == Some(AttrAt(t[k], a))
  {
  }

  // ---------- changing one slot ----------

  /** Mapping v restricted to [lo, hi). */
  function Sub(v: Vma, lo: nat, hi: nat): Vma
  {
    v.(start := lo, end := hi, offset := if v.anonymous then v.offset else Wrap(v.offset + (lo - v.start)))
  }

  lemma SubAttr(v: Vma, lo: nat, hi: nat, a: int)
    ensures AttrAt(Sub(v, lo, hi), a) == AttrAt(v, a)
  {
  }

  /** p may stand in slot i: it maps nothing, or it is clear of every other live slot. */
  ghost predicate Fits(t: seq<Vma>, i: int, p: Vma)
  {
    && (p.valid ==> p.start <= p.end < U64 && p.offset < U64)
    && (Live(p) ==> forall k :: 0 <= k < |t| && k != i && Live(t[k]) ==> !Overlaps(t[k], p.start, p.end))
  }

  lemma SlotChanged(t: seq<Vma>, i: int, p: Vma)
    requires Wf(t) && 0 <= i < |t| && Fits(t, i, p)
    ensures Wf(t[i := p])
    ensures forall a :: At(t[i := p], a) == if Contains(p, a) then Some(AttrAt(p, a))
                                            else if Contains(t[i], a) then None else At(t, a)
  {
    hide Wrap;
    var t' := t[i := p];
    forall a ensures At(t', a) == if Contains(p, a) then Some(AttrAt(p, a))
                                  else if Contains(t[i], a) then None else At(t, a)
    {
      if Contains(p, a) {
        assert Covers(t', i, a);
        AtSlot(t', i, a);
      } else if Contains(t[i], a) {
        assert Covers(t, i, a);
        assert forall k :: !Covers(t', k, a);
      } else {
        forall k | Covers(t, k, a) ensures At(t', a) == At(t, a) {
          assert Covers(t', k, a);
          AtSlot(t, k, a);
          AtSlot(t', k, a);
        }
        assert forall k :: Covers(t', k, a) ==> Covers(t, k, a);
      }
    }
  }

  // ---------- merging ----------

  /** Slot i ends where slot j starts, and the two carry on one mapping. */
  predicate Mergeable(t: seq<Vma>, i: int, j: int)
    requires 0 <= i < |t| && 0 <= j < |t|
  {
    && i != j && t[i].valid && t[j].valid
    && t[i].end == t[j].start
    && t[i].prot == t[j].prot && t[i].mmapFlags == t[j].mmapFlags
    && t[i].anonymous == t[j].anonymous && t[i].private == t[j].private
    && t[i].file == t[j].file && t[i].flags == t[j].flags
    && (t[i].anonymous || Wrap(t[i].offset + (t[i].end - t[i].start)) == t[j].offset)
  }

  ghost predicate Merged(t: seq<Vma>)
  {
    forall i, j :: 0 <= i < |t| && 0 <= j < |t| ==> !Mergeable(t, i, j)
  }

  function MergeStep(t: seq<Vma>, i: int, j: int): seq<Vma>
    requires 0 <= i < |t| && 0 <= j < |t| && i != j
  {
    t[i := t[i].(end := t[j].end)][j := t[j].(valid := false)]
  }

  lemma MergeStepKeeps(t: seq<Vma>, i: int, j: int)
    requires Wf(t) && 0 <= i < |t| && 0 <= j < |t| && Mergeable(t, i, j)
    ensures Wf(MergeStep(t, i, j))
    ensures forall a :: At(MergeStep(t, i, j), a) == At(t, a)
  {
    hide Wrap;
    var gone, longer := t[j].(valid := false), t[i].(end := t[j].end);
    SlotChanged(t, j, gone);
    SlotChanged(t[j := gone], i, longer);
    assert MergeStep(t, i, j) == t[j := gone][i := longer];
    hide Wf, At;
    forall a ensures At(MergeStep(t, i, j), a) == At(t, a) {
      MergedAt(t, i, j, a);
    }
  }

  /** The longer mapping carries on with the attributes of the one it takes over. */
  lemma MergedAt(t: seq<Vma>, i: int, j: int, a: int)
    requires Wf(t) && 0 <= i < |t| && 0 <= j < |t| && Mergeable(t, i, j)
    ensures Contains(t[i], a) ==> At(t, a) == Some(AttrAt(t[i], a))
    ensures Contains(t[j], a) ==> At(t, a) == Some(AttrAt(t[i].(end := t[j].end), a))
    ensures AttrAt(t[i].(end := t[j].end), a) == AttrAt(t[i], a)
  {
    hide Wrap;
    WrapAdd(t[i].offset + (t[i].end - t[i].start), a - t[j].start);
    if Contains(t[i], a) {
      AtSlot(t, i, a);
    }
    if Contains(t[j], a) {
      AtSlot(t, j, a);
    }
  }

  /** The mappings of a table, without their slots and without empty ones. */
  ghost function Intervals(t: seq<Vma>): set<(nat, nat, Attr)>
  {
    set k | 0 <= k < |t| && Live(t[k]) :: (t[k].start, t[k].end, AttrAt(t[k], t[k].start))
  }

  /** A merged table cannot start a mapping where another table of the same map continues one. */
  lemma SameStart(t: seq<Vma>, u: seq<Vma>, k: int, m: int)
    requires Wf(t) && Wf(u) && Merged(t) && forall a :: At(t, a) == At(u, a)
    requires 0 <= k < |t| && Live(t[k]) && Covers(u, m, t[k].start)
    ensures u[m].start == t[k].start
  {
    hide Wrap;
    var s := t[k].start;
    if u[m].start < s {
      AtSlot(t, k, s);
      AtSlot(u, m, s);
      assert Covers(u, m, s - 1);
      AtSlot(u, m, s - 1);
      assert At(t, s - 1) == At(u, s - 1);
      var l :| Covers(t, l, s - 1);
      AtSlot(t, l, s - 1);
      assert t[l].end == s && !Mergeable(t, l, k);
      WrapShift(t[l].offset + (s - 1 - t[l].start), u[m].offset + (s - 1 - u[m].start), 1);
      WrapSmall(t[k].offset);
    }
  }

  lemma SameEnd(t: seq<Vma>, u: seq<Vma>, k: int, m: int)
    requires Wf(t) && Wf(u) && Merged(t) && forall a :: At(t, a) == At(u, a)
    requires 0 <= k < |t| && Live(t[k]) && 0 <= m < |u| && Live(u[m]) && u[m].start == t[k].start
    ensures u[m].end <= t[k].end
  {
    hide Wrap;
    var e := t[k].end;
    if u[m].end > e {
      assert Covers(t, k, e - 1) && Covers(u, m, e - 1) && Covers(u, m, e);
      AtSlot(t, k, e - 1);
      AtSlot(u, m, e - 1);
      AtSlot(u, m, e);
      assert At(t, e) == At(u, e);
      var l :| Covers(t, l, e);
      AtSlot(t, l, e);
      assert t[l].start == e && !Mergeable(t, k, l);
      WrapShift(t[k].offset + (e - 1 - t[k].start), u[m].offset + (e - 1 - u[m].start), 1);
      WrapSmall(t[l].offset);
    }
  }

  lemma IntervalsWithin(t: seq<Vma>, u: seq<Vma>)
    requires Wf(t) && Wf(u) && Merged(t) && Merged(u)
    requires forall a :: At(t, a) == At(u, a)
    ensures Intervals(t) <= Intervals(u)
  {
    forall x | x in Intervals(t) ensures x in Intervals(u) {
      var k :| 0 <= k < |t| && Live(t[k]) && x == (t[k].start, t[k].end, AttrAt(t[k], t[k].start));
      var s := t[k].start;
      assert Covers(t, k, s);
      AtSlot(t, k, s);
      assert At(t, s) == At(u, s);
      var m :| Covers(u, m, s);
      AtSlot(u, m, s);
      SameStart(t, u, k, m);
      SameEnd(t, u, k, m);
      SameEnd(u, t, m, k);
    }
  }

  lemma IntervalsCover(t: seq<Vma>, u: seq<Vma>, a: int, k: int)
    requires Wf(t) && Wf(u) && Intervals(t) <= Intervals(u) && Covers(t, k, a)
    ensures At(u, a) == At(t, a) == Some(AttrAt(t[k], a))
  {
    hide Wrap;
    AtSlot(t, k, a);
    assert (t[k].start, t[k].end, AttrAt(t[k], t[k].start)) in Intervals(t);
    var m :| 0 <= m < |u| && Live(u[m])
             && (t[k].start, t[k].end, AttrAt(t[k], t[k].start)) == (u[m].start, u[m].end, AttrAt(u[m], u[m].start));
    assert Covers(u, m, a);
    AtSlot(u, m, a);
    WrapShift(t[k].offset + (t[k].start - t[k].start), u[m].offset + (u[m].start - u[m].start), a - t[k].start);
  }

  /** Merged tables are canonical: the same map is the same set of mappings, whatever the slots. */
  lemma MergedCanonical(t: seq<Vma>, u: seq<Vma>)
    requires Wf(t) && Wf(u) && Merged(t) && Merged(u)
    ensures (forall a :: At(t, a) == At(u, a)) <==> Intervals(t) == Intervals(u)
  {
    if forall a :: At(t, a) == At(u, a) {
      IntervalsWithin(t, u);
      IntervalsWithin(u, t);
    }
    if Intervals(t) == Intervals(u) {
      forall a ensures At(t, a) == At(u, a) {
        forall k | Covers(t, k, a) ensures At(t, a) == At(u, a) {
          IntervalsCover(t, u, a, k);
        }
        forall k | Covers(u, k, a) ensures At(t, a) == At(u, a) {
          IntervalsCover(u, t, a, k);
        }
      }
    }
  }
}
