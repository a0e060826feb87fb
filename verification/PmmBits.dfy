/** Byte bitmaps, page counts and the life of one page, as plain values. */
module PmmBits {
  import opened Common

  const PAGE: nat := 4096
  /** Reference counts are 16 bits wide. */
  const WIDTH: nat := 65536

  // ---------- bit index of a byte bitmap ----------

  function Mask(i: nat): bv8
    requires i < 8
  {
    (1 as bv8) << i
  }

  predicate Test(bm: seq<bv8>, i: nat)
    requires i < 8 * |bm|
  {
    bm[i / 8] & Mask(i % 8) != 0
  }

  lemma MaskBits(b: bv8, i: nat, j: nat)
    requires i < 8 && j < 8
    ensures ((b | Mask(i)) & Mask(j) != 0) == (i == j || b & Mask(j) != 0)
    ensures ((b & !Mask(i)) & Mask(j) != 0) == (i != j && b & Mask(j) != 0)
  {
  }

  /** The first n bits, one truth value each. */
  function Bits(bm: seq<bv8>, n: nat): (r: seq<bool>)
    requires n <= 8 * |bm|
    ensures |r| == n && forall i :: 0 <= i < n ==> r[i] == Test(bm, i)
  {
    seq(n, i requires 0 <= i < n => Test(bm, i))
  }

  function SetBit(bm: seq<bv8>, i: nat): seq<bv8>
    requires i < 8 * |bm|
  {
    bm[i / 8 := bm[i / 8] | Mask(i % 8)]
  }

  function ClearBit(bm: seq<bv8>, i: nat): seq<bv8>
    requires i < 8 * |bm|
  {
    bm[i / 8 := bm[i / 8] & !Mask(i % 8)]
  }

  lemma TestUpdated(bm: seq<bv8>, i: nat, j: nat)
    requires i < 8 * |bm| && j < 8 * |bm|
    ensures Test(SetBit(bm, i), j) == (i == j || Test(bm, j))
    ensures Test(ClearBit(bm, i), j) == (i != j && Test(bm, j))
  {
    var a, b, c, d := i / 8, i % 8, j / 8, j % 8;
    if a == c {
      MaskBits(bm[a], b, d);
    }
    hide Mask;
    assert i == 8 * a + b && j == 8 * c + d;
  }

  lemma BitsUpdated(bm: seq<bv8>, n: nat, i: nat)
    requires i < n <= 8 * |bm|
    ensures Bits(SetBit(bm, i), n) == Bits(bm, n)[i := true]
    ensures Bits(ClearBit(bm, i), n) == Bits(bm, n)[i := false]
  {
    forall j | 0 <= j < n
      ensures Test(SetBit(bm, i), j) == (i == j || Test(bm, j))
      ensures Test(ClearBit(bm, i), j) == (i != j && Test(bm, j))
    {
      TestUpdated(bm, i, j);
    }
    var set_, clear := SetBit(bm, i), ClearBit(bm, i);
    hide Test, SetBit, ClearBit;
    assert Bits(set_, n) == Bits(bm, n)[i := true];
    assert Bits(clear, n) == Bits(bm, n)[i := false];
  }

  // ---------- counting ----------

  lemma FullBits(bm: seq<bv8>, n: nat)
    requires n <= 8 * |bm| && forall i :: 0 <= i < |bm| ==> bm[i] == 0xFF
    ensures forall i :: 0 <= i < n ==> Bits(bm, n)[i]
  {
  }

  lemma {:induction false} ClearNone(used: seq<bool>)
    requires forall i :: 0 <= i < |used| ==> used[i]
    ensures Clear(used) == 0
  {
    if used != [] {
      ClearNone(used[..|used| - 1]);
    }
  }

  // ---------- free runs ----------

  predicate FreeAt(used: seq<bool>, managed: seq<bool>, i: nat)
    requires |used| == |managed|
  {
    i < |used| && managed[i] && !used[i]
  }

  predicate FreeRun(used: seq<bool>, managed: seq<bool>, start: nat, count: nat)
    requires |used| == |managed|
  {
    start + count <= |used| && forall i :: start <= i < start + count ==> FreeAt(used, managed, i)
  }

  /** `used` with `count` bits set from `start` on. */
  function Taken(used: seq<bool>, start: nat, count: nat): (r: seq<bool>)
    requires start + count <= |used|
    ensures |r| == |used|
    ensures forall i :: 0 <= i < |r| ==> r[i] == (used[i] || start <= i < start + count)
  {
    if count == 0 then used else Taken(used, start, count - 1)[start + count - 1 := true]
  }

  lemma {:induction false} ClearTaken(used: seq<bool>, managed: seq<bool>, start: nat, count: nat)
    requires |used| == |managed| && FreeRun(used, managed, start, count)
    ensures Clear(Taken(used, start, count)) == Clear(used) - count
  {
    if count > 0 {
      ClearTaken(used, managed, start, count - 1);
      var i, t := start + count - 1, Taken(used, start, count - 1);
      assert FreeAt(used, managed, i) && !t[i];
      assert Taken(used, start, count) == t[i := true];
      hide Taken, Clear, FreeRun;
      ClearUpdated(t, i, true);
    }
  }

  // ---------- the life of one page ----------

  datatype Page = Page(used: bool, refs: nat)
  datatype PageOp = Ref | Free

  function Freed(p: Page): Page
  {
    var refs := if p.refs > 0 then p.refs - 1 else 0;
    Page(p.used && refs != 0, refs)
  }

  function Shared(p: Page): Page
  {
    p.(refs := (p.refs + 1) % WIDTH)
  }

  /** Freeing a page that is not in use panics and changes nothing. */
  function After(p: Page, ops: seq<PageOp>): Page
  {
    if ops == [] then p
    else
      var q := After(p, ops[..|ops| - 1]);
      match ops[|ops| - 1]
      case Ref => Shared(q)
      case Free => if q.used then Freed(q) else q
  }

  /** Holders left: the allocation is one, each reference adds one, each free drops one. */
  function Held(ops: seq<PageOp>): int
  {
    if ops == [] then 1
    else Held(ops[..|ops| - 1]) + if ops[|ops| - 1].Ref? then 1 else -1
  }

  /** Every holder frees exactly once, the last operation being the last free. */
  predicate Complete(ops: seq<PageOp>)
  {
    Held(ops) == 0 && forall k :: 0 <= k < |ops| ==> Held(ops[..k]) > 0
  }

  const FRESH: Page := Page(true, 1)

  /** The page is in use as long as someone holds it, and free afterwards. */
  ghost predicate KeptWhileHeld(ops: seq<PageOp>)
  {
    && (forall k :: 0 <= k < |ops| ==> After(FRESH, ops[..k]).used)
    && !After(FRESH, ops).used
  }

  ghost predicate NeverWraps(ops: seq<PageOp>)
  {
    forall k :: 0 <= k <= |ops| ==> Held(ops[..k]) < WIDTH
  }

  lemma Prefixes<T>(s: seq<T>, k: nat)
    requires k < |s|
    ensures s[..k + 1][..k] == s[..k] && s[..k + 1][k] == s[k]
  {
  }

  /** While the page stays in use, its count is the number of holders, modulo the width. */
  lemma {:induction false} CountsHolders(ops: seq<PageOp>, k: nat)
    requires k <= |ops| && forall j :: 0 <= j <= k ==> After(FRESH, ops[..j]).used
    requires forall j :: 0 <= j <= k ==> Held(ops[..j]) > 0
    ensures After(FRESH, ops[..k]).refs == Held(ops[..k]) % WIDTH
  {
    if k > 0 {
      CountsHolders(ops, k - 1);
      Prefixes(ops, k - 1);
      assert After(FRESH, ops[..k]).used;
      CountStep(Held(ops[..k - 1]));
    }
  }

  lemma CountStep(h: int)
    requires h > 0
    ensures (h % WIDTH + 1) % WIDTH == (h + 1) % WIDTH
    ensures h % WIDTH > 0 ==> (h - 1) % WIDTH == h % WIDTH - 1
  {
  }

  lemma {:induction false} InUse(ops: seq<PageOp>, k: nat)
    requires Complete(ops) && NeverWraps(ops) && k < |ops|
    ensures forall j :: 0 <= j <= k ==> After(FRESH, ops[..j]).used
  {
    if k > 0 {
      InUse(ops, k - 1);
      CountsHolders(ops, k - 1);
      Prefixes(ops, k - 1);
      assert Held(ops[..k]) > 0 && 0 < Held(ops[..k - 1]) < WIDTH;
    }
  }

  /** Coming back from a full count, some free finds exactly a full count of holders. */
  lemma {:induction false} FreeAtFull(ops: seq<PageOp>, k: nat) returns (j: nat)
    requires k <= |ops| && Held(ops[..k]) >= WIDTH && Held(ops) == 0
    ensures k <= j < |ops| && Held(ops[..j]) == WIDTH && ops[j].Free?
    decreases |ops| - k
  {
    assert ops[..|ops|] == ops;
    Prefixes(ops, k);
    if ops[k].Free? && Held(ops[..k]) == WIDTH {
      j := k;
    } else {
      j := FreeAtFull(ops, k + 1);
    }
  }

  lemma LastFree(ops: seq<PageOp>)
    requires Complete(ops) && NeverWraps(ops)
    ensures !After(FRESH, ops).used
  {
    var n := |ops| - 1;
    InUse(ops, n);
    CountsHolders(ops, n);
    Prefixes(ops, n);
    assert ops[..n + 1] == ops;
    assert Held(ops[..n]) == 1 && ops[n].Free?;
  }

  lemma LosesNow(ops: seq<PageOp>, j: nat)
    requires Complete(ops) && j < |ops| && Held(ops[..j]) == WIDTH && ops[j].Free?
    requires forall i :: 0 <= i <= j ==> After(FRESH, ops[..i]).used
    ensures j + 1 < |ops| && !After(FRESH, ops[..j + 1]).used
  {
    CountsHolders(ops, j);
    Prefixes(ops, j);
    assert Held(ops[..j + 1]) == WIDTH - 1;
    assert ops[..|ops|] == ops;
  }

  lemma WrapLoses(ops: seq<PageOp>, k: nat)
    requires Complete(ops) && k <= |ops| && Held(ops[..k]) >= WIDTH
    ensures !KeptWhileHeld(ops)
  {
    var j := FreeAtFull(ops, k);
    if forall i :: 0 <= i <= j ==> After(FRESH, ops[..i]).used {
      LosesNow(ops, j);
    }
  }

  /** A page outlives all its holders exactly when the 16-bit count never wraps. */
  lemma KeptExactlyWithoutWrap(ops: seq<PageOp>)
    requires Complete(ops)
    ensures KeptWhileHeld(ops) <==> NeverWraps(ops)
  {
    assert ops != [];
    hide After, Held;
    if NeverWraps(ops) {
      InUse(ops, |ops| - 1);
      LastFree(ops);
    } else {
      var k :| 0 <= k <= |ops| && Held(ops[..k]) >= WIDTH;
      WrapLoses(ops, k);
    }
  }

  function Refs(n: nat): (r: seq<PageOp>)
    ensures |r| == n
  {
    if n == 0 then [] else Refs(n - 1) + [Ref]
  }

  lemma OneMore(ops: seq<PageOp>, op: PageOp)
    ensures Held(ops + [op]) == Held(ops) + (if op.Ref? then 1 else -1)
    ensures op == Ref ==> After(FRESH, ops + [op]) == Shared(After(FRESH, ops))
    ensures op == Free && After(FRESH, ops).used ==> After(FRESH, ops + [op]) == Freed(After(FRESH, ops))
  {
    assert (ops + [op])[..|ops|] == ops;
  }

  lemma {:induction false} AfterRefs(n: nat)
    ensures Held(Refs(n)) == 1 + n && After(FRESH, Refs(n)) == Page(true, (1 + n) % WIDTH)
  {
    if n == 0 {
    } else {
      hide After, Held;
      AfterRefs(n - 1);
      OneMore(Refs(n - 1), Ref);
      CountStep(n);
    }
  }

  /** After 65535 references one free takes the page from the 65535 holders left. */
  lemma TooManyHolders(n: nat)
    requires n == WIDTH - 1
    ensures var ops := Refs(n) + [Free];
      Held(ops) == n && !After(FRESH, ops).used
  {
    hide After, Held, Refs;
    AfterRefs(n);
    OneMore(Refs(n), Free);
  }
}
