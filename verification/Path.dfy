/** Path canonicalisation as a fold over components, and what it does to path resolution. */
module Path {

  const NUL: char := 0 as char

  // ---------- components and their fold ----------

  /** Length of the first component: up to the first slash or the end. */
  function CompLen(s: string): (k: nat)
    ensures k <= |s| && (k < |s| ==> s[k] == '/') && forall i :: 0 <= i < k ==> s[i] != '/'
  {
    if s == "" || s[0] == '/' then 0 else 1 + CompLen(s[1..])
  }

  /** What follows the first component and the one slash after it. */
  function Rest(s: string): (r: string)
    ensures s != "" ==> |r| < |s|
  {
    var k := CompLen(s);
    if k < |s| then s[k + 1..] else ""
  }

  /** The components of a path, empty ones included. */
  function Comps(s: string): seq<string>
    decreases |s|
  {
    if s == "" then [] else [s[..CompLen(s)]] + Comps(Rest(s))
  }

  /** One component applied to the stack of names so far. */
  function Step(st: seq<string>, c: string): seq<string>
  {
    if c == "" || c == "." then st
    else if c == ".." then (if st == [] then [] else st[..|st| - 1])
    else st + [c]
  }

  function Fold(st: seq<string>, cs: seq<string>): seq<string>
    decreases |cs|
  {
    if cs == [] then st else Fold(Step(st, cs[0]), cs[1..])
  }

  /** "/" followed by the names, with slashes between them. */
  function Render(st: seq<string>): (r: string)
    ensures |r| >= 1 && r[0] == '/'
  {
    if st == [] then "/"
    else if |st| == 1 then "/" + st[0]
    else Render(st[..|st| - 1]) + ['/'] + st[|st| - 1]
  }

  /** The path without its first slash, if it has one. */
  function Unrooted(s: string): string
  {
    if s != "" && s[0] == '/' then s[1..] else s
  }

  function Canon(s: string): string
  {
    Render(Fold([], Comps(Unrooted(s))))
  }

  /** A name a canonical path may hold. */
  predicate IsName(c: string)
  {
    c != "" && c != "." && c != ".." && forall i :: 0 <= i < |c| ==> c[i] != '/'
  }

  predicate AllNames(st: seq<string>)
  {
    forall i :: 0 <= i < |st| ==> IsName(st[i])
  }

  predicate NoSlash(cs: seq<string>)
  {
    forall i, j :: 0 <= i < |cs| && 0 <= j < |cs[i]| ==> cs[i][j] != '/'
  }

  lemma {:induction false} CompsNoSlash(s: string)
    ensures NoSlash(Comps(s))
    decreases |s|
  {
    if s != "" {
      CompsNoSlash(Rest(s));
    }
  }

  lemma {:induction false} FoldNames(st: seq<string>, cs: seq<string>)
    requires AllNames(st) && NoSlash(cs)
    ensures AllNames(Fold(st, cs))
    decreases |cs|
  {
    if cs != [] {
      FoldNames(Step(st, cs[0]), cs[1..]);
    }
  }

  // ---------- idempotence ----------

  lemma {:induction false} CompLenOf(c: string, rest: string)
    requires forall i :: 0 <= i < |c| ==> c[i] != '/'
    requires rest == "" || rest[0] == '/'
    ensures CompLen(c + rest) == |c|
  {
    if c == "" {
      assert c + rest == rest;
    } else {
      assert (c + rest)[1..] == c[1..] + rest;
      CompLenOf(c[1..], rest);
    }
  }

  /** A component, a slash, and more. */
  lemma CompsCons(a: string, b: string)
    requires forall i :: 0 <= i < |a| ==> a[i] != '/'
    ensures Comps(a + ['/'] + b) == [a] + Comps(b)
  {
    var s, r := a + ['/'] + b, ['/'] + b;
    assert s == a + r;
    CompLenOf(a, r);
    assert s[..|a|] == a && s[|a| + 1..] == b;
  }

  lemma CompsOne(a: string)
    requires a != "" && forall i :: 0 <= i < |a| ==> a[i] != '/'
    ensures Comps(a) == [a]
  {
    CompLenOf(a, "");
    assert a + "" == a;
    assert a[..|a|] == a;
    assert Rest(a) == "";
  }

  /** Appending a slash and a name to a path that ends in a name appends a component. */
  lemma {:induction false} CompsAppend(s: string, c: string)
    requires s != "" && s[|s| - 1] != '/' && IsName(c)
    ensures Comps(s + ['/'] + c) == Comps(s) + [c]
    decreases |s|
  {
    hide Comps;
    var k := CompLen(s);
    if k == |s| {
      CompsCons(s, c);
      CompsOne(c);
      CompsOne(s);
    } else {
      var a, b := s[..k], s[k + 1..];
      assert s == a + ['/'] + b;
      assert s + ['/'] + c == a + ['/'] + (b + ['/'] + c);
      CompsCons(a, b);
      CompsCons(a, b + ['/'] + c);
      CompsAppend(b, c);
    }
  }

  lemma RenderFew(st: seq<string>)
    requires AllNames(st) && |st| < 2
    ensures Comps(Render(st)[1..]) == st
    ensures st != [] ==> Render(st)[|Render(st)| - 1] != '/' && |Render(st)| > 1
  {
    if |st| == 1 {
      hide Comps;
      assert Render(st)[1..] == st[0] && IsName(st[0]);
      CompsOne(st[0]);
    }
  }

  lemma RenderMany(st: seq<string>)
    requires |st| >= 2
    ensures Render(st) == Render(st[..|st| - 1]) + ['/'] + st[|st| - 1]
  {
  }

  lemma {:induction false} CompsOfRender(st: seq<string>)
    requires AllNames(st)
    ensures Comps(Render(st)[1..]) == st
    ensures st != [] ==> Render(st)[|Render(st)| - 1] != '/' && |Render(st)| > 1
  {
    hide Comps, Render, IsName;
    if |st| < 2 {
      RenderFew(st);
    } else {
      var n := |st| - 1;
      var r, c := Render(st[..n]), st[n];
      CompsOfRender(st[..n]);
      RenderMany(st);
      RenderTail(r, c);
      CompsAppend(r[1..], c);
      assert st == st[..n] + [c];
    }
  }

  lemma RenderTail(r: string, c: string)
    requires |r| > 1 && r[|r| - 1] != '/' && IsName(c)
    ensures var s := r + ['/'] + c;
            s[1..] == r[1..] + ['/'] + c && s[|s| - 1] != '/'
    ensures r[1..] != "" && r[1..][|r[1..]| - 1] != '/'
  {
  }

  lemma {:induction false} FoldOfNames(st: seq<string>, cs: seq<string>)
    requires AllNames(cs)
    ensures Fold(st, cs) == st + cs
    decreases |cs|
  {
    if cs != [] {
      FoldOfNames(st + [cs[0]], cs[1..]);
      assert st + [cs[0]] + cs[1..] == st + cs;
    }
  }

  lemma CanonIdempotent(s: string)
    ensures Canon(Canon(s)) == Canon(s)
  {
    hide Comps, Render, Fold;
    var st := Fold([], Comps(Unrooted(s)));
    CompsNoSlash(Unrooted(s));
    FoldNames([], Comps(Unrooted(s)));
    CompsOfRender(st);
    FoldOfNames([], st);
    assert [] + st == st;
  }

  // ---------- the buffer algorithm ----------

  method CompEnd(src: string, p: nat) returns (q: nat)
    requires p <= |src|
    ensures q == p + CompLen(src[p..])
  {
    q := p;
    while q < |src| && src[q] != '/'
      invariant p <= q <= |src|
      invariant CompLen(src[p..]) == (q - p) + CompLen(src[q..])
    {
      assert src[q..][1..] == src[q + 1..];
      q := q + 1;
    }
  }

  /** The last slash of a canonical path separates its last name from the rest. */
  lemma RenderLast(st: seq<string>)
    requires st != [] && AllNames(st)
    ensures var n := |st| - 1;
            var r := Render(st);
            && |r| > 1
            && (if n == 0 then r == ['/'] + st[0] else r == Render(st[..n]) + ['/'] + st[n])
  {
  }

  /** The walk back over the last component. */
  method Pop(dst: array<char>, idx: nat, ghost st: seq<string>) returns (k: nat)
    requires st != [] && AllNames(st) && idx < dst.Length && dst[..idx] == Render(st)
    modifies dst
    ensures 1 <= k < idx && dst[..k] == Render(st[..|st| - 1])
    ensures dst[k] == NUL
    ensures forall i :: k < i < dst.Length ==> dst[i] == old(dst[i])
  {
    RenderLast(st);
    ghost var n := |st| - 1;
    ghost var head := if n == 0 then "" else Render(st[..n]);
    ghost var r := Render(st);
    assert r == head + ['/'] + st[n];
    hide Render;
    assert IsName(st[n]);
    assert forall i :: |head| < i < idx ==> r[i] == st[n][i - |head| - 1];
    k := idx - 1;
    while k > 0 && dst[k] != '/'
      invariant |head| <= k < idx && unchanged(dst)
    {
      assert r[k] != '/';
      k := k - 1;
    }
    assert k == |head|;
    if k == 0 {
      k := 1;
    }
    assert dst[..k] == if n == 0 then ['/'] else head;
    RenderNil();
    assert n == 0 ==> st[..n] == [];
    dst[k] := NUL;
  }

  lemma RenderNil()
    ensures Render([]) == ['/']
  {
  }

  lemma RenderPush(st: seq<string>, c: string)
    ensures Render(st + [c]) == (if st == [] then ['/'] else Render(st) + ['/']) + c
  {
  }

  /** The copy of one component, with a slash before it unless the path is still "/". */
  method Push(dst: array<char>, idx: nat, c: string, ghost st: seq<string>) returns (k: nat)
    requires 1 <= idx && idx + |c| + (if idx > 1 then 1 else 0) < dst.Length
    requires dst[..idx] == Render(st) && (idx == 1 <==> st == [])
    modifies dst
    ensures k == idx + |c| + (if idx > 1 then 1 else 0) && dst[..k] == Render(st + [c]) && dst[k] == NUL
    ensures forall i :: k < i < dst.Length ==> dst[i] == old(dst[i])
  {
    RenderPush(st, c);
    RenderNil();
    hide Render;
    ghost var r := Render(st);
    k := idx;
    if k > 1 {
      dst[k] := '/';
      k := k + 1;
    }
    ghost var base := dst[..k];
    assert base == if st == [] then ['/'] else r + ['/'];
    var i := 0;
    while i < |c|
      invariant 0 <= i <= |c| && k == |base| + i
      invariant dst[..k] == base + c[..i]
      invariant forall j :: k <= j < dst.Length ==> dst[j] == old(dst[j])
    {
      dst[k] := c[i];
      k, i := k + 1, i + 1;
    }
    assert c[..i] == c;
    dst[k] := NUL;
  }

  /** vfs_canonicalize_path: dst receives Canon(src), at most |src| + 1 characters and the terminator. */
  method Canonicalize(src: string, dst: array<char>) returns (idx: nat)
    requires dst.Length >= |src| + 2
    modifies dst
    ensures 1 <= idx <= |src| + 1 && dst[..idx] == Canon(src) && dst[idx] == NUL
    ensures forall i :: |src| + 2 <= i < dst.Length ==> dst[i] == old(dst[i])
  {
    hide Render, Comps, Fold, IsName, Unrooted;
    idx := 0;
    dst[idx] := '/';
    idx := idx + 1;
    dst[idx] := NUL;
    var p := 0;
    if p < |src| && src[p] == '/' {
      p := p + 1;
    }
    ghost var st: seq<string> := [];
    ghost var goal := Fold([], Comps(Unrooted(src)));
    StartOf(src, p);
    RenderNil();
    while p < |src|
      invariant 0 <= p <= |src| && 1 <= idx <= |src| + 1
      invariant idx > 1 && p < |src| ==> idx <= p
      invariant idx == 1 <==> st == []
      invariant AllNames(st) && dst[..idx] == Render(st) && dst[idx] == NUL
      invariant Fold(st, Comps(src[p..])) == goal
      invariant forall i :: |src| + 2 <= i < dst.Length ==> dst[i] == old(dst[i])
    {
      var q := CompEnd(src, p);
      var c := src[p..q];
      NextComp(st, src, p, q);
      var next := if q < |src| then q + 1 else q;
      if c == "" || c == "." {
      } else if c == ".." {
        if idx > 1 {
          idx := Pop(dst, idx, st);
          RenderLength(st[..|st| - 1]);
        }
      } else {
        idx := Push(dst, idx, c, st);
      }
      st := Step(st, c);
      p := next;
    }
    assert src[p..] == "";
    FoldDone(st);
  }

  lemma StartOf(src: string, p: nat)
    requires p == if src != "" && src[0] == '/' then 1 else 0
    ensures p <= |src| && src[p..] == Unrooted(src)
  {
  }

  /** One round of the loop consumes one component. */
  lemma NextComp(st: seq<string>, src: string, p: nat, q: nat)
    requires p < |src| && q == p + CompLen(src[p..]) && AllNames(st)
    ensures p <= q <= |src|
    ensures var next := if q < |src| then q + 1 else q;
            Fold(st, Comps(src[p..])) == Fold(Step(st, src[p..q]), Comps(src[next..]))
    ensures AllNames(Step(st, src[p..q]))
  {
    var s := src[p..];
    var next := if q < |src| then q + 1 else q;
    assert s[..q - p] == src[p..q];
    assert Rest(s) == src[next..];
    assert Comps(s) == [src[p..q]] + Comps(src[next..]);
    hide Comps;
    FoldCons(st, src[p..q], Comps(src[next..]));
    StepNames(st, src[p..q]);
  }

  lemma FoldCons(st: seq<string>, c: string, cs: seq<string>)
    ensures Fold(st, [c] + cs) == Fold(Step(st, c), cs)
  {
  }

  lemma StepNames(st: seq<string>, c: string)
    requires AllNames(st) && forall i :: 0 <= i < |c| ==> c[i] != '/'
    ensures AllNames(Step(st, c))
  {
  }

  lemma RenderLength(st: seq<string>)
    requires AllNames(st)
    ensures |Render(st)| == 1 <==> st == []
  {
  }

  lemma FoldDone(st: seq<string>)
    ensures Fold(st, Comps("")) == st
  {
  }
}
