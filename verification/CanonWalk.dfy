/** When a canonical path resolves like the path it was made from: exactly, path by path. */
module CanonWalk {
  import opened Common
  import opened Path
  import opened Vfs = Resolve

  // ---------- nodes by name ----------

  /** The positions that a stack of names leads to, first matches taken. */
  function Lookup(t: Tree, st: seq<string>): (r: Option<seq<nat>>)
    ensures r.Some? ==> Exists(t, r.value) && |r.value| == |st|
  {
    if st == [] then Some([])
    else
      var f := Find(t, st[0]);
      if f < 0 then None
      else
        match Lookup(t.children[f].node, st[1..])
        case None => None
        case Some(at) => Some([f] + at)
  }

  ghost predicate DirAt(t: Tree, st: seq<string>)
  {
    Lookup(t, st).Some? && Sub(t, Lookup(t, st).value).Dir?
  }

  lemma {:induction false} LookupSnoc(t: Tree, st: seq<string>, c: string)
    ensures Lookup(t, st + [c])
      == (if Lookup(t, st) == None then None
          else
            var at := Lookup(t, st).value;
            var f := Find(Sub(t, at), c);
            if f < 0 then None else Some(at + [f]))
  {
    var all := st + [c];
    if st == [] {
      assert all == [c] && all[1..] == [];
      var f := Find(t, c);
      if f >= 0 {
        var g: nat := f;
        assert [g] + [] == [] + [g];
      }
    } else {
      assert all[0] == st[0] && all[1..] == st[1..] + [c];
      var f := Find(t, st[0]);
      if f >= 0 {
        LookupSnoc(t.children[f].node, st[1..], c);
        if Lookup(t.children[f].node, st[1..]).Some? {
          var at := Lookup(t.children[f].node, st[1..]).value;
          assert ([f] + at)[1..] == at;
          var g := Find(Sub(t, [f] + at), c);
          assert [f] + (at + [g]) == [f] + at + [g];
        }
      }
    }
  }

  lemma LookupParent(t: Tree, st: seq<string>)
    requires st != [] && Lookup(t, st).Some?
    ensures DirAt(t, st[..|st| - 1]) && Lookup(t, st[..|st| - 1]) == Some(Parent(Lookup(t, st).value))
  {
    var n := |st| - 1;
    LookupSnoc(t, st[..n], st[n]);
    assert st[..n] + [st[n]] == st;
  }

  lemma {:induction false} LookupInjective(t: Tree, st: seq<string>, other: seq<string>)
    requires Lookup(t, st).Some? && Lookup(t, st) == Lookup(t, other)
    ensures st == other
  {
    if st != [] && other != [] {
      var f, g := Find(t, st[0]), Find(t, other[0]);
      var x, y := Lookup(t.children[f].node, st[1..]).value, Lookup(t.children[g].node, other[1..]).value;
      assert ([f] + x)[0] == ([g] + y)[0] && ([f] + x)[1..] == x && ([g] + y)[1..] == y;
      LookupInjective(t.children[f].node, st[1..], other[1..]);
      assert st == [st[0]] + st[1..] && other == [other[0]] + other[1..];
    }
  }

  // ---------- what a walk needs ----------

  /** A walk finds a node exactly when every stack of names it passes is a directory and the last leads to the node. */
  lemma {:induction false} WalkMeans(root: Tree, st: seq<string>, at: seq<nat>, ps: seq<string>, to: seq<nat>)
    requires DirAt(root, st) && Lookup(root, st) == Some(at) && "" !in ps
    ensures ResolveComps(root, at, ps) == Found(to)
      <==> Lookup(root, Fold(st, ps)) == Some(to) && forall j :: 0 <= j < |ps| ==> DirAt(root, Fold(st, ps[..j]))
    decreases |ps|
  {
    if ps == [] {
    } else if |ps| == 1 {
      StepAhead(root, st, at, ps[0]);
      assert ps[..0] == [] && ps[1..] == [];
      assert Fold(st, ps) == Step(st, ps[0]);
    } else {
      var next, rest := Step(st, ps[0]), ps[1..];
      StacksAhead(root, st, ps);
      OneStep(root, st, at, ps);
      if DirAt(root, next) {
        WalkMeans(root, next, Lookup(root, next).value, rest, to);
      } else {
        assert rest[..0] == [] && Fold(next, rest[..0]) == next;
      }
    }
  }

  lemma OneStep(root: Tree, st: seq<string>, at: seq<nat>, ps: seq<string>)
    requires DirAt(root, st) && Lookup(root, st) == Some(at) && |ps| > 1 && ps[0] != ""
    ensures var next := Step(st, ps[0]);
      if DirAt(root, next) then ResolveComps(root, at, ps) == ResolveComps(root, Lookup(root, next).value, ps[1..])
      else !ResolveComps(root, at, ps).Found?
  {
    StepAhead(root, st, at, ps[0]);
    var f := Find(Sub(root, at), ps[0]);
    if ps[0] != "." && ps[0] != ".." && f >= 0 {
      SubStep(root, at, f);
    }
  }

  lemma StepAhead(root: Tree, st: seq<string>, at: seq<nat>, c: string)
    requires DirAt(root, st) && Lookup(root, st) == Some(at) && c != ""
    ensures c == "." ==> Step(st, c) == st
    ensures c == ".." ==> DirAt(root, Step(st, c)) && Lookup(root, Step(st, c)) == Some(Parent(at))
    ensures c != "." && c != ".." ==>
      var f := Find(Sub(root, at), c);
      Lookup(root, Step(st, c)) == if f < 0 then None else Some(at + [f])
  {
    LookupSnoc(root, st, c);
    if c == ".." && st != [] {
      LookupParent(root, st);
    }
  }

  /** The stacks passed from the second piece on are those of the rest. */
  lemma StacksAhead(root: Tree, st: seq<string>, ps: seq<string>)
    requires ps != [] && DirAt(root, st)
    ensures (forall j :: 0 <= j < |ps| ==> DirAt(root, Fold(st, ps[..j])))
      <==> forall j :: 0 <= j < |ps| - 1 ==> DirAt(root, Fold(Step(st, ps[0]), ps[1..][..j]))
  {
    var next, rest := Step(st, ps[0]), ps[1..];
    forall j | 0 < j < |ps| ensures Fold(st, ps[..j]) == Fold(next, rest[..j - 1]) {
      assert ps[..j] == [ps[0]] + rest[..j - 1];
      FoldCons(st, ps[0], rest[..j - 1]);
    }
    assert ps[..0] == [];
    if forall j :: 0 <= j < |ps| ==> DirAt(root, Fold(st, ps[..j])) {
      forall j | 0 <= j < |ps| - 1 ensures DirAt(root, Fold(next, rest[..j])) {
        assert Fold(st, ps[..j + 1]) == Fold(next, rest[..j]);
      }
    }
  }

  // ---------- the smallest tree a walk needs ----------

  datatype Kind = Missing | AFile | ADir

  /** What a stack of names leads to. */
  function KindAt(t: Tree, st: seq<string>): Kind
  {
    if st == [] then (if t.Dir? then ADir else AFile)
    else
      var f := Find(t, st[0]);
      if f < 0 then Missing else KindAt(t.children[f].node, st[1..])
  }

  lemma {:induction false} KindMeans(t: Tree, st: seq<string>)
    ensures KindAt(t, st) == Missing <==> Lookup(t, st) == None
    ensures KindAt(t, st) == ADir <==> DirAt(t, st)
  {
    if st != [] {
      var f := Find(t, st[0]);
      if f >= 0 {
        KindMeans(t.children[f].node, st[1..]);
        if Lookup(t.children[f].node, st[1..]).Some? {
          var at := Lookup(t.children[f].node, st[1..]).value;
          assert ([f] + at)[1..] == at;
        }
      }
    }
  }

  /** t with leaf added at st, whose parent is a directory that does not have it yet. */
  function Put(t: Tree, st: seq<string>, leaf: Tree): Tree
    requires st != [] && KindAt(t, st) == Missing && KindAt(t, st[..|st| - 1]) == ADir
    decreases |st|
  {
    ParentFirst(t, st);
    if |st| == 1 then Dir(t.children + [Entry(st[0], leaf)])
    else
      var f := Find(t, st[0]);
      Dir(t.children[f := Entry(st[0], Put(t.children[f].node, st[1..], leaf))])
  }

  lemma ParentFirst(t: Tree, st: seq<string>)
    requires st != [] && KindAt(t, st[..|st| - 1]) == ADir
    ensures t.Dir?
    ensures |st| > 1 ==>
      var f := Find(t, st[0]);
      f >= 0 && KindAt(t.children[f].node, st[1..][..|st| - 2]) == ADir
  {
    var n := |st| - 1;
    if n > 0 {
      assert st[..n][0] == st[0] && st[..n][1..] == st[1..][..n - 1];
    }
  }

  lemma {:induction false} FindAppended(cs: seq<Entry>, e: Entry, name: string, i: nat)
    requires i <= |cs|
    ensures FindIn(cs + [e], name, i)
      == (if FindIn(cs, name, i) >= 0 then FindIn(cs, name, i) else if e.name == name then |cs| else -1)
    decreases |cs| - i
  {
    if i < |cs| {
      assert (cs + [e])[i] == cs[i];
      FindAppended(cs, e, name, i + 1);
    } else {
      assert (cs + [e])[i] == e;
      assert FindIn(cs + [e], name, i + 1) == -1;
    }
  }

  lemma {:induction false} FindReplaced(cs: seq<Entry>, f: nat, node: Tree, name: string, i: nat)
    requires i <= |cs| && f < |cs|
    ensures FindIn(cs[f := Entry(cs[f].name, node)], name, i) == FindIn(cs, name, i)
    decreases |cs| - i
  {
    if i < |cs| {
      FindReplaced(cs, f, node, name, i + 1);
    }
  }

  /** A new leaf is found at its place, and every other stack leads where it did. */
  lemma {:induction false} PutKind(t: Tree, st: seq<string>, leaf: Tree, q: seq<string>)
    requires st != [] && KindAt(t, st) == Missing && KindAt(t, st[..|st| - 1]) == ADir
    requires leaf == File || leaf == Dir([])
    ensures KindAt(Put(t, st, leaf), q) == if q == st then KindAt(leaf, []) else KindAt(t, q)
    decreases |st|
  {
    ParentFirst(t, st);
    if q != [] {
      var rest := q[1..];
      if |st| == 1 {
        var e := Entry(st[0], leaf);
        FindAppended(t.children, e, q[0], 0);
        assert st == [st[0]] && q == [q[0]] + rest;
        if q[0] == st[0] {
          assert (t.children + [e])[|t.children|] == e;
          LeafKind(leaf, rest);
        }
      } else {
        var f := Find(t, st[0]);
        var sub := Put(t.children[f].node, st[1..], leaf);
        FindReplaced(t.children, f, sub, q[0], 0);
        assert st == [st[0]] + st[1..] && q == [q[0]] + rest;
        if q[0] == st[0] {
          PutKind(t.children[f].node, st[1..], leaf, rest);
        } else if Find(t, q[0]) >= 0 {
          assert Find(t, q[0]) != f;
        }
      }
    }
  }

  lemma LeafKind(leaf: Tree, st: seq<string>)
    requires leaf == File || leaf == Dir([])
    ensures st != [] ==> KindAt(leaf, st) == Missing
  {
  }

  // ---------- the stacks of names a walk passes ----------

  /** st is a stack of names that a walk over ps stands on before its last piece is done. */
  ghost predicate Passes(ps: seq<string>, st: seq<string>)
  {
    exists j :: 0 <= j < |ps| && Fold([], ps[..j]) == st
  }

  /** Directories for the first j pieces of a walk. */
  function Trail(ps: seq<string>, j: nat): Tree
    requires j <= |ps|
    ensures KindAt(Trail(ps, j), []) == ADir
  {
    if j == 0 then Dir([])
    else Grown(Trail(ps, j - 1), Fold([], ps[..j]), Dir([]))
  }

  /** t with leaf at st, unless something is there already or it cannot be put there. */
  function Grown(t: Tree, st: seq<string>, leaf: Tree): (t': Tree)
    ensures t.Dir? ==> t'.Dir?
  {
    if st != [] && KindAt(t, st) == Missing && KindAt(t, st[..|st| - 1]) == ADir then
      ParentFirst(t, st);
      Put(t, st, leaf)
    else t
  }

  lemma FoldSnoc(st: seq<string>, ps: seq<string>, c: string)
    ensures Fold(st, ps + [c]) == Step(Fold(st, ps), c)
    decreases |ps|
  {
    if ps == [] {
      assert ps + [c] == [c] && [c][1..] == [];
    } else {
      assert (ps + [c])[0] == ps[0] && (ps + [c])[1..] == ps[1..] + [c];
      FoldSnoc(Step(st, ps[0]), ps[1..], c);
    }
  }

  lemma KindParent(t: Tree, st: seq<string>)
    requires st != [] && KindAt(t, st) != Missing
    ensures KindAt(t, st[..|st| - 1]) == ADir
  {
    KindMeans(t, st);
    LookupParent(t, st);
    KindMeans(t, st[..|st| - 1]);
  }

  /** One more step of a walk from a directory: a directory already, or a new name in it. */
  lemma StepKind(t: Tree, prev: seq<string>, c: string)
    requires KindAt(t, prev) == ADir && KindAt(t, []) == ADir && KindAt(t, Step(prev, c)) == Missing
    ensures Step(prev, c) == prev + [c]
  {
    if c == ".." && prev != [] {
      KindParent(t, prev);
    }
  }

  ghost predicate Visited(ps: seq<string>, j: nat, st: seq<string>)
    requires j <= |ps|
  {
    exists i :: 0 <= i <= j && Fold([], ps[..i]) == st
  }

  lemma VisitedMore(ps: seq<string>, j: nat, st: seq<string>)
    requires 0 < j <= |ps|
    ensures Visited(ps, j, st) <==> Visited(ps, j - 1, st) || st == Fold([], ps[..j])
  {
    if Visited(ps, j - 1, st) {
      var i :| 0 <= i <= j - 1 && Fold([], ps[..i]) == st;
      assert 0 <= i <= j && Fold([], ps[..i]) == st;
    }
  }

  /** Adding what one more piece leads to, at its place. */
  lemma GrownKind(t: Tree, prev: seq<string>, c: string, leaf: Tree, q: seq<string>)
    requires KindAt(t, prev) == ADir && KindAt(t, []) == ADir && (leaf == File || leaf == Dir([]))
    ensures var st := Step(prev, c);
      KindAt(Grown(t, st, leaf), q) == if q == st && KindAt(t, st) == Missing then KindAt(leaf, []) else KindAt(t, q)
  {
    var st := Step(prev, c);
    if KindAt(t, st) == Missing {
      StepKind(t, prev, c);
      assert st[..|st| - 1] == prev;
      PutKind(t, st, leaf, q);
    }
  }

  lemma {:induction false} TrailKinds(ps: seq<string>, j: nat, q: seq<string>)
    requires j <= |ps|
    ensures KindAt(Trail(ps, j), q) == if Visited(ps, j, q) then ADir else Missing
    decreases j
  {
    if j == 0 {
      assert ps[..0] == [] && Fold([], ps[..0]) == [];
      LeafKind(Dir([]), q);
    } else {
      var t, prev := Trail(ps, j - 1), Fold([], ps[..j - 1]);
      TrailKinds(ps, j - 1, prev);
      TrailKinds(ps, j - 1, q);
      TrailKinds(ps, j - 1, Fold([], ps[..j]));
      assert ps[..j] == ps[..j - 1] + [ps[j - 1]];
      FoldSnoc([], ps[..j - 1], ps[j - 1]);
      GrownKind(t, prev, ps[j - 1], Dir([]), q);
      VisitedMore(ps, j, q);
      VisitedMore(ps, j, Fold([], ps[..j]));
    }
  }

  /** The smallest tree in which a walk over ps succeeds. */
  function Smallest(ps: seq<string>): (t: Tree)
    ensures t.Dir?
  {
    if ps == [] then Dir([]) else Grown(Trail(ps, |ps| - 1), Fold([], ps), File)
  }

  lemma SmallestKinds(ps: seq<string>, q: seq<string>)
    requires ps != []
    ensures KindAt(Smallest(ps), q) == if Passes(ps, q) then ADir else if q == Fold([], ps) then AFile else Missing
  {
    hide Fold, KindAt, Trail, Visited, Passes, Grown;
    var n := |ps| - 1;
    var t, prev := Trail(ps, n), Fold([], ps[..n]);
    TrailKinds(ps, n, prev);
    TrailKinds(ps, n, q);
    TrailKinds(ps, n, Fold([], ps));
    assert ps == ps[..n] + [ps[n]];
    FoldSnoc([], ps[..n], ps[n]);
    PassesIsVisited(ps, prev);
    PassesIsVisited(ps, q);
    PassesIsVisited(ps, Fold([], ps));
    FileKind();
    GrownKind(t, prev, ps[n], File, q);
  }

  lemma FileKind()
    ensures KindAt(File, []) == AFile
  {
  }

  lemma PassesIsVisited(ps: seq<string>, q: seq<string>)
    requires ps != []
    ensures Passes(ps, q) <==> Visited(ps, |ps| - 1, q)
    ensures Visited(ps, |ps| - 1, Fold([], ps[..|ps| - 1]))
  {
  }

  lemma WalkFrom(root: Tree, ps: seq<string>, to: seq<nat>)
    requires root.Dir? && "" !in ps
    ensures ResolveComps(root, [], ps) == Found(to)
      <==> Lookup(root, Fold([], ps)) == Some(to) && forall st :: Passes(ps, st) ==> DirAt(root, st)
  {
    WalkMeans(root, [], [], ps, to);
    if forall st :: Passes(ps, st) ==> DirAt(root, st) {
      forall j | 0 <= j < |ps| ensures DirAt(root, Fold([], ps[..j])) {
        assert Passes(ps, Fold([], ps[..j]));
      }
    }
  }

  // ---------- one walk in place of another ----------

  /** A walk over qs ends where one over ps does, and passes no stack of names that the other does not pass. */
  ghost predicate Follows(ps: seq<string>, qs: seq<string>)
  {
    Fold([], qs) == Fold([], ps) && forall st :: Passes(qs, st) ==> Passes(ps, st)
  }

  lemma FollowsEnough(root: Tree, ps: seq<string>, qs: seq<string>, to: seq<nat>)
    requires root.Dir? && "" !in ps && "" !in qs && Follows(ps, qs) && ResolveComps(root, [], ps) == Found(to)
    ensures ResolveComps(root, [], qs) == Found(to)
  {
    WalkFrom(root, ps, to);
    WalkFrom(root, qs, to);
  }

  /** Without it there is a tree where the first walk succeeds and the second fails or ends elsewhere. */
  lemma FollowsNeeded(ps: seq<string>, qs: seq<string>)
    requires ps != [] && "" !in ps && "" !in qs && !Follows(ps, qs)
    ensures ResolveComps(Smallest(ps), [], ps).Found?
    ensures ResolveComps(Smallest(ps), [], qs) != ResolveComps(Smallest(ps), [], ps)
  {
    var root, end := Smallest(ps), Fold([], ps);
    SmallestKinds(ps, end);
    KindMeans(root, end);
    var to := Lookup(root, end).value;
    forall st | Passes(ps, st) ensures DirAt(root, st) {
      SmallestKinds(ps, st);
      KindMeans(root, st);
    }
    WalkFrom(root, ps, to);
    if ResolveComps(root, [], qs) == Found(to) {
      WalkFrom(root, qs, to);
      LookupInjective(root, end, Fold([], qs));
      forall st | Passes(qs, st) ensures Passes(ps, st) {
        SmallestKinds(ps, st);
        KindMeans(root, st);
      }
    }
  }

  // ---------- canonical paths ----------

  /** The pieces in which a path is walked. */
  function Walked(path: string): seq<string>
  {
    Cut(NonEmpty(Comps(path)))
  }

  lemma {:induction false} FoldNonEmpty(st: seq<string>, cs: seq<string>)
    ensures Fold(st, NonEmpty(cs)) == Fold(st, cs) && "" !in NonEmpty(cs)
    ensures AllNames(cs) ==> NonEmpty(cs) == cs
    decreases |cs|
  {
    if cs != [] {
      FoldNonEmpty(Step(st, cs[0]), cs[1..]);
      FoldCons(st, cs[0], NonEmpty(cs[1..]));
      assert cs[0] == "" ==> NonEmpty(cs) == NonEmpty(cs[1..]);
    }
  }

  lemma CanonComps(st: seq<string>)
    requires AllNames(st)
    ensures NonEmpty(Comps(Render(st))) == st
  {
    hide Render;
    var r := Render(st);
    CompsOfRender(st);
    CompsUncons(r);
    assert r[..CompLen(r)] == "" && Rest(r) == r[1..];
    assert Comps(r) == [""] + st && Comps(r)[1..] == st;
    FoldNonEmpty([], st);
  }

  lemma {:induction false} PiecesNonEmpty(c: string)
    requires c != ""
    ensures "" !in Pieces(c)
  {
    if |c| > MAX_NAME {
      PiecesNonEmpty(c[MAX_NAME..]);
    }
  }

  lemma {:induction false} CutNonEmpty(cs: seq<string>)
    requires "" !in cs
    ensures "" !in Cut(cs) && (cs != [] ==> Cut(cs) != [])
  {
    if cs != [] {
      PiecesNonEmpty(cs[0]);
      CutNonEmpty(cs[1..]);
    }
  }

  lemma WalkedNonEmpty(path: string)
    ensures "" !in Walked(path)
  {
    FoldNonEmpty([], Comps(path));
    CutNonEmpty(NonEmpty(Comps(path)));
  }

  /** Resolving an absolute path is walking its pieces from the root. */
  lemma ResolvesAsWalk(root: Tree, start: seq<nat>, path: string)
    requires Exists(root, start) && path != "" && path[0] == '/'
    ensures Resolve(root, start, path) == ResolveComps(root, [], Walked(path))
  {
    SkipComps(path);
    WalksAgree(root, [], SkipSlashes(path));
  }

  lemma CanonAbsolute(path: string)
    ensures Canon(path) != "" && Canon(path)[0] == '/'
  {
  }

  /** A path that resolves to a node still does once it is canonical, when the canonical walk follows its own. */
  lemma CanonResolvesSame(root: Tree, start: seq<nat>, path: string, to: seq<nat>)
    requires root.Dir? && Exists(root, start) && path != "" && path[0] == '/'
    requires Follows(Walked(path), Walked(Canon(path))) && Resolve(root, start, path) == Found(to)
    ensures Resolve(root, start, Canon(path)) == Found(to)
  {
    hide Canon, Walked, Resolve, Follows;
    CanonAbsolute(path);
    ResolvesAsWalk(root, start, path);
    ResolvesAsWalk(root, start, Canon(path));
    WalkedNonEmpty(path);
    WalkedNonEmpty(Canon(path));
    FollowsEnough(root, Walked(path), Walked(Canon(path)), to);
  }

  /** In every tree, if and only if. */
  lemma CanonExactly(path: string)
    requires path != "" && path[0] == '/'
    ensures (forall root: Tree, to: seq<nat> :: root.Dir? && Resolve(root, [], path) == Found(to) ==>
               Resolve(root, [], Canon(path)) == Found(to))
      <==> Follows(Walked(path), Walked(Canon(path)))
  {
    hide Canon, Walked, Resolve, Follows, Smallest;
    var ps, qs := Walked(path), Walked(Canon(path));
    if Follows(ps, qs) {
      forall root: Tree, to: seq<nat> | root.Dir? && Resolve(root, [], path) == Found(to)
        ensures Resolve(root, [], Canon(path)) == Found(to)
      {
        CanonResolvesSame(root, [], path, to);
      }
    } else {
      NothingWalked(path);
      WalkedNonEmpty(path);
      WalkedNonEmpty(Canon(path));
      FollowsNeeded(ps, qs);
      CanonAbsolute(path);
      ResolvesAsWalk(Smallest(ps), [], path);
      ResolvesAsWalk(Smallest(ps), [], Canon(path));
      assert Resolve(Smallest(ps), [], path).Found?;
    }
  }

  /** A path without names is the root, and so is its canonical form. */
  lemma NothingWalked(path: string)
    requires path != "" && path[0] == '/'
    ensures Walked(path) == [] ==> Follows(Walked(path), Walked(Canon(path)))
  {
    if Walked(path) == [] {
      var cs := NonEmpty(Comps(path));
      FoldNonEmpty([], Comps(path));
      CutNonEmpty(cs);
      assert Fold([], Comps(path)) == [];
      CompsUncons(path);
      assert path[..CompLen(path)] == "" && Unrooted(path) == Rest(path);
      FoldCons([], "", Comps(Unrooted(path)));
      CanonComps([]);
    }
  }

  // ---------- names that ".." can take back ----------

  /** A component that the walk takes as one step down: short, or cut so that only dots are left over. */
  predicate Single(c: string)
  {
    || |c| <= MAX_NAME
    || (|c| == MAX_NAME + 1 && c[MAX_NAME..] == ".")
    || (|c| == 2 * MAX_NAME + 2 && c[2 * MAX_NAME..] == "..")
  }

  /** No ".." takes back a name that is more than one step down. */
  predicate Gentle(st: seq<string>, cs: seq<string>)
    decreases |cs|
  {
    || cs == []
    || ((cs[0] == ".." && st != [] ==> Single(st[|st| - 1])) && Gentle(Step(st, cs[0]), cs[1..]))
  }

  lemma SinglePieces(c: string)
    requires Single(c)
    ensures var n := MAX_NAME;
            || Pieces(c) == [c]
            || (|c| > n && Pieces(c) == [c[..n], "."])
            || (|c| > 2 * n && Pieces(c) == [c[..n], c[n..2 * n], ".."])
  {
    var n := MAX_NAME;
    if |c| == 2 * n + 2 {
      assert c[n..][..n] == c[n..2 * n] && c[n..][n..] == c[2 * n..];
    }
  }

  lemma PieceIsName(c: string)
    requires IsName(c)
    ensures |c| > MAX_NAME ==> IsName(c[..MAX_NAME])
    ensures |c| > 2 * MAX_NAME ==> IsName(c[MAX_NAME..2 * MAX_NAME])
  {
  }

  lemma SingleFold(st: seq<string>, c: string)
    requires IsName(c) && Single(c)
    ensures exists x :: Fold(st, Pieces(c)) == st + [x]
  {
    SinglePieces(c);
    PieceIsName(c);
    var ps := Pieces(c);
    hide Pieces, Single;
    var down := st + [ps[0]];
    assert ps == [ps[0]] + ps[1..] && Step(st, ps[0]) == down;
    FoldCons(st, ps[0], ps[1..]);
    if |ps| == 2 {
      assert ps[1..] == ["."] && Fold(down, ["."]) == down;
    } else if |ps| == 3 {
      assert ps[1..] == [ps[1]] + [".."];
      FoldCons(down, ps[1], [".."]);
      FoldOne(down + [ps[1]], "..");
      assert (down + [ps[1]])[..|down|] == down;
    } else {
      assert ps[1..] == [];
    }
  }

  lemma FoldOne(st: seq<string>, c: string)
    ensures Fold(st, [c]) == Step(st, c)
  {
    FoldSnoc(st, [], c);
    assert [] + [c] == [c];
  }

  lemma {:induction false} FoldConcat(st: seq<string>, xs: seq<string>, ys: seq<string>)
    ensures Fold(st, xs + ys) == Fold(Fold(st, xs), ys)
    decreases |xs|
  {
    if xs == [] {
      assert xs + ys == ys;
    } else {
      assert (xs + ys)[0] == xs[0] && (xs + ys)[1..] == xs[1..] + ys;
      FoldConcat(Step(st, xs[0]), xs[1..], ys);
    }
  }

  lemma PassesMore(ps: seq<string>, xs: seq<string>, st: seq<string>)
    requires Passes(ps, st)
    ensures Passes(ps + xs, st)
  {
    var j :| 0 <= j < |ps| && Fold([], ps[..j]) == st;
    assert (ps + xs)[..j] == ps[..j];
  }

  lemma FollowsAppend(ps: seq<string>, qs: seq<string>, xs: seq<string>)
    requires Follows(ps, qs)
    ensures Follows(ps + xs, qs + xs)
  {
    FoldConcat([], ps, xs);
    FoldConcat([], qs, xs);
    forall st | Passes(qs + xs, st) ensures Passes(ps + xs, st) {
      var i :| 0 <= i < |qs + xs| && Fold([], (qs + xs)[..i]) == st;
      if i < |qs| {
        assert (qs + xs)[..i] == qs[..i];
        assert Passes(qs, st);
        PassesMore(ps, xs, st);
      } else {
        var k := i - |qs|;
        assert (qs + xs)[..i] == qs + xs[..k] && (ps + xs)[..|ps| + k] == ps + xs[..k];
        FoldConcat([], qs, xs[..k]);
        FoldConcat([], ps, xs[..k]);
      }
    }
  }

  /** The longer walk may pass more, and the shorter may be one that passes less. */
  lemma FollowsTrim(ps: seq<string>, qs: seq<string>, xs: seq<string>, back: seq<string>)
    requires Follows(ps, qs + back) && Fold([], ps + xs) == Fold([], qs)
    ensures Follows(ps + xs, qs)
  {
    forall st | Passes(qs, st) ensures Passes(ps + xs, st) {
      PassesMore(qs, back, st);
      PassesMore(ps, xs, st);
    }
  }

  lemma {:induction false} CutSnoc(cs: seq<string>, c: string)
    ensures Cut(cs + [c]) == Cut(cs) + Pieces(c)
  {
    if cs == [] {
      assert cs + [c] == [c];
    } else {
      assert (cs + [c])[1..] == cs[1..] + [c];
      CutSnoc(cs[1..], c);
    }
  }

  /** One component more on both sides. */
  lemma FollowsStep(ps: seq<string>, st: seq<string>, c: string)
    requires AllNames(st) && c != "" && (c != "." && c != ".." ==> IsName(c))
    requires Follows(ps, Cut(st)) && (c == ".." && st != [] ==> Single(st[|st| - 1]))
    ensures Follows(ps + Pieces(c), Cut(Step(st, c)))
  {
    hide Follows, Single, IsName;
    FoldConcat([], ps, Pieces(c));
    FollowsFold(ps, Cut(st));
    if c == "." {
      assert Pieces(c) == ["."] && Cut(st) + [] == Cut(st);
      assert Fold(Fold([], ps), ["."]) == Fold([], ps);
      FollowsTrim(ps, Cut(st), ["."], []);
    } else if c == ".." {
      assert Pieces(c) == [".."];
      assert Fold(Fold([], ps), [".."]) == Step(Fold([], ps), "..");
      if st == [] {
        assert Cut(st) + [] == Cut(st);
        FollowsTrim(ps, Cut(st), [".."], []);
      } else {
        var n := |st| - 1;
        CutSnoc(st[..n], st[n]);
        assert st == st[..n] + [st[n]];
        FoldConcat([], Cut(st[..n]), Pieces(st[n]));
        SingleFold(Fold([], Cut(st[..n])), st[n]);
        FollowsTrim(ps, Cut(st[..n]), [".."], Pieces(st[n]));
      }
    } else {
      assert c != "" && Step(st, c) == st + [c];
      CutSnoc(st, c);
      FollowsAppend(ps, Cut(st), Pieces(c));
    }
  }

  lemma FollowsFold(ps: seq<string>, qs: seq<string>)
    requires Follows(ps, qs)
    ensures Fold([], qs) == Fold([], ps)
  {
  }

  lemma {:induction false} GentleRun(ps: seq<string>, st: seq<string>, cs: seq<string>)
    requires AllNames(st) && NoSlash(cs) && "" !in cs && Gentle(st, cs) && Follows(ps, Cut(st))
    ensures Follows(ps + Cut(cs), Cut(Fold(st, cs)))
    decreases |cs|
  {
    hide Follows;
    if cs == [] {
      assert ps + Cut(cs) == ps;
    } else {
      var c := cs[0];
      assert c != "" && (c != "." && c != ".." ==> IsName(c));
      FollowsStep(ps, st, c);
      assert NoSlash(cs[1..]) && AllNames(Step(st, c));
      GentleRun(ps + Pieces(c), Step(st, c), cs[1..]);
      assert ps + Cut(cs) == ps + Pieces(c) + Cut(cs[1..]);
    }
  }

  lemma {:induction false} NonEmptyNoSlash(cs: seq<string>)
    requires NoSlash(cs)
    ensures NoSlash(NonEmpty(cs))
  {
    if cs != [] {
      NonEmptyNoSlash(cs[1..]);
    }
  }

  /** A path in which no ".." takes back such a name resolves the same once canonical. */
  lemma GentleFollows(path: string)
    requires path != "" && path[0] == '/' && Gentle([], NonEmpty(Comps(path)))
    ensures Follows(Walked(path), Walked(Canon(path)))
  {
    var cs := NonEmpty(Comps(path));
    CompsUncons(path);
    assert path[..CompLen(path)] == "" && Unrooted(path) == Rest(path);
    NonEmptyCons("", Comps(Unrooted(path)));
    assert cs == NonEmpty(Comps(Unrooted(path)));
    hide Comps, NonEmpty, Cut, Gentle;
    FoldNonEmpty([], Comps(Unrooted(path)));
    CompsNoSlash(path);
    NonEmptyNoSlash(Comps(path));
    CutNothing();
    GentleRun([], [], cs);
    assert [] + Cut(cs) == Cut(cs);
    FoldNames([], cs);
    CanonComps(Fold([], cs));
  }

  lemma CutNothing()
    ensures Cut([]) == [] && Follows([], [])
  {
  }

  // ---------- and those it cannot ----------

  lemma {:induction false} PiecesOfName(c: string)
    requires c != "" && forall i :: 0 <= i < |c| ==> c[i] != '/'
    ensures var n := |Pieces(c)| - 1;
            && AllNames(Pieces(c)[..n]) && (n > 0 ==> |c| > MAX_NAME) && |c| == n * MAX_NAME + |Pieces(c)[n]|
            && Pieces(c)[n] == c[n * MAX_NAME..]
            && (IsName(Pieces(c)[n]) || Pieces(c)[n] == "." || Pieces(c)[n] == "..")
    decreases |c|
  {
    if |c| > MAX_NAME {
      var d := c[MAX_NAME..];
      PiecesOfName(d);
      var n := |Pieces(d)| - 1;
      var ps := Pieces(c);
      assert ps == [c[..MAX_NAME]] + Pieces(d);
      assert ps[..n + 1] == [c[..MAX_NAME]] + Pieces(d)[..n];
      assert (n + 1) * MAX_NAME == n * MAX_NAME + MAX_NAME;
      assert d[n * MAX_NAME..] == c[(n + 1) * MAX_NAME..];
    }
  }

  /** The directories a component names on its way, and whether it steps back at its end. */
  function Names(c: string): seq<string>
  {
    var n := |Pieces(c)| - 1;
    if Pieces(c)[n] == "." || Pieces(c)[n] == ".." then Pieces(c)[..n] else Pieces(c)
  }

  function Depth(c: string): int
  {
    |Names(c)| - if Pieces(c)[|Pieces(c)| - 1] == ".." then 1 else 0
  }

  lemma CountOf(len: nat, n: nat, l: nat)
    requires len == n * MAX_NAME + l && 1 <= l <= MAX_NAME
    ensures len <= MAX_NAME <==> n == 0
    ensures len == MAX_NAME + 1 <==> n == 1 && l == 1
    ensures len == 2 * MAX_NAME + 2 <==> n == 2 && l == 2
  {
  }

  /** A name is one step down exactly when it is single. */
  lemma DepthIsOne(c: string)
    requires IsName(c)
    ensures Depth(c) >= 0 && AllNames(Names(c))
    ensures Depth(c) == 1 <==> Single(c)
  {
    PiecesOfName(c);
    var n := |Pieces(c)| - 1;
    var last := Pieces(c)[n];
    LastPiece(c);
    CountOf(|c|, n, |last|);
    assert n == 0 ==> last == c;
    hide Pieces;
    assert Pieces(c) == Pieces(c)[..n] + [last];
  }

  lemma {:induction false} LastPiece(c: string)
    requires c != ""
    ensures 1 <= |Pieces(c)[|Pieces(c)| - 1]| <= MAX_NAME && (|Pieces(c)| == 1 ==> Pieces(c)[0] == c)
  {
    if |c| > MAX_NAME {
      LastPiece(c[MAX_NAME..]);
    }
  }

  lemma PathOf(c: string)
    requires IsName(c)
    ensures var p := "/x/" + c + "/..";
            NonEmpty(Comps(p)) == ["x", c, ".."] && Canon(p) == "/x"
  {
    var p := "/x/" + c + "/..";
    PathComps(c);
    hide Comps, Fold, NonEmpty;
    ThreeNames(c);
  }

  lemma PathComps(c: string)
    requires IsName(c)
    ensures var p := "/x/" + c + "/..";
            Comps(Unrooted(p)) == ["x", c, ".."] && Comps(p) == ["", "x", c, ".."]
  {
    hide Comps, IsName;
    var p, q, r := "/x/" + c + "/..", c + ['/'] + "..", "x" + ['/'] + (c + ['/'] + "..");
    CompsOne("..");
    assert forall i :: 0 <= i < |c| ==> c[i] != '/' by { NameHasNoSlash(c); }
    CompsCons(c, "..");
    CompsCons("x", q);
    CompsCons("", r);
    assert p == "" + ['/'] + r && Unrooted(p) == r;
  }

  lemma NameHasNoSlash(c: string)
    requires IsName(c)
    ensures forall i :: 0 <= i < |c| ==> c[i] != '/'
  {
  }

  lemma ThreeNames(c: string)
    requires IsName(c)
    ensures Render(Fold([], ["x", c, ".."])) == "/x"
    ensures NonEmpty(["", "x", c, ".."]) == ["x", c, ".."]
  {
    var two, three := [c, ".."], ["x", c, ".."];
    assert three == ["x"] + two && two == [c] + [".."] && ["", "x", c, ".."] == [""] + three;
    assert Fold(["x", c], [".."]) == ["x"] && NonEmpty([".."]) == [".."];
    hide Fold, NonEmpty;
    FoldCons([], "x", two);
    FoldCons(["x"], c, [".."]);
    NonEmptyCons("", three);
    NonEmptyCons("x", two);
    NonEmptyCons(c, [".."]);
  }

  lemma CutThree(c: string)
    ensures Cut(["x", c, ".."]) == ["x"] + Pieces(c) + [".."] && Cut(["x"]) == ["x"]
  {
    assert ["x", c, ".."][1..] == [c, ".."] && [c, ".."][1..] == [".."] && [".."][1..] == [];
    assert Pieces("x") == ["x"] && Pieces("..") == [".."];
    assert Cut([".."]) == [".."] && Cut([c, ".."]) == Pieces(c) + [".."];
    assert ["x"] + (Pieces(c) + [".."]) == ["x"] + Pieces(c) + [".."];
  }

  /** Down into any other name and up again ends elsewhere. */
  lemma CanonMovesOthers(c: string)
    requires IsName(c) && !Single(c)
    ensures var p := "/x/" + c + "/.."; Canon(p) == "/x" && !Follows(Walked(p), Walked(Canon(p)))
  {
    var p := "/x/" + c + "/..";
    PathOf(c);
    CutThree(c);
    DepthIsOne(c);
    EndsAt(c);
    assert Walked("/x") == ["x"] by {
      CanonComps(["x"]);
      assert Render(["x"]) == "/x";
    }
    assert Fold([], ["x"]) == ["x"];
  }

  lemma EndsAt(c: string)
    requires IsName(c)
    ensures |Fold([], ["x"] + Pieces(c) + [".."])| == Depth(c)
  {
    DepthIsOne(c);
    var ps, n := Pieces(c), |Pieces(c)| - 1;
    var names, last := Names(c), Pieces(c)[|Pieces(c)| - 1];
    assert last != "." && last != ".." ==> names == ps;
    assert last == "." || last == ".." ==> ps == names + [last];
    hide Pieces, Single, Names, Fold, IsName, AllNames;
    FoldSnoc([], ["x"] + ps, "..");
    FoldConcat([], ["x"], ps);
    FoldOne([], "x");
    assert Step([], "x") == ["x"];
    FoldOfNames(["x"], names);
    if last == "." || last == ".." {
      FoldSnoc(["x"], names, last);
    }
    var down := Fold(["x"], ps);
    assert |down| == 1 + Depth(c);
    assert |Step(down, "..")| == |down| - 1;
  }
}
