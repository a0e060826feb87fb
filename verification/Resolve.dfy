/** Path resolution over a tree without symbolic links. */
module Resolve {
  import opened Path

  datatype Tree = File | Dir(children: seq<Entry>)
  datatype Entry = Entry(name: string, node: Tree)

  datatype Res = Found(at: seq<nat>) | ENOENT | ENOTDIR

  /** Components are read into a buffer of 128 bytes. */
  const MAX_NAME: nat := 127

  // ---------- nodes are named by the child positions that lead to them ----------

  predicate Exists(t: Tree, at: seq<nat>)
  {
    at == [] || (t.Dir? && at[0] < |t.children| && Exists(t.children[at[0]].node, at[1..]))
  }

  function Sub(t: Tree, at: seq<nat>): Tree
    requires Exists(t, at)
  {
    if at == [] then t else Sub(t.children[at[0]].node, at[1..])
  }

  /** The first child of that name, or -1. */
  function Find(t: Tree, name: string): (f: int)
    ensures f >= 0 ==> t.Dir? && f < |t.children| && t.children[f].name == name
  {
    if t.File? then -1 else FindIn(t.children, name, 0)
  }

  function FindIn(cs: seq<Entry>, name: string, i: nat): (f: int)
    requires i <= |cs|
    ensures f >= 0 ==> f < |cs| && cs[f].name == name
    decreases |cs| - i
  {
    if i == |cs| then -1 else if cs[i].name == name then i else FindIn(cs, name, i + 1)
  }

  lemma {:induction false} SubStep(t: Tree, at: seq<nat>, f: nat)
    requires Exists(t, at) && Sub(t, at).Dir? && f < |Sub(t, at).children|
    ensures Exists(t, at + [f]) && Sub(t, at + [f]) == Sub(t, at).children[f].node
  {
    if at == [] {
      assert at + [f] == [f];
    } else {
      assert (at + [f])[1..] == at[1..] + [f];
      SubStep(t.children[at[0]].node, at[1..], f);
    }
  }

  lemma {:induction false} SubParent(t: Tree, at: seq<nat>)
    requires at != [] && Exists(t, at)
    ensures Exists(t, at[..|at| - 1]) && Sub(t, at[..|at| - 1]).Dir?
  {
    var n := |at| - 1;
    if n > 0 {
      assert at[..n][1..] == at[1..][..n - 1];
      SubParent(t.children[at[0]].node, at[1..]);
    }
  }

  // ---------- vfs_resolve_path_rec ----------

  function SkipSlashes(s: string): (r: string)
    ensures |r| <= |s| && (r != "" ==> r[0] != '/')
  {
    if s != "" && s[0] == '/' then SkipSlashes(s[1..]) else s
  }

  function Parent(at: seq<nat>): seq<nat>
  {
    if at == [] then [] else at[..|at| - 1]
  }

  function ResolveFrom(root: Tree, at: seq<nat>, s: string): Res
    requires Exists(root, at) && (s != "" ==> s[0] != '/')
    decreases |s|
  {
    if s == "" then Found(at)
    else
      var k := if CompLen(s) < MAX_NAME then CompLen(s) else MAX_NAME;
      var c, rest := s[..k], SkipSlashes(s[k..]);
      if c == "." then ResolveFrom(root, at, rest)
      else if c == ".." then
        ParentExists(root, at);
        ResolveFrom(root, Parent(at), rest)
      else
        var f := Find(Sub(root, at), c);
        if f < 0 then ENOENT
        else if rest != "" && !Sub(root, at).children[f].node.Dir? then ENOTDIR
        else
          SubStep(root, at, f);
          ResolveFrom(root, at + [f], rest)
  }

  lemma ParentExists(root: Tree, at: seq<nat>)
    requires Exists(root, at)
    ensures Exists(root, Parent(at))
  {
    if at != [] {
      SubParent(root, at);
    }
  }

  /** From the root for an absolute path, from the node `start` otherwise. */
  function Resolve(root: Tree, start: seq<nat>, path: string): Res
    requires Exists(root, start)
  {
    if path == "" then ENOENT else ResolveFrom(root, if path[0] == '/' then [] else start, SkipSlashes(path))
  }

  // ---------- the same, component by component ----------

  function ResolveComps(root: Tree, at: seq<nat>, cs: seq<string>): Res
    requires Exists(root, at)
    decreases |cs|
  {
    if cs == [] then Found(at)
    else if cs[0] == "." then ResolveComps(root, at, cs[1..])
    else if cs[0] == ".." then
      ParentExists(root, at);
      ResolveComps(root, Parent(at), cs[1..])
    else
      var f := Find(Sub(root, at), cs[0]);
      if f < 0 then ENOENT
      else if |cs| > 1 && !Sub(root, at).children[f].node.Dir? then ENOTDIR
      else
        SubStep(root, at, f);
        ResolveComps(root, at + [f], cs[1..])
  }

  function Shorter(a: nat, b: nat): nat
  {
    if a < b then a else b
  }

  function NonEmpty(cs: seq<string>): seq<string>
  {
    if cs == [] then [] else (if cs[0] == "" then [] else [cs[0]]) + NonEmpty(cs[1..])
  }

  /** What the buffer makes of one component: pieces of at most 127 characters. */
  function Pieces(c: string): (ps: seq<string>)
    ensures ps != []
  {
    if |c| <= MAX_NAME then [c] else [c[..MAX_NAME]] + Pieces(c[MAX_NAME..])
  }

  function Cut(cs: seq<string>): seq<string>
  {
    if cs == [] then [] else Pieces(cs[0]) + Cut(cs[1..])
  }

  lemma CompsUncons(s: string)
    requires s != ""
    ensures Comps(s) == [s[..CompLen(s)]] + Comps(Rest(s)) && Comps(s)[1..] == Comps(Rest(s))
  {
  }

  lemma {:induction false} SkipComps(s: string)
    ensures NonEmpty(Comps(SkipSlashes(s))) == NonEmpty(Comps(s))
    ensures NonEmpty(Comps(s)) == [] <==> SkipSlashes(s) == ""
    decreases |s|
  {
    if s != "" {
      CompsUncons(s);
      if s[0] == '/' {
        assert Rest(s) == s[1..] && s[..0] == "";
        SkipComps(s[1..]);
      }
    }
  }

  lemma {:induction false} CompLenDrop(s: string, k: nat)
    requires k <= CompLen(s)
    ensures CompLen(s[k..]) == CompLen(s) - k && Rest(s[k..]) == Rest(s)
  {
    if k > 0 {
      assert s[1..][k - 1..] == s[k..];
      CompLenDrop(s[1..], k - 1);
    }
  }

  lemma CutOff(s: string)
    requires s != "" && s[0] != '/'
    ensures 0 < CompLen(s) && Cut(NonEmpty(Comps(s))) == Pieces(s[..CompLen(s)]) + Cut(NonEmpty(Comps(Rest(s))))
  {
    CompsUncons(s);
    var c, cs := s[..CompLen(s)], Comps(Rest(s));
    hide Comps, Pieces;
    NonEmptyCons(c, cs);
    assert ([c] + NonEmpty(cs))[1..] == NonEmpty(cs);
  }

  /** Reading the first piece off the string is cutting it off the list. */
  lemma CutFirst(s: string, k: nat)
    requires s != "" && s[0] != '/' && k == Shorter(CompLen(s), MAX_NAME)
    ensures 0 < k <= |s|
    ensures var rest := SkipSlashes(s[k..]);
            && Cut(NonEmpty(Comps(s))) == [s[..k]] + Cut(NonEmpty(Comps(rest)))
            && (rest == "" <==> Cut(NonEmpty(Comps(rest))) == [])
  {
    CutOff(s);
    SkipComps(s[k..]);
    SkipComps(SkipSlashes(s[k..]));
    if CompLen(s) <= MAX_NAME {
      SkipSlash(s);
    } else {
      CutLong(s);
    }
  }

  lemma PiecesLong(c: string)
    requires |c| > MAX_NAME
    ensures Pieces(c) == [c[..MAX_NAME]] + Pieces(c[MAX_NAME..])
  {
  }

  lemma CutAt(s: string, k: nat)
    requires 0 < k < CompLen(s)
    ensures SkipSlashes(s[k..]) == s[k..]
    ensures var tail := Cut(NonEmpty(Comps(Rest(s))));
            && Cut(NonEmpty(Comps(s))) == Pieces(s[..CompLen(s)]) + tail
            && Cut(NonEmpty(Comps(s[k..]))) == Pieces(s[..CompLen(s)][k..]) + tail
  {
    hide Comps, NonEmpty, Cut, Rest, Pieces;
    CompLenDrop(s, k);
    CutOff(s);
    CutOff(s[k..]);
    assert s[k..][..CompLen(s) - k] == s[..CompLen(s)][k..];
  }

  lemma CutLong(s: string)
    requires CompLen(s) > MAX_NAME
    ensures SkipSlashes(s[MAX_NAME..]) == s[MAX_NAME..]
    ensures Cut(NonEmpty(Comps(s))) == [s[..MAX_NAME]] + Cut(NonEmpty(Comps(s[MAX_NAME..])))
  {
    hide Comps, NonEmpty, Cut, CompLen, Rest, Pieces, SkipSlashes;
    var c := s[..CompLen(s)];
    CutAt(s, MAX_NAME);
    PiecesLong(c);
    assert c[..MAX_NAME] == s[..MAX_NAME];
  }

  lemma SkipSlash(s: string)
    ensures NonEmpty(Comps(SkipSlashes(s[CompLen(s)..]))) == NonEmpty(Comps(Rest(s)))
  {
    var k := CompLen(s);
    if k < |s| {
      assert s[k..][1..] == Rest(s);
      SkipOne(s[k..]);
    }
    hide Comps, NonEmpty, SkipSlashes;
    SkipComps(Rest(s));
  }

  lemma SkipOne(s: string)
    requires s != "" && s[0] == '/'
    ensures SkipSlashes(s) == SkipSlashes(s[1..])
  {
  }

  lemma NonEmptyCons(c: string, cs: seq<string>)
    ensures NonEmpty([c] + cs) == (if c == "" then [] else [c]) + NonEmpty(cs)
  {
  }

  /** The walk over characters is the walk over pieces. */
  lemma {:induction false} WalksAgree(root: Tree, at: seq<nat>, s: string)
    requires Exists(root, at) && (s != "" ==> s[0] != '/')
    ensures ResolveFrom(root, at, s) == ResolveComps(root, at, Cut(NonEmpty(Comps(s))))
    decreases |s|
  {
    if s != "" {
      var k := Shorter(CompLen(s), MAX_NAME);
      CutFirst(s, k);
      hide Comps, CompLen, NonEmpty, SkipSlashes, Cut;
      var c, rest := s[..k], SkipSlashes(s[k..]);
      var cs := Cut(NonEmpty(Comps(s)));
      assert cs[0] == c && cs[1..] == Cut(NonEmpty(Comps(rest)));
      if c == "." {
        WalksAgree(root, at, rest);
      } else if c == ".." {
        ParentExists(root, at);
        WalksAgree(root, Parent(at), rest);
      } else {
        var f := Find(Sub(root, at), c);
        if f >= 0 && (rest == "" || Sub(root, at).children[f].node.Dir?) {
          SubStep(root, at, f);
          WalksAgree(root, at + [f], rest);
        }
      }
    }
  }

  // ---------- the loop itself ----------

  method SkipFrom(path: string, from: nat) returns (p: nat)
    requires from <= |path|
    ensures from <= p <= |path| && path[p..] == SkipSlashes(path[from..])
  {
    p := from;
    while p < |path| && path[p] == '/'
      invariant from <= p <= |path| && SkipSlashes(path[p..]) == SkipSlashes(path[from..])
    {
      SkipOne(path[p..]);
      assert path[p..][1..] == path[p + 1..];
      p := p + 1;
    }
  }

  method ReadComponent(path: string, from: nat) returns (component: string, p: nat)
    requires from <= |path|
    ensures from <= p <= |path| && component == path[from..p]
    ensures p - from == Shorter(CompLen(path[from..]), MAX_NAME)
  {
    component, p := "", from;
    while p < |path| && path[p] != '/' && |component| < MAX_NAME
      invariant from <= p <= |path| && component == path[from..p]
      invariant p - from <= MAX_NAME
      invariant CompLen(path[from..]) == p - from + CompLen(path[p..])
    {
      assert path[p..][1..] == path[p + 1..];
      component, p := component + [path[p]], p + 1;
    }
  }

  method FindChild(t: Tree, name: string) returns (f: int)
    ensures f == Find(t, name)
  {
    if t.File? {
      return -1;
    }
    f := 0;
    while f < |t.children|
      invariant 0 <= f <= |t.children| && Find(t, name) == FindIn(t.children, name, f)
    {
      if t.children[f].name == name {
        return;
      }
      f := f + 1;
    }
    f := -1;
  }

  lemma ResolveStep(root: Tree, at: seq<nat>, s: string, k: nat)
    requires Exists(root, at) && s != "" && s[0] != '/' && k == Shorter(CompLen(s), MAX_NAME)
    ensures 0 < k <= |s| && Exists(root, Parent(at))
    ensures var c, rest := s[..k], SkipSlashes(s[k..]);
            var f := Find(Sub(root, at), c);
            && (c == "." ==> ResolveFrom(root, at, s) == ResolveFrom(root, at, rest))
            && (c == ".." ==> ResolveFrom(root, at, s) == ResolveFrom(root, Parent(at), rest))
            && (c != "." && c != ".." ==>
                  if f < 0 then ResolveFrom(root, at, s) == ENOENT
                  else if rest != "" && !Sub(root, at).children[f].node.Dir? then ResolveFrom(root, at, s) == ENOTDIR
                  else Exists(root, at + [f]) && ResolveFrom(root, at, s) == ResolveFrom(root, at + [f], rest))
  {
    ParentExists(root, at);
    var f := Find(Sub(root, at), s[..k]);
    if f >= 0 {
      SubStep(root, at, f);
    }
  }

  method ResolvePath(root: Tree, start: seq<nat>, path: string) returns (r: Res)
    requires Exists(root, start)
    ensures r == Resolve(root, start, path)
  {
    hide SkipSlashes, CompLen, ResolveFrom, Find, Shorter;
    if path == "" {
      return ENOENT;
    }
    var p := SkipFrom(path, 0);
    assert path[0..] == path;
    var at: seq<nat> := if path[0] == '/' then [] else start;
    while p < |path|
      invariant p <= |path| && Exists(root, at) && (path[p..] != "" ==> path[p..][0] != '/')
      invariant Resolve(root, start, path) == ResolveFrom(root, at, path[p..])
      decreases |path| - p
    {
      var s := path[p..];
      var component, q := ReadComponent(path, p);
      var k := q - p;
      assert component == s[..k] && path[q..] == s[k..];
      ResolveStep(root, at, s, k);
      p := SkipFrom(path, q);
      if component == "." {
        continue;
      }
      if component == ".." {
        ParentExists(root, at);
        at := Parent(at);
        continue;
      }
      var f := FindChild(Sub(root, at), component);
      if f < 0 {
        return ENOENT;
      }
      if p < |path| && !Sub(root, at).children[f].node.Dir? {
        return ENOTDIR;
      }
      at := at + [f];
    }
    ResolveEnd(root, at);
    r := Found(at);
  }

  lemma ResolveEnd(root: Tree, at: seq<nat>)
    requires Exists(root, at)
    ensures ResolveFrom(root, at, "") == Found(at)
  {
  }
}
