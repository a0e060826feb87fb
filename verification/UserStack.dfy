/** The initial user stack: strings, pointer vectors and auxiliary vector, and how a program reads them. */
module UserStack {
  import opened Common
  import opened Elf

  const STACK_PAGES: nat := 64
  const STACK_BYTES: nat := 262144
  const STACK_TOP: nat := 0x7ffffffff000
  const BASE: nat := STACK_TOP - STACK_BYTES
  const MAX_STRINGS: nat := 64
  /** Fourteen pairs of words. */
  const AUX_WORDS: nat := 28
  const RANDOM_BYTES: nat := 16

  type Text = seq<Byte>

  /** A C string: no zero inside. */
  predicate IsText(s: Text)
  {
    forall i :: 0 <= i < |s| ==> s[i] != 0
  }

  predicate AllText(ss: seq<Text>)
  {
    forall i :: 0 <= i < |ss| ==> IsText(ss[i])
  }

  /** The bytes strings take with their terminators. */
  function TextBytes(ss: seq<Text>): nat
  {
    if ss == [] then 0 else |ss[0]| + 1 + TextBytes(ss[1..])
  }

  // ---------- little-endian words ----------

  function Le(w: nat, n: nat): (b: seq<Byte>)
    ensures |b| == n
    decreases n
  {
    if n == 0 then [] else [w % 256] + Le(w / 256, n - 1)
  }

  function Val(b: seq<Byte>): nat
  {
    if b == [] then 0 else b[0] + 256 * Val(b[1..])
  }

  function Pow256(n: nat): nat
  {
    if n == 0 then 1 else 256 * Pow256(n - 1)
  }

  lemma {:induction false} ValLe(w: nat, n: nat)
    requires w < Pow256(n)
    ensures Val(Le(w, n)) == w
    decreases n
  {
    if n > 0 {
      ValLe(w / 256, n - 1);
      assert Le(w, n)[1..] == Le(w / 256, n - 1);
    }
  }

  lemma Pow8()
    ensures Pow256(8) == U64
  {
  }

  // ---------- how a program reads its stack ----------

  predicate InStack(b: seq<Byte>, a: nat, n: nat)
  {
    |b| == STACK_BYTES && BASE <= a && a + n <= STACK_TOP
  }

  function ReadWord(b: seq<Byte>, a: nat): nat
    requires InStack(b, a, 8)
  {
    Val(b[a - BASE..a - BASE + 8])
  }

  /** The bytes up to the first zero. */
  function ReadText(b: seq<Byte>, a: nat): Text
    requires InStack(b, a, 0)
    decreases STACK_TOP - a
  {
    if a == STACK_TOP || b[a - BASE] == 0 then [] else [b[a - BASE]] + ReadText(b, a + 1)
  }

  /** A vector of string pointers ends at a null pointer; pointers outside the stack end it too. */
  function ReadVector(b: seq<Byte>, a: nat): seq<Text>
    requires InStack(b, a, 0)
    decreases STACK_TOP - a
  {
    if a + 8 > STACK_TOP || ReadWord(b, a) == 0 || !InStack(b, ReadWord(b, a), 0) then []
    else [ReadText(b, ReadWord(b, a))] + ReadVector(b, a + 8)
  }

  datatype Aux = Aux(key: nat, value: nat)

  /** Pairs up to the one with key 0. */
  function ReadAux(b: seq<Byte>, a: nat): seq<Aux>
    requires InStack(b, a, 0)
    decreases STACK_TOP - a
  {
    if a + 16 > STACK_TOP || ReadWord(b, a) == 0 then []
    else [Aux(ReadWord(b, a), ReadWord(b, a + 8))] + ReadAux(b, a + 16)
  }

  // ---------- contents of the buffer ----------

  predicate TextAt(b: seq<Byte>, off: nat, s: Text)
  {
    && off + |s| + 1 <= |b| && b[off + |s|] == 0
    && forall k :: 0 <= k < |s| ==> b[off + k] == s[k]
  }

  ghost predicate TextsAt(b: seq<Byte>, offs: seq<nat>, ss: seq<Text>)
  {
    |offs| == |ss| && forall i :: 0 <= i < |ss| ==> TextAt(b, offs[i], ss[i])
  }

  ghost predicate WordsAt(b: seq<Byte>, off: nat, ws: seq<nat>)
  {
    && off + 8 * |ws| <= |b|
    && forall i :: 0 <= i < |ws| ==> b[off + 8 * i..off + 8 * i + 8] == Le(ws[i], 8)
  }

  lemma {:induction false} TextReads(b: seq<Byte>, off: nat, s: Text)
    requires |b| == STACK_BYTES && TextAt(b, off, s) && IsText(s)
    ensures ReadText(b, BASE + off) == s
    decreases |s|
  {
    if s != [] {
      assert b[off + 0] == s[0];
      assert forall k :: 0 <= k < |s[1..]| ==> s[1..][k] == s[k + 1] && b[off + 1 + k] == b[off + (k + 1)];
      TextReads(b, off + 1, s[1..]);
    }
  }

  lemma WordReads(b: seq<Byte>, off: nat, ws: seq<nat>, i: nat)
    requires |b| == STACK_BYTES && WordsAt(b, off, ws) && i < |ws| && ws[i] < U64
    ensures ReadWord(b, BASE + off + 8 * i) == ws[i]
  {
    Pow8();
    ValLe(ws[i], 8);
  }

  lemma {:induction false} VectorReads(b: seq<Byte>, at: nat, offs: seq<nat>, ss: seq<Text>)
    requires |b| == STACK_BYTES && at + 8 * (|ss| + 1) <= STACK_BYTES
    requires TextsAt(b, offs, ss) && AllText(ss)
    requires forall i :: 0 <= i < |ss| ==> ReadWord(b, BASE + at + 8 * i) == BASE + offs[i]
    requires ReadWord(b, BASE + at + 8 * |ss|) == 0
    ensures ReadVector(b, BASE + at) == ss
    decreases |ss|
  {
    hide ReadWord, ReadText;
    if ss != [] {
      assert TextAt(b, offs[0], ss[0]);
      TextReads(b, offs[0], ss[0]);
      assert ReadWord(b, BASE + at + 8 * 0) == BASE + offs[0];
      var rest, tail := offs[1..], ss[1..];
      forall i | 0 <= i < |tail|
        ensures TextAt(b, rest[i], tail[i]) && IsText(tail[i])
        ensures ReadWord(b, BASE + (at + 8) + 8 * i) == BASE + rest[i]
      {
        assert rest[i] == offs[i + 1] && tail[i] == ss[i + 1] && BASE + (at + 8) + 8 * i == BASE + at + 8 * (i + 1);
      }
      VectorReads(b, at + 8, rest, tail);
    }
  }

  lemma {:induction false} AuxReads(b: seq<Byte>, at: nat, aux: seq<Aux>)
    requires |b| == STACK_BYTES && at + 16 * (|aux| + 1) <= STACK_BYTES
    requires forall i :: 0 <= i < |aux| ==> aux[i].key != 0
    requires forall i :: 0 <= i < |aux| ==>
      ReadWord(b, BASE + at + 16 * i) == aux[i].key && ReadWord(b, BASE + at + 16 * i + 8) == aux[i].value
    requires ReadWord(b, BASE + at + 16 * |aux|) == 0
    ensures ReadAux(b, BASE + at) == aux
    decreases |aux|
  {
    hide ReadWord;
    if aux != [] {
      assert ReadWord(b, BASE + at + 16 * 0) == aux[0].key && ReadWord(b, BASE + at + 16 * 0 + 8) == aux[0].value;
      var tail := aux[1..];
      forall i | 0 <= i < |tail|
        ensures tail[i].key != 0
        ensures ReadWord(b, BASE + (at + 16) + 16 * i) == tail[i].key
        ensures ReadWord(b, BASE + (at + 16) + 16 * i + 8) == tail[i].value
      {
        assert tail[i] == aux[i + 1] && BASE + (at + 16) + 16 * i == BASE + at + 16 * (i + 1);
      }
      AuxReads(b, at + 16, tail);
    }
  }

  // ---------- filling the buffer ----------

  /** The bytes below lo and from hi on are as they were. */
  twostate predicate Kept(buf: array<Byte>, lo: nat, hi: nat)
    reads buf
  {
    && (forall k :: 0 <= k < buf.Length && k < lo ==> buf[k] == old(buf[k]))
    && (forall k :: hi <= k < buf.Length ==> buf[k] == old(buf[k]))
  }

  method PutText(buf: array<Byte>, top: nat, s: Text) returns (off: nat)
    requires |s| + 1 <= top <= buf.Length
    modifies buf
    ensures off == top - |s| - 1 && TextAt(buf[..], off, s) && Kept(buf, off, top)
  {
    off := top - |s| - 1;
    var k := 0;
    while k < |s|
      invariant k <= |s| && Kept(buf, off, top)
      invariant forall j :: 0 <= j < k ==> buf[off + j] == s[j]
    {
      buf[off + k] := s[k];
      k := k + 1;
    }
    buf[off + |s|] := 0;
  }

  lemma {:induction false} TextBytesSplit(ss: seq<Text>, i: nat)
    requires i < |ss|
    ensures TextBytes(ss[i..]) == |ss[i]| + 1 + TextBytes(ss[i + 1..])
  {
  }

  lemma {:induction false} TextBytesMore(ss: seq<Text>, i: nat)
    requires i <= |ss|
    ensures TextBytes(ss[i..]) <= TextBytes(ss)
    decreases i
  {
    if i == 0 {
      assert ss[0..] == ss;
    } else {
      TextBytesMore(ss, i - 1);
      TextBytesSplit(ss, i - 1);
    }
  }

  /** A string placed earlier, higher up, survives what is written below it. */
  lemma TextKept(b: seq<Byte>, b': seq<Byte>, off: nat, s: Text, lo: nat)
    requires TextAt(b, off, s) && lo <= off && |b'| == |b| && forall k :: lo <= k < |b| ==> b'[k] == b[k]
    ensures TextAt(b', off, s)
  {
  }

  /** Strings are placed from the last to the first, each right below the one before. */
  method PutTexts(buf: array<Byte>, top: nat, ss: seq<Text>) returns (low: nat, offs: seq<nat>)
    requires TextBytes(ss) <= top <= buf.Length
    modifies buf
    ensures low == top - TextBytes(ss) && TextsAt(buf[..], offs, ss) && Kept(buf, low, top)
    ensures forall i :: 0 <= i < |offs| ==> low <= offs[i]
  {
    hide TextBytes, TextAt;
    offs := [];
    low := top;
    var i := |ss|;
    TextBytesNone();
    while i > 0
      invariant 0 <= i <= |ss| && |offs| == |ss| - i && low == top - TextBytes(ss[i..]) && low >= 0
      invariant Kept(buf, low, top)
      invariant forall j :: 0 <= j < |offs| ==> low <= offs[j] && TextAt(buf[..], offs[j], ss[i + j])
    {
      i := i - 1;
      TextBytesSplit(ss, i);
      TextBytesMore(ss, i);
      ghost var was := buf[..];
      var off := PutText(buf, low, ss[i]);
      forall j | 0 <= j < |offs|
        ensures TextAt(buf[..], offs[j], ss[i + 1 + j])
      {
        TextKept(was, buf[..], offs[j], ss[i + 1 + j], low);
      }
      low, offs := off, [off] + offs;
    }
    assert ss[0..] == ss;
  }

  lemma TextBytesNone()
    ensures forall ss: seq<Text> :: ss == [] ==> TextBytes(ss) == 0
  {
  }

  method PutWord(buf: array<Byte>, at: nat, w: nat)
    requires at + 8 <= buf.Length
    modifies buf
    ensures buf[at..at + 8] == Le(w, 8) && Kept(buf, at, at + 8)
  {
    hide Le;
    var bytes := Le(w, 8);
    var k := 0;
    while k < 8
      invariant k <= 8 && Kept(buf, at, at + 8) && forall j :: 0 <= j < k ==> buf[at + j] == bytes[j]
    {
      buf[at + k] := bytes[k];
      k := k + 1;
    }
  }

  method PutWords(buf: array<Byte>, at: nat, ws: seq<nat>)
    requires at + 8 * |ws| <= buf.Length
    modifies buf
    ensures WordsAt(buf[..], at, ws) && Kept(buf, at, at + 8 * |ws|)
  {
    hide Le;
    var i := 0;
    while i < |ws|
      invariant i <= |ws| && Kept(buf, at, at + 8 * |ws|)
      invariant forall j :: 0 <= j < i ==> buf[at + 8 * j..at + 8 * j + 8] == Le(ws[j], 8)
    {
      ghost var was := buf[..];
      PutWord(buf, at + 8 * i, ws[i]);
      forall j | 0 <= j < i
        ensures buf[at + 8 * j..at + 8 * j + 8] == Le(ws[j], 8)
      {
        assert buf[at + 8 * j..at + 8 * j + 8] == was[at + 8 * j..at + 8 * j + 8];
      }
      i := i + 1;
    }
    forall j | 0 <= j < |ws|
      ensures buf[..][at + 8 * j..at + 8 * j + 8] == Le(ws[j], 8)
    {
      assert buf[..][at + 8 * j..at + 8 * j + 8] == buf[at + 8 * j..at + 8 * j + 8];
    }
  }

  // ---------- the whole stack ----------

  datatype Info = Info(phdr: nat, phnum: nat, interpBase: nat, entry: nat, secure: bool)

  predicate Words64(info: Info)
  {
    info.phdr < U64 && info.phnum < U64 && info.interpBase < U64 && info.entry < U64
  }

  /** The auxiliary vector without its terminator. */
  function AuxOf(info: Info, random: nat, execfn: nat): (r: seq<Aux>)
    ensures |r| == 13 && forall i :: 0 <= i < |r| ==> r[i].key != 0
  {
    [Aux(3, info.phdr), Aux(4, 56), Aux(5, info.phnum), Aux(6, 4096), Aux(7, info.interpBase), Aux(9, info.entry),
     Aux(25, random), Aux(31, execfn), Aux(11, 0), Aux(12, 0), Aux(13, 0), Aux(14, 0),
     Aux(23, if info.secure then 1 else 0)]
  }

  function Flat(aux: seq<Aux>): (r: seq<nat>)
    ensures |r| == 2 * |aux| && forall i :: 0 <= i < |aux| ==> r[2 * i] == aux[i].key && r[2 * i + 1] == aux[i].value
  {
    if aux == [] then [] else Flat(aux[..|aux| - 1]) + [aux[|aux| - 1].key, aux[|aux| - 1].value]
  }

  function Addresses(offs: seq<nat>): (r: seq<nat>)
    ensures |r| == |offs| && forall i :: 0 <= i < |r| ==> r[i] == BASE + offs[i]
  {
    seq(|offs|, i requires 0 <= i < |offs| => BASE + offs[i])
  }

  /** argc, argv, null, envp, null, auxiliary vector. */
  function StackWords(args: seq<nat>, envs: seq<nat>, aux: seq<Aux>): (r: seq<nat>)
    ensures |r| == 5 + |args| + |envs| + 2 * |aux|
  {
    [|args|] + Addresses(args) + [0] + Addresses(envs) + [0] + Flat(aux) + [0, 0]
  }

  function FirstStrings(ss: seq<Text>): seq<Text>
  {
    if |ss| > MAX_STRINGS then ss[..MAX_STRINGS] else ss
  }

  /** What is left above the pointers once all strings are placed. */
  function StringsLow(argv: seq<Text>, envp: seq<Text>, exec: Text): int
  {
    STACK_BYTES - RANDOM_BYTES - (|exec| + 1) - TextBytes(envp) - TextBytes(argv)
  }

  /** Strings and pointers fit into the stack. */
  predicate Fits(argv: seq<Text>, envp: seq<Text>, exec: Text)
  {
    StringsLow(argv, envp, exec) >= 8 * (3 + |argv| + |envp| + AUX_WORDS)
  }

  ghost predicate Parts(w: seq<nat>, args: seq<nat>, envs: seq<nat>, aux: seq<Aux>)
  {
    var n, m, k := |args|, |envs|, |aux|;
    && |w| == 5 + n + m + 2 * k
    && w[0] == n && w[1 + n] == 0 && w[2 + n + m] == 0 && w[3 + n + m + 2 * k] == 0
    && (forall i :: 0 <= i < n ==> w[1 + i] == BASE + args[i])
    && (forall i :: 0 <= i < m ==> w[2 + n + i] == BASE + envs[i])
    && (forall i :: 0 <= i < k ==> w[3 + n + m + 2 * i] == aux[i].key && w[3 + n + m + 2 * i + 1] == aux[i].value)
  }

  lemma PartsOfWords(args: seq<nat>, envs: seq<nat>, aux: seq<Aux>)
    ensures Parts(StackWords(args, envs, aux), args, envs, aux)
  {
  }

  /** Word i of a row of words at offset `at` reads as given. */
  ghost predicate Reads(b: seq<Byte>, at: nat, i: nat, w: nat)
  {
    InStack(b, BASE + at + 8 * i, 8) && ReadWord(b, BASE + at + 8 * i) == w
  }

  ghost predicate AllRead(b: seq<Byte>, at: nat, ws: seq<nat>)
  {
    forall i :: 0 <= i < |ws| ==> Reads(b, at, i, ws[i])
  }

  lemma WordsRead(b: seq<Byte>, at: nat, ws: seq<nat>)
    requires |b| == STACK_BYTES && WordsAt(b, at, ws) && forall i :: 0 <= i < |ws| ==> ws[i] < U64
    ensures AllRead(b, at, ws)
  {
    hide ReadWord;
    forall i | 0 <= i < |ws|
      ensures Reads(b, at, i, ws[i])
    {
      WordReads(b, at, ws, i);
    }
  }

  lemma VectorPart(b: seq<Byte>, at: nat, w: seq<nat>, from: nat, offs: seq<nat>, ss: seq<Text>)
    requires |b| == STACK_BYTES && AllRead(b, at, w) && from + |ss| < |w|
    requires TextsAt(b, offs, ss) && AllText(ss) && w[from + |ss|] == 0
    requires forall i :: 0 <= i < |ss| ==> w[from + i] == BASE + offs[i]
    ensures InStack(b, BASE + at + 8 * from, 0) && ReadVector(b, BASE + at + 8 * from) == ss
  {
    hide ReadWord, ReadVector, TextAt, AllText;
    assert Reads(b, at, from + |ss|, w[from + |ss|]);
    forall i | 0 <= i < |ss|
      ensures ReadWord(b, BASE + (at + 8 * from) + 8 * i) == BASE + offs[i]
    {
      assert Reads(b, at, from + i, w[from + i]);
      assert BASE + at + 8 * (from + i) == BASE + (at + 8 * from) + 8 * i;
    }
    assert BASE + at + 8 * (from + |ss|) == BASE + (at + 8 * from) + 8 * |ss|;
    VectorReads(b, at + 8 * from, offs, ss);
  }

  lemma AuxPart(b: seq<Byte>, at: nat, w: seq<nat>, from: nat, aux: seq<Aux>)
    requires |b| == STACK_BYTES && AllRead(b, at, w) && from + 2 * |aux| + 1 < |w|
    requires forall i :: 0 <= i < |aux| ==> aux[i].key != 0
    requires forall i :: 0 <= i < |aux| ==> w[from + 2 * i] == aux[i].key && w[from + 2 * i + 1] == aux[i].value
    requires w[from + 2 * |aux|] == 0
    ensures InStack(b, BASE + at + 8 * from, 0) && ReadAux(b, BASE + at + 8 * from) == aux
  {
    hide ReadWord, ReadAux;
    assert Reads(b, at, from + 2 * |aux|, w[from + 2 * |aux|]);
    assert Reads(b, at, from + 2 * |aux| + 1, w[from + 2 * |aux| + 1]);
    forall i | 0 <= i < |aux|
      ensures ReadWord(b, BASE + (at + 8 * from) + 16 * i) == aux[i].key
      ensures ReadWord(b, BASE + (at + 8 * from) + 16 * i + 8) == aux[i].value
    {
      assert Reads(b, at, from + 2 * i, w[from + 2 * i]);
      assert BASE + at + 8 * (from + 2 * i) == BASE + (at + 8 * from) + 16 * i;
      assert Reads(b, at, from + 2 * i + 1, w[from + 2 * i + 1]);
      assert BASE + at + 8 * (from + 2 * i + 1) == BASE + (at + 8 * from) + 16 * i + 8;
    }
    assert BASE + at + 8 * (from + 2 * |aux|) == BASE + (at + 8 * from) + 16 * |aux|;
    AuxReads(b, at + 8 * from, aux);
  }

  lemma WordsSmall(b: seq<Byte>, args: seq<nat>, argv: seq<Text>, envs: seq<nat>, envp: seq<Text>, aux: seq<Aux>)
    requires |b| == STACK_BYTES && TextsAt(b, args, argv) && TextsAt(b, envs, envp)
    requires |args| < U64 && forall i :: 0 <= i < |aux| ==> aux[i].key < U64 && aux[i].value < U64
    ensures forall i :: 0 <= i < |StackWords(args, envs, aux)| ==> StackWords(args, envs, aux)[i] < U64
  {
    FlatSmall(aux);
    assert forall i :: 0 <= i < |args| ==> TextAt(b, args[i], argv[i]);
    assert forall i :: 0 <= i < |envs| ==> TextAt(b, envs[i], envp[i]);
    hide Flat;
  }

  lemma {:induction false} FlatSmall(aux: seq<Aux>)
    requires forall i :: 0 <= i < |aux| ==> aux[i].key < U64 && aux[i].value < U64
    ensures forall i :: 0 <= i < |Flat(aux)| ==> Flat(aux)[i] < U64
    decreases |aux|
  {
    if aux != [] {
      FlatSmall(aux[..|aux| - 1]);
    }
  }

  /** Reading back from the stack pointer gives the count, both vectors and the auxiliary pairs. */
  lemma StackReads(b: seq<Byte>, at: nat, args: seq<nat>, argv: seq<Text>, envs: seq<nat>, envp: seq<Text>, aux: seq<Aux>)
    requires |b| == STACK_BYTES && WordsAt(b, at, StackWords(args, envs, aux))
    requires TextsAt(b, args, argv) && TextsAt(b, envs, envp) && AllText(argv) && AllText(envp)
    requires forall i :: 0 <= i < |aux| ==> 0 < aux[i].key < U64 && aux[i].value < U64
    ensures InStack(b, BASE + at, 8 * (5 + |argv| + |envp|))
    ensures ReadWord(b, BASE + at) == |argv|
    ensures ReadVector(b, BASE + at + 8) == argv
    ensures ReadVector(b, BASE + at + 8 * (2 + |argv|)) == envp
    ensures ReadAux(b, BASE + at + 8 * (3 + |argv| + |envp|)) == aux
  {
    hide StackWords, Parts, AllText, TextAt, TextsAt, ReadWord, ReadVector, ReadAux, WordsAt, AllRead;
    var w := StackWords(args, envs, aux);
    WordsWithin(b, at, w);
    TextsPaired(b, args, argv);
    TextsPaired(b, envs, envp);
    PartsOfWords(args, envs, aux);
    WordsSmall(b, args, argv, envs, envp, aux);
    WordsRead(b, at, w);
    ArgvReads(b, at, w, args, argv, envs, aux);
    EnvpReads(b, at, w, args, envs, envp, aux);
    AuxvReads(b, at, w, args, envs, aux);
  }

  lemma WordsWithin(b: seq<Byte>, at: nat, ws: seq<nat>)
    requires WordsAt(b, at, ws)
    ensures at + 8 * |ws| <= |b|
  {
  }

  lemma TextsPaired(b: seq<Byte>, offs: seq<nat>, ss: seq<Text>)
    requires TextsAt(b, offs, ss)
    ensures |offs| == |ss|
  {
  }

  lemma ArgvReads(b: seq<Byte>, at: nat, w: seq<nat>, args: seq<nat>, argv: seq<Text>, envs: seq<nat>, aux: seq<Aux>)
    requires |b| == STACK_BYTES && AllRead(b, at, w) && Parts(w, args, envs, aux)
    requires TextsAt(b, args, argv) && AllText(argv)
    ensures InStack(b, BASE + at, 8 * (5 + |args| + |envs|))
    ensures ReadWord(b, BASE + at) == |args| && ReadVector(b, BASE + at + 8) == argv
  {
    hide AllRead, ReadWord, ReadVector, TextAt, AllText;
    FirstRead(b, at, w);
    VectorPart(b, at, w, 1, args, argv);
  }

  lemma EnvpReads(b: seq<Byte>, at: nat, w: seq<nat>, args: seq<nat>, envs: seq<nat>, envp: seq<Text>, aux: seq<Aux>)
    requires |b| == STACK_BYTES && AllRead(b, at, w) && Parts(w, args, envs, aux)
    requires TextsAt(b, envs, envp) && AllText(envp)
    ensures InStack(b, BASE + at + 8 * (2 + |args|), 0) && ReadVector(b, BASE + at + 8 * (2 + |args|)) == envp
  {
    hide AllRead, ReadVector, TextAt, AllText;
    VectorPart(b, at, w, 2 + |args|, envs, envp);
  }

  lemma AuxvReads(b: seq<Byte>, at: nat, w: seq<nat>, args: seq<nat>, envs: seq<nat>, aux: seq<Aux>)
    requires |b| == STACK_BYTES && AllRead(b, at, w) && Parts(w, args, envs, aux)
    requires forall i :: 0 <= i < |aux| ==> aux[i].key != 0
    ensures InStack(b, BASE + at + 8 * (3 + |args| + |envs|), 0)
    ensures ReadAux(b, BASE + at + 8 * (3 + |args| + |envs|)) == aux
  {
    hide AllRead, ReadAux;
    AuxPart(b, at, w, 3 + |args| + |envs|, aux);
  }

  lemma FirstRead(b: seq<Byte>, at: nat, w: seq<nat>)
    requires |b| == STACK_BYTES && AllRead(b, at, w) && w != []
    ensures InStack(b, BASE + at, 8) && ReadWord(b, BASE + at) == w[0]
    ensures BASE + at + 8 * |w| <= STACK_TOP
  {
    hide ReadWord;
    assert Reads(b, at, 0, w[0]) && Reads(b, at, |w| - 1, w[|w| - 1]);
  }

  // ---------- setup_user_stack ----------

  function RandomByte(i: nat): Byte
    requires i < RANDOM_BYTES
  {
    ((i as bv8) ^ 0xA5 ^ ((i * 7) as bv8)) as int
  }

  ghost predicate RandomAt(b: seq<Byte>, off: nat)
  {
    off + RANDOM_BYTES <= |b| && forall i :: 0 <= i < RANDOM_BYTES ==> b[off + i] == RandomByte(i)
  }

  method PutRandom(buf: array<Byte>, off: nat)
    requires off + RANDOM_BYTES <= buf.Length
    modifies buf
    ensures RandomAt(buf[..], off)
  {
    var i := 0;
    while i < RANDOM_BYTES
      invariant i <= RANDOM_BYTES && forall j :: 0 <= j < i ==> buf[off + j] == RandomByte(j)
    {
      buf[off + i] := RandomByte(i);
      i := i + 1;
    }
  }

  /** Everything that lies above the pointers. */
  ghost predicate Strings(b: seq<Byte>, low: nat, args: seq<nat>, argv: seq<Text>, envs: seq<nat>, envp: seq<Text>,
                          execOff: nat, exec: Text)
  {
    && TextsAt(b, args, argv) && TextsAt(b, envs, envp) && TextAt(b, execOff, exec)
    && |b| == STACK_BYTES && RandomAt(b, STACK_BYTES - RANDOM_BYTES) && low <= execOff <= STACK_BYTES - RANDOM_BYTES
    && (forall i :: 0 <= i < |args| ==> low <= args[i]) && (forall i :: 0 <= i < |envs| ==> low <= envs[i])
  }

  lemma StringsKept(b: seq<Byte>, b': seq<Byte>, low: nat, args: seq<nat>, argv: seq<Text>, envs: seq<nat>,
                    envp: seq<Text>, execOff: nat, exec: Text)
    requires Strings(b, low, args, argv, envs, envp, execOff, exec)
    requires |b'| == |b| && forall k :: low <= k < |b| ==> b'[k] == b[k]
    ensures Strings(b', low, args, argv, envs, envp, execOff, exec)
  {
  }

  lemma TextsKept(b: seq<Byte>, b': seq<Byte>, offs: seq<nat>, ss: seq<Text>, lo: nat)
    requires TextsAt(b, offs, ss) && forall i :: 0 <= i < |offs| ==> lo <= offs[i]
    requires |b'| == |b| && forall k :: lo <= k < |b| ==> b'[k] == b[k]
    ensures TextsAt(b', offs, ss)
  {
  }

  method PlaceStrings(buf: array<Byte>, argv: seq<Text>, envp: seq<Text>, exec: Text)
    returns (low: nat, args: seq<nat>, envs: seq<nat>, execOff: nat)
    requires buf.Length == STACK_BYTES && StringsLow(argv, envp, exec) >= 0
    modifies buf
    ensures low == StringsLow(argv, envp, exec)
    ensures Strings(buf[..], low, args, argv, envs, envp, execOff, exec)
  {
    hide TextBytes, TextAt, RandomByte, TextsAt;
    var top := STACK_BYTES - RANDOM_BYTES;
    PutRandom(buf, top);
    execOff := PutText(buf, top, exec);
    ghost var one := buf[..];
    var mid: nat;
    mid, envs := PutTexts(buf, execOff, envp);
    ghost var two := buf[..];
    TextKept(one, two, execOff, exec, execOff);
    low, args := PutTexts(buf, mid, argv);
    TextKept(two, buf[..], execOff, exec, mid);
    TextsPaired(two, envs, envp);
    TextsKept(two, buf[..], envs, envp, mid);
  }

  /**
   * The 64-byte check works on a difference in 64-bit arithmetic: what it lets through lies in the
   * buffer, below the strings, exactly when the pointers fit under them. A negative low is that of
   * strings that overrun the buffer by themselves.
   */
  lemma RoomCheck(low: int, words: nat)
    requires 0 < low + U64 && low <= STACK_BYTES && words <= STACK_BYTES
    ensures var off := (low / 8 * 8 - 8 * words) % U64 / 16 * 16;
      off >= 64 ==> (off + 8 * words <= low <==> low >= 8 * words)
  {
  }

  function Copies(s: Text, n: nat): seq<Text>
  {
    if n == 0 then [] else [s] + Copies(s, n - 1)
  }

  lemma {:induction false} CopiesBytes(s: Text, n: nat)
    ensures |Copies(s, n)| == n && TextBytes(Copies(s, n)) == n * (|s| + 1)
  {
    if n > 0 {
      CopiesBytes(s, n - 1);
      assert Copies(s, n)[1..] == Copies(s, n - 1);
    }
  }

  /** Sixty-four arguments of 4083 up to 4095 bytes do not fit with their pointers, and the check does not notice. */
  lemma RoomMissed(s: Text, n: nat)
    requires 4083 <= |s| <= 4095 && n == MAX_STRINGS
    ensures var argv := Copies(s, n);
      var low, words := StringsLow(argv, [], []), 3 + |argv| + AUX_WORDS;
      && low < 8 * words && !Fits(argv, [], []) && (low < 0 <==> |s| >= 4095)
      && (low / 8 * 8 - 8 * words) % U64 / 16 * 16 >= 64
  {
    CopiesBytes(s, n);
    assert n * (|s| + 1) == 64 * (|s| + 1);
  }

  /** What a program finds from its first stack pointer up. */
  ghost predicate Readable(b: seq<Byte>, rsp: nat, argv: seq<Text>, envp: seq<Text>, exec: Text, info: Info, execfn: nat)
  {
    && InStack(b, rsp, 8 * (5 + |argv| + |envp|)) && InStack(b, execfn, 0) && rsp % 16 == 0
    && ReadWord(b, rsp) == |argv|
    && ReadVector(b, rsp + 8) == argv
    && ReadVector(b, rsp + 8 * (2 + |argv|)) == envp
    && ReadAux(b, rsp + 8 * (3 + |argv| + |envp|)) == AuxOf(info, STACK_TOP - RANDOM_BYTES, execfn)
    && ReadText(b, execfn) == exec && RandomAt(b, STACK_BYTES - RANDOM_BYTES)
  }

  /** The stack image; no pointer, 0, when less than 64 bytes would be left below it. */
  method BuildStack(argv: seq<Text>, envp: seq<Text>, exec: Text, info: Info)
    returns (buf: array<Byte>, rsp: nat, ghost low: nat, ghost execfn: nat)
    requires AllText(argv) && AllText(envp) && IsText(exec) && Words64(info) && Fits(argv, envp, exec)
    ensures fresh(buf) && buf.Length == STACK_BYTES && low == BASE + StringsLow(argv, envp, exec)
    ensures rsp == 0 <==> (StringsLow(argv, envp, exec) / 8 * 8 - 8 * (3 + |argv| + |envp| + AUX_WORDS)) / 16 * 16 < 64
    ensures rsp != 0 ==> Readable(buf[..], rsp, argv, envp, exec, info, execfn)
    ensures rsp != 0 ==> rsp + 8 * (3 + |argv| + |envp| + AUX_WORDS) <= low <= execfn
  {
    hide TextBytes, TextAt, TextsAt, Le, IsText, AllText, StringsLow, StackWords, Strings, RandomAt, Readable, WordsAt;
    buf := new Byte[STACK_BYTES](_ => 0);
    var bottom, args, envs, execOff := PlaceStrings(buf, argv, envp, exec);
    low, execfn := BASE + bottom, BASE + execOff;
    StringsFacts(buf[..], bottom, args, argv, envs, envp, execOff, exec);
    var count := 3 + |args| + |envs| + AUX_WORDS;
    var top := bottom / 8 * 8;
    var at := (top - 8 * count) / 16 * 16;
    if at < 64 {
      rsp := 0;
      return;
    }
    ghost var was := buf[..];
    var aux := AuxOf(info, BASE + STACK_BYTES - RANDOM_BYTES, BASE + execOff);
    PutWords(buf, at, StackWords(args, envs, aux));
    rsp := BASE + at;
    StringsKept(was, buf[..], bottom, args, argv, envs, envp, execOff, exec);
    AllReadable(buf[..], at, bottom, args, argv, envs, envp, execOff, exec, info);
  }

  lemma StringsFacts(b: seq<Byte>, low: nat, args: seq<nat>, argv: seq<Text>, envs: seq<nat>, envp: seq<Text>,
                     execOff: nat, exec: Text)
    requires Strings(b, low, args, argv, envs, envp, execOff, exec)
    ensures |args| == |argv| && |envs| == |envp| && low <= execOff < STACK_BYTES && |b| == STACK_BYTES
    ensures TextsAt(b, args, argv) && TextsAt(b, envs, envp) && TextAt(b, execOff, exec)
    ensures RandomAt(b, STACK_BYTES - RANDOM_BYTES)
  {
  }

  lemma AllReadable(b: seq<Byte>, at: nat, low: nat, args: seq<nat>, argv: seq<Text>, envs: seq<nat>, envp: seq<Text>,
                    execOff: nat, exec: Text, info: Info)
    requires Strings(b, low, args, argv, envs, envp, execOff, exec)
    requires AllText(argv) && AllText(envp) && IsText(exec) && Words64(info) && at % 16 == 0
    requires WordsAt(b, at, StackWords(args, envs, AuxOf(info, STACK_TOP - RANDOM_BYTES, BASE + execOff)))
    ensures Readable(b, BASE + at, argv, envp, exec, info, BASE + execOff)
  {
    hide TextAt, TextsAt, IsText, AllText, StackWords, AuxOf, ReadText, ReadWord, ReadVector, ReadAux, RandomAt, WordsAt;
    hide Strings, Words64;
    var aux := AuxOf(info, STACK_TOP - RANDOM_BYTES, BASE + execOff);
    StringsFacts(b, low, args, argv, envs, envp, execOff, exec);
    AuxSmall(info, BASE + execOff, aux);
    TextReads(b, execOff, exec);
    StackReads(b, at, args, argv, envs, envp, aux);
  }

  lemma AuxSmall(info: Info, execfn: nat, aux: seq<Aux>)
    requires Words64(info) && execfn < U64 && aux == AuxOf(info, STACK_TOP - RANDOM_BYTES, execfn)
    ensures forall i :: 0 <= i < |aux| ==> 0 < aux[i].key < U64 && aux[i].value < U64
  {
  }

  /** Present, writable, user, no-execute. */
  const STACK_FLAGS: nat := 0x8000000000000007

  /** Copies the image into fresh pages, the highest first. */
  method MapStack(space: AddressSpace, buf: array<Byte>) returns (ok: bool)
    requires space.Valid() && buf.Length == STACK_BYTES
    modifies space
    ensures space.Valid() && (ok <==> old(space.frames) >= STACK_PAGES)
    ensures ok ==> forall k :: 0 <= k < STACK_BYTES ==> Look(space.pages, BASE + k) == buf[k]
    ensures forall a: nat :: !(BASE <= a < STACK_TOP) ==> Look(space.pages, a) == old(Look(space.pages, a))
  {
    var i := 0;
    while i < STACK_PAGES
      invariant i <= STACK_PAGES && space.Valid() && space.frames + i == old(space.frames)
      invariant forall k :: STACK_BYTES - i * PAGE <= k < STACK_BYTES ==> Look(space.pages, BASE + k) == buf[k]
      invariant forall a: nat :: !(BASE <= a < STACK_TOP) ==> Look(space.pages, a) == old(Look(space.pages, a))
    {
      if space.frames == 0 {
        return false;
      }
      var v, from := STACK_TOP - (i + 1) * PAGE, STACK_BYTES - (i + 1) * PAGE;
      ghost var was := space.pages;
      var page := Page(buf[from..from + PAGE], STACK_FLAGS);
      space.frames, space.pages := space.frames - 1, space.pages[v := page];
      PageSet(was, space.pages, v, page);
      i := i + 1;
    }
    ok := true;
  }

  lemma PageSet(pages: map<nat, Page>, pages': map<nat, Page>, v: nat, page: Page)
    requires Whole(pages) && v % PAGE == 0 && |page.bytes| == PAGE && pages' == pages[v := page]
    ensures Whole(pages')
    ensures forall a: nat :: Look(pages', a) == if v <= a < v + PAGE then page.bytes[a - v] else Look(pages, a)
  {
  }

  /** The program finds its first 64 arguments and environment strings and the auxiliary vector at rsp. */
  method SetupUserStack(space: AddressSpace, argv: seq<Text>, envp: seq<Text>, exec: Text, info: Info)
    returns (rsp: nat, ghost b: seq<Byte>, ghost execfn: nat)
    requires space.Valid() && AllText(argv) && AllText(envp) && IsText(exec) && Words64(info)
    requires Fits(FirstStrings(argv), FirstStrings(envp), exec)
    modifies space
    ensures space.Valid()
    ensures rsp != 0 ==> Readable(b, rsp, FirstStrings(argv), FirstStrings(envp), exec, info, execfn)
    ensures rsp != 0 ==> forall k :: 0 <= k < STACK_BYTES ==> Look(space.pages, BASE + k) == b[k]
    ensures forall a: nat :: !(BASE <= a < STACK_TOP) ==> Look(space.pages, a) == old(Look(space.pages, a))
    ensures var args, envs := FirstStrings(argv), FirstStrings(envp);
      rsp == 0 ==>
        || old(space.frames) < STACK_PAGES
        || StringsLow(args, envs, exec) < 8 * (3 + |args| + |envs| + AUX_WORDS) + 88
  {
    hide Readable, Look, StringsLow, Whole;
    var args, envs := FirstStrings(argv), FirstStrings(envp);
    var buf, at, low, efn := BuildStack(args, envs, exec, info);
    b, execfn := buf[..], efn;
    if at == 0 {
      return 0, b, execfn;
    }
    var ok := MapStack(space, buf);
    rsp := if ok then at else 0;
  }
}
