/** Signal delivery on the user stack and return from handlers. */
module Signals {
  import opened Common
  import opened SignalBits

  /** User memory in 8-byte words, by address. */
  type Mem = map<nat, nat>

  datatype Regs = Regs(rax: nat, rcx: nat, rdi: nat, rsi: nat, rdx: nat, r8: nat, r9: nat, r10: nat, r11: nat,
                       rbx: nat, rbp: nat, r12: nat, r13: nat, r14: nat, r15: nat, rsp: nat)

  datatype Action = Action(handler: nat, restorer: nat, mask: nat)
  const DEFAULT: nat := 0
  const IGNORE: nat := 1

  const SIGNALS: nat := 64
  const WORDS: nat := 32
  const FRAME: nat := 256
  const SEGMENTS: nat := 0x001b_0000_0000_0023

  // ---------- the frame ----------

  /** Word i of a signal frame: return address, info, context with all registers, mask. */
  function FrameWord(regs: Regs, blocked: nat, restorer: nat, sig: nat, i: nat): nat
  {
    match i
    case 0 => restorer
    case 1 => sig
    case 8 => regs.r8
    case 9 => regs.r9
    case 10 => regs.r10
    case 11 => regs.r11
    case 12 => regs.r12
    case 13 => regs.r13
    case 14 => regs.r14
    case 15 => regs.r15
    case 16 => regs.rdi
    case 17 => regs.rsi
    case 18 => regs.rbp
    case 19 => regs.rbx
    case 20 => regs.rdx
    case 21 => regs.rax
    case 22 => regs.rcx
    case 23 => regs.rsp
    case 24 => regs.rcx
    case 25 => regs.r11
    case 26 => SEGMENTS
    case 31 => blocked
    case _ => 0
  }

  function Frame(regs: Regs, blocked: nat, restorer: nat, sig: nat): (f: seq<nat>)
    ensures |f| == WORDS
  {
    seq(WORDS, i requires 0 <= i < WORDS => FrameWord(regs, blocked, restorer, sig, i))
  }

  /** Every word of the frame at `base` is mapped. */
  predicate Mapped(mem: Mem, base: nat)
  {
    forall i :: 0 <= i < WORDS ==> base + 8 * i in mem
  }

  ghost predicate Holds(mem: Mem, base: nat, words: seq<nat>)
  {
    forall i :: 0 <= i < |words| ==> base + 8 * i in mem && mem[base + 8 * i] == words[i]
  }

  predicate UserOk(addr: nat, len: nat)
  {
    addr != 0 && (len == 0 || (addr + len - 1 < U64 && addr < KERNEL_BASE && addr + len - 1 < KERNEL_BASE))
  }

  /** (rsp - 256) & ~15, in 64-bit arithmetic. */
  function FrameBase(rsp: nat): nat
  {
    (rsp - FRAME) % U64 / 16 * 16
  }

  /** Where the frame fits at all, it ends below the interrupted stack pointer and is aligned. */
  lemma FrameBelow(rsp: nat)
    requires rsp < U64 && UserOk(FrameBase(rsp), FRAME)
    ensures FrameBase(rsp) + FRAME <= rsp && FrameBase(rsp) % 16 == 0
  {
  }

  // ---------- scripts of well-nested handlers ----------

  /** What user code does between kernel entries; a signal runs a handler that does more of the same. */
  datatype Act =
    | Compute(regs: Regs, writes: Mem)
    | SetMask(mask: nat)
    | SetAction(sig: nat, action: Action)
    | Raise(which: nat)
    | Signal(body: seq<Act>, left: Regs)

  /** Handlers write only below their frame and keep their stack there. */
  predicate Below(act: Act, floor: nat)
    requires act.Compute?
  {
    act.regs.rsp <= floor && forall w :: w in act.writes ==> w + 8 <= floor
  }

  datatype Outcome = Nothing | Delivered(sig: nat) | Killed(cause: nat)

  predicate Harmless(sig: nat)
  {
    sig == 17 || sig == 23 || sig == 28
  }

  predicate Active(pending: nat, blocked: nat, sig: nat)
  {
    Bit(pending, sig) && !Bit(blocked, sig)
  }

  /** Signals that are dropped without effect. */
  predicate Dropped(action: Action, sig: nat)
  {
    action.handler == IGNORE || (action.handler == DEFAULT && Harmless(sig))
  }

  /** The signal that is acted on: the lowest active one that is not dropped. */
  predicate First(pending: nat, blocked: nat, actions: seq<Action>, sig: nat)
    requires |actions| == SIGNALS
  {
    && 1 <= sig < SIGNALS && Active(pending, blocked, sig) && !Dropped(actions[sig], sig)
    && forall s :: 1 <= s < sig && Active(pending, blocked, s) ==> Dropped(actions[s], s)
  }

  /** Every active signal up to `hi` has left the pending mask, nothing else has. */
  ghost predicate Cleared(pending: nat, pending': nat, blocked: nat, hi: nat)
  {
    forall i: nat :: Bit(pending', i) <==> Bit(pending, i) && !(1 <= i <= hi && !Bit(blocked, i))
  }

  // ---------- reading a frame back ----------

  /** The context of a frame starts behind its first three words. */
  const CONTEXT: nat := 24

  /** Every word of the context at `uc` is mapped. */
  predicate ContextMapped(mem: Mem, uc: nat)
  {
    forall i :: 3 <= i < WORDS ==> uc - CONTEXT + 8 * i in mem
  }

  /** Word i of the frame whose context is at `uc`. */
  function Word(mem: Mem, uc: nat, i: nat): nat
    requires ContextMapped(mem, uc) && 3 <= i < WORDS
  {
    mem[uc - CONTEXT + 8 * i]
  }

  function Restored(mem: Mem, uc: nat): Regs
    requires ContextMapped(mem, uc)
  {
    Regs(Word(mem, uc, 21), Word(mem, uc, 24), Word(mem, uc, 16), Word(mem, uc, 17), Word(mem, uc, 20),
         Word(mem, uc, 8), Word(mem, uc, 9), Word(mem, uc, 10), Word(mem, uc, 25),
         Word(mem, uc, 19), Word(mem, uc, 18), Word(mem, uc, 12), Word(mem, uc, 13),
         Word(mem, uc, 14), Word(mem, uc, 15), Word(mem, uc, 23))
  }

  /** What delivery saves, return restores: all registers, the stack pointer and the mask. */
  lemma FrameRoundTrip(mem: Mem, base: nat, regs: Regs, blocked: nat, restorer: nat, sig: nat)
    requires Holds(mem, base, Frame(regs, blocked, restorer, sig))
    ensures var uc := base + CONTEXT;
      ContextMapped(mem, uc) && Restored(mem, uc) == regs && Word(mem, uc, 31) == blocked
  {
    var uc, f := base + CONTEXT, Frame(regs, blocked, restorer, sig);
    assert forall i: nat :: uc - CONTEXT + 8 * i == base + 8 * i;
    assert ContextMapped(mem, uc);
    assert forall i: nat {:trigger Word(mem, uc, i)} :: 3 <= i < WORDS ==>
      Word(mem, uc, i) == FrameWord(regs, blocked, restorer, sig, i);
    hide Word, Holds, ContextMapped, Frame;
  }

  lemma ContextAt(base: nat)
    requires UserOk(base, FRAME)
    ensures (base + 8 + 16) % U64 == base + CONTEXT && base + 8 < U64 && UserOk(base + CONTEXT, FRAME - CONTEXT)
  {
  }

  lemma HoldsAbove(mem: Mem, mem': Mem, base: nat, words: seq<nat>)
    requires Holds(mem, base, words)
    requires forall w :: w in mem && w >= base ==> w in mem' && mem'[w] == mem[w]
    ensures Holds(mem', base, words)
  {
  }

  class Task {
    var regs: Regs
    var pending: nat
    var blocked: nat
    var actions: seq<Action>
    var mem: Mem
    /** Set by task_exit, which only a fatal signal reaches here. */
    var exited: bool

    ghost predicate Valid()
      reads this
    {
      |actions| == SIGNALS && regs.rsp < U64
    }

    method CopyOut(base: nat, words: seq<nat>)
      modifies `mem
      ensures Holds(mem, base, words)
      ensures forall w :: w in old(mem) ==> w in mem
      ensures forall w :: w in old(mem) && !(base <= w < base + 8 * |words|) ==> mem[w] == old(mem)[w]
    {
      var i := 0;
      while i < |words|
        invariant i <= |words| && Holds(mem, base, words[..i])
        invariant forall w :: w in old(mem) ==> w in mem
        invariant forall w :: w in old(mem) && !(base <= w < base + 8 * |words|) ==> mem[w] == old(mem)[w]
      {
        mem := mem[base + 8 * i := words[i]];
        i := i + 1;
      }
      assert words[..i] == words;
    }

    /** Saves the context below the stack pointer and enters the handler. */
    method Enter(sig: nat, base: nat)
      requires Valid() && sig < SIGNALS && base + FRAME < U64
      modifies `regs, `blocked, `mem
      ensures Valid() && Holds(mem, base, Frame(old(regs), old(blocked), actions[sig].restorer, sig))
      ensures regs == old(regs).(rcx := actions[sig].handler, rsp := base, rdi := sig, rsi := base + 8, rdx := base + 24)
      ensures forall i :: Bit(blocked, i) <==>
        (old(Bit(blocked, i)) || Bit(actions[sig].mask, i) || i == sig) && i != 9 && i != 19
      ensures forall w :: w in old(mem) ==> w in mem
      ensures forall w :: w in old(mem) && !(base <= w < base + FRAME) ==> mem[w] == old(mem)[w]
    {
      hide Bit, Or, Without, Single;
      CopyOut(base, Frame(regs, blocked, actions[sig].restorer, sig));
      var more := Or(actions[sig].mask, Single(sig));
      var never := Or(Single(9), Single(19));
      forall i
        ensures Bit(Without(Or(blocked, more), never), i) <==>
          (Bit(blocked, i) || Bit(actions[sig].mask, i) || i == sig) && i != 9 && i != 19
      {
        BitWithout(Or(blocked, more), never, i);
        BitOr(blocked, more, i);
        BitOr(actions[sig].mask, Single(sig), i);
        BitOr(Single(9), Single(19), i);
        BitSingle(sig, i);
        BitSingle(9, i);
        BitSingle(19, i);
      }
      blocked := Without(Or(blocked, more), never);
      regs := regs.(rcx := actions[sig].handler, rsp := base, rdi := sig, rsi := base + 8, rdx := base + 24);
    }

    method Clear(sig: nat)
      modifies `pending
      ensures forall i :: Bit(pending, i) <==> old(Bit(pending, i)) && i != sig
    {
      hide Bit, Without, Single;
      forall i
        ensures Bit(Without(pending, Single(sig)), i) <==> Bit(pending, i) && i != sig
      {
        BitWithout(pending, Single(sig), i);
        BitSingle(sig, i);
      }
      pending := Without(pending, Single(sig));
    }

    /** Acts on the lowest active signal that is not dropped; the ones dropped before it are gone too. */
    method Deliver() returns (r: Outcome)
      requires Valid() && !exited
      modifies `regs, `pending, `blocked, `mem, `exited
      ensures Valid() && exited == r.Killed?
      ensures r.Nothing? <==> forall s :: 1 <= s < SIGNALS && old(Active(pending, blocked, s)) ==> Dropped(actions[s], s)
      ensures r.Nothing? ==> regs == old(regs) && blocked == old(blocked) && mem == old(mem)
      ensures r.Nothing? ==> Cleared(old(pending), pending, blocked, SIGNALS - 1)
      ensures forall sig: nat :: First(old(pending), old(blocked), actions, sig) ==>
        r == if actions[sig].handler == DEFAULT then Killed(sig)
             else if UserOk(FrameBase(old(regs.rsp)), FRAME) && Mapped(old(mem), FrameBase(old(regs.rsp))) then Delivered(sig)
             else Killed(11)
      ensures r.Delivered? ==> First(old(pending), old(blocked), actions, r.sig)
      ensures r.Delivered? ==> Cleared(old(pending), pending, old(blocked), r.sig)
      ensures r.Delivered? ==>
        var base, act := FrameBase(old(regs.rsp)), actions[r.sig];
        && UserOk(base, FRAME) && Holds(mem, base, Frame(old(regs), old(blocked), act.restorer, r.sig))
        && regs == old(regs).(rcx := act.handler, rsp := base, rdi := r.sig, rsi := base + 8, rdx := base + 24)
        && (forall i :: Bit(blocked, i) <==> (old(Bit(blocked, i)) || Bit(act.mask, i) || i == r.sig) && i != 9 && i != 19)
        && (forall w :: w in old(mem) ==> w in mem)
        && (forall w :: w in old(mem) && !(base <= w < base + FRAME) ==> mem[w] == old(mem)[w])
    {
      hide Bit, Frame, FrameBase;
      ghost var was := pending;
      var sig := 1;
      while sig < SIGNALS
        invariant 1 <= sig <= SIGNALS && Valid() && Cleared(was, pending, blocked, sig - 1)
        invariant forall s :: 1 <= s < sig && Active(was, blocked, s) ==> Dropped(actions[s], s)
        invariant regs == old(regs) && blocked == old(blocked) && mem == old(mem) && !exited
      {
        var act := actions[sig];
        if Active(pending, blocked, sig) {
          if act.handler == IGNORE {
            Clear(sig);
          } else if act.handler == DEFAULT {
            Clear(sig);
            if !Harmless(sig) {
              exited := true;
              return Killed(sig);
            }
          } else {
            Clear(sig);
            var base := FrameBase(regs.rsp);
            if !UserOk(base, FRAME) || !Mapped(mem, base) {
              exited := true;
              return Killed(11);
            }
            Enter(sig, base);
            return Delivered(sig);
          }
        }
        sig := sig + 1;
      }
      r := Nothing;
    }

    /** Restores the context of the frame that starts 8 bytes below the stack pointer; fails when it cannot be read. */
    method SigReturn() returns (ok: bool)
      requires Valid()
      modifies `regs, `blocked
      ensures var uc := (old(regs.rsp) + 16) % U64;
        && (ok <==> UserOk(uc, FRAME - CONTEXT) && ContextMapped(mem, uc))
        && (ok ==> regs == Restored(mem, uc) && blocked == Word(mem, uc, 31))
        && (!ok ==> regs == old(regs) && blocked == old(blocked))
    {
      var uc := ((regs.rsp - 8) % U64 + CONTEXT) % U64;
      if !UserOk(uc, FRAME - CONTEXT) || !ContextMapped(mem, uc) {
        return false;
      }
      regs := Restored(mem, uc);
      blocked := Word(mem, uc, 31);
      ok := true;
    }

    /** Words from `floor` up are as they were. */
    twostate predicate Above(floor: nat)
      reads this
    {
      && (forall w :: w in old(mem) ==> w in mem)
      && forall w :: w in old(mem) && w >= floor ==> mem[w] == old(mem)[w]
    }

    /** Whatever its handler does, nested signals included, an interruption ends where it began. */
    method Interrupt(body: seq<Act>, left: Regs) returns (alive: bool)
      requires Valid() && !exited
      modifies this
      ensures alive == !exited
      ensures alive ==> Valid() && regs == old(regs) && blocked == old(blocked) && Above(old(regs.rsp))
      decreases body, 1
    {
      hide Bit, Frame, FrameBase, Restored, Holds, Mapped, ContextMapped, Word, UserOk;
      ghost var saved, mask := regs, blocked;
      var r := Deliver();
      match r {
        case Nothing => return true;
        case Killed(_) => return false;
        case Delivered(sig) =>
          var base := regs.rsp;
          FrameBelow(saved.rsp);
          ghost var words, entered := Frame(saved, mask, actions[sig].restorer, sig), mem;
          ghost var restorer := actions[sig].restorer;
          alive := RunActs(body, base);
          if !alive {
            return;
          }
          HoldsAbove(entered, mem, base, words);
          FrameRoundTrip(mem, base, saved, mask, restorer, sig);
          ContextAt(base);
          regs := left.(rsp := base + 8);
          alive := SigReturn();
      }
    }

    /** A handler keeps everything from its frame up, and its stack below it. */
    method RunActs(acts: seq<Act>, floor: nat) returns (alive: bool)
      requires Valid() && regs.rsp <= floor && !exited
      modifies this
      ensures alive == !exited
      ensures alive ==> Valid() && regs.rsp <= floor && Above(floor)
      decreases acts, 0
    {
      var k := 0;
      while k < |acts|
        invariant k <= |acts| && Valid() && !exited && regs.rsp <= floor && Above(floor)
      {
        match acts[k] {
          case Compute(next, writes) =>
            if Below(acts[k], floor) && next.rsp < U64 {
              mem, regs := mem + writes, next;
            }
          case SetMask(mask) => blocked := mask;
          case SetAction(sig, action) =>
            if sig < SIGNALS {
              actions := actions[sig := action];
            }
          case Raise(which) => pending := Or(pending, Single(which));
          case Signal(body, left) =>
            alive := Interrupt(body, left);
            if !alive {
              return;
            }
        }
        k := k + 1;
      }
      alive := true;
    }
  }
}
