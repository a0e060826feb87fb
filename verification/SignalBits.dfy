/** 64-bit signal masks and the words of a signal frame, as plain values. */
module SignalBits {
  import opened Common

  const KERNEL_BASE: nat := 0xffff800000000000

  // ---------- masks, bit by bit ----------

  predicate Bit(m: nat, i: nat)
  {
    if i == 0 then m % 2 == 1 else Bit(m / 2, i - 1)
  }

  function Single(i: nat): nat
  {
    if i == 0 then 1 else 2 * Single(i - 1)
  }

  function Or(a: nat, b: nat): nat
  {
    if a == 0 && b == 0 then 0
    else 2 * Or(a / 2, b / 2) + if a % 2 == 1 || b % 2 == 1 then 1 else 0
  }

  /** The bits of a that are not in b. */
  function Without(a: nat, b: nat): nat
  {
    if a == 0 then 0
    else 2 * Without(a / 2, b / 2) + if a % 2 == 1 && b % 2 == 0 then 1 else 0
  }

  lemma {:induction false} BitSingle(s: nat, i: nat)
    ensures Bit(Single(s), i) <==> i == s
  {
    if s > 0 && i > 0 {
      BitSingle(s - 1, i - 1);
    } else if i > 0 {
      BitZero(i - 1);
    }
  }

  lemma {:induction false} BitZero(i: nat)
    ensures !Bit(0, i)
  {
    if i > 0 {
      BitZero(i - 1);
    }
  }

  lemma OrHalves(a: nat, b: nat)
    ensures Or(a, b) / 2 == Or(a / 2, b / 2)
    ensures Or(a, b) % 2 == 1 <==> a % 2 == 1 || b % 2 == 1
  {
  }

  lemma WithoutHalves(a: nat, b: nat)
    ensures Without(a, b) / 2 == Without(a / 2, b / 2)
    ensures Without(a, b) % 2 == 1 <==> a % 2 == 1 && b % 2 == 0
  {
  }

  lemma {:induction false} BitOr(a: nat, b: nat, i: nat)
    ensures Bit(Or(a, b), i) <==> Bit(a, i) || Bit(b, i)
    decreases i
  {
    hide Or;
    OrHalves(a, b);
    if i > 0 {
      BitOr(a / 2, b / 2, i - 1);
    }
  }

  lemma {:induction false} BitWithout(a: nat, b: nat, i: nat)
    ensures Bit(Without(a, b), i) <==> Bit(a, i) && !Bit(b, i)
    decreases i
  {
    hide Without;
    WithoutHalves(a, b);
    if i > 0 {
      BitWithout(a / 2, b / 2, i - 1);
    }
  }
}
