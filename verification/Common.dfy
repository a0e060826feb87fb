/** What several parts of the kernel share: 64-bit words, bytes, bit counts, and a division fact. */
module Common {
  const U64: nat := 0x1_0000_0000_0000_0000

  type Byte = x: int | 0 <= x < 256

  datatype Option<T> = None | Some(value: T)

  /** How many bits of a bitmap are clear. */
  ghost function Clear(bits: seq<bool>): nat
  {
    if bits == [] then 0 else Clear(bits[..|bits| - 1]) + Weight(bits[|bits| - 1])
  }

  function Weight(b: bool): nat
  {
    if b then 0 else 1
  }

  lemma {:induction false} ClearUpdated(bits: seq<bool>, i: nat, b: bool)
    requires i < |bits|
    ensures Clear(bits[i := b]) == Clear(bits) + Weight(b) - Weight(bits[i])
  {
    var n := |bits| - 1;
    if i == n {
      assert bits[i := b][..n] == bits[..n];
    } else {
      ClearUpdated(bits[..n], i, b);
      assert bits[i := b][..n] == bits[..n][i := b];
    }
  }

  lemma QuotientIs(x: int, n: int, c: int, r: int)
    requires n > 0 && 0 <= r < n && x == n * c + r
    ensures x / n == c && x % n == r
  {
    var d := x / n - c;
    assert n * d == r - x % n;
    assert d >= 1 ==> n * d >= n;
    assert d <= -1 ==> n * d <= -n;
  }
}
