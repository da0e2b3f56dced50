/** Bytes, little-endian words and the masks ff.c applies to them, over plain integers. */
module Bytes {

  type byte = x: int | 0 <= x < 256

  function Word(b0: byte, b1: byte): nat {
    b0 + 0x100 * b1
  }

  function Dword(b0: byte, b1: byte, b2: byte, b3: byte): nat {
    b0 + 0x100 * b1 + 0x1_0000 * b2 + 0x100_0000 * b3
  }

  function Pow2(n: nat): (p: nat)
    ensures p > 0
  {
    if n == 0 then 1 else 2 * Pow2(n - 1)
  }

  function Min(a: int, b: int): int {
    if a <= b then a else b
  }

  lemma FactorIsSmall(c: int, k: int)
    requires c > 0 && c * k < c
    ensures k <= 0
  {
  }

  /** Quotients are unique. */
  lemma DivIs(x: int, c: int, q: int)
    requires c > 0 && q * c <= x < q * c + c
    ensures x / c == q
  {
    var r := x / c;
    assert c * (q - r) == q * c - r * c;
    assert c * (r - q) == r * c - q * c;
    FactorIsSmall(c, q - r);
    FactorIsSmall(c, r - q);
  }

  lemma MulMono(a: nat, b: nat, c: nat)
    requires b <= c
    ensures a * b <= a * c
  {
  }

  function Times(a: nat, b: nat): nat {
    a * b
  }

  function Quot(a: nat, b: nat): nat
    requires b > 0
  {
    a / b
  }
}
