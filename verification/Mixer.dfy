/** mix64 and pat of mem-test/main.c over the 64-bit words 0 .. 2^64 - 1, and why no two addresses share a pattern. */
module Mixer {
  import opened Bytes

  /** Bitwise exclusive or. */
  function Xor(a: nat, b: nat): nat
    decreases a + b
  {
    if a == 0 && b == 0 then 0 else 2 * Xor(a / 2, b / 2) + if a % 2 == b % 2 then 0 else 1
  }

  lemma {:induction false} XorTwice(a: nat, b: nat)
    ensures Xor(Xor(a, b), b) == a
    decreases a + b
  {
    if a > 0 || b > 0 {
      XorTwice(a / 2, b / 2);
      assert Xor(a, b) / 2 == Xor(a / 2, b / 2);
    }
  }

  lemma {:induction false} XorZero(a: nat)
    ensures Xor(a, 0) == a
  {
    if a > 0 {
      XorZero(a / 2);
    }
  }

  lemma Halves(x: nat, n: nat)
    ensures Quot(x, Pow2(n + 1)) == Quot(x / 2, Pow2(n))
  {
    var p := Pow2(n);
    var y := x / 2;
    var q, r := y / p, y % p;
    assert y == p * q + r;
    assert 2 * (p * q) == q * (2 * p);
    DivIs(x, 2 * p, q);
  }

  /** Shifting right commutes with exclusive or. */
  lemma {:induction false} XorShifted(a: nat, b: nat, n: nat)
    ensures Quot(Xor(a, b), Pow2(n)) == Xor(Quot(a, Pow2(n)), Quot(b, Pow2(n)))
    decreases n
  {
    if n > 0 {
      XorShifted(a / 2, b / 2, n - 1);
      Halves(a, n - 1);
      Halves(b, n - 1);
      Halves(Xor(a, b), n - 1);
      XorHalf(a, b);
    }
  }

  lemma XorHalf(a: nat, b: nat)
    ensures Xor(a, b) / 2 == Xor(a / 2, b / 2)
  {
  }

  lemma {:induction false} XorFits(a: nat, b: nat, n: nat)
    requires a < Pow2(n) && b < Pow2(n)
    ensures Xor(a, b) < Pow2(n)
  {
    if n > 0 && (a > 0 || b > 0) {
      XorFits(a / 2, b / 2, n - 1);
    }
  }

  lemma Powers()
    ensures Pow2(33) == 0x2_0000_0000 && Pow2(64) == 0x1_0000_0000_0000_0000
  {
    assert Pow2(8) == 0x100;
    assert Pow2(16) == 0x1_0000;
    assert Pow2(24) == 0x100_0000;
    assert Pow2(32) == 0x1_0000_0000;
    assert Pow2(40) == 0x100_0000_0000;
    assert Pow2(48) == 0x1_0000_0000_0000;
    assert Pow2(56) == 0x100_0000_0000_0000;
  }

  type word = x: int | 0 <= x < 0x1_0000_0000_0000_0000

  /** x ^= x >> 33, which undoes itself. */
  function XorShift(x: word): (y: word)
    ensures Xor(y, y / 0x2_0000_0000) == x
  {
    var t := x / 0x2_0000_0000;
    Powers();
    XorFits(x, t, 64);
    XorShifted(x, t, 33);
    XorZero(t);
    XorTwice(x, t);
    Xor(x, t)
  }

  function Times64(x: word, c: word): word {
    (x * c) % 0x1_0000_0000_0000_0000
  }

  function Mix64(x: word): word {
    XorShift(Times64(XorShift(Times64(XorShift(x), 0xff51_afd7_ed55_8ccd)), 0xc4ce_b9fe_1a85_ec53))
  }

  /** The inverse of mix64, through the inverses of its two odd factors. */
  function Unmix64(y: word): word {
    XorShift(Times64(XorShift(Times64(XorShift(y), 0x9cb4_b2f8_1293_37db)), 0x4f74_430c_22a5_4005))
  }

  lemma FirstFactor(x: word)
    ensures Times64(Times64(x, 0xff51_afd7_ed55_8ccd), 0x4f74_430c_22a5_4005) == x
  {
    var q := (x * 0xff51_afd7_ed55_8ccd) / 0x1_0000_0000_0000_0000;
    DivIs(Times64(x, 0xff51_afd7_ed55_8ccd) * 0x4f74_430c_22a5_4005, 0x1_0000_0000_0000_0000,
          0x4f3e2925cb7c5b4e * x - q * 0x4f74_430c_22a5_4005);
  }

  lemma SecondFactor(x: word)
    ensures Times64(Times64(x, 0xc4ce_b9fe_1a85_ec53), 0x9cb4_b2f8_1293_37db) == x
  {
    var q := (x * 0xc4ce_b9fe_1a85_ec53) / 0x1_0000_0000_0000_0000;
    DivIs(Times64(x, 0xc4ce_b9fe_1a85_ec53) * 0x9cb4_b2f8_1293_37db, 0x1_0000_0000_0000_0000,
          0x7878e44812b2d581 * x - q * 0x9cb4_b2f8_1293_37db);
  }

  /** mix64 loses nothing: every 64-bit word can be recovered from its image. */
  lemma UnmixMix(x: word)
    ensures Unmix64(Mix64(x)) == x
  {
    var a := XorShift(x);
    var b := Times64(a, 0xff51_afd7_ed55_8ccd);
    var c := XorShift(b);
    var d := Times64(c, 0xc4ce_b9fe_1a85_ec53);
    SecondFactor(c);
    FirstFactor(a);
    ShiftTwice(d);
    ShiftTwice(b);
    ShiftTwice(x);
  }

  lemma ShiftTwice(x: word)
    ensures XorShift(XorShift(x)) == x
  {
  }

  function Pat(addr: word, seed: word): word {
    Powers();
    XorFits(addr, seed, 64);
    Mix64(Xor(addr, seed))
  }

  /** pat is injective in the address. */
  lemma PatInjective(a: word, b: word, seed: word)
    ensures Pat(a, seed) == Pat(b, seed) <==> a == b
  {
    Powers();
    XorFits(a, seed, 64);
    XorFits(b, seed, 64);
    UnmixMix(Xor(a, seed));
    UnmixMix(Xor(b, seed));
    XorTwice(a, seed);
    XorTwice(b, seed);
  }
}
