/**
  Machine words of tinygc.c: unsigned integers of one of two widths, with the
  shift, exclusive-or and wrap-around the collector's index computations use.
*/
module Words {

  // sizeof(GC_word) is 4 or 8.
  datatype Width = Bits32 | Bits64 {
    function Bytes(): nat {
      if this == Bits32 then 4 else 8
    }

    // Number of words: ~(GC_word)0 is Modulus() - 1.
    function Modulus(): nat {
      if this == Bits32 then 0x1_0000_0000 else 0x1_0000_0000_0000_0000
    }

    // GC_ATOMIC_MASK, the top bit.
    function Tag(): nat {
      if this == Bits32 then 0x8000_0000 else 0x8000_0000_0000_0000
    }
  }

  type Int32 = x: int | -0x8000_0000 <= x < 0x8000_0000

  // Conversion to a narrower signed integer keeps the low bits.
  function ToInt32(x: int): Int32 {
    (x + 0x8000_0000) % 0x1_0000_0000 - 0x8000_0000
  }

  // a - b on words.
  function Sub(w: Width, a: nat, b: nat): (r: int)
    ensures a < w.Modulus() && b < w.Modulus() ==> 0 <= r < w.Modulus()
    ensures r == a - b || r == a - b + w.Modulus()
  {
    if a >= b then a - b else a - b + w.Modulus()
  }

  function Pow2(n: nat): (p: nat)
    ensures p >= 1
  {
    if n == 0 then 1 else 2 * Pow2(n - 1)
  }

  // a >> n
  function Shr(a: nat, n: nat): nat {
    if n == 0 then a else Shr(a / 2, n - 1)
  }

  // a ^ b
  function Xor(a: nat, b: nat): nat {
    if a == 0 && b == 0 then 0 else 2 * Xor(a / 2, b / 2) + (a + b) % 2
  }

  // a | b
  function Or(a: nat, b: nat): nat {
    if a == 0 && b == 0 then 0 else 2 * Or(a / 2, b / 2) + if a % 2 == 1 || b % 2 == 1 then 1 else 0
  }

  lemma {:induction false} OrZero(a: nat)
    ensures Or(a, 0) == Or(0, a) == a
  {
    if a != 0 {
      OrZero(a / 2);
    }
  }

  lemma OrHalf(a: nat, b: nat)
    ensures Or(a, b) == 2 * Or(a / 2, b / 2) + if a % 2 == 1 || b % 2 == 1 then 1 else 0
  {
  }

  // A low part below 2 * q leaves a half below q and the same last bit.
  lemma Halved(a: nat, b: nat, q: nat)
    ensures (a * (2 * q) + b) / 2 == a * q + b / 2 && (a * (2 * q) + b) % 2 == b % 2
  {
    assert a * (2 * q) == 2 * (a * q);
  }

  lemma DoublePow(n: nat)
    requires n > 0
    ensures Pow2(n) == 2 * Pow2(n - 1)
  {
  }

  // Or-ing words is or-ing their high and their low parts.
  lemma {:induction false} OrSplit(a: nat, b: nat, c: nat, d: nat, k: nat)
    requires b < Pow2(k) && d < Pow2(k)
    ensures Or(a * Pow2(k) + b, c * Pow2(k) + d) == Or(a, c) * Pow2(k) + Or(b, d)
    decreases k, 1
  {
    if k == 0 {
      assert Pow2(k) == 1 && Or(b, d) == 0;
    } else {
      OrSplitStep(a, b, c, d, k);
    }
  }

  lemma {:induction false} OrSplitStep(a: nat, b: nat, c: nat, d: nat, k: nat)
    requires k > 0 && b < Pow2(k) && d < Pow2(k)
    ensures Or(a * Pow2(k) + b, c * Pow2(k) + d) == Or(a, c) * Pow2(k) + Or(b, d)
    decreases k, 0
  {
    hide Or, Pow2;
    DoublePow(k);
    var q := Pow2(k - 1);
    Halved(a, b, q);
    Halved(c, d, q);
    OrSplit(a, b / 2, c, d / 2, k - 1);
    OrHalf(a * (2 * q) + b, c * (2 * q) + d);
    OrHalf(b, d);
    Doubled(Or(a, c), q);
  }

  lemma Doubled(x: nat, q: nat)
    ensures 2 * (x * q) == x * (2 * q)
  {
  }

  lemma {:induction false} OrOnes(a: nat, k: nat)
    requires a < Pow2(k)
    ensures Or(a, Pow2(k) - 1) == Pow2(k) - 1
  {
    if k != 0 {
      hide Or;
      OrOnes(a / 2, k - 1);
      OrHalf(a, Pow2(k) - 1);
    } else {
      OrZero(0);
    }
  }

  lemma {:induction false} ShrShr(a: nat, m: nat, n: nat)
    ensures Shr(Shr(a, m), n) == Shr(a, m + n)
  {
    if m > 0 {
      ShrShr(a / 2, m - 1, n);
    }
  }

  lemma XorHalf(a: nat, b: nat)
    ensures Xor(a, b) / 2 == Xor(a / 2, b / 2)
  {
  }

  lemma {:induction false} ShrXor(a: nat, b: nat, n: nat)
    ensures Shr(Xor(a, b), n) == Xor(Shr(a, n), Shr(b, n))
  {
    if n > 0 {
      XorHalf(a, b);
      ShrXor(a / 2, b / 2, n - 1);
    }
  }

  lemma ShrByte(a: nat)
    ensures Shr(a, 8) == a / 256
  {
    assert Shr(a, 8) == Shr(a / 2, 7) == Shr(a / 2 / 2, 6) == Shr(a / 2 / 2 / 2, 5) == Shr(a / 2 / 2 / 2 / 2, 4);
    var b := a / 2 / 2 / 2 / 2;
    assert Shr(b, 4) == Shr(b / 2, 3) == Shr(b / 2 / 2, 2) == Shr(b / 2 / 2 / 2, 1) == b / 2 / 2 / 2 / 2;
    assert b == a / 16 && b / 2 / 2 / 2 / 2 == b / 16;
  }
}
