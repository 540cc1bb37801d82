/** The bitwise operators of C on numbers that are not negative. */
module Bits {
  import opened CBytes

  /** The k-th bit, counted from the low one. */
  function Bit(n: nat, k: nat): nat {
    if k == 0 then n % 2 else Bit(n / 2, k - 1)
  }

  function Xor(a: nat, b: nat): nat
    decreases a + b
  {
    if a == 0 && b == 0 then 0 else 2 * Xor(a / 2, b / 2) + (a + b) % 2
  }

  function Or(a: nat, b: nat): nat
    decreases a + b
  {
    if a == 0 && b == 0 then 0 else 2 * Or(a / 2, b / 2) + if a % 2 + b % 2 > 0 then 1 else 0
  }

  lemma XorStep(a: nat, b: nat)
    ensures Xor(a, b) / 2 == Xor(a / 2, b / 2) && Xor(a, b) % 2 == (a + b) % 2
  {
  }

  lemma OrStep(a: nat, b: nat)
    ensures Or(a, b) / 2 == Or(a / 2, b / 2) && Or(a, b) % 2 == if a % 2 == 0 && b % 2 == 0 then 0 else 1
  {
  }

  /** A bit of the exclusive or is set when exactly one of the two is. */
  lemma {:induction false} XorBits(a: nat, b: nat, k: nat)
    ensures Bit(Xor(a, b), k) == if Bit(a, k) == Bit(b, k) then 0 else 1
  {
    hide Xor;
    XorStep(a, b);
    if k > 0 {
      XorBits(a / 2, b / 2, k - 1);
    }
  }

  lemma {:induction false} OrBits(a: nat, b: nat, k: nat)
    ensures Bit(Or(a, b), k) == if Bit(a, k) == 0 && Bit(b, k) == 0 then 0 else 1
  {
    hide Or;
    OrStep(a, b);
    if k > 0 {
      OrBits(a / 2, b / 2, k - 1);
    }
  }

  function Pow2(k: nat): nat {
    if k == 0 then 1 else 2 * Pow2(k - 1)
  }

  lemma {:induction false} StaysBelow(a: nat, b: nat, k: nat)
    requires a < Pow2(k) && b < Pow2(k)
    ensures Xor(a, b) < Pow2(k) && Or(a, b) < Pow2(k)
  {
    if k > 0 {
      StaysBelow(a / 2, b / 2, k - 1);
    }
  }

  lemma Parity(r: nat, a: nat, b: nat)
    requires r % 2 == (a + b) % 2
    ensures (r + b) % 2 == a % 2
  {
  }

  lemma {:induction false} XorTwice(a: nat, b: nat)
    ensures Xor(Xor(a, b), b) == a
    decreases a + b
  {
    if a != 0 || b != 0 {
      XorTwice(a / 2, b / 2);
      var r := Xor(a, b);
      hide Xor;
      XorStep(a, b);
      XorStep(r, b);
      Parity(r, a, b);
    }
  }

  lemma EightBits()
    ensures Pow2(8) == 256
  {
    assert Pow2(4) == 16;
  }

  // Bytes

  function XorByte(x: Byte, y: Byte): Byte {
    EightBits();
    StaysBelow(x, y, 8);
    Xor(x, y)
  }

  function OrByte(x: Byte, y: Byte): Byte {
    EightBits();
    StaysBelow(x, y, 8);
    Or(x, y)
  }

  /** `x >> 1` */
  function ShiftRight(x: Byte): Byte {
    var n: int := x;
    n / 2
  }

  /** The low byte of `x << 7`. */
  function ShiftLeft(x: Byte): Byte {
    var n: int := x;
    128 * n % 256
  }

  /** Addition modulo 256. */
  function Plus(x: Byte, k: int): Byte {
    var n: int := x;
    (n + k) % 256
  }

  function Minus(x: Byte, k: int): Byte {
    Plus(x, -k)
  }

  lemma Undone(n: int, k: int, sum: int, back: int)
    requires 0 <= n < 256
    requires sum == (n + k) % 256 && back == (sum - k) % 256
    ensures back == n
  {
  }

  lemma AddThenSubtract(x: Byte, k: int)
    ensures Minus(Plus(x, k), k) == x && Plus(Minus(x, k), k) == x
  {
    Undone(x, k, Plus(x, k), Minus(Plus(x, k), k));
    Undone(x, -k, Minus(x, k), Plus(Minus(x, k), k));
  }
}
