/** C integer arithmetic: 32-bit wrap-around and division that truncates toward zero. */
module CIntegers {

  const TWO_TO_THE_31: int := 0x8000_0000
  const TWO_TO_THE_32: int := 0x1_0000_0000

  /** The C type `int32`; every operation on it is checked against overflow. */
  newtype Int32 = x: int | -0x8000_0000 <= x < 0x8000_0000

  /** C's `/` for a positive divisor. */
  function TruncDiv(a: int, b: int): int
    requires b > 0
  {
    if a >= 0 then a / b else -((-a) / b)
  }

  /** C's `%` for a positive divisor: the remainder takes the sign of the dividend. */
  function TruncMod(a: int, b: int): (r: int)
    requires b > 0
    ensures -b < r < b
    ensures a >= 0 ==> r >= 0
    ensures a <= 0 ==> r <= 0
    ensures a == b * TruncDiv(a, b) + r
  {
    if a >= 0 then a % b else -((-a) % b)
  }

  /** Conversion of any integer to `uint32`. */
  function ToUint32(a: int): (r: int)
    ensures 0 <= r < TWO_TO_THE_32
  {
    a % TWO_TO_THE_32
  }

  /** Conversion of any integer to `int32`, wrapping as two's complement does. */
  function ToInt32(a: int): (r: int)
    ensures -TWO_TO_THE_31 <= r < TWO_TO_THE_31
    ensures (r - a) % TWO_TO_THE_32 == 0
  {
    var u := ToUint32(a);
    if u < TWO_TO_THE_31 then u else u - TWO_TO_THE_32
  }

  /** Bitwise exclusive or. */
  function Xor(a: nat, b: nat): nat {
    if a == 0 then b else (a + b) % 2 + 2 * Xor(a / 2, b / 2)
  }

  /** C's `^` on `uint32`. */
  function Xor32(a: int, b: int): (r: int)
    ensures 0 <= r < TWO_TO_THE_32
  {
    ToUint32(Xor(ToUint32(a), ToUint32(b)))
  }

  /** Bit k of a number, counting from the lowest. */
  function BitAt(a: nat, k: nat): int {
    if k == 0 then a % 2 else BitAt(a / 2, k - 1)
  }

  lemma {:induction false} XorHalf(a: nat, b: nat)
    ensures Xor(a, b) / 2 == Xor(a / 2, b / 2)
    ensures Xor(a, b) % 2 == if a % 2 == b % 2 then 0 else 1
  {
    if a != 0 {
      var rest, low := Xor(a / 2, b / 2), (a + b) % 2;
      assert Xor(a, b) == low + 2 * rest && 0 <= low < 2;
      assert (low + 2 * rest) / 2 == rest;
    }
  }

  /** Each bit of an exclusive or is set if the two bits differ. */
  lemma {:induction false} XorBit(a: nat, b: nat, k: nat)
    ensures BitAt(Xor(a, b), k) == if BitAt(a, k) == BitAt(b, k) then 0 else 1
  {
    XorHalf(a, b);
    if k > 0 {
      XorBit(a / 2, b / 2, k - 1);
    }
  }

  /** The number of n one bits. */
  function Ones(n: nat): nat {
    if n == 0 then 0 else 2 * Ones(n - 1) + 1
  }

  /** Complementary numbers have no bit in common. */
  lemma {:induction false} XorComplement(a: nat, b: nat, n: nat)
    requires a + b == Ones(n)
    ensures Xor(a, b) == a + b
  {
    if n > 0 {
      assert a / 2 + b / 2 == Ones(n - 1);
      XorComplement(a / 2, b / 2, n - 1);
    }
  }

  lemma {:induction false} Ones2(n: nat)
    ensures Ones(n + 2) == 4 * Ones(n) + 3
  {
    assert Ones(n + 2) == 2 * Ones(n + 1) + 1;
  }

  lemma {:induction false} Ones8(n: nat)
    ensures Ones(n + 8) == 256 * Ones(n) + 255
  {
    Ones2(n);
    Ones2(n + 2);
    Ones2(n + 4);
    Ones2(n + 6);
  }

  lemma {:induction false} XorComplement32(a: int, b: int)
    requires 0 <= a && 0 <= b && a + b == 0xFFFF_FFFF
    ensures Xor32(a, b) == 0xFFFF_FFFF
  {
    var n := 0;
    Ones8(n);
    Ones8(n + 8);
    Ones8(n + 16);
    Ones8(n + 24);
    XorComplement(a, b, n + 32);
  }
}
