/** Unsigned bytes (`u8`) and their bitwise exclusive or, defined bit by bit
    from the lowest bit, with the algebra the attack relies on proved from
    that definition. */
module Bytes {

  /** An unsigned 8-bit value. */
  newtype byte = x: int | 0 <= x < 256

  function Pow2(n: nat): nat {
    if n == 0 then 1 else 2 * Pow2(n - 1)
  }

  /** Exclusive or of the low `n` bits of `a` and `b`. */
  function XorBits(a: nat, b: nat, n: nat): (r: nat)
    ensures r < Pow2(n)
  {
    if n == 0 then 0
    else 2 * XorBits(a / 2, b / 2, n - 1) + (if a % 2 == b % 2 then 0 else 1)
  }

  /** `a ^ b` on bytes. */
  function XorByte(a: byte, b: byte): byte {
    assert Pow2(8) == 256;
    XorBits(a as int, b as int, 8) as byte
  }

  lemma {:induction false} XorBitsComm(a: nat, b: nat, n: nat)
    ensures XorBits(a, b, n) == XorBits(b, a, n)
  {
    if n > 0 {
      XorBitsComm(a / 2, b / 2, n - 1);
    }
  }

  lemma {:induction false} XorBitsSelf(a: nat, n: nat)
    ensures XorBits(a, a, n) == 0
  {
    if n > 0 {
      XorBitsSelf(a / 2, n - 1);
    }
  }

  lemma {:induction false} XorBitsZero(a: nat, n: nat)
    requires a < Pow2(n)
    ensures XorBits(a, 0, n) == a
  {
    if n > 0 {
      XorBitsZero(a / 2, n - 1);
    }
  }

  /** The high bits and the lowest bit of an exclusive or. */
  lemma XorBitsHalves(a: nat, b: nat, n: nat)
    requires n > 0
    ensures XorBits(a, b, n) / 2 == XorBits(a / 2, b / 2, n - 1)
    ensures XorBits(a, b, n) % 2 == if a % 2 == b % 2 then 0 else 1
  {
  }

  lemma {:induction false} XorBitsAssoc(a: nat, b: nat, c: nat, n: nat)
    ensures XorBits(a, XorBits(b, c, n), n) == XorBits(XorBits(a, b, n), c, n)
  {
    if n > 0 {
      var bc, ab := XorBits(b, c, n), XorBits(a, b, n);
      XorBitsHalves(b, c, n);
      XorBitsHalves(a, b, n);
      XorBitsAssoc(a / 2, b / 2, c / 2, n - 1);
      assert XorBits(a / 2, bc / 2, n - 1) == XorBits(ab / 2, c / 2, n - 1);
      assert a % 2 == bc % 2 <==> ab % 2 == c % 2;
    }
  }

  /** Exclusive or with 1 flips the lowest bit. */
  lemma XorBitsOne(a: nat, n: nat)
    requires 1 <= n && a < Pow2(n)
    ensures XorBits(a, 1, n) == if a % 2 == 0 then a + 1 else a - 1
  {
    XorBitsZero(a / 2, n - 1);
  }

  lemma XorComm(a: byte, b: byte)
    ensures XorByte(a, b) == XorByte(b, a)
  {
    XorBitsComm(a as int, b as int, 8);
  }

  lemma XorAssoc(a: byte, b: byte, c: byte)
    ensures XorByte(a, XorByte(b, c)) == XorByte(XorByte(a, b), c)
  {
    XorBitsAssoc(a as int, b as int, c as int, 8);
  }

  lemma XorSelf(a: byte)
    ensures XorByte(a, a) == 0
  {
    XorBitsSelf(a as int, 8);
  }

  lemma XorZero(a: byte)
    ensures XorByte(a, 0) == a
  {
    XorBitsZero(a as int, 8);
  }

  /** `a ^ 0x1` flips the least-significant bit of `a`. */
  lemma XorOne(a: byte)
    ensures XorByte(a, 1) == if a % 2 == 0 then a + 1 else a - 1
  {
    XorBitsOne(a as int, 8);
  }

  /** XOR-ing the same byte in twice cancels it. */
  lemma XorCancelRight(a: byte, b: byte)
    ensures XorByte(XorByte(a, b), b) == a
  {
    XorAssoc(a, b, b);
    XorSelf(b);
    XorZero(a);
  }

  lemma XorCancelLeft(a: byte, b: byte)
    ensures XorByte(a, XorByte(b, a)) == b
  {
    XorComm(a, XorByte(b, a));
    XorCancelRight(b, a);
  }

  /** Solving `a ^ x == c` for `x`: the one solution is `a ^ c`. */
  lemma XorSolve(a: byte, x: byte, c: byte)
    ensures XorByte(a, x) == c <==> x == XorByte(a, c)
  {
    XorComm(a, x);
    XorCancelRight(x, a);
    XorComm(a, c);
    XorCancelRight(c, a);
  }

  /** Moving the known operand of `a ^ x == c` to the other side. */
  lemma XorMove(a: byte, x: byte, c: byte)
    ensures XorByte(a, x) == c <==> XorByte(x, c) == a
  {
    XorSolve(a, x, c);
    XorComm(x, c);
    XorSolve(c, x, a);
    XorComm(a, c);
  }

  /** Moving a mask from one operand of an exclusive or to its result. */
  lemma XorMaskByte(a: byte, m: byte, b: byte)
    ensures XorByte(a, XorByte(m, b)) == XorByte(XorByte(a, b), m)
  {
    XorComm(m, b);
    XorAssoc(a, b, m);
  }
}
