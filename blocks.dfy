/** Sixteen-byte cipher blocks, byte-wise XOR and PKCS#7 padding of one block
    (section 6.3 of RFC 5652). */
module Blocks {
  import opened Bytes

  /** One AES block: exactly 16 bytes. */
  type Block = s: seq<byte> | |s| == 16 witness seq(16, _ => 0)

  /** The all-zero block (`vec![0u8; 16]`). */
  function Zero(): Block {
    seq(16, _ => 0)
  }

  /** Byte-wise XOR of two blocks. */
  function Xor(a: Block, b: Block): Block
  {
    seq(16, j requires 0 <= j < 16 => XorByte(a[j], b[j]))
  }

  /** `b` with the least-significant bit of byte `i` flipped (`b[i] ^= 0x1`). */
  function FlipLow(b: Block, i: nat): (r: Block)
    requires i < 16
    ensures forall j :: 0 <= j < 16 && j != i ==> r[j] == b[j]
    ensures r[i] == if b[i] % 2 == 0 then b[i] + 1 else b[i] - 1
  {
    XorOne(b[i]);
    b[i := XorByte(b[i], 1)]
  }

  /** The padding length a block announces: the value of its last byte. */
  function PadLen(p: Block): nat {
    p[15] as int
  }

  /** The last n bytes of `p` all hold `v`. */
  predicate RunOf(p: Block, v: byte, n: nat)
    requires n <= 16
  {
    n == 0 || (p[16 - n] == v && RunOf(p, v, n - 1))
  }

  /** PKCS#7 padding of a final 16-byte block: the last byte holds a length n
      with 1 <= n <= 16, and each of the last n bytes holds n. */
  predicate Pkcs7Valid(p: Block) {
    1 <= PadLen(p) <= 16 && RunOf(p, p[15], PadLen(p))
  }

  /** The padding check written out: the last byte holds a length n in
      1..16, and every one of the last n bytes holds n. */
  lemma Pkcs7ValidIff(p: Block)
    ensures Pkcs7Valid(p) <==>
      1 <= PadLen(p) <= 16 && forall j :: 16 - PadLen(p) <= j < 16 ==> p[j] == p[15]
  {
    if Pkcs7Valid(p) {
      forall j | 16 - PadLen(p) <= j < 16 ensures p[j] == p[15] {
        RunOfAt(p, p[15], PadLen(p), j);
      }
    } else if 1 <= PadLen(p) <= 16 {
      if forall j :: 16 - PadLen(p) <= j < 16 ==> p[j] == p[15] {
        RunOfAll(p, p[15], PadLen(p));
      }
    }
  }

  /** Every byte of a run holds the run's value. */
  lemma {:induction false} RunOfAt(p: Block, v: byte, n: nat, j: nat)
    requires n <= 16 && RunOf(p, v, n) && 16 - n <= j < 16
    ensures p[j] == v
  {
    if j != 16 - n {
      RunOfAt(p, v, n - 1, j);
    }
  }

  /** A run is exactly a stretch of trailing bytes that all hold its value. */
  lemma {:induction false} RunOfAll(p: Block, v: byte, n: nat)
    requires n <= 16 && forall j :: 16 - n <= j < 16 ==> p[j] == v
    ensures RunOf(p, v, n)
  {
    if n > 0 {
      RunOfAll(p, v, n - 1);
    }
  }

  /** Each byte of the announced run of a valid block holds the length. */
  lemma ValidRunAt(p: Block, j: nat)
    requires Pkcs7Valid(p) && 16 - PadLen(p) <= j < 16
    ensures p[j] == p[15]
  {
    RunOfAt(p, p[15], PadLen(p), j);
  }

  /** A block is valid once its length is in range and its run matches. */
  lemma RunMakesValid(p: Block)
    requires 1 <= PadLen(p) <= 16
    requires forall j :: 16 - PadLen(p) <= j < 16 ==> p[j] == p[15]
    ensures Pkcs7Valid(p)
  {
    RunOfAll(p, p[15], PadLen(p));
  }

  /** XOR-ing a mask into one operand of a XOR moves it to the result: this is
      what lets a forged predecessor block steer a CBC decryption. */
  lemma XorMask(a: Block, b: Block, mask: Block)
    ensures Xor(a, Xor(mask, b)) == Xor(Xor(a, b), mask)
  {
    forall j | 0 <= j < 16
      ensures Xor(a, Xor(mask, b))[j] == Xor(Xor(a, b), mask)[j]
    {
      XorMaskByte(a[j], mask[j], b[j]);
    }
  }

  /** XOR with the same block twice is the identity. */
  lemma XorCancel(a: Block, b: Block)
    ensures Xor(Xor(a, b), b) == a
  {
    forall j | 0 <= j < 16 ensures Xor(Xor(a, b), b)[j] == a[j] {
      XorCancelRight(a[j], b[j]);
    }
  }

  /** Flipping a bit of a valid padding byte breaks the padding: the block is
      valid only while every byte of its announced run is left alone. */
  lemma FlipInsideRunBreaksPadding(p: Block, i: nat)
    requires Pkcs7Valid(p) && 16 - PadLen(p) <= i < 16
    ensures !Pkcs7Valid(FlipLow(p, i))
  {
    var q := FlipLow(p, i);
    ValidRunAt(p, i);
    if i < 15 {
      // the announced length is unchanged, and byte i of the run no longer matches
      if Pkcs7Valid(q) {
        ValidRunAt(q, i);
      }
    } else if PadLen(p) >= 2 {
      // the announced length is still at least 2, so byte 14 must match it, but it holds the old length
      ValidRunAt(p, 14);
      if Pkcs7Valid(q) {
        ValidRunAt(q, 14);
      }
    }
  }
}
