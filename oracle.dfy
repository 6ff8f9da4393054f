/** The padding-validity oracle: it owns the secret key and answers, for an
    IV and one ciphertext block, only whether CBC decryption yields a block
    with valid PKCS#7 padding. */
module PaddingOracle {
  import opened Bytes
  import opened Blocks
  import opened Cbc

  /** The keyed oracle. `decrypt` is raw single-block decryption under the
      secret key (AES-128 in the original); the attack never calls it, it only
      calls `Test`. */
  datatype Oracle = Oracle(decrypt: Block -> Block) {

    /** The plaintext block that CBC decryption produces from block `c` when
        `iv` is its predecessor (section 6.2 of NIST SP 800-38A). */
    function Plain(iv: Block, c: Block): Block {
      Xor(decrypt(c), iv)
    }

    /** The oracle's only answer: whether that plaintext is validly padded. */
    predicate Test(iv: Block, c: Block) {
      Pkcs7Valid(Plain(iv, c))
    }

    /** What `test` answers for a one-block message: `Plain` is the CBC
        decryption of `c` under `iv`, and the answer is yes exactly when that
        block is validly padded, its last byte n in 1..16 repeated in each of
        its last n bytes. */
    lemma TestOneBlock(iv: Block, c: Block)
      ensures DecryptFrom(decrypt, [iv, c], 1) == Plain(iv, c)
      ensures Test(iv, c) <==> var p := Plain(iv, c);
        1 <= PadLen(p) <= 16 && forall j :: 16 - PadLen(p) <= j < 16 ==> p[j] == p[15]
    {
      assert DecryptFrom(decrypt, [iv, c], 1) == Plain(iv, c) + [];
      Pkcs7ValidIff(Plain(iv, c));
    }

    /** CBC malleability: XOR-ing a mask into the predecessor XORs the same
        mask into the decrypted block, whatever the key. */
    lemma Malleable(iv: Block, c: Block, mask: Block)
      ensures Plain(Xor(mask, iv), c) == Xor(Plain(iv, c), mask)
    {
      XorMask(decrypt(c), iv, mask);
    }
  }
}
