/** The demonstration that `main` runs: a message is encrypted under a key
    the adversary never sees, and the adversary recovers it through the
    padding oracle alone. */
module Demo {
  import opened Bytes
  import opened Blocks
  import opened PaddingOracle
  import opened Cbc
  import opened Adversary

  /** `main` from the encryption on: the message is PKCS#7-padded and
      CBC-encrypted from `iv` (`encrypt_vec`), an oracle is keyed with the
      same key, and the adversary attacks the ciphertext. `encrypt` and
      `decrypt` are raw AES-128 under the derived key, of which only the
      inverse property is required. The attack recovers the padded message,
      within 257 oracle queries per plaintext byte plus 16. The terminal
      display, which in the original can abort the run on a message that is
      not ASCII, is not part of this model. */
  method RunDemo(encrypt: Block -> Block, decrypt: Block -> Block, iv: Block, msg: seq<byte>)
    returns (r: Result<seq<byte>>, ghost queries: nat)
    requires forall b :: decrypt(encrypt(b)) == b
    ensures r == Success(Pad(msg))
    ensures queries <= 16 + |Pad(msg)| * 257
  {
    PadShape(msg);
    var cipher := Encrypt(encrypt, iv, Pad(msg));
    var oracle := Oracle(decrypt);
    DecryptEncrypt(encrypt, decrypt, iv, Pad(msg));
    DecryptFromLast(decrypt, Chain(iv, cipher), 1);
    r, queries := BreakCiphertext(oracle, iv, cipher);
  }
}
