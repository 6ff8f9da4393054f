/** Cipher-block chaining over an abstract block cipher (section 6.2 of NIST
    SP 800-38A), with PKCS#7 message padding (section 6.3 of RFC 5652): the
    shape of the attack's input, and what the attack is proved to recover. */
module Cbc {
  import opened Bytes
  import opened Blocks

  /** The full 16-byte chunks of a byte string, in order; a trailing partial
      chunk is dropped, as `chunks_exact(16)` drops it. */
  function Chunks(bytes: seq<byte>): (r: seq<Block>)
    ensures |r| == |bytes| / 16
    ensures forall i :: 0 <= i < |r| ==> r[i] == bytes[16 * i .. 16 * i + 16]
    decreases |bytes|
  {
    if |bytes| < 16 then []
    else
      var rest := Chunks(bytes[16..]);
      assert forall i :: 0 <= i < |rest| ==> rest[i] == bytes[16 * (i + 1) .. 16 * (i + 1) + 16];
      [bytes[..16]] + rest
  }

  /** The block chain `[iv, c_1, ..., c_n]` that the attack walks. */
  function Chain(iv: Block, cipher: seq<byte>): (blocks: seq<Block>)
    ensures |blocks| == 1 + |cipher| / 16 && blocks[0] == iv
    ensures forall i :: 1 <= i < |blocks| ==> blocks[i] == cipher[16 * (i - 1) .. 16 * i]
  {
    [iv] + Chunks(cipher)
  }

  /** CBC decryption of the blocks from index `from` on: each block is
      decrypted and XOR-ed with its predecessor. No padding is removed. */
  function DecryptFrom(decrypt: Block -> Block, blocks: seq<Block>, from: nat): (p: seq<byte>)
    requires 1 <= from <= |blocks|
    ensures |p| == 16 * (|blocks| - from)
    ensures forall i :: from <= i < |blocks| ==>
      p[16 * (i - from) .. 16 * (i - from) + 16] == Xor(decrypt(blocks[i]), blocks[i - 1])
    decreases |blocks| - from
  {
    if from == |blocks| then []
    else
      var head := Xor(decrypt(blocks[from]), blocks[from - 1]);
      var rest := DecryptFrom(decrypt, blocks, from + 1);
      assert forall i :: from < i < |blocks| ==>
        (head + rest)[16 * (i - from) .. 16 * (i - from) + 16] == Xor(decrypt(blocks[i]), blocks[i - 1]);
      head + rest
  }

  /** The last block of a chain. */
  function Last(blocks: seq<Block>): Block
    requires |blocks| >= 1
  {
    blocks[|blocks| - 1]
  }

  /** The block before the last one. */
  function NextToLast(blocks: seq<Block>): Block
    requires |blocks| >= 2
  {
    blocks[|blocks| - 2]
  }

  /** PKCS#7 padding of a message to whole blocks, as `encrypt_vec` applies it
      before encrypting: k = 16 - |msg| % 16 bytes (1 to 16), each holding k. */
  function Pad(msg: seq<byte>): (padded: seq<byte>)
    ensures |padded| % 16 == 0 && |msg| < |padded| <= |msg| + 16
    ensures padded[..|msg|] == msg
    ensures forall j :: |msg| <= j < |padded| ==> padded[j] as int == |padded| - |msg|
  {
    var k := 16 - |msg| % 16;
    msg + seq(k, _ => k as byte)
  }

  /** CBC encryption under raw block encryption `encrypt`, chaining from `prev`:
      ciphertext block i + 1 of the chain is the encryption of plaintext block
      i XOR-ed with ciphertext block i, block 0 being `prev`. */
  function Encrypt(encrypt: Block -> Block, prev: Block, p: seq<byte>): (c: seq<byte>)
    requires |p| % 16 == 0
    ensures |c| == |p|
    ensures forall i :: 0 <= i < |p| / 16 ==>
      Chain(prev, c)[i + 1] == encrypt(Xor(Chunks(p)[i], Chain(prev, c)[i]))
    decreases |p|
  {
    if p == [] then []
    else
      var c1 := encrypt(Xor(p[..16], prev));
      var rest := Encrypt(encrypt, c1, p[16..]);
      var c := c1 + rest;
      assert c[..16] == c1 && c[16..] == rest;
      assert Chain(prev, c) == [prev] + Chain(c1, rest);
      assert Chunks(p) == [p[..16]] + Chunks(p[16..]);
      c
  }

  /** Padding keeps the message as a prefix, reaches a whole number of blocks,
      and leaves a last block that is validly padded. */
  lemma PadShape(msg: seq<byte>)
    ensures |Pad(msg)| % 16 == 0 && |msg| < |Pad(msg)| <= |msg| + 16
    ensures Pad(msg)[..|msg|] == msg
    ensures Pkcs7Valid(Pad(msg)[|Pad(msg)| - 16..])
    ensures PadLen(Pad(msg)[|Pad(msg)| - 16..]) == 16 - |msg| % 16
  {
    var k := 16 - |msg| % 16;
    var p := Pad(msg);
    var last: Block := p[|p| - 16..];
    assert last[15] == p[|p| - 1] == k as byte;
    forall j | 16 - k <= j < 16 ensures last[j] == last[15] {
      assert last[j] == p[|p| - 16 + j];
    }
    RunMakesValid(last);
  }

  /** Decrypting from index k + 1 of a chain is decrypting from index k of its tail. */
  lemma {:induction false} DecryptFromTail(decrypt: Block -> Block, blocks: seq<Block>, k: nat)
    requires 1 <= k < |blocks|
    ensures DecryptFrom(decrypt, blocks, k + 1) == DecryptFrom(decrypt, blocks[1..], k)
    decreases |blocks| - k
  {
    if k + 1 < |blocks| {
      DecryptFromTail(decrypt, blocks, k + 1);
    }
  }

  /** The last 16 bytes of a decryption are the last plaintext block. */
  lemma {:induction false} DecryptFromLast(decrypt: Block -> Block, blocks: seq<Block>, from: nat)
    requires 1 <= from < |blocks|
    ensures var p := DecryptFrom(decrypt, blocks, from); p[|p| - 16..] == Xor(decrypt(Last(blocks)), NextToLast(blocks))
    decreases |blocks| - from
  {
    var p := DecryptFrom(decrypt, blocks, from);
    var head := Xor(decrypt(blocks[from]), blocks[from - 1]);
    if from + 1 < |blocks| {
      DecryptFromLast(decrypt, blocks, from + 1);
      var rest := DecryptFrom(decrypt, blocks, from + 1);
      assert p == head + rest;
      assert p[|p| - 16..] == rest[|rest| - 16..];
    } else {
      assert p == head + [];
    }
  }

  /** Round trip: when `decrypt` inverts `encrypt`, CBC decryption of a CBC
      encryption gives back the (padded) plaintext. */
  lemma {:induction false} DecryptEncrypt(encrypt: Block -> Block, decrypt: Block -> Block, iv: Block, p: seq<byte>)
    requires |p| % 16 == 0
    requires forall b :: decrypt(encrypt(b)) == b
    ensures DecryptFrom(decrypt, Chain(iv, Encrypt(encrypt, iv, p)), 1) == p
    decreases |p|
  {
    var c := Encrypt(encrypt, iv, p);
    var blocks := Chain(iv, c);
    if p != [] {
      var c1: Block := encrypt(Xor(p[..16], iv));
      var head: seq<byte> := c1;
      var rest: seq<byte> := Encrypt(encrypt, c1, p[16..]);
      assert c == head + rest;
      assert blocks[1..] == Chain(c1, rest) by {
        assert c[16..] == rest;
      }
      DecryptEncrypt(encrypt, decrypt, c1, p[16..]);
      DecryptFromTail(decrypt, blocks, 1);
      XorCancel(p[..16], iv);
      assert Xor(decrypt(blocks[1]), blocks[0]) == p[..16];
      assert DecryptFrom(decrypt, blocks, 1) == p[..16] + p[16..];
    }
  }
}
