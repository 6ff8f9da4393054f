/** The padding-oracle attack engine: padding-length discovery, byte-at-a-time
    breaking of one block, and the back-to-front chaining over all blocks. The
    engine sees the oracle only through `Oracle.Test`; every oracle call is
    counted in a ghost out-parameter `queries`. */
module Adversary {
  import opened Bytes
  import opened Blocks
  import opened PaddingOracle
  import opened Cbc

  datatype Option<T> = None | Some(value: T)

  /** Why an attack stops without a plaintext: each is a panic of the original. */
  datatype AttackError =
    | TooShort   // no full ciphertext block: `split_last().unwrap()` panics
    | NoPadding  // every prefix flip kept the padding valid: `determine_padding` gave None
    | NoByte     // no candidate byte was accepted: `break_block_byte` gave None

  datatype Result<T> = Success(value: T) | Failure(error: AttackError)

  // ---------------------------------------------------------------------------
  // Padding-length discovery

  /** `c` with the low bit of each of its first `n` bytes flipped. */
  function FlipPrefix(c: Block, n: nat): Block
    requires n <= 16
  {
    seq(16, j requires 0 <= j < 16 => if j < n then XorByte(c[j], 1) else c[j])
  }

  /** The oracle's answer once bytes 0 .. n-1 of the next-to-last block are flipped. */
  predicate PrefixProbe(oracle: Oracle, c1: Block, c2: Block, n: nat)
    requires n <= 16
  {
    oracle.Test(FlipPrefix(c1, n), c2)
  }

  /** Flipping one more byte extends the flipped prefix by one. */
  lemma FlipPrefixStep(c: Block, i: nat)
    requires i < 16
    ensures FlipPrefix(c, i + 1) == FlipPrefix(c, i)[i := XorByte(FlipPrefix(c, i)[i], 1)]
  {
  }

  lemma XorFlipPrefixAt(d: Block, c: Block, n: nat, j: nat)
    requires n <= 16 && j < 16
    ensures Xor(d, FlipPrefix(c, n))[j] == FlipPrefix(Xor(d, c), n)[j]
  {
    XorAssoc(d[j], c[j], 1);
  }

  /** Flipping a prefix of one XOR operand flips the same prefix of the result. */
  lemma XorFlipPrefix(d: Block, c: Block, n: nat)
    requires n <= 16
    ensures Xor(d, FlipPrefix(c, n)) == FlipPrefix(Xor(d, c), n)
  {
    forall j | 0 <= j < 16 ensures Xor(d, FlipPrefix(c, n))[j] == FlipPrefix(Xor(d, c), n)[j] {
      XorFlipPrefixAt(d, c, n, j);
    }
  }

  /** Flips that stay before the padding run leave the padding valid. */
  lemma FlipPrefixKeepsPadding(p: Block, n: nat)
    requires Pkcs7Valid(p) && n <= 16 - PadLen(p)
    ensures Pkcs7Valid(FlipPrefix(p, n)) && PadLen(FlipPrefix(p, n)) == PadLen(p)
  {
    var q := FlipPrefix(p, n);
    assert q[15] == p[15];
    forall j | 16 - PadLen(q) <= j < 16 ensures q[j] == q[15] {
      ValidRunAt(p, j);
    }
    RunMakesValid(q);
  }

  /** The flip that reaches the first byte of the padding run breaks it. */
  lemma FlipPrefixBreaksPadding(p: Block)
    requires Pkcs7Valid(p)
    ensures !Pkcs7Valid(FlipPrefix(p, 17 - PadLen(p)))
  {
    var k := PadLen(p);
    FlipPrefixKeepsPadding(p, 16 - k);
    FlipPrefixStep(p, 16 - k);
    FlipInsideRunBreaksPadding(FlipPrefix(p, 16 - k), 16 - k);
  }

  /** When the last plaintext block carries valid padding of length k, the
      probes that flip only bytes before the padding are accepted, and the
      probe that also flips the first padding byte is rejected. */
  lemma PrefixProbesOfValidPadding(oracle: Oracle, c1: Block, c2: Block)
    requires Pkcs7Valid(oracle.Plain(c1, c2))
    ensures forall n :: 0 <= n <= 16 - PadLen(oracle.Plain(c1, c2)) ==> PrefixProbe(oracle, c1, c2, n)
    ensures !PrefixProbe(oracle, c1, c2, 17 - PadLen(oracle.Plain(c1, c2)))
  {
    var d := oracle.decrypt(c2);
    var p := oracle.Plain(c1, c2);
    var k := PadLen(p);
    forall n | 0 <= n <= 16 - k ensures PrefixProbe(oracle, c1, c2, n) {
      XorFlipPrefix(d, c1, n);
      FlipPrefixKeepsPadding(p, n);
    }
    XorFlipPrefix(d, c1, 17 - k);
    FlipPrefixBreaksPadding(p);
  }

  /** A scan whose probes 1 .. 16-k were accepted and whose probe 17-k was
      rejected has found the padding length k of a validly padded block. */
  lemma PaddingFound(oracle: Oracle, c1: Block, c2: Block, k: nat)
    requires 1 <= k <= 16
    requires forall n :: 1 <= n <= 16 - k ==> PrefixProbe(oracle, c1, c2, n)
    requires !PrefixProbe(oracle, c1, c2, 17 - k)
    ensures Pkcs7Valid(oracle.Plain(c1, c2)) ==> k == PadLen(oracle.Plain(c1, c2))
  {
    if Pkcs7Valid(oracle.Plain(c1, c2)) {
      PrefixProbesOfValidPadding(oracle, c1, c2);
    }
  }

  /** A scan whose sixteen probes were all accepted cannot have come from a
      validly padded block. */
  lemma NoPaddingFound(oracle: Oracle, c1: Block, c2: Block)
    requires forall n :: 1 <= n <= 16 ==> PrefixProbe(oracle, c1, c2, n)
    ensures !Pkcs7Valid(oracle.Plain(c1, c2))
  {
    if Pkcs7Valid(oracle.Plain(c1, c2)) {
      PrefixProbesOfValidPadding(oracle, c1, c2);
    }
  }

  /** `determine_padding`: flips the low bit of bytes 0, 1, ... of a copy of the
      next-to-last block, cumulatively, querying after each flip, and stops at
      the first rejection. */
  method DeterminePadding(oracle: Oracle, blocks: seq<Block>) returns (r: Option<nat>, ghost queries: nat)
    requires |blocks| >= 2
    ensures r.Some? ==> 1 <= r.value <= 16
    // every probe before the one that stopped the scan was accepted ...
    ensures r.Some? ==> forall n :: 1 <= n <= 16 - r.value ==>
      PrefixProbe(oracle, NextToLast(blocks), Last(blocks), n)
    // ... and the one that stopped it was rejected
    ensures r.Some? ==> !PrefixProbe(oracle, NextToLast(blocks), Last(blocks), 17 - r.value)
    ensures r.None? ==> forall n :: 1 <= n <= 16 ==>
      PrefixProbe(oracle, NextToLast(blocks), Last(blocks), n)
    ensures queries == if r.Some? then 17 - r.value else 16
    // against a validly padded last block, the padding length is found
    ensures Pkcs7Valid(oracle.Plain(NextToLast(blocks), Last(blocks))) ==>
      r == Some(PadLen(oracle.Plain(NextToLast(blocks), Last(blocks))))
  {
    var c2 := Last(blocks);
    ghost var c1 := NextToLast(blocks);
    var c := new byte[16](j requires 0 <= j < 16 => NextToLast(blocks)[j]);
    assert c[..] == FlipPrefix(c1, 0);
    var i := 0;
    queries := 0;
    while true
      invariant 0 <= i < 16
      invariant c[..] == FlipPrefix(c1, i)
      invariant queries == i
      invariant forall n :: 1 <= n <= i ==> PrefixProbe(oracle, c1, c2, n)
      decreases 16 - i
    {
      c[i] := XorByte(c[i], 1);
      FlipPrefixStep(c1, i);
      assert c[..] == FlipPrefix(c1, i + 1);
      queries := queries + 1;
      if !oracle.Test(c[..], c2) {
        PaddingFound(oracle, c1, c2, 16 - i);
        return Some(16 - i), queries;
      }
      assert PrefixProbe(oracle, c1, c2, i + 1);
      assert forall n :: 1 <= n <= i + 1 ==> PrefixProbe(oracle, c1, c2, n);
      i := i + 1;
      if i >= 16 {
        NoPaddingFound(oracle, c1, c2);
        return None, queries;
      }
    }
  }

  // ---------------------------------------------------------------------------
  // Byte-at-a-time block breaking

  /** The padding value the attack forces once `known` trailing bytes are known. */
  function NewPadding(known: nat): byte
    requires known < 16
  {
    (known + 1) as byte
  }

  /** Byte j of `delta` before the known plaintext is XOR-ed in: 0 before the
      byte under attack, the candidate `x` at it, the new padding after it. */
  function Unmasked(known: nat, x: byte, j: nat): byte
    requires known < 16
  {
    if j < 15 - known then 0 else if j == 15 - known then x else NewPadding(known)
  }

  /** The mask `delta` for candidate `x`. */
  function Delta(m2: Block, known: nat, x: byte): Block
    requires known < 16
  {
    seq(16, j requires 0 <= j < 16 => XorByte(Unmasked(known, x, j), m2[j]))
  }

  /** The forged predecessor block `delta XOR c1` sent to the oracle. */
  function Forged(c1: Block, m2: Block, known: nat, x: byte): Block
    requires known < 16
  {
    Xor(Delta(m2, known, x), c1)
  }

  /** The first query made for candidate `x`. */
  predicate FirstProbe(oracle: Oracle, c1: Block, c2: Block, m2: Block, known: nat, x: byte)
    requires known < 16
  {
    oracle.Test(Forged(c1, m2, known, x), c2)
  }

  /** Whether candidate `x` is kept: the forged block is accepted and, when no
      byte is known yet, so is the forged block with byte 14 (the byte before
      the one under attack) flipped. */
  predicate Accepts(oracle: Oracle, c1: Block, c2: Block, m2: Block, known: nat, x: byte)
    requires known < 16
  {
    FirstProbe(oracle, c1, c2, m2, known, x) &&
    (known == 0 ==> oracle.Test(FlipLow(Forged(c1, m2, known, x), 14), c2))
  }

  /** The candidates that pass the first probe, as a predicate on bytes. */
  ghost function FirstPasses(oracle: Oracle, c1: Block, c2: Block, m2: Block, known: nat): byte -> bool {
    x => known < 16 && FirstProbe(oracle, c1, c2, m2, known, x)
  }

  /** The oracle queries spent on candidates 0 .. n-1 when none of them is
      kept: one each, plus a second one for each candidate that passes the
      first probe when `twice` holds. */
  ghost function QueryCount(passes: byte -> bool, twice: bool, n: nat): nat
    requires n <= 256
  {
    if n == 0 then 0
    else
      var step := if twice && passes((n - 1) as byte) then 2 else 1;
      QueryCount(passes, twice, n - 1) + step
  }

  /** Each candidate costs one or two queries, and exactly one without second probes. */
  lemma {:induction false} QueryCountBounds(passes: byte -> bool, twice: bool, n: nat)
    requires n <= 256
    ensures n <= QueryCount(passes, twice, n) <= 2 * n
    ensures !twice ==> QueryCount(passes, twice, n) == n
  {
    if n > 0 {
      QueryCountBounds(passes, twice, n - 1);
    }
  }

  /** When at most two candidates, a and b, pass the first probe, the
      candidates below n cost n queries plus one for each of a and b below n. */
  lemma {:induction false} QueryCountOfTwoPasses(passes: byte -> bool, n: nat, a: byte, b: byte)
    requires n <= 256
    requires forall y: byte :: passes(y) ==> y == a || y == b
    ensures QueryCount(passes, true, n) <=
      n + (if a as int < n then 1 else 0) + (if b as int < n && b != a then 1 else 0)
  {
    if n > 0 {
      QueryCountOfTwoPasses(passes, n - 1, a, b);
    }
  }

  /** When exactly two candidates pass the first probe, candidates `0 .. n-1`
      cost exactly `n` queries plus one for each of those two below `n`. */
  lemma {:induction false} QueryCountOfExactlyTwoPasses(passes: byte -> bool, n: nat, a: byte, b: byte)
    requires n <= 256 && a != b
    requires forall y: byte :: passes(y) <==> y == a || y == b
    ensures QueryCount(passes, true, n) ==
      n + (if a as int < n then 1 else 0) + (if b as int < n then 1 else 0)
  {
    if n > 0 {
      QueryCountOfExactlyTwoPasses(passes, n - 1, a, b);
    }
  }

  /** `m2` holds the plaintext `p` in its last `known` bytes and zeros before. */
  ghost predicate SolvedSuffix(p: Block, m2: Block, known: nat) {
    forall j :: 0 <= j < 16 ==> m2[j] == if j < 16 - known then 0 else p[j]
  }

  /** Nothing known yet: the all-zero `m2` is a solved suffix of any block. */
  lemma NothingSolved(p: Block)
    ensures SolvedSuffix(p, Zero(), 0)
  {
  }

  /** What the oracle decrypts for candidate `x` when `m2` is a solved suffix
      of the true plaintext `p`: `p` before the attacked byte, `p XOR x` at it,
      and the forced padding value after it. */
  function Probed(p: Block, known: nat, x: byte): Block
    requires known < 16
  {
    seq(16, j requires 0 <= j < 16 => ProbedByte(p, known, x, j))
  }

  /** Byte j of `Probed(p, known, x)`. */
  function ProbedByte(p: Block, known: nat, x: byte, j: nat): byte
    requires known < 16 && j < 16
  {
    if j < 15 - known then p[j] else if j == 15 - known then XorByte(p[j], x) else NewPadding(known)
  }

  lemma ProbedPrefix(p: Block, known: nat, x: byte, j: nat)
    requires known < 16 && j < 15 - known
    ensures Probed(p, known, x)[j] == p[j]
  {
  }

  lemma ProbedAttacked(p: Block, known: nat, x: byte)
    requires known < 16
    ensures Probed(p, known, x)[15 - known] == XorByte(p[15 - known], x)
  {
  }

  lemma ProbedPadding(p: Block, known: nat, x: byte, j: nat)
    requires known < 16 && 15 - known < j < 16
    ensures Probed(p, known, x)[j] == NewPadding(known)
  {
  }

  lemma DeltaAt(m2: Block, known: nat, x: byte, j: nat)
    requires known < 16 && j < 16
    ensures Delta(m2, known, x)[j] == XorByte(Unmasked(known, x, j), m2[j])
  {
  }

  lemma XorDeltaAt(p: Block, m2: Block, known: nat, x: byte, j: nat)
    requires known < 16 && j < 16
    requires m2[j] == if j < 16 - known then 0 else p[j]
    ensures Xor(p, Delta(m2, known, x))[j] == Probed(p, known, x)[j]
  {
    DeltaAt(m2, known, x, j);
    if j < 15 - known {
      XorZero(0);
      XorZero(p[j]);
      ProbedPrefix(p, known, x, j);
    } else if j == 15 - known {
      XorZero(x);
      ProbedAttacked(p, known, x);
    } else {
      XorCancelLeft(p[j], NewPadding(known));
      ProbedPadding(p, known, x, j);
    }
  }

  /** XOR-ing the mask into the true plaintext gives the probed block. */
  lemma XorDelta(p: Block, m2: Block, known: nat, x: byte)
    requires known < 16 && SolvedSuffix(p, m2, known)
    ensures Xor(p, Delta(m2, known, x)) == Probed(p, known, x)
  {
    forall j | 0 <= j < 16 ensures Xor(p, Delta(m2, known, x))[j] == Probed(p, known, x)[j] {
      XorDeltaAt(p, m2, known, x, j);
    }
  }

  lemma ProbedValidOnlyIf(p: Block, known: nat, x: byte)
    requires 0 < known < 16 && Pkcs7Valid(Probed(p, known, x))
    ensures Probed(p, known, x)[15 - known] == NewPadding(known)
  {
    ProbedPadding(p, known, x, 15);
    ValidRunAt(Probed(p, known, x), 15 - known);
  }

  lemma ProbedValidIf(p: Block, known: nat, x: byte)
    requires 0 < known < 16 && Probed(p, known, x)[15 - known] == NewPadding(known)
    ensures Pkcs7Valid(Probed(p, known, x))
  {
    var q := Probed(p, known, x);
    ProbedPadding(p, known, x, 15);
    forall j | 15 - known <= j < 16 ensures q[j] == q[15] {
      if j > 15 - known {
        ProbedPadding(p, known, x, j);
      }
    }
    RunMakesValid(q);
  }

  /** With at least one byte known, the probed block is validly padded exactly
      when the attacked byte reads as the new padding value. */
  lemma ProbedValid(p: Block, known: nat, x: byte)
    requires 0 < known < 16
    ensures Pkcs7Valid(Probed(p, known, x)) <==> XorByte(p[15 - known], x) == NewPadding(known)
  {
    ProbedAttacked(p, known, x);
    if Pkcs7Valid(Probed(p, known, x)) {
      ProbedValidOnlyIf(p, known, x);
    }
    if Probed(p, known, x)[15 - known] == NewPadding(known) {
      ProbedValidIf(p, known, x);
    }
  }

  /** A block ending in 0x01 is validly padded. */
  lemma EndsInOne(b: Block)
    requires b[15] == 1
    ensures Pkcs7Valid(b)
  {
    RunMakesValid(b);
  }

  /** A valid block not ending in 0x01 has a padding run covering byte 14. */
  lemma LongPadding(b: Block)
    requires Pkcs7Valid(b) && b[15] != 1
    ensures 16 - PadLen(b) <= 14
  {
  }

  /** With no byte known, the candidate passes both probes exactly when the
      last byte decrypts to 0x01. */
  lemma ProbedLastValid(p: Block, x: byte)
    ensures Pkcs7Valid(Probed(p, 0, x)) && Pkcs7Valid(FlipLow(Probed(p, 0, x), 14)) <==> XorByte(p[15], x) == 1
  {
    var q := Probed(p, 0, x);
    ProbedAttacked(p, 0, x);
    if q[15] == 1 {
      EndsInOne(q);
      EndsInOne(FlipLow(q, 14));
    } else if Pkcs7Valid(q) {
      // a longer padding covers byte 14, which the second probe disturbs
      LongPadding(q);
      FlipInsideRunBreaksPadding(q, 14);
    }
  }

  /** With no byte known, a candidate passing the first probe makes the last
      byte read 0x01, or reads as a longer padding whose length byte 14 holds. */
  lemma ProbedLastCandidates(p: Block, y: byte)
    requires Pkcs7Valid(Probed(p, 0, y))
    ensures XorByte(p[15], y) == 1 || XorByte(p[15], y) == p[14]
  {
    var q := Probed(p, 0, y);
    ProbedAttacked(p, 0, y);
    ProbedPrefix(p, 0, y, 14);
    if q[15] != 1 {
      LongPadding(q);
      ValidRunAt(q, 14);
    }
  }

  lemma XorFlipLowAt(d: Block, f: Block, i: nat, j: nat)
    requires i < 16 && j < 16
    ensures Xor(d, FlipLow(f, i))[j] == FlipLow(Xor(d, f), i)[j]
  {
    if j == i {
      XorAssoc(d[i], f[i], 1);
    }
  }

  /** Flipping a byte of one XOR operand flips the same byte of the result. */
  lemma XorFlipLow(d: Block, f: Block, i: nat)
    requires i < 16
    ensures Xor(d, FlipLow(f, i)) == FlipLow(Xor(d, f), i)
  {
    forall j | 0 <= j < 16 ensures Xor(d, FlipLow(f, i))[j] == FlipLow(Xor(d, f), i)[j] {
      XorFlipLowAt(d, f, i, j);
    }
  }

  /** The forged predecessor makes the oracle decrypt the probed block. */
  lemma PlainOfForged(oracle: Oracle, c1: Block, c2: Block, m2: Block, known: nat, x: byte)
    requires known < 16 && SolvedSuffix(oracle.Plain(c1, c2), m2, known)
    ensures oracle.Plain(Forged(c1, m2, known, x), c2) == Probed(oracle.Plain(c1, c2), known, x)
  {
    oracle.Malleable(c1, c2, Delta(m2, known, x));
    XorDelta(oracle.Plain(c1, c2), m2, known, x);
  }

  /** The oracle's answers for candidate `x`, in terms of the probed block. */
  lemma ForgedProbes(oracle: Oracle, c1: Block, c2: Block, m2: Block, known: nat, x: byte)
    requires known < 16 && SolvedSuffix(oracle.Plain(c1, c2), m2, known)
    ensures FirstProbe(oracle, c1, c2, m2, known, x) == Pkcs7Valid(Probed(oracle.Plain(c1, c2), known, x))
    ensures oracle.Test(FlipLow(Forged(c1, m2, known, x), 14), c2) ==
      Pkcs7Valid(FlipLow(Probed(oracle.Plain(c1, c2), known, x), 14))
  {
    PlainOfForged(oracle, c1, c2, m2, known, x);
    XorFlipLow(oracle.decrypt(c2), Forged(c1, m2, known, x), 14);
  }

  /** With `known` trailing bytes solved, the one candidate kept is the one
      that turns the attacked byte into the new padding value, so the byte
      stored, `x ^ (known + 1)`, is the true plaintext byte. */
  lemma AcceptsExactlyTrueByte(oracle: Oracle, c1: Block, c2: Block, m2: Block, known: nat, x: byte)
    requires known < 16 && SolvedSuffix(oracle.Plain(c1, c2), m2, known)
    ensures Accepts(oracle, c1, c2, m2, known, x) <==>
      XorByte(x, NewPadding(known)) == oracle.Plain(c1, c2)[15 - known]
  {
    var p := oracle.Plain(c1, c2);
    ForgedProbes(oracle, c1, c2, m2, known, x);
    if known > 0 {
      ProbedValid(p, known, x);
    } else {
      ProbedLastValid(p, x);
    }
    XorMove(p[15 - known], x, NewPadding(known));
  }

  /** With `known` trailing bytes solved, some candidate is kept: the one
      that the true plaintext byte calls for. */
  lemma TrueByteAccepted(oracle: Oracle, c1: Block, c2: Block, m2: Block, known: nat) returns (t: byte)
    requires known < 16 && SolvedSuffix(oracle.Plain(c1, c2), m2, known)
    ensures Accepts(oracle, c1, c2, m2, known, t)
  {
    t := XorByte(oracle.Plain(c1, c2)[15 - known], NewPadding(known));
    XorCancelRight(oracle.Plain(c1, c2)[15 - known], NewPadding(known));
    AcceptsExactlyTrueByte(oracle, c1, c2, m2, known, t);
  }

  /** At most two bytes y make `last ^ y` read 0x01 or `before`. */
  lemma TwoSolutions(last: byte, before: byte, y: byte, a: byte, b: byte)
    ensures XorByte(a, 1) == last && XorByte(b, before) == last ==>
      (XorByte(last, y) == 1 || XorByte(last, y) == before) ==> y == a || y == b
  {
    XorSolve(last, y, 1);
    XorSolve(last, y, before);
    XorCancelRight(a, 1);
    XorCancelRight(b, before);
  }

  /** With no byte known, at most two candidates make the probed block
      valid: `a`, which makes the last byte read 0x01, and `b`, which makes it
      read as byte 14. */
  lemma ProbedLastTwoCandidates(p: Block, y: byte, a: byte, b: byte)
    requires Pkcs7Valid(Probed(p, 0, y))
    ensures XorByte(a, 1) == p[15] && XorByte(b, p[14]) == p[15] ==> y == a || y == b
  {
    ProbedLastCandidates(p, y);
    TwoSolutions(p[15], p[14], y, a, b);
  }

  /** With nothing solved yet, at most two candidates pass the first probe. */
  lemma FirstPassesOfSolvedSuffix(oracle: Oracle, c1: Block, c2: Block, m2: Block, y: byte, a: byte, b: byte)
    requires SolvedSuffix(oracle.Plain(c1, c2), m2, 0)
    requires FirstProbe(oracle, c1, c2, m2, 0, y)
    ensures var p := oracle.Plain(c1, c2); XorByte(a, 1) == p[15] && XorByte(b, p[14]) == p[15] ==> y == a || y == b
  {
    ForgedProbes(oracle, c1, c2, m2, 0, y);
    ProbedLastTwoCandidates(oracle.Plain(c1, c2), y, a, b);
  }

  /** Builds the mask `delta` for candidate `x` in a fresh 16-byte buffer:
      candidate and padding bytes first, then the known plaintext XOR-ed in. */
  method BuildDelta(m2: Block, known: nat, x: byte) returns (d: Block)
    requires known < 16
    ensures d == Delta(m2, known, x)
  {
    var breakIndex := 15 - known;
    var newPadding := NewPadding(known);
    var delta := new byte[16](_ => 0);
    delta[breakIndex] := x;
    for padI := breakIndex + 1 to 16
      invariant forall j :: 0 <= j < 16 ==> delta[j] == if j < padI then Unmasked(known, x, j) else 0
    {
      delta[padI] := newPadding;
    }
    for j := 0 to 16
      invariant forall k :: 0 <= k < j ==> delta[k] == XorByte(Unmasked(known, x, k), m2[k])
      invariant forall k :: j <= k < 16 ==> delta[k] == Unmasked(known, x, k)
    {
      delta[j] := XorByte(delta[j], m2[j]);
    }
    d := delta[..];
  }

  /** One pass of `break_block_byte`'s loop: builds `delta` for candidate
      `x`, forges the predecessor block and queries the oracle; when no byte
      is known yet and the query passes, queries again with byte 14 flipped. */
  method TryCandidate(oracle: Oracle, c1: Block, c2: Block, m2: Block, known: nat, x: byte)
    returns (valid: bool, ghost queries: nat)
    requires known < 16
    ensures valid == Accepts(oracle, c1, c2, m2, known, x)
    ensures queries == if known == 0 && FirstProbe(oracle, c1, c2, m2, known, x) then 2 else 1
  {
    var delta := BuildDelta(m2, known, x);
    var forged := Xor(delta, c1);
    queries := 1;
    valid := oracle.Test(forged, c2);
    if valid && known == 0 {
      var forgedPrime := FlipLow(forged, 15 - known - 1);
      queries := 2;
      valid := oracle.Test(forgedPrime, c2);
    }
  }

  /** `break_block_byte`: tries x = 0, 1, ..., 0xFF in turn and returns `m2`
      with byte `15 - known` set to `x ^ (known + 1)` for the first candidate
      kept, or None when none is kept. */
  method BreakBlockByte(oracle: Oracle, c1: Block, c2: Block, m2: Block, known: nat)
    returns (r: Option<Block>, ghost queries: nat)
    requires known < 16
    ensures r.None? ==> forall x: byte :: !Accepts(oracle, c1, c2, m2, known, x)
    ensures r.Some? ==> exists x: byte ::
      && Accepts(oracle, c1, c2, m2, known, x)
      && (forall y: byte :: y < x ==> !Accepts(oracle, c1, c2, m2, known, y))
      && r.value == m2[15 - known := XorByte(x, NewPadding(known))]
    // the candidates tried are 0 ..= 0xFF, or 0 ..= x for the candidate x kept
    ensures r.None? ==> queries == QueryCount(FirstPasses(oracle, c1, c2, m2, known), known == 0, 256)
    ensures r.Some? ==> queries == QueryCount(FirstPasses(oracle, c1, c2, m2, known), known == 0,
      XorByte(r.value[15 - known], NewPadding(known)) as int + 1)
    ensures queries <= if known == 0 then 512 else 256
    // against a solved suffix of the true plaintext, the true byte is recovered
    ensures SolvedSuffix(oracle.Plain(c1, c2), m2, known) ==>
      r.Some? && r.value == m2[15 - known := oracle.Plain(c1, c2)[15 - known]]
    ensures SolvedSuffix(oracle.Plain(c1, c2), m2, known) ==>
      queries <= if known == 0 then 258 else 256
  {
    var breakIndex := 15 - known;
    var newPadding := NewPadding(known);
    ghost var passes := FirstPasses(oracle, c1, c2, m2, known);
    var x: byte := 0;
    queries := 0;
    while true
      invariant forall y: byte :: y < x ==> !Accepts(oracle, c1, c2, m2, known, y)
      invariant queries == QueryCount(passes, known == 0, x as int)
      decreases 255 - x as int
    {
      var valid;
      ghost var q;
      valid, q := TryCandidate(oracle, c1, c2, m2, known, x);
      queries := queries + q;
      assert queries == QueryCount(passes, known == 0, x as int + 1);
      if valid {
        var plainByte := XorByte(x, newPadding);
        var solvedBlock: Block := m2[breakIndex := plainByte];
        r := Some(solvedBlock);
        XorCancelRight(x, newPadding);
        SolvedByte(oracle, c1, c2, m2, known, x, passes);
        return;
      }
      if x == 0xFF {
        r := None;
        forall y: byte ensures !Accepts(oracle, c1, c2, m2, known, y) {
          if y != x {
            assert y < x;
          }
        }
        QueryCountBounds(passes, known == 0, 256);
        if SolvedSuffix(oracle.Plain(c1, c2), m2, known) {
          var t := TrueByteAccepted(oracle, c1, c2, m2, known);
          assert false;
        }
        return;
      }
      forall y: byte | y <= x ensures !Accepts(oracle, c1, c2, m2, known, y) {
        if y != x {
          assert y < x;
        }
      }
      x := x + 1;
    }
  }

  /** The bounds `BreakBlockByte` promises once candidate `x` is kept: the
      byte stored is the true one, and the queries spent are at most 258 with
      no byte known, 256 otherwise. */
  lemma SolvedByte(oracle: Oracle, c1: Block, c2: Block, m2: Block, known: nat, x: byte, passes: byte -> bool)
    requires known < 16 && Accepts(oracle, c1, c2, m2, known, x)
    requires passes == FirstPasses(oracle, c1, c2, m2, known)
    ensures QueryCount(passes, known == 0, x as int + 1) <= if known == 0 then 512 else 256
    ensures SolvedSuffix(oracle.Plain(c1, c2), m2, known) ==>
      && XorByte(x, NewPadding(known)) == oracle.Plain(c1, c2)[15 - known]
      && QueryCount(passes, known == 0, x as int + 1) <= if known == 0 then 258 else 256
  {
    QueryCountBounds(passes, known == 0, x as int + 1);
    var p := oracle.Plain(c1, c2);
    if SolvedSuffix(p, m2, known) {
      AcceptsExactlyTrueByte(oracle, c1, c2, m2, known, x);
      if known == 0 {
        var a, b := XorByte(p[15], 1), XorByte(p[15], p[14]);
        XorCancelRight(p[15], 1);
        XorCancelRight(p[15], p[14]);
        forall y: byte | passes(y) ensures y == a || y == b {
          FirstPassesOfSolvedSuffix(oracle, c1, c2, m2, y, a, b);
        }
        QueryCountOfTwoPasses(passes, x as int + 1, a, b);
      }
    }
  }

  /** With no byte known, when the true plaintext ends in `02 FE`, candidate
      0xFC makes the probed block end in `02 02`: it passes the first probe
      but not the second. */
  lemma SpuriousCandidate(oracle: Oracle, c1: Block, c2: Block, m2: Block)
    requires SolvedSuffix(oracle.Plain(c1, c2), m2, 0)
    requires oracle.Plain(c1, c2)[14] == 0x02 && oracle.Plain(c1, c2)[15] == 0xFE
    ensures FirstProbe(oracle, c1, c2, m2, 0, 0xFC) && !Accepts(oracle, c1, c2, m2, 0, 0xFC)
  {
    var p := oracle.Plain(c1, c2);
    var q := Probed(p, 0, 0xFC);
    ProbedAttacked(p, 0, 0xFC);
    ProbedPrefix(p, 0, 0xFC, 14);
    assert XorByte(0xFE, 0xFC) == 2;
    RunMakesValid(q);
    ForgedProbes(oracle, c1, c2, m2, 0, 0xFC);
    AcceptsExactlyTrueByte(oracle, c1, c2, m2, 0, 0xFC);
    XorOne(0xFC);
  }

  /** With no byte known, when the true last plaintext byte is 0xFE, the one
      candidate kept is 0xFF. */
  lemma KeptCandidate(oracle: Oracle, c1: Block, c2: Block, m2: Block, x: byte)
    requires SolvedSuffix(oracle.Plain(c1, c2), m2, 0)
    requires oracle.Plain(c1, c2)[15] == 0xFE
    ensures Accepts(oracle, c1, c2, m2, 0, x) <==> x == 0xFF
  {
    AcceptsExactlyTrueByte(oracle, c1, c2, m2, 0, x);
    XorComm(x, 1);
    XorSolve(1, x, 0xFE);
    XorComm(1, 0xFE);
    XorOne(0xFE);
  }

  /** The costliest byte. With no byte known (`m2` all zero), let the
      plaintext end in `02 FE`. Candidates 0xFC and 0xFF both pass the first
      probe, and 0xFF is the only one kept, so candidates 0 ..= 0xFF cost 258
      queries: by the contract of `BreakBlockByte`, that is what recovering
      this byte costs. */
  lemma CostliestByte(oracle: Oracle, c1: Block, c2: Block, m2: Block)
    requires SolvedSuffix(oracle.Plain(c1, c2), m2, 0)
    requires oracle.Plain(c1, c2)[14] == 0x02 && oracle.Plain(c1, c2)[15] == 0xFE
    ensures FirstProbe(oracle, c1, c2, m2, 0, 0xFC) && !Accepts(oracle, c1, c2, m2, 0, 0xFC)
    ensures forall x: byte :: Accepts(oracle, c1, c2, m2, 0, x) <==> x == 0xFF
    ensures QueryCount(FirstPasses(oracle, c1, c2, m2, 0), true, 256) == 258
  {
    SpuriousCandidate(oracle, c1, c2, m2);
    forall x: byte ensures Accepts(oracle, c1, c2, m2, 0, x) <==> x == 0xFF {
      KeptCandidate(oracle, c1, c2, m2, x);
    }
    // the candidates passing the first probe are exactly 0xFC and 0xFF
    var passes := FirstPasses(oracle, c1, c2, m2, 0);
    XorOne(0xFF);
    assert XorByte(0xFC, 2) == 0xFE;
    forall y: byte ensures passes(y) <==> y == 0xFF || y == 0xFC {
      if passes(y) {
        FirstPassesOfSolvedSuffix(oracle, c1, c2, m2, y, 0xFF, 0xFC);
      } else {
        assert !Accepts(oracle, c1, c2, m2, 0, y);
      }
    }
    QueryCountOfExactlyTwoPasses(passes, 256, 0xFF, 0xFC);
  }

  // ---------------------------------------------------------------------------
  // Block-chaining orchestration

  /** The ciphertext has a full block and its last plaintext block is validly
      padded: what any CBC encryption of a PKCS#7-padded message yields. */
  ghost predicate WellPadded(oracle: Oracle, iv: Block, cipher: seq<byte>) {
    |cipher| >= 16 && Pkcs7Valid(oracle.Plain(NextToLast(Chain(iv, cipher)), Last(Chain(iv, cipher))))
  }

  /** The `m2` that `break_ciphertext_fancy` starts from: zeros, then `padding`
      copies of the byte `padding`. */
  method SeedPadding(padding: nat) returns (m2: Block)
    requires padding <= 16
    ensures forall j :: 0 <= j < 16 ==> m2[j] == if 16 - padding <= j then padding as byte else 0
  {
    m2 := Zero();
    for padI := 16 - padding to 16
      invariant forall j :: 0 <= j < 16 ==> m2[j] == if 16 - padding <= j < padI then padding as byte else 0
    {
      m2 := m2[padI := padding as byte];
    }
  }

  /** The seed for the padding length of a validly padded block is a solved
      suffix of that block: the padding bytes are known before any query. */
  lemma SeedSolvesLast(p: Block, m2: Block)
    requires Pkcs7Valid(p)
    requires forall j :: 0 <= j < 16 ==> m2[j] == if 16 - PadLen(p) <= j then PadLen(p) as byte else 0
    ensures SolvedSuffix(p, m2, PadLen(p))
  {
    forall j | 16 - PadLen(p) <= j < 16 ensures p[j] == p[15] {
      ValidRunAt(p, j);
    }
  }

  /** Storing the true byte extends a solved suffix by one byte. */
  lemma SolvedSuffixStep(p: Block, m2: Block, known: nat)
    requires known < 16 && SolvedSuffix(p, m2, known)
    ensures SolvedSuffix(p, m2[15 - known := p[15 - known]], known + 1)
  {
  }

  /** The inner `while padding < 16` loop of `break_ciphertext_fancy`: breaks
      the bytes of block `c2` from byte `15 - known` down to byte 0, storing
      each in `m2`, and gives up when a byte cannot be broken. */
  method BreakBlock(oracle: Oracle, c1: Block, c2: Block, m2: Block, known: nat)
    returns (r: Option<Block>, ghost queries: nat)
    requires known <= 16
    ensures queries <= (16 - known) * 512
    // only a byte attacked with no byte known can cost a second query per candidate
    ensures known > 0 ==> queries <= (16 - known) * 256
    // from a solved suffix of the true plaintext, the whole block is recovered
    ensures SolvedSuffix(oracle.Plain(c1, c2), m2, known) ==> r == Some(oracle.Plain(c1, c2))
    ensures SolvedSuffix(oracle.Plain(c1, c2), m2, known) ==>
      queries <= (16 - known) * 256 + (if known == 0 then 2 else 0)
  {
    ghost var p := oracle.Plain(c1, c2);
    ghost var solved := SolvedSuffix(p, m2, known);
    var m := m2;
    var padding := known;
    queries := 0;
    while padding < 16
      invariant known <= padding <= 16
      invariant queries <= (padding - known) * 512
      invariant known > 0 ==> queries <= (padding - known) * 256
      invariant solved ==> SolvedSuffix(p, m, padding)
      invariant solved ==> queries <= (padding - known) * 256 + (if known == 0 && padding > 0 then 2 else 0)
    {
      var broken;
      ghost var q;
      broken, q := BreakBlockByte(oracle, c1, c2, m, padding);
      queries := queries + q;
      if broken.None? {
        return None, queries;
      }
      if solved {
        SolvedSuffixStep(p, m, padding);
      }
      m := broken.value;
      padding := padding + 1;
    }
    if solved {
      assert forall j :: 0 <= j < 16 ==> m[j] == p[j];
      assert m == p;
    }
    return Some(m), queries;
  }

  /** The back-to-front loop of `break_ciphertext_fancy` over the chain
      `[c_0, ..., c_n]`: breaks block c_n starting from `seed` with `known`
      bytes known, then each earlier block from scratch, and prepends every
      finished block to the plaintext. */
  method BreakBlocks(oracle: Oracle, blocks: seq<Block>, seed: Block, known: nat)
    returns (r: Option<seq<byte>>, ghost queries: nat)
    requires |blocks| >= 2 && known <= 16
    ensures r.Some? ==> |r.value| == 16 * (|blocks| - 1)
    ensures queries <= (|blocks| - 1) * 8192
    // every earlier block starts from nothing known, which is always a solved suffix
    ensures known > 0 ==> queries <= (|blocks| - 1) * 4098
    // from a solved suffix of the last plaintext block, the whole plaintext is recovered
    ensures SolvedSuffix(oracle.Plain(NextToLast(blocks), Last(blocks)), seed, known) ==>
      r == Some(DecryptFrom(oracle.decrypt, blocks, 1))
    ensures SolvedSuffix(oracle.Plain(NextToLast(blocks), Last(blocks)), seed, known) ==>
      queries <= (|blocks| - 1) * 4098
  {
    var n := |blocks| - 1;
    ghost var solved := SolvedSuffix(oracle.Plain(NextToLast(blocks), Last(blocks)), seed, known);
    var m2, padding := seed, known;
    var plaintext: seq<byte> := [];
    queries := 0;
    for i := n downto 0
      invariant padding <= 16
      invariant i < n ==> padding == 0 && m2 == Zero()
      invariant i == n ==> padding == known
      invariant solved ==> plaintext == DecryptFrom(oracle.decrypt, blocks, i + 1)
      invariant |plaintext| == 16 * (n - i)
      invariant solved && i >= 1 ==> SolvedSuffix(oracle.Plain(blocks[i - 1], blocks[i]), m2, padding)
      invariant queries <= (n - i) * 8192 + padding * 512
      invariant known > 0 ==> queries <= (n - i) * 4098 + padding * 256
      invariant solved ==> queries <= (n - i) * 4098 + padding * 256 + (if padding == 0 then 0 else 2)
    {
      var broken;
      ghost var q;
      if padding == 0 && m2 == Zero() {
        NothingSolved(oracle.Plain(blocks[i], blocks[i + 1]));
      }
      broken, q := BreakBlock(oracle, blocks[i], blocks[i + 1], m2, padding);
      assert known > 0 ==> q <= 4098 - padding * 256;
      queries := queries + q;
      if broken.None? {
        return None, queries;
      }
      plaintext := broken.value + plaintext;
      m2 := Zero();
      padding := 0;
    }
    return Some(plaintext), queries;
  }

  /** `Adversary::break_ciphertext_fancy`: chains `[iv, c_1, ..., c_n]`, finds
      the padding length, then breaks the blocks back to front, byte by byte,
      prepending each finished block to the plaintext. The plaintext is
      returned rather than drawn on the terminal; padding is not stripped. */
  method BreakCiphertext(oracle: Oracle, iv: Block, cipher: seq<byte>)
    returns (r: Result<seq<byte>>, ghost queries: nat)
    ensures r == Failure(TooShort) <==> |cipher| < 16
    ensures r.Success? ==> |r.value| == 16 * (|cipher| / 16)
    ensures queries <= 16 + 16 * (|cipher| / 16) * 257
    // the attack recovers the whole CBC plaintext, padding included
    ensures WellPadded(oracle, iv, cipher) ==>
      r == Success(DecryptFrom(oracle.decrypt, Chain(iv, cipher), 1))
  {
    var blocks := Chain(iv, cipher);
    if |blocks| < 2 {
      return Failure(TooShort), 0;
    }
    ghost var padded := WellPadded(oracle, iv, cipher);
    var found;
    found, queries := DeterminePadding(oracle, blocks);
    if found.None? {
      return Failure(NoPadding), queries;
    }
    var padding := found.value;
    var m2 := SeedPadding(padding);
    if padded {
      SeedSolvesLast(oracle.Plain(NextToLast(blocks), Last(blocks)), m2);
    }
    var plaintext;
    ghost var q;
    plaintext, q := BreakBlocks(oracle, blocks, m2, padding);
    queries := queries + q;
    if plaintext.None? {
      return Failure(NoByte), queries;
    }
    return Success(plaintext.value), queries;
  }
}
