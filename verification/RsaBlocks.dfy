/** How Rsa cuts a message into blocks and puts it together again; the OAEP block cipher itself is abstract. */
module RsaBlocks {
  import opened Bytes
  import opened Division
  import opened Wrappers

  /** PastEnd is no exception: the source then reads behind the message it was given. */
  datatype Error = PastEnd | NoPrivateKey | IllegalLength | BadBlock
  datatype Result = Ok(value: bytes) | Err(error: Error)

  /** RsaKey::size, in bits */
  const KEY_SIZES: set<nat> := {512, 1024, 2048, 4096, 8192, 11776, 15360, 30720, 61140}

  const MAX_MESSAGE := 0x40_0000  // 2^22

  /** Plaintext bytes per block, as the code computes them. */
  function MaxBlock(keysize: nat): int { keysize / 8 - 42 }

  /** The length of a ciphertext block: the bytes of a modulus of keysize bits (section 7.1 of RFC 8017). */
  function ModulusBytes(keysize: nat): nat { (keysize + 7) / 8 }

  /** One key pair; the nonce stands for the random padding. */
  datatype Oaep = Oaep(enc: (nat, bytes) -> bytes, dec: bytes -> Option<bytes>)

  /** Encryption and decryption of one block as section 7.1 of RFC 8017 has them, which refuses a block of
      another length than the modulus. */
  ghost predicate Lawful(o: Oaep, keysize: nat) {
    && (forall nonce: nat, m: bytes :: |m| <= ModulusBytes(keysize) - 42 ==>
          |o.enc(nonce, m)| == ModulusBytes(keysize) && o.dec(o.enc(nonce, m)) == Some(m))
    && forall c: bytes :: |c| != ModulusBytes(keysize) ==> o.dec(c) == None
  }

  // ----- the block count, computed in float -----

  /** Half a unit in the last place of a 24-bit significand, relative to x. */
  function Ulp(x: real): real { x / 16777216.0 }

  ghost predicate ExactAt(fl: real -> real, n: nat) {
    fl(n as real) == n as real
  }

  predicate EvenInteger(x: real) {
    x == x.Floor as real && x.Floor % 2 == 0
  }

  /** Rounding to the nearest float: integers up to 2^24 are exact, other values keep 24 bits, and from 2^24 on
      every float is an even integer. */
  ghost predicate Rounds(fl: real -> real) {
    && (forall n: nat :: n <= 0x100_0000 ==> ExactAt(fl, n))
    && (forall x: real :: x >= 1.0 / 65536.0 ==> x - Ulp(x) <= fl(x) <= x + Ulp(x))
    && (forall x: real :: x >= 16777216.0 ==> EvenInteger(fl(x)))
  }

  function Count(fl: real -> real, len: nat, block: nat): int
    requires block > 0
  {
    if len % block == 0 then len / block
    else
      var size, unit := fl(len as real), fl(block as real);
      if unit == 0.0 then 0 else fl(fl(size / unit) + 1.0).Floor
  }

  function Ceil(len: nat, block: nat): nat
    requires block > 0
  {
    (len + block - 1) / block
  }

  lemma ScaleError(y: real, s: real, b: real)
    requires y - Ulp(y) <= s <= y + Ulp(y) && b > 0.0
    ensures y * b - Ulp(y * b) <= s * b <= y * b + Ulp(y * b)
  {
    var e := Ulp(y);
    Scale(y - e, s, b);
    Scale(s, y + e, b);
    assert (y - e) * b == y * b - e * b;
    assert (y + e) * b == y * b + e * b;
    assert e * b == Ulp(y * b);
  }

  /** The error of both roundings together, scaled by the block size, stays below one. */
  lemma RoundedQuotient(n: real, b: real, x: real, q: real, s: real)
    requires 0.0 < n < 4194304.0 && 1.0 <= b < 65536.0 && x * b == n
    requires x - Ulp(x) <= q <= x + Ulp(x)
    requires q + 1.0 - Ulp(q + 1.0) <= s <= q + 1.0 + Ulp(q + 1.0)
    ensures n + b - 1.0 < s * b < n + b + 1.0
  {
    ScaleError(x, q, b);
    ScaleError(q + 1.0, s, b);
    assert (q + 1.0) * b == q * b + b;
    TwoRoundings(n, b, q * b, s * b);
  }

  lemma TwoRoundings(n: real, b: real, qb: real, sb: real)
    requires 0.0 < n < 4194304.0 && 1.0 <= b < 65536.0
    requires n - Ulp(n) <= qb <= n + Ulp(n)
    requires qb + b - Ulp(qb + b) <= sb <= qb + b + Ulp(qb + b)
    ensures n + b - 1.0 < sb < n + b + 1.0
  {
  }

  lemma Scale(x: real, y: real, b: real)
    requires x <= y && b > 0.0
    ensures x * b <= y * b
  {
  }

  lemma Between(s: real, x: real, y: real, b: real)
    requires b > 0.0 && x * b <= s * b < y * b
    ensures x <= s < y
  {
    if s < x { Strict(s, x, b); }
    if s >= y { Scale(y, s, b); }
  }

  lemma Strict(x: real, y: real, b: real)
    requires x < y && b > 0.0
    ensures x * b < y * b
  {
  }

  lemma FloorOfQuotient(len: nat, block: nat, k: nat, r: nat, s: real)
    requires 0 < r < block && len == k * block + r
    requires len as real + block as real - 1.0 < s * block as real < len as real + block as real + 1.0
    ensures s.Floor == k + 1
  {
    Product(k, block);
    BetweenMultiples(len as real, block as real, k as real, r as real, s);
  }

  lemma BetweenMultiples(n: real, b: real, m: real, t: real, s: real)
    requires n == m * b + t && 1.0 <= t <= b - 1.0
    requires n + b - 1.0 < s * b < n + b + 1.0
    ensures m + 1.0 <= s < m + 2.0
  {
    var p, q := m * b, s * b;
    assert q < n + b + 1.0 && n <= p + b - 1.0;
    assert q < p + b + b;
    assert (m + 1.0) * b == p + b;
    assert (m + 1.0 + 1.0) * b == p + b + b;
    Between(s, m + 1.0, m + 1.0 + 1.0, b);
  }

  lemma Product(k: int, block: nat)
    ensures (k * block) as real == k as real * block as real
  {
  }

  lemma RoundsToQuotient(fl: real -> real, n: real, b: real)
    requires Rounds(fl) && 1.0 <= n < 4194304.0 && 1.0 <= b < 65536.0
    ensures n + b - 1.0 < fl(fl(n / b) + 1.0) * b < n + b + 1.0
  {
    var x := n / b;
    assert x * b == n;
    AtLeast(x, b, n);
    var q := fl(x);
    assert q >= 0.0;
    RoundedQuotient(n, b, x, q, fl(q + 1.0));
  }

  lemma AtLeast(x: real, b: real, n: real)
    requires x * b == n && n >= 1.0 && 0.0 < b <= 65536.0
    ensures x >= 1.0 / 65536.0
  {
    var least := 1.0 / 65536.0;
    assert least * b <= 1.0;
    if x < least {
      Strict(x, least, b);
      assert false;
    }
  }

  lemma CeilIs(len: nat, block: nat, k: nat, r: nat)
    requires block > 0 && len == k * block + r && r < block
    ensures Ceil(len, block) == if r == 0 then k else k + 1
  {
    var c, d := (len + block - 1) / block, (len + block - 1) % block;
    assert len + block - 1 == c * block + d;
    var k' := if r == 0 then k else k + 1;
    var d' := if r == 0 then block - 1 else r - 1;
    assert len + block - 1 == k' * block + d';
    QuotientUnique(block, c, d, k', d');
  }

  lemma CountIsCeil(fl: real -> real, len: nat, block: nat)
    requires Rounds(fl) && len < MAX_MESSAGE && 1 <= block < 0x1_0000
    ensures Count(fl, len, block) == Ceil(len, block)
  {
    var k, r := len / block, len % block;
    assert len == k * block + r;
    CeilIs(len, block, k, r);
    if r != 0 {
      assert ExactAt(fl, len) && ExactAt(fl, block);
      RoundsToQuotient(fl, len as real, block as real);
      FloorOfQuotient(len, block, k, r, fl(fl(len as real / block as real) + 1.0));
    }
  }

  lemma QuotientAtLeast(size: real, b: real, least: real)
    requires b > 0.0 && size >= least * b
    ensures size / b >= least
  {
    var x := size / b;
    assert x * b == size;
    if x < least {
      Strict(x, least, b);
      assert false;
    }
  }

  /** The count of a message whose last block is not full. */
  lemma CountOfPartial(fl: real -> real, len: nat, block: nat)
    requires Rounds(fl) && 1 <= block < 0x1_0000 && len % block != 0
    ensures Count(fl, len, block) == fl(fl(fl(len as real) / block as real) + 1.0).Floor
  {
    assert ExactAt(fl, block);
  }

  /** How far the three roundings together can move the number of bytes that the counted blocks hold. */
  function Slack(n: real, b: real): real { (n + b) / 4194304.0 }

  lemma ThreeRoundings(n: real, b: real, size: real, qb: real, sb: real)
    requires n >= 1.0 && b >= 1.0
    requires n - Ulp(n) <= size <= n + Ulp(n)
    requires size - Ulp(size) <= qb <= size + Ulp(size)
    requires qb + b - Ulp(qb + b) <= sb <= qb + b + Ulp(qb + b)
    ensures n + b - Slack(n, b) <= sb <= n + b + Slack(n, b)
  {
  }

  lemma CloseQuotient(fl: real -> real, n: real, b: real)
    requires Rounds(fl) && n >= 1.0 && 1.0 <= b <= 65535.0
    ensures n + b - Slack(n, b) <= fl(fl(fl(n) / b) + 1.0) * b <= n + b + Slack(n, b)
  {
    var size := fl(n);
    assert n - Ulp(n) <= size <= n + Ulp(n);
    var x := size / b;
    assert x * b == size;
    QuotientAtLeast(size, b, 1.0 / 65536.0);
    var q := fl(x);
    var s := fl(q + 1.0);
    assert x - Ulp(x) <= q <= x + Ulp(x);
    assert q + 1.0 - Ulp(q + 1.0) <= s <= q + 1.0 + Ulp(q + 1.0);
    hide Rounds;
    ScaleError(x, q, b);
    ScaleError(q + 1.0, s, b);
    assert (q + 1.0) * b == q * b + b;
    ThreeRoundings(n, b, size, q * b, s * b);
  }

  lemma FloorIsClose(s: real, n: real, b: real, e: real)
    requires b > 0.0 && n + b - e <= s * b <= n + b + e
    ensures n - e < s.Floor as real * b <= n + b + e
  {
    var f := s.Floor as real;
    Scale(f, s, b);
    Strict(s, f + 1.0, b);
    assert (f + 1.0) * b == f * b + b;
  }

  lemma PartialIsClose(fl: real -> real, len: nat, block: nat)
    requires Rounds(fl) && 1 <= block < 0x1_0000 && len % block != 0
    ensures var n, b, e := len as real, block as real, Slack(len as real, block as real);
            n - e < (Count(fl, len, block) * block) as real <= n + b + e
  {
    CountOfPartial(fl, len, block);
    CloseQuotient(fl, len as real, block as real);
    hide *;
    WholeIsClose(fl(fl(fl(len as real) / block as real) + 1.0), len as real, block,
                 Slack(len as real, block as real));
  }

  lemma WholeIsClose(s: real, n: real, block: nat, e: real)
    requires block > 0 && n + block as real - e <= s * block as real <= n + block as real + e
    ensures n - e < (s.Floor * block) as real <= n + block as real + e
  {
    FloorIsClose(s, n, block as real, e);
    Product(s.Floor, block);
  }

  /** For a message of any length and every rounding to nearest, the counted blocks hold the message up to one
      block and a 2^22th part; so below 2^22 bytes the float expression counts the started blocks exactly. */
  lemma CountIsExact(fl: real -> real, len: nat, block: nat)
    requires Rounds(fl) && 1 <= block < 0x1_0000
    ensures var n, b, e := len as real, block as real, Slack(len as real, block as real);
            n - e < (Count(fl, len, block) * block) as real <= n + b + e
    ensures len < MAX_MESSAGE ==> Count(fl, len, block) == Ceil(len, block)
  {
    if len < MAX_MESSAGE {
      CountIsCeil(fl, len, block);
    }
    if len % block == 0 {
      assert len == len / block * block;
      assert Slack(len as real, block as real) > 0.0;
    } else {
      PartialIsClose(fl, len, block);
    }
  }

  /** Beyond the range of exact floats the count goes wrong: a message of an odd number of blocks from 2^24 + 5
      on, the last one not full, gets an even count, so its end is dropped or memory behind it is read. */
  lemma LongMessageMiscounts(fl: real -> real, len: nat, block: nat)
    requires Rounds(fl) && 1 <= block < 0x1_0000 && len % block != 0
    requires len / block >= 0x100_0004 && len / block % 2 == 0
    ensures Count(fl, len, block) != Ceil(len, block)
  {
    var k := len / block;
    assert len == k * block + len % block;
    CeilIs(len, block, k, len % block);
    CountOfPartial(fl, len, block);
    LongQuotient(fl, len, block, k);
    EvenCount(fl, fl(fl(len as real) / block as real) + 1.0);
    hide *;
  }

  lemma LongQuotient(fl: real -> real, len: nat, block: nat, k: nat)
    requires Rounds(fl) && 1 <= block && k >= 0x100_0004 && len >= k * block
    ensures fl(fl(len as real) / block as real) + 1.0 >= 16777216.0
  {
    Product(k, block);
    LargeQuotient(fl, len as real, block as real, k as real);
  }

  lemma EvenCount(fl: real -> real, x: real)
    requires Rounds(fl) && x >= 16777216.0
    ensures fl(x).Floor % 2 == 0
  {
    assert EvenInteger(fl(x));
  }

  lemma LargeQuotient(fl: real -> real, n: real, b: real, k: real)
    requires Rounds(fl) && 1.0 <= b && k >= 16777220.0 && n >= k * b
    ensures fl(fl(n) / b) + 1.0 >= 16777216.0
  {
    Scale(16777220.0, k, b);
    var size := fl(n);
    assert size >= n - Ulp(n);
    AlmostAll(n, b, size);
    QuotientAtLeast(size, b, 16777218.0);
    var x := size / b;
    assert fl(x) >= x - Ulp(x);
  }

  lemma AlmostAll(n: real, b: real, size: real)
    requires n >= 16777220.0 * b && b >= 1.0 && size >= n - Ulp(n)
    ensures size >= 16777218.0 * b
  {
  }

  // ----- encrypt and decrypt -----

  /** Block number `loop`: full, except perhaps the last one. */
  function BlockOf(src: bytes, block: nat, loop: nat): (m: bytes)
    requires loop * block < |src|
    ensures |m| <= block
  {
    src[loop * block..if |src| - loop * block >= block then loop * block + block else |src|]
  }

  /** The ciphertext of the blocks from number `loop` on. */
  function CipherFrom(o: Oaep, block: nat, nonces: nat -> nat, src: bytes, loop: nat): bytes
    requires block > 0
    decreases |src| - loop * block
  {
    if loop * block >= |src| then []
    else
      o.enc(nonces(loop), BlockOf(src, block, loop)) + CipherFrom(o, block, nonces, src, loop + 1)
  }

  /** The part of the message that n blocks cover. */
  function Covered(src: bytes, block: nat, n: int): bytes {
    if n <= 0 then [] else if n * block <= |src| then src[..n * block] else src
  }

  /** What Rsa::encrypt yields: the ciphertext of as many blocks as it counts. */
  function Encrypted(o: Oaep, keysize: nat, fl: real -> real, nonces: nat -> nat, src: bytes): Result
    requires keysize in KEY_SIZES
  {
    var block: nat := MaxBlock(keysize);
    var n := Count(fl, |src|, block);
    if n > Ceil(|src|, block) then Err(PastEnd)
    else Ok(CipherFrom(o, block, nonces, Covered(src, block, n), 0))
  }

  /** dest holds the ciphertext of the first `loop` blocks of src. */
  predicate Progress(o: Oaep, block: nat, nonces: nat -> nat, src: bytes, dest: bytes, loop: nat)
    requires block > 0
  {
    dest + CipherFrom(o, block, nonces, src, loop) == CipherFrom(o, block, nonces, src, 0)
  }

  /** Before round `loop` of at most n rounds over src. */
  predicate LoopInv(o: Oaep, block: nat, nonces: nat -> nat, src: bytes, n: int, dest: bytes, loop: nat)
    requires block > 0
  {
    && loop <= Ceil(|src|, block) && (loop == 0 || loop <= n)
    && (n <= Ceil(|src|, block) ==> Progress(o, block, nonces, Covered(src, block, n), dest, loop))
  }

  /** Rsa::encrypt, for any nonces the random pool yields. */
  method Encrypt(o: Oaep, keysize: nat, fl: real -> real, nonces: nat -> nat, src: bytes) returns (r: Result)
    requires keysize in KEY_SIZES
    ensures r == Encrypted(o, keysize, fl, nonces, src)
  {
    var block: nat := MaxBlock(keysize);
    var maxLoop := Count(fl, |src|, block);
    var dest: bytes := [];
    var loop := 0;
    while loop < maxLoop
      invariant 0 <= loop && LoopInv(o, block, nonces, src, maxLoop, dest, loop)
    {
      hide LoopInv, Count, Ceil;
      LoopStep(o, block, nonces, fl, src, dest, loop);
      if loop * block > |src| {
        return Err(PastEnd);
      }
      var unprocessed := |src| - loop * block;
      var offset := if unprocessed >= block then block else unprocessed;
      var current := |src| - unprocessed;
      var cipher := o.enc(nonces(loop), src[current..current + offset]);
      dest := dest + cipher;
      loop := loop + 1;
    }
    LoopEnds(o, block, nonces, src, maxLoop, dest, loop);
    hide LoopInv, CipherFrom, Covered, Count, Ceil;
    return Ok(dest);
  }

  /** One round of the loop. */
  lemma LoopStep(o: Oaep, block: nat, nonces: nat -> nat, fl: real -> real, src: bytes, dest: bytes, loop: nat)
    requires block > 0 && loop < Count(fl, |src|, block)
    requires LoopInv(o, block, nonces, src, Count(fl, |src|, block), dest, loop)
    ensures if loop * block > |src| then Count(fl, |src|, block) > Ceil(|src|, block)
            else
              && loop * block < |src|
              && LoopInv(o, block, nonces, src, Count(fl, |src|, block),
                         dest + o.enc(nonces(loop), BlockOf(src, block, loop)), loop + 1)
  {
    var n := Count(fl, |src|, block);
    InsideOrPast(fl, |src|, block, loop);
    hide Progress, Covered, Count, Ceil;
    if loop * block <= |src| && n <= Ceil(|src|, block) {
      NextBlock(o, block, nonces, src, n, dest, loop);
    }
  }

  /** A counted block starts inside the message, unless the count is too high and all blocks are done. */
  lemma InsideOrPast(fl: real -> real, len: nat, block: nat, loop: nat)
    requires block > 0 && loop < Count(fl, len, block) && loop <= Ceil(len, block)
    ensures if loop < Ceil(len, block) then loop * block < len
            else loop * block > len && Count(fl, len, block) > Ceil(len, block)
  {
    if loop < Ceil(len, block) {
      BlockInside(len, block, loop);
    } else {
      assert len == len / block * block + len % block;
      CeilIs(len, block, len / block, len % block);
      AllBlocksDone(len, block);
    }
  }

  lemma LoopEnds(o: Oaep, block: nat, nonces: nat -> nat, src: bytes, n: int, dest: bytes, loop: nat)
    requires block > 0 && n <= loop && LoopInv(o, block, nonces, src, n, dest, loop)
    ensures n <= Ceil(|src|, block) && dest == CipherFrom(o, block, nonces, Covered(src, block, n), 0)
  {
    CoveredEnds(src, block, n);
    hide Ceil, Covered;
  }

  lemma NextBlock(o: Oaep, block: nat, nonces: nat -> nat, src: bytes, n: nat, dest: bytes, loop: nat)
    requires block > 0 && loop < n <= Ceil(|src|, block)
    requires Progress(o, block, nonces, Covered(src, block, n), dest, loop)
    ensures loop * block < |src|
    ensures Progress(o, block, nonces, Covered(src, block, n),
                     dest + o.enc(nonces(loop), BlockOf(src, block, loop)), loop + 1)
  {
    var covered := Covered(src, block, n);
    BlockOfCovered(src, block, n, loop);
    CipherUnfolds(o, block, nonces, covered, loop);
    hide CipherFrom, Covered, BlockOf;
    Associate(dest, o.enc(nonces(loop), BlockOf(src, block, loop)), CipherFrom(o, block, nonces, covered, loop + 1));
  }

  lemma BlockOfCovered(src: bytes, block: nat, n: nat, loop: nat)
    requires block > 0 && loop < n <= Ceil(|src|, block)
    ensures loop * block < |src| && loop * block < |Covered(src, block, n)|
    ensures BlockOf(Covered(src, block, n), block, loop) == BlockOf(src, block, loop)
  {
    BlockInside(|src|, block, loop);
    MulMonotone(loop + 1, n, block);
    assert (loop + 1) * block == loop * block + block;
  }

  lemma CoveredEnds(src: bytes, block: nat, n: int)
    requires block > 0 && n <= Ceil(|src|, block)
    ensures if n <= 0 then Covered(src, block, n) == [] else n * block >= |Covered(src, block, n)|
    ensures Covered(src, block, n) == src <==> src == [] || n == Ceil(|src|, block)
  {
    AllBlocksDone(|src|, block);
    if 0 < n < Ceil(|src|, block) {
      BlockInside(|src|, block, n);
    }
  }

  lemma CipherUnfolds(o: Oaep, block: nat, nonces: nat -> nat, src: bytes, loop: nat)
    requires block > 0 && loop * block < |src|
    ensures CipherFrom(o, block, nonces, src, loop)
            == o.enc(nonces(loop), BlockOf(src, block, loop)) + CipherFrom(o, block, nonces, src, loop + 1)
  {
  }

  lemma Associate(a: bytes, b: bytes, c: bytes)
    ensures a + (b + c) == a + b + c
  {
  }

  /** Block number `loop` starts inside the message. */
  lemma BlockInside(len: nat, block: nat, loop: nat)
    requires block > 0 && loop < Ceil(len, block)
    ensures loop * block < len
  {
    var c, d := Ceil(len, block), (len + block - 1) % block;
    assert len + block - 1 == c * block + d;
    MulMonotone(loop + 1, c, block);
    assert (loop + 1) * block == loop * block + block;
  }

  lemma AllBlocksDone(len: nat, block: nat)
    requires block > 0
    ensures Ceil(len, block) * block >= len
  {
    var c, d := Ceil(len, block), (len + block - 1) % block;
    assert len + block - 1 == c * block + d;
  }

  /** The plaintext of the blocks from number `loop` on, up to the first one that is no ciphertext. */
  function PlainFrom(o: Oaep, block: nat, src: bytes, loop: nat): Option<bytes>
    requires block > 0 && loop * block <= |src| && |src| % block == 0
    decreases |src| - loop * block
  {
    if loop * block == |src| then Some([])
    else
      NextBlockFits(|src|, block, loop);
      match o.dec(src[loop * block..loop * block + block])
      case None => None
      case Some(m) =>
        Prepend(m, PlainFrom(o, block, src, loop + 1))
  }

  lemma NextBlockFits(len: nat, block: nat, loop: nat)
    requires block > 0 && len % block == 0 && loop * block < len
    ensures (loop + 1) * block == loop * block + block <= len
    ensures loop < len / block
  {
    var q := len / block;
    assert len == q * block;
    if q <= loop {
      MulMonotone(q, loop, block);
      assert false;
    }
    MulMonotone(loop + 1, q, block);
    assert (loop + 1) * block == loop * block + block;
  }

  function Prepend(a: bytes, r: Option<bytes>): Option<bytes> {
    match r
    case None => None
    case Some(rest) => Some(a + rest)
  }

  function Decrypted(o: Oaep, keysize: nat, hasPrivateKey: bool, src: bytes): Result
    requires keysize >= 8
  {
    var block := keysize / 8;
    if !hasPrivateKey then Err(NoPrivateKey)
    else if |src| % block != 0 then Err(IllegalLength)
    else match PlainFrom(o, block, src, 0)
      case None => Err(BadBlock)
      case Some(m) => Ok(m)
  }

  /** Rsa::decrypt */
  method Decrypt(o: Oaep, keysize: nat, hasPrivateKey: bool, src: bytes) returns (r: Result)
    requires keysize >= 8
    ensures r == Decrypted(o, keysize, hasPrivateKey, src)
  {
    if !hasPrivateKey {
      return Err(NoPrivateKey);
    }
    var block := keysize / 8;
    if |src| % block != 0 {
      return Err(IllegalLength);
    }
    var maxLoop := |src| / block;
    var dest: bytes := [];
    var loop := 0;
    PrependNothing(PlainFrom(o, block, src, 0));
    while loop < maxLoop
      invariant 0 <= loop <= maxLoop && maxLoop * block == |src| && loop * block <= |src|
      invariant PlainFrom(o, block, src, 0) == Prepend(dest, PlainFrom(o, block, src, loop))
    {
      LoopInside(loop, maxLoop, block);
      NextBlockFits(|src|, block, loop);
      var current := loop * block;
      match o.dec(src[current..current + block])
      case None =>
        return Err(BadBlock);
      case Some(recovered) =>
        PrependTwice(dest, recovered, PlainFrom(o, block, src, loop + 1));
        dest := dest + recovered;
        loop := loop + 1;
    }
    return Ok(dest);
  }

  lemma PrependNothing(r: Option<bytes>)
    ensures Prepend([], r) == r
  {
    if r.Some? { assert [] + r.value == r.value; }
  }

  lemma PrependTwice(a: bytes, b: bytes, r: Option<bytes>)
    ensures Prepend(a, Prepend(b, r)) == Prepend(a + b, r)
  {
    if r.Some? { assert a + (b + r.value) == a + b + r.value; }
  }

  lemma LoopInside(loop: nat, maxLoop: nat, block: nat)
    requires loop < maxLoop && block > 0
    ensures loop * block < maxLoop * block
  {
    MulMonotone(loop + 1, maxLoop, block);
    assert (loop + 1) * block == loop * block + block;
  }

  // ----- the round trip -----

  /** The next block of a ciphertext, and what decryption makes of it. */
  lemma CipherStep(o: Oaep, keysize: nat, nonces: nat -> nat, src: bytes, loop: nat)
    requires keysize in KEY_SIZES && Lawful(o, keysize) && loop < Ceil(|src|, MaxBlock(keysize))
    ensures loop * MaxBlock(keysize) < |src|
    ensures var block: nat := MaxBlock(keysize);
            var c := o.enc(nonces(loop), BlockOf(src, block, loop));
            && CipherFrom(o, block, nonces, src, loop) == c + CipherFrom(o, block, nonces, src, loop + 1)
            && |c| == ModulusBytes(keysize) && o.dec(c) == Some(BlockOf(src, block, loop))
  {
    BlockInside(|src|, MaxBlock(keysize), loop);
  }

  /** The ciphertext from block `loop` on is one modulus length for each remaining block. */
  lemma {:induction false} CipherLength(o: Oaep, keysize: nat, nonces: nat -> nat, src: bytes, loop: nat)
    requires keysize in KEY_SIZES && Lawful(o, keysize) && loop <= Ceil(|src|, MaxBlock(keysize))
    ensures |CipherFrom(o, MaxBlock(keysize), nonces, src, loop)|
            == (Ceil(|src|, MaxBlock(keysize)) - loop) * ModulusBytes(keysize)
    decreases Ceil(|src|, MaxBlock(keysize)) - loop
  {
    var block: nat := MaxBlock(keysize);
    var count := Ceil(|src|, block);
    if loop == count {
      AllBlocksDone(|src|, block);
    } else {
      CipherStep(o, keysize, nonces, src, loop);
      CipherLength(o, keysize, nonces, src, loop + 1);
      hide CipherFrom, Lawful, Ceil, ModulusBytes, BlockOf;
      OneMore(count - (loop + 1), ModulusBytes(keysize));
    }
  }

  lemma OneMore(n: nat, k: nat)
    ensures (n + 1) * k == k + n * k
  {
  }

  /** A whole ciphertext, of which `before` is the part of the first blocks. */
  lemma WholeLength(o: Oaep, keysize: nat, nonces: nat -> nat, src: bytes, loop: nat, before: bytes)
    requires keysize in KEY_SIZES && keysize % 8 == 0 && Lawful(o, keysize)
    requires loop <= Ceil(|src|, MaxBlock(keysize)) && |before| == loop * ModulusBytes(keysize)
    ensures |before + CipherFrom(o, MaxBlock(keysize), nonces, src, loop)| % ModulusBytes(keysize) == 0
  {
    CipherLength(o, keysize, nonces, src, loop);
    hide CipherFrom, Lawful, Ceil;
    SumOfMultiples(loop, Ceil(|src|, MaxBlock(keysize)) - loop, ModulusBytes(keysize));
  }

  lemma SumOfMultiples(a: nat, b: nat, k: nat)
    requires k > 0
    ensures (a * k + b * k) % k == 0
  {
    assert a * k + b * k == (a + b) * k;
    Multiple(a + b, k);
  }

  lemma PlainStep(o: Oaep, k: nat, before: bytes, c: bytes, rest: bytes, loop: nat, m: bytes)
    requires k > 0 && |before| == loop * k && |c| == k && o.dec(c) == Some(m) && |before + (c + rest)| % k == 0
    ensures (loop + 1) * k == loop * k + k <= |before + (c + rest)|
    ensures PlainFrom(o, k, before + (c + rest), loop) == Prepend(m, PlainFrom(o, k, before + (c + rest), loop + 1))
  {
    Regroup(before, c, rest);
    assert (loop + 1) * k == loop * k + k;
  }

  /** Decryption of the whole ciphertext from block `loop` on gives the message from that block on. */
  lemma {:induction false} PlainOfCipher(
      o: Oaep, keysize: nat, nonces: nat -> nat, src: bytes, loop: nat, before: bytes)
    requires keysize in KEY_SIZES && keysize % 8 == 0 && Lawful(o, keysize)
    requires loop <= Ceil(|src|, MaxBlock(keysize)) && |before| == loop * ModulusBytes(keysize)
    ensures var block: nat := MaxBlock(keysize);
            var cipher := before + CipherFrom(o, block, nonces, src, loop);
            && |cipher| % ModulusBytes(keysize) == 0
            && PlainFrom(o, ModulusBytes(keysize), cipher, loop) == Some(RestOf(src, block, loop))
    decreases Ceil(|src|, MaxBlock(keysize)) - loop
  {
    var block: nat := MaxBlock(keysize);
    var k := ModulusBytes(keysize);
    WholeLength(o, keysize, nonces, src, loop, before);
    if loop == Ceil(|src|, block) {
      AllBlocksDone(|src|, block);
      assert CipherFrom(o, block, nonces, src, loop) == [] && before + [] == before;
      assert RestOf(src, block, loop) == [];
    } else {
      CipherStep(o, keysize, nonces, src, loop);
      hide Lawful, CipherFrom, Ceil, PlainFrom;
      var c, rest := o.enc(nonces(loop), BlockOf(src, block, loop)), CipherFrom(o, block, nonces, src, loop + 1);
      PlainStep(o, k, before, c, rest, loop, BlockOf(src, block, loop));
      PlainOfCipher(o, keysize, nonces, src, loop + 1, before + c);
      Regroup(before, c, rest);
      RestAfterBlock(src, block, loop);
    }
  }

  /** The message from block `loop` on. */
  function RestOf(src: bytes, block: nat, loop: nat): bytes {
    if loop * block <= |src| then src[loop * block..] else []
  }

  lemma RestAfterBlock(src: bytes, block: nat, loop: nat)
    requires loop * block < |src|
    ensures BlockOf(src, block, loop) + RestOf(src, block, loop + 1) == RestOf(src, block, loop)
  {
    assert (loop + 1) * block == loop * block + block;
  }

  lemma Regroup(before: bytes, c: bytes, rest: bytes)
    ensures before + c + rest == before + (c + rest)
    ensures (before + (c + rest))[|before|..|before| + |c|] == c
  {
  }

  lemma Multiple(count: nat, k: nat)
    requires k > 0
    ensures (count * k) % k == 0
  {
    QuotientUnique(k, (count * k) / k, (count * k) % k, count, 0);
  }

  /** Block k of a ciphertext is all there, and is refused. */
  predicate BadAt(o: Oaep, block: nat, src: bytes, k: nat) {
    k * block + block <= |src| && o.dec(src[k * block..k * block + block]) == None
  }

  lemma {:induction false} FailsAtBadBlock(o: Oaep, block: nat, src: bytes, loop: nat)
    requires block > 0 && |src| % block == 0 && loop * block <= |src|
    ensures PlainFrom(o, block, src, loop) == None <==> exists k: nat :: loop <= k && BadAt(o, block, src, k)
    decreases |src| - loop * block
  {
    if loop * block < |src| {
      NextBlockFits(|src|, block, loop);
      FailsAtBadBlock(o, block, src, loop + 1);
      assert BadAt(o, block, src, loop) <==> o.dec(src[loop * block..loop * block + block]) == None;
    } else {
      forall k: nat | loop <= k
        ensures !BadAt(o, block, src, k)
      {
        MulMonotone(loop, k, block);
      }
    }
  }

  /** Which ciphertexts are refused, and why. */
  lemma RefusesExactly(o: Oaep, keysize: nat, hasPrivateKey: bool, src: bytes)
    requires keysize >= 8
    ensures Decrypted(o, keysize, hasPrivateKey, src) == Err(NoPrivateKey) <==> !hasPrivateKey
    ensures Decrypted(o, keysize, hasPrivateKey, src) == Err(IllegalLength) <==>
              hasPrivateKey && |src| % (keysize / 8) != 0
    ensures Decrypted(o, keysize, hasPrivateKey, src) == Err(BadBlock) <==>
              hasPrivateKey && |src| % (keysize / 8) == 0 && exists k: nat :: BadAt(o, keysize / 8, src, k)
  {
    if |src| % (keysize / 8) == 0 {
      FailsAtBadBlock(o, keysize / 8, src, 0);
    }
    hide BadAt, PlainFrom;
  }

  /** With a key size of whole bytes, decrypting what was encrypted gives the message back. */
  lemma RoundTrip(o: Oaep, keysize: nat, nonces: nat -> nat, src: bytes)
    requires keysize in KEY_SIZES && keysize % 8 == 0 && Lawful(o, keysize)
    ensures Decrypted(o, keysize, true, CipherFrom(o, MaxBlock(keysize), nonces, src, 0)) == Ok(src)
  {
    PlainOfCipher(o, keysize, nonces, src, 0, []);
    var cipher := CipherFrom(o, MaxBlock(keysize), nonces, src, 0);
    assert [] + cipher == cipher && src[0..] == src;
  }

  /** With a key size that is no whole number of bytes, decrypt cuts the ciphertext into blocks that are too
      short, and gives nothing back but the empty message. */
  lemma ShortBlocks(o: Oaep, keysize: nat, cipher: bytes)
    requires keysize in KEY_SIZES && keysize % 8 != 0 && Lawful(o, keysize)
    ensures Decrypted(o, keysize, true, cipher).Ok? ==> cipher == []
  {
    var block := keysize / 8;
    assert ModulusBytes(keysize) == block + 1;
    if |cipher| % block == 0 && cipher != [] {
      NextBlockFits(|cipher|, block, 0);
      assert |cipher[0 * block..0 * block + block]| == block;
      assert PlainFrom(o, block, cipher, 0) == None;
    }
  }

  /** What comes back of a message of any length: as much as the counted blocks cover. */
  lemma DecryptsCovered(o: Oaep, keysize: nat, fl: real -> real, nonces: nat -> nat, src: bytes)
    requires keysize in KEY_SIZES && keysize % 8 == 0 && Lawful(o, keysize)
    ensures var r, n := Encrypted(o, keysize, fl, nonces, src), Count(fl, |src|, MaxBlock(keysize));
            && (r.Ok? <==> n <= Ceil(|src|, MaxBlock(keysize)))
            && (r.Ok? ==> Decrypted(o, keysize, true, r.value) == Ok(Covered(src, MaxBlock(keysize), n)))
  {
    RoundTrip(o, keysize, nonces, Covered(src, MaxBlock(keysize), Count(fl, |src|, MaxBlock(keysize))));
  }

  /** Among the listed key sizes and for nonempty messages of any length, decrypting gives back what was
      encrypted exactly when the key has a whole number of bytes and the float count is the number of started
      blocks, which it is for every message below 2^22 bytes. Only 61140 bits are no whole number of bytes. */
  lemma RoundTripExactly(o: Oaep, keysize: nat, fl: real -> real, nonces: nat -> nat, src: bytes)
    requires keysize in KEY_SIZES && Lawful(o, keysize) && Rounds(fl) && src != []
    ensures var r := Encrypted(o, keysize, fl, nonces, src);
            && (r.Ok? && Decrypted(o, keysize, true, r.value) == Ok(src) <==>
                  keysize % 8 == 0 && Count(fl, |src|, MaxBlock(keysize)) == Ceil(|src|, MaxBlock(keysize)))
    ensures |src| < MAX_MESSAGE ==> Count(fl, |src|, MaxBlock(keysize)) == Ceil(|src|, MaxBlock(keysize))
    ensures keysize % 8 != 0 <==> keysize == 61140
  {
    var block: nat := MaxBlock(keysize);
    var n := Count(fl, |src|, block);
    if |src| < MAX_MESSAGE {
      CountIsCeil(fl, |src|, block);
    }
    hide Count, Ceil, CipherFrom, Covered, Rounds, Lawful, Decrypted;
    if n <= Ceil(|src|, block) {
      CoveredEnds(src, block, n);
      if keysize % 8 == 0 {
        DecryptsCovered(o, keysize, fl, nonces, src);
      } else {
        ShortBlocks(o, keysize, Encrypted(o, keysize, fl, nonces, src).value);
        EmptyDecrypts(o, keysize);
      }
    }
  }

  lemma EmptyDecrypts(o: Oaep, keysize: nat)
    requires keysize in KEY_SIZES
    ensures Decrypted(o, keysize, true, []) == Ok([])
  {
  }

  /** The ciphertext has one modulus length for every counted block; with 61140 bits decrypt counts 7642 bytes for
      a block where there are 7643, and refuses the length or, when it happens to fit, the first block. */
  lemma CiphertextLength(o: Oaep, keysize: nat, fl: real -> real, nonces: nat -> nat, src: bytes)
    requires keysize in KEY_SIZES && Lawful(o, keysize)
    ensures var r, n := Encrypted(o, keysize, fl, nonces, src), Count(fl, |src|, MaxBlock(keysize));
            r.Ok? ==>
              && |r.value| == (if n <= 0 then 0 else n * ModulusBytes(keysize))
              && (keysize % 8 != 0 && n > 0 ==>
                    Decrypted(o, keysize, true, r.value) == Err(if n % 7642 == 0 then BadBlock else IllegalLength))
  {
    var block: nat := MaxBlock(keysize);
    var n := Count(fl, |src|, block);
    if 0 < n <= Ceil(|src|, block) {
      var covered := Covered(src, block, n);
      CoveredBlocks(src, block, n);
      CipherLength(o, keysize, nonces, covered, 0);
      hide Count, CipherFrom, Ceil, Covered;
      if keysize % 8 != 0 {
        assert keysize == 61140;
        RefusedLength(o, CipherFrom(o, block, nonces, covered, 0), n);
      }
    }
  }

  /** Below 2^22 bytes the ciphertext is as many blocks of a modulus length as it takes to hold the message with
      42 bytes of each modulus given to the padding. */
  lemma CiphertextBlocks(o: Oaep, keysize: nat, fl: real -> real, nonces: nat -> nat, src: bytes)
    returns (n: nat)
    requires keysize in KEY_SIZES && Lawful(o, keysize) && Rounds(fl) && |src| < 0x40_0000
    ensures var r, piece := Encrypted(o, keysize, fl, nonces, src), keysize / 8 - 42;
            && r.Ok? && |r.value| == n * ((keysize + 7) / 8)
            && n * piece - piece < |src| <= n * piece
  {
    var block: nat := MaxBlock(keysize);
    n := Ceil(|src|, block);
    CountIsCeil(fl, |src|, block);
    CiphertextLength(o, keysize, fl, nonces, src);
    hide Lawful, Rounds, Count;
    CeilHolds(|src|, block);
  }

  lemma CeilHolds(len: nat, block: nat)
    requires block > 0
    ensures Ceil(len, block) * block - block < len <= Ceil(len, block) * block
  {
    var c, d := Ceil(len, block), (len + block - 1) % block;
    assert len + block - 1 == c * block + d;
  }

  lemma CoveredBlocks(src: bytes, block: nat, n: nat)
    requires block > 0 && 0 < n <= Ceil(|src|, block)
    ensures Ceil(|Covered(src, block, n)|, block) == n
  {
    if n < Ceil(|src|, block) {
      BlockInside(|src|, block, n);
      CeilIs(n * block, block, n, 0);
    } else {
      AllBlocksDone(|src|, block);
    }
  }

  lemma RefusedLength(o: Oaep, cipher: bytes, n: nat)
    requires Lawful(o, 61140) && n > 0 && |cipher| == n * 7643
    ensures Decrypted(o, 61140, true, cipher) == Err(if n % 7642 == 0 then BadBlock else IllegalLength)
  {
    assert n * 7643 == n * 7642 + n;
    assert n == n / 7642 * 7642 + n % 7642;
    QuotientUnique(7642, (n * 7643) / 7642, (n * 7643) % 7642, n + n / 7642, n % 7642);
    if n % 7642 == 0 {
      ShortBlocks(o, 61140, cipher);
    }
  }
}
