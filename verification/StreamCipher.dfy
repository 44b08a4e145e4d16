/** Ciphers that mask byte i of a stream with a key byte for position i, in whatever chunks it comes. */
module StreamCipher {
  import opened Bytes

  type Mask = nat -> byte

  function Apply(mask: Mask, at: nat, m: bytes): (r: bytes)
    ensures |r| == |m|
  {
    seq<byte>(|m|, i requires 0 <= i < |m| => Xor(m[i], mask(at + i)))
  }

  /** Each chunk masked where the one before it stopped. */
  function ApplyAll(mask: Mask, at: nat, chunks: seq<bytes>): (r: seq<bytes>)
    ensures |r| == |chunks|
    decreases |chunks|
  {
    if chunks == [] then [] else [Apply(mask, at, chunks[0])] + ApplyAll(mask, at + |chunks[0]|, chunks[1..])
  }

  lemma ApplyTwice(mask: Mask, at: nat, m: bytes)
    ensures Apply(mask, at, Apply(mask, at, m)) == m
  {
    forall i | 0 <= i < |m| {
      XorTwice(m[i], mask(at + i));
    }
  }

  lemma ApplyAppend(mask: Mask, at: nat, a: bytes, b: bytes)
    ensures Apply(mask, at, a + b) == Apply(mask, at, a) + Apply(mask, at + |a|, b)
  {
  }

  /** Chunks do not matter. */
  lemma {:induction false} ApplyAllIsApply(mask: Mask, at: nat, chunks: seq<bytes>)
    ensures Flatten(ApplyAll(mask, at, chunks)) == Apply(mask, at, Flatten(chunks))
    decreases |chunks|
  {
    if chunks != [] {
      ApplyAllIsApply(mask, at + |chunks[0]|, chunks[1..]);
      ApplyAppend(mask, at, chunks[0], Flatten(chunks[1..]));
    }
  }

  /** Encrypted in any chunks and decrypted in any other chunks, the stream comes back. */
  lemma AnyChunking(mask: Mask, at: nat, sent: seq<bytes>, received: seq<bytes>)
    requires Flatten(received) == Flatten(ApplyAll(mask, at, sent))
    ensures Flatten(ApplyAll(mask, at, received)) == Flatten(sent)
  {
    ApplyAllIsApply(mask, at, sent);
    ApplyAllIsApply(mask, at, received);
    ApplyTwice(mask, at, Flatten(sent));
  }
}
