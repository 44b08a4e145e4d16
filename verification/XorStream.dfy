/** The Xor cipher: a repeated key, with a running position when the two ends are synchronised. */
module XorStream {
  import opened Bytes
  import opened Division
  import opened StreamCipher

  /** The repeated key, from position loc on. */
  function KeyFrom(key: bytes, loc: nat): Mask
    requires key != []
  {
    (i: nat) => key[(i + loc) % |key|]
  }

  /** One call of xor_encrypt: what it returns, and where it leaves the position. */
  function Call(key: bytes, synchro: bool, loc: nat, src: bytes): (bytes, nat)
    requires key != []
  {
    (Apply(KeyFrom(key, loc), 0, src), if synchro then (|src| + loc) % |key| else loc)
  }

  function Calls(key: bytes, synchro: bool, loc: nat, chunks: seq<bytes>): seq<bytes>
    requires key != []
    decreases |chunks|
  {
    if chunks == [] then []
    else
      var (r, next) := Call(key, synchro, loc, chunks[0]);
      [r] + Calls(key, synchro, next, chunks[1..])
  }

  /** Synchronised calls walk one repeated key over the whole stream. */
  lemma {:induction false} SynchronisedCalls(key: bytes, at: nat, chunks: seq<bytes>)
    requires key != []
    ensures Calls(key, true, at % |key|, chunks) == ApplyAll(KeyFrom(key, 0), at, chunks)
    decreases |chunks|
  {
    if chunks != [] {
      var m := chunks[0];
      forall i | 0 <= i < |m|
        ensures KeyFrom(key, at % |key|)(i) == KeyFrom(key, 0)(at + i)
      {
        AddMod(i, at, |key|);
      }
      assert Apply(KeyFrom(key, at % |key|), 0, m) == Apply(KeyFrom(key, 0), at, m);
      AddMod(|m|, at, |key|);
      SynchronisedCalls(key, at + |m|, chunks[1..]);
    }
  }

  /** Synchronised, a message encrypted in any pieces and decrypted in any other pieces comes back. */
  lemma RoundTrip(key: bytes, sent: seq<bytes>, received: seq<bytes>)
    requires key != [] && Flatten(received) == Flatten(Calls(key, true, 0, sent))
    ensures Flatten(Calls(key, true, 0, received)) == Flatten(sent)
  {
    hide Calls, KeyFrom, Flatten, ApplyAll;
    assert 0 % |key| == 0;
    SynchronisedCalls(key, 0, sent);
    SynchronisedCalls(key, 0, received);
    AnyChunking(KeyFrom(key, 0), 0, sent, received);
  }

  // ----- without synchronisation -----

  /** How far position p of the stream lies inside its piece. */
  function Offset<T>(chunks: seq<seq<T>>, p: nat): nat
    requires p < |Flatten(chunks)|
    decreases |chunks|
  {
    if p < |chunks[0]| then p else Offset(chunks[1..], p - |chunks[0]|)
  }

  /** The key byte position p meets when every call starts again from loc. */
  function KeyAt<T>(key: bytes, loc: nat, chunks: seq<seq<T>>, p: nat): byte
    requires key != [] && p < |Flatten(chunks)|
  {
    key[(Offset(chunks, p) + loc) % |key|]
  }

  /** Unsynchronised calls mask every byte by its place inside its piece. */
  lemma {:induction false} UnsynchronisedCalls(key: bytes, loc: nat, chunks: seq<bytes>)
    requires key != []
    ensures var r := Flatten(Calls(key, false, loc, chunks));
            && |r| == |Flatten(chunks)|
            && forall p :: 0 <= p < |r| ==> r[p] == Bytes.Xor(Flatten(chunks)[p], KeyAt(key, loc, chunks, p))
    decreases |chunks|
  {
    if chunks != [] {
      var r := Flatten(Calls(key, false, loc, chunks));
      var rest := Flatten(Calls(key, false, loc, chunks[1..]));
      var m := chunks[0];
      UnsynchronisedCalls(key, loc, chunks[1..]);
      assert r == Apply(KeyFrom(key, loc), 0, m) + rest;
      forall p | 0 <= p < |r|
        ensures r[p] == Bytes.Xor(Flatten(chunks)[p], KeyAt(key, loc, chunks, p))
      {
        if p >= |m| {
          assert KeyAt(key, loc, chunks, p) == KeyAt(key, loc, chunks[1..], p - |m|);
        }
      }
    }
  }

  /** Unsynchronised, a message decrypted in other pieces comes back exactly when every byte meets the same
      key byte in both cuttings: at the same place of its piece, up to repetitions of the key. */
  lemma UnsynchronisedRoundTripExactly(key: bytes, loc: nat, sent: seq<bytes>, received: seq<bytes>)
    requires key != [] && Flatten(received) == Flatten(Calls(key, false, loc, sent))
    ensures |Flatten(received)| == |Flatten(sent)|
    ensures Flatten(Calls(key, false, loc, received)) == Flatten(sent) <==>
            forall p :: 0 <= p < |Flatten(sent)| ==> KeyAt(key, loc, sent, p) == KeyAt(key, loc, received, p)
  {
    UnsynchronisedCalls(key, loc, sent);
    UnsynchronisedCalls(key, loc, received);
    hide Calls, Flatten, KeyAt;
    var plain, back := Flatten(sent), Flatten(Calls(key, false, loc, received));
    forall p | 0 <= p < |plain|
      ensures back[p] == plain[p] <==> KeyAt(key, loc, sent, p) == KeyAt(key, loc, received, p)
    {
      XorTwiceExactly(plain[p], KeyAt(key, loc, sent, p), KeyAt(key, loc, received, p));
    }
  }

  /** The same pieces come back one by one. */
  lemma {:induction false} UnsynchronisedSamePieces(key: bytes, loc: nat, sent: seq<bytes>)
    requires key != []
    ensures Calls(key, false, loc, Calls(key, false, loc, sent)) == sent
    decreases |sent|
  {
    if sent != [] {
      ApplyTwice(KeyFrom(key, loc), 0, sent[0]);
      UnsynchronisedSamePieces(key, loc, sent[1..]);
    }
  }

  /** Every piece but the last is some whole number of keys long. */
  predicate WholeKeys<T>(n: nat, chunks: seq<seq<T>>)
    requires n > 0
  {
    forall i :: 0 <= i < |chunks| - 1 ==> |chunks[i]| % n == 0
  }

  lemma {:induction false} OffsetInWholeKeys<T>(n: nat, chunks: seq<seq<T>>, p: nat)
    requires n > 0 && WholeKeys(n, chunks) && p < |Flatten(chunks)|
    ensures Offset(chunks, p) % n == p % n
    decreases |chunks|
  {
    var m := |chunks[0]|;
    if p >= m {
      assert |chunks| > 1 by {
        assert chunks[1..] != [];
      }
      OffsetInWholeKeys(n, chunks[1..], p - m);
      AddMod(p - m, m, n);
    }
  }

  /** Different pieces do when the key starts anew with each of them on both sides. */
  lemma UnsynchronisedWholeKeys(key: bytes, loc: nat, sent: seq<bytes>, received: seq<bytes>)
    requires key != [] && Flatten(received) == Flatten(Calls(key, false, loc, sent))
    requires WholeKeys(|key|, sent) && WholeKeys(|key|, received)
    ensures Flatten(Calls(key, false, loc, received)) == Flatten(sent)
  {
    hide Calls, Flatten, KeyAt, WholeKeys;
    UnsynchronisedRoundTripExactly(key, loc, sent, received);
    forall p | 0 <= p < |Flatten(sent)|
      ensures KeyAt(key, loc, sent, p) == KeyAt(key, loc, received, p)
    {
      KeyAtInWholeKeys(key, loc, sent, p);
      KeyAtInWholeKeys(key, loc, received, p);
    }
  }

  lemma KeyAtInWholeKeys(key: bytes, loc: nat, chunks: seq<bytes>, p: nat)
    requires key != [] && WholeKeys(|key|, chunks) && p < |Flatten(chunks)|
    ensures KeyAt(key, loc, chunks, p) == key[(loc + p) % |key|]
  {
    OffsetInWholeKeys(|key|, chunks, p);
    AddMod(loc, Offset(chunks, p), |key|);
    AddMod(loc, p, |key|);
    hide Offset, WholeKeys, Flatten;
    assert KeyAt(key, loc, chunks, p) == key[(loc + Offset(chunks, p)) % |key|];
  }

  lemma SmallXors()
    ensures Bytes.Xor(0, 1) == 1 && Bytes.Xor(0, 2) == 2 && Bytes.Xor(1, 1) == 0 && Bytes.Xor(2, 1) == 3
  {
    XorZero(8, 1);
    XorZero(8, 2);
    XorBound(8, 0, 1);
    XorBound(8, 0, 2);
    XorSelf(8, 1);
    assert XorBits(6, 0, 0) == 0 by { XorZero(6, 0); }
    assert XorBits(7, 1, 0) == 1;
    assert XorBits(8, 2, 1) == 3;
  }

  lemma {:induction false} XorSelf(n: nat, b: nat)
    ensures XorBits(n, b, b) == 0
  {
    if n > 0 { XorSelf(n - 1, b / 2); }
  }

  lemma FlattenTwo(a: bytes, b: bytes)
    ensures Flatten([a, b]) == a + b && Flatten([a]) == a
  {
    assert [a, b][1..] == [b] && [b][1..] == [] && [a][1..] == [];
    assert Flatten([b]) == b + Flatten<byte>([]);
  }

  /** Other pieces can fail: two zero bytes sent at once under the key 1, 2 and received one by one. */
  lemma UnsynchronisedCanFail()
    ensures var sent, received := [[0, 0]], [[1], [2]];
            && Flatten(received) == Flatten(Calls([1, 2], false, 0, sent))
            && Flatten(Calls([1, 2], false, 0, received)) != Flatten(sent)
  {
    SmallXors();
    assert Apply(KeyFrom([1, 2], 0), 0, [0, 0]) == [1, 2];
    assert Apply(KeyFrom([1, 2], 0), 0, [1]) == [0];
    assert Apply(KeyFrom([1, 2], 0), 0, [2]) == [3];
    FlattenTwo([1], [2]);
    FlattenTwo([0], [3]);
    assert Flatten([[0, 0]]) == [0, 0];
    var received: seq<bytes> := [[1], [2]];
    assert received[1..] == [[2]];
    assert Calls([1, 2], false, 0, received[1..]) == [[3]];
    assert Calls([1, 2], false, 0, received) == [[0]] + [[3]];
    assert Calls([1, 2], false, 0, [[0, 0]]) == [[1, 2]];
    var back: bytes := [0] + [3];
    assert [[0]] + [[3]] == [[0], [3]] && back[1] == 3 && Flatten([[0, 0]])[1] == 0;
  }

  class Xor {
    const key: bytes
    const isSynchro: bool
    var encryLoc: nat
    var decryLoc: nat

    constructor (key: bytes, isSynchro: bool)
      requires key != []
      ensures this.key == key && this.isSynchro == isSynchro && encryLoc == 0 && decryLoc == 0
    {
      this.key, this.isSynchro := key, isSynchro;
      encryLoc, decryLoc := 0, 0;
    }

    method Encrypt(src: bytes) returns (dest: bytes)
      requires key != []
      modifies this`encryLoc
      ensures (dest, encryLoc) == Call(key, isSynchro, old(encryLoc), src)
    {
      dest, encryLoc := XorEncrypt(src, encryLoc);
    }

    method Decrypt(src: bytes) returns (dest: bytes)
      requires key != []
      modifies this`decryLoc
      ensures (dest, decryLoc) == Call(key, isSynchro, old(decryLoc), src)
    {
      dest, decryLoc := XorEncrypt(src, decryLoc);
    }

    /** xor_encrypt, which updates the position through a pointer. */
    method XorEncrypt(src: bytes, loc: nat) returns (dest: bytes, next: nat)
      requires key != []
      ensures (dest, next) == Call(key, isSynchro, loc, src)
    {
      dest := Zeros(|src|);
      var i := 0;
      while i < |src|
        invariant 0 <= i <= |src| == |dest|
        invariant forall k :: 0 <= k < i ==> dest[k] == Bytes.Xor(src[k], key[(k + loc) % |key|])
      {
        dest := dest[i := Bytes.Xor(src[i], key[(i + loc) % |key|])];
        i := i + 1;
      }
      next := if isSynchro then (|src| + loc) % |key| else loc;
      assert dest == Apply(KeyFrom(key, loc), 0, src);
    }
  }
}
