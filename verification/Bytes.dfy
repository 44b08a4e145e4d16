/** Bytes, and the stateless stream cipher that both ends of the tunnel apply to a packet. */
module Bytes {
  type byte = b: int | 0 <= b < 256
  type bytes = seq<byte>

  /** Bitwise exclusive or of the lowest n bits. */
  function XorBits(n: nat, a: nat, b: nat): (r: nat)
  {
    if n == 0 then 0 else 2 * XorBits(n - 1, a / 2, b / 2) + (if a % 2 == b % 2 then 0 else 1)
  }

  /** The ^ operator on two bytes. */
  function Xor(a: byte, b: byte): (r: byte) {
    XorBound(8, a, b);
    XorBits(8, a, b)
  }

  function Pow2(n: nat): nat {
    if n == 0 then 1 else 2 * Pow2(n - 1)
  }

  lemma {:induction false} XorBound(n: nat, a: nat, b: nat)
    ensures XorBits(n, a, b) < Pow2(n)
    ensures Pow2(8) == 256
  {
    if n > 0 { XorBound(n - 1, a / 2, b / 2); }
  }

  lemma {:induction false} XorBitsTwice(n: nat, a: nat, b: nat)
    requires a < Pow2(n)
    ensures XorBits(n, XorBits(n, a, b), b) == a
  {
    if n > 0 {
      var x := XorBits(n, a, b);
      assert x / 2 == XorBits(n - 1, a / 2, b / 2);
      XorBitsTwice(n - 1, a / 2, b / 2);
    }
  }

  lemma XorTwice(a: byte, b: byte)
    ensures Xor(Xor(a, b), b) == a
  {
    XorBound(8, a, b);
    XorBitsTwice(8, a, b);
  }

  lemma {:induction false} XorBitsInjective(n: nat, a: nat, b: nat, c: nat)
    requires b < Pow2(n) && c < Pow2(n) && XorBits(n, a, b) == XorBits(n, a, c)
    ensures b == c
  {
    if n > 0 {
      assert XorBits(n, a, b) / 2 == XorBits(n - 1, a / 2, b / 2);
      assert XorBits(n, a, c) / 2 == XorBits(n - 1, a / 2, c / 2);
      XorBitsInjective(n - 1, a / 2, b / 2, c / 2);
    }
  }

  lemma {:induction false} XorZero(n: nat, b: nat)
    requires b < Pow2(n)
    ensures XorBits(n, 0, b) == b && XorBits(n, b, 0) == b
  {
    if n > 0 { XorZero(n - 1, b / 2); }
  }

  /** Masking and masking again gives the byte back exactly when both masks are the same. */
  lemma XorTwiceExactly(a: byte, b: byte, c: byte)
    ensures Xor(Xor(a, b), c) == a <==> b == c
  {
    XorTwice(a, b);
    XorBound(8, a, b);
    if Xor(Xor(a, b), c) == a {
      XorBitsInjective(8, Xor(a, b), b, c);
    }
  }

  /** A zero mask, and no other, leaves a byte as it is; a zero byte takes the value of the mask. */
  lemma XorWithZero(a: byte, b: byte)
    ensures Xor(a, b) == a <==> b == 0
    ensures Xor(0, b) == b
  {
    XorBound(8, a, b);
    XorZero(8, a);
    XorZero(8, b);
    XorTwiceExactly(a, 0, b);
  }

  function Zeros(n: nat): (z: bytes)
    ensures |z| == n
  {
    seq(n, _ => 0)
  }

  function Flatten<T>(parts: seq<seq<T>>): seq<T> {
    if parts == [] then [] else parts[0] + Flatten(parts[1..])
  }

  lemma {:induction false} FlattenAppend<T>(a: seq<seq<T>>, b: seq<seq<T>>)
    ensures Flatten(a + b) == Flatten(a) + Flatten(b)
  {
    if a == [] {
      assert a + b == b;
    } else {
      assert (a + b)[1..] == a[1..] + b;
      FlattenAppend(a[1..], b);
    }
  }
}

/** AES in counter mode as the program uses it: every call starts again from the same counter,
    so byte i of any message under one key meets the same mask byte. */
module CounterMode {
  import opened Bytes

  /** The mask byte a key yields at an offset. */
  type KeyStream = (bytes, nat) -> byte

  function Crypt(ks: KeyStream, key: bytes, message: bytes): (r: bytes)
    ensures |r| == |message|
  {
    seq<byte>(|message|, i requires 0 <= i < |message| => Xor(message[i], ks(key, i)))
  }

  lemma CryptTwice(ks: KeyStream, key: bytes, message: bytes)
    ensures Crypt(ks, key, Crypt(ks, key, message)) == message
  {
    forall i | 0 <= i < |message| {
      XorTwice(message[i], ks(key, i));
    }
  }

  /** Zero bytes come out as the key stream from its start, and every message is masked with that, byte by byte. */
  lemma MasksWithKeyStream(ks: KeyStream, key: bytes, message: bytes, i: nat)
    requires i < |message|
    ensures Crypt(ks, key, Zeros(|message|))[i] == ks(key, i)
    ensures Crypt(ks, key, message)[i] == Xor(message[i], Crypt(ks, key, Zeros(|message|))[i])
    ensures Crypt(ks, key, message)[i] == message[i] <==> ks(key, i) == 0
  {
    XorWithZero(message[i], ks(key, i));
  }
}

/** Division by a variable divisor. */
module Division {
  lemma QuotientUnique(n: nat, q1: int, r1: int, q2: int, r2: int)
    requires 0 <= r1 < n && 0 <= r2 < n && q1 * n + r1 == q2 * n + r2
    ensures q1 == q2 && r1 == r2
  {
    assert (q1 - q2) * n == r2 - r1;
    assert (q2 - q1) * n == r1 - r2;
    if q1 > q2 {
      AtLeastOnce(q1 - q2, n);
    } else if q1 < q2 {
      AtLeastOnce(q2 - q1, n);
    }
  }

  lemma AtLeastOnce(k: int, n: nat)
    requires k >= 1
    ensures k * n >= n
  {
  }

  lemma MulMonotone(a: int, b: int, n: nat)
    requires a <= b
    ensures a * n <= b * n
  {
    assert b * n - a * n == (b - a) * n;
  }

  /** Reducing one summand first does not change the remainder. */
  lemma AddMod(a: nat, b: nat, n: nat)
    requires n > 0
    ensures (a + b % n) % n == (a + b) % n
  {
    var x, y := a + b % n, a + b;
    var q := x / n + b / n;
    assert y == x + (b / n) * n;
    assert q * n == (x / n) * n + (b / n) * n;
    QuotientUnique(n, q, x % n, y / n, y % n);
  }
}
