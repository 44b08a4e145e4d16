/** RC4 as rc4.c computes it, and the Rc4 object with one state for each direction. */
module Rc4 {
  import opened Bytes
  import opened StreamCipher

  type Table = p: bytes | |p| == 256 witness Zeros(256)

  datatype State = State(perm: Table, index1: byte, index2: byte)

  /** The table rc4_init starts from. */
  function Identity(): (p: Table)
    ensures forall k :: 0 <= k < 256 ==> p[k] == k
  {
    seq<byte>(256, i requires 0 <= i < 256 => i)
  }

  function Swap(p: Table, i: byte, j: byte): Table {
    p[i := p[j]][j := p[i]]
  }

  // ----- rc4_init -----

  function Mod256(x: nat): byte { x % 256 }

  /** The table and j after the first n rounds of key mixing. */
  function Mixed(key: bytes, n: nat): (Table, byte)
    requires key != [] && n <= 256
  {
    if n == 0 then (Identity(), 0)
    else
      var (p, j) := Mixed(key, n - 1);
      var j' := Mod256(j as int + p[n - 1] as int + key[(n - 1) % |key|] as int);
      (Swap(p, n - 1, j'), j')
  }

  function Init(key: bytes): State
    requires key != []
  {
    State(Mixed(key, 256).0, 0, 0)
  }

  // ----- rc4_crypt -----

  /** The state after one more byte. */
  function Next(s: State): State {
    var i1 := Mod256(s.index1 as int + 1);
    var i2 := Mod256(s.index2 as int + s.perm[i1] as int);
    State(Swap(s.perm, i1, i2), i1, i2)
  }

  function After(s: State, n: nat): State {
    if n == 0 then s else Next(After(s, n - 1))
  }

  /** The byte a state that has just advanced masks with. */
  function KeyByte(s: State): byte {
    s.perm[Mod256(s.perm[s.index1] as int + s.perm[s.index2] as int)]
  }

  /** The key stream that starts at s. */
  function Stream(s: State): Mask {
    (n: nat) => KeyByte(After(s, n + 1))
  }

  function Crypt(s: State, m: bytes): (r: bytes)
    ensures |r| == |m|
  {
    Apply(Stream(s), 0, m)
  }

  lemma {:induction false} AfterAdd(s: State, a: nat, b: nat)
    ensures After(After(s, a), b) == After(s, a + b)
  {
    hide Next;
    if b > 0 {
      AfterAdd(s, a, b - 1);
    }
  }

  /** The calls of one direction: each continues from the state the one before it left. */
  function CryptAll(s: State, chunks: seq<bytes>): (r: seq<bytes>)
    decreases |chunks|
  {
    if chunks == [] then [] else [Crypt(s, chunks[0])] + CryptAll(After(s, |chunks[0]|), chunks[1..])
  }

  lemma {:induction false} CryptAllFrom(s: State, at: nat, chunks: seq<bytes>)
    ensures CryptAll(After(s, at), chunks) == ApplyAll(Stream(s), at, chunks)
    decreases |chunks|
  {
    hide After, KeyByte;
    if chunks != [] {
      var m := chunks[0];
      forall i | 0 <= i < |m|
        ensures Stream(After(s, at))(i) == Stream(s)(at + i)
      {
        AfterAdd(s, at, i + 1);
      }
      assert Crypt(After(s, at), m) == Apply(Stream(s), at, m);
      AfterAdd(s, at, |m|);
      CryptAllFrom(s, at + |m|, chunks[1..]);
    }
  }

  /** A message encrypted in any pieces and decrypted, from a twin state, in any other pieces comes back. */
  lemma RoundTrip(key: bytes, sent: seq<bytes>, received: seq<bytes>)
    requires key != [] && Flatten(received) == Flatten(CryptAll(Init(key), sent))
    ensures Flatten(CryptAll(Init(key), received)) == Flatten(sent)
  {
    var s := Init(key);
    CryptAllFrom(s, 0, sent);
    CryptAllFrom(s, 0, received);
    AnyChunking(Stream(s), 0, sent, received);
  }

  // ----- the table stays a permutation -----

  /** p holds the same bytes as the identity, in some order. */
  ghost predicate IsPermutation(p: Table) {
    multiset(p) == multiset(Identity())
  }

  lemma {:induction false} CountUpTo(n: nat, b: byte)
    requires n <= 256
    ensures multiset(Identity()[..n])[b] == if b < n then 1 else 0
  {
    if n > 0 {
      CountUpTo(n - 1, b);
      assert Identity()[..n] == Identity()[..n - 1] + [Identity()[n - 1]];
    }
  }

  /** In a permutation every byte value stands at exactly one place. */
  lemma EachByteOnce(p: Table, b: byte)
    requires IsPermutation(p)
    ensures multiset(p)[b] == 1 && b in p
  {
    CountUpTo(256, b);
    assert Identity()[..256] == Identity();
    assert b in multiset(p);
  }

  lemma SwapPermutes(p: Table, i: byte, j: byte)
    ensures multiset(Swap(p, i, j)) == multiset(p)
  {
    SwapMultiset(p, i, j);
  }

  lemma SwapMultiset(s: bytes, i: nat, j: nat)
    requires i < |s| && j < |s|
    ensures multiset(s[i := s[j]][j := s[i]]) == multiset(s)
  {
  }

  lemma {:induction false} MixedPermutes(key: bytes, n: nat)
    requires key != [] && n <= 256
    ensures IsPermutation(Mixed(key, n).0)
  {
    if n > 0 {
      MixedPermutes(key, n - 1);
      var (p, j) := Mixed(key, n - 1);
      SwapPermutes(p, n - 1, Mixed(key, n).1);
    }
  }

  lemma NextPermutes(s: State)
    requires IsPermutation(s.perm)
    ensures IsPermutation(Next(s).perm)
  {
    SwapPermutes(s.perm, Next(s).index1, Next(s).index2);
  }

  lemma {:induction false} AfterPermutes(s: State, n: nat)
    requires IsPermutation(s.perm)
    ensures IsPermutation(After(s, n).perm)
  {
    hide IsPermutation;
    if n > 0 {
      AfterPermutes(s, n - 1);
      NextPermutes(After(s, n - 1));
    }
  }

  /** After rc4_init with any nonempty key, and after any bytes encrypted since, every byte value stands
      exactly once in the table. */
  lemma TableIsPermutation(key: bytes, n: nat, b: byte)
    requires key != []
    ensures multiset(After(Init(key), n).perm)[b] == 1
  {
    MixedPermutes(key, 256);
    AfterPermutes(Init(key), n);
    EachByteOnce(After(Init(key), n).perm, b);
  }

  // ----- what the key does, and which byte is picked -----

  /** The key byte that round n of the key mixing uses. */
  function KeyOf(key: bytes, n: nat): byte
    requires key != []
  {
    key[n % |key|]
  }

  predicate AgreeBefore(a: bytes, b: bytes, n: nat)
    requires a != [] && b != []
  {
    forall i :: 0 <= i < n ==> KeyOf(a, i) == KeyOf(b, i)
  }

  lemma MixingStep(key: bytes, n: nat)
    requires key != [] && n < 256
    ensures var (p, j) := Mixed(key, n);
            var j' := Mod256(j as int + p[n] as int + KeyOf(key, n) as int);
            Mixed(key, n + 1) == (Swap(p, n, j'), j')
  {
    hide Identity, Swap, Mod256;
  }

  /** What round n adds the key byte to. */
  function IndexBase(key: bytes, n: nat): nat
    requires key != [] && n < 256
  {
    Mixed(key, n).1 as int + Mixed(key, n).0[n] as int
  }

  lemma SameBase(a: bytes, b: bytes, n: nat)
    requires a != [] && b != [] && n < 256 && Mixed(a, n) == Mixed(b, n)
    ensures IndexBase(a, n) == IndexBase(b, n)
  {
    hide Mixed;
  }

  lemma IndexAfter(key: bytes, n: nat)
    requires key != [] && n < 256
    ensures Mixed(key, n + 1).1 == Mod256(IndexBase(key, n) + KeyOf(key, n) as int)
  {
    MixingStep(key, n);
    hide Mixed, KeyOf, Swap, Mod256;
  }

  lemma ModDiffers(base: nat, x: byte, y: byte)
    ensures Mod256(base + x as int) == Mod256(base + y as int) <==> x == y
  {
  }

  lemma {:induction false} SameMixing(a: bytes, b: bytes, n: nat)
    requires a != [] && b != [] && n <= 256
    requires AgreeBefore(a, b, n)
    ensures Mixed(a, n) == Mixed(b, n)
  {
    if n > 0 {
      hide Mixed, KeyOf, Swap, Mod256;
      SameMixing(a, b, n - 1);
      MixingStep(a, n - 1);
      MixingStep(b, n - 1);
      assert KeyOf(a, n - 1) == KeyOf(b, n - 1);
    }
  }

  /** Every round reads its key byte: keys that agree in the first n rounds and differ in the next one leave
      the mixing with different indices there. */
  lemma EveryKeyByteMatters(a: bytes, b: bytes, n: nat)
    requires a != [] && b != [] && n < 256
    requires AgreeBefore(a, b, n)
    ensures Mixed(a, n + 1).1 == Mixed(b, n + 1).1 <==> KeyOf(a, n) == KeyOf(b, n)
  {
    hide *;
    SameMixing(a, b, n);
    SameBase(a, b, n);
    IndexAfter(a, n);
    IndexAfter(b, n);
    ModDiffers(IndexBase(a, n), KeyOf(a, n), KeyOf(b, n));
  }

  /** The 256-byte key under which no round of the mixing moves anything: 0, then (1 - i) mod 256. */
  function StillKey(): (key: bytes)
    ensures |key| == 256
  {
    seq<byte>(256, i requires 0 <= i < 256 => if i == 0 then 0 else (257 - i) % 256)
  }

  lemma SwapSame(p: Table, i: byte)
    ensures Swap(p, i, i) == p
  {
  }

  lemma StillIndex(n: nat)
    requires n < 256
    ensures Mod256((if n == 0 then 0 else n - 1) + n + KeyOf(StillKey(), n) as int) == n
  {
  }

  lemma {:induction false} StillMixing(n: nat)
    requires n <= 256
    ensures Mixed(StillKey(), n) == (Identity(), if n == 0 then 0 else n - 1)
  {
    hide Swap, StillKey, Mod256, KeyOf;
    if n > 0 {
      StillMixing(n - 1);
      MixingStep(StillKey(), n - 1);
      StillIndex(n - 1);
      SwapSame(Identity(), n - 1);
    }
  }

  /** The next state, with the table named entry by entry. */
  lemma NextIs(s: State, i1: byte, i2: byte)
    requires i1 == Mod256(s.index1 as int + 1) && i2 == Mod256(s.index2 as int + s.perm[i1] as int)
    ensures var s' := Next(s);
            && s'.index1 == i1 && s'.index2 == i2
            && s'.perm[i2] == s.perm[i1] && s'.perm[i1] == s.perm[i2]
            && forall k: byte :: k != i1 && k != i2 ==> s'.perm[k] == s.perm[k]
  {
  }

  lemma FirstStates(s: State)
    ensures After(s, 1) == Next(s) && After(s, 2) == Next(Next(s)) && After(s, 3) == Next(Next(Next(s)))
  {
    hide Next;
    assert After(s, 0) == s;
    assert After(s, 1) == Next(After(s, 0));
    assert After(s, 2) == Next(After(s, 1));
    assert After(s, 3) == Next(After(s, 2));
  }

  lemma StillKeyBytes()
    ensures var s1 := Next(State(Identity(), 0, 0));
            KeyByte(s1) == 2 && KeyByte(Next(s1)) == 5 && KeyByte(Next(Next(s1))) == 7
  {
    var s := State(Identity(), 0, 0);
    hide Next;
    NextIs(s, 1, 1);
    NextIs(Next(s), 2, 3);
    NextIs(Next(Next(s)), 3, 5);
  }

  lemma StillInit()
    ensures Init(StillKey()) == State(Identity(), 0, 0)
  {
    StillMixing(256);
    hide StillKey, Identity, Mixed;
  }

  lemma StreamStarts(s: State)
    ensures var stream := Stream(s);
            stream(0) == KeyByte(After(s, 1)) && stream(1) == KeyByte(After(s, 2)) && stream(2) == KeyByte(After(s, 3))
  {
    hide After, KeyByte;
  }

  /** Under that key the table is the identity after rc4_init, and the key stream starts with 2, 5, 7. */
  lemma StillKeyStream()
    ensures Init(StillKey()) == State(Identity(), 0, 0)
    ensures var stream := Stream(Init(StillKey())); stream(0) == 2 && stream(1) == 5 && stream(2) == 7
  {
    StillInit();
    hide *;
    FirstStates(State(Identity(), 0, 0));
    StillKeyBytes();
    StreamStarts(State(Identity(), 0, 0));
  }

  /** From any table with 0 at place 2 and no 2 at place 1 the second key byte is 0. */
  lemma SecondKeyByte(p: Table)
    requires p[2] == 0 && p[1] != 2
    ensures Stream(State(p, 0, 0))(1) == 0
  {
    var s := State(p, 0, 0);
    FirstStates(s);
    hide Next, After;
    NextIs(s, 1, p[1]);
    NextIs(Next(s), 2, p[1]);
  }

  // ----- one byte at a time, into a buffer -----

  lemma CryptAt(s: State, m: bytes, i: nat)
    requires i < |m|
    ensures After(s, i + 1) == Next(After(s, i))
    ensures Crypt(s, m)[i] == Xor(m[i], KeyByte(After(s, i + 1)))
  {
    hide Next, KeyByte;
  }

  // ----- the objects -----

  class Rc4State {
    const perm: array<byte>
    var index1: byte
    var index2: byte

    ghost predicate Valid()
      reads this
    {
      perm.Length == 256
    }

    ghost function View(): State
      reads this, perm
      requires Valid()
    {
      State(perm[..], index1, index2)
    }

    /** rc4_init */
    constructor (key: bytes)
      requires key != []
      ensures Valid() && fresh(perm) && View() == Init(key)
    {
      perm := new byte[256];
      index1, index2 := 0, 0;
      new;
      var i := 0;
      while i < 256
        invariant 0 <= i <= 256 && index1 == 0 && index2 == 0
        invariant forall k :: 0 <= k < i ==> perm[k] == k
      {
        perm[i] := i;
        i := i + 1;
      }
      assert perm[..] == Identity();
      var j: byte := 0;
      i := 0;
      while i < 256
        invariant 0 <= i <= 256 && index1 == 0 && index2 == 0
        invariant (perm[..], j) == Mixed(key, i)
      {
        j := Mod256(j as int + perm[i] as int + key[i % |key|] as int);
        SwapBytes(i, j);
        i := i + 1;
      }
    }

    /** swap_bytes on two entries of the table */
    method SwapBytes(a: byte, b: byte)
      requires Valid()
      modifies perm
      ensures perm[..] == Swap(old(perm[..]), a, b)
    {
      var temp := perm[a];
      perm[a] := perm[b];
      perm[b] := temp;
    }

    /** rc4_crypt; the input and the output buffer may be the same. */
    method CryptBuffer(inbuf: array<byte>, outbuf: array<byte>, buflen: nat)
      requires Valid() && perm != inbuf && perm != outbuf
      requires buflen <= inbuf.Length && buflen <= outbuf.Length
      modifies this`index1, this`index2, perm, outbuf
      ensures View() == After(old(View()), buflen)
      ensures outbuf[..buflen] == Crypt(old(View()), old(inbuf[..buflen]))
      ensures outbuf[buflen..] == old(outbuf[buflen..])
      ensures inbuf != outbuf ==> inbuf[..] == old(inbuf[..])
    {
      ghost var start, input := View(), inbuf[..buflen];
      var i := 0;
      assert After(start, 0) == start;
      hide After, Crypt;
      while i < buflen
        invariant 0 <= i <= buflen
        invariant View() == After(start, i)
        invariant forall k :: 0 <= k < i ==> outbuf[k] == Crypt(start, input)[k]
        invariant forall k :: i <= k < outbuf.Length ==> outbuf[k] == old(outbuf[k])
        invariant inbuf != outbuf ==> inbuf[..] == old(inbuf[..])
      {
        assert inbuf != outbuf ==> inbuf[..][i] == old(inbuf[..])[i];
        CryptByte(inbuf, outbuf, i, start, input);
        i := i + 1;
      }
    }

    /** One round of the loop; the ghost arguments are the state and the message before the first one. */
    method CryptByte(inbuf: array<byte>, outbuf: array<byte>, i: nat, ghost start: State, ghost input: bytes)
      requires Valid() && perm != inbuf && perm != outbuf
      requires i < inbuf.Length && i < outbuf.Length
      requires i < |input| && inbuf[i] == input[i] && View() == After(start, i)
      modifies this`index1, this`index2, perm, outbuf
      ensures View() == After(start, i + 1)
      ensures outbuf[i] == Crypt(start, input)[i]
      ensures forall k :: 0 <= k < outbuf.Length && k != i ==> outbuf[k] == old(outbuf[k])
      ensures inbuf != outbuf ==> inbuf[..] == old(inbuf[..])
    {
      CryptAt(start, input, i);
      var k := NextKeyByte();
      hide *;
      outbuf[i] := Xor(inbuf[i], k);
    }

    /** Advance the state and pick the byte to mask with. */
    method NextKeyByte() returns (k: byte)
      requires Valid()
      modifies this`index1, this`index2, perm
      ensures View() == Next(old(View())) && k == KeyByte(View())
    {
      index1 := Mod256(index1 as int + 1);
      index2 := Mod256(index2 as int + perm[index1] as int);
      SwapBytes(index1, index2);
      var j := Mod256(perm[index1] as int + perm[index2] as int);
      k := perm[j];
    }
  }

  class Rc4 {
    const enState: Rc4State
    const deState: Rc4State

    ghost predicate Valid()
      reads this, enState, deState
    {
      && enState != deState && enState.perm != deState.perm
      && enState.Valid() && deState.Valid()
    }

    constructor (key: bytes)
      requires key != []
      ensures Valid() && fresh({enState, deState, enState.perm, deState.perm})
      ensures enState.View() == Init(key) && deState.View() == Init(key)
    {
      enState := new Rc4State(key);
      deState := new Rc4State(key);
    }

    method Encrypt(src: bytes) returns (dest: bytes)
      requires Valid()
      modifies enState, enState.perm
      ensures Valid() && enState.View() == After(old(enState.View()), |src|)
      ensures dest == Crypt(old(enState.View()), src)
      ensures deState.View() == old(deState.View())
    {
      var temp := new byte[|src|];
      var copy := new byte[|src|](i requires 0 <= i < |src| => src[i]);
      assert copy[..|src|] == src;
      enState.CryptBuffer(copy, temp, |src|);
      dest := temp[..];
    }

    method Decrypt(src: bytes) returns (dest: bytes)
      requires Valid()
      modifies deState, deState.perm
      ensures Valid() && deState.View() == After(old(deState.View()), |src|)
      ensures dest == Crypt(old(deState.View()), src)
      ensures enState.View() == old(enState.View())
    {
      var temp := new byte[|src|];
      var copy := new byte[|src|](i requires 0 <= i < |src| => src[i]);
      assert copy[..|src|] == src;
      deState.CryptBuffer(copy, temp, |src|);
      dest := temp[..];
    }
  }
}
