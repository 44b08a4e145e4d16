/** The packet both ends exchange: version, type, a big-endian 16-bit length, then the data. */
module Packet {
  import opened Bytes
  import opened CounterMode

  const HEADER := 4
  const MAX_DATA := 0xffff

  const HELLO_REQUEST: byte := 0x00
  const HELLO_REPLY: byte := 0x01
  const EXCHANGE_REQUEST: byte := 0x02
  const EXCHANGE_REPLY: byte := 0x03
  const DENY: byte := 0x04
  const DATA: byte := 0x06
  const ZIPDATA: byte := 0x17
  const BAD: byte := 0xff

  datatype Packet = Packet(version: byte, kind: byte, high: byte, low: byte, data: bytes) {
    /** The length field, not the number of data bytes present. */
    function DataLen(): (n: nat)
      ensures n <= MAX_DATA
    {
      high * 256 + low
    }

    /** The bytes of the five consecutive buffers the sockets read into and write from. */
    function Wire(): (w: bytes)
      ensures |w| == HEADER + |data|
    {
      [version, kind, high, low] + data
    }
  }

  /** The constructor taking a data_len_t: the length argument is cut to 16 bits. */
  function WithLength(version: byte, kind: byte, len: nat, data: bytes): Packet {
    Packet(version, kind, len % 0x1_0000 / 256, len % 256, data)
  }

  /** Reading a packet back from at least a header's worth of bytes. */
  function FromWire(w: bytes): (p: Packet)
    requires |w| >= HEADER
    ensures p.Wire() == w
  {
    Packet(w[0], w[1], w[2], w[3], w[4..])
  }

  predicate IsData(kind: byte) {
    kind == DATA || kind == ZIPDATA
  }

  /** A data packet whose length field tells the truth. */
  predicate WellFormed(p: Packet) {
    IsData(p.kind) && p.DataLen() == |p.data|
  }

  lemma LengthField(version: byte, kind: byte, len: nat, data: bytes)
    ensures WithLength(version, kind, len, data).DataLen() == len % 0x1_0000
  {
    var n := len % 0x1_0000;
    assert len % 256 == n % 256;
  }

  /** What either side sends for one read of plaintext. */
  function PackData(ks: KeyStream, key: bytes, plain: bytes): Packet {
    var cipher := Crypt(ks, key, plain);
    WithLength(0x00, DATA, |plain|, cipher)
  }

  lemma PackDataIsWellFormed(ks: KeyStream, key: bytes, plain: bytes)
    requires |plain| <= MAX_DATA
    ensures WellFormed(PackData(ks, key, plain))
    ensures Crypt(ks, key, PackData(ks, key, plain).data) == plain
  {
    LengthField(0x00, DATA, |plain|, Crypt(ks, key, plain));
    CryptTwice(ks, key, plain);
  }

  /** On the wire: version 0x00, type 0x06, the length big-endian, then the ciphertext. */
  lemma DataOnTheWire(ks: KeyStream, key: bytes, plain: bytes)
    requires |plain| < 0x1_0000
    ensures PackData(ks, key, plain).Wire() == [0x00, 0x06, |plain| / 256, |plain| % 256] + Crypt(ks, key, plain)
    ensures forall kind: byte :: IsData(kind) <==> kind in {0x06, 0x17}
  {
    hide Crypt;
  }
}
