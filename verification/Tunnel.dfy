/** The parts put together: the handshake over the block cipher of RsaBlocks, and the relay under the agreed key. */
module Tunnel {
  import opened Bytes
  import opened CounterMode
  import opened Division
  import opened Packet
  import H = Handshake
  import HP = HandshakeProgress
  import Q = Requests
  import R = Reassembly
  import Socks5
  import U = Uplink
  import B = RsaBlocks

  /** The ciphers of a server whose key pair is o: OAEP blocks for the exchange request, as many as the float
      expression counts under the rounding fl. */
  function BlockSuite(ks: KeyStream, o: B.Oaep, keysize: nat, fl: real -> real): H.Suite
    requires keysize in B.KEY_SIZES
  {
    H.Suite(ks,
            (size: nat, publicKey: bytes, nonce: nat, m: bytes) =>
              var r := B.Encrypted(o, keysize, fl, (loop: nat) => nonce + loop, m); if r.Ok? then r.value else [],
            (c: bytes) => var r := B.Decrypted(o, keysize, true, c); if r.Ok? then r.value else [])
  }

  /** With a key size of whole bytes the handshake's assumption on RSA holds. */
  lemma BlockSuiteMatches(ks: KeyStream, o: B.Oaep, config: H.Config, fl: real -> real)
    requires config.keysize in B.KEY_SIZES && config.keysize % 8 == 0 && B.Lawful(o, config.keysize) && B.Rounds(fl)
    requires |config.publicKey| + 2 <= MAX_DATA
    requires forall key :: key in config.keys ==> |key| == H.KEY_LENGTH
    ensures H.Matching(BlockSuite(ks, o, config.keysize, fl), config)
  {
    var suite := BlockSuite(ks, o, config.keysize, fl);
    forall nonce: nat, m: bytes | |m| < 1024
      ensures var c := suite.rsaEncrypt(config.keysize, config.publicKey, nonce, m);
              |c| <= MAX_DATA && suite.rsaDecrypt(c) == m
    {
      BlocksRoundTrip(o, config.keysize, fl, (loop: nat) => nonce + loop, m);
    }
  }

  /** A message of the size the handshake encrypts fits a packet and comes back. */
  lemma BlocksRoundTrip(o: B.Oaep, keysize: nat, fl: real -> real, nonces: nat -> nat, m: bytes)
    requires keysize in B.KEY_SIZES && keysize % 8 == 0 && B.Lawful(o, keysize) && B.Rounds(fl) && |m| < 1024
    ensures var r := B.Encrypted(o, keysize, fl, nonces, m);
            r.Ok? && |r.value| <= MAX_DATA && B.Decrypted(o, keysize, true, r.value) == B.Ok(m)
  {
    var block: nat := B.MaxBlock(keysize);
    B.CountIsExact(fl, |m|, block);
    B.CoveredEnds(m, block, B.Ceil(|m|, block));
    B.DecryptsCovered(o, keysize, fl, nonces, m);
    B.CiphertextLength(o, keysize, fl, nonces, m);
    ShortCipher(keysize, |m|);
  }

  lemma ShortCipher(keysize: nat, len: nat)
    requires keysize in B.KEY_SIZES && len < 1024
    ensures B.Ceil(len, B.MaxBlock(keysize)) * B.ModulusBytes(keysize) <= MAX_DATA
  {
    var block: nat := B.MaxBlock(keysize);
    var c, k := B.Ceil(len, block), B.ModulusBytes(keysize);
    assert 22 <= block <= 7600 && k <= 3 * block;
    assert c * block <= len + block - 1;
    assert c * (3 * block) == 3 * (c * block);
    MulMonotone(k, 3 * block, c);
  }

  /** A relay run that has come to its end: the sender packed `pieces` under its key, the receiver worked
      under its own, and no read ended inside a packet header. */
  ghost predicate Relayed(
      ks: KeyStream, sendKey: bytes, receiveKey: bytes, pieces: seq<bytes>, room: nat, run: seq<R.Event>) {
    && (forall i :: 0 <= i < |pieces| ==> |pieces[i]| <= R.MAX_LENGTH)
    && var start := R.Start(R.Packed(ks, sendKey, pieces), room);
       && R.Possible(ks, receiveKey, start, run)
       && R.NoHeaderCut(R.Packed(ks, sendKey, pieces), 0, run)
       && R.Finished(R.After(ks, receiveKey, start, run))
  }

  /** What the receiver handed over in such a run. */
  ghost function Delivered(
      ks: KeyStream, sendKey: bytes, receiveKey: bytes, pieces: seq<bytes>, room: nat, run: seq<R.Event>): bytes
    requires Relayed(ks, sendKey, receiveKey, pieces, room, run)
  {
    R.After(ks, receiveKey, R.Start(R.Packed(ks, sendKey, pieces), room), run).rx.out
  }

  /** The same for the server: the first piece is the SOCKS request, and no read ran over the end of its packet. */
  ghost predicate Forwarded(
      ks: KeyStream, sendKey: bytes, receiveKey: bytes, pieces: seq<bytes>, room: nat, run: seq<U.Event>) {
    && pieces != []
    && (forall i :: 0 <= i < |pieces| ==> |pieces[i]| <= R.MAX_LENGTH)
    && var ps := R.Packed(ks, sendKey, pieces);
       && U.Possible(ks, receiveKey, U.Start(ps, room), run)
       && R.NoHeaderCut(ps, 0, U.Lefts(run))
       && U.NoCrossing(HEADER + |ps[0].data|, 0, U.Lefts(run))
       && U.Finished(U.After(ks, receiveKey, U.Start(ps, room), run))
  }

  /** The server's end of the link after such a run. */
  ghost function LinkAfter(
      ks: KeyStream, sendKey: bytes, receiveKey: bytes, pieces: seq<bytes>, room: nat, run: seq<U.Event>): U.Link
    requires Forwarded(ks, sendKey, receiveKey, pieces, room, run)
  {
    U.After(ks, receiveKey, U.Start(R.Packed(ks, sendKey, pieces), room), run).link
  }

  /** Under one key the server's handlers get the request, and the remote side gets everything behind it. */
  lemma ForwardsBehindRequest(ks: KeyStream, key: bytes, pieces: seq<bytes>, room: nat, run: seq<U.Event>)
    requires Forwarded(ks, key, key, pieces, room, run)
    ensures var link := LinkAfter(ks, key, key, pieces, room, run);
            link.Relaying? && link.request == pieces[0] && link.rx.out == Flatten(pieces[1..])
  {
    var ps := R.Packed(ks, key, pieces);
    R.PackedPlain(ks, key, pieces);
    R.PackedPlain(ks, key, pieces[1..]);
    assert ps[1..] == R.Packed(ks, key, pieces[1..]);
    PackDataIsWellFormed(ks, key, pieces[0]);
    U.DeliversBehindRequest(ks, key, ps, room, run);
  }

  lemma DeliversAll(ks: KeyStream, key: bytes, pieces: seq<bytes>, room: nat, run: seq<R.Event>)
    requires Relayed(ks, key, key, pieces, room, run)
    ensures Delivered(ks, key, key, pieces, room, run) == Flatten(pieces)
  {
    R.TunnelIsTransparent(ks, key, pieces, room, run);
  }

  /** From connected sockets to delivered bytes, once the local side is in status_data. Whatever the server packs
      under its key, the local side hands to its client unchanged. Of what the local side packs under its key,
      the first piece, a CONNECT request, reaches the resolver as the address it names, and everything behind
      that piece is handed to the remote end unchanged. */
  lemma EndToEnd(suite: H.Suite, config: H.Config, authKey: bytes, handshake: seq<H.Event>,
                 down: seq<bytes>, downRoom: nat, downRun: seq<R.Event>,
                 up: seq<bytes>, upRoom: nat, upRun: seq<U.Event>, dest: Socks5.Address, port: nat)
    requires H.Matching(suite, config) && |authKey| == H.KEY_LENGTH
    requires H.Possible(suite, config, authKey, H.INIT, handshake)
    requires H.After(suite, config, authKey, H.INIT, handshake).local.status == H.Data
    requires var w := H.After(suite, config, authKey, H.INIT, handshake);
             && Relayed(suite.ks, w.server.dataKey, w.local.dataKey, down, downRoom, downRun)
             && Forwarded(suite.ks, w.local.dataKey, w.server.dataKey, up, upRoom, upRun)
    requires Q.BeginsWith(up[0], 0x01, dest, port)
    ensures var w := H.After(suite, config, authKey, H.INIT, handshake);
            Delivered(suite.ks, w.server.dataKey, w.local.dataKey, down, downRoom, downRun) == Flatten(down)
    ensures var w := H.After(suite, config, authKey, H.INIT, handshake);
            var link := LinkAfter(suite.ks, w.local.dataKey, w.server.dataKey, up, upRoom, upRun);
            && link.Relaying?
            && Socks5.ParseRequest(link.request)
               == Socks5.Ok(Socks5.Request(0x01, Socks5.TypeOf(dest), dest, port))
            && link.rx.out == Flatten(up[1..])
  {
    H.Agreement(suite, config, authKey, handshake);
    Q.LayOutParses(up[0], 0x01, dest, port);
    hide *;
    var w := H.After(suite, config, authKey, H.INIT, handshake);
    assert w.local.dataKey == w.server.dataKey;
    DeliversAll(suite.ks, w.server.dataKey, down, downRoom, downRun);
    ForwardsBehindRequest(suite.ks, w.server.dataKey, up, upRoom, upRun);
  }

  /** Runs as EndToEnd speaks of happen after every such handshake, whatever the server packs, and whatever the local
      side packs behind a CONNECT request: each packet is read whole and handed on. */
  lemma EndToEndHappens(suite: H.Suite, config: H.Config, authKey: bytes, handshake: seq<H.Event>,
                        down: seq<bytes>, downRoom: nat, up: seq<bytes>, upRoom: nat,
                        dest: Socks5.Address, port: nat)
    requires H.Matching(suite, config) && |authKey| == H.KEY_LENGTH
    requires H.Possible(suite, config, authKey, H.INIT, handshake)
    requires H.After(suite, config, authKey, H.INIT, handshake).local.status == H.Data
    requires (forall i :: 0 <= i < |down| ==> |down[i]| <= R.MAX_LENGTH)
    requires up != [] && (forall i :: 0 <= i < |up| ==> |up[i]| <= R.MAX_LENGTH) && Q.BeginsWith(up[0], 0x01, dest, port)
    ensures var w := H.After(suite, config, authKey, H.INIT, handshake);
            var ps := R.Packed(suite.ks, w.server.dataKey, down);
            Relayed(suite.ks, w.server.dataKey, w.local.dataKey, down, downRoom, R.WholeReads(ps, downRoom))
    ensures var w := H.After(suite, config, authKey, H.INIT, handshake);
            var ps := R.Packed(suite.ks, w.local.dataKey, up);
            Forwarded(suite.ks, w.local.dataKey, w.server.dataKey, up, upRoom, Q.WholeRun(ps, upRoom))
  {
    H.Agreement(suite, config, authKey, handshake);
    var w := H.After(suite, config, authKey, H.INIT, handshake);
    hide *;
    RelayedHappens(suite.ks, w.server.dataKey, down, downRoom);
    ForwardedHappens(suite.ks, w.local.dataKey, up, upRoom, dest, port);
  }

  /** From nothing but two connected sockets: for a key the server knows, some handshake and some relay runs behind it
      end with everything delivered in both directions and the request at the resolver. */
  lemma TunnelHappens(suite: H.Suite, config: H.Config, authKey: bytes,
                      down: seq<bytes>, downRoom: nat, up: seq<bytes>, upRoom: nat,
                      dest: Socks5.Address, port: nat)
    returns (handshake: seq<H.Event>, downRun: seq<R.Event>, upRun: seq<U.Event>)
    requires H.Matching(suite, config) && |authKey| == H.KEY_LENGTH && authKey in config.keys
    requires forall i :: 0 <= i < |down| ==> |down[i]| <= R.MAX_LENGTH
    requires up != [] && (forall i :: 0 <= i < |up| ==> |up[i]| <= R.MAX_LENGTH) && Q.BeginsWith(up[0], 0x01, dest, port)
    ensures H.Possible(suite, config, authKey, H.INIT, handshake)
    ensures var w := H.After(suite, config, authKey, H.INIT, handshake);
            && w.local.status == H.Data && w.server.status == H.Data
            && Relayed(suite.ks, w.server.dataKey, w.local.dataKey, down, downRoom, downRun)
            && Delivered(suite.ks, w.server.dataKey, w.local.dataKey, down, downRoom, downRun) == Flatten(down)
            && Forwarded(suite.ks, w.local.dataKey, w.server.dataKey, up, upRoom, upRun)
            && var link := LinkAfter(suite.ks, w.local.dataKey, w.server.dataKey, up, upRoom, upRun);
               && Socks5.ParseRequest(link.request)
                  == Socks5.Ok(Socks5.Request(0x01, Socks5.TypeOf(dest), dest, port))
               && link.rx.out == Flatten(up[1..])
  {
    handshake := HP.HandshakeHappens(suite, config, authKey);
    hide *;
    var w := H.After(suite, config, authKey, H.INIT, handshake);
    EndToEndHappens(suite, config, authKey, handshake, down, downRoom, up, upRoom, dest, port);
    downRun := R.WholeReads(R.Packed(suite.ks, w.server.dataKey, down), downRoom);
    upRun := Q.WholeRun(R.Packed(suite.ks, w.local.dataKey, up), upRoom);
    EndToEnd(suite, config, authKey, handshake, down, downRoom, downRun, up, upRoom, upRun, dest, port);
  }

  lemma RelayedHappens(ks: KeyStream, key: bytes, pieces: seq<bytes>, room: nat)
    requires forall i :: 0 <= i < |pieces| ==> |pieces[i]| <= R.MAX_LENGTH
    ensures Relayed(ks, key, key, pieces, room, R.WholeReads(R.Packed(ks, key, pieces), room))
  {
    R.PackedPlain(ks, key, pieces);
    R.WholeReadsFinish(ks, key, R.Packed(ks, key, pieces), [], room);
    hide R.Possible, R.After, R.NoHeaderCut, R.WholeReads, R.Packed;
  }

  lemma ForwardedHappens(
      ks: KeyStream, key: bytes, pieces: seq<bytes>, room: nat, dest: Socks5.Address, port: nat)
    requires pieces != [] && forall i :: 0 <= i < |pieces| ==> |pieces[i]| <= R.MAX_LENGTH
    requires Q.BeginsWith(pieces[0], 0x01, dest, port)
    ensures Forwarded(ks, key, key, pieces, room, Q.WholeRun(R.Packed(ks, key, pieces), room))
  {
    var ps := R.Packed(ks, key, pieces);
    R.PackedPlain(ks, key, pieces);
    PackDataIsWellFormed(ks, key, pieces[0]);
    Asks(pieces[0], dest, port);
    assert ps[0] == PackData(ks, key, pieces[0]);
    hide Crypt, R.AllWellFormed, R.NoHeaderCut, R.Stream, U.Possible, U.After, U.Lefts, U.NoCrossing, Q.WholeRun,
      Q.BeginsWith, R.Plain, Q.AsksConnect, R.Packed, PackData, U.Finished, U.Start;
    Q.WholeRunFinishes(ks, key, ps, room);
  }

  lemma Asks(plain: bytes, dest: Socks5.Address, port: nat)
    requires Q.BeginsWith(plain, 0x01, dest, port)
    ensures Q.AsksConnect(plain)
  {
  }
}
