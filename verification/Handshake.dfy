/** The hello / exchange handshake of one tunnel, run by a local session and a server session
    that talk over two FIFO byte channels and may read any number of bytes at a time. */
module Handshake {
  import opened Bytes
  import opened CounterMode
  import opened Packet

  const LENGTH_HANDSHAKE := 1024  // lproxy::readbuffer::length_handshake
  const KEY_LENGTH := 32
  const RANDOM_LENGTH := 10

  datatype Status = NotConnected | Connected | Hello | Auth | Data {
    function Rank(): nat {
      match this
      case NotConnected => 0
      case Connected => 1
      case Hello => 2
      case Auth => 3
      case Data => 4
    }
  }

  /** What a session waits for. */
  datatype Operation =
    | WriteHello
    | WriteExchange
    | ReadPacket(room: nat)
    | ReadRest(less: nat)
    | Relay      // the handshake is over on this side
    | Cancelled

  /** The ciphers, as functions: RSA takes a nonce because OAEP is randomised. */
  datatype Suite = Suite(
    ks: KeyStream,
    rsaEncrypt: (nat, bytes, nat, bytes) -> bytes,  // key size, public key, nonce, message
    rsaDecrypt: bytes -> bytes)

  datatype Config = Config(keysize: nat, publicKey: bytes, keys: set<bytes>)

  /** The server's public key really belongs to its private key, and packets can carry the results. */
  ghost predicate Matching(suite: Suite, config: Config) {
    && config.keysize < 0x1_0000
    && |config.publicKey| + 2 <= MAX_DATA
    && (forall key :: key in config.keys ==> |key| == KEY_LENGTH)
    && forall nonce: nat, m: bytes :: |m| < 1024 ==>
         var c := suite.rsaEncrypt(config.keysize, config.publicKey, nonce, m);
         |c| <= MAX_DATA && suite.rsaDecrypt(c) == m
  }

  /** What the integrity check makes of the bytes read so far for one packet. */
  datatype Frame = TooShort | Missing(less: nat) | Whole(pack: Packet)

  function FrameOf(got: bytes): Frame {
    if |got| < HEADER then TooShort
    else
      var p := FromWire(got);
      if |p.data| < p.DataLen() then Missing(p.DataLen() - |p.data|)
      else Whole(p.(data := p.data[..p.DataLen()]))
  }

  // ----- the packets -----

  /** The packets without data: a hello request, a denial, a bad packet. */
  function Control(kind: byte): Packet {
    WithLength(0x00, kind, 0, [])
  }

  function HelloReply(config: Config): Packet {
    var data := [config.keysize % 0x1_0000 / 256, config.keysize % 256] + config.publicKey;
    WithLength(0x00, HELLO_REPLY, |data|, data)
  }

  /** pack_exchange of the local side, from the bytes of a hello reply. */
  function ExchangeRequest(suite: Suite, authKey: bytes, helloData: bytes, random: bytes, nonce: nat): Packet
    requires |helloData| >= 2
  {
    var keysize := helloData[0] as int * 256 + helloData[1] as int;
    var cipher := suite.rsaEncrypt(keysize, helloData[2..], nonce, authKey + random);
    WithLength(0x00, EXCHANGE_REQUEST, |cipher|, cipher)
  }

  /** pack_exchange of the server side. */
  function ExchangeReply(suite: Suite, authKey: bytes, dataKey: bytes, random: bytes): Packet {
    var cipher := Crypt(suite.ks, authKey, dataKey + random);
    WithLength(0x00, EXCHANGE_REPLY, |cipher|, cipher)
  }

  // ----- the local session -----

  datatype Local = Local(status: Status, op: Operation, held: bytes, random: bytes, dataKey: bytes, echo: bytes)

  /** random and nonce are the values drawn if the handler needs them. Returns the bytes it writes. */
  function LocalRead(suite: Suite, authKey: bytes, l: Local, bs: bytes, random: bytes, nonce: nat): (Local, bytes) {
    var got := l.held + bs;
    match FrameOf(got)
    case TooShort => (l.(op := Cancelled), [])
    case Missing(less) => (l.(held := got, op := ReadRest(less)), [])
    case Whole(p) =>
      if p.kind == HELLO_REPLY && l.status == Hello && |p.data| >= 2 then
        (l.(held := [], random := random, op := WriteExchange),
         ExchangeRequest(suite, authKey, p.data, random, nonce).Wire())
      else if p.kind == EXCHANGE_REPLY && l.status == Auth && |p.data| >= KEY_LENGTH then
        var plain := Crypt(suite.ks, authKey, p.data);
        var l' := l.(held := [], dataKey := plain[..KEY_LENGTH], echo := plain[KEY_LENGTH..]);
        if l'.echo != l.random then (l'.(op := Cancelled), [])
        else (l'.(status := Data, op := Relay), [])
      else (l.(op := Cancelled), [])
  }

  function LocalWrote(l: Local): Local {
    match l.op
    case WriteHello => l.(status := Hello, op := ReadPacket(LENGTH_HANDSHAKE))
    case WriteExchange => l.(status := Auth, op := ReadPacket(LENGTH_HANDSHAKE))
    case _ => l
  }

  // ----- the server session -----

  datatype Server = Server(status: Status, op: Operation, held: bytes, accepted: bool, dataKey: bytes)

  function ServerRead(suite: Suite, config: Config, s: Server, bs: bytes, newKey: bytes): (Server, bytes) {
    var got := s.held + bs;
    match FrameOf(got)
    case TooShort => (s.(op := Cancelled), Control(BAD).Wire())
    case Missing(less) => (s.(held := got, op := ReadRest(less)), [])
    case Whole(p) =>
      if p.kind == HELLO_REQUEST && s.status == Hello then
        if p.DataLen() != 0 then (s.(op := Cancelled), Control(BAD).Wire())
        else (s.(held := [], op := WriteHello), HelloReply(config).Wire())
      else if p.kind == EXCHANGE_REQUEST && s.status == Auth && |suite.rsaDecrypt(p.data)| >= KEY_LENGTH then
        var plain := suite.rsaDecrypt(p.data);
        if plain[..KEY_LENGTH] !in config.keys then (s.(op := Cancelled), Control(DENY).Wire())
        else
          (s.(held := [], accepted := true, dataKey := newKey, op := WriteExchange),
           ExchangeReply(suite, plain[..KEY_LENGTH], newKey, plain[KEY_LENGTH..]).Wire())
      else (s.(op := Cancelled), [])
  }

  function ServerWrote(s: Server): Server {
    match s.op
    case WriteHello => s.(status := Auth, op := ReadPacket(LENGTH_HANDSHAKE))
    case WriteExchange => s.(status := Data, op := Relay)
    case _ => s
  }

  // ----- the two of them -----

  datatype World = World(local: Local, server: Server, up: bytes, down: bytes)

  datatype Event =
    | LocalWrites
    | LocalReads(count: nat, random: bytes, nonce: nat)
    | ServerWrites
    | ServerReads(count: nat, newKey: bytes)

  function Capacity(op: Operation): nat {
    match op
    case ReadPacket(room) => HEADER + room
    case ReadRest(less) => less
    case _ => 0
  }

  predicate Enabled(w: World, e: Event) {
    match e
    case LocalWrites => w.local.op.WriteHello? || w.local.op.WriteExchange?
    case ServerWrites => w.server.op.WriteHello? || w.server.op.WriteExchange?
    case LocalReads(n, random, _) => 1 <= n <= |w.down| && n <= Capacity(w.local.op) && |random| == RANDOM_LENGTH
    case ServerReads(n, newKey) => 1 <= n <= |w.up| && n <= Capacity(w.server.op) && |newKey| == KEY_LENGTH
  }

  function Step(suite: Suite, config: Config, authKey: bytes, w: World, e: Event): World
    requires Enabled(w, e)
  {
    match e
    case LocalWrites => w.(local := LocalWrote(w.local))
    case ServerWrites => w.(server := ServerWrote(w.server))
    case LocalReads(n, random, nonce) =>
      var (l, sent) := LocalRead(suite, authKey, w.local, w.down[..n], random, nonce);
      w.(local := l, down := w.down[n..], up := w.up + sent)
    case ServerReads(n, newKey) =>
      var (s, sent) := ServerRead(suite, config, w.server, w.up[..n], newKey);
      w.(server := s, up := w.up[n..], down := w.down + sent)
  }

  /** Both sockets connected: the local side has started to write its hello. */
  const INIT: World := World(
    Local(Connected, WriteHello, [], [], [], []),
    Server(Hello, ReadPacket(LENGTH_HANDSHAKE), [], false, []),
    Control(HELLO_REQUEST).Wire(), [])

  /** A first read of a packet that returns less than its header. */
  predicate CutsHeader(w: World, e: Event) {
    || (e.LocalReads? && w.local.op.ReadPacket? && e.count < HEADER)
    || (e.ServerReads? && w.server.op.ReadPacket? && e.count < HEADER)
  }

  predicate Possible(suite: Suite, config: Config, authKey: bytes, w: World, run: seq<Event>)
    decreases |run|
  {
    run == []
    || (Enabled(w, run[0]) && Possible(suite, config, authKey, Step(suite, config, authKey, w, run[0]), run[1..]))
  }

  function After(suite: Suite, config: Config, authKey: bytes, w: World, run: seq<Event>): World
    requires Possible(suite, config, authKey, w, run)
    decreases |run|
  {
    if run == [] then w else After(suite, config, authKey, Step(suite, config, authKey, w, run[0]), run[1..])
  }

  // ----- the invariant: at most one packet is under way -----

  /** A reader that holds the first part of `wire`, with the rest in its channel. */
  ghost predicate Receiving(op: Operation, held: bytes, channel: bytes, wire: bytes) {
    && held + channel == wire
    && (held == [] ==> !op.ReadRest?)
    && (held != [] ==> HEADER <= |held| < |wire| && op == ReadRest(|wire| - |held|))
  }

  ghost predicate LocalAwaitsHello(l: Local) {
    (l.status == Connected && l.op == WriteHello && l.held == [])
    || (l.status == Hello && (l.op == ReadPacket(LENGTH_HANDSHAKE) || l.op.ReadRest?))
  }

  ghost predicate LocalAwaitsExchange(l: Local) {
    && |l.random| == RANDOM_LENGTH
    && ((l.status == Hello && l.op == WriteExchange && l.held == [])
        || (l.status == Auth && (l.op == ReadPacket(LENGTH_HANDSHAKE) || l.op.ReadRest?)))
  }

  ghost predicate ServerAwaitsExchange(s: Server) {
    && !s.accepted
    && ((s.status == Hello && s.op == WriteHello && s.held == [])
        || (s.status == Auth && (s.op == ReadPacket(LENGTH_HANDSHAKE) || s.op.ReadRest?)))
  }

  ghost predicate ServerDone(s: Server) {
    && s.accepted && |s.dataKey| == KEY_LENGTH && s.held == []
    && ((s.status == Auth && s.op == WriteExchange) || (s.status == Data && s.op == Relay))
  }

  ghost predicate Agreed(l: Local, s: Server) {
    && l.status == Data && l.op == Relay
    && l.echo == l.random && |l.random| == RANDOM_LENGTH
    && l.dataKey == s.dataKey
  }

  /** The hello request is on its way to the server. */
  ghost predicate HelloUp(w: World) {
    && LocalAwaitsHello(w.local) && w.local.held == [] && !w.local.op.ReadRest? && w.down == []
    && w.server == INIT.server && w.up == Control(HELLO_REQUEST).Wire()
  }

  /** The hello reply is on its way to the local side. */
  ghost predicate HelloDown(config: Config, w: World) {
    && LocalAwaitsHello(w.local) && Receiving(w.local.op, w.local.held, w.down, HelloReply(config).Wire())
    && ServerAwaitsExchange(w.server) && w.server.held == [] && !w.server.op.ReadRest? && w.up == []
  }

  /** The exchange request is on its way to the server. */
  ghost predicate ExchangeUp(suite: Suite, config: Config, authKey: bytes, w: World, nonce: nat) {
    && LocalAwaitsExchange(w.local) && w.local.held == [] && !w.local.op.ReadRest? && w.down == []
    && ServerAwaitsExchange(w.server)
    && Receiving(w.server.op, w.server.held, w.up,
                 ExchangeRequest(suite, authKey, HelloReply(config).data, w.local.random, nonce).Wire())
  }

  /** The exchange reply is on its way to the local side. */
  ghost predicate ExchangeDown(suite: Suite, config: Config, authKey: bytes, w: World) {
    && authKey in config.keys && ServerDone(w.server) && w.up == []
    && LocalAwaitsExchange(w.local)
    && Receiving(w.local.op, w.local.held, w.down,
                 ExchangeReply(suite, authKey, w.server.dataKey, w.local.random).Wire())
  }

  ghost predicate Settled(config: Config, authKey: bytes, w: World) {
    authKey in config.keys && Agreed(w.local, w.server) && ServerDone(w.server) && w.up == [] && w.down == []
  }

  /** The server has cancelled after writing one last packet without data. */
  ghost predicate ServerGone(w: World, kind: byte) {
    && w.server.op == Cancelled && !w.server.accepted && w.server.status.Rank() < 4
    && (LocalAwaitsHello(w.local) || LocalAwaitsExchange(w.local))
    && Receiving(w.local.op, w.local.held, w.down, Control(kind).Wire())
  }

  ghost predicate LocalGone(config: Config, authKey: bytes, w: World) {
    && w.local.op == Cancelled && w.local.status.Rank() < 4
    && (if w.server.op == Cancelled then !w.server.accepted && w.server.status.Rank() < 4
        else
          && w.up == [] && w.server.held == [] && !w.server.op.ReadRest?
          && (ServerAwaitsExchange(w.server) || (authKey in config.keys && ServerDone(w.server))))
  }

  lemma FrameOfPart(wire: bytes, got: bytes, rest: bytes)
    requires |wire| >= HEADER && got + rest == wire && FromWire(wire).DataLen() == |wire| - HEADER
    ensures FrameOf(got) == if |got| < HEADER then TooShort
                            else if |got| < |wire| then Missing(|wire| - |got|)
                            else Whole(FromWire(wire))
  {
    assert forall i :: 0 <= i < |got| ==> got[i] == wire[i];
    if |got| == |wire| {
      assert got == wire;
    }
  }

  lemma HonestLength(version: byte, kind: byte, data: bytes)
    requires |data| <= MAX_DATA
    ensures var p := WithLength(version, kind, |data|, data);
            p.DataLen() == |data| && FromWire(p.Wire()) == p
  {
    LengthField(version, kind, |data|, data);
  }

  lemma ControlFields(kind: byte)
    ensures var p := Control(kind);
            p.kind == kind && p.DataLen() == 0 && p.data == [] && |p.Wire()| == HEADER && FromWire(p.Wire()) == p
  {
    HonestLength(0x00, kind, []);
  }

  /** The packets of the handshake on the wire. */
  lemma OnTheWire(suite: Suite, config: Config, authKey: bytes, dataKey: bytes, random: bytes, nonce: nat)
    requires Matching(suite, config) && |authKey| == 32 && |dataKey| == 32 && |random| == RANDOM_LENGTH
    ensures INIT.up == [0x00, 0x00, 0x00, 0x00]
    ensures Control(DENY).Wire() == [0x00, 0x04, 0x00, 0x00] && Control(BAD).Wire() == [0x00, 0xff, 0x00, 0x00]
    ensures var n, k := |config.publicKey| + 2, config.keysize;
            HelloReply(config).Wire() == [0x00, 0x01, n / 256, n % 256, k / 256, k % 256] + config.publicKey
    ensures var cipher := suite.rsaEncrypt(config.keysize, config.publicKey, nonce, authKey + random);
            ExchangeRequest(suite, authKey, HelloReply(config).data, random, nonce).Wire()
            == [0x00, 0x02, |cipher| / 256, |cipher| % 256] + cipher
    ensures ExchangeReply(suite, authKey, dataKey, random).Wire()
            == [0x00, 0x03, 0x00, 42] + Crypt(suite.ks, authKey, dataKey + random)
  {
    HelloOnTheWire(suite, config);
    RequestOnTheWire(suite, config, authKey, random, nonce);
    hide HelloReply, ExchangeRequest, Matching;
  }

  lemma HelloOnTheWire(suite: Suite, config: Config)
    requires Matching(suite, config)
    ensures var n, k := |config.publicKey| + 2, config.keysize;
            HelloReply(config).Wire() == [0x00, 0x01, n / 256, n % 256, k / 256, k % 256] + config.publicKey
  {
  }

  lemma RequestOnTheWire(suite: Suite, config: Config, authKey: bytes, random: bytes, nonce: nat)
    requires Matching(suite, config) && |authKey| == 32 && |random| == RANDOM_LENGTH
    ensures var cipher := suite.rsaEncrypt(config.keysize, config.publicKey, nonce, authKey + random);
            ExchangeRequest(suite, authKey, HelloReply(config).data, random, nonce).Wire()
            == [0x00, 0x02, |cipher| / 256, |cipher| % 256] + cipher
  {
    HelloReplyFields(suite, config);
    ExchangeRequestOpens(suite, config, authKey, random, nonce);
    hide HelloReply;
  }

  lemma HelloReplyFields(suite: Suite, config: Config)
    requires Matching(suite, config)
    ensures var p := HelloReply(config);
            && |p.data| >= 2 && p.DataLen() == |p.data| && p.kind == HELLO_REPLY && FromWire(p.Wire()) == p
            && p.data[0] as int * 256 + p.data[1] as int == config.keysize && p.data[2..] == config.publicKey
  {
    var data := [config.keysize % 0x1_0000 / 256, config.keysize % 256] + config.publicKey;
    HonestLength(0x00, HELLO_REPLY, data);
  }

  /** The server gets back the key and the random string that the local side encrypted. */
  lemma ExchangeRequestOpens(suite: Suite, config: Config, authKey: bytes, random: bytes, nonce: nat)
    requires Matching(suite, config) && |authKey| == KEY_LENGTH && |random| == RANDOM_LENGTH
    ensures var p := ExchangeRequest(suite, authKey, HelloReply(config).data, random, nonce);
            && p.DataLen() == |p.data| && p.kind == EXCHANGE_REQUEST && FromWire(p.Wire()) == p
            && suite.rsaDecrypt(p.data) == authKey + random
  {
    HelloReplyFields(suite, config);
    var c := suite.rsaEncrypt(config.keysize, config.publicKey, nonce, authKey + random);
    HonestLength(0x00, EXCHANGE_REQUEST, c);
  }

  lemma ExchangeReplyOpens(suite: Suite, authKey: bytes, dataKey: bytes, random: bytes)
    requires |dataKey| == KEY_LENGTH && |random| == RANDOM_LENGTH
    ensures var p := ExchangeReply(suite, authKey, dataKey, random);
            && p.DataLen() == |p.data| && p.kind == EXCHANGE_REPLY && FromWire(p.Wire()) == p
            && Crypt(suite.ks, authKey, p.data) == dataKey + random
  {
    var c := Crypt(suite.ks, authKey, dataKey + random);
    HonestLength(0x00, EXCHANGE_REPLY, c);
    CryptTwice(suite.ks, authKey, dataKey + random);
  }

  /** A read by a reader that is receiving `wire`: the session ends early, or keeps receiving, or has it all. */
  lemma ReadOfPart(op: Operation, held: bytes, channel: bytes, wire: bytes, n: nat)
    requires |wire| >= HEADER && FromWire(wire).DataLen() == |wire| - HEADER
    requires Receiving(op, held, channel, wire) && 1 <= n <= |channel|
    ensures match FrameOf(held + channel[..n])
            case TooShort => held == [] && n < HEADER
            case Missing(less) => Receiving(ReadRest(less), held + channel[..n], channel[n..], wire)
            case Whole(p) => p == FromWire(wire) && channel[n..] == []
  {
    var got := held + channel[..n];
    assert channel == channel[..n] + channel[n..];
    assert got + channel[n..] == wire;
    FrameOfPart(wire, got, channel[n..]);
  }

  lemma StepHelloUp(suite: Suite, config: Config, authKey: bytes, w: World, e: Event)
    requires Enabled(w, e) && HelloUp(w)
    ensures var w' := Step(suite, config, authKey, w, e);
            if !e.ServerReads? then HelloUp(w')
            else if CutsHeader(w, e) then ServerGone(w', BAD)
            else HelloDown(config, w')
  {
    hide Control;
    if e.ServerReads? {
      var wire := Control(HELLO_REQUEST).Wire();
      ControlFields(HELLO_REQUEST);
      ReadOfPart(w.server.op, w.server.held, w.up, wire, e.count);
      assert FrameOf([] + w.up[..e.count]) == if e.count < HEADER then TooShort else Whole(Control(HELLO_REQUEST));
      assert [] + HelloReply(config).Wire() == HelloReply(config).Wire();
      assert [] + Control(BAD).Wire() == Control(BAD).Wire();
    }
  }

  lemma StepHelloDown(suite: Suite, config: Config, authKey: bytes, w: World, e: Event)
    requires Matching(suite, config)
    requires Enabled(w, e) && HelloDown(config, w)
    ensures var w' := Step(suite, config, authKey, w, e);
            || HelloDown(config, w')
            || (e.LocalReads? && ExchangeUp(suite, config, authKey, w', e.nonce))
            || (CutsHeader(w, e) && LocalGone(config, authKey, w'))
  {
    if e.LocalReads? {
      HelloDownRead(suite, config, authKey, w, e);
    } else {
      hide HelloReply, Control, LocalRead;
    }
  }

  lemma HelloDownRead(suite: Suite, config: Config, authKey: bytes, w: World, e: Event)
    requires Matching(suite, config) && e.LocalReads?
    requires Enabled(w, e) && HelloDown(config, w)
    ensures var w' := Step(suite, config, authKey, w, e);
            || HelloDown(config, w')
            || ExchangeUp(suite, config, authKey, w', e.nonce)
            || (CutsHeader(w, e) && LocalGone(config, authKey, w'))
  {
    HelloReplyFields(suite, config);
    var reply := HelloReply(config);
    hide HelloReply, ExchangeRequest, Matching, Control, ServerRead;
    ReadOfPart(w.local.op, w.local.held, w.down, reply.Wire(), e.count);
    hide FrameOf;
    var request := ExchangeRequest(suite, authKey, reply.data, e.random, e.nonce);
    assert [] + request.Wire() == request.Wire();
  }

  lemma StepExchangeUp(suite: Suite, config: Config, authKey: bytes, w: World, e: Event, nonce: nat)
    requires Matching(suite, config) && |authKey| == KEY_LENGTH
    requires Enabled(w, e) && ExchangeUp(suite, config, authKey, w, nonce)
    ensures var w' := Step(suite, config, authKey, w, e);
            || ExchangeUp(suite, config, authKey, w', nonce)
            || (authKey in config.keys && ExchangeDown(suite, config, authKey, w'))
            || (authKey !in config.keys && ServerGone(w', DENY))
            || (CutsHeader(w, e) && ServerGone(w', BAD))
  {
    if e.ServerReads? {
      ExchangeRequestOpens(suite, config, authKey, w.local.random, nonce);
      HelloReplyFields(suite, config);
      hide FrameOf, HelloReply, ExchangeRequest, ExchangeReply, Control, Matching;
      var request := ExchangeRequest(suite, authKey, HelloReply(config).data, w.local.random, nonce);
      ReadOfPart(w.server.op, w.server.held, w.up, request.Wire(), e.count);
      var plain := authKey + w.local.random;
      assert plain[..KEY_LENGTH] == authKey && plain[KEY_LENGTH..] == w.local.random;
      var reply := ExchangeReply(suite, authKey, e.newKey, w.local.random);
      assert [] + reply.Wire() == reply.Wire();
      assert [] + Control(DENY).Wire() == Control(DENY).Wire();
      assert [] + Control(BAD).Wire() == Control(BAD).Wire();
    }
  }

  lemma StepExchangeDown(suite: Suite, config: Config, authKey: bytes, w: World, e: Event)
    requires Matching(suite, config) && |authKey| == KEY_LENGTH
    requires Enabled(w, e) && ExchangeDown(suite, config, authKey, w)
    ensures var w' := Step(suite, config, authKey, w, e);
            || ExchangeDown(suite, config, authKey, w')
            || Settled(config, authKey, w')
            || (CutsHeader(w, e) && LocalGone(config, authKey, w'))
  {
    if e.LocalReads? {
      var l, s := w.local, w.server;
      ExchangeReplyOpens(suite, authKey, s.dataKey, l.random);
      var reply := ExchangeReply(suite, authKey, s.dataKey, l.random);
      ReadOfPart(l.op, l.held, w.down, reply.Wire(), e.count);
      var plain := s.dataKey + l.random;
      assert plain[..KEY_LENGTH] == s.dataKey && plain[KEY_LENGTH..] == l.random;
    }
  }

  lemma StepServerGone(suite: Suite, config: Config, authKey: bytes, w: World, e: Event, kind: byte)
    requires kind in {DENY, BAD}
    requires Enabled(w, e) && ServerGone(w, kind)
    ensures var w' := Step(suite, config, authKey, w, e);
            w'.server.op == Cancelled && (ServerGone(w', kind) || (e.LocalReads? && LocalGone(config, authKey, w')))
  {
    hide Control;
    if e.LocalReads? {
      ControlFields(kind);
      ReadOfPart(w.local.op, w.local.held, w.down, Control(kind).Wire(), e.count);
    }
  }

  lemma StepLocalGone(suite: Suite, config: Config, authKey: bytes, w: World, e: Event)
    requires Enabled(w, e) && LocalGone(config, authKey, w)
    ensures var w' := Step(suite, config, authKey, w, e);
            LocalGone(config, authKey, w') && (w.server.op == Cancelled ==> w'.server.op == Cancelled)
  {
  }

  lemma StepSettled(suite: Suite, config: Config, authKey: bytes, w: World, e: Event)
    requires Enabled(w, e) && Settled(config, authKey, w)
    ensures Settled(config, authKey, Step(suite, config, authKey, w, e))
  {
  }

  // ----- runs -----

  /** No header was cut so far: one packet is under way, or both agree, or the key was refused. */
  ghost predicate OnTrack(suite: Suite, config: Config, authKey: bytes, w: World) {
    || HelloUp(w)
    || HelloDown(config, w)
    || (exists nonce: nat :: ExchangeUp(suite, config, authKey, w, nonce))
    || ExchangeDown(suite, config, authKey, w)
    || Settled(config, authKey, w)
    || (authKey !in config.keys && (ServerGone(w, DENY) || (w.server.op == Cancelled && LocalGone(config, authKey, w))))
  }

  ghost predicate Reachable(suite: Suite, config: Config, authKey: bytes, w: World) {
    OnTrack(suite, config, authKey, w) || ServerGone(w, BAD) || LocalGone(config, authKey, w)
  }

  lemma StepReachable(suite: Suite, config: Config, authKey: bytes, w: World, e: Event)
    requires Matching(suite, config) && |authKey| == KEY_LENGTH
    requires Enabled(w, e) && Reachable(suite, config, authKey, w)
    ensures var w' := Step(suite, config, authKey, w, e);
            && Reachable(suite, config, authKey, w')
            && (OnTrack(suite, config, authKey, w) && !CutsHeader(w, e) ==> OnTrack(suite, config, authKey, w'))
  {
    hide HelloUp, HelloDown, ExchangeUp, ExchangeDown, Settled, ServerGone, LocalGone;
    hide Step, Enabled, CutsHeader, Matching;
    if HelloUp(w) { StepHelloUp(suite, config, authKey, w, e); }
    if HelloDown(config, w) { StepHelloDown(suite, config, authKey, w, e); }
    forall nonce: nat | ExchangeUp(suite, config, authKey, w, nonce)
      ensures var w' := Step(suite, config, authKey, w, e);
              && Reachable(suite, config, authKey, w')
              && (!CutsHeader(w, e) ==> OnTrack(suite, config, authKey, w'))
    {
      StepExchangeUp(suite, config, authKey, w, e, nonce);
    }
    if ExchangeDown(suite, config, authKey, w) { StepExchangeDown(suite, config, authKey, w, e); }
    if Settled(config, authKey, w) { StepSettled(suite, config, authKey, w, e); }
    if ServerGone(w, DENY) { StepServerGone(suite, config, authKey, w, e, DENY); }
    if ServerGone(w, BAD) { StepServerGone(suite, config, authKey, w, e, BAD); }
    if LocalGone(config, authKey, w) { StepLocalGone(suite, config, authKey, w, e); }
  }

  predicate NoHeaderCut(suite: Suite, config: Config, authKey: bytes, w: World, run: seq<Event>)
    requires Possible(suite, config, authKey, w, run)
    decreases |run|
  {
    run == []
    || (&& !CutsHeader(w, run[0])
        && NoHeaderCut(suite, config, authKey, Step(suite, config, authKey, w, run[0]), run[1..]))
  }

  lemma {:induction false} RunReachable(suite: Suite, config: Config, authKey: bytes, w: World, run: seq<Event>)
    requires Matching(suite, config) && |authKey| == KEY_LENGTH
    requires Reachable(suite, config, authKey, w) && Possible(suite, config, authKey, w, run)
    ensures var end := After(suite, config, authKey, w, run);
            && Reachable(suite, config, authKey, end)
            && (OnTrack(suite, config, authKey, w) && NoHeaderCut(suite, config, authKey, w, run)
                ==> OnTrack(suite, config, authKey, end))
    decreases |run|
  {
    hide Reachable, OnTrack, Step, Enabled, CutsHeader, Matching;
    if run != [] {
      StepReachable(suite, config, authKey, w, run[0]);
      RunReachable(suite, config, authKey, Step(suite, config, authKey, w, run[0]), run[1..]);
    }
  }

  lemma InitOnTrack(suite: Suite, config: Config, authKey: bytes)
    ensures OnTrack(suite, config, authKey, INIT)
  {
    assert HelloUp(INIT);
  }

  /** In every run, a local side that reached status_data got its own random string back from a server that
      accepted its key, and both sides hold the same 32-byte data key; a server in status_data accepted the key. */
  lemma Agreement(suite: Suite, config: Config, authKey: bytes, run: seq<Event>)
    requires Matching(suite, config) && |authKey| == KEY_LENGTH
    requires Possible(suite, config, authKey, INIT, run)
    ensures var w := After(suite, config, authKey, INIT, run);
            && (w.local.status == Data ==>
                  && w.local.echo == w.local.random && |w.local.random| == RANDOM_LENGTH
                  && authKey in config.keys && w.server.accepted
                  && w.local.dataKey == w.server.dataKey && |w.local.dataKey| == KEY_LENGTH)
            && (w.server.status == Data ==> authKey in config.keys && w.server.accepted)
  {
    InitOnTrack(suite, config, authKey);
    RunReachable(suite, config, authKey, INIT, run);
    ReachableMeans(suite, config, authKey, After(suite, config, authKey, INIT, run));
  }

  lemma ReachableMeans(suite: Suite, config: Config, authKey: bytes, w: World)
    requires Reachable(suite, config, authKey, w)
    ensures w.local.status == Data ==> Settled(config, authKey, w)
    ensures w.server.status == Data ==> authKey in config.keys && w.server.accepted
  {
    hide Receiving, HelloReply, ExchangeRequest, ExchangeReply, Control;
  }

  /** No socket operation is pending that could complete. */
  predicate Stuck(w: World) {
    && !Enabled(w, LocalWrites) && !Enabled(w, ServerWrites)
    && (Capacity(w.local.op) == 0 || w.down == [])
    && (Capacity(w.server.op) == 0 || w.up == [])
  }

  /** A header was cut: the server has cancelled and its last packet is on its way, or the local side has. */
  ghost predicate OffTrack(config: Config, authKey: bytes, w: World) {
    ServerGone(w, BAD) || LocalGone(config, authKey, w)
  }

  lemma StepOffTrack(suite: Suite, config: Config, authKey: bytes, w: World, e: Event)
    requires Matching(suite, config) && authKey in config.keys && |authKey| == KEY_LENGTH && Enabled(w, e)
    requires OffTrack(config, authKey, w) || (OnTrack(suite, config, authKey, w) && CutsHeader(w, e))
    ensures OffTrack(config, authKey, Step(suite, config, authKey, w, e))
  {
    if ServerGone(w, BAD) {
      StepServerGone(suite, config, authKey, w, e, BAD);
    } else if LocalGone(config, authKey, w) {
      StepLocalGone(suite, config, authKey, w, e);
    } else {
      CutLeavesTrack(suite, config, authKey, w, e);
    }
  }

  lemma CutLeavesTrack(suite: Suite, config: Config, authKey: bytes, w: World, e: Event)
    requires Matching(suite, config) && authKey in config.keys && |authKey| == KEY_LENGTH && Enabled(w, e)
    requires OnTrack(suite, config, authKey, w) && CutsHeader(w, e)
    ensures OffTrack(config, authKey, Step(suite, config, authKey, w, e))
  {
    CutWhileReceiving(suite, config, authKey, w, e);
    hide HelloUp, HelloDown, ExchangeUp, ExchangeDown, Settled, ServerGone, LocalGone, Step, Enabled, Matching;
    if HelloUp(w) {
      StepHelloUp(suite, config, authKey, w, e);
    } else if HelloDown(config, w) {
      StepHelloDown(suite, config, authKey, w, e);
    } else if ExchangeDown(suite, config, authKey, w) {
      StepExchangeDown(suite, config, authKey, w, e);
    } else if nonce: nat :| ExchangeUp(suite, config, authKey, w, nonce) {
      StepExchangeUp(suite, config, authKey, w, e, nonce);
    }
  }

  /** A read that cuts a header ends the session of the side that reads. */
  lemma CutWhileReceiving(suite: Suite, config: Config, authKey: bytes, w: World, e: Event)
    requires Enabled(w, e) && CutsHeader(w, e) && OnTrack(suite, config, authKey, w) && authKey in config.keys
    ensures var w' := Step(suite, config, authKey, w, e);
            && (e.LocalReads? || e.ServerReads?)
            && !Settled(config, authKey, w)
            && (if e.LocalReads? then w'.local.op == Cancelled else w'.server.op == Cancelled)
  {
  }

  lemma {:induction false} RunOffTrack(suite: Suite, config: Config, authKey: bytes, w: World, run: seq<Event>)
    requires Matching(suite, config) && authKey in config.keys && |authKey| == KEY_LENGTH
    requires Possible(suite, config, authKey, w, run)
    requires OffTrack(config, authKey, w)
             || (OnTrack(suite, config, authKey, w) && !NoHeaderCut(suite, config, authKey, w, run))
    ensures OffTrack(config, authKey, After(suite, config, authKey, w, run))
    decreases |run|
  {
    hide OnTrack, OffTrack, Step, Enabled, CutsHeader, Matching;
    if run != [] {
      if OffTrack(config, authKey, w) || CutsHeader(w, run[0]) {
        StepOffTrack(suite, config, authKey, w, run[0]);
      } else {
        StepStaysOnTrack(suite, config, authKey, w, run[0]);
      }
      RunOffTrack(suite, config, authKey, Step(suite, config, authKey, w, run[0]), run[1..]);
    }
  }

  lemma StepStaysOnTrack(suite: Suite, config: Config, authKey: bytes, w: World, e: Event)
    requires Matching(suite, config) && |authKey| == KEY_LENGTH
    requires Enabled(w, e) && OnTrack(suite, config, authKey, w) && !CutsHeader(w, e)
    ensures OnTrack(suite, config, authKey, Step(suite, config, authKey, w, e))
  {
    StepReachable(suite, config, authKey, w, e);
  }

  /** A run that cannot go on has connected both sides with the same key and nothing left in the channels
      exactly when the server knows the key and no header was cut; otherwise the local side has cancelled, and
      if the server does not know the key and no header was cut, so has the server. */
  lemma Completes(suite: Suite, config: Config, authKey: bytes, run: seq<Event>)
    requires Matching(suite, config) && |authKey| == KEY_LENGTH
    requires Possible(suite, config, authKey, INIT, run)
    requires Stuck(After(suite, config, authKey, INIT, run))
    ensures var w := After(suite, config, authKey, INIT, run);
            var uncut := NoHeaderCut(suite, config, authKey, INIT, run);
            if authKey in config.keys && uncut then
              && w.local.status == Data && w.server.status == Data
              && w.local.dataKey == w.server.dataKey && w.up == [] && w.down == []
            else
              && w.local.op == Cancelled && w.local.status != Data
              && (uncut ==> w.server.op == Cancelled && w.server.status != Data)
  {
    hide *;
    InitOnTrack(suite, config, authKey);
    OnTrackReachable(suite, config, authKey, INIT);
    RunReachable(suite, config, authKey, INIT, run);
    var w := After(suite, config, authKey, INIT, run);
    if NoHeaderCut(suite, config, authKey, INIT, run) {
      StuckMeans(suite, config, authKey, w);
    } else if authKey in config.keys {
      RunOffTrack(suite, config, authKey, INIT, run);
      StuckOffTrack(config, authKey, w);
    } else {
      StuckUnknown(suite, config, authKey, w);
    }
    EndMeans(suite, config, authKey, w);
  }

  lemma OnTrackReachable(suite: Suite, config: Config, authKey: bytes, w: World)
    requires OnTrack(suite, config, authKey, w)
    ensures Reachable(suite, config, authKey, w)
  {
  }

  lemma EndMeans(suite: Suite, config: Config, authKey: bytes, w: World)
    ensures Settled(config, authKey, w) ==> w.local.status == Data && w.local.dataKey == w.server.dataKey
                                            && w.up == [] && w.down == []
    ensures LocalGone(config, authKey, w) ==>
              && w.local.op == Cancelled && w.local.status != Data
              && (w.server.op == Cancelled ==> w.server.status != Data)
  {
  }

  lemma StuckMeans(suite: Suite, config: Config, authKey: bytes, w: World)
    requires OnTrack(suite, config, authKey, w) && Stuck(w)
    ensures if authKey in config.keys then Settled(config, authKey, w) && w.server.status == Data
            else LocalGone(config, authKey, w) && w.server.op == Cancelled
  {
    hide HelloReply, ExchangeRequest, ExchangeReply, Control;
  }

  lemma StuckOffTrack(config: Config, authKey: bytes, w: World)
    requires OffTrack(config, authKey, w) && Stuck(w)
    ensures LocalGone(config, authKey, w)
  {
    ControlFields(BAD);
    hide Control;
  }

  lemma StuckUnknown(suite: Suite, config: Config, authKey: bytes, w: World)
    requires Reachable(suite, config, authKey, w) && Stuck(w) && authKey !in config.keys
    ensures LocalGone(config, authKey, w)
  {
    if OnTrack(suite, config, authKey, w) {
      StuckMeans(suite, config, authKey, w);
    } else {
      StuckOffTrack(config, authKey, w);
    }
  }

  /** Along every run both statuses only move forward. */
  lemma StatusesAdvance(suite: Suite, config: Config, authKey: bytes, run: seq<Event>, e: Event)
    requires Matching(suite, config) && |authKey| == KEY_LENGTH
    requires Possible(suite, config, authKey, INIT, run) && Enabled(After(suite, config, authKey, INIT, run), e)
    ensures var w := After(suite, config, authKey, INIT, run);
            var w' := Step(suite, config, authKey, w, e);
            && w.local.status.Rank() <= w'.local.status.Rank()
            && w.server.status.Rank() <= w'.server.status.Rank()
  {
    hide Matching, Step, Enabled, HelloUp, HelloDown, ExchangeUp, ExchangeDown, Settled, ServerGone, LocalGone;
    InitOnTrack(suite, config, authKey);
    RunReachable(suite, config, authKey, INIT, run);
    StepAdvances(suite, config, authKey, After(suite, config, authKey, INIT, run), e);
  }

  lemma StepAdvances(suite: Suite, config: Config, authKey: bytes, w: World, e: Event)
    requires Reachable(suite, config, authKey, w) && Enabled(w, e)
    ensures var w' := Step(suite, config, authKey, w, e);
            && w.local.status.Rank() <= w'.local.status.Rank()
            && w.server.status.Rank() <= w'.server.status.Rank()
  {
    hide Receiving, HelloReply, ExchangeRequest, ExchangeReply, Control, FrameOf;
  }
}
