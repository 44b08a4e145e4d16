/** Each session of the handshake alone, with a channel that may bring any bytes at all, whoever sent them. */
module AnyPeer {
  import opened Bytes
  import opened CounterMode
  import opened Packet
  import opened Handshake

  /** What was read begins with a whole packet of this type that carries these data bytes. */
  predicate HasPacket(got: bytes, kind: byte, data: bytes) {
    && |got| >= 4 && got[1] == kind
    && |data| == got[2] as int * 256 + got[3] as int
    && data <= got[4..]
  }

  lemma FrameIs(got: bytes)
    ensures forall kind: byte, data: bytes ::
              HasPacket(got, kind, data) <==>
              FrameOf(got).Whole? && FrameOf(got).pack.kind == kind && FrameOf(got).pack.data == data
  {
    forall kind: byte, data: bytes
      ensures HasPacket(got, kind, data) <==>
              FrameOf(got).Whole? && FrameOf(got).pack.kind == kind && FrameOf(got).pack.data == data
    {
      if |got| >= 4 && |got| - 4 >= FromWire(got).DataLen() {
        assert data <= got[4..] ==> data == got[4..][..|data|];
      }
    }
  }

  // ----- the local session -----

  datatype LocalEvent =
    | Sent                                              // the pending write completes
    | Arrived(bs: bytes, random: bytes, nonce: nat)     // a read completes; random and nonce as in LocalRead

  function LocalStep(suite: Suite, authKey: bytes, l: Local, e: LocalEvent): Local {
    match e
    case Sent => LocalWrote(l)
    case Arrived(bs, random, nonce) => LocalRead(suite, authKey, l, bs, random, nonce).0
  }

  predicate LocalEnabled(l: Local, e: LocalEvent) {
    match e
    case Sent => l.op.WriteHello? || l.op.WriteExchange?
    case Arrived(bs, _, _) => 1 <= |bs| <= Capacity(l.op)
  }

  function LocalAfter(suite: Suite, authKey: bytes, run: seq<LocalEvent>): Local {
    if run == [] then INIT.local
    else LocalStep(suite, authKey, LocalAfter(suite, authKey, run[..|run| - 1]), run[|run| - 1])
  }

  predicate LocalPossible(suite: Suite, authKey: bytes, run: seq<LocalEvent>) {
    run == []
    || (&& LocalPossible(suite, authKey, run[..|run| - 1])
        && LocalEnabled(LocalAfter(suite, authKey, run[..|run| - 1]), run[|run| - 1]))
  }

  /** One read takes the session to status_data exactly when it is in status_auth and has read a whole exchange
      reply that decrypts, behind a key, to the random string the session holds. */
  lemma DataExactly(suite: Suite, authKey: bytes, l: Local, bs: bytes, random: bytes, nonce: nat)
    requires l.status != Data
    ensures LocalRead(suite, authKey, l, bs, random, nonce).0.status == Data <==>
            && l.status == Auth
            && exists cipher: bytes :: HasPacket(l.held + bs, 0x03, cipher) && |cipher| >= 32
                                       && Crypt(suite.ks, authKey, cipher)[32..] == l.random
  {
    FrameIs(l.held + bs);
    if FrameOf(l.held + bs).Whole? {
      var p := FrameOf(l.held + bs).pack;
      assert HasPacket(l.held + bs, p.kind, p.data);
    }
    hide FrameOf, HasPacket, Crypt;
  }

  /** A whole exchange reply in status_auth: with the right echo its key is taken, with another one the session
      is cancelled where it is, and in either case nothing is written. */
  lemma EchoDecides(suite: Suite, authKey: bytes, l: Local, bs: bytes, random: bytes, nonce: nat, cipher: bytes)
    requires l.status == Auth && HasPacket(l.held + bs, 0x03, cipher) && |cipher| >= 32
    ensures var (l', sent) := LocalRead(suite, authKey, l, bs, random, nonce);
            var plain := Crypt(suite.ks, authKey, cipher);
            && sent == [] && l'.random == l.random
            && (if plain[32..] == l.random then l'.status == Data && l'.op == Relay && l'.dataKey == plain[..32]
                else l'.status == Auth && l'.op == Cancelled)
  {
    FrameIs(l.held + bs);
    hide FrameOf, HasPacket, Crypt;
  }

  /** A whole hello reply in status_hello. */
  ghost predicate HelloCame(l: Local, got: bytes) {
    l.status == Hello && exists data: bytes :: HasPacket(got, 0x01, data) && |data| >= 2
  }

  /** A whole exchange reply with the right echo, in status_auth. */
  ghost predicate EchoCame(suite: Suite, authKey: bytes, l: Local, got: bytes) {
    && l.status == Auth
    && exists cipher: bytes :: HasPacket(got, 0x03, cipher) && |cipher| >= 32
                               && Crypt(suite.ks, authKey, cipher)[32..] == l.random
  }

  /** What else one read leads to: something is written exactly in answer to a hello reply, the session waits for more
      exactly while it has a header and no whole packet, and everything else but the right echo cancels it. */
  lemma LocalReadsExactly(suite: Suite, authKey: bytes, l: Local, bs: bytes, random: bytes, nonce: nat)
    requires l.status != Data
    ensures var got := l.held + bs;
            var (l', sent) := LocalRead(suite, authKey, l, bs, random, nonce);
            var whole := exists kind: byte, data: bytes :: HasPacket(got, kind, data);
            && (sent != [] <==> HelloCame(l, got)) && (l'.op == WriteExchange <==> HelloCame(l, got))
            && (l'.op.ReadRest? <==> |got| >= 4 && !whole)
            && (l'.op == Cancelled <==>
                  |got| < 4 || (whole && !HelloCame(l, got) && !EchoCame(suite, authKey, l, got)))
  {
    var got := l.held + bs;
    FrameIs(got);
    if FrameOf(got).Whole? {
      var p := FrameOf(got).pack;
      assert HasPacket(got, p.kind, p.data);
    }
    hide HasPacket, Crypt, ExchangeRequest;
  }

  /** The hello reply that was answered at step k of a run. */
  ghost predicate AskedAt(suite: Suite, authKey: bytes, run: seq<LocalEvent>, k: nat) {
    && k < |run| && run[k].Arrived?
    && var l := LocalAfter(suite, authKey, run[..k]);
       l.status == Hello && exists data: bytes :: HasPacket(l.held + run[k].bs, 0x01, data) && |data| >= 2
  }

  /** The exchange reply that was accepted at step i: it decrypts to a data key and the random string drawn at
      step k. */
  ghost predicate AcceptedAt(
      suite: Suite, authKey: bytes, run: seq<LocalEvent>, k: nat, i: nat, cipher: bytes, dataKey: bytes) {
    && k < i < |run| && run[k].Arrived? && run[i].Arrived?
    && |dataKey| == 32
    && var l := LocalAfter(suite, authKey, run[..i]);
       && l.status == Auth && HasPacket(l.held + run[i].bs, 0x03, cipher)
       && Crypt(suite.ks, authKey, cipher) == dataKey + run[k].random
  }

  /** What the state of the local session says about its past. */
  ghost predicate LocalPast(
      suite: Suite, authKey: bytes, run: seq<LocalEvent>, l: Local, k: nat, i: nat, cipher: bytes) {
    match l.status
    case NotConnected => false
    case Connected => l.op != WriteExchange
    case Hello => l.op == WriteExchange ==> AskedAt(suite, authKey, run, k) && l.random == run[k].random
    case Auth => l.op != WriteHello && l.op != WriteExchange && AskedAt(suite, authKey, run, k) && l.random == run[k].random
    case Data => l.op == Relay && AskedAt(suite, authKey, run, k)
                 && AcceptedAt(suite, authKey, run, k, i, cipher, l.dataKey)
  }

  lemma PrefixOf<T>(run: seq<T>, n: nat, i: nat)
    requires i <= n <= |run|
    ensures run[..n][..i] == run[..i]
    ensures i < n ==> run[..n][i] == run[i]
  {
  }

  lemma LongerPast(suite: Suite, authKey: bytes, run: seq<LocalEvent>, n: nat, k: nat)
    requires n <= |run| && AskedAt(suite, authKey, run[..n], k)
    ensures AskedAt(suite, authKey, run, k)
  {
    PrefixOf(run, n, k);
  }

  lemma LongerAcceptance(suite: Suite, authKey: bytes, run: seq<LocalEvent>, n: nat, k: nat, i: nat, cipher: bytes,
                         dataKey: bytes)
    requires n <= |run| && AcceptedAt(suite, authKey, run[..n], k, i, cipher, dataKey)
    ensures AcceptedAt(suite, authKey, run, k, i, cipher, dataKey)
  {
    PrefixOf(run, n, k);
    PrefixOf(run, n, i);
    hide LocalAfter, HasPacket, Crypt;
  }

  /** What one read does to status, random string and pending operation. */
  lemma ReadEffect(suite: Suite, authKey: bytes, l: Local, bs: bytes, random: bytes, nonce: nat)
    returns (cipher: bytes)
    requires l.status != Data
    ensures var l' := LocalRead(suite, authKey, l, bs, random, nonce).0;
            && l'.op != WriteHello
            && (l'.op == WriteExchange ==>
                  && l.status == l'.status == Hello && l'.random == random
                  && exists data: bytes :: HasPacket(l.held + bs, 0x01, data) && |data| >= 2)
            && (l'.op != WriteExchange ==> l'.random == l.random)
            && (l'.status == l.status
                || (l.status == Auth && l'.status == Data && l'.op == Relay && HasPacket(l.held + bs, 0x03, cipher)
                    && |l'.dataKey| == 32 && Crypt(suite.ks, authKey, cipher) == l'.dataKey + l.random))
  {
    var got := l.held + bs;
    FrameIs(got);
    cipher := [];
    if FrameOf(got).Whole? {
      var p := FrameOf(got).pack;
      assert HasPacket(got, p.kind, p.data);
      cipher := p.data;
    }
    hide FrameOf, HasPacket, Crypt;
  }

  /** Every run of the local session has such a past. */
  lemma {:induction false} LocalHistory(suite: Suite, authKey: bytes, run: seq<LocalEvent>)
    returns (k: nat, i: nat, cipher: bytes)
    requires LocalPossible(suite, authKey, run)
    ensures LocalPast(suite, authKey, run, LocalAfter(suite, authKey, run), k, i, cipher)
    decreases |run|
  {
    k, i, cipher := 0, 0, [];
    if run != [] {
      var n := |run| - 1;
      k, i, cipher := LocalHistory(suite, authKey, run[..n]);
      k, i, cipher := PastGoesOn(suite, authKey, run, k, i, cipher);
    }
  }

  lemma PastGoesOn(suite: Suite, authKey: bytes, run: seq<LocalEvent>, k: nat, i: nat, cipher: bytes)
    returns (k': nat, i': nat, cipher': bytes)
    requires run != [] && LocalPossible(suite, authKey, run)
    requires LocalPast(suite, authKey, run[..|run| - 1], LocalAfter(suite, authKey, run[..|run| - 1]), k, i, cipher)
    ensures LocalPast(suite, authKey, run, LocalAfter(suite, authKey, run), k', i', cipher')
  {
    var n := |run| - 1;
    var l, e := LocalAfter(suite, authKey, run[..n]), run[n];
    k', i', cipher' := k, i, cipher;
    if AskedAt(suite, authKey, run[..n], k) {
      LongerPast(suite, authKey, run, n, k);
      PrefixOf(run, n, k);
    }
    if e.Arrived? {
      cipher' := ReadEffect(suite, authKey, l, e.bs, e.random, e.nonce);
      hide LocalRead, HasPacket, Crypt;
      i' := n;
      if LocalStep(suite, authKey, l, e).op == WriteExchange {
        k' := n;
      }
    }
  }

  /** A local session in status_data, whoever it talked to: at one step it answered a hello reply and drew a random
      string, and at a later one it read a whole exchange reply that its own key decrypts to the data key it holds
      and that very string. */
  lemma DataMeansEcho(suite: Suite, authKey: bytes, run: seq<LocalEvent>)
    returns (k: nat, i: nat, cipher: bytes)
    requires LocalPossible(suite, authKey, run) && LocalAfter(suite, authKey, run).status == Data
    ensures AskedAt(suite, authKey, run, k)
    ensures AcceptedAt(suite, authKey, run, k, i, cipher, LocalAfter(suite, authKey, run).dataKey)
  {
    k, i, cipher := LocalHistory(suite, authKey, run);
  }

  /** A run in which such a reply came with another string is over at that step: cancelled, and not in status_data. */
  lemma WrongEchoEndsRun(suite: Suite, authKey: bytes, run: seq<LocalEvent>, i: nat, cipher: bytes)
    requires LocalPossible(suite, authKey, run) && i < |run| && run[i].Arrived?
    requires var l := LocalAfter(suite, authKey, run[..i]);
             && l.status == Auth && HasPacket(l.held + run[i].bs, 0x03, cipher) && |cipher| >= 32
             && Crypt(suite.ks, authKey, cipher)[32..] != l.random
    ensures i + 1 == |run|
    ensures LocalAfter(suite, authKey, run).status == Auth && LocalAfter(suite, authKey, run).op == Cancelled
  {
    var l, e := LocalAfter(suite, authKey, run[..i]), run[i];
    EchoDecides(suite, authKey, l, e.bs, e.random, e.nonce, cipher);
    AfterOneMore(suite, authKey, run, i);
    if i + 1 < |run| {
      PossibleBefore(suite, authKey, run, i + 1);
      assert false;
    }
    assert run[..i + 1] == run;
  }

  lemma AfterOneMore(suite: Suite, authKey: bytes, run: seq<LocalEvent>, i: nat)
    requires i < |run|
    ensures LocalAfter(suite, authKey, run[..i + 1])
            == LocalStep(suite, authKey, LocalAfter(suite, authKey, run[..i]), run[i])
  {
    assert run[..i + 1][..i] == run[..i];
  }

  lemma {:induction false} PossibleBefore(suite: Suite, authKey: bytes, run: seq<LocalEvent>, i: nat)
    requires LocalPossible(suite, authKey, run) && i < |run|
    ensures LocalEnabled(LocalAfter(suite, authKey, run[..i]), run[i])
    decreases |run|
  {
    var n := |run| - 1;
    if i < n {
      PossibleBefore(suite, authKey, run[..n], i);
      PrefixOf(run, n, i);
    }
  }

  /** Whatever arrives, the status of the local session only moves forward. */
  lemma LocalAdvances(suite: Suite, authKey: bytes, run: seq<LocalEvent>)
    requires run != [] && LocalPossible(suite, authKey, run)
    ensures LocalAfter(suite, authKey, run[..|run| - 1]).status.Rank() <= LocalAfter(suite, authKey, run).status.Rank()
  {
    hide LocalRead, LocalPast, HasPacket, Crypt;
    var n := |run| - 1;
    var l, e := LocalAfter(suite, authKey, run[..n]), run[n];
    var k, i, cipher := LocalHistory(suite, authKey, run[..n]);
    PastWrites(suite, authKey, run[..n], l, k, i, cipher);
    if e.Arrived? && l.status != Data {
      cipher := ReadEffect(suite, authKey, l, e.bs, e.random, e.nonce);
    }
  }

  /** In which status what is written. */
  lemma PastWrites(suite: Suite, authKey: bytes, run: seq<LocalEvent>, l: Local, k: nat, i: nat, cipher: bytes)
    requires LocalPast(suite, authKey, run, l, k, i, cipher)
    ensures l.status == Data ==> l.op == Relay
    ensures l.op == WriteHello ==> l.status.Rank() <= 2
    ensures l.op == WriteExchange ==> l.status.Rank() <= 3
  {
    hide AskedAt, AcceptedAt;
  }

  // ----- the server session -----

  datatype ServerEvent = SentReply | Came(bs: bytes, newKey: bytes)

  function ServerStep(suite: Suite, config: Config, s: Server, e: ServerEvent): Server {
    match e
    case SentReply => ServerWrote(s)
    case Came(bs, newKey) => ServerRead(suite, config, s, bs, newKey).0
  }

  predicate ServerEnabled(s: Server, e: ServerEvent) {
    match e
    case SentReply => s.op.WriteHello? || s.op.WriteExchange?
    case Came(bs, _) => 1 <= |bs| <= Capacity(s.op)
  }

  function ServerAfter(suite: Suite, config: Config, run: seq<ServerEvent>): Server {
    if run == [] then INIT.server
    else ServerStep(suite, config, ServerAfter(suite, config, run[..|run| - 1]), run[|run| - 1])
  }

  predicate ServerPossible(suite: Suite, config: Config, run: seq<ServerEvent>) {
    run == []
    || (&& ServerPossible(suite, config, run[..|run| - 1])
        && ServerEnabled(ServerAfter(suite, config, run[..|run| - 1]), run[|run| - 1]))
  }

  /** A whole exchange request in status_auth whose plaintext begins with a key: a known key is accepted and the reply
      is its own encryption of the new data key and of what followed the key; an unknown one is denied. */
  lemma KeyDecides(suite: Suite, config: Config, s: Server, bs: bytes, newKey: bytes, cipher: bytes)
    requires s.status == Auth && HasPacket(s.held + bs, 0x02, cipher) && |suite.rsaDecrypt(cipher)| >= 32
    ensures var (s', sent) := ServerRead(suite, config, s, bs, newKey);
            var plain := suite.rsaDecrypt(cipher);
            if plain[..32] in config.keys then
              && s'.accepted && s'.dataKey == newKey && s'.op == WriteExchange && s'.status == Auth
              && (|newKey + plain[32..]| <= 0xffff ==>
                    exists reply: bytes :: HasPacket(sent, 0x03, reply)
                                           && Crypt(suite.ks, plain[..32], reply) == newKey + plain[32..])
            else s' == s.(op := Cancelled) && sent == [0x00, 0x04, 0x00, 0x00]
  {
    var plain := suite.rsaDecrypt(cipher);
    FrameIs(s.held + bs);
    DenyWire();
    if plain[..32] in config.keys && |newKey + plain[32..]| <= 0xffff {
      ReplyHasPacket(suite, plain[..32], newKey, plain[32..]);
    }
    hide FrameOf, HasPacket, Crypt, Control, ExchangeReply;
  }

  /** A hello request with data, in status_hello. */
  ghost predicate BadGreeting(s: Server, got: bytes) {
    s.status == Hello && exists data: bytes :: HasPacket(got, 0x00, data) && data != []
  }

  /** A whole exchange request in status_auth that opens with a key, known or not. */
  ghost predicate OpensWithKey(suite: Suite, config: Config, s: Server, got: bytes, known: bool) {
    s.status == Auth
    && exists cipher: bytes ::
         && HasPacket(got, 0x02, cipher) && |suite.rsaDecrypt(cipher)| >= 32
         && (suite.rsaDecrypt(cipher)[..32] in config.keys <==> known)
  }

  /** What the server writes, whatever it has read: it complains about less than a header and about a hello request with
      data, denies unknown keys, answers greetings and known keys, and keeps silent about everything else. */
  lemma ServerAnswersExactly(suite: Suite, config: Config, s: Server, bs: bytes, newKey: bytes)
    requires |newKey| == KEY_LENGTH
    ensures var got, sent := s.held + bs, ServerRead(suite, config, s, bs, newKey).1;
            && (sent == [0x00, 0xff, 0x00, 0x00] <==> |got| < 4 || BadGreeting(s, got))
            && (sent == [0x00, 0x04, 0x00, 0x00] <==> OpensWithKey(suite, config, s, got, false))
            && (|sent| > 4 && sent[1] == 0x01 <==> s.status == Hello && HasPacket(got, 0x00, []))
            && (|sent| > 4 && sent[1] == 0x03 <==> OpensWithKey(suite, config, s, got, true))
            && (sent != [] ==> sent in {[0x00, 0xff, 0x00, 0x00], [0x00, 0x04, 0x00, 0x00]}
                               || (|sent| > 4 && sent[1] in {0x01, 0x03}))
  {
    var got := s.held + bs;
    FrameIs(got);
    DenyWire();
    if FrameOf(got).Whole? {
      var p := FrameOf(got).pack;
      assert HasPacket(got, p.kind, p.data);
      FrameLength(got);
    }
    ReplyHeads(suite, config);
    hide HasPacket, Control, HelloReply, ExchangeReply, FrameOf;
  }

  lemma ReplyHeads(suite: Suite, config: Config)
    ensures |HelloReply(config).Wire()| > 4 && HelloReply(config).Wire()[1] == 0x01
    ensures forall key: bytes, dataKey: bytes, random: bytes ::
              var w := ExchangeReply(suite, key, dataKey, random).Wire();
              w[1] == 0x03 && |w| == 4 + |dataKey| + |random|
  {
    hide Crypt;
  }

  lemma DenyWire()
    ensures Control(DENY).Wire() == [0x00, 0x04, 0x00, 0x00] && Control(BAD).Wire() == [0x00, 0xff, 0x00, 0x00]
  {
  }

  lemma ReplyHasPacket(suite: Suite, key: bytes, newKey: bytes, random: bytes)
    requires |newKey + random| <= 0xffff
    ensures var sent := ExchangeReply(suite, key, newKey, random).Wire();
            exists reply: bytes :: HasPacket(sent, 0x03, reply) && Crypt(suite.ks, key, reply) == newKey + random
  {
    var reply := Crypt(suite.ks, key, newKey + random);
    CryptTwice(suite.ks, key, newKey + random);
    HonestLength(0x00, EXCHANGE_REPLY, reply);
    hide Crypt;
    assert HasPacket(ExchangeReply(suite, key, newKey, random).Wire(), 0x03, reply);
  }

  /** The hello request that was answered at step k. */
  ghost predicate GreetedAt(suite: Suite, config: Config, run: seq<ServerEvent>, k: nat) {
    && k < |run| && run[k].Came?
    && var s := ServerAfter(suite, config, run[..k]);
       s.status == Hello && HasPacket(s.held + run[k].bs, 0x00, [])
  }

  /** The exchange request that was accepted at step i. */
  ghost predicate AdmittedAt(
      suite: Suite, config: Config, run: seq<ServerEvent>, k: nat, i: nat, cipher: bytes, dataKey: bytes) {
    && k < i < |run| && run[i].Came? && run[i].newKey == dataKey
    && var s := ServerAfter(suite, config, run[..i]);
       && s.status == Auth && HasPacket(s.held + run[i].bs, 0x02, cipher)
       && |suite.rsaDecrypt(cipher)| >= 32 && suite.rsaDecrypt(cipher)[..32] in config.keys
  }

  ghost predicate ServerPast(
      suite: Suite, config: Config, run: seq<ServerEvent>, s: Server, k: nat, i: nat, cipher: bytes) {
    match s.status
    case Hello => !s.accepted && s.op != WriteExchange && (s.op == WriteHello ==> GreetedAt(suite, config, run, k))
    case Auth =>
      && s.op != WriteHello && GreetedAt(suite, config, run, k)
      && (if s.accepted then s.op == WriteExchange && AdmittedAt(suite, config, run, k, i, cipher, s.dataKey)
          else s.op != WriteExchange)
    case Data =>
      && s.op == Relay && s.accepted && GreetedAt(suite, config, run, k)
      && AdmittedAt(suite, config, run, k, i, cipher, s.dataKey)
    case _ => false
  }

  lemma LongerGreeting(suite: Suite, config: Config, run: seq<ServerEvent>, n: nat, k: nat)
    requires n <= |run| && GreetedAt(suite, config, run[..n], k)
    ensures GreetedAt(suite, config, run, k)
  {
    PrefixOf(run, n, k);
  }

  lemma LongerAdmission(suite: Suite, config: Config, run: seq<ServerEvent>, n: nat, k: nat, i: nat, cipher: bytes,
                        dataKey: bytes)
    requires n <= |run| && AdmittedAt(suite, config, run[..n], k, i, cipher, dataKey)
    ensures AdmittedAt(suite, config, run, k, i, cipher, dataKey)
  {
    PrefixOf(run, n, i);
  }

  /** What one read does to the server, when it has not accepted a key before. */
  lemma ServerReadEffect(suite: Suite, config: Config, s: Server, bs: bytes, newKey: bytes)
    returns (cipher: bytes)
    requires !s.accepted
    ensures var s' := ServerRead(suite, config, s, bs, newKey).0;
            && s'.status == s.status
            && (s'.op == WriteHello ==> s.status == Hello && HasPacket(s.held + bs, 0x00, []))
            && (s'.accepted <==> s'.op == WriteExchange)
            && (s'.accepted ==>
                  && s.status == Auth && s'.dataKey == newKey && HasPacket(s.held + bs, 0x02, cipher)
                  && |suite.rsaDecrypt(cipher)| >= 32 && suite.rsaDecrypt(cipher)[..32] in config.keys)
  {
    var got := s.held + bs;
    FrameIs(got);
    cipher := [];
    if FrameOf(got).Whole? {
      var p := FrameOf(got).pack;
      assert HasPacket(got, p.kind, p.data);
      cipher := p.data;
      FrameLength(got);
    }
    hide FrameOf, HasPacket;
  }

  lemma FrameLength(got: bytes)
    requires FrameOf(got).Whole?
    ensures FrameOf(got).pack.DataLen() == |FrameOf(got).pack.data|
  {
  }

  lemma {:induction false} ServerHistory(suite: Suite, config: Config, run: seq<ServerEvent>)
    returns (k: nat, i: nat, cipher: bytes)
    requires ServerPossible(suite, config, run)
    ensures ServerPast(suite, config, run, ServerAfter(suite, config, run), k, i, cipher)
    decreases |run|
  {
    k, i, cipher := 0, 0, [];
    if run != [] {
      k, i, cipher := ServerHistory(suite, config, run[..|run| - 1]);
      k, i, cipher := ServerPastGoesOn(suite, config, run, k, i, cipher);
    }
  }

  lemma ServerPastGoesOn(suite: Suite, config: Config, run: seq<ServerEvent>, k: nat, i: nat, cipher: bytes)
    returns (k': nat, i': nat, cipher': bytes)
    requires run != [] && ServerPossible(suite, config, run)
    requires ServerPast(suite, config, run[..|run| - 1], ServerAfter(suite, config, run[..|run| - 1]), k, i, cipher)
    ensures ServerPast(suite, config, run, ServerAfter(suite, config, run), k', i', cipher')
  {
    var n := |run| - 1;
    var s, e := ServerAfter(suite, config, run[..n]), run[n];
    k', i', cipher' := k, i, cipher;
    if GreetedAt(suite, config, run[..n], k) {
      LongerGreeting(suite, config, run, n, k);
    }
    if e.Came? {
      cipher' := ServerReadEffect(suite, config, s, e.bs, e.newKey);
      i' := n;
      if ServerStep(suite, config, s, e).op == WriteHello {
        k' := n;
      }
    } else if s.accepted {
      LongerAdmission(suite, config, run, n, k, i, cipher, s.dataKey);
    }
    hide ServerRead, HasPacket;
  }

  /** A server that has accepted a key, or is in status_data, whoever it talked to: at one step it answered a hello
      request without data, and at a later one it read a whole exchange request that decrypts to a known key first. */
  lemma AcceptedMeansKnownKey(suite: Suite, config: Config, run: seq<ServerEvent>)
    returns (k: nat, i: nat, cipher: bytes)
    requires ServerPossible(suite, config, run)
    requires ServerAfter(suite, config, run).accepted || ServerAfter(suite, config, run).status == Data
    ensures GreetedAt(suite, config, run, k)
    ensures AdmittedAt(suite, config, run, k, i, cipher, ServerAfter(suite, config, run).dataKey)
  {
    k, i, cipher := ServerHistory(suite, config, run);
  }

  /** Whatever arrives, the status of the server session only moves forward. */
  lemma ServerAdvances(suite: Suite, config: Config, run: seq<ServerEvent>)
    requires run != [] && ServerPossible(suite, config, run)
    ensures ServerAfter(suite, config, run[..|run| - 1]).status.Rank() <= ServerAfter(suite, config, run).status.Rank()
  {
    var k, i, cipher := ServerHistory(suite, config, run[..|run| - 1]);
    hide FrameOf, GreetedAt, AdmittedAt;
  }
}
