/** The session objects, whose handlers update their fields: the handshake of both sides, the server's requests
    to its sockets afterwards, and whole runs of these objects. */
module Sessions {
  import opened Bytes
  import opened CounterMode
  import opened Packet
  import H = Handshake
  import O = Overlaps
  import R = Relay
  import W = Wrappers

  class LocalSession {
    const suite: H.Suite
    const authKey: bytes
    var status: H.Status
    var op: H.Operation
    var held: bytes      // the part of one packet read so far
    var random: bytes    // random_str
    var dataKey: bytes   // data_key
    var echo: bytes      // what the server sent back as random string

    ghost function View(): H.Local
      reads this
    {
      H.Local(status, op, held, random, dataKey, echo)
    }

    /** connect_handler: the hello is being written. */
    constructor (suite: H.Suite, authKey: bytes)
      ensures this.suite == suite && this.authKey == authKey && View() == H.INIT.local
    {
      this.suite, this.authKey := suite, authKey;
      status, op := H.Connected, H.WriteHello;
      held, random, dataKey, echo := [], [], [], [];
    }

    /** hello_handler and exchange_handler */
    method Wrote()
      requires op.WriteHello? || op.WriteExchange?
      modifies this`status, this`op
      ensures View() == H.LocalWrote(old(View())) && op == H.ReadPacket(1024)
    {
      status := if op.WriteHello? then H.Hello else H.Auth;
      op := H.ReadPacket(H.LENGTH_HANDSHAKE);
    }

    /** unpack_reply_exchange */
    method UnpackExchange(data: bytes)
      requires |data| >= H.KEY_LENGTH
      modifies this`held, this`dataKey, this`echo
      ensures held == [] && dataKey + echo == Crypt(suite.ks, authKey, data) && |dataKey| == H.KEY_LENGTH
    {
      var plain := Crypt(suite.ks, authKey, data);
      held := [];
      dataKey := plain[..H.KEY_LENGTH];
      echo := plain[H.KEY_LENGTH..];
    }

    /** right_read_handler before status_data; returns the bytes it starts to write. */
    method RightRead(bs: bytes, newRandom: bytes, nonce: nat) returns (sent: bytes)
      modifies this
      ensures (View(), sent) == H.LocalRead(suite, authKey, old(View()), bs, newRandom, nonce)
    {
      var got := held + bs;
      sent := [];
      match H.FrameOf(got)
      case TooShort =>
        op := H.Cancelled;
      case Missing(less) =>
        held, op := got, H.ReadRest(less);
      case Whole(p) =>
        if p.kind == HELLO_REPLY && status == H.Hello && |p.data| >= 2 {
          random := newRandom;
          sent := H.ExchangeRequest(suite, authKey, p.data, random, nonce).Wire();
          held, op := [], H.WriteExchange;
        } else if p.kind == EXCHANGE_REPLY && status == H.Auth && |p.data| >= H.KEY_LENGTH {
          UnpackExchange(p.data);
          if echo != random {
            op := H.Cancelled;
          } else {
            status, op := H.Data, H.Relay;
          }
        } else {
          op := H.Cancelled;
        }
    }
  }

  class ServerSession {
    const suite: H.Suite
    const config: H.Config
    var status: H.Status
    var op: H.Operation
    var held: bytes
    var accepted: bool   // an aes_encryptor was made
    var dataKey: bytes

    ghost function View(): H.Server
      reads this
    {
      H.Server(status, op, held, accepted, dataKey)
    }

    /** start */
    constructor (suite: H.Suite, config: H.Config)
      ensures this.suite == suite && this.config == config && View() == H.INIT.server
    {
      this.suite, this.config := suite, config;
      status, op := H.Hello, H.ReadPacket(H.LENGTH_HANDSHAKE);
      held, accepted, dataKey := [], false, [];
    }

    /** hello_handler and exchange_handler */
    method Wrote()
      requires op.WriteHello? || op.WriteExchange?
      modifies this`status, this`op
      ensures View() == H.ServerWrote(old(View()))
    {
      if op.WriteHello? {
        status, op := H.Auth, H.ReadPacket(H.LENGTH_HANDSHAKE);
      } else {
        status, op := H.Data, H.Relay;
      }
    }

    /** left_read_handler before status_data; returns the bytes it starts to write. */
    method LeftRead(bs: bytes, newKey: bytes) returns (sent: bytes)
      modifies this
      ensures (View(), sent) == H.ServerRead(suite, config, old(View()), bs, newKey)
    {
      var got := held + bs;
      sent := [];
      match H.FrameOf(got)
      case TooShort =>
        op, sent := H.Cancelled, H.Control(BAD).Wire();
      case Missing(less) =>
        held, op := got, H.ReadRest(less);
      case Whole(p) =>
        if p.kind == HELLO_REQUEST && status == H.Hello {
          if p.DataLen() != 0 {
            op, sent := H.Cancelled, H.Control(BAD).Wire();
          } else {
            held, op, sent := [], H.WriteHello, H.HelloReply(config).Wire();
          }
        } else if p.kind == EXCHANGE_REQUEST && status == H.Auth && |suite.rsaDecrypt(p.data)| >= H.KEY_LENGTH {
          var plain := suite.rsaDecrypt(p.data);
          var key, random := plain[..H.KEY_LENGTH], plain[H.KEY_LENGTH..];
          if key !in config.keys {
            op, sent := H.Cancelled, H.Control(DENY).Wire();
          } else {
            held, accepted, dataKey, op := [], true, newKey, H.WriteExchange;
            sent := H.ExchangeReply(suite, key, newKey, random).Wire();
          }
        } else {
          op := H.Cancelled;
        }
    }
  }

  /** The server session once the handshake is over. */
  class ServerRelay {
    const net: R.Net
    var pending: multiset<R.Op>
    var socks: R.SocksState         // socks5_state
    var reply: int                  // socks5_resp_reply
    ghost var tried: seq<nat>
    ghost var replies: seq<int>
    ghost var chosen: W.Option<nat>

    ghost function View(): R.Server
      reads this
    {
      R.Server(pending, socks, reply, tried, replies, chosen)
    }

    /** exchange_handler has started the first read for the relay. */
    constructor (net: R.Net)
      ensures this.net == net && View() == R.START
    {
      this.net := net;
      pending, socks, reply := multiset{R.ReadLeft}, R.Opening, 0;
      tried, replies, chosen := [], [], W.None;
    }

    /** left_read_handler from status_data on */
    method LeftReadHandler(found: R.Found)
      modifies this`pending, this`socks
      ensures View() == R.LeftRead(old(View()), found)
    {
      match found
      case Short =>
        pending := pending + multiset{R.WriteBad};
      case Incomplete =>
        pending := pending + multiset{R.ReadLeftRest};
      case Packet(more) =>
        if socks == R.Connected {
          pending := pending + multiset{R.WriteRight(more)};
        } else {
          socks := R.Connecting;
          pending := pending + multiset{R.Resolve};
        }
      case BadRequest =>
        socks := R.Connecting;
        pending := pending + multiset{R.WriteBad};
      case Foreign =>  // cancel
    }

    /** left_write_handler */
    method LeftWriteHandler()
      modifies this`pending
      ensures View() == R.LeftWritten(old(View()))
    {
      if reply != R.SUCCEEDED {
        return;  // cancel
      }
      if socks == R.Connected {
        pending := pending + multiset{R.ReadRight};
      } else {
        pending := pending + multiset{R.ReadLeft};
      }
    }

    /** async_connect to endpoint k */
    method Attempt(k: nat)
      modifies this`pending, this`tried
      ensures pending == old(pending) + multiset{R.Connect(k)} && tried == old(tried) + [k]
    {
      pending, tried := pending + multiset{R.Connect(k)}, tried + [k];
    }

    /** socks5_resp_to_local: send the reply and, if it is 0x00, start reading from the local side. */
    method Socks5RespToLocal()
      modifies this`pending, this`socks, this`replies
      ensures View() == R.Respond(old(View()), reply)
    {
      replies := replies + [reply];
      if reply == R.SUCCEEDED {
        socks := R.Connected;
      }
      pending := pending + multiset{R.WriteLeft};
      if reply == R.SUCCEEDED {
        pending := pending + multiset{R.ReadLeft};
      }
      assert multiset{R.WriteLeft} + multiset{R.ReadLeft} == multiset{R.WriteLeft, R.ReadLeft};
    }

    /** tcp_resolve_handler: an endpoint is tried or the reply sent, never both and never neither. */
    method TcpResolveHandler()
      modifies this
      ensures View() == R.Resolved(net, old(View()))
      ensures |tried| + |replies| == old(|tried| + |replies|) + 1
    {
      if net.resolves {
        Attempt(0);
      } else {
        reply := R.HOST_UNREACHABLE;
        Socks5RespToLocal();
      }
    }

    /** tcp_connect_handler for endpoint k: the next one is tried or the reply sent, never both and never neither. */
    method TcpConnectHandler(k: nat)
      modifies this
      ensures View() == R.ConnectEnded(net, old(View()), k)
      ensures |tried| + |replies| == old(|tried| + |replies|) + 1
    {
      if k < |net.accepts| && net.accepts[k] {
        chosen := W.Some(k);
        reply := R.SUCCEEDED;
        Socks5RespToLocal();
      } else if k + 1 < |net.accepts| {
        Attempt(k + 1);
      } else {
        reply := R.NETWORK_UNREACHABLE;
        Socks5RespToLocal();
      }
    }

    /** An operation completes and its handler runs. */
    method Fire(e: R.Event<R.Op>)
      requires R.Enabled(View(), e)
      modifies this
      ensures View() == R.Next(net, old(View()), e)
    {
      pending := pending - multiset{e.op};
      if e.Fails? {
        if e.op == R.WriteRight(false) || e.op == R.ReadRight {
          pending := pending + multiset{R.WriteBad};
        }
        return;  // cancel, in the other handlers
      }
      match e.op
      case ReadLeft => LeftReadHandler(e.found);
      case ReadLeftRest => LeftReadHandler(e.found);
      case WriteRight(again) =>
        if again { LeftReadHandler(e.found); } else { pending := pending + multiset{R.ReadLeft}; }
      case ReadRight => pending := pending + multiset{R.WriteLeft};
      case WriteLeft => LeftWriteHandler();
      case WriteBad =>  // cancel
      case Resolve => TcpResolveHandler();
      case Connect(k) => TcpConnectHandler(k);
    }
  }

  // ----- whole runs of the objects -----

  /** A local session and a server session over two byte channels, with the operations completing in the
      order of the schedule: the objects end up agreeing, or not, as the handshake does. */
  method RunHandshake(suite: H.Suite, config: H.Config, authKey: bytes, schedule: seq<H.Event>)
    returns (local: LocalSession, server: ServerSession, up: bytes, down: bytes)
    requires H.Matching(suite, config) && |authKey| == H.KEY_LENGTH
    requires H.Possible(suite, config, authKey, H.INIT, schedule)
    ensures H.World(local.View(), server.View(), up, down) == H.After(suite, config, authKey, H.INIT, schedule)
    ensures local.status == H.Data ==>
              && local.echo == local.random && |local.random| == H.RANDOM_LENGTH
              && authKey in config.keys && server.accepted
              && local.dataKey == server.dataKey && |local.dataKey| == H.KEY_LENGTH
    ensures server.status == H.Data ==> authKey in config.keys && server.accepted
    ensures H.Stuck(H.World(local.View(), server.View(), up, down)) ==>
              (local.status == H.Data <==>
                 authKey in config.keys && H.NoHeaderCut(suite, config, authKey, H.INIT, schedule))
  {
    hide H.LocalRead, H.ServerRead, H.LocalWrote, H.ServerWrote, H.Matching, H.NoHeaderCut, H.Stuck;
    local := new LocalSession(suite, authKey);
    server := new ServerSession(suite, config);
    up, down := H.Control(HELLO_REQUEST).Wire(), [];
    assert schedule[0..] == schedule;
    for i := 0 to |schedule|
      invariant local.suite == suite && local.authKey == authKey && server.suite == suite && server.config == config
      invariant fresh(local) && fresh(server)
      invariant var w := H.World(local.View(), server.View(), up, down);
                && H.Possible(suite, config, authKey, w, schedule[i..])
                && H.After(suite, config, authKey, w, schedule[i..])
                   == H.After(suite, config, authKey, H.INIT, schedule)
    {
      assert schedule[i..][0] == schedule[i] && schedule[i..][1..] == schedule[i + 1..];
      match schedule[i]
      case LocalWrites =>
        local.Wrote();
      case ServerWrites =>
        server.Wrote();
      case LocalReads(n, random, nonce) =>
        var sent := local.RightRead(down[..n], random, nonce);
        up, down := up + sent, down[n..];
      case ServerReads(n, newKey) =>
        var sent := server.LeftRead(up[..n], newKey);
        up, down := up[n..], down + sent;
    }
    H.Agreement(suite, config, authKey, schedule);
    if H.Stuck(H.World(local.View(), server.View(), up, down)) {
      H.Completes(suite, config, authKey, schedule);
    }
  }

  /** A server session after the handshake, with its operations completing in the order of the schedule. */
  method RunRelay(net: R.Net, schedule: seq<R.Event<R.Op>>) returns (s: ServerRelay)
    requires R.Sensible(net) && R.Possible(net, R.START, schedule)
    ensures s.View() == R.After(net, R.START, schedule)
    ensures s.pending[R.WriteLeft] + s.pending[R.WriteBad] <= 2
    ensures s.pending[R.WriteRight(true)] + s.pending[R.WriteRight(false)] <= 1
    ensures R.Intact(schedule) ==>
              && s.pending[R.WriteLeft] + s.pending[R.WriteBad] <= 1
              && s.replies == (if R.Unanswered(s.View()) then [] else [R.Verdict(net)])
              && (s.socks == R.Connected <==> s.replies == [R.SUCCEEDED])
  {
    hide R.Next, R.Enabled, R.Intact, R.Verdict;
    s := new ServerRelay(net);
    assert schedule[0..] == schedule;
    for i := 0 to |schedule|
      invariant fresh(s) && s.net == net
      invariant && R.Possible(net, s.View(), schedule[i..])
                && R.After(net, s.View(), schedule[i..]) == R.After(net, R.START, schedule)
    {
      assert schedule[i..][0] == schedule[i] && schedule[i..][1..] == schedule[i + 1..];
      s.Fire(schedule[i]);
    }
    O.NeverMoreThanTwo(net, schedule);
    if R.Intact(schedule) {
      R.EndpointWalk(net, schedule);
      O.OneOperationPerDirection(net, schedule);
    }
  }
}
