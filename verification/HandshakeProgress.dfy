/** Handshakes come to an end, and from the start, when the server knows the key, they can come to the right one. */
module HandshakeProgress {
  import opened Bytes
  import opened Packet
  import opened Handshake

  /** More than any packet of the handshake is long, with a write for each side. */
  const ROUND := HEADER + MAX_DATA + 4

  /** How many packets have still to be sent. */
  function Stage(w: World): nat {
    if w.server == INIT.server then 3
    else if w.server.op == Cancelled || w.local.op == Cancelled || w.server.accepted then 0
    else if w.local.status == Auth || w.local.op == WriteExchange then 1
    else 2
  }

  function Writing(op: Operation): nat {
    if op.WriteHello? || op.WriteExchange? then 1 else 0
  }

  function Measure(w: World): nat {
    Stage(w) * ROUND + |w.up| + |w.down| + Writing(w.local.op) + Writing(w.server.op)
  }

  lemma PacketLengths(suite: Suite, config: Config, authKey: bytes, dataKey: bytes, random: bytes, nonce: nat)
    requires Matching(suite, config) && |authKey| == KEY_LENGTH && |random| == RANDOM_LENGTH && |dataKey| == KEY_LENGTH
    ensures |HelloReply(config).Wire()| <= HEADER + MAX_DATA
    ensures |ExchangeRequest(suite, authKey, HelloReply(config).data, random, nonce).Wire()| <= HEADER + MAX_DATA
    ensures |ExchangeReply(suite, authKey, dataKey, random).Wire()| <= HEADER + MAX_DATA
    ensures forall kind: byte :: |Control(kind).Wire()| == HEADER
  {
    HelloReplyFields(suite, config);
    ExchangeRequestOpens(suite, config, authKey, random, nonce);
    ExchangeReplyOpens(suite, authKey, dataKey, random);
  }

  // ----- the measure of each state of the handshake -----

  lemma MeasureHelloUp(w: World)
    requires HelloUp(w)
    ensures Measure(w) == 3 * ROUND + HEADER + Writing(w.local.op)
  {
  }

  lemma MeasureHelloDown(suite: Suite, config: Config, w: World)
    requires Matching(suite, config) && HelloDown(config, w)
    ensures Measure(w) == 2 * ROUND + |w.down| + Writing(w.local.op) + Writing(w.server.op)
    ensures |w.down| <= HEADER + MAX_DATA
  {
    HelloReplyFields(suite, config);
    hide HelloReply, Matching;
  }

  lemma MeasureExchangeUp(suite: Suite, config: Config, authKey: bytes, w: World, nonce: nat)
    requires Matching(suite, config) && |authKey| == KEY_LENGTH && ExchangeUp(suite, config, authKey, w, nonce)
    ensures Measure(w) == ROUND + |w.up| + Writing(w.local.op) + Writing(w.server.op)
    ensures |w.up| <= HEADER + MAX_DATA
  {
    PacketLengths(suite, config, authKey, Zeros(KEY_LENGTH), w.local.random, nonce);
    hide HelloReply, ExchangeRequest, Matching;
  }

  lemma MeasureExchangeDown(suite: Suite, config: Config, authKey: bytes, w: World)
    requires Matching(suite, config) && |authKey| == KEY_LENGTH && ExchangeDown(suite, config, authKey, w)
    ensures Measure(w) == |w.down| + Writing(w.local.op) + Writing(w.server.op)
    ensures |w.down| <= HEADER + MAX_DATA
  {
    PacketLengths(suite, config, authKey, w.server.dataKey, w.local.random, 0);
    hide HelloReply, ExchangeReply, Matching;
  }

  lemma MeasureServerGone(w: World, kind: byte)
    requires ServerGone(w, kind)
    ensures Measure(w) == |w.up| + |w.down| + Writing(w.local.op) && |w.down| <= HEADER
  {
  }

  lemma MeasureLocalGone(config: Config, authKey: bytes, w: World)
    requires LocalGone(config, authKey, w)
    ensures Measure(w) == |w.up| + |w.down| + Writing(w.server.op)
  {
  }

  lemma MeasureSettled(config: Config, authKey: bytes, w: World)
    requires Settled(config, authKey, w)
    ensures Measure(w) == Writing(w.server.op)
  {
  }

  // ----- every step lowers it -----

  /** What a step does to the pending writes and to the channel it reads. */
  lemma StepParts(suite: Suite, config: Config, authKey: bytes, w: World, e: Event)
    requires Enabled(w, e)
    ensures var w' := Step(suite, config, authKey, w, e);
            match e
            case LocalWrites =>
              w'.server == w.server && w'.up == w.up && w'.down == w.down
              && Writing(w.local.op) == 1 && Writing(w'.local.op) == 0
            case ServerWrites =>
              w'.local == w.local && w'.up == w.up && w'.down == w.down
              && Writing(w.server.op) == 1 && Writing(w'.server.op) == 0
            case LocalReads(n, _, _) =>
              && w'.server == w.server && |w'.down| == |w.down| - n && n > 0
              && Writing(w.local.op) == 0 && w'.local.op != WriteHello
              && (w'.local.op == Cancelled ==> w'.up == w.up)
            case ServerReads(n, _) =>
              && w'.local == w.local && |w'.up| == |w.up| - n && n > 0
              && Writing(w.server.op) == 0 && (w'.server.op == WriteHello ==> w.server.status == Hello)
              && (w'.server.op == Cancelled ==> |w'.down| <= |w.down| + HEADER)
  {
    assert |Control(BAD).Wire()| == HEADER && |Control(DENY).Wire()| == HEADER;
    hide FrameOf, ExchangeRequest, ExchangeReply, HelloReply, Control;
  }

  lemma LowerHelloUp(suite: Suite, config: Config, authKey: bytes, w: World, e: Event)
    requires Matching(suite, config) && HelloUp(w) && Enabled(w, e)
    ensures Measure(Step(suite, config, authKey, w, e)) < Measure(w)
  {
    var w' := Step(suite, config, authKey, w, e);
    StepHelloUp(suite, config, authKey, w, e);
    StepParts(suite, config, authKey, w, e);
    MeasureHelloUp(w);
    assert w.down == [] && w.server.op.ReadPacket?;
    hide Step, Matching, Measure, HelloUp, HelloDown, ServerGone;
    if HelloUp(w') {
      MeasureHelloUp(w');
    } else if HelloDown(config, w') {
      MeasureHelloDown(suite, config, w');
    } else {
      MeasureServerGone(w', BAD);
    }
  }

  lemma LowerHelloDown(suite: Suite, config: Config, authKey: bytes, w: World, e: Event)
    requires Matching(suite, config) && |authKey| == KEY_LENGTH && HelloDown(config, w) && Enabled(w, e)
    ensures Measure(Step(suite, config, authKey, w, e)) < Measure(w)
  {
    var w' := Step(suite, config, authKey, w, e);
    StepHelloDown(suite, config, authKey, w, e);
    StepParts(suite, config, authKey, w, e);
    MeasureHelloDown(suite, config, w);
    StillHelloDown(config, w');
    assert w.up == [];
    hide Step, Matching, Measure, HelloDown, ExchangeUp, LocalGone;
    if HelloDown(config, w') {
      MeasureHelloDown(suite, config, w');
    } else if LocalGone(config, authKey, w') {
      MeasureLocalGone(config, authKey, w');
    } else {
      MeasureExchangeUp(suite, config, authKey, w', e.nonce);
    }
  }

  lemma StillHelloDown(config: Config, w: World)
    ensures HelloDown(config, w) && w.local.op != WriteHello ==> Writing(w.local.op) == 0
  {
  }

  lemma LowerExchangeUp(suite: Suite, config: Config, authKey: bytes, w: World, e: Event, nonce: nat)
    requires Matching(suite, config) && |authKey| == KEY_LENGTH
    requires ExchangeUp(suite, config, authKey, w, nonce) && Enabled(w, e)
    ensures Measure(Step(suite, config, authKey, w, e)) < Measure(w)
  {
    var w' := Step(suite, config, authKey, w, e);
    StepExchangeUp(suite, config, authKey, w, e, nonce);
    StepParts(suite, config, authKey, w, e);
    MeasureExchangeUp(suite, config, authKey, w, nonce);
    StillExchangeUp(suite, config, authKey, w, w', nonce);
    hide Step, Matching, Measure, ExchangeUp, ExchangeDown, ServerGone, Enabled;
    if ExchangeUp(suite, config, authKey, w', nonce) {
      MeasureExchangeUp(suite, config, authKey, w', nonce);
    } else if ExchangeDown(suite, config, authKey, w') {
      MeasureExchangeDown(suite, config, authKey, w');
    } else if ServerGone(w', DENY) {
      MeasureServerGone(w', DENY);
    } else {
      MeasureServerGone(w', BAD);
    }
  }

  lemma StillExchangeUp(suite: Suite, config: Config, authKey: bytes, w: World, w': World, nonce: nat)
    requires ExchangeUp(suite, config, authKey, w, nonce)
    ensures Writing(w.server.op) == 0 ==> w.server.status == Auth
    ensures ExchangeUp(suite, config, authKey, w', nonce) && w'.server.op != WriteHello ==> Writing(w'.server.op) == 0
    ensures w.down == []
  {
    hide ExchangeRequest, HelloReply;
  }

  lemma LowerExchangeDown(suite: Suite, config: Config, authKey: bytes, w: World, e: Event)
    requires Matching(suite, config) && |authKey| == KEY_LENGTH
    requires ExchangeDown(suite, config, authKey, w) && Enabled(w, e)
    ensures Measure(Step(suite, config, authKey, w, e)) < Measure(w)
  {
    var w' := Step(suite, config, authKey, w, e);
    StepExchangeDown(suite, config, authKey, w, e);
    StepParts(suite, config, authKey, w, e);
    MeasureExchangeDown(suite, config, authKey, w);
    StillExchangeDown(suite, config, authKey, w, w');
    hide Step, Matching, Measure, ExchangeDown, Settled, LocalGone, Enabled;
    if ExchangeDown(suite, config, authKey, w') {
      MeasureExchangeDown(suite, config, authKey, w');
    } else if Settled(config, authKey, w') {
      MeasureSettled(config, authKey, w');
    } else {
      MeasureLocalGone(config, authKey, w');
    }
  }

  lemma StillExchangeDown(suite: Suite, config: Config, authKey: bytes, w: World, w': World)
    requires ExchangeDown(suite, config, authKey, w)
    ensures w.up == []
    ensures Writing(w.local.op) == 0 ==> w.local.status == Auth
    ensures ExchangeDown(suite, config, authKey, w') && w'.local.status == Auth ==> Writing(w'.local.op) == 0
  {
    hide ExchangeReply;
  }

  lemma LowerServerGone(suite: Suite, config: Config, authKey: bytes, w: World, e: Event, kind: byte)
    requires kind in {DENY, BAD} && ServerGone(w, kind) && Enabled(w, e)
    ensures Measure(Step(suite, config, authKey, w, e)) < Measure(w)
  {
    var w' := Step(suite, config, authKey, w, e);
    StepServerGone(suite, config, authKey, w, e, kind);
    StepParts(suite, config, authKey, w, e);
    MeasureServerGone(w, kind);
    GoneReads(suite, authKey, w, e, kind);
    hide Step, Measure, ServerGone, LocalGone;
    if ServerGone(w', kind) {
      MeasureServerGone(w', kind);
    } else {
      MeasureLocalGone(config, authKey, w');
    }
  }

  /** The local side writes nothing in answer to a part of a packet without data that is no reply. */
  lemma LocalGoneRead(suite: Suite, authKey: bytes, l: Local, bs: bytes, random: bytes, nonce: nat, kind: byte)
    requires kind !in {HELLO_REPLY, EXCHANGE_REPLY}
    requires FrameOf(l.held + bs).Whole? ==> FrameOf(l.held + bs).pack.kind == kind
    ensures var (l', sent) := LocalRead(suite, authKey, l, bs, random, nonce);
            sent == [] && Writing(l'.op) == 0
  {
    hide FrameOf, ExchangeRequest;
  }

  lemma GoneReads(suite: Suite, authKey: bytes, w: World, e: Event, kind: byte)
    requires kind in {DENY, BAD} && ServerGone(w, kind) && Enabled(w, e)
    ensures !e.ServerReads? && !e.ServerWrites? && Writing(w.server.op) == 0
    ensures e.LocalReads? ==>
              var (l, sent) := LocalRead(suite, authKey, w.local, w.down[..e.count], e.random, e.nonce);
              sent == [] && Writing(l.op) == 0
  {
    hide Control, LocalRead;
    if e.LocalReads? {
      ControlFields(kind);
      var got := w.local.held + w.down[..e.count];
      assert got + w.down[e.count..] == Control(kind).Wire();
      FrameOfPart(Control(kind).Wire(), got, w.down[e.count..]);
      hide FrameOf;
      LocalGoneRead(suite, authKey, w.local, w.down[..e.count], e.random, e.nonce, kind);
    }
  }

  lemma LowerLocalGone(suite: Suite, config: Config, authKey: bytes, w: World, e: Event)
    requires LocalGone(config, authKey, w) && Enabled(w, e)
    ensures Measure(Step(suite, config, authKey, w, e)) < Measure(w)
  {
    StepLocalGone(suite, config, authKey, w, e);
    StepParts(suite, config, authKey, w, e);
    MeasureLocalGone(config, authKey, w);
    MeasureLocalGone(config, authKey, Step(suite, config, authKey, w, e));
    GoneWrites(config, authKey, w, e);
    hide Step, Measure, LocalGone;
  }

  lemma GoneWrites(config: Config, authKey: bytes, w: World, e: Event)
    requires LocalGone(config, authKey, w) && Enabled(w, e)
    ensures e.ServerWrites?
  {
  }

  lemma LowerSettled(suite: Suite, config: Config, authKey: bytes, w: World, e: Event)
    requires Settled(config, authKey, w) && Enabled(w, e)
    ensures Measure(Step(suite, config, authKey, w, e)) < Measure(w)
  {
    StepSettled(suite, config, authKey, w, e);
    StepParts(suite, config, authKey, w, e);
    MeasureSettled(config, authKey, w);
    MeasureSettled(config, authKey, Step(suite, config, authKey, w, e));
    assert e.ServerWrites?;
    hide Step, Measure, Settled;
  }

  lemma StepLowers(suite: Suite, config: Config, authKey: bytes, w: World, e: Event)
    requires Matching(suite, config) && |authKey| == KEY_LENGTH
    requires Enabled(w, e) && Reachable(suite, config, authKey, w)
    ensures Measure(Step(suite, config, authKey, w, e)) < Measure(w)
  {
    hide HelloUp, HelloDown, ExchangeUp, ExchangeDown, Settled, ServerGone, LocalGone, Step, Enabled, Matching, Measure;
    if HelloUp(w) {
      LowerHelloUp(suite, config, authKey, w, e);
    } else if HelloDown(config, w) {
      LowerHelloDown(suite, config, authKey, w, e);
    } else if ExchangeDown(suite, config, authKey, w) {
      LowerExchangeDown(suite, config, authKey, w, e);
    } else if Settled(config, authKey, w) {
      LowerSettled(suite, config, authKey, w, e);
    } else if ServerGone(w, DENY) {
      LowerServerGone(suite, config, authKey, w, e, DENY);
    } else if ServerGone(w, BAD) {
      LowerServerGone(suite, config, authKey, w, e, BAD);
    } else if LocalGone(config, authKey, w) {
      LowerLocalGone(suite, config, authKey, w, e);
    } else {
      var nonce: nat :| ExchangeUp(suite, config, authKey, w, nonce);
      LowerExchangeUp(suite, config, authKey, w, e, nonce);
    }
  }

  lemma {:induction false} RunLowers(suite: Suite, config: Config, authKey: bytes, w: World, run: seq<Event>)
    requires Matching(suite, config) && |authKey| == KEY_LENGTH
    requires Reachable(suite, config, authKey, w) && Possible(suite, config, authKey, w, run)
    ensures |run| + Measure(After(suite, config, authKey, w, run)) <= Measure(w)
    decreases |run|
  {
    hide Reachable, Step, Enabled, Matching, Measure;
    if run != [] {
      StepLowers(suite, config, authKey, w, run[0]);
      StepReachable(suite, config, authKey, w, run[0]);
      RunLowers(suite, config, authKey, Step(suite, config, authKey, w, run[0]), run[1..]);
    }
  }

  /** Every handshake comes to an end: whatever is read in whatever pieces, a run has no more steps than three
      packets of the largest size have bytes, and a few writes. */
  lemma HandshakesAreBounded(suite: Suite, config: Config, authKey: bytes, run: seq<Event>)
    requires Matching(suite, config) && |authKey| == KEY_LENGTH && Possible(suite, config, authKey, INIT, run)
    ensures |run| <= 3 * 65543 + 5
  {
    InitOnTrack(suite, config, authKey);
    RunLowers(suite, config, authKey, INIT, run);
    assert HelloUp(INIT);
    MeasureHelloUp(INIT);
    hide Measure;
  }

  // ----- and it can come to the right one -----

  function Least(a: nat, b: nat): nat { if a <= b then a else b }

  /** While a run that cut no header is not stuck, there is a step that cuts none either. */
  lemma UncutStep(suite: Suite, config: Config, authKey: bytes, w: World) returns (e: Event)
    requires Matching(suite, config) && |authKey| == KEY_LENGTH && OnTrack(suite, config, authKey, w) && !Stuck(w)
    ensures Enabled(w, e) && !CutsHeader(w, e)
  {
    if Enabled(w, LocalWrites) {
      e := LocalWrites;
    } else if Enabled(w, ServerWrites) {
      e := ServerWrites;
    } else if Capacity(w.local.op) > 0 && w.down != [] {
      WholeHeaders(suite, config, authKey, w);
      e := LocalReads(Least(|w.down|, Capacity(w.local.op)), Zeros(RANDOM_LENGTH), 0);
    } else {
      WholeHeaders(suite, config, authKey, w);
      e := ServerReads(Least(|w.up|, Capacity(w.server.op)), Zeros(KEY_LENGTH));
    }
    hide OnTrack, Matching;
  }

  lemma WholeHeaders(suite: Suite, config: Config, authKey: bytes, w: World)
    requires Matching(suite, config) && |authKey| == KEY_LENGTH && OnTrack(suite, config, authKey, w)
    ensures w.local.op.ReadPacket? && w.down != [] ==> |w.down| >= HEADER
    ensures w.server.op.ReadPacket? && w.up != [] ==> |w.up| >= HEADER
  {
    hide Matching, HelloReply, ExchangeRequest, ExchangeReply, Control;
  }

  lemma {:induction false} RunToEnd(suite: Suite, config: Config, authKey: bytes, w: World) returns (run: seq<Event>)
    requires Matching(suite, config) && |authKey| == KEY_LENGTH && OnTrack(suite, config, authKey, w)
    ensures Possible(suite, config, authKey, w, run) && NoHeaderCut(suite, config, authKey, w, run)
    ensures Stuck(After(suite, config, authKey, w, run))
    decreases Measure(w)
  {
    hide OnTrack, Step, Enabled, CutsHeader, Matching, Measure, Stuck;
    run := [];
    if !Stuck(w) {
      var e := UncutStep(suite, config, authKey, w);
      StepLowers(suite, config, authKey, w, e);
      StepStaysOnTrack(suite, config, authKey, w, e);
      var more := RunToEnd(suite, config, authKey, Step(suite, config, authKey, w, e));
      run := [e] + more;
      assert run[1..] == more;
    }
  }

  /** For every key the server knows there is a handshake that connects both sides under one data key. */
  lemma HandshakeHappens(suite: Suite, config: Config, authKey: bytes) returns (run: seq<Event>)
    requires Matching(suite, config) && |authKey| == KEY_LENGTH && authKey in config.keys
    ensures Possible(suite, config, authKey, INIT, run)
    ensures var w := After(suite, config, authKey, INIT, run);
            w.local.status == Data && w.server.status == Data && w.local.dataKey == w.server.dataKey
  {
    InitOnTrack(suite, config, authKey);
    run := RunToEnd(suite, config, authKey, INIT);
    hide NoHeaderCut, Stuck, Matching;
    Completes(suite, config, authKey, run);
  }
}
