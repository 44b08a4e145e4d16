/** What each session has asked the sockets to do: the server's walk over the resolved endpoints, its one
    SOCKS reply, and the two relay directions, as chains of handlers that run when an operation completes. */
module Relay {
  import opened Wrappers

  datatype SocksState = Opening | Connecting | Connected

  /** An operation in progress, with the handler it is bound to where a socket operation can have several. */
  datatype Op =
    | ReadLeft                  // left_read_handler, after a fresh read
    | ReadLeftRest              // left_read_handler, after a read of the missing part of a packet
    | WriteRight(again: bool)   // left_read_handler for the rest of the buffer, else right_write_handler
    | ReadRight                 // right_read_handler
    | WriteLeft                 // left_write_handler
    | WriteBad                  // a last packet on the left socket, then cancel
    | Resolve                   // tcp_resolve_handler
    | Connect(endpoint: nat)    // tcp_connect_handler

  /** What the network will do: whether the name resolves, and which endpoints accept. */
  datatype Net = Net(resolves: bool, accepts: seq<bool>)

  /** A resolver that succeeds yields at least one endpoint. */
  predicate Sensible(net: Net) { net.resolves ==> net.accepts != [] }

  const SUCCEEDED := 0x00
  const NETWORK_UNREACHABLE := 0x03
  const HOST_UNREACHABLE := 0x04

  /** tried: endpoints a connection was attempted to; replies: SOCKS replies packed and sent. */
  datatype Server = Server(
    pending: multiset<Op>, socks: SocksState, reply: int, tried: seq<nat>, replies: seq<int>, chosen: Option<nat>)

  /** What a read handler finds in its buffer. */
  datatype Found =
    | Short               // less than a header, after a fresh read
    | Incomplete          // the first part of a packet
    | Packet(more: bool)  // a packet of data, with or without another header behind it
    | BadRequest          // data that is no SOCKS message, where one is expected
    | Foreign             // a packet of a type that has no place here

  datatype Event<O> =
    | Completes(op: O, found: Found)  // without an error; `found` matters when a read handler runs
    | Fails(op: O)                    // with an error

  /** Nothing is wrong with what a read handler gets to see. */
  predicate Sound(found: Found) {
    found.Incomplete? || found.Packet?
  }

  const START: Server := Server(multiset{ReadLeft}, Opening, 0, [], [], None)

  /** socks5_resp_to_local */
  function Respond(s: Server, code: int): Server {
    var s' := s.(reply := code, replies := s.replies + [code]);
    if code == SUCCEEDED
    then s'.(socks := Connected, pending := s.pending + multiset{WriteLeft, ReadLeft})
    else s'.(pending := s.pending + multiset{WriteLeft})
  }

  // cancel() takes nothing out of `pending`: it makes the sockets end their operations, and the handlers still
  // run, with an error or, when an operation had completed before, without one. What it leaves is the server
  // as it is.

  /** left_read_handler from status_data on: a CONNECT request first, then data for the remote side. Uplink says
      what becomes of the bytes. */
  function LeftRead(s: Server, found: Found): Server {
    match found
    case Short => s.(pending := s.pending + multiset{WriteBad})
    case Incomplete => s.(pending := s.pending + multiset{ReadLeftRest})
    case Packet(more) =>
      if s.socks == Connected then s.(pending := s.pending + multiset{WriteRight(more)})
      else s.(socks := Connecting, pending := s.pending + multiset{Resolve})
    case BadRequest => s.(socks := Connecting, pending := s.pending + multiset{WriteBad})
    case Foreign => s  // cancel
  }

  /** left_write_handler */
  function LeftWritten(s: Server): Server {
    if s.reply != SUCCEEDED then s  // cancel
    else if s.socks == Connected then s.(pending := s.pending + multiset{ReadRight})
    else s.(pending := s.pending + multiset{ReadLeft})
  }

  function Attempt(s: Server, k: nat): Server {
    s.(pending := s.pending + multiset{Connect(k)}, tried := s.tried + [k])
  }

  /** tcp_resolve_handler */
  function Resolved(net: Net, s: Server): Server {
    if net.resolves then Attempt(s, 0) else Respond(s, HOST_UNREACHABLE)
  }

  /** tcp_connect_handler for endpoint k */
  function ConnectEnded(net: Net, s: Server, k: nat): Server {
    if k < |net.accepts| && net.accepts[k] then Respond(s.(chosen := Some(k)), SUCCEEDED)
    else if k + 1 < |net.accepts| then Attempt(s, k + 1)
    else Respond(s, NETWORK_UNREACHABLE)
  }

  /** A socket operation can fail, a request is looked for only before the reply, and only a fresh read can be
      shorter than a header: a later one adds to a header, and the rest of a buffer that a handler is run on
      again holds one. */
  predicate Enabled(s: Server, e: Event<Op>) {
    && e.op in s.pending
    && match e
       case Completes(op, found) =>
         (found.BadRequest? ==> s.socks != Connected) && (found.Short? ==> op != ReadLeftRest && !op.WriteRight?)
       case Fails(op) => !op.Resolve? && !op.Connect?
  }

  /** What the handler of an ended operation does to the server. */
  function Handled(net: Net, s: Server, e: Event<Op>): Server {
    match e
    case Completes(op, found) =>
      (match op
       case ReadLeft => LeftRead(s, found)
       case ReadLeftRest => LeftRead(s, found)
       case WriteRight(again) =>
         if again then LeftRead(s, found) else s.(pending := s.pending + multiset{ReadLeft})
       case ReadRight => s.(pending := s.pending + multiset{WriteLeft})
       case WriteLeft => LeftWritten(s)
       case WriteBad => s  // cancel
       case Resolve => Resolved(net, s)
       case Connect(k) => ConnectEnded(net, s, k))
    case Fails(op) =>
      if op == WriteRight(false) || op == ReadRight then s.(pending := s.pending + multiset{WriteBad})
      else s  // cancel
  }

  function Next(net: Net, s: Server, e: Event<Op>): Server
    requires Enabled(s, e)
  {
    Handled(net, s.(pending := s.pending - multiset{e.op}), e)
  }

  predicate Possible(net: Net, s: Server, run: seq<Event<Op>>)
    decreases |run|
  {
    run == [] || (Enabled(s, run[0]) && Possible(net, Next(net, s, run[0]), run[1..]))
  }

  function After(net: Net, s: Server, run: seq<Event<Op>>): Server
    requires Possible(net, s, run)
    decreases |run|
  {
    if run == [] then s else After(net, Next(net, s, run[0]), run[1..])
  }

  /** The operations that left_read_handler is bound to. */
  predicate RunsLeftRead(op: Op) { op == ReadLeft || op == ReadLeftRest || op == WriteRight(true) }

  /** No operation fails, and the local side sends whole headers, a CONNECT request and data. */
  predicate IntactEvent(e: Event<Op>) {
    e.Completes? && (RunsLeftRead(e.op) ==> Sound(e.found))
  }

  predicate Intact(run: seq<Event<Op>>) {
    forall i :: 0 <= i < |run| ==> IntactEvent(run[i])
  }

  // ----- the endpoint walk -----

  function FirstAccepting(accepts: seq<bool>): (k: nat)
    ensures k <= |accepts|
    ensures k < |accepts| ==> accepts[k]
    ensures forall i :: 0 <= i < k ==> !accepts[i]
  {
    if accepts == [] || accepts[0] then 0 else 1 + FirstAccepting(accepts[1..])
  }

  /** The reply the walk has to come to: 0x00 exactly when some resolved endpoint accepts. */
  function Verdict(net: Net): (code: int)
    ensures code == 0x00 <==> net.resolves && exists k :: 0 <= k < |net.accepts| && net.accepts[k]
    ensures code == 0x03 <==> net.resolves && forall k :: 0 <= k < |net.accepts| ==> !net.accepts[k]
    ensures code == 0x04 <==> !net.resolves
  {
    if !net.resolves then HOST_UNREACHABLE
    else if FirstAccepting(net.accepts) < |net.accepts| then SUCCEEDED
    else NETWORK_UNREACHABLE
  }

  function UpTo(n: nat): (s: seq<nat>)
    ensures |s| == n
  {
    seq(n, i => i)
  }

  /** The endpoints a finished walk has tried: in order, up to the first that accepts. */
  function Walked(net: Net): (s: seq<nat>)
    ensures |s| <= |net.accepts| && s == UpTo(|s|)
  {
    if !net.resolves then []
    else if FirstAccepting(net.accepts) < |net.accepts| then UpTo(FirstAccepting(net.accepts) + 1)
    else UpTo(|net.accepts|)
  }

  /** The request has not been answered: it is awaited, or being resolved, or connected for. */
  ghost predicate Unanswered(s: Server) {
    s.socks == Opening || Resolve in s.pending || exists k: nat :: Connect(k) in s.pending
  }

  predicate WalkOp(op: Op) { op.Resolve? || op.Connect? }

  /** How many completions of the walk a run contains. */
  function WalkSteps(run: seq<Event<Op>>): nat {
    if run == [] then 0 else (if WalkOp(run[0].op) then 1 else 0) + WalkSteps(run[1..])
  }

  predicate Upstream(op: Op) { op == ReadLeft || op == ReadLeftRest || op.WriteRight? }

  predicate Downstream(op: Op) { op == WriteLeft || op == ReadRight }

  /** The operations an established session waits for: one per direction. */
  ghost predicate Established(s: Server) {
    exists up, down :: Directions(s, up, down)
  }

  predicate Directions(s: Server, up: Op, down: Op) {
    s.pending == multiset{up, down} && Upstream(up) && Downstream(down)
  }

  /** Before the reply: one operation at a time. */
  ghost predicate Asking(net: Net, s: Server) {
    && s.replies == [] && s.chosen == None
    && (|| (s.socks == Opening && s.tried == []
            && (s.pending == multiset{ReadLeft} || s.pending == multiset{ReadLeftRest}))
        || (s.socks == Connecting && s.pending == multiset{Resolve} && s.tried == [])
        || (s.socks == Connecting && exists k: nat :: At(net, s, k)))
  }

  /** Trying endpoint k, the ones before it having refused. */
  predicate At(net: Net, s: Server, k: nat) {
    && s.pending == multiset{Connect(k)} && s.tried == UpTo(k + 1)
    && net.resolves && k <= FirstAccepting(net.accepts) && k < |net.accepts|
  }

  ghost predicate Refused(net: Net, s: Server) {
    && (s.pending == multiset{WriteLeft} || s.pending == multiset{}) && s.socks == Connecting
    && Verdict(net) != SUCCEEDED && s.reply == Verdict(net) && s.replies == [Verdict(net)]
    && s.tried == Walked(net) && s.chosen == None
  }

  ghost predicate Relaying(net: Net, s: Server) {
    && Established(s) && s.socks == Connected
    && Verdict(net) == SUCCEEDED && s.reply == SUCCEEDED && s.replies == [SUCCEEDED]
    && s.tried == Walked(net) && s.chosen == Some(FirstAccepting(net.accepts))
  }

  ghost predicate Inv(net: Net, s: Server) {
    Asking(net, s) || Refused(net, s) || Relaying(net, s)
  }

  lemma OneLess(a: Op, b: Op)
    ensures multiset{a, b} - multiset{a} == multiset{b}
    ensures multiset{a, b} - multiset{b} == multiset{a}
    ensures multiset{a} - multiset{a} == multiset{}
    ensures multiset{a} + multiset{b} == multiset{a, b}
  {
  }

  lemma StepConnect(net: Net, s: Server, k: nat, e: Event<Op>)
    requires Sensible(net) && e.Completes? && Enabled(s, e) && Asking(net, s) && At(net, s, k)
    ensures Inv(net, Next(net, s, e))
  {
    OneLess(Connect(k), Connect(k));
    assert UpTo(k + 1) + [k + 1] == UpTo(k + 2);
    var s' := Next(net, s, e);
    if net.accepts[k] {
      assert k == FirstAccepting(net.accepts);
      assert s'.pending == multiset{ReadLeft, WriteLeft};
      assert Directions(s', ReadLeft, WriteLeft);
    } else if k + 1 < |net.accepts| {
      assert s'.pending == multiset{Connect(k + 1)};
      assert At(net, s', k + 1);
    } else {
      assert s'.pending == multiset{WriteLeft};
    }
  }

  lemma StepAsking(net: Net, s: Server, e: Event<Op>)
    requires Sensible(net) && Asking(net, s) && Enabled(s, e) && IntactEvent(e)
    ensures Inv(net, Next(net, s, e))
  {
    if s.socks == Opening {
      StepOpening(net, s, e);
    } else if s.pending == multiset{Resolve} {
      StepResolve(net, s, e);
    } else {
      var k: nat :| At(net, s, k);
      StepConnect(net, s, k, e);
    }
  }

  lemma StepOpening(net: Net, s: Server, e: Event<Op>)
    requires Asking(net, s) && s.socks == Opening && Enabled(s, e) && IntactEvent(e)
    ensures Asking(net, Next(net, s, e))
  {
    OneLess(e.op, e.op);
    var s' := Next(net, s, e);
    assert s'.pending == multiset{ReadLeftRest} || s'.pending == multiset{Resolve};
  }

  lemma StepResolve(net: Net, s: Server, e: Event<Op>)
    requires Sensible(net) && Asking(net, s) && s.socks == Connecting && s.pending == multiset{Resolve}
    requires Enabled(s, e) && e.Completes?
    ensures Inv(net, Next(net, s, e))
  {
    OneLess(Resolve, Resolve);
    assert [] + [0] == UpTo(1);
    var s' := Next(net, s, e);
    assert s'.pending == multiset{Connect(0)} || s'.pending == multiset{WriteLeft};
    assert net.resolves ==> At(net, s', 0);
  }

  lemma Replace<T>(a: T, b: T, c: T)
    ensures multiset{a, b} - multiset{a} + multiset{c} == multiset{c, b}
    ensures multiset{a, b} - multiset{b} + multiset{c} == multiset{a, c}
  {
  }

  /** The operation a handler of a connected session issues; None when it only cancels the session. */
  function Issued(e: Event<Op>): Option<Op> {
    match e
    case Completes(op, found) =>
      (match op
       case ReadLeft => ReadIssues(found)
       case ReadLeftRest => ReadIssues(found)
       case WriteRight(again) => if again then ReadIssues(found) else Some(ReadLeft)
       case ReadRight => Some(WriteLeft)
       case WriteLeft => Some(ReadRight)
       case _ => None)
    case Fails(op) => if op == WriteRight(false) || op == ReadRight then Some(WriteBad) else None
  }

  function ReadIssues(found: Found): Option<Op> {
    match found
    case Short => Some(WriteBad)
    case Incomplete => Some(ReadLeftRest)
    case Packet(more) => Some(WriteRight(more))
    case _ => None
  }

  lemma ReadWhenConnected(s: Server, found: Found)
    requires s.socks == Connected && !found.BadRequest?
    ensures LeftRead(s, found) == s.(pending := match ReadIssues(found)
                                               case None => s.pending
                                               case Some(op) => s.pending + multiset{op})
  {
  }

  /** One operation takes the place of the one that ended. */
  lemma NextWhenConnected(net: Net, s: Server, e: Event<Op>)
    requires Enabled(s, e) && !WalkOp(e.op) && s.socks == Connected && s.reply == SUCCEEDED
    ensures Next(net, s, e) == s.(pending := match Issued(e)
                                             case None => s.pending - multiset{e.op}
                                             case Some(op) => s.pending - multiset{e.op} + multiset{op})
  {
    if e.Completes? {
      ReadWhenConnected(s.(pending := s.pending - multiset{e.op}), e.found);
    }
    hide Resolved, ConnectEnded, LeftRead, ReadIssues;
  }

  lemma IssuedInDirection(e: Event<Op>)
    requires IntactEvent(e) && (Upstream(e.op) || Downstream(e.op))
    ensures Issued(e).Some?
    ensures Upstream(e.op) ==> Upstream(Issued(e).value)
    ensures Downstream(e.op) ==> Downstream(Issued(e).value)
  {
  }

  lemma StepRelaying(net: Net, s: Server, up: Op, down: Op, e: Event<Op>)
    requires Directions(s, up, down) && s.socks == Connected && s.reply == SUCCEEDED
    requires Enabled(s, e) && IntactEvent(e)
    ensures var s' := Next(net, s, e);
            Established(s') && s' == s.(pending := s'.pending)
  {
    assert e.op == up || e.op == down;
    assert Upstream(e.op) || Downstream(e.op);
    NextWhenConnected(net, s, e);
    IssuedInDirection(e);
    hide Next, Enabled, Issued, IntactEvent;
    StepInDirection(s, up, down, e.op, Issued(e).value);
  }

  lemma StepInDirection(s: Server, up: Op, down: Op, ended: Op, next: Op)
    requires Directions(s, up, down) && (ended == up || ended == down)
    requires (Upstream(ended) && Upstream(next)) || (Downstream(ended) && Downstream(next))
    ensures Established(s.(pending := s.pending - multiset{ended} + multiset{next}))
  {
    Replace(up, down, next);
    var s' := s.(pending := s.pending - multiset{ended} + multiset{next});
    if ended == up {
      assert Directions(s', next, down);
    } else {
      assert Directions(s', up, next);
    }
  }

  lemma NextKeepsInv(net: Net, s: Server, e: Event<Op>)
    requires Sensible(net) && Inv(net, s) && Enabled(s, e) && IntactEvent(e)
    ensures Inv(net, Next(net, s, e))
  {
    if Relaying(net, s) {
      var up, down :| Directions(s, up, down);
      StepRelaying(net, s, up, down, e);
    } else if Refused(net, s) {
      OneLess(WriteLeft, WriteLeft);
    } else {
      StepAsking(net, s, e);
    }
  }

  lemma {:induction false} RunKeepsInv(net: Net, s: Server, run: seq<Event<Op>>)
    requires Sensible(net) && Inv(net, s) && Possible(net, s, run) && Intact(run)
    ensures Inv(net, After(net, s, run))
    decreases |run|
  {
    hide Inv, Next, Enabled, IntactEvent;
    if run != [] {
      NextKeepsInv(net, s, run[0]);
      RunKeepsInv(net, Next(net, s, run[0]), run[1..]);
    }
  }

  lemma StartInv(net: Net)
    ensures Inv(net, START)
  {
  }

  /** Each completion of the walk tries one more endpoint or sends a reply, whatever happens around it. */
  lemma {:induction false} WalkProgress(net: Net, s: Server, run: seq<Event<Op>>)
    requires Possible(net, s, run)
    ensures var end := After(net, s, run);
            |end.tried| + |end.replies| == |s.tried| + |s.replies| + WalkSteps(run)
    decreases |run|
  {
    if run != [] {
      WalkStep(net, s, run[0]);
      WalkProgress(net, Next(net, s, run[0]), run[1..]);
    }
  }

  lemma WalkStep(net: Net, s: Server, e: Event<Op>)
    requires Enabled(s, e)
    ensures var s' := Next(net, s, e);
            |s'.tried| + |s'.replies| == |s.tried| + |s.replies| + if WalkOp(e.op) then 1 else 0
  {
  }

  /** In every intact run the request stays unanswered, with exactly one operation pending, until one reply
      is sent, and that is after the name and every endpoint up to the first accepting one have been tried,
      in order and once each: after at most one completion for the name and one for each endpoint. The reply
      is 0x00 exactly when some endpoint accepts; then the session is CONNECTED to the first that does. */
  lemma EndpointWalk(net: Net, run: seq<Event<Op>>)
    requires Sensible(net) && Possible(net, START, run) && Intact(run)
    ensures var s := After(net, START, run);
            && s.replies == (if Unanswered(s) then [] else [Verdict(net)])
            && s.tried == UpTo(|s.tried|) && |s.tried| <= |Walked(net)|
            && (!Unanswered(s) ==> s.tried == Walked(net))
            && (Unanswered(s) ==> |s.pending| == 1)
            && WalkSteps(run) <= 1 + |Walked(net)| <= 1 + |net.accepts|
            && (!Unanswered(s) <==> WalkSteps(run) == 1 + |Walked(net)|)
            && (s.socks == Connected <==> s.replies == [SUCCEEDED])
            && s.chosen == if s.socks == Connected then Some(FirstAccepting(net.accepts)) else None
  {
    StartInv(net);
    RunKeepsInv(net, START, run);
    WalkProgress(net, START, run);
    InvMeans(net, After(net, START, run));
  }

  lemma InvMeans(net: Net, s: Server)
    requires Inv(net, s)
    ensures s.replies == (if Unanswered(s) then [] else [Verdict(net)])
    ensures s.tried == UpTo(|s.tried|) && |s.tried| <= |Walked(net)|
    ensures !Unanswered(s) ==> s.tried == Walked(net)
    ensures Unanswered(s) ==> |s.pending| == 1
    ensures s.socks == Connected <==> s.replies == [SUCCEEDED]
    ensures s.chosen == if s.socks == Connected then Some(FirstAccepting(net.accepts)) else None
  {
    if Asking(net, s) {
      AskingMeans(net, s);
    } else if Relaying(net, s) {
      RelayingMeans(s);
    }
    hide Verdict, Walked, UpTo, FirstAccepting, Unanswered;
  }

  lemma AskingMeans(net: Net, s: Server)
    requires Asking(net, s)
    ensures Unanswered(s) && |s.pending| == 1 && s.tried == UpTo(|s.tried|) && |s.tried| <= |Walked(net)|
    ensures s.socks != Connected
  {
    if k: nat :| At(net, s, k) {
      AtMeans(net, s, k);
    } else {
      assert [] == UpTo(0);
      hide Verdict, Walked;
    }
  }

  lemma RelayingMeans(s: Server)
    requires Established(s) && s.socks == Connected
    ensures !Unanswered(s)
  {
    var up, down :| Directions(s, up, down);
  }

  lemma AtMeans(net: Net, s: Server, k: nat)
    requires At(net, s, k)
    ensures Connect(k) in s.pending && |s.pending| == 1 && |s.tried| <= |Walked(net)|
  {
  }
}
