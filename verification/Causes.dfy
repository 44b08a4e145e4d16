/** Which operations each side asks its sockets for, said from the operation's side: over any run, failures and
    cancelled sessions included, every operation that is pending or has ended was issued once, by one of the events
    listed for it, and every such event has issued it. */
module Causes {
  import opened Relay
  import opened LocalRelay
  import opened Wrappers

  /** How many events of a run end an operation. */
  function Ended<O(==)>(run: seq<Event<O>>, op: O): nat {
    if run == [] then 0 else (if run[0].op == op then 1 else 0) + Ended(run[1..], op)
  }

  // ----- the local session -----

  /** right_read_handler runs. */
  predicate RunsRightRead(e: Event<LocalOp>) {
    e.Completes? && (e.op == ReadServer || e.op == WriteClient(true))
  }

  /** The events behind which an operation of the local session is issued. */
  predicate LocalCause(e: Event<LocalOp>, op: LocalOp) {
    match op
    case ReadMethods => false
    case WriteMethod => e.Completes? && e.op == ReadMethods && !e.found.BadRequest?
    case ReadClient => e.Completes? && (e.op == WriteMethod || e.op == WriteServer)
    case WriteServer => e.Completes? && e.op == ReadClient
    case WriteServerBad =>
      || (e.Completes? && e.op == ReadMethods && e.found.BadRequest?)
      || (e.Fails? && (e.op == ReadMethods || e.op == WriteMethod || e.op == ReadClient))
    case ReadServer =>
      || (e.Completes? && (e.op == WriteMethod || e.op == WriteClient(false)))
      || (RunsRightRead(e) && e.found.Incomplete?)
    case WriteClient(more) => RunsRightRead(e) && e.found == Packet(more)
  }

  function LocalCauses(run: seq<Event<LocalOp>>, op: LocalOp): nat {
    if run == [] then 0 else (if LocalCause(run[0], op) then 1 else 0) + LocalCauses(run[1..], op)
  }

  lemma LocalStepBalances(l: Local, e: Event<LocalOp>, op: LocalOp)
    requires e.op in l
    ensures LocalNext(l, e)[op] + (if e.op == op then 1 else 0) == l[op] + (if LocalCause(e, op) then 1 else 0)
  {
    IssuesByCause(e, op);
    hide LocalIssued, LocalCause;
  }

  lemma IssuesByCause(e: Event<LocalOp>, op: LocalOp)
    ensures LocalCause(e, op) <==>
              LocalIssued(e) == Some(op) || (op == ReadServer && e.Completes? && e.op == WriteMethod)
    ensures e.Completes? && e.op == WriteMethod ==> LocalIssued(e) == Some(ReadClient)
  {
  }

  /** The local session issues each operation once behind each of its causes, and the first read from the start. */
  lemma {:induction false} LocalOperationsBalance(l: Local, run: seq<Event<LocalOp>>, op: LocalOp)
    requires LocalPossible(l, run)
    ensures LocalAfter(l, run)[op] + Ended(run, op) == l[op] + LocalCauses(run, op)
    decreases |run|
  {
    hide LocalNext, LocalCause;
    if run != [] {
      LocalStepBalances(l, run[0], op);
      LocalOperationsBalance(LocalNext(l, run[0]), run[1..], op);
    }
  }

  // ----- the server session -----

  predicate Handles(e: Event<Op>) {
    e.Completes? && RunsLeftRead(e.op)
  }

  predicate Accepted(net: Net, e: Event<Op>) {
    e.Completes? && e.op.Connect? && e.op.endpoint < |net.accepts| && net.accepts[e.op.endpoint]
  }

  predicate NoEndpoint(net: Net, e: Event<Op>) {
    e.Completes? && ((e.op.Resolve? && !net.resolves)
                     || (e.op.Connect? && !Accepted(net, e) && e.op.endpoint + 1 >= |net.accepts|))
  }

  /** The events behind which an operation of the server session is issued. */
  predicate Cause(net: Net, s: Server, e: Event<Op>, op: Op) {
    match op
    case Resolve => Handles(e) && e.found.Packet? && s.socks != Connected
    case WriteRight(more) => Handles(e) && e.found == Packet(more) && s.socks == Connected
    case ReadLeftRest => Handles(e) && e.found.Incomplete?
    case WriteBad =>
      || (Handles(e) && (e.found.Short? || e.found.BadRequest?))
      || e == Fails(WriteRight(false)) || e == Fails(ReadRight)
    case Connect(k) =>
      && e.Completes?
      && if k == 0 then e.op.Resolve? && net.resolves
         else e.op == Connect(k - 1) && !Accepted(net, e) && k < |net.accepts|
    case WriteLeft => NoEndpoint(net, e) || Accepted(net, e) || (e.Completes? && e.op == ReadRight)
    case ReadRight => e.Completes? && e.op == WriteLeft && s.reply == 0x00 && s.socks == Connected
    case ReadLeft =>
      || Accepted(net, e) || (e.Completes? && e.op == WriteRight(false))
      || (e.Completes? && e.op == WriteLeft && s.reply == 0x00 && s.socks != Connected)
  }

  function CausesOf(net: Net, s: Server, run: seq<Event<Op>>, op: Op): nat
    requires Possible(net, s, run)
    decreases |run|
  {
    if run == [] then 0
    else (if Cause(net, s, run[0], op) then 1 else 0) + CausesOf(net, Next(net, s, run[0]), run[1..], op)
  }

  lemma ReadCauses(net: Net, s: Server, e: Event<Op>, op: Op)
    requires Handles(e)
    ensures LeftRead(s, e.found).pending[op] == s.pending[op] + (if Cause(net, s, e, op) then 1 else 0)
  {
  }

  lemma WalkCauses(net: Net, s: Server, e: Event<Op>, op: Op)
    requires e.Completes? && (e.op.Resolve? || e.op.Connect?)
    ensures Handled(net, s, e).pending[op] == s.pending[op] + (if Cause(net, s, e, op) then 1 else 0)
  {
  }

  lemma RelayCauses(net: Net, s: Server, e: Event<Op>, op: Op)
    requires e.Completes? && !Handles(e) && !e.op.Resolve? && !e.op.Connect?
    ensures Handled(net, s, e).pending[op] == s.pending[op] + (if Cause(net, s, e, op) then 1 else 0)
  {
  }

  lemma FailureCauses(net: Net, s: Server, e: Event<Op>, op: Op)
    requires e.Fails?
    ensures Handled(net, s, e).pending[op] == s.pending[op] + (if Cause(net, s, e, op) then 1 else 0)
  {
  }

  lemma HandledCauses(net: Net, s: Server, e: Event<Op>, op: Op)
    ensures Handled(net, s, e).pending[op] == s.pending[op] + (if Cause(net, s, e, op) then 1 else 0)
  {
    if Handles(e) {
      ReadCauses(net, s, e, op);
      hide Cause, LeftRead;
    } else if e.Completes? && (e.op.Resolve? || e.op.Connect?) {
      WalkCauses(net, s, e, op);
      hide *;
    } else if e.Completes? {
      RelayCauses(net, s, e, op);
      hide *;
    } else {
      FailureCauses(net, s, e, op);
      hide *;
    }
  }

  /** The causes do not depend on what is pending. */
  lemma StepBalances(net: Net, s: Server, e: Event<Op>, op: Op)
    requires Enabled(s, e)
    ensures Next(net, s, e).pending[op] + (if e.op == op then 1 else 0)
            == s.pending[op] + (if Cause(net, s, e, op) then 1 else 0)
  {
    var less := s.(pending := s.pending - multiset{e.op});
    assert Cause(net, less, e, op) == Cause(net, s, e, op);
    hide Handled, Cause;
    HandledCauses(net, less, e, op);
  }

  /** The server session issues each operation once behind each of its causes. */
  lemma {:induction false} OperationsBalance(net: Net, s: Server, run: seq<Event<Op>>, op: Op)
    requires Possible(net, s, run)
    ensures After(net, s, run).pending[op] + Ended(run, op) == s.pending[op] + CausesOf(net, s, run, op)
    decreases |run|
  {
    hide Next, Enabled, Cause;
    if run != [] {
      StepBalances(net, s, run[0], op);
      OperationsBalance(net, Next(net, s, run[0]), run[1..], op);
    }
  }

  /** A packet of data before the reply, whether it holds a request or not. */
  predicate Message(e: Event<Op>) {
    Handles(e) && (e.found.Packet? || e.found.BadRequest?)
  }

  /** Nothing is looked up before there was such a packet. */
  ghost predicate NoWalkYet(s: Server) {
    s.socks == Opening ==> s.pending[Resolve] == 0 && forall k: nat :: s.pending[Connect(k)] == 0
  }

  lemma OpeningEnds(net: Net, s: Server, e: Event<Op>)
    requires Enabled(s, e)
    ensures Next(net, s, e).socks == Opening <==> s.socks == Opening && !Message(e) && !Accepted(net, e)
  {
  }

  /** While there was none, no step issues a lookup or a connection attempt. */
  lemma NoWalkCaused(net: Net, s: Server, e: Event<Op>, op: Op)
    requires Enabled(s, e) && s.socks == Opening && NoWalkYet(s) && !Message(e) && (op.Resolve? || op.Connect?)
    ensures !Cause(net, s, e, op) && !Accepted(net, e) && s.pending[op] == 0
  {
    assert s.pending[e.op] > 0;
    assert !e.op.Connect? && !e.op.Resolve?;
  }

  lemma StepOpens(net: Net, s: Server, e: Event<Op>)
    requires Enabled(s, e) && NoWalkYet(s)
    ensures NoWalkYet(Next(net, s, e))
    ensures Next(net, s, e).socks == Opening <==> s.socks == Opening && !Message(e)
  {
    hide Next, Enabled, Cause, Accepted, Message;
    OpeningEnds(net, s, e);
    if s.socks == Opening && !Message(e) {
      NoWalkCaused(net, s, e, Resolve);
      StepBalances(net, s, e, Resolve);
      forall k: nat
        ensures Next(net, s, e).pending[Connect(k)] == 0
      {
        NoWalkCaused(net, s, e, Connect(k));
        StepBalances(net, s, e, Connect(k));
      }
    }
  }

  /** Over every run socks5_state leaves its first value with the first packet of data, and not before. */
  lemma {:induction false} OpensWithMessage(net: Net, s: Server, run: seq<Event<Op>>)
    requires NoWalkYet(s) && Possible(net, s, run)
    ensures After(net, s, run).socks == Opening <==>
              s.socks == Opening && forall i :: 0 <= i < |run| ==> !Message(run[i])
    decreases |run|
  {
    hide Next, Enabled, Message, NoWalkYet;
    if run != [] {
      StepOpens(net, s, run[0]);
      OpensWithMessage(net, Next(net, s, run[0]), run[1..]);
      assert forall i :: 0 < i < |run| ==> run[i] == run[1..][i - 1];
    }
  }
}
