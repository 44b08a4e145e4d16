/** How many writes the server session can have under way on one socket. */
module Overlaps {
  import opened Relay
  import opened Wrappers

  /** How many pending operations write to one socket. */
  function LeftWrites(s: Server): nat {
    s.pending[WriteLeft] + s.pending[WriteBad]
  }

  function RightWrites(s: Server): nat {
    s.pending[WriteRight(true)] + s.pending[WriteRight(false)]
  }

  /** How many reads from the local side are pending. */
  function LeftReads(s: Server): nat {
    s.pending[ReadLeft] + s.pending[ReadLeftRest]
  }

  /** In every intact run of a connected session each direction has exactly one operation pending, so two
      writes never overlap on a socket; before that there is never more than one operation at all. */
  lemma OneOperationPerDirection(net: Net, run: seq<Event<Op>>)
    requires Sensible(net) && Possible(net, START, run) && Intact(run)
    ensures var s := After(net, START, run);
            && LeftWrites(s) <= 1 && RightWrites(s) <= 1
            && (if s.socks == Connected then
                  && LeftReads(s) + RightWrites(s) == 1
                  && s.pending[ReadRight] + LeftWrites(s) == 1
                  && |s.pending| == 2
                else |s.pending| <= 1)
  {
    StartInv(net);
    RunKeepsInv(net, START, run);
    CountOperations(net, After(net, START, run));
  }

  lemma CountDirections(s: Server, up: Op, down: Op)
    requires Directions(s, up, down)
    ensures LeftWrites(s) == (if down == WriteLeft then 1 else 0)
    ensures RightWrites(s) == (if up.WriteRight? then 1 else 0)
    ensures LeftReads(s) == (if up.WriteRight? then 0 else 1)
    ensures s.pending[ReadRight] == (if down == ReadRight then 1 else 0)
    ensures s.pending[WriteBad] == 0 && |s.pending| == 2
  {
    assert up == ReadLeft || up == ReadLeftRest || up == WriteRight(true) || up == WriteRight(false);
    assert |multiset{up, down}| == 2;
  }

  lemma CountBefore(net: Net, s: Server)
    requires Asking(net, s) || Refused(net, s)
    ensures LeftWrites(s) <= 1 && RightWrites(s) <= 1 && |s.pending| <= 1 && s.pending[WriteBad] == 0
  {
    hide FirstAccepting, Verdict, Walked, UpTo;
  }

  lemma CountOperations(net: Net, s: Server)
    requires Inv(net, s)
    ensures LeftWrites(s) <= 1 && RightWrites(s) <= 1 && s.pending[WriteBad] == 0
    ensures if s.socks == Connected then
              && LeftReads(s) + RightWrites(s) == 1
              && s.pending[ReadRight] + LeftWrites(s) == 1
              && |s.pending| == 2
            else |s.pending| <= 1
  {
    hide FirstAccepting, Verdict, Walked, UpTo;
    if s.socks == Connected {
      var up, down :| Directions(s, up, down);
      CountDirections(s, up, down);
    } else {
      CountBefore(net, s);
    }
  }

  predicate WritesLeft(op: Op) { op.WriteLeft? || op.WriteBad? }

  lemma CountTwo(s: Server, a: Op, b: Op)
    requires s.pending == multiset{a, b}
    ensures LeftWrites(s) == (if WritesLeft(a) then 1 else 0) + (if WritesLeft(b) then 1 else 0)
    ensures RightWrites(s) == (if a.WriteRight? then 1 else 0) + (if b.WriteRight? then 1 else 0)
  {
    assert a.WriteRight? ==> a == WriteRight(true) || a == WriteRight(false);
    assert b.WriteRight? ==> b == WriteRight(true) || b == WriteRight(false);
  }

  /** When a handler of an established session writes to the left socket. */
  lemma IssuedWrites(s: Server, e: Event<Op>)
    requires Enabled(s, e) && (Upstream(e.op) || Downstream(e.op)) && Issued(e).Some?
    ensures Upstream(e.op) ==>
              (WritesLeft(Issued(e).value) <==> e == Fails(WriteRight(false)) || e == Completes(ReadLeft, Short))
    ensures Downstream(e.op) ==> !Issued(e).value.WriteRight?
  {
  }

  lemma PendingAfter(net: Net, s: Server, up: Op, down: Op, e: Event<Op>)
    requires Directions(s, up, down) && s.socks == Connected && s.reply == SUCCEEDED && Enabled(s, e)
    requires e.op == up || e.op == down
    ensures Next(net, s, e).pending ==
            match Issued(e)
            case None => if e.op == up then multiset{down} else multiset{up}
            case Some(op) => if e.op == up then multiset{op, down} else multiset{up, op}
  {
    NextWhenConnected(net, s, e);
    if Issued(e).None? {
      OneLess(up, down);
    } else {
      Replace(up, down, Issued(e).value);
    }
    hide Next, Issued, Enabled, Upstream, Downstream;
  }

  /** An upstream operation ends beside the downstream one. */
  lemma UpstreamEnds(net: Net, s: Server, up: Op, down: Op, e: Event<Op>)
    requires Directions(s, up, down) && s.socks == Connected && s.reply == SUCCEEDED && Enabled(s, e) && e.op == up
    ensures var s' := Next(net, s, e);
            && (LeftWrites(s') >= 2 <==>
                  down == WriteLeft && (e == Fails(WriteRight(false)) || e == Completes(ReadLeft, Short)))
            && RightWrites(s') <= 1
  {
    PendingAfter(net, s, up, down, e);
    if Issued(e).None? {
      NotIssued(e);
      hide *;
      CountOne(Next(net, s, e), down);
    } else {
      IssuedWrites(s, e);
      hide *;
      CountTwo(Next(net, s, e), Issued(e).value, down);
    }
  }

  /** A downstream operation ends beside the upstream one. */
  lemma DownstreamEnds(net: Net, s: Server, up: Op, down: Op, e: Event<Op>)
    requires Directions(s, up, down) && s.socks == Connected && s.reply == SUCCEEDED && Enabled(s, e) && e.op == down
    ensures var s' := Next(net, s, e); LeftWrites(s') <= 1 && RightWrites(s') <= 1
  {
    PendingAfter(net, s, up, down, e);
    if Issued(e).None? {
      hide *;
      CountOne(Next(net, s, e), up);
    } else {
      IssuedWrites(s, e);
      hide *;
      CountTwo(Next(net, s, e), up, Issued(e).value);
    }
  }

  lemma CountOne(s: Server, a: Op)
    requires s.pending == multiset{a}
    ensures LeftWrites(s) <= 1 && RightWrites(s) <= 1
  {
  }

  /** Where a handler of an established session only cancels. */
  lemma NotIssued(e: Event<Op>)
    requires Issued(e).None?
    ensures e != Fails(WriteRight(false)) && e != Completes(ReadLeft, Short)
  {
  }

  lemma Single(m: multiset<Op>, op: Op)
    requires op in m && |m| <= 1
    ensures m == multiset{op} && m - multiset{op} == multiset{}
  {
    assert |m - multiset{op}| == 0;
    assert m == (m - multiset{op}) + multiset{op};
  }

  /** One operation at most, or the two that start a connected session. */
  ghost predicate AtMostOne(s: Server) {
    || |s.pending| <= 1
    || (s.socks == Connected && s.reply == SUCCEEDED && s.pending == multiset{WriteLeft, ReadLeft})
  }

  lemma OneFromRead(rest: Server, found: Found)
    requires rest.pending == multiset{}
    ensures AtMostOne(LeftRead(rest, found))
  {
  }

  lemma OneFromWalk(net: Net, rest: Server, k: nat)
    requires rest.pending == multiset{}
    ensures AtMostOne(Resolved(net, rest)) && AtMostOne(ConnectEnded(net, rest, k))
  {
    assert multiset{} + multiset{WriteLeft, ReadLeft} == multiset{WriteLeft, ReadLeft};
  }

  /** What a handler issues when nothing else is pending. */
  lemma OnlyIssued(net: Net, rest: Server, e: Event<Op>)
    requires rest.pending == multiset{}
    ensures AtMostOne(Handled(net, rest, e))
  {
    if e.Completes? {
      OneFromRead(rest, e.found);
      OneFromWalk(net, rest, if e.op.Connect? then e.op.endpoint else 0);
    }
    hide LeftRead, Resolved, ConnectEnded;
  }

  lemma AtMostAll(m: multiset<Op>, a: Op, b: Op)
    requires a != b
    ensures m[a] + m[b] <= |m|
  {
    var rest := m[a := 0][b := 0];
    assert m == rest + multiset{}[a := m[a]] + multiset{}[b := m[b]];
  }

  /** From a single pending operation a step leads to one write on each socket at most. */
  lemma SingleStep(net: Net, s: Server, e: Event<Op>)
    requires |s.pending| <= 1 && Enabled(s, e)
    ensures s.pending == multiset{e.op}
    ensures var s' := Next(net, s, e);
            && LeftWrites(s') <= 1 && RightWrites(s') <= 1
            && AtMostOne(s')
  {
    Single(s.pending, e.op);
    OnlyIssued(net, s.(pending := multiset{}), e);
    hide Handled;
    var s' := Next(net, s, e);
    if |s'.pending| <= 1 {
      AtMostAll(s'.pending, WriteLeft, WriteBad);
      AtMostAll(s'.pending, WriteRight(true), WriteRight(false));
    }
  }

  /** The first step that is not intact, and any other: it puts a second write on the left socket exactly
      when a write to the local side is under way and right_write_handler fails or a fresh read from the local
      side returns less than a header. */
  lemma OverlapsExactly(net: Net, run: seq<Event<Op>>, e: Event<Op>)
    requires Sensible(net) && Possible(net, START, run) && Intact(run)
    requires Enabled(After(net, START, run), e)
    ensures var s := After(net, START, run);
            var s' := Next(net, s, e);
            && (LeftWrites(s') >= 2 <==>
                  WriteLeft in s.pending && (e == Fails(WriteRight(false)) || e == Completes(ReadLeft, Short)))
            && RightWrites(s') <= 1
  {
    StartInv(net);
    RunKeepsInv(net, START, run);
    OverlapsFrom(net, After(net, START, run), e);
  }

  lemma OverlapsFrom(net: Net, s: Server, e: Event<Op>)
    requires Inv(net, s) && Enabled(s, e)
    ensures var s' := Next(net, s, e);
            && (LeftWrites(s') >= 2 <==>
                  WriteLeft in s.pending && (e == Fails(WriteRight(false)) || e == Completes(ReadLeft, Short)))
            && RightWrites(s') <= 1
  {
    hide Next, LeftWrites, RightWrites, FirstAccepting, Verdict, Walked, UpTo;
    if s.socks == Connected {
      var up, down :| Directions(s, up, down);
      OverlapsBeside(net, s, up, down, e);
    } else {
      CountOperations(net, s);
      SingleStep(net, s, e);
      assert e.op == WriteLeft <==> WriteLeft in s.pending;
    }
  }

  lemma OverlapsBeside(net: Net, s: Server, up: Op, down: Op, e: Event<Op>)
    requires Directions(s, up, down) && s.socks == Connected && s.reply == SUCCEEDED && Enabled(s, e)
    ensures var s' := Next(net, s, e);
            && (LeftWrites(s') >= 2 <==>
                  WriteLeft in s.pending && (e == Fails(WriteRight(false)) || e == Completes(ReadLeft, Short)))
            && RightWrites(s') <= 1
  {
    assert e.op == up || e.op == down;
    assert WriteLeft in s.pending <==> down == WriteLeft;
    hide Next, LeftWrites, RightWrites, Enabled;
    if e.op == up {
      UpstreamEnds(net, s, up, down, e);
    } else {
      DownstreamEnds(net, s, up, down, e);
    }
  }

  const ANSWERED: Server :=
    Server(multiset{WriteLeft, ReadLeft}, Connected, SUCCEEDED, [0], [SUCCEEDED], Some(0))

  const FORWARDING: Server := ANSWERED.(pending := multiset{WriteLeft, WriteRight(false)})

  /** The events that lead to a connected session when the first endpoint accepts, and others after them. */
  function ConnectRun(more: seq<Event<Op>>): seq<Event<Op>> {
    [Completes(ReadLeft, Packet(false))]
    + ([Completes(Resolve, Incomplete)] + ([Completes(Connect(0), Incomplete)] + more))
  }

  lemma OneStep(net: Net, s: Server, e: Event<Op>, rest: seq<Event<Op>>)
    requires Enabled(s, e)
    ensures var run := [e] + rest;
            && (Possible(net, s, run) <==> Possible(net, Next(net, s, e), rest))
            && (Possible(net, s, run) ==> After(net, s, run) == After(net, Next(net, s, e), rest))
            && (Intact(run) <==> IntactEvent(e) && Intact(rest))
  {
    hide Next, Enabled, IntactEvent;
    var run := [e] + rest;
    assert run[1..] == rest;
    assert forall i :: 0 <= i < |rest| ==> rest[i] == run[i + 1];
    if Intact(rest) && IntactEvent(e) {
      assert forall i :: 0 <= i < |run| ==> run[i] == if i == 0 then e else rest[i - 1];
    }
    if Intact(run) {
      assert run[0] == e;
    }
  }

  const ASKED: Server := START.(socks := Connecting, pending := multiset{Resolve})

  const TRYING: Server := ASKED.(pending := multiset{Connect(0)}, tried := [0])

  lemma RequestStep(net: Net)
    ensures Next(net, START, Completes(ReadLeft, Packet(false))) == ASKED
  {
    OneLess(ReadLeft, Resolve);
    assert multiset{} + multiset{Resolve} == multiset{Resolve};
  }

  lemma ResolveStep(net: Net)
    requires net.resolves
    ensures Next(net, ASKED, Completes(Resolve, Incomplete)) == TRYING
  {
    OneLess(Resolve, Connect(0));
    assert multiset{} + multiset{Connect(0)} == multiset{Connect(0)};
    assert [] + [0] == [0];
  }

  lemma ConnectStep(net: Net)
    requires net.accepts != [] && net.accepts[0]
    ensures Next(net, TRYING, Completes(Connect(0), Incomplete)) == ANSWERED
  {
    OneLess(Connect(0), WriteLeft);
    assert multiset{} + multiset{WriteLeft, ReadLeft} == multiset{WriteLeft, ReadLeft};
    assert [] + [SUCCEEDED] == [SUCCEEDED];
  }

  lemma ConnectRunEnds(net: Net, more: seq<Event<Op>>)
    requires net.resolves && net.accepts != [] && net.accepts[0]
    ensures var run := ConnectRun(more);
            && (Possible(net, START, run) <==> Possible(net, ANSWERED, more))
            && (Possible(net, START, run) ==> After(net, START, run) == After(net, ANSWERED, more))
            && (Intact(run) <==> Intact(more))
  {
    var e2, e3 := Completes(Resolve, Incomplete), Completes(Connect(0), Incomplete);
    RequestStep(net);
    ResolveStep(net);
    ConnectStep(net);
    hide Next, Possible, After, Intact;
    OneStep(net, START, Completes(ReadLeft, Packet(false)), [e2] + ([e3] + more));
    OneStep(net, ASKED, e2, [e3] + more);
    OneStep(net, TRYING, e3, more);
  }

  lemma ShortReadOverlaps(net: Net)
    ensures Enabled(ANSWERED, Completes(ReadLeft, Short))
    ensures LeftWrites(Next(net, ANSWERED, Completes(ReadLeft, Short))) == 2
  {
    NextWhenConnected(net, ANSWERED, Completes(ReadLeft, Short));
    Replace(WriteLeft, ReadLeft, WriteBad);
    CountTwo(Next(net, ANSWERED, Completes(ReadLeft, Short)), WriteLeft, WriteBad);
  }

  lemma ForwardStep(net: Net)
    ensures Enabled(ANSWERED, Completes(ReadLeft, Packet(false)))
    ensures Next(net, ANSWERED, Completes(ReadLeft, Packet(false))) == FORWARDING
  {
    NextWhenConnected(net, ANSWERED, Completes(ReadLeft, Packet(false)));
    hide Next;
    Replace(WriteLeft, ReadLeft, WriteRight(false));
  }

  lemma FailedWriteOverlaps(net: Net)
    ensures Enabled(FORWARDING, Fails(WriteRight(false)))
    ensures LeftWrites(Next(net, FORWARDING, Fails(WriteRight(false)))) == 2
  {
    NextWhenConnected(net, FORWARDING, Fails(WriteRight(false)));
    hide Next;
    Replace(WriteLeft, WriteRight(false), WriteBad);
    CountTwo(Next(net, FORWARDING, Fails(WriteRight(false))), WriteLeft, WriteBad);
  }

  /** Both overlaps happen: right after the reply a read may come back short, and one packet later the write
      to the remote side may fail, in either case with the write of the reply still under way. */
  lemma OverlapsHappen(net: Net)
    requires net.resolves && net.accepts != [] && net.accepts[0]
    ensures var run, e := ConnectRun([]), Completes(ReadLeft, Short);
            && Possible(net, START, run) && Intact(run) && Enabled(After(net, START, run), e)
            && LeftWrites(Next(net, After(net, START, run), e)) == 2
    ensures var run, e := ConnectRun([Completes(ReadLeft, Packet(false))]), Fails(WriteRight(false));
            && Possible(net, START, run) && Intact(run) && Enabled(After(net, START, run), e)
            && LeftWrites(Next(net, After(net, START, run), e)) == 2
  {
    var data := Completes(ReadLeft, Packet(false));
    ConnectRunEnds(net, []);
    ConnectRunEnds(net, [data]);
    assert [data] == [data] + [];
    OneStep(net, ANSWERED, data, []);
    ShortReadOverlaps(net);
    ForwardStep(net);
    FailedWriteOverlaps(net);
    assert Possible(net, ANSWERED, []) && After(net, ANSWERED, []) == ANSWERED;
    assert Possible(net, FORWARDING, []) && After(net, FORWARDING, []) == FORWARDING;
    hide Next, Enabled, Possible, After, ConnectRun, Intact, LeftWrites;
  }

  /** Operations of the upstream direction. */
  function UpOps(m: multiset<Op>): nat {
    m[ReadLeft] + m[ReadLeftRest] + m[WriteRight(true)] + m[WriteRight(false)]
  }

  /** One operation, or two once the session is connected, of which one at most works for the remote side. */
  ghost predicate Limited(s: Server) {
    if s.socks == Connected then
      && s.reply == SUCCEEDED && |s.pending| <= 2 && UpOps(s.pending) <= 1
      && forall op :: op in s.pending ==> !WalkOp(op)
    else |s.pending| <= 1
  }

  /** Whatever fails and whatever the local side sends: two writes on the left socket are the worst there
      is, and the right socket never has more than one. */
  lemma NeverMoreThanTwo(net: Net, run: seq<Event<Op>>)
    requires Possible(net, START, run)
    ensures var s := After(net, START, run); LeftWrites(s) <= 2 && RightWrites(s) <= 1
  {
    RunLimited(net, START, run);
    LimitedMeans(After(net, START, run));
  }

  lemma {:induction false} RunLimited(net: Net, s: Server, run: seq<Event<Op>>)
    requires Limited(s) && Possible(net, s, run)
    ensures Limited(After(net, s, run))
    decreases |run|
  {
    hide Limited, Next, Enabled;
    if run != [] {
      StepLimited(net, s, run[0]);
      RunLimited(net, Next(net, s, run[0]), run[1..]);
    }
  }

  lemma LimitedMeans(s: Server)
    requires Limited(s)
    ensures LeftWrites(s) <= 2 && RightWrites(s) <= 1
  {
    AtMostAll(s.pending, WriteLeft, WriteBad);
    AtMostAll(s.pending, WriteRight(true), WriteRight(false));
  }

  lemma StepLimited(net: Net, s: Server, e: Event<Op>)
    requires Limited(s) && Enabled(s, e)
    ensures Limited(Next(net, s, e))
  {
    if s.socks == Connected {
      NextWhenConnected(net, s, e);
      if Issued(e).Some? {
        IssuedInChain(e);
        LimitedReplace(s.pending, e.op, Issued(e).value);
      } else {
        LimitedRemove(s.pending, e.op);
      }
      hide Next, Enabled, Issued, UpOps;
    } else {
      SingleStep(net, s, e);
      hide Next, Enabled;
    }
  }

  lemma LimitedReplace(m: multiset<Op>, old': Op, new': Op)
    requires old' in m && UpOps(multiset{new'}) <= UpOps(multiset{old'})
    ensures var m' := m - multiset{old'} + multiset{new'};
            |m'| == |m| && UpOps(m') <= UpOps(m)
  {
    assert m == (m - multiset{old'}) + multiset{old'};
  }

  lemma LimitedRemove(m: multiset<Op>, op: Op)
    requires op in m
    ensures var m' := m - multiset{op};
            |m'| <= |m| && UpOps(m') <= UpOps(m)
  {
  }

  lemma IssuedInChain(e: Event<Op>)
    requires Issued(e).Some?
    ensures !WalkOp(Issued(e).value)
    ensures UpOps(multiset{Issued(e).value}) <= UpOps(multiset{e.op})
  {
  }
}
