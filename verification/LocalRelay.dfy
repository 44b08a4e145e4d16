/** The operations the local session has asked for once the exchange is over. */
module LocalRelay {
  import opened Relay
  import opened Wrappers

  datatype LocalOp =
    | ReadMethods              // left_read_socks5_step1
    | WriteMethod              // left_write_socks5_step1_handler
    | ReadClient               // left_read_handler
    | WriteServer              // right_write_handler
    | WriteServerBad           // a last packet on the right socket, then cancel
    | ReadServer               // right_read_handler
    | WriteClient(again: bool) // right_read_handler for the rest of the buffer, else left_write_handler

  type Local = multiset<LocalOp>

  const LOCAL_START: Local := multiset{ReadMethods}

  /** The operation a handler issues; None when it cancels the session, whose pending operations then end and run
      their handlers, with an error or, when they had completed before, without one. */
  function LocalIssued(e: Event<LocalOp>): Option<LocalOp> {
    match e
    case Completes(op, found) =>
      (match op
       case ReadMethods => Some(if found.BadRequest? then WriteServerBad else WriteMethod)
       case WriteMethod => Some(ReadClient)
       case ReadClient => Some(WriteServer)
       case WriteServer => Some(ReadClient)
       case WriteServerBad => None
       case ReadServer => RightReadIssues(found)
       case WriteClient(again) => if again then RightReadIssues(found) else Some(ReadServer))
    case Fails(op) =>
      if op.ReadMethods? || op.WriteMethod? || op.ReadClient? then Some(WriteServerBad) else None
  }

  /** right_read_handler from status_data on: on this side it writes nothing to the server. */
  function RightReadIssues(found: Found): Option<LocalOp> {
    match found
    case Incomplete => Some(ReadServer)
    case Packet(more) => Some(WriteClient(more))
    case _ => None
  }

  /** One operation takes the place of another; when the method is sent, the other direction starts too. */
  function LocalNext(l: Local, e: Event<LocalOp>): Local {
    match LocalIssued(e)
    case None => l - multiset{e.op}
    case Some(op) =>
      var next := l - multiset{e.op} + multiset{op};
      if e.Completes? && e.op == WriteMethod then next + multiset{ReadServer} else next
  }

  predicate LocalPossible(l: Local, run: seq<Event<LocalOp>>)
    decreases |run|
  {
    run == [] || (run[0].op in l && LocalPossible(LocalNext(l, run[0]), run[1..]))
  }

  function LocalAfter(l: Local, run: seq<Event<LocalOp>>): Local
    requires LocalPossible(l, run)
    decreases |run|
  {
    if run == [] then l else LocalAfter(LocalNext(l, run[0]), run[1..])
  }

  /** No operation fails, the client asks for a method, and the server sends whole headers and data. */
  predicate LocalIntactEvent(e: Event<LocalOp>) {
    && e.Completes?
    && (e.op == ReadMethods ==> !e.found.BadRequest?)
    && (e.op == ReadServer || e.op == WriteClient(true) ==> Sound(e.found))
  }

  predicate LocalIntact(run: seq<Event<LocalOp>>) {
    forall i :: 0 <= i < |run| ==> LocalIntactEvent(run[i])
  }

  predicate FromClient(op: LocalOp) { op == ReadClient || op == WriteServer }

  predicate ToClient(op: LocalOp) { op == ReadServer || op.WriteClient? }

  /** One operation in each direction; the one towards the server may be the last. */
  predicate Both(l: Local, up: LocalOp, down: LocalOp) {
    l == multiset{up, down} && (FromClient(up) || up == WriteServerBad) && ToClient(down)
  }

  /** The method is being settled, or each direction has its one operation. */
  ghost predicate Healthy(l: Local) {
    || l == multiset{ReadMethods} || l == multiset{WriteMethod}
    || exists up, down :: Both(l, up, down) && FromClient(up)
  }

  ghost predicate LocalInv(l: Local) {
    |l| <= 1 || exists up, down :: Both(l, up, down)
  }

  lemma IssuedInDirection(e: Event<LocalOp>)
    requires LocalIssued(e).Some?
    ensures FromClient(e.op) ==> FromClient(LocalIssued(e).value) || LocalIssued(e).value == WriteServerBad
    ensures FromClient(e.op) && e.Completes? ==> FromClient(LocalIssued(e).value)
    ensures ToClient(e.op) ==> ToClient(LocalIssued(e).value)
    ensures e.op != WriteServerBad
  {
  }

  lemma IssuedWhenIntact(e: Event<LocalOp>)
    requires LocalIntactEvent(e) && (FromClient(e.op) || ToClient(e.op))
    ensures LocalIssued(e).Some?
  {
  }

  lemma StepBoth(l: Local, up: LocalOp, down: LocalOp, e: Event<LocalOp>)
    requires Both(l, up, down) && e.op in l
    ensures LocalInv(LocalNext(l, e))
    ensures FromClient(up) && LocalIntactEvent(e) ==> Healthy(LocalNext(l, e))
  {
    assert e.op == up || e.op == down;
    if FromClient(up) && LocalIntactEvent(e) {
      IssuedWhenIntact(e);
    }
    if LocalIssued(e).Some? {
      var op := LocalIssued(e).value;
      IssuedInDirection(e);
      NextInPlace(l, e);
      hide LocalIssued, LocalNext, LocalIntactEvent;
      var l' := LocalNext(l, e);
      Replace(up, down, op);
      if e.op == up {
        assert Both(l', op, down);
      } else {
        assert Both(l', up, op);
      }
    } else {
      hide LocalIntactEvent, LocalIssued;
      assert |l - multiset{e.op}| == 1;
    }
  }

  lemma NextInPlace(l: Local, e: Event<LocalOp>)
    requires LocalIssued(e).Some? && (FromClient(e.op) || ToClient(e.op))
    ensures LocalNext(l, e) == l - multiset{e.op} + multiset{LocalIssued(e).value}
  {
  }

  lemma StepSingle(e: Event<LocalOp>)
    ensures LocalInv(LocalNext(multiset{e.op}, e))
    ensures (e.op == ReadMethods || e.op == WriteMethod) && LocalIntactEvent(e) ==>
              Healthy(LocalNext(multiset{e.op}, e))
  {
    assert multiset{e.op} - multiset{e.op} == multiset{};
    if LocalIssued(e).Some? {
      var op := LocalIssued(e).value;
      assert multiset{e.op} - multiset{e.op} + multiset{op} == multiset{op};
      if e.op == WriteMethod {
        assert multiset{ReadClient} + multiset{ReadServer} == multiset{ReadClient, ReadServer};
        assert Both(multiset{ReadClient, ReadServer}, ReadClient, ReadServer);
      }
    }
  }

  lemma Alone(l: Local, op: LocalOp)
    requires op in l && |l| <= 1
    ensures l == multiset{op}
  {
    assert |l - multiset{op}| == 0;
    assert l == (l - multiset{op}) + multiset{op};
  }

  lemma LocalStep(l: Local, e: Event<LocalOp>)
    requires LocalInv(l) && e.op in l
    ensures LocalInv(LocalNext(l, e))
    ensures Healthy(l) && LocalIntactEvent(e) ==> Healthy(LocalNext(l, e))
  {
    hide LocalNext, LocalIntactEvent;
    if |l| <= 1 {
      Alone(l, e.op);
      StepSingle(e);
      assert Healthy(l) ==> e.op == ReadMethods || e.op == WriteMethod by {
        if up, down :| Both(l, up, down) {
          assert false;
        }
      }
    } else if Healthy(l) {
      var up, down :| Both(l, up, down) && FromClient(up);
      StepBoth(l, up, down, e);
    } else {
      var up, down :| Both(l, up, down);
      StepBoth(l, up, down, e);
    }
  }

  lemma {:induction false} LocalRun(l: Local, run: seq<Event<LocalOp>>)
    requires LocalInv(l) && LocalPossible(l, run)
    ensures LocalInv(LocalAfter(l, run))
    ensures Healthy(l) && LocalIntact(run) ==> Healthy(LocalAfter(l, run))
    decreases |run|
  {
    hide Healthy, LocalInv, LocalNext, LocalIntactEvent;
    if run != [] {
      LocalStep(l, run[0]);
      LocalRun(LocalNext(l, run[0]), run[1..]);
    }
  }

  function ClientWrites(l: Local): nat {
    l[WriteMethod] + l[WriteClient(true)] + l[WriteClient(false)]
  }

  function ServerWrites(l: Local): nat {
    l[WriteServer] + l[WriteServerBad]
  }

  /** On the local side no two writes ever overlap on a socket, whatever fails and whatever is received; and
      in every intact run, once the method is settled, each direction has exactly one operation pending. */
  lemma LocalOneOperationPerDirection(run: seq<Event<LocalOp>>)
    requires LocalPossible(LOCAL_START, run)
    ensures var l := LocalAfter(LOCAL_START, run);
            && ClientWrites(l) <= 1 && ServerWrites(l) <= 1
            && (LocalIntact(run) ==>
                  || l == multiset{ReadMethods} || l == multiset{WriteMethod}
                  || (&& l[ReadClient] + ServerWrites(l) == 1 && l[ReadServer] + ClientWrites(l) == 1
                      && |l| == 2))
  {
    LocalRun(LOCAL_START, run);
    LocalCount(LocalAfter(LOCAL_START, run));
  }

  lemma LocalCount(l: Local)
    requires LocalInv(l)
    ensures ClientWrites(l) <= 1 && ServerWrites(l) <= 1
    ensures Healthy(l) && l != multiset{ReadMethods} && l != multiset{WriteMethod} ==>
              l[ReadClient] + ServerWrites(l) == 1 && l[ReadServer] + ClientWrites(l) == 1 && |l| == 2
  {
    if up, down :| Both(l, up, down) {
      CountTwoLocal(l, up, down);
    } else {
      AtMost(l, WriteServer, WriteServerBad);
      AtMost(l, WriteMethod, WriteClient(true));
      AtMost(l, WriteMethod, WriteClient(false));
      AtMost(l, WriteClient(true), WriteClient(false));
    }
  }

  lemma AtMost(l: Local, a: LocalOp, b: LocalOp)
    requires a != b
    ensures l[a] + l[b] <= |l|
  {
    var rest := l[a := 0][b := 0];
    assert l == rest + multiset{}[a := l[a]] + multiset{}[b := l[b]];
  }

  lemma CountTwoLocal(l: Local, up: LocalOp, down: LocalOp)
    requires Both(l, up, down)
    ensures ClientWrites(l) == (if down.WriteClient? then 1 else 0)
    ensures ServerWrites(l) == (if up == ReadClient then 0 else 1)
    ensures l[ReadClient] == (if up == ReadClient then 1 else 0)
    ensures l[ReadServer] == (if down == ReadServer then 1 else 0)
    ensures |l| == 2
  {
    assert down == ReadServer || down == WriteClient(true) || down == WriteClient(false);
  }
}
