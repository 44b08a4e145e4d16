/** What the server session reads from the local side from status_data on: a packet with the SOCKS request first,
    which is answered and not forwarded, and packets of data for the remote side after the reply. */
module Uplink {
  import opened Bytes
  import opened CounterMode
  import opened Packet
  import R = Reassembly
  import Socks5

  /** dropped: the bytes behind the request packet in the read that completed it, which nothing keeps. */
  datatype Link =
    | Asking(rx: R.Feed)                                    // the request is being read
    | Answering(request: bytes, dropped: nat)               // no read from the local side is pending
    | Relaying(request: bytes, dropped: nat, rx: R.Feed)    // the reply was 0x00
    | Ended

  datatype System = System(link: Link, unread: bytes)

  datatype Event =
    | Left(e: R.Event)    // a read from the local side, or a write to the remote side, completes
    | Answered(ok: bool)  // the reply is sent

  predicate IsConnect(plain: bytes) {
    Socks5.ParseRequest(plain).Ok? && Socks5.ParseRequest(plain).value.cmd == 0x01
  }

  /** left_read_handler before the reply: no cut_lss, no write to the remote side. */
  function AskRead(ks: KeyStream, key: bytes, rx: R.Feed, bs: bytes): Link {
    var got := rx.held + bs;
    if |got| < HEADER then Ended
    else
      var size := HEADER + FromWire(got).DataLen();
      if |got| < size then Asking(R.Feed(got, [], 0, R.ReadRest(size - |got|)))
      else if !IsData(FromWire(got).kind) then Ended
      else
        var plain := Crypt(ks, key, got[HEADER..size]);
        if IsConnect(plain) then Answering(plain, |got| - size) else Ended
  }

  predicate Enabled(s: System, e: Event) {
    match e
    case Left(r) =>
      || (s.link.Asking? && r.Read? && R.Enabled(R.System(s.link.rx, s.unread), r))
      || (s.link.Relaying? && R.Enabled(R.System(s.link.rx, s.unread), r))
    case Answered(_) => s.link.Answering?
  }

  function Step(ks: KeyStream, key: bytes, s: System, e: Event): System
    requires Enabled(s, e)
  {
    match e
    case Left(r) =>
      if s.link.Asking? then System(AskRead(ks, key, s.link.rx, s.unread[..r.count]), s.unread[r.count..])
      else
        var next := R.Step(ks, key, R.System(s.link.rx, s.unread), r);
        System(s.link.(rx := next.rx), next.unread)
    case Answered(ok) =>
      if ok then s.(link := Relaying(s.link.request, s.link.dropped, R.Feed([], [], 0, R.ReadPacket(R.MAX_LENGTH))))
      else s.(link := Ended)
  }

  predicate Possible(ks: KeyStream, key: bytes, s: System, run: seq<Event>)
    decreases |run|
  {
    run == [] || (Enabled(s, run[0]) && Possible(ks, key, Step(ks, key, s, run[0]), run[1..]))
  }

  function After(ks: KeyStream, key: bytes, s: System, run: seq<Event>): System
    requires Possible(ks, key, s, run)
    decreases |run|
  {
    if run == [] then s else After(ks, key, Step(ks, key, s, run[0]), run[1..])
  }

  function Start(ps: seq<Packet>, room: nat): System {
    System(Asking(R.Feed([], [], 0, R.ReadPacket(room))), R.Stream(ps))
  }

  /** The reads and writes of a run. */
  function Lefts(run: seq<Event>): seq<R.Event> {
    if run == [] then [] else (if run[0].Left? then [run[0].e] else []) + Lefts(run[1..])
  }

  predicate AllAccepted(run: seq<Event>) {
    forall i :: 0 <= i < |run| ==> run[i] != Answered(false)
  }

  /** No read begins before position `end` of the stream and ends behind it; `done` bytes were read before. */
  predicate NoCrossing(end: nat, done: nat, run: seq<R.Event>)
    decreases |run|
  {
    run == []
    || (&& run[0].Read? && !(done < end < done + run[0].count) && NoCrossing(end, done + run[0].count, run[1..]))
    || (run[0].Written? && NoCrossing(end, done, run[1..]))
  }

  /** Everything read so far was the request, was forwarded, or is held; and the session goes on. */
  predicate KeepsAll(link: Link) {
    match link
    case Asking(_) => true
    case Answering(_, dropped) => dropped == 0
    case Relaying(_, dropped, rx) => dropped == 0 && rx.lost == 0 && !rx.pending.Stopped?
    case Ended => false
  }

  // ----- reading the request -----

  /** The first part of the first packet is held. */
  ghost predicate AskInv(ps: seq<Packet>, s: System) {
    && ps != [] && s.link.Asking?
    && s.link.rx.held + s.unread == R.Stream(ps)
    && |s.link.rx.held| < HEADER + |ps[0].data|
    && match s.link.rx.pending {
         case ReadPacket(_) => s.link.rx.held == []
         case ReadRest(less) => HEADER <= |s.link.rx.held| && |s.link.rx.held| + less == HEADER + |ps[0].data|
         case _ => false
       }
  }

  /** The request packet was read, and nothing before what is left unread was kept of the others. */
  ghost predicate RequestRead(ks: KeyStream, key: bytes, ps: seq<Packet>, request: bytes, dropped: nat, unread: bytes) {
    && ps != [] && request == Crypt(ks, key, ps[0].data)
    && dropped <= |R.Stream(ps[1..])| && unread == R.Stream(ps[1..])[dropped..]
  }

  /** One read before the reply, whatever type the first packet has. */
  lemma AskStep(ks: KeyStream, key: bytes, ps: seq<Packet>, s: System, n: nat)
    requires R.AllHonest(ps) && AskInv(ps, s) && Enabled(s, Left(R.Read(n)))
    ensures var s' := Step(ks, key, s, Left(R.Read(n)));
            var size, done := HEADER + |ps[0].data|, |s.link.rx.held| + n;
            match s'.link
            case Asking(_) => AskInv(ps, s') && |s'.link.rx.held| == done && HEADER <= done < size
            case Answering(request, dropped) =>
              && RequestRead(ks, key, ps, request, dropped, s'.unread) && done == size + dropped
              && IsData(ps[0].kind) && IsConnect(request)
            case Relaying(_, _, _) => false
            case Ended =>
              done < HEADER || (done >= size && !(IsData(ps[0].kind) && IsConnect(Crypt(ks, key, ps[0].data))))
  {
    var got, unread := s.link.rx.held + s.unread[..n], s.unread[n..];
    assert got + unread == s.link.rx.held + s.unread;
    if |got| >= HEADER {
      R.StreamHead(ps, got, unread);
      var size := HEADER + |ps[0].data|;
      if |got| >= size {
        var tail := got[size..];
        assert tail + unread == R.Stream(ps[1..]);
        assert R.Stream(ps[1..])[|tail|..] == unread;
      }
    }
  }

  lemma InsideFirst(ps: seq<Packet>, at: nat)
    requires ps != [] && 0 < at <= HEADER + |ps[0].data|
    ensures R.InsideHeader(ps, at) <==> at < HEADER
  {
  }

  lemma {:induction false} NoCrossingBehind(end: nat, done: nat, run: seq<R.Event>)
    requires done >= end
    ensures NoCrossing(end, done, run)
    decreases |run|
  {
    if run != [] {
      NoCrossingBehind(end, if run[0].Read? then done + run[0].count else done, run[1..]);
    }
  }

  // ----- from the reply on -----

  /** After the reply the link is the receiver of Reassembly. */
  lemma {:induction false} RelayingRun(ks: KeyStream, key: bytes, s: System, run: seq<Event>)
    requires s.link.Relaying? && Possible(ks, key, s, run)
    ensures var start := R.System(s.link.rx, s.unread);
            && R.Possible(ks, key, start, Lefts(run))
            && var end := R.After(ks, key, start, Lefts(run));
               After(ks, key, s, run) == System(s.link.(rx := end.rx), end.unread)
    decreases |run|
  {
    if run != [] {
      var e := run[0].e;
      RelayingRun(ks, key, Step(ks, key, s, run[0]), run[1..]);
      assert Lefts(run) == [e] + Lefts(run[1..]);
      assert ([e] + Lefts(run[1..]))[1..] == Lefts(run[1..]);
    }
  }

  lemma EndedRun(ks: KeyStream, key: bytes, s: System, run: seq<Event>)
    requires s.link.Ended? && Possible(ks, key, s, run)
    ensures run == []
  {
  }

  /** What a run that starts with the request says about its end. */
  ghost predicate Outcome(ks: KeyStream, key: bytes, ps: seq<Packet>, done: nat, run: seq<Event>, end: System)
    requires ps != []
  {
    var size, lefts := HEADER + |ps[0].data|, Lefts(run);
    var uncut, whole := R.NoHeaderCut(ps, done, lefts), NoCrossing(size, done, lefts);
    match end.link
    case Asking(_) => uncut && whole
    case Answering(request, dropped) =>
      && RequestRead(ks, key, ps, request, dropped, end.unread)
      && (dropped == 0 <==> whole) && (whole ==> uncut)
    case Relaying(request, dropped, rx) =>
      && request == Crypt(ks, key, ps[0].data) && (dropped == 0 <==> whole)
      && (whole ==> exists relay :: RelayedBy(ks, key, ps[1..], relay, end)
                                    && (uncut <==> R.NoHeaderCut(ps[1..], 0, relay)))
    case Ended => !uncut || !AllAccepted(run) || !IsConnect(Crypt(ks, key, ps[0].data))
  }

  /** The reads and writes since the reply, over the packets behind the request. */
  ghost predicate RelayedBy(ks: KeyStream, key: bytes, rest: seq<Packet>, relay: seq<R.Event>, end: System) {
    && end.link.Relaying?
    && R.Possible(ks, key, R.Start(rest, R.MAX_LENGTH), relay)
    && R.After(ks, key, R.Start(rest, R.MAX_LENGTH), relay) == R.System(end.link.rx, end.unread)
  }

  lemma LeftsCons(run: seq<Event>)
    requires run != []
    ensures run[0].Left? ==> Lefts(run) != [] && Lefts(run)[0] == run[0].e && Lefts(run)[1..] == Lefts(run[1..])
    ensures run[0].Answered? ==> Lefts(run) == Lefts(run[1..])
  {
    if run[0].Left? {
      assert Lefts(run) == [run[0].e] + Lefts(run[1..]);
    }
  }

  /** From the moment the request has been read. */
  lemma AnsweringRun(ks: KeyStream, key: bytes, ps: seq<Packet>, s: System, run: seq<Event>)
    requires s.link.Answering? && Possible(ks, key, s, run)
    requires RequestRead(ks, key, ps, s.link.request, s.link.dropped, s.unread)
    ensures var end, size := After(ks, key, s, run), HEADER + |ps[0].data|;
            match end.link
            case Asking(_) => false
            case Answering(_, _) => run == [] && end == s
            case Relaying(request, dropped, _) =>
              && request == s.link.request && dropped == s.link.dropped
              && (dropped == 0 ==> RelayedBy(ks, key, ps[1..], Lefts(run), end))
              && (R.NoHeaderCut(ps, size, Lefts(run)) <==> R.NoHeaderCut(ps[1..], 0, Lefts(run)))
            case Ended => !AllAccepted(run)
  {
    R.UncutBehindFirst(ps, 0, Lefts(run));
    if run != [] {
      LeftsCons(run);
      var next := Step(ks, key, s, run[0]);
      if run[0].ok {
        RelayingRun(ks, key, next, run[1..]);
        assert s.link.dropped == 0 ==> R.System(next.link.rx, next.unread) == R.Start(ps[1..], R.MAX_LENGTH);
      } else {
        EndedRun(ks, key, next, run[1..]);
        assert run[0] == Answered(false);
      }
    }
  }

  lemma {:induction false} AskingRun(ks: KeyStream, key: bytes, ps: seq<Packet>, s: System, run: seq<Event>)
    requires R.AllWellFormed(ps) && AskInv(ps, s) && Possible(ks, key, s, run)
    ensures Outcome(ks, key, ps, |s.link.rx.held|, run, After(ks, key, s, run))
    decreases |run|
  {
    if run != [] {
      var n := run[0].e.count;
      var next := Step(ks, key, s, run[0]);
      LeftsCons(run);
      AskStep(ks, key, ps, s, n);
      match next.link
      case Asking(_) =>
        InsideFirst(ps, |s.link.rx.held| + n);
        AskingRun(ks, key, ps, next, run[1..]);
        assert AllAccepted(run) ==> AllAccepted(run[1..]);
      case Answering(_, _) =>
        RequestCompleted(ks, key, ps, s, run);
      case Relaying(_, _, _) =>
        assert false;
      case Ended =>
        EndedRun(ks, key, next, run[1..]);
    }
  }

  lemma RequestCompleted(ks: KeyStream, key: bytes, ps: seq<Packet>, s: System, run: seq<Event>)
    requires R.AllWellFormed(ps) && AskInv(ps, s) && Possible(ks, key, s, run) && run != []
    requires Step(ks, key, s, run[0]).link.Answering?
    ensures Outcome(ks, key, ps, |s.link.rx.held|, run, After(ks, key, s, run))
  {
    var n, size := run[0].e.count, HEADER + |ps[0].data|;
    var next := Step(ks, key, s, run[0]);
    LeftsCons(run);
    AskStep(ks, key, ps, s, n);
    AnsweringRun(ks, key, ps, next, run[1..]);
    if next.link.dropped == 0 {
      InsideFirst(ps, size);
      NoCrossingBehind(size, size, Lefts(run[1..]));
    }
  }

  lemma RunFromStart(ks: KeyStream, key: bytes, ps: seq<Packet>, room: nat, run: seq<Event>)
    requires ps != [] && R.AllWellFormed(ps) && Possible(ks, key, Start(ps, room), run)
    ensures Outcome(ks, key, ps, 0, run, After(ks, key, Start(ps, room), run))
  {
    AskingRun(ks, key, ps, Start(ps, room), run);
  }

  /** The session relays, and nothing is left that the network or a socket could complete. */
  predicate Finished(s: System) {
    s.link.Relaying? && R.Finished(R.System(s.link.rx, s.unread))
  }

  // ----- the theorems -----

  /** When the request has been read, what is left unread is all the packets behind it exactly when nothing was
      dropped, and that is exactly when no read began before the end of the request packet and ended behind it. */
  lemma NothingBehindRequestLost(ks: KeyStream, key: bytes, ps: seq<Packet>, room: nat, run: seq<Event>)
    requires ps != [] && R.AllWellFormed(ps) && Possible(ks, key, Start(ps, room), run)
    requires After(ks, key, Start(ps, room), run).link.Answering?
    ensures var end := After(ks, key, Start(ps, room), run);
            && end.link.request == Crypt(ks, key, ps[0].data)
            && end.link.dropped + |end.unread| == |R.Stream(ps[1..])|
            && (end.unread == R.Stream(ps[1..]) <==> end.link.dropped == 0)
            && (end.link.dropped == 0 <==> NoCrossing(HEADER + |ps[0].data|, 0, Lefts(run)))
  {
    RunFromStart(ks, key, ps, room, run);
  }

  /** For a CONNECT request that is answered with 0x00, at any moment outside a write: the session goes on and
      nothing was lost exactly when no read ended inside a header and none ran over the end of the request. */
  lemma KeepsAllExactly(ks: KeyStream, key: bytes, ps: seq<Packet>, room: nat, run: seq<Event>)
    requires ps != [] && R.AllWellFormed(ps) && Possible(ks, key, Start(ps, room), run)
    requires IsConnect(Crypt(ks, key, ps[0].data)) && AllAccepted(run)
    requires var link := After(ks, key, Start(ps, room), run).link; !(link.Relaying? && link.rx.Writing())
    ensures KeepsAll(After(ks, key, Start(ps, room), run).link) <==>
            R.NoHeaderCut(ps, 0, Lefts(run)) && NoCrossing(HEADER + |ps[0].data|, 0, Lefts(run))
  {
    RunFromStart(ks, key, ps, room, run);
    var end := After(ks, key, Start(ps, room), run);
    if end.link.Relaying? && end.link.dropped == 0 {
      var relay :| RelayedBy(ks, key, ps[1..], relay, end)
                   && (R.NoHeaderCut(ps, 0, Lefts(run)) <==> R.NoHeaderCut(ps[1..], 0, relay));
      R.KeepsStreamExactly(ks, key, ps[1..], R.MAX_LENGTH, relay);
    }
  }

  /** In that case a finished run has handed the plaintext of all the packets behind the request to the remote
      side, and the plaintext of the request to the resolver. */
  lemma DeliversBehindRequest(ks: KeyStream, key: bytes, ps: seq<Packet>, room: nat, run: seq<Event>)
    requires ps != [] && R.AllWellFormed(ps) && Possible(ks, key, Start(ps, room), run)
    requires R.NoHeaderCut(ps, 0, Lefts(run)) && NoCrossing(HEADER + |ps[0].data|, 0, Lefts(run))
    requires Finished(After(ks, key, Start(ps, room), run))
    ensures var link := After(ks, key, Start(ps, room), run).link;
            link.request == Crypt(ks, key, ps[0].data) && link.rx.out == R.Plain(ks, key, ps[1..])
  {
    RunFromStart(ks, key, ps, room, run);
    var end := After(ks, key, Start(ps, room), run);
    var relay :| RelayedBy(ks, key, ps[1..], relay, end)
                 && (R.NoHeaderCut(ps, 0, Lefts(run)) <==> R.NoHeaderCut(ps[1..], 0, relay));
    R.FinishedRunForwardsAll(ks, key, ps[1..], R.MAX_LENGTH, relay);
  }

  lemma OneRead(ks: KeyStream, key: bytes, ps: seq<Packet>, room: nat)
    requires ps != [] && R.AllWellFormed(ps) && |R.Stream(ps)| <= HEADER + room
    requires IsConnect(Crypt(ks, key, ps[0].data))
    ensures Enabled(Start(ps, room), Left(R.Read(|R.Stream(ps)|)))
    ensures Step(ks, key, Start(ps, room), Left(R.Read(|R.Stream(ps)|)))
            == System(Answering(Crypt(ks, key, ps[0].data), |R.Stream(ps[1..])|), [])
  {
    var all := R.Stream(ps);
    assert |all| == HEADER + |ps[0].data| + |R.Stream(ps[1..])|;
    assert AskInv(ps, Start(ps, room));
    hide IsConnect;
    AskStep(ks, key, ps, Start(ps, room), |all|);
    hide AskRead, RequestRead;
    assert all[|all|..] == [];
  }

  /** Packets that come in the same read as the request are lost, all of them, without an error: the session
      answers the request and waits for more. */
  lemma PipelinedPacketsAreLost(ks: KeyStream, key: bytes, ps: seq<Packet>, room: nat)
    requires ps != [] && R.AllWellFormed(ps) && |R.Stream(ps)| <= HEADER + room
    requires IsConnect(Crypt(ks, key, ps[0].data))
    ensures var run := [Left(R.Read(|R.Stream(ps)|)), Answered(true)];
            && Possible(ks, key, Start(ps, room), run)
            && var end := After(ks, key, Start(ps, room), run);
               && Finished(end) && end.link.rx.out == [] && end.unread == []
               && end.link.dropped == |R.Stream(ps[1..])|
  {
    var all, read := R.Stream(ps), Left(R.Read(|R.Stream(ps)|));
    OneRead(ks, key, ps, room);
    hide AskRead, IsConnect;
    var asked := Step(ks, key, Start(ps, room), read);
    var run := [read, Answered(true)];
    assert run[1..] == [Answered(true)] && run[1..][1..] == [];
    assert Possible(ks, key, asked, run[1..]);
    assert After(ks, key, asked, run[1..]) == Step(ks, key, asked, Answered(true));
  }
}
