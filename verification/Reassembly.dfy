/** What the continuation machine of right_read_handler / left_read_handler does to a byte stream
    once the session relays data: the specification of Receiver, and the properties of whole runs. */
module Reassembly {
  import opened Bytes
  import opened CounterMode
  import opened Packet

  const MAX_LENGTH := 4096  // lproxy::readbuffer::max_length

  /** The one operation a receiving direction is waiting for. */
  datatype Pending =
    | ReadPacket(room: nat)   // async_read_some into a fresh packet with `room` data bytes
    | ReadRest(less: nat)     // async_read_some of exactly the missing part of a packet
    | WriteThenAgain          // async_write bound to the read handler itself
    | WriteThenRead           // async_write bound to the handler that starts a fresh read
    | Stopped                 // the session was cancelled

  /** held: real stream bytes read and not yet forwarded; out: plaintext handed to the other socket;
      lost: header bytes that cut_lss refused to keep. */
  datatype Feed = Feed(held: bytes, out: bytes, lost: nat, pending: Pending) {
    predicate Reading() { pending.ReadPacket? || pending.ReadRest? }
    predicate Writing() { pending.WriteThenAgain? || pending.WriteThenRead? }
    function Capacity(): nat {
      match pending
      case ReadPacket(room) => HEADER + room
      case ReadRest(less) => less
      case _ => 0
    }
  }

  /** One entry into the handler with `got` as the unprocessed bytes of the stream. */
  function Dispatch(ks: KeyStream, key: bytes, got: bytes, out: bytes, lost: nat): Feed {
    if |got| < HEADER then Feed([], out, lost, Stopped)
    else
      var size := HEADER + FromWire(got).DataLen();
      if |got| < size then Feed(got, out, lost, ReadRest(size - |got|))
      else if !IsData(FromWire(got).kind) then Feed([], out, lost, Stopped)
      else
        var out' := out + Crypt(ks, key, got[HEADER..size]);
        if |got| - size >= HEADER then Feed(got[size..], out', lost, WriteThenAgain)
        else Feed([], out', lost + (|got| - size), WriteThenRead)
  }

  function OnRead(ks: KeyStream, key: bytes, f: Feed, bs: bytes): Feed
    requires f.Reading()
  {
    Dispatch(ks, key, f.held + bs, f.out, f.lost)
  }

  function OnWritten(ks: KeyStream, key: bytes, f: Feed): Feed
    requires f.Writing()
  {
    if f.pending.WriteThenAgain? then Dispatch(ks, key, f.held, f.out, f.lost)
    else f.(pending := ReadPacket(MAX_LENGTH))
  }

  // ----- runs over a TCP stream -----

  datatype Event = Read(count: nat) | Written
  datatype System = System(rx: Feed, unread: bytes)

  predicate Enabled(s: System, e: Event) {
    match e
    case Read(n) => s.rx.Reading() && 1 <= n <= |s.unread| && n <= s.rx.Capacity()
    case Written => s.rx.Writing()
  }

  function Step(ks: KeyStream, key: bytes, s: System, e: Event): System
    requires Enabled(s, e)
  {
    match e
    case Read(n) => System(OnRead(ks, key, s.rx, s.unread[..n]), s.unread[n..])
    case Written => System(OnWritten(ks, key, s.rx), s.unread)
  }

  predicate Possible(ks: KeyStream, key: bytes, s: System, run: seq<Event>)
    decreases |run|
  {
    run == [] || (Enabled(s, run[0]) && Possible(ks, key, Step(ks, key, s, run[0]), run[1..]))
  }

  function After(ks: KeyStream, key: bytes, s: System, run: seq<Event>): System
    requires Possible(ks, key, s, run)
    decreases |run|
  {
    if run == [] then s else After(ks, key, Step(ks, key, s, run[0]), run[1..])
  }

  /** Nothing left that the network or a socket could complete. */
  predicate Finished(s: System) {
    !s.rx.Writing() && (s.rx.Reading() ==> s.unread == [])
  }

  // ----- the stream of a list of packets -----

  function Stream(ps: seq<Packet>): bytes {
    if ps == [] then [] else ps[0].Wire() + Stream(ps[1..])
  }

  function Plain(ks: KeyStream, key: bytes, ps: seq<Packet>): bytes {
    if ps == [] then [] else Crypt(ks, key, ps[0].data) + Plain(ks, key, ps[1..])
  }

  predicate AllWellFormed(ps: seq<Packet>) {
    forall i :: 0 <= i < |ps| ==> WellFormed(ps[i])
  }

  /** Packets of any type whose length fields tell the truth. */
  predicate AllHonest(ps: seq<Packet>) {
    forall i :: 0 <= i < |ps| ==> ps[i].DataLen() == |ps[i].data|
  }

  /** How many packets of data come before the first packet of another type. */
  function DataPackets(ps: seq<Packet>): (n: nat)
    ensures n <= |ps|
    ensures forall i :: 0 <= i < n ==> IsData(ps[i].kind)
    ensures n < |ps| ==> !IsData(ps[n].kind)
  {
    if ps == [] || !IsData(ps[0].kind) then 0 else 1 + DataPackets(ps[1..])
  }

  /** Position `at` of the stream falls after the first and before the last byte of some header. */
  predicate InsideHeader(ps: seq<Packet>, at: int) {
    ps != [] && (0 < at < HEADER || (at >= HEADER + |ps[0].data| && InsideHeader(ps[1..], at - HEADER - |ps[0].data|)))
  }

  /** No read of the run ends inside a header; `done` bytes of the stream were read before it. */
  predicate NoHeaderCut(ps: seq<Packet>, done: nat, run: seq<Event>)
    decreases |run|
  {
    run == []
    || (run[0].Read? && !InsideHeader(ps, done + run[0].count) && NoHeaderCut(ps, done + run[0].count, run[1..]))
    || (run[0].Written? && NoHeaderCut(ps, done, run[1..]))
  }

  function Start(ps: seq<Packet>, room: nat): System {
    System(Feed([], [], 0, ReadPacket(room)), Stream(ps))
  }

  // ----- the invariant of a run that never cuts a header -----

  /** Nothing was lost, and the unforwarded bytes are exactly the packets qs. */
  ghost predicate InStep(s: System, qs: seq<Packet>) {
    && s.rx.lost == 0
    && s.rx.held + s.unread == Stream(qs)
    && match s.rx.pending {
         case ReadPacket(_) => s.rx.held == []
         case WriteThenRead => s.rx.held == []
         case ReadRest(less) =>
           && qs != []
           && HEADER <= |s.rx.held|
           && 0 < less
           && |s.rx.held| + less == HEADER + |qs[0].data|
         case WriteThenAgain => HEADER <= |s.rx.held| && !InsideHeader(qs, |s.rx.held|)
         case Stopped => false
       }
  }

  /** A header was cut: the session has lost bytes, has stopped, or will as soon as its writes complete. */
  ghost predicate Doomed(s: System, qs: seq<Packet>) {
    || s.rx.lost > 0
    || s.rx.pending.Stopped?
    || (&& s.rx.pending.WriteThenAgain?
        && s.rx.held + s.unread == Stream(qs)
        && HEADER <= |s.rx.held|
        && InsideHeader(qs, |s.rx.held|))
  }

  lemma StreamHead(qs: seq<Packet>, got: bytes, unread: bytes)
    requires AllHonest(qs) && got + unread == Stream(qs) && |got| >= HEADER
    ensures qs != []
    ensures FromWire(got).kind == qs[0].kind && FromWire(got).DataLen() == |qs[0].data|
    ensures |got| >= HEADER + |qs[0].data| ==>
              && got[HEADER..HEADER + |qs[0].data|] == qs[0].data
              && got[HEADER + |qs[0].data|..] + unread == Stream(qs[1..])
  {
    var all := got + unread;
    assert all == qs[0].Wire() + Stream(qs[1..]);
    assert forall i :: 0 <= i < HEADER ==> got[i] == all[i] == qs[0].Wire()[i];
    var size := HEADER + |qs[0].data|;
    if |got| >= size {
      assert got[HEADER..size] == all[HEADER..size] == qs[0].data;
      assert got[size..] + unread == all[size..] == Stream(qs[1..]);
    }
  }

  /** A leftover that is not part of a header is empty. */
  lemma NoShortTail(qs: seq<Packet>, tail: bytes, unread: bytes)
    requires |tail| < HEADER && tail + unread == Stream(qs) && !InsideHeader(qs, |tail|)
    ensures tail == [] && unread == Stream(qs)
  {
    assert qs == [] ==> |tail + unread| == 0;
    assert |tail| == 0;
    assert tail + unread == unread;
  }

  /** One handler entry on unprocessed bytes that begin at a packet boundary: it takes at most one
      packet, forwards its plaintext, and stays in step exactly when the bytes do not end in a header. */
  lemma DispatchInStep(ks: KeyStream, key: bytes, qs: seq<Packet>, got: bytes, unread: bytes, out: bytes)
    returns (taken: nat)
    requires AllHonest(qs) && (qs != [] ==> IsData(qs[0].kind)) && got + unread == Stream(qs) && got != []
    ensures taken <= 1 && taken <= |qs|
    ensures var s := System(Dispatch(ks, key, got, out, 0), unread);
            if InsideHeader(qs, |got|) then Doomed(s, qs[taken..])
            else InStep(s, qs[taken..]) && s.rx.out + Plain(ks, key, qs[taken..]) == out + Plain(ks, key, qs)
  {
    taken := 0;
    assert qs[0..] == qs;
    if |got| >= HEADER {
      StreamHead(qs, got, unread);
      var size := HEADER + |qs[0].data|;
      if |got| >= size {
        taken := 1;
        DispatchWhole(ks, key, qs, got, unread, out);
      }
    }
  }

  lemma DispatchWhole(ks: KeyStream, key: bytes, qs: seq<Packet>, got: bytes, unread: bytes, out: bytes)
    requires AllHonest(qs) && got + unread == Stream(qs)
    requires qs != [] && IsData(qs[0].kind) && |got| >= HEADER + |qs[0].data|
    ensures var s := System(Dispatch(ks, key, got, out, 0), unread);
            if InsideHeader(qs, |got|) then Doomed(s, qs[1..])
            else InStep(s, qs[1..]) && s.rx.out + Plain(ks, key, qs[1..]) == out + Plain(ks, key, qs)
  {
    StreamHead(qs, got, unread);
    var size := HEADER + |qs[0].data|;
    assert InsideHeader(qs, |got|) == InsideHeader(qs[1..], |got| - size);
    if !InsideHeader(qs, |got|) {
      if |got| - size < HEADER {
        NoShortTail(qs[1..], got[size..], unread);
      }
      var c := Crypt(ks, key, qs[0].data);
      assert out + c + Plain(ks, key, qs[1..]) == out + (c + Plain(ks, key, qs[1..]));
    }
  }

  /** One step while in step with the stream: it stays in step exactly when no header is cut. */
  lemma StepInStep(ks: KeyStream, key: bytes, s: System, qs: seq<Packet>, e: Event)
    returns (taken: nat)
    requires AllWellFormed(qs) && InStep(s, qs) && Enabled(s, e)
    ensures taken <= 1 && taken <= |qs|
    ensures var s' := Step(ks, key, s, e);
            if e.Read? && InsideHeader(qs, |s.rx.held| + e.count) then Doomed(s', qs[taken..])
            else InStep(s', qs[taken..])
                 && s'.rx.out + Plain(ks, key, qs[taken..]) == s.rx.out + Plain(ks, key, qs)
  {
    if s.rx.pending.WriteThenRead? {
      taken := 0;
      assert qs[0..] == qs;
    } else if e.Written? {
      taken := DispatchInStep(ks, key, qs, s.rx.held, s.unread, s.rx.out);
    } else {
      var got := s.rx.held + s.unread[..e.count];
      assert got + s.unread[e.count..] == s.rx.held + s.unread;
      taken := DispatchInStep(ks, key, qs, got, s.unread[e.count..], s.rx.out);
    }
  }

  lemma DoomedStays(ks: KeyStream, key: bytes, s: System, qs: seq<Packet>, e: Event)
    returns (taken: nat)
    requires AllWellFormed(qs) && Doomed(s, qs) && Enabled(s, e)
    ensures taken <= |qs| && Doomed(Step(ks, key, s, e), qs[taken..])
  {
    if s.rx.lost == 0 {
      taken := DispatchInStep(ks, key, qs, s.rx.held, s.unread, s.rx.out);
    } else {
      taken := 0;
    }
  }

  lemma {:induction false} DoomedForever(ks: KeyStream, key: bytes, s: System, qs: seq<Packet>, run: seq<Event>)
    requires AllWellFormed(qs) && Doomed(s, qs) && Possible(ks, key, s, run)
    ensures var end := After(ks, key, s, run);
            end.rx.lost > 0 || end.rx.pending.Stopped? || end.rx.Writing()
    decreases |run|
  {
    if run != [] {
      var taken := DoomedStays(ks, key, s, qs, run[0]);
      DoomedForever(ks, key, Step(ks, key, s, run[0]), qs[taken..], run[1..]);
    }
  }

  /** The first i packets of ps were forwarded whole; the session is in step with the others. */
  ghost predicate Faithful(ks: KeyStream, key: bytes, ps: seq<Packet>, i: nat, s: System) {
    && i <= |ps|
    && InStep(s, ps[i..])
    && s.rx.out + Plain(ks, key, ps[i..]) == Plain(ks, key, ps)
  }

  lemma {:induction false} InsideHeaderFrom(ps: seq<Packet>, i: nat, x: nat)
    requires i <= |ps|
    ensures |Stream(ps[i..])| <= |Stream(ps)|
    ensures InsideHeader(ps, |Stream(ps)| - |Stream(ps[i..])| + x) == InsideHeader(ps[i..], x)
  {
    if i == 0 {
      assert ps[0..] == ps;
    } else {
      assert ps[i..] == ps[1..][i - 1..];
      InsideHeaderFrom(ps[1..], i - 1, x);
    }
  }

  /** Read positions counted from the start of the stream and from the first unforwarded packet. */
  lemma PositionOf(ps: seq<Packet>, i: nat, s: System, n: nat)
    requires i <= |ps| && InStep(s, ps[i..])
    ensures |s.unread| <= |Stream(ps)|
    ensures InsideHeader(ps, |Stream(ps)| - |s.unread| + n) == InsideHeader(ps[i..], |s.rx.held| + n)
  {
    assert |Stream(ps[i..])| == |s.rx.held| + |s.unread|;
    InsideHeaderFrom(ps, i, |s.rx.held| + n);
  }

  lemma StepFromFaithful(ks: KeyStream, key: bytes, ps: seq<Packet>, s: System, i: nat, e: Event)
    returns (j: nat)
    requires AllWellFormed(ps) && Faithful(ks, key, ps, i, s) && Enabled(s, e)
    ensures |s.unread| <= |Stream(ps)| && j <= |ps|
    ensures if e.Read? && InsideHeader(ps, |Stream(ps)| - |s.unread| + e.count)
            then Doomed(Step(ks, key, s, e), ps[j..])
            else Faithful(ks, key, ps, j, Step(ks, key, s, e))
  {
    hide Stream, Plain, InsideHeader, InStep, Doomed, Step;
    PositionOf(ps, i, s, if e.Read? then e.count else 0);
    var taken := StepInStep(ks, key, s, ps[i..], e);
    assert ps[i..][taken..] == ps[i + taken..];
    j := i + taken;
  }

  lemma {:induction false} RunFromFaithful(
      ks: KeyStream, key: bytes, ps: seq<Packet>, s: System, i: nat, run: seq<Event>)
    returns (j: nat)
    requires AllWellFormed(ps) && Faithful(ks, key, ps, i, s) && Possible(ks, key, s, run)
    ensures |s.unread| <= |Stream(ps)|
    ensures var end := After(ks, key, s, run);
            if NoHeaderCut(ps, |Stream(ps)| - |s.unread|, run) then Faithful(ks, key, ps, j, end)
            else end.rx.lost > 0 || end.rx.pending.Stopped? || end.rx.Writing()
    decreases |run|
  {
    hide Stream, Plain, InsideHeader, InStep, Doomed, Dispatch;
    PositionOf(ps, i, s, 0);
    j := i;
    if run != [] {
      var e := run[0];
      var next := StepFromFaithful(ks, key, ps, s, i, e);
      if e.Read? && InsideHeader(ps, |Stream(ps)| - |s.unread| + e.count) {
        DoomedForever(ks, key, Step(ks, key, s, e), ps[next..], run[1..]);
      } else {
        j := RunFromFaithful(ks, key, ps, Step(ks, key, s, e), next, run[1..]);
      }
    }
  }

  lemma RunFromStart(ks: KeyStream, key: bytes, ps: seq<Packet>, room: nat, run: seq<Event>)
    returns (i: nat)
    requires AllWellFormed(ps) && Possible(ks, key, Start(ps, room), run)
    ensures var end := After(ks, key, Start(ps, room), run);
            if NoHeaderCut(ps, 0, run) then Faithful(ks, key, ps, i, end)
            else end.rx.lost > 0 || end.rx.pending.Stopped? || end.rx.Writing()
  {
    assert ps[0..] == ps;
    assert [] + Plain(ks, key, ps) == Plain(ks, key, ps);
    i := RunFromFaithful(ks, key, ps, Start(ps, room), 0, run);
  }

  // ----- the theorems -----

  /** Whenever the receiver is not in the middle of a write, it has kept every byte and is still
      running exactly when no read so far ended inside a header. */
  lemma KeepsStreamExactly(ks: KeyStream, key: bytes, ps: seq<Packet>, room: nat, run: seq<Event>)
    requires AllWellFormed(ps) && Possible(ks, key, Start(ps, room), run)
    requires !After(ks, key, Start(ps, room), run).rx.Writing()
    ensures var end := After(ks, key, Start(ps, room), run).rx;
            (end.lost == 0 && !end.pending.Stopped?) <==> NoHeaderCut(ps, 0, run)
  {
    var i := RunFromStart(ks, key, ps, room, run);
  }

  lemma {:induction false} PlainSplit(ks: KeyStream, key: bytes, ps: seq<Packet>, i: nat)
    requires i <= |ps|
    ensures Plain(ks, key, ps[..i]) + Plain(ks, key, ps[i..]) == Plain(ks, key, ps)
  {
    if i == 0 {
      assert ps[0..] == ps;
    } else {
      assert ps[..i][1..] == ps[1..][..i - 1] && ps[i..] == ps[1..][i - 1..];
      PlainSplit(ks, key, ps[1..], i - 1);
    }
  }

  lemma CancelRight<T>(a: seq<T>, b: seq<T>, c: seq<T>)
    requires a + c == b + c
    ensures a == b
  {
    assert |a| == |b|;
    assert (a + c)[..|a|] == a && (b + c)[..|b|] == b;
  }

  /** What has been forwarded at any moment is the plaintext of the first packets, whole and in order,
      and the bytes held plus the bytes still to come are exactly the other packets. */
  lemma ForwardsWholePackets(ks: KeyStream, key: bytes, ps: seq<Packet>, room: nat, run: seq<Event>)
    returns (i: nat)
    requires AllWellFormed(ps) && Possible(ks, key, Start(ps, room), run) && NoHeaderCut(ps, 0, run)
    ensures i <= |ps|
    ensures var end := After(ks, key, Start(ps, room), run);
            && end.rx.out == Plain(ks, key, ps[..i])
            && end.rx.held + end.unread == Stream(ps[i..])
  {
    i := RunFromStart(ks, key, ps, room, run);
    PlainSplit(ks, key, ps, i);
    CancelRight(After(ks, key, Start(ps, room), run).rx.out, Plain(ks, key, ps[..i]), Plain(ks, key, ps[i..]));
  }

  lemma StreamSize(ps: seq<Packet>)
    ensures ps != [] ==> |Stream(ps)| >= HEADER + |ps[0].data|
  {
  }

  /** A run that cannot continue has forwarded everything. */
  lemma FinishedRunForwardsAll(ks: KeyStream, key: bytes, ps: seq<Packet>, room: nat, run: seq<Event>)
    requires AllWellFormed(ps) && Possible(ks, key, Start(ps, room), run) && NoHeaderCut(ps, 0, run)
    requires Finished(After(ks, key, Start(ps, room), run))
    ensures After(ks, key, Start(ps, room), run).rx.out == Plain(ks, key, ps)
  {
    var i := RunFromStart(ks, key, ps, room, run);
    StreamSize(ps[i..]);
    var out := After(ks, key, Start(ps, room), run).rx.out;
    assert out + [] == out;
  }

  // ----- packets that are no data -----

  /** One handler entry on the bytes of a packet that is no data. */
  lemma DispatchForeign(ks: KeyStream, key: bytes, qs: seq<Packet>, got: bytes, unread: bytes, out: bytes)
    requires AllHonest(qs) && got + unread == Stream(qs) && got != []
    requires qs != [] && !IsData(qs[0].kind) && !InsideHeader(qs, |got|)
    ensures var s := System(Dispatch(ks, key, got, out, 0), unread);
            && s.rx.out == out && s.rx.lost == 0
            && (if |got| < HEADER + |qs[0].data| then InStep(s, qs) else s.rx.pending.Stopped?)
  {
    StreamHead(qs, got, unread);
  }

  /** Either i packets were forwarded, all of them data, and the session is in step with the others, or it has
      stopped at the first packet that is no data. */
  ghost predicate UpToForeign(ks: KeyStream, key: bytes, ps: seq<Packet>, i: nat, s: System) {
    if s.rx.pending.Stopped? then
      i == DataPackets(ps) < |ps| && s.rx.lost == 0 && s.rx.out + Plain(ks, key, ps[i..]) == Plain(ks, key, ps)
    else i <= DataPackets(ps) && Faithful(ks, key, ps, i, s)
  }

  /** One handler entry, on a packet of data or another one. */
  lemma DispatchUpTo(
      ks: KeyStream, key: bytes, ps: seq<Packet>, i: nat, got: bytes, unread: bytes, out: bytes)
    returns (j: nat)
    requires AllHonest(ps) && i <= DataPackets(ps) && got + unread == Stream(ps[i..]) && got != []
    requires out + Plain(ks, key, ps[i..]) == Plain(ks, key, ps) && !InsideHeader(ps[i..], |got|)
    ensures UpToForeign(ks, key, ps, j, System(Dispatch(ks, key, got, out, 0), unread))
  {
    var qs := ps[i..];
    assert qs == [] ==> |got + unread| == 0;
    hide Plain, InsideHeader, InStep, Dispatch;
    if i == DataPackets(ps) {
      DispatchForeign(ks, key, qs, got, unread, out);
      j := i;
    } else {
      var taken := DispatchInStep(ks, key, qs, got, unread, out);
      assert qs[taken..] == ps[i + taken..];
      j := i + taken;
      InStepRuns(System(Dispatch(ks, key, got, out, 0), unread), ps[j..]);
    }
  }

  lemma InStepRuns(s: System, qs: seq<Packet>)
    requires InStep(s, qs)
    ensures !s.rx.pending.Stopped? && s.rx.lost == 0
  {
  }

  lemma StepUpTo(ks: KeyStream, key: bytes, ps: seq<Packet>, i: nat, s: System, e: Event)
    returns (j: nat)
    requires AllHonest(ps) && UpToForeign(ks, key, ps, i, s) && Enabled(s, e)
    requires |s.unread| <= |Stream(ps)|
    requires e.Read? ==> !InsideHeader(ps, |Stream(ps)| - |s.unread| + e.count)
    ensures UpToForeign(ks, key, ps, j, Step(ks, key, s, e))
  {
    if s.rx.pending.WriteThenRead? {
      j := i;
    } else {
      var n := if e.Read? then e.count else 0;
      UpToMeans(ks, key, ps, i, s, e, n);
      hide *;
      PositionOf(ps, i, s, n);
      StepDispatches(ks, key, s, e, n);
      j := DispatchUpTo(ks, key, ps, i, s.rx.held + s.unread[..n], s.unread[n..], s.rx.out);
    }
  }

  lemma UpToMeans(ks: KeyStream, key: bytes, ps: seq<Packet>, i: nat, s: System, e: Event, n: nat)
    requires UpToForeign(ks, key, ps, i, s) && Enabled(s, e) && !s.rx.pending.WriteThenRead?
    requires n == if e.Read? then e.count else 0
    ensures i <= DataPackets(ps) && InStep(s, ps[i..]) && s.rx.lost == 0 && n <= |s.unread|
    ensures s.rx.out + Plain(ks, key, ps[i..]) == Plain(ks, key, ps)
    ensures s.rx.held + s.unread[..n] + s.unread[n..] == Stream(ps[i..]) && s.rx.held + s.unread[..n] != []
    ensures e.Written? ==> !InsideHeader(ps[i..], |s.rx.held + s.unread[..n]|)
  {
    hide Plain, InsideHeader, Stream;
    assert s.rx.held + s.unread[..n] + s.unread[n..] == s.rx.held + s.unread;
  }

  lemma StepDispatches(ks: KeyStream, key: bytes, s: System, e: Event, n: nat)
    requires Enabled(s, e) && !s.rx.pending.WriteThenRead? && n == if e.Read? then e.count else 0
    ensures Step(ks, key, s, e)
            == System(Dispatch(ks, key, s.rx.held + s.unread[..n], s.rx.out, s.rx.lost), s.unread[n..])
  {
    hide Dispatch;
    assert n == 0 ==> s.rx.held + s.unread[..n] == s.rx.held;
  }

  lemma {:induction false} RunUpTo(
      ks: KeyStream, key: bytes, ps: seq<Packet>, i: nat, s: System, run: seq<Event>)
    returns (j: nat)
    requires AllHonest(ps) && UpToForeign(ks, key, ps, i, s) && Possible(ks, key, s, run)
    requires |s.unread| <= |Stream(ps)| && NoHeaderCut(ps, |Stream(ps)| - |s.unread|, run)
    ensures UpToForeign(ks, key, ps, j, After(ks, key, s, run))
    decreases |run|
  {
    hide Stream, Plain, InsideHeader, Dispatch, UpToForeign;
    j := i;
    if run != [] {
      var next := StepUpTo(ks, key, ps, i, s, run[0]);
      j := RunUpTo(ks, key, ps, next, Step(ks, key, s, run[0]), run[1..]);
    }
  }

  /** A stream may hold packets of any type. However it is cut outside headers, only the packets of data before
      the first other one are forwarded; a run that cannot continue has forwarded them all, and the session has
      been stopped exactly when there is such another packet. */
  lemma StopsAtForeignPacket(ks: KeyStream, key: bytes, ps: seq<Packet>, room: nat, run: seq<Event>)
    returns (i: nat)
    requires AllHonest(ps) && Possible(ks, key, Start(ps, room), run) && NoHeaderCut(ps, 0, run)
    ensures var end := After(ks, key, Start(ps, room), run);
            && i <= DataPackets(ps) && end.rx.out == Plain(ks, key, ps[..i]) && end.rx.lost == 0
            && (end.rx.pending.Stopped? ==> i == DataPackets(ps) < |ps|)
            && (Finished(end) ==> i == DataPackets(ps) && (end.rx.pending.Stopped? <==> i < |ps|))
  {
    assert ps[0..] == ps;
    assert [] + Plain(ks, key, ps) == Plain(ks, key, ps);
    i := RunUpTo(ks, key, ps, 0, Start(ps, room), run);
    var end := After(ks, key, Start(ps, room), run);
    PlainSplit(ks, key, ps, i);
    CancelRight(end.rx.out, Plain(ks, key, ps[..i]), Plain(ks, key, ps[i..]));
    hide DataPackets, Plain;
    if Finished(end) {
      FinishedUpTo(ks, key, ps, i, end);
    }
  }

  lemma FinishedUpTo(ks: KeyStream, key: bytes, ps: seq<Packet>, i: nat, s: System)
    requires UpToForeign(ks, key, ps, i, s) && Finished(s)
    ensures i == DataPackets(ps) && (s.rx.pending.Stopped? <==> i < |ps|)
  {
    hide Plain;
    StreamSize(ps[i..]);
  }

  // ----- a run that finishes -----

  /** Positions behind the first packet, counted from its end. */
  lemma {:induction false} UncutBehindFirst(ps: seq<Packet>, done: nat, run: seq<Event>)
    requires ps != []
    ensures NoHeaderCut(ps, HEADER + |ps[0].data| + done, run) == NoHeaderCut(ps[1..], done, run)
    decreases |run|
  {
    if run != [] {
      UncutBehindFirst(ps, if run[0].Read? then done + run[0].count else done, run[1..]);
    }
  }

  /** The reads that bring exactly `size` bytes into a fresh packet: one, or two when it is too small for them. */
  function ReadsOf(size: nat, room: nat): seq<Event> {
    if size <= HEADER + room then [Read(size)] else [Read(HEADER + room), Read(size - HEADER - room)]
  }

  /** Packet after packet is read and forwarded. */
  function WholeReads(ps: seq<Packet>, room: nat): seq<Event> {
    if ps == [] then []
    else ReadsOf(HEADER + |ps[0].data|, room) + ([Written] + WholeReads(ps[1..], MAX_LENGTH))
  }

  lemma RunCons(ks: KeyStream, key: bytes, s: System, e: Event, more: seq<Event>)
    requires Enabled(s, e)
    ensures Possible(ks, key, s, [e] + more) <==> Possible(ks, key, Step(ks, key, s, e), more)
    ensures Possible(ks, key, s, [e] + more) ==>
              After(ks, key, s, [e] + more) == After(ks, key, Step(ks, key, s, e), more)
  {
    hide Step, Enabled;
    assert ([e] + more)[1..] == more;
  }

  lemma CutCons(ps: seq<Packet>, done: nat, e: Event, more: seq<Event>)
    ensures NoHeaderCut(ps, done, [e] + more) <==>
            if e.Read? then !InsideHeader(ps, done + e.count) && NoHeaderCut(ps, done + e.count, more)
            else NoHeaderCut(ps, done, more)
  {
    hide InsideHeader;
    assert ([e] + more)[1..] == more;
  }

  /** What a handler entry makes of exactly one packet, and of the first part of one. */
  lemma DispatchOne(ks: KeyStream, key: bytes, p: Packet, got: bytes, out: bytes)
    requires WellFormed(p) && got <= p.Wire() && |got| >= HEADER
    ensures Dispatch(ks, key, got, out, 0) ==
            if |got| == HEADER + |p.data| then Feed([], out + Crypt(ks, key, p.data), 0, WriteThenRead)
            else Feed(got, out, 0, ReadRest(HEADER + |p.data| - |got|))
  {
    var rest := p.Wire()[|got|..];
    assert got + rest == p.Wire() && Stream([p]) == p.Wire() + Stream([]);
    StreamHead([p], got, rest);
  }

  /** One packet is read. */
  lemma ReadsOfRun(
      ks: KeyStream, key: bytes, p: Packet, behind: bytes, out: bytes, room: nat, more: seq<Event>)
    requires WellFormed(p)
    ensures var s := System(Feed([], out, 0, ReadPacket(room)), p.Wire() + behind);
            var s' := System(Feed([], out + Crypt(ks, key, p.data), 0, WriteThenRead), behind);
            var run := ReadsOf(HEADER + |p.data|, room) + more;
            && (Possible(ks, key, s, run) <==> Possible(ks, key, s', more))
            && (Possible(ks, key, s, run) ==> After(ks, key, s, run) == After(ks, key, s', more))
  {
    var size, wire := HEADER + |p.data|, p.Wire();
    var s := System(Feed([], out, 0, ReadPacket(room)), wire + behind);
    DispatchOne(ks, key, p, wire, out);
    hide Dispatch, Possible, After;
    if size <= HEADER + room {
      assert (wire + behind)[..size] == wire && (wire + behind)[size..] == behind && [] + wire == wire;
      RunCons(ks, key, s, Read(size), more);
    } else {
      var n := HEADER + room;
      var first, rest := wire[..n], wire[n..] + behind;
      assert (wire + behind)[..n] == first && (wire + behind)[n..] == rest && [] + first == first;
      DispatchOne(ks, key, p, first, out);
      RunCons(ks, key, s, Read(n), [Read(size - n)] + more);
      assert rest[..size - n] == wire[n..] && rest[size - n..] == behind && first + wire[n..] == wire;
      RunCons(ks, key, System(Feed(first, out, 0, ReadRest(size - n)), rest), Read(size - n), more);
      assert ReadsOf(size, room) + more == [Read(n)] + ([Read(size - n)] + more);
    }
  }

  lemma ReadsOfUncut(ps: seq<Packet>, room: nat, more: seq<Event>)
    requires ps != []
    ensures NoHeaderCut(ps, 0, ReadsOf(HEADER + |ps[0].data|, room) + more) <==> NoHeaderCut(ps[1..], 0, more)
  {
    var size := HEADER + |ps[0].data|;
    hide NoHeaderCut;
    UncutBehindFirst(ps, 0, more);
    if size <= HEADER + room {
      CutCons(ps, 0, Read(size), more);
    } else {
      var n := HEADER + room;
      CutCons(ps, 0, Read(n), [Read(size - n)] + more);
      CutCons(ps, n, Read(size - n), more);
      assert ReadsOf(size, room) + more == [Read(n)] + ([Read(size - n)] + more);
    }
  }

  /** The run of whole reads is possible, cuts no header, and ends with everything forwarded behind `out`. */
  ghost predicate Finishes(ks: KeyStream, key: bytes, ps: seq<Packet>, out: bytes, room: nat) {
    var s, run := System(Feed([], out, 0, ReadPacket(room)), Stream(ps)), WholeReads(ps, room);
    && Possible(ks, key, s, run) && NoHeaderCut(ps, 0, run)
    && var end := After(ks, key, s, run);
       Finished(end) && end.unread == [] && end.rx.lost == 0 && end.rx.out == out + Plain(ks, key, ps)
  }

  lemma FinishesOneMore(ks: KeyStream, key: bytes, ps: seq<Packet>, out: bytes, room: nat)
    requires ps != [] && WellFormed(ps[0])
    requires Finishes(ks, key, ps[1..], out + Crypt(ks, key, ps[0].data), MAX_LENGTH)
    ensures Finishes(ks, key, ps, out, room)
  {
    PlainCons(ks, key, ps, out);
    OneMoreRun(ks, key, ps, out, room);
    OneMoreUncut(ps, room);
    hide Possible, After, NoHeaderCut, WholeReads, Stream, Plain, Crypt, WellFormed, Finished;
  }

  lemma PlainCons(ks: KeyStream, key: bytes, ps: seq<Packet>, out: bytes)
    requires ps != []
    ensures out + Crypt(ks, key, ps[0].data) + Plain(ks, key, ps[1..]) == out + Plain(ks, key, ps)
  {
    hide Crypt;
  }

  lemma OneMoreRun(ks: KeyStream, key: bytes, ps: seq<Packet>, out: bytes, room: nat)
    requires ps != [] && WellFormed(ps[0])
    ensures var s, run := System(Feed([], out, 0, ReadPacket(room)), Stream(ps)), WholeReads(ps, room);
            var s' := System(Feed([], out + Crypt(ks, key, ps[0].data), 0, ReadPacket(MAX_LENGTH)), Stream(ps[1..]));
            var more := WholeReads(ps[1..], MAX_LENGTH);
            && (Possible(ks, key, s, run) <==> Possible(ks, key, s', more))
            && (Possible(ks, key, s, run) ==> After(ks, key, s, run) == After(ks, key, s', more))
  {
    var p, rest, c := ps[0], ps[1..], Crypt(ks, key, ps[0].data);
    var more := WholeReads(rest, MAX_LENGTH);
    assert Stream(ps) == p.Wire() + Stream(rest);
    WholeReadsCons(ps, room);
    hide Possible, After, WholeReads, Dispatch, ReadsOf, Stream, Crypt, WellFormed;
    RunCons(ks, key, System(Feed([], out + c, 0, WriteThenRead), Stream(rest)), Written, more);
    ReadsOfRun(ks, key, p, Stream(rest), out, room, [Written] + more);
  }

  lemma OneMoreUncut(ps: seq<Packet>, room: nat)
    requires ps != []
    ensures NoHeaderCut(ps, 0, WholeReads(ps, room)) <==> NoHeaderCut(ps[1..], 0, WholeReads(ps[1..], MAX_LENGTH))
  {
    var more := WholeReads(ps[1..], MAX_LENGTH);
    WholeReadsCons(ps, room);
    hide NoHeaderCut, WholeReads, ReadsOf, InsideHeader;
    ReadsOfUncut(ps, room, [Written] + more);
    CutCons(ps[1..], 0, Written, more);
  }

  /** From every packet stream there is a run that cuts no header and forwards everything, with a buffer of any
      size for the first packet and packets of any length. */
  lemma {:induction false} WholeReadsFinish(ks: KeyStream, key: bytes, ps: seq<Packet>, out: bytes, room: nat)
    requires AllWellFormed(ps)
    ensures Finishes(ks, key, ps, out, room)
    decreases |ps|
  {
    if ps == [] {
      assert out + [] == out;
    } else {
      hide Finishes;
      WholeReadsFinish(ks, key, ps[1..], out + Crypt(ks, key, ps[0].data), MAX_LENGTH);
      FinishesOneMore(ks, key, ps, out, room);
    }
  }

  lemma WholeReadsCons(ps: seq<Packet>, room: nat)
    requires ps != []
    ensures WholeReads(ps, room)
            == ReadsOf(HEADER + |ps[0].data|, room) + ([Written] + WholeReads(ps[1..], MAX_LENGTH))
  {
  }

  /** What a sender packs, one packet for each piece of plaintext it has read. */
  function Packed(ks: KeyStream, key: bytes, pieces: seq<bytes>): (ps: seq<Packet>)
    ensures |ps| == |pieces|
  {
    if pieces == [] then [] else [PackData(ks, key, pieces[0])] + Packed(ks, key, pieces[1..])
  }

  lemma {:induction false} PackedPlain(ks: KeyStream, key: bytes, pieces: seq<bytes>)
    requires forall i :: 0 <= i < |pieces| ==> |pieces[i]| <= MAX_LENGTH
    ensures AllWellFormed(Packed(ks, key, pieces))
    ensures Plain(ks, key, Packed(ks, key, pieces)) == Flatten(pieces)
  {
    if pieces != [] {
      PackDataIsWellFormed(ks, key, pieces[0]);
      PackedPlain(ks, key, pieces[1..]);
      var ps := Packed(ks, key, pieces);
      assert ps[1..] == Packed(ks, key, pieces[1..]);
      assert forall i :: 1 <= i < |ps| ==> ps[i] == ps[1..][i - 1];
    }
  }

  /** A tunnel in one direction: whatever pieces the sender read, and however the network cuts the packet
      stream outside headers, a finished run has handed over exactly the bytes that went in. */
  lemma TunnelIsTransparent(ks: KeyStream, key: bytes, pieces: seq<bytes>, room: nat, run: seq<Event>)
    requires forall i :: 0 <= i < |pieces| ==> |pieces[i]| <= MAX_LENGTH
    requires var ps := Packed(ks, key, pieces);
             && Possible(ks, key, Start(ps, room), run)
             && NoHeaderCut(ps, 0, run)
             && Finished(After(ks, key, Start(ps, room), run))
    ensures After(ks, key, Start(Packed(ks, key, pieces), room), run).rx.out == Flatten(pieces)
  {
    PackedPlain(ks, key, pieces);
    FinishedRunForwardsAll(ks, key, Packed(ks, key, pieces), room, run);
  }

  /** Twice the unread bytes, plus the held ones, plus a started write. */
  function Measure(s: System): nat {
    2 * |s.unread| + |s.rx.held| + (if s.rx.Writing() then 1 else 0)
  }

  /** Reads and re-entries both lower one measure, whatever the stream contains, so a run over any
      stream takes at most as many steps as the measure it starts from. */
  lemma {:induction false} RunsAreBounded(ks: KeyStream, key: bytes, s: System, run: seq<Event>)
    requires Possible(ks, key, s, run)
    ensures |run| + Measure(After(ks, key, s, run)) <= Measure(s)
    decreases |run|
  {
    if run != [] {
      StepLowersMeasure(ks, key, s, run[0]);
      RunsAreBounded(ks, key, Step(ks, key, s, run[0]), run[1..]);
    }
  }

  lemma StepLowersMeasure(ks: KeyStream, key: bytes, s: System, e: Event)
    requires Enabled(s, e)
    ensures Measure(Step(ks, key, s, e)) < Measure(s)
  {
  }
}
