/** Which first packets the server session answers, said by the layout of RFC 1928 alone, and runs that show the
    request phase leading on to the relay. */
module Requests {
  import opened Bytes
  import opened CounterMode
  import opened Packet
  import opened Uplink
  import R = Reassembly
  import Socks5

  /** The plaintext begins with a request laid out as in section 4 of RFC 1928. */
  predicate BeginsWith(plain: bytes, cmd: byte, dest: Socks5.Address, port: nat) {
    Socks5.IsAddress(dest) && port < 0x1_0000 && Socks5.LayOut(cmd, dest, port) <= plain
  }

  ghost predicate AsksConnect(plain: bytes) {
    exists dest: Socks5.Address, port: nat :: BeginsWith(plain, 0x01, dest, port)
  }

  lemma LayOutParses(plain: bytes, cmd: byte, dest: Socks5.Address, port: nat)
    requires cmd in {0x01, 0x02, 0x03} && BeginsWith(plain, cmd, dest, port)
    ensures Socks5.ParseRequest(plain) == Socks5.Ok(Socks5.Request(cmd, Socks5.TypeOf(dest), dest, port))
  {
    hide Socks5.ParseRequest, Socks5.LayOut;
    var layout := Socks5.LayOut(cmd, dest, port);
    assert layout + plain[|layout|..] == plain;
    Socks5.ParsesCompleteRequest(cmd, dest, port, plain[|layout|..]);
  }

  /** What the server takes as a CONNECT request. */
  lemma ConnectExactly(plain: bytes)
    ensures IsConnect(plain) <==> AsksConnect(plain)
  {
    hide Socks5.LayOut;
    if dest: Socks5.Address, port: nat :| BeginsWith(plain, 0x01, dest, port) {
      LayOutParses(plain, 0x01, dest, port);
    }
    if IsConnect(plain) {
      Socks5.AcceptsOnlyRequests(plain);
      var r := Socks5.ParseRequest(plain).value;
      assert BeginsWith(plain, 0x01, r.dest, r.port);
    }
  }

  /** A BIND or UDP request is none. */
  lemma OtherCommands(plain: bytes, cmd: byte, dest: Socks5.Address, port: nat)
    requires cmd in {0x02, 0x03} && BeginsWith(plain, cmd, dest, port)
    ensures !AsksConnect(plain)
  {
    LayOutParses(plain, cmd, dest, port);
    ConnectExactly(plain);
    hide Socks5.ParseRequest, Socks5.LayOut;
  }

  /** The first packet is answered when it is data whose plaintext is a CONNECT request. */
  ghost predicate IsAnswered(ks: KeyStream, key: bytes, first: Packet) {
    IsData(first.kind) && AsksConnect(Crypt(ks, key, first.data))
  }

  predicate OnlyReads(run: seq<Event>) {
    forall i :: 0 <= i < |run| ==> run[i].Left?
  }

  /** Before the reply, whatever types the packets have and however they are cut outside headers: the session still
      reads exactly while the first packet is incomplete; then it answers it if it asks for a connection, knowing
      its whole plaintext, and ends if it does not. */
  lemma RequestDecides(ks: KeyStream, key: bytes, ps: seq<Packet>, room: nat, run: seq<Event>)
    requires ps != [] && R.AllHonest(ps) && Possible(ks, key, Start(ps, room), run)
    requires OnlyReads(run) && R.NoHeaderCut(ps, 0, Lefts(run))
    ensures var end, size := After(ks, key, Start(ps, room), run), HEADER + |ps[0].data|;
            && |end.unread| <= |R.Stream(ps)|
            && var done := |R.Stream(ps)| - |end.unread|;
               && (end.link.Asking? <==> done < size)
               && (end.link.Answering? <==> done >= size && IsAnswered(ks, key, ps[0]))
               && (end.link.Ended? <==> done >= size && !IsAnswered(ks, key, ps[0]))
               && (end.link.Answering? ==> end.link.request == Crypt(ks, key, ps[0].data))
  {
    Decides(ks, key, ps, Start(ps, room), run);
  }

  /** The same from the middle of the first packet. */
  lemma {:induction false} Decides(ks: KeyStream, key: bytes, ps: seq<Packet>, s: System, run: seq<Event>)
    requires R.AllHonest(ps) && AskInv(ps, s) && Possible(ks, key, s, run)
    requires OnlyReads(run) && R.NoHeaderCut(ps, |s.link.rx.held|, Lefts(run))
    ensures Decided(ks, key, ps, After(ks, key, s, run))
    decreases |run|
  {
    hide R.NoHeaderCut, R.Stream, R.AllHonest, AskRead, Decided;
    if run == [] {
      StillAsking(ks, key, ps, s);
    } else {
      DecideStep(ks, key, ps, s, run);
      var next := Step(ks, key, s, run[0]);
      if next.link.Asking? {
        Decides(ks, key, ps, next, run[1..]);
      } else {
        OverAfter(ks, key, next, run[1..]);
      }
    }
  }

  lemma StillAsking(ks: KeyStream, key: bytes, ps: seq<Packet>, s: System)
    requires AskInv(ps, s)
    ensures Decided(ks, key, ps, s)
  {
    hide IsAnswered, R.Stream;
    assert |s.link.rx.held| + |s.unread| == |R.Stream(ps)|;
  }

  lemma OverAfter(ks: KeyStream, key: bytes, s: System, run: seq<Event>)
    requires (s.link.Answering? || s.link.Ended?) && OnlyReads(run) && Possible(ks, key, s, run)
    ensures run == []
  {
  }

  /** One read of the request. */
  lemma DecideStep(ks: KeyStream, key: bytes, ps: seq<Packet>, s: System, run: seq<Event>)
    requires R.AllHonest(ps) && AskInv(ps, s) && Possible(ks, key, s, run) && run != []
    requires OnlyReads(run) && R.NoHeaderCut(ps, |s.link.rx.held|, Lefts(run))
    ensures var next := Step(ks, key, s, run[0]);
            if next.link.Asking? then AskInv(ps, next) && R.NoHeaderCut(ps, |next.link.rx.held|, Lefts(run[1..]))
            else (next.link.Answering? || next.link.Ended?) && Decided(ks, key, ps, next)
  {
    var n, next := run[0].e.count, Step(ks, key, s, run[0]);
    LeftsCons(run);
    UncutRead(ps, |s.link.rx.held|, n, Lefts(run));
    AskStep(ks, key, ps, s, n);
    ConnectExactly(Crypt(ks, key, ps[0].data));
    DoneIs(ps, s, n);
    hide R.NoHeaderCut, IsConnect, AsksConnect, R.Stream, R.AllHonest, AskRead, AskInv;
  }

  lemma UncutRead(ps: seq<Packet>, done: nat, n: nat, run: seq<R.Event>)
    requires ps != [] && run != [] && run[0] == R.Read(n) && n > 0 && R.NoHeaderCut(ps, done, run)
    ensures done + n >= HEADER && R.NoHeaderCut(ps, done + n, run[1..])
  {
  }

  ghost predicate Decided(ks: KeyStream, key: bytes, ps: seq<Packet>, end: System)
    requires ps != []
  {
    var size := HEADER + |ps[0].data|;
    && |end.unread| <= |R.Stream(ps)|
    && var done := |R.Stream(ps)| - |end.unread|;
       && (end.link.Asking? <==> done < size)
       && (end.link.Answering? <==> done >= size && IsAnswered(ks, key, ps[0]))
       && (end.link.Ended? <==> done >= size && !IsAnswered(ks, key, ps[0]))
       && (end.link.Answering? ==> end.link.request == Crypt(ks, key, ps[0].data))
  }

  lemma DoneIs(ps: seq<Packet>, s: System, n: nat)
    requires AskInv(ps, s) && n <= |s.unread|
    ensures |s.link.rx.held| + n + |s.unread[n..]| == |R.Stream(ps)|
  {
  }

  // ----- one read, one answer -----

  /** A read of exactly the first packet, when that is a CONNECT request for any destination, followed by anything,
      leads to the answer with that plaintext and nothing dropped, and an accepting reply to the relay of the
      packets behind it. */
  lemma ConnectLeadsToRelay(ks: KeyStream, key: bytes, first: Packet, rest: seq<Packet>, room: nat,
                            dest: Socks5.Address, port: nat, more: bytes)
    requires WellFormed(first) && R.AllHonest(rest) && |first.data| <= room
    requires Socks5.IsAddress(dest) && port < 0x1_0000
    requires Crypt(ks, key, first.data) == Socks5.LayOut(0x01, dest, port) + more
    ensures var start, read := Start([first] + rest, room), Left(R.Read(HEADER + |first.data|));
            && Enabled(start, read)
            && var asked := Step(ks, key, start, read);
               && asked == System(Answering(Socks5.LayOut(0x01, dest, port) + more, 0), R.Stream(rest))
               && Enabled(asked, Answered(true)) && Enabled(asked, Answered(false))
               && Step(ks, key, asked, Answered(true)).link.Relaying?
               && Step(ks, key, asked, Answered(true)).unread == R.Stream(rest)
               && Step(ks, key, asked, Answered(false)).link.Ended?
  {
    ReadFirst(ks, key, first, rest, room);
    assert BeginsWith(Crypt(ks, key, first.data), 0x01, dest, port);
    hide Step, Socks5.LayOut;
    AnswerStep(ks, key, System(Answering(Crypt(ks, key, first.data), 0), R.Stream(rest)));
  }

  lemma AnswerStep(ks: KeyStream, key: bytes, s: System)
    requires s.link.Answering?
    ensures Enabled(s, Answered(true)) && Enabled(s, Answered(false))
    ensures Step(ks, key, s, Answered(true))
            == System(Relaying(s.link.request, s.link.dropped, R.Feed([], [], 0, R.ReadPacket(R.MAX_LENGTH))), s.unread)
    ensures Step(ks, key, s, Answered(false)) == System(Ended, s.unread)
  {
  }

  /** A read of exactly the first packet: it is answered if it asks for a connection, and else the session ends,
      as with a BIND or UDP request, with text that is no request, and with a packet that is no data. */
  lemma ReadFirst(ks: KeyStream, key: bytes, first: Packet, rest: seq<Packet>, room: nat)
    requires first.DataLen() == |first.data| && R.AllHonest(rest) && |first.data| <= room
    ensures var start, read := Start([first] + rest, room), Left(R.Read(HEADER + |first.data|));
            && Enabled(start, read)
            && Step(ks, key, start, read).unread == R.Stream(rest)
            && Step(ks, key, start, read).link ==
               if IsAnswered(ks, key, first) then Answering(Crypt(ks, key, first.data), 0) else Ended
  {
    var ps, size := [first] + rest, HEADER + |first.data|;
    assert ps[1..] == rest;
    assert forall i :: 0 < i < |ps| ==> ps[i] == rest[i - 1];
    assert R.Stream(ps) == first.Wire() + R.Stream(rest);
    assert R.Stream(ps)[size..] == R.Stream(rest);
    AskStep(ks, key, ps, Start(ps, room), size);
    ConnectExactly(Crypt(ks, key, first.data));
    hide R.Stream, AskRead, IsConnect, AsksConnect;
  }

  // ----- a run that finishes -----

  function AsLeft(run: seq<R.Event>): (r: seq<Event>)
    ensures |r| == |run|
  {
    if run == [] then [] else [Left(run[0])] + AsLeft(run[1..])
  }

  lemma RunCons(ks: KeyStream, key: bytes, s: System, e: Event, more: seq<Event>)
    requires Enabled(s, e)
    ensures Possible(ks, key, s, [e] + more) <==> Possible(ks, key, Step(ks, key, s, e), more)
    ensures Possible(ks, key, s, [e] + more) ==>
              After(ks, key, s, [e] + more) == After(ks, key, Step(ks, key, s, e), more)
    ensures Lefts([e] + more) == (if e.Left? then [e.e] else []) + Lefts(more)
  {
    hide Step, Enabled;
    assert ([e] + more)[1..] == more;
  }

  /** The receiver's runs are runs of the relaying link. */
  lemma {:induction false} RelayRun(ks: KeyStream, key: bytes, s: System, run: seq<R.Event>)
    requires s.link.Relaying? && R.Possible(ks, key, R.System(s.link.rx, s.unread), run)
    ensures Possible(ks, key, s, AsLeft(run)) && Lefts(AsLeft(run)) == run
    ensures var end := R.After(ks, key, R.System(s.link.rx, s.unread), run);
            After(ks, key, s, AsLeft(run)) == System(s.link.(rx := end.rx), end.unread)
    decreases |run|
  {
    if run != [] {
      var e := Left(run[0]);
      RelayRun(ks, key, Step(ks, key, s, e), run[1..]);
      hide Possible, After;
      RunCons(ks, key, s, e, AsLeft(run[1..]));
      assert [run[0]] + run[1..] == run;
    }
  }

  /** The request is read, then answered, then the packets behind it are forwarded one by one. */
  function WholeRun(ps: seq<Packet>, room: nat): seq<Event>
    requires ps != []
  {
    AsLeft(R.ReadsOf(HEADER + |ps[0].data|, room)) + ([Answered(true)] + AsLeft(R.WholeReads(ps[1..], R.MAX_LENGTH)))
  }

  /** What a run does from s is what the rest of it does from s'. */
  ghost predicate Continues(ks: KeyStream, key: bytes, s: System, run: seq<Event>, s': System, more: seq<Event>) {
    && (Possible(ks, key, s, run) <==> Possible(ks, key, s', more))
    && (Possible(ks, key, s, run) ==> After(ks, key, s, run) == After(ks, key, s', more))
  }

  lemma ReadInOne(ks: KeyStream, key: bytes, ps: seq<Packet>, s: System, n: nat, more: seq<Event>)
    requires R.AllWellFormed(ps) && AskInv(ps, s) && IsConnect(Crypt(ks, key, ps[0].data))
    requires |s.link.rx.held| + n == HEADER + |ps[0].data| && n <= s.link.rx.Capacity()
    ensures var s' := System(Answering(Crypt(ks, key, ps[0].data), 0), R.Stream(ps[1..]));
            && Continues(ks, key, s, [Left(R.Read(n))] + more, s', more)
            && Lefts([Left(R.Read(n))] + more) == [R.Read(n)] + Lefts(more)
  {
    ReadToEnd(ks, key, ps, s, n);
    hide Possible, After, Step, Enabled, R.Stream, IsConnect, Lefts, AskInv, R.AllWellFormed;
    RunCons(ks, key, s, Left(R.Read(n)), more);
  }

  lemma ReadInTwo(ks: KeyStream, key: bytes, ps: seq<Packet>, s: System, n: nat, m: nat,
                  more: seq<Event>)
    requires R.AllWellFormed(ps) && AskInv(ps, s) && IsConnect(Crypt(ks, key, ps[0].data))
    requires s.link.rx.held == [] && HEADER <= n && m > 0 && n + m == HEADER + |ps[0].data|
    requires n <= s.link.rx.Capacity()
    ensures var s' := System(Answering(Crypt(ks, key, ps[0].data), 0), R.Stream(ps[1..]));
            var run := [Left(R.Read(n))] + ([Left(R.Read(m))] + more);
            && Continues(ks, key, s, run, s', more)
            && Lefts(run) == [R.Read(n), R.Read(m)] + Lefts(more)
  {
    hide Possible, After, R.Stream, IsConnect, R.AllWellFormed;
    ReadPart(ks, key, ps, s, n);
    var mid := Step(ks, key, s, Left(R.Read(n)));
    assert m <= mid.link.rx.Capacity();
    ReadInOne(ks, key, ps, mid, m, more);
    RunCons(ks, key, s, Left(R.Read(n)), [Left(R.Read(m))] + more);
    hide Step, Enabled, Lefts, AskInv;
    assert [R.Read(n)] + ([R.Read(m)] + Lefts(more)) == [R.Read(n), R.Read(m)] + Lefts(more);
  }

  /** The reads of the request lead to its answer. */
  ghost predicate ReadsRequest(ks: KeyStream, key: bytes, ps: seq<Packet>, room: nat, more: seq<Event>)
    requires ps != []
  {
    var s' := System(Answering(Crypt(ks, key, ps[0].data), 0), R.Stream(ps[1..]));
    var run := AsLeft(R.ReadsOf(HEADER + |ps[0].data|, room)) + more;
    && Continues(ks, key, Start(ps, room), run, s', more)
    && Lefts(run) == R.ReadsOf(HEADER + |ps[0].data|, room) + Lefts(more)
  }

  lemma RequestReads(ks: KeyStream, key: bytes, ps: seq<Packet>, room: nat, more: seq<Event>)
    requires ps != [] && R.AllWellFormed(ps) && AsksConnect(Crypt(ks, key, ps[0].data))
    ensures ReadsRequest(ks, key, ps, room, more)
  {
    assert AskInv(ps, Start(ps, room));
    ConnectExactly(Crypt(ks, key, ps[0].data));
    hide *;
    if |ps[0].data| <= room {
      ShortRequest(ks, key, ps, room, more);
    } else {
      LongRequest(ks, key, ps, room, more);
    }
  }

  lemma ShortRequest(ks: KeyStream, key: bytes, ps: seq<Packet>, room: nat, more: seq<Event>)
    requires ps != [] && R.AllWellFormed(ps) && AskInv(ps, Start(ps, room)) && |ps[0].data| <= room
    requires IsConnect(Crypt(ks, key, ps[0].data))
    ensures ReadsRequest(ks, key, ps, room, more)
  {
    var size := HEADER + |ps[0].data|;
    hide Continues, AskInv, R.Stream, R.AllWellFormed, IsConnect, AsLeft, Lefts, R.ReadsOf;
    ReadsAsLeft(size, room, more);
    ReadInOne(ks, key, ps, Start(ps, room), size, more);
  }

  lemma LongRequest(ks: KeyStream, key: bytes, ps: seq<Packet>, room: nat, more: seq<Event>)
    requires ps != [] && R.AllWellFormed(ps) && AskInv(ps, Start(ps, room)) && |ps[0].data| > room
    requires IsConnect(Crypt(ks, key, ps[0].data))
    ensures ReadsRequest(ks, key, ps, room, more)
  {
    var size, n := HEADER + |ps[0].data|, HEADER + room;
    hide Continues, AskInv, R.Stream, R.AllWellFormed, IsConnect, AsLeft, Lefts, R.ReadsOf;
    ReadsAsLeft(size, room, more);
    ReadInTwo(ks, key, ps, Start(ps, room), n, size - n, more);
  }

  lemma ReadsAsLeft(size: nat, room: nat, more: seq<Event>)
    ensures if size <= HEADER + room then
              R.ReadsOf(size, room) == [R.Read(size)]
              && AsLeft(R.ReadsOf(size, room)) + more == [Left(R.Read(size))] + more
            else
              var n := HEADER + room;
              && R.ReadsOf(size, room) == [R.Read(n), R.Read(size - n)]
              && AsLeft(R.ReadsOf(size, room)) + more == [Left(R.Read(n))] + ([Left(R.Read(size - n))] + more)
  {
    if size <= HEADER + room {
      assert [R.Read(size)][1..] == [];
      assert AsLeft([R.Read(size)]) == [Left(R.Read(size))];
    } else {
      var n := HEADER + room;
      assert [R.Read(n), R.Read(size - n)][1..] == [R.Read(size - n)] && [R.Read(size - n)][1..] == [];
      assert AsLeft([R.Read(size - n)]) == [Left(R.Read(size - n))];
    }
  }

  lemma AskSize(ps: seq<Packet>)
    requires ps != []
    ensures HEADER + |ps[0].data| <= |R.Stream(ps)|
  {
  }

  lemma ReadPart(ks: KeyStream, key: bytes, ps: seq<Packet>, s: System, n: nat)
    requires R.AllWellFormed(ps) && AskInv(ps, s) && s.link.rx.held == [] && HEADER <= n < HEADER + |ps[0].data|
    requires n <= s.link.rx.Capacity()
    ensures Enabled(s, Left(R.Read(n)))
    ensures var s' := Step(ks, key, s, Left(R.Read(n))); AskInv(ps, s') && |s'.link.rx.held| == n
  {
    AskSize(ps);
    AskStep(ks, key, ps, s, n);
  }

  lemma ReadToEnd(ks: KeyStream, key: bytes, ps: seq<Packet>, s: System, n: nat)
    requires R.AllWellFormed(ps) && AskInv(ps, s) && IsConnect(Crypt(ks, key, ps[0].data))
    requires 1 <= n <= s.link.rx.Capacity() && |s.link.rx.held| + n == HEADER + |ps[0].data|
    ensures Enabled(s, Left(R.Read(n)))
    ensures Step(ks, key, s, Left(R.Read(n)))
            == System(Answering(Crypt(ks, key, ps[0].data), 0), R.Stream(ps[1..]))
  {
    AskSize(ps);
    AskStep(ks, key, ps, s, n);
    hide IsConnect;
  }

  lemma NoCrossingReads(size: nat, room: nat, more: seq<R.Event>)
    requires size >= HEADER
    ensures NoCrossing(size, 0, R.ReadsOf(size, room) + more)
  {
    NoCrossingBehind(size, size, more);
    if size <= HEADER + room {
      assert ([R.Read(size)] + more)[1..] == more;
    } else {
      var n := HEADER + room;
      var run := R.ReadsOf(size, room) + more;
      assert run == [R.Read(n)] + ([R.Read(size - n)] + more);
      assert run[1..] == [R.Read(size - n)] + more && run[1..][1..] == more;
    }
  }

  const OPEN: R.Feed := R.Feed([], [], 0, R.ReadPacket(R.MAX_LENGTH))

  /** The relay forwards every packet behind the request. */
  lemma RelayFinishes(ks: KeyStream, key: bytes, plain: bytes, rest: seq<Packet>)
    requires R.AllWellFormed(rest)
    ensures var s, run := System(Relaying(plain, 0, OPEN), R.Stream(rest)), R.WholeReads(rest, R.MAX_LENGTH);
            && Possible(ks, key, s, AsLeft(run)) && Lefts(AsLeft(run)) == run && R.NoHeaderCut(rest, 0, run)
            && var end := After(ks, key, s, AsLeft(run));
               Finished(end) && end.link.request == plain && end.link.rx.out == R.Plain(ks, key, rest)
  {
    R.WholeReadsFinish(ks, key, rest, [], R.MAX_LENGTH);
    assert [] + R.Plain(ks, key, rest) == R.Plain(ks, key, rest);
    hide Possible, After, Lefts, R.Stream, R.Plain, R.WholeReads, R.Possible, R.After, R.NoHeaderCut, AsLeft;
    RelayRun(ks, key, System(Relaying(plain, 0, OPEN), R.Stream(rest)), R.WholeReads(rest, R.MAX_LENGTH));
  }

  lemma AnswerContinues(ks: KeyStream, key: bytes, plain: bytes, unread: bytes, more: seq<Event>)
    ensures Continues(ks, key, System(Answering(plain, 0), unread), [Answered(true)] + more,
                      System(Relaying(plain, 0, OPEN), unread), more)
    ensures Lefts([Answered(true)] + more) == Lefts(more)
  {
    var asked := System(Answering(plain, 0), unread);
    AnswerStep(ks, key, asked);
    RunCons(ks, key, asked, Answered(true), more);
    hide Possible, After, Lefts, Step, Enabled;
  }

  lemma RestWellFormed(ps: seq<Packet>)
    requires ps != [] && R.AllWellFormed(ps)
    ensures R.AllWellFormed(ps[1..])
  {
  }

  /** The reads of the run cut no header, and none runs over the end of the request. */
  lemma WholeReadsUncut(ks: KeyStream, key: bytes, ps: seq<Packet>, room: nat)
    requires ps != [] && R.AllWellFormed(ps)
    ensures var size, wholes := HEADER + |ps[0].data|, R.WholeReads(ps[1..], R.MAX_LENGTH);
            && R.NoHeaderCut(ps, 0, R.ReadsOf(size, room) + wholes)
            && NoCrossing(size, 0, R.ReadsOf(size, room) + wholes)
  {
    var size, wholes := HEADER + |ps[0].data|, R.WholeReads(ps[1..], R.MAX_LENGTH);
    assert size >= HEADER;
    hide *;
    RestWellFormed(ps);
    RelayFinishes(ks, key, [], ps[1..]);
    R.ReadsOfUncut(ps, room, wholes);
    NoCrossingReads(size, room, wholes);
  }

  /** Whatever the packets behind a CONNECT request are, there is a run that reads the request, is answered with
      0x00, cuts no header, reads nothing over the end of the request, and ends with everything forwarded. */
  lemma WholeRunFinishes(ks: KeyStream, key: bytes, ps: seq<Packet>, room: nat)
    requires ps != [] && R.AllWellFormed(ps) && AsksConnect(Crypt(ks, key, ps[0].data))
    ensures var run := WholeRun(ps, room);
            && Possible(ks, key, Start(ps, room), run)
            && R.NoHeaderCut(ps, 0, Lefts(run)) && NoCrossing(HEADER + |ps[0].data|, 0, Lefts(run))
            && var end := After(ks, key, Start(ps, room), run);
               && Finished(end) && end.link.request == Crypt(ks, key, ps[0].data)
               && end.link.rx.out == R.Plain(ks, key, ps[1..])
  {
    var plain, rest := Crypt(ks, key, ps[0].data), ps[1..];
    var wholes := R.WholeReads(rest, R.MAX_LENGTH);
    hide *;
    RestWellFormed(ps);
    RelayFinishes(ks, key, plain, rest);
    WholeReadsUncut(ks, key, ps, room);
    WholeRunContinues(ks, key, ps, room);
    ContinuesMeans(ks, key, Start(ps, room), WholeRun(ps, room),
                   System(Relaying(plain, 0, OPEN), R.Stream(rest)), AsLeft(wholes));
  }

  lemma ContinuesMeans(ks: KeyStream, key: bytes, s: System, run: seq<Event>, s': System, more: seq<Event>)
    requires Continues(ks, key, s, run, s', more) && Possible(ks, key, s', more)
    ensures Possible(ks, key, s, run) && After(ks, key, s, run) == After(ks, key, s', more)
  {
    hide Possible, After;
  }

  lemma WholeRunContinues(ks: KeyStream, key: bytes, ps: seq<Packet>, room: nat)
    requires ps != [] && R.AllWellFormed(ps) && AsksConnect(Crypt(ks, key, ps[0].data))
    ensures var wholes := R.WholeReads(ps[1..], R.MAX_LENGTH);
            && Lefts(WholeRun(ps, room)) == R.ReadsOf(HEADER + |ps[0].data|, room) + Lefts(AsLeft(wholes))
            && Continues(ks, key, Start(ps, room), WholeRun(ps, room),
                         System(Relaying(Crypt(ks, key, ps[0].data), 0, OPEN), R.Stream(ps[1..])), AsLeft(wholes))
  {
    var plain, rest := Crypt(ks, key, ps[0].data), ps[1..];
    var more := AsLeft(R.WholeReads(rest, R.MAX_LENGTH));
    assert WholeRun(ps, room) == AsLeft(R.ReadsOf(HEADER + |ps[0].data|, room)) + ([Answered(true)] + more);
    hide *;
    AnswerContinues(ks, key, plain, R.Stream(rest), more);
    RequestReads(ks, key, ps, room, [Answered(true)] + more);
    ContinuesOn(ks, key, Start(ps, room), WholeRun(ps, room), System(Answering(plain, 0), R.Stream(rest)),
                [Answered(true)] + more, System(Relaying(plain, 0, OPEN), R.Stream(rest)), more);
  }

  lemma ContinuesOn(ks: KeyStream, key: bytes, a: System, run: seq<Event>, b: System, run': seq<Event>,
                    c: System, run'': seq<Event>)
    requires Continues(ks, key, a, run, b, run') && Continues(ks, key, b, run', c, run'')
    ensures Continues(ks, key, a, run, c, run'')
  {
    hide Possible, After;
  }
}
