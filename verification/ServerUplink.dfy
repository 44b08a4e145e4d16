/** The server session's reading side as an object: one packet buffer, first for the request, then for data. */
module ServerUplink {
  import opened Bytes
  import opened CounterMode
  import opened Packet
  import B = Receiver
  import R = Reassembly
  import U = Uplink

  datatype Phase = Asking | Answering | Relaying | Ended

  class ServerUplink {
    const rx: B.Receiver
    var phase: Phase          // socks5_state, and whether the session has been cancelled
    var request: bytes        // plain_data of the request packet
    ghost var dropped: nat

    ghost predicate Valid()
      reads this, rx
    {
      && rx.Valid()
      && (phase == Asking ==> rx.View().Reading())
      && (phase == Asking || phase == Answering ==> rx.out == [] && rx.lost == 0)
    }

    ghost function View(): U.Link
      reads this, rx
    {
      match phase
      case Asking => U.Asking(rx.View())
      case Answering => U.Answering(request, dropped)
      case Relaying => U.Relaying(request, dropped, rx.View())
      case Ended => U.Ended
    }

    /** exchange_handler: the first read from status_data on. */
    constructor (ks: KeyStream, key: bytes, room: nat)
      requires room <= MAX_DATA
      ensures Valid() && fresh(rx) && rx.ks == ks && rx.key == key
      ensures View() == U.Asking(R.Feed([], [], 0, R.ReadPacket(room)))
    {
      rx := new B.Receiver(ks, key, room);
      phase, request, dropped := Asking, [], 0;
    }

    /** left_read_handler after a read */
    method OnRead(bs: bytes)
      requires Valid() && (phase == Asking || phase == Relaying)
      requires rx.View().Reading() && 1 <= |bs| <= rx.View().Capacity()
      modifies this, rx
      ensures Valid()
      ensures View() == if old(phase) == Asking then U.AskRead(rx.ks, rx.key, old(rx.View()), bs)
                        else U.Relaying(old(request), old(dropped), R.OnRead(rx.ks, rx.key, old(rx.View()), bs))
    {
      if phase == Relaying {
        rx.OnRead(bs);
        return;
      }
      var whole, plain, behind := rx.OnRequestRead(bs);
      if whole && U.IsConnect(plain) {
        phase, request, dropped := Answering, plain, behind;
      } else if whole || rx.pending.Stopped? {
        phase := Ended;
      }
    }

    /** left_read_handler or right_write_handler after a write to the remote side */
    method OnWritten()
      requires Valid() && phase == Relaying && rx.View().Writing()
      modifies this, rx
      ensures Valid()
      ensures View() == U.Relaying(old(request), old(dropped), R.OnWritten(rx.ks, rx.key, old(rx.View())))
    {
      rx.OnWritten();
    }

    /** socks5_resp_to_local, and the end of the session when the reply was a refusal */
    method OnAnswered(ok: bool)
      requires Valid() && phase == Answering
      modifies this, rx
      ensures Valid()
      ensures View() == if ok then U.Relaying(old(request), old(dropped), R.Feed([], [], 0, R.ReadPacket(R.MAX_LENGTH)))
                        else U.Ended
    {
      if ok {
        rx.ReadFresh();
        phase := Relaying;
      } else {
        phase := Ended;
      }
    }
  }

  /** The object fed with what the local side packed, with its operations completing in the order of the schedule:
      a finished run that neither cuts a header nor reads over the end of the request has taken the request and
      handed everything behind it to the remote side. */
  method RunUplink(ks: KeyStream, key: bytes, ps: seq<Packet>, room: nat, schedule: seq<U.Event>)
    returns (s: ServerUplink)
    requires room <= MAX_DATA && U.Possible(ks, key, U.Start(ps, room), schedule)
    ensures s.View() == U.After(ks, key, U.Start(ps, room), schedule).link
    ensures && ps != [] && R.AllWellFormed(ps) && U.Finished(U.After(ks, key, U.Start(ps, room), schedule))
            && R.NoHeaderCut(ps, 0, U.Lefts(schedule))
            && U.NoCrossing(HEADER + |ps[0].data|, 0, U.Lefts(schedule))
            ==> s.request == Crypt(ks, key, ps[0].data) && s.rx.out == R.Plain(ks, key, ps[1..])
  {
    hide U.AskRead, R.OnRead, R.OnWritten, R.NoHeaderCut, R.AllWellFormed, R.Stream, R.Plain, U.NoCrossing, U.Lefts;
    s := new ServerUplink(ks, key, room);
    var unread := R.Stream(ps);
    assert schedule[0..] == schedule;
    for i := 0 to |schedule|
      invariant fresh(s) && fresh(s.rx) && s.Valid() && s.rx.ks == ks && s.rx.key == key
      invariant var now := U.System(s.View(), unread);
                && U.Possible(ks, key, now, schedule[i..])
                && U.After(ks, key, now, schedule[i..]) == U.After(ks, key, U.Start(ps, room), schedule)
    {
      assert schedule[i..][0] == schedule[i] && schedule[i..][1..] == schedule[i + 1..];
      match schedule[i]
      case Left(Read(n)) =>
        s.OnRead(unread[..n]);
        unread := unread[n..];
      case Left(Written) =>
        s.OnWritten();
      case Answered(ok) =>
        s.OnAnswered(ok);
    }
    if && ps != [] && R.AllWellFormed(ps) && U.Finished(U.After(ks, key, U.Start(ps, room), schedule))
       && R.NoHeaderCut(ps, 0, U.Lefts(schedule)) && U.NoCrossing(HEADER + |ps[0].data|, 0, U.Lefts(schedule)) {
      U.DeliversBehindRequest(ks, key, ps, room, schedule);
    }
  }
}
