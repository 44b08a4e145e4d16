/** The receiving half of a relaying session: right_read_handler on the local side,
    left_read_handler on the server side, with the packet buffer they edit in place. */
module Receiver {
  import opened Bytes
  import opened CounterMode
  import opened Packet
  import opened Reassembly
  import Uplink

  const TWO_32 := 0x1_0000_0000

  /** A size_t difference kept in an int. */
  function ToInt(x: int): int {
    var low := x % TWO_32;
    if low < TWO_32 / 2 then low else low - TWO_32
  }

  datatype Check = Complete | Incomplete(less: int)

  /** lss_pack_integrity_check: the exception it throws, if any. */
  function IntegrityCheck(count: nat, pack: Packet): Check {
    if count < HEADER then Incomplete(ToInt(0xffff_ffff))
    else
      var less := ToInt(pack.DataLen() + HEADER - count);
      if less > 0 then Incomplete(less) else Complete
  }

  /** For every count a session can hold, the wrapped difference is the true one. */
  lemma CheckIsExact(count: nat, pack: Packet)
    requires count <= HEADER + MAX_DATA
    ensures IntegrityCheck(count, pack) ==
            if count < HEADER then Incomplete(-1)
            else if count < HEADER + pack.DataLen() then Incomplete(HEADER + pack.DataLen() - count)
            else Complete
  {
  }

  /** A buffer whose first bytes have been read into. */
  lemma Overlaid(before: Packet, pack: Packet, bs: bytes)
    requires 1 <= |bs| <= HEADER + |before.data|
    requires pack.version == bs[0] && (|bs| > 1 ==> pack.kind == bs[1])
    requires (|bs| > 2 ==> pack.high == bs[2]) && (|bs| > 3 ==> pack.low == bs[3])
    requires pack.data == if |bs| > HEADER then bs[HEADER..] + before.data[|bs| - HEADER..] else before.data
    ensures |pack.data| == |before.data| && pack.Wire()[..|bs|] == bs
  {
    forall i | 0 <= i < |bs|
      ensures pack.Wire()[i] == bs[i]
    {
    }
  }

  /** The first `count` bytes of a buffer that hold a whole packet. */
  lemma FirstBytes(pack: Packet, count: nat, got: bytes)
    requires HEADER + pack.DataLen() <= count <= HEADER + |pack.data| && got == pack.Wire()[..count]
    ensures FromWire(got).DataLen() == pack.DataLen() && FromWire(got).kind == pack.kind
    ensures got[HEADER..HEADER + pack.DataLen()] == pack.data[..pack.DataLen()]
  {
    assert got == [pack.version, pack.kind, pack.high, pack.low] + pack.data[..count - HEADER];
  }

  /** Before the reply an incomplete packet is treated as after it. */
  lemma AskPart(ks: KeyStream, key: bytes, rx: Feed, bs: bytes)
    requires !Dispatch(ks, key, rx.held + bs, [], 0).Writing()
    ensures var next := Dispatch(ks, key, rx.held + bs, [], 0);
            && (next.pending.ReadRest? || next.pending.Stopped?)
            && Uplink.AskRead(ks, key, rx, bs) == if next.pending.ReadRest? then Uplink.Asking(next) else Uplink.Ended
  {
    hide Crypt, Uplink.IsConnect;
  }

  /** Of a whole packet of data the plaintext is taken. */
  lemma AskWhole(ks: KeyStream, key: bytes, rx: Feed, bs: bytes, len: nat)
    requires var got := rx.held + bs;
             && HEADER + len <= |got| && FromWire(got).DataLen() == len && IsData(FromWire(got).kind)
    ensures var got := rx.held + bs;
            var plain := Crypt(ks, key, got[HEADER..HEADER + len]);
            Uplink.AskRead(ks, key, rx, bs)
            == if Uplink.IsConnect(plain) then Uplink.Answering(plain, |got| - (HEADER + len)) else Uplink.Ended
  {
    hide Crypt, Uplink.IsConnect;
  }

  class Receiver {
    const ks: KeyStream
    const key: bytes
    var pack: Packet       // *lss_reply / *lss_request
    var count: nat         // bytes_transferred bound into the pending handler, when it is bound
    var pending: Pending
    var out: bytes         // plaintext given to async_write on the other socket
    ghost var lost: nat    // bytes cut_lss left behind

    /** The buffer holds at most 65539 bytes, and exactly the stream bytes the pending operation builds on. */
    ghost predicate Valid()
      reads this
    {
      && |pack.data| <= MAX_DATA
      && match pending {
           case ReadPacket(room) => |pack.data| == room
           case ReadRest(less) => 0 < less && |pack.data| + less == pack.DataLen()
           case WriteThenAgain => count == HEADER + |pack.data|
           case WriteThenRead => true
           case Stopped => true
         }
    }

    /** The bytes of the stream received and not yet handled. */
    ghost function Held(): bytes
      reads this
    {
      if pending.ReadRest? || pending.WriteThenAgain? then pack.Wire() else []
    }

    ghost function View(): Feed
      reads this
    {
      Feed(Held(), out, lost, pending)
    }

    /** make_shared_reply(length) or make_shared_request(length), followed by the first read. */
    constructor (ks: KeyStream, key: bytes, length: nat)
      requires length <= MAX_DATA
      ensures Valid() && View() == Feed([], [], 0, ReadPacket(length))
      ensures this.ks == ks && this.key == key
    {
      this.ks, this.key := ks, key;
      pack := Packet(0xff, 0xff, 0x00, 0x00, Zeros(length));
      pending := ReadPacket(length);
      count, out, lost := 0, [], 0;
    }

    /** cut_lss: the packet at `start` replaces the buffer, unless its header is not all there. */
    method CutLss(start: nat, len: nat) returns (whole: bool)
      requires start <= len <= HEADER + |pack.data|
      modifies this`pack
      ensures whole == (len - start >= HEADER)
      ensures if whole then pack.Wire() == old(pack).Wire()[start..len] else pack == old(pack)
    {
      if len < start + HEADER {
        return false;
      }
      var buf := pack.Wire();
      pack := Packet(buf[start], buf[start + 1], buf[start + 2], buf[start + 3], buf[start + HEADER..len]);
      return true;
    }

    /** catch (incomplete_data&) with less() > 0: trim the buffer to the real bytes and read the rest. */
    method WaitForRest(transferred: nat, less: int, ghost got: bytes)
      requires |pack.data| <= MAX_DATA && HEADER <= transferred <= HEADER + |pack.data|
      requires got == pack.Wire()[..transferred]
      requires 0 < less == HEADER + pack.DataLen() - transferred
      modifies this`pack, this`pending
      ensures Valid() && View() == Feed(got, out, lost, ReadRest(less))
    {
      var size := |pack.data| + HEADER;
      if transferred < size {
        pack := pack.(data := pack.data[..transferred - HEADER]);
      } else if transferred == size {
      } else {
        assert false;  // the branch the source calls impossible
      }
      assert pack.Wire() == got;
      pending := ReadRest(less);
    }

    /** case data: decrypt one packet, cut it off, write its plaintext to the other socket. */
    method Forward(transferred: nat, ghost got: bytes)
      requires |pack.data| <= MAX_DATA && HEADER + pack.DataLen() <= transferred <= HEADER + |pack.data|
      requires got == pack.Wire()[..transferred] && IsData(pack.kind)
      modifies this
      ensures Valid() && View() == Dispatch(ks, key, got, old(out), old(lost))
    {
      var plain := Crypt(ks, key, pack.data[..pack.DataLen()]);
      var left := transferred - (HEADER + pack.DataLen());
      FirstBytes(pack, transferred, got);
      ghost var tail := got[HEADER + pack.DataLen()..];
      assert tail == pack.Wire()[transferred - left..transferred];
      var more := CutLss(transferred - left, transferred);
      out := out + plain;
      if left > 0 && more {
        count := left;
        pending := WriteThenAgain;
        assert pack.Wire() == tail;
      } else {
        lost := lost + left;
        pending := WriteThenRead;
      }
    }

    /** The head of the read handler, with the bytes it stands for as `got`: the rest of a packet is appended, and
        the integrity check made. Gives back whether a data packet is there, and the count of real bytes. */
    method Check(transferred: nat, rest: bytes, ghost got: bytes) returns (whole: bool, count: nat)
      requires |pack.data| + |rest| <= MAX_DATA
      requires rest == [] ==> transferred <= HEADER + |pack.data| && got == pack.Wire()[..transferred]
      requires rest != [] ==> transferred <= |rest| && got == pack.Wire() + rest[..transferred]
                              && HEADER + |pack.data| + |rest| == HEADER + pack.DataLen()
      modifies this`pack, this`pending
      ensures !whole ==> Valid() && View() == Dispatch(ks, key, got, out, lost) && !View().Writing()
      ensures whole ==>
                && |pack.data| <= MAX_DATA && IsData(pack.kind)
                && HEADER + pack.DataLen() <= count <= HEADER + |pack.data| && got == pack.Wire()[..count]
    {
      count := transferred;
      whole := false;
      ghost var before := pack;
      if |rest| > 0 {
        count := count + |pack.data| + HEADER;
        pack := pack.(data := pack.data + rest);
        assert pack.Wire() == before.Wire() + rest;
        assert pack.Wire()[..count] == got;
      }
      assert count <= HEADER + |pack.data| && got == pack.Wire()[..count];
      CheckIsExact(count, pack);
      match IntegrityCheck(count, pack)
      case Incomplete(less) =>
        if less > 0 {
          WaitForRest(count, less, got);
        } else {
          pending := Stopped;
        }
      case Complete =>
        if IsData(pack.kind) {
          whole := true;
        } else {
          pending := Stopped;
        }
    }

    /** The body of the read handler once the session relays. */
    method Handle(transferred: nat, rest: bytes, ghost got: bytes)
      requires |pack.data| + |rest| <= MAX_DATA
      requires rest == [] ==> transferred <= HEADER + |pack.data| && got == pack.Wire()[..transferred]
      requires rest != [] ==> transferred <= |rest| && got == pack.Wire() + rest[..transferred]
                              && HEADER + |pack.data| + |rest| == HEADER + pack.DataLen()
      modifies this
      ensures Valid() && View() == Dispatch(ks, key, got, old(out), old(lost))
    {
      var whole, total := Check(transferred, rest, got);
      if whole {
        Forward(total, got);
      }
    }

    /** The socket completes the pending read with some bytes: what it passes to the handler. */
    method Fill(bs: bytes) returns (transferred: nat, rest: bytes)
      requires Valid() && View().Reading() && 1 <= |bs| <= View().Capacity()
      modifies this`pack
      ensures |pack.data| + |rest| <= MAX_DATA
      ensures var got := old(Held()) + bs;
              && (rest == [] ==> transferred <= HEADER + |pack.data| && got == pack.Wire()[..transferred])
              && (rest != [] ==> transferred <= |rest| && got == pack.Wire() + rest[..transferred]
                                 && HEADER + |pack.data| + |rest| == HEADER + pack.DataLen())
    {
      transferred := |bs|;
      if pending.ReadPacket? {
        var version := bs[0];
        var kind := if |bs| > 1 then bs[1] else pack.kind;
        var high := if |bs| > 2 then bs[2] else pack.high;
        var low := if |bs| > 3 then bs[3] else pack.low;
        var data := if |bs| > HEADER then bs[HEADER..] + pack.data[|bs| - HEADER..] else pack.data;
        pack := Packet(version, kind, high, low, data);
        rest := [];
        Overlaid(old(pack), pack, bs);
        assert [] + bs == bs;
      } else {
        rest := bs + Zeros(pending.less - |bs|);
        assert rest[..|bs|] == bs;
      }
    }

    /** A read completes without an error. */
    method OnRead(bs: bytes)
      requires Valid() && View().Reading() && 1 <= |bs| <= View().Capacity()
      modifies this
      ensures Valid() && View() == Reassembly.OnRead(ks, key, old(View()), bs)
    {
      ghost var got := Held() + bs;
      var transferred, rest := Fill(bs);
      Handle(transferred, rest, got);
    }

    /** The same before the reply to the SOCKS request: of a whole packet the plaintext is taken, and nothing is
        cut off or written. `behind` counts the bytes left behind it in the buffer. */
    method OnRequestRead(bs: bytes) returns (whole: bool, plain: bytes, behind: nat)
      requires Valid() && View().Reading() && 1 <= |bs| <= View().Capacity()
      requires out == [] && lost == 0
      modifies this
      ensures Valid() && out == [] && lost == 0
      ensures !whole ==> pending.Stopped? || pending.ReadRest?
      ensures Uplink.AskRead(ks, key, old(View()), bs) ==
              if whole && Uplink.IsConnect(plain) then Uplink.Answering(plain, behind)
              else if !whole && pending.ReadRest? then Uplink.Asking(View())
              else Uplink.Ended
    {
      ghost var got := Held() + bs;
      var transferred, rest := Fill(bs);
      hide Uplink.IsConnect, Uplink.AskRead, Dispatch, Crypt;
      var total;
      whole, total := Check(transferred, rest, got);
      plain, behind := [], 0;
      if whole {
        plain := Crypt(ks, key, pack.data[..pack.DataLen()]);
        behind := total - (HEADER + pack.DataLen());
        FirstBytes(pack, total, got);
        AskWhole(ks, key, old(View()), bs, pack.DataLen());
        pending := Stopped;
      } else {
        AskPart(ks, key, old(View()), bs);
      }
    }

    /** A fresh packet buffer and a read into it. */
    method ReadFresh()
      requires Valid()
      modifies this`pack, this`pending
      ensures Valid() && pending == ReadPacket(MAX_LENGTH)
    {
      pack := Packet(0xff, 0xff, 0x00, 0x00, Zeros(MAX_LENGTH));
      pending := ReadPacket(MAX_LENGTH);
    }

    /** async_write of the plaintext completes without an error. */
    method OnWritten()
      requires Valid() && View().Writing()
      modifies this
      ensures Valid() && View() == Reassembly.OnWritten(ks, key, old(View()))
      ensures old(pending).WriteThenRead? ==> pending == ReadPacket(4096) && |pack.data| == 4096
    {
      if pending.WriteThenAgain? {
        Handle(count, [], pack.Wire());
      } else {
        ReadFresh();
      }
    }

    /** An operation completes with an error: the session is cancelled. */
    method OnError()
      requires Valid()
      modifies this
      ensures Valid() && pending == Stopped && out == old(out) && lost == old(lost)
    {
      pending := Stopped;
    }
  }

  /** A receiver fed with a packet stream, with its operations completing in the order of the schedule: it ends up
      having handed over the plaintexts of the first packets, and of all of them if it has finished. */
  method Receive(ks: KeyStream, key: bytes, ps: seq<Packet>, room: nat, schedule: seq<Event>) returns (rx: Receiver)
    requires room <= MAX_DATA && Possible(ks, key, Start(ps, room), schedule)
    ensures rx.View() == After(ks, key, Start(ps, room), schedule).rx
    ensures AllWellFormed(ps) && NoHeaderCut(ps, 0, schedule) ==>
              exists i: nat :: i <= |ps| && rx.out == Plain(ks, key, ps[..i])
    ensures AllWellFormed(ps) && NoHeaderCut(ps, 0, schedule) && Finished(After(ks, key, Start(ps, room), schedule)) ==>
              rx.out == Plain(ks, key, ps)
  {
    hide Dispatch, NoHeaderCut, AllWellFormed, Finished, Stream, Plain;
    rx := new Receiver(ks, key, room);
    var unread := Stream(ps);
    assert schedule[0..] == schedule;
    for i := 0 to |schedule|
      invariant fresh(rx) && rx.Valid() && rx.ks == ks && rx.key == key
      invariant var s := System(rx.View(), unread);
                && Possible(ks, key, s, schedule[i..])
                && After(ks, key, s, schedule[i..]) == After(ks, key, Start(ps, room), schedule)
    {
      assert schedule[i..][0] == schedule[i] && schedule[i..][1..] == schedule[i + 1..];
      match schedule[i]
      case Read(n) =>
        rx.OnRead(unread[..n]);
        unread := unread[n..];
      case Written =>
        rx.OnWritten();
    }
    if AllWellFormed(ps) && NoHeaderCut(ps, 0, schedule) {
      var i := ForwardsWholePackets(ks, key, ps, room, schedule);
      if Finished(After(ks, key, Start(ps, room), schedule)) {
        FinishedRunForwardsAll(ks, key, ps, room, schedule);
      }
    }
  }
}
