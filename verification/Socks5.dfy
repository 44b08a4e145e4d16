/** The SOCKS5 messages of socks5_protocol.h: parsing of client messages and packing of replies. */
module Socks5 {
  import opened Bytes

  const VERSION: byte := 0x05

  /** What the constructors and pack throw. PastEnd is not an exception: the source then reads beyond the
      length it was given, so the message has no meaning. */
  datatype Error = IllegalDataType | UnsupportedVersion | PastEnd | BadGet

  datatype Result<T> = Ok(value: T) | Err(error: Error)

  datatype Address = Ipv4(ip: bytes) | Domain(len: byte, name: bytes) | Ipv6(ip: bytes)

  /** Addresses as the types of the source bound them. */
  predicate IsAddress(a: Address) {
    match a
    case Ipv4(ip) => |ip| == 4
    case Domain(len, name) => |name| == len
    case Ipv6(ip) => |ip| == 16
  }

  function High(port: nat): byte { port / 256 % 256 }
  function Low(port: nat): byte { port % 256 }
  function Port(high: byte, low: byte): nat { high as int * 256 + low as int }

  // ----- request (section 4 of RFC 1928) -----

  datatype Request = Request(cmd: byte, addrType: byte, dest: Address, port: nat)

  /** req::req; `data` is exactly the message, so reading past it is visible. */
  function ParseRequest(data: bytes): Result<Request> {
    if |data| < 7 then Err(IllegalDataType)
    else if data[0] != VERSION then Err(UnsupportedVersion)
    else if data[1] != 0x01 && data[1] != 0x02 && data[1] != 0x03 then Err(IllegalDataType)
    else if data[2] != 0x00 then Err(IllegalDataType)
    else
      match data[3]
      case 0x01 =>
        if |data| < 10 then Err(PastEnd)
        else Ok(Request(data[1], data[3], Ipv4(data[4..8]), Port(data[8], data[9])))
      case 0x03 =>
        var n := data[4] as int;
        if |data| < 7 + n then Err(PastEnd)
        else Ok(Request(data[1], data[3], Domain(data[4], data[5..5 + n]), Port(data[5 + n], data[6 + n])))
      case 0x04 =>
        if |data| < 22 then Err(PastEnd)
        else Ok(Request(data[1], data[3], Ipv6(data[4..20]), Port(data[20], data[21])))
      case _ => Err(IllegalDataType)
  }

  /** VER CMD RSV ATYP DST.ADDR DST.PORT */
  function LayOut(cmd: byte, dest: Address, port: nat): bytes {
    [VERSION, cmd, 0x00] + LayOutAddress(dest) + [High(port), Low(port)]
  }

  /** ATYP and the address, with the length octet before a domain name. */
  function LayOutAddress(a: Address): bytes {
    match a
    case Ipv4(ip) => [0x01] + ip
    case Domain(len, name) => [0x03, len] + name
    case Ipv6(ip) => [0x04] + ip
  }

  function TypeOf(a: Address): byte {
    match a
    case Ipv4(_) => 0x01
    case Domain(_, _) => 0x03
    case Ipv6(_) => 0x04
  }

  lemma PortFields(port: nat)
    requires port < 0x1_0000
    ensures Port(High(port), Low(port)) == port
  {
  }

  /** Every complete request parses to exactly its command, address and port, whatever follows it. */
  lemma ParsesCompleteRequest(cmd: byte, dest: Address, port: nat, more: bytes)
    requires cmd in {0x01, 0x02, 0x03} && IsAddress(dest) && port < 0x1_0000
    ensures ParseRequest(LayOut(cmd, dest, port) + more) == Ok(Request(cmd, TypeOf(dest), dest, port))
    ensures LayOut(cmd, dest, port) == [0x05, cmd, 0x00] + LayOutAddress(dest) + [port / 256, port % 256]
  {
    PortFields(port);
    var data := LayOut(cmd, dest, port) + more;
    LayOutFields(cmd, dest, port, more);
    match dest
    case Ipv4(ip) =>
      assert data[4..8] == data[3..8][1..] == ip;
    case Domain(n, name) =>
      assert data[4] == data[3..5 + n][1] && data[5..5 + n] == data[3..5 + n][2..] == name;
    case Ipv6(ip) =>
      assert data[4..20] == data[3..20][1..] == ip;
  }

  /** Where the fields of a laid out request stand. */
  lemma LayOutFields(cmd: byte, dest: Address, port: nat, more: bytes)
    ensures var data := LayOut(cmd, dest, port) + more;
            var n := |LayOutAddress(dest)|;
            && |data| >= 5 + n
            && data[0] == VERSION && data[1] == cmd && data[2] == 0x00
            && data[3] == TypeOf(dest)
            && data[3..3 + n] == LayOutAddress(dest)
            && data[3 + n] == High(port) && data[4 + n] == Low(port)
  {
    hide High, Low;
  }

  /** The address of an accepted request, where the type octet says it is. */
  lemma AcceptedAddress(data: bytes)
    requires ParseRequest(data).Ok?
    ensures var r := ParseRequest(data).value;
            var n := |LayOutAddress(r.dest)|;
            && r.cmd in {0x01, 0x02, 0x03} && IsAddress(r.dest) && r.addrType == TypeOf(r.dest)
            && 5 + n <= |data| && LayOutAddress(r.dest) == data[3..3 + n]
            && r.port == Port(data[3 + n], data[4 + n])
  {
    hide Port;
    var r := ParseRequest(data).value;
    match data[3]
    case 0x01 =>
      assert [data[3]] + data[4..8] == data[3..8];
    case 0x03 =>
      var n := data[4] as int;
      assert [data[3], data[4]] + data[5..5 + n] == data[3..5 + n];
    case 0x04 =>
      assert [data[3]] + data[4..20] == data[3..20];
    case _ =>
  }

  lemma PortOfFields(high: byte, low: byte)
    ensures Port(high, low) < 0x1_0000 && High(Port(high, low)) == high && Low(Port(high, low)) == low
  {
  }

  /** Only complete requests parse: what was accepted starts with the layout of the result. */
  lemma AcceptsOnlyRequests(data: bytes)
    requires ParseRequest(data).Ok?
    ensures var r := ParseRequest(data).value;
            && r.cmd in {0x01, 0x02, 0x03} && IsAddress(r.dest) && r.addrType == TypeOf(r.dest) && r.port < 0x1_0000
            && LayOut(r.cmd, r.dest, r.port) <= data
  {
    var r := ParseRequest(data).value;
    var n := |LayOutAddress(r.dest)|;
    AcceptedAddress(data);
    AcceptedHead(data);
    PortOfFields(data[3 + n], data[4 + n]);
    hide ParseRequest, LayOutAddress, High, Low, Port;
    assert [data[3 + n], data[4 + n]] == data[3 + n..5 + n];
    assert LayOut(r.cmd, r.dest, r.port) == data[..3] + data[3..3 + n] + data[3 + n..5 + n] == data[..5 + n];
  }

  lemma AcceptedHead(data: bytes)
    requires ParseRequest(data).Ok?
    ensures |data| >= 7 && data[..3] == [VERSION, ParseRequest(data).value.cmd, 0x00]
  {
  }

  /** Which messages are refused, and how: another version; a message that only breaks off too early, which the
      source reads on behind its end; and everything else. */
  lemma RefusesExactly(data: bytes)
    ensures ParseRequest(data) == Err(UnsupportedVersion) <==> |data| >= 7 && data[0] != 0x05
    ensures ParseRequest(data) == Err(PastEnd) <==>
              |data| >= 7 && ParseRequest(data).Err? && exists more: bytes :: ParseRequest(data + more).Ok?
    ensures ParseRequest(data) != Err(BadGet)
  {
    if |data| >= 7 && ParseRequest(data).Err? {
      BreaksOff(data);
    }
  }

  /** The head of a message decides everything but whether it breaks off. */
  lemma BreaksOff(data: bytes)
    requires |data| >= 7 && ParseRequest(data).Err?
    ensures ParseRequest(data) == Err(PastEnd) ==> ParseRequest(data + Zeros(255)).Ok?
    ensures ParseRequest(data) != Err(PastEnd) ==> forall more: bytes :: ParseRequest(data + more) == ParseRequest(data)
  {
    hide Port;
    assert |Zeros(255)| == 255;
    assert forall more: bytes, i :: 0 <= i < 7 ==> (data + more)[i] == data[i];
  }

  // ----- reply (section 6 of RFC 1928) -----

  /** The fields of resp; addrType can disagree with the kind of address held. */
  datatype Reply = Reply(reply: byte, addrType: byte, bind: Address, port: nat)

  /** What a client reads back, by the layout VER REP RSV ATYP BND.ADDR BND.PORT. */
  function DecodeReply(data: bytes): Result<Reply> {
    if |data| < 5 || data[0] != VERSION || data[2] != 0x00 then Err(IllegalDataType)
    else
      match data[3]
      case 0x01 =>
        if |data| != 10 then Err(PastEnd)
        else Ok(Reply(data[1], data[3], Ipv4(data[4..8]), Port(data[8], data[9])))
      case 0x03 =>
        var n := data[4] as int;
        if |data| != 7 + n then Err(PastEnd)
        else Ok(Reply(data[1], data[3], Domain(data[4], data[5..5 + n]), Port(data[5 + n], data[6 + n])))
      case 0x04 =>
        if |data| != 22 then Err(PastEnd)
        else Ok(Reply(data[1], data[3], Ipv6(data[4..20]), Port(data[20], data[21])))
      case _ => Err(IllegalDataType)
  }

  class Response {
    var reply: byte
    var addrType: byte
    var bind: Address
    var port: nat

    ghost predicate Valid()
      reads this
    {
      IsAddress(bind) && port < 0x1_0000
    }

    ghost function View(): Reply
      reads this
    {
      Reply(reply, addrType, bind, port)
    }

    constructor (reply: byte, addrType: byte)
      ensures Valid() && View() == Reply(reply, addrType, Ipv4(Zeros(4)), 0)
    {
      this.reply, this.addrType := reply, addrType;
      bind, port := Ipv4(Zeros(4)), 0;
    }

    method SetIpv4(ip: bytes)
      requires Valid() && |ip| == 4
      modifies this`addrType, this`bind
      ensures Valid() && View() == old(View()).(addrType := 0x01, bind := Ipv4(ip))
    {
      addrType, bind := 0x01, Ipv4(ip);
    }

    method SetIpv6(ip: bytes)
      requires Valid() && |ip| == 16
      modifies this`addrType, this`bind
      ensures Valid() && View() == old(View()).(addrType := 0x04, bind := Ipv6(ip))
    {
      addrType, bind := 0x04, Ipv6(ip);
    }

    method SetDomain(name: bytes)
      requires Valid() && |name| < 256
      modifies this`addrType, this`bind
      ensures Valid() && View() == old(View()).(addrType := 0x03, bind := Domain(|name|, name))
    {
      addrType, bind := 0x03, Domain(|name|, name);
    }

    method SetBindPort(p: nat)
      requires Valid() && p < 0x1_0000
      modifies this`port
      ensures Valid() && View() == old(View()).(port := p)
    {
      port := p;
    }

    /** resp::pack, which fills a fixed array and returns its first bytes. */
    method Pack() returns (r: Result<bytes>)
      requires Valid()
      ensures r == Packed(View())
    {
      var size := 4 + 1 + 256 + 2;
      var arr := new byte[size](_ => 0);
      arr[0] := VERSION;
      arr[1] := reply;
      if reply > 0x08 {
        return Err(IllegalDataType);
      }
      arr[2] := 0x00;
      arr[3] := addrType;
      assert arr[..3] == [VERSION, reply, 0x00];
      match addrType
      case 0x01 =>
        if !bind.Ipv4? { return Err(BadGet); }
        r := PutAddress(arr, bind, 4, bind.ip);
      case 0x03 =>
        if !bind.Domain? { return Err(BadGet); }
        if 6 + bind.len as int >= size { return Err(IllegalDataType); }
        arr[4] := bind.len;
        assert arr[..3] == [VERSION, reply, 0x00];
        r := PutAddress(arr, bind, 5, bind.name);
        r := Ok(r.value[..6 + bind.len as int]);
      case 0x04 =>
        if !bind.Ipv6? { return Err(BadGet); }
        r := PutAddress(arr, bind, 4, bind.ip);
      case _ =>
        return Err(IllegalDataType);
    }

    /** The address at `at`, the port after it, and the bytes up to there. */
    method PutAddress(arr: array<byte>, a: Address, at: nat, body: bytes) returns (r: Result<bytes>)
      requires IsAddress(a) && arr.Length == 263 && 4 <= at <= 5 && at + |body| + 2 <= 263
      requires [arr[3]] + arr[4..at] + body == LayOutAddress(a)
      modifies arr
      ensures r == Ok(old(arr[..3]) + LayOutAddress(a) + [High(port), Low(port)])
    {
      ghost var head := arr[..at];
      assert head == arr[..3] + ([arr[3]] + arr[4..at]);
      CopyInto(arr, at, body);
      var n := at + |body|;
      ghost var copied := arr[..];
      assert copied[..n] == head + body;
      arr[n], arr[n + 1] := High(port), Low(port);
      assert arr[..n] == copied[..n];
      assert arr[..n + 2] == arr[..n] + [High(port), Low(port)];
      assert head + body == old(arr[..3]) + (old([arr[3]] + arr[4..at]) + body);
      return Ok(arr[..n + 2]);
    }
  }

  /** memmove into the array */
  method CopyInto(arr: array<byte>, at: nat, src: bytes)
    requires at + |src| <= arr.Length
    modifies arr
    ensures arr[..] == old(arr[..at]) + src + old(arr[at + |src|..])
  {
    forall i | 0 <= i < |src| {
      arr[at + i] := src[i];
    }
  }

  /** The bytes pack puts out: the layout of section 6 for addresses, one byte less for a domain name. */
  function Packed(r: Reply): Result<bytes> {
    if r.reply > 0x08 then Err(IllegalDataType)
    else if r.addrType !in {0x01, 0x03, 0x04} then Err(IllegalDataType)
    else if r.addrType != TypeOf(r.bind) then Err(BadGet)
    else
      var wire := [VERSION, r.reply, 0x00] + LayOutAddress(r.bind) + [High(r.port), Low(r.port)];
      Ok(if r.bind.Domain? then wire[..|wire| - 1] else wire)
  }

  /** Every defined reply code with an address of the stated type packs, and nothing else does. */
  lemma PacksExactly(r: Reply)
    requires IsAddress(r.bind)
    ensures Packed(r).Ok? <==> r.reply in {0, 1, 2, 3, 4, 5, 6, 7, 8} && r.addrType == TypeOf(r.bind)
    ensures r.reply > 0x08 ==> Packed(r) == Err(IllegalDataType)
    ensures r.reply <= 0x08 && r.addrType !in {0x01, 0x03, 0x04} ==> Packed(r) == Err(IllegalDataType)
    ensures r.reply <= 0x08 && r.addrType in {0x01, 0x03, 0x04} && r.addrType != TypeOf(r.bind) ==>
              Packed(r) == Err(BadGet)
  {
    assert r.reply <= 0x08 <==> r.reply in {0, 1, 2, 3, 4, 5, 6, 7, 8};
  }

  /** A packed reply decodes back to its fields exactly when the address is no domain name: that form lacks
      its last byte, the low byte of the port. */
  lemma PackedDecodes(r: Reply)
    requires IsAddress(r.bind) && r.port < 0x1_0000 && r.reply <= 0x08 && r.addrType == TypeOf(r.bind)
    ensures Packed(r).Ok?
    ensures DecodeReply(Packed(r).value) == Ok(r) <==> !r.bind.Domain?
    ensures Packed(r).value <= [0x05, r.reply, 0x00] + LayOutAddress(r.bind) + [r.port / 256, r.port % 256]
    ensures r.bind.Domain? ==> |Packed(r).value| == 6 + r.bind.len as int
                               && DecodeReply(Packed(r).value + [Low(r.port)]) == Ok(r)
  {
    PortFields(r.port);
    var data := Packed(r).value;
    match r.bind
    case Ipv4(ip) =>
      assert data[4..8] == ip;
    case Domain(n, name) =>
      var whole := data + [Low(r.port)];
      assert whole == [VERSION, r.reply, 0x00] + LayOutAddress(r.bind) + [High(r.port), Low(r.port)];
      assert whole[5..5 + n] == name;
    case Ipv6(ip) =>
      assert data[4..20] == ip;
  }

  // ----- method selection (section 3 of RFC 1928) -----

  /** ident_req::ident_req */
  function ParseIdent(data: bytes): Result<bytes> {
    if |data| < 3 then Err(IllegalDataType)
    else if data[0] != VERSION then Err(UnsupportedVersion)
    else if |data| < 2 + data[1] as int then Err(PastEnd)
    else Ok(data[2..2 + data[1] as int])
  }

  /** A message parses to a list of methods exactly when it has at least three bytes and starts with the layout
      VER NMETHODS METHODS of that list. */
  lemma ParsesIdentExactly(data: bytes, methods: bytes)
    requires |methods| < 256
    ensures ParseIdent(data) == Ok(methods) <==> |data| >= 3 && [VERSION, |methods|] + methods <= data
  {
    var layout := [VERSION, |methods|] + methods;
    if |data| >= 3 && layout <= data {
      assert data[0] == layout[0] && data[1] == layout[1];
      assert data[2..|layout|] == layout[2..] == methods;
    }
    if ParseIdent(data) == Ok(methods) {
      assert data[..2 + |methods|] == layout;
    }
  }

  /** The same for a greeting. */
  lemma RefusesIdentExactly(data: bytes)
    ensures ParseIdent(data) == Err(UnsupportedVersion) <==> |data| >= 3 && data[0] != 0x05
    ensures ParseIdent(data) == Err(PastEnd) <==>
              |data| >= 3 && ParseIdent(data).Err? && exists more: bytes :: ParseIdent(data + more).Ok?
    ensures ParseIdent(data) == Err(IllegalDataType) <==> |data| < 3
  {
    if |data| >= 3 {
      assert forall more: bytes, i :: 0 <= i < 3 ==> (data + more)[i] == data[i];
      assert |data + Zeros(255)| >= 255 + 3;
    }
  }

  /** ident_resp::pack, which looks through the offered methods for 0x00. */
  method PackIdent(methods: bytes) returns (data: bytes)
    ensures data == [0x05, if 0x00 in methods then 0x00 else 0xff]
  {
    for i := 0 to |methods|
      invariant 0x00 !in methods[..i]
    {
      if methods[i] == 0x00 {
        return [0x05, 0x00];
      }
    }
    assert methods[..|methods|] == methods;
    return [0x05, 0xff];
  }

  const CLIENT_BUFFER := 4096  // lproxy::readbuffer::max_length

  /** Whether the first list of methods in the buffer holds 0x00: because the client offered it, or because the
      read ended before the list did and the rest of the buffer is zero. */
  predicate FindsNoAuthentication(read: bytes) {
    |read| >= 2 && (|read| < 2 + read[1] as int || 0x00 in read[2..2 + read[1] as int])
  }

  /** left_read_socks5_step1: it parses its whole zero-filled buffer, whatever the read returned. */
  method AnswerIdent(read: bytes) returns (r: Result<bytes>)
    requires 1 <= |read| <= CLIENT_BUFFER
    ensures read[0] != VERSION ==> r == Err(UnsupportedVersion)
    ensures read[0] == VERSION ==> r == Ok([0x05, if FindsNoAuthentication(read) then 0x00 else 0xff])
    ensures forall methods: bytes :: |methods| < 256 && [VERSION, |methods|] + methods <= read ==>
              r == Ok([0x05, if 0x00 in methods then 0x00 else 0xff])
  {
    var buffer := read + Zeros(CLIENT_BUFFER - |read|);
    BufferMethods(read);
    match ParseIdent(buffer)
    case Err(error) =>
      r := Err(error);
    case Ok(methods) =>
      var answer := PackIdent(methods);
      r := Ok(answer);
    forall methods: bytes | |methods| < 256 && [VERSION, |methods|] + methods <= read
      ensures ParseIdent(buffer) == Ok(methods)
    {
      assert [VERSION, |methods|] + methods <= buffer;
      ParsesIdentExactly(buffer, methods);
    }
  }

  /** What the buffer parses to. */
  lemma BufferMethods(read: bytes)
    requires 1 <= |read| <= CLIENT_BUFFER
    ensures var r := ParseIdent(read + Zeros(CLIENT_BUFFER - |read|));
            if read[0] == VERSION then r.Ok? && (0x00 in r.value <==> FindsNoAuthentication(read))
            else r == Err(UnsupportedVersion)
  {
    var buffer := read + Zeros(CLIENT_BUFFER - |read|);
    if read[0] == VERSION && |read| >= 2 {
      var n := read[1] as int;
      assert buffer[1] == read[1];
      if |read| < 2 + n {
        assert buffer[2..2 + n][n - 1] == buffer[1 + n] == 0x00;
      } else {
        assert buffer[2..2 + n] == read[2..2 + n];
      }
    }
  }
}
