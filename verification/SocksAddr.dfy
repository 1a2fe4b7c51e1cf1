/**
 SOCKS addresses (sections 4, 5 and 7 of RFC 1928): the two parsers, the UDP header, and the pair that
 turns connection metadata into an address and back.
 */
module SocksAddr {
  import opened Wrappers
  import opened Bytes
  import opened Framing
  import opened Wires
  import Net

  const ATYP_IPV4: byte := 1
  const ATYP_DOMAIN_NAME: byte := 3
  const ATYP_IPV6: byte := 4
  const MAX_ADDR_LEN := 1 + 1 + 255 + 2

  // ----- what RFC 1928 says an address is -----

  datatype Address =
    | IPv4(ip: seq<byte>, port: uint16)
    | IPv6(ip: seq<byte>, port: uint16)
    | Domain(host: seq<byte>, port: uint16)
  {
    predicate Valid() {
      match this
      case IPv4(ip, _) => |ip| == 4
      case IPv6(ip, _) => |ip| == 16
      case Domain(host, _) => |host| < 0x100
    }
  }

  function Printed(a: Address): seq<byte>
    requires a.Valid()
  {
    match a
    case IPv4(ip, port) => [ATYP_IPV4] + ip + PutBE16(port)
    case IPv6(ip, port) => [ATYP_IPV6] + ip + PutBE16(port)
    case Domain(host, port) => [ATYP_DOMAIN_NAME, |host|] + host + PutBE16(port)
  }

  // Byte by byte: the type (1, 3 or 4), the address, before a host its length, and the port, high byte first
  lemma PrintedBytes(a: Address)
    requires a.Valid()
    ensures var p := Printed(a); var n := |p|;
            && n >= 4 && p[n - 2] as int * 0x100 + p[n - 1] as int == a.port
            && (a.IPv4? ==> n == 7 && p[0] == 1 && p[1..5] == a.ip)
            && (a.IPv6? ==> n == 19 && p[0] == 4 && p[1..17] == a.ip)
            && (a.Domain? ==> n == 4 + |a.host| && p[0] == 3 && p[1] as int == |a.host| && p[2..n - 2] == a.host)
  {
  }

  // ----- SplitAddr -----

  function SplitAddr(b: seq<byte>): Option<seq<byte>> {
    if |b| < 1 then None
    else if b[0] == ATYP_DOMAIN_NAME then
      if |b| < 2 || |b| < 4 + b[1] as int then None else Some(b[..4 + b[1] as int])
    else if b[0] == ATYP_IPV4 then
      if |b| < 1 + 4 + 2 then None else Some(b[..1 + 4 + 2])
    else if b[0] == ATYP_IPV6 then
      if |b| < 1 + 16 + 2 then None else Some(b[..1 + 16 + 2])
    else None
  }

  // It takes a printed address off the front, whatever follows.
  lemma SplitTakesPrinted(a: Address, rest: seq<byte>)
    requires a.Valid()
    ensures SplitAddr(Printed(a) + rest) == Some(Printed(a))
  {
    var p := Printed(a);
    assert (p + rest)[..|p|] == p;
  }

  lemma PortRoundTrip(p: seq<byte>)
    requires |p| == 2
    ensures PutBE16(GetBE16(p)) == p
  {
  }

  // What it takes is a printed address: it accepts nothing else.
  lemma SplitGivesPrinted(b: seq<byte>) returns (a: Address)
    ensures SplitAddr(b).Some? ==> a.Valid() && SplitAddr(b) == Some(Printed(a)) && Printed(a) <= b
  {
    hide PutBE16, GetBE16;
    a := Domain([], 0);
    var s := SplitAddr(b);
    if s.Some? {
      var n := |s.value|;
      var port := s.value[n - 2..];
      PortRoundTrip(port);
      if b[0] == ATYP_DOMAIN_NAME {
        a := Domain(s.value[2..n - 2], GetBE16(port));
        assert s.value == [b[0], b[1]] + s.value[2..n - 2] + port;
      } else if b[0] == ATYP_IPV4 {
        a := IPv4(s.value[1..n - 2], GetBE16(port));
        assert s.value == [b[0]] + s.value[1..n - 2] + port;
      } else {
        a := IPv6(s.value[1..n - 2], GetBE16(port));
        assert s.value == [b[0]] + s.value[1..n - 2] + port;
      }
    }
  }

  // ----- ReadAddr -----

  datatype ReadError = ShortBuffer | NotSupported | Failed(why: Failure)

  predicate Supported(atyp: byte) {
    atyp in {ATYP_IPV4, ATYP_DOMAIN_NAME, ATYP_IPV6}
  }

  // With the first lo bytes of the stream `data` read into b, reads on up to the first hi.
  method ReadOn(r: Wire, b: array<byte>, lo: nat, hi: nat, ghost data: seq<byte>) returns (err: Option<ReadError>)
    requires lo <= hi <= b.Length && lo <= |data| && b[..lo] == data[..lo] && r.data == data[lo..]
    modifies r, b
    ensures err == None <==> |data| >= hi
    ensures err == None ==> b[..hi] == data[..hi] && r.data == data[hi..]
    ensures err.Some? ==> err.value.Failed?
  {
    var t := r.ReadFull(hi - lo);
    if t.Short? {
      return Some(Failed(t.error));
    }
    var n := CopyAt(b, lo, t.data);
    assert b[..][lo..hi] == b[lo..lo + n];
    Joined(data, b[..], lo, hi);
    err := None;
  }

  lemma Joined(data: seq<byte>, b: seq<byte>, lo: nat, hi: nat)
    requires lo <= hi <= |data| && hi <= |b| && b[..lo] == data[..lo] && b[lo..hi] == data[lo..][..hi - lo]
    ensures b[..hi] == data[..hi] && data[lo..][hi - lo..] == data[hi..]
  {
    assert b[..hi] == b[..lo] + b[lo..hi] && data[..hi] == data[..lo] + data[lo..][..hi - lo];
  }

  // What SplitAddr takes, by the length it works out.
  lemma SplitByLength(data: seq<byte>, n: nat)
    requires |data| >= 1
    requires data[0] == ATYP_DOMAIN_NAME ==> |data| >= 2 && n == 4 + data[1] as int
    requires data[0] == ATYP_IPV4 ==> n == 7
    requires data[0] == ATYP_IPV6 ==> n == 19
    requires Supported(data[0])
    ensures SplitAddr(data) == if |data| < n then None else Some(data[..n])
  {
  }

  // It reads exactly the address SplitAddr would take off the front of the stream and leaves the rest
  // unread; it fails exactly if there is none.
  method ReadAddr(r: Wire, b: array<byte>) returns (addr: seq<byte>, err: Option<ReadError>)
    modifies r, b
    ensures b.Length < MAX_ADDR_LEN ==> err == Some(ShortBuffer) && r.data == old(r.data) && b[..] == old(b[..])
    ensures b.Length >= MAX_ADDR_LEN ==> (err == None <==> SplitAddr(old(r.data)).Some?)
    ensures err == None ==>
            SplitAddr(old(r.data)) == Some(addr) && r.data == old(r.data)[|addr|..] && addr == b[..|addr|]
    ensures b.Length >= MAX_ADDR_LEN ==>
            (err == Some(NotSupported) <==> old(r.data) != [] && !Supported(old(r.data)[0]))
  {
    addr := [];
    if b.Length < MAX_ADDR_LEN {
      return [], Some(ShortBuffer);
    }
    ghost var data := r.data;
    assert data[0..] == data;
    err := ReadOn(r, b, 0, 1, data);
    if err != None {
      return;
    }
    assert b[0] == b[..1][0] == data[0];
    var n: nat, read := 0, 1;
    if b[0] == ATYP_DOMAIN_NAME {
      err := ReadOn(r, b, 1, 2, data);
      if err != None {
        return;
      }
      assert b[0] == b[..2][0] == data[0];
      assert b[1] == b[..2][1] == data[1];
      read, n := 2, 4 + b[1] as int;
    } else if b[0] == ATYP_IPV4 {
      n := 1 + 4 + 2;
    } else if b[0] == ATYP_IPV6 {
      n := 1 + 16 + 2;
    } else {
      return [], Some(NotSupported);
    }
    SplitByLength(data, n);
    hide SplitAddr;
    err := ReadOn(r, b, read, n, data);
    addr := b[..n];
  }

  // ----- UDP packets -----

  datatype PacketError = TooShort | ReservedNotZero | Fragmented | BadHeader | InvalidAddress

  // An address, a payload and an error, as the source gives them; None stands for nil.
  datatype Packet = Packet(addr: Option<seq<byte>>, payload: seq<byte>, error: Option<PacketError>)

  function DecodeUDPPacket(packet: seq<byte>): Packet {
    if |packet| < 5 then Packet(None, [], Some(TooShort))
    else if packet[..2] != [0, 0] then Packet(None, [], Some(ReservedNotZero))
    else if packet[2] != 0 then Packet(None, [], Some(Fragmented))
    else
      match SplitAddr(packet[3..])
      case None => Packet(None, packet[3..], Some(BadHeader))
      case Some(addr) => Packet(Some(addr), packet[3 + |addr|..], None)
  }

  function EncodeUDPPacket(addr: Option<seq<byte>>, payload: seq<byte>): (seq<byte>, Option<PacketError>) {
    match addr
    case None => ([], Some(InvalidAddress))
    case Some(a) => ([0, 0, 0] + a + payload, None)
  }

  // Decoding inverts encoding, and whatever decodes without an error is what encoding gives.
  lemma PacketRoundTrip(a: Address, payload: seq<byte>)
    requires a.Valid()
    ensures DecodeUDPPacket(EncodeUDPPacket(Some(Printed(a)), payload).0) == Packet(Some(Printed(a)), payload, None)
  {
    var packet := EncodeUDPPacket(Some(Printed(a)), payload).0;
    SplitTakesPrinted(a, payload);
    assert packet[..2] == [0, 0] && packet[3..] == Printed(a) + payload;
    assert packet[3 + |Printed(a)|..] == payload;
  }

  lemma DecodedIsEncoded(packet: seq<byte>) returns (a: Address)
    ensures var d := DecodeUDPPacket(packet);
            d.error == None ==>
              a.Valid() && d.addr == Some(Printed(a)) && EncodeUDPPacket(d.addr, d.payload) == (packet, None)
  {
    var d := DecodeUDPPacket(packet);
    a := Domain([], 0);
    if d.error == None {
      a := SplitGivesPrinted(packet[3..]);
      hide Printed, SplitAddr;
      var p := Printed(a);
      assert packet[3..][..|p|] == p;
      assert packet == [0, 0, 0] + packet[3..][..|p|] + packet[3 + |p|..];
    }
  }

  // ----- metadata -----

  datatype Metadata = Metadata(host: seq<byte>, dstIP: Option<seq<byte>>, dstPort: uint16)
  {
    function AddrType(): byte {
      if host != [] || dstIP == None then ATYP_DOMAIN_NAME
      else if Net.To4(dstIP.value).Some? then ATYP_IPV4
      else ATYP_IPV6
    }
  }

  function To16(ip: seq<byte>): seq<byte> {
    if |ip| == 16 then ip
    else if |ip| == 4 then seq(10, _ => 0) + [0xff, 0xff] + ip
    else []
  }

  // The address the metadata stands for: none if the host is too long for its length byte, or the IP is
  // neither of IPv4 nor of IPv6.
  function AddressOf(m: Metadata): (a: Option<Address>)
    ensures a.Some? ==> a.value.Valid()
  {
    if m.AddrType() == ATYP_DOMAIN_NAME then
      if |m.host| < 0x100 then Some(Domain(m.host, m.dstPort)) else None
    else
      match Net.To4(m.dstIP.value)
      case Some(ip) => Some(IPv4(ip, m.dstPort))
      case None => if |m.dstIP.value| == 16 then Some(IPv6(m.dstIP.value, m.dstPort)) else None
  }

  // That address, printed.  Where there is none, the length of the host is cut to a byte, or nothing
  // stands for the IP.
  function Serialized(m: Metadata): seq<byte> {
    match AddressOf(m)
    case Some(a) => Printed(a)
    case None =>
      if m.AddrType() == ATYP_DOMAIN_NAME then [ATYP_DOMAIN_NAME, |m.host| % 0x100] + m.host + PutBE16(m.dstPort)
      else [ATYP_IPV6] + PutBE16(m.dstPort)
  }

  // IPs of another length than Go's two
  predicate Malformed(m: Metadata) {
    m.AddrType() == ATYP_IPV6 && |m.dstIP.value| != 16
  }

  lemma SerializedIsAddress(m: Metadata)
    ensures SplitAddr(Serialized(m)) == Some(Serialized(m)) <==> AddressOf(m).Some?
    ensures SplitAddr(Serialized(m)).Some? <==> !Malformed(m)
  {
    var b := Serialized(m);
    match AddressOf(m)
    case Some(a) =>
      SplitTakesPrinted(a, []);
      assert b + [] == b;
    case None =>
      if m.AddrType() == ATYP_DOMAIN_NAME {
        assert |b| == 4 + |m.host| && b[0] == ATYP_DOMAIN_NAME && b[1] == |m.host| % 0x100;
      } else {
        assert |b| == 3 && b[0] == ATYP_IPV6;
      }
  }

  // It appends by address type, and gets the printed form of the address the metadata stands for: exactly
  // then is all of it an address.
  method SerializesSocksAddr(m: Metadata) returns (buf: seq<byte>)
    ensures AddressOf(m).Some? ==> buf == Printed(AddressOf(m).value)
    ensures SplitAddr(buf) == Some(buf) <==> AddressOf(m).Some?
    ensures SplitAddr(buf).Some? <==> !Malformed(m)
    ensures buf == Serialized(m)
  {
    SerializedIsAddress(m);
    hide SplitAddr, PutBE16;
    var addrType := m.AddrType();
    buf := [addrType];
    if addrType == ATYP_DOMAIN_NAME {
      buf := buf + [|m.host| % 0x100];
      assert buf == [ATYP_DOMAIN_NAME, |m.host| % 0x100];
      buf := buf + m.host;
    } else if addrType == ATYP_IPV4 {
      buf := buf + Net.To4(m.dstIP.value).value;
    } else {
      buf := buf + To16(m.dstIP.value);
      assert [ATYP_IPV6] + [] == [ATYP_IPV6];
    }
    buf := buf + PutBE16(m.dstPort);
  }

  const DOT: byte := 46

  function TrimDots(h: seq<byte>): (t: seq<byte>)
    ensures t <= h && (t == h <==> h == [] || h[|h| - 1] != DOT)
    ensures (t == [] || t[|t| - 1] != DOT) && forall i :: |t| <= i < |h| ==> h[i] == DOT
  {
    if h != [] && h[|h| - 1] == DOT then TrimDots(h[..|h| - 1]) else h
  }

  // A byte plus a constant, which wraps around in the source
  function Wrap(x: nat): (r: byte)
    ensures x < 0x200 ==> r == if x < 0x100 then x else x - 0x100
  {
    x % 0x100
  }

  function Port(hi: byte, lo: byte): uint16 {
    (hi as int) * 0x100 + lo as int
  }

  datatype ParseResult = Parsed(m: Metadata) | Panics

  // parseSocksAddr, on any bytes.  The indices after a host name are sums of bytes; an index beyond the
  // end, or a slice that ends before it starts, is a run-time panic.
  function Parse(target: seq<byte>): ParseResult {
    if target == [] then Panics
    else if target[0] == ATYP_DOMAIN_NAME then
      if |target| < 2 then Panics
      else
        var end := Wrap(2 + target[1] as int);
        var low := Wrap(end as int + 1);
        if end < 2 || end >= |target| || low >= |target| then Panics
        else Parsed(Metadata(TrimDots(target[2..end]), None, Port(target[end], target[low])))
    else if target[0] == ATYP_IPV4 then
      if |target| < 7 then Panics else Parsed(Metadata([], Some(target[1..5]), Port(target[5], target[6])))
    else if target[0] == ATYP_IPV6 then
      if |target| < 19 then Panics else Parsed(Metadata([], Some(target[1..17]), Port(target[17], target[18])))
    else Parsed(Metadata([], None, 0))
  }

  // On any bytes: panics, on too few of them or a host of 254 or 255; else what is parsed, the port of a host
  // of 253 bytes with a wrong low byte.
  lemma ParsesExactly(t: seq<byte>)
    ensures Parse(t) == Panics <==>
            || t == [] || (t[0] == 1 && |t| < 7) || (t[0] == 4 && |t| < 19)
            || (t[0] == 3 && (|t| < 2 || t[1] >= 254 || |t| < if t[1] <= 252 then 4 + t[1] as int else 256))
    ensures Parse(t) != Panics ==>
            var m := Parse(t).m;
            && (t[0] == 1 ==> m == Metadata([], Some(t[1..5]), t[5] as int * 0x100 + t[6] as int))
            && (t[0] == 4 ==> m == Metadata([], Some(t[1..17]), t[17] as int * 0x100 + t[18] as int))
            && (t[0] == 3 ==>
                  var n := t[1] as int;
                  m == Metadata(TrimDots(t[2..2 + n]), None,
                                t[2 + n] as int * 0x100 + if n == 253 then 3 else t[3 + n] as int))
            && (t[0] !in {1, 3, 4} ==> m == Metadata([], None, 0))
  {
  }

  // What an address can hold of metadata: the host, or else the IP in its shorter form; the port.
  function Canonical(m: Metadata): Metadata {
    if m.AddrType() == ATYP_DOMAIN_NAME then m.(dstIP := None)
    else m.(dstIP := Some(if Net.To4(m.dstIP.value).Some? then Net.To4(m.dstIP.value).value else m.dstIP.value))
  }

  // A host survives if it is not too long for the byte-sized indices and does not end in a dot; at 253
  // bytes the port's low byte is read from the first byte of the address, which is 3.  An IP survives if
  // it is one.
  predicate Survives(m: Metadata) {
    if m.AddrType() == ATYP_DOMAIN_NAME then
      (|m.host| <= 252 || (|m.host| == 253 && m.dstPort % 0x100 == 3)) && TrimDots(m.host) == m.host
    else !Malformed(m)
  }

  // The parser panics if and only if the host's length, as a byte, is 254 or 255, or the IP is none.
  predicate Breaks(m: Metadata) {
    if m.AddrType() == ATYP_DOMAIN_NAME then |m.host| % 0x100 >= 254 else Malformed(m)
  }

  // Parsing inverts serializing if and only if the host, or the IP, survives; and when it panics.
  lemma MetadataRoundTrip(m: Metadata)
    ensures Parse(Serialized(m)) == Parsed(Canonical(m)) <==> Survives(m)
    ensures Parse(Serialized(m)) == Panics <==> Breaks(m)
  {
    if m.AddrType() == ATYP_DOMAIN_NAME {
      DomainRoundTrip(m);
    } else {
      IPRoundTrip(m);
    }
  }

  lemma IPRoundTrip(m: Metadata)
    requires m.AddrType() != ATYP_DOMAIN_NAME
    ensures Parse(Serialized(m)) == if Malformed(m) then Panics else Parsed(Canonical(m))
  {
    hide PutBE16, Port;
    LowByte(m.dstPort);
    var b, p := Serialized(m), PutBE16(m.dstPort);
    if m.AddrType() == ATYP_IPV4 {
      assert b[1..5] == Net.To4(m.dstIP.value).value && b[5] == p[0] && b[6] == p[1];
    } else if !Malformed(m) {
      assert b[1..17] == m.dstIP.value && b[17] == p[0] && b[18] == p[1];
    }
  }

  lemma DomainRoundTrip(m: Metadata)
    requires m.AddrType() == ATYP_DOMAIN_NAME
    ensures Parse(Serialized(m)) == Parsed(Canonical(m)) <==> Survives(m)
    ensures Parse(Serialized(m)) == Panics <==> Breaks(m)
  {
    hide TrimDots, PutBE16, Port, Parse;
    var n, p := |m.host|, PutBE16(m.dstPort);
    LowByte(m.dstPort);
    assert Serialized(m) == [ATYP_DOMAIN_NAME, n % 0x100] + m.host + p;
    if n <= 253 {
      assert n % 0x100 == n;
      ParseHost(m.host, n, p);
    } else {
      ParseCut(m.host, p);
    }
  }

  // A longer host is found as its first bytes, or not at all.
  lemma ParseCut(host: seq<byte>, p: seq<byte>)
    requires |host| > 253 && |p| == 2
    ensures var r := Parse([ATYP_DOMAIN_NAME, |host| % 0x100] + host + p);
            (r == Panics <==> |host| % 0x100 >= 254) && (r.Parsed? ==> |r.m.host| <= 253)
  {
    hide TrimDots, Port, Wrap;
    HostLayout([ATYP_DOMAIN_NAME, |host| % 0x100], host, p);
  }

  lemma ParseAt(b: seq<byte>, n: nat)
    requires n <= 253 && |b| == 4 + n && b[0] == ATYP_DOMAIN_NAME && b[1] == n
    ensures Parse(b) == Parsed(Metadata(TrimDots(b[2..2 + n]), None, Port(b[2 + n], if n == 253 then 3 else b[3 + n])))
  {
    hide TrimDots, Port, Wrap;
  }

  lemma ParseHost(host: seq<byte>, n: byte, p: seq<byte>)
    requires |host| == n <= 253 && |p| == 2
    ensures var b := [ATYP_DOMAIN_NAME, n] + host + p;
            Parse(b) == Parsed(Metadata(TrimDots(host), None, Port(p[0], if n == 253 then 3 else p[1])))
  {
    hide TrimDots, Port, Parse;
    HostLayout([ATYP_DOMAIN_NAME, n], host, p);
    ParseAt([ATYP_DOMAIN_NAME, n] + host + p, n);
  }

  lemma HostLayout(head: seq<byte>, host: seq<byte>, p: seq<byte>)
    requires |head| == 2 && |p| == 2
    ensures var b, n := head + host + p, |host|;
            |b| == 4 + n && b[0] == head[0] && b[1] == head[1] && b[2..2 + n] == host && b[2 + n] == p[0]
            && b[3 + n] == p[1]
  {
  }

  lemma LowByte(v: uint16)
    ensures var p := PutBE16(v); |p| == 2 && Port(p[0], p[1]) == v && (Port(p[0], 3) == v <==> v % 0x100 == 3)
  {
  }
}
