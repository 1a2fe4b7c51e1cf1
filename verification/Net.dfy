// IPv4 addresses as Go's net.IP byte slices, and as 32-bit numbers.
module Net {
  import opened Wrappers
  import opened Bytes

  type IP = seq<byte>

  // net.IP.To4: the 4-byte form of an IPv4 address, None for anything else.
  function To4(ip: IP): (r: Option<IP>)
    ensures r.Some? ==> |r.value| == 4
  {
    if |ip| == 4 then Some(ip)
    else if |ip| == 16 && (forall i :: 0 <= i < 10 ==> ip[i] == 0) && ip[10] == 0xff && ip[11] == 0xff
      then Some(ip[12..])
    else None
  }

  // The 4-byte form of an address written with 16 bytes, and of one with 4
  lemma To4Takes(a: byte, b: byte, c: byte, d: byte)
    ensures To4([0, 0, 0, 0, 0, 0, 0, 0, 0, 0, 0xff, 0xff, a, b, c, d]) == Some([a, b, c, d])
    ensures To4([a, b, c, d]) == Some([a, b, c, d])
    ensures To4([0, 0, 0, 0, 0, 0, 0, 0, 0, 0, 0, 0, a, b, c, d]) == None
  {
  }

  function IPToUint(ip: IP): uint32
    requires |ip| >= 4
  {
    (ip[0] as int) * 0x100_0000 + (ip[1] as int) * 0x1_0000 + (ip[2] as int) * 0x100 + ip[3] as int
  }

  function UintToIP(v: uint32): IP {
    [v / 0x100_0000, v / 0x1_0000 % 0x100, v / 0x100 % 0x100, v % 0x100]
  }

  // Dividing by 256 twice, and three times
  lemma Quotients(v: uint32)
    ensures v / 0x1_0000 == v / 0x100 / 0x100 && v / 0x100_0000 == v / 0x100 / 0x100 / 0x100
  {
  }

  lemma UintRoundTrip(v: uint32)
    ensures |UintToIP(v)| == 4 && IPToUint(UintToIP(v)) == v
  {
    Quotients(v);
    var c: int := v / 0x100;
    var b: int := c / 0x100;
    assert v == c * 0x100 + v % 0x100 && c == b * 0x100 + c % 0x100 && b == b / 0x100 * 0x100 + b % 0x100;
  }

  lemma IPRoundTrip(ip: IP)
    requires |ip| == 4
    ensures UintToIP(IPToUint(ip)) == ip
  {
    var a: int, b: int, c: int := ip[0], ip[1], ip[2];
    var v: int := IPToUint(ip);
    Quotients(v);
    Digit(a * 0x1_0000 + b * 0x100 + c, ip[3]);
    Digit(a * 0x100 + b, ip[2]);
    Digit(a, ip[1]);
  }
}
