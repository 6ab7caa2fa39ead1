/**
 SOCKS5 addresses and UDP datagrams (sections 5 and 7 of RFC 1928): the datagram parser, the stream
 reader and the encoding they both invert.
 */
module SocksFraming {
  import opened Basics

  function Len(b: byte): nat { b }

  function Port(hi: byte, lo: byte): (p: int)
    ensures 0 <= p < 65536
  {
    Len(hi) * 256 + Len(lo)
  }

  /** The text Go renders for an address is left aside: the host is kept as its bytes. */
  datatype Host = IPv4(ip: seq<byte>) | IPv6(ip: seq<byte>) | Domain(name: seq<byte>)

  predicate ValidHost(h: Host) {
    match h
    case IPv4(ip) => |ip| == 4
    case IPv6(ip) => |ip| == 16
    case Domain(name) => |name| < 256
  }

  /** ATYP ADDR PORT as the RFC lays it out. */
  function Encode(h: Host, port: int): seq<byte>
    requires ValidHost(h) && 0 <= port < 65536
  {
    var p: seq<byte> := [port / 256, port % 256];
    match h
    case IPv4(ip) => [1] + ip + p
    case IPv6(ip) => [4] + ip + p
    case Domain(name) => [3, |name|] + name + p
  }

  // ---------- the datagram parser ----------

  datatype Request = Request(host: Host, port: int, hdr: seq<byte>, payload: seq<byte>)

  /** Host and length of the address field, or None where the datagram is too short or of unknown type. */
  function AddressField(atyp: byte, rest: seq<byte>): Option<(Host, nat)> {
    if atyp == 1 then
      if |rest| < 4 + 2 then None else Some((IPv4(rest[..4]), 4))
    else if atyp == 4 then
      if |rest| < 16 + 2 then None else Some((IPv6(rest[..16]), 16))
    else if atyp == 3 then
      if |rest| < 1 then None
      else if |rest| < 1 + Len(rest[0]) + 2 then None
      else Some((Domain(rest[1..1 + Len(rest[0])]), 1 + Len(rest[0])))
    else None
  }

  function ParseUDPRequest(b: seq<byte>): Option<Request> {
    if |b| < 4 || b[2] != 0 then None else
      var rest := b[4..];
      var f := AddressField(b[3], rest);
      if f.None? then None else
        var (host, n) := f.value;
        Some(Request(host, Port(rest[n], rest[n + 1]), b[3..4 + n + 2], rest[n + 2..]))
  }

  // ---------- the stream reader ----------

  /** What `readSocksAddr` does to the bytes ahead of it: an address and the bytes left, or an error;
      a short read has consumed everything, an unknown type nothing. */
  datatype ReadResult = Read(host: Host, port: int, left: seq<byte>) | Short | Unsupported

  class ByteStream {
    var data: seq<byte>

    constructor (bytes: seq<byte>)
      ensures data == bytes
    {
      data := bytes;
    }

    /** io.ReadFull */
    method ReadFull(n: nat) returns (ok: bool, bytes: seq<byte>)
      modifies this
      ensures ok == (n <= |old(data)|)
      ensures ok ==> bytes == old(data)[..n] && data == old(data)[n..]
      ensures !ok ==> data == []
    {
      if n <= |data| {
        ok, bytes, data := true, data[..n], data[n..];
      } else {
        ok, bytes, data := false, [], [];
      }
    }
  }

  function ReadAddr(data: seq<byte>, atyp: byte): ReadResult {
    if atyp == 1 then
      if |data| < 4 then Short else ReadPort(IPv4(data[..4]), data[4..])
    else if atyp == 4 then
      if |data| < 16 then Short else ReadPort(IPv6(data[..16]), data[16..])
    else if atyp == 3 then
      if |data| < 1 then Short
      else if |data[1..]| < data[0] then Short
      else ReadPort(Domain(data[1..][..data[0]]), data[1..][data[0]..])
    else Unsupported
  }

  function ReadPort(host: Host, data: seq<byte>): ReadResult {
    if |data| < 2 then Short else Read(host, Port(data[0], data[1]), data[2..])
  }

  method ReadSocksAddr(br: ByteStream, atyp: byte) returns (r: ReadResult)
    modifies br
    ensures r == old(ReadAddr(br.data, atyp))
    ensures r.Read? ==> br.data == r.left
    ensures r.Short? ==> br.data == []
    ensures r.Unsupported? ==> br.data == old(br.data)
  {
    var host;
    if atyp == 1 {
      var ok, b := br.ReadFull(4);
      if !ok { return Short; }
      host := IPv4(b);
    } else if atyp == 4 {
      var ok, b := br.ReadFull(16);
      if !ok { return Short; }
      host := IPv6(b);
    } else if atyp == 3 {
      var ok, l := br.ReadFull(1);
      if !ok { return Short; }
      var ok2, b := br.ReadFull(l[0]);
      if !ok2 { return Short; }
      host := Domain(b);
    } else {
      return Unsupported;
    }
    var ok, pb := br.ReadFull(2);
    if !ok { return Short; }
    r := Read(host, Port(pb[0], pb[1]), br.data);
  }

  // ---------- the two agree, and both invert the encoding ----------

  /** On every datagram the parser accepts exactly when FRAG is 0 and the stream reader succeeds on the
      bytes after the type, and then host, port and remaining bytes are the same. */
  lemma ReadersAgree(b: seq<byte>)
    ensures ParseUDPRequest(b).Some? <==> |b| >= 4 && b[2] == 0 && ReadAddr(b[4..], b[3]).Read?
    ensures ParseUDPRequest(b).Some? ==>
      var q := ParseUDPRequest(b).value; var r := ReadAddr(b[4..], b[3]);
      q.host == r.host && q.port == r.port && q.payload == r.left
  {
    if |b| >= 4 && b[3] == 3 && |b| >= 5 {
      var rest := b[4..];
      var l := Len(rest[0]);
      if |rest| >= 1 + l {
        assert rest[1..][..l] == rest[1..1 + l];
        assert rest[1..][l..] == rest[1 + l..];
        if |rest| >= 1 + l + 2 { assert rest[1 + l..][2..] == rest[1 + l + 2..]; }
      }
    }
  }

  /** An accepted datagram is its first three bytes, the header and the payload, and the header is the
      encoding of the host and port reported. */
  lemma ParseSplits(b: seq<byte>)
    requires ParseUDPRequest(b).Some?
    ensures var q := ParseUDPRequest(b).value;
            && b == b[..3] + q.hdr + q.payload
            && ValidHost(q.host) && 0 <= q.port < 65536 && q.hdr == Encode(q.host, q.port)
  {
    var rest := b[4..];
    var (host, n) := AddressField(b[3], rest).value;
    var q := ParseUDPRequest(b).value;
    assert q.hdr == [b[3]] + rest[..n] + [rest[n], rest[n + 1]];
    if b[3] == 3 { assert rest[..n] == [rest[0]] + rest[1..n]; }
  }

  /** A datagram framed with the encoding of any host and port is parsed back to them. */
  lemma EncodeParses(r0: byte, r1: byte, h: Host, port: int, data: seq<byte>)
    requires ValidHost(h) && 0 <= port < 65536
    ensures ParseUDPRequest([r0, r1, 0] + Encode(h, port) + data) ==
            Some(Request(h, port, Encode(h, port), data))
  {
    var enc := Encode(h, port);
    var b := [r0, r1, 0] + enc + data;
    var rest := b[4..];
    assert b[3] == enc[0] && rest == enc[1..] + data;
    EncodedField(h, port, data);
    var n := |enc| - 3;
    assert rest[n] == enc[n + 1] && rest[n + 1] == enc[n + 2];
    assert b[3..4 + n + 2] == enc;
    assert rest[n + 2..] == data;
  }

  /** The address field of an encoding is read back, and the port follows it. */
  lemma EncodedField(h: Host, port: int, data: seq<byte>)
    requires ValidHost(h) && 0 <= port < 65536
    ensures var enc := Encode(h, port);
            && |enc| >= 3 && AddressField(enc[0], enc[1..] + data) == Some((h, |enc| - 3))
            && enc[|enc| - 2] == port / 256 && enc[|enc| - 1] == port % 256
  {
    var enc := Encode(h, port);
    var rest := enc[1..] + data;
    match h
    case IPv4(ip) => assert rest[..4] == ip;
    case IPv6(ip) => assert rest[..16] == ip;
    case Domain(name) =>
      assert enc == [3, |name|] + name + [port / 256, port % 256];
      assert rest[0] == |name|;
      assert rest[1..1 + |name|] == name;
  }

  /** The reply `targetReadLoop` frames with a cached header parses to that header's host and port. */
  lemma ReplyRoundTrip(request: seq<byte>, data: seq<byte>)
    requires ParseUDPRequest(request).Some?
    ensures var q := ParseUDPRequest(request).value;
            ParseUDPRequest([0, 0, 0] + q.hdr + data) == Some(Request(q.host, q.port, q.hdr, data))
  {
    ParseSplits(request);
    var q := ParseUDPRequest(request).value;
    EncodeParses(0, 0, q.host, q.port, data);
  }

  /** Datagrams written out: 10.0.0.1 port 8080, and "ab" port 53. */
  lemma WorkedDatagrams()
    ensures ParseUDPRequest([0, 0, 0, 1, 10, 0, 0, 1, 0x1f, 0x90, 7]) ==
            Some(Request(IPv4([10, 0, 0, 1]), 8080, [1, 10, 0, 0, 1, 0x1f, 0x90], [7]))
    ensures ParseUDPRequest([0, 0, 0, 3, 2, 97, 98, 0, 53]) ==
            Some(Request(Domain([97, 98]), 53, [3, 2, 97, 98, 0, 53], []))
  {
    var v4: seq<byte>, name: seq<byte> := [1, 10, 0, 0, 1, 0x1f, 0x90], [3, 2, 97, 98, 0, 53];
    assert Encode(IPv4([10, 0, 0, 1]), 8080) == v4;
    EncodeParses(0, 0, IPv4([10, 0, 0, 1]), 8080, [7]);
    assert [0, 0, 0] + v4 + [7] == [0, 0, 0, 1, 10, 0, 0, 1, 0x1f, 0x90, 7];
    assert Encode(Domain([97, 98]), 53) == name;
    EncodeParses(0, 0, Domain([97, 98]), 53, []);
    assert [0, 0, 0] + name + [] == [0, 0, 0, 3, 2, 97, 98, 0, 53];
  }

  /** A fragment, an unknown address type and a datagram cut short are refused; every other is accepted. */
  lemma AcceptedIff(b: seq<byte>)
    ensures ParseUDPRequest(b).Some? <==>
            && |b| >= 4 && b[2] == 0
            && (|| (b[3] == 1 && |b| >= 10)
                || (b[3] == 4 && |b| >= 22)
                || (b[3] == 3 && |b| >= 5 && |b| >= 7 + Len(b[4])))
  {
  }
}
