/** The SOCKS5 UDP datagram of section 7 of RFC 1928, and its passage through target text. */
module UdpFrame {
  import opened Bytes
  import opened HostPort

  datatype FrameError = TooShort | UnknownAddressType
  datatype Result<+T> = Ok(value: T) | Err(error: FrameError)
  datatype Datagram = Datagram(target: Text, payload: seq<byte>)
  datatype Address = Address(host: Text, end: nat)

  const MAX_INT64: int := 0x7FFF_FFFF_FFFF_FFFF

  // ------------------------------------------------------------------ parsing

  /** The host text of a frame and the index of its port. */
  function ReadAddress(data: seq<byte>): (r: Result<Address>)
    ensures r.Ok? ==> 5 <= r.value.end <= |data|
  {
    if |data| < 7 then Err(TooShort)
    else if data[3] == 1 then
      if |data| < 10 then Err(TooShort) else Ok(Address(Dotted(data[4..8]), 8))
    else if data[3] == 3 then
      var dlen := data[4] as nat;
      if |data| < 5 + dlen + 2 then Err(TooShort) else Ok(Address(data[5..5 + dlen], 5 + dlen))
    else if data[3] == 4 then
      if |data| < 22 then Err(TooShort) else Ok(Address(IPText(data[4..20]), 20))
    else Err(UnknownAddressType)
  }

  function PortAt(data: seq<byte>, i: nat): (p: nat)
    requires i + 2 <= |data|
    ensures p < 65536
  {
    data[i] as nat * 256 + data[i + 1] as nat
  }

  function ParseUDPFrame(data: seq<byte>): (r: Result<Datagram>) {
    match ReadAddress(data)
    case Err(e) => Err(e)
    case Ok(a) =>
      if |data| < a.end + 2 then Err(TooShort)
      else Ok(Datagram(Target(a.host, PortAt(data, a.end)), data[a.end + 2..]))
  }

  // ----------------------------------------------------------------- building

  function DigitPrefix(s: Text): (d: Text)
    ensures AllDigits(d) && d <= s
  {
    if s == [] || !IsDigit(s[0]) then [] else [s[0]] + DigitPrefix(s[1..])
  }

  /** What Sscanf("%d") leaves in an int that was zero. */
  function ScanInt(s: Text): int {
    var signed := s != [] && (s[0] == 43 || s[0] == 45);
    var d := DigitPrefix(if signed then s[1..] else s);
    var n := if signed && s[0] == 45 then 0 - Value(d) else Value(d);
    if -MAX_INT64 - 1 <= n <= MAX_INT64 then n else 0
  }

  function AddressBytes(host: Text, v6: V6Reader): seq<byte> {
    match ParseIP(host, v6)
    case Some(ip) => (match To4(ip) case Some(ip4) => [1] + ip4 case None => [4] + ip)
    case None => [3, |host| % 256] + host
  }

  function PortBytes(port: int): seq<byte> { [port / 256 % 256, port % 256] }

  function SplitOrEmpty(target: Text): HostPort {
    match SplitHostPort(target) case Some(hp) => hp case None => HostPort([], [])
  }

  /** The frame buildUDPFrame appends together. */
  function FrameOf(target: Text, payload: seq<byte>, v6: V6Reader): seq<byte> {
    var hp := SplitOrEmpty(target);
    [0, 0, 0] + AddressBytes(hp.host, v6) + PortBytes(ScanInt(hp.port)) + payload
  }

  method BuildUDPFrame(target: Text, payload: seq<byte>, v6: V6Reader) returns (frame: seq<byte>)
    ensures frame == FrameOf(target, payload, v6)
  {
    hide ScanInt, SplitOrEmpty, PortBytes;
    var hp := SplitOrEmpty(target);
    var port := ScanInt(hp.port);
    var ip := ParseIP(hp.host, v6);
    frame := [0, 0, 0];
    if ip.Some? && To4(ip.value).Some? {
      frame := frame + [1];
      frame := frame + To4(ip.value).value;
    } else if ip.Some? {
      frame := frame + [4];
      frame := frame + ip.value;
    } else {
      frame := frame + [3];
      frame := frame + [|hp.host| % 256];
      frame := frame + hp.host;
    }
    assert frame == [0, 0, 0] + AddressBytes(hp.host, v6);
    frame := frame + PortBytes(port);
    frame := frame + payload;
  }

  /** The layout of section 7 of RFC 1928, whatever the reserved and fragment bytes are: the
      address, the port in network order, and the data. */
  lemma ReadsLayout(head: seq<byte>, ip: Octets4, domain: Text, ip16: Octets16, hi: byte, lo: byte, data: seq<byte>)
    requires |head| == 3 && |domain| < 256
    ensures ParseUDPFrame(head + [1] + ip + [hi, lo] + data)
            == Ok(Datagram(Dotted(ip) + [COLON] + Decimal(256 * hi as nat + lo as nat), data))
    ensures ParseUDPFrame(head + [3, |domain|] + domain + [hi, lo] + data)
            == Ok(Datagram(domain + [COLON] + Decimal(256 * hi as nat + lo as nat), data))
    ensures ParseUDPFrame(head + [4] + ip16 + [hi, lo] + data)
            == Ok(Datagram(IPText(ip16) + [COLON] + Decimal(256 * hi as nat + lo as nat), data))
  {
    ReadsLayoutV4(head, ip, hi, lo, data);
    ReadsLayoutDomain(head, domain, hi, lo, data);
    ReadsLayoutV6(head, ip16, hi, lo, data);
  }

  /** An address as RFC 1928 lays it out: type 1 with four octets, type 3 with a length and that
      many bytes, type 4 with sixteen. */
  predicate IsAddress(a: seq<byte>) {
    || (|a| == 5 && a[0] == 1)
    || (|a| >= 2 && a[0] == 3 && |a| - 2 == a[1])
    || (|a| == 17 && a[0] == 4)
  }

  predicate LaidOut(f: seq<byte>, address: seq<byte>, port: seq<byte>, data: seq<byte>) {
    |f| >= 3 && IsAddress(address) && |port| == 2 && f == f[..3] + address + port + data
  }

  /** Nothing but frames laid out in one of these ways parses, and all of those do. */
  lemma ParsesExactly(f: seq<byte>)
    ensures ParseUDPFrame(f).Ok? <==> exists address, port, data :: LaidOut(f, address, port, data)
  {
    if ParseUDPFrame(f).Ok? {
      ParsedIsLaidOut(f);
    }
    forall address, port, data | LaidOut(f, address, port, data)
      ensures ParseUDPFrame(f).Ok?
    {
      LaidOutParses(f, address, port, data);
    }
  }

  lemma ParsedIsLaidOut(f: seq<byte>)
    requires ParseUDPFrame(f).Ok?
    ensures var end := ReadAddress(f).value.end; LaidOut(f, f[3..end], f[end..end + 2], f[end + 2..])
  {
    var end := ReadAddress(f).value.end;
    assert f == f[..3] + f[3..end] + f[end..end + 2] + f[end + 2..];
  }

  lemma LaidOutParses(f: seq<byte>, address: seq<byte>, port: seq<byte>, data: seq<byte>)
    requires LaidOut(f, address, port, data)
    ensures ParseUDPFrame(f).Ok?
  {
    assert f[3..3 + |address|] == address;
    assert f[3] == address[0] && f[4] == address[1];
  }

  lemma ReadsLayoutV4(head: seq<byte>, ip: Octets4, hi: byte, lo: byte, data: seq<byte>)
    requires |head| == 3
    ensures ParseUDPFrame(head + [1] + ip + [hi, lo] + data)
            == Ok(Datagram(Dotted(ip) + [COLON] + Decimal(256 * hi as nat + lo as nat), data))
  {
    hide Dotted, Decimal;
    var f := head + [1] + ip + [hi, lo] + data;
    assert f[3] == 1 && f[4..8] == ip && f[8] == hi && f[9] == lo && f[10..] == data;
  }

  lemma ReadsLayoutV6(head: seq<byte>, ip: Octets16, hi: byte, lo: byte, data: seq<byte>)
    requires |head| == 3
    ensures ParseUDPFrame(head + [4] + ip + [hi, lo] + data)
            == Ok(Datagram(IPText(ip) + [COLON] + Decimal(256 * hi as nat + lo as nat), data))
  {
    hide IPText, Dotted, Decimal;
    var f := head + [4] + ip + [hi, lo] + data;
    assert f[3] == 4 && f[4..20] == ip && f[20] == hi && f[21] == lo && f[22..] == data;
  }

  lemma ReadsLayoutDomain(head: seq<byte>, domain: Text, hi: byte, lo: byte, data: seq<byte>)
    requires |head| == 3 && |domain| < 256
    ensures ParseUDPFrame(head + [3, |domain|] + domain + [hi, lo] + data)
            == Ok(Datagram(domain + [COLON] + Decimal(256 * hi as nat + lo as nat), data))
  {
    hide Decimal;
    var n := |domain|;
    var f := head + [3, n] + domain + [hi, lo] + data;
    assert f[3] == 3 && f[4] == n && f[5..5 + n] == domain;
    assert f[5 + n] == hi && f[6 + n] == lo && f[7 + n..] == data;
  }

  // ------------------------------------------------------------- port inverse

  lemma {:induction false} DigitPrefixOfDigits(s: Text)
    requires AllDigits(s)
    ensures DigitPrefix(s) == s
  {
    if s != [] {
      assert IsDigit(s[0]);
      DigitPrefixOfDigits(s[1..]);
    }
  }

  /** Every port a frame can carry is read back from its decimal text. */
  lemma PortInverse(port: nat)
    requires port < 65536
    ensures ScanInt(Decimal(port)) == port
    ensures PortAt(PortBytes(port), 0) == port
  {
    PortBytesInverse(port);
    ValueOfDecimal(port);
    ScanOfDigits(Decimal(port));
  }

  lemma PortBytesInverse(port: nat)
    requires port < 65536
    ensures PortAt(PortBytes(port), 0) == port
  {
  }

  lemma ScanOfDigits(s: Text)
    requires s != [] && AllDigits(s) && Value(s) <= MAX_INT64
    ensures ScanInt(s) == Value(s)
  {
    assert IsDigit(s[0]);
    DigitPrefixOfDigits(s);
  }

  lemma TargetInjective(h1: Text, p1: nat, h2: Text, p2: nat)
    requires Target(h1, p1) == Target(h2, p2)
    ensures h1 == h2
  {
    LastColonOfTarget(h1, p1);
    LastColonOfTarget(h2, p2);
    assert Target(h1, p1)[..|h1|] == h1 && Target(h2, p2)[..|h2|] == h2;
  }

  // --------------------------------------------------------------- round trip

  lemma ParseBuiltV4(ip: Octets4, port: nat, q: seq<byte>)
    requires port < 65536
    ensures ParseUDPFrame([0, 0, 0] + ([1] + ip) + PortBytes(port) + q) == Ok(Datagram(Target(Dotted(ip), port), q))
  {
    var f := [0, 0, 0] + ([1] + ip) + PortBytes(port) + q;
    PortInverse(port);
    assert f[4..8] == ip && f[8..10] == PortBytes(port) && f[10..] == q;
    assert PortAt(f, 8) == PortAt(f[8..10], 0);
  }

  lemma ParseBuiltV6(ip: Octets16, port: nat, q: seq<byte>)
    requires port < 65536
    ensures ParseUDPFrame([0, 0, 0] + ([4] + ip) + PortBytes(port) + q) == Ok(Datagram(Target(IPText(ip), port), q))
  {
    hide IPText, Dotted, Target;
    var f := [0, 0, 0] + ([4] + ip) + PortBytes(port) + q;
    PortInverse(port);
    assert f[4..20] == ip && f[20..22] == PortBytes(port) && f[22..] == q;
    assert PortAt(f, 20) == PortAt(f[20..22], 0);
  }

  lemma ParseBuiltDomain(host: Text, port: nat, q: seq<byte>)
    requires port < 65536 && |host| <= 255
    ensures ParseUDPFrame([0, 0, 0] + ([3, |host| % 256] + host) + PortBytes(port) + q)
            == Ok(Datagram(Target(host, port), q))
  {
    var n := |host|;
    var f := [0, 0, 0] + ([3, n % 256] + host) + PortBytes(port) + q;
    PortInverse(port);
    DomainFrameParts(host, PortBytes(port), q);
    PortAtSlice(f, 5 + n);
    hide PortBytes, Target, PortAt;
  }

  lemma PortAtSlice(f: seq<byte>, i: nat)
    requires i + 2 <= |f|
    ensures PortAt(f, i) == PortAt(f[i..i + 2], 0)
  {
  }

  lemma DomainFrameParts(host: Text, p: seq<byte>, q: seq<byte>)
    requires |p| == 2 && |host| <= 255
    ensures var n, f := |host|, [0, 0, 0] + ([3, |host| % 256] + host) + p + q;
            && |f| >= 7 + n && f[3] == 3 && f[4] == n
            && f[5..5 + n] == host && f[5 + n..7 + n] == p && f[7 + n..] == q
  {
    var n := |host|;
    var head := [0, 0, 0] + ([3, n % 256] + host);
    assert |head| == 5 + n && head[5..] == host && head[3] == 3 && head[4] == n;
  }

  /** A length that does not fit its byte cuts the host short. */
  lemma ParseBuiltLongDomain(host: Text, port: nat, q: seq<byte>)
    requires port < 65536 && |host| > 255
    ensures var r := ParseUDPFrame([0, 0, 0] + ([3, |host| % 256] + host) + PortBytes(port) + q);
            r.Ok? && exists h, p: nat :: |h| < |host| && r.value.target == Target(h, p)
  {
    var n := |host| % 256;
    var f := [0, 0, 0] + ([3, n] + host) + PortBytes(port) + q;
    assert f[4] == n && |f| >= 5 + n + 2;
    assert ParseUDPFrame(f).value.target == Target(f[5..5 + n], PortAt(f, 5 + n));
  }

  /** What a built frame parses to: the address that the host text was turned into. */
  lemma ParseBuilt(host: Text, port: nat, q: seq<byte>, v6: V6Reader)
    requires port < 65536
    ensures var r := ParseUDPFrame([0, 0, 0] + AddressBytes(host, v6) + PortBytes(port) + q);
            match ParseIP(host, v6)
            case Some(ip) => r == Ok(Datagram(Target(IPText(ip), port), q))
            case None =>
              if |host| <= 255 then r == Ok(Datagram(Target(host, port), q))
              else r.Ok? && exists h, p: nat :: |h| < |host| && r.value.target == Target(h, p)
  {
    match ParseIP(host, v6)
    case Some(ip) =>
      if To4(ip).Some? {
        ParseBuiltV4(To4(ip).value, port, q);
      } else {
        ParseBuiltV6(ip, port, q);
      }
    case None =>
      if |host| <= 255 {
        ParseBuiltDomain(host, port, q);
      } else {
        ParseBuiltLongDomain(host, port, q);
      }
  }

  /** The codec law on every host text: printing a datagram for "host:port" and parsing it
      gives the datagram back exactly when the host is at most 255 bytes long and has none of
      ':', '[' and ']' in it. */
  lemma RoundTripExact(host: Text, port: nat, q: seq<byte>, v6: V6Reader)
    requires port < 65536
    ensures ParseUDPFrame(FrameOf(Target(host, port), q, v6)) == Ok(Datagram(Target(host, port), q))
            <==> Plain(host) && |host| <= 255
  {
    SplitOfTarget(host, port);
    if Plain(host) {
      PlainRoundTrip(host, port, q, v6);
    } else if Bracketed(host) {
      NotBracketedAgain(host, port, q, v6);
    } else {
      ParseBuilt([], 0, q, v6);
      assert ParseIP([], v6) == None && ScanInt([]) == 0;
      LastColonOfTarget([], 0);
      LastColonOfTarget(host, port);
    }
  }

  lemma PlainRoundTrip(host: Text, port: nat, q: seq<byte>, v6: V6Reader)
    requires Plain(host) && port < 65536
    ensures ParseUDPFrame(FrameOf(Target(host, port), q, v6)) == Ok(Datagram(Target(host, port), q)) <==> |host| <= 255
  {
    SplitOfTarget(host, port);
    PortInverse(port);
    ParseBuilt(host, port, q, v6);
    match ParseDotted(host)
    case Some(ip) =>
      DottedInverse(host, ip);
      DottedIsPlain(ip);
      assert To4(Mapped(ip)) == Some(ip);
    case None =>
      if |host| > 255 {
        var r := ParseUDPFrame(FrameOf(Target(host, port), q, v6));
        var h, p: nat :| |h| < |host| && r.value.target == Target(h, p);
        LastColonOfTarget(h, p);
        LastColonOfTarget(host, port);
      }
  }

  lemma NotBracketedAgain(host: Text, port: nat, q: seq<byte>, v6: V6Reader)
    requires Bracketed(host) && port < 65536
    ensures ParseUDPFrame(FrameOf(Target(host, port), q, v6)) != Ok(Datagram(Target(host, port), q))
  {
    var t, x := Target(host, port), host[1..|host| - 1];
    var r := ParseUDPFrame(FrameOf(t, q, v6));
    SplitOfTarget(host, port);
    PortInverse(port);
    ParseBuilt(x, port, q, v6);
    if r.Ok? && r.value.target == t {
      match ParseIP(x, v6)
      case Some(ip) =>
        TargetInjective(IPText(ip), port, host, port);
        if To4(ip).Some? { DottedIsPlain(To4(ip).value); } else { V6TextNotSplit(ip, port); }
        assert false;
      case None =>
        if |x| <= 255 {
          TargetInjective(x, port, host, port);
        } else {
          var h, p: nat :| |h| < |x| && r.value.target == Target(h, p);
          TargetInjective(h, p, host, port);
        }
        assert false;
    }
  }

  /** The law on every frame that parses: the reply built for its target, with any payload,
      carries the same target exactly when the host the frame names is free of ':', '[' and ']'. */
  lemma FrameRoundTrip(f: seq<byte>, q: seq<byte>, v6: V6Reader)
    requires ParseUDPFrame(f).Ok?
    ensures var t := ParseUDPFrame(f).value.target;
            ParseUDPFrame(FrameOf(t, q, v6)) == Ok(Datagram(t, q)) <==> Plain(ReadAddress(f).value.host)
  {
    var a := ReadAddress(f).value;
    RoundTripExact(a.host, PortAt(f, a.end), q, v6);
    FramedHostLength(f);
  }

  /** What a frame built for any printed target names: the host that the split returns, an address
      literal in its printed form; host and port are lost when the split fails. */
  lemma BuiltFrameNames(host: Text, port: nat, q: seq<byte>, v6: V6Reader)
    requires port < 65536
    ensures var r, h := ParseUDPFrame(FrameOf(Target(host, port), q, v6)), Unbracketed(host);
            if !Plain(host) && !Bracketed(host) then r == Ok(Datagram(Target([], 0), q))
            else match ParseIP(h, v6)
              case Some(ip) => r == Ok(Datagram(Target(IPText(ip), port), q))
              case None => |h| <= 255 ==> r == Ok(Datagram(Target(h, port), q))
  {
    SplitOfTarget(host, port);
    PortInverse(port);
    if Plain(host) || Bracketed(host) {
      hide AddressBytes, Plain, Bracketed, PortBytes, ParseUDPFrame, Target, SplitHostPort, ParseIP, IPText;
      ParseBuilt(Unbracketed(host), port, q, v6);
    } else {
      assert ScanInt([]) == 0 && ParseIP([], v6) == None;
      hide AddressBytes, Plain, Bracketed, PortBytes, ParseUDPFrame, Target, SplitHostPort, ParseIP, ScanInt;
      ParseBuilt([], 0, q, v6);
    }
  }

  lemma FramedHostLength(f: seq<byte>)
    requires ReadAddress(f).Ok?
    ensures var h := ReadAddress(f).value.host; Plain(h) ==> |h| <= 255
  {
    hide V6Text, Dotted, Plain, Bracketed, Target, SplitHostPort;
    if f[3] == 1 {
      DottedIsPlain(f[4..8]);
    } else if f[3] == 4 {
      if To4(f[4..20]).Some? { DottedIsPlain(f[4..20][12..]); } else { V6TextNotSplit(f[4..20], 0); }
    }
  }

  /** The four octets behind a host text that came from an address of type 1 or 4. */
  lemma FramedOctets(f: seq<byte>)
    requires ReadAddress(f).Ok? && Plain(ReadAddress(f).value.host)
    ensures f[3] == 1 ==> ParseDotted(ReadAddress(f).value.host) == Some(f[4..8])
    ensures f[3] == 4 ==> f[4..16] == MAPPED_PREFIX && ParseDotted(ReadAddress(f).value.host) == Some(f[16..20])
  {
    hide V6Text, Dotted, ParseDotted, Plain, Bracketed;
    var host := ReadAddress(f).value.host;
    if f[3] == 1 {
      DottedInverse(host, f[4..8]);
    } else if f[3] == 4 {
      V6TextNotSplit(f[4..20], 0);
      assert f[4..20][..12] == f[4..16] && f[4..20][12..] == f[16..20];
      DottedInverse(host, f[16..20]);
    }
  }

  /** Rebuilding a parsed frame with its own payload: a domain keeps every byte after the three
      header bytes, and a host spelling an IPv4 address (FramedOctets: address type 1, a mapped
      address of type 4, or a domain spelling one) becomes address type 1 with those octets. */
  lemma RebuildBytes(f: seq<byte>, v6: V6Reader)
    requires ParseUDPFrame(f).Ok? && Plain(ReadAddress(f).value.host)
    ensures var d, a := ParseUDPFrame(f).value, ReadAddress(f).value;
            FrameOf(d.target, d.payload, v6) ==
            match ParseDotted(a.host)
            case None => [0, 0, 0] + f[3..]
            case Some(ip) => [0, 0, 0, 1] + ip + f[a.end..]
  {
    hide AddressBytes, FrameOf, ReadAddress, ParseDotted, Plain, PortAt, Target;
    var a := ReadAddress(f).value;
    RebuiltFrame(f, v6);
    PlainAddressBytes(a.host, v6);
    match ParseDotted(a.host)
    case Some(ip) => assert [0, 0, 0] + ([1] + ip) == [0, 0, 0, 1] + ip;
    case None => RebuiltDomain(f);
  }

  lemma RebuiltDomain(f: seq<byte>)
    requires ReadAddress(f).Ok? && Plain(ReadAddress(f).value.host)
    requires ParseDotted(ReadAddress(f).value.host) == None
    ensures var a := ReadAddress(f).value;
            [0, 0, 0] + ([3, |a.host| % 256] + a.host) + f[a.end..] == [0, 0, 0] + f[3..]
  {
    var a := ReadAddress(f).value;
    FramedOctets(f);
    DomainBytes(f);
    Regroup([0, 0, 0], [3, |a.host| % 256] + a.host, f[a.end..]);
  }

  lemma RebuiltFrame(f: seq<byte>, v6: V6Reader)
    requires ParseUDPFrame(f).Ok? && Plain(ReadAddress(f).value.host)
    ensures var d, a := ParseUDPFrame(f).value, ReadAddress(f).value;
            FrameOf(d.target, d.payload, v6) == [0, 0, 0] + AddressBytes(a.host, v6) + f[a.end..]
  {
    hide AddressBytes, PortBytes, FrameOf, ReadAddress, PortAt, Target;
    var a := ReadAddress(f).value;
    var port, q := PortAt(f, a.end), f[a.end + 2..];
    FrameOfPlain(a.host, port, q, v6);
    Regroup([0, 0, 0] + AddressBytes(a.host, v6), PortBytes(port), q);
    PortAndPayload(f, a.end);
  }

  lemma FrameOfPlain(host: Text, port: nat, q: seq<byte>, v6: V6Reader)
    requires Plain(host) && port < 65536
    ensures FrameOf(Target(host, port), q, v6) == [0, 0, 0] + AddressBytes(host, v6) + PortBytes(port) + q
  {
    SplitOfTarget(host, port);
    PortInverse(port);
  }

  lemma PortAndPayload(f: seq<byte>, i: nat)
    requires i + 2 <= |f|
    ensures f[i..] == PortBytes(PortAt(f, i)) + f[i + 2..]
  {
  }

  lemma Regroup(a: seq<byte>, b: seq<byte>, c: seq<byte>)
    ensures a + b + c == a + (b + c)
  {
  }

  lemma PlainAddressBytes(host: Text, v6: V6Reader)
    requires Plain(host)
    ensures AddressBytes(host, v6) ==
            match ParseDotted(host) case Some(ip) => [1] + ip case None => [3, |host| % 256] + host
  {
    match ParseDotted(host)
    case Some(ip) => assert To4(Mapped(ip)) == Some(ip);
    case None =>
  }

  lemma DomainBytes(f: seq<byte>)
    requires ReadAddress(f).Ok? && f[3] == 3
    ensures var a := ReadAddress(f).value; |a.host| < 256 && f[3..] == [3, |a.host|] + a.host + f[a.end..]
  {
  }

  /** A frame whose sixteen-byte address is not IPv4-mapped yields a target that no split accepts. */
  lemma V6FrameNeverSplits(f: seq<byte>)
    requires ParseUDPFrame(f).Ok? && f[3] == 4 && f[4..16] != MAPPED_PREFIX
    ensures SplitHostPort(ParseUDPFrame(f).value.target) == None
  {
    hide V6Text, Dotted, PortAt, Target, SplitHostPort, Plain, Bracketed;
    assert f[4..20][..12] == f[4..16];
    V6TextNotSplit(f[4..20], PortAt(f, 20));
  }

  /** A frame whose reply names a different target: the domain "[x]". */
  lemma BracketedDomainIsLost(v6: V6Reader)
    ensures var parsed := ParseUDPFrame([0, 0, 0, 3, 3, OPEN, 120, CLOSE, 0, 80]);
            && parsed.Ok?
            && ParseUDPFrame(FrameOf(parsed.value.target, [], v6)) != Ok(Datagram(parsed.value.target, []))
  {
    var f: seq<byte> := [0, 0, 0, 3, 3, OPEN, 120, CLOSE, 0, 80];
    assert f[5..8] == [OPEN, 120, CLOSE];
    assert OPEN in f[5..8];
    FrameRoundTrip(f, [], v6);
  }
}
