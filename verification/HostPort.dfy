/** The target text "host:port" and the address text inside it, as Go's net package reads and prints them. */
module HostPort {
  import opened Bytes

  datatype HostPort = HostPort(host: Text, port: Text)

  /** net.SplitHostPort; None stands for every error it reports. */
  function SplitHostPort(t: Text): Option<HostPort> {
    var i := LastIndex(t, COLON);
    if i < 0 then None
    else if t[0] == OPEN then
      var end := Index(t, CLOSE);
      if end < 0 || end + 1 != i || OPEN in t[1..] || CLOSE in t[end + 1..] then None
      else Some(HostPort(t[1..end], t[i + 1..]))
    else
      if COLON in t[..i] || OPEN in t || CLOSE in t then None
      else Some(HostPort(t[..i], t[i + 1..]))
  }

  /** The target text parseUDPFrame prints. */
  function Target(host: Text, port: nat): Text { host + [COLON] + Decimal(port) }

  predicate Plain(host: Text) { COLON !in host && OPEN !in host && CLOSE !in host }

  /** A pair of square brackets around text without square brackets. */
  predicate Bracketed(host: Text) {
    |host| >= 2 && host[0] == OPEN && host[|host| - 1] == CLOSE
    && OPEN !in host[1..|host| - 1] && CLOSE !in host[1..|host| - 1]
  }

  /** The host that the split returns for a printed target that it accepts. */
  function Unbracketed(host: Text): Text { if Bracketed(host) then host[1..|host| - 1] else host }

  lemma LastColonOfTarget(host: Text, port: nat)
    ensures LastIndex(Target(host, port), COLON) == |host|
  {
    var t := Target(host, port);
    DecimalHasNo(port, COLON);
    assert t[|host| + 1..] == Decimal(port);
    LastIndexIs(t, COLON, |host|);
  }

  /** What the split makes of every printed target: plain hosts come back, one pair of
      brackets is dropped, everything else is rejected. */
  lemma SplitOfTarget(host: Text, port: nat)
    ensures SplitHostPort(Target(host, port)) ==
            if Plain(host) then Some(HostPort(host, Decimal(port)))
            else if Bracketed(host) then Some(HostPort(host[1..|host| - 1], Decimal(port)))
            else None
  {
    var t, n := Target(host, port), |host|;
    LastColonOfTarget(host, port);
    DecimalHasNo(port, COLON);
    DecimalHasNo(port, OPEN);
    DecimalHasNo(port, CLOSE);
    assert t[..n] == host && t[n + 1..] == Decimal(port);
    if t[0] == OPEN {
      assert n > 0 && host[0] == OPEN;
      if Bracketed(host) {
        SplitOfBracketed(host, port);
      } else {
        SplitOfUnbracketed(host, port);
      }
    } else {
      assert Plain(host) <==> COLON !in t[..n] && OPEN !in t && CLOSE !in t;
    }
  }

  predicate NoBrackets(s: Text) { OPEN !in s && CLOSE !in s }

  /** The split on every text at all: it is "host:port" or "[host]:port", with no colon in the
      port nor in an unbracketed host, and no square brackets in either part. */
  lemma SplitExactly(t: Text, hp: HostPort)
    ensures SplitHostPort(t) == Some(hp) <==>
            && COLON !in hp.port && NoBrackets(hp.port) && NoBrackets(hp.host)
            && ((t == hp.host + [COLON] + hp.port && COLON !in hp.host)
                || t == [OPEN] + hp.host + [CLOSE] + [COLON] + hp.port)
  {
    if SplitHostPort(t) == Some(hp) {
      SplitGivesParts(t);
    }
    if COLON !in hp.port && NoBrackets(hp.port) && NoBrackets(hp.host) {
      if t == hp.host + [COLON] + hp.port && COLON !in hp.host {
        SplitOfPlainText(hp.host, hp.port);
      } else if t == [OPEN] + hp.host + [CLOSE] + [COLON] + hp.port {
        SplitOfBracketedText(hp.host, hp.port);
      }
    }
  }

  lemma SplitGivesParts(t: Text)
    requires SplitHostPort(t).Some?
    ensures var hp := SplitHostPort(t).value;
            && COLON !in hp.port && NoBrackets(hp.port) && NoBrackets(hp.host)
            && ((t == hp.host + [COLON] + hp.port && COLON !in hp.host)
                || t == [OPEN] + hp.host + [CLOSE] + [COLON] + hp.port)
  {
    var i := LastIndex(t, COLON);
    if t[0] == OPEN {
      BracketedTextParts(t, i);
    } else {
      assert t == t[..i] + [COLON] + t[i + 1..];
      assert forall c | c in t[..i] :: c in t;
      assert forall c | c in t[i + 1..] :: c in t;
    }
  }

  lemma BracketedTextParts(t: Text, i: nat)
    requires 2 <= i < |t| && t[0] == OPEN && t[i - 1] == CLOSE && t[i] == COLON
    requires OPEN !in t[1..] && CLOSE !in t[..i - 1] && CLOSE !in t[i..]
    ensures t == [OPEN] + t[1..i - 1] + [CLOSE] + [COLON] + t[i + 1..]
    ensures NoBrackets(t[1..i - 1]) && NoBrackets(t[i + 1..])
  {
    assert t[1..] == t[1..i - 1] + [CLOSE] + [COLON] + t[i + 1..];
    assert t[i..] == [COLON] + t[i + 1..];
    assert t[..i - 1] == [OPEN] + t[1..i - 1];
  }

  lemma SplitOfPlainText(host: Text, port: Text)
    requires COLON !in port && NoBrackets(port) && NoBrackets(host) && COLON !in host
    ensures SplitHostPort(host + [COLON] + port) == Some(HostPort(host, port))
  {
    var t := host + [COLON] + port;
    assert t[|host| + 1..] == port && t[..|host|] == host;
    LastIndexIs(t, COLON, |host|);
    assert t[0] in t;
    assert forall c | c in t :: c in host || c == COLON || c in port;
  }

  lemma SplitOfBracketedText(host: Text, port: Text)
    requires COLON !in port && NoBrackets(port) && NoBrackets(host)
    ensures SplitHostPort([OPEN] + host + [CLOSE] + [COLON] + port) == Some(HostPort(host, port))
  {
    var t := [OPEN] + host + [CLOSE] + [COLON] + port;
    assert t[|host| + 3..] == port;
    LastIndexIs(t, COLON, |host| + 2);
    BracketedParts(t, host, port);
  }

  lemma SplitOfBracketed(host: Text, port: nat)
    requires Bracketed(host)
    ensures SplitHostPort(Target(host, port)) == Some(HostPort(host[1..|host| - 1], Decimal(port)))
  {
    var t, n := Target(host, port), |host|;
    LastColonOfTarget(host, port);
    DecimalHasNo(port, OPEN);
    DecimalHasNo(port, CLOSE);
    var x, p := host[1..n - 1], Decimal(port);
    assert t == [OPEN] + x + [CLOSE] + [COLON] + p by {
      assert host == [OPEN] + x + [CLOSE];
    }
    BracketedParts(t, x, p);
  }

  lemma BracketedParts(t: Text, x: Text, p: Text)
    requires t == [OPEN] + x + [CLOSE] + [COLON] + p
    requires OPEN !in x && CLOSE !in x && OPEN !in p && CLOSE !in p
    ensures Index(t, CLOSE) == |x| + 1
    ensures OPEN !in t[1..] && CLOSE !in t[|x| + 2..]
    ensures t[1..|x| + 1] == x && t[|x| + 3..] == p
  {
    assert t[..|x| + 1] == [OPEN] + x;
    IndexIs(t, CLOSE, |x| + 1);
    assert t[1..] == x + [CLOSE] + [COLON] + p;
    assert t[|x| + 2..] == [COLON] + p;
  }

  lemma SplitOfUnbracketed(host: Text, port: nat)
    requires |host| > 0 && host[0] == OPEN && !Bracketed(host)
    ensures SplitHostPort(Target(host, port)) == None
  {
    var t, n := Target(host, port), |host|;
    LastColonOfTarget(host, port);
    var end := Index(t, CLOSE);
    if end + 1 == n {
      var x := host[1..n - 1];
      assert t[..end] == [OPEN] + x;
      assert t[end] == host[n - 1];
      assert forall k | 0 <= k < |x| :: x[k] == t[1..][k];
      assert OPEN in x ==> OPEN in t[1..];
    }
  }

  // ------------------------------------------------------------ IPv4 addresses

  type Octets4 = s: seq<byte> | |s| == 4 witness [0, 0, 0, 0]
  type Octets16 = s: seq<byte> | |s| == 16 witness seq(16, _ => 0 as byte)

  /** Dotted decimal, the IPv4address of section 3.2.2 of RFC 3986. */
  function Dotted(ip: Octets4): Text {
    Join(Fields(ip), DOT)
  }

  function Fields(ip: Octets4): seq<Text> {
    [Decimal(ip[0]), Decimal(ip[1]), Decimal(ip[2]), Decimal(ip[3])]
  }

  /** dec-octet: no leading zero, at most 255. */
  function ParseOctet(s: Text): Option<byte> {
    if Canonical(s) && Value(s) < 256 then Some(Value(s) as byte) else None
  }

  /** The dotted-decimal reading of net.ParseIP. */
  function ParseDotted(s: Text): Option<Octets4> {
    var f := Split(s, DOT);
    if |f| != 4 then None
    else
      match (ParseOctet(f[0]), ParseOctet(f[1]), ParseOctet(f[2]), ParseOctet(f[3]))
      case (Some(a), Some(b), Some(c), Some(d)) => Some([a, b, c, d])
      case _ => None
  }

  lemma OctetInverse(s: Text, b: byte)
    ensures ParseOctet(s) == Some(b) <==> s == Decimal(b)
  {
    ValueOfDecimal(b);
    if Canonical(s) {
      DecimalOfValue(s);
    }
  }

  /** Printing and reading IPv4 text are inverse in both directions. */
  lemma DottedInverse(s: Text, ip: Octets4)
    ensures ParseDotted(s) == Some(ip) <==> s == Dotted(ip)
  {
    var f := Split(s, DOT);
    JoinOfSplit(s, DOT);
    DecimalHasNo(ip[0], DOT);
    DecimalHasNo(ip[1], DOT);
    DecimalHasNo(ip[2], DOT);
    DecimalHasNo(ip[3], DOT);
    SplitOfJoin(Fields(ip), DOT);
    if |f| == 4 {
      var p := Fields(ip);
      OctetInverse(f[0], ip[0]);
      OctetInverse(f[1], ip[1]);
      OctetInverse(f[2], ip[2]);
      OctetInverse(f[3], ip[3]);
      assert f == p <==> f[0] == p[0] && f[1] == p[1] && f[2] == p[2] && f[3] == p[3];
      assert Join(f, DOT) == s;
      if ParseDotted(s).Some? {
        var r := ParseDotted(s).value;
        assert r == ip <==> r[0] == ip[0] && r[1] == ip[1] && r[2] == ip[2] && r[3] == ip[3];
      }
    }
  }

  lemma DecimalLength(b: byte)
    ensures |Decimal(b)| <= 3
  {
    assert b >= 100 ==> Decimal(b) == Decimal(b / 100) + [48 + b / 10 % 10] + [48 + b % 10];
  }

  lemma DottedIsPlain(ip: Octets4)
    ensures Plain(Dotted(ip)) && |Dotted(ip)| <= 15
  {
    var f := Fields(ip);
    DecimalLength(ip[0]);
    DecimalLength(ip[1]);
    DecimalLength(ip[2]);
    DecimalLength(ip[3]);
    assert f[1..][1..] == f[2..] && f[2..][1..] == f[3..];
    assert Join(f[3..], DOT) == f[3];
    assert Join(f[2..], DOT) == f[2] + [DOT] + f[3];
    assert Join(f[1..], DOT) == f[1] + [DOT] + (f[2] + [DOT] + f[3]);
    assert forall c: byte | c in Dotted(ip) :: c == DOT || IsDigit(c) by {
      assert AllDigits(f[0]) && AllDigits(f[1]) && AllDigits(f[2]) && AllDigits(f[3]);
    }
  }

  // ------------------------------------------------------------ IPv6 addresses

  const MAPPED_PREFIX: seq<byte> := [0, 0, 0, 0, 0, 0, 0, 0, 0, 0, 255, 255]

  function Mapped(ip: Octets4): Octets16 { MAPPED_PREFIX + ip }

  /** net.IP.To4 on the sixteen-byte form. */
  function To4(ip: Octets16): Option<Octets4> {
    if ip[..12] == MAPPED_PREFIX then Some(ip[12..]) else None
  }

  /** How net.ParseIP reads text with a colon in it and no zone; a parameter, so that every
      result below holds for whatever IPv6 literals the library accepts. */
  type V6Reader = Text -> Option<Octets16>

  /** net.ParseIP, with an IPv4 address in its mapped sixteen-byte form; no zone is accepted. */
  function ParseIP(host: Text, v6: V6Reader): Option<Octets16> {
    if COLON in host then (if PERCENT in host then None else v6(host))
    else match ParseDotted(host)
      case Some(ip) => Some(Mapped(ip))
      case None => None
  }

  function Group(ip: Octets16, i: nat): nat
    requires i < 8
  {
    ip[2 * i] as nat * 256 + ip[2 * i + 1] as nat
  }

  function ZeroRunEnd(ip: Octets16, i: nat): (j: nat)
    requires i <= 8
    ensures i <= j <= 8
    decreases 8 - i
  {
    if i < 8 && Group(ip, i) == 0 then ZeroRunEnd(ip, i + 1) else i
  }

  /** The first longest run of two or more zero groups among those starting at i or later;
      (8, 8) when there is none. */
  function LongestRun(ip: Octets16, i: nat, best: (nat, nat)): (run: (nat, nat))
    requires i <= 8 && best.0 <= best.1 <= 8
    ensures run.0 <= run.1 <= 8 && (run == best || run.0 + 2 <= run.1)
    decreases 8 - i
  {
    if i == 8 then best
    else
      var j := ZeroRunEnd(ip, i);
      LongestRun(ip, i + 1, if j - i >= 2 && j - i > best.1 - best.0 then (i, j) else best)
  }

  function Hex(n: nat): Text {
    var d: byte := if n % 16 < 10 then 48 + n % 16 else 87 + n % 16;
    if n < 16 then [d] else Hex(n / 16) + [d]
  }

  function Groups(ip: Octets16, i: nat, run: (nat, nat)): Text
    requires i <= 8 && run.0 <= run.1 <= 8 && (run == (8, 8) || run.0 + 2 <= run.1)
    decreases 8 - i
  {
    if i == 8 then []
    else if i == run.0 then
      [COLON, COLON] + (if run.1 == 8 then [] else Hex(Group(ip, run.1)) + Groups(ip, run.1 + 1, run))
    else (if i > 0 then [COLON] else []) + Hex(Group(ip, i)) + Groups(ip, i + 1, run)
  }

  /** netip's text of an IPv6 address that is not IPv4-mapped. */
  function V6Text(ip: Octets16): Text {
    Groups(ip, 0, LongestRun(ip, 0, (8, 8)))
  }

  predicate V6Char(c: byte) { IsDigit(c) || 97 <= c <= 102 || c == COLON }

  lemma {:induction false} HexChars(n: nat)
    ensures forall c | c in Hex(n) :: V6Char(c)
  {
    if n >= 16 {
      HexChars(n / 16);
    }
  }

  lemma {:induction false} GroupsChars(ip: Octets16, i: nat, run: (nat, nat))
    requires i <= 8 && run.0 <= run.1 <= 8 && (run == (8, 8) || run.0 + 2 <= run.1)
    ensures forall c | c in Groups(ip, i, run) :: V6Char(c)
    ensures i < 8 ==> COLON in Groups(ip, i, run) || i == 7
    ensures 0 < i < 8 ==> Groups(ip, i, run)[..1] == [COLON]
    decreases 8 - i
  {
    if i < 8 {
      HexChars(Group(ip, i));
      if i == run.0 {
        if run.1 < 8 {
          HexChars(Group(ip, run.1));
          GroupsChars(ip, run.1 + 1, run);
        }
        assert Groups(ip, i, run)[0] == COLON;
      } else {
        GroupsChars(ip, i + 1, run);
        if i == 0 {
          assert Groups(ip, 1, run)[..1][0] == COLON;
        } else {
          assert Groups(ip, i, run)[0] == COLON;
        }
      }
    }
  }

  /** net.IP.String on four and on sixteen bytes. */
  function IPText(ip: Octets16): Text {
    match To4(ip)
    case Some(v4) => Dotted(v4)
    case None => V6Text(ip)
  }

  /** Unbracketed IPv6 text never survives the split. */
  lemma V6TextNotSplit(ip: Octets16, port: nat)
    ensures !Plain(V6Text(ip)) && !Bracketed(V6Text(ip))
    ensures SplitHostPort(Target(V6Text(ip), port)) == None
  {
    hide Groups, LongestRun, SplitHostPort, Target;
    GroupsChars(ip, 0, LongestRun(ip, 0, (8, 8)));
    SplitOfTarget(V6Text(ip), port);
    assert |V6Text(ip)| > 0 ==> V6Text(ip)[0] in V6Text(ip);
  }
}
