/** The server side of the UDP relay: target validation and the request loop of one WebSocket. */
module UdpRelay {
  import opened Bytes
  import opened HostPort
  import opened UdpFrame

  // ------------------------------------------------------------- validateTarget

  predicate LocalOctets(ip: Octets4) { ip[0] == 127 || ip == [0, 0, 0, 0] }

  /** IsLoopback or IsUnspecified. */
  predicate IsLocal(ip: Octets16) {
    match To4(ip)
    case Some(v4) => LocalOctets(v4)
    case None => ip[..15] == seq(15, _ => 0 as byte) && ip[15] <= 1
  }

  /** Case folding as strings.EqualFold sees it against lower-case ASCII without 'k':
      ASCII letters, and the long s (U+017F) for 's'. */
  function Fold(s: Text): Text {
    if s == [] then []
    else if |s| >= 2 && s[0] == 197 && s[1] == 191 then [115] + Fold(s[2..])
    else [if 65 <= s[0] <= 90 then s[0] + 32 else s[0]] + Fold(s[1..])
  }

  const BLOCKED: seq<Text> := [
    [108, 111, 99, 97, 108, 104, 111, 115, 116], // localhost
    [49, 50, 55, 46, 48, 46, 48, 46, 49],        // 127.0.0.1
    [58, 58, 49],                                // ::1
    [48, 46, 48, 46, 48, 46, 48]                 // 0.0.0.0
  ]

  /** No address that the name resolved to is local; a failed lookup allows the name. */
  predicate ResolvesAway(lookup: Option<seq<Text>>, v6: V6Reader) {
    lookup.Some? ==> forall a | a in lookup.value :: ParseIP(a, v6).Some? ==> !IsLocal(ParseIP(a, v6).value)
  }

  predicate Allowed(target: Text, lookup: Option<seq<Text>>, v6: V6Reader) {
    match SplitHostPort(target)
    case None => false
    case Some(hp) =>
      && Fold(hp.host) !in BLOCKED
      && match ParseIP(hp.host, v6)
         case Some(ip) => !IsLocal(ip)
         case None => ResolvesAway(lookup, v6)
  }

  method ValidateTarget(target: Text, lookup: Option<seq<Text>>, v6: V6Reader) returns (ok: bool)
    ensures ok <==> Allowed(target, lookup, v6)
  {
    hide SplitHostPort, ParseIP, IsLocal, Fold;
    var hp := SplitHostPort(target);
    if hp.None? { return false; }
    var host := hp.value.host;
    var ip := ParseIP(host, v6);
    if ip.Some? && IsLocal(ip.value) { return false; }
    for i := 0 to |BLOCKED|
      invariant Fold(host) !in BLOCKED[..i]
    {
      if Fold(host) == BLOCKED[i] { return false; }
    }
    assert BLOCKED[..|BLOCKED|] == BLOCKED;
    if ip.None? && lookup.Some? {
      var addrs := lookup.value;
      for i := 0 to |addrs|
        invariant forall a | a in addrs[..i] :: ParseIP(a, v6).Some? ==> !IsLocal(ParseIP(a, v6).value)
      {
        var resolved := ParseIP(addrs[i], v6);
        if resolved.Some? && IsLocal(resolved.value) { return false; }
      }
      assert addrs[..|addrs|] == addrs;
    }
    return true;
  }

  /** Local addresses, octet by octet: 127.0.0.0/8 and 0.0.0.0 in mapped form, "::" and "::1". */
  lemma IsLocalExactly(ip: Octets16)
    ensures IsLocal(ip) <==>
            || (exists a: byte, b: byte, c: byte :: ip == MAPPED_PREFIX + [127, a, b, c])
            || ip == MAPPED_PREFIX + [0, 0, 0, 0]
            || ip == [0, 0, 0, 0, 0, 0, 0, 0, 0, 0, 0, 0, 0, 0, 0, 0]
            || ip == [0, 0, 0, 0, 0, 0, 0, 0, 0, 0, 0, 0, 0, 0, 0, 1]
  {
    assert ip == ip[..12] + [ip[12], ip[13], ip[14], ip[15]];
    assert ip == ip[..15] + [ip[15]];
    assert ip[..12] == MAPPED_PREFIX ==> ip[10] == 255;
    assert [0, 0, 0, 0, 0, 0, 0, 0, 0, 0, 0, 0, 0, 0, 0] == seq(15, _ => 0 as byte);
    assert forall i | 0 <= i < 12 :: ip[..15][i] == ip[i];
  }

  /** h is the lower-case word b with any of its letters in upper case, or an 's' as a long s. */
  predicate CaseVariant(h: Text, b: Text) {
    if b == [] then h == []
    else
      || (h != [] && (h[0] == b[0] || (97 <= b[0] <= 122 && h[0] == b[0] - 32)) && CaseVariant(h[1..], b[1..]))
      || (b[0] == 115 && |h| >= 2 && h[0] == 197 && h[1] == 191 && CaseVariant(h[2..], b[1..]))
  }

  lemma {:induction false} FoldExactly(h: Text, b: Text)
    requires forall k | 0 <= k < |b| :: !(65 <= b[k] <= 90) && b[k] != 197
    ensures Fold(h) == b <==> CaseVariant(h, b)
  {
    if h != [] && b != [] {
      assert b == [b[0]] + b[1..];
      FoldExactly(h[1..], b[1..]);
      if |h| >= 2 {
        FoldExactly(h[2..], b[1..]);
      }
    }
  }

  /** The names that are refused: "localhost" in every letter case, and three literals. */
  lemma BlockedExactly(host: Text)
    ensures Fold(host) in BLOCKED <==>
            || CaseVariant(host, [108, 111, 99, 97, 108, 104, 111, 115, 116])
            || host in {[49, 50, 55, 46, 48, 46, 48, 46, 49], [58, 58, 49], [48, 46, 48, 46, 48, 46, 48]}
  {
    hide Fold, CaseVariant;
    FoldExactly(host, BLOCKED[0]);
    FoldExactly(host, BLOCKED[1]);
    FoldExactly(host, BLOCKED[2]);
    FoldExactly(host, BLOCKED[3]);
    VariantWithoutLetters(host, BLOCKED[1]);
    VariantWithoutLetters(host, BLOCKED[2]);
    VariantWithoutLetters(host, BLOCKED[3]);
  }

  lemma {:induction false} VariantWithoutLetters(h: Text, b: Text)
    requires forall k | 0 <= k < |b| :: b[k] < 65
    ensures CaseVariant(h, b) <==> h == b
  {
    if b != [] && h != [] {
      assert b == [b[0]] + b[1..] && h == [h[0]] + h[1..];
      VariantWithoutLetters(h[1..], b[1..]);
    }
  }

  /** The whole decision. A target passes exactly when it splits, its host is not blocked by name,
      neither the host itself nor, for a host that is no address, any address that the lookup
      found reads as a local one. A failed lookup refuses nothing. */
  lemma AllowedExactly(target: Text, lookup: Option<seq<Text>>, v6: V6Reader)
    ensures Allowed(target, lookup, v6) <==>
            exists hp ::
              && SplitHostPort(target) == Some(hp)
              && !CaseVariant(hp.host, [108, 111, 99, 97, 108, 104, 111, 115, 116])
              && hp.host !in {[49, 50, 55, 46, 48, 46, 48, 46, 49], [58, 58, 49], [48, 46, 48, 46, 48, 46, 48]}
              && (forall ip | ParseIP(hp.host, v6) == Some(ip) :: !IsLocal(ip))
              && (ParseIP(hp.host, v6) == None && lookup.Some? ==>
                    forall k, ip | 0 <= k < |lookup.value| && ParseIP(lookup.value[k], v6) == Some(ip) :: !IsLocal(ip))
  {
    hide SplitHostPort, ParseIP, IsLocal, Fold, CaseVariant;
    match SplitHostPort(target)
    case None =>
    case Some(hp) => BlockedExactly(hp.host);
  }

  /** "localhost" is refused in every letter case, whatever the lookup says. */
  lemma LocalhostIsRefused(host: Text, port: nat, lookup: Option<seq<Text>>, v6: V6Reader)
    requires var word: Text := [108, 111, 99, 97, 108, 104, 111, 115, 116];
             |host| == |word| && forall k | 0 <= k < |word| :: host[k] == word[k] || host[k] == word[k] - 32
    ensures !Allowed(Target(host, port), lookup, v6)
  {
    VariantByLetters(host, [108, 111, 99, 97, 108, 104, 111, 115, 116]);
    hide Fold, CaseVariant, Target, SplitHostPort, ParseIP, IsLocal, ResolvesAway;
    BlockedExactly(host);
    SplitOfTarget(host, port);
  }

  lemma {:induction false} VariantByLetters(h: Text, b: Text)
    requires |h| == |b| && forall k | 0 <= k < |b| :: 97 <= b[k] <= 122 && (h[k] == b[k] || h[k] == b[k] - 32)
    ensures CaseVariant(h, b)
  {
    if b != [] {
      VariantByLetters(h[1..], b[1..]);
    }
  }

  /** A host the validation lets through is plain, or plain-with-brackets. */
  lemma AllowedHost(host: Text, port: nat, lookup: Option<seq<Text>>, v6: V6Reader)
    requires Allowed(Target(host, port), lookup, v6)
    ensures Plain(host) != Bracketed(host)
  {
    SplitOfTarget(host, port);
  }

  /** A frame whose host reads as a local address is refused whatever its type and with or without
      square brackets around the host; so is every type 4 frame that is not IPv4-mapped. */
  lemma LocalFrameRefused(f: seq<byte>, lookup: Option<seq<Text>>, v6: V6Reader)
    requires ParseUDPFrame(f).Ok?
    requires var ip := ParseIP(Unbracketed(ReadAddress(f).value.host), v6);
             (f[3] == 4 && f[4..16] != MAPPED_PREFIX) || (ip.Some? && IsLocal(ip.value))
    ensures !Allowed(ParseUDPFrame(f).value.target, lookup, v6)
  {
    var a := ReadAddress(f).value;
    if f[3] == 4 && f[4..16] != MAPPED_PREFIX {
      V6FrameNeverSplits(f);
    } else {
      SplitOfTarget(a.host, PortAt(f, a.end));
    }
  }

  /** For frames that carry an address the decision is a matter of its bytes, whatever any
      lookup says: type 1 and mapped type 4 pass unless local, other type 4 never. */
  lemma AddressFrameAllowedExactly(f: seq<byte>, lookup: Option<seq<Text>>, v6: V6Reader)
    requires ParseUDPFrame(f).Ok? && f[3] != 3
    ensures Allowed(ParseUDPFrame(f).value.target, lookup, v6) <==>
            if f[3] == 1 then !LocalOctets(f[4..8])
            else f[4..16] == MAPPED_PREFIX && !LocalOctets(f[16..20])
  {
    if f[3] == 4 && f[4..16] != MAPPED_PREFIX {
      V6FrameNeverSplits(f);
    } else {
      var ip: Octets4 := if f[3] == 1 then f[4..8] else f[16..20];
      var a := ReadAddress(f).value;
      assert f[3] == 4 ==> f[4..20][..12] == f[4..16] && f[4..20][12..] == f[16..20];
      assert a.host == Dotted(ip);
      DottedTargetAllowedExactly(ip, PortAt(f, a.end), lookup, v6);
    }
  }

  lemma DottedTargetAllowedExactly(ip: Octets4, port: nat, lookup: Option<seq<Text>>, v6: V6Reader)
    ensures Allowed(Target(Dotted(ip), port), lookup, v6) <==> !LocalOctets(ip)
  {
    hide Dotted, Target, SplitHostPort, ParseDotted;
    DottedIsPlain(ip);
    DottedInverse(Dotted(ip), ip);
    SplitOfTarget(Dotted(ip), port);
    assert To4(Mapped(ip)) == Some(ip);
    DottedBlocked(ip);
  }

  /** Of the blocked names only the two local addresses are dotted decimal. */
  lemma DottedBlocked(ip: Octets4)
    ensures Fold(Dotted(ip)) in BLOCKED ==> LocalOctets(ip)
  {
    hide Dotted, ParseDotted, Fold;
    var s := Dotted(ip);
    DottedChars(ip);
    FoldKeeps(s);
    DottedConstants();
    DottedInverse(s, ip);
    DottedInverse(BLOCKED[1], [127, 0, 0, 1]);
    DottedInverse(BLOCKED[3], [0, 0, 0, 0]);
    assert BLOCKED[0][0] == 108 && BLOCKED[2][0] == COLON;
    assert s != [] ==> s[0] in s;
  }

  lemma DottedConstants()
    ensures Dotted([127, 0, 0, 1]) == BLOCKED[1] && Dotted([0, 0, 0, 0]) == BLOCKED[3]
  {
    assert Decimal(12) == [49, 50] && Decimal(127) == [49, 50, 55];
    JoinOfFour([49, 50, 55], [48], [48], [49]);
    JoinOfFour([48], [48], [48], [48]);
  }

  lemma JoinOfFour(a: Text, b: Text, c: Text, d: Text)
    ensures Join([a, b, c, d], DOT) == a + [DOT] + b + [DOT] + c + [DOT] + d
  {
    assert [a, b, c, d][1..] == [b, c, d] && [b, c, d][1..] == [c, d] && [c, d][1..] == [d];
    assert Join([d], DOT) == d;
    assert Join([c, d], DOT) == c + [DOT] + d;
    assert Join([b, c, d], DOT) == b + [DOT] + (c + [DOT] + d);
  }

  lemma DottedChars(ip: Octets4)
    ensures forall c | c in Dotted(ip) :: c == DOT || IsDigit(c)
  {
    var f := Fields(ip);
    JoinOfFour(f[0], f[1], f[2], f[3]);
    assert AllDigits(f[0]) && AllDigits(f[1]) && AllDigits(f[2]) && AllDigits(f[3]);
  }

  lemma {:induction false} FoldKeeps(s: Text)
    requires forall c | c in s :: c == DOT || IsDigit(c)
    ensures Fold(s) == s
  {
    if s != [] {
      assert s[0] in s;
      FoldKeeps(s[1..]);
    }
  }

  // ------------------------------------------------------------ literals with a zone

  /** The host spells this address, as net.LookupHost reads literals: an IPv6 one may carry a
      zone after '%', which net.ParseIP does not accept. */
  predicate Spells(host: Text, ip: Octets16, v6: V6Reader) {
    || ParseIP(host, v6) == Some(ip)
    || (var i := Index(host, PERCENT);
        0 <= i < |host| - 1 && COLON in host[..i] && ParseIP(host[..i], v6) == Some(ip))
  }

  /** A target that spells a loopback or unspecified address is refused exactly when it has no
      zone: LookupHost returns the literal itself, which ParseIP cannot read either time. */
  lemma LocalLiteralRefusedExactly(target: Text, ip: Octets16, v6: V6Reader)
    requires SplitHostPort(target).Some? && Spells(SplitHostPort(target).value.host, ip, v6) && IsLocal(ip)
    ensures var host := SplitHostPort(target).value.host;
            !Allowed(target, Some([host]), v6) <==> PERCENT !in host
  {
    hide SplitHostPort, ParseDotted, IsLocal, Fold;
    var host := SplitHostPort(target).value.host;
    if PERCENT in host {
      FoldKeepsPercent(host);
      PercentIsNotDotted(host);
      assert forall b | b in BLOCKED :: PERCENT !in b;
    }
  }

  lemma {:induction false} FoldKeepsPercent(s: Text)
    requires PERCENT in s
    ensures PERCENT in Fold(s)
  {
    if s[0] == 197 && |s| >= 2 && s[1] == 191 {
      FoldKeepsPercent(s[2..]);
    } else if s[0] != PERCENT {
      FoldKeepsPercent(s[1..]);
    }
  }

  lemma PercentIsNotDotted(s: Text)
    requires PERCENT in s
    ensures ParseDotted(s) == None
  {
    hide Dotted, ParseDotted;
    if ParseDotted(s).Some? {
      var ip := ParseDotted(s).value;
      DottedInverse(s, ip);
      DottedChars(ip);
    }
  }

  const LOOPBACK6: Octets16 := [0, 0, 0, 0, 0, 0, 0, 0, 0, 0, 0, 0, 0, 0, 0, 1]

  const ZONED: Text := [COLON, COLON, 49, PERCENT, 108, 111] // ::1%lo

  lemma ZonedSpells(v6: V6Reader)
    requires v6([COLON, COLON, 49]) == Some(LOOPBACK6)
    ensures Spells(ZONED, LOOPBACK6, v6) && IsLocal(LOOPBACK6) && PERCENT in ZONED
  {
    assert ZONED[..3] == [COLON, COLON, 49] && ZONED[3] == PERCENT;
    IndexIs(ZONED, PERCENT, 3);
    assert LOOPBACK6[..12][10] != MAPPED_PREFIX[10];
    assert LOOPBACK6[..15] == seq(15, _ => 0 as byte);
  }

  /** A loopback target that is let through: "[::1%lo]:80". */
  lemma ZonedLoopbackIsAllowed(v6: V6Reader)
    requires v6([COLON, COLON, 49]) == Some(LOOPBACK6)
    ensures Spells(ZONED, LOOPBACK6, v6) && IsLocal(LOOPBACK6)
    ensures Allowed(Target([OPEN] + ZONED + [CLOSE], 80), Some([ZONED]), v6)
  {
    var host := [OPEN] + ZONED + [CLOSE];
    assert Bracketed(host) && host[1..|host| - 1] == ZONED;
    hide Target, SplitHostPort, Allowed, Spells, IsLocal, Bracketed;
    SplitOfBracketed(host, 80);
    ZonedSpells(v6);
    LocalLiteralRefusedExactly(Target(host, 80), LOOPBACK6, v6);
  }

  // ------------------------------------------------------------ one request

  /** What the network does with an allowed request. */
  datatype Path = NoRoute | WriteError | NoReply | Reply(data: seq<byte>)

  /** One WebSocket message, with everything the environment decides about it. */
  datatype Exchange = Exchange(msg: seq<byte>, lookup: Option<seq<Text>>, path: Path, wsOk: bool)

  datatype Outcome = Skipped | Sent(payload: seq<byte>) | Replied(target: Text, payload: seq<byte>, reply: seq<byte>)

  function Answer(e: Exchange, v6: V6Reader): Outcome {
    match ParseUDPFrame(e.msg)
    case Err(_) => Skipped
    case Ok(d) =>
      if !Allowed(d.target, e.lookup, v6) then Skipped
      else match e.path
        case NoRoute => Skipped
        case WriteError => Skipped
        case NoReply => Sent(d.payload)
        case Reply(data) => Replied(d.target, d.payload, data)
  }

  // ------------------------------------------------------------- ledgers of a run

  predicate WritesFrame(e: Exchange, v6: V6Reader) { Answer(e, v6).Replied? && e.wsOk }

  /** The loop goes on after e: no reply of it failed to be written. */
  predicate Continues(e: Exchange, v6: V6Reader) { Answer(e, v6).Replied? ==> e.wsOk }

  /** The reply frames written during a run, in order. */
  function Written(s: seq<Exchange>, v6: V6Reader): seq<seq<byte>> {
    if s == [] then []
    else
      var e := s[|s| - 1];
      Written(s[..|s| - 1], v6) +
      if WritesFrame(e, v6) then [FrameOf(Answer(e, v6).target, Answer(e, v6).reply, v6)] else []
  }

  /** Payload bytes that reached a target. */
  function TxBytes(s: seq<Exchange>, v6: V6Reader): nat {
    if s == [] then 0
    else
      var a := Answer(s[|s| - 1], v6);
      TxBytes(s[..|s| - 1], v6) + if a.Skipped? then 0 else |a.payload|
  }

  /** Reply bytes that came back, whether or not the WebSocket still took them. */
  function RxBytes(s: seq<Exchange>, v6: V6Reader): nat {
    if s == [] then 0
    else
      var a := Answer(s[|s| - 1], v6);
      RxBytes(s[..|s| - 1], v6) + if a.Replied? then |a.reply| else 0
  }

  lemma OneMore(s: seq<Exchange>, e: Exchange, v6: V6Reader)
    ensures var a := Answer(e, v6);
            && TxBytes(s + [e], v6) == TxBytes(s, v6) + (if a.Skipped? then 0 else |a.payload|)
            && RxBytes(s + [e], v6) == RxBytes(s, v6) + (if a.Replied? then |a.reply| else 0)
            && Written(s + [e], v6) ==
               Written(s, v6) + if a.Replied? && e.wsOk then [FrameOf(a.target, a.reply, v6)] else []
  {
    hide Answer, FrameOf;
    assert (s + [e])[..|s|] == s;
  }

  /** The ledgers of a run, request by request: a payload counts when its target was allowed and
      took it, reply bytes when a reply came, and the frame is written when the WebSocket took it. */
  lemma LedgersExactly(s: seq<Exchange>, e: Exchange, v6: V6Reader)
    ensures TxBytes([], v6) == 0 && RxBytes([], v6) == 0 && Written([], v6) == []
    ensures var allowed := ParseUDPFrame(e.msg).Ok? && Allowed(ParseUDPFrame(e.msg).value.target, e.lookup, v6);
            && TxBytes(s + [e], v6) == TxBytes(s, v6)
               + (if allowed && (e.path.NoReply? || e.path.Reply?) then |ParseUDPFrame(e.msg).value.payload| else 0)
            && RxBytes(s + [e], v6) == RxBytes(s, v6) + (if allowed && e.path.Reply? then |e.path.data| else 0)
            && Written(s + [e], v6) == Written(s, v6)
               + if allowed && e.path.Reply? && e.wsOk
                 then [FrameOf(ParseUDPFrame(e.msg).value.target, e.path.data, v6)]
                 else []
  {
    hide ParseUDPFrame, Allowed, FrameOf;
    OneMore(s, e, v6);
  }

  /** The only message that ends the loop is one whose reply came and could not be written. */
  lemma ContinuesExactly(e: Exchange, v6: V6Reader)
    ensures !Continues(e, v6) <==>
            && ParseUDPFrame(e.msg).Ok? && Allowed(ParseUDPFrame(e.msg).value.target, e.lookup, v6)
            && e.path.Reply? && !e.wsOk
  {
    hide ParseUDPFrame, Allowed;
  }

  lemma ExplainEnd(script: seq<Exchange>, n: nat, v6: V6Reader)
    requires n <= |script| && (forall k | 0 <= k < n - 1 :: Continues(script[k], v6))
    requires n < |script| ==> n > 0 && !Continues(script[n - 1], v6)
    ensures forall k | 0 <= k < n - 1 ::
              var e := script[k];
              !(ParseUDPFrame(e.msg).Ok? && Allowed(ParseUDPFrame(e.msg).value.target, e.lookup, v6)
                && e.path.Reply? && !e.wsOk)
    ensures n < |script| ==>
              var e := script[n - 1];
              && ParseUDPFrame(e.msg).Ok? && Allowed(ParseUDPFrame(e.msg).value.target, e.lookup, v6)
              && e.path.Reply? && !e.wsOk
    ensures (forall e | e in script :: e.wsOk) ==> n == |script|
  {
    hide *;
    forall k | 0 <= k < n - 1
      ensures var e := script[k];
              !(ParseUDPFrame(e.msg).Ok? && Allowed(ParseUDPFrame(e.msg).value.target, e.lookup, v6)
                && e.path.Reply? && !e.wsOk)
    {
      ContinuesExactly(script[k], v6);
    }
    if n < |script| {
      ContinuesExactly(script[n - 1], v6);
    }
  }

  /** The requests that were answered, by position. */
  function Origins(s: seq<Exchange>, v6: V6Reader): seq<nat> {
    if s == [] then []
    else Origins(s[..|s| - 1], v6) + if WritesFrame(s[|s| - 1], v6) then [|s| - 1] else []
  }

  /** The frames written answer distinct requests, in request order: a subsequence. */
  lemma {:induction false} RepliesFollowRequests(s: seq<Exchange>, v6: V6Reader)
    ensures var o := Origins(s, v6);
            && |o| == |Written(s, v6)|
            && (forall i, j | 0 <= i < j < |o| :: o[i] < o[j])
            && (forall k | 0 <= k < |o| :: o[k] < |s| && WritesFrame(s[o[k]], v6)
                 && Written(s, v6)[k] == FrameOf(Answer(s[o[k]], v6).target, Answer(s[o[k]], v6).reply, v6))
  {
    hide Answer, WritesFrame, FrameOf;
    if s != [] {
      RepliesFollowRequests(s[..|s| - 1], v6);
    }
  }

  /** Every written frame decodes to its own request's target and the bytes that came back for
      it, exactly when the request did not name a host in square brackets. */
  lemma ReplyDecodes(s: seq<Exchange>, k: nat, v6: V6Reader)
    requires k < |Written(s, v6)|
    ensures k < |Origins(s, v6)| && Origins(s, v6)[k] < |s|
    ensures var e := s[Origins(s, v6)[k]];
            && ParseUDPFrame(e.msg).Ok? && e.path.Reply?
            && (ParseUDPFrame(Written(s, v6)[k]) == Ok(Datagram(ParseUDPFrame(e.msg).value.target, e.path.data))
                <==> !Bracketed(ReadAddress(e.msg).value.host))
  {
    RepliesFollowRequests(s, v6);
    var e := s[Origins(s, v6)[k]];
    var a := ReadAddress(e.msg).value;
    AllowedHost(a.host, PortAt(e.msg, a.end), e.lookup, v6);
    FrameRoundTrip(e.msg, e.path.data, v6);
  }

  // ------------------------------------------------------------------ the loop

  class UdpHandler {
    const v6: V6Reader
    var totalTx: nat
    var totalRx: nat
    var written: seq<seq<byte>>
    ghost var handled: seq<Exchange>

    ghost predicate Valid()
      reads this
    {
      && totalTx == TxBytes(handled, v6)
      && totalRx == RxBytes(handled, v6)
      && written == Written(handled, v6)
    }

    constructor (v6: V6Reader)
      ensures Valid() && handled == [] && this.v6 == v6
      ensures totalTx == 0 && totalRx == 0 && written == []
    {
      this.v6 := v6;
      totalTx, totalRx, written, handled := 0, 0, [], [];
    }

    /** One turn of the loop; false when the WebSocket write failed. */
    method Handle(e: Exchange) returns (goOn: bool)
      requires Valid()
      modifies this
      ensures Valid() && handled == old(handled) + [e]
      ensures goOn <==> Continues(e, v6)
      ensures var allowed := ParseUDPFrame(e.msg).Ok? && Allowed(ParseUDPFrame(e.msg).value.target, e.lookup, v6);
              && (goOn <==> !(allowed && e.path.Reply? && !e.wsOk))
              && totalTx == old(totalTx)
                 + (if allowed && (e.path.NoReply? || e.path.Reply?) then |ParseUDPFrame(e.msg).value.payload| else 0)
              && totalRx == old(totalRx) + (if allowed && e.path.Reply? then |e.path.data| else 0)
              && written == old(written)
                 + if allowed && e.path.Reply? && e.wsOk
                   then [FrameOf(ParseUDPFrame(e.msg).value.target, e.path.data, v6)]
                   else []
    {
      hide Written, TxBytes, RxBytes, ParseUDPFrame, Allowed, FrameOf;
      OneMore(handled, e, v6);
      handled := handled + [e];
      var parsed := ParseUDPFrame(e.msg);
      if parsed.Err? { return true; }
      var Datagram(target, payload) := parsed.value;
      var ok := ValidateTarget(target, e.lookup, v6);
      if !ok || e.path.NoRoute? || e.path.WriteError? { return true; }
      totalTx := totalTx + |payload|;
      if e.path.NoReply? { return true; }
      totalRx := totalRx + |e.path.data|;
      var reply := BuildUDPFrame(target, e.path.data, v6);
      if !e.wsOk { return false; }
      written := written + [reply];
      return true;
    }

    /** The whole loop: it ends with the messages, or with the first reply that cannot be written;
        malformed, refused, unroutable and unanswered requests never end it. */
    method Serve(script: seq<Exchange>)
      requires Valid() && handled == []
      modifies this
      ensures Valid() && |handled| <= |script| && handled == script[..|handled|]
      ensures forall k | 0 <= k < |handled| - 1 ::
                var e := script[k];
                !(ParseUDPFrame(e.msg).Ok? && Allowed(ParseUDPFrame(e.msg).value.target, e.lookup, v6)
                  && e.path.Reply? && !e.wsOk)
      ensures |handled| < |script| ==>
                handled != [] &&
                var e := script[|handled| - 1];
                && ParseUDPFrame(e.msg).Ok? && Allowed(ParseUDPFrame(e.msg).value.target, e.lookup, v6)
                && e.path.Reply? && !e.wsOk
      ensures (forall e | e in script :: e.wsOk) ==> handled == script
      ensures totalTx == TxBytes(handled, v6) && totalRx == RxBytes(handled, v6) && written == Written(handled, v6)
    {
      Loop(script);
      hide *;
      ExplainEnd(script, |handled|, v6);
      assert |handled| == |script| ==> script[..|handled|] == script;
    }

    method Loop(script: seq<Exchange>)
      requires Valid() && handled == []
      modifies this
      ensures Valid() && |handled| <= |script| && handled == script[..|handled|]
      ensures forall k | 0 <= k < |handled| - 1 :: Continues(script[k], v6)
      ensures |handled| < |script| ==> handled != [] && !Continues(script[|handled| - 1], v6)
    {
      hide *;
      var i := 0;
      while i < |script|
        invariant i <= |script| && Valid() && handled == script[..i]
        invariant forall k | 0 <= k < i :: Continues(script[k], v6)
      {
        var goOn := Handle(script[i]);
        i := i + 1;
        if !goOn { return; }
      }
    }
  }
}
