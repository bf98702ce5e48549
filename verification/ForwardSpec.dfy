/** Port-forwarding specs on the command line: [R:][bind_host:]bind_port:target_host:target_port. */
module ForwardSpec {
  import opened Bytes

  datatype PortForward = PortForward(bind: Text, target: Text, reverse: bool)

  const R_PREFIX: Text := [82, COLON]
  const LOOPBACK: Text := [49, 50, 55, 46, 48, 46, 48, 46, 49, COLON] // 127.0.0.1:

  predicate IsReverse(spec: Text) { R_PREFIX <= spec }

  /** The spec without one leading "R:". */
  function Rest(spec: Text): Text { if IsReverse(spec) then spec[2..] else spec }

  function ParseForwardSpec(spec: Text): Option<PortForward> {
    var parts := Split(Rest(spec), COLON);
    if |parts| == 3 then
      Some(PortForward(LOOPBACK + parts[0], parts[1] + [COLON] + parts[2], IsReverse(spec)))
    else if |parts| == 4 then
      Some(PortForward(parts[0] + [COLON] + parts[1], parts[2] + [COLON] + parts[3], IsReverse(spec)))
    else None
  }

  /** A forward written out as a four-part spec. */
  function Print(pf: PortForward): Text {
    (if pf.reverse then R_PREFIX else []) + pf.bind + [COLON] + pf.target
  }

  lemma JoinThree(a: Text, b: Text, c: Text)
    ensures Join([a, b, c], COLON) == a + [COLON] + (b + [COLON] + c)
  {
    assert [a, b, c][1..] == [b, c] && [b, c][1..] == [c];
    assert Join([b, c], COLON) == b + [COLON] + c;
  }

  lemma JoinFour(a: Text, b: Text, c: Text, d: Text)
    ensures Join([a, b, c, d], COLON) == (a + [COLON] + b) + [COLON] + (c + [COLON] + d)
  {
    assert [a, b, c, d][1..] == [b, c, d];
    JoinThree(b, c, d);
    assert a + [COLON] + (b + [COLON] + (c + [COLON] + d)) == (a + [COLON] + b) + [COLON] + (c + [COLON] + d);
  }

  /** Parsing succeeds exactly when two or three colons remain after one optional "R:"; then the
      bind and target addresses, joined by a colon, are the remaining text, after "127.0.0.1:"
      when it has only two colons. */
  lemma ParseKeepsText(spec: Text)
    ensures ParseForwardSpec(spec).Some? <==> 2 <= Count(Rest(spec), COLON) <= 3
    ensures ParseForwardSpec(spec).Some? ==>
              var pf := ParseForwardSpec(spec).value;
              pf.bind + [COLON] + pf.target == (if Count(Rest(spec), COLON) == 2 then LOOPBACK else []) + Rest(spec)
              && pf.reverse == IsReverse(spec)
  {
    var rest := Rest(spec);
    var p := Split(rest, COLON);
    SplitCount(rest, COLON);
    JoinOfSplit(rest, COLON);
    hide Split, Join, Count, Rest, IsReverse;
    if |p| == 3 {
      assert p == [p[0], p[1], p[2]];
      JoinThree(p[0], p[1], p[2]);
    } else if |p| == 4 {
      assert p == [p[0], p[1], p[2], p[3]];
      JoinFour(p[0], p[1], p[2], p[3]);
    }
  }

  /** The addresses of a parsed spec are "host:port" with a single colon each. */
  lemma ParsedAddressesHaveOneColon(spec: Text)
    requires ParseForwardSpec(spec).Some?
    ensures Count(ParseForwardSpec(spec).value.bind, COLON) == 1
    ensures Count(ParseForwardSpec(spec).value.target, COLON) == 1
  {
    var p := Split(Rest(spec), COLON);
    SplitPartsFree(Rest(spec), COLON);
    if |p| == 3 {
      OneColon(LOOPBACK[..9], p[0]);
      assert LOOPBACK + p[0] == LOOPBACK[..9] + [COLON] + p[0];
      OneColon(p[1], p[2]);
    } else {
      OneColon(p[0], p[1]);
      OneColon(p[2], p[3]);
    }
  }

  lemma OneColon(a: Text, b: Text)
    requires COLON !in a && COLON !in b
    ensures Count(a + [COLON] + b, COLON) == 1
  {
    CountZero(a, COLON);
    CountZero(b, COLON);
    CountConcat(a, [COLON], COLON);
    CountConcat(a + [COLON], b, COLON);
  }

  lemma AtTheColon(s: Text) returns (a: Text, b: Text)
    requires Count(s, COLON) == 1
    ensures s == a + [COLON] + b && COLON !in a && COLON !in b
  {
    CountZero(s, COLON);
    var i := Index(s, COLON);
    a, b := s[..i], s[i + 1..];
    assert s == a + [COLON] + b;
    CountZero(a, COLON);
    CountZero(b, COLON);
    CountConcat(a, [COLON], COLON);
    CountConcat(a + [COLON], b, COLON);
  }

  /** Printing and parsing give a forward back exactly when both its addresses have one colon
      and, unless it is a reverse one, its bind address does not start with "R:". */
  lemma PrintParseExact(pf: PortForward)
    ensures ParseForwardSpec(Print(pf)) == Some(pf) <==>
            Count(pf.bind, COLON) == 1 && Count(pf.target, COLON) == 1 && (pf.reverse || !IsReverse(pf.bind))
  {
    var spec := Print(pf);
    if !pf.reverse && IsReverse(pf.bind) {
      assert spec[..2] == pf.bind[..2];
      assert IsReverse(spec);
    }
    if ParseForwardSpec(spec) == Some(pf) {
      ParsedAddressesHaveOneColon(spec);
    }
    if Count(pf.bind, COLON) == 1 && Count(pf.target, COLON) == 1 && (pf.reverse || !IsReverse(pf.bind)) {
      PrintParse(pf);
    }
  }

  lemma PrintParse(pf: PortForward)
    requires Count(pf.bind, COLON) == 1 && Count(pf.target, COLON) == 1 && (pf.reverse || !IsReverse(pf.bind))
    ensures ParseForwardSpec(Print(pf)) == Some(pf)
  {
    var a, b := AtTheColon(pf.bind);
    var c, d := AtTheColon(pf.target);
    var text := pf.bind + [COLON] + pf.target;
    var spec := Print(pf);
    if pf.reverse {
      assert spec == R_PREFIX + text && spec[2..] == text;
    } else {
      assert spec == text;
      if |pf.bind| >= 2 {
        assert spec[..2] == pf.bind[..2];
      } else {
        assert spec[..2] == pf.bind + [COLON];
        assert pf.bind == [COLON];
      }
    }
    assert IsReverse(spec) == pf.reverse && Rest(spec) == text;
    JoinFour(a, b, c, d);
    SplitOfJoin([a, b, c, d], COLON);
  }

  /** runForward's pass over its arguments: stops at the first spec that does not parse. */
  method ParseAll(args: seq<Text>) returns (ok: bool, forwards: seq<PortForward>, reverses: seq<PortForward>)
    ensures ok <==> forall a | a in args :: ParseForwardSpec(a).Some?
    ensures ok ==> forwards == Selected(args, false) && reverses == Selected(args, true)
  {
    forwards, reverses := [], [];
    var i := 0;
    while i < |args|
      invariant 0 <= i <= |args|
      invariant forall a | a in args[..i] :: ParseForwardSpec(a).Some?
      invariant forwards == Selected(args[..i], false) && reverses == Selected(args[..i], true)
    {
      var pf := ParseForwardSpec(args[i]);
      assert args[..i + 1][..i] == args[..i] && args[i] in args;
      if pf.None? { return false, [], []; }
      if pf.value.reverse {
        reverses := reverses + [pf.value];
      } else {
        forwards := forwards + [pf.value];
      }
      i := i + 1;
    }
    assert args[..i] == args;
    ok := true;
  }

  /** They are those at the positions `at`, which are exactly the arguments that parse to a spec of
      that direction, in the order of the arguments. */
  lemma {:induction false} SelectedExactly(args: seq<Text>, reverse: bool) returns (at: seq<nat>)
    ensures |at| == |Selected(args, reverse)|
    ensures forall i, j | 0 <= i < j < |at| :: at[i] < at[j]
    ensures forall k | 0 <= k < |at| ::
              at[k] < |args| && ParseForwardSpec(args[at[k]]) == Some(Selected(args, reverse)[k])
    ensures forall n | 0 <= n < |args| ::
              n in at <==> ParseForwardSpec(args[n]).Some? && ParseForwardSpec(args[n]).value.reverse == reverse
  {
    hide ParseForwardSpec;
    at := [];
    if args != [] {
      var n := |args| - 1;
      at := SelectedExactly(args[..n], reverse);
      var pf := ParseForwardSpec(args[n]);
      if pf.Some? && pf.value.reverse == reverse { at := at + [n]; }
    }
  }

  /** The parsed specs of one direction, in the order of the arguments. */
  function Selected(args: seq<Text>, reverse: bool): seq<PortForward> {
    if args == [] then []
    else
      var pf := ParseForwardSpec(args[|args| - 1]);
      Selected(args[..|args| - 1], reverse) + if pf.Some? && pf.value.reverse == reverse then [pf.value] else []
  }
}
