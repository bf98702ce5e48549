/** The text that netip prints for an IPv6 address is the canonical one of RFC 5952. */
module IPv6Text {
  import opened Bytes
  import opened HostPort

  function HexDigit(c: byte): nat { if 97 <= c then c as nat - 87 else if 48 <= c then c as nat - 48 else 0 }

  function HexValue(t: Text): nat {
    if t == [] then 0 else HexValue(t[..|t| - 1]) * 16 + HexDigit(t[|t| - 1])
  }

  /** Lower-case hexadecimal text without superfluous zeros (section 4.1) has the value it spells. */
  lemma {:induction false} HexSpells(n: nat)
    ensures HexValue(Hex(n)) == n && (n > 0 ==> Hex(n)[0] != ZERO)
  {
    if n >= 16 {
      HexSpells(n / 16);
      assert Hex(n)[..|Hex(n)| - 1] == Hex(n / 16);
    } else {
      assert Hex(n)[..0] == [];
    }
  }

  function AllGroups(ip: Octets16): (gs: seq<nat>)
    ensures |gs| == 8
  {
    seq(8, i requires 0 <= i < 8 => Group(ip, i))
  }

  /** Groups in hexadecimal with colons between them. */
  function Spelled(gs: seq<nat>): Text {
    if gs == [] then [] else if |gs| == 1 then Hex(gs[0]) else Hex(gs[0]) + [COLON] + Spelled(gs[1..])
  }

  predicate ZeroRun(gs: seq<nat>, a: nat, b: nat) { a + 2 <= b <= |gs| && forall k | a <= k < b :: gs[k] == 0 }

  /** Sections 4.2.2 and 4.2.3: of all runs of two or more zero groups, the longest and of those
      the first. */
  ghost predicate BestRun(gs: seq<nat>, a: nat, b: nat) {
    ZeroRun(gs, a, b) && forall c: nat, d: nat | ZeroRun(gs, c, d) :: d - c < b - a || (d - c == b - a && a <= c)
  }

  lemma {:induction false} ZeroRunEndIs(ip: Octets16, i: nat)
    requires i <= 8
    ensures forall k | i <= k < ZeroRunEnd(ip, i) :: Group(ip, k) == 0
    ensures ZeroRunEnd(ip, i) < 8 ==> Group(ip, ZeroRunEnd(ip, i)) != 0
    decreases 8 - i
  {
    if i < 8 && Group(ip, i) == 0 {
      ZeroRunEndIs(ip, i + 1);
    }
  }

  /** run is the best zero run that starts before group i; (8, 8) when there is none. */
  ghost predicate BestBefore(gs: seq<nat>, i: nat, run: (nat, nat)) {
    && (run == (8, 8) || (run.0 < i && ZeroRun(gs, run.0, run.1)))
    && forall c: nat, d: nat | c < i && ZeroRun(gs, c, d) ::
         run != (8, 8) && (d - c < run.1 - run.0 || (d - c == run.1 - run.0 && run.0 <= c))
  }

  lemma {:induction false} LongestRunIsBest(ip: Octets16, i: nat, best: (nat, nat))
    requires i <= 8 && best.0 <= best.1 <= 8 && BestBefore(AllGroups(ip), i, best)
    ensures BestBefore(AllGroups(ip), 8, LongestRun(ip, i, best))
    decreases 8 - i
  {
    if i < 8 {
      var gs, j := AllGroups(ip), ZeroRunEnd(ip, i);
      ZeroRunEndIs(ip, i);
      var next := if j - i >= 2 && j - i > best.1 - best.0 then (i, j) else best;
      assert forall d: nat | ZeroRun(gs, i, d) :: d <= j by {
        assert j < 8 ==> gs[j] != 0;
      }
      assert BestBefore(gs, i + 1, next);
      LongestRunIsBest(ip, i + 1, next);
    }
  }

  lemma SpelledOneMore(gs: seq<nat>, i: nat, j: nat)
    requires i < j <= |gs|
    ensures Spelled(gs[i..j]) == Hex(gs[i]) + if i + 1 < j then [COLON] + Spelled(gs[i + 1..j]) else []
  {
    hide Hex;
    assert gs[i..j][1..] == gs[i + 1..j];
  }

  lemma GroupsOneMore(ip: Octets16, i: nat, run: (nat, nat))
    requires i < 8 && i != run.0 && run.0 <= run.1 <= 8 && (run == (8, 8) || run.0 + 2 <= run.1)
    ensures Groups(ip, i, run) == (if i > 0 then [COLON] else []) + Hex(AllGroups(ip)[i]) + Groups(ip, i + 1, run)
  {
    hide Hex;
  }

  lemma Regroup(a: Text, b: Text, c: Text, d: Text, e: Text, f: Text)
    ensures a + b + (c + d + e + f) == a + (b + (c + d)) + e + f
  {
  }

  lemma NothingSpelled(gs: seq<nat>, i: nat)
    requires i <= |gs|
    ensures Spelled(gs[i..i]) == []
  {
  }

  /** After the run, if any, groups follow one another with a colon before each. */
  lemma {:induction false} GroupsAfter(ip: Octets16, i: nat, run: (nat, nat))
    requires 0 < i <= 8 && run.0 <= run.1 <= 8 && (run == (8, 8) || (run.0 + 2 <= run.1 && run.0 < i))
    ensures Groups(ip, i, run) == if i < 8 then [COLON] + Spelled(AllGroups(ip)[i..8]) else []
    decreases 8 - i
  {
    if i < 8 {
      var gs := AllGroups(ip);
      GroupsAfter(ip, i + 1, run);
      SpelledOneMore(gs, i, 8);
      assert gs[i] == Group(ip, i);
      hide Spelled, Hex, Group, AllGroups;
    }
  }

  lemma {:induction false} GroupsWithRun(ip: Octets16, i: nat, run: (nat, nat))
    requires i <= run.0 && run.0 + 2 <= run.1 <= 8
    ensures Groups(ip, i, run) ==
            (if 0 < i < run.0 then [COLON] else []) + Spelled(AllGroups(ip)[i..run.0])
            + [COLON, COLON] + Spelled(AllGroups(ip)[run.1..8])
    decreases 8 - i
  {
    var gs := AllGroups(ip);
    assert gs[i] == Group(ip, i);
    if i == run.0 {
      NothingSpelled(gs, i);
      RunToTheEnd(ip, run);
    } else {
      GroupsWithRun(ip, i + 1, run);
      SpelledOneMore(gs, i, run.0);
      GroupsOneMore(ip, i, run);
      NothingSpelled(gs, run.0);
      hide Spelled, Hex, Group, AllGroups, Groups;
      Regroup(if i > 0 then [COLON] else [], Hex(gs[i]), if i + 1 < run.0 then [COLON] else [],
              Spelled(gs[i + 1..run.0]), [COLON, COLON], Spelled(gs[run.1..8]));
    }
  }

  lemma RunToTheEnd(ip: Octets16, run: (nat, nat))
    requires run.0 + 2 <= run.1 <= 8
    ensures Groups(ip, run.0, run) == [COLON, COLON] + Spelled(AllGroups(ip)[run.1..8])
  {
    var gs := AllGroups(ip);
    if run.1 < 8 {
      GroupsAfter(ip, run.1 + 1, run);
      SpelledOneMore(gs, run.1, 8);
      assert gs[run.1] == Group(ip, run.1);
      hide Spelled, Hex, Group, AllGroups;
    } else {
      NothingSpelled(gs, 8);
    }
  }

  lemma TextWithoutRun(ip: Octets16)
    requires LongestRun(ip, 0, (8, 8)) == (8, 8)
    ensures V6Text(ip) == Spelled(AllGroups(ip))
  {
    hide Spelled, Hex, Group, AllGroups, Groups, LongestRun;
    var gs := AllGroups(ip);
    GroupsAfter(ip, 1, (8, 8));
    GroupsOneMore(ip, 0, (8, 8));
    SpelledOneMore(gs, 0, 8);
    assert gs[0..8] == gs;
  }

  lemma TextWithRun(ip: Octets16)
    requires LongestRun(ip, 0, (8, 8)) != (8, 8)
    ensures var gs, run := AllGroups(ip), LongestRun(ip, 0, (8, 8));
            V6Text(ip) == Spelled(gs[..run.0]) + [COLON, COLON] + Spelled(gs[run.1..])
  {
    hide Spelled, Hex, Group, AllGroups, Groups, LongestRun;
    var gs, run := AllGroups(ip), LongestRun(ip, 0, (8, 8));
    GroupsWithRun(ip, 0, run);
    assert gs[0..run.0] == gs[..run.0] && gs[run.1..8] == gs[run.1..];
    assert [] + Spelled(gs[..run.0]) == Spelled(gs[..run.0]);
  }

  lemma BestOfAll(gs: seq<nat>, run: (nat, nat))
    requires |gs| == 8 && BestBefore(gs, 8, run)
    ensures if run == (8, 8) then forall a: nat, b: nat :: !ZeroRun(gs, a, b) else BestRun(gs, run.0, run.1)
  {
    assert forall a: nat, b: nat | ZeroRun(gs, a, b) :: a < 8;
  }

  /** The text of an IPv6 address: its eight groups, with the best zero run, if any, as "::". */
  lemma V6TextIsCanonical(ip: Octets16)
    ensures forall i | 0 <= i < 8 :: AllGroups(ip)[i] == 256 * ip[2 * i] as nat + ip[2 * i + 1] as nat
    ensures var gs := AllGroups(ip);
            || (V6Text(ip) == Spelled(gs) && forall a: nat, b: nat :: !ZeroRun(gs, a, b))
            || (exists a: nat, b: nat ::
                  BestRun(gs, a, b) && V6Text(ip) == Spelled(gs[..a]) + [COLON, COLON] + Spelled(gs[b..]))
  {
    var gs, run := AllGroups(ip), LongestRun(ip, 0, (8, 8));
    LongestRunIsBest(ip, 0, (8, 8));
    assert forall i | 0 <= i < 8 :: gs[i] == Group(ip, i);
    hide Spelled, AllGroups, LongestRun, BestRun, BestBefore, ZeroRun, V6Text;
    BestOfAll(gs, run);
    if run == (8, 8) { TextWithoutRun(ip); } else { TextWithRun(ip); }
  }
}
