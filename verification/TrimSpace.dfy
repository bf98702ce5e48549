/** strings.TrimSpace on UTF-8 text. */
module TrimSpace {
  import opened Bytes

  /** The UTF-8 text of one white-space rune: U+0009 to U+000D, U+0020, U+0085, U+00A0, U+1680,
      U+2000 to U+200A, U+2028, U+2029, U+202F, U+205F and U+3000. */
  predicate IsSpace(w: Text) {
    || (|w| == 1 && (9 <= w[0] <= 13 || w[0] == 32))
    || (|w| == 2 && w[0] == 194 && (w[1] == 133 || w[1] == 160))
    || (|w| == 3 && w[0] == 225 && w[1] == 154 && w[2] == 128)
    || (|w| == 3 && w[0] == 226 && w[1] == 128 && (128 <= w[2] <= 138 || 168 <= w[2] <= 169 || w[2] == 175))
    || (|w| == 3 && w[0] == 226 && w[1] == 129 && w[2] == 159)
    || (|w| == 3 && w[0] == 227 && w[1] == 128 && w[2] == 128)
  }

  predicate NoSpaceFirst(s: Text) { forall k | 0 <= k <= |s| :: !IsSpace(s[..k]) }

  predicate NoSpaceLast(s: Text) { forall k | 0 <= k <= |s| :: !IsSpace(s[k..]) }

  /** The length of the white-space rune that s starts with; 0 when it starts with none. */
  function SpaceAtStart(s: Text): (n: nat)
    ensures n <= |s| && (n > 0 ==> IsSpace(s[..n]))
  {
    if |s| >= 1 && IsSpace(s[..1]) then 1
    else if |s| >= 2 && IsSpace(s[..2]) then 2
    else if |s| >= 3 && IsSpace(s[..3]) then 3
    else 0
  }

  function SpaceAtEnd(s: Text): (n: nat)
    ensures n <= |s| && (n > 0 ==> IsSpace(s[|s| - n..]))
  {
    if |s| >= 1 && IsSpace(s[|s| - 1..]) then 1
    else if |s| >= 2 && IsSpace(s[|s| - 2..]) then 2
    else if |s| >= 3 && IsSpace(s[|s| - 3..]) then 3
    else 0
  }

  lemma RunesAreShort(w: Text)
    ensures IsSpace(w) ==> 1 <= |w| <= 3
  {
  }

  lemma NoneAtStart(s: Text)
    ensures SpaceAtStart(s) == 0 <==> NoSpaceFirst(s)
  {
    hide IsSpace;
    if SpaceAtStart(s) == 0 {
      forall k | 0 <= k <= |s| ensures !IsSpace(s[..k]) { RunesAreShort(s[..k]); }
    }
  }

  lemma NoneAtEnd(s: Text)
    ensures SpaceAtEnd(s) == 0 <==> NoSpaceLast(s)
  {
    hide IsSpace;
    if SpaceAtEnd(s) == 0 {
      forall k | 0 <= k <= |s| ensures !IsSpace(s[k..]) {
        RunesAreShort(s[k..]);
        assert k == |s| - (|s| - k);
      }
    }
  }

  function TrimLeft(s: Text): Text {
    var n := SpaceAtStart(s);
    if n > 0 then TrimLeft(s[n..]) else s
  }

  function TrimRight(s: Text): Text {
    var n := SpaceAtEnd(s);
    if n > 0 then TrimRight(s[..|s| - n]) else s
  }

  function Trim(s: Text): Text { TrimRight(TrimLeft(s)) }

  /** No white-space rune at either end. */
  predicate Trimmed(s: Text) { NoSpaceFirst(s) && NoSpaceLast(s) }

  lemma PrefixStaysClean(s: Text, n: nat)
    requires n <= |s| && NoSpaceFirst(s)
    ensures NoSpaceFirst(s[..n])
  {
    hide IsSpace;
    assert forall k | 0 <= k <= n :: s[..n][..k] == s[..k];
  }

  lemma CleanIsKept(s: Text)
    requires Trimmed(s)
    ensures Trim(s) == s
  {
    hide IsSpace;
    NoneAtStart(s);
    NoneAtEnd(s);
  }

  lemma {:induction false} TrimLeftEnds(s: Text)
    ensures var t := TrimLeft(s);
            |t| <= |s| && t == s[|s| - |t|..] && NoSpaceFirst(t)
  {
    hide IsSpace, SpaceAtStart, NoSpaceFirst;
    NoneAtStart(s);
    var n := SpaceAtStart(s);
    if n > 0 {
      TrimLeftEnds(s[n..]);
      var t := TrimLeft(s);
      assert s[n..][|s| - n - |t|..] == s[|s| - |t|..];
    }
  }

  lemma {:induction false} TrimRightEnds(s: Text)
    ensures var t := TrimRight(s);
            |t| <= |s| && t == s[..|t|] && NoSpaceLast(t)
  {
    hide IsSpace, SpaceAtEnd, NoSpaceLast;
    NoneAtEnd(s);
    var n := SpaceAtEnd(s);
    if n > 0 {
      TrimRightEnds(s[..|s| - n]);
      var t := TrimRight(s);
      assert s[..|s| - n][..|t|] == s[..|t|];
    }
  }

  /** Trimming leaves a part of the text without white space at its ends. */
  lemma TrimCuts(s: Text) returns (i: nat, j: nat)
    ensures i <= j <= |s| && Trim(s) == s[i..j] && Trimmed(Trim(s))
  {
    var l, t := TrimLeft(s), Trim(s);
    TrimLeftEnds(s);
    TrimRightEnds(l);
    hide IsSpace, NoSpaceFirst, NoSpaceLast, TrimLeft, TrimRight;
    PrefixStaysClean(l, |t|);
    i := |s| - |l|;
    j := i + |t|;
    assert t == s[i..j];
  }

  /** Trimming changes nothing exactly when there is no white space at the ends. */
  lemma TrimIsTrimmed(s: Text)
    ensures Trimmed(Trim(s)) && (Trimmed(s) <==> Trim(s) == s)
  {
    var i, j := TrimCuts(s);
    if Trimmed(s) { CleanIsKept(s); }
  }

  /** A sequence of white-space runes. */
  ghost predicate White(w: Text)
    decreases |w|
  {
    w == [] || exists n | 1 <= n <= |w| :: IsSpace(w[..n]) && White(w[n..])
  }

  lemma {:induction false} WhiteAppend(w: Text, rune: Text)
    requires White(w) && IsSpace(rune)
    ensures White(w + rune)
    decreases |w|
  {
    hide IsSpace;
    RunesAreShort(rune);
    if w == [] {
      assert w + rune == rune && rune[..|rune|] == rune && rune[|rune|..] == [];
    } else {
      var n :| 1 <= n <= |w| && IsSpace(w[..n]) && White(w[n..]);
      WhiteAppend(w[n..], rune);
      assert (w + rune)[..n] == w[..n] && (w + rune)[n..] == w[n..] + rune;
    }
  }

  lemma {:induction false} WhiteLast(w: Text) returns (n: nat)
    requires White(w) && w != []
    ensures n < |w| && White(w[..n]) && IsSpace(w[n..])
    decreases |w|
  {
    hide IsSpace;
    var k :| 1 <= k <= |w| && IsSpace(w[..k]) && White(w[k..]);
    if k == |w| {
      n := 0;
      assert w[..k] == w[n..];
    } else {
      var m := WhiteLast(w[k..]);
      n := k + m;
      assert w[..n][..k] == w[..k] && w[..n][k..] == w[k..][..m] && w[k..][m..] == w[n..];
    }
  }

  /** No rune is the beginning or the end of another one, and only their first bytes are below
      128 or above 191. */
  lemma RunesAreSelfDelimiting(s: Text, n: nat)
    requires n <= |s|
    ensures IsSpace(s[..n]) ==> SpaceAtStart(s) == n && (forall k | 1 <= k < n :: 128 <= s[k] < 192)
    ensures IsSpace(s[..n]) ==> !(128 <= s[0] < 192)
  {
    assert forall k | 0 <= k < n :: s[..n][k] == s[k];
  }

  lemma RuneAtEnd(s: Text, n: nat)
    requires n <= |s| && IsSpace(s[|s| - n..])
    ensures SpaceAtEnd(s) == n
  {
    var w := s[|s| - n..];
    assert |w| >= 1 && w[|w| - 1] == s[|s| - 1];
    assert |w| >= 2 ==> w[|w| - 2] == s[|s| - 2];
  }

  lemma {:induction false} TrimLeftDropsWhite(w: Text, y: Text)
    requires White(w)
    ensures TrimLeft(w + y) == TrimLeft(y)
    decreases |w|
  {
    hide IsSpace, SpaceAtStart;
    if w == [] {
      assert w + y == y;
    } else {
      var n :| 1 <= n <= |w| && IsSpace(w[..n]) && White(w[n..]);
      assert (w + y)[..n] == w[..n] && (w + y)[n..] == w[n..] + y;
      RunesAreSelfDelimiting(w + y, n);
      TrimLeftDropsWhite(w[n..], y);
    }
  }

  lemma {:induction false} TrimRightDropsWhite(y: Text, w: Text)
    requires White(w)
    ensures TrimRight(y + w) == TrimRight(y)
    decreases |w|
  {
    hide IsSpace, SpaceAtEnd;
    if w == [] {
      assert y + w == y;
    } else {
      var n := WhiteLast(w);
      var s := y + w;
      assert s[|y| + n..] == w[n..] && s[..|y| + n] == y + w[..n];
      RuneAtEnd(s, |w| - n);
      TrimRightDropsWhite(y, w[..n]);
    }
  }

  /** White space after a clean text does not give it white space in front. */
  lemma CleanBeforeWhite(x: Text, w: Text)
    requires x != [] && NoSpaceFirst(x) && White(w)
    ensures NoSpaceFirst(x + w)
  {
    forall k | 0 <= k <= |x + w| ensures !IsSpace((x + w)[..k]) {
      if k <= |x| {
        assert (x + w)[..k] == x[..k];
      } else {
        var n :| 1 <= n <= |w| && IsSpace(w[..n]) && White(w[n..]);
        RunesAreSelfDelimiting(w, n);
        RunesAreSelfDelimiting(x + w, k);
        assert (x + w)[|x|] == w[0];
      }
    }
  }

  lemma {:induction false} TrimLeftIsWhite(s: Text) returns (w: Text)
    ensures White(w) && s == w + TrimLeft(s)
    decreases |s|
  {
    hide IsSpace, SpaceAtStart;
    var n := SpaceAtStart(s);
    w := [];
    if n > 0 {
      var v := TrimLeftIsWhite(s[n..]);
      w := s[..n] + v;
      assert w[..n] == s[..n] && w[n..] == v;
    }
  }

  lemma {:induction false} TrimRightIsWhite(s: Text) returns (w: Text)
    ensures White(w) && s == TrimRight(s) + w
    decreases |s|
  {
    hide IsSpace, SpaceAtEnd;
    var n := SpaceAtEnd(s);
    w := [];
    if n > 0 {
      var v := TrimRightIsWhite(s[..|s| - n]);
      w := v + s[|s| - n..];
      WhiteAppend(v, s[|s| - n..]);
    }
  }

  /** s is x with white space before and after it. */
  ghost predicate Padded(s: Text, x: Text) { exists l, r :: White(l) && White(r) && s == l + x + r }

  /** What TrimSpace does: x is what is left of s exactly when s is x between two texts of white
      space and x has no white space at its ends. */
  lemma TrimExactly(s: Text, x: Text)
    ensures Trim(s) == x <==> Trimmed(x) && Padded(s, x)
  {
    hide IsSpace, White, NoSpaceFirst, NoSpaceLast;
    TrimIsTrimmed(s);
    if Trim(s) == x {
      var l := TrimLeftIsWhite(s);
      var r := TrimRightIsWhite(TrimLeft(s));
      assert s == l + x + r;
    }
    forall l, r | White(l) && White(r) && s == l + x + r && Trimmed(x)
      ensures Trim(s) == x
    {
      TrimOfPadded(l, x, r);
    }
  }

  lemma PaddedMore(s: Text, x: Text, rune: Text)
    requires Padded(s, x) && IsSpace(rune)
    ensures Padded(s + rune, x)
  {
    hide White;
    var l, r :| White(l) && White(r) && s == l + x + r;
    WhiteAppend(r, rune);
    assert s + rune == l + x + (r + rune);
  }

  lemma TrimOfPadded(l: Text, x: Text, r: Text)
    requires White(l) && White(r) && Trimmed(x)
    ensures Trim(l + x + r) == x
  {
    hide IsSpace, White, NoSpaceFirst, NoSpaceLast, TrimLeft, TrimRight;
    assert l + x + r == l + (x + r);
    TrimLeftDropsWhite(l, x + r);
    if x == [] {
      assert x + r == r && r + [] == r;
      TrimLeftDropsWhite(r, []);
      EmptyStaysEmpty();
    } else {
      CleanBeforeWhite(x, r);
      assert TrimLeft(x + r) == x + r by { NothingToTrimLeft(x + r); }
      TrimRightDropsWhite(x, r);
      assert TrimRight(x) == x by { NothingToTrimRight(x); }
    }
  }

  lemma EmptyStaysEmpty()
    ensures TrimLeft([]) == [] && TrimRight([]) == []
  {
  }

  lemma NothingToTrimLeft(s: Text)
    requires NoSpaceFirst(s)
    ensures TrimLeft(s) == s
  {
    NoneAtStart(s);
    hide IsSpace, SpaceAtStart, NoSpaceFirst;
  }

  lemma NothingToTrimRight(s: Text)
    requires NoSpaceLast(s)
    ensures TrimRight(s) == s
  {
    NoneAtEnd(s);
    hide IsSpace, SpaceAtEnd, NoSpaceLast;
  }
}
