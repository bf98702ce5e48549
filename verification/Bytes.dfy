/** Byte strings, as Go strings and slices are: searching, splitting, joining and decimal text. */
module Bytes {
  type byte = b: int | 0 <= b < 256
  type Text = seq<byte>

  datatype Option<+T> = None | Some(value: T)

  function Lookup<K, V>(m: map<K, V>, k: K): Option<V> {
    if k in m then Some(m[k]) else None
  }

  const COLON: byte := 58
  const DOT: byte := 46
  const ZERO: byte := 48
  const PERCENT: byte := 37
  const OPEN: byte := 91 // '['
  const CLOSE: byte := 93 // ']'

  // ---------------------------------------------------------------- searching

  /** Index of the first occurrence of c in s, or -1. */
  function Index(s: Text, c: byte): (i: int)
    ensures -1 <= i < |s|
    ensures i < 0 <==> c !in s
    ensures i >= 0 ==> s[i] == c && c !in s[..i]
  {
    if s == [] then -1
    else if s[0] == c then 0
    else
      var j := Index(s[1..], c);
      if j < 0 then -1 else
        assert s[..j + 1] == [s[0]] + s[1..][..j];
        j + 1
  }

  /** Index of the last occurrence of c in s, or -1. */
  function LastIndex(s: Text, c: byte): (i: int)
    ensures -1 <= i < |s|
    ensures i < 0 <==> c !in s
    ensures i >= 0 ==> s[i] == c && c !in s[i + 1..]
  {
    if s == [] then -1
    else if s[|s| - 1] == c then |s| - 1
    else
      var t := s[..|s| - 1];
      var i := LastIndex(t, c);
      assert s == t + [s[|s| - 1]];
      assert i >= 0 ==> s[i + 1..] == t[i + 1..] + [s[|s| - 1]];
      i
  }

  lemma LastIndexIs(s: Text, c: byte, k: nat)
    requires k < |s| && s[k] == c && c !in s[k + 1..]
    ensures LastIndex(s, c) == k
  {
  }

  lemma IndexIs(s: Text, c: byte, k: nat)
    requires k < |s| && s[k] == c && c !in s[..k]
    ensures Index(s, c) == k
  {
  }

  function Count(s: Text, c: byte): nat {
    if s == [] then 0 else (if s[0] == c then 1 else 0) + Count(s[1..], c)
  }

  lemma {:induction false} CountConcat(s: Text, t: Text, c: byte)
    ensures Count(s + t, c) == Count(s, c) + Count(t, c)
  {
    if s == [] {
      assert s + t == t;
    } else {
      assert (s + t)[1..] == s[1..] + t;
      CountConcat(s[1..], t, c);
    }
  }

  lemma {:induction false} CountZero(s: Text, c: byte)
    ensures Count(s, c) == 0 <==> c !in s
  {
    if s != [] {
      CountZero(s[1..], c);
      assert s == [s[0]] + s[1..];
    }
  }

  // ------------------------------------------------------- splitting, joining

  /** The parts of s between the separators: one more part than separators. */
  function Split(s: Text, sep: byte): (parts: seq<Text>)
    ensures |parts| >= 1
  {
    if s == [] then [[]]
    else
      var rest := Split(s[1..], sep);
      if s[0] == sep then [[]] + rest else [[s[0]] + rest[0]] + rest[1..]
  }

  function Join(parts: seq<Text>, sep: byte): Text
    requires |parts| >= 1
  {
    if |parts| == 1 then parts[0] else parts[0] + [sep] + Join(parts[1..], sep)
  }

  lemma {:induction false} JoinOfSplit(s: Text, sep: byte)
    ensures Join(Split(s, sep), sep) == s
  {
    if s != [] {
      JoinOfSplit(s[1..], sep);
      var rest := Split(s[1..], sep);
      var parts := Split(s, sep);
      if s[0] == sep {
        assert parts[1..] == rest;
      } else {
        assert parts[1..] == rest[1..];
        if |rest| > 1 {
          assert Join(parts, sep) == [s[0]] + (rest[0] + [sep] + Join(rest[1..], sep));
        }
      }
    }
  }

  lemma {:induction false} SplitPartsFree(s: Text, sep: byte)
    ensures forall p | p in Split(s, sep) :: sep !in p
  {
    if s != [] {
      SplitPartsFree(s[1..], sep);
    }
  }

  lemma {:induction false} SplitOfJoin(parts: seq<Text>, sep: byte)
    requires |parts| >= 1
    requires forall p | p in parts :: sep !in p
    ensures Split(Join(parts, sep), sep) == parts
    decreases |parts|, |parts[0]|
  {
    var s := Join(parts, sep);
    if parts[0] == [] {
      if |parts| > 1 {
        assert s == [sep] + Join(parts[1..], sep);
        assert s[1..] == Join(parts[1..], sep);
        SplitOfJoin(parts[1..], sep);
      }
    } else {
      var h := parts[0];
      var shorter := [h[1..]] + parts[1..];
      assert shorter[1..] == parts[1..];
      assert s[0] == h[0] && s[1..] == Join(shorter, sep);
      assert forall b | b in h[1..] :: b in h;
      SplitOfJoin(shorter, sep);
      assert h == [h[0]] + h[1..] && h[0] in h;
      assert Split(s, sep) == [[s[0]] + shorter[0]] + shorter[1..];
    }
  }

  lemma {:induction false} SplitCount(s: Text, sep: byte)
    ensures |Split(s, sep)| == Count(s, sep) + 1
  {
    if s != [] {
      SplitCount(s[1..], sep);
    }
  }

  // ------------------------------------------------------------- decimal text

  predicate IsDigit(b: byte) { 48 <= b <= 57 }

  predicate AllDigits(s: Text) { forall b | b in s :: IsDigit(b) }

  /** The shortest decimal text of n. */
  function Decimal(n: nat): (s: Text)
    ensures |s| >= 1 && AllDigits(s)
    ensures s[0] == ZERO ==> n == 0 && |s| == 1
  {
    if n < 10 then [48 + n] else Decimal(n / 10) + [48 + n % 10]
  }

  function Value(s: Text): nat
    requires AllDigits(s)
  {
    if s == [] then 0
    else
      assert IsDigit(s[|s| - 1]);
      Value(s[..|s| - 1]) * 10 + (s[|s| - 1] as int - 48)
  }

  /** Decimal text without a superfluous leading zero. */
  predicate Canonical(s: Text) {
    s != [] && AllDigits(s) && (s[0] == ZERO ==> |s| == 1)
  }

  lemma {:induction false} ValueOfDecimal(n: nat)
    ensures Value(Decimal(n)) == n
  {
    if n >= 10 {
      ValueOfDecimal(n / 10);
      assert Decimal(n)[..|Decimal(n)| - 1] == Decimal(n / 10);
    }
  }

  lemma {:induction false} ValuePositive(s: Text)
    requires Canonical(s) && s[0] != ZERO
    ensures Value(s) >= 1
  {
    assert IsDigit(s[0]) && IsDigit(s[|s| - 1]);
    if |s| > 1 {
      ValuePositive(s[..|s| - 1]);
    }
  }

  lemma {:induction false} DecimalOfValue(s: Text)
    requires Canonical(s)
    ensures Decimal(Value(s)) == s
  {
    assert IsDigit(s[|s| - 1]);
    if |s| > 1 {
      var t := s[..|s| - 1];
      assert Canonical(t);
      DecimalOfValue(t);
      ValuePositive(t);
      assert s == t + [s[|s| - 1]];
    } else {
      assert s[..0] == [];
    }
  }

  lemma DecimalHasNo(n: nat, c: byte)
    requires !IsDigit(c)
    ensures c !in Decimal(n)
  {
    assert AllDigits(Decimal(n));
  }
}
