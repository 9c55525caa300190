/**
  What the octets of a text and of an object identifier stand for: sequences of Unicode scalar values in UTF-8
  (RFC 3629), and of arcs in base 128 (clause 8.19 of X.690).
  */
module Encodings {
  import opened ByteStrings
  import opened RustTypes

  // ---- UTF-8 -----------------------------------------------------------------------------

  /** Every code point but the surrogates. */
  type Scalar = c: nat | c <= 0xD7FF || 0xE000 <= c <= 0x10_FFFF

  function ScalarOctets(c: Scalar): (b: Bytes)
    ensures b != []
  {
    if c < 0x80 then [c]
    else if c < 0x800 then [0xC0 + c / 0x40, 0x80 + c % 0x40]
    else if c < 0x1_0000 then [0xE0 + c / 0x1000, 0x80 + c / 0x40 % 0x40, 0x80 + c % 0x40]
    else [0xF0 + c / 0x4_0000, 0x80 + c / 0x1000 % 0x40, 0x80 + c / 0x40 % 0x40, 0x80 + c % 0x40]
  }

  function TextOctets(cs: seq<Scalar>): Bytes {
    if cs == [] then [] else ScalarOctets(cs[0]) + TextOctets(cs[1..])
  }

  lemma ScalarIsValid(c: Scalar, t: Bytes)
    requires ValidUtf8(t)
    ensures ValidUtf8(ScalarOctets(c) + t)
  {
    var b := ScalarOctets(c);
    AtBoundary(b, t);
    assert c >= 0x800 && c < 0x1_0000 ==> ThreeByteLead(b[0], b[1]);
    assert c >= 0x1_0000 ==> FourByteLead(b[0], b[1]);
  }

  lemma TwoByteScalar(a: byte, b: byte) returns (c: Scalar)
    requires 0xC2 <= a <= 0xDF && Continuation(b)
    ensures ScalarOctets(c) == [a, b]
  {
    var x: int, y: int := a, b;
    c := (x - 0xC0) * 0x40 + (y - 0x80);
  }

  lemma ThreeByteScalar(a: byte, b: byte, d: byte) returns (c: Scalar)
    requires ThreeByteLead(a, b) && Continuation(d)
    ensures ScalarOctets(c) == [a, b, d]
  {
    var x: int, y: int, z: int := a - 0xE0, b - 0x80, d - 0x80;
    var n := x * 0x1000 + y * 0x40 + z;
    assert n / 0x40 == x * 0x40 + y && n / 0x1000 == x;
    c := n;
  }

  lemma FourByteScalar(a: byte, b: byte, d: byte, e: byte) returns (c: Scalar)
    requires FourByteLead(a, b) && Continuation(d) && Continuation(e)
    ensures ScalarOctets(c) == [a, b, d, e]
  {
    var x: int, y: int, z: int, w: int := a - 0xF0, b - 0x80, d - 0x80, e - 0x80;
    var n := x * 0x4_0000 + y * 0x1000 + z * 0x40 + w;
    assert n / 0x40 == x * 0x1000 + y * 0x40 + z && n / 0x1000 == x * 0x40 + y && n / 0x4_0000 == x;
    c := n;
  }

  /** The first octet selects how many octets a scalar value takes. */
  lemma LeadSelects(s: Bytes)
    requires s != [] && ValidUtf8(s)
    ensures s[0] < 0x80 ==> ValidUtf8(s[1..])
    ensures 0x80 <= s[0] <= 0xDF ==> |s| >= 2 && 0xC2 <= s[0] && Continuation(s[1]) && ValidUtf8(s[2..])
    ensures 0xE0 <= s[0] <= 0xEF ==> |s| >= 3 && ThreeByteLead(s[0], s[1]) && Continuation(s[2]) && ValidUtf8(s[3..])
    ensures 0xF0 <= s[0] ==>
              |s| >= 4 && FourByteLead(s[0], s[1]) && Continuation(s[2]) && Continuation(s[3]) && ValidUtf8(s[4..])
  {
  }

  lemma FirstScalar(s: Bytes) returns (c: Scalar, t: Bytes)
    requires s != [] && ValidUtf8(s)
    ensures s == ScalarOctets(c) + t && ValidUtf8(t)
  {
    hide ScalarOctets, ValidUtf8, ThreeByteLead, FourByteLead, Continuation;
    LeadSelects(s);
    if s[0] < 0x80 {
      c, t := s[0], s[1..];
      OneByteScalar(c);
      assert s == [s[0]] + t;
    } else if s[0] <= 0xDF {
      t := s[2..];
      c := TwoByteScalar(s[0], s[1]);
      assert s == [s[0], s[1]] + t;
    } else if s[0] <= 0xEF {
      t := s[3..];
      c := ThreeByteScalar(s[0], s[1], s[2]);
      assert s == [s[0], s[1], s[2]] + t;
    } else {
      t := s[4..];
      c := FourByteScalar(s[0], s[1], s[2], s[3]);
      assert s == [s[0], s[1], s[2], s[3]] + t;
    }
  }

  lemma OneByteScalar(c: Scalar)
    requires c < 0x80
    ensures ScalarOctets(c) == [c]
  {
  }

  lemma {:induction false} TextIsValid(cs: seq<Scalar>)
    ensures ValidUtf8(TextOctets(cs))
  {
    if cs != [] {
      TextIsValid(cs[1..]);
      ScalarIsValid(cs[0], TextOctets(cs[1..]));
    }
  }

  lemma {:induction false} ScalarsOf(s: Bytes) returns (cs: seq<Scalar>)
    requires ValidUtf8(s)
    ensures s == TextOctets(cs)
    decreases |s|
  {
    hide ValidUtf8, ScalarOctets;
    if s == [] {
      cs := [];
    } else {
      var c, t := FirstScalar(s);
      assert |t| < |s|;
      var later := ScalarsOf(t);
      cs := [c] + later;
      assert cs[1..] == later;
    }
  }

  /** A byte string is a text exactly when it is the UTF-8 form of scalar values. */
  lemma TextIsUtf8Exactly(s: Bytes)
    ensures ValidUtf8(s) <==> exists cs :: s == TextOctets(cs)
  {
    if ValidUtf8(s) {
      var cs := ScalarsOf(s);
      assert s == TextOctets(cs);
    }
    forall cs | s == TextOctets(cs)
      ensures ValidUtf8(s)
    {
      TextIsValid(cs);
    }
  }

  // ---- Object identifiers ------------------------------------------------------------------

  /** The base-128 digits of `n`, each marked as not the last; none for 0. */
  function HigherDigits(n: nat): Bytes {
    if n == 0 then [] else HigherDigits(n / 128) + [0x80 + n % 128]
  }

  function ArcOctets(n: nat): (b: Bytes)
    ensures b != []
  {
    HigherDigits(n / 128) + [n % 128]
  }

  function ArcsOctets(ns: seq<nat>): Bytes {
    if ns == [] then [] else ArcOctets(ns[0]) + ArcsOctets(ns[1..])
  }

  /** No last digit, and no leading zero digit. */
  predicate AreHigherDigits(b: Bytes) {
    && (forall i :: 0 <= i < |b| ==> b[i] >= 0x80)
    && (b != [] ==> b[0] != 0x80)
  }

  lemma {:induction false} HigherDigitsAre(n: nat)
    ensures AreHigherDigits(HigherDigits(n)) && (n > 0 ==> HigherDigits(n) != [])
  {
    if n > 0 {
      HigherDigitsAre(n / 128);
    }
  }

  lemma {:induction false} DigitsOf(b: Bytes) returns (n: nat)
    requires AreHigherDigits(b)
    ensures b == HigherDigits(n) && (b != [] ==> n > 0)
  {
    if b == [] {
      n := 0;
    } else {
      var init, last := b[..|b| - 1], b[|b| - 1];
      var m := DigitsOf(init);
      n := 128 * m + (last - 0x80);
      assert n / 128 == m;
      assert b == init + [last];
    }
  }

  /** The octets of one arc before those of others, if any. */
  lemma ArcThenArcs(digits: Bytes, last: byte, t: Bytes)
    requires AreHigherDigits(digits) && last < 0x80
    ensures ValidOid((digits + [last]) + t) <==> t == [] || ValidOid(t)
  {
    var a := digits + [last];
    var s := a + t;
    assert forall i :: 0 < i < |a| ==> !StartsArc(s, i);
    assert a[0] != 0x80 by {
      assert digits == [] ==> a[0] == last;
    }
    assert forall i :: 0 <= i < |t| ==> s[|a| + i] == t[i];
    assert forall i :: 0 <= i < |t| ==> (StartsArc(s, |a| + i) <==> StartsArc(t, i));
    if ValidOid(s) && t != [] {
      forall i | 0 <= i < |t| && StartsArc(t, i)
        ensures t[i] != 0x80
      {
        assert StartsArc(s, |a| + i);
      }
    }
    if t == [] || ValidOid(t) {
      forall i | 0 <= i < |s| && StartsArc(s, i)
        ensures s[i] != 0x80
      {
        if i >= |a| {
          assert StartsArc(t, i - |a|);
        }
      }
    }
  }

  lemma {:induction false} ArcsAreValid(ns: seq<nat>)
    requires ns != []
    ensures ValidOid(ArcsOctets(ns))
  {
    HigherDigitsAre(ns[0] / 128);
    ArcThenArcs(HigherDigits(ns[0] / 128), ns[0] % 128, ArcsOctets(ns[1..]));
    if |ns| > 1 {
      ArcsAreValid(ns[1..]);
    }
  }

  /** The end of the first arc. */
  lemma {:induction false} FirstArcEnd(s: Bytes, from: nat) returns (k: nat)
    requires s != [] && s[|s| - 1] < 0x80 && from < |s|
    ensures from <= k < |s| && s[k] < 0x80 && forall i :: from <= i < k ==> s[i] >= 0x80
    decreases |s| - from
  {
    k := from;
    if s[from] >= 0x80 {
      k := FirstArcEnd(s, from + 1);
    }
  }

  lemma {:induction false} ArcsOf(s: Bytes) returns (ns: seq<nat>)
    requires ValidOid(s)
    ensures ns != [] && s == ArcsOctets(ns)
    decreases |s|
  {
    var k := FirstArcEnd(s, 0);
    var digits, last, t := s[..k], s[k], s[k + 1..];
    assert s == (digits + [last]) + t;
    assert StartsArc(s, 0);
    ArcThenArcs(digits, last, t);
    var m := DigitsOf(digits);
    var n := 128 * m + last;
    assert n / 128 == m && n % 128 == last;
    var later: seq<nat> := [];
    if t != [] {
      later := ArcsOf(t);
    }
    ns := [n] + later;
    assert ns[1..] == later;
  }

  /** A byte string is kept as an object identifier exactly when it is the base-128 form of one or more arcs. */
  lemma OidIsArcsExactly(s: Bytes)
    ensures ValidOid(s) <==> exists ns :: ns != [] && s == ArcsOctets(ns)
  {
    if ValidOid(s) {
      var ns := ArcsOf(s);
      assert ns != [] && s == ArcsOctets(ns);
    }
    forall ns | ns != [] && s == ArcsOctets(ns)
      ensures ValidOid(s)
    {
      ArcsAreValid(ns);
    }
  }
}
