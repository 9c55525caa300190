/** Byte strings read as big-endian numbers. */
module ByteStrings {

  type byte = b: int | 0 <= b < 256

  type Bytes = seq<byte>

  function Pow256(n: nat): (p: nat)
    ensures p > 0
  {
    if n == 0 then 1 else 256 * Pow256(n - 1)
  }

  /** The number a big-endian byte string denotes. */
  function BigEndian(s: Bytes): nat {
    if s == [] then 0 else 256 * BigEndian(s[..|s| - 1]) + s[|s| - 1]
  }

  /** The low `width` bytes of `n`, most significant first. */
  function FixedBytes(n: nat, width: nat): (s: Bytes)
    ensures |s| == width
  {
    if width == 0 then [] else FixedBytes(n / 256, width - 1) + [n % 256]
  }

  /** The shortest non-empty big-endian form of `n`; zero is one zero byte. */
  function MinimalBytes(n: nat): (s: Bytes)
    ensures |s| >= 1
    ensures |s| > 1 ==> s[0] != 0
    ensures n > 0 ==> s[0] != 0
  {
    if n < 256 then [n] else MinimalBytes(n / 256) + [n % 256]
  }

  lemma {:induction false} FixedBytesValue(n: nat, width: nat)
    requires n < Pow256(width)
    ensures BigEndian(FixedBytes(n, width)) == n
  {
    if width > 0 {
      FixedBytesValue(n / 256, width - 1);
      assert FixedBytes(n, width)[..width - 1] == FixedBytes(n / 256, width - 1);
    }
  }

  lemma {:induction false} BigEndianBound(s: Bytes)
    ensures BigEndian(s) < Pow256(|s|)
  {
    if s != [] {
      BigEndianBound(s[..|s| - 1]);
    }
  }

  lemma {:induction false} FixedBytesOfBigEndian(s: Bytes)
    ensures FixedBytes(BigEndian(s), |s|) == s
  {
    if s != [] {
      FixedBytesOfBigEndian(s[..|s| - 1]);
      assert s == s[..|s| - 1] + [s[|s| - 1]];
    }
  }

  lemma {:induction false} MinimalBytesValue(n: nat)
    ensures BigEndian(MinimalBytes(n)) == n
  {
    if n < 256 {
      assert [n as byte][..0] == [];
    } else {
      MinimalBytesValue(n / 256);
      var s := MinimalBytes(n);
      assert s[..|s| - 1] == MinimalBytes(n / 256);
    }
  }

  /** A byte string without a superfluous leading zero is the minimal form of its own value. */
  lemma {:induction false} MinimalBytesOfBigEndian(s: Bytes)
    requires |s| >= 1 && (|s| == 1 || s[0] != 0)
    ensures MinimalBytes(BigEndian(s)) == s
  {
    var init := s[..|s| - 1];
    if |s| == 1 {
      assert init == [];
      assert s == [s[0]];
    } else {
      BigEndianPositive(init);
      MinimalBytesOfBigEndian(init);
      assert s == init + [s[|s| - 1]];
    }
  }

  lemma {:induction false} BigEndianPositive(s: Bytes)
    requires s != [] && s[0] != 0
    ensures BigEndian(s) > 0
  {
    if |s| > 1 {
      BigEndianPositive(s[..|s| - 1]);
    }
  }

  /** The leading byte carries the highest weight. */
  lemma {:induction false} BigEndianLead(b: byte, s: Bytes)
    ensures BigEndian([b] + s) == b * Pow256(|s|) + BigEndian(s)
  {
    var t := [b] + s;
    if s == [] {
      assert t[..0] == [];
    } else {
      assert t[..|t| - 1] == [b] + s[..|s| - 1];
      BigEndianLead(b, s[..|s| - 1]);
    }
  }

  /** Dropping leading zeros until none is left (or one byte is) gives the minimal form. */
  lemma DropLeadingZero(s: Bytes)
    requires |s| > 1 && s[0] == 0
    ensures BigEndian(s[1..]) == BigEndian(s)
  {
    BigEndianLead(0, s[1..]);
    assert [0] + s[1..] == s;
  }

  lemma {:induction false} MinimalBytesLength(s: Bytes)
    ensures |MinimalBytes(BigEndian(s))| <= |s| || s == []
  {
    if |s| > 1 && s[0] == 0 {
      DropLeadingZero(s);
      MinimalBytesLength(s[1..]);
    } else if s != [] {
      MinimalBytesOfBigEndian(s);
    }
  }

  // Facts about concatenation, stated once so that no proof has to rediscover them.

  lemma Assoc(a: Bytes, b: Bytes, c: Bytes)
    ensures (a + b) + c == a + (b + c)
  {
  }

  lemma AfterFirst(b: byte, s: Bytes, t: Bytes)
    ensures var u := ([b] + s) + t; u != [] && u[0] == b && u[1..] == s + t
  {
  }

  lemma AtBoundary(a: Bytes, t: Bytes)
    ensures (a + t)[..|a|] == a && (a + t)[|a|..] == t
  {
  }

  lemma NothingBefore(t: Bytes)
    ensures [] + t == t && t + [] == t
  {
  }
}
