/**
  The wire form of heads and of the items without structure, octet by octet (section 3 of RFC 8949): which bytes are
  read as what, and that what is written is the shortest of them (section 4.1 of RFC 8949).
  */
module Heads {
  import opened Wrappers
  import opened ByteStrings
  import opened RustTypes
  import opened Cbor
  import opened Canonical

  /** How the argument of a head is spelled: in the initial byte, or in 1, 2, 4 or 8 bytes after it. */
  datatype Spelling = Direct | OneByte | TwoBytes | FourBytes | EightBytes

  predicate Fits(w: Spelling, n: nat) {
    match w
    case Direct => n < 24
    case OneByte => n < 0x100
    case TwoBytes => n < 0x1_0000
    case FourBytes => n < 0x1_0000_0000
    case EightBytes => n < 0x1_0000_0000_0000_0000
  }

  function HeadOctets(major: nat, w: Spelling, n: nat): Bytes
    requires major < 8 && Fits(w, n)
  {
    match w
    case Direct => [32 * major + n]
    case OneByte => [32 * major + 24, n]
    case TwoBytes => [32 * major + 25, n / 0x100, n % 0x100]
    case FourBytes =>
      [32 * major + 26, n / 0x100_0000, n / 0x1_0000 % 0x100, n / 0x100 % 0x100, n % 0x100]
    case EightBytes =>
      [32 * major + 27,
       n / 0x100_0000_0000_0000, n / 0x1_0000_0000_0000 % 0x100, n / 0x100_0000_0000 % 0x100, n / 0x1_0000_0000 % 0x100,
       n / 0x100_0000 % 0x100, n / 0x1_0000 % 0x100, n / 0x100 % 0x100, n % 0x100]
  }

  // ---- Digits ----------------------------------------------------------------------------

  lemma TwoDigits(n: nat)
    requires n < 0x1_0000
    ensures FixedBytes(n, 2) == [n / 0x100, n % 0x100]
  {
    assert FixedBytes(n / 0x100, 1) == [n / 0x100];
  }

  lemma FourDigits(n: nat)
    requires n < 0x1_0000_0000
    ensures FixedBytes(n, 4) == [n / 0x100_0000, n / 0x1_0000 % 0x100, n / 0x100 % 0x100, n % 0x100]
  {
    var m := n / 0x1_0000;
    TwoDigits(m);
    assert FixedBytes(n / 0x100, 3) == FixedBytes(n / 0x100 / 0x100, 2) + [n / 0x100 % 0x100];
    assert n / 0x100 / 0x100 == m;
    assert m / 0x100 == n / 0x100_0000;
  }

  lemma EightDigits(n: nat)
    requires n < 0x1_0000_0000_0000_0000
    ensures FixedBytes(n, 8) ==
            [n / 0x100_0000_0000_0000, n / 0x1_0000_0000_0000 % 0x100, n / 0x100_0000_0000 % 0x100, n / 0x1_0000_0000 % 0x100,
             n / 0x100_0000 % 0x100, n / 0x1_0000 % 0x100, n / 0x100 % 0x100, n % 0x100]
  {
    var m := n / 0x1_0000_0000;
    FourDigits(m);
    Quotients(n);
    assert FixedBytes(n, 8) == FixedBytes(n / 0x100, 7) + [n % 0x100];
    assert FixedBytes(n / 0x100, 7) == FixedBytes(n / 0x1_0000, 6) + [n / 0x100 % 0x100];
    assert FixedBytes(n / 0x1_0000, 6) == FixedBytes(n / 0x100_0000, 5) + [n / 0x1_0000 % 0x100];
    assert FixedBytes(n / 0x100_0000, 5) == FixedBytes(m, 4) + [n / 0x100_0000 % 0x100];
  }

  lemma Quotients(n: nat)
    ensures n / 0x100 / 0x100 == n / 0x1_0000
    ensures n / 0x1_0000 / 0x100 == n / 0x100_0000
    ensures n / 0x100_0000 / 0x100 == n / 0x1_0000_0000
    ensures n / 0x1_0000_0000 / 0x100 == n / 0x100_0000_0000
    ensures n / 0x1_0000_0000 / 0x1_0000 == n / 0x1_0000_0000_0000
    ensures n / 0x1_0000_0000 / 0x100_0000 == n / 0x100_0000_0000_0000
  {
  }

  function SpellingWidth(w: Spelling): nat {
    match w
    case Direct => 0
    case OneByte => 1
    case TwoBytes => 2
    case FourBytes => 4
    case EightBytes => 8
  }

  function SpellingInfo(w: Spelling, n: nat): nat {
    match w
    case Direct => n
    case OneByte => 24
    case TwoBytes => 25
    case FourBytes => 26
    case EightBytes => 27
  }

  lemma HeadIsDigits(major: nat, w: Spelling, n: nat)
    requires major < 8 && Fits(w, n)
    ensures HeadOctets(major, w, n) == [32 * major + SpellingInfo(w, n)] + FixedBytes(n, SpellingWidth(w))
  {
    match w
    case Direct =>
    case OneByte => assert FixedBytes(n, 1) == [n];
    case TwoBytes => TwoDigits(n);
    case FourBytes => FourDigits(n);
    case EightBytes => EightDigits(n);
  }

  // ---- Reading ---------------------------------------------------------------------------

  /** Every spelling is read, whatever follows. */
  lemma SpellingIsRead(major: nat, w: Spelling, n: nat, r: Bytes)
    requires major < 8 && Fits(w, n)
    ensures ReadHead(major, HeadOctets(major, w, n) + r) == Ok(n, r)
  {
    var info, digits := SpellingInfo(w, n), FixedBytes(n, SpellingWidth(w));
    HeadIsDigits(major, w, n);
    PowersOf256();
    if !w.Direct? {
      FixedBytesValue(n, SpellingWidth(w));
    }
    AfterFirst(32 * major + info, digits, r);
    AtBoundary(digits, r);
    if w.Direct? {
      NothingBefore(r);
    }
  }

  /** The spelling of the head at the front of `s`. */
  function SpellingOf(s: Bytes): Spelling {
    if s == [] || s[0] % 32 < 24 then Direct
    else if s[0] % 32 == 24 then OneByte
    else if s[0] % 32 == 25 then TwoBytes
    else if s[0] % 32 == 26 then FourBytes
    else EightBytes
  }

  lemma ArgumentFits(info: nat, body: Bytes)
    requires ReadArgument(info, body).Ok?
    ensures var n := ReadArgument(info, body).value;
            if info < 24 then n == info
            else if info == 24 then n < 0x100
            else if info == 25 then n < 0x1_0000
            else if info == 26 then n < 0x1_0000_0000
            else info == 27 && n < 0x1_0000_0000_0000_0000
  {
    PowersOf256();
    if info >= 24 {
      BigEndianBound(body[..ArgumentWidth(info)]);
    }
  }

  /** Nothing else is read: the bytes read are those of a spelling. */
  lemma ReadIsSpelled(major: nat, s: Bytes)
    requires major < 8 && ReadHead(major, s).Ok?
    ensures var n, w := ReadHead(major, s).value, SpellingOf(s);
            Fits(w, n) && s == HeadOctets(major, w, n) + ReadHead(major, s).rest
  {
    hide BigEndian, ReadArgument, FixedBytes, HeadOctets;
    var p, w, body := ReadHead(major, s), SpellingOf(s), s[1..];
    var info, width := s[0] % 32, SpellingWidth(w);
    ArgumentFits(info, body);
    ArgumentIsWritten(info, body);
    HeadIsDigits(major, w, p.value);
    Assoc([s[0]], body[..width], body[width..]);
    SplitAt(s, width);
  }

  lemma SplitAt(s: Bytes, width: nat)
    requires s != [] && width <= |s[1..]|
    ensures s == [s[0]] + (s[1..][..width] + s[1..][width..])
  {
  }

  /** A head is read exactly from the octets of one of its spellings. */
  lemma HeadIsReadExactly(major: nat, s: Bytes, n: u64, r: Bytes)
    requires major < 8
    ensures ReadHead(major, s) == Ok(n, r) <==> exists w :: Fits(w, n) && s == HeadOctets(major, w, n) + r
  {
    if ReadHead(major, s) == Ok(n, r) {
      ReadIsSpelled(major, s);
      assert Fits(SpellingOf(s), n);
    }
    forall w | Fits(w, n) && s == HeadOctets(major, w, n) + r
      ensures ReadHead(major, s) == Ok(n, r)
    {
      SpellingIsRead(major, w, n, r);
    }
  }

  // ---- Writing ---------------------------------------------------------------------------

  /** The spelling with the fewest octets that the argument fits. */
  function ShortestSpelling(n: u64): Spelling {
    if n < 24 then Direct
    else if n < 0x100 then OneByte
    else if n < 0x1_0000 then TwoBytes
    else if n < 0x1_0000_0000 then FourBytes
    else EightBytes
  }

  lemma HeadIsWritten(major: nat, n: u64)
    requires major < 8
    ensures Fits(ShortestSpelling(n), n) && EncHead(major, n) == HeadOctets(major, ShortestSpelling(n), n)
  {
    HeadIsDigits(major, ShortestSpelling(n), n);
  }

  /** Of all heads that are read as `n`, the one written is the only shortest. */
  lemma WrittenHeadIsShortest(major: nat, s: Bytes)
    requires major < 8 && ReadHead(major, s).Ok?
    ensures var p := ReadHead(major, s);
            && |EncHead(major, p.value)| <= |s| - |p.rest|
            && (|EncHead(major, p.value)| == |s| - |p.rest| ==> s == EncHead(major, p.value) + p.rest)
  {
    ReadIsSpelled(major, s);
    HeadIsWritten(major, ReadHead(major, s).value);
  }

  /** 1, 2, 3, 5 or 9 octets, by the size of the argument. */
  lemma HeadLength(major: nat, n: u64)
    requires major < 8
    ensures |EncHead(major, n)| ==
            if n < 24 then 1
            else if n < 0x100 then 2
            else if n < 0x1_0000 then 3
            else if n < 0x1_0000_0000 then 5
            else 9
  {
    HeadIsWritten(major, n);
  }

  /** A head is called shortest exactly when no spelling of its argument takes fewer octets. */
  lemma ShortestHeadMeans(s: Bytes)
    requires s != [] && ReadHead(s[0] / 32, s).Ok?
    ensures var major, n := s[0] / 32, ReadHead(s[0] / 32, s).value;
            && Fits(SpellingOf(s), n)
            && (ShortestHead(s) <==>
                  forall w :: Fits(w, n) ==> |HeadOctets(major, SpellingOf(s), n)| <= |HeadOctets(major, w, n)|)
  {
    hide BigEndian, FixedBytes;
    var major, n := s[0] / 32, ReadHead(s[0] / 32, s).value;
    ReadIsSpelled(major, s);
    assert Fits(ShortestSpelling(n), n);
  }

  // ---- Types -----------------------------------------------------------------------------

  /** Which initial bytes announce which type. */
  lemma TypeTable(s: Bytes)
    ensures TypeOf(s).EndOfInput? <==> s == []
    ensures TypeOf(s).Numeric? <==> s != [] && (s[0] <= 0x1B || 0x20 <= s[0] <= 0x3B)
    ensures TypeOf(s).ByteString? <==> s != [] && 0x40 <= s[0] <= 0x5B
    ensures TypeOf(s).TextString? <==> s != [] && 0x60 <= s[0] <= 0x7B
    ensures TypeOf(s).Array? <==> s != [] && 0x80 <= s[0] <= 0x9B
    ensures TypeOf(s).ArrayIndef? <==> s != [] && s[0] == 0x9F
    ensures TypeOf(s).Tag? <==> s != [] && 0xC0 <= s[0] <= 0xDB
    ensures TypeOf(s).Null? <==> s != [] && s[0] == 0xF6
    ensures IsArray(TypeOf(s)) <==> s != [] && (0x80 <= s[0] <= 0x9B || s[0] == 0x9F)
  {
  }

  // ---- Items without structure -------------------------------------------------------------

  /** An integer is read from major type 0 or, as `-1 - n`, from major type 1. */
  lemma IntIsReadExactly(s: Bytes, n: CborInt, r: Bytes)
    ensures DecInt(s) == Ok(n, r) <==> if n >= 0 then ReadHead(0, s) == Ok(n, r) else ReadHead(1, s) == Ok(-1 - n, r)
  {
  }

  /** The narrower readers take the same integers, as far as they fit. */
  lemma NarrowIntsAreReadExactly(s: Bytes, n: int, r: Bytes)
    ensures DecI32(s) == Ok(n, r) <==> -0x8000_0000 <= n < 0x8000_0000 && DecInt(s) == Ok(n, r)
    ensures DecU64(s) == Ok(n, r) <==> 0 <= n < 0x1_0000_0000_0000_0000 && DecInt(s) == Ok(n, r)
    ensures DecU32(s) == Ok(n, r) <==> 0 <= n < 0x1_0000_0000 && DecInt(s) == Ok(n, r)
    ensures DecU16(s) == Ok(n, r) <==> 0 <= n < 0x1_0000 && DecInt(s) == Ok(n, r)
  {
  }

  lemma StringsAreReadExactly(s: Bytes, b: Blob, r: Bytes)
    ensures DecBytes(s) == Ok(b, r) <==> ReadHead(2, s) == Ok(|b|, b + r)
    ensures DecText(s) == Ok(b, r) <==> ReadHead(3, s) == Ok(|b|, b + r) && ValidUtf8(b)
  {
    hide ReadHead, ValidUtf8;
    AtBoundary(b, r);
    StringIsSplit(2, s);
    StringIsSplit(3, s);
  }

  lemma StringIsSplit(major: nat, s: Bytes)
    ensures DecString(major, s).Ok? ==>
              ReadHead(major, s) == Ok(|DecString(major, s).value|, DecString(major, s).value + DecString(major, s).rest)
  {
  }

  lemma RestIsReadExactly(s: Bytes, n: u64, r: Bytes)
    ensures DecNull(s) == Ok((), r) <==> s == [0xF6] + r
    ensures DecTag(s) == Ok(n, r) <==> ReadHead(6, s) == Ok(n, r)
    ensures DecArrayHead(s) == Ok(n, r) <==> ReadHead(4, s) == Ok(n, r)
    ensures DecArray(s) == Ok(Some(n), r) <==> ReadHead(4, s) == Ok(n, r)
    ensures DecArray(s) == Ok(None, r) <==> s == [0x9F] + r
  {
    AtBoundary([0xF6], r);
    AtBoundary([0x9F], r);
    if s != [] {
      assert s == [s[0]] + s[1..];
    }
  }
}
