/**
  Which form each value takes on the wire, said in terms of the value alone: when a family is written as integers, and
  which value each compact form stands for. The numbers of the registries are written out here.
  */
module WireForms {
  import opened Wrappers
  import opened ByteStrings
  import opened RustTypes
  import opened Cbor
  import opened Lists
  import opened Common
  import opened Names
  import opened ExtKeyUsages
  import opened GeneralNames
  import opened DistributionPoints
  import opened AuthorityKeys
  import opened Chains
  import opened Addresses
  import opened Rfc3779
  import opened Rfc3779Properties
  import opened Extensions
  import opened Heads

  // ---- The form of a family ------------------------------------------------------------------

  /** The octets from index 7 on are all `fill`. */
  predicate FilledFrom7(octets: Bytes, fill: byte) {
    forall k :: 7 <= k < |octets| ==> octets[k] == fill
  }

  /** At most 56 bits of a prefix, and at most seven octets of a bound, are significant. */
  predicate Narrow(entry: IpAddressOrRange) {
    match entry
    case Prefix(net) => net.prefixLen <= 56
    case Range(min, max) => FilledFrom7(min.octets, 0x00) && FilledFrom7(max.octets, 0xFF)
  }

  lemma {:induction false} TrimmedIsNarrow(s: Bytes, fill: byte)
    ensures |Trimmed(s, fill)| <= 7 <==> FilledFrom7(s, fill)
  {
    if s != [] && s[|s| - 1] == fill {
      var init := s[..|s| - 1];
      TrimmedIsNarrow(init, fill);
      assert forall k :: 0 <= k < |init| ==> init[k] == s[k];
    } else if |s| > 7 {
      assert s[|s| - 1] != fill;
    }
  }

  /** A family takes the int form exactly when every entry in it is narrow. */
  lemma IntFormExactly(entries: seq<IpAddressOrRange>)
    ensures UsesIntForm(entries) <==> forall entry :: entry in entries ==> Narrow(entry)
  {
    forall entry: IpAddressOrRange
      ensures FitsIntForm(Resolve(entry)) <==> Narrow(entry)
    {
      match entry
      case Prefix(net) =>
      case Range(min, max) =>
        TrimmedIsNarrow(min.octets, 0x00);
        TrimmedIsNarrow(max.octets, 0xFF);
    }
  }

  /** `s` starts with an item of type `ty`, inside an array of two if `entry` is a range. */
  predicate StartsWith(entry: IpAddressOrRange, s: Bytes, ty: CborType) {
    if entry.Prefix? then TypeOf(s) == ty
    else
      && TypeOf(s) == CborType.Array
      && DecArrayHead(s).Ok? && DecArrayHead(s).value == 2 && TypeOf(DecArrayHead(s).rest) == ty
  }

  lemma IntEntryStartsWith(entry: IpAddressOrRange, rest: Bytes)
    requires EncIntEntry(entry, 0).Some?
    ensures StartsWith(entry, EncIntEntry(entry, 0).value.0 + rest, Numeric)
  {
    hide EncInt, EncArrayHead, DecArrayHead, TypeOf;
    match Resolve(entry)
    case ResolvedPrefix(bytes, unusedBits) =>
      IntRoundTrip(AbsoluteFromFramed(bytes, unusedBits).value, rest);
    case ResolvedRange(minBytes, maxBytes) =>
      var min: int, max: int := AbsoluteFromFramed(minBytes, 0).value, AbsoluteFromFramed(maxBytes, 0).value;
      PairTail(EncInt(min), EncInt(max - min), rest);
      IntRoundTrip(min, EncInt(max - min) + rest);
  }

  lemma RawEntryStartsWith(entry: IpAddressOrRange, rest: Bytes)
    ensures StartsWith(entry, EncRawEntry(entry) + rest, CborType.ByteString)
  {
    hide EncBytes, EncArrayHead, DecArrayHead, TypeOf;
    match Resolve(entry)
    case ResolvedPrefix(bytes, unusedBits) =>
      BytesRoundTrip([unusedBits] + bytes, rest);
    case ResolvedRange(minBytes, maxBytes) =>
      var a, b := EncBytes([0] + minBytes), EncBytes([0] + maxBytes);
      PairTail(a, b, rest);
      BytesRoundTrip([0] + minBytes, b + rest);
  }

  /** A non-empty family starts with an integer if every entry in it is narrow, and with a byte string if not. */
  lemma FamilyStartsWith(entries: seq<IpAddressOrRange>, rest: Bytes)
    requires entries != []
    ensures EncEntries(entries).Some?
    ensures StartsWith(entries[0], EncEntries(entries).value + rest,
                       if forall entry :: entry in entries ==> Narrow(entry) then Numeric else CborType.ByteString)
  {
    hide EncIntEntry, EncRawEntry, Narrow, FitsIntForm, Resolve, StartsWith;
    EntriesAreWritable(entries);
    IntFormExactly(entries);
    var first := entries[0];
    if UsesIntForm(entries) {
      var (a, q) := EncIntEntry(first, 0).value;
      var later := EncChain(entries[1..], EncIntEntry, q).value;
      Assoc(a, later, rest);
      IntEntryStartsWith(first, later + rest);
    } else {
      var later := ConcatMap(entries[1..], EncRawEntry);
      Assoc(EncRawEntry(first), later, rest);
      RawEntryStartsWith(first, later + rest);
    }
  }

  // ---- Names -----------------------------------------------------------------------------------

  /** The bare value stands for the attribute with id 1, commonName, as utf8String; nothing else is written bare. */
  lemma BareNameIsCommonName(n: Name, v: SpecialText, rest: Bytes)
    ensures DecName(EncSpecialText(v) + rest) == Ok(Name([Registered(1, false, v)]), rest)
    ensures EncName(n) == EncSpecialText(v) <==> n == Name([Registered(1, false, v)])
  {
    hide EncSpecialText, DecSpecialText;
    SpecialTextRoundTrip(v, rest);
    SpecialTextRoundTrip(v, []);
    if n == Name([Registered(1, false, v)]) {
    } else if IsCommonName(n) {
      SpecialTextRoundTrip(n.attrs[0].value, []);
      assert n.attrs == [n.attrs[0]];
    } else {
      ArrayIsNoText(2 * |n.attrs|, ConcatMap(n.attrs, EncAttribute));
      assert EncSpecialText(v) + [] == EncSpecialText(v);
    }
  }

  /** What starts with an array head is of array type. */
  lemma ArrayIsNoText(n: u64, body: Bytes)
    ensures TypeOf(EncArrayHead(n) + body) == CborType.Array
  {
    ArrayHeadRoundTrip(n, body);
  }

  // ---- MAC addresses -----------------------------------------------------------------------------

  /** EUI-48 and EUI-64 are byte strings of 6 and 8 octets under tag 48, octet for octet. */
  lemma MacAddressOctets(m: MacAddr, rest: Bytes)
    ensures |m| == 6 ==> EncSpecialText(Mac(m)) == [0xD8, 0x30, 0x46] + m
    ensures |m| == 8 ==> EncSpecialText(Mac(m)) == [0xD8, 0x30, 0x48] + m
    ensures DecSpecialText(EncSpecialText(Mac(m)) + rest) == Ok(Mac(m), rest)
  {
    HeadIsWritten(6, 48);
    HeadIsWritten(2, |m|);
    assert ([0xD8, 0x30] + [0x40 + |m|]) + m == [0xD8, 0x30, 0x40 + |m|] + m;
    Assoc([0xD8, 0x30], [0x40 + |m|], m);
    SpecialTextRoundTrip(Mac(m), rest);
  }

  /** No other tag is taken, and what follows the tag is a byte string of one of the two lengths. */
  lemma OnlyMacAddressesAreTagged(s: Bytes, t: u64, r: Bytes)
    requires DecTag(s) == Ok(t, r)
    ensures DecSpecialText(s).Ok? <==> t == 48 && DecBytes(r).Ok? && |DecBytes(r).value| in {6, 8}
    ensures DecSpecialText(s).Ok? ==> DecSpecialText(s) == Ok(Mac(DecBytes(r).value), DecBytes(r).rest)
  {
    hide DecBytes;
    TagOctet(s);
  }

  lemma TagOctet(s: Bytes)
    requires DecTag(s).Ok?
    ensures TypeOf(s) == CborType.Tag
  {
  }

  // ---- General names -----------------------------------------------------------------------------

  /** Bare text stands for one dNSName, kind 2; nothing else is written bare. */
  lemma BareAltNameIsDnsName(names: GeneralNameList, t: Text, rest: Bytes)
    ensures DecAltName(EncText(t) + rest) == Ok([GeneralName(2, DnsName(t))], rest)
    ensures EncAltName(names) == EncText(t) <==> names == [GeneralName(2, DnsName(t))]
  {
    hide EncText, DecText;
    TextRoundTrip(t, rest);
    TextRoundTrip(t, []);
    assert EncText(t) + [] == EncText(t);
    if IsLoneDnsName(names) {
      TextRoundTrip(names[0].value.dns, []);
      assert names == [names[0]];
    } else {
      ArrayIsNoText(2 * |names|, ConcatMap(names, EncGeneralName));
    }
  }

  // ---- Distribution points -------------------------------------------------------------------------

  /** Bare text stands for one point of one URI, without reasons and issuer; nothing else is written bare. */
  lemma BarePointIsOneUri(points: Vec<DistributionPointName>, t: Text, rest: Bytes)
    ensures DecPoints(EncText(t) + rest) == Ok([DistributionPoint([t], None, None)], rest)
    ensures EncPoints(points) == EncText(t) <==> points == [DistributionPoint([t], None, None)]
  {
    hide EncText, DecText;
    TextRoundTrip(t, rest);
    TextRoundTrip(t, []);
    assert EncText(t) + [] == EncText(t);
    if IsBareUri(points) {
      TextRoundTrip(points[0].fullName[0], []);
      assert points == [points[0]] && points[0].fullName == [points[0].fullName[0]];
    } else {
      ArrayIsNoText(|points|, ConcatMap(points, EncPoint));
    }
  }

  /** A full name is bare text exactly when it is one text. */
  lemma BareFullNameIsOneText(v: Vec<Text>, t: Text, rest: Bytes)
    ensures DecFullName(EncText(t) + rest) == Ok([t], rest)
    ensures EncFullName(v) == EncText(t) <==> v == [t]
  {
    hide EncText, DecText;
    TextRoundTrip(t, rest);
    TextRoundTrip(t, []);
    assert EncText(t) + [] == EncText(t);
    if |v| == 1 {
      TextRoundTrip(v[0], []);
      assert v == [v[0]];
    } else {
      ArrayIsNoText(|v|, ConcatMap(v, EncText));
    }
  }

  // ---- Key identifiers and key purposes --------------------------------------------------------------

  /** A bare byte string stands for a key identifier alone. */
  lemma BareAuthorityKeyIsKeyIdentifier(a: AuthorityKeyIdentifier, key: Blob, rest: Bytes)
    ensures DecAuthorityKey(EncBytes(key) + rest) == Ok(AuthorityKey(key, None, None), rest)
    ensures EncAuthorityKey(a) == Some(EncBytes(key)) <==> a == AuthorityKey(key, None, None)
  {
    hide EncBytes, DecBytes;
    BytesRoundTrip(key, rest);
    BytesRoundTrip(key, []);
    BytesRoundTrip(a.keyIdentifier, []);
    assert EncBytes(key) + [] == EncBytes(key);
    if a.certIssuer.Some? && a.certSerial.Some? {
      ArrayIsNoText(3, EncBytes(a.keyIdentifier) + (EncGeneralNames(a.certIssuer.value) + EncBigUint(a.certSerial.value)));
    }
  }

  /** A bare identifier stands for a list of one purpose. */
  lemma BareKeyUsageIsOnePurpose(ids: Vec<IntOrOid>, id: IntOrOid, rest: Bytes)
    ensures DecExtKeyUsage(EncIntOrOid(id) + rest) == Ok([id], rest)
    ensures EncExtKeyUsage(ids) == EncIntOrOid(id) <==> ids == [id]
  {
    hide EncIntOrOid, DecIntOrOid;
    IntOrOidRoundTrip(id, rest);
    IntOrOidRoundTrip(id, []);
    assert EncIntOrOid(id) + [] == EncIntOrOid(id);
    if |ids| == 1 {
      IntOrOidRoundTrip(ids[0], []);
      assert ids == [ids[0]];
    } else {
      ArrayIsNoText(|ids|, ConcatMap(ids, EncIntOrOid));
    }
  }

  /** The reader of key purposes takes arrays of indefinite length. */
  lemma OpenKeyUsageIsRead(ids: Vec<IntOrOid>, rest: Bytes)
    ensures DecExtKeyUsage([0x9F] + (ConcatMap(ids, EncIntOrOid) + ([0xFF] + rest))) == Ok(ids, rest)
  {
    hide DecIntOrOid, EncIntOrOid;
    forall id: IntOrOid, t: Bytes
      ensures DecIntOrOid(EncIntOrOid(id) + t) == Ok(id, t) && StartsItem(EncIntOrOid(id) + t)
    {
      IntOrOidRoundTrip(id, t);
    }
    OpenRunIsRead(ids, EncIntOrOid, DecIntOrOid, rest);
    AtBoundary([0x9F], ConcatMap(ids, EncIntOrOid) + ([0xFF] + rest));
  }

  /** So does the reader of TLS features; every other array must have a definite length. */
  lemma OpenTlsFeaturesAreRead(features: Vec<u32>, rest: Bytes)
    ensures DecTlsFeatures([0x9F] + (ConcatMap(features, EncUint) + ([0xFF] + rest))) == Ok(features, rest)
  {
    hide DecU32, EncInt;
    forall n: u32, t: Bytes
      ensures DecU32(EncUint(n) + t) == Ok(n, t) && StartsItem(EncUint(n) + t)
    {
      UnsignedRoundTrip(n, t);
    }
    OpenRunIsRead(features, EncUint, DecU32, rest);
    AtBoundary([0x9F], ConcatMap(features, EncUint) + ([0xFF] + rest));
  }

  predicate StartsItem(s: Bytes) {
    TypeOf(s) in {Numeric, CborType.ByteString}
  }

  lemma ItemIsNoBreak(s: Bytes)
    ensures StartsItem(s) ==> s != [] && s[0] != 0xFF
  {
  }

  lemma {:induction false} OpenRunIsRead<T>(xs: seq<T>, enc: T -> Bytes, dec: Bytes -> Parsed<T>, rest: Bytes)
    requires forall x: T, t: Bytes :: x in xs ==> dec(enc(x) + t) == Ok(x, t) && StartsItem(enc(x) + t)
    ensures DecUntilBreak(dec, ConcatMap(xs, enc) + ([0xFF] + rest)) == Ok(xs, rest)
  {
    hide StartsItem;
    if xs == [] {
      NothingBefore([0xFF] + rest);
      AtBoundary([0xFF], rest);
    } else {
      var a, later := enc(xs[0]), ConcatMap(xs[1..], enc);
      var t := later + ([0xFF] + rest);
      OpenRunIsRead(xs[1..], enc, dec, rest);
      Assoc(a, later, [0xFF] + rest);
      assert dec(a + t) == Ok(xs[0], t) && StartsItem(a + t);
      assert dec(a + []) == Ok(xs[0], []) && StartsItem(a + []);
      ItemIsNoBreak(a + []);
      ItemIsNoBreak(a + t);
      assert [xs[0]] + xs[1..] == xs;
    }
  }

  // ---- Extensions ------------------------------------------------------------------------------------

  /** A bare int stands for a lone KeyUsage, id 2, critical if negative; nothing else is written as a bare int. */
  lemma BareExtensionsAreKeyUsage(list: ExtensionList, n: i32, rest: Bytes)
    ensures var bits := if n < 0 then -(n as int) else n as int;
            DecExtensions(EncInt(n) + rest) == Ok([Extension(Registry(2), n < 0, KeyUsage(bits))], rest)
    ensures EncExtensions(list) == Some(EncInt(n)) <==>
            && |list| == 1 && list[0].id == Registry(2) && list[0].value.KeyUsage? && list[0].value.bits < 0x8000_0000
            && n == if list[0].critical then -(list[0].value.bits as int) else list[0].value.bits as int
  {
    hide DecInt, EncInt;
    IntRoundTrip(n, rest);
    IntRoundTrip(n, []);
    assert EncInt(n) + [] == EncInt(n);
    if IsSoleKeyUsage(list) {
      var bits: int := list[0].value.bits;
      if bits < 0x8000_0000 {
        IntRoundTrip(if list[0].critical then -bits else bits, []);
        assert EncInt(if list[0].critical then -bits else bits) + [] == EncInt(if list[0].critical then -bits else bits);
      }
    } else if TryConcatMap(list, EncExtension).Some? {
      ArrayIsNoText(2 * |list|, TryConcatMap(list, EncExtension).value);
    }
  }

  // ---- Dates -------------------------------------------------------------------------------------------

  const FIRST_DATE: OffsetDateTime := -377_705_116_800
  const LAST_DATE: OffsetDateTime := 253_402_300_799

  /** A date is read from an int up to the last second of year 9999, and from no other. */
  lemma DatesAreReadExactly(s: Bytes)
    ensures DecTime(s).Ok? <==> DecInt(s).Ok? && 0 <= DecInt(s).value <= 253_402_300_799
    ensures DecTime(s).Ok? ==> DecTime(s) == Ok(DecInt(s).value, DecInt(s).rest)
  {
  }

  /** A date is written exactly from the epoch on, as its seconds; dates run from year -9999 to year 9999. */
  lemma DatesAreWrittenExactly(t: OffsetDateTime)
    ensures FIRST_DATE <= t <= LAST_DATE
    ensures EncTime(t) == if t < 0 then None else Some(EncInt(t))
  {
  }
}
