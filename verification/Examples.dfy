/**
  Concrete values: the worked examples of draft-ietf-cose-cbor-encoded-cert-19 that tests/vectors.rs repeats, which
  fix the wire form itself, and the values that show where a round trip falls short.
  */
module Examples {
  import opened Wrappers
  import opened ByteStrings
  import opened RustTypes
  import opened Cbor
  import opened Lists
  import opened Chains
  import opened Addresses
  import opened Rfc3779
  import opened Rfc3779Properties
  import opened Common
  import opened BasicConstraint
  import opened ExtKeyUsages
  import opened GeneralNames
  import opened Extensions
  import opened ExtensionProperties
  import opened Names
  import opened Algorithms
  import opened Certificates

  // ---- Appendix A.5 ------------------------------------------------------------------

  /** One more octet is one more base-256 digit. */
  lemma AppendedOctet(s: Bytes, b: byte)
    ensures BigEndian(s + [b]) == 256 * BigEndian(s) + b
  {
    assert (s + [b])[..|s|] == s;
  }

  lemma ThreeOctets(lead: byte, a: byte, b: byte, c: byte)
    ensures BigEndian([lead, a, b, c]) == 0x100_0000 * lead + 0x1_0000 * a + 0x100 * b + c
  {
    assert [lead] + [a] == [lead, a] && [lead, a] + [b] == [lead, a, b] && [lead, a, b] + [c] == [lead, a, b, c];
    AppendedOctet([], lead);
    assert [] + [lead] == [lead];
    AppendedOctet([lead], a);
    AppendedOctet([lead, a], b);
    AppendedOctet([lead, a, b], c);
  }

  const TEST_NET_1: IpAddressOrRange := Prefix(Net(V4([192, 0, 2, 0]), 24))
  const TEST_NET_2: IpAddressOrRange := Prefix(Net(V4([198, 51, 100, 0]), 28))
  const TEST_NET_3: IpAddressOrRange := Prefix(Net(V4([203, 0, 113, 0]), 24))

  lemma Ipv4Frames()
    ensures Resolve(TEST_NET_1) == ResolvedPrefix([192, 0, 2], 0)
    ensures Resolve(TEST_NET_2) == ResolvedPrefix([198, 51, 100, 0], 4)
    ensures Resolve(TEST_NET_3) == ResolvedPrefix([203, 0, 113], 0)
  {
    assert NetworkOctets([192, 0, 2, 0], 24)[..3] == [192, 0, 2];
    assert NetworkOctets([198, 51, 100, 0], 28)[..4] == [198, 51, 100, 0];
    assert NetworkOctets([203, 0, 113, 0], 24)[..3] == [203, 0, 113];
  }

  lemma Ipv4Absolutes()
    ensures AbsoluteFromFramed([192, 0, 2], 0) == Some(29_360_130)
    ensures AbsoluteFromFramed([198, 51, 100, 0], 4) == Some(24_800_093_184)
    ensures AbsoluteFromFramed([203, 0, 113], 0) == Some(30_081_137)
  {
    ThreeOctets(1, 192, 0, 2);
    ThreeOctets(5, 198, 51, 100);
    AppendedOctet([5, 198, 51, 100], 0);
    ThreeOctets(1, 203, 0, 113);
    assert [1] + [192, 0, 2] == [1, 192, 0, 2];
    assert [5] + [198, 51, 100, 0] == [5, 198, 51, 100] + [0];
    assert [1] + [203, 0, 113] == [1, 203, 0, 113];
  }

  /** The three IPv4 prefixes of Appendix A.5 are written as the integers given there. */
  lemma Ipv4PrefixesOfAppendixA5()
    ensures EncEntries([TEST_NET_1, TEST_NET_2, TEST_NET_3])
         == Some(EncInt(29_360_130) + (EncInt(24_770_733_054) + (EncInt(-24_770_012_047) + [])))
  {
    hide EncInt, EncArrayHead, Resolve, AbsoluteFromFramed;
    var xs := [TEST_NET_1, TEST_NET_2, TEST_NET_3];
    Ipv4Frames();
    Ipv4Absolutes();
    assert EncIntEntry(TEST_NET_1, 0) == Some((EncInt(29_360_130), 29_360_130));
    assert EncIntEntry(TEST_NET_2, 29_360_130) == Some((EncInt(24_770_733_054), 24_800_093_184));
    assert EncIntEntry(TEST_NET_3, 24_800_093_184) == Some((EncInt(-24_770_012_047), 30_081_137));
    assert xs[1..] == [TEST_NET_2, TEST_NET_3] && xs[1..][1..] == [TEST_NET_3] && [TEST_NET_3][1..] == [];
    assert EncChain([TEST_NET_3], EncIntEntry, 24_800_093_184) == Some(EncInt(-24_770_012_047) + []);
    assert EncChain([TEST_NET_2, TEST_NET_3], EncIntEntry, 29_360_130)
        == Some(EncInt(24_770_733_054) + (EncInt(-24_770_012_047) + []));
  }

  const DOC_PREFIX: IpAddressOrRange := Prefix(Net(V6([0x20, 0x01, 0x0D, 0xB8, 0x12, 0x34] + Fill(10, 0)), 48))
  const DOC_RANGE: IpAddressOrRange := Range(V6([0x3F, 0xFF, 0x06] + Fill(13, 0)), V6([0x3F, 0xFF, 0x0F] + Fill(13, 0xFF)))

  lemma Ipv6Frames()
    ensures Resolve(DOC_PREFIX) == ResolvedPrefix([0x20, 0x01, 0x0D, 0xB8, 0x12, 0x34], 0)
    ensures Resolve(DOC_RANGE) == ResolvedRange([0x3F, 0xFF, 0x06], [0x3F, 0xFF, 0x0F])
  {
    assert NetworkOctets(DOC_PREFIX.net.addr.octets, 48)[..6] == [0x20, 0x01, 0x0D, 0xB8, 0x12, 0x34];
    TrimmedIsShortest([0x3F, 0xFF, 0x06], 13, 0x00);
    TrimmedIsShortest([0x3F, 0xFF, 0x0F], 13, 0xFF);
  }

  lemma Ipv6Absolutes()
    ensures AbsoluteFromFramed([0x20, 0x01, 0x0D, 0xB8, 0x12, 0x34], 0) == Some(316_663_873_933_876)
    ensures AbsoluteFromFramed([0x3F, 0xFF, 0x06], 0) == Some(20_971_270)
    ensures AbsoluteFromFramed([0x3F, 0xFF, 0x0F], 0) == Some(20_971_279)
  {
    ThreeOctets(1, 0x20, 0x01, 0x0D);
    AppendedOctet([1, 0x20, 0x01, 0x0D], 0xB8);
    AppendedOctet([1, 0x20, 0x01, 0x0D] + [0xB8], 0x12);
    AppendedOctet([1, 0x20, 0x01, 0x0D] + [0xB8] + [0x12], 0x34);
    assert [1] + [0x20, 0x01, 0x0D, 0xB8, 0x12, 0x34] == [1, 0x20, 0x01, 0x0D] + [0xB8] + [0x12] + [0x34];
    ThreeOctets(1, 0x3F, 0xFF, 0x06);
    assert [1] + [0x3F, 0xFF, 0x06] == [1, 0x3F, 0xFF, 0x06];
    ThreeOctets(1, 0x3F, 0xFF, 0x0F);
    assert [1] + [0x3F, 0xFF, 0x0F] == [1, 0x3F, 0xFF, 0x0F];
  }

  /** So are its IPv6 prefix and its range, whose two bounds are both links of the chain. */
  lemma Ipv6EntriesOfAppendixA5()
    ensures EncEntries([DOC_PREFIX, DOC_RANGE])
         == Some(EncInt(316_663_873_933_876) + ((EncArrayHead(2) + (EncInt(-316_663_852_962_606) + EncInt(9))) + []))
  {
    hide EncInt, EncArrayHead, Resolve, AbsoluteFromFramed;
    var xs := [DOC_PREFIX, DOC_RANGE];
    Ipv6Frames();
    Ipv6Absolutes();
    assert EncIntEntry(DOC_PREFIX, 0) == Some((EncInt(316_663_873_933_876), 316_663_873_933_876));
    assert EncIntEntry(DOC_RANGE, 316_663_873_933_876)
        == Some((EncArrayHead(2) + (EncInt(-316_663_852_962_606) + EncInt(9)), 20_971_279));
    assert xs[1..] == [DOC_RANGE] && [DOC_RANGE][1..] == [];
    assert EncChain([DOC_RANGE], EncIntEntry, 316_663_873_933_876)
        == Some((EncArrayHead(2) + (EncInt(-316_663_852_962_606) + EncInt(9))) + []);
  }

  // ---- Section 3.3.1 -----------------------------------------------------------------

  const EXAMPLE_COM: Bytes := [0x65, 0x78, 0x61, 0x6D, 0x70, 0x6C, 0x65, 0x2E, 0x63, 0x6F, 0x6D]

  lemma {:induction false} AsciiIsUtf8(s: Bytes)
    requires forall i :: 0 <= i < |s| ==> s[i] < 0x80
    ensures ValidUtf8(s)
  {
    if s != [] {
      AsciiIsUtf8(s[1..]);
    }
  }

  lemma SmallHead(major: nat, n: nat)
    requires major < 8 && n < 24
    ensures EncHead(major, n) == [32 * major + n]
  {
    assert FixedBytes(n, 0) == [];
  }

  lemma SmallInts()
    ensures EncInt(-4) == [0x23] && EncInt(-1) == [0x20] && EncInt(2) == [0x02] && EncInt(23) == [0x17]
    ensures EncInt(8) == [0x08] && EncInt(3) == [0x03] && EncInt(9) == [0x09]
    ensures EncArrayHead(2) == [0x82] && EncArrayHead(8) == [0x88] && EncHead(TEXT_STRING, 11) == [0x6B]
  {
    SmallHead(NEGATIVE, 3);
    SmallHead(NEGATIVE, 0);
    SmallHead(UNSIGNED, 2);
    SmallHead(UNSIGNED, 23);
    SmallHead(UNSIGNED, 8);
    SmallHead(UNSIGNED, 3);
    SmallHead(UNSIGNED, 9);
    SmallHead(ARRAY, 2);
    SmallHead(ARRAY, 8);
    SmallHead(TEXT_STRING, 11);
  }

  lemma FourInARow<T>(xs: seq<T>, enc: T -> Option<Bytes>, a: Bytes, b: Bytes, c: Bytes, d: Bytes)
    requires |xs| == 4 && enc(xs[0]) == Some(a) && enc(xs[1]) == Some(b) && enc(xs[2]) == Some(c) && enc(xs[3]) == Some(d)
    ensures TryConcatMap(xs, enc) == Some(a + (b + (c + (d + []))))
  {
    assert xs[1..][1..] == xs[2..] && xs[2..][1..] == xs[3..] && xs[3..][1..] == [];
    assert TryConcatMap(xs[3..], enc) == Some(d + []);
    assert TryConcatMap(xs[2..], enc) == Some(c + (d + []));
    assert TryConcatMap(xs[1..], enc) == Some(b + (c + (d + [])));
  }

  const KEY_PURPOSES: Vec<IntOrOid> := [Registry(3), Registry(9)]

  function ExampleHost(): (t: Text)
    ensures t == EXAMPLE_COM
  {
    hide ValidUtf8;
    AsciiIsUtf8(EXAMPLE_COM);
    EXAMPLE_COM
  }

  function CriticalCa(): Extension {
    Extension(Registry(4), true, BasicConstraintsValue(Ca(None)))
  }

  function KeyUsage23(): Extension {
    Extension(Registry(2), false, KeyUsage(23))
  }

  function SigningPurposes(): Extension {
    Extension(Registry(8), false, ExtKeyUsage(KEY_PURPOSES))
  }

  function HostName(): Extension {
    Extension(Registry(3), false, SubjectAltName([GeneralName(2, DnsName(ExampleHost()))]))
  }

  lemma CriticalCaOctets()
    ensures EncExtension(CriticalCa()) == Some([0x23] + [0x20])
  {
    hide EncInt;
    SmallInts();
  }

  lemma KeyUsageOctets()
    ensures EncExtension(KeyUsage23()) == Some([0x02] + [0x17])
  {
    hide EncInt;
    SmallInts();
  }

  lemma KeyPurposesOctets()
    ensures EncExtKeyUsage(KEY_PURPOSES) == [0x82, 0x03, 0x09]
  {
    hide EncInt, EncArrayHead;
    SmallInts();
    assert KEY_PURPOSES[1..] == [Registry(9)] && KEY_PURPOSES[1..][1..] == [];
    assert ConcatMap(KEY_PURPOSES[1..], EncIntOrOid) == [0x09] + [];
  }

  lemma SigningPurposesOctets()
    ensures EncExtension(SigningPurposes()) == Some([0x08] + [0x82, 0x03, 0x09])
  {
    hide EncInt, EncExtKeyUsage;
    SmallInts();
    KeyPurposesOctets();
  }

  lemma HostNameOctets()
    ensures EncExtension(HostName()) == Some([0x03] + ([0x6B] + EXAMPLE_COM))
  {
    hide EncInt, EncHead, EncGeneralNames;
    SmallInts();
  }

  function Section331(): ExtensionList {
    [CriticalCa(), KeyUsage23(), SigningPurposes(), HostName()]
  }

  /** The extension array of section 3.3.1, octet for octet. */
  lemma ExtensionsOfSection331()
    ensures EncExtensions(Section331())
         == Some([0x88] + (([0x23] + [0x20]) + (([0x02] + [0x17])
                 + (([0x08] + [0x82, 0x03, 0x09]) + (([0x03] + ([0x6B] + EXAMPLE_COM)) + [])))))
  {
    hide EncExtension, EncInt, EncHead, EncArrayHead, CriticalCa, KeyUsage23, SigningPurposes, HostName;
    SmallInts();
    CriticalCaOctets();
    KeyUsageOctets();
    SigningPurposesOctets();
    HostNameOctets();
    FourInARow(Section331(), EncExtension, [0x23] + [0x20], [0x02] + [0x17], [0x08] + [0x82, 0x03, 0x09], [0x03] + ([0x6B] + EXAMPLE_COM));
  }

  // ---- Where a round trip falls short ------------------------------------------------------

  /** 10.0.0.1/8 comes back as 10.0.0.0/8. */
  lemma HostBitsAreLost()
    ensures Network(Net(V4([10, 0, 0, 1]), 8)) == Net(V4([10, 0, 0, 0]), 8)
    ensures var families := [Family(1, None, Prefixes([Prefix(Net(V4([10, 0, 0, 1]), 8))]))];
            && EncFamilies(families).Some?
            && DecFamilies(EncFamilies(families).value + []) == Ok(
                 [Family(1, None, Prefixes([Prefix(Net(V4([10, 0, 0, 0]), 8))]))], [])
  {
    var entries: Vec<IpAddressOrRange> := [Prefix(Net(V4([10, 0, 0, 1]), 8))];
    var families: TripleVec<IpAddressFamily> := [Family(1, None, Prefixes(entries))];
    assert NetworkOctets([10, 0, 0, 1], 8) == [10, 0, 0, 0];
    FamiliesRoundTrip(families, []);
    assert Mapped(EntryNetwork, entries) == [Prefix(Net(V4([10, 0, 0, 0]), 8))];
    assert FamiliesNetwork(families) == [Family(1, None, Prefixes([Prefix(Net(V4([10, 0, 0, 0]), 8))]))];
  }

  /** A lone critical KeyUsage of 0 comes back non-critical: zero has no sign. */
  lemma LoneZeroLosesItsSign(rest: Bytes)
    ensures EncExtensions(SoleKeyUsage(0, true)).Some?
    ensures DecExtensions(EncExtensions(SoleKeyUsage(0, true)).value + rest) == Ok(SoleKeyUsage(0, false), rest)
  {
    hide EncExtensions, DecExtensions;
    var list := SoleKeyUsage(0, true);
    ExtensionsEncode(list);
    ExtensionsRoundTrip(list, rest);
  }

  lemma LeastInt32(rest: Bytes)
    ensures DecCritical([0x3A, 0x7F, 0xFF, 0xFF, 0xFF] + rest) == Ok((TWO_31, true), rest)
    ensures TypeOf([0x3A, 0x7F, 0xFF, 0xFF, 0xFF] + rest) == Numeric
  {
    var s := [0x3A, 0x7F, 0xFF, 0xFF, 0xFF] + rest;
    ThreeOctets(0x7F, 0xFF, 0xFF, 0xFF);
    assert s[1..][..4] == [0x7F, 0xFF, 0xFF, 0xFF] && s[1..][4..] == rest;
  }

  /** -2^31 is accepted as a lone KeyUsage of magnitude 2^31, for which the encoder has no form. */
  lemma OversizedKeyUsageHasNoForm(rest: Bytes)
    ensures DecExtensions([0x3A, 0x7F, 0xFF, 0xFF, 0xFF] + rest) == Ok(SoleKeyUsage(TWO_31, true), rest)
    ensures EncExtensions(SoleKeyUsage(TWO_31, true)) == None
  {
    hide DecCritical, TypeOf;
    LeastInt32(rest);
  }

  /** In a list it is accepted as an id of the least `i32`, which cannot be negated again. */
  lemma LeastIdHasNoForm(rest: Bytes)
    ensures DecExtension([0x3A, 0x7F, 0xFF, 0xFF, 0xFF] + ([NULL] + rest))
         == Ok(Extension(Registry(-TWO_31), true, Raw([NULL])), rest)
    ensures EncExtension(Extension(Registry(-TWO_31), true, Raw([NULL]))) == None
  {
    hide DecCritical, TypeOf, DecRaw;
    LeastInt32([NULL] + rest);
    RawRoundTrip([NULL], rest);
  }

  /** The smallest fields a certificate can have, around the KeyUsage above. */
  const SMALL_CERTIFICATE: Bytes :=
    [0x8B, 0x00, 0x40, 0x00, 0xF6, 0x00, 0xF6, 0x60, 0x00, 0x40, 0x3A, 0x7F, 0xFF, 0xFF, 0xFF, 0x40]

  function SmallCertificate(): C509Certificate {
    C509Certificate(
      TbsCertificate(0, 0, AlgorithmInt(0), None, 0, None, CommonName(Plain([])), AlgorithmInt(0), [], SoleKeyUsage(TWO_31, true)),
      [])
  }

  lemma ZeroOctet(s: Bytes)
    requires s != [] && s[0] == 0x00
    ensures DecI32(s) == Ok(0, s[1..]) && DecTime(s) == Ok(0, s[1..]) && DecAlgorithm(s) == Ok(AlgorithmInt(0), s[1..])
  {
  }

  lemma EmptyStringOctet(s: Bytes)
    requires s != [] && s[0] == 0x40
    ensures DecBytes(s) == Ok([], s[1..]) && DecBigUint(s) == Ok(0, s[1..])
  {
    assert s[1..][0..] == s[1..];
  }

  lemma NullOctet(s: Bytes)
    requires s != [] && s[0] == NULL
    ensures DecOptionalName(s) == Ok(None, s[1..]) && DecNotAfter(s) == Ok(None, s[1..])
  {
  }

  lemma EmptyNameOctet(s: Bytes)
    requires s != [] && s[0] == 0x60
    ensures DecName(s) == Ok(CommonName(Plain([])), s[1..])
  {
    assert s[1..][0..] == s[1..];
  }

  lemma FirstSmallFields(s: Bytes, rest: Bytes)
    requires s == SMALL_CERTIFICATE + rest
    ensures DecI32(s[1..]) == Ok(0, s[2..]) && DecBigUint(s[2..]) == Ok(0, s[3..])
    ensures DecAlgorithm(s[3..]) == Ok(AlgorithmInt(0), s[4..]) && DecOptionalName(s[4..]) == Ok(None, s[5..])
    ensures DecTime(s[5..]) == Ok(0, s[6..]) && DecNotAfter(s[6..]) == Ok(None, s[7..])
  {
    hide DecI32, DecBigUint, DecAlgorithm, DecOptionalName, DecTime, DecNotAfter, DecBytes;
    ZeroOctet(s[1..]);
    EmptyStringOctet(s[2..]);
    ZeroOctet(s[3..]);
    NullOctet(s[4..]);
    ZeroOctet(s[5..]);
    NullOctet(s[6..]);
  }

  lemma LastSmallFields(s: Bytes, rest: Bytes)
    requires s == SMALL_CERTIFICATE + rest
    ensures DecName(s[7..]) == Ok(CommonName(Plain([])), s[8..]) && DecAlgorithm(s[8..]) == Ok(AlgorithmInt(0), s[9..])
    ensures DecBytes(s[9..]) == Ok([], s[10..]) && DecExtensions(s[10..]) == Ok(SoleKeyUsage(TWO_31, true), s[15..])
    ensures DecBytes(s[15..]) == Ok([], rest)
  {
    hide DecI32, DecBigUint, DecAlgorithm, DecTime, DecName, DecBytes, DecExtensions, EncExtensions, SoleKeyUsage;
    EmptyNameOctet(s[7..]);
    ZeroOctet(s[8..]);
    EmptyStringOctet(s[9..]);
    assert s[10..] == [0x3A, 0x7F, 0xFF, 0xFF, 0xFF] + s[15..];
    OversizedKeyUsageHasNoForm(s[15..]);
    EmptyStringOctet(s[15..]);
    assert s[15..][1..] == rest;
  }

  lemma SmallFieldsAreRead(s: Bytes, rest: Bytes)
    requires s == SMALL_CERTIFICATE + rest
    ensures DecSequence(s[1..]) == Ok(SmallCertificate(), rest)
  {
    hide DecI32, DecBigUint, DecAlgorithm, DecOptionalName, DecTime, DecNotAfter, DecName, DecBytes, DecExtensions, SoleKeyUsage;
    FirstSmallFields(s, rest);
    LastSmallFields(s, rest);
  }

  /** Sixteen bytes that are accepted as a certificate which has no encoding, in neither form. */
  lemma AcceptedCertificateHasNoForm(rest: Bytes)
    ensures DecCertificate(SMALL_CERTIFICATE + rest) == Ok(SmallCertificate(), rest)
    ensures EncSequence(SmallCertificate()) == None && EncCertificate(SmallCertificate()) == None
  {
    hide DecSequence, DecExtensions;
    SmallFieldsAreRead(SMALL_CERTIFICATE + rest, rest);
    OversizedKeyUsageHasNoForm(rest);
  }

  /** An attribute type 0 cannot carry the printableString flag. */
  lemma TypeZeroLosesItsFlag(rest: Bytes)
    ensures DecAttributeType(EncInt(SignedId(0, true)) + rest) == Ok((0, false), rest)
  {
    IntRoundTrip(0, rest);
  }

  const WIDE_PREFIX: IpAddressOrRange :=
    Prefix(Net(V6([0xFF, 0xFF, 0xFF, 0xFF, 0xFF, 0xFF, 0x80] + Fill(9, 0)), 49))

  /** A /49 takes the int form with an integer of 60 bits: seven bytes and seven unused bits. */
  lemma FramedIntegerNeeds60Bits()
    ensures Resolve(WIDE_PREFIX) == ResolvedPrefix([0xFF, 0xFF, 0xFF, 0xFF, 0xFF, 0xFF, 0x80], 7)
    ensures FitsIntForm(Resolve(WIDE_PREFIX)) && EncIntEntry(WIDE_PREFIX, 0).Some?
    ensures EncIntEntry(WIDE_PREFIX, 0).value.1 >= 0x800_0000_0000_0000
  {
    hide EncInt, AbsoluteFromFramed;
    assert NetworkOctets(WIDE_PREFIX.net.addr.octets, 49)[..7] == [0xFF, 0xFF, 0xFF, 0xFF, 0xFF, 0xFF, 0x80];
    AbsoluteRoundTrip([0xFF, 0xFF, 0xFF, 0xFF, 0xFF, 0xFF, 0x80], 7);
    AbsoluteBelow59Bits([0xFF, 0xFF, 0xFF, 0xFF, 0xFF, 0xFF, 0x80], 7);
  }
}
