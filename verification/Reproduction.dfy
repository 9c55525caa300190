/**
  When re-encoding gives back the very bytes that were decoded, which a signature computed over those bytes depends
  on (section 3.1.12 of draft-ietf-cose-cbor-encoded-cert-19): exactly when the bytes are canonical.
  */
module Reproduction {
  import opened ByteStrings
  import opened RustTypes
  import opened Cbor
  import opened Canonical
  import opened Common
  import opened Names
  import opened Algorithms
  import opened FieldReproduction
  import opened Extensions
  import opened ExtensionProperties
  import opened Certificates
  import opened CertificateProperties
  import opened Rfc3779
  import opened Rfc3779Reproduction
  import opened BasicConstraint
  import opened ExtKeyUsages
  import opened GeneralNames
  import opened DistributionPoints
  import opened AuthorityKeys
  import opened DirectoryAttributes
  import opened PairLists
  import opened ValueReproduction

  // ---- Extensions ------------------------------------------------------------------------

  /** A value of the kind `id` selects; what is not assigned is taken as it stands. */
  predicate CanonicalValue(id: int, s: Bytes) {
    if id == 3 || id == 25 then CanonicalAltName(s)
    else if id == 5 || id == 29 then CanonicalPoints(s)
    else if id == 6 then CanonicalPolicies(s)
    else if id == 7 then CanonicalAuthorityKey(s)
    else if id == 8 then CanonicalExtKeyUsage(s)
    else if id == 9 || id == 31 then CanonicalIdAndTexts(s)
    else if id == 24 then CanonicalDirectory(s)
    else if id == 26 then CanonicalNameConstraints(s)
    else if id == 27 then CanonicalMappings(s)
    else if id == 28 then CanonicalPolicyConstraints(s)
    else if id == 32 || id == 34 then CanonicalFamilies(s)
    else if id == 33 || id == 35 then CanonicalAsIdentifiers(s)
    else if id == 38 then CanonicalVec(DecU32, s)
    else IsAssignedId(id) && id != 36 ==> ShortestHead(s)
  }

  ghost predicate ValueReproduced(id: int, s: Bytes)
    requires DecValue(id, s).Ok?
  {
    var d := DecValue(id, s);
    EncValue(d.value).Some? && EncValue(d.value).value + d.rest == s
  }

  lemma LowValueReproduced(id: int, s: Bytes)
    requires DecValue(id, s).Ok? && 1 <= id <= 9
    ensures ValueReproduced(id, s) <==> CanonicalValue(id, s)
  {
    hide EncBytes, EncInt, EncAltName, EncBasicConstraints, EncPoints, EncPolicies, EncAuthorityKey, EncExtKeyUsage, EncIdAndTexts;
    hide DecBytes, DecAltName, DecBasicConstraints, DecPoints, DecPolicies, DecAuthorityKey, DecExtKeyUsage, DecIdAndTexts;
    hide CanonicalAltName, CanonicalPoints, CanonicalPolicies, CanonicalAuthorityKey, CanonicalExtKeyUsage, CanonicalIdAndTexts;
    hide ShortestHead, DecU32;
    match DecValue(id, s).value
    case SubjectKeyIdentifier(_) => BytesReproduced(s);
    case KeyUsage(_) => U32Reproduced(s);
    case SubjectAltName(_) => AltNameReproduced(s);
    case BasicConstraintsValue(_) => BasicConstraintsReproduced(s);
    case CrlDistributionPoints(_) => PointsReproduced(s);
    case CertificatePolicies(_) => PoliciesReproduced(s);
    case AuthorityKeyValue(_) => AuthorityKeyReproduced(s);
    case ExtKeyUsage(_) => ExtKeyUsageReproduced(s);
    case AuthorityInfoAccess(_) => IdAndTextsReproduced(s);
  }

  lemma U32Reproduced(s: Bytes)
    requires DecU32(s).Ok?
    ensures EncInt(DecU32(s).value) + DecU32(s).rest == s <==> ShortestHead(s)
  {
    HeadReproduced(UNSIGNED, s);
  }

  lemma MiddleValueReproduced(id: int, s: Bytes)
    requires DecValue(id, s).Ok? && 24 <= id <= 31
    ensures ValueReproduced(id, s) <==> CanonicalValue(id, s)
  {
    hide EncDirectory, EncAltName, EncNameConstraints, EncMappings, EncPolicyConstraints, EncPoints, EncInt, EncIdAndTexts;
    hide DecDirectory, DecAltName, DecNameConstraints, DecMappings, DecPolicyConstraints, DecPoints, DecU32, DecIdAndTexts;
    hide CanonicalDirectory, CanonicalAltName, CanonicalNameConstraints, CanonicalMappings, CanonicalPolicyConstraints;
    hide CanonicalPoints, CanonicalIdAndTexts, ShortestHead;
    match DecValue(id, s).value
    case SubjectDirectoryAttributes(_) => DirectoryReproduced(s);
    case IssuerAltName(_) => AltNameReproduced(s);
    case NameConstraintsValue(_) => NameConstraintsReproduced(s);
    case PolicyMappings(_) => MappingsReproduced(s);
    case PolicyConstraintsValue(_) => PolicyConstraintsReproduced(s);
    case FreshestCrl(_) => PointsReproduced(s);
    case InhibitAnyPolicy(_) => U32Reproduced(s);
    case SubjectInfoAccess(_) => IdAndTextsReproduced(s);
  }

  lemma HighValueReproduced(id: int, s: Bytes)
    requires DecValue(id, s).Ok? && !(1 <= id <= 9) && !(24 <= id <= 31)
    ensures ValueReproduced(id, s) <==> CanonicalValue(id, s)
  {
    hide EncFamilies, EncAsIdentifiers, EncTlsFeatures, DecFamilies, DecAsIdentifiers, DecTlsFeatures, DecRaw, DecNull;
    hide CanonicalFamilies, CanonicalAsIdentifiers, CanonicalVec, ShortestHead;
    match DecValue(id, s).value
    case IpAddrBlocks(_) => FamiliesReproducedExactly(s);
    case AsIdentifiers(_) => AsIdentifiersReproducedExactly(s);
    case IpAddrBlocksV2(_) => FamiliesReproducedExactly(s);
    case AsIdentifiersV2(_) => AsIdentifiersReproducedExactly(s);
    case OcspNoCheck => NullReproduced(s);
    case TlsFeatures(_) => TlsFeaturesReproduced(s);
    case Raw(_) => RawReproduced(s);
  }

  lemma NullReproduced(s: Bytes)
    requires DecNull(s).Ok?
    ensures [NULL] + DecNull(s).rest == s
  {
  }

  /** A value is written again byte for byte exactly when it is canonical. */
  lemma ValueReproducedExactly(id: int, s: Bytes)
    requires DecValue(id, s).Ok?
    ensures ValueReproduced(id, s) <==> CanonicalValue(id, s)
  {
    hide CanonicalValue, ValueReproduced;
    if 1 <= id <= 9 {
      LowValueReproduced(id, s);
    } else if 24 <= id <= 31 {
      MiddleValueReproduced(id, s);
    } else {
      HighValueReproduced(id, s);
    }
  }

  predicate CanonicalOidExtension(s: Bytes) {
    var r := Tail(DecOid(s));
    ShortestHead(s) && ShortestHead(r) && (IsArray(TypeOf(r)) ==> ShortestHead(Tail(DecArrayHead(r))))
  }

  /** The magnitude 2^31 has no sign to be written with. */
  predicate CanonicalIntExtension(s: Bytes) {
    && ShortestHead(s)
    && DecCritical(s).Ok? && DecCritical(s).value.0 < TWO_31
    && CanonicalValue(DecCritical(s).value.0, DecCritical(s).rest)
  }

  predicate CanonicalExtension(s: Bytes) {
    if TypeOf(s).ByteString? then CanonicalOidExtension(s) else CanonicalIntExtension(s)
  }

  lemma OidExtensionReproduced(s: Bytes)
    requires DecOidExtension(s).Ok?
    ensures EncExtension(DecOidExtension(s).value).Some?
    ensures EncExtension(DecOidExtension(s).value).value + DecOidExtension(s).rest == s <==> CanonicalOidExtension(s)
  {
    hide DecBytes, EncBytes, DecArrayHead, EncArrayHead, ShortestHead, EncValue;
    var x, rest := DecOidExtension(s).value, DecOidExtension(s).rest;
    var oid, raw, r := x.id.oid, x.value.raw, DecOid(s).rest;
    if IsArray(TypeOf(r)) {
      WrappedOidReproduced(s, oid, r, DecArrayHead(r).rest, raw, rest);
    } else {
      TwoStringsReproduced(s, oid, r, raw, rest);
    }
  }

  lemma WrappedOidReproduced(s: Bytes, oid: Oid, r: Bytes, r1: Bytes, raw: Blob, rest: Bytes)
    requires DecBytes(s) == Ok(oid, r) && DecArrayHead(r) == Ok(1, r1) && DecBytes(r1) == Ok(raw, rest)
    ensures (EncBytes(oid) + (EncArrayHead(1) + EncBytes(raw))) + rest == s
       <==> ShortestHead(s) && ShortestHead(r) && ShortestHead(r1)
  {
    hide DecBytes, EncBytes, DecArrayHead, EncArrayHead, ShortestHead;
    var h, b := EncArrayHead(1), EncBytes(raw);
    BytesReproduced(s);
    ArrayHeadReproduced(r);
    BytesReproduced(r1);
    BytesRoundTrip(oid, h + (b + rest));
    ArrayHeadRoundTrip(1, b + rest);
    TwoAfterHead(EncBytes(oid), h, b, s, r, r1, rest);
  }

  lemma IntExtensionReproduced(s: Bytes)
    requires DecIntExtension(s).Ok?
    ensures var x := DecIntExtension(s);
            CanonicalIntExtension(s) <==> EncExtension(x.value).Some? && EncExtension(x.value).value + x.rest == s
  {
    hide DecInt, EncInt, DecValue, EncValue, ShortestHead, CanonicalValue;
    var n, x := DecI32(s), DecIntExtension(s);
    IntReproduced(s);
    ValueReproducedExactly(DecCritical(s).value.0, n.rest);
    if EncExtension(x.value).Some? {
      var a, b := EncInt(n.value), EncValue(x.value.value).value;
      Assoc(a, b, x.rest);
      IntRoundTrip(n.value, b + x.rest);
      Joined(a, b + x.rest, s, n.rest);
    } else {
      ValueIsItem(DecCritical(s).value.0, n.rest);
      ValueEncodes(x.value.value);
    }
  }

  lemma ExtensionsReproduce()
    ensures Reproduces(EncExtension, DecExtension, CanonicalExtension)
  {
    hide DecOidExtension, DecIntExtension, EncExtension, CanonicalOidExtension, CanonicalIntExtension, ExtensionTyped;
    forall s: Bytes | DecExtension(s).Ok?
      ensures var x := DecExtension(s);
              CanonicalExtension(s) <==> EncExtension(x.value).Some? && EncExtension(x.value).value + x.rest == s
      ensures var x := DecExtension(s).value;
              EncExtension(x).Some? ==> ReadAgain(DecExtension, EncExtension(x).value)
    {
      if TypeOf(s).ByteString? {
        OidExtensionReproduced(s);
      } else {
        IntExtensionReproduced(s);
      }
      ExtensionIsItems(s);
      if EncExtension(DecExtension(s).value).Some? {
        ExtensionReadsBack(DecExtension(s).value);
      }
    }
  }

  /** A lone KeyUsage is a bare int below 2^31; anything else is an array with a shortest head, of canonical extensions. */
  predicate CanonicalExtensions(s: Bytes) {
    && ShortestHead(s)
    && (if IsArray(TypeOf(s)) then
          && DecExtensions(s).Ok? && !IsSoleKeyUsage(DecExtensions(s).value)
          && Each(|DecExtensions(s).value|, DecExtension, CanonicalExtension, Tail(DecArrayHead(s)))
        else DecCritical(s).Ok? && DecCritical(s).value.0 < TWO_31)
  }

  lemma ExtensionsReproduced(s: Bytes)
    requires DecExtensions(s).Ok?
    ensures var list := DecExtensions(s);
            CanonicalExtensions(s) <==> EncExtensions(list.value).Some? && EncExtensions(list.value).value + list.rest == s
  {
    hide DecExtension, EncExtension, ShortestHead, CanonicalExtension, DecInt, EncInt;
    var list, rest := DecExtensions(s).value, DecExtensions(s).rest;
    if IsArray(TypeOf(s)) {
      ExtensionsReproduce();
      ArrayOfReproduced(2, EncExtension, DecExtension, CanonicalExtension, s);
      if IsSoleKeyUsage(list) && EncExtensions(list).Some? {
        var bits: int := list[0].value.bits;
        IntRoundTrip(if list[0].critical then -bits else bits, rest);
      }
    } else {
      IntReproduced(s);
    }
  }

  // ---- Certificates ----------------------------------------------------------------------

  /** The eleven fields of a CBOR Sequence, each at its place, are canonical. */
  predicate CanonicalSequence(s: Bytes) {
    var s3 := Tail(DecAlgorithm(Tail(DecBigUint(Tail(DecI32(s))))));
    var s6 := Tail(DecNotAfter(Tail(DecTime(Tail(DecOptionalName(s3))))));
    CanonicalFirstFields(s) && CanonicalLastFields(s6)
  }

  predicate CanonicalFirstFields(s: Bytes) {
    var s1 := Tail(DecI32(s));
    var s2 := Tail(DecBigUint(s1));
    var s3 := Tail(DecAlgorithm(s2));
    var s4 := Tail(DecOptionalName(s3));
    var s5 := Tail(DecTime(s4));
    && ShortestHead(s)
    && CanonicalSerial(s1)
    && CanonicalAlgorithm(s2)
    && CanonicalOptionalName(s3)
    && ShortestHead(s4)
    && CanonicalNotAfter(s5)
  }

  predicate CanonicalLastFields(s6: Bytes) {
    var s7 := Tail(DecName(s6));
    var s8 := Tail(DecAlgorithm(s7));
    var s9 := Tail(DecBytes(s8));
    var s10 := Tail(DecExtensions(s9));
    && CanonicalName(s6)
    && CanonicalAlgorithm(s7)
    && ShortestHead(s8)
    && CanonicalExtensions(s9)
    && ShortestHead(s10)
  }

  lemma FirstFieldsReproduced(
    t: TbsCertificate, s: Bytes, s1: Bytes, s2: Bytes, s3: Bytes, s4: Bytes, s5: Bytes, s6: Bytes, later: Bytes)
    requires DecI32(s) == Ok(t.certificateType, s1) && DecBigUint(s1) == Ok(t.serialNumber, s2)
    requires DecAlgorithm(s2) == Ok(t.signatureAlgorithm, s3) && DecOptionalName(s3) == Ok(t.issuer, s4)
    requires DecTime(s4) == Ok(t.notBefore, s5) && DecNotAfter(s5) == Ok(t.notAfter, s6)
    ensures EncFirstFields(t).Some?
    ensures EncFirstFields(t).value + later == s <==> CanonicalFirstFields(s) && later == s6
  {
    hide DecInt, DecBigUint, DecAlgorithm, DecOptionalName, DecTime, DecNotAfter, EncInt, EncBigUint, EncAlgorithm, EncOptionalName;
    hide EncTime, EncNotAfter, ShortestHead, CanonicalSerial, CanonicalAlgorithm, CanonicalOptionalName, CanonicalNotAfter;
    hide OptionalNameTyped;
    IntReproduced(s);
    SerialReproduced(s1);
    AlgorithmReproduced(s2);
    OptionalNameReproduced(s3);
    TimeReproduced(s4);
    NotAfterReproduced(s5);
    var e1, e2, e3, e4 := EncInt(t.certificateType), EncBigUint(t.serialNumber), EncAlgorithm(t.signatureAlgorithm), EncOptionalName(t.issuer);
    var e5, e6 := EncTime(t.notBefore).value, EncNotAfter(t.notAfter).value;
    var t6 := e6 + later;
    var t5 := e5 + t6;
    var t4 := e4 + t5;
    var t3 := e3 + t4;
    var t2 := e2 + t3;
    Assoc(e1, e2 + (e3 + (e4 + (e5 + e6))), later);
    Assoc(e2, e3 + (e4 + (e5 + e6)), later);
    Assoc(e3, e4 + (e5 + e6), later);
    Assoc(e4, e5 + e6, later);
    Assoc(e5, e6, later);
    IntRoundTrip(t.certificateType, t2);
    BigUintRoundTrip(t.serialNumber, t3);
    AlgorithmRoundTrip(t.signatureAlgorithm, t4);
    OptionalNameIsItem(s3);
    OptionalNameRoundTrip(t.issuer, t5);
    TimeRoundTrip(t.notBefore, t6);
    NotAfterRoundTrip(t.notAfter, later);
    Joined(e6, later, s5, s6);
    Joined(e5, t6, s4, s5);
    Joined(e4, t5, s3, s4);
    Joined(e3, t4, s2, s3);
    Joined(e2, t3, s1, s2);
    Joined(e1, t2, s, s1);
  }

  lemma LastFieldsReproduced(c: C509Certificate, s6: Bytes, s7: Bytes, s8: Bytes, s9: Bytes, s10: Bytes, rest: Bytes)
    requires DecName(s6) == Ok(c.tbs.subject, s7) && DecAlgorithm(s7) == Ok(c.tbs.publicKeyAlgorithm, s8)
    requires DecBytes(s8) == Ok(c.tbs.publicKey, s9) && DecExtensions(s9) == Ok(c.tbs.extensions, s10)
    requires DecBytes(s10) == Ok(c.signature, rest)
    ensures CanonicalLastFields(s6) <==> EncLastFields(c).Some? && EncLastFields(c).value + rest == s6
  {
    hide DecName, DecAlgorithm, DecBytes, DecExtensions, EncName, EncAlgorithm, EncBytes, EncExtensions;
    hide ShortestHead, CanonicalName, CanonicalAlgorithm, CanonicalExtensions, NameTyped, ExtensionsTyped;
    NameReproduced(s6);
    AlgorithmReproduced(s7);
    BytesReproduced(s8);
    ExtensionsReproduced(s9);
    BytesReproduced(s10);
    if EncExtensions(c.tbs.extensions).Some? {
      var e7, e8, e9 := EncName(c.tbs.subject), EncAlgorithm(c.tbs.publicKeyAlgorithm), EncBytes(c.tbs.publicKey);
      var e10, e11 := EncExtensions(c.tbs.extensions).value, EncBytes(c.signature);
      var t11 := e11 + rest;
      var t10 := e10 + t11;
      var t9 := e9 + t10;
      var t8 := e8 + t9;
      Assoc(e7, e8 + (e9 + (e10 + e11)), rest);
      Assoc(e8, e9 + (e10 + e11), rest);
      Assoc(e9, e10 + e11, rest);
      Assoc(e10, e11, rest);
      NameIsItem(s6);
      NameRoundTrip(c.tbs.subject, t8);
      AlgorithmRoundTrip(c.tbs.publicKeyAlgorithm, t9);
      BytesRoundTrip(c.tbs.publicKey, t10);
      DecodedAreTyped(s9);
      ExtensionsRoundTrip(c.tbs.extensions, t11);
      Joined(e10, t11, s9, s10);
      Joined(e9, t10, s8, s9);
      Joined(e8, t9, s7, s8);
      Joined(e7, t8, s6, s7);
    }
  }

  lemma DecodedAreTyped(s: Bytes)
    requires DecExtensions(s).Ok?
    ensures ExtensionsTyped(DecExtensions(s).value)
  {
    ExtensionsAreItem(s);
  }

  /** Re-encoding an accepted certificate gives back the bytes it was decoded from exactly when they are canonical. */
  lemma BytesReproducedExactly(s: Bytes)
    requires DecSequence(s).Ok?
    ensures var c := DecSequence(s);
            CanonicalSequence(s) <==> EncSequence(c.value).Some? && EncSequence(c.value).value + c.rest == s
  {
    hide DecI32, DecBigUint, DecAlgorithm, DecOptionalName, DecTime, DecNotAfter, DecName, DecBytes, DecExtensions;
    hide EncFirstFields, EncLastFields, CanonicalFirstFields, CanonicalLastFields;
    var c, rest := DecSequence(s).value, DecSequence(s).rest;
    var s1 := DecI32(s).rest;
    var s2 := DecBigUint(s1).rest;
    var s3 := DecAlgorithm(s2).rest;
    var s4 := DecOptionalName(s3).rest;
    var s5 := DecTime(s4).rest;
    var s6 := DecNotAfter(s5).rest;
    var s7 := DecName(s6).rest;
    var s8 := DecAlgorithm(s7).rest;
    var s9 := DecBytes(s8).rest;
    var s10 := DecExtensions(s9).rest;
    LastFieldsReproduced(c, s6, s7, s8, s9, s10, rest);
    if EncLastFields(c).Some? {
      var last := EncLastFields(c).value;
      FirstFieldsReproduced(c.tbs, s, s1, s2, s3, s4, s5, s6, last + rest);
      Assoc(EncFirstFields(c.tbs).value, last, rest);
    }
  }

  /** The wrapped form adds one head. */
  lemma WrappedBytesReproducedExactly(s: Bytes)
    requires DecCertificate(s).Ok?
    ensures var c := DecCertificate(s);
            ShortestHead(s) && CanonicalSequence(DecArrayHead(s).rest)
            <==> EncCertificate(c.value).Some? && EncCertificate(c.value).value + c.rest == s
  {
    hide DecArrayHead, EncArrayHead, DecSequence, EncSequence, CanonicalSequence, ShortestHead;
    var c, r := DecCertificate(s), DecArrayHead(s).rest;
    BytesReproducedExactly(r);
    ArrayHeadReproduced(s);
    if EncSequence(c.value).Some? {
      var fields := EncSequence(c.value).value;
      Assoc(EncArrayHead(FIELD_COUNT), fields, c.rest);
      ArrayHeadRoundTrip(FIELD_COUNT, fields + c.rest);
      Joined(EncArrayHead(FIELD_COUNT), fields + c.rest, s, r);
    }
  }

  /** What the encoder produces for a typed certificate is canonical. */
  lemma EncodingsAreCanonical(c: C509Certificate, rest: Bytes)
    requires CertificateTyped(c) && EncSequence(c).Some?
    ensures CanonicalSequence(EncSequence(c).value + rest)
  {
    hide DecSequence, EncFirstFields, EncLastFields, CanonicalSequence;
    SequenceRoundTrip(c, rest);
    BytesReproducedExactly(EncSequence(c).value + rest);
    SurvivingReencodes(c);
  }

  lemma SurvivingReencodes(c: C509Certificate)
    requires EncSequence(c).Some?
    ensures EncSequence(Surviving(c)) == EncSequence(c)
  {
    hide EncExtensions, ExtensionsSurviving;
    SurvivorsReencode(c.tbs.extensions);
  }

  /** A certificate has one canonical spelling: canonical inputs that are read as the same one are the same bytes. */
  lemma CanonicalSpellingIsUnique(s: Bytes, t: Bytes)
    requires DecSequence(s).Ok? && DecSequence(s) == DecSequence(t)
    requires CanonicalSequence(s) && CanonicalSequence(t)
    ensures s == t
  {
    hide DecSequence, EncSequence, CanonicalSequence;
    BytesReproducedExactly(s);
    BytesReproducedExactly(t);
  }
}
