/** Which values of the extensions other than addresses and AS identifiers are written again byte for byte. */
module ValueReproduction {
  import opened ByteStrings
  import opened RustTypes
  import opened Cbor
  import opened Lists
  import opened Canonical
  import opened Common
  import opened Names
  import opened FieldReproduction
  import opened BasicConstraint
  import opened ExtKeyUsages
  import opened GeneralNames
  import opened DistributionPoints
  import opened AuthorityKeys
  import opened DirectoryAttributes
  import opened PairLists

  // ---- General names -----------------------------------------------------------------------

  /** An array of an OID and a byte string, as in two kinds of names. */
  predicate CanonicalOidAndBytes(s: Bytes) {
    var r := Tail(DecArrayHead(s));
    ShortestHead(s) && ShortestHead(r) && ShortestHead(Tail(DecBytes(r)))
  }

  predicate CanonicalGeneralNameValue(kind: i32, s: Bytes) {
    if kind == -1 || kind == 0 then CanonicalOidAndBytes(s)
    else if kind == 4 then CanonicalName(s)
    else IsAssignedKind(kind) ==> ShortestHead(s)
  }

  lemma RawReproduced(s: Bytes)
    requires DecRaw(s).Ok?
    ensures DecRaw(s).value + DecRaw(s).rest == s
  {
    var a := TakenItem(s);
    AtBoundary(a, Skip(s).value);
  }

  lemma TextReproduced(s: Bytes)
    requires DecText(s).Ok?
    ensures EncText(DecText(s).value) + DecText(s).rest == s <==> ShortestHead(s)
  {
    StringReproduced(TEXT_STRING, s);
  }

  lemma OidAndBytesReproduced(s: Bytes)
    requires DecOidAndBytes(s).Ok?
    ensures var d := DecOidAndBytes(s); EncOidAndBytes(d.value.0, d.value.1) + d.rest == s <==> CanonicalOidAndBytes(s)
  {
    hide DecArrayHead, EncArrayHead, DecBytes, EncBytes, ShortestHead;
    var d, r := DecOidAndBytes(s), DecArrayHead(s).rest;
    PairReproduced(s, r, d.value.0, DecBytes(r).rest, d.value.1, d.rest);
  }

  lemma GeneralNameValueReproduced(kind: i32, s: Bytes)
    requires DecGeneralNameValue(kind, s).Ok?
    ensures var d := DecGeneralNameValue(kind, s);
            EncGeneralNameValue(d.value) + d.rest == s <==> CanonicalGeneralNameValue(kind, s)
  {
    hide DecBytes, EncBytes, DecText, EncText, DecOidAndBytes, EncOidAndBytes, DecName, EncName, DecRaw;
    hide ShortestHead, CanonicalOidAndBytes, CanonicalName;
    if kind == -1 || kind == 0 {
      OidAndBytesReproduced(s);
    } else if kind == 4 {
      NameReproduced(s);
    } else if !IsAssignedKind(kind) {
      RawReproduced(s);
    } else if kind == -3 || kind == 7 || kind == 8 {
      BytesReproduced(s);
    } else {
      TextReproduced(s);
    }
  }

  predicate CanonicalGeneralName(s: Bytes) {
    ShortestHead(s) && DecI32(s).Ok? && CanonicalGeneralNameValue(DecI32(s).value, DecI32(s).rest)
  }

  lemma GeneralNamesReproduce()
    ensures ReproducesPlain(EncGeneralName, DecGeneralName, CanonicalGeneralName)
  {
    hide DecInt, EncInt, ShortestHead, DecGeneralNameValue, EncGeneralNameValue, CanonicalGeneralNameValue, GeneralNameTyped;
    forall s: Bytes | DecGeneralName(s).Ok?
      ensures CanonicalGeneralName(s) <==> EncGeneralName(DecGeneralName(s).value) + DecGeneralName(s).rest == s
      ensures ReadAgain(DecGeneralName, EncGeneralName(DecGeneralName(s).value))
    {
      var g, rest := DecGeneralName(s).value, DecGeneralName(s).rest;
      var b := EncGeneralNameValue(g.value);
      IntReproduced(s);
      GeneralNameValueReproduced(g.kind, DecI32(s).rest);
      IntRoundTrip(g.kind, b + rest);
      InARow(EncInt(g.kind), b, s, DecI32(s).rest, rest);
      GeneralNameIsItems(s);
      forall t: Bytes
        ensures DecGeneralName(EncGeneralName(g) + t) == Ok(g, t)
      {
        GeneralNameRoundTrip(g, t);
      }
    }
  }

  predicate CanonicalGeneralNames(s: Bytes) {
    && ShortestHead(s)
    && DecGeneralNames(s).Ok?
    && Each(|DecGeneralNames(s).value|, DecGeneralName, CanonicalGeneralName, Tail(DecArrayHead(s)))
  }

  lemma GeneralNamesReproduced(s: Bytes)
    requires DecGeneralNames(s).Ok?
    ensures EncGeneralNames(DecGeneralNames(s).value) + DecGeneralNames(s).rest == s <==> CanonicalGeneralNames(s)
  {
    hide DecGeneralName, EncGeneralName, CanonicalGeneralName, ShortestHead;
    GeneralNamesReproduce();
    PlainArrayReproduced(2, EncGeneralName, DecGeneralName, CanonicalGeneralName, s);
  }

  /** A lone dNSName is bare text. */
  predicate CanonicalAltName(s: Bytes) {
    if TypeOf(s).TextString? then ShortestHead(s)
    else CanonicalGeneralNames(s) && !IsLoneDnsName(DecGeneralNames(s).value)
  }

  lemma AltNameReproduced(s: Bytes)
    requires DecAltName(s).Ok?
    ensures EncAltName(DecAltName(s).value) + DecAltName(s).rest == s <==> CanonicalAltName(s)
  {
    hide DecGeneralNames, EncGeneralNames, CanonicalGeneralNames, ShortestHead;
    var names, rest := DecAltName(s).value, DecAltName(s).rest;
    if TypeOf(s).TextString? {
      TextReproduced(s);
    } else {
      GeneralNamesReproduced(s);
      if IsLoneDnsName(names) {
        TextRoundTrip(names[0].value.dns, rest);
      }
    }
  }

  // ---- Distribution points -------------------------------------------------------------------

  lemma TextsReproduce()
    ensures ReproducesPlain(EncText, DecText, ShortestHead)
  {
    forall s: Bytes | DecText(s).Ok?
      ensures ShortestHead(s) <==> EncText(DecText(s).value) + DecText(s).rest == s
      ensures ReadAgain(DecText, EncText(DecText(s).value))
    {
      TextReproduced(s);
      forall t: Bytes
        ensures DecText(EncText(DecText(s).value) + t) == Ok(DecText(s).value, t)
      {
        TextRoundTrip(DecText(s).value, t);
      }
    }
  }

  predicate CanonicalFullName(s: Bytes) {
    && ShortestHead(s)
    && (TypeOf(s).TextString?
        || (&& DecFullName(s).Ok? && |DecFullName(s).value| != 1
            && Each(|DecFullName(s).value|, DecText, ShortestHead, Tail(DecArrayHead(s)))))
  }

  lemma FullNameReproduced(s: Bytes)
    requires DecFullName(s).Ok?
    ensures EncFullName(DecFullName(s).value) + DecFullName(s).rest == s <==> CanonicalFullName(s)
  {
    hide DecText, EncText, ShortestHead;
    var v, rest := DecFullName(s).value, DecFullName(s).rest;
    TextsReproduce();
    if !TypeOf(s).TextString? {
      PlainArrayReproduced(1, EncText, DecText, ShortestHead, s);
      if |v| == 1 {
        TextRoundTrip(v[0], rest);
      }
    }
  }

  predicate CanonicalPoint(s: Bytes) {
    var r := Tail(DecArrayHead(s));
    var r1 := Tail(DecFullName(r));
    && ShortestHead(s)
    && CanonicalFullName(r)
    && CanonicalOptUint(r1)
    && CanonicalOptionalName(Tail(DecOptUint(r1)))
  }

  lemma PointReproduced(s: Bytes)
    requires DecPoint(s).Ok?
    ensures EncPoint(DecPoint(s).value) + DecPoint(s).rest == s <==> CanonicalPoint(s)
  {
    hide DecArrayHead, EncArrayHead, DecFullName, EncFullName, DecOptUint, EncOptUint, DecOptionalName, EncOptionalName;
    hide ShortestHead, CanonicalFullName, CanonicalOptUint, CanonicalOptionalName, OptionalNameTyped;
    var p, rest := DecPoint(s).value, DecPoint(s).rest;
    var r := DecArrayHead(s).rest;
    var r1 := DecFullName(r).rest;
    var r2 := DecOptUint(r1).rest;
    var h, a, b, c := EncArrayHead(3), EncFullName(p.fullName), EncOptUint(p.reasons), EncOptionalName(p.crlIssuer);
    ArrayHeadReproduced(s);
    FullNameReproduced(r);
    OptUintReproduced(r1);
    OptionalNameReproduced(r2);
    ArrayHeadRoundTrip(3, a + (b + (c + rest)));
    FullNameRoundTrip(p.fullName, b + (c + rest));
    OptUintRoundTrip(p.reasons, c + rest);
    ThreeAfterHead(h, a, b, c, s, r, r1, r2, rest);
  }

  lemma PointsReproduce()
    ensures ReproducesPlain(EncPoint, DecPoint, CanonicalPoint)
  {
    hide CanonicalPoint, DecPoint, EncPoint;
    forall s: Bytes | DecPoint(s).Ok?
      ensures CanonicalPoint(s) <==> EncPoint(DecPoint(s).value) + DecPoint(s).rest == s
      ensures ReadAgain(DecPoint, EncPoint(DecPoint(s).value))
    {
      PointReproduced(s);
      PointIsItem(s);
      forall t: Bytes
        ensures DecPoint(EncPoint(DecPoint(s).value) + t) == Ok(DecPoint(s).value, t)
      {
        PointRoundTrip(DecPoint(s).value, t);
      }
    }
  }

  /** A lone point of one URI is bare text. */
  predicate CanonicalPoints(s: Bytes) {
    && ShortestHead(s)
    && (TypeOf(s).TextString?
        || (&& DecPoints(s).Ok? && !IsBareUri(DecPoints(s).value)
            && Each(|DecPoints(s).value|, DecPoint, CanonicalPoint, Tail(DecArrayHead(s)))))
  }

  lemma PointsReproduced(s: Bytes)
    requires DecPoints(s).Ok?
    ensures EncPoints(DecPoints(s).value) + DecPoints(s).rest == s <==> CanonicalPoints(s)
  {
    hide DecPoint, EncPoint, CanonicalPoint, ShortestHead;
    var points, rest := DecPoints(s).value, DecPoints(s).rest;
    if TypeOf(s).TextString? {
      TextReproduced(s);
    } else {
      PointsReproduce();
      PlainArrayReproduced(1, EncPoint, DecPoint, CanonicalPoint, s);
      if IsBareUri(points) {
        TextRoundTrip(points[0].fullName[0], rest);
      }
    }
  }

  // ---- Authority keys --------------------------------------------------------------------------

  predicate CanonicalAuthorityKey(s: Bytes) {
    var r := Tail(DecArrayHead(s));
    var r1 := Tail(DecBytes(r));
    && ShortestHead(s)
    && (TypeOf(s).ByteString?
        || (ShortestHead(r) && CanonicalGeneralNames(r1) && CanonicalSerial(Tail(DecGeneralNames(r1)))))
  }

  lemma AuthorityKeyReproduced(s: Bytes)
    requires DecAuthorityKey(s).Ok?
    ensures var d := DecAuthorityKey(s);
            EncAuthorityKey(d.value).Some? && (EncAuthorityKey(d.value).value + d.rest == s <==> CanonicalAuthorityKey(s))
  {
    hide DecArrayHead, EncArrayHead, DecBytes, EncBytes, DecGeneralNames, EncGeneralNames, DecBigUint, EncBigUint;
    hide ShortestHead, CanonicalGeneralNames, CanonicalSerial, GeneralNamesTyped;
    var a, rest := DecAuthorityKey(s).value, DecAuthorityKey(s).rest;
    if TypeOf(s).ByteString? {
      BytesReproduced(s);
    } else {
      var r := DecArrayHead(s).rest;
      var r1 := DecBytes(r).rest;
      var r2 := DecGeneralNames(r1).rest;
      var key, issuer, serial := EncBytes(a.keyIdentifier), EncGeneralNames(a.certIssuer.value), EncBigUint(a.certSerial.value);
      ArrayHeadReproduced(s);
      BytesReproduced(r);
      GeneralNamesReproduced(r1);
      SerialReproduced(r2);
      GeneralNamesAreItem(r1);
      ArrayHeadRoundTrip(3, key + (issuer + (serial + rest)));
      BytesRoundTrip(a.keyIdentifier, issuer + (serial + rest));
      GeneralNamesRoundTrip(a.certIssuer.value, serial + rest);
      ThreeAfterHead(EncArrayHead(3), key, issuer, serial, s, r, r1, r2, rest);
    }
  }

  // ---- Directory attributes --------------------------------------------------------------------

  predicate CanonicalTexts(s: Bytes) {
    && ShortestHead(s)
    && DecTexts(s).Ok?
    && Each(|DecTexts(s).value|, DecSpecialText, CanonicalSpecialText, Tail(DecArrayHead(s)))
  }

  predicate CanonicalBlobs(s: Bytes) {
    && ShortestHead(s)
    && DecBlobs(s).Ok?
    && Each(|DecBlobs(s).value|, DecBytes, ShortestHead, Tail(DecArrayHead(s)))
  }

  lemma AttributeTextsReproduced(s: Bytes)
    requires DecTexts(s).Ok?
    ensures EncTexts(DecTexts(s).value) + DecTexts(s).rest == s <==> CanonicalTexts(s)
  {
    hide DecSpecialText, EncSpecialText, CanonicalSpecialText, ShortestHead;
    forall t: Bytes | DecSpecialText(t).Ok?
      ensures CanonicalSpecialText(t) <==> EncSpecialText(DecSpecialText(t).value) + DecSpecialText(t).rest == t
      ensures ReadAgain(DecSpecialText, EncSpecialText(DecSpecialText(t).value))
    {
      SpecialTextReproduced(t);
      forall u: Bytes
        ensures DecSpecialText(EncSpecialText(DecSpecialText(t).value) + u) == Ok(DecSpecialText(t).value, u)
      {
        SpecialTextRoundTrip(DecSpecialText(t).value, u);
      }
    }
    PlainArrayReproduced(1, EncSpecialText, DecSpecialText, CanonicalSpecialText, s);
  }

  lemma AttributeBlobsReproduced(s: Bytes)
    requires DecBlobs(s).Ok?
    ensures EncBlobs(DecBlobs(s).value) + DecBlobs(s).rest == s <==> CanonicalBlobs(s)
  {
    hide DecBytes, EncBytes, ShortestHead;
    forall t: Bytes | DecBytes(t).Ok?
      ensures ShortestHead(t) <==> EncBytes(DecBytes(t).value) + DecBytes(t).rest == t
      ensures ReadAgain(DecBytes, EncBytes(DecBytes(t).value))
    {
      BytesReproduced(t);
      forall u: Bytes
        ensures DecBytes(EncBytes(DecBytes(t).value) + u) == Ok(DecBytes(t).value, u)
      {
        BytesRoundTrip(DecBytes(t).value, u);
      }
    }
    PlainArrayReproduced(1, EncBytes, DecBytes, ShortestHead, s);
  }

  predicate CanonicalAttributes(s: Bytes) {
    && ShortestHead(s)
    && (if TypeOf(s).ByteString? then CanonicalBlobs(Tail(DecOid(s))) else CanonicalTexts(Tail(DecAttributeType(s))))
  }

  lemma DirectoryAttributesReproduced(s: Bytes)
    requires DecAttributes(s).Ok?
    ensures EncAttributes(DecAttributes(s).value) + DecAttributes(s).rest == s <==> CanonicalAttributes(s)
  {
    hide DecBytes, EncBytes, DecInt, EncInt, DecTexts, EncTexts, DecBlobs, EncBlobs, ShortestHead, CanonicalTexts, CanonicalBlobs;
    var rest := DecAttributes(s).rest;
    match DecAttributes(s).value
    case ByOid(oid, v) =>
      BytesReproduced(s);
      AttributeBlobsReproduced(DecOid(s).rest);
      BytesRoundTrip(oid, EncBlobs(v) + rest);
      InARow(EncBytes(oid), EncBlobs(v), s, DecOid(s).rest, rest);
    case Registered(id, printable, v) =>
      IntReproduced(s);
      AttributeTextsReproduced(DecAttributeType(s).rest);
      IntRoundTrip(SignedId(id, printable), EncTexts(v) + rest);
      InARow(EncInt(SignedId(id, printable)), EncTexts(v), s, DecAttributeType(s).rest, rest);
  }

  predicate CanonicalDirectory(s: Bytes) {
    && ShortestHead(s)
    && DecDirectory(s).Ok?
    && Each(|DecDirectory(s).value|, DecAttributes, CanonicalAttributes, Tail(DecArrayHead(s)))
  }

  lemma DirectoryReproduced(s: Bytes)
    requires DecDirectory(s).Ok?
    ensures EncDirectory(DecDirectory(s).value) + DecDirectory(s).rest == s <==> CanonicalDirectory(s)
  {
    hide DecAttributes, EncAttributes, CanonicalAttributes, ShortestHead;
    forall t: Bytes | DecAttributes(t).Ok?
      ensures CanonicalAttributes(t) <==> EncAttributes(DecAttributes(t).value) + DecAttributes(t).rest == t
      ensures ReadAgain(DecAttributes, EncAttributes(DecAttributes(t).value))
    {
      DirectoryAttributesReproduced(t);
      AttributesAreItems(t);
      AttributesReadBack(DecAttributes(t).value);
    }
    PlainArrayReproduced(2, EncAttributes, DecAttributes, CanonicalAttributes, s);
  }

  // ---- Key purposes and TLS features -----------------------------------------------------------

  /** A list of definite length; the encoder writes no other. */
  predicate CanonicalVec<T>(dec: Bytes -> Parsed<T>, s: Bytes) {
    && TypeOf(s).Array? && ShortestHead(s)
    && DecVec(dec, s).Ok?
    && Each(|DecVec(dec, s).value|, dec, ShortestHead, Tail(DecArrayHead(s)))
  }

  lemma VecReproduced<T>(enc: T -> Bytes, dec: Bytes -> Parsed<T>, s: Bytes)
    requires DecVec(dec, s).Ok? && ReproducesPlain(enc, dec, ShortestHead)
    ensures EncArrayOf(1, enc, DecVec(dec, s).value) + DecVec(dec, s).rest == s <==> CanonicalVec(dec, s)
  {
    hide ShortestHead;
    var v, rest := DecVec(dec, s).value, DecVec(dec, s).rest;
    if TypeOf(s).Array? {
      EntryCount(1, DecArrayHead(s).value);
      PlainArrayReproduced(1, enc, dec, ShortestHead, s);
    } else {
      Assoc(EncArrayHead(|v|), ConcatMap(v, enc), rest);
      ArrayHeadRoundTrip(|v|, ConcatMap(v, enc) + rest);
    }
  }

  lemma IdsReproduce()
    ensures ReproducesPlain(EncIntOrOid, DecIntOrOid, ShortestHead)
  {
    hide DecIntOrOid, EncIntOrOid, ShortestHead;
    forall s: Bytes | DecIntOrOid(s).Ok?
      ensures ShortestHead(s) <==> EncIntOrOid(DecIntOrOid(s).value) + DecIntOrOid(s).rest == s
      ensures ReadAgain(DecIntOrOid, EncIntOrOid(DecIntOrOid(s).value))
    {
      IntOrOidReproduced(s);
      forall t: Bytes
        ensures DecIntOrOid(EncIntOrOid(DecIntOrOid(s).value) + t) == Ok(DecIntOrOid(s).value, t)
      {
        IntOrOidRoundTrip(DecIntOrOid(s).value, t);
      }
    }
  }

  /** A single purpose is bare. */
  predicate CanonicalExtKeyUsage(s: Bytes) {
    if IsArray(TypeOf(s)) then CanonicalVec(DecIntOrOid, s) && |DecVec(DecIntOrOid, s).value| != 1 else ShortestHead(s)
  }

  lemma ExtKeyUsageReproduced(s: Bytes)
    requires DecExtKeyUsage(s).Ok?
    ensures EncExtKeyUsage(DecExtKeyUsage(s).value) + DecExtKeyUsage(s).rest == s <==> CanonicalExtKeyUsage(s)
  {
    hide DecIntOrOid, EncIntOrOid, ShortestHead, CanonicalVec;
    var ids, rest := DecExtKeyUsage(s).value, DecExtKeyUsage(s).rest;
    if IsArray(TypeOf(s)) {
      IdsReproduce();
      VecReproduced(EncIntOrOid, DecIntOrOid, s);
      if |ids| == 1 {
        IntOrOidRoundTrip(ids[0], rest);
      }
    } else {
      IntOrOidReproduced(s);
    }
  }

  lemma TlsFeaturesReproduced(s: Bytes)
    requires DecTlsFeatures(s).Ok?
    ensures EncTlsFeatures(DecTlsFeatures(s).value) + DecTlsFeatures(s).rest == s <==> CanonicalVec(DecU32, s)
  {
    hide ShortestHead;
    forall t: Bytes | DecU32(t).Ok?
      ensures ShortestHead(t) <==> EncUint(DecU32(t).value) + DecU32(t).rest == t
      ensures ReadAgain(DecU32, EncUint(DecU32(t).value))
    {
      HeadReproduced(UNSIGNED, t);
      forall u: Bytes
        ensures DecU32(EncUint(DecU32(t).value) + u) == Ok(DecU32(t).value, u)
      {
        UnsignedRoundTrip(DecU32(t).value, u);
      }
    }
    VecReproduced(EncUint, DecU32, s);
  }

  // ---- Lists of pairs ----------------------------------------------------------------------------

  predicate CanonicalIdAndText(s: Bytes) {
    ShortestHead(s) && ShortestHead(Tail(DecIntOrOid(s)))
  }

  predicate CanonicalIdAndTexts(s: Bytes) {
    && ShortestHead(s)
    && DecIdAndTexts(s).Ok?
    && Each(|DecIdAndTexts(s).value|, DecIdAndText, CanonicalIdAndText, Tail(DecArrayHead(s)))
  }

  lemma IdAndTextsReproduced(s: Bytes)
    requires DecIdAndTexts(s).Ok?
    ensures EncIdAndTexts(DecIdAndTexts(s).value) + DecIdAndTexts(s).rest == s <==> CanonicalIdAndTexts(s)
  {
    hide DecIntOrOid, EncIntOrOid, DecText, EncText, ShortestHead;
    TextsReproduce();
    forall t: Bytes | DecIdAndText(t).Ok?
      ensures CanonicalIdAndText(t) <==> EncIdAndText(DecIdAndText(t).value) + DecIdAndText(t).rest == t
      ensures ReadAgain(DecIdAndText, EncIdAndText(DecIdAndText(t).value))
    {
      var x, r := DecIdAndText(t).value, DecIntOrOid(t).rest;
      IntOrOidReproduced(t);
      IntOrOidRoundTrip(x.id, EncText(x.text) + DecIdAndText(t).rest);
      InARow(EncIntOrOid(x.id), EncText(x.text), t, r, DecIdAndText(t).rest);
      forall u: Bytes
        ensures DecIdAndText(EncIdAndText(x) + u) == Ok(x, u)
      {
        Assoc(EncIntOrOid(x.id), EncText(x.text), u);
        IntOrOidRoundTrip(x.id, EncText(x.text) + u);
        TextRoundTrip(x.text, u);
      }
    }
    PlainArrayReproduced(2, EncIdAndText, DecIdAndText, CanonicalIdAndText, s);
  }

  predicate CanonicalPolicy(s: Bytes) {
    ShortestHead(s) && CanonicalIdAndTexts(Tail(DecIntOrOid(s)))
  }

  predicate CanonicalPolicies(s: Bytes) {
    && ShortestHead(s)
    && DecPolicies(s).Ok?
    && Each(|DecPolicies(s).value|, DecPolicy, CanonicalPolicy, Tail(DecArrayHead(s)))
  }

  lemma PoliciesReproduced(s: Bytes)
    requires DecPolicies(s).Ok?
    ensures EncPolicies(DecPolicies(s).value) + DecPolicies(s).rest == s <==> CanonicalPolicies(s)
  {
    hide DecIntOrOid, EncIntOrOid, DecIdAndTexts, EncIdAndTexts, ShortestHead, CanonicalIdAndTexts;
    forall t: Bytes | DecPolicy(t).Ok?
      ensures CanonicalPolicy(t) <==> EncPolicy(DecPolicy(t).value) + DecPolicy(t).rest == t
      ensures ReadAgain(DecPolicy, EncPolicy(DecPolicy(t).value))
    {
      var x, r := DecPolicy(t).value, DecIntOrOid(t).rest;
      IntOrOidReproduced(t);
      IdAndTextsReproduced(r);
      IntOrOidRoundTrip(x.id, EncIdAndTexts(x.qualifiers) + DecPolicy(t).rest);
      InARow(EncIntOrOid(x.id), EncIdAndTexts(x.qualifiers), t, r, DecPolicy(t).rest);
      forall u: Bytes
        ensures DecPolicy(EncPolicy(x) + u) == Ok(x, u)
      {
        Assoc(EncIntOrOid(x.id), EncIdAndTexts(x.qualifiers), u);
        IntOrOidRoundTrip(x.id, EncIdAndTexts(x.qualifiers) + u);
        IdAndTextsRoundTrip(x.qualifiers, u);
      }
    }
    PlainArrayReproduced(2, EncPolicy, DecPolicy, CanonicalPolicy, s);
  }

  predicate CanonicalMappings(s: Bytes) {
    && ShortestHead(s)
    && DecMappings(s).Ok?
    && Each(|DecMappings(s).value|, DecMapping, CanonicalIdAndText, Tail(DecArrayHead(s)))
  }

  lemma MappingsReproduced(s: Bytes)
    requires DecMappings(s).Ok?
    ensures EncMappings(DecMappings(s).value) + DecMappings(s).rest == s <==> CanonicalMappings(s)
  {
    hide DecIntOrOid, EncIntOrOid, ShortestHead;
    forall t: Bytes | DecMapping(t).Ok?
      ensures CanonicalIdAndText(t) <==> EncMapping(DecMapping(t).value) + DecMapping(t).rest == t
      ensures ReadAgain(DecMapping, EncMapping(DecMapping(t).value))
    {
      var x, r := DecMapping(t).value, DecIntOrOid(t).rest;
      var a, b := EncIntOrOid(x.issuerDomain), EncIntOrOid(x.subjectDomain);
      IntOrOidReproduced(t);
      IntOrOidReproduced(r);
      IntOrOidRoundTrip(x.issuerDomain, b + DecMapping(t).rest);
      InARow(a, b, t, r, DecMapping(t).rest);
      forall u: Bytes
        ensures DecMapping(EncMapping(x) + u) == Ok(x, u)
      {
        Assoc(a, b, u);
        IntOrOidRoundTrip(x.issuerDomain, b + u);
        IntOrOidRoundTrip(x.subjectDomain, u);
      }
    }
    PlainArrayReproduced(2, EncMapping, DecMapping, CanonicalIdAndText, s);
  }

  // ---- Pairs of optional values --------------------------------------------------------------------

  predicate CanonicalPolicyConstraints(s: Bytes) {
    var r := Tail(DecArrayHead(s));
    ShortestHead(s) && CanonicalOptUint(r) && CanonicalOptUint(Tail(DecOptUint(r)))
  }

  lemma PolicyConstraintsReproduced(s: Bytes)
    requires DecPolicyConstraints(s).Ok?
    ensures var d := DecPolicyConstraints(s); EncPolicyConstraints(d.value) + d.rest == s <==> CanonicalPolicyConstraints(s)
  {
    hide DecArrayHead, EncArrayHead, DecOptUint, EncOptUint, ShortestHead, CanonicalOptUint;
    var d, r := DecPolicyConstraints(s), DecArrayHead(s).rest;
    var r1 := DecOptUint(r).rest;
    var a, b := EncOptUint(d.value.requireExplicitPolicy), EncOptUint(d.value.inhibitPolicyMapping);
    ArrayHeadReproduced(s);
    OptUintReproduced(r);
    OptUintReproduced(r1);
    ArrayHeadRoundTrip(2, a + (b + d.rest));
    OptUintRoundTrip(d.value.requireExplicitPolicy, b + d.rest);
    TwoAfterHead(EncArrayHead(2), a, b, s, r, r1, d.rest);
  }

  predicate CanonicalSubtree(s: Bytes) {
    TypeOf(s).Null? || CanonicalGeneralNames(s)
  }

  lemma SubtreeReproduced(s: Bytes)
    requires DecSubtree(s).Ok?
    ensures EncSubtree(DecSubtree(s).value) + DecSubtree(s).rest == s <==> CanonicalSubtree(s)
  {
    hide DecGeneralNames, EncGeneralNames, CanonicalGeneralNames;
    if TypeOf(s).Null? {
      assert [NULL] + s[1..] == s;
    } else {
      GeneralNamesReproduced(s);
    }
  }

  predicate CanonicalNameConstraints(s: Bytes) {
    var r := Tail(DecArrayHead(s));
    ShortestHead(s) && CanonicalSubtree(r) && CanonicalSubtree(Tail(DecSubtree(r)))
  }

  lemma NameConstraintsReproduced(s: Bytes)
    requires DecNameConstraints(s).Ok?
    ensures var d := DecNameConstraints(s); EncNameConstraints(d.value) + d.rest == s <==> CanonicalNameConstraints(s)
  {
    hide DecArrayHead, EncArrayHead, DecSubtree, EncSubtree, ShortestHead, CanonicalSubtree, SubtreeTyped;
    var d, r := DecNameConstraints(s), DecArrayHead(s).rest;
    var r1 := DecSubtree(r).rest;
    var a, b := EncSubtree(d.value.permitted), EncSubtree(d.value.excluded);
    ArrayHeadReproduced(s);
    SubtreeReproduced(r);
    SubtreeReproduced(r1);
    SubtreeIsItem(r);
    ArrayHeadRoundTrip(2, a + (b + d.rest));
    SubtreeRoundTrip(d.value.permitted, b + d.rest);
    TwoAfterHead(EncArrayHead(2), a, b, s, r, r1, d.rest);
  }

  lemma BasicConstraintsReproduced(s: Bytes)
    requires DecBasicConstraints(s).Ok?
    ensures var d := DecBasicConstraints(s);
            EncBasicConstraints(d.value).Some? && (EncBasicConstraints(d.value).value + d.rest == s <==> ShortestHead(s))
  {
    IntReproduced(s);
  }
}
