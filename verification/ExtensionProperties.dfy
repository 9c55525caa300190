/** What the extension codec keeps, when it can encode, and exactly which lists it gives back. */
module ExtensionProperties {
  import opened Wrappers
  import opened ByteStrings
  import opened RustTypes
  import opened Cbor
  import opened Lists
  import opened Common
  import opened Rfc3779
  import opened Rfc3779Properties
  import opened BasicConstraint
  import opened ExtKeyUsages
  import opened GeneralNames
  import opened DistributionPoints
  import opened AuthorityKeys
  import opened DirectoryAttributes
  import opened PairLists
  import opened Extensions

  // ---- Values ----------------------------------------------------------------------

  lemma LowValueRoundTrip(id: int, v: ExtensionValue, rest: Bytes)
    requires ValueTyped(id, v) && EncValue(v).Some? && 1 <= id <= 9
    ensures DecValue(id, EncValue(v).value + rest) == Ok(v, rest)
  {
    hide EncBytes, EncInt, EncAltName, EncBasicConstraints, EncPoints, EncPolicies, EncAuthorityKey, EncExtKeyUsage, EncIdAndTexts;
    hide DecBytes, DecU32, DecAltName, DecBasicConstraints, DecPoints, DecPolicies, DecAuthorityKey, DecExtKeyUsage, DecIdAndTexts;
    match v
    case SubjectKeyIdentifier(b) => BytesRoundTrip(b, rest);
    case KeyUsage(n) => UnsignedRoundTrip(n, rest);
    case SubjectAltName(names) => AltNameRoundTrip(names, rest);
    case BasicConstraintsValue(bc) => BasicConstraintsRoundTrip(bc, rest);
    case CrlDistributionPoints(points) => PointsRoundTrip(points, rest);
    case CertificatePolicies(policies) => PoliciesRoundTrip(policies, rest);
    case AuthorityKeyValue(a) => AuthorityKeyRoundTrip(a, rest);
    case ExtKeyUsage(ids) => ExtKeyUsageRoundTrip(ids, rest);
    case AuthorityInfoAccess(access) => IdAndTextsRoundTrip(access, rest);
  }

  lemma MiddleValueRoundTrip(id: int, v: ExtensionValue, rest: Bytes)
    requires ValueTyped(id, v) && EncValue(v).Some? && 24 <= id <= 31
    ensures DecValue(id, EncValue(v).value + rest) == Ok(v, rest)
  {
    hide EncDirectory, EncAltName, EncNameConstraints, EncMappings, EncPolicyConstraints, EncPoints, EncInt, EncIdAndTexts;
    hide DecDirectory, DecAltName, DecNameConstraints, DecMappings, DecPolicyConstraints, DecPoints, DecU32, DecIdAndTexts;
    match v
    case SubjectDirectoryAttributes(attrs) => DirectoryRoundTrip(attrs, rest);
    case IssuerAltName(names) => AltNameRoundTrip(names, rest);
    case NameConstraintsValue(c) => NameConstraintsRoundTrip(c, rest);
    case PolicyMappings(mappings) => MappingsRoundTrip(mappings, rest);
    case PolicyConstraintsValue(c) => PolicyConstraintsRoundTrip(c, rest);
    case FreshestCrl(points) => PointsRoundTrip(points, rest);
    case InhibitAnyPolicy(n) => UnsignedRoundTrip(n, rest);
    case SubjectInfoAccess(access) => IdAndTextsRoundTrip(access, rest);
  }

  lemma HighValueRoundTrip(id: int, v: ExtensionValue, rest: Bytes)
    requires ValueTyped(id, v) && EncValue(v).Some? && !(1 <= id <= 9) && !(24 <= id <= 31)
    ensures DecValue(id, EncValue(v).value + rest) == Ok(ValueNetwork(v), rest)
  {
    match v
    case IpAddrBlocks(families) => FamiliesRoundTrip(families, rest);
    case AsIdentifiers(ids) => AsIdentifiersRoundTrip(ids, rest);
    case IpAddrBlocksV2(families) => FamiliesRoundTrip(families, rest);
    case AsIdentifiersV2(ids) => AsIdentifiersRoundTrip(ids, rest);
    case OcspNoCheck => NullRoundTrip(rest);
    case TlsFeatures(features) => TlsFeaturesRoundTrip(features, rest);
    case Raw(b) => RawRoundTrip(b, rest);
  }

  lemma ValueRoundTrip(id: int, v: ExtensionValue, rest: Bytes)
    requires ValueTyped(id, v) && EncValue(v).Some?
    ensures DecValue(id, EncValue(v).value + rest) == Ok(ValueNetwork(v), rest)
  {
    if 1 <= id <= 9 {
      LowValueRoundTrip(id, v, rest);
    } else if 24 <= id <= 31 {
      MiddleValueRoundTrip(id, v, rest);
    } else {
      HighValueRoundTrip(id, v, rest);
    }
  }

  lemma LowValueIsItem(id: int, s: Bytes)
    requires DecValue(id, s).Ok? && 1 <= id <= 9
    ensures SkipItems(1, s) == Some(DecValue(id, s).rest)
    ensures ValueTyped(id, DecValue(id, s).value) && ValueEncodable(DecValue(id, s).value)
  {
    match DecValue(id, s).value
    case SubjectKeyIdentifier(_) => StringIsItem(BYTE_STRING, s);
    case KeyUsage(_) => IntIsItem(s);
    case SubjectAltName(_) => AltNameIsItem(s);
    case BasicConstraintsValue(_) => BasicConstraintsIsItem(s);
    case CrlDistributionPoints(_) => PointsAreItem(s);
    case CertificatePolicies(_) => PoliciesAreItem(s);
    case AuthorityKeyValue(_) => AuthorityKeyIsItem(s);
    case ExtKeyUsage(_) => ExtKeyUsageIsItem(s);
    case AuthorityInfoAccess(_) => IdAndTextsAreItem(s);
  }

  lemma MiddleValueIsItem(id: int, s: Bytes)
    requires DecValue(id, s).Ok? && 24 <= id <= 31
    ensures SkipItems(1, s) == Some(DecValue(id, s).rest)
    ensures ValueTyped(id, DecValue(id, s).value) && ValueEncodable(DecValue(id, s).value)
  {
    match DecValue(id, s).value
    case SubjectDirectoryAttributes(_) => DirectoryIsItem(s);
    case IssuerAltName(_) => AltNameIsItem(s);
    case NameConstraintsValue(_) => NameConstraintsIsItem(s);
    case PolicyMappings(_) => MappingsAreItem(s);
    case PolicyConstraintsValue(_) => PolicyConstraintsIsItem(s);
    case FreshestCrl(_) => PointsAreItem(s);
    case InhibitAnyPolicy(_) => IntIsItem(s);
    case SubjectInfoAccess(_) => IdAndTextsAreItem(s);
  }

  lemma HighValueIsItem(id: int, s: Bytes)
    requires DecValue(id, s).Ok? && !(1 <= id <= 9) && !(24 <= id <= 31)
    ensures SkipItems(1, s) == Some(DecValue(id, s).rest)
    ensures ValueTyped(id, DecValue(id, s).value) && ValueEncodable(DecValue(id, s).value)
  {
    match DecValue(id, s).value
    case IpAddrBlocks(_) => FamiliesAreItem(s);
    case AsIdentifiers(_) => AsIdentifiersAreItem(s);
    case IpAddrBlocksV2(_) => FamiliesAreItem(s);
    case AsIdentifiersV2(_) => AsIdentifiersAreItem(s);
    case OcspNoCheck => NullIsItem(s);
    case TlsFeatures(_) => TlsFeaturesIsItem(s);
    case Raw(_) => RawIsItem(s);
  }

  lemma ValueIsItem(id: int, s: Bytes)
    requires DecValue(id, s).Ok?
    ensures SkipItems(1, s) == Some(DecValue(id, s).rest)
    ensures ValueTyped(id, DecValue(id, s).value) && ValueEncodable(DecValue(id, s).value)
  {
    if 1 <= id <= 9 {
      LowValueIsItem(id, s);
    } else if 24 <= id <= 31 {
      MiddleValueIsItem(id, s);
    } else {
      HighValueIsItem(id, s);
    }
  }

  lemma ValueEncodes(v: ExtensionValue)
    ensures EncValue(v).Some? <==> ValueEncodable(v)
    ensures EncValue(ValueNetwork(v)) == EncValue(v)
  {
    match v
    case BasicConstraintsValue(bc) => BasicConstraintsRoundTrip(bc, []);
    case AuthorityKeyValue(a) =>
    case IpAddrBlocks(families) =>
      FamiliesAreWritable(families);
      NetworkReencodes(families);
    case IpAddrBlocksV2(families) =>
      FamiliesAreWritable(families);
      NetworkReencodes(families);
    case AsIdentifiers(ids) => AsIdentifiersRoundTrip(ids, []);
    case AsIdentifiersV2(ids) => AsIdentifiersRoundTrip(ids, []);
    case _ =>
  }

  // ---- One extension -----------------------------------------------------------------

  lemma CriticalRoundTrip(n: i32, critical: bool, rest: Bytes)
    requires n >= 0 && (n == 0 ==> !critical)
    ensures EncCritical(n, critical).Some?
    ensures DecCritical(EncCritical(n, critical).value + rest) == Ok((n, critical), rest)
    ensures TypeOf(EncCritical(n, critical).value + rest) == Numeric
  {
    IntRoundTrip(if critical then -(n as int) else n as int, rest);
  }

  lemma OidExtensionRoundTrip(oid: Oid, critical: bool, raw: Blob, rest: Bytes)
    ensures DecExtension(EncOidExtension(oid, critical, raw) + rest)
         == Ok(Extension(Unregistered(oid), critical, Raw(raw)), rest)
  {
    var tail := if critical then EncArrayHead(1) + EncBytes(raw) else EncBytes(raw);
    Assoc(EncBytes(oid), tail, rest);
    OidRoundTrip(oid, tail + rest);
    BytesRoundTrip(raw, rest);
    if critical {
      Assoc(EncArrayHead(1), EncBytes(raw), rest);
      ArrayHeadRoundTrip(1, EncBytes(raw) + rest);
    }
  }

  lemma IntExtensionRoundTrip(x: Extension, rest: Bytes)
    requires x.id.Registry? && ExtensionTyped(x) && EncExtension(x).Some?
    ensures DecExtension(EncExtension(x).value + rest) == Ok(ExtensionNetwork(x), rest)
  {
    var value := EncValue(x.value).value;
    var head := EncCritical(x.id.n, x.critical).value;
    Assoc(head, value, rest);
    CriticalRoundTrip(x.id.n, x.critical, value + rest);
    ValueRoundTrip(x.id.n, x.value, rest);
  }

  lemma ExtensionReadsBack(x: Extension)
    requires ExtensionTyped(x) && EncExtension(x).Some?
    ensures ReadsBack(DecExtension, EncExtension(x).value, ExtensionNetwork(x))
  {
    forall t: Bytes
      ensures DecExtension(EncExtension(x).value + t) == Ok(ExtensionNetwork(x), t)
    {
      match x.id
      case Registry(_) => IntExtensionRoundTrip(x, t);
      case Unregistered(oid) => OidExtensionRoundTrip(oid, x.critical, x.value.raw, t);
    }
  }

  lemma OidExtensionIsItems(s: Bytes)
    requires DecOidExtension(s).Ok?
    ensures SkipItems(2, s) == Some(DecOidExtension(s).rest)
    ensures DecOidExtension(s).value.id.Unregistered? && DecOidExtension(s).value.value.Raw?
  {
    var r := DecOid(s).rest;
    StringIsItem(BYTE_STRING, s);
    if IsArray(TypeOf(r)) {
      ArrayIsItem(r);
      StringIsItem(BYTE_STRING, DecArrayHead(r).rest);
    } else {
      StringIsItem(BYTE_STRING, r);
    }
    ItemsThenItems(1, 1, s);
  }

  lemma IntExtensionIsItems(s: Bytes)
    requires DecIntExtension(s).Ok?
    ensures SkipItems(2, s) == Some(DecIntExtension(s).rest)
    ensures var x := DecIntExtension(s).value;
            x.id.Registry? && ExtensionTyped(x) && ValueEncodable(x.value)
  {
    var p := DecCritical(s);
    IntIsItem(s);
    ValueIsItem(p.value.0, p.rest);
    ItemsThenItems(1, 1, s);
  }

  /** A decoded extension can be encoded again unless its id is the least `i32`. */
  predicate Reencodable(x: Extension) {
    x.id != Registry(-TWO_31)
  }

  lemma ExtensionIsItems(s: Bytes)
    requires DecExtension(s).Ok?
    ensures SkipItems(2, s) == Some(DecExtension(s).rest)
    ensures ExtensionTyped(DecExtension(s).value)
    ensures ExtensionEncodable(DecExtension(s).value) <==> Reencodable(DecExtension(s).value)
  {
    if TypeOf(s).ByteString? {
      OidExtensionIsItems(s);
    } else {
      IntExtensionIsItems(s);
    }
  }

  lemma ExtensionEncodes(x: Extension)
    ensures EncExtension(x).Some? <==> ExtensionEncodable(x)
    ensures EncExtension(ExtensionNetwork(x)) == EncExtension(x)
  {
    ValueEncodes(x.value);
  }

  // ---- The list ------------------------------------------------------------------------

  /** A typed list that can be encoded is read back as what survives of it, and the tail is left alone. */
  lemma ExtensionsRoundTrip(list: ExtensionList, rest: Bytes)
    requires ExtensionsTyped(list) && EncExtensions(list).Some?
    ensures DecExtensions(EncExtensions(list).value + rest) == Ok(ExtensionsSurviving(list), rest)
  {
    if IsSoleKeyUsage(list) {
      SoleKeyUsageRoundTrip(list, rest);
    } else {
      var survivors := Mapped(ExtensionNetwork, list);
      forall i | 0 <= i < |list| && EncExtension(list[i]).Some?
        ensures ReadsBack(DecExtension, EncExtension(list[i]).value, survivors[i])
      {
        ExtensionReadsBack(list[i]);
      }
      TryArrayOfRoundTrip(2, EncExtension, DecExtension, list, survivors, rest);
    }
  }

  lemma SoleKeyUsageRoundTrip(list: ExtensionList, rest: Bytes)
    requires IsSoleKeyUsage(list) && EncExtensions(list).Some?
    ensures DecExtensions(EncExtensions(list).value + rest) == Ok(ExtensionsSurviving(list), rest)
  {
    var bits, critical := list[0].value.bits, list[0].critical;
    CriticalRoundTrip(bits, critical && bits != 0, rest);
    assert list == SoleKeyUsage(bits, critical);
    assert Mapped(ExtensionNetwork, list) == list;
  }

  lemma ExtensionsAreItem(s: Bytes)
    requires DecExtensions(s).Ok?
    ensures SkipItems(1, s) == Some(DecExtensions(s).rest)
    ensures forall x :: x in DecExtensions(s).value ==>
              ExtensionTyped(x) && (ExtensionEncodable(x) <==> Reencodable(x))
  {
    if IsArray(TypeOf(s)) {
      var good := (x: Extension) => ExtensionTyped(x) && (ExtensionEncodable(x) <==> Reencodable(x));
      forall t: Bytes | DecExtension(t).Ok?
        ensures SkipItems(2, t) == Some(DecExtension(t).rest) && good(DecExtension(t).value)
      {
        ExtensionIsItems(t);
      }
      ArrayOfIsItem(2, DecExtension, s);
      ArrayOfYields(2, DecExtension, good, s);
      assert forall x: Extension :: good(x) ==> ExtensionTyped(x) && (ExtensionEncodable(x) <==> Reencodable(x));
    } else {
      IntIsItem(s);
    }
  }

  lemma ExtensionsEncode(list: ExtensionList)
    ensures EncExtensions(list).Some? <==> ExtensionsEncodable(list)
  {
    if !IsSoleKeyUsage(list) {
      forall i | 0 <= i < |list|
        ensures EncExtension(list[i]).Some? <==> ExtensionEncodable(list[i])
      {
        ExtensionEncodes(list[i]);
      }
      TryConcatMapSucceeds(list, EncExtension);
      assert forall i :: 0 <= i < |list| ==> list[i] in list;
    }
  }

  lemma SoleSurvivorReencodes(list: ExtensionList)
    requires IsSoleKeyUsage(list)
    ensures EncExtensions(ExtensionsSurviving(list)) == EncExtensions(list)
  {
    assert Mapped(ExtensionNetwork, list) == list;
  }

  /** What survives is written with the very same bytes. */
  lemma SurvivorsReencode(list: ExtensionList)
    requires EncExtensions(list).Some?
    ensures EncExtensions(ExtensionsSurviving(list)) == EncExtensions(list)
  {
    hide EncExtension, EncCritical;
    var survivors := Mapped(ExtensionNetwork, list);
    if IsSoleKeyUsage(list) {
      SoleSurvivorReencodes(list);
    } else {
      forall i | 0 <= i < |list|
        ensures EncExtension(survivors[i]) == EncExtension(list[i])
      {
        ExtensionEncodes(list[i]);
      }
      TryConcatMapAgrees(survivors, list, EncExtension);
    }
  }

  lemma ExtensionNetworkFixesExactly(x: Extension)
    ensures ExtensionNetwork(x) == x <==>
            && (x.value.IpAddrBlocks? ==> FamiliesCanonical(x.value.ip))
            && (x.value.IpAddrBlocksV2? ==> FamiliesCanonical(x.value.ip2))
  {
    match x.value
    case IpAddrBlocks(families) => FamiliesNetworkFixesExactly(families);
    case IpAddrBlocksV2(families) => FamiliesNetworkFixesExactly(families);
    case _ =>
  }

  /** All of a list survives exactly when nothing of it is of the kinds that are lost. */
  lemma ExtensionsSurviveExactly(list: ExtensionList)
    ensures ExtensionsSurviving(list) == list <==> ExtensionsLossless(list)
  {
    if IsSoleKeyUsage(list) {
      assert list == SoleKeyUsage(list[0].value.bits, list[0].critical);
      assert Mapped(ExtensionNetwork, list) == list;
    } else {
      var survivors := Mapped(ExtensionNetwork, list);
      forall i | 0 <= i < |list|
        ensures survivors[i] == list[i] <==>
                && (list[i].value.IpAddrBlocks? ==> FamiliesCanonical(list[i].value.ip))
                && (list[i].value.IpAddrBlocksV2? ==> FamiliesCanonical(list[i].value.ip2))
        ensures list[i] in list
      {
        ExtensionNetworkFixesExactly(list[i]);
      }
      assert survivors == list <==> forall i :: 0 <= i < |list| ==> survivors[i] == list[i];
    }
  }

  /** The exact set of extension lists that come back unchanged. */
  lemma ExtensionsRoundTripExactly(list: ExtensionList, rest: Bytes)
    requires EncExtensions(list).Some?
    ensures DecExtensions(EncExtensions(list).value + rest) == Ok(list, rest)
       <==> ExtensionsTyped(list) && ExtensionsLossless(list)
  {
    var s := EncExtensions(list).value + rest;
    ExtensionsSurviveExactly(list);
    if ExtensionsTyped(list) {
      ExtensionsRoundTrip(list, rest);
    } else if DecExtensions(s).Ok? {
      ExtensionsAreItem(s);
    }
  }

  /** A list that was decoded can be encoded again, except for the least `i32` id and an oversized lone KeyUsage. */
  lemma DecodedExtensionsReencode(s: Bytes)
    requires DecExtensions(s).Ok?
    ensures var list := DecExtensions(s).value;
            EncExtensions(list).Some? <==>
              if IsSoleKeyUsage(list) then list[0].value.bits < TWO_31 else forall x :: x in list ==> Reencodable(x)
  {
    ExtensionsAreItem(s);
    ExtensionsEncode(DecExtensions(s).value);
  }
}
