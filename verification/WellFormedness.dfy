/**
  Every encoding of a typed value is well-formed CBOR by Appendix C of RFC 8949: one item, or the two or three an
  entry of a list takes. So capturing one raw item at its start takes exactly it, whatever follows.
  */
module WellFormedness {
  import opened Wrappers
  import opened ByteStrings
  import opened RustTypes
  import opened Cbor
  import opened Common
  import opened Names
  import opened GeneralNames
  import opened DirectoryAttributes
  import opened DistributionPoints
  import opened Rfc3779
  import opened Rfc3779Properties
  import opened Extensions
  import opened ExtensionProperties

  /** `b` is one item before any tail, and captured whole. */
  predicate IsItem(b: Bytes, rest: Bytes) {
    && SkipItems(1, b + rest) == Some(rest)
    && (|b| < TWO_64 ==> DecRaw(b + rest) == Ok(b, rest))
  }

  lemma ItemIsCaptured(b: Bytes, rest: Bytes)
    requires SkipItems(1, b + rest) == Some(rest)
    ensures IsItem(b, rest)
  {
    OneItem(b + rest);
    AtBoundary(b, rest);
  }

  // ---- Names -----------------------------------------------------------------------------

  lemma AttributeEncodingIsTwoItems(a: RdnAttribute, rest: Bytes)
    requires SignKept(a)
    ensures SkipItems(2, EncAttribute(a) + rest) == Some(rest)
  {
    AttributeReadsBack(a);
    AttributeIsItems(EncAttribute(a) + rest);
  }

  lemma NameEncodingIsItem(n: Name, rest: Bytes)
    requires NameTyped(n)
    ensures IsItem(EncName(n), rest)
  {
    NameRoundTrip(n, rest);
    NameIsItem(EncName(n) + rest);
    ItemIsCaptured(EncName(n), rest);
  }

  lemma DirectoryAttributeEncodingIsTwoItems(a: RdnAttributes, rest: Bytes)
    requires SignKept(a)
    ensures SkipItems(2, EncAttributes(a) + rest) == Some(rest)
  {
    AttributesReadBack(a);
    AttributesAreItems(EncAttributes(a) + rest);
  }

  lemma DirectoryEncodingIsItem(attrs: PairVec<RdnAttributes>, rest: Bytes)
    requires DirectoryTyped(attrs)
    ensures IsItem(EncDirectory(attrs), rest)
  {
    DirectoryRoundTrip(attrs, rest);
    DirectoryIsItem(EncDirectory(attrs) + rest);
    ItemIsCaptured(EncDirectory(attrs), rest);
  }

  lemma GeneralNameEncodingIsTwoItems(g: GeneralName, rest: Bytes)
    requires GeneralNameTyped(g)
    ensures SkipItems(2, EncGeneralName(g) + rest) == Some(rest)
  {
    GeneralNameRoundTrip(g, rest);
    GeneralNameIsItems(EncGeneralName(g) + rest);
  }

  /** Both as a list and in the form alternative names take. */
  lemma GeneralNamesEncodingIsItem(names: GeneralNameList, rest: Bytes)
    requires GeneralNamesTyped(names)
    ensures IsItem(EncGeneralNames(names), rest)
    ensures IsItem(EncAltName(names), rest)
  {
    GeneralNamesRoundTrip(names, rest);
    GeneralNamesAreItem(EncGeneralNames(names) + rest);
    ItemIsCaptured(EncGeneralNames(names), rest);
    AltNameRoundTrip(names, rest);
    AltNameIsItem(EncAltName(names) + rest);
    ItemIsCaptured(EncAltName(names), rest);
  }

  /** A list of points is one item, and so is each point in it. */
  lemma PointsEncodingIsItem(points: Vec<DistributionPointName>, rest: Bytes)
    requires PointsTyped(points)
    ensures IsItem(EncPoints(points), rest)
    ensures forall p :: p in points ==> IsItem(EncPoint(p), rest)
  {
    PointsRoundTrip(points, rest);
    PointsAreItem(EncPoints(points) + rest);
    ItemIsCaptured(EncPoints(points), rest);
    forall p | p in points
      ensures IsItem(EncPoint(p), rest)
    {
      PointRoundTrip(p, rest);
      PointIsItem(EncPoint(p) + rest);
      ItemIsCaptured(EncPoint(p), rest);
    }
  }

  // ---- Addresses and AS identifiers ----------------------------------------------------------

  lemma FamilyEncodingIsThreeItems(f: IpAddressFamily, rest: Bytes)
    requires FamilyTyped(f)
    ensures EncFamily(f).Some? && SkipItems(3, EncFamily(f).value + rest) == Some(rest)
  {
    hide EncFamily, DecFamily;
    FamilyRoundTrip(f, rest);
    FamilyIsItems(EncFamily(f).value + rest);
  }

  lemma FamiliesEncodingIsItem(families: TripleVec<IpAddressFamily>, rest: Bytes)
    requires FamiliesTyped(families)
    ensures EncFamilies(families).Some? && IsItem(EncFamilies(families).value, rest)
  {
    hide EncFamilies, DecFamilies;
    FamiliesRoundTrip(families, rest);
    FamiliesAreItem(EncFamilies(families).value + rest);
    ItemIsCaptured(EncFamilies(families).value, rest);
  }

  lemma AsIdentifiersEncodingIsItem(value: Option<Vec<AsIdOrRange>>, rest: Bytes)
    ensures EncAsIdentifiers(value).Some? && IsItem(EncAsIdentifiers(value).value, rest)
  {
    hide EncAsIdentifiers, DecAsIdentifiers;
    AsIdentifiersRoundTrip(value, rest);
    AsIdentifiersAreItem(EncAsIdentifiers(value).value + rest);
    ItemIsCaptured(EncAsIdentifiers(value).value, rest);
  }

  // ---- Extensions ------------------------------------------------------------------------------

  lemma ValueEncodingIsItem(id: int, v: ExtensionValue, rest: Bytes)
    requires ValueTyped(id, v) && EncValue(v).Some?
    ensures IsItem(EncValue(v).value, rest)
  {
    hide EncValue, DecValue, ValueTyped;
    ValueRoundTrip(id, v, rest);
    ValueIsItem(id, EncValue(v).value + rest);
    ItemIsCaptured(EncValue(v).value, rest);
  }

  lemma ExtensionEncodingIsTwoItems(x: Extension, rest: Bytes)
    requires ExtensionTyped(x) && EncExtension(x).Some?
    ensures SkipItems(2, EncExtension(x).value + rest) == Some(rest)
  {
    hide EncExtension, DecExtension, ExtensionTyped;
    ExtensionReadsBack(x);
    ExtensionIsItems(EncExtension(x).value + rest);
  }

  lemma ExtensionsEncodingIsItem(list: ExtensionList, rest: Bytes)
    requires ExtensionsTyped(list) && EncExtensions(list).Some?
    ensures IsItem(EncExtensions(list).value, rest)
  {
    hide EncExtensions, DecExtensions;
    ExtensionsRoundTrip(list, rest);
    ExtensionsAreItem(EncExtensions(list).value + rest);
    ItemIsCaptured(EncExtensions(list).value, rest);
  }
}
