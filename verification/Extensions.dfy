/** Extension values, extensions and their list (src/extensions/mod.rs): the grammar. */
module Extensions {
  import opened Wrappers
  import opened ByteStrings
  import opened RustTypes
  import opened Cbor
  import opened Lists
  import opened Common
  import opened Rfc3779
  import opened BasicConstraint
  import opened ExtKeyUsages
  import opened GeneralNames
  import opened DistributionPoints
  import opened AuthorityKeys
  import opened DirectoryAttributes
  import opened PairLists

  datatype ExtensionValue =
    | SubjectKeyIdentifier(keyId: Blob)
    | KeyUsage(bits: u32)
    | SubjectAltName(san: GeneralNameList)
    | BasicConstraintsValue(bc: BasicConstraints)
    | CrlDistributionPoints(crl: Vec<DistributionPointName>)
    | CertificatePolicies(policies: PairVec<Policy>)
    | AuthorityKeyValue(aki: AuthorityKeyIdentifier)
    | ExtKeyUsage(eku: Vec<IntOrOid>)
    | AuthorityInfoAccess(aia: PairVec<IdAndText>)
    | SubjectDirectoryAttributes(sda: PairVec<RdnAttributes>)
    | IssuerAltName(ian: GeneralNameList)
    | NameConstraintsValue(nc: NameConstraints)
    | PolicyMappings(mappings: PairVec<PolicyMapping>)
    | PolicyConstraintsValue(pc: PolicyConstraints)
    | FreshestCrl(freshest: Vec<DistributionPointName>)
    | InhibitAnyPolicy(skipCerts: u32)
    | SubjectInfoAccess(sia: PairVec<IdAndText>)
    | IpAddrBlocks(ip: TripleVec<IpAddressFamily>)
    | AsIdentifiers(asIds: Option<Vec<AsIdOrRange>>)
    | IpAddrBlocksV2(ip2: TripleVec<IpAddressFamily>)
    | AsIdentifiersV2(asIds2: Option<Vec<AsIdOrRange>>)
    | OcspNoCheck
    | TlsFeatures(features: Vec<u32>)
    | Raw(raw: Blob)

  datatype Extension = Extension(id: IntOrOid, critical: bool, value: ExtensionValue)

  type ExtensionList = PairVec<Extension>

  // ---- Values ----------------------------------------------------------------------

  function EncValue(v: ExtensionValue): Option<Bytes> {
    match v
    case SubjectKeyIdentifier(b) => Some(EncBytes(b))
    case KeyUsage(n) => Some(EncInt(n))
    case SubjectAltName(names) => Some(EncAltName(names))
    case BasicConstraintsValue(bc) => EncBasicConstraints(bc)
    case CrlDistributionPoints(points) => Some(EncPoints(points))
    case CertificatePolicies(policies) => Some(EncPolicies(policies))
    case AuthorityKeyValue(a) => EncAuthorityKey(a)
    case ExtKeyUsage(ids) => Some(EncExtKeyUsage(ids))
    case AuthorityInfoAccess(access) => Some(EncIdAndTexts(access))
    case SubjectDirectoryAttributes(attrs) => Some(EncDirectory(attrs))
    case IssuerAltName(names) => Some(EncAltName(names))
    case NameConstraintsValue(c) => Some(EncNameConstraints(c))
    case PolicyMappings(mappings) => Some(EncMappings(mappings))
    case PolicyConstraintsValue(c) => Some(EncPolicyConstraints(c))
    case FreshestCrl(points) => Some(EncPoints(points))
    case InhibitAnyPolicy(n) => Some(EncInt(n))
    case SubjectInfoAccess(access) => Some(EncIdAndTexts(access))
    case IpAddrBlocks(families) => EncFamilies(families)
    case AsIdentifiers(ids) => EncAsIdentifiers(ids)
    case IpAddrBlocksV2(families) => EncFamilies(families)
    case AsIdentifiersV2(ids) => EncAsIdentifiers(ids)
    case OcspNoCheck => Some([NULL])
    case TlsFeatures(features) => Some(EncTlsFeatures(features))
    case Raw(b) => Some(b)
  }

  function DecValue(id: int, s: Bytes): Parsed<ExtensionValue> {
    if id == 1 then Wrap(DecBytes(s), v => SubjectKeyIdentifier(v))
    else if id == 2 then Wrap(DecU32(s), v => KeyUsage(v))
    else if id == 3 then Wrap(DecAltName(s), v => SubjectAltName(v))
    else if id == 4 then Wrap(DecBasicConstraints(s), v => BasicConstraintsValue(v))
    else if id == 5 then Wrap(DecPoints(s), v => CrlDistributionPoints(v))
    else if id == 6 then Wrap(DecPolicies(s), v => CertificatePolicies(v))
    else if id == 7 then Wrap(DecAuthorityKey(s), v => AuthorityKeyValue(v))
    else if id == 8 then Wrap(DecExtKeyUsage(s), v => ExtKeyUsage(v))
    else if id == 9 then Wrap(DecIdAndTexts(s), v => AuthorityInfoAccess(v))
    else if id == 24 then Wrap(DecDirectory(s), v => SubjectDirectoryAttributes(v))
    else if id == 25 then Wrap(DecAltName(s), v => IssuerAltName(v))
    else if id == 26 then Wrap(DecNameConstraints(s), v => NameConstraintsValue(v))
    else if id == 27 then Wrap(DecMappings(s), v => PolicyMappings(v))
    else if id == 28 then Wrap(DecPolicyConstraints(s), v => PolicyConstraintsValue(v))
    else if id == 29 then Wrap(DecPoints(s), v => FreshestCrl(v))
    else if id == 30 then Wrap(DecU32(s), v => InhibitAnyPolicy(v))
    else if id == 31 then Wrap(DecIdAndTexts(s), v => SubjectInfoAccess(v))
    else if id == 32 then Wrap(DecFamilies(s), v => IpAddrBlocks(v))
    else if id == 33 then Wrap(DecAsIdentifiers(s), v => AsIdentifiers(v))
    else if id == 34 then Wrap(DecFamilies(s), v => IpAddrBlocksV2(v))
    else if id == 35 then Wrap(DecAsIdentifiers(s), v => AsIdentifiersV2(v))
    else if id == 36 then Wrap(DecNull(s), v => OcspNoCheck)
    else if id == 38 then Wrap(DecTlsFeatures(s), v => TlsFeatures(v))
    else Wrap(DecRaw(s), v => Raw(v))
  }

  predicate IsAssignedId(id: int) {
    1 <= id <= 9 || 24 <= id <= 36 || id == 38
  }

  /** The variant is the one `id` selects, and what is nested is itself in order. */
  predicate ValueTyped(id: int, v: ExtensionValue) {
    match v
    case SubjectKeyIdentifier(_) => id == 1
    case KeyUsage(_) => id == 2
    case SubjectAltName(names) => id == 3 && GeneralNamesTyped(names)
    case BasicConstraintsValue(_) => id == 4
    case CrlDistributionPoints(points) => id == 5 && PointsTyped(points)
    case CertificatePolicies(_) => id == 6
    case AuthorityKeyValue(a) => id == 7 && IssuerTyped(a)
    case ExtKeyUsage(_) => id == 8
    case AuthorityInfoAccess(_) => id == 9
    case SubjectDirectoryAttributes(attrs) => id == 24 && DirectoryTyped(attrs)
    case IssuerAltName(names) => id == 25 && GeneralNamesTyped(names)
    case NameConstraintsValue(c) => id == 26 && NameConstraintsTyped(c)
    case PolicyMappings(_) => id == 27
    case PolicyConstraintsValue(_) => id == 28
    case FreshestCrl(points) => id == 29 && PointsTyped(points)
    case InhibitAnyPolicy(_) => id == 30
    case SubjectInfoAccess(_) => id == 31
    case IpAddrBlocks(families) => id == 32 && FamiliesTyped(families)
    case AsIdentifiers(_) => id == 33
    case IpAddrBlocksV2(families) => id == 34 && FamiliesTyped(families)
    case AsIdentifiersV2(_) => id == 35
    case OcspNoCheck => id == 36
    case TlsFeatures(_) => id == 38
    case Raw(b) => !IsAssignedId(id) && WellFormedItem(b)
  }

  /** The two values with a shape the grammar has no room for. */
  predicate ValueEncodable(v: ExtensionValue) {
    && (v.BasicConstraintsValue? ==> PathLenFits(v.bc))
    && (v.AuthorityKeyValue? ==> BothOrNeither(v.aki))
  }

  /** The value with the host bits of IP prefixes cleared. */
  function ValueNetwork(v: ExtensionValue): ExtensionValue {
    match v
    case IpAddrBlocks(families) => IpAddrBlocks(FamiliesNetwork(families))
    case IpAddrBlocksV2(families) => IpAddrBlocksV2(FamiliesNetwork(families))
    case _ => v
  }

  // ---- Extensions ------------------------------------------------------------------

  /** The sign carries criticality; the least `i32` has no negation. */
  function EncCritical(value: i32, critical: bool): Option<Bytes> {
    if critical && value == -TWO_31 then None
    else Some(EncInt(if critical then -(value as int) else value as int))
  }

  /** Magnitude and sign of a CBOR int that fits an `i32`; the magnitude may be 2^31. */
  function DecCritical(s: Bytes): (r: Parsed<(u32, bool)>)
    ensures r.Ok? ==> r.value.0 <= TWO_31
  {
    var (raw, r) :- DecI32(s);
    Ok((if raw < 0 then -(raw as int) else raw as int, raw < 0), r)
  }

  /** The original's `id as i32`: a magnitude of 2^31 wraps to the least `i32`. */
  function WrappedId(magnitude: u32): i32
    requires magnitude <= TWO_31
  {
    if magnitude == TWO_31 then -TWO_31 else magnitude
  }

  function EncOidExtension(oid: Oid, critical: bool, raw: Blob): Bytes {
    EncBytes(oid) + (if critical then EncArrayHead(1) + EncBytes(raw) else EncBytes(raw))
  }

  function EncExtension(x: Extension): Option<Bytes> {
    match x.id
    case Registry(n) =>
      var id :- EncCritical(n, x.critical);
      var value :- EncValue(x.value);
      Some(id + value)
    case Unregistered(oid) =>
      if x.value.Raw? then Some(EncOidExtension(oid, x.critical, x.value.raw)) else None
  }

  function DecOidExtension(s: Bytes): Parsed<Extension> {
    var (oid, r) :- DecOid(s);
    if IsArray(TypeOf(r)) then
      var (len, r1) :- DecArrayHead(r);
      if len != 1 then Fail else
      var (raw, r2) :- DecBytes(r1);
      Ok(Extension(Unregistered(oid), true, Raw(raw)), r2)
    else
      var (raw, r1) :- DecBytes(r);
      Ok(Extension(Unregistered(oid), false, Raw(raw)), r1)
  }

  function DecIntExtension(s: Bytes): Parsed<Extension> {
    var (p, r) :- DecCritical(s);
    var (value, q) :- DecValue(p.0, r);
    Ok(Extension(Registry(WrappedId(p.0)), p.1, value), q)
  }

  function DecExtension(s: Bytes): Parsed<Extension> {
    if TypeOf(s).ByteString? then DecOidExtension(s) else DecIntExtension(s)
  }

  predicate IsSoleKeyUsage(list: ExtensionList) {
    |list| == 1 && list[0].id == Registry(2) && list[0].value.KeyUsage?
  }

  /** A lone KeyUsage is written as one signed integer. */
  function EncExtensions(list: ExtensionList): Option<Bytes> {
    if IsSoleKeyUsage(list) then
      var bits := list[0].value.bits;
      if bits >= TWO_31 then None else EncCritical(bits, list[0].critical)
    else
      TryEncArrayOf(2, EncExtension, list)
  }

  function SoleKeyUsage(bits: u32, critical: bool): ExtensionList {
    [Extension(Registry(2), critical, KeyUsage(bits))]
  }

  function DecExtensions(s: Bytes): Parsed<ExtensionList> {
    if IsArray(TypeOf(s)) then DecArrayOf(2, DecExtension, s) else
    var (p, r) :- DecCritical(s);
    Ok(SoleKeyUsage(p.0, p.1), r)
  }

  // ---- What survives ---------------------------------------------------------------

  /** The registry number an extension id stands for on the wire. */
  function Magnitude(n: i32): int {
    if n < 0 then -(n as int) else n as int
  }

  /**
    Ids are non-negative, 0 is never critical, and the variant is the one the id selects. The least
    `i32`, critical, is the one negative id that a decoder can produce.
    */
  predicate ExtensionTyped(x: Extension) {
    match x.id
    case Registry(n) =>
      && (n >= 0 || (n == -TWO_31 && x.critical))
      && (n == 0 ==> !x.critical)
      && ValueTyped(Magnitude(n), x.value)
    case Unregistered(_) => x.value.Raw?
  }

  predicate ExtensionsTyped(list: seq<Extension>) {
    forall x :: x in list ==> ExtensionTyped(x)
  }

  predicate ExtensionEncodable(x: Extension) {
    match x.id
    case Registry(n) => !(n == -TWO_31 && x.critical) && ValueEncodable(x.value)
    case Unregistered(_) => x.value.Raw?
  }

  predicate ExtensionsEncodable(list: ExtensionList) {
    if IsSoleKeyUsage(list) then list[0].value.bits < TWO_31
    else forall x :: x in list ==> ExtensionEncodable(x)
  }

  function ExtensionNetwork(x: Extension): Extension {
    x.(value := ValueNetwork(x.value))
  }

  /** What is left of a list after one trip: prefixes are networks, and a lone KeyUsage of 0 has lost its sign. */
  function ExtensionsSurviving(list: ExtensionList): ExtensionList {
    if IsSoleKeyUsage(list) && list[0].value.bits == 0 then SoleKeyUsage(0, false)
    else Mapped(ExtensionNetwork, list)
  }

  /** Nothing is lost: no prefix has a host bit set, and a lone KeyUsage of 0 is not critical. */
  predicate ExtensionsLossless(list: ExtensionList) {
    && (forall x :: x in list && x.value.IpAddrBlocks? ==> FamiliesCanonical(x.value.ip))
    && (forall x :: x in list && x.value.IpAddrBlocksV2? ==> FamiliesCanonical(x.value.ip2))
    && (IsSoleKeyUsage(list) && list[0].value.bits == 0 ==> !list[0].critical)
  }
}
