/** General names by registry kind, their list, and the alt-name shortcut (src/extensions/general_name.rs). */
module GeneralNames {
  import opened Wrappers
  import opened ByteStrings
  import opened RustTypes
  import opened Cbor
  import opened Lists
  import opened Minicbor
  import opened Common
  import opened Names

  datatype GeneralNameValue =
    | OtherName(typeId: Oid, value: Blob)
    | HardwareModuleName(hwType: Oid, hwSerialNum: Blob)
    | SmtpUtf8Mailbox(mailbox: Text)
    | MacAddress(mac: MacAddr)
    | Rfc822Name(rfc822: Text)
    | DnsName(dns: Text)
    | DirectoryName(name: Name)
    | Uri(uri: Text)
    | IpAddress(address: Blob)
    | RegisteredId(oid: Oid)
    | RawName(item: Blob)

  datatype GeneralName = GeneralName(kind: i32, value: GeneralNameValue)

  type GeneralNameList = PairVec<GeneralName>

  // ---- Grammar -------------------------------------------------------------------

  /** `[ ~oid, bytes ]`. */
  function EncOidAndBytes(oid: Oid, b: Blob): Bytes {
    EncArrayHead(2) + (EncBytes(oid) + EncBytes(b))
  }

  function DecOidAndBytes(s: Bytes): Parsed<(Oid, Blob)> {
    var (len, r) :- DecArrayHead(s);
    if len != 2 then Fail else
    var (oid, r1) :- DecOid(r);
    var (b, r2) :- DecBytes(r1);
    Ok((oid, b), r2)
  }

  function EncGeneralNameValue(v: GeneralNameValue): Bytes {
    match v
    case OtherName(oid, b) => EncOidAndBytes(oid, b)
    case HardwareModuleName(oid, b) => EncOidAndBytes(oid, b)
    case SmtpUtf8Mailbox(t) => EncText(t)
    case MacAddress(mac) => EncBytes(mac)
    case Rfc822Name(t) => EncText(t)
    case DnsName(t) => EncText(t)
    case DirectoryName(n) => EncName(n)
    case Uri(t) => EncText(t)
    case IpAddress(b) => EncBytes(b)
    case RegisteredId(oid) => EncBytes(oid)
    case RawName(item) => item
  }

  /** The registered kinds; any other kind carries one uninterpreted item. */
  predicate IsAssignedKind(kind: i32) {
    -3 <= kind <= 2 || kind == 4 || 6 <= kind <= 8
  }

  function DecGeneralNameValue(kind: i32, s: Bytes): Parsed<GeneralNameValue> {
    if kind == -3 then Wrap(DecMac(s), v => MacAddress(v))
    else if kind == -2 then Wrap(DecText(s), v => SmtpUtf8Mailbox(v))
    else if kind == -1 then Wrap(DecOidAndBytes(s), (p: (Oid, Blob)) => HardwareModuleName(p.0, p.1))
    else if kind == 0 then Wrap(DecOidAndBytes(s), (p: (Oid, Blob)) => OtherName(p.0, p.1))
    else if kind == 1 then Wrap(DecText(s), v => Rfc822Name(v))
    else if kind == 2 then Wrap(DecText(s), v => DnsName(v))
    else if kind == 4 then Wrap(DecName(s), v => DirectoryName(v))
    else if kind == 6 then Wrap(DecText(s), v => Uri(v))
    else if kind == 7 then Wrap(DecBytes(s), v => IpAddress(v))
    else if kind == 8 then Wrap(DecOid(s), v => RegisteredId(v))
    else Wrap(DecRaw(s), v => RawName(v))
  }

  function EncGeneralName(g: GeneralName): Bytes {
    EncInt(g.kind) + EncGeneralNameValue(g.value)
  }

  function DecGeneralName(s: Bytes): Parsed<GeneralName> {
    var (kind, r) :- DecI32(s);
    var (value, q) :- DecGeneralNameValue(kind, r);
    Ok(GeneralName(kind, value), q)
  }

  function EncGeneralNames(names: GeneralNameList): Bytes {
    EncArrayOf(2, EncGeneralName, names)
  }

  function DecGeneralNames(s: Bytes): Parsed<GeneralNameList> {
    DecArrayOf(2, DecGeneralName, s)
  }

  /** A lone dNSName is written as its bare text. */
  predicate IsLoneDnsName(names: GeneralNameList) {
    |names| == 1 && names[0].kind == 2 && names[0].value.DnsName?
  }

  function EncAltName(names: GeneralNameList): Bytes {
    if IsLoneDnsName(names) then EncText(names[0].value.dns) else EncGeneralNames(names)
  }

  function DecAltName(s: Bytes): Parsed<GeneralNameList> {
    if TypeOf(s).TextString? then
      var (t, r) :- DecText(s);
      Ok([GeneralName(2, DnsName(t))], r)
    else
      DecGeneralNames(s)
  }

  /** The kind is the one its variant is registered under, and what is nested is itself in order. */
  predicate GeneralNameTyped(g: GeneralName) {
    match g.value
    case OtherName(_, _) => g.kind == 0
    case HardwareModuleName(_, _) => g.kind == -1
    case SmtpUtf8Mailbox(_) => g.kind == -2
    case MacAddress(_) => g.kind == -3
    case Rfc822Name(_) => g.kind == 1
    case DnsName(_) => g.kind == 2
    case DirectoryName(n) => g.kind == 4 && NameTyped(n)
    case Uri(_) => g.kind == 6
    case IpAddress(_) => g.kind == 7
    case RegisteredId(_) => g.kind == 8
    case RawName(item) => !IsAssignedKind(g.kind) && WellFormedItem(item)
  }

  predicate GeneralNamesTyped(names: seq<GeneralName>) {
    forall g :: g in names ==> GeneralNameTyped(g)
  }

  // ---- Both ways -------------------------------------------------------------------

  lemma OidAndBytesRoundTrip(oid: Oid, b: Blob, rest: Bytes)
    ensures DecOidAndBytes(EncOidAndBytes(oid, b) + rest) == Ok((oid, b), rest)
  {
    Assoc(EncArrayHead(2), EncBytes(oid) + EncBytes(b), rest);
    Assoc(EncBytes(oid), EncBytes(b), rest);
    ArrayHeadRoundTrip(2, EncBytes(oid) + (EncBytes(b) + rest));
    OidRoundTrip(oid, EncBytes(b) + rest);
    BytesRoundTrip(b, rest);
  }

  lemma OidAndBytesIsItem(s: Bytes)
    requires DecOidAndBytes(s).Ok?
    ensures SkipItems(1, s) == Some(DecOidAndBytes(s).rest)
  {
    var r := DecArrayHead(s).rest;
    ArrayIsItem(s);
    StringIsItem(BYTE_STRING, r);
    StringIsItem(BYTE_STRING, DecOid(r).rest);
    ItemsThenItems(1, 1, r);
  }

  lemma GeneralNameValueRoundTrip(g: GeneralName, rest: Bytes)
    requires GeneralNameTyped(g)
    ensures DecGeneralNameValue(g.kind, EncGeneralNameValue(g.value) + rest) == Ok(g.value, rest)
  {
    match g.value
    case OtherName(oid, b) => OidAndBytesRoundTrip(oid, b, rest);
    case HardwareModuleName(oid, b) => OidAndBytesRoundTrip(oid, b, rest);
    case SmtpUtf8Mailbox(t) => TextRoundTrip(t, rest);
    case MacAddress(mac) => BytesRoundTrip(mac, rest);
    case Rfc822Name(t) => TextRoundTrip(t, rest);
    case DnsName(t) => TextRoundTrip(t, rest);
    case DirectoryName(n) => NameRoundTrip(n, rest);
    case Uri(t) => TextRoundTrip(t, rest);
    case IpAddress(b) => BytesRoundTrip(b, rest);
    case RegisteredId(oid) => OidRoundTrip(oid, rest);
    case RawName(item) => RawRoundTrip(item, rest);
  }

  lemma GeneralNameRoundTrip(g: GeneralName, rest: Bytes)
    requires GeneralNameTyped(g)
    ensures DecGeneralName(EncGeneralName(g) + rest) == Ok(g, rest)
  {
    Assoc(EncInt(g.kind), EncGeneralNameValue(g.value), rest);
    IntRoundTrip(g.kind, EncGeneralNameValue(g.value) + rest);
    GeneralNameValueRoundTrip(g, rest);
  }

  lemma OtherNameIsItem(kind: i32, s: Bytes)
    requires DecGeneralNameValue(kind, s).Ok? && -3 <= kind <= 0
    ensures SkipItems(1, s) == Some(DecGeneralNameValue(kind, s).rest)
    ensures GeneralNameTyped(GeneralName(kind, DecGeneralNameValue(kind, s).value))
  {
    if kind == -3 {
      StringIsItem(BYTE_STRING, s);
    } else if kind == -2 {
      StringIsItem(TEXT_STRING, s);
    } else {
      OidAndBytesIsItem(s);
    }
  }

  lemma StandardNameIsItem(kind: i32, s: Bytes)
    requires DecGeneralNameValue(kind, s).Ok? && 1 <= kind <= 8 && IsAssignedKind(kind)
    ensures SkipItems(1, s) == Some(DecGeneralNameValue(kind, s).rest)
    ensures GeneralNameTyped(GeneralName(kind, DecGeneralNameValue(kind, s).value))
  {
    if kind == 4 {
      NameIsItem(s);
    } else if kind >= 7 {
      StringIsItem(BYTE_STRING, s);
    } else {
      StringIsItem(TEXT_STRING, s);
    }
  }

  lemma GeneralNameValueIsItem(kind: i32, s: Bytes)
    requires DecGeneralNameValue(kind, s).Ok?
    ensures SkipItems(1, s) == Some(DecGeneralNameValue(kind, s).rest)
    ensures GeneralNameTyped(GeneralName(kind, DecGeneralNameValue(kind, s).value))
  {
    if -3 <= kind <= 0 {
      OtherNameIsItem(kind, s);
    } else if IsAssignedKind(kind) {
      StandardNameIsItem(kind, s);
    } else {
      RawIsItem(s);
    }
  }

  lemma GeneralNameIsItems(s: Bytes)
    requires DecGeneralName(s).Ok?
    ensures SkipItems(2, s) == Some(DecGeneralName(s).rest) && GeneralNameTyped(DecGeneralName(s).value)
  {
    IntIsItem(s);
    GeneralNameValueIsItem(DecI32(s).value, DecI32(s).rest);
    ItemsThenItems(1, 1, s);
  }

  lemma GeneralNamesRoundTrip(names: GeneralNameList, rest: Bytes)
    requires GeneralNamesTyped(names)
    ensures DecGeneralNames(EncGeneralNames(names) + rest) == Ok(names, rest)
    ensures TypeOf(EncGeneralNames(names) + rest) == CborType.Array
  {
    forall i | 0 <= i < |names|
      ensures ReadsBack(DecGeneralName, EncGeneralName(names[i]), names[i])
    {
      forall t: Bytes
        ensures DecGeneralName(EncGeneralName(names[i]) + t) == Ok(names[i], t)
      {
        GeneralNameRoundTrip(names[i], t);
      }
    }
    ArrayOfRoundTrip(2, EncGeneralName, DecGeneralName, names, rest);
  }

  lemma GeneralNamesAreItem(s: Bytes)
    requires DecGeneralNames(s).Ok?
    ensures SkipItems(1, s) == Some(DecGeneralNames(s).rest) && GeneralNamesTyped(DecGeneralNames(s).value)
  {
    forall t: Bytes | DecGeneralName(t).Ok?
      ensures SkipItems(2, t) == Some(DecGeneralName(t).rest) && GeneralNameTyped(DecGeneralName(t).value)
    {
      GeneralNameIsItems(t);
    }
    ArrayOfIsItem(2, DecGeneralName, s);
    ArrayOfYields(2, DecGeneralName, GeneralNameTyped, s);
  }

  /** The bare text is never taken for a list, nor a list for bare text. */
  lemma AltNameRoundTrip(names: GeneralNameList, rest: Bytes)
    requires GeneralNamesTyped(names)
    ensures DecAltName(EncAltName(names) + rest) == Ok(names, rest)
  {
    if IsLoneDnsName(names) {
      TextRoundTrip(names[0].value.dns, rest);
      assert names == [GeneralName(2, DnsName(names[0].value.dns))];
    } else {
      GeneralNamesRoundTrip(names, rest);
    }
  }

  lemma AltNameIsItem(s: Bytes)
    requires DecAltName(s).Ok?
    ensures SkipItems(1, s) == Some(DecAltName(s).rest) && GeneralNamesTyped(DecAltName(s).value)
  {
    if TypeOf(s).TextString? {
      StringIsItem(TEXT_STRING, s);
    } else {
      GeneralNamesAreItem(s);
    }
  }

  /** Both forms of a list of general names read it back exactly when every name is in order. */
  lemma GeneralNamesRoundTripExactly(names: GeneralNameList, rest: Bytes)
    ensures DecGeneralNames(EncGeneralNames(names) + rest) == Ok(names, rest) <==> GeneralNamesTyped(names)
    ensures DecAltName(EncAltName(names) + rest) == Ok(names, rest) <==> GeneralNamesTyped(names)
  {
    if GeneralNamesTyped(names) {
      GeneralNamesRoundTrip(names, rest);
      AltNameRoundTrip(names, rest);
    } else {
      if DecGeneralNames(EncGeneralNames(names) + rest).Ok? {
        GeneralNamesAreItem(EncGeneralNames(names) + rest);
      }
      if DecAltName(EncAltName(names) + rest).Ok? {
        AltNameIsItem(EncAltName(names) + rest);
      }
    }
  }

  // ---- Methods -----------------------------------------------------------------------

  method DecodeOidAndBytes(d: Decoder) returns (r: Option<(Oid, Blob)>)
    requires d.Valid()
    modifies d
    ensures d.Valid() && Reads(DecOidAndBytes(old(d.Rest())), r, d.Rest())
  {
    var n := ExpectArrayLen(d, 2);
    if n.Failed? {
      return None;
    }
    var oid :- DecodeOid(d);
    var b :- d.Bytes();
    return Some((oid, b));
  }

  method DecodeGeneralNameValue(kind: i32, d: Decoder) returns (r: Option<GeneralNameValue>)
    requires d.Valid()
    modifies d
    ensures d.Valid() && Reads(DecGeneralNameValue(kind, old(d.Rest())), r, d.Rest())
  {
    if kind == -3 {
      var mac :- DecodeMac(d);
      return Some(MacAddress(mac));
    } else if kind == -2 {
      var t :- d.Str();
      return Some(SmtpUtf8Mailbox(t));
    } else if kind == -1 {
      var p :- DecodeOidAndBytes(d);
      return Some(HardwareModuleName(p.0, p.1));
    } else if kind == 0 {
      var p :- DecodeOidAndBytes(d);
      return Some(OtherName(p.0, p.1));
    } else if kind == 1 {
      var t :- d.Str();
      return Some(Rfc822Name(t));
    } else if kind == 2 {
      var t :- d.Str();
      return Some(DnsName(t));
    } else if kind == 4 {
      var n :- DecodeName(d);
      return Some(DirectoryName(n));
    } else if kind == 6 {
      var t :- d.Str();
      return Some(Uri(t));
    } else if kind == 7 {
      var b :- d.Bytes();
      return Some(IpAddress(b));
    } else if kind == 8 {
      var oid :- DecodeOid(d);
      return Some(RegisteredId(oid));
    } else {
      var item :- RawItem(d);
      return Some(RawName(item));
    }
  }

  method DecodeGeneralName(d: Decoder) returns (r: Option<GeneralName>)
    requires d.Valid()
    modifies d
    ensures d.Valid() && Reads(DecGeneralName(old(d.Rest())), r, d.Rest())
  {
    var kind :- d.I32();
    var value :- DecodeGeneralNameValue(kind, d);
    return Some(GeneralName(kind, value));
  }

  method EncodeOidAndBytes(oid: Oid, b: Blob, e: Encoder)
    modifies e
    ensures e.buf == old(e.buf) + EncOidAndBytes(oid, b)
  {
    ghost var before := e.buf;
    e.Array(2);
    e.Bytes(oid);
    e.Bytes(b);
    Assoc(before + EncArrayHead(2), EncBytes(oid), EncBytes(b));
    Assoc(before, EncArrayHead(2), EncBytes(oid) + EncBytes(b));
  }

  method EncodeGeneralName(g: GeneralName, e: Encoder)
    modifies e
    ensures e.buf == old(e.buf) + EncGeneralName(g)
  {
    ghost var before := e.buf;
    e.Int(g.kind);
    match g.value {
      case OtherName(oid, b) => EncodeOidAndBytes(oid, b, e);
      case HardwareModuleName(oid, b) => EncodeOidAndBytes(oid, b, e);
      case SmtpUtf8Mailbox(t) => e.Str(t);
      case MacAddress(mac) => e.Bytes(mac);
      case Rfc822Name(t) => e.Str(t);
      case DnsName(t) => e.Str(t);
      case DirectoryName(n) => EncodeName(n, e);
      case Uri(t) => e.Str(t);
      case IpAddress(b) => e.Bytes(b);
      case RegisteredId(oid) => e.Bytes(oid);
      case RawName(item) => e.WriteAll(item);
    }
    Assoc(before, EncInt(g.kind), EncGeneralNameValue(g.value));
  }

  method DecodeNames(n: nat, d: Decoder) returns (r: Option<seq<GeneralName>>)
    requires d.Valid()
    modifies d
    ensures d.Valid() && Reads(DecMany(n, DecGeneralName, old(d.Rest())), r, d.Rest())
  {
    hide DecGeneralName;
    ghost var start := d.Rest();
    var out: seq<GeneralName> := [];
    NothingDone(DecMany(n, DecGeneralName, start));
    for left := n downto 0
      invariant d.Valid()
      invariant DecMany(n, DecGeneralName, start) == After(out, DecMany(left, DecGeneralName, d.Rest()))
    {
      ghost var here := d.Rest();
      var g := DecodeGeneralName(d);
      ReadStep(n, left, DecGeneralName, start, out, here, g, d.Rest());
      if g.None? {
        return None;
      }
      out := out + [g.value];
    }
    NothingLeft(out, DecGeneralName, d.Rest());
    return Some(out);
  }

  method DecodeGeneralNames(d: Decoder) returns (r: Option<GeneralNameList>)
    requires d.Valid()
    modifies d
    ensures d.Valid() && Reads(DecGeneralNames(old(d.Rest())), r, d.Rest())
  {
    var len :- DefiniteArrayLen(d);
    if len % 2 != 0 {
      return None;
    }
    var out :- DecodeNames(len / 2, d);
    return Some(out);
  }

  method EncodeGeneralNames(names: GeneralNameList, e: Encoder)
    modifies e
    ensures e.buf == old(e.buf) + EncGeneralNames(names)
  {
    ghost var before := e.buf;
    e.Array(2 * |names|);
    ghost var head := e.buf;
    assert names[0..] == names;
    for i := 0 to |names|
      invariant head + ConcatMap(names, EncGeneralName) == e.buf + ConcatMap(names[i..], EncGeneralName)
    {
      WriteOne(names, i, EncGeneralName, e.buf);
      EncodeGeneralName(names[i], e);
    }
    NothingBefore(e.buf);
    Assoc(before, EncArrayHead(2 * |names|), ConcatMap(names, EncGeneralName));
  }

  method DecodeAltName(d: Decoder) returns (r: Option<GeneralNameList>)
    requires d.Valid()
    modifies d
    ensures d.Valid() && Reads(DecAltName(old(d.Rest())), r, d.Rest())
  {
    var ty :- d.DataType();
    if ty.TextString? {
      var t :- d.Str();
      return Some([GeneralName(2, DnsName(t))]);
    }
    r := DecodeGeneralNames(d);
  }

  method EncodeAltName(names: GeneralNameList, e: Encoder)
    modifies e
    ensures e.buf == old(e.buf) + EncAltName(names)
  {
    if IsLoneDnsName(names) {
      e.Str(names[0].value.dns);
    } else {
      EncodeGeneralNames(names, e);
    }
  }
}
