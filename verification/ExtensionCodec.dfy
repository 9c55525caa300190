/** Extension values, extensions and their list step by step (src/extensions/mod.rs). */
module ExtensionCodec {
  import opened Wrappers
  import opened ByteStrings
  import opened RustTypes
  import opened Cbor
  import opened Lists
  import opened Minicbor
  import opened Common
  import opened Rfc3779Codec
  import opened BasicConstraint
  import opened ExtKeyUsages
  import opened GeneralNames
  import opened DistributionPoints
  import opened AuthorityKeys
  import opened DirectoryAttributes
  import opened PairLists
  import opened Extensions

  method DecodeLowValue(id: u32, d: Decoder) returns (r: Option<ExtensionValue>)
    requires d.Valid() && 1 <= id <= 9
    modifies d
    ensures d.Valid() && Reads(DecValue(id, old(d.Rest())), r, d.Rest())
  {
    if id == 1 {
      var v :- d.Bytes();
      return Some(SubjectKeyIdentifier(v));
    } else if id == 2 {
      var v :- d.U32();
      return Some(KeyUsage(v));
    } else if id == 3 {
      var v :- DecodeAltName(d);
      return Some(SubjectAltName(v));
    } else if id == 4 {
      var v :- DecodeBasicConstraints(d);
      return Some(BasicConstraintsValue(v));
    } else if id == 5 {
      var v :- DecodePoints(d);
      return Some(CrlDistributionPoints(v));
    } else if id == 6 {
      var v :- DecodePolicies(d);
      return Some(CertificatePolicies(v));
    } else if id == 7 {
      var v :- DecodeAuthorityKey(d);
      return Some(AuthorityKeyValue(v));
    } else if id == 8 {
      var v :- DecodeExtKeyUsage(d);
      return Some(ExtKeyUsage(v));
    } else {
      var v :- DecodeIdAndTexts(d);
      return Some(AuthorityInfoAccess(v));
    }
  }

  method DecodeMiddleValue(id: u32, d: Decoder) returns (r: Option<ExtensionValue>)
    requires d.Valid() && 24 <= id <= 31
    modifies d
    ensures d.Valid() && Reads(DecValue(id, old(d.Rest())), r, d.Rest())
  {
    if id == 24 {
      var v :- DecodeDirectory(d);
      return Some(SubjectDirectoryAttributes(v));
    } else if id == 25 {
      var v :- DecodeAltName(d);
      return Some(IssuerAltName(v));
    } else if id == 26 {
      var v :- DecodeNameConstraints(d);
      return Some(NameConstraintsValue(v));
    } else if id == 27 {
      var v :- DecodeMappings(d);
      return Some(PolicyMappings(v));
    } else if id == 28 {
      var v :- DecodePolicyConstraints(d);
      return Some(PolicyConstraintsValue(v));
    } else if id == 29 {
      var v :- DecodePoints(d);
      return Some(FreshestCrl(v));
    } else if id == 30 {
      var v :- d.U32();
      return Some(InhibitAnyPolicy(v));
    } else {
      var v :- DecodeIdAndTexts(d);
      return Some(SubjectInfoAccess(v));
    }
  }

  method DecodeHighValue(id: u32, d: Decoder) returns (r: Option<ExtensionValue>)
    requires d.Valid() && !(1 <= id <= 9) && !(24 <= id <= 31)
    modifies d
    ensures d.Valid() && Reads(DecValue(id, old(d.Rest())), r, d.Rest())
  {
    if id == 32 {
      var v :- DecodeIpAddressFamilies(d);
      return Some(IpAddrBlocks(v));
    } else if id == 33 {
      var v :- DecodeAsIdentifiers(d);
      return Some(AsIdentifiers(v));
    } else if id == 34 {
      var v :- DecodeIpAddressFamilies(d);
      return Some(IpAddrBlocksV2(v));
    } else if id == 35 {
      var v :- DecodeAsIdentifiers(d);
      return Some(AsIdentifiersV2(v));
    } else if id == 36 {
      var _ :- d.Null();
      return Some(OcspNoCheck);
    } else if id == 38 {
      var v :- DecodeTlsFeatures(d);
      return Some(TlsFeatures(v));
    } else {
      var v :- RawItem(d);
      return Some(Raw(v));
    }
  }

  method DecodeValue(id: u32, d: Decoder) returns (r: Option<ExtensionValue>)
    requires d.Valid()
    modifies d
    ensures d.Valid() && Reads(DecValue(id, old(d.Rest())), r, d.Rest())
  {
    if 1 <= id <= 9 {
      r := DecodeLowValue(id, d);
    } else if 24 <= id <= 31 {
      r := DecodeMiddleValue(id, d);
    } else {
      r := DecodeHighValue(id, d);
    }
  }

  method EncodeFallibleValue(v: ExtensionValue, e: Encoder) returns (ok: Outcome)
    requires v.BasicConstraintsValue? || v.AuthorityKeyValue? || v.IpAddrBlocks? || v.AsIdentifiers?
          || v.IpAddrBlocksV2? || v.AsIdentifiersV2?
    modifies e
    ensures Writes(EncValue(v), ok, old(e.buf), e.buf)
  {
    match v
    case BasicConstraintsValue(bc) => ok := EncodeBasicConstraints(bc, e);
    case AuthorityKeyValue(a) => ok := EncodeAuthorityKey(a, e);
    case IpAddrBlocks(families) => ok := EncodeIpAddressFamilies(families, e);
    case AsIdentifiers(ids) => ok := EncodeAsIdentifiers(ids, e);
    case IpAddrBlocksV2(families) => ok := EncodeIpAddressFamilies(families, e);
    case AsIdentifiersV2(ids) => ok := EncodeAsIdentifiers(ids, e);
  }

  method EncodeValue(v: ExtensionValue, e: Encoder) returns (ok: Outcome)
    modifies e
    ensures Writes(EncValue(v), ok, old(e.buf), e.buf)
  {
    hide EncBytes, EncInt, EncAltName, EncPoints, EncPolicies, EncExtKeyUsage, EncIdAndTexts, EncDirectory;
    hide EncNameConstraints, EncMappings, EncPolicyConstraints, EncTlsFeatures;
    ok := Pass;
    match v
    case SubjectKeyIdentifier(b) => e.Bytes(b);
    case KeyUsage(n) => e.Int(n);
    case SubjectAltName(names) => EncodeAltName(names, e);
    case CrlDistributionPoints(points) => EncodePoints(points, e);
    case CertificatePolicies(policies) => EncodePolicies(policies, e);
    case ExtKeyUsage(ids) => EncodeExtKeyUsage(ids, e);
    case AuthorityInfoAccess(access) => EncodeIdAndTexts(access, e);
    case SubjectDirectoryAttributes(attrs) => EncodeDirectory(attrs, e);
    case IssuerAltName(names) => EncodeAltName(names, e);
    case NameConstraintsValue(c) => EncodeNameConstraints(c, e);
    case PolicyMappings(mappings) => EncodeMappings(mappings, e);
    case PolicyConstraintsValue(c) => EncodePolicyConstraints(c, e);
    case FreshestCrl(points) => EncodePoints(points, e);
    case InhibitAnyPolicy(n) => e.Int(n);
    case SubjectInfoAccess(access) => EncodeIdAndTexts(access, e);
    case OcspNoCheck => e.Null();
    case TlsFeatures(features) => EncodeTlsFeatures(features, e);
    case Raw(b) => e.WriteAll(b);
    case _ => ok := EncodeFallibleValue(v, e);
  }

  method DecodeCriticalMagnitude(d: Decoder) returns (r: Option<(u32, bool)>)
    requires d.Valid()
    modifies d
    ensures d.Valid() && Reads(DecCritical(old(d.Rest())), r, d.Rest())
    ensures r.Some? ==> r.value.0 <= TWO_31
  {
    var raw :- d.I32();
    return Some((if raw < 0 then -(raw as int) else raw as int, raw < 0));
  }

  method EncodeCriticalI32(value: i32, critical: bool, e: Encoder) returns (ok: Outcome)
    modifies e
    ensures Writes(EncCritical(value, critical), ok, old(e.buf), e.buf)
  {
    var signed: int := value;
    if critical {
      if value == -TWO_31 {
        return Failed;
      }
      signed := -(value as int);
    }
    e.Int(signed);
    return Pass;
  }

  method DecodeOidExtension(d: Decoder) returns (r: Option<Extension>)
    requires d.Valid()
    modifies d
    ensures d.Valid() && Reads(DecOidExtension(old(d.Rest())), r, d.Rest())
  {
    var oid :- DecodeOid(d);
    var ty :- d.DataType();
    var critical := IsArray(ty);
    if critical {
      var n := ExpectArrayLen(d, 1);
      if n.Failed? {
        return None;
      }
    }
    var raw :- d.Bytes();
    return Some(Extension(Unregistered(oid), critical, Raw(raw)));
  }

  method DecodeExtension(d: Decoder) returns (r: Option<Extension>)
    requires d.Valid()
    modifies d
    ensures d.Valid() && Reads(DecExtension(old(d.Rest())), r, d.Rest())
  {
    var ty :- d.DataType();
    if ty.ByteString? {
      r := DecodeOidExtension(d);
    } else {
      var p :- DecodeCriticalMagnitude(d);
      var value :- DecodeValue(p.0, d);
      return Some(Extension(Registry(WrappedId(p.0)), p.1, value));
    }
  }

  method EncodeExtension(x: Extension, e: Encoder) returns (ok: Outcome)
    modifies e
    ensures Writes(EncExtension(x), ok, old(e.buf), e.buf)
  {
    ghost var before := e.buf;
    match x.id
    case Registry(n) =>
      :- EncodeCriticalI32(n, x.critical, e);
      :- EncodeValue(x.value, e);
      Assoc(before, EncCritical(n, x.critical).value, EncValue(x.value).value);
      return Pass;
    case Unregistered(oid) =>
      e.Bytes(oid);
      if !x.value.Raw? {
        return Failed;
      }
      if x.critical {
        e.Array(1);
        e.Bytes(x.value.raw);
        Assoc(before + EncBytes(oid), EncArrayHead(1), EncBytes(x.value.raw));
        Assoc(before, EncBytes(oid), EncArrayHead(1) + EncBytes(x.value.raw));
      } else {
        e.Bytes(x.value.raw);
        Assoc(before, EncBytes(oid), EncBytes(x.value.raw));
      }
      return Pass;
  }

  method DecodeExtensionRun(n: nat, d: Decoder) returns (r: Option<seq<Extension>>)
    requires d.Valid()
    modifies d
    ensures d.Valid() && Reads(DecMany(n, DecExtension, old(d.Rest())), r, d.Rest())
  {
    hide DecExtension;
    ghost var start := d.Rest();
    var out: seq<Extension> := [];
    NothingDone(DecMany(n, DecExtension, start));
    for left := n downto 0
      invariant d.Valid()
      invariant DecMany(n, DecExtension, start) == After(out, DecMany(left, DecExtension, d.Rest()))
    {
      ghost var here := d.Rest();
      var x := DecodeExtension(d);
      ReadStep(n, left, DecExtension, start, out, here, x, d.Rest());
      if x.None? {
        return None;
      }
      out := out + [x.value];
    }
    NothingLeft(out, DecExtension, d.Rest());
    return Some(out);
  }

  method DecodeExtensions(d: Decoder) returns (r: Option<ExtensionList>)
    requires d.Valid()
    modifies d
    ensures d.Valid() && Reads(DecExtensions(old(d.Rest())), r, d.Rest())
  {
    var ty :- d.DataType();
    if IsArray(ty) {
      var len :- DefiniteArrayLen(d);
      if len % 2 != 0 {
        return None;
      }
      var out :- DecodeExtensionRun(len / 2, d);
      return Some(out);
    }
    var p :- DecodeCriticalMagnitude(d);
    return Some(SoleKeyUsage(p.0, p.1));
  }

  method EncodeExtensions(list: ExtensionList, e: Encoder) returns (ok: Outcome)
    modifies e
    ensures Writes(EncExtensions(list), ok, old(e.buf), e.buf)
  {
    if IsSoleKeyUsage(list) {
      var bits := list[0].value.bits;
      if bits >= TWO_31 {
        return Failed;
      }
      ok := EncodeCriticalI32(bits, list[0].critical, e);
      return;
    }
    ghost var before := e.buf;
    e.Array(2 * |list|);
    ghost var head, written := e.buf, [];
    assert list[0..] == list;
    NothingWritten(TryConcatMap(list, EncExtension));
    for i := 0 to |list|
      invariant e.buf == head + written
      invariant TryConcatMap(list, EncExtension) == Prepended(written, TryConcatMap(list[i..], EncExtension))
    {
      TryWriteOne(list, i, EncExtension, written);
      :- EncodeExtension(list[i], e);
      Assoc(head, written, EncExtension(list[i]).value);
      written := written + EncExtension(list[i]).value;
    }
    NothingBefore(written);
    Assoc(before, EncArrayHead(2 * |list|), written);
    return Pass;
  }
}
