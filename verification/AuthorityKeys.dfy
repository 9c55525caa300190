/** AuthorityKeyIdentifier: bare key identifier, or a triple (src/extensions/authority_key_identifier.rs). */
module AuthorityKeys {
  import opened Wrappers
  import opened ByteStrings
  import opened RustTypes
  import opened Cbor
  import opened Minicbor
  import opened Common
  import opened GeneralNames

  datatype AuthorityKeyIdentifier = AuthorityKey(
    keyIdentifier: Blob, certIssuer: Option<GeneralNameList>, certSerial: Option<BigUint>)

  /** Issuer and serial number are written together or not at all. */
  function EncAuthorityKey(a: AuthorityKeyIdentifier): Option<Bytes> {
    match (a.certIssuer, a.certSerial)
    case (None, None) => Some(EncBytes(a.keyIdentifier))
    case (Some(issuer), Some(serial)) =>
      Some(EncArrayHead(3) + (EncBytes(a.keyIdentifier) + (EncGeneralNames(issuer) + EncBigUint(serial))))
    case _ => None
  }

  function DecAuthorityKey(s: Bytes): Parsed<AuthorityKeyIdentifier> {
    if TypeOf(s).ByteString? then
      var (key, r) :- DecBytes(s);
      Ok(AuthorityKey(key, None, None), r)
    else
      var (len, r) :- DecArrayHead(s);
      if len != 3 then Fail else
      var (key, r1) :- DecBytes(r);
      var (issuer, r2) :- DecGeneralNames(r1);
      var (serial, r3) :- DecBigUint(r2);
      Ok(AuthorityKey(key, Some(issuer), Some(serial)), r3)
  }

  predicate BothOrNeither(a: AuthorityKeyIdentifier) {
    a.certIssuer.Some? <==> a.certSerial.Some?
  }

  predicate IssuerTyped(a: AuthorityKeyIdentifier) {
    a.certIssuer.Some? ==> GeneralNamesTyped(a.certIssuer.value)
  }

  lemma AuthorityKeyRoundTrip(a: AuthorityKeyIdentifier, rest: Bytes)
    requires IssuerTyped(a)
    ensures EncAuthorityKey(a).Some? <==> BothOrNeither(a)
    ensures BothOrNeither(a) ==> DecAuthorityKey(EncAuthorityKey(a).value + rest) == Ok(a, rest)
  {
    if a.certIssuer.None? && a.certSerial.None? {
      BytesRoundTrip(a.keyIdentifier, rest);
    } else if BothOrNeither(a) {
      var key, issuer, serial := EncBytes(a.keyIdentifier), EncGeneralNames(a.certIssuer.value), EncBigUint(a.certSerial.value);
      Assoc(EncArrayHead(3), key + (issuer + serial), rest);
      Assoc(key, issuer + serial, rest);
      Assoc(issuer, serial, rest);
      ArrayHeadRoundTrip(3, key + (issuer + (serial + rest)));
      BytesRoundTrip(a.keyIdentifier, issuer + (serial + rest));
      GeneralNamesRoundTrip(a.certIssuer.value, serial + rest);
      BigUintRoundTrip(a.certSerial.value, rest);
    }
  }

  lemma AuthorityKeyIsItem(s: Bytes)
    requires DecAuthorityKey(s).Ok?
    ensures SkipItems(1, s) == Some(DecAuthorityKey(s).rest)
    ensures BothOrNeither(DecAuthorityKey(s).value) && IssuerTyped(DecAuthorityKey(s).value)
  {
    if TypeOf(s).ByteString? {
      StringIsItem(BYTE_STRING, s);
    } else {
      var r := DecArrayHead(s).rest;
      var r1 := DecBytes(r).rest;
      ArrayIsItem(s);
      StringIsItem(BYTE_STRING, r);
      GeneralNamesAreItem(r1);
      StringIsItem(BYTE_STRING, DecGeneralNames(r1).rest);
      ItemsThenItems(1, 1, r1);
      ItemsThenItems(1, 2, r);
    }
  }

  method DecodeAuthorityKey(d: Decoder) returns (r: Option<AuthorityKeyIdentifier>)
    requires d.Valid()
    modifies d
    ensures d.Valid() && Reads(DecAuthorityKey(old(d.Rest())), r, d.Rest())
  {
    var ty :- d.DataType();
    if ty.ByteString? {
      var key :- d.Bytes();
      return Some(AuthorityKey(key, None, None));
    }
    var n := ExpectArrayLen(d, 3);
    if n.Failed? {
      return None;
    }
    var key :- d.Bytes();
    var issuer :- DecodeGeneralNames(d);
    var serial :- ReadBigUint(d);
    return Some(AuthorityKey(key, Some(issuer), Some(serial)));
  }

  method EncodeAuthorityKey(a: AuthorityKeyIdentifier, e: Encoder) returns (ok: Outcome)
    modifies e
    ensures Writes(EncAuthorityKey(a), ok, old(e.buf), e.buf)
  {
    match (a.certIssuer, a.certSerial)
    case (None, None) =>
      e.Bytes(a.keyIdentifier);
      return Pass;
    case (Some(issuer), Some(serial)) =>
      ghost var before := e.buf;
      e.Array(3);
      ghost var head := e.buf;
      e.Bytes(a.keyIdentifier);
      EncodeGeneralNames(issuer, e);
      e.Bytes(MinimalBytes(serial));
      ghost var x, y, z := EncBytes(a.keyIdentifier), EncGeneralNames(issuer), EncBigUint(serial);
      Assoc(head + x, y, z);
      Assoc(head, x, y + z);
      Assoc(before, EncArrayHead(3), x + (y + z));
      return Pass;
    case _ =>
      return Failed;
  }
}
