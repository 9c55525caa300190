/** Certificates, wrapped in an array or as a bare CBOR Sequence (src/certificate.rs): the grammar. */
module Certificates {
  import opened Wrappers
  import opened ByteStrings
  import opened RustTypes
  import opened Cbor
  import opened Common
  import opened Names
  import opened Algorithms
  import opened Extensions

  const FIELD_COUNT := 11

  datatype TbsCertificate = TbsCertificate(
    certificateType: i32,
    serialNumber: BigUint,
    signatureAlgorithm: AlgorithmIdentifier,
    issuer: Option<Name>,
    notBefore: OffsetDateTime,
    notAfter: Option<OffsetDateTime>,
    subject: Name,
    publicKeyAlgorithm: AlgorithmIdentifier,
    publicKey: Blob,
    extensions: ExtensionList)

  datatype C509Certificate = C509Certificate(tbs: TbsCertificate, signature: Blob)

  function EncNotAfter(t: Option<OffsetDateTime>): Option<Bytes> {
    if t.Some? then EncTime(t.value) else Some([NULL])
  }

  function DecNotAfter(s: Bytes): Parsed<Option<OffsetDateTime>> {
    if TypeOf(s).Null? then Ok(None, s[1..]) else
    var (t, r) :- DecTime(s);
    Ok(Some(t), r)
  }

  /** The fields up to the validity period. */
  function EncFirstFields(t: TbsCertificate): Option<Bytes> {
    var notBefore :- EncTime(t.notBefore);
    var notAfter :- EncNotAfter(t.notAfter);
    Some(EncInt(t.certificateType)
         + (EncBigUint(t.serialNumber)
            + (EncAlgorithm(t.signatureAlgorithm)
               + (EncOptionalName(t.issuer)
                  + (notBefore + notAfter)))))
  }

  /** The fields from the subject on. */
  function EncLastFields(c: C509Certificate): Option<Bytes> {
    var extensions :- EncExtensions(c.tbs.extensions);
    Some(EncName(c.tbs.subject)
         + (EncAlgorithm(c.tbs.publicKeyAlgorithm)
            + (EncBytes(c.tbs.publicKey)
               + (extensions
                  + EncBytes(c.signature)))))
  }

  /** The bare CBOR Sequence of eleven items. */
  function EncSequence(c: C509Certificate): Option<Bytes> {
    var first :- EncFirstFields(c.tbs);
    var last :- EncLastFields(c);
    Some(first + last)
  }

  /** The array-wrapped form. */
  function EncCertificate(c: C509Certificate): Option<Bytes> {
    var fields :- EncSequence(c);
    Some(EncArrayHead(FIELD_COUNT) + fields)
  }

  function DecSequence(s: Bytes): Parsed<C509Certificate> {
    var (certificateType, s1) :- DecI32(s);
    var (serialNumber, s2) :- DecBigUint(s1);
    var (signatureAlgorithm, s3) :- DecAlgorithm(s2);
    var (issuer, s4) :- DecOptionalName(s3);
    var (notBefore, s5) :- DecTime(s4);
    var (notAfter, s6) :- DecNotAfter(s5);
    var (subject, s7) :- DecName(s6);
    var (publicKeyAlgorithm, s8) :- DecAlgorithm(s7);
    var (publicKey, s9) :- DecBytes(s8);
    var (extensions, s10) :- DecExtensions(s9);
    var (signature, s11) :- DecBytes(s10);
    Ok(C509Certificate(
         TbsCertificate(
           certificateType, serialNumber, signatureAlgorithm, issuer, notBefore, notAfter,
           subject, publicKeyAlgorithm, publicKey, extensions),
         signature),
       s11)
  }

  function DecCertificate(s: Bytes): Parsed<C509Certificate> {
    var (n, r) :- DecArrayHead(s);
    if n != FIELD_COUNT then Fail else
    DecSequence(r)
  }

  /** Either form, told apart by the first byte (src/main.rs). */
  function DecEither(s: Bytes): Parsed<C509Certificate> {
    if IsArray(TypeOf(s)) then DecCertificate(s) else DecSequence(s)
  }

  // ---- Values ----------------------------------------------------------------------

  predicate CertificateTyped(c: C509Certificate) {
    && OptionalNameTyped(c.tbs.issuer)
    && NameTyped(c.tbs.subject)
    && ExtensionsTyped(c.tbs.extensions)
  }

  predicate CertificateEncodable(c: C509Certificate) {
    && c.tbs.notBefore >= 0
    && (c.tbs.notAfter.Some? ==> c.tbs.notAfter.value >= 0)
    && ExtensionsEncodable(c.tbs.extensions)
  }

  /** What is left of a certificate after one trip. */
  function Surviving(c: C509Certificate): C509Certificate {
    c.(tbs := c.tbs.(extensions := ExtensionsSurviving(c.tbs.extensions)))
  }
}
