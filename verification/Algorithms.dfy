/** Algorithm identifiers: an integer, an OID, or an OID with parameters (src/algorithm.rs). */
module Algorithms {
  import opened Wrappers
  import opened ByteStrings
  import opened RustTypes
  import opened Cbor
  import opened Minicbor
  import opened Common

  datatype AlgorithmIdentifier = AlgorithmInt(n: i32) | AlgorithmOid(algorithm: Oid, parameters: Option<Blob>)

  function EncAlgorithm(a: AlgorithmIdentifier): Bytes {
    match a
    case AlgorithmInt(n) => EncInt(n)
    case AlgorithmOid(oid, None) => EncBytes(oid)
    case AlgorithmOid(oid, Some(params)) => EncArrayHead(2) + (EncBytes(oid) + EncBytes(params))
  }

  function DecAlgorithm(s: Bytes): Parsed<AlgorithmIdentifier> {
    match TypeOf(s)
    case Array | ArrayIndef =>
      var (len, r) :- DecArrayHead(s);
      if len != 2 then Fail else
      var (oid, r1) :- DecOid(r);
      var (params, r2) :- DecBytes(r1);
      Ok(AlgorithmOid(oid, Some(params)), r2)
    case ByteString =>
      var (oid, r) :- DecOid(s);
      Ok(AlgorithmOid(oid, None), r)
    case _ =>
      var (n, r) :- DecI32(s);
      Ok(AlgorithmInt(n), r)
  }

  lemma AlgorithmRoundTrip(a: AlgorithmIdentifier, rest: Bytes)
    ensures DecAlgorithm(EncAlgorithm(a) + rest) == Ok(a, rest)
  {
    match a
    case AlgorithmInt(n) => IntRoundTrip(n, rest);
    case AlgorithmOid(oid, None) => OidRoundTrip(oid, rest);
    case AlgorithmOid(oid, Some(params)) =>
      Assoc(EncArrayHead(2), EncBytes(oid) + EncBytes(params), rest);
      Assoc(EncBytes(oid), EncBytes(params), rest);
      ArrayHeadRoundTrip(2, EncBytes(oid) + (EncBytes(params) + rest));
      OidRoundTrip(oid, EncBytes(params) + rest);
      BytesRoundTrip(params, rest);
  }

  lemma AlgorithmIsItem(s: Bytes)
    requires DecAlgorithm(s).Ok?
    ensures SkipItems(1, s) == Some(DecAlgorithm(s).rest)
  {
    if IsArray(TypeOf(s)) {
      var r := DecArrayHead(s).rest;
      ArrayIsItem(s);
      StringIsItem(BYTE_STRING, r);
      StringIsItem(BYTE_STRING, DecOid(r).rest);
      ItemsThenItems(1, 1, r);
    } else if TypeOf(s).ByteString? {
      StringIsItem(BYTE_STRING, s);
    } else {
      IntIsItem(s);
    }
  }

  method DecodeAlgorithm(d: Decoder) returns (r: Option<AlgorithmIdentifier>)
    requires d.Valid()
    modifies d
    ensures d.Valid() && Reads(DecAlgorithm(old(d.Rest())), r, d.Rest())
  {
    var ty :- d.DataType();
    if IsArray(ty) {
      var len :- DefiniteArrayLen(d);
      if len != 2 {
        return None;
      }
      var algorithm :- DecodeOid(d);
      var parameters :- d.Bytes();
      return Some(AlgorithmOid(algorithm, Some(parameters)));
    } else if ty.ByteString? {
      var algorithm :- DecodeOid(d);
      return Some(AlgorithmOid(algorithm, None));
    } else {
      var n :- d.I32();
      return Some(AlgorithmInt(n));
    }
  }

  method EncodeAlgorithm(a: AlgorithmIdentifier, e: Encoder)
    modifies e
    ensures e.buf == old(e.buf) + EncAlgorithm(a)
  {
    match a
    case AlgorithmInt(n) => e.Int(n);
    case AlgorithmOid(oid, None) => e.Bytes(oid);
    case AlgorithmOid(oid, Some(params)) =>
      e.Array(2);
      e.Bytes(oid);
      e.Bytes(params);
  }
}
