/** Which numbers, dates, identifiers, algorithms and names are written again byte for byte. */
module FieldReproduction {
  import opened ByteStrings
  import opened RustTypes
  import opened Cbor
  import opened Canonical
  import opened Common
  import opened Names
  import opened Algorithms
  import opened Certificates

  // ---- Fields ----------------------------------------------------------------------------

  /** A serial number has at least one byte and no leading zero beside it. */
  predicate CanonicalSerial(s: Bytes) {
    && ShortestHead(s)
    && DecBytes(s).Ok?
    && var b := DecBytes(s).value; b != [] && (|b| == 1 || b[0] != 0)
  }

  lemma SerialReproduced(s: Bytes)
    requires DecBigUint(s).Ok?
    ensures EncBigUint(DecBigUint(s).value) + DecBigUint(s).rest == s <==> CanonicalSerial(s)
  {
    var p, b := DecBigUint(s), DecBytes(s).value;
    if EncBigUint(p.value) + p.rest == s {
      BytesRoundTrip(MinimalBytes(p.value), p.rest);
    }
    if b != [] && (|b| == 1 || b[0] != 0) {
      MinimalBytesOfBigEndian(b);
    }
    StringReproduced(BYTE_STRING, s);
  }

  lemma TimeReproduced(s: Bytes)
    requires DecTime(s).Ok?
    ensures EncTime(DecTime(s).value).Some?
    ensures EncTime(DecTime(s).value).value + DecTime(s).rest == s <==> ShortestHead(s)
  {
    HeadReproduced(UNSIGNED, s);
  }

  predicate CanonicalNotAfter(s: Bytes) {
    TypeOf(s).Null? || ShortestHead(s)
  }

  lemma NotAfterReproduced(s: Bytes)
    requires DecNotAfter(s).Ok?
    ensures EncNotAfter(DecNotAfter(s).value).Some?
    ensures EncNotAfter(DecNotAfter(s).value).value + DecNotAfter(s).rest == s <==> CanonicalNotAfter(s)
  {
    if TypeOf(s).Null? {
      assert [NULL] + s[1..] == s;
    } else {
      TimeReproduced(s);
    }
  }

  predicate CanonicalAlgorithm(s: Bytes) {
    && ShortestHead(s)
    && (IsArray(TypeOf(s)) ==>
          var r := Tail(DecArrayHead(s)); ShortestHead(r) && ShortestHead(Tail(DecOid(r))))
  }

  lemma AlgorithmReproduced(s: Bytes)
    requires DecAlgorithm(s).Ok?
    ensures EncAlgorithm(DecAlgorithm(s).value) + DecAlgorithm(s).rest == s <==> CanonicalAlgorithm(s)
  {
    if IsArray(TypeOf(s)) {
      AlgorithmArrayReproduced(s);
    } else if TypeOf(s).ByteString? {
      StringReproduced(BYTE_STRING, s);
    } else {
      IntReproduced(s);
    }
  }

  lemma AlgorithmArrayReproduced(s: Bytes)
    requires DecAlgorithm(s).Ok? && IsArray(TypeOf(s))
    ensures EncAlgorithm(DecAlgorithm(s).value) + DecAlgorithm(s).rest == s <==> CanonicalAlgorithm(s)
  {
    hide DecArrayHead, EncArrayHead, DecBytes, EncBytes, ShortestHead, TypeOf;
    var r := DecArrayHead(s).rest;
    var oid, params := DecOid(r), DecBytes(DecOid(r).rest);
    PairReproduced(s, r, oid.value, oid.rest, params.value, params.rest);
  }

  predicate CanonicalOptUint(s: Bytes) {
    TypeOf(s).Null? || ShortestHead(s)
  }

  lemma OptUintReproduced(s: Bytes)
    requires DecOptUint(s).Ok?
    ensures EncOptUint(DecOptUint(s).value) + DecOptUint(s).rest == s <==> CanonicalOptUint(s)
  {
    if TypeOf(s).Null? {
      assert [NULL] + s[1..] == s;
    } else {
      HeadReproduced(UNSIGNED, s);
    }
  }

  lemma IntOrOidReproduced(s: Bytes)
    requires DecIntOrOid(s).Ok?
    ensures EncIntOrOid(DecIntOrOid(s).value) + DecIntOrOid(s).rest == s <==> ShortestHead(s)
  {
    if TypeOf(s).ByteString? {
      BytesReproduced(s);
    } else {
      IntReproduced(s);
    }
  }

  // ---- Names -----------------------------------------------------------------------------

  predicate CanonicalSpecialText(s: Bytes) {
    ShortestHead(s) && (TypeOf(s).Tag? ==> ShortestHead(Tail(DecTag(s))))
  }

  lemma SpecialTextReproduced(s: Bytes)
    requires DecSpecialText(s).Ok?
    ensures EncSpecialText(DecSpecialText(s).value) + DecSpecialText(s).rest == s <==> CanonicalSpecialText(s)
  {
    match TypeOf(s)
    case TextString => StringReproduced(TEXT_STRING, s);
    case ByteString => StringReproduced(BYTE_STRING, s);
    case Tag =>
      var r := DecTag(s).rest;
      var m := DecMac(r);
      HeadReproduced(TAG, s);
      StringReproduced(BYTE_STRING, r);
      Assoc(EncTag(MAC_ADDRESS_TAG), EncBytes(m.value), m.rest);
      TagRoundTrip(MAC_ADDRESS_TAG, EncBytes(m.value) + m.rest);
      Joined(EncTag(MAC_ADDRESS_TAG), EncBytes(m.value) + m.rest, s, r);
  }

  predicate CanonicalAttribute(s: Bytes) {
    && ShortestHead(s)
    && (if TypeOf(s).ByteString? then ShortestHead(Tail(DecOid(s))) else CanonicalSpecialText(Tail(DecAttributeType(s))))
  }

  lemma TypedTextReproduced(s: Bytes, n: i32, r: Bytes, v: SpecialText, rest: Bytes)
    requires DecInt(s) == Ok(n, r) && DecSpecialText(r) == Ok(v, rest)
    ensures (EncInt(n) + EncSpecialText(v)) + rest == s <==> ShortestHead(s) && CanonicalSpecialText(r)
  {
    hide DecInt, EncInt, DecSpecialText, EncSpecialText, ShortestHead, CanonicalSpecialText;
    IntReproduced(s);
    SpecialTextReproduced(r);
    Assoc(EncInt(n), EncSpecialText(v), rest);
    IntRoundTrip(n, EncSpecialText(v) + rest);
    Joined(EncInt(n), EncSpecialText(v) + rest, s, r);
  }

  lemma AttributeReproduced(s: Bytes)
    requires DecAttribute(s).Ok?
    ensures EncAttribute(DecAttribute(s).value) + DecAttribute(s).rest == s <==> CanonicalAttribute(s)
  {
    hide DecBytes, EncBytes, DecInt, EncInt, DecSpecialText, EncSpecialText, ShortestHead, CanonicalSpecialText;
    var p := DecAttribute(s);
    match p.value
    case ByOid(oid, b) => TwoStringsReproduced(s, oid, DecOid(s).rest, b, p.rest);
    case Registered(id, printable, v) =>
      TypedTextReproduced(s, SignedId(id, printable), DecAttributeType(s).rest, v, p.rest);
  }

  lemma AttributesReproduce()
    ensures ReproducesPlain(EncAttribute, DecAttribute, CanonicalAttribute)
  {
    hide CanonicalAttribute;
    forall s: Bytes | DecAttribute(s).Ok?
      ensures CanonicalAttribute(s) <==> EncAttribute(DecAttribute(s).value) + DecAttribute(s).rest == s
      ensures ReadAgain(DecAttribute, EncAttribute(DecAttribute(s).value))
    {
      AttributeReproduced(s);
      AttributeIsItems(s);
      AttributeReadsBack(DecAttribute(s).value);
    }
  }

  /** A lone commonName is bare; anything else is an array with a shortest head, of canonical attributes. */
  predicate CanonicalName(s: Bytes) {
    if IsArray(TypeOf(s)) then
      && ShortestHead(s)
      && DecName(s).Ok? && !IsCommonName(DecName(s).value)
      && Each(|DecName(s).value.attrs|, DecAttribute, CanonicalAttribute, Tail(DecArrayHead(s)))
    else CanonicalSpecialText(s)
  }

  lemma NameReproduced(s: Bytes)
    requires DecName(s).Ok?
    ensures EncName(DecName(s).value) + DecName(s).rest == s <==> CanonicalName(s)
  {
    hide DecAttribute, EncAttribute, ShortestHead, CanonicalAttribute;
    var n, rest := DecName(s).value, DecName(s).rest;
    if IsArray(TypeOf(s)) {
      AttributesReproduce();
      PlainArrayReproduced(2, EncAttribute, DecAttribute, CanonicalAttribute, s);
      if IsCommonName(n) {
        SpecialTextRoundTrip(n.attrs[0].value, rest);
      }
    } else {
      SpecialTextReproduced(s);
    }
  }

  predicate CanonicalOptionalName(s: Bytes) {
    TypeOf(s).Null? || CanonicalName(s)
  }

  lemma OptionalNameReproduced(s: Bytes)
    requires DecOptionalName(s).Ok?
    ensures EncOptionalName(DecOptionalName(s).value) + DecOptionalName(s).rest == s <==> CanonicalOptionalName(s)
  {
    if TypeOf(s).Null? {
      assert [NULL] + s[1..] == s;
    } else {
      NameReproduced(s);
    }
  }
}
