/**
  The extension values built from pairs of identifiers and texts: access descriptions, policies,
  policy mappings, and the two-element arrays of optional values
  (src/extensions/access_description.rs, src/extensions/policy, src/extensions/name_constraints.rs).
  */
module PairLists {
  import opened Wrappers
  import opened ByteStrings
  import opened RustTypes
  import opened Cbor
  import opened Lists
  import opened Minicbor
  import opened Common
  import opened GeneralNames

  /** An access description (method and URI) or a policy qualifier (id and text). */
  datatype IdAndText = IdAndText(id: IntOrOid, text: Text)

  datatype PolicyMapping = PolicyMapping(issuerDomain: IntOrOid, subjectDomain: IntOrOid)

  datatype Policy = Policy(id: IntOrOid, qualifiers: PairVec<IdAndText>)

  datatype PolicyConstraints = PolicyConstraints(requireExplicitPolicy: Option<u32>, inhibitPolicyMapping: Option<u32>)

  datatype NameConstraints = NameConstraints(permitted: Option<GeneralNameList>, excluded: Option<GeneralNameList>)

  // ---- Grammar -------------------------------------------------------------------

  function EncIdAndText(x: IdAndText): Bytes {
    EncIntOrOid(x.id) + EncText(x.text)
  }

  function DecIdAndText(s: Bytes): Parsed<IdAndText> {
    var (id, r) :- DecIntOrOid(s);
    var (t, q) :- DecText(r);
    Ok(IdAndText(id, t), q)
  }

  function EncIdAndTexts(v: PairVec<IdAndText>): Bytes {
    EncArrayOf(2, EncIdAndText, v)
  }

  function DecIdAndTexts(s: Bytes): Parsed<PairVec<IdAndText>> {
    DecArrayOf(2, DecIdAndText, s)
  }

  function EncPolicy(p: Policy): Bytes {
    EncIntOrOid(p.id) + EncIdAndTexts(p.qualifiers)
  }

  function DecPolicy(s: Bytes): Parsed<Policy> {
    var (id, r) :- DecIntOrOid(s);
    var (v, q) :- DecIdAndTexts(r);
    Ok(Policy(id, v), q)
  }

  function EncPolicies(v: PairVec<Policy>): Bytes {
    EncArrayOf(2, EncPolicy, v)
  }

  function DecPolicies(s: Bytes): Parsed<PairVec<Policy>> {
    DecArrayOf(2, DecPolicy, s)
  }

  function EncMapping(m: PolicyMapping): Bytes {
    EncIntOrOid(m.issuerDomain) + EncIntOrOid(m.subjectDomain)
  }

  function DecMapping(s: Bytes): Parsed<PolicyMapping> {
    var (a, r) :- DecIntOrOid(s);
    var (b, q) :- DecIntOrOid(r);
    Ok(PolicyMapping(a, b), q)
  }

  function EncMappings(v: PairVec<PolicyMapping>): Bytes {
    EncArrayOf(2, EncMapping, v)
  }

  function DecMappings(s: Bytes): Parsed<PairVec<PolicyMapping>> {
    DecArrayOf(2, DecMapping, s)
  }

  function EncPolicyConstraints(c: PolicyConstraints): Bytes {
    EncArrayHead(2) + (EncOptUint(c.requireExplicitPolicy) + EncOptUint(c.inhibitPolicyMapping))
  }

  function DecPolicyConstraints(s: Bytes): Parsed<PolicyConstraints> {
    var (len, r) :- DecArrayHead(s);
    if len != 2 then Fail else
    var (a, r1) :- DecOptUint(r);
    var (b, r2) :- DecOptUint(r1);
    Ok(PolicyConstraints(a, b), r2)
  }

  function EncSubtree(v: Option<GeneralNameList>): Bytes {
    if v.Some? then EncGeneralNames(v.value) else [NULL]
  }

  function DecSubtree(s: Bytes): Parsed<Option<GeneralNameList>> {
    if TypeOf(s).Null? then Ok(None, s[1..]) else
    var (v, r) :- DecGeneralNames(s);
    Ok(Some(v), r)
  }

  function EncNameConstraints(c: NameConstraints): Bytes {
    EncArrayHead(2) + (EncSubtree(c.permitted) + EncSubtree(c.excluded))
  }

  function DecNameConstraints(s: Bytes): Parsed<NameConstraints> {
    var (len, r) :- DecArrayHead(s);
    if len != 2 then Fail else
    var (a, r1) :- DecSubtree(r);
    var (b, r2) :- DecSubtree(r1);
    Ok(NameConstraints(a, b), r2)
  }

  predicate SubtreeTyped(v: Option<GeneralNameList>) {
    v.Some? ==> GeneralNamesTyped(v.value)
  }

  predicate NameConstraintsTyped(c: NameConstraints) {
    SubtreeTyped(c.permitted) && SubtreeTyped(c.excluded)
  }

  // ---- Both ways -------------------------------------------------------------------

  lemma IdAndTextsRoundTrip(v: PairVec<IdAndText>, rest: Bytes)
    ensures DecIdAndTexts(EncIdAndTexts(v) + rest) == Ok(v, rest)
  {
    forall i | 0 <= i < |v|
      ensures ReadsBack(DecIdAndText, EncIdAndText(v[i]), v[i])
    {
      forall t: Bytes
        ensures DecIdAndText(EncIdAndText(v[i]) + t) == Ok(v[i], t)
      {
        Assoc(EncIntOrOid(v[i].id), EncText(v[i].text), t);
        IntOrOidRoundTrip(v[i].id, EncText(v[i].text) + t);
        TextRoundTrip(v[i].text, t);
      }
    }
    ArrayOfRoundTrip(2, EncIdAndText, DecIdAndText, v, rest);
  }

  lemma IdAndTextsAreItem(s: Bytes)
    requires DecIdAndTexts(s).Ok?
    ensures SkipItems(1, s) == Some(DecIdAndTexts(s).rest)
  {
    forall t: Bytes | DecIdAndText(t).Ok?
      ensures SkipItems(2, t) == Some(DecIdAndText(t).rest)
    {
      IntOrOidIsItem(t);
      StringIsItem(TEXT_STRING, DecIntOrOid(t).rest);
      ItemsThenItems(1, 1, t);
    }
    ArrayOfIsItem(2, DecIdAndText, s);
  }

  lemma PoliciesRoundTrip(v: PairVec<Policy>, rest: Bytes)
    ensures DecPolicies(EncPolicies(v) + rest) == Ok(v, rest)
  {
    forall i | 0 <= i < |v|
      ensures ReadsBack(DecPolicy, EncPolicy(v[i]), v[i])
    {
      forall t: Bytes
        ensures DecPolicy(EncPolicy(v[i]) + t) == Ok(v[i], t)
      {
        Assoc(EncIntOrOid(v[i].id), EncIdAndTexts(v[i].qualifiers), t);
        IntOrOidRoundTrip(v[i].id, EncIdAndTexts(v[i].qualifiers) + t);
        IdAndTextsRoundTrip(v[i].qualifiers, t);
      }
    }
    ArrayOfRoundTrip(2, EncPolicy, DecPolicy, v, rest);
  }

  lemma PoliciesAreItem(s: Bytes)
    requires DecPolicies(s).Ok?
    ensures SkipItems(1, s) == Some(DecPolicies(s).rest)
  {
    forall t: Bytes | DecPolicy(t).Ok?
      ensures SkipItems(2, t) == Some(DecPolicy(t).rest)
    {
      IntOrOidIsItem(t);
      IdAndTextsAreItem(DecIntOrOid(t).rest);
      ItemsThenItems(1, 1, t);
    }
    ArrayOfIsItem(2, DecPolicy, s);
  }

  lemma MappingsRoundTrip(v: PairVec<PolicyMapping>, rest: Bytes)
    ensures DecMappings(EncMappings(v) + rest) == Ok(v, rest)
  {
    forall i | 0 <= i < |v|
      ensures ReadsBack(DecMapping, EncMapping(v[i]), v[i])
    {
      forall t: Bytes
        ensures DecMapping(EncMapping(v[i]) + t) == Ok(v[i], t)
      {
        Assoc(EncIntOrOid(v[i].issuerDomain), EncIntOrOid(v[i].subjectDomain), t);
        IntOrOidRoundTrip(v[i].issuerDomain, EncIntOrOid(v[i].subjectDomain) + t);
        IntOrOidRoundTrip(v[i].subjectDomain, t);
      }
    }
    ArrayOfRoundTrip(2, EncMapping, DecMapping, v, rest);
  }

  lemma MappingsAreItem(s: Bytes)
    requires DecMappings(s).Ok?
    ensures SkipItems(1, s) == Some(DecMappings(s).rest)
  {
    forall t: Bytes | DecMapping(t).Ok?
      ensures SkipItems(2, t) == Some(DecMapping(t).rest)
    {
      IntOrOidIsItem(t);
      IntOrOidIsItem(DecIntOrOid(t).rest);
      ItemsThenItems(1, 1, t);
    }
    ArrayOfIsItem(2, DecMapping, s);
  }

  lemma PolicyConstraintsRoundTrip(c: PolicyConstraints, rest: Bytes)
    ensures DecPolicyConstraints(EncPolicyConstraints(c) + rest) == Ok(c, rest)
  {
    var a, b := EncOptUint(c.requireExplicitPolicy), EncOptUint(c.inhibitPolicyMapping);
    Assoc(EncArrayHead(2), a + b, rest);
    Assoc(a, b, rest);
    ArrayHeadRoundTrip(2, a + (b + rest));
    OptUintRoundTrip(c.requireExplicitPolicy, b + rest);
    OptUintRoundTrip(c.inhibitPolicyMapping, rest);
  }

  lemma PolicyConstraintsIsItem(s: Bytes)
    requires DecPolicyConstraints(s).Ok?
    ensures SkipItems(1, s) == Some(DecPolicyConstraints(s).rest)
  {
    var r := DecArrayHead(s).rest;
    ArrayIsItem(s);
    OptUintIsItem(r);
    OptUintIsItem(DecOptUint(r).rest);
    ItemsThenItems(1, 1, r);
  }

  lemma SubtreeRoundTrip(v: Option<GeneralNameList>, rest: Bytes)
    requires SubtreeTyped(v)
    ensures DecSubtree(EncSubtree(v) + rest) == Ok(v, rest)
  {
    if v.Some? {
      GeneralNamesRoundTrip(v.value, rest);
    } else {
      NullRoundTrip(rest);
    }
  }

  lemma SubtreeIsItem(s: Bytes)
    requires DecSubtree(s).Ok?
    ensures SkipItems(1, s) == Some(DecSubtree(s).rest) && SubtreeTyped(DecSubtree(s).value)
  {
    if TypeOf(s).Null? {
      NullIsItem(s);
    } else {
      GeneralNamesAreItem(s);
    }
  }

  lemma NameConstraintsRoundTrip(c: NameConstraints, rest: Bytes)
    requires NameConstraintsTyped(c)
    ensures DecNameConstraints(EncNameConstraints(c) + rest) == Ok(c, rest)
  {
    var a, b := EncSubtree(c.permitted), EncSubtree(c.excluded);
    Assoc(EncArrayHead(2), a + b, rest);
    Assoc(a, b, rest);
    ArrayHeadRoundTrip(2, a + (b + rest));
    SubtreeRoundTrip(c.permitted, b + rest);
    SubtreeRoundTrip(c.excluded, rest);
  }

  lemma NameConstraintsIsItem(s: Bytes)
    requires DecNameConstraints(s).Ok?
    ensures SkipItems(1, s) == Some(DecNameConstraints(s).rest) && NameConstraintsTyped(DecNameConstraints(s).value)
  {
    var r := DecArrayHead(s).rest;
    ArrayIsItem(s);
    SubtreeIsItem(r);
    SubtreeIsItem(DecSubtree(r).rest);
    ItemsThenItems(1, 1, r);
  }

  // ---- Methods -----------------------------------------------------------------------

  method DecodeIdAndText(d: Decoder) returns (r: Option<IdAndText>)
    requires d.Valid()
    modifies d
    ensures d.Valid() && Reads(DecIdAndText(old(d.Rest())), r, d.Rest())
  {
    var id :- DecodeIntOrOid(d);
    var t :- d.Str();
    return Some(IdAndText(id, t));
  }

  method DecodeIdAndTexts(d: Decoder) returns (r: Option<PairVec<IdAndText>>)
    requires d.Valid()
    modifies d
    ensures d.Valid() && Reads(DecIdAndTexts(old(d.Rest())), r, d.Rest())
  {
    hide DecIdAndText;
    var len :- DefiniteArrayLen(d);
    if len % 2 != 0 {
      return None;
    }
    var n: nat := len / 2;
    ghost var start := d.Rest();
    var out: seq<IdAndText> := [];
    NothingDone(DecMany(n, DecIdAndText, start));
    for left := n downto 0
      invariant d.Valid() && |out| + left == n
      invariant DecMany(n, DecIdAndText, start) == After(out, DecMany(left, DecIdAndText, d.Rest()))
    {
      ghost var here := d.Rest();
      var x := DecodeIdAndText(d);
      ReadStep(n, left, DecIdAndText, start, out, here, x, d.Rest());
      if x.None? {
        return None;
      }
      out := out + [x.value];
    }
    NothingLeft(out, DecIdAndText, d.Rest());
    return Some(out);
  }

  method EncodeIdAndTexts(v: PairVec<IdAndText>, e: Encoder)
    modifies e
    ensures e.buf == old(e.buf) + EncIdAndTexts(v)
  {
    ghost var before := e.buf;
    e.Array(2 * |v|);
    ghost var head := e.buf;
    assert v[0..] == v;
    for i := 0 to |v|
      invariant head + ConcatMap(v, EncIdAndText) == e.buf + ConcatMap(v[i..], EncIdAndText)
    {
      WriteOne(v, i, EncIdAndText, e.buf);
      Assoc(e.buf, EncIntOrOid(v[i].id), EncText(v[i].text));
      EncodeIntOrOid(v[i].id, e);
      e.Str(v[i].text);
    }
    NothingBefore(e.buf);
    Assoc(before, EncArrayHead(2 * |v|), ConcatMap(v, EncIdAndText));
  }

  method DecodePolicy(d: Decoder) returns (r: Option<Policy>)
    requires d.Valid()
    modifies d
    ensures d.Valid() && Reads(DecPolicy(old(d.Rest())), r, d.Rest())
  {
    var id :- DecodeIntOrOid(d);
    var qualifiers :- DecodeIdAndTexts(d);
    return Some(Policy(id, qualifiers));
  }

  method DecodePolicies(d: Decoder) returns (r: Option<PairVec<Policy>>)
    requires d.Valid()
    modifies d
    ensures d.Valid() && Reads(DecPolicies(old(d.Rest())), r, d.Rest())
  {
    hide DecPolicy;
    var len :- DefiniteArrayLen(d);
    if len % 2 != 0 {
      return None;
    }
    var n: nat := len / 2;
    ghost var start := d.Rest();
    var out: seq<Policy> := [];
    NothingDone(DecMany(n, DecPolicy, start));
    for left := n downto 0
      invariant d.Valid() && |out| + left == n
      invariant DecMany(n, DecPolicy, start) == After(out, DecMany(left, DecPolicy, d.Rest()))
    {
      ghost var here := d.Rest();
      var x := DecodePolicy(d);
      ReadStep(n, left, DecPolicy, start, out, here, x, d.Rest());
      if x.None? {
        return None;
      }
      out := out + [x.value];
    }
    NothingLeft(out, DecPolicy, d.Rest());
    return Some(out);
  }

  method EncodePolicies(v: PairVec<Policy>, e: Encoder)
    modifies e
    ensures e.buf == old(e.buf) + EncPolicies(v)
  {
    ghost var before := e.buf;
    e.Array(2 * |v|);
    ghost var head := e.buf;
    assert v[0..] == v;
    for i := 0 to |v|
      invariant head + ConcatMap(v, EncPolicy) == e.buf + ConcatMap(v[i..], EncPolicy)
    {
      WriteOne(v, i, EncPolicy, e.buf);
      Assoc(e.buf, EncIntOrOid(v[i].id), EncIdAndTexts(v[i].qualifiers));
      EncodeIntOrOid(v[i].id, e);
      EncodeIdAndTexts(v[i].qualifiers, e);
    }
    NothingBefore(e.buf);
    Assoc(before, EncArrayHead(2 * |v|), ConcatMap(v, EncPolicy));
  }

  method DecodeMapping(d: Decoder) returns (r: Option<PolicyMapping>)
    requires d.Valid()
    modifies d
    ensures d.Valid() && Reads(DecMapping(old(d.Rest())), r, d.Rest())
  {
    var a :- DecodeIntOrOid(d);
    var b :- DecodeIntOrOid(d);
    return Some(PolicyMapping(a, b));
  }

  method DecodeMappings(d: Decoder) returns (r: Option<PairVec<PolicyMapping>>)
    requires d.Valid()
    modifies d
    ensures d.Valid() && Reads(DecMappings(old(d.Rest())), r, d.Rest())
  {
    hide DecMapping;
    var len :- DefiniteArrayLen(d);
    if len % 2 != 0 {
      return None;
    }
    var n: nat := len / 2;
    ghost var start := d.Rest();
    var out: seq<PolicyMapping> := [];
    NothingDone(DecMany(n, DecMapping, start));
    for left := n downto 0
      invariant d.Valid() && |out| + left == n
      invariant DecMany(n, DecMapping, start) == After(out, DecMany(left, DecMapping, d.Rest()))
    {
      ghost var here := d.Rest();
      var x := DecodeMapping(d);
      ReadStep(n, left, DecMapping, start, out, here, x, d.Rest());
      if x.None? {
        return None;
      }
      out := out + [x.value];
    }
    NothingLeft(out, DecMapping, d.Rest());
    return Some(out);
  }

  method EncodeMappings(v: PairVec<PolicyMapping>, e: Encoder)
    modifies e
    ensures e.buf == old(e.buf) + EncMappings(v)
  {
    ghost var before := e.buf;
    e.Array(2 * |v|);
    ghost var head := e.buf;
    assert v[0..] == v;
    for i := 0 to |v|
      invariant head + ConcatMap(v, EncMapping) == e.buf + ConcatMap(v[i..], EncMapping)
    {
      WriteOne(v, i, EncMapping, e.buf);
      Assoc(e.buf, EncIntOrOid(v[i].issuerDomain), EncIntOrOid(v[i].subjectDomain));
      EncodeIntOrOid(v[i].issuerDomain, e);
      EncodeIntOrOid(v[i].subjectDomain, e);
    }
    NothingBefore(e.buf);
    Assoc(before, EncArrayHead(2 * |v|), ConcatMap(v, EncMapping));
  }

  method DecodePolicyConstraints(d: Decoder) returns (r: Option<PolicyConstraints>)
    requires d.Valid()
    modifies d
    ensures d.Valid() && Reads(DecPolicyConstraints(old(d.Rest())), r, d.Rest())
  {
    var n := ExpectArrayLen(d, 2);
    if n.Failed? {
      return None;
    }
    var a :- DecodeOptUint(d);
    var b :- DecodeOptUint(d);
    return Some(PolicyConstraints(a, b));
  }

  method EncodePolicyConstraints(c: PolicyConstraints, e: Encoder)
    modifies e
    ensures e.buf == old(e.buf) + EncPolicyConstraints(c)
  {
    ghost var before := e.buf;
    e.Array(2);
    EncodeOptUint(c.requireExplicitPolicy, e);
    EncodeOptUint(c.inhibitPolicyMapping, e);
    ghost var a, b := EncOptUint(c.requireExplicitPolicy), EncOptUint(c.inhibitPolicyMapping);
    Assoc(before + EncArrayHead(2), a, b);
    Assoc(before, EncArrayHead(2), a + b);
  }

  method DecodeSubtree(d: Decoder) returns (r: Option<Option<GeneralNameList>>)
    requires d.Valid()
    modifies d
    ensures d.Valid() && Reads(DecSubtree(old(d.Rest())), r, d.Rest())
  {
    var ty :- d.DataType();
    if ty.Null? {
      var _ :- d.Null();
      return Some(None);
    }
    var v :- DecodeGeneralNames(d);
    return Some(Some(v));
  }

  method EncodeSubtree(v: Option<GeneralNameList>, e: Encoder)
    modifies e
    ensures e.buf == old(e.buf) + EncSubtree(v)
  {
    match v
    case Some(names) => EncodeGeneralNames(names, e);
    case None => e.Null();
  }

  method DecodeNameConstraints(d: Decoder) returns (r: Option<NameConstraints>)
    requires d.Valid()
    modifies d
    ensures d.Valid() && Reads(DecNameConstraints(old(d.Rest())), r, d.Rest())
  {
    var n := ExpectArrayLen(d, 2);
    if n.Failed? {
      return None;
    }
    var a :- DecodeSubtree(d);
    var b :- DecodeSubtree(d);
    return Some(NameConstraints(a, b));
  }

  method EncodeNameConstraints(c: NameConstraints, e: Encoder)
    modifies e
    ensures e.buf == old(e.buf) + EncNameConstraints(c)
  {
    ghost var before := e.buf;
    e.Array(2);
    EncodeSubtree(c.permitted, e);
    EncodeSubtree(c.excluded, e);
    ghost var a, b := EncSubtree(c.permitted), EncSubtree(c.excluded);
    Assoc(before + EncArrayHead(2), a, b);
    Assoc(before, EncArrayHead(2), a + b);
  }
}
