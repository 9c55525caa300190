/** Distribution points: three nested alternatives with two compact forms (src/extensions/distribution_point.rs). */
module DistributionPoints {
  import opened Wrappers
  import opened ByteStrings
  import opened RustTypes
  import opened Cbor
  import opened Lists
  import opened Minicbor
  import opened Common
  import opened Names

  datatype DistributionPointName = DistributionPoint(fullName: Vec<Text>, reasons: Option<u32>, crlIssuer: Option<Name>)

  // ---- Grammar -------------------------------------------------------------------

  function EncFullName(v: Vec<Text>): Bytes {
    if |v| == 1 then EncText(v[0]) else EncArrayOf(1, EncText, v)
  }

  function DecFullName(s: Bytes): Parsed<Vec<Text>> {
    if TypeOf(s).TextString? then
      var (t, r) :- DecText(s);
      Ok([t], r)
    else
      DecArrayOf(1, DecText, s)
  }

  function EncPoint(p: DistributionPointName): Bytes {
    EncArrayHead(3) + (EncFullName(p.fullName) + (EncOptUint(p.reasons) + EncOptionalName(p.crlIssuer)))
  }

  function DecPoint(s: Bytes): Parsed<DistributionPointName> {
    var (len, r) :- DecArrayHead(s);
    if len != 3 then Fail else
    var (fullName, r1) :- DecFullName(r);
    var (reasons, r2) :- DecOptUint(r1);
    var (crlIssuer, r3) :- DecOptionalName(r2);
    Ok(DistributionPoint(fullName, reasons, crlIssuer), r3)
  }

  /** A lone point that is nothing but one URI is written as its bare text. */
  predicate IsBareUri(points: Vec<DistributionPointName>) {
    |points| == 1 && |points[0].fullName| == 1 && points[0].reasons.None? && points[0].crlIssuer.None?
  }

  function EncPoints(points: Vec<DistributionPointName>): Bytes {
    if IsBareUri(points) then EncText(points[0].fullName[0]) else EncArrayOf(1, EncPoint, points)
  }

  function DecPoints(s: Bytes): Parsed<Vec<DistributionPointName>> {
    if TypeOf(s).TextString? then
      var (t, r) :- DecText(s);
      Ok([DistributionPoint([t], None, None)], r)
    else
      DecArrayOf(1, DecPoint, s)
  }

  predicate PointTyped(p: DistributionPointName) {
    OptionalNameTyped(p.crlIssuer)
  }

  predicate PointsTyped(points: seq<DistributionPointName>) {
    forall p :: p in points ==> PointTyped(p)
  }

  // ---- Both ways -------------------------------------------------------------------

  lemma FullNameRoundTrip(v: Vec<Text>, rest: Bytes)
    ensures DecFullName(EncFullName(v) + rest) == Ok(v, rest)
  {
    if |v| == 1 {
      TextRoundTrip(v[0], rest);
      assert v == [v[0]];
    } else {
      forall i | 0 <= i < |v|
        ensures ReadsBack(DecText, EncText(v[i]), v[i])
      {
        forall t: Bytes
          ensures DecText(EncText(v[i]) + t) == Ok(v[i], t)
        {
          TextRoundTrip(v[i], t);
        }
      }
      ArrayOfRoundTrip(1, EncText, DecText, v, rest);
    }
  }

  lemma FullNameIsItem(s: Bytes)
    requires DecFullName(s).Ok?
    ensures SkipItems(1, s) == Some(DecFullName(s).rest)
  {
    forall t: Bytes | DecText(t).Ok?
      ensures SkipItems(1, t) == Some(DecText(t).rest)
    {
      StringIsItem(TEXT_STRING, t);
    }
    if !TypeOf(s).TextString? {
      ArrayOfIsItem(1, DecText, s);
    }
  }

  lemma PointRoundTrip(p: DistributionPointName, rest: Bytes)
    requires PointTyped(p)
    ensures DecPoint(EncPoint(p) + rest) == Ok(p, rest)
  {
    var a, b, c := EncFullName(p.fullName), EncOptUint(p.reasons), EncOptionalName(p.crlIssuer);
    Assoc(EncArrayHead(3), a + (b + c), rest);
    Assoc(a, b + c, rest);
    Assoc(b, c, rest);
    ArrayHeadRoundTrip(3, a + (b + (c + rest)));
    FullNameRoundTrip(p.fullName, b + (c + rest));
    OptUintRoundTrip(p.reasons, c + rest);
    OptionalNameRoundTrip(p.crlIssuer, rest);
  }

  lemma PointIsItem(s: Bytes)
    requires DecPoint(s).Ok?
    ensures SkipItems(1, s) == Some(DecPoint(s).rest) && PointTyped(DecPoint(s).value)
  {
    var r := DecArrayHead(s).rest;
    var r1 := DecFullName(r).rest;
    ArrayIsItem(s);
    FullNameIsItem(r);
    OptUintIsItem(r1);
    OptionalNameIsItem(DecOptUint(r1).rest);
    ItemsThenItems(1, 1, r1);
    ItemsThenItems(1, 2, r);
  }

  lemma PointsRoundTrip(points: Vec<DistributionPointName>, rest: Bytes)
    requires PointsTyped(points)
    ensures DecPoints(EncPoints(points) + rest) == Ok(points, rest)
  {
    if IsBareUri(points) {
      var t := points[0].fullName[0];
      TextRoundTrip(t, rest);
      assert points[0].fullName == [t];
      assert points == [DistributionPoint([t], None, None)];
    } else {
      forall i | 0 <= i < |points|
        ensures ReadsBack(DecPoint, EncPoint(points[i]), points[i])
      {
        forall t: Bytes
          ensures DecPoint(EncPoint(points[i]) + t) == Ok(points[i], t)
        {
          PointRoundTrip(points[i], t);
        }
      }
      ArrayOfRoundTrip(1, EncPoint, DecPoint, points, rest);
    }
  }

  lemma PointsAreItem(s: Bytes)
    requires DecPoints(s).Ok?
    ensures SkipItems(1, s) == Some(DecPoints(s).rest) && PointsTyped(DecPoints(s).value)
  {
    if TypeOf(s).TextString? {
      StringIsItem(TEXT_STRING, s);
    } else {
      forall t: Bytes | DecPoint(t).Ok?
        ensures SkipItems(1, t) == Some(DecPoint(t).rest) && PointTyped(DecPoint(t).value)
      {
        PointIsItem(t);
      }
      ArrayOfIsItem(1, DecPoint, s);
      ArrayOfYields(1, DecPoint, PointTyped, s);
    }
  }

  /** No two different lists share an encoding, not even as prefixes of longer inputs. */
  lemma PointsEncodingIsUnambiguous(
    p: Vec<DistributionPointName>, q: Vec<DistributionPointName>, restP: Bytes, restQ: Bytes)
    requires PointsTyped(p) && PointsTyped(q)
    requires EncPoints(p) + restP == EncPoints(q) + restQ
    ensures p == q && restP == restQ
  {
    PointsRoundTrip(p, restP);
    PointsRoundTrip(q, restQ);
  }

  // ---- Methods -----------------------------------------------------------------------

  method DecodeTexts(n: nat, d: Decoder) returns (r: Option<seq<Text>>)
    requires d.Valid()
    modifies d
    ensures d.Valid() && Reads(DecMany(n, DecText, old(d.Rest())), r, d.Rest())
  {
    hide DecText;
    ghost var start := d.Rest();
    var v: seq<Text> := [];
    NothingDone(DecMany(n, DecText, start));
    for left := n downto 0
      invariant d.Valid()
      invariant DecMany(n, DecText, start) == After(v, DecMany(left, DecText, d.Rest()))
    {
      ghost var here := d.Rest();
      var t := d.Str();
      ReadStep(n, left, DecText, start, v, here, t, d.Rest());
      if t.None? {
        return None;
      }
      v := v + [t.value];
    }
    NothingLeft(v, DecText, d.Rest());
    return Some(v);
  }

  method DecodeFullName(d: Decoder) returns (r: Option<Vec<Text>>)
    requires d.Valid()
    modifies d
    ensures d.Valid() && Reads(DecFullName(old(d.Rest())), r, d.Rest())
  {
    var ty :- d.DataType();
    if ty.TextString? {
      var t :- d.Str();
      return Some([t]);
    }
    var n :- DefiniteArrayLen(d);
    EntryCount(1, n);
    var v :- DecodeTexts(n, d);
    return Some(v);
  }

  method DecodePoint(d: Decoder) returns (r: Option<DistributionPointName>)
    requires d.Valid()
    modifies d
    ensures d.Valid() && Reads(DecPoint(old(d.Rest())), r, d.Rest())
  {
    var n := ExpectArrayLen(d, 3);
    if n.Failed? {
      return None;
    }
    var fullName :- DecodeFullName(d);
    var reasons :- DecodeOptUint(d);
    var crlIssuer :- DecodeOptionalName(d);
    return Some(DistributionPoint(fullName, reasons, crlIssuer));
  }

  method DecodePointList(n: nat, d: Decoder) returns (r: Option<seq<DistributionPointName>>)
    requires d.Valid()
    modifies d
    ensures d.Valid() && Reads(DecMany(n, DecPoint, old(d.Rest())), r, d.Rest())
  {
    hide DecPoint;
    ghost var start := d.Rest();
    var out: seq<DistributionPointName> := [];
    NothingDone(DecMany(n, DecPoint, start));
    for left := n downto 0
      invariant d.Valid()
      invariant DecMany(n, DecPoint, start) == After(out, DecMany(left, DecPoint, d.Rest()))
    {
      ghost var here := d.Rest();
      var p := DecodePoint(d);
      ReadStep(n, left, DecPoint, start, out, here, p, d.Rest());
      if p.None? {
        return None;
      }
      out := out + [p.value];
    }
    NothingLeft(out, DecPoint, d.Rest());
    return Some(out);
  }

  method DecodePoints(d: Decoder) returns (r: Option<Vec<DistributionPointName>>)
    requires d.Valid()
    modifies d
    ensures d.Valid() && Reads(DecPoints(old(d.Rest())), r, d.Rest())
  {
    var ty :- d.DataType();
    if ty.TextString? {
      var t :- d.Str();
      return Some([DistributionPoint([t], None, None)]);
    }
    var len :- DefiniteArrayLen(d);
    EntryCount(1, len);
    var out :- DecodePointList(len, d);
    return Some(out);
  }

  method EncodePoint(p: DistributionPointName, e: Encoder)
    modifies e
    ensures e.buf == old(e.buf) + EncPoint(p)
  {
    ghost var before := e.buf;
    e.Array(3);
    ghost var head := e.buf;
    EncodeFullName(p.fullName, e);
    EncodeOptUint(p.reasons, e);
    EncodeOptionalName(p.crlIssuer, e);
    ghost var a, b, c := EncFullName(p.fullName), EncOptUint(p.reasons), EncOptionalName(p.crlIssuer);
    Assoc(head + a, b, c);
    Assoc(head, a, b + c);
    Assoc(before, EncArrayHead(3), a + (b + c));
  }

  method EncodeFullName(v: Vec<Text>, e: Encoder)
    modifies e
    ensures e.buf == old(e.buf) + EncFullName(v)
  {
    if |v| == 1 {
      e.Str(v[0]);
      return;
    }
    ghost var before := e.buf;
    e.Array(|v|);
    ghost var head := e.buf;
    assert v[0..] == v;
    for i := 0 to |v|
      invariant head + ConcatMap(v, EncText) == e.buf + ConcatMap(v[i..], EncText)
    {
      WriteOne(v, i, EncText, e.buf);
      e.Str(v[i]);
    }
    NothingBefore(e.buf);
    Assoc(before, EncArrayHead(|v|), ConcatMap(v, EncText));
  }

  method EncodePoints(points: Vec<DistributionPointName>, e: Encoder)
    modifies e
    ensures e.buf == old(e.buf) + EncPoints(points)
  {
    if IsBareUri(points) {
      e.Str(points[0].fullName[0]);
      return;
    }
    ghost var before := e.buf;
    e.Array(|points|);
    ghost var head := e.buf;
    assert points[0..] == points;
    for i := 0 to |points|
      invariant head + ConcatMap(points, EncPoint) == e.buf + ConcatMap(points[i..], EncPoint)
    {
      WriteOne(points, i, EncPoint, e.buf);
      EncodePoint(points[i], e);
    }
    NothingBefore(e.buf);
    Assoc(before, EncArrayHead(|points|), ConcatMap(points, EncPoint));
  }
}
