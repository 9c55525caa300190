/**
  Lists read by minicbor's own `Vec` reader: key purposes, single or in an array
  (src/extensions/ext_key_usage.rs), and TLS features (src/extensions/mod.rs).
  */
module ExtKeyUsages {
  import opened Wrappers
  import opened ByteStrings
  import opened RustTypes
  import opened Cbor
  import opened Lists
  import opened Minicbor
  import opened Common

  function EncExtKeyUsage(ids: Vec<IntOrOid>): Bytes {
    if |ids| == 1 then EncIntOrOid(ids[0]) else EncArrayOf(1, EncIntOrOid, ids)
  }

  function DecExtKeyUsage(s: Bytes): Parsed<Vec<IntOrOid>> {
    if IsArray(TypeOf(s)) then DecVec(DecIntOrOid, s) else
    var (id, r) :- DecIntOrOid(s);
    Ok([id], r)
  }

  function EncUint(n: u32): Bytes {
    EncInt(n)
  }

  function EncTlsFeatures(v: Vec<u32>): Bytes {
    EncArrayOf(1, EncUint, v)
  }

  function DecTlsFeatures(s: Bytes): Parsed<Vec<u32>> {
    DecVec(DecU32, s)
  }

  lemma VecRoundTrip<T>(enc: T -> Bytes, dec: Bytes -> Parsed<T>, xs: Vec<T>, rest: Bytes)
    requires forall i :: 0 <= i < |xs| ==> ReadsBack(dec, enc(xs[i]), xs[i])
    ensures DecVec(dec, EncArrayOf(1, enc, xs) + rest) == Ok(xs, rest)
    ensures TypeOf(EncArrayOf(1, enc, xs) + rest) == Array
  {
    ArrayOfRoundTrip(1, enc, dec, xs, rest);
    EntryCount(1, DecArrayHead(EncArrayOf(1, enc, xs) + rest).value);
  }

  lemma ExtKeyUsageRoundTrip(ids: Vec<IntOrOid>, rest: Bytes)
    ensures DecExtKeyUsage(EncExtKeyUsage(ids) + rest) == Ok(ids, rest)
  {
    if |ids| == 1 {
      IntOrOidRoundTrip(ids[0], rest);
      assert [ids[0]] == ids;
    } else {
      forall i | 0 <= i < |ids|
        ensures ReadsBack(DecIntOrOid, EncIntOrOid(ids[i]), ids[i])
      {
        forall t: Bytes
          ensures DecIntOrOid(EncIntOrOid(ids[i]) + t) == Ok(ids[i], t)
        {
          IntOrOidRoundTrip(ids[i], t);
        }
      }
      VecRoundTrip(EncIntOrOid, DecIntOrOid, ids, rest);
    }
  }

  lemma ExtKeyUsageIsItem(s: Bytes)
    requires DecExtKeyUsage(s).Ok?
    ensures SkipItems(1, s) == Some(DecExtKeyUsage(s).rest)
  {
    forall t: Bytes | DecIntOrOid(t).Ok?
      ensures SkipItems(1, t) == Some(DecIntOrOid(t).rest)
    {
      IntOrOidIsItem(t);
    }
    if IsArray(TypeOf(s)) {
      VecIsItem(DecIntOrOid, s);
    }
  }

  lemma TlsFeaturesRoundTrip(v: Vec<u32>, rest: Bytes)
    ensures DecTlsFeatures(EncTlsFeatures(v) + rest) == Ok(v, rest)
  {
    forall i | 0 <= i < |v|
      ensures ReadsBack(DecU32, EncUint(v[i]), v[i])
    {
      forall t: Bytes
        ensures DecU32(EncUint(v[i]) + t) == Ok(v[i], t)
      {
        UnsignedRoundTrip(v[i], t);
      }
    }
    VecRoundTrip(EncUint, DecU32, v, rest);
  }

  lemma TlsFeaturesIsItem(s: Bytes)
    requires DecTlsFeatures(s).Ok?
    ensures SkipItems(1, s) == Some(DecTlsFeatures(s).rest)
  {
    forall t: Bytes | DecU32(t).Ok?
      ensures SkipItems(1, t) == Some(DecU32(t).rest)
    {
      IntIsItem(t);
    }
    VecIsItem(DecU32, s);
  }

  // ---- Methods -----------------------------------------------------------------------

  method DecodeCounted(n: nat, d: Decoder) returns (r: Option<seq<IntOrOid>>)
    requires d.Valid()
    modifies d
    ensures d.Valid() && Reads(DecMany(n, DecIntOrOid, old(d.Rest())), r, d.Rest())
  {
    hide DecIntOrOid;
    ghost var start := d.Rest();
    var ids: seq<IntOrOid> := [];
    NothingDone(DecMany(n, DecIntOrOid, start));
    for left := n downto 0
      invariant d.Valid()
      invariant DecMany(n, DecIntOrOid, start) == After(ids, DecMany(left, DecIntOrOid, d.Rest()))
    {
      ghost var here := d.Rest();
      var id := DecodeIntOrOid(d);
      ReadStep(n, left, DecIntOrOid, start, ids, here, id, d.Rest());
      if id.None? {
        return None;
      }
      ids := ids + [id.value];
    }
    NothingLeft(ids, DecIntOrOid, d.Rest());
    return Some(ids);
  }

  method DecodeUntilBreak(d: Decoder) returns (r: Option<seq<IntOrOid>>)
    requires d.Valid()
    modifies d
    ensures d.Valid() && Reads(DecUntilBreak(DecIntOrOid, old(d.Rest())), r, d.Rest())
    ensures r.Some? ==> |r.value| <= |d.input|
  {
    ghost var start := d.Rest();
    var ids: seq<IntOrOid> := [];
    var done := false;
    NothingDone(DecUntilBreak(DecIntOrOid, start));
    while !done
      invariant d.Valid() && |ids| <= d.pos
      invariant DecUntilBreak(DecIntOrOid, start) ==
                if done then Ok(ids, d.Rest()) else After(ids, DecUntilBreak(DecIntOrOid, d.Rest()))
      decreases !done, |d.Rest()|
    {
      ghost var here := d.Rest();
      var atBreak :- d.Break();
      if atBreak {
        assert ids + [] == ids;
        done := true;
      } else {
        ReadOneBeforeBreak(DecIntOrOid, here, ids);
        if DecIntOrOid(here).Ok? {
          IntOrOidIsItem(here);
        }
        var id :- DecodeIntOrOid(d);
        ids := ids + [id];
      }
    }
    return Some(ids);
  }

  method DecodeIdVec(d: Decoder) returns (r: Option<Vec<IntOrOid>>)
    requires d.Valid()
    modifies d
    ensures d.Valid() && Reads(DecVec(DecIntOrOid, old(d.Rest())), r, d.Rest())
  {
    var len :- d.Array();
    if len.Some? {
      var ids :- DecodeCounted(len.value, d);
      return Some(ids);
    }
    var ids :- DecodeUntilBreak(d);
    return Some(ids);
  }

  method DecodeExtKeyUsage(d: Decoder) returns (r: Option<Vec<IntOrOid>>)
    requires d.Valid()
    modifies d
    ensures d.Valid() && Reads(DecExtKeyUsage(old(d.Rest())), r, d.Rest())
  {
    var ty :- d.DataType();
    if IsArray(ty) {
      r := DecodeIdVec(d);
    } else {
      var id :- DecodeIntOrOid(d);
      r := Some([id]);
    }
  }

  method EncodeExtKeyUsage(ids: Vec<IntOrOid>, e: Encoder)
    modifies e
    ensures e.buf == old(e.buf) + EncExtKeyUsage(ids)
  {
    if |ids| == 1 {
      EncodeIntOrOid(ids[0], e);
      return;
    }
    ghost var before := e.buf;
    e.Array(|ids|);
    ghost var head := e.buf;
    assert ids[0..] == ids;
    for i := 0 to |ids|
      invariant head + ConcatMap(ids, EncIntOrOid) == e.buf + ConcatMap(ids[i..], EncIntOrOid)
    {
      WriteOne(ids, i, EncIntOrOid, e.buf);
      EncodeIntOrOid(ids[i], e);
    }
    NothingBefore(e.buf);
    Assoc(before, EncArrayHead(|ids|), ConcatMap(ids, EncIntOrOid));
  }

  method DecodeCountedFeatures(n: nat, d: Decoder) returns (r: Option<seq<u32>>)
    requires d.Valid()
    modifies d
    ensures d.Valid() && Reads(DecMany(n, DecU32, old(d.Rest())), r, d.Rest())
  {
    hide DecU32;
    ghost var start := d.Rest();
    var features: seq<u32> := [];
    NothingDone(DecMany(n, DecU32, start));
    for left := n downto 0
      invariant d.Valid()
      invariant DecMany(n, DecU32, start) == After(features, DecMany(left, DecU32, d.Rest()))
    {
      ghost var here := d.Rest();
      var f := d.U32();
      ReadStep(n, left, DecU32, start, features, here, f, d.Rest());
      if f.None? {
        return None;
      }
      features := features + [f.value];
    }
    NothingLeft(features, DecU32, d.Rest());
    return Some(features);
  }

  method DecodeFeaturesUntilBreak(d: Decoder) returns (r: Option<seq<u32>>)
    requires d.Valid()
    modifies d
    ensures d.Valid() && Reads(DecUntilBreak(DecU32, old(d.Rest())), r, d.Rest())
    ensures r.Some? ==> |r.value| <= |d.input|
  {
    ghost var start := d.Rest();
    var features: seq<u32> := [];
    var done := false;
    NothingDone(DecUntilBreak(DecU32, start));
    while !done
      invariant d.Valid() && |features| <= d.pos
      invariant DecUntilBreak(DecU32, start) ==
                if done then Ok(features, d.Rest()) else After(features, DecUntilBreak(DecU32, d.Rest()))
      decreases !done, |d.Rest()|
    {
      ghost var here := d.Rest();
      var atBreak :- d.Break();
      if atBreak {
        assert features + [] == features;
        done := true;
      } else {
        ReadOneBeforeBreak(DecU32, here, features);
        if DecU32(here).Ok? {
          IntIsItem(here);
        }
        var f :- d.U32();
        features := features + [f];
      }
    }
    return Some(features);
  }

  method DecodeTlsFeatures(d: Decoder) returns (r: Option<Vec<u32>>)
    requires d.Valid()
    modifies d
    ensures d.Valid() && Reads(DecTlsFeatures(old(d.Rest())), r, d.Rest())
  {
    var len :- d.Array();
    if len.Some? {
      var features :- DecodeCountedFeatures(len.value, d);
      return Some(features);
    }
    var features :- DecodeFeaturesUntilBreak(d);
    return Some(features);
  }

  method EncodeTlsFeatures(v: Vec<u32>, e: Encoder)
    modifies e
    ensures e.buf == old(e.buf) + EncTlsFeatures(v)
  {
    ghost var before := e.buf;
    e.Array(|v|);
    ghost var head := e.buf;
    assert v[0..] == v;
    for i := 0 to |v|
      invariant head + ConcatMap(v, EncUint) == e.buf + ConcatMap(v[i..], EncUint)
    {
      WriteOne(v, i, EncUint, e.buf);
      e.Int(v[i]);
    }
    NothingBefore(e.buf);
    Assoc(before, EncArrayHead(|v|), ConcatMap(v, EncUint));
  }
}
