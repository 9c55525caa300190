/** BasicConstraints: CA flag and path length folded into one signed integer (src/extensions/basic_constraints.rs). */
module BasicConstraint {
  import opened Wrappers
  import opened ByteStrings
  import opened RustTypes
  import opened Cbor
  import opened Minicbor

  datatype BasicConstraints = NotCa | Ca(pathLen: Option<u32>)

  /** A path length from 2^31 up has no room beside the two negative sentinels. */
  function EncBasicConstraints(bc: BasicConstraints): Option<Bytes> {
    match bc
    case NotCa => Some(EncInt(-2))
    case Ca(None) => Some(EncInt(-1))
    case Ca(Some(n)) => if n < TWO_31 then Some(EncInt(n)) else None
  }

  function DecBasicConstraints(s: Bytes): Parsed<BasicConstraints> {
    var (v, r) :- DecI32(s);
    if v == -2 then Ok(NotCa, r)
    else if v == -1 then Ok(Ca(None), r)
    else if v >= 0 then Ok(Ca(Some(v)), r)
    else Fail
  }

  predicate PathLenFits(bc: BasicConstraints) {
    bc.Ca? && bc.pathLen.Some? ==> bc.pathLen.value < TWO_31
  }

  lemma BasicConstraintsRoundTrip(bc: BasicConstraints, rest: Bytes)
    ensures EncBasicConstraints(bc).Some? <==> PathLenFits(bc)
    ensures PathLenFits(bc) ==> DecBasicConstraints(EncBasicConstraints(bc).value + rest) == Ok(bc, rest)
  {
    match bc
    case NotCa => IntRoundTrip(-2, rest);
    case Ca(None) => IntRoundTrip(-1, rest);
    case Ca(Some(n)) => IntRoundTrip(n, rest);
  }

  lemma BasicConstraintsIsItem(s: Bytes)
    requires DecBasicConstraints(s).Ok?
    ensures SkipItems(1, s) == Some(DecBasicConstraints(s).rest) && PathLenFits(DecBasicConstraints(s).value)
  {
    IntIsItem(s);
  }

  method DecodeBasicConstraints(d: Decoder) returns (r: Option<BasicConstraints>)
    requires d.Valid()
    modifies d
    ensures d.Valid() && Reads(DecBasicConstraints(old(d.Rest())), r, d.Rest())
  {
    var v :- d.I32();
    if v == -2 {
      return Some(NotCa);
    } else if v == -1 {
      return Some(Ca(None));
    } else if v >= 0 {
      return Some(Ca(Some(v)));
    }
    return None;
  }

  method EncodeBasicConstraints(bc: BasicConstraints, e: Encoder) returns (ok: Outcome)
    modifies e
    ensures Writes(EncBasicConstraints(bc), ok, old(e.buf), e.buf)
  {
    match bc
    case NotCa =>
      e.Int(-2);
      return Pass;
    case Ca(None) =>
      e.Int(-1);
      return Pass;
    case Ca(Some(n)) =>
      if n >= TWO_31 {
        return Failed;
      }
      e.Int(n);
      return Pass;
  }
}
