/** The reading cursor and the growing buffer of the minicbor crate, over the heads of module `Cbor`. */
module Minicbor {
  import opened Wrappers
  import opened ByteStrings
  import opened RustTypes
  import opened Cbor

  /** A read that was specified as `spec` returned `r` and left `rest` to be read. */
  ghost predicate Reads<T>(spec: Parsed<T>, r: Option<T>, rest: Bytes) {
    if spec.Ok? then r == Some(spec.value) && rest == spec.rest else r.None?
  }

  /** A write that was specified as `spec` ended with `ok` and took the buffer from `before` to `after`. */
  ghost predicate Writes(spec: Option<Bytes>, ok: Outcome, before: Bytes, after: Bytes) {
    if spec.Some? then ok.Pass? && after == before + spec.value else ok.Failed?
  }

  ghost predicate TakesPrefix<T>(dec: Bytes -> Parsed<T>, s: Bytes) {
    dec(s).Ok? ==> |dec(s).rest| <= |s| && dec(s).rest == s[|s| - |dec(s).rest|..]
  }

  lemma HeadTakesPrefix(major: nat, s: Bytes)
    ensures ReadHead(major, s).Ok? ==> TakesPrefix(s => ReadHead(major, s), s)
  {
    if ReadHead(major, s).Ok? {
      var a := HeadLocal(major, s, []);
      assert s[|a|..] == ReadHead(major, s).rest;
    }
  }

  class Decoder {
    const input: Bytes
    var pos: nat

    // A Rust slice holds at most isize::MAX bytes.
    ghost predicate Valid()
      reads this
    {
      pos <= |input| < TWO_63
    }

    function Rest(): Bytes
      requires Valid()
      reads this
    {
      input[pos..]
    }

    constructor (bytes: Bytes)
      requires |bytes| < TWO_63
      ensures Valid() && input == bytes && Rest() == bytes
    {
      input := bytes;
      pos := 0;
    }

    /** A second cursor at the same place, to look ahead with. */
    method Probe() returns (p: Decoder)
      requires Valid()
      ensures fresh(p) && p.Valid() && p.Rest() == Rest()
    {
      p := new Decoder(input);
      p.pos := pos;
    }

    method Advance<T>(dec: Bytes -> Parsed<T>) returns (r: Option<T>)
      requires Valid() && TakesPrefix(dec, Rest())
      modifies this
      ensures Valid() && Reads(dec(old(Rest())), r, Rest())
    {
      var p := dec(Rest());
      if p.Fail? {
        return None;
      }
      pos := |input| - |p.rest|;
      return Some(p.value);
    }

    method DataType() returns (r: Option<CborType>)
      requires Valid()
      ensures r == if Rest() == [] then None else Some(TypeOf(Rest()))
    {
      return if pos == |input| then None else Some(TypeOf(Rest()));
    }

    method Int() returns (r: Option<CborInt>)
      requires Valid()
      modifies this
      ensures Valid() && Reads(DecInt(old(Rest())), r, Rest())
    {
      HeadTakesPrefix(UNSIGNED, Rest());
      HeadTakesPrefix(NEGATIVE, Rest());
      r := Advance(DecInt);
    }

    method I32() returns (r: Option<i32>)
      requires Valid()
      modifies this
      ensures Valid() && Reads(DecI32(old(Rest())), r, Rest())
    {
      HeadTakesPrefix(UNSIGNED, Rest());
      HeadTakesPrefix(NEGATIVE, Rest());
      r := Advance(DecI32);
    }

    method U16() returns (r: Option<u16>)
      requires Valid()
      modifies this
      ensures Valid() && Reads(DecU16(old(Rest())), r, Rest())
    {
      HeadTakesPrefix(UNSIGNED, Rest());
      r := Advance(DecU16);
    }

    method U32() returns (r: Option<u32>)
      requires Valid()
      modifies this
      ensures Valid() && Reads(DecU32(old(Rest())), r, Rest())
    {
      HeadTakesPrefix(UNSIGNED, Rest());
      r := Advance(DecU32);
    }

    method U64() returns (r: Option<u64>)
      requires Valid()
      modifies this
      ensures Valid() && Reads(DecU64(old(Rest())), r, Rest())
    {
      HeadTakesPrefix(UNSIGNED, Rest());
      r := Advance(DecU64);
    }

    method Bytes() returns (r: Option<Blob>)
      requires Valid()
      modifies this
      ensures Valid() && Reads(DecBytes(old(Rest())), r, Rest())
    {
      HeadTakesPrefix(BYTE_STRING, Rest());
      r := Advance(DecBytes);
    }

    method Str() returns (r: Option<Text>)
      requires Valid()
      modifies this
      ensures Valid() && Reads(DecText(old(Rest())), r, Rest())
    {
      HeadTakesPrefix(TEXT_STRING, Rest());
      r := Advance(DecText);
    }

    method Null() returns (r: Option<()>)
      requires Valid()
      modifies this
      ensures Valid() && Reads(DecNull(old(Rest())), r, Rest())
    {
      r := Advance(DecNull);
    }

    method Tag() returns (r: Option<u64>)
      requires Valid()
      modifies this
      ensures Valid() && Reads(DecTag(old(Rest())), r, Rest())
    {
      HeadTakesPrefix(TAG, Rest());
      r := Advance(DecTag);
    }

    method Array() returns (r: Option<Option<u64>>)
      requires Valid()
      modifies this
      ensures Valid() && Reads(DecArray(old(Rest())), r, Rest())
    {
      HeadTakesPrefix(ARRAY, Rest());
      r := Advance(DecArray);
    }

    /** Passes over the break that ends an indefinite-length array, if it is next. */
    method Break() returns (r: Option<bool>)
      requires Valid()
      modifies this
      ensures Valid()
      ensures r == if old(Rest()) == [] then None else Some(old(Rest())[0] == BREAK)
      ensures r.Some? ==> Rest() == if r.value then old(Rest())[1..] else old(Rest())
    {
      if pos == |input| {
        return None;
      }
      if input[pos] == BREAK {
        pos := pos + 1;
        return Some(true);
      }
      return Some(false);
    }

    method Skip() returns (ok: Outcome)
      requires Valid()
      modifies this
      ensures Valid()
      ensures if Cbor.Skip(old(Rest())).Some? then ok.Pass? && Rest() == Cbor.Skip(old(Rest())).value else ok.Failed?
      ensures ok.Pass? ==> old(pos) < pos
    {
      var s := Rest();
      var r := Cbor.Skip(s);
      if r.None? {
        return Failed;
      }
      ghost var a := SkipLocal(s, []);
      assert s[|a|..] == r.value;
      pos := |input| - |r.value|;
      return Pass;
    }
  }

  class Encoder {
    var buf: Bytes

    constructor ()
      ensures buf == []
    {
      buf := [];
    }

    method WriteAll(b: Bytes)
      modifies this
      ensures buf == old(buf) + b
    {
      buf := buf + b;
    }

    method Int(n: CborInt)
      modifies this
      ensures buf == old(buf) + EncInt(n)
    {
      WriteAll(EncInt(n));
    }

    method Bytes(b: Blob)
      modifies this
      ensures buf == old(buf) + EncBytes(b)
    {
      WriteAll(EncBytes(b));
    }

    method Str(t: Text)
      modifies this
      ensures buf == old(buf) + EncText(t)
    {
      WriteAll(EncText(t));
    }

    method Null()
      modifies this
      ensures buf == old(buf) + [NULL]
    {
      WriteAll([NULL]);
    }

    method Tag(n: u64)
      modifies this
      ensures buf == old(buf) + EncTag(n)
    {
      WriteAll(EncTag(n));
    }

    method Array(n: u64)
      modifies this
      ensures buf == old(buf) + EncArrayHead(n)
    {
      WriteAll(EncArrayHead(n));
    }
  }
}
