/**
  Which accepted IPAddrBlocks and ASIdentifiers are written again byte for byte: those with shortest heads, in the form
  the encoder chooses for their entries, with network prefixes and trimmed bounds.
  */
module Rfc3779Reproduction {
  import opened Wrappers
  import opened ByteStrings
  import opened RustTypes
  import opened Cbor
  import opened Canonical
  import opened Chains
  import opened Addresses
  import opened Rfc3779
  import opened Rfc3779Properties

  // ---- Significant bytes -----------------------------------------------------------------

  /** At most seven bits of the last byte are unused, and they are clear. */
  predicate IsNetworkFraming(b: Bytes, unusedBits: byte) {
    && unusedBits <= 7
    && (b != [] ==> ClearLow(b[|b| - 1], unusedBits) == b[|b| - 1])
  }

  predicate IsTrimmed(b: Bytes, fill: byte) {
    b == [] || b[|b| - 1] != fill
  }

  /** A prefix is framed as it was built exactly when it was built from the framing of a network. */
  lemma FramingKept(afi: u16, b: Bytes, unusedBits: byte)
    requires BuildPrefix(afi, b, unusedBits).Some?
    ensures PrefixToFramed(BuildPrefix(afi, b, unusedBits).value) == (b, unusedBits) <==> IsNetworkFraming(b, unusedBits)
  {
    if unusedBits <= 7 {
      var net := BuildPrefix(afi, b, unusedBits).value;
      var framed := NetworkOctets(net.addr.octets, net.prefixLen)[..|b|];
      assert SignificantLen(net.prefixLen) == |b|;
      assert forall i :: 0 <= i < |b| - 1 ==> framed[i] == b[i];
      if b != [] {
        assert framed[|b| - 1] == ClearLow(b[|b| - 1], unusedBits);
        assert framed == b <==> framed[|b| - 1] == b[|b| - 1];
      }
    }
  }

  lemma TrimmingKept(afi: u16, b: Bytes, fill: byte)
    requires BuildAddr(afi, b, fill).Some?
    ensures Trimmed(BuildAddr(afi, b, fill).value.octets, fill) == b <==> IsTrimmed(b, fill)
  {
    TrimmedIsShortest(b, AddressWidth(afi).value - |b|, fill);
  }

  // ---- Entries of the int form -------------------------------------------------------------

  predicate CanonicalBound(abs: int, fill: byte) {
    var f := FramedFromAbsolute(abs);
    f.Some? && f.value.1 == 0 && IsTrimmed(f.value.0, fill)
  }

  predicate CanonicalPrefix(abs: int) {
    var f := FramedFromAbsolute(abs);
    f.Some? && IsNetworkFraming(f.value.0, f.value.1)
  }

  predicate ShortestPair(s: Bytes) {
    var r := Tail(DecArrayHead(s));
    ShortestHead(s) && ShortestHead(r) && ShortestHead(Tail(DecInt(r)))
  }

  predicate CanonicalIntEntry(p: int, s: Bytes) {
    if IsArray(TypeOf(s)) then
      && ShortestPair(s)
      && DecDeltaPair(p, s).Ok?
      && var (min, max) := DecDeltaPair(p, s).value;
         CanonicalBound(min, 0x00) && CanonicalBound(max, 0xFF)
    else
      ShortestHead(s) && DecInt(s).Ok? && CanonicalPrefix(p + DecInt(s).value)
  }

  /** A bound of the int form is its own framed integer exactly when it is canonical. */
  lemma BoundKept(afi: u16, abs: int, fill: byte)
    requires AddrFromAbsolute(afi, abs, fill).Some?
    requires |Trimmed(AddrFromAbsolute(afi, abs, fill).value.octets, fill)| < MAX_INT_FORM_BYTES
    ensures var t := Trimmed(AddrFromAbsolute(afi, abs, fill).value.octets, fill);
            AbsoluteFromFramed(t, 0) == Some(abs) <==> CanonicalBound(abs, fill)
  {
    hide BuildAddr, AbsoluteFromFramed, FramedFromAbsolute, Trimmed;
    var (b, u) := FramedFromAbsolute(abs).value;
    TrimmingKept(afi, b, fill);
    AbsoluteRoundTrip(Trimmed(AddrFromAbsolute(afi, abs, fill).value.octets, fill), 0);
    if CanonicalBound(abs, fill) {
      FramedRoundTrip(abs);
    }
  }

  lemma PrefixKept(afi: u16, abs: int)
    requires PrefixFromAbsolute(afi, abs).Some?
    requires |PrefixToFramed(PrefixFromAbsolute(afi, abs).value).0| < MAX_INT_FORM_BYTES
    ensures var (b, u) := PrefixToFramed(PrefixFromAbsolute(afi, abs).value);
            AbsoluteFromFramed(b, u) == Some(abs) <==> CanonicalPrefix(abs)
  {
    hide BuildPrefix, AbsoluteFromFramed, FramedFromAbsolute, PrefixToFramed;
    var (b, u) := FramedFromAbsolute(abs).value;
    var (c, v) := PrefixToFramed(PrefixFromAbsolute(afi, abs).value);
    FramingKept(afi, b, u);
    UnusedBitsBound(PrefixFromAbsolute(afi, abs).value);
    AbsoluteRoundTrip(c, v);
    if CanonicalPrefix(abs) {
      FramedRoundTrip(abs);
    }
  }

  lemma IntPairReproduced(s: Bytes, x: CborInt, y: CborInt, rest: Bytes)
    requires DecIntPair(s) == Ok((x, y), rest)
    ensures (EncArrayHead(2) + (EncInt(x) + EncInt(y))) + rest == s <==> ShortestPair(s)
  {
    hide DecArrayHead, EncArrayHead, DecInt, EncInt, ShortestHead;
    var r := DecArrayHead(s).rest;
    var r1 := DecInt(r).rest;
    ArrayHeadReproduced(s);
    IntReproduced(r);
    IntReproduced(r1);
    ArrayHeadRoundTrip(2, EncInt(x) + (EncInt(y) + rest));
    IntRoundTrip(x, EncInt(y) + rest);
    TwoAfterHead(EncArrayHead(2), EncInt(x), EncInt(y), s, r, r1, rest);
  }

  /** A pair of deltas is written again the same exactly when it is the same pair with shortest heads. */
  lemma DeltaPairReproduced(p: int, min: int, max: int, s: Bytes)
    requires DecDeltaPair(p, s).Ok? && EncDeltaPair(p, min, max).Some?
    ensures EncDeltaPair(p, min, max).value.0 + DecDeltaPair(p, s).rest == s
       <==> ShortestPair(s) && DecDeltaPair(p, s).value == (min, max)
  {
    hide DecIntPair, EncInt, EncArrayHead, ShortestPair;
    var d, rest := DecIntPair(s).value, DecIntPair(s).rest;
    IntPairReproduced(s, d.0, d.1, rest);
    IntPairRoundTrip(min - p, max - min, rest);
  }

  lemma IntPrefixReproduced(afi: u16, p: int, s: Bytes)
    requires !IsArray(TypeOf(s)) && DecIntEntry(afi, p, s).Ok? && 0 <= p < FRAMED_LIMIT
    requires FitsIntForm(Resolve(DecIntEntry(afi, p, s).value.0))
    ensures var d := DecIntEntry(afi, p, s);
            var e := EncIntEntry(d.value.0, p);
            && e.Some?
            && (e.value.0 + d.rest == s <==> CanonicalIntEntry(p, s))
            && (CanonicalIntEntry(p, s) ==> e.value.1 == d.value.1)
  {
    hide DecInt, EncInt, ShortestHead, PrefixToFramed, AbsoluteFromFramed, PrefixFromAbsolute, CanonicalPrefix;
    var d, raw := DecIntEntry(afi, p, s), DecInt(s).value;
    IntEntryIsWritable(d.value.0, p);
    PrefixKept(afi, p + raw);
    IntReproduced(s);
    IntRoundTrip(EncIntEntry(d.value.0, p).value.1 - p, d.rest);
  }

  lemma IntRangeReproduced(afi: u16, p: int, s: Bytes)
    requires IsArray(TypeOf(s)) && DecIntEntry(afi, p, s).Ok? && 0 <= p < FRAMED_LIMIT
    requires FitsIntForm(Resolve(DecIntEntry(afi, p, s).value.0))
    ensures var d := DecIntEntry(afi, p, s);
            var e := EncIntEntry(d.value.0, p);
            && e.Some?
            && (e.value.0 + d.rest == s <==> CanonicalIntEntry(p, s))
            && (CanonicalIntEntry(p, s) ==> e.value.1 == d.value.1)
  {
    hide DecDeltaPair, EncDeltaPair, ShortestPair, Trimmed, AbsoluteFromFramed, AddrFromAbsolute, CanonicalBound;
    var d, pair := DecIntEntry(afi, p, s), DecDeltaPair(p, s).value;
    var min, max := Trimmed(d.value.0.min.octets, 0x00), Trimmed(d.value.0.max.octets, 0xFF);
    IntEntryIsWritable(d.value.0, p);
    BoundKept(afi, pair.0, 0x00);
    BoundKept(afi, pair.1, 0xFF);
    AbsoluteRoundTrip(min, 0);
    AbsoluteRoundTrip(max, 0);
    DeltaPairRoundTrip(p, AbsoluteFromFramed(min, 0).value, AbsoluteFromFramed(max, 0).value, d.rest);
    DeltaPairReproduced(p, AbsoluteFromFramed(min, 0).value, AbsoluteFromFramed(max, 0).value, s);
  }

  // ---- Chains ------------------------------------------------------------------------------

  predicate EachStep<T>(n: nat, dec: DecStep<T>, canonical: (int, Bytes) -> bool, p: int, s: Bytes) {
    n == 0
    || (dec(p, s).Ok? && canonical(p, s) && EachStep(n - 1, dec, canonical, dec(p, s).value.1, dec(p, s).rest))
  }

  /**
    From any state within `lo..hi`, an entry that was read and fits is written again the same exactly when it is
    canonical, and then both chains move on to one state within `lo..hi`.
    */
  ghost predicate StepReproduces<T>(
    enc: EncStep<T>, dec: DecStep<T>, canonical: (int, Bytes) -> bool, fits: T -> bool, lo: int, hi: int) {
    forall p: int, s: Bytes :: lo <= p <= hi && dec(p, s).Ok? && fits(dec(p, s).value.0) ==>
      && enc(dec(p, s).value.0, p).Some?
      && (enc(dec(p, s).value.0, p).value.0 + dec(p, s).rest == s <==> canonical(p, s))
      && (canonical(p, s) ==> lo <= enc(dec(p, s).value.0, p).value.1 == dec(p, s).value.1 <= hi)
      && StepReadAgain(dec, p, enc(dec(p, s).value.0, p).value.0)
  }

  ghost predicate StepReadAgain<T>(dec: DecStep<T>, p: int, b: Bytes) {
    forall t: Bytes :: dec(p, b + t).Ok? && dec(p, b + t).rest == t
  }

  lemma {:induction false} ChainReproduced<T>(
    n: nat, enc: EncStep<T>, dec: DecStep<T>, canonical: (int, Bytes) -> bool, fits: T -> bool,
    lo: int, hi: int, p: int, s: Bytes)
    requires DecChain(n, dec, p, s).Ok? && lo <= p <= hi
    requires StepReproduces(enc, dec, canonical, fits, lo, hi)
    requires forall x :: x in DecChain(n, dec, p, s).value ==> fits(x)
    ensures var d := DecChain(n, dec, p, s);
            EachStep(n, dec, canonical, p, s) <==>
              EncChain(d.value, enc, p).Some? && EncChain(d.value, enc, p).value + d.rest == s
  {
    if n == 0 {
      NothingBefore(s);
    } else {
      var step := dec(p, s);
      var (x, q) := step.value;
      var later := DecChain(n - 1, dec, q, step.rest);
      assert DecChain(n, dec, p, s).value[1..] == later.value;
      assert fits(x);
      var (a, q') := enc(x, p).value;
      if EncChain(later.value, enc, q').Some? {
        var b := EncChain(later.value, enc, q').value;
        Assoc(a, b, later.rest);
        assert StepReadAgain(dec, p, a);
        Joined(a, b + later.rest, s, step.rest);
      }
      if canonical(p, s) {
        ChainReproduced(n - 1, enc, dec, canonical, fits, lo, hi, q, step.rest);
      }
    }
  }

  // ---- Entries of a family -------------------------------------------------------------------

  predicate HasIntForm(entry: IpAddressOrRange) {
    FitsIntForm(Resolve(entry))
  }

  lemma IntEntriesReproduce(afi: u16)
    ensures StepReproduces(EncIntEntry, IntEntryDecoder(afi), CanonicalIntEntry, HasIntForm, 0, FRAMED_LIMIT - 1)
  {
    hide DecIntEntry, EncIntEntry, CanonicalIntEntry, Resolve;
    forall p: int, s: Bytes | 0 <= p < FRAMED_LIMIT && DecIntEntry(afi, p, s).Ok? && HasIntForm(DecIntEntry(afi, p, s).value.0)
      ensures var d := DecIntEntry(afi, p, s);
              var e := EncIntEntry(d.value.0, p);
              && e.Some?
              && (e.value.0 + d.rest == s <==> CanonicalIntEntry(p, s))
              && (CanonicalIntEntry(p, s) ==> 0 <= e.value.1 == d.value.1 < FRAMED_LIMIT)
              && StepReadAgain(IntEntryDecoder(afi), p, e.value.0)
    {
      var entry := DecIntEntry(afi, p, s).value.0;
      if IsArray(TypeOf(s)) {
        IntRangeReproduced(afi, p, s);
      } else {
        IntPrefixReproduced(afi, p, s);
      }
      IntEntryIsWritable(entry, p);
      IntEntryIsItem(afi, p, s);
      forall t: Bytes
        ensures var back := DecIntEntry(afi, p, EncIntEntry(entry, p).value.0 + t); back.Ok? && back.rest == t
      {
        IntEntryRoundTrip(afi, entry, p, t);
      }
    }
  }

  predicate CanonicalRawBound(fill: byte, s: Bytes) {
    && ShortestHead(s)
    && DecBytes(s).Ok? && DecBytes(s).value != []
    && IsTrimmed(DecBytes(s).value[1..], fill)
  }

  predicate CanonicalRawEntry(s: Bytes) {
    if IsArray(TypeOf(s)) then
      var r := Tail(DecArrayHead(s));
      ShortestHead(s) && CanonicalRawBound(0x00, r) && CanonicalRawBound(0xFF, Tail(DecBytes(r)))
    else
      && ShortestHead(s)
      && DecBytes(s).Ok? && DecBytes(s).value != []
      && IsNetworkFraming(DecBytes(s).value[1..], DecBytes(s).value[0])
  }

  /** A byte string written where another one was read is the same exactly when its contents and head are. */
  lemma OtherBytesReproduced(b: Blob, s: Bytes)
    requires DecBytes(s).Ok?
    ensures EncBytes(b) + DecBytes(s).rest == s <==> b == DecBytes(s).value && ShortestHead(s)
  {
    BytesRoundTrip(b, DecBytes(s).rest);
    BytesReproduced(s);
  }

  lemma RawBoundReproduced(afi: u16, fill: byte, s: Bytes)
    requires DecRawBound(afi, fill, s).Ok?
    ensures var d := DecRawBound(afi, fill, s);
            EncBytes([0] + Trimmed(d.value.octets, fill)) + d.rest == s <==> CanonicalRawBound(fill, s)
  {
    hide DecBytes, EncBytes, ShortestHead, Trimmed, BuildAddr;
    var raw, t := DecBytes(s).value, Trimmed(DecRawBound(afi, fill, s).value.octets, fill);
    OtherBytesReproduced([0] + t, s);
    TrimmingKept(afi, raw[1..], fill);
    assert raw == [0] + raw[1..];
    assert ([0] + t)[1..] == t;
  }

  lemma RawPrefixReproduced(afi: u16, s: Bytes)
    requires DecRawEntry(afi, s).Ok? && !IsArray(TypeOf(s))
    ensures var d := DecRawEntry(afi, s); EncRawEntry(d.value) + d.rest == s <==> CanonicalRawEntry(s)
  {
    hide DecBytes, EncBytes, ShortestHead, BuildPrefix;
    var raw, net := DecBytes(s).value, DecRawEntry(afi, s).value.net;
    var (b, u) := PrefixToFramed(net);
    OtherBytesReproduced([u] + b, s);
    FramingKept(afi, raw[1..], raw[0]);
    assert raw == [raw[0]] + raw[1..];
    assert ([u] + b)[1..] == b && ([u] + b)[0] == u;
  }

  lemma RawRangeReproduced(afi: u16, s: Bytes)
    requires DecRawEntry(afi, s).Ok? && IsArray(TypeOf(s))
    ensures var d := DecRawEntry(afi, s); EncRawEntry(d.value) + d.rest == s <==> CanonicalRawEntry(s)
  {
    hide DecArrayHead, EncArrayHead, DecBytes, EncBytes, ShortestHead, BuildAddr, Trimmed, CanonicalRawBound;
    var d, r := DecRawEntry(afi, s), DecArrayHead(s).rest;
    var a := EncBytes([0] + Trimmed(d.value.min.octets, 0x00));
    var b := EncBytes([0] + Trimmed(d.value.max.octets, 0xFF));
    var r1 := DecRawBound(afi, 0x00, r).rest;
    ArrayHeadReproduced(s);
    RawBoundReproduced(afi, 0x00, r);
    RawBoundReproduced(afi, 0xFF, r1);
    ArrayHeadRoundTrip(2, a + (b + d.rest));
    BytesRoundTrip([0] + Trimmed(d.value.min.octets, 0x00), b + d.rest);
    TwoAfterHead(EncArrayHead(2), a, b, s, r, r1, d.rest);
  }

  lemma RawEntriesReproduce(afi: u16)
    ensures ReproducesPlain(EncRawEntry, RawEntryDecoder(afi), CanonicalRawEntry)
  {
    hide DecRawEntry, EncRawEntry, CanonicalRawEntry;
    forall s: Bytes | DecRawEntry(afi, s).Ok?
      ensures var d := DecRawEntry(afi, s); CanonicalRawEntry(s) <==> EncRawEntry(d.value) + d.rest == s
      ensures ReadAgain(RawEntryDecoder(afi), EncRawEntry(DecRawEntry(afi, s).value))
    {
      if IsArray(TypeOf(s)) {
        RawRangeReproduced(afi, s);
      } else {
        RawPrefixReproduced(afi, s);
      }
      RawEntryIsItem(afi, s);
      RawEntryReadsBack(afi, DecRawEntry(afi, s).value);
    }
  }

  /** The entries are in the form that the encoder chooses for them, and each is canonical in it. */
  predicate CanonicalEntries(intForm: bool, afi: u16, n: nat, s: Bytes) {
    && DecEntries(intForm, afi, n, s).Ok?
    && intForm == UsesIntForm(DecEntries(intForm, afi, n, s).value)
    && (if intForm then EachStep(n, IntEntryDecoder(afi), CanonicalIntEntry, 0, s)
        else Each(n, RawEntryDecoder(afi), CanonicalRawEntry, s))
  }

  lemma EntriesReproduced(intForm: bool, afi: u16, n: nat, s: Bytes)
    requires n > 0 && ProbeIntForm(s) == Some(intForm) && DecEntries(intForm, afi, n, s).Ok?
    ensures var d := DecEntries(intForm, afi, n, s);
            CanonicalEntries(intForm, afi, n, s) <==> EncEntries(d.value).Some? && EncEntries(d.value).value + d.rest == s
  {
    hide ProbeIntForm, CanonicalIntEntry, CanonicalRawEntry, EncIntEntry, EncRawEntry, FitsIntForm, Resolve;
    var d := DecEntries(intForm, afi, n, s);
    FormAgrees(d.value, d.rest);
    if intForm == UsesIntForm(d.value) {
      if intForm {
        IntEntriesReproduce(afi);
        ChainReproduced(n, EncIntEntry, IntEntryDecoder(afi), CanonicalIntEntry, HasIntForm, 0, FRAMED_LIMIT - 1, 0, s);
      } else {
        RawEntriesReproduce(afi);
        PlainManyReproduced(n, EncRawEntry, RawEntryDecoder(afi), CanonicalRawEntry, s);
      }
    }
  }

  // ---- Families ------------------------------------------------------------------------------

  predicate CanonicalChoice(afi: u16, s: Bytes) {
    || TypeOf(s).Null?
    || (&& ShortestHead(s)
        && DecArrayHead(s).Ok?
        && var (n, r) := (DecArrayHead(s).value, DecArrayHead(s).rest);
           n == 0 || (ProbeIntForm(r).Some? && CanonicalEntries(ProbeIntForm(r).value, afi, n, r)))
  }

  lemma ChoiceReproduced(afi: u16, s: Bytes)
    requires DecChoice(afi, s).Ok?
    ensures var d := DecChoice(afi, s);
            CanonicalChoice(afi, s) <==> EncChoice(d.value).Some? && EncChoice(d.value).value + d.rest == s
  {
    hide DecArrayHead, EncArrayHead, ShortestHead, EncEntries, DecEntries, ProbeIntForm, CanonicalEntries;
    var d := DecChoice(afi, s);
    if TypeOf(s).Null? {
      assert [NULL] + s[1..] == s;
    } else {
      var n, r := DecArrayHead(s).value, DecArrayHead(s).rest;
      ArrayHeadReproduced(s);
      var entries := d.value.entries;
      assert |entries| == n;
      EntriesAreWritable(entries);
      var body := EncEntries(entries).value;
      Assoc(EncArrayHead(n), body, d.rest);
      ArrayHeadRoundTrip(n, body + d.rest);
      Joined(EncArrayHead(n), body + d.rest, s, r);
      if n == 0 {
        NoEntries(entries, d.rest);
      } else {
        EntriesReproduced(ProbeIntForm(r).value, afi, n, r);
      }
    }
  }

  lemma NoEntries(entries: seq<IpAddressOrRange>, rest: Bytes)
    requires entries == []
    ensures EncEntries(entries).Some? && EncEntries(entries).value + rest == rest
  {
    NothingBefore(rest);
  }

  predicate CanonicalSafi(s: Bytes) {
    TypeOf(s).Null? || ShortestHead(s)
  }

  lemma SafiReproduced(s: Bytes)
    requires DecSafi(s).Ok?
    ensures EncSafi(DecSafi(s).value) + DecSafi(s).rest == s <==> CanonicalSafi(s)
  {
    if TypeOf(s).Null? {
      assert [NULL] + s[1..] == s;
    } else {
      HeadReproduced(UNSIGNED, s);
    }
  }

  predicate CanonicalFamily(s: Bytes) {
    && ShortestHead(s)
    && DecU16(s).Ok?
    && CanonicalSafi(DecU16(s).rest)
    && CanonicalChoice(DecU16(s).value, Tail(DecSafi(DecU16(s).rest)))
  }

  lemma FamilyReproduced(s: Bytes)
    requires DecFamily(s).Ok?
    ensures var d := DecFamily(s);
            CanonicalFamily(s) <==> EncFamily(d.value).Some? && EncFamily(d.value).value + d.rest == s
  {
    hide DecU16, EncInt, DecSafi, EncSafi, DecChoice, EncChoice, ShortestHead, CanonicalSafi, CanonicalChoice;
    var d := DecFamily(s);
    var r := DecU16(s).rest;
    var r1 := DecSafi(r).rest;
    AfiReproduced(s);
    SafiReproduced(r);
    ChoiceReproduced(d.value.afi, r1);
    FamilyIsWritable(d.value);
    var a, b, c := EncInt(d.value.afi), EncSafi(d.value.safi), EncChoice(d.value.choice).value;
    UnsignedRoundTrip(d.value.afi, b + (c + d.rest));
    SafiRoundTrip(d.value.safi, c + d.rest);
    TwoAfterHead(a, b, c, s, r, r1, d.rest);
  }

  lemma AfiReproduced(s: Bytes)
    requires DecU16(s).Ok?
    ensures EncInt(DecU16(s).value) + DecU16(s).rest == s <==> ShortestHead(s)
  {
    HeadReproduced(UNSIGNED, s);
  }

  lemma FamiliesReproduce()
    ensures Reproduces(EncFamily, DecFamily, CanonicalFamily)
  {
    hide DecFamily, EncFamily, CanonicalFamily;
    forall s: Bytes | DecFamily(s).Ok?
      ensures var d := DecFamily(s);
              && (CanonicalFamily(s) <==> EncFamily(d.value).Some? && EncFamily(d.value).value + d.rest == s)
              && EncFamily(d.value).Some? && ReadAgain(DecFamily, EncFamily(d.value).value)
    {
      FamilyReproduced(s);
      FamilyIsItems(s);
      FamilyReadsBack(DecFamily(s).value);
    }
  }

  predicate CanonicalFamilies(s: Bytes) {
    && ShortestHead(s)
    && DecFamilies(s).Ok?
    && Each(|DecFamilies(s).value|, DecFamily, CanonicalFamily, Tail(DecArrayHead(s)))
  }

  /** Accepted families are written again byte for byte exactly when they are canonical. */
  lemma FamiliesReproducedExactly(s: Bytes)
    requires DecFamilies(s).Ok?
    ensures var d := DecFamilies(s);
            EncFamilies(d.value).Some? && (EncFamilies(d.value).value + d.rest == s <==> CanonicalFamilies(s))
  {
    hide DecFamily, EncFamily, CanonicalFamily, ShortestHead;
    FamiliesReproduce();
    FamiliesAreWritable(DecFamilies(s).value);
    ArrayOfReproduced(3, EncFamily, DecFamily, CanonicalFamily, s);
  }

  // ---- AS identifiers --------------------------------------------------------------------------

  predicate CanonicalAsEntry(p: int, s: Bytes) {
    if IsArray(TypeOf(s)) then ShortestPair(s) else ShortestHead(s)
  }

  predicate AnyAsEntry(entry: AsIdOrRange) {
    true
  }

  lemma AsEntryReproduced(p: int, s: Bytes)
    requires DecAsEntry(p, s).Ok? && 0 <= p < TWO_64
    ensures var d := DecAsEntry(p, s);
            var e := EncAsEntry(d.value.0, p);
            && e.Some? && 0 <= e.value.1 == d.value.1 < TWO_64
            && (e.value.0 + d.rest == s <==> CanonicalAsEntry(p, s))
  {
    hide DecInt, EncInt, EncDeltaPair, DecDeltaPair, ShortestPair, ShortestHead;
    var d := DecAsEntry(p, s);
    AsEntryRoundTrip(d.value.0, p, d.rest);
    match d.value.0
    case AsId(id) => IntReproduced(s);
    case AsRange(min, max) => DeltaPairReproduced(p, min, max, s);
  }

  lemma AsEntriesReproduce()
    ensures StepReproduces(EncAsEntry, DecAsEntry, CanonicalAsEntry, AnyAsEntry, 0, TWO_64 - 1)
  {
    hide DecAsEntry, EncAsEntry, CanonicalAsEntry;
    forall p: int, s: Bytes | 0 <= p < TWO_64 && DecAsEntry(p, s).Ok?
      ensures var d := DecAsEntry(p, s);
              var e := EncAsEntry(d.value.0, p);
              && e.Some? && 0 <= e.value.1 == d.value.1 < TWO_64
              && (e.value.0 + d.rest == s <==> CanonicalAsEntry(p, s))
              && StepReadAgain(DecAsEntry, p, e.value.0)
    {
      AsEntryReproduced(p, s);
      forall t: Bytes
        ensures var back := DecAsEntry(p, EncAsEntry(DecAsEntry(p, s).value.0, p).value.0 + t); back.Ok? && back.rest == t
      {
        AsEntryRoundTrip(DecAsEntry(p, s).value.0, p, t);
      }
    }
  }

  predicate CanonicalAsIdentifiers(s: Bytes) {
    || TypeOf(s).Null?
    || (&& ShortestHead(s)
        && DecArrayHead(s).Ok?
        && EachStep(DecArrayHead(s).value, DecAsEntry, CanonicalAsEntry, 0, DecArrayHead(s).rest))
  }

  /** Accepted AS identifiers are written again byte for byte exactly when every head is the shortest. */
  lemma AsIdentifiersReproducedExactly(s: Bytes)
    requires DecAsIdentifiers(s).Ok?
    ensures var d := DecAsIdentifiers(s);
            && EncAsIdentifiers(d.value).Some?
            && (EncAsIdentifiers(d.value).value + d.rest == s <==> CanonicalAsIdentifiers(s))
  {
    hide DecArrayHead, EncArrayHead, ShortestHead, DecAsEntry, EncAsEntry, CanonicalAsEntry;
    var d := DecAsIdentifiers(s);
    AsIdentifiersRoundTrip(d.value, d.rest);
    if TypeOf(s).Null? {
      assert [NULL] + s[1..] == s;
    } else {
      var n, r := DecArrayHead(s).value, DecArrayHead(s).rest;
      var body := EncChain(d.value.value, EncAsEntry, 0).value;
      AsEntriesReproduce();
      ChainReproduced(n, EncAsEntry, DecAsEntry, CanonicalAsEntry, AnyAsEntry, 0, TWO_64 - 1, 0, r);
      ArrayHeadReproduced(s);
      Assoc(EncArrayHead(n), body, d.rest);
      ArrayHeadRoundTrip(n, body + d.rest);
      Joined(EncArrayHead(n), body + d.rest, s, r);
    }
  }
}
