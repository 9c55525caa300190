/** What the IPAddrBlocks and ASIdentifiers codec keeps: the list itself, or the network form of its prefixes. */
module Rfc3779Properties {
  import opened Wrappers
  import opened ByteStrings
  import opened RustTypes
  import opened Cbor
  import opened Lists
  import opened Chains
  import opened Addresses
  import opened Rfc3779
  import opened Common

  // ---- One entry ---------------------------------------------------------------------

  /** A two-element array is read as its head and then its elements. */
  lemma PairTail(a: Bytes, b: Bytes, rest: Bytes)
    ensures var s := (EncArrayHead(2) + (a + b)) + rest;
            DecArrayHead(s) == Ok(2, a + (b + rest)) && TypeOf(s) == Array
  {
    Assoc(EncArrayHead(2), a + b, rest);
    Assoc(a, b, rest);
    ArrayHeadRoundTrip(2, a + (b + rest));
  }

  lemma IntPairRoundTrip(x: CborInt, y: CborInt, rest: Bytes)
    ensures DecIntPair((EncArrayHead(2) + (EncInt(x) + EncInt(y))) + rest) == Ok((x, y), rest)
  {
    PairTail(EncInt(x), EncInt(y), rest);
    IntRoundTrip(x, EncInt(y) + rest);
    IntRoundTrip(y, rest);
  }

  lemma DeltasResolve(previous: int, min: int, max: int, s: Bytes, rest: Bytes)
    requires -TWO_64 <= min - previous < TWO_64 && -TWO_64 <= max - min < TWO_64
    requires DecIntPair(s) == Ok((min - previous, max - min), rest)
    ensures DecDeltaPair(previous, s) == Ok((min, max), rest)
  {
    assert previous + (min - previous) == min;
  }

  lemma DeltaPairRoundTrip(previous: int, min: int, max: int, rest: Bytes)
    requires -TWO_64 <= min - previous < TWO_64 && -TWO_64 <= max - min < TWO_64
    ensures EncDeltaPair(previous, min, max).Some? && EncDeltaPair(previous, min, max).value.1 == max
    ensures var b := EncDeltaPair(previous, min, max).value.0;
            DecDeltaPair(previous, b + rest) == Ok((min, max), rest) && TypeOf(b + rest) == Array
  {
    hide EncInt, EncArrayHead, DecArrayHead, DecIntPair, DecDeltaPair, TypeOf;
    var b := EncDeltaPair(previous, min, max).value.0;
    PairTail(EncInt(min - previous), EncInt(max - min), rest);
    IntPairRoundTrip(min - previous, max - min, rest);
    DeltasResolve(previous, min, max, b + rest, rest);
  }

  lemma DeltaPairIsItem(previous: int, s: Bytes)
    requires DecDeltaPair(previous, s).Ok?
    ensures var p := DecDeltaPair(previous, s);
            && SkipItems(1, s) == Some(p.rest)
            && -TWO_64 * (|s| - |p.rest|) <= p.value.1 - previous <= TWO_64 * (|s| - |p.rest|)
  {
    var r := DecArrayHead(s).rest;
    ArrayIsItem(s);
    IntIsItem(r);
    IntIsItem(DecInt(r).rest);
    ItemsThenItems(1, 1, r);
  }

  lemma UnusedBitsBound(net: IpNet)
    ensures PrefixToFramed(net).1 <= 7
  {
  }

  lemma IntPrefixRoundTrip(afi: u16, net: IpNet, p: int, rest: Bytes)
    requires OfFamily(afi, net.addr) && FitsIntForm(Resolve(Prefix(net))) && 0 <= p < FRAMED_LIMIT
    ensures EncIntEntry(Prefix(net), p).Some?
    ensures var (b, q) := EncIntEntry(Prefix(net), p).value;
            DecIntEntry(afi, p, b + rest) == Ok((Prefix(Network(net)), q), rest)
  {
    hide EncInt, DecInt, TypeOf, BuildPrefix, BigEndian;
    var (bytes, unusedBits) := PrefixToFramed(net);
    PrefixRoundTrip(afi, net);
    AbsoluteRoundTrip(bytes, unusedBits);
    var abs: int := AbsoluteFromFramed(bytes, unusedBits).value;
    IntRoundTrip(abs - p, rest);
    assert p + (abs - p) == abs;
  }

  lemma IntRangeRoundTrip(afi: u16, min: IpAddr, max: IpAddr, p: int, rest: Bytes)
    requires OfFamily(afi, min) && OfFamily(afi, max) && FitsIntForm(Resolve(Range(min, max))) && 0 <= p < FRAMED_LIMIT
    ensures EncIntEntry(Range(min, max), p).Some?
    ensures var (b, q) := EncIntEntry(Range(min, max), p).value;
            DecIntEntry(afi, p, b + rest) == Ok((Range(min, max), q), rest)
  {
    hide EncDeltaPair, DecDeltaPair, TypeOf, BuildAddr, BigEndian;
    var minBytes, maxBytes := Trimmed(min.octets, 0x00), Trimmed(max.octets, 0xFF);
    AddrRoundTrip(afi, min, 0x00);
    AddrRoundTrip(afi, max, 0xFF);
    AbsoluteRoundTrip(minBytes, 0);
    AbsoluteRoundTrip(maxBytes, 0);
    DeltaPairRoundTrip(p, AbsoluteFromFramed(minBytes, 0).value, AbsoluteFromFramed(maxBytes, 0).value, rest);
  }

  /** An entry that fits the int form is read back as its network form, and both chains move to the same state. */
  lemma IntEntryRoundTrip(afi: u16, entry: IpAddressOrRange, p: int, rest: Bytes)
    requires EntryTyped(afi, entry) && FitsIntForm(Resolve(entry)) && 0 <= p < FRAMED_LIMIT
    ensures EncIntEntry(entry, p).Some? && 0 <= EncIntEntry(entry, p).value.1 < FRAMED_LIMIT
    ensures var (b, q) := EncIntEntry(entry, p).value;
            DecIntEntry(afi, p, b + rest) == Ok((EntryNetwork(entry), q), rest)
  {
    IntEntryIsWritable(entry, p);
    match entry
    case Prefix(net) => IntPrefixRoundTrip(afi, net, p, rest);
    case Range(min, max) => IntRangeRoundTrip(afi, min, max, p, rest);
  }

  /** The error branches of the int form are never taken, whatever family the entry is put in. */
  lemma IntEntryIsWritable(entry: IpAddressOrRange, p: int)
    requires FitsIntForm(Resolve(entry)) && 0 <= p < FRAMED_LIMIT
    ensures EncIntEntry(entry, p).Some? && 1 <= EncIntEntry(entry, p).value.1 < FRAMED_LIMIT
  {
    match Resolve(entry)
    case ResolvedPrefix(bytes, unusedBits) =>
      UnusedBitsBound(entry.net);
      AbsoluteRoundTrip(bytes, unusedBits);
    case ResolvedRange(minBytes, maxBytes) =>
      AbsoluteRoundTrip(minBytes, 0);
      AbsoluteRoundTrip(maxBytes, 0);
  }

  lemma IntEntryInStep(afi: u16, entry: IpAddressOrRange)
    requires EntryTyped(afi, entry) && FitsIntForm(Resolve(entry))
    ensures InStep(EncIntEntry, IntEntryDecoder(afi), entry, EntryNetwork(entry), 0, FRAMED_LIMIT - 1)
  {
    forall p: int | 0 <= p < FRAMED_LIMIT
      ensures EncIntEntry(entry, p).Some? && 0 <= EncIntEntry(entry, p).value.1 < FRAMED_LIMIT
      ensures var (b, q) := EncIntEntry(entry, p).value;
              StepReadsBack(IntEntryDecoder(afi), p, b, EntryNetwork(entry), q)
    {
      IntEntryIsWritable(entry, p);
      var (b, q) := EncIntEntry(entry, p).value;
      forall t: Bytes
        ensures DecIntEntry(afi, p, b + t) == Ok((EntryNetwork(entry), q), t)
      {
        IntEntryRoundTrip(afi, entry, p, t);
      }
    }
  }

  lemma RawBoundRoundTrip(afi: u16, a: IpAddr, fill: byte, rest: Bytes)
    requires OfFamily(afi, a)
    ensures DecRawBound(afi, fill, EncBytes([0] + Trimmed(a.octets, fill)) + rest) == Ok(a, rest)
  {
    var raw := [0] + Trimmed(a.octets, fill);
    BytesRoundTrip(raw, rest);
    AddrRoundTrip(afi, a, fill);
    assert raw[1..] == Trimmed(a.octets, fill);
  }

  lemma RawEntryRoundTrip(afi: u16, entry: IpAddressOrRange, rest: Bytes)
    requires EntryTyped(afi, entry)
    ensures DecRawEntry(afi, EncRawEntry(entry) + rest) == Ok(EntryNetwork(entry), rest)
  {
    hide EncBytes, DecBytes, BuildPrefix;
    match Resolve(entry)
    case ResolvedPrefix(bytes, unusedBits) =>
      var raw := [unusedBits] + bytes;
      BytesRoundTrip(raw, rest);
      PrefixRoundTrip(afi, entry.net);
      assert raw[1..] == bytes;
    case ResolvedRange(minBytes, maxBytes) =>
      var a, b := EncBytes([0] + minBytes), EncBytes([0] + maxBytes);
      PairTail(a, b, rest);
      RawBoundRoundTrip(afi, entry.min, 0x00, b + rest);
      RawBoundRoundTrip(afi, entry.max, 0xFF, rest);
  }

  lemma RawEntryReadsBack(afi: u16, entry: IpAddressOrRange)
    requires EntryTyped(afi, entry)
    ensures ReadsBack(RawEntryDecoder(afi), EncRawEntry(entry), EntryNetwork(entry))
  {
    forall t: Bytes
      ensures DecRawEntry(afi, EncRawEntry(entry) + t) == Ok(EntryNetwork(entry), t)
    {
      RawEntryRoundTrip(afi, entry, t);
    }
  }

  // ---- The form of a family ------------------------------------------------------------

  lemma EntriesAreWritable(entries: seq<IpAddressOrRange>)
    ensures EncEntries(entries).Some?
  {
    if UsesIntForm(entries) {
      forall i | 0 <= i < |entries|
        ensures Writable(EncIntEntry, entries[i], 0, FRAMED_LIMIT - 1)
      {
        forall p: int | 0 <= p < FRAMED_LIMIT
          ensures EncIntEntry(entries[i], p).Some? && 0 <= EncIntEntry(entries[i], p).value.1 < FRAMED_LIMIT
        {
          IntEntryIsWritable(entries[i], p);
        }
      }
      ChainIsWritable(entries, EncIntEntry, 0, FRAMED_LIMIT - 1, 0);
    }
  }

  /** The type of an item's first byte, and of its first element's when it is an array. */
  lemma ProbeSeesEntry(s: Bytes, r: Bytes)
    requires TypeOf(s) == Array ==> DecArrayHead(s).Ok? && DecArrayHead(s).rest == r && r != []
    requires TypeOf(s) in {Numeric, ByteString, Array}
    ensures ProbeIntForm(s) == Some(TypeOf(if TypeOf(s).Array? then r else s).Numeric?)
  {
  }

  /** The form guessed from the first entry is the form the encoder chose from all of them. */
  lemma FormAgrees(entries: seq<IpAddressOrRange>, rest: Bytes)
    requires entries != []
    ensures EncEntries(entries).Some?
    ensures ProbeIntForm(EncEntries(entries).value + rest) == Some(UsesIntForm(entries))
  {
    EntriesAreWritable(entries);
    var first := entries[0];
    if UsesIntForm(entries) {
      assert first in entries;
      IntEntryIsWritable(first, 0);
      var (a, q) := EncIntEntry(first, 0).value;
      var tail := EncChain(entries[1..], EncIntEntry, q).value + rest;
      Assoc(a, EncChain(entries[1..], EncIntEntry, q).value, rest);
      IntFormShows(first, tail);
    } else {
      var tail := ConcatMap(entries[1..], EncRawEntry) + rest;
      Assoc(EncRawEntry(first), ConcatMap(entries[1..], EncRawEntry), rest);
      RawFormShows(first, tail);
    }
  }

  lemma IntFormShows(entry: IpAddressOrRange, rest: Bytes)
    requires EncIntEntry(entry, 0).Some?
    ensures ProbeIntForm(EncIntEntry(entry, 0).value.0 + rest) == Some(true)
  {
    match Resolve(entry)
    case ResolvedPrefix(bytes, unusedBits) =>
      IntRoundTrip(AbsoluteFromFramed(bytes, unusedBits).value, rest);
      ProbeSeesEntry(EncIntEntry(entry, 0).value.0 + rest, []);
    case ResolvedRange(minBytes, maxBytes) =>
      var min: int, max: int := AbsoluteFromFramed(minBytes, 0).value, AbsoluteFromFramed(maxBytes, 0).value;
      var a, b := EncInt(min), EncInt(max - min);
      PairTail(a, b, rest);
      IntRoundTrip(min, b + rest);
      ProbeSeesEntry(EncIntEntry(entry, 0).value.0 + rest, a + (b + rest));
  }

  lemma RawFormShows(entry: IpAddressOrRange, rest: Bytes)
    ensures ProbeIntForm(EncRawEntry(entry) + rest) == Some(false)
  {
    match Resolve(entry)
    case ResolvedPrefix(bytes, unusedBits) =>
      BytesRoundTrip([unusedBits] + bytes, rest);
      ProbeSeesEntry(EncRawEntry(entry) + rest, []);
    case ResolvedRange(minBytes, maxBytes) =>
      var a, b := EncBytes([0] + minBytes), EncBytes([0] + maxBytes);
      PairTail(a, b, rest);
      BytesRoundTrip([0] + minBytes, b + rest);
      ProbeSeesEntry(EncRawEntry(entry) + rest, a + (b + rest));
  }

  // ---- Families, both ways ---------------------------------------------------------------

  lemma EntriesRoundTrip(afi: u16, entries: seq<IpAddressOrRange>, rest: Bytes)
    requires forall entry :: entry in entries ==> EntryTyped(afi, entry)
    ensures EncEntries(entries).Some?
    ensures DecEntries(UsesIntForm(entries), afi, |entries|, EncEntries(entries).value + rest)
         == Ok(Mapped(EntryNetwork, entries), rest)
  {
    var networks := Mapped(EntryNetwork, entries);
    if UsesIntForm(entries) {
      forall i | 0 <= i < |entries|
        ensures InStep(EncIntEntry, IntEntryDecoder(afi), entries[i], networks[i], 0, FRAMED_LIMIT - 1)
      {
        IntEntryInStep(afi, entries[i]);
      }
      ChainRoundTrip(entries, networks, EncIntEntry, IntEntryDecoder(afi), 0, FRAMED_LIMIT - 1, 0, rest);
    } else {
      forall i | 0 <= i < |entries|
        ensures ReadsBack(RawEntryDecoder(afi), EncRawEntry(entries[i]), networks[i])
      {
        RawEntryReadsBack(afi, entries[i]);
      }
      ManyReadsBackAs(entries, networks, EncRawEntry, RawEntryDecoder(afi), rest);
    }
  }

  lemma ChoiceRoundTrip(afi: u16, choice: IpAddressChoice, rest: Bytes)
    requires choice.Prefixes? ==> forall entry :: entry in choice.entries ==> EntryTyped(afi, entry)
    ensures EncChoice(choice).Some?
    ensures DecChoice(afi, EncChoice(choice).value + rest) ==
            Ok(if choice.Inherit? then choice else Prefixes(Mapped(EntryNetwork, choice.entries)), rest)
  {
    match choice
    case Inherit =>
      NullRoundTrip(rest);
    case Prefixes(entries) =>
      EntriesAreWritable(entries);
      var body := EncEntries(entries).value;
      Assoc(EncArrayHead(|entries|), body, rest);
      ArrayHeadRoundTrip(|entries|, body + rest);
      if entries == [] {
        NothingBefore(rest);
        assert Mapped(EntryNetwork, entries) == [];
      } else {
        FormAgrees(entries, rest);
        EntriesRoundTrip(afi, entries, rest);
      }
  }

  lemma SafiRoundTrip(safi: Option<u16>, rest: Bytes)
    ensures DecSafi(EncSafi(safi) + rest) == Ok(safi, rest)
  {
    if safi.Some? {
      UnsignedRoundTrip(safi.value, rest);
    } else {
      NullRoundTrip(rest);
    }
  }

  lemma FamilyRoundTrip(f: IpAddressFamily, rest: Bytes)
    requires FamilyTyped(f)
    ensures EncFamily(f).Some?
    ensures DecFamily(EncFamily(f).value + rest) == Ok(FamilyNetwork(f), rest)
  {
    ChoiceRoundTrip(f.afi, f.choice, rest);
    var a, b, c := EncInt(f.afi), EncSafi(f.safi), EncChoice(f.choice).value;
    Assoc(a, b + c, rest);
    Assoc(b, c, rest);
    UnsignedRoundTrip(f.afi, b + (c + rest));
    SafiRoundTrip(f.safi, c + rest);
  }

  lemma FamilyIsWritable(f: IpAddressFamily)
    ensures EncFamily(f).Some?
  {
    if f.choice.Prefixes? {
      EntriesAreWritable(f.choice.entries);
    }
  }

  /** Encoding families never fails, well-typed or not. */
  lemma FamiliesAreWritable(families: TripleVec<IpAddressFamily>)
    ensures EncFamilies(families).Some?
  {
    forall i | 0 <= i < |families|
      ensures EncFamily(families[i]).Some?
    {
      FamilyIsWritable(families[i]);
    }
    TryConcatMapSucceeds(families, EncFamily);
  }

  lemma FamilyReadsBack(f: IpAddressFamily)
    requires FamilyTyped(f)
    ensures EncFamily(f).Some? && ReadsBack(DecFamily, EncFamily(f).value, FamilyNetwork(f))
  {
    FamilyIsWritable(f);
    forall t: Bytes
      ensures DecFamily(EncFamily(f).value + t) == Ok(FamilyNetwork(f), t)
    {
      FamilyRoundTrip(f, t);
    }
  }

  /** Well-typed families are read back with the host bits of their prefixes cleared, and the tail is left alone. */
  lemma FamiliesRoundTrip(families: TripleVec<IpAddressFamily>, rest: Bytes)
    requires FamiliesTyped(families)
    ensures EncFamilies(families).Some?
    ensures DecFamilies(EncFamilies(families).value + rest) == Ok(FamiliesNetwork(families), rest)
    ensures TypeOf(EncFamilies(families).value + rest) == Array
  {
    FamiliesAreWritable(families);
    var networks := FamiliesNetwork(families);
    forall i | 0 <= i < |families| && EncFamily(families[i]).Some?
      ensures ReadsBack(DecFamily, EncFamily(families[i]).value, networks[i])
    {
      FamilyReadsBack(families[i]);
    }
    TryArrayOfRoundTrip(3, EncFamily, DecFamily, families, networks, rest);
  }

  // ---- What the decoder accepts ----------------------------------------------------------

  lemma IntEntryIsItem(afi: u16, p: int, s: Bytes)
    requires DecIntEntry(afi, p, s).Ok?
    ensures var step := DecIntEntry(afi, p, s);
            && SkipItems(1, s) == Some(step.rest)
            && -TWO_64 * (|s| - |step.rest|) <= step.value.1 - p <= TWO_64 * (|s| - |step.rest|)
            && EntryTyped(afi, step.value.0)
  {
    if IsArray(TypeOf(s)) {
      DeltaPairIsItem(p, s);
    } else {
      IntIsItem(s);
    }
  }

  lemma IntEntriesAreItems(afi: u16)
    ensures StepIsItem(IntEntryDecoder(afi))
    ensures StepYields(IntEntryDecoder(afi), entry => EntryTyped(afi, entry))
  {
    forall p: int, s: Bytes | DecIntEntry(afi, p, s).Ok?
      ensures var step := DecIntEntry(afi, p, s);
              && SkipItems(1, s) == Some(step.rest)
              && -TWO_64 * (|s| - |step.rest|) <= step.value.1 - p <= TWO_64 * (|s| - |step.rest|)
              && EntryTyped(afi, step.value.0)
    {
      IntEntryIsItem(afi, p, s);
    }
  }

  lemma RawEntryIsItem(afi: u16, s: Bytes)
    requires DecRawEntry(afi, s).Ok?
    ensures SkipItems(1, s) == Some(DecRawEntry(afi, s).rest)
    ensures EntryTyped(afi, DecRawEntry(afi, s).value)
  {
    if IsArray(TypeOf(s)) {
      var r := DecArrayHead(s).rest;
      ArrayIsItem(s);
      StringIsItem(BYTE_STRING, r);
      StringIsItem(BYTE_STRING, DecBytes(r).rest);
      ItemsThenItems(1, 1, r);
    } else {
      StringIsItem(BYTE_STRING, s);
    }
  }

  lemma EntriesAreItems(intForm: bool, afi: u16, n: nat, s: Bytes)
    requires DecEntries(intForm, afi, n, s).Ok?
    ensures SkipItems(n, s) == Some(DecEntries(intForm, afi, n, s).rest)
    ensures forall entry :: entry in DecEntries(intForm, afi, n, s).value ==> EntryTyped(afi, entry)
  {
    var typed := entry => EntryTyped(afi, entry);
    if intForm {
      IntEntriesAreItems(afi);
      ChainIsItems(n, IntEntryDecoder(afi), 0, s);
      ChainYields(n, IntEntryDecoder(afi), typed, 0, s);
    } else {
      forall t: Bytes | DecRawEntry(afi, t).Ok?
        ensures SkipItems(1, t) == Some(DecRawEntry(afi, t).rest) && EntryTyped(afi, DecRawEntry(afi, t).value)
      {
        RawEntryIsItem(afi, t);
      }
      ManyIsItems(n, 1, RawEntryDecoder(afi), s);
      ManyYields(n, RawEntryDecoder(afi), typed, s);
    }
    assert forall entry :: typed(entry) ==> EntryTyped(afi, entry);
  }

  lemma ChoiceIsItem(afi: u16, s: Bytes)
    requires DecChoice(afi, s).Ok?
    ensures SkipItems(1, s) == Some(DecChoice(afi, s).rest)
    ensures FamilyTyped(Family(afi, None, DecChoice(afi, s).value))
  {
    if TypeOf(s).Null? {
      NullIsItem(s);
    } else {
      ArrayIsItem(s);
      var head := DecArrayHead(s);
      if head.value > 0 {
        EntriesAreItems(ProbeIntForm(head.rest).value, afi, head.value, head.rest);
      }
    }
  }

  lemma FamilyIsItems(s: Bytes)
    requires DecFamily(s).Ok?
    ensures SkipItems(3, s) == Some(DecFamily(s).rest) && FamilyTyped(DecFamily(s).value)
  {
    var r := DecU16(s).rest;
    IntIsItem(s);
    if TypeOf(r).Null? {
      NullIsItem(r);
    } else {
      IntIsItem(r);
    }
    ChoiceIsItem(DecU16(s).value, DecSafi(r).rest);
    ItemsThenItems(1, 1, r);
    ItemsThenItems(1, 2, s);
  }

  /** Whatever the decoder accepts is one well-formed item and holds addresses of their own families. */
  lemma FamiliesAreItem(s: Bytes)
    requires DecFamilies(s).Ok?
    ensures SkipItems(1, s) == Some(DecFamilies(s).rest) && FamiliesTyped(DecFamilies(s).value)
  {
    forall t: Bytes | DecFamily(t).Ok?
      ensures SkipItems(3, t) == Some(DecFamily(t).rest) && FamilyTyped(DecFamily(t).value)
    {
      FamilyIsItems(t);
    }
    ArrayOfIsItem(3, DecFamily, s);
    ArrayOfYields(3, DecFamily, FamilyTyped, s);
  }

  /** Each sum is within 2^64 times the bytes at hand: a delta takes at least one byte. */
  lemma EntrySumsBounded(previous: int, s: Bytes)
    ensures forall v :: v in EntrySums(previous, s) ==> -TWO_64 * |s| <= v - previous <= TWO_64 * |s|
  {
    hide TypeOf, DecInt, DecArrayHead;
    if IsArray(TypeOf(s)) && DecArrayHead(s).Ok? {
      TakesAByte(s);
      TakesAByte(DecArrayHead(s).rest);
    }
    TakesAByte(s);
  }

  lemma TakesAByte(s: Bytes)
    ensures DecArrayHead(s).Ok? ==> |DecArrayHead(s).rest| < |s|
    ensures DecInt(s).Ok? ==> |DecInt(s).rest| < |s|
  {
  }

  /** The sums are those of the decoders: the last one is the state an accepted entry leaves. */
  lemma EntrySumsReachState(afi: u16, previous: int, s: Bytes)
    ensures var sums := EntrySums(previous, s);
            && (DecIntEntry(afi, previous, s).Ok? ==> sums != [] && sums[|sums| - 1] == DecIntEntry(afi, previous, s).value.1)
            && (DecAsEntry(previous, s).Ok? ==> sums != [] && sums[|sums| - 1] == DecAsEntry(previous, s).value.1)
  {
    hide TypeOf, DecArrayHead, DecInt, FramedFromAbsolute, BuildAddr, BuildPrefix;
  }

  /** The sums of an entry, one by one: the value of a prefix or id, or the minimum and the maximum of a range. */
  lemma EntrySumsAre(previous: int, s: Bytes)
    ensures !IsArray(TypeOf(s)) ==>
              EntrySums(previous, s) == if DecInt(s).Ok? then [previous + DecInt(s).value] else []
    ensures IsArray(TypeOf(s)) && DecDeltaPair(previous, s).Ok? ==>
              EntrySums(previous, s) == [DecDeltaPair(previous, s).value.0, DecDeltaPair(previous, s).value.1]
  {
    hide TypeOf, DecArrayHead, DecInt;
  }

  lemma {:induction false} ChainSumsBounded<T>(n: nat, dec: DecStep<T>, previous: int, s: Bytes)
    requires StepIsItem(dec)
    ensures forall v :: v in ChainSums(n, dec, previous, s) ==> -TWO_64 * |s| <= v - previous <= TWO_64 * |s|
  {
    hide EntrySums;
    if n > 0 {
      EntrySumsBounded(previous, s);
      var step := dec(previous, s);
      if step.Ok? {
        ChainSumsBounded(n - 1, dec, step.value.1, step.rest);
      }
    }
  }

  /**
    The accumulator of the int form, kept in 128 bits by the original, never overflows: an input of at most
    2^63 - 1 bytes holds every sum within 2^127 - 2^64, also where nothing checks it afterwards.
    */
  lemma AccumulatorFits(afi: u16, n: nat, s: Bytes)
    requires |s| < 0x8000_0000_0000_0000
    ensures forall v :: v in ChainSums(n, IntEntryDecoder(afi), 0, s) ==> -TWO_127 + TWO_64 <= v <= TWO_127 - TWO_64
  {
    IntEntriesAreItems(afi);
    ChainSumsBounded(n, IntEntryDecoder(afi), 0, s);
  }

  /** The capacity reserved for a family's entries is their number, whenever they are accepted. */
  lemma EntriesCapacityIsExact(intForm: bool, afi: u16, n: u64, s: Bytes)
    requires DecEntries(intForm, afi, n, s).Ok?
    ensures BoundedCapacity(|s|, n) == n
  {
    EntriesAreItems(intForm, afi, n, s);
  }

  /** So is the capacity reserved for the families themselves. */
  lemma FamiliesCapacityIsExact(n: u64, s: Bytes)
    requires DecMany(n, DecFamily, s).Ok?
    ensures BoundedCapacity(|s|, n) == n
  {
    forall t: Bytes | DecFamily(t).Ok?
      ensures SkipItems(3, t) == Some(DecFamily(t).rest)
    {
      FamilyIsItems(t);
    }
    CapacityIsExact(n, 3, DecFamily, s);
  }

  // ---- The network form ----------------------------------------------------------------

  /** Clearing host bits changes neither the addresses an entry covers nor how it is written. */
  lemma EntryNetworkKeepsMeaning(entry: IpAddressOrRange, a: IpAddr)
    ensures EntryCovers(EntryNetwork(entry), a) <==> EntryCovers(entry, a)
    ensures Resolve(EntryNetwork(entry)) == Resolve(entry)
  {
    if entry.Prefix? {
      NetworkKeepsMeaning(entry.net, a);
    }
  }

  lemma EntryReencodes(entry: IpAddressOrRange, p: int)
    ensures EncIntEntry(EntryNetwork(entry), p) == EncIntEntry(entry, p)
    ensures EncRawEntry(EntryNetwork(entry)) == EncRawEntry(entry)
    ensures FitsIntForm(Resolve(EntryNetwork(entry))) == FitsIntForm(Resolve(entry))
  {
    EntryNetworkKeepsMeaning(entry, V4([0, 0, 0, 0]));
  }

  lemma NetworkKeepsForm(entries: seq<IpAddressOrRange>)
    ensures UsesIntForm(Mapped(EntryNetwork, entries)) == UsesIntForm(entries)
  {
    var networks := Mapped(EntryNetwork, entries);
    forall i | 0 <= i < |entries|
      ensures FitsIntForm(Resolve(networks[i])) == FitsIntForm(Resolve(entries[i]))
      ensures networks[i] in networks && entries[i] in entries
    {
      EntryReencodes(entries[i], 0);
    }
  }

  lemma IntEntriesReencode(entries: seq<IpAddressOrRange>)
    ensures EncChain(Mapped(EntryNetwork, entries), EncIntEntry, 0) == EncChain(entries, EncIntEntry, 0)
  {
    var networks := Mapped(EntryNetwork, entries);
    forall i, p: int | 0 <= i < |entries|
      ensures EncIntEntry(networks[i], p) == EncIntEntry(entries[i], p)
    {
      EntryReencodes(entries[i], p);
    }
    ChainAgrees(networks, entries, EncIntEntry, 0);
  }

  lemma RawEntriesReencode(entries: seq<IpAddressOrRange>)
    ensures ConcatMap(Mapped(EntryNetwork, entries), EncRawEntry) == ConcatMap(entries, EncRawEntry)
  {
    var networks := Mapped(EntryNetwork, entries);
    forall i | 0 <= i < |entries|
      ensures EncRawEntry(networks[i]) == EncRawEntry(entries[i])
    {
      EntryReencodes(entries[i], 0);
    }
    ConcatMapAgrees(networks, entries, EncRawEntry);
  }

  lemma EntriesNetworkReencodes(entries: seq<IpAddressOrRange>)
    ensures EncEntries(Mapped(EntryNetwork, entries)) == EncEntries(entries)
  {
    NetworkKeepsForm(entries);
    IntEntriesReencode(entries);
    RawEntriesReencode(entries);
  }

  /** The network form of a list is written with the very same bytes as the list. */
  lemma NetworkReencodes(families: TripleVec<IpAddressFamily>)
    ensures EncFamilies(FamiliesNetwork(families)) == EncFamilies(families)
  {
    var networks := FamiliesNetwork(families);
    forall i | 0 <= i < |families|
      ensures EncFamily(networks[i]) == EncFamily(families[i])
    {
      if families[i].choice.Prefixes? {
        EntriesNetworkReencodes(families[i].choice.entries);
      }
    }
    TryConcatMapAgrees(networks, families, EncFamily);
  }

  lemma NetworkIsTyped(families: TripleVec<IpAddressFamily>)
    ensures FamiliesTyped(FamiliesNetwork(families)) <==> FamiliesTyped(families)
  {
    var networks := FamiliesNetwork(families);
    forall i | 0 <= i < |families|
      ensures FamilyTyped(networks[i]) <==> FamilyTyped(families[i])
    {
      if families[i].choice.Prefixes? {
        var es, ns := families[i].choice.entries, networks[i].choice.entries;
        assert forall k :: 0 <= k < |es| ==> (EntryTyped(families[i].afi, ns[k]) <==> EntryTyped(families[i].afi, es[k]));
        assert forall k :: 0 <= k < |es| ==> ns[k] in ns && es[k] in es;
      }
    }
    assert forall i :: 0 <= i < |families| ==> networks[i] in networks && families[i] in families;
  }

  lemma EntriesNetworkFixesExactly(entries: seq<IpAddressOrRange>)
    ensures Mapped(EntryNetwork, entries) == entries
       <==> forall entry :: entry in entries && entry.Prefix? ==> HostBitsClear(entry.net)
  {
    var networks := Mapped(EntryNetwork, entries);
    forall i | 0 <= i < |entries|
      ensures networks[i] == entries[i] <==> (entries[i].Prefix? ==> HostBitsClear(entries[i].net))
      ensures entries[i] in entries
    {
      if entries[i].Prefix? {
        NetworkFixesExactly(entries[i].net);
      }
    }
    assert networks == entries <==> forall i :: 0 <= i < |entries| ==> networks[i] == entries[i];
  }

  /** A list is its own network form exactly when no prefix in it has a host bit set. */
  lemma FamiliesNetworkFixesExactly(families: TripleVec<IpAddressFamily>)
    ensures FamiliesNetwork(families) == families <==> FamiliesCanonical(families)
  {
    var networks := FamiliesNetwork(families);
    forall i | 0 <= i < |families|
      ensures networks[i] == families[i] <==> FamiliesCanonical([families[i]])
    {
      assert families[i] in [families[i]];
      if families[i].choice.Prefixes? {
        EntriesNetworkFixesExactly(families[i].choice.entries);
      }
    }
    assert networks == families <==> forall i :: 0 <= i < |families| ==> networks[i] == families[i];
    assert forall i :: 0 <= i < |families| ==> families[i] in families && families[i] in [families[i]];
  }

  /** A list is read back unchanged exactly when every address is of its family and no prefix has a host bit set. */
  lemma FamiliesRoundTripExactly(families: TripleVec<IpAddressFamily>, rest: Bytes)
    ensures EncFamilies(families).Some?
    ensures DecFamilies(EncFamilies(families).value + rest) == Ok(families, rest)
       <==> FamiliesTyped(families) && FamiliesCanonical(families)
  {
    FamiliesAreWritable(families);
    FamiliesNetworkFixesExactly(families);
    var s := EncFamilies(families).value + rest;
    if FamiliesTyped(families) {
      FamiliesRoundTrip(families, rest);
    } else if DecFamilies(s).Ok? {
      FamiliesAreItem(s);
    }
  }

  /** Anything accepted can be encoded again; decoding that gives its network form, whatever form the input was in. */
  lemma AcceptedFamiliesReencode(s: Bytes, rest: Bytes)
    requires DecFamilies(s).Ok?
    ensures var families := DecFamilies(s).value;
            && EncFamilies(families).Some?
            && DecFamilies(EncFamilies(families).value + rest) == Ok(FamiliesNetwork(families), rest)
  {
    FamiliesAreItem(s);
    FamiliesRoundTrip(DecFamilies(s).value, rest);
  }

  /** Entry by entry, what is read back covers exactly the addresses the original covered. */
  lemma DecodedEntriesCoverTheSame(families: TripleVec<IpAddressFamily>, rest: Bytes, i: nat, k: nat, a: IpAddr)
    requires FamiliesTyped(families) && i < |families|
    requires families[i].choice.Prefixes? && k < |families[i].choice.entries|
    ensures EncFamilies(families).Some? && DecFamilies(EncFamilies(families).value + rest).Ok?
    ensures var back := DecFamilies(EncFamilies(families).value + rest).value;
            && |back| == |families| && back[i].afi == families[i].afi && back[i].safi == families[i].safi
            && back[i].choice.Prefixes? && |back[i].choice.entries| == |families[i].choice.entries|
            && (EntryCovers(back[i].choice.entries[k], a) <==> EntryCovers(families[i].choice.entries[k], a))
  {
    hide EncFamilies, DecFamilies, EntryCovers;
    FamiliesRoundTrip(families, rest);
    EntryNetworkKeepsMeaning(families[i].choice.entries[k], a);
  }

  // ---- AS identifiers ----------------------------------------------------------------------

  lemma AsEntryRoundTrip(entry: AsIdOrRange, p: int, rest: Bytes)
    requires 0 <= p < TWO_64
    ensures EncAsEntry(entry, p).Some? && 0 <= EncAsEntry(entry, p).value.1 < TWO_64
    ensures var (b, q) := EncAsEntry(entry, p).value;
            DecAsEntry(p, b + rest) == Ok((entry, q), rest)
  {
    match entry
    case AsId(id) =>
      IntRoundTrip(id - p, rest);
    case AsRange(min, max) =>
      DeltaPairRoundTrip(p, min, max, rest);
  }

  lemma AsEntryInStep(entry: AsIdOrRange)
    ensures InStep(EncAsEntry, DecAsEntry, entry, entry, 0, TWO_64 - 1)
  {
    forall p: int | 0 <= p < TWO_64
      ensures EncAsEntry(entry, p).Some? && 0 <= EncAsEntry(entry, p).value.1 < TWO_64
      ensures var (b, q) := EncAsEntry(entry, p).value;
              StepReadsBack(DecAsEntry, p, b, entry, q)
    {
      AsEntryRoundTrip(entry, p, []);
      var (b, q) := EncAsEntry(entry, p).value;
      forall t: Bytes
        ensures DecAsEntry(p, b + t) == Ok((entry, q), t)
      {
        AsEntryRoundTrip(entry, p, t);
      }
    }
  }

  /** Every list of AS ids and ranges over the whole 64-bit range, in any order, can be encoded and is read back. */
  lemma AsIdentifiersRoundTrip(value: Option<Vec<AsIdOrRange>>, rest: Bytes)
    ensures EncAsIdentifiers(value).Some?
    ensures DecAsIdentifiers(EncAsIdentifiers(value).value + rest) == Ok(value, rest)
  {
    match value
    case None =>
      NullRoundTrip(rest);
    case Some(ids) =>
      forall i | 0 <= i < |ids|
        ensures InStep(EncAsEntry, DecAsEntry, ids[i], ids[i], 0, TWO_64 - 1)
      {
        AsEntryInStep(ids[i]);
      }
      ChainRoundTrip(ids, ids, EncAsEntry, DecAsEntry, 0, TWO_64 - 1, 0, rest);
      var body := EncChain(ids, EncAsEntry, 0).value;
      Assoc(EncArrayHead(|ids|), body, rest);
      ArrayHeadRoundTrip(|ids|, body + rest);
  }

  lemma AsEntriesAreItems()
    ensures StepIsItem(DecAsEntry)
  {
    forall p: int, s: Bytes | DecAsEntry(p, s).Ok?
      ensures var step := DecAsEntry(p, s);
              && SkipItems(1, s) == Some(step.rest)
              && -TWO_64 * (|s| - |step.rest|) <= step.value.1 - p <= TWO_64 * (|s| - |step.rest|)
    {
      if IsArray(TypeOf(s)) {
        DeltaPairIsItem(p, s);
      } else {
        IntIsItem(s);
      }
    }
  }

  lemma AsIdentifiersAreItem(s: Bytes)
    requires DecAsIdentifiers(s).Ok?
    ensures SkipItems(1, s) == Some(DecAsIdentifiers(s).rest)
  {
    if TypeOf(s).Null? {
      NullIsItem(s);
    } else {
      ArrayIsItem(s);
      var head := DecArrayHead(s);
      AsEntriesAreItems();
      ChainIsItems(head.value, DecAsEntry, 0, head.rest);
    }
  }

  /** The accumulator of AS identifiers does not overflow either, whatever the range check later says. */
  lemma AsAccumulatorFits(n: nat, s: Bytes)
    requires |s| < 0x8000_0000_0000_0000
    ensures forall v :: v in ChainSums(n, DecAsEntry, 0, s) ==> -TWO_127 + TWO_64 <= v <= TWO_127 - TWO_64
  {
    AsEntriesAreItems();
    ChainSumsBounded(n, DecAsEntry, 0, s);
  }

  lemma AsCapacityIsExact(n: u64, s: Bytes)
    requires DecChain(n, DecAsEntry, 0, s).Ok?
    ensures BoundedCapacity(|s|, n) == n
  {
    AsEntriesAreItems();
    ChainIsItems(n, DecAsEntry, 0, s);
  }
}
