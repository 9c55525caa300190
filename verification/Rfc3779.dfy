/**
  The IPAddrBlocks and ASIdentifiers grammar (src/extensions/ip_addr.rs): two delta chains, and the
  byte-string form a family of wide addresses falls back to.
  */
module Rfc3779 {
  import opened Wrappers
  import opened ByteStrings
  import opened RustTypes
  import opened Cbor
  import opened Lists
  import opened Chains
  import opened Addresses

  datatype IpAddressOrRange = Prefix(net: IpNet) | Range(min: IpAddr, max: IpAddr)

  datatype IpAddressChoice = Inherit | Prefixes(entries: Vec<IpAddressOrRange>)

  datatype IpAddressFamily = Family(afi: u16, safi: Option<u16>, choice: IpAddressChoice)

  datatype AsIdOrRange = AsId(id: u64) | AsRange(min: u64, max: u64)

  // ---- Encoding --------------------------------------------------------------------

  /** An entry reduced to significant bytes. */
  datatype ResolvedEntry =
    | ResolvedPrefix(bytes: Bytes, unusedBits: byte)
    | ResolvedRange(minBytes: Bytes, maxBytes: Bytes)

  function Resolve(entry: IpAddressOrRange): ResolvedEntry {
    match entry
    case Prefix(net) =>
      var (bytes, unusedBits) := PrefixToFramed(net);
      ResolvedPrefix(bytes, unusedBits)
    case Range(min, max) =>
      ResolvedRange(Trimmed(min.octets, 0x00), Trimmed(max.octets, 0xFF))
  }

  predicate FitsIntForm(r: ResolvedEntry) {
    match r
    case ResolvedPrefix(bytes, _) => |bytes| < MAX_INT_FORM_BYTES
    case ResolvedRange(minBytes, maxBytes) => |minBytes| < MAX_INT_FORM_BYTES && |maxBytes| < MAX_INT_FORM_BYTES
  }

  predicate UsesIntForm(entries: seq<IpAddressOrRange>) {
    forall entry :: entry in entries ==> FitsIntForm(Resolve(entry))
  }

  function EncDelta(delta: int): Option<Bytes> {
    if -TWO_64 <= delta < TWO_64 then Some(EncInt(delta)) else None
  }

  /** The two deltas of a range. */
  function EncDeltaPair(previous: int, min: int, max: int): Option<(Bytes, int)> {
    var a :- EncDelta(min - previous);
    var b :- EncDelta(max - min);
    Some((EncArrayHead(2) + (a + b), max))
  }

  function EncIntEntry(entry: IpAddressOrRange, previous: int): Option<(Bytes, int)> {
    match Resolve(entry)
    case ResolvedPrefix(bytes, unusedBits) =>
      var abs :- AbsoluteFromFramed(bytes, unusedBits);
      var a :- EncDelta(abs - previous);
      Some((a, abs))
    case ResolvedRange(minBytes, maxBytes) =>
      var min :- AbsoluteFromFramed(minBytes, 0);
      var max :- AbsoluteFromFramed(maxBytes, 0);
      EncDeltaPair(previous, min, max)
  }

  function EncRawEntry(entry: IpAddressOrRange): Bytes {
    match Resolve(entry)
    case ResolvedPrefix(bytes, unusedBits) => EncBytes([unusedBits] + bytes)
    case ResolvedRange(minBytes, maxBytes) => EncArrayHead(2) + (EncBytes([0] + minBytes) + EncBytes([0] + maxBytes))
  }

  /** The whole family takes one form: the int form if every entry fits it. */
  function EncEntries(entries: seq<IpAddressOrRange>): Option<Bytes> {
    if UsesIntForm(entries) then EncChain(entries, EncIntEntry, 0) else Some(ConcatMap(entries, EncRawEntry))
  }

  function EncChoice(choice: IpAddressChoice): Option<Bytes> {
    match choice
    case Inherit => Some([NULL])
    case Prefixes(entries) =>
      var body :- EncEntries(entries);
      Some(EncArrayHead(|entries|) + body)
  }

  function EncSafi(safi: Option<u16>): Bytes {
    if safi.Some? then EncInt(safi.value) else [NULL]
  }

  function EncFamily(f: IpAddressFamily): Option<Bytes> {
    var choice :- EncChoice(f.choice);
    Some(EncInt(f.afi) + (EncSafi(f.safi) + choice))
  }

  function EncFamilies(families: TripleVec<IpAddressFamily>): Option<Bytes> {
    TryEncArrayOf(3, EncFamily, families)
  }

  function EncAsEntry(entry: AsIdOrRange, previous: int): Option<(Bytes, int)> {
    match entry
    case AsId(id) =>
      var a :- EncDelta(id - previous);
      Some((a, id as int))
    case AsRange(min, max) => EncDeltaPair(previous, min, max)
  }

  function EncAsIdentifiers(value: Option<Vec<AsIdOrRange>>): Option<Bytes> {
    match value
    case None => Some([NULL])
    case Some(ids) =>
      var body :- EncChain(ids, EncAsEntry, 0);
      Some(EncArrayHead(|ids|) + body)
  }

  // ---- Decoding --------------------------------------------------------------------

  function DecIntPair(s: Bytes): Parsed<(CborInt, CborInt)> {
    var (n, r) :- DecArrayHead(s);
    if n != 2 then Fail else
    var (a, r1) :- DecInt(r);
    var (b, r2) :- DecInt(r1);
    Ok((a, b), r2)
  }

  /** The two deltas of a range, resolved to absolute values. */
  function DecDeltaPair(previous: int, s: Bytes): Parsed<(int, int)> {
    var (p, r) :- DecIntPair(s);
    Ok((previous + p.0, previous + p.0 + p.1), r)
  }

  /** The address an absolute integer of the int form stands for. */
  function AddrFromAbsolute(afi: u16, abs: int, fill: byte): Option<IpAddr> {
    var (bytes, _) :- FramedFromAbsolute(abs);
    BuildAddr(afi, bytes, fill)
  }

  function PrefixFromAbsolute(afi: u16, abs: int): Option<IpNet> {
    var (bytes, unusedBits) :- FramedFromAbsolute(abs);
    BuildPrefix(afi, bytes, unusedBits)
  }

  function DecIntEntry(afi: u16, previous: int, s: Bytes): Parsed<(IpAddressOrRange, int)> {
    if IsArray(TypeOf(s)) then
      var ((minAbs, maxAbs), r) :- DecDeltaPair(previous, s);
      var min, max := AddrFromAbsolute(afi, minAbs, 0x00), AddrFromAbsolute(afi, maxAbs, 0xFF);
      if min.None? || max.None? then Fail else Ok((Range(min.value, max.value), maxAbs), r)
    else
      var (raw, r) :- DecInt(s);
      var net := PrefixFromAbsolute(afi, previous + raw);
      if net.None? then Fail else Ok((Prefix(net.value), previous + raw), r)
  }

  function IntEntryDecoder(afi: u16): DecStep<IpAddressOrRange> {
    (previous, s) => DecIntEntry(afi, previous, s)
  }

  function DecRawBound(afi: u16, fill: byte, s: Bytes): Parsed<IpAddr> {
    var (raw, r) :- DecBytes(s);
    if raw == [] || raw[0] != 0 then Fail else
    var addr := BuildAddr(afi, raw[1..], fill);
    if addr.None? then Fail else Ok(addr.value, r)
  }

  function DecRawPrefix(afi: u16, s: Bytes): Parsed<IpNet> {
    var (raw, r) :- DecBytes(s);
    if raw == [] then Fail else
    var net := BuildPrefix(afi, raw[1..], raw[0]);
    if net.None? then Fail else Ok(net.value, r)
  }

  function DecRawEntry(afi: u16, s: Bytes): Parsed<IpAddressOrRange> {
    if IsArray(TypeOf(s)) then
      var (n, r) :- DecArrayHead(s);
      if n != 2 then Fail else
      var (min, r1) :- DecRawBound(afi, 0x00, r);
      var (max, r2) :- DecRawBound(afi, 0xFF, r1);
      Ok(Range(min, max), r2)
    else
      var (net, r) :- DecRawPrefix(afi, s);
      Ok(Prefix(net), r)
  }

  function RawEntryDecoder(afi: u16): Bytes -> Parsed<IpAddressOrRange> {
    s => DecRawEntry(afi, s)
  }

  /** Guesses the form of a family from its first entry alone; nothing is consumed. */
  function ProbeIntForm(s: Bytes): Option<bool> {
    match TypeOf(s)
    case EndOfInput => None
    case Array | ArrayIndef =>
      (match DecArrayHead(s)
       case Fail => None
       case Ok(_, r) => if r == [] then None else Some(TypeOf(r).Numeric?))
    case ty => Some(ty.Numeric?)
  }

  function DecEntries(intForm: bool, afi: u16, n: nat, s: Bytes): (r: Parsed<seq<IpAddressOrRange>>)
    ensures r.Ok? ==> |r.value| == n
  {
    if intForm then DecChain(n, IntEntryDecoder(afi), 0, s) else DecMany(n, RawEntryDecoder(afi), s)
  }

  function DecChoice(afi: u16, s: Bytes): Parsed<IpAddressChoice> {
    if TypeOf(s).Null? then Ok(Inherit, s[1..]) else
    var (len, r) :- DecArrayHead(s);
    if len == 0 then Ok(Prefixes([]), r) else
    var form := ProbeIntForm(r);
    if form.None? then Fail else
    var (entries, q) :- DecEntries(form.value, afi, len, r);
    Ok(Prefixes(entries), q)
  }

  function DecSafi(s: Bytes): Parsed<Option<u16>> {
    if TypeOf(s).Null? then Ok(None, s[1..]) else
    var (n, r) :- DecU16(s);
    Ok(Some(n), r)
  }

  function DecFamily(s: Bytes): Parsed<IpAddressFamily> {
    var (afi, r) :- DecU16(s);
    var (safi, r1) :- DecSafi(r);
    var (choice, r2) :- DecChoice(afi, r1);
    Ok(Family(afi, safi, choice), r2)
  }

  function DecFamilies(s: Bytes): Parsed<TripleVec<IpAddressFamily>> {
    DecArrayOf(3, DecFamily, s)
  }

  function DecAsEntry(previous: int, s: Bytes): Parsed<(AsIdOrRange, int)> {
    if IsArray(TypeOf(s)) then
      var ((min, max), r) :- DecDeltaPair(previous, s);
      if !(0 <= min < TWO_64) || !(0 <= max < TWO_64) then Fail else Ok((AsRange(min, max), max), r)
    else
      var (raw, r) :- DecInt(s);
      var id := previous + raw;
      if !(0 <= id < TWO_64) then Fail else Ok((AsId(id), id), r)
  }

  function DecAsIdentifiers(s: Bytes): Parsed<Option<Vec<AsIdOrRange>>> {
    if TypeOf(s).Null? then Ok(None, s[1..]) else
    var (len, r) :- DecArrayHead(s);
    var (ids, q) :- DecChain(len, DecAsEntry, 0, r);
    Ok(Some(ids), q)
  }

  // ---- The accumulator -----------------------------------------------------------------

  /** The sums an entry leaves in the accumulator, in order: both bounds of a range, and all of it even if it is then refused. */
  function EntrySums(previous: int, s: Bytes): seq<int> {
    if !IsArray(TypeOf(s)) then DeltaSum(previous, DecInt(s)) else
    match DecArrayHead(s)
    case Fail => []
    case Ok(n, r) =>
      if n != 2 then [] else
      match DecInt(r)
      case Fail => []
      case Ok(a, r1) => [previous + a] + DeltaSum(previous + a, DecInt(r1))
  }

  function DeltaSum(previous: int, delta: Parsed<CborInt>): seq<int> {
    match delta
    case Fail => []
    case Ok(a, _) => [previous + a]
  }

  /** Every value the accumulator takes while up to `n` entries are read, up to and with the one that is refused. */
  function ChainSums<T>(n: nat, dec: DecStep<T>, previous: int, s: Bytes): seq<int> {
    if n == 0 then [] else
    match dec(previous, s)
    case Fail => EntrySums(previous, s)
    case Ok(p, r) => EntrySums(previous, s) + ChainSums(n - 1, dec, p.1, r)
  }

  // ---- Values ------------------------------------------------------------------------

  /** The entry's addresses are of the family that carries it. */
  predicate EntryTyped(afi: u16, entry: IpAddressOrRange) {
    match entry
    case Prefix(net) => OfFamily(afi, net.addr)
    case Range(min, max) => OfFamily(afi, min) && OfFamily(afi, max)
  }

  predicate FamilyTyped(f: IpAddressFamily) {
    f.choice.Prefixes? ==> forall entry :: entry in f.choice.entries ==> EntryTyped(f.afi, entry)
  }

  predicate FamiliesTyped(families: seq<IpAddressFamily>) {
    forall f :: f in families ==> FamilyTyped(f)
  }

  /** The entry with the host bits of a prefix cleared. */
  function EntryNetwork(entry: IpAddressOrRange): IpAddressOrRange {
    if entry.Prefix? then Prefix(Network(entry.net)) else entry
  }

  function FamilyNetwork(f: IpAddressFamily): IpAddressFamily {
    if f.choice.Inherit? then f else f.(choice := Prefixes(Mapped(EntryNetwork, f.choice.entries)))
  }

  function FamiliesNetwork(families: TripleVec<IpAddressFamily>): TripleVec<IpAddressFamily> {
    Mapped(FamilyNetwork, families)
  }

  /** No prefix of the list has a host bit set. */
  predicate FamiliesCanonical(families: seq<IpAddressFamily>) {
    forall f :: f in families && f.choice.Prefixes? ==>
      forall entry :: entry in f.choice.entries && entry.Prefix? ==> HostBitsClear(entry.net)
  }

  /** The addresses an entry covers; a range compares addresses of its family as numbers. */
  predicate EntryCovers(entry: IpAddressOrRange, a: IpAddr) {
    match entry
    case Prefix(net) => NetCovers(net, a)
    case Range(min, max) =>
      && a.V4? == min.V4? == max.V4?
      && BigEndian(min.octets) <= BigEndian(a.octets) <= BigEndian(max.octets)
  }
}
