/** The IPAddrBlocks and ASIdentifiers codec step by step (src/extensions/ip_addr.rs). */
module Rfc3779Codec {
  import opened Wrappers
  import opened ByteStrings
  import opened RustTypes
  import opened Cbor
  import opened Lists
  import opened Chains
  import opened Minicbor
  import opened Addresses
  import opened Rfc3779
  import Common

  // ---- Addresses -----------------------------------------------------------------------

  method BuildAddress(afi: u16, significant: Bytes, fill: byte) returns (r: Option<IpAddr>)
    ensures r == BuildAddr(afi, significant, fill)
  {
    var width :- AddressWidth(afi);
    if |significant| > width {
      return None;
    }
    var buf := new byte[width](_ => fill);
    for i := 0 to |significant|
      invariant buf[..i] == significant[..i]
      invariant forall k :: i <= k < width ==> buf[k] == fill
    {
      buf[i] := significant[i];
    }
    assert buf[..] == significant + Fill(width - |significant|, fill);
    return Some(if width == 4 then V4(buf[..]) else V6(buf[..]));
  }

  /** The original counts bits in a `u8`: neither its cast nor its multiplication can lose anything. */
  method BuildNet(afi: u16, significant: Bytes, unusedBits: byte) returns (r: Option<IpNet>)
    ensures r == BuildPrefix(afi, significant, unusedBits)
    ensures BuildAddr(afi, significant, 0x00).Some? ==> |significant| < 0x100 && 8 * |significant| < 0x100
    ensures r.Some? ==> r.value.prefixLen <= 8 * Width(r.value.addr) <= 128
  {
    var addr :- BuildAddress(afi, significant, 0x00);
    var len: byte := |significant|;
    var bits: byte := 8 * len;
    if bits < unusedBits {
      return None;
    }
    var prefixLen: byte := bits - unusedBits;
    return Some(Net(addr, prefixLen));
  }

  method TrimAddress(a: IpAddr, fill: byte) returns (r: Bytes)
    ensures r == Trimmed(a.octets, fill)
  {
    var full := a.octets;
    var end := |full|;
    assert full[..end] == full;
    while end > 0 && full[end - 1] == fill
      invariant 0 <= end <= |full|
      invariant Trimmed(full[..end], fill) == Trimmed(full, fill)
    {
      assert full[..end][..end - 1] == full[..end - 1];
      end := end - 1;
    }
    return full[..end];
  }

  lemma {:induction false} ZerosBefore(n: nat, v: Bytes)
    ensures BigEndian(Fill(n, 0) + v) == BigEndian(v)
  {
    if n == 0 {
      assert Fill(0, 0) + v == v;
    } else {
      ZerosBefore(n - 1, v);
      BigEndianLead(0, Fill(n - 1, 0) + v);
      assert Fill(n, 0) + v == [0] + (Fill(n - 1, 0) + v);
    }
  }

  method AbsoluteInt(significant: Bytes, unusedBits: byte) returns (r: Option<i128>)
    ensures r.Some? == AbsoluteFromFramed(significant, unusedBits).Some?
    ensures r.Some? ==> r.value as int == AbsoluteFromFramed(significant, unusedBits).value
    ensures r.Some? ==> 0 <= r.value as int < TWO_64
  {
    var framedLen := |significant| + 1;
    if framedLen > MAX_INT_FORM_BYTES || unusedBits == 255 {
      return None;
    }
    var v: Bytes := [unusedBits + 1] + significant;
    var buf := new byte[16](_ => 0);
    for i := 0 to framedLen
      invariant forall k :: 0 <= k < 16 - framedLen ==> buf[k] == 0
      invariant forall k :: 0 <= k < i ==> buf[16 - framedLen + k] == v[k]
    {
      buf[16 - framedLen + i] := v[i];
    }
    assert buf[..] == Fill(16 - framedLen, 0) + v;
    ZerosBefore(16 - framedLen, v);
    ZerosBefore(8 - framedLen, v);
    BigEndianBound(Fill(8 - framedLen, 0) + v);
    PowersOf256();
    return Some(BigEndian(buf[..]) as i128);
  }

  lemma SixteenBytes(n: nat)
    requires n < TWO_127
    ensures BigEndian(FixedBytes(n, 16)) == n
  {
    PowersOf256();
    assert Pow256(9) == 256 * Pow256(8);
    assert Pow256(12) == 256 * (256 * (256 * Pow256(9)));
    assert Pow256(16) == 256 * (256 * (256 * (256 * Pow256(12))));
    FixedBytesValue(n, 16);
  }

  method FramedAddress(abs: i128) returns (r: Option<(Bytes, byte)>)
    ensures r == FramedFromAbsolute(abs as int)
  {
    if abs < 0 {
      return None;
    }
    var v := FixedBytes(abs as int, 16);
    SixteenBytes(abs as int);
    while |v| > 1 && v[0] == 0
      invariant |v| >= 1 && BigEndian(v) == abs as int
    {
      DropLeadingZero(v);
      v := v[1..];
    }
    MinimalBytesOfBigEndian(v);
    if v[0] == 0 {
      return None;
    }
    return Some((v[1..], v[0] - 1));
  }

  // ---- The delta chain -------------------------------------------------------------------

  /** The accumulator both directions thread through a whole family. */
  class DeltaChain {
    var previous: i128
    var first: bool

    ghost predicate Valid()
      reads this
    {
      first ==> previous == 0
    }

    ghost function State(): int
      reads this
    {
      previous as int
    }

    constructor ()
      ensures Valid() && State() == 0
    {
      previous, first := 0, true;
    }

    method NextAbsolute(raw: i128) returns (abs: i128)
      requires Valid() && -TWO_127 <= State() + raw as int < TWO_127
      modifies this
      ensures Valid() && abs as int == State() == old(State()) + raw as int
    {
      abs := if first then raw else previous + raw;
      previous := abs;
      first := false;
    }

    method NextDelta(abs: i128) returns (delta: i128)
      requires Valid() && -TWO_127 <= abs as int - State() < TWO_127
      modifies this
      ensures Valid() && State() == abs as int && delta as int == abs as int - old(State())
    {
      delta := if first then abs else abs - previous;
      previous := abs;
      first := false;
    }
  }

  /** The chain's state is bounded by what has been read: every delta took at least one byte. */
  ghost predicate Bounded(chain: DeltaChain, d: Decoder)
    reads chain, d
  {
    -TWO_64 * d.pos <= chain.State() <= TWO_64 * d.pos
  }

  /** Reads one delta; the 128-bit sum cannot overflow. */
  method DecodeDelta(chain: DeltaChain, d: Decoder) returns (r: Option<i128>)
    requires d.Valid() && chain.Valid() && Bounded(chain, d)
    modifies d, chain
    ensures d.Valid() && chain.Valid()
    ensures var spec := DecInt(old(d.Rest()));
            if spec.Ok?
            then
              && d.Rest() == spec.rest && Bounded(chain, d)
              && r.Some? && r.value as int == chain.State() == old(chain.State()) + spec.value
            else r.None?
  {
    ghost var before := d.Rest();
    var raw :- d.Int();
    assert |d.Rest()| < |before|;
    var abs := chain.NextAbsolute(raw as i128);
    return Some(abs);
  }

  method EncodeDelta(delta: i128, e: Encoder) returns (ok: Outcome)
    modifies e
    ensures Writes(EncDelta(delta as int), ok, old(e.buf), e.buf)
  {
    if !(-TWO_64 <= delta as int < TWO_64) {
      return Failed;
    }
    e.Int(delta as int);
    return Pass;
  }

  /** Reads a range's two deltas. */
  method DecodeDeltaPair(chain: DeltaChain, d: Decoder) returns (ok: Outcome, min: i128, max: i128)
    requires d.Valid() && chain.Valid() && Bounded(chain, d)
    modifies d, chain
    ensures d.Valid() && chain.Valid()
    ensures ok.Pass? == DecDeltaPair(old(chain.State()), old(d.Rest())).Ok?
    ensures ok.Pass? ==>
              var spec := DecDeltaPair(old(chain.State()), old(d.Rest()));
              && d.Rest() == spec.rest && Bounded(chain, d)
              && min as int == spec.value.0 && max as int == chain.State() == spec.value.1
  {
    min, max := 0, 0;
    ghost var p, before := chain.State(), d.Rest();
    var n := Common.DefiniteArrayLen(d);
    if n != Some(2) {
      return Failed, 0, 0;
    }
    assert |d.Rest()| < |before|;
    ghost var r := d.Rest();
    var a := DecodeDelta(chain, d);
    if a.None? {
      return Failed, 0, 0;
    }
    ghost var r1 := d.Rest();
    var b := DecodeDelta(chain, d);
    if b.None? {
      return Failed, 0, 0;
    }
    DeltasAre(p, before, r, r1);
    return Pass, a.value, b.value;
  }

  lemma DeltasAre(p: int, s: Bytes, r: Bytes, r1: Bytes)
    requires DecArrayHead(s) == Ok(2, r)
    requires DecInt(r).Ok? && DecInt(r).rest == r1 && DecInt(r1).Ok?
    ensures DecDeltaPair(p, s)
         == Ok((p + DecInt(r).value, p + DecInt(r).value + DecInt(r1).value), DecInt(r1).rest)
  {
  }

  /** Writes a range's two deltas. */
  method EncodeDeltaPair(min: i128, max: i128, chain: DeltaChain, e: Encoder) returns (ok: Outcome)
    requires chain.Valid() && 0 <= chain.State() < TWO_64 && 0 <= min as int < TWO_64 && 0 <= max as int < TWO_64
    modifies e, chain
    ensures chain.Valid() && chain.State() == max as int
    ensures var spec := EncDeltaPair(old(chain.State()), min as int, max as int);
            if spec.Some? then ok.Pass? && e.buf == old(e.buf) + spec.value.0 && spec.value.1 == max as int else ok.Failed?
  {
    var minDelta := chain.NextDelta(min);
    var maxDelta := chain.NextDelta(max);
    ok := EncodePair(minDelta, maxDelta, e);
  }

  method EncodePair(a: i128, b: i128, e: Encoder) returns (ok: Outcome)
    modifies e
    ensures var x, y := EncDelta(a as int), EncDelta(b as int);
            if x.Some? && y.Some? then ok.Pass? && e.buf == old(e.buf) + (EncArrayHead(2) + (x.value + y.value))
            else ok.Failed?
  {
    ghost var before := e.buf;
    e.Array(2);
    :- EncodeDelta(a, e);
    :- EncodeDelta(b, e);
    Assoc(before + EncArrayHead(2), EncInt(a as int), EncInt(b as int));
    Assoc(before, EncArrayHead(2), EncInt(a as int) + EncInt(b as int));
    return Pass;
  }

  // ---- IPAddrBlocks ------------------------------------------------------------------------

  method DecodeIntEntry(afi: u16, chain: DeltaChain, d: Decoder) returns (r: Option<IpAddressOrRange>)
    requires d.Valid() && chain.Valid() && Bounded(chain, d)
    modifies d, chain
    ensures d.Valid() && chain.Valid()
    ensures var spec := DecIntEntry(afi, old(chain.State()), old(d.Rest()));
            if spec.Ok?
            then
              && d.Rest() == spec.rest && Bounded(chain, d)
              && r == Some(spec.value.0) && chain.State() == spec.value.1
            else r.None?
  {
    var ty :- d.DataType();
    if IsArray(ty) {
      var ok, minAbs, maxAbs := DecodeDeltaPair(chain, d);
      if ok.Failed? {
        return None;
      }
      var minFramed :- FramedAddress(minAbs);
      var maxFramed :- FramedAddress(maxAbs);
      var min :- BuildAddress(afi, minFramed.0, 0x00);
      var max :- BuildAddress(afi, maxFramed.0, 0xFF);
      return Some(Range(min, max));
    } else {
      var abs :- DecodeDelta(chain, d);
      var framed :- FramedAddress(abs);
      var net :- BuildNet(afi, framed.0, framed.1);
      return Some(Prefix(net));
    }
  }

  method DecodeRawBound(afi: u16, fill: byte, d: Decoder) returns (r: Option<IpAddr>)
    requires d.Valid()
    modifies d
    ensures d.Valid() && Reads(DecRawBound(afi, fill, old(d.Rest())), r, d.Rest())
  {
    var raw :- d.Bytes();
    if raw == [] || raw[0] != 0 {
      return None;
    }
    r := BuildAddress(afi, raw[1..], fill);
  }

  method DecodeRawEntry(afi: u16, d: Decoder) returns (r: Option<IpAddressOrRange>)
    requires d.Valid()
    modifies d
    ensures d.Valid() && Reads(DecRawEntry(afi, old(d.Rest())), r, d.Rest())
  {
    var ty :- d.DataType();
    if IsArray(ty) {
      var n :- Common.DefiniteArrayLen(d);
      if n != 2 {
        return None;
      }
      var min :- DecodeRawBound(afi, 0x00, d);
      var max :- DecodeRawBound(afi, 0xFF, d);
      return Some(Range(min, max));
    } else {
      var raw :- d.Bytes();
      if raw == [] {
        return None;
      }
      var net :- BuildNet(afi, raw[1..], raw[0]);
      return Some(Prefix(net));
    }
  }

  /** Looks at the first entry of a family with a second cursor. */
  method ProbeForm(d: Decoder) returns (r: Option<bool>)
    requires d.Valid()
    ensures r == ProbeIntForm(d.Rest())
  {
    var p := d.Probe();
    var ty :- p.DataType();
    if IsArray(ty) {
      var _ :- Common.DefiniteArrayLen(p);
      var inner :- p.DataType();
      return Some(inner.Numeric?);
    }
    return Some(ty.Numeric?);
  }

  method DecodeIntEntries(afi: u16, len: u64, d: Decoder) returns (r: Option<seq<IpAddressOrRange>>)
    requires d.Valid()
    modifies d
    ensures d.Valid() && Reads(DecChain(len, IntEntryDecoder(afi), 0, old(d.Rest())), r, d.Rest())
  {
    ghost var dec, start := IntEntryDecoder(afi), d.Rest();
    var entries: seq<IpAddressOrRange> := [];
    var chain := new DeltaChain();
    NothingDone(DecChain(len, dec, 0, start));
    for left := len downto 0
      invariant d.Valid() && chain.Valid() && Bounded(chain, d)
      invariant DecChain(len, dec, 0, start) == After(entries, DecChain(left, dec, chain.State(), d.Rest()))
    {
      ChainReadOne(left, dec, chain.State(), d.Rest(), entries);
      var entry :- DecodeIntEntry(afi, chain, d);
      entries := entries + [entry];
    }
    ChainNothingLeft(entries, dec, chain.State(), d.Rest());
    return Some(entries);
  }

  method DecodeRawEntries(afi: u16, len: u64, d: Decoder) returns (r: Option<seq<IpAddressOrRange>>)
    requires d.Valid()
    modifies d
    ensures d.Valid() && Reads(DecMany(len, RawEntryDecoder(afi), old(d.Rest())), r, d.Rest())
  {
    ghost var dec, start := RawEntryDecoder(afi), d.Rest();
    var entries: seq<IpAddressOrRange> := [];
    NothingDone(DecMany(len, dec, start));
    for left := len downto 0
      invariant d.Valid()
      invariant DecMany(len, dec, start) == After(entries, DecMany(left, dec, d.Rest()))
    {
      ghost var here := d.Rest();
      var entry := DecodeRawEntry(afi, d);
      ReadStep(len, left, dec, start, entries, here, entry, d.Rest());
      if entry.None? {
        return None;
      }
      entries := entries + [entry.value];
    }
    NothingLeft(entries, dec, d.Rest());
    return Some(entries);
  }

  method DecodeIpAddressChoice(afi: u16, d: Decoder) returns (r: Option<IpAddressChoice>)
    requires d.Valid()
    modifies d
    ensures d.Valid() && Reads(DecChoice(afi, old(d.Rest())), r, d.Rest())
  {
    var ty :- d.DataType();
    if ty.Null? {
      var _ :- d.Null();
      return Some(Inherit);
    }
    var len :- Common.DefiniteArrayLen(d);
    if len == 0 {
      return Some(Prefixes([]));
    }
    var isIntForm :- ProbeForm(d);
    var entries: seq<IpAddressOrRange>;
    if isIntForm {
      entries :- DecodeIntEntries(afi, len, d);
    } else {
      entries :- DecodeRawEntries(afi, len, d);
    }
    return Some(Prefixes(entries));
  }

  method DecodeFamily(d: Decoder) returns (r: Option<IpAddressFamily>)
    requires d.Valid()
    modifies d
    ensures d.Valid() && Reads(DecFamily(old(d.Rest())), r, d.Rest())
  {
    var afi :- d.U16();
    var safi: Option<u16> := None;
    var ty :- d.DataType();
    if ty.Null? {
      var _ :- d.Null();
    } else {
      var n :- d.U16();
      safi := Some(n);
    }
    var choice :- DecodeIpAddressChoice(afi, d);
    return Some(Family(afi, safi, choice));
  }

  method DecodeFamilies(n: nat, d: Decoder) returns (r: Option<seq<IpAddressFamily>>)
    requires d.Valid()
    modifies d
    ensures d.Valid() && Reads(DecMany(n, DecFamily, old(d.Rest())), r, d.Rest())
  {
    hide DecFamily;
    ghost var start := d.Rest();
    var out: seq<IpAddressFamily> := [];
    NothingDone(DecMany(n, DecFamily, start));
    for left := n downto 0
      invariant d.Valid()
      invariant DecMany(n, DecFamily, start) == After(out, DecMany(left, DecFamily, d.Rest()))
    {
      ghost var here := d.Rest();
      var f := DecodeFamily(d);
      ReadStep(n, left, DecFamily, start, out, here, f, d.Rest());
      if f.None? {
        return None;
      }
      out := out + [f.value];
    }
    NothingLeft(out, DecFamily, d.Rest());
    return Some(out);
  }

  method DecodeIpAddressFamilies(d: Decoder) returns (r: Option<TripleVec<IpAddressFamily>>)
    requires d.Valid()
    modifies d
    ensures d.Valid() && Reads(DecFamilies(old(d.Rest())), r, d.Rest())
  {
    var len :- Common.DefiniteArrayLen(d);
    if len % 3 != 0 {
      return None;
    }
    var out :- DecodeFamilies(len / 3, d);
    return Some(out);
  }

  method ResolveEntry(entry: IpAddressOrRange) returns (r: ResolvedEntry)
    ensures r == Resolve(entry)
  {
    match entry
    case Prefix(net) =>
      var (bytes, unusedBits) := PrefixToFramed(net);
      return ResolvedPrefix(bytes, unusedBits);
    case Range(min, max) =>
      var minBytes := TrimAddress(min, 0x00);
      var maxBytes := TrimAddress(max, 0xFF);
      return ResolvedRange(minBytes, maxBytes);
  }

  method EncodeIntEntry(ghost entry: IpAddressOrRange, r: ResolvedEntry, chain: DeltaChain, e: Encoder)
    returns (ok: Outcome)
    requires r == Resolve(entry) && chain.Valid() && 0 <= chain.State() < TWO_64
    modifies e, chain
    ensures chain.Valid()
    ensures var spec := EncIntEntry(entry, old(chain.State()));
            if spec.Some?
            then
              && ok.Pass? && e.buf == old(e.buf) + spec.value.0
              && chain.State() == spec.value.1 && 0 <= chain.State() < TWO_64
            else ok.Failed?
  {
    match r
    case ResolvedPrefix(bytes, unusedBits) =>
      var abs := AbsoluteInt(bytes, unusedBits);
      if abs.None? {
        return Failed;
      }
      var delta := chain.NextDelta(abs.value);
      ok := EncodeDelta(delta, e);
    case ResolvedRange(minBytes, maxBytes) =>
      var minAbs := AbsoluteInt(minBytes, 0);
      if minAbs.None? {
        return Failed;
      }
      var maxAbs := AbsoluteInt(maxBytes, 0);
      if maxAbs.None? {
        return Failed;
      }
      ok := EncodeDeltaPair(minAbs.value, maxAbs.value, chain, e);
  }

  method EncodeRawEntry(ghost entry: IpAddressOrRange, r: ResolvedEntry, e: Encoder)
    requires r == Resolve(entry)
    modifies e
    ensures e.buf == old(e.buf) + EncRawEntry(entry)
  {
    match r
    case ResolvedPrefix(bytes, unusedBits) =>
      e.Bytes([unusedBits] + bytes);
    case ResolvedRange(minBytes, maxBytes) =>
      ghost var before := e.buf;
      e.Array(2);
      e.Bytes([0] + minBytes);
      e.Bytes([0] + maxBytes);
      ghost var a, b := EncBytes([0] + minBytes), EncBytes([0] + maxBytes);
      Assoc(before + EncArrayHead(2), a, b);
      Assoc(before, EncArrayHead(2), a + b);
  }

  method EncodeIntEntries(entries: seq<IpAddressOrRange>, resolved: seq<ResolvedEntry>, e: Encoder)
    returns (ok: Outcome)
    requires resolved == Mapped(Resolve, entries)
    modifies e
    ensures Writes(EncChain(entries, EncIntEntry, 0), ok, old(e.buf), e.buf)
  {
    ghost var before, written := e.buf, [];
    var chain := new DeltaChain();
    assert entries[0..] == entries;
    NothingWritten(EncChain(entries, EncIntEntry, 0));
    for i := 0 to |entries|
      invariant chain.Valid() && 0 <= chain.State() < TWO_64
      invariant e.buf == before + written
      invariant EncChain(entries, EncIntEntry, 0) ==
                Prepended(written, EncChain(entries[i..], EncIntEntry, chain.State()))
    {
      ChainWriteOne(entries, i, EncIntEntry, chain.State(), written);
      ghost var spec := EncIntEntry(entries[i], chain.State());
      :- EncodeIntEntry(entries[i], resolved[i], chain, e);
      Assoc(before, written, spec.value.0);
      written := written + spec.value.0;
    }
    NothingBefore(written);
    return Pass;
  }

  method EncodeRawEntries(entries: seq<IpAddressOrRange>, resolved: seq<ResolvedEntry>, e: Encoder)
    requires resolved == Mapped(Resolve, entries)
    modifies e
    ensures e.buf == old(e.buf) + ConcatMap(entries, EncRawEntry)
  {
    ghost var before := e.buf;
    assert entries[0..] == entries;
    for i := 0 to |entries|
      invariant before + ConcatMap(entries, EncRawEntry) == e.buf + ConcatMap(entries[i..], EncRawEntry)
    {
      WriteOne(entries, i, EncRawEntry, e.buf);
      EncodeRawEntry(entries[i], resolved[i], e);
    }
    NothingBefore(e.buf);
  }

  method EncodeIpAddressChoice(choice: IpAddressChoice, e: Encoder) returns (ok: Outcome)
    modifies e
    ensures Writes(EncChoice(choice), ok, old(e.buf), e.buf)
  {
    match choice
    case Inherit =>
      e.Null();
      return Pass;
    case Prefixes(entries) =>
      ghost var before := e.buf;
      var resolved: seq<ResolvedEntry> := [];
      for i := 0 to |entries|
        invariant |resolved| == i && e.buf == before
        invariant forall k :: 0 <= k < i ==> resolved[k] == Resolve(entries[k])
      {
        var r := ResolveEntry(entries[i]);
        resolved := resolved + [r];
      }
      assert resolved == Mapped(Resolve, entries);
      var useIntForm := forall r :: r in resolved ==> FitsIntForm(r);
      assert useIntForm == UsesIntForm(entries) by {
        assert forall i :: 0 <= i < |entries| ==> resolved[i] in resolved && entries[i] in entries;
      }
      e.Array(|entries|);
      if useIntForm {
        :- EncodeIntEntries(entries, resolved, e);
      } else {
        EncodeRawEntries(entries, resolved, e);
      }
      Assoc(before, EncArrayHead(|entries|), EncEntries(entries).value);
      return Pass;
  }

  method EncodeFamily(f: IpAddressFamily, e: Encoder) returns (ok: Outcome)
    modifies e
    ensures Writes(EncFamily(f), ok, old(e.buf), e.buf)
  {
    ghost var before := e.buf;
    e.Int(f.afi);
    match f.safi {
      case Some(s) => e.Int(s);
      case None => e.Null();
    }
    :- EncodeIpAddressChoice(f.choice, e);
    ghost var a, b, c := EncInt(f.afi), EncSafi(f.safi), EncChoice(f.choice).value;
    Assoc(before + a, b, c);
    Assoc(before, a, b + c);
    return Pass;
  }

  method EncodeIpAddressFamilies(families: TripleVec<IpAddressFamily>, e: Encoder) returns (ok: Outcome)
    modifies e
    ensures Writes(EncFamilies(families), ok, old(e.buf), e.buf)
  {
    e.Array(3 * |families|);
    ghost var head, written := e.buf, [];
    assert families[0..] == families;
    NothingWritten(TryConcatMap(families, EncFamily));
    for i := 0 to |families|
      invariant e.buf == head + written
      invariant TryConcatMap(families, EncFamily) == Prepended(written, TryConcatMap(families[i..], EncFamily))
    {
      TryWriteOne(families, i, EncFamily, written);
      :- EncodeFamily(families[i], e);
      Assoc(head, written, EncFamily(families[i]).value);
      written := written + EncFamily(families[i]).value;
    }
    NothingBefore(written);
    Assoc(old(e.buf), EncArrayHead(3 * |families|), written);
    return Pass;
  }

  // ---- ASIdentifiers -------------------------------------------------------------------------

  method DecodeAsEntry(chain: DeltaChain, d: Decoder) returns (r: Option<AsIdOrRange>)
    requires d.Valid() && chain.Valid() && Bounded(chain, d)
    modifies d, chain
    ensures d.Valid() && chain.Valid()
    ensures var spec := DecAsEntry(old(chain.State()), old(d.Rest()));
            if spec.Ok?
            then
              && d.Rest() == spec.rest && Bounded(chain, d)
              && r == Some(spec.value.0) && chain.State() == spec.value.1
            else r.None?
  {
    var ty :- d.DataType();
    if IsArray(ty) {
      var ok, minAbs, maxAbs := DecodeDeltaPair(chain, d);
      if ok.Failed? {
        return None;
      }
      var min, max := minAbs as int, maxAbs as int;
      if !(0 <= min < TWO_64) || !(0 <= max < TWO_64) {
        return None;
      }
      return Some(AsRange(min, max));
    } else {
      var abs :- DecodeDelta(chain, d);
      var id := abs as int;
      if !(0 <= id < TWO_64) {
        return None;
      }
      return Some(AsId(id));
    }
  }

  method DecodeAsEntries(len: u64, d: Decoder) returns (r: Option<seq<AsIdOrRange>>)
    requires d.Valid()
    modifies d
    ensures d.Valid() && Reads(DecChain(len, DecAsEntry, 0, old(d.Rest())), r, d.Rest())
  {
    ghost var start := d.Rest();
    var out: seq<AsIdOrRange> := [];
    var chain := new DeltaChain();
    NothingDone(DecChain(len, DecAsEntry, 0, start));
    for left := len downto 0
      invariant d.Valid() && chain.Valid() && Bounded(chain, d)
      invariant DecChain(len, DecAsEntry, 0, start) == After(out, DecChain(left, DecAsEntry, chain.State(), d.Rest()))
    {
      ChainReadOne(left, DecAsEntry, chain.State(), d.Rest(), out);
      var entry :- DecodeAsEntry(chain, d);
      out := out + [entry];
    }
    ChainNothingLeft(out, DecAsEntry, chain.State(), d.Rest());
    return Some(out);
  }

  method DecodeAsIdentifiers(d: Decoder) returns (r: Option<Option<Vec<AsIdOrRange>>>)
    requires d.Valid()
    modifies d
    ensures d.Valid() && Reads(DecAsIdentifiers(old(d.Rest())), r, d.Rest())
  {
    var ty :- d.DataType();
    if ty.Null? {
      var _ :- d.Null();
      return Some(None);
    }
    var len :- Common.DefiniteArrayLen(d);
    var ids :- DecodeAsEntries(len, d);
    return Some(Some(ids));
  }

  method EncodeAsEntry(entry: AsIdOrRange, chain: DeltaChain, e: Encoder) returns (ok: Outcome)
    requires chain.Valid() && 0 <= chain.State() < TWO_64
    modifies e, chain
    ensures chain.Valid()
    ensures var spec := EncAsEntry(entry, old(chain.State()));
            if spec.Some?
            then
              && ok.Pass? && e.buf == old(e.buf) + spec.value.0
              && chain.State() == spec.value.1 && 0 <= chain.State() < TWO_64
            else ok.Failed?
  {
    hide EncDeltaPair, EncInt;
    match entry
    case AsId(id) =>
      var delta := chain.NextDelta(id as i128);
      ok := EncodeDelta(delta, e);
    case AsRange(min, max) =>
      ok := EncodeDeltaPair(min as i128, max as i128, chain, e);
  }

  method EncodeAsIdentifiers(value: Option<Vec<AsIdOrRange>>, e: Encoder) returns (ok: Outcome)
    modifies e
    ensures Writes(EncAsIdentifiers(value), ok, old(e.buf), e.buf)
  {
    match value
    case None =>
      e.Null();
      return Pass;
    case Some(ids) =>
      e.Array(|ids|);
      ghost var head, written := e.buf, [];
      var chain := new DeltaChain();
      assert ids[0..] == ids;
      NothingWritten(EncChain(ids, EncAsEntry, 0));
      for i := 0 to |ids|
        invariant chain.Valid() && 0 <= chain.State() < TWO_64
        invariant e.buf == head + written
        invariant EncChain(ids, EncAsEntry, 0) == Prepended(written, EncChain(ids[i..], EncAsEntry, chain.State()))
      {
        ChainWriteOne(ids, i, EncAsEntry, chain.State(), written);
        ghost var spec := EncAsEntry(ids[i], chain.State());
        :- EncodeAsEntry(ids[i], chain, e);
        Assoc(head, written, spec.value.0);
        written := written + spec.value.0;
      }
      NothingBefore(written);
      Assoc(old(e.buf), EncArrayHead(|ids|), written);
      return Pass;
  }
}
