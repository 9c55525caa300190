/**
  Addresses, prefixes and their reduction to RFC 3779 significant bytes (src/extensions/ip_addr.rs,
  sections 2.1.1, 2.1.2, 2.2.3.8 and 2.2.3.9 of RFC 3779).
  */
module Addresses {
  import opened Wrappers
  import opened ByteStrings
  import opened RustTypes

  datatype Address = V4(octets: Bytes) | V6(octets: Bytes)

  function Width(a: Address): nat {
    if a.V4? then 4 else 16
  }

  type IpAddr = a: Address | |a.octets| == Width(a) witness V4([0, 0, 0, 0])

  datatype Net = Net(addr: IpAddr, prefixLen: nat)

  /** A prefix; its address may have bits set beyond the prefix length. */
  type IpNet = n: Net | n.prefixLen <= 8 * Width(n.addr) witness Net(V4([0, 0, 0, 0]), 0)

  /** The CBOR int form is used only when framing byte and value fit this many bytes. */
  const MAX_INT_FORM_BYTES := 8

  /** One more than the largest integer a framed address of the int form can be. */
  const FRAMED_LIMIT: int := 9 * 0x100_0000_0000_0000

  function AddressWidth(afi: u16): Option<nat> {
    if afi == 1 then Some(4) else if afi == 2 then Some(16) else None
  }

  predicate OfFamily(afi: u16, a: IpAddr) {
    (afi == 1 && a.V4?) || (afi == 2 && a.V6?)
  }

  // ---- Network addresses -----------------------------------------------------------

  /** `b` with its `bits` lowest bits cleared. */
  function ClearLow(b: nat, bits: nat): (r: nat)
    ensures r <= b
  {
    if bits == 0 then b else 2 * ClearLow(b / 2, bits - 1)
  }

  /** `b` with all but its `keep` leading bits cleared. */
  function MaskedOctet(b: byte, keep: int): byte {
    if keep >= 8 then b else if keep <= 0 then 0 else ClearLow(b, 8 - keep)
  }

  function NetworkOctets(octets: Bytes, prefixLen: nat): (r: Bytes)
    ensures |r| == |octets|
  {
    seq(|octets|, i requires 0 <= i < |octets| => MaskedOctet(octets[i], prefixLen - 8 * i))
  }

  function WithOctets(a: Address, octets: Bytes): Address {
    if a.V4? then V4(octets) else V6(octets)
  }

  function NetworkAddr(a: IpAddr, prefixLen: nat): IpAddr {
    WithOctets(a, NetworkOctets(a.octets, prefixLen))
  }

  /** The prefix with its host bits cleared. */
  function Network(net: IpNet): IpNet {
    Net(NetworkAddr(net.addr, net.prefixLen), net.prefixLen)
  }

  /** Bit `i` of a number, counted from the lowest. */
  function BitOf(b: nat, i: nat): nat {
    if i == 0 then b % 2 else BitOf(b / 2, i - 1)
  }

  /** Bit `j` of an address, counted from its first. */
  function AddressBit(octets: Bytes, j: nat): nat
    requires j < 8 * |octets|
  {
    BitOf(octets[j / 8], 7 - j % 8)
  }

  /** The addresses a prefix stands for: those of its family that agree with it on the leading bits. */
  predicate NetCovers(net: IpNet, a: IpAddr) {
    && a.V4? == net.addr.V4?
    && forall j :: 0 <= j < net.prefixLen ==> AddressBit(a.octets, j) == AddressBit(net.addr.octets, j)
  }

  /** No bit after the prefix length is set. */
  predicate HostBitsClear(net: IpNet) {
    forall j :: net.prefixLen <= j < 8 * |net.addr.octets| ==> AddressBit(net.addr.octets, j) == 0
  }

  // ---- Framing ---------------------------------------------------------------------

  function Fill(n: nat, fill: byte): (r: Bytes)
    ensures |r| == n
    ensures forall i :: 0 <= i < n ==> r[i] == fill
  {
    seq(n, _ => fill)
  }

  function BuildAddr(afi: u16, significant: Bytes, fill: byte): Option<IpAddr> {
    var width :- AddressWidth(afi);
    if |significant| > width then None else
    var octets := significant + Fill(width - |significant|, fill);
    Some(if width == 4 then V4(octets) else V6(octets))
  }

  function BuildPrefix(afi: u16, significant: Bytes, unusedBits: byte): Option<IpNet> {
    var addr :- BuildAddr(afi, significant, 0x00);
    if 8 * |significant| < unusedBits then None else
    Some(Net(addr, 8 * |significant| - unusedBits))
  }

  function SignificantLen(prefixLen: nat): nat {
    (prefixLen + 7) / 8
  }

  /** The significant bytes of the network address and the number of bits unused in the last of them. */
  function PrefixToFramed(net: IpNet): (Bytes, byte) {
    var sigLen := SignificantLen(net.prefixLen);
    (NetworkOctets(net.addr.octets, net.prefixLen)[..sigLen], 8 * sigLen - net.prefixLen)
  }

  /** `s` without its trailing bytes equal to `fill`. */
  function Trimmed(s: Bytes, fill: byte): (r: Bytes)
    ensures |r| <= |s|
  {
    if s != [] && s[|s| - 1] == fill then Trimmed(s[..|s| - 1], fill) else s
  }

  /** `(unusedBits + 1) || significant` as one big-endian number, if it fits the int form. */
  function AbsoluteFromFramed(significant: Bytes, unusedBits: byte): Option<nat> {
    if |significant| + 1 > MAX_INT_FORM_BYTES || unusedBits == 255 then None
    else Some(BigEndian([unusedBits + 1] + significant))
  }

  function FramedFromAbsolute(abs: int): Option<(Bytes, byte)> {
    if abs < 0 then None else
    var v := MinimalBytes(abs);
    if v[0] == 0 then None else Some((v[1..], v[0] - 1))
  }

  // ---- Prefixes ----------------------------------------------------------------------

  lemma {:induction false} ClearedTwice(b: nat, bits: nat)
    ensures ClearLow(ClearLow(b, bits), bits) == ClearLow(b, bits)
  {
    if bits > 0 {
      ClearedTwice(b / 2, bits - 1);
      var half := ClearLow(b / 2, bits - 1);
      assert 2 * half / 2 == half;
    }
  }

  lemma NetworkIsIdempotent(octets: Bytes, prefixLen: nat)
    ensures NetworkOctets(NetworkOctets(octets, prefixLen), prefixLen) == NetworkOctets(octets, prefixLen)
  {
    forall i | 0 <= i < |octets|
      ensures var keep := prefixLen - 8 * i;
              MaskedOctet(MaskedOctet(octets[i], keep), keep) == MaskedOctet(octets[i], keep)
    {
      ClearedTwice(octets[i], if 0 < prefixLen - 8 * i < 8 then 8 - (prefixLen - 8 * i) else 0);
    }
  }

  lemma {:induction false} ClearLowBits(b: nat, bits: nat, i: nat)
    ensures BitOf(ClearLow(b, bits), i) == if i < bits then 0 else BitOf(b, i)
  {
    if bits > 0 && i > 0 {
      ClearLowBits(b / 2, bits - 1, i - 1);
    }
  }

  lemma {:induction false} BitsOfZero(i: nat)
    ensures BitOf(0, i) == 0
  {
    if i > 0 {
      BitsOfZero(i - 1);
    }
  }

  /** The network form keeps the leading bits and clears every bit after them. */
  lemma NetworkBits(octets: Bytes, prefixLen: nat, j: nat)
    requires j < 8 * |octets|
    ensures AddressBit(NetworkOctets(octets, prefixLen), j) == if j < prefixLen then AddressBit(octets, j) else 0
  {
    var keep := prefixLen - 8 * (j / 8);
    if keep <= 0 {
      BitsOfZero(7 - j % 8);
    } else if keep < 8 {
      ClearLowBits(octets[j / 8], 8 - keep, 7 - j % 8);
    }
  }

  lemma {:induction false} LowBitsClear(b: nat, bits: nat)
    requires forall i :: 0 <= i < bits ==> BitOf(b, i) == 0
    ensures ClearLow(b, bits) == b
  {
    if bits > 0 {
      assert BitOf(b, 0) == 0;
      forall i | 0 <= i < bits - 1
        ensures BitOf(b / 2, i) == 0
      {
        assert BitOf(b, i + 1) == 0;
      }
      LowBitsClear(b / 2, bits - 1);
    }
  }

  /** An octet whose bits after the first `keep` are clear is its own masked form. */
  lemma MaskedOctetFixes(octets: Bytes, prefixLen: nat, i: nat)
    requires i < |octets|
    requires forall j :: prefixLen <= j < 8 * |octets| ==> AddressBit(octets, j) == 0
    ensures MaskedOctet(octets[i], prefixLen - 8 * i) == octets[i]
  {
    var keep := prefixLen - 8 * i;
    var low := if keep >= 8 then 0 else if keep <= 0 then 8 else 8 - keep;
    forall k | 0 <= k < low
      ensures BitOf(octets[i], k) == 0
    {
      assert AddressBit(octets, 8 * i + 7 - k) == 0;
    }
    LowBitsClear(octets[i], low);
    if keep <= 0 {
      assert PowerOfTwo(8) == 4 * PowerOfTwo(6) == 256;
      AllBitsCleared(octets[i], 8);
    }
  }

  function PowerOfTwo(n: nat): nat {
    if n == 0 then 1 else 2 * PowerOfTwo(n - 1)
  }

  lemma {:induction false} AllBitsCleared(b: nat, bits: nat)
    requires b < PowerOfTwo(bits)
    ensures ClearLow(b, bits) == 0
  {
    if bits > 0 {
      AllBitsCleared(b / 2, bits - 1);
    }
  }

  /** A prefix is its own network form exactly when its host bits are clear. */
  lemma NetworkFixesExactly(net: IpNet)
    ensures Network(net) == net <==> HostBitsClear(net)
  {
    var octets := net.addr.octets;
    if HostBitsClear(net) {
      forall i | 0 <= i < |octets|
        ensures NetworkOctets(octets, net.prefixLen)[i] == octets[i]
      {
        MaskedOctetFixes(octets, net.prefixLen, i);
      }
    } else {
      var j :| net.prefixLen <= j < 8 * |octets| && AddressBit(octets, j) != 0;
      NetworkBits(octets, net.prefixLen, j);
    }
  }

  /** Framing a prefix and building it again gives its network form; a canonical prefix comes back unchanged. */
  lemma PrefixRoundTrip(afi: u16, net: IpNet)
    requires OfFamily(afi, net.addr)
    ensures var (bytes, unused) := PrefixToFramed(net);
            unused <= 7 && BuildPrefix(afi, bytes, unused) == Some(Network(net))
  {
    var full := NetworkOctets(net.addr.octets, net.prefixLen);
    var sigLen := SignificantLen(net.prefixLen);
    assert full == full[..sigLen] + Fill(|full| - sigLen, 0);
  }

  /** Clearing the host bits changes neither the framing nor the addresses covered. */
  lemma NetworkKeepsMeaning(net: IpNet, a: IpAddr)
    ensures PrefixToFramed(Network(net)) == PrefixToFramed(net)
    ensures NetCovers(Network(net), a) <==> NetCovers(net, a)
  {
    NetworkIsIdempotent(net.addr.octets, net.prefixLen);
    forall j | 0 <= j < net.prefixLen
      ensures AddressBit(Network(net).addr.octets, j) == AddressBit(net.addr.octets, j)
    {
      NetworkBits(net.addr.octets, net.prefixLen, j);
    }
  }

  // ---- What a prefix covers tells what it is ---------------------------------------------

  lemma {:induction false} SameBitsSameNumber(b: nat, c: nat, bits: nat)
    requires b < PowerOfTwo(bits) && c < PowerOfTwo(bits)
    requires forall i :: 0 <= i < bits ==> BitOf(b, i) == BitOf(c, i)
    ensures b == c
  {
    if bits > 0 {
      assert BitOf(b, 0) == BitOf(c, 0);
      forall i | 0 <= i < bits - 1
        ensures BitOf(b / 2, i) == BitOf(c / 2, i)
      {
        assert BitOf(b, i + 1) == BitOf(c, i + 1);
      }
      SameBitsSameNumber(b / 2, c / 2, bits - 1);
    }
  }

  lemma SameBitsSameOctets(x: Bytes, y: Bytes)
    requires |x| == |y|
    requires forall j :: 0 <= j < 8 * |x| ==> AddressBit(x, j) == AddressBit(y, j)
    ensures x == y
  {
    assert PowerOfTwo(8) == 4 * PowerOfTwo(6) == 256;
    forall i | 0 <= i < |x|
      ensures x[i] == y[i]
    {
      forall k | 0 <= k < 8
        ensures BitOf(x[i], k) == BitOf(y[i], k)
      {
        assert AddressBit(x, 8 * i + 7 - k) == AddressBit(y, 8 * i + 7 - k);
      }
      SameBitsSameNumber(x[i], y[i], 8);
    }
  }

  /** Setting bit `k`, which is clear, sets it, and changes no other bit. */
  lemma {:induction false} BitSet(b: nat, bits: nat, k: nat, i: nat)
    requires k < bits && b < PowerOfTwo(bits) && BitOf(b, k) == 0
    ensures b + PowerOfTwo(k) < PowerOfTwo(bits)
    ensures BitOf(b + PowerOfTwo(k), i) == if i == k then 1 else BitOf(b, i)
  {
    if k == 0 {
      assert (b + 1) / 2 == b / 2;
    } else {
      assert (b + PowerOfTwo(k)) / 2 == b / 2 + PowerOfTwo(k - 1);
      BitSet(b / 2, bits - 1, k - 1, if i == 0 then 0 else i - 1);
    }
  }

  /** An address that differs from `octets` in bit `j` alone. */
  lemma WithBit(octets: Bytes, j: nat) returns (x: Bytes)
    requires j < 8 * |octets| && AddressBit(octets, j) == 0
    ensures |x| == |octets| && AddressBit(x, j) == 1
    ensures forall i :: 0 <= i < 8 * |octets| && i != j ==> AddressBit(x, i) == AddressBit(octets, i)
  {
    var at, k := j / 8, 7 - j % 8;
    assert PowerOfTwo(8) == 4 * PowerOfTwo(6) == 256;
    BitSet(octets[at], 8, k, k);
    x := octets[at := octets[at] + PowerOfTwo(k)];
    forall i | 0 <= i < 8 * |octets| && i != j
      ensures AddressBit(x, i) == AddressBit(octets, i)
    {
      BitSet(octets[at], 8, k, 7 - i % 8);
    }
  }

  ghost predicate CoverTheSame(n: IpNet, m: IpNet) {
    forall a: IpAddr :: NetCovers(n, a) <==> NetCovers(m, a)
  }

  /** Of two prefixes the longer one leaves out an address that the shorter one covers. */
  lemma LongerCoversLess(n: IpNet, m: IpNet) returns (a: IpAddr)
    requires n.prefixLen < m.prefixLen
    ensures NetCovers(n, a) && !NetCovers(m, a)
  {
    var net := Network(n);
    a := net.addr;
    NetworkKeepsMeaning(n, a);
    if NetCovers(m, a) {
      NetworkBits(n.addr.octets, n.prefixLen, n.prefixLen);
      var x := WithBit(a.octets, n.prefixLen);
      a := WithOctets(a, x);
      NetworkKeepsMeaning(n, a);
      assert AddressBit(a.octets, n.prefixLen) != AddressBit(net.addr.octets, n.prefixLen);
    }
  }

  /** Two prefixes cover the same addresses exactly when they have one network form. */
  lemma CoverageIdentifiesPrefix(n: IpNet, m: IpNet)
    ensures CoverTheSame(n, m) <==> Network(n) == Network(m)
  {
    if CoverTheSame(n, m) {
      if n.prefixLen < m.prefixLen {
        var a := LongerCoversLess(n, m);
      } else if m.prefixLen < n.prefixLen {
        var a := LongerCoversLess(m, n);
      }
      assert NetCovers(n, n.addr) && NetCovers(m, n.addr);
      var x, y := Network(n).addr.octets, Network(m).addr.octets;
      forall j | 0 <= j < 8 * |x|
        ensures AddressBit(x, j) == AddressBit(y, j)
      {
        NetworkBits(n.addr.octets, n.prefixLen, j);
        NetworkBits(m.addr.octets, m.prefixLen, j);
      }
      SameBitsSameOctets(x, y);
    } else {
      var a: IpAddr :| NetCovers(n, a) != NetCovers(m, a);
      NetworkKeepsMeaning(n, a);
      NetworkKeepsMeaning(m, a);
    }
  }

  /** Covering the same addresses, having one network form and having one framing are the same thing. */
  lemma FramingIdentifiesPrefix(n: IpNet, m: IpNet)
    requires n.addr.V4? == m.addr.V4?
    ensures CoverTheSame(n, m) <==> Network(n) == Network(m)
    ensures CoverTheSame(n, m) <==> PrefixToFramed(n) == PrefixToFramed(m)
  {
    var afi: u16 := if n.addr.V4? then 1 else 2;
    CoverageIdentifiesPrefix(n, m);
    PrefixRoundTrip(afi, n);
    PrefixRoundTrip(afi, m);
  }

  // ---- Range bounds ------------------------------------------------------------------

  lemma {:induction false} TrimmedThenFilled(s: Bytes, fill: byte)
    ensures Trimmed(s, fill) + Fill(|s| - |Trimmed(s, fill)|, fill) == s
  {
    if s != [] && s[|s| - 1] == fill {
      var init := s[..|s| - 1];
      TrimmedThenFilled(init, fill);
      var n := |init| - |Trimmed(init, fill)|;
      assert Fill(n + 1, fill) == Fill(n, fill) + [fill];
      assert s == init + [fill];
    } else {
      assert Fill(0, fill) == [];
    }
  }

  lemma {:induction false} TrimmedIsShortest(t: Bytes, n: nat, fill: byte)
    ensures Trimmed(t + Fill(n, fill), fill) == Trimmed(t, fill)
  {
    if n == 0 {
      assert t + Fill(0, fill) == t;
    } else {
      var s := t + Fill(n, fill);
      assert s[..|s| - 1] == t + Fill(n - 1, fill);
      TrimmedIsShortest(t, n - 1, fill);
    }
  }

  /** Trimming is undone by building with the same fill. */
  lemma AddrRoundTrip(afi: u16, a: IpAddr, fill: byte)
    requires OfFamily(afi, a)
    ensures BuildAddr(afi, Trimmed(a.octets, fill), fill) == Some(a)
  {
    TrimmedThenFilled(a.octets, fill);
  }

  /** Of all the significant bytes that build an address, the trimmed ones are the only shortest. */
  lemma TrimmedIsUniqueShortest(afi: u16, a: IpAddr, fill: byte, t: Bytes)
    requires BuildAddr(afi, t, fill) == Some(a)
    ensures |Trimmed(a.octets, fill)| <= |t|
    ensures |Trimmed(a.octets, fill)| == |t| ==> Trimmed(a.octets, fill) == t
  {
    TrimmedIsShortest(t, |a.octets| - |t|, fill);
  }

  // ---- The int form ------------------------------------------------------------------

  lemma {:induction false} PowersUpToSeven(n: nat)
    requires n <= 7
    ensures 1 <= Pow256(n) <= 0x100_0000_0000_0000
    decreases 7 - n
  {
    if n < 7 {
      PowersUpToSeven(n + 1);
      assert Pow256(n + 1) == 256 * Pow256(n);
    } else {
      SevenBytes();
    }
  }

  lemma ScaledBy(k: nat, p: nat)
    requires 1 <= k <= 8
    ensures p <= k * p <= 8 * p
  {
  }

  /** The framed integer of an address lies in `1..FRAMED_LIMIT`, and gives the framing back. */
  lemma AbsoluteRoundTrip(significant: Bytes, unusedBits: byte)
    requires |significant| < MAX_INT_FORM_BYTES && unusedBits <= 7
    ensures AbsoluteFromFramed(significant, unusedBits).Some?
    ensures 1 <= AbsoluteFromFramed(significant, unusedBits).value < FRAMED_LIMIT == 0x900_0000_0000_0000
    ensures FramedFromAbsolute(AbsoluteFromFramed(significant, unusedBits).value) == Some((significant, unusedBits))
  {
    var framed := [unusedBits + 1] + significant;
    var p := Pow256(|significant|);
    BigEndianLead(unusedBits + 1, significant);
    BigEndianBound(significant);
    PowersUpToSeven(|significant|);
    ScaledBy(unusedBits + 1, p);
    MinimalBytesOfBigEndian(framed);
    assert framed[1..] == significant;
  }

  /** The framed integer stays below 2^59 exactly when it is not of seven bytes with seven unused bits. */
  lemma AbsoluteBelow59Bits(significant: Bytes, unusedBits: byte)
    requires |significant| < MAX_INT_FORM_BYTES && unusedBits <= 7
    ensures AbsoluteFromFramed(significant, unusedBits).Some?
    ensures AbsoluteFromFramed(significant, unusedBits).value < 0x800_0000_0000_0000
       <==> !(|significant| == 7 && unusedBits == 7)
  {
    var n := |significant|;
    BigEndianLead(unusedBits + 1, significant);
    BigEndianBound(significant);
    SevenBytes();
    if n == 7 {
      assert (unusedBits + 1) * Pow256(n) + BigEndian(significant) == (unusedBits + 1) * 0x100_0000_0000_0000 + BigEndian(significant);
    } else {
      PowersUpToSeven(n + 1);
      assert Pow256(n + 1) == 256 * Pow256(n);
      ScaledBy(unusedBits + 1, Pow256(n));
    }
  }

  lemma SevenBytes()
    ensures Pow256(7) == 0x100_0000_0000_0000
  {
    assert Pow256(3) == 0x100_0000;
    assert Pow256(7) == 256 * (256 * (256 * (256 * Pow256(3))));
  }

  /** In the other direction: an integer that is framed within the int form is rebuilt from its framing. */
  lemma FramedRoundTrip(abs: int)
    requires FramedFromAbsolute(abs).Some? && |FramedFromAbsolute(abs).value.0| < MAX_INT_FORM_BYTES
    ensures var (significant, unusedBits) := FramedFromAbsolute(abs).value;
            AbsoluteFromFramed(significant, unusedBits) == Some(abs)
  {
    var v := MinimalBytes(abs);
    assert [v[0]] + v[1..] == v;
    MinimalBytesValue(abs);
  }
}
