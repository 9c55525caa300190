/** A prefix, told apart by its leading bits, is a range of addresses, told apart as numbers (section 2.1.2 of RFC 3779). */
module Coverage {
  import opened ByteStrings
  import opened Addresses
  import opened Rfc3779

  /** `b` with all but its `keep` leading bits set. */
  function FilledOctet(b: byte, keep: int): byte {
    if keep >= 8 then b
    else if keep <= 0 then 255
    else SetLowBound(b, 8 - keep); ClearLow(b, 8 - keep) + PowerOfTwo(8 - keep) - 1
  }

  function LastOctets(octets: Bytes, prefixLen: nat): (r: Bytes)
    ensures |r| == |octets|
  {
    seq(|octets|, i requires 0 <= i < |octets| => FilledOctet(octets[i], prefixLen - 8 * i))
  }

  /** The first and the last address a prefix covers. */
  function AsRange(net: IpNet): IpAddressOrRange {
    Range(Network(net).addr, WithOctets(net.addr, LastOctets(net.addr.octets, net.prefixLen)))
  }

  lemma {:induction false} ClearedRoom(b: nat, bits: nat, width: nat)
    requires bits <= width && b < PowerOfTwo(width)
    ensures ClearLow(b, bits) + PowerOfTwo(bits) <= PowerOfTwo(width)
  {
    if bits > 0 {
      ClearedRoom(b / 2, bits - 1, width - 1);
    }
  }

  lemma SetLowBound(b: byte, bits: nat)
    requires bits <= 8
    ensures 0 <= ClearLow(b, bits) + PowerOfTwo(bits) - 1 < 256
  {
    assert PowerOfTwo(8) == 4 * PowerOfTwo(6) == 256;
    ClearedRoom(b, bits, 8);
  }

  /** Two numbers agree above their lowest bits exactly when one is in the block of the other. */
  lemma {:induction false} SameBlock(x: nat, m: nat, bits: nat)
    ensures ClearLow(x, bits) == ClearLow(m, bits) <==>
            ClearLow(m, bits) <= x < ClearLow(m, bits) + PowerOfTwo(bits)
  {
    if bits > 0 {
      SameBlock(x / 2, m / 2, bits - 1);
    }
  }

  lemma SameOctetBlock(x: byte, m: byte, keep: nat)
    requires keep < 8
    ensures MaskedOctet(x, keep) == MaskedOctet(m, keep) <==> MaskedOctet(m, keep) <= x <= FilledOctet(m, keep)
  {
    if keep > 0 {
      SameBlock(x, m, 8 - keep);
    }
  }

  lemma Lexicographic(a: nat, r: nat, b: nat, t: nat, p: nat)
    requires r < p && t < p
    ensures a * p + r <= b * p + t <==> a < b || (a == b && r <= t)
  {
    if a < b {
      assert (a + 1) * p <= b * p;
    } else if a > b {
      assert (b + 1) * p <= a * p;
    }
  }

  lemma FirstOctetLeads(a: byte, x: Bytes, b: byte, y: Bytes)
    requires |x| == |y|
    ensures BigEndian([a] + x) <= BigEndian([b] + y) <==> a < b || (a == b && BigEndian(x) <= BigEndian(y))
  {
    BigEndianLead(a, x);
    BigEndianLead(b, y);
    BigEndianBound(x);
    BigEndianBound(y);
    Lexicographic(a, BigEndian(x), b, BigEndian(y), Pow256(|x|));
  }

  function Less8(prefixLen: nat): nat {
    if prefixLen >= 8 then prefixLen - 8 else 0
  }

  lemma OctetByOctet(octets: Bytes, prefixLen: nat)
    requires octets != []
    ensures NetworkOctets(octets, prefixLen)
         == [MaskedOctet(octets[0], prefixLen)] + NetworkOctets(octets[1..], Less8(prefixLen))
    ensures LastOctets(octets, prefixLen)
         == [FilledOctet(octets[0], prefixLen)] + LastOctets(octets[1..], Less8(prefixLen))
  {
  }

  /** With no leading bits to agree on, every number is between the two. */
  lemma {:induction false} NothingKept(x: Bytes, m: Bytes)
    requires |x| == |m|
    ensures BigEndian(NetworkOctets(m, 0)) <= BigEndian(x) <= BigEndian(LastOctets(m, 0))
    ensures NetworkOctets(x, 0) == NetworkOctets(m, 0)
    decreases |m|
  {
    hide BigEndian, NetworkOctets, LastOctets;
    if m == [] {
      assert x == [] && NetworkOctets(m, 0) == [] && LastOctets(m, 0) == [] && NetworkOctets(x, 0) == [];
    } else {
      OctetByOctet(m, 0);
      OctetByOctet(x, 0);
      NothingKept(x[1..], m[1..]);
      assert x == [x[0]] + x[1..];
      FirstOctetLeads(0, NetworkOctets(m[1..], 0), x[0], x[1..]);
      FirstOctetLeads(x[0], x[1..], 255, LastOctets(m[1..], 0));
    }
  }

  /** Octets agree on their leading bits exactly when they lie, as numbers, between the first and the last that do. */
  lemma {:induction false} LeadingBitsAreARange(x: Bytes, m: Bytes, prefixLen: nat)
    requires |x| == |m|
    ensures NetworkOctets(x, prefixLen) == NetworkOctets(m, prefixLen) <==>
            BigEndian(NetworkOctets(m, prefixLen)) <= BigEndian(x) <= BigEndian(LastOctets(m, prefixLen))
    decreases |m|
  {
    hide BigEndian, NetworkOctets, LastOctets;
    if m == [] {
      assert x == [] && NetworkOctets(x, prefixLen) == [] && NetworkOctets(m, prefixLen) == [] && LastOctets(m, prefixLen) == [];
    } else {
      var first, last := NetworkOctets(m[1..], Less8(prefixLen)), LastOctets(m[1..], Less8(prefixLen));
      OctetByOctet(m, prefixLen);
      OctetByOctet(x, prefixLen);
      assert x == [x[0]] + x[1..];
      FirstOctetLeads(MaskedOctet(m[0], prefixLen), first, x[0], x[1..]);
      FirstOctetLeads(x[0], x[1..], FilledOctet(m[0], prefixLen), last);
      SplitSame(MaskedOctet(x[0], prefixLen), NetworkOctets(x[1..], Less8(prefixLen)), MaskedOctet(m[0], prefixLen), first);
      if prefixLen >= 8 {
        LeadingBitsAreARange(x[1..], m[1..], prefixLen - 8);
      } else {
        NothingKept(x[1..], m[1..]);
        SameOctetBlock(x[0], m[0], prefixLen);
      }
    }
  }

  lemma SplitSame(a: byte, x: Bytes, b: byte, y: Bytes)
    ensures [a] + x == [b] + y <==> a == b && x == y
  {
    if [a] + x == [b] + y {
      assert ([a] + x)[1..] == ([b] + y)[1..];
    }
  }

  lemma SameLeadingBits(x: Bytes, m: Bytes, prefixLen: nat)
    requires |x| == |m| && prefixLen <= 8 * |m|
    ensures NetworkOctets(x, prefixLen) == NetworkOctets(m, prefixLen)
       <==> forall j :: 0 <= j < prefixLen ==> AddressBit(x, j) == AddressBit(m, j)
  {
    var u, v := NetworkOctets(x, prefixLen), NetworkOctets(m, prefixLen);
    forall j | 0 <= j < 8 * |x|
      ensures AddressBit(u, j) == if j < prefixLen then AddressBit(x, j) else 0
      ensures AddressBit(v, j) == if j < prefixLen then AddressBit(m, j) else 0
    {
      NetworkBits(x, prefixLen, j);
      NetworkBits(m, prefixLen, j);
    }
    if forall j :: 0 <= j < prefixLen ==> AddressBit(x, j) == AddressBit(m, j) {
      SameBitsSameOctets(u, v);
    }
  }

  /** A prefix covers exactly the addresses between its first and its last. */
  lemma PrefixIsARange(net: IpNet, a: IpAddr)
    ensures EntryCovers(Prefix(net), a) <==> EntryCovers(AsRange(net), a)
  {
    if a.V4? == net.addr.V4? {
      SameLeadingBits(a.octets, net.addr.octets, net.prefixLen);
      LeadingBitsAreARange(a.octets, net.addr.octets, net.prefixLen);
    }
  }
}
