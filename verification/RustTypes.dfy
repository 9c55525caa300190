/** The types whose invariants Rust, or a crate the codec uses, guarantees for every value. */
module RustTypes {
  import opened ByteStrings

  const TWO_31: int := 0x8000_0000
  const TWO_32: int := 0x1_0000_0000
  const TWO_63: int := 0x8000_0000_0000_0000
  const TWO_64: int := 0x1_0000_0000_0000_0000
  const TWO_127: int := 0x8000_0000_0000_0000_0000_0000_0000_0000

  type u16 = n: int | 0 <= n < 0x1_0000
  type u32 = n: int | 0 <= n < TWO_32
  type u64 = n: int | 0 <= n < TWO_64
  type i32 = n: int | -TWO_31 <= n < TWO_31

  /** A 128-bit accumulator: arithmetic on it must be shown not to overflow. */
  newtype i128 = n: int | -TWO_127 <= n < TWO_127

  /** The values a CBOR integer (major types 0 and 1) can hold. */
  type CborInt = n: int | -TWO_64 <= n < TWO_64

  // Rust caps every collection at isize::MAX bytes, so the element count of each kind of list
  // below, and the array length it is written with, always fits the 64 bits of a CBOR head.

  type Vec<T> = s: seq<T> | |s| < TWO_64 witness []

  /** Lists written as two array elements an entry. */
  type PairVec<T> = s: seq<T> | 2 * |s| < TWO_64 witness []

  /** Lists written as three array elements an entry. */
  type TripleVec<T> = s: seq<T> | 3 * |s| < TWO_64 witness []

  type Blob = Vec<byte>

  /** Rust's `String`. */
  type Text = s: Blob | ValidUtf8(s) witness []

  predicate Continuation(b: byte) {
    0x80 <= b <= 0xBF
  }

  /** Well-formed UTF-8, by Table 3-7 of the Unicode Standard. */
  predicate ValidUtf8(s: Bytes)
    decreases |s|
  {
    || s == []
    || (s[0] < 0x80 && ValidUtf8(s[1..]))
    || (|s| >= 2 && 0xC2 <= s[0] <= 0xDF && Continuation(s[1]) && ValidUtf8(s[2..]))
    || (|s| >= 3 && ThreeByteLead(s[0], s[1]) && Continuation(s[2]) && ValidUtf8(s[3..]))
    || (|s| >= 4 && FourByteLead(s[0], s[1]) && Continuation(s[2]) && Continuation(s[3]) && ValidUtf8(s[4..]))
  }

  predicate ThreeByteLead(b: byte, c: byte) {
    || (b == 0xE0 && 0xA0 <= c <= 0xBF)
    || (0xE1 <= b <= 0xEF && b != 0xED && Continuation(c))
    || (b == 0xED && 0x80 <= c <= 0x9F)
  }

  predicate FourByteLead(b: byte, c: byte) {
    || (b == 0xF0 && 0x90 <= c <= 0xBF)
    || (0xF1 <= b <= 0xF3 && Continuation(c))
    || (b == 0xF4 && 0x80 <= c <= 0x8F)
  }

  /** An object identifier, kept as its DER content octets (clause 8.19 of X.690). */
  type Oid = s: Blob | ValidOid(s) witness [42]

  /** Whole base-128 arcs, none with a superfluous leading octet. */
  predicate ValidOid(s: Bytes) {
    && s != []
    && s[|s| - 1] < 0x80
    && forall i {:trigger StartsArc(s, i)} :: 0 <= i < |s| && StartsArc(s, i) ==> s[i] != 0x80
  }

  predicate StartsArc(s: Bytes, i: nat)
    requires i < |s|
  {
    i == 0 || s[i - 1] < 0x80
  }

  /** EUI-48 or EUI-64. */
  type MacAddr = s: Bytes | |s| == 6 || |s| == 8 witness [0, 0, 0, 0, 0, 0]

  /** An arbitrary-size natural number whose bytes fit one byte string. */
  type BigUint = n: nat | |MinimalBytes(n)| < TWO_64

  const MAX_TIMESTAMP := 253402300799
  const MIN_TIMESTAMP := -377705116800

  /** Whole seconds since the POSIX epoch, from year -9999 to year 9999. */
  type OffsetDateTime = n: int | MIN_TIMESTAMP <= n <= MAX_TIMESTAMP
}
