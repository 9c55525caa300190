/**
  Bytes that are written again as they were read. A part of the input is canonical when it has the form the encoder
  gives it: the shortest head, no padding, and the compact form wherever there is one.
  */
module Canonical {
  import opened Wrappers
  import opened ByteStrings
  import opened RustTypes
  import opened Cbor
  import opened Lists

  /** What is left after a read that succeeds. */
  function Tail<T>(p: Parsed<T>): Bytes {
    if p.Ok? then p.rest else []
  }

  /** Written after `e`, `later` gives `s` exactly when each of the two reproduces its part of it. */
  lemma Joined(e: Bytes, later: Bytes, s: Bytes, r: Bytes)
    requires e + later == s ==> later == r
    ensures e + later == s <==> e + r == s && later == r
  {
  }

  /** Three parts in a row, the first two of which are read back before anything. */
  lemma TwoAfterHead(h: Bytes, a: Bytes, b: Bytes, s: Bytes, r: Bytes, r1: Bytes, r2: Bytes)
    requires h + (a + (b + r2)) == s ==> a + (b + r2) == r
    requires a + (b + r2) == r ==> b + r2 == r1
    ensures (h + (a + b)) + r2 == s <==> h + r == s && a + r1 == r && b + r2 == r1
  {
    Assoc(h, a + b, r2);
    Assoc(a, b, r2);
    Joined(h, a + (b + r2), s, r);
    Joined(a, b + r2, r, r1);
  }

  lemma ThreeAfterHead(
    h: Bytes, a: Bytes, b: Bytes, c: Bytes, s: Bytes, r: Bytes, r1: Bytes, r2: Bytes, rest: Bytes)
    requires h + (a + (b + (c + rest))) == s ==> a + (b + (c + rest)) == r
    requires a + (b + (c + rest)) == r ==> b + (c + rest) == r1
    requires b + (c + rest) == r1 ==> c + rest == r2
    ensures (h + (a + (b + c))) + rest == s <==> h + r == s && a + r1 == r && b + r2 == r1 && c + rest == r2
  {
    Assoc(h, a + (b + c), rest);
    Assoc(a, b + c, rest);
    Assoc(b, c, rest);
    Joined(h, a + (b + (c + rest)), s, r);
    Joined(a, b + (c + rest), r, r1);
    Joined(b, c + rest, r1, r2);
  }

  /** Two parts in a row, the first of which is read back before anything. */
  lemma InARow(a: Bytes, b: Bytes, s: Bytes, r: Bytes, rest: Bytes)
    requires a + (b + rest) == s ==> b + rest == r
    ensures (a + b) + rest == s <==> a + r == s && b + rest == r
  {
    Assoc(a, b, rest);
    Joined(a, b + rest, s, r);
  }

  // ---- Heads -----------------------------------------------------------------------------

  predicate ShortestHead(s: Bytes) {
    s != [] && ReadHead(s[0] / 32, s).Ok? && s[0] % 32 == ShortestInfo(ReadHead(s[0] / 32, s).value)
  }

  lemma ShortestIsWritten(major: nat, s: Bytes)
    requires major < 8 && ReadHead(major, s).Ok? && ShortestHead(s)
    ensures EncHead(major, ReadHead(major, s).value) + ReadHead(major, s).rest == s
  {
    hide ReadArgument, BigEndian;
    var p, body := ReadHead(major, s), s[1..];
    var w := ArgumentWidth(s[0] % 32);
    ArgumentIsWritten(s[0] % 32, body);
    Assoc([s[0]], body[..w], body[w..]);
    assert [s[0]] + body == s;
    AtBoundary(body[..w], body[w..]);
    assert body[..w] + body[w..] == body;
  }

  lemma ArgumentIsWritten(info: nat, body: Bytes)
    requires ReadArgument(info, body).Ok?
    ensures var w := ArgumentWidth(info);
            w <= |body| && FixedBytes(ReadArgument(info, body).value, w) == body[..w] && ReadArgument(info, body).rest == body[w..]
  {
    if info >= 24 {
      FixedBytesOfBigEndian(body[..ArgumentWidth(info)]);
    }
  }

  lemma HeadReproduced(major: nat, s: Bytes)
    requires major < 8 && ReadHead(major, s).Ok?
    ensures EncHead(major, ReadHead(major, s).value) + ReadHead(major, s).rest == s <==> ShortestHead(s)
  {
    if ShortestHead(s) {
      ShortestIsWritten(major, s);
    } else {
      var e := EncHead(major, ReadHead(major, s).value);
      assert (e + ReadHead(major, s).rest)[0] == e[0];
    }
  }

  lemma IntReproduced(s: Bytes)
    requires DecInt(s).Ok?
    ensures EncInt(DecInt(s).value) + DecInt(s).rest == s <==> ShortestHead(s)
  {
    HeadReproduced(if s[0] / 32 == NEGATIVE then NEGATIVE else UNSIGNED, s);
  }

  lemma StringReproduced(major: nat, s: Bytes)
    requires major < 8 && DecString(major, s).Ok?
    ensures var p := DecString(major, s); (EncHead(major, |p.value|) + p.value) + p.rest == s <==> ShortestHead(s)
  {
    var h, p := ReadHead(major, s), DecString(major, s);
    HeadReproduced(major, s);
    assert h.rest == p.value + p.rest;
    Assoc(EncHead(major, |p.value|), p.value, p.rest);
  }

  lemma BytesReproduced(s: Bytes)
    requires DecBytes(s).Ok?
    ensures EncBytes(DecBytes(s).value) + DecBytes(s).rest == s <==> ShortestHead(s)
  {
    StringReproduced(BYTE_STRING, s);
  }

  lemma ArrayHeadReproduced(s: Bytes)
    requires DecArrayHead(s).Ok?
    ensures EncArrayHead(DecArrayHead(s).value) + DecArrayHead(s).rest == s <==> ShortestHead(s)
  {
    HeadReproduced(ARRAY, s);
  }

  lemma PairReproduced(s: Bytes, r: Bytes, oid: Oid, r1: Bytes, params: Blob, r2: Bytes)
    requires DecArrayHead(s) == Ok(2, r) && DecBytes(r) == Ok(oid, r1) && DecBytes(r1) == Ok(params, r2)
    ensures (EncArrayHead(2) + (EncBytes(oid) + EncBytes(params))) + r2 == s
       <==> ShortestHead(s) && ShortestHead(r) && ShortestHead(r1)
  {
    hide DecArrayHead, DecBytes, EncArrayHead, EncBytes, ShortestHead;
    var a, b := EncBytes(oid), EncBytes(params);
    ArrayHeadReproduced(s);
    BytesReproduced(r);
    BytesReproduced(r1);
    ArrayHeadRoundTrip(2, a + (b + r2));
    BytesRoundTrip(oid, b + r2);
    TwoAfterHead(EncArrayHead(2), a, b, s, r, r1, r2);
  }


  lemma TwoStringsReproduced(s: Bytes, oid: Oid, r: Bytes, b: Blob, rest: Bytes)
    requires DecBytes(s) == Ok(oid, r) && DecBytes(r) == Ok(b, rest)
    ensures (EncBytes(oid) + EncBytes(b)) + rest == s <==> ShortestHead(s) && ShortestHead(r)
  {
    hide DecBytes, EncBytes, ShortestHead;
    BytesReproduced(s);
    BytesReproduced(r);
    Assoc(EncBytes(oid), EncBytes(b), rest);
    BytesRoundTrip(oid, EncBytes(b) + rest);
    Joined(EncBytes(oid), EncBytes(b) + rest, s, r);
  }


  // ---- Lists -----------------------------------------------------------------------------

  /** Each of the `n` elements read in a row is canonical. */
  predicate Each<T>(n: nat, dec: Bytes -> Parsed<T>, canonical: Bytes -> bool, s: Bytes) {
    n == 0 || (dec(s).Ok? && canonical(s) && Each(n - 1, dec, canonical, dec(s).rest))
  }

  /** An element that was read is written again the same exactly when it is canonical, and what is written is read again. */
  ghost predicate Reproduces<T>(enc: T -> Option<Bytes>, dec: Bytes -> Parsed<T>, canonical: Bytes -> bool) {
    forall s: Bytes :: dec(s).Ok? ==>
      && (canonical(s) <==> enc(dec(s).value).Some? && enc(dec(s).value).value + dec(s).rest == s)
      && (enc(dec(s).value).Some? ==> ReadAgain(dec, enc(dec(s).value).value))
  }

  ghost predicate ReadAgain<T>(dec: Bytes -> Parsed<T>, b: Bytes) {
    forall t: Bytes :: dec(b + t).Ok? && dec(b + t).rest == t
  }

  lemma {:induction false} ManyReproduced<T>(
    n: nat, enc: T -> Option<Bytes>, dec: Bytes -> Parsed<T>, canonical: Bytes -> bool, s: Bytes)
    requires DecMany(n, dec, s).Ok? && Reproduces(enc, dec, canonical)
    ensures var p := DecMany(n, dec, s);
            Each(n, dec, canonical, s) <==>
              TryConcatMap(p.value, enc).Some? && TryConcatMap(p.value, enc).value + p.rest == s
  {
    if n == 0 {
      NothingBefore(s);
    } else {
      var x, q := dec(s), DecMany(n - 1, dec, dec(s).rest);
      ManyReproduced(n - 1, enc, dec, canonical, x.rest);
      assert DecMany(n, dec, s).value[1..] == q.value;
      if enc(x.value).Some? && TryConcatMap(q.value, enc).Some? {
        var a, later := enc(x.value).value, TryConcatMap(q.value, enc).value;
        Assoc(a, later, q.rest);
        assert ReadAgain(dec, a);
        Joined(a, later + q.rest, s, x.rest);
      }
    }
  }

  lemma ArrayOfReproduced<T>(
    k: nat, enc: T -> Option<Bytes>, dec: Bytes -> Parsed<T>, canonical: Bytes -> bool, s: Bytes)
    requires 1 <= k <= 3 && DecArrayOf(k, dec, s).Ok? && Reproduces(enc, dec, canonical)
    ensures var p := DecArrayOf(k, dec, s);
            ShortestHead(s) && Each(|p.value|, dec, canonical, DecArrayHead(s).rest)
            <==> (TryEncArrayOf(k, enc, p.value).Some? && TryEncArrayOf(k, enc, p.value).value + p.rest == s)
  {
    hide ShortestHead, EncArrayHead, DecArrayHead;
    var p, head := DecArrayOf(k, dec, s), DecArrayHead(s);
    WholeEntries(k, head.value);
    ArrayHeadReproduced(s);
    ManyReproduced(head.value / k, enc, dec, canonical, head.rest);
    if TryConcatMap(p.value, enc).Some? {
      var body := TryConcatMap(p.value, enc).value;
      Assoc(EncArrayHead(head.value), body, p.rest);
      ArrayHeadRoundTrip(head.value, body + p.rest);
      Joined(EncArrayHead(head.value), body + p.rest, s, head.rest);
    }
  }

  /** The version for encoders that never fail. */
  ghost predicate ReproducesPlain<T>(enc: T -> Bytes, dec: Bytes -> Parsed<T>, canonical: Bytes -> bool) {
    forall s: Bytes :: dec(s).Ok? ==>
      && (canonical(s) <==> enc(dec(s).value) + dec(s).rest == s)
      && ReadAgain(dec, enc(dec(s).value))
  }

  function Always<T>(enc: T -> Bytes): T -> Option<Bytes> {
    x => Some(enc(x))
  }

  lemma {:induction false} AlwaysSucceeds<T>(xs: seq<T>, enc: T -> Bytes)
    ensures TryConcatMap(xs, Always(enc)) == Some(ConcatMap(xs, enc))
  {
    if xs != [] {
      AlwaysSucceeds(xs[1..], enc);
    }
  }

  lemma PlainManyReproduced<T>(n: nat, enc: T -> Bytes, dec: Bytes -> Parsed<T>, canonical: Bytes -> bool, s: Bytes)
    requires DecMany(n, dec, s).Ok? && ReproducesPlain(enc, dec, canonical)
    ensures var p := DecMany(n, dec, s); ConcatMap(p.value, enc) + p.rest == s <==> Each(n, dec, canonical, s)
  {
    ManyReproduced(n, Always(enc), dec, canonical, s);
    AlwaysSucceeds(DecMany(n, dec, s).value, enc);
  }

  lemma PlainArrayReproduced<T>(k: nat, enc: T -> Bytes, dec: Bytes -> Parsed<T>, canonical: Bytes -> bool, s: Bytes)
    requires 1 <= k <= 3 && DecArrayOf(k, dec, s).Ok? && ReproducesPlain(enc, dec, canonical)
    ensures var p := DecArrayOf(k, dec, s);
            ShortestHead(s) && Each(|p.value|, dec, canonical, DecArrayHead(s).rest)
            <==> EncArrayOf(k, enc, p.value) + p.rest == s
  {
    ArrayOfReproduced(k, Always(enc), dec, canonical, s);
    AlwaysSucceeds(DecArrayOf(k, dec, s).value, enc);
  }
}
