/**
  Delta chains: every entry is written relative to the chain state its predecessor left. An entry
  step takes the state before the entry to the state after it.
  */
module Chains {
  import opened Wrappers
  import opened ByteStrings
  import opened RustTypes
  import opened Cbor
  import opened Lists

  type EncStep<!T> = (T, int) -> Option<(Bytes, int)>
  type DecStep<T> = (int, Bytes) -> Parsed<(T, int)>

  function EncChain<T>(xs: seq<T>, enc: EncStep<T>, previous: int): Option<Bytes> {
    if xs == [] then Some([]) else
    var (a, p) :- enc(xs[0], previous);
    var b :- EncChain(xs[1..], enc, p);
    Some(a + b)
  }

  function DecChain<T>(n: nat, dec: DecStep<T>, previous: int, s: Bytes): (r: Parsed<seq<T>>)
    ensures r.Ok? ==> |r.value| == n
  {
    if n == 0 then Ok([], s) else
    var ((x, p), r) :- dec(previous, s);
    var (xs, q) :- DecChain(n - 1, dec, p, r);
    Ok([x] + xs, q)
  }

  /**
    From any state within `lo..hi`, `x` can be written and is read back as `y`, and both sides of the
    chain move to one and the same state, again within `lo..hi`.
    */
  ghost predicate InStep<T>(enc: EncStep<T>, dec: DecStep<T>, x: T, y: T, lo: int, hi: int) {
    forall p: int :: lo <= p <= hi ==>
      && enc(x, p).Some?
      && lo <= enc(x, p).value.1 <= hi
      && StepReadsBack(dec, p, enc(x, p).value.0, y, enc(x, p).value.1)
  }

  ghost predicate StepReadsBack<T>(dec: DecStep<T>, p: int, b: Bytes, y: T, q: int) {
    forall t: Bytes :: dec(p, b + t) == Ok((y, q), t)
  }

  lemma {:induction false} ChainRoundTrip<T>(
    xs: seq<T>, ys: seq<T>, enc: EncStep<T>, dec: DecStep<T>, lo: int, hi: int, previous: int, rest: Bytes)
    requires |xs| == |ys| && lo <= previous <= hi
    requires forall i :: 0 <= i < |xs| ==> InStep(enc, dec, xs[i], ys[i], lo, hi)
    ensures EncChain(xs, enc, previous).Some?
    ensures DecChain(|xs|, dec, previous, EncChain(xs, enc, previous).value + rest) == Ok(ys, rest)
  {
    if xs == [] {
      NothingBefore(rest);
    } else {
      assert InStep(enc, dec, xs[0], ys[0], lo, hi);
      var (a, p) := enc(xs[0], previous).value;
      ChainRoundTrip(xs[1..], ys[1..], enc, dec, lo, hi, p, rest);
      Assoc(a, EncChain(xs[1..], enc, p).value, rest);
      assert [ys[0]] + ys[1..] == ys;
    }
  }

  /** From any state within `lo..hi`, `x` can be written, which leaves a state within `lo..hi`. */
  ghost predicate Writable<T>(enc: EncStep<T>, x: T, lo: int, hi: int) {
    forall p: int :: lo <= p <= hi ==> enc(x, p).Some? && lo <= enc(x, p).value.1 <= hi
  }

  lemma {:induction false} ChainIsWritable<T>(xs: seq<T>, enc: EncStep<T>, lo: int, hi: int, previous: int)
    requires lo <= previous <= hi
    requires forall i :: 0 <= i < |xs| ==> Writable(enc, xs[i], lo, hi)
    ensures EncChain(xs, enc, previous).Some?
  {
    if xs != [] {
      assert Writable(enc, xs[0], lo, hi);
      ChainIsWritable(xs[1..], enc, lo, hi, enc(xs[0], previous).value.1);
    }
  }

  lemma {:induction false} ChainAgrees<T>(xs: seq<T>, ys: seq<T>, enc: EncStep<T>, previous: int)
    requires |xs| == |ys|
    requires forall i, p: int :: 0 <= i < |xs| ==> enc(xs[i], p) == enc(ys[i], p)
    ensures EncChain(xs, enc, previous) == EncChain(ys, enc, previous)
  {
    if xs != [] && enc(xs[0], previous).Some? {
      assert enc(xs[0], previous) == enc(ys[0], previous);
      ChainAgrees(xs[1..], ys[1..], enc, enc(xs[0], previous).value.1);
    }
  }

  /** Each entry the step accepts is one well-formed item, and moves the state by at most 2^64 a byte. */
  ghost predicate StepIsItem<T>(dec: DecStep<T>) {
    forall p: int, s: Bytes :: dec(p, s).Ok? ==>
      && SkipItems(1, s) == Some(dec(p, s).rest)
      && -TWO_64 * (|s| - |dec(p, s).rest|) <= dec(p, s).value.1 - p <= TWO_64 * (|s| - |dec(p, s).rest|)
  }

  ghost predicate StepYields<T(!new)>(dec: DecStep<T>, good: T -> bool) {
    forall p: int, s: Bytes :: dec(p, s).Ok? ==> good(dec(p, s).value.0)
  }

  lemma {:induction false} ChainIsItems<T>(n: nat, dec: DecStep<T>, previous: int, s: Bytes)
    requires DecChain(n, dec, previous, s).Ok? && StepIsItem(dec)
    ensures SkipItems(n, s) == Some(DecChain(n, dec, previous, s).rest)
  {
    if n > 0 {
      var step := dec(previous, s);
      ChainIsItems(n - 1, dec, step.value.1, step.rest);
      OneItem(s);
    }
  }

  lemma {:induction false} ChainYields<T(!new)>(n: nat, dec: DecStep<T>, good: T -> bool, previous: int, s: Bytes)
    requires DecChain(n, dec, previous, s).Ok? && StepYields(dec, good)
    ensures forall x :: x in DecChain(n, dec, previous, s).value ==> good(x)
  {
    if n > 0 {
      var step := dec(previous, s);
      ChainYields(n - 1, dec, good, step.value.1, step.rest);
    }
  }

  // ---- Facts for loops -------------------------------------------------------------

  lemma ChainReadOne<T>(left: nat, dec: DecStep<T>, p: int, s: Bytes, done: seq<T>)
    ensures After(done, DecChain(left + 1, dec, p, s)) ==
            if dec(p, s).Ok?
            then After(done + [dec(p, s).value.0], DecChain(left, dec, dec(p, s).value.1, dec(p, s).rest))
            else Fail
  {
    var step := dec(p, s);
    if step.Ok? {
      var later := DecChain(left, dec, step.value.1, step.rest);
      if later.Ok? {
        assert done + ([step.value.0] + later.value) == (done + [step.value.0]) + later.value;
      }
    }
  }

  lemma ChainNothingLeft<T>(done: seq<T>, dec: DecStep<T>, p: int, s: Bytes)
    ensures After(done, DecChain(0, dec, p, s)) == Ok(done, s)
  {
    assert done + [] == done;
  }

  lemma ChainWriteOne<T>(xs: seq<T>, i: nat, enc: EncStep<T>, p: int, written: Bytes)
    requires i < |xs|
    ensures Prepended(written, EncChain(xs[i..], enc, p)) ==
            if enc(xs[i], p).Some?
            then Prepended(written + enc(xs[i], p).value.0, EncChain(xs[i + 1..], enc, enc(xs[i], p).value.1))
            else None
  {
    assert xs[i..][1..] == xs[i + 1..];
    if enc(xs[i], p).Some? {
      var (a, q) := enc(xs[i], p).value;
      if EncChain(xs[i + 1..], enc, q).Some? {
        Assoc(written, a, EncChain(xs[i + 1..], enc, q).value);
      }
    }
  }
}
