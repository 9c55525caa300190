/** Repetition: a counted run of elements written one after another, and read back one by one. */
module Lists {
  import opened Wrappers
  import opened ByteStrings
  import opened RustTypes
  import opened Cbor

  function ConcatMap<T>(xs: seq<T>, enc: T -> Bytes): Bytes {
    if xs == [] then [] else enc(xs[0]) + ConcatMap(xs[1..], enc)
  }

  /** Like `ConcatMap`, for an element encoder that can fail: the first failure ends the run. */
  function TryConcatMap<T>(xs: seq<T>, enc: T -> Option<Bytes>): Option<Bytes> {
    if xs == [] then Some([]) else
    var a :- enc(xs[0]);
    var b :- TryConcatMap(xs[1..], enc);
    Some(a + b)
  }

  /** Reads `n` elements in a row. */
  function DecMany<T>(n: nat, dec: Bytes -> Parsed<T>, s: Bytes): (r: Parsed<seq<T>>)
    ensures r.Ok? ==> |r.value| == n
  {
    if n == 0 then Ok([], s) else
    var (x, r) :- dec(s);
    var (xs, q) :- DecMany(n - 1, dec, r);
    Ok([x] + xs, q)
  }

  /** Reads elements up to and including the break; an element always takes at least one byte. */
  function DecUntilBreak<T>(dec: Bytes -> Parsed<T>, s: Bytes): Parsed<seq<T>>
    decreases |s|
  {
    if s == [] then Fail
    else if s[0] == BREAK then Ok([], s[1..])
    else
      var (x, r) :- dec(s);
      if |r| >= |s| then Fail else
      var (xs, q) :- DecUntilBreak(dec, r);
      Ok([x] + xs, q)
  }

  /** minicbor's own reader for a `Vec<T>`: unlike the rest of the grammar it takes indefinite-length arrays. */
  function DecVec<T>(dec: Bytes -> Parsed<T>, s: Bytes): Parsed<Vec<T>> {
    var (len, r) :- DecArray(s);
    if len.Some? then DecMany(len.value, dec, r) else
    var (xs, q) :- DecUntilBreak(dec, r);
    if |xs| < TWO_64 then Ok(xs, q) else Fail
  }

  /** What a run reads when `done` was read before it. */
  function After<T>(done: seq<T>, later: Parsed<seq<T>>): Parsed<seq<T>> {
    match later
    case Fail => Fail
    case Ok(xs, r) => Ok(done + xs, r)
  }

  /** `b` is read back as `x`, whatever follows it. */
  ghost predicate ReadsBack<T>(dec: Bytes -> Parsed<T>, b: Bytes, x: T) {
    forall t: Bytes :: dec(b + t) == Ok(x, t)
  }

  /** Everything `dec` accepts is exactly `k` well-formed items. */
  ghost predicate ReadsItems<T>(k: nat, dec: Bytes -> Parsed<T>) {
    forall s: Bytes :: dec(s).Ok? ==> SkipItems(k, s) == Some(dec(s).rest)
  }

  ghost predicate Yields<T(!new)>(dec: Bytes -> Parsed<T>, good: T -> bool) {
    forall s: Bytes :: dec(s).Ok? ==> good(dec(s).value)
  }

  function Mapped<T, U>(f: T -> U, xs: seq<T>): (ys: seq<U>)
    ensures |ys| == |xs|
    ensures forall i :: 0 <= i < |xs| ==> ys[i] == f(xs[i])
  {
    seq(|xs|, i requires 0 <= i < |xs| => f(xs[i]))
  }

  // ---- Arrays of entries ---------------------------------------------------------

  // Every list of the grammar is one definite-length array whose entries take one, two or three
  // elements each; the array's length counts elements, not entries.

  function EncArrayOf<T>(k: nat, enc: T -> Bytes, xs: seq<T>): Bytes
    requires k * |xs| < TWO_64
  {
    EncArrayHead(k * |xs|) + ConcatMap(xs, enc)
  }

  function TryEncArrayOf<T>(k: nat, enc: T -> Option<Bytes>, xs: seq<T>): Option<Bytes>
    requires k * |xs| < TWO_64
  {
    var body :- TryConcatMap(xs, enc);
    Some(EncArrayHead(k * |xs|) + body)
  }

  lemma WholeEntries(k: nat, len: nat)
    requires k > 0
    ensures k * (len / k) <= len
    ensures len % k == 0 ==> len / k * k == len
  {
  }

  function DecArrayOf<T>(k: nat, dec: Bytes -> Parsed<T>, s: Bytes): (r: Parsed<seq<T>>)
    requires k > 0
    ensures r.Ok? ==> k * |r.value| < TWO_64
  {
    var (len, r) :- DecArrayHead(s);
    if len % k != 0 then Fail else
    WholeEntries(k, len);
    DecMany(len / k, dec, r)
  }

  // ---- Reading undoes writing --------------------------------------------------

  /** A run is read back as `ys` when each of its elements is read back as the one at its place in `ys`. */
  lemma {:induction false} ManyReadsBackAs<T>(
    xs: seq<T>, ys: seq<T>, enc: T -> Bytes, dec: Bytes -> Parsed<T>, rest: Bytes)
    requires |xs| == |ys|
    requires forall i :: 0 <= i < |xs| ==> ReadsBack(dec, enc(xs[i]), ys[i])
    ensures DecMany(|xs|, dec, ConcatMap(xs, enc) + rest) == Ok(ys, rest)
  {
    if xs == [] {
      NothingBefore(rest);
    } else {
      var tail := ConcatMap(xs[1..], enc);
      assert ReadsBack(dec, enc(xs[0]), ys[0]);
      Assoc(enc(xs[0]), tail, rest);
      ManyReadsBackAs(xs[1..], ys[1..], enc, dec, rest);
      assert [ys[0]] + ys[1..] == ys;
    }
  }

  /** The version for encoders that can fail; `ys` is what the elements are read back as. */
  lemma {:induction false} TryManyRoundTrip<T>(
    xs: seq<T>, ys: seq<T>, enc: T -> Option<Bytes>, dec: Bytes -> Parsed<T>, rest: Bytes)
    requires |xs| == |ys| && TryConcatMap(xs, enc).Some?
    requires forall i :: 0 <= i < |xs| && enc(xs[i]).Some? ==> ReadsBack(dec, enc(xs[i]).value, ys[i])
    ensures DecMany(|xs|, dec, TryConcatMap(xs, enc).value + rest) == Ok(ys, rest)
  {
    if xs == [] {
      NothingBefore(rest);
    } else {
      var head := enc(xs[0]).value;
      var tail := TryConcatMap(xs[1..], enc).value;
      assert ReadsBack(dec, head, ys[0]);
      Assoc(head, tail, rest);
      TryManyRoundTrip(xs[1..], ys[1..], enc, dec, rest);
      assert [ys[0]] + ys[1..] == ys;
    }
  }

  lemma {:induction false} TryConcatMapSucceeds<T>(xs: seq<T>, enc: T -> Option<Bytes>)
    ensures TryConcatMap(xs, enc).Some? <==> forall i :: 0 <= i < |xs| ==> enc(xs[i]).Some?
  {
    if xs != [] {
      TryConcatMapSucceeds(xs[1..], enc);
      assert forall i :: 0 <= i < |xs[1..]| ==> xs[1..][i] == xs[i + 1];
      if forall i :: 0 <= i < |xs[1..]| ==> enc(xs[1..][i]).Some? {
        forall i | 1 <= i < |xs|
          ensures enc(xs[i]).Some?
        {
          assert xs[i] == xs[1..][i - 1];
        }
      }
    }
  }

  lemma {:induction false} TryConcatMapAgrees<T>(xs: seq<T>, ys: seq<T>, enc: T -> Option<Bytes>)
    requires |xs| == |ys|
    requires forall i :: 0 <= i < |xs| ==> enc(xs[i]) == enc(ys[i])
    ensures TryConcatMap(xs, enc) == TryConcatMap(ys, enc)
  {
    if xs != [] {
      TryConcatMapAgrees(xs[1..], ys[1..], enc);
    }
  }

  lemma {:induction false} ConcatMapAgrees<T>(xs: seq<T>, ys: seq<T>, enc: T -> Bytes)
    requires |xs| == |ys|
    requires forall i :: 0 <= i < |xs| ==> enc(xs[i]) == enc(ys[i])
    ensures ConcatMap(xs, enc) == ConcatMap(ys, enc)
  {
    if xs != [] {
      ConcatMapAgrees(xs[1..], ys[1..], enc);
    }
  }

  // ---- What is read ------------------------------------------------------------

  lemma OneMoreGroup(n: nat, k: nat)
    requires n > 0
    ensures n * k == k + (n - 1) * k && (n - 1) * k >= 0
  {
  }

  /** A run of `n` elements of `k` items each is `n * k` items. */
  lemma {:induction false} ManyIsItems<T>(n: nat, k: nat, dec: Bytes -> Parsed<T>, s: Bytes)
    requires DecMany(n, dec, s).Ok? && ReadsItems(k, dec)
    ensures SkipItems(n * k, s) == Some(DecMany(n, dec, s).rest)
  {
    if n > 0 {
      var r := dec(s).rest;
      ManyIsItems(n - 1, k, dec, r);
      OneMoreGroup(n, k);
      ItemsThenItems(k, (n - 1) * k, s);
    }
  }

  lemma {:induction false} ManyYields<T(!new)>(n: nat, dec: Bytes -> Parsed<T>, good: T -> bool, s: Bytes)
    requires DecMany(n, dec, s).Ok? && Yields(dec, good)
    ensures forall i :: 0 <= i < n ==> good(DecMany(n, dec, s).value[i])
  {
    if n > 0 {
      ManyYields(n - 1, dec, good, dec(s).rest);
    }
  }

  lemma {:induction false} UntilBreakIsItems<T>(dec: Bytes -> Parsed<T>, s: Bytes)
    requires DecUntilBreak(dec, s).Ok? && ReadsItems(1, dec)
    ensures SkipUntilBreak(1, s) == Some(DecUntilBreak(dec, s).rest)
    decreases |s|
  {
    if s[0] != BREAK {
      UntilBreakIsItems(dec, dec(s).rest);
    }
  }

  lemma VecIsItem<T>(dec: Bytes -> Parsed<T>, s: Bytes)
    requires DecVec(dec, s).Ok? && ReadsItems(1, dec)
    ensures SkipItems(1, s) == Some(DecVec(dec, s).rest)
  {
    if TypeOf(s).ArrayIndef? {
      OneItem(s);
      UntilBreakIsItems(dec, s[1..]);
    } else {
      ArrayIsItem(s);
      ManyIsItems(DecArrayHead(s).value, 1, dec, DecArrayHead(s).rest);
    }
  }

  // ---- Facts for loops -----------------------------------------------------------

  /** Reading one more element moves it from what is left to what is done; failing to fails the run. */
  lemma ReadStep<T>(
    n: nat, left: nat, dec: Bytes -> Parsed<T>, start: Bytes, done: seq<T>, here: Bytes, x: Option<T>, next: Bytes)
    requires DecMany(n, dec, start) == After(done, DecMany(left + 1, dec, here))
    requires if dec(here).Ok? then x == Some(dec(here).value) && next == dec(here).rest else x.None?
    ensures x.None? ==> DecMany(n, dec, start).Fail?
    ensures x.Some? ==> DecMany(n, dec, start) == After(done + [x.value], DecMany(left, dec, next))
  {
    if x.Some? && DecMany(left, dec, next).Ok? {
      assert done + ([x.value] + DecMany(left, dec, next).value) == (done + [x.value]) + DecMany(left, dec, next).value;
    }
  }

  lemma ReadOneBeforeBreak<T>(dec: Bytes -> Parsed<T>, s: Bytes, done: seq<T>)
    requires s != [] && s[0] != BREAK
    ensures After(done, DecUntilBreak(dec, s)) ==
            if dec(s).Ok? && |dec(s).rest| < |s|
            then After(done + [dec(s).value], DecUntilBreak(dec, dec(s).rest)) else Fail
  {
    if dec(s).Ok? && |dec(s).rest| < |s| {
      var later := DecUntilBreak(dec, dec(s).rest);
      if later.Ok? {
        assert done + ([dec(s).value] + later.value) == (done + [dec(s).value]) + later.value;
      }
    }
  }

  lemma NothingDone<T>(later: Parsed<seq<T>>)
    ensures After([], later) == later
  {
    if later.Ok? {
      assert [] + later.value == later.value;
    }
  }

  lemma NothingLeft<T>(done: seq<T>, dec: Bytes -> Parsed<T>, s: Bytes)
    ensures After(done, DecMany(0, dec, s)) == Ok(done, s)
  {
    assert done + [] == done;
  }

  /** What a run writes when `written` was written before it. */
  function Prepended(written: Bytes, later: Option<Bytes>): Option<Bytes> {
    match later
    case None => None
    case Some(b) => Some(written + b)
  }

  lemma WriteOne<T>(xs: seq<T>, i: nat, enc: T -> Bytes, written: Bytes)
    requires i < |xs|
    ensures written + ConcatMap(xs[i..], enc) == (written + enc(xs[i])) + ConcatMap(xs[i + 1..], enc)
  {
    assert xs[i..][1..] == xs[i + 1..];
    Assoc(written, enc(xs[i]), ConcatMap(xs[i + 1..], enc));
  }

  lemma TryWriteOne<T>(xs: seq<T>, i: nat, enc: T -> Option<Bytes>, written: Bytes)
    requires i < |xs|
    ensures Prepended(written, TryConcatMap(xs[i..], enc)) ==
            if enc(xs[i]).Some? then Prepended(written + enc(xs[i]).value, TryConcatMap(xs[i + 1..], enc)) else None
  {
    assert xs[i..][1..] == xs[i + 1..];
    if enc(xs[i]).Some? && TryConcatMap(xs[i + 1..], enc).Some? {
      Assoc(written, enc(xs[i]).value, TryConcatMap(xs[i + 1..], enc).value);
    }
  }

  lemma NothingWritten(later: Option<Bytes>)
    ensures Prepended([], later) == later
  {
    if later.Some? {
      NothingBefore(later.value);
    }
  }

  // ---- Arrays of entries, both ways ------------------------------------------------

  lemma EntryCount(k: nat, n: nat)
    requires 1 <= k <= 3
    ensures k * n % k == 0 && k * n / k == n
  {
  }

  lemma ArrayOfRoundTrip<T>(k: nat, enc: T -> Bytes, dec: Bytes -> Parsed<T>, xs: seq<T>, rest: Bytes)
    requires 1 <= k <= 3 && k * |xs| < TWO_64
    requires forall i :: 0 <= i < |xs| ==> ReadsBack(dec, enc(xs[i]), xs[i])
    ensures DecArrayOf(k, dec, EncArrayOf(k, enc, xs) + rest) == Ok(xs, rest)
    ensures TypeOf(EncArrayOf(k, enc, xs) + rest) == Array
  {
    var body := ConcatMap(xs, enc);
    Assoc(EncArrayHead(k * |xs|), body, rest);
    ArrayHeadRoundTrip(k * |xs|, body + rest);
    EntryCount(k, |xs|);
    ManyReadsBackAs(xs, xs, enc, dec, rest);
  }

  lemma TryArrayOfRoundTrip<T>(
    k: nat, enc: T -> Option<Bytes>, dec: Bytes -> Parsed<T>, xs: seq<T>, ys: seq<T>, rest: Bytes)
    requires 1 <= k <= 3 && k * |xs| < TWO_64 && |xs| == |ys|
    requires TryEncArrayOf(k, enc, xs).Some?
    requires forall i :: 0 <= i < |xs| && enc(xs[i]).Some? ==> ReadsBack(dec, enc(xs[i]).value, ys[i])
    ensures DecArrayOf(k, dec, TryEncArrayOf(k, enc, xs).value + rest) == Ok(ys, rest)
    ensures TypeOf(TryEncArrayOf(k, enc, xs).value + rest) == Array
  {
    var body := TryConcatMap(xs, enc).value;
    Assoc(EncArrayHead(k * |xs|), body, rest);
    ArrayHeadRoundTrip(k * |xs|, body + rest);
    EntryCount(k, |xs|);
    TryManyRoundTrip(xs, ys, enc, dec, rest);
  }

  lemma ArrayOfIsItem<T>(k: nat, dec: Bytes -> Parsed<T>, s: Bytes)
    requires k > 0 && DecArrayOf(k, dec, s).Ok? && ReadsItems(k, dec)
    ensures SkipItems(1, s) == Some(DecArrayOf(k, dec, s).rest)
  {
    var head := DecArrayHead(s);
    ArrayIsItem(s);
    ManyIsItems(head.value / k, k, dec, head.rest);
    WholeEntries(k, head.value);
  }

  lemma ArrayOfYields<T(!new)>(k: nat, dec: Bytes -> Parsed<T>, good: T -> bool, s: Bytes)
    requires k > 0 && DecArrayOf(k, dec, s).Ok? && Yields(dec, good)
    ensures forall x :: x in DecArrayOf(k, dec, s).value ==> good(x)
  {
    var head := DecArrayHead(s);
    ManyYields(head.value / k, dec, good, head.rest);
  }
}
