/** Decoding a byte stream frame by frame, for any framing whose verdict more bytes do not change. */
module FrameStream {
  import opened Bits

  /** What a framing says about the first frame of a buffer. */
  datatype Step<+M, +E> =
    | Need                                  // the first frame is not complete yet
    | Emit(messages: seq<M>, size: nat)     // a complete frame, `size` bytes long
    | Bad(error: E)                         // decoding the first frame throws

  /** What decoding a whole buffer gives; `at` is the offset of the frame that threw. */
  datatype Outcome<+M, +E> =
    | Done(messages: seq<M>, consumed: nat)
    | Threw(messages: seq<M>, error: E, at: nat)

  ghost predicate Stable<M(!new), E(!new)>(step: seq<Byte> -> Step<M, E>) {
    forall a, b: seq<Byte> {:trigger step(a + b)} :: !step(a).Need? ==> step(a + b) == step(a)
  }

  ghost predicate Progress<M(!new), E(!new)>(step: seq<Byte> -> Step<M, E>) {
    && step([]).Need?
    && forall s {:trigger step(s)} :: step(s).Emit? ==> 0 < step(s).size <= |s|
  }

  ghost predicate Framing<M(!new), E(!new)>(step: seq<Byte> -> Step<M, E>) {
    Stable(step) && Progress(step)
  }

  /** The outcome `o` of the bytes that follow a prefix of n bytes which gave `ms`. */
  function After<M, E>(ms: seq<M>, n: nat, o: Outcome<M, E>): Outcome<M, E> {
    match o
    case Done(ms', k) => Done(ms + ms', n + k)
    case Threw(ms', e, at) => Threw(ms + ms', e, n + at)
  }

  ghost function Scan<M(!new), E(!new)>(step: seq<Byte> -> Step<M, E>, s: seq<Byte>): (o: Outcome<M, E>)
    requires Progress(step)
    ensures o.Done? ==> o.consumed <= |s|
    decreases |s|
  {
    match step(s)
    case Need => Done([], 0)
    case Bad(e) => Threw([], e, 0)
    case Emit(ms, n) => After(ms, n, Scan(step, s[n..]))
  }

  lemma AfterAfter<M, E>(ms: seq<M>, n: nat, ms': seq<M>, n': nat, o: Outcome<M, E>)
    ensures After(ms, n, After(ms', n', o)) == After(ms + ms', n + n', o)
  {
    assert ms + (ms' + o.messages) == (ms + ms') + o.messages;
  }

  /**
    * Decoding a, then decoding what it left over followed by b, is decoding a + b;
    * when decoding a throws, more bytes change nothing.
    */
  lemma {:induction false} ScanAppend<M(!new), E(!new)>(step: seq<Byte> -> Step<M, E>, a: seq<Byte>, b: seq<Byte>)
    requires Framing(step)
    ensures Scan(step, a).Threw? ==> Scan(step, a + b) == Scan(step, a)
    ensures Scan(step, a).Done? ==>
              var k := Scan(step, a).consumed;
              Scan(step, a + b) == After(Scan(step, a).messages, k, Scan(step, a[k..] + b))
    decreases |a|
  {
    match step(a)
    case Bad(_) =>
      StepAppend(step, a, b);
    case Need =>
      assert a[0..] + b == a + b;
      AfterNothing(Scan(step, a + b));
    case Emit(ms, n) =>
      StepAppend(step, a, b);
      assert (a + b)[n..] == a[n..] + b;
      ScanAppend(step, a[n..], b);
      var rest := Scan(step, a[n..]);
      if rest.Done? {
        var k := rest.consumed;
        assert a[n..][k..] == a[n + k..];
        AfterAfter(ms, n, rest.messages, k, Scan(step, a[n + k..] + b));
        EmitAppend(ms, n, rest, Scan(step, a[n + k..] + b), Scan(step, a), Scan(step, a + b), Scan(step, a[n..] + b));
      }
  }

  lemma StepAppend<M(!new), E(!new)>(step: seq<Byte> -> Step<M, E>, a: seq<Byte>, b: seq<Byte>)
    requires Framing(step) && !step(a).Need?
    ensures step(a + b) == step(a)
  {
  }

  lemma AfterNothing<M, E>(o: Outcome<M, E>)
    ensures After([], 0, o) == o
  {
    assert [] + o.messages == o.messages;
  }

  lemma EmitAppend<M, E>(ms: seq<M>, n: nat, rest: Outcome<M, E>, more: Outcome<M, E>,
                         first: Outcome<M, E>, both: Outcome<M, E>, tail: Outcome<M, E>)
    requires rest.Done?
    requires first == After(ms, n, rest) && both == After(ms, n, tail)
    requires tail == After(rest.messages, rest.consumed, more)
    ensures both == After(first.messages, n + rest.consumed, more)
  {
    AfterAfter(ms, n, rest.messages, rest.consumed, more);
  }

  /** What a successful decode leaves over holds no complete frame: decoding it again yields nothing. */
  lemma {:induction false} LeftoverIsDry<M(!new), E(!new)>(step: seq<Byte> -> Step<M, E>, s: seq<Byte>)
    requires Framing(step)
    requires Scan(step, s).Done?
    ensures step(s[Scan(step, s).consumed..]).Need?
    ensures Scan(step, s[Scan(step, s).consumed..]) == Done([], 0)
    decreases |s|
  {
    match step(s)
    case Need =>
      assert s[0..] == s;
    case Emit(ms, n) =>
      LeftoverIsDry(step, s[n..]);
      assert s[n..][Scan(step, s[n..]).consumed..] == s[Scan(step, s).consumed..];
  }
}
