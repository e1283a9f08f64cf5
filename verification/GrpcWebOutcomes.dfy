/** What each kind of gRPC-Web frame does to a call, stated by flag byte, trailer and payload alone. */
module GrpcWebOutcomes {
  import opened Wrappers
  import opened Sequences
  import opened Bits
  import opened FrameStream
  import opened GrpcWeb

  /** A frame on the wire: the flag, four bytes of length with the highest first, the payload. */
  lemma FrameLayout(flag: Byte, p: seq<Byte>)
    requires |p| < 0x1_0000_0000
    ensures FrameBytes(Frame(flag, p)) ==
            [flag, |p| / 0x100_0000, |p| / 0x1_0000 % 0x100, |p| / 0x100 % 0x100, |p| % 0x100] + p
  {
    BigEndianDigits(|p|);
    assert [flag] + BigEndianBytes(|p|) ==
           [flag, |p| / 0x100_0000, |p| / 0x1_0000 % 0x100, |p| / 0x100 % 0x100, |p| % 0x100];
  }

  // ---- One frame

  lemma TrailerFails<M(!new)>(c: Codec<M>, p: seq<Byte>, rest: seq<Byte>)
    requires |p| < 0x1_0000_0000 && c.trailer(p).status != 0
    ensures var s := FrameBytes(Frame(0x80, p)) + rest;
            Decoded(c, s) == Whole(c, s) == Threw([], GrpcStatus(c.trailer(p).status, c.trailer(p).message), 0)
  {
    FrameDecodesBoth(c, Frame(0x80, p), rest);
  }

  lemma TrailerPasses<M(!new)>(c: Codec<M>, p: seq<Byte>, rest: seq<Byte>)
    requires |p| < 0x1_0000_0000 && c.trailer(p).status == 0
    ensures var s := FrameBytes(Frame(0x80, p)) + rest;
            && Decoded(c, s) == After([], 5 + |p|, Decoded(c, rest))
            && Whole(c, s) == After([], 5 + |p|, Whole(c, rest))
  {
    FrameDecodesBoth(c, Frame(0x80, p), rest);
  }

  lemma DataFails<M(!new)>(c: Codec<M>, p: seq<Byte>, rest: seq<Byte>)
    requires |p| < 0x1_0000_0000 && c.parse(p) == None
    ensures var s := FrameBytes(Frame(0x00, p)) + rest;
            Decoded(c, s) == Whole(c, s) == Threw([], BadPayload, 0)
  {
    FrameDecodesBoth(c, Frame(0x00, p), rest);
  }

  lemma DataPasses<M(!new)>(c: Codec<M>, p: seq<Byte>, m: M, rest: seq<Byte>)
    requires |p| < 0x1_0000_0000 && c.parse(p) == Some(m)
    ensures var s := FrameBytes(Frame(0x00, p)) + rest;
            && Decoded(c, s) == After([m], 5 + |p|, Decoded(c, rest))
            && Whole(c, s) == After([m], 5 + |p|, Whole(c, rest))
  {
    FrameDecodesBoth(c, Frame(0x00, p), rest);
  }

  lemma OtherFlagFails<M(!new)>(c: Codec<M>, flag: Byte, p: seq<Byte>, rest: seq<Byte>)
    requires |p| < 0x1_0000_0000 && flag != 0x00 && flag != 0x80
    ensures var s := FrameBytes(Frame(flag, p)) + rest;
            Decoded(c, s) == Whole(c, s) == Threw([], UnknownFlag(flag), 0)
  {
    FrameDecodesBoth(c, Frame(flag, p), rest);
  }

  lemma FrameDecodesBoth<M(!new)>(c: Codec<M>, f: Frame, rest: seq<Byte>)
    requires Encodable(f)
    ensures var s := FrameBytes(f) + rest;
            match FrameStep(c, f)
            case Bad(e) => Decoded(c, s) == Whole(c, s) == Threw([], e, 0)
            case Emit(ms, n) =>
              Decoded(c, s) == After(ms, n, Decoded(c, rest)) && Whole(c, s) == After(ms, n, Whole(c, rest))
  {
    FrameThenBytes(f, rest);
    FrameDecodes(c, f, rest);
    WholeUnfold(c, FrameBytes(f) + rest);
  }

  /** The length field of a frame, the highest byte first. */
  function FieldOf(s: seq<Byte>): nat
    requires |s| >= 5
  {
    0x100_0000 * s[1] as int + 0x1_0000 * s[2] as int + 0x100 * s[3] as int + s[4] as int
  }

  /**
    * What is shorter than its length field says is left over; only the whole-buffer decoder fails on
    * it, when its flag is not that of a data frame.
    */
  lemma CutShort<M(!new)>(c: Codec<M>, s: seq<Byte>)
    requires |s| < 5 || |s| < 5 + FieldOf(s)
    ensures Decoded(c, s) == Done([], 0)
    ensures Whole(c, s) ==
            if |s| < 5 || s[0] == 0x00 then Done([], 0)
            else Threw([], if s[0] == 0x80 then OutOfRange else UnknownFlag(s[0]), 0)
  {
    if |s| >= 5 {
      BigEndianValue(s[1], s[2], s[3], s[4]);
      assert s[1..5] == [s[1], s[2], s[3], s[4]];
    }
    DecodedUnfold(c, s);
    WholeUnfold(c, s);
  }

  // ---- A list of frames

  predicate Passes<M>(c: Codec<M>, f: Frame) {
    || (f.flag == 0x80 && c.trailer(f.payload).status == 0)
    || (f.flag == 0x00 && c.parse(f.payload).Some?)
  }

  predicate AllPass<M>(c: Codec<M>, fs: seq<Frame>) {
    forall i | 0 <= i < |fs| :: Passes(c, fs[i])
  }

  /** The messages in the data frames. */
  function Messages<M>(c: Codec<M>, fs: seq<Frame>): seq<M> {
    if fs == [] then []
    else
      (if fs[0].flag == 0x00 && c.parse(fs[0].payload).Some? then [c.parse(fs[0].payload).value] else [])
      + Messages(c, fs[1..])
  }

  function Size(fs: seq<Frame>): nat {
    if fs == [] then 0 else 5 + |fs[0].payload| + Size(fs[1..])
  }

  function ErrorOf<M>(c: Codec<M>, f: Frame): Failure {
    if f.flag == 0x80 then GrpcStatus(c.trailer(f.payload).status, c.trailer(f.payload).message)
    else if f.flag == 0x00 then BadPayload
    else UnknownFlag(f.flag)
  }

  predicate AllEncodable(fs: seq<Frame>) {
    forall f <- fs :: |f.payload| < 0x1_0000_0000
  }

  /** The frame at i is the first that does not pass. */
  predicate FailsAt<M>(c: Codec<M>, fs: seq<Frame>, i: nat) {
    i < |fs| && AllPass(c, fs[..i]) && !Passes(c, fs[i])
  }

  lemma FirstFrameOutcome<M(!new)>(c: Codec<M>, f: Frame, rest: seq<Byte>)
    requires |f.payload| < 0x1_0000_0000
    ensures var s := FrameBytes(f) + rest;
            if Passes(c, f)
            then Decoded(c, s) == After(Messages(c, [f]), 5 + |f.payload|, Decoded(c, rest))
            else Decoded(c, s) == Threw([], ErrorOf(c, f), 0)
  {
    var p := f.payload;
    assert f == Frame(f.flag, p) && [f][1..] == [];
    if f.flag == 0x80 && c.trailer(p).status != 0 {
      TrailerFails(c, p, rest);
    } else if f.flag == 0x80 {
      TrailerPasses(c, p, rest);
    } else if f.flag != 0x00 {
      OtherFlagFails(c, f.flag, p, rest);
    } else if c.parse(p).None? {
      DataFails(c, p, rest);
    } else {
      DataPasses(c, p, c.parse(p).value, rest);
    }
  }

  lemma FramesSplit<M>(c: Codec<M>, fs: seq<Frame>, tail: seq<Byte>)
    requires fs != [] && AllEncodable(fs)
    ensures FramesBytes(fs) + tail == FrameBytes(fs[0]) + (FramesBytes(fs[1..]) + tail)
    ensures Messages(c, [fs[0]]) + Messages(c, fs[1..]) == Messages(c, fs)
  {
    assert [fs[0]][1..] == [];
  }

  /** The first frame of a list, with the others and more bytes behind it. */
  lemma FirstOfList<M(!new)>(c: Codec<M>, fs: seq<Frame>, tail: seq<Byte>)
    requires fs != [] && AllEncodable(fs)
    ensures AllEncodable(fs[1..])
    ensures var o := Decoded(c, FramesBytes(fs) + tail);
            if Passes(c, fs[0])
            then o == After(Messages(c, [fs[0]]), 5 + |fs[0].payload|, Decoded(c, FramesBytes(fs[1..]) + tail))
            else o == Threw([], ErrorOf(c, fs[0]), 0)
  {
    FramesSplit(c, fs, tail);
    FirstFrameOutcome(c, fs[0], FramesBytes(fs[1..]) + tail);
  }

  /** When every frame passes, the call yields the messages of the data frames and consumes all of them. */
  lemma {:induction false} AllYield<M(!new)>(c: Codec<M>, fs: seq<Frame>, tail: seq<Byte>)
    requires AllEncodable(fs) && AllPass(c, fs) && !CompleteFrame(tail)
    ensures Decoded(c, FramesBytes(fs) + tail) == Done(Messages(c, fs), Size(fs))
  {
    if fs == [] {
      DecodeFrames(c, fs, tail);
    } else {
      FramesSplit(c, fs, tail);
      FirstFrameOutcome(c, fs[0], FramesBytes(fs[1..]) + tail);
      AllYield(c, fs[1..], tail);
    }
  }

  lemma PassBehind<M>(c: Codec<M>, fs: seq<Frame>, i: nat)
    requires i > 0 && FailsAt(c, fs, i)
    ensures Passes(c, fs[0]) && FailsAt(c, fs[1..], i - 1)
    ensures Messages(c, [fs[0]]) + Messages(c, fs[1..][..i - 1]) == Messages(c, fs[..i])
    ensures 5 + |fs[0].payload| + Size(fs[1..][..i - 1]) == Size(fs[..i])
  {
    assert fs[..i][0] == fs[0] && [fs[0]][1..] == [];
    var rest := fs[1..][..i - 1];
    assert fs[..i][1..] == rest;
    forall k | 0 <= k < |rest|
      ensures Passes(c, rest[k])
    {
      assert rest[k] == fs[..i][k + 1];
    }
  }

  /** The first frame that does not pass ends the call with its error, behind the messages of the frames before it. */
  lemma {:induction false} FirstFailureEnds<M(!new)>(c: Codec<M>, fs: seq<Frame>, i: nat, tail: seq<Byte>)
    requires AllEncodable(fs) && FailsAt(c, fs, i)
    ensures Decoded(c, FramesBytes(fs) + tail) == Threw(Messages(c, fs[..i]), ErrorOf(c, fs[i]), Size(fs[..i]))
  {
    FirstOfList(c, fs, tail);
    if i == 0 {
      assert fs[..0] == [];
    } else {
      PassBehind(c, fs, i);
      FirstFailureEnds(c, fs[1..], i - 1, tail);
    }
  }

  /** A first failure is found, or every frame passes. */
  lemma {:induction false} FindFailure<M>(c: Codec<M>, fs: seq<Frame>, n: nat) returns (i: nat)
    requires n <= |fs| && AllPass(c, fs[..n])
    ensures FailsAt(c, fs, i) || (i == |fs| && AllPass(c, fs))
    decreases |fs| - n
  {
    if n == |fs| {
      assert fs[..n] == fs;
      i := n;
    } else if !Passes(c, fs[n]) {
      i := n;
    } else {
      assert fs[..n + 1] == fs[..n] + [fs[n]];
      i := FindFailure(c, fs, n + 1);
    }
  }

  /** The call ends with this status and message. */
  ghost predicate EndsWith<M>(c: Codec<M>, fs: seq<Frame>, status: nat, message: string) {
    exists i: nat :: FailsAt(c, fs, i) && fs[i].flag == 0x80 && c.trailer(fs[i].payload) == Trailer(status, message)
  }

  /** Decoding throws a status that is not zero if and only if the first frame that does not pass is its trailer. */
  lemma StatusExactly<M(!new)>(c: Codec<M>, fs: seq<Frame>, tail: seq<Byte>, status: nat, message: string)
    requires AllEncodable(fs) && !CompleteFrame(tail) && status != 0
    ensures var o := Decoded(c, FramesBytes(fs) + tail);
            (o.Threw? && o.error == GrpcStatus(status, message)) <==> EndsWith(c, fs, status, message)
  {
    var i := FindFailure(c, fs, 0);
    if FailsAt(c, fs, i) {
      FirstFailureEnds(c, fs, i, tail);
    } else {
      AllYield(c, fs, tail);
    }
    if j: nat :| FailsAt(c, fs, j) && fs[j].flag == 0x80 && c.trailer(fs[j].payload) == Trailer(status, message) {
      FirstFailureEnds(c, fs, j, tail);
    }
  }

  /** However the response is cut into chunks, the reader reports a status exactly then. */
  lemma StatusReported<M(!new)>(c: Codec<M>, fs: seq<Frame>, tail: seq<Byte>, chunks: seq<seq<Byte>>, r: Reading<M>,
        status: nat, message: string)
    requires AllEncodable(fs) && !CompleteFrame(tail) && status != 0
    requires Concat(chunks) == FramesBytes(fs) + tail && ReadsAsWhole(c, chunks, r)
    ensures (r.failure.Some? && r.failure.value.0 == GrpcStatus(status, message)) <==> EndsWith(c, fs, status, message)
  {
    StatusExactly(c, fs, tail, status, message);
  }
}
