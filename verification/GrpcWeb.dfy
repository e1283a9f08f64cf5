/** gRPC-Web framing of packages/sdk/src/grpc-client.ts: the encoder, both decoders, and reading in chunks. */
module GrpcWeb {
  import opened Wrappers
  import opened Sequences
  import opened Bits
  import opened FrameStream

  const DATA_FRAME_FLAG: Byte := 0x00
  const TRAILER_FRAME_FLAG: Byte := 0x80
  const HEADER_BYTES := 5

  /** The status and message that the two regular expressions find in a trailer. */
  datatype Trailer = Trailer(status: nat, message: string)

  /**
    * JSON text and trailer text are opaque here: `write` is
    * `TextEncoder.encode(JSON.stringify(m))`, `parse` is `JSON.parse` of the decoded
    * text (None where it throws), and `trailer` reads `grpc-status` and `grpc-message`.
    */
  datatype Codec<!M> = Codec(write: M -> seq<Byte>, parse: seq<Byte> -> Option<M>, trailer: seq<Byte> -> Trailer)

  datatype Failure =
    | GrpcStatus(status: nat, message: string)  // GrpcClientError from a trailer
    | UnknownFlag(flag: Byte)                   // GrpcClientError 13, its message names flag and offset
    | BadPayload                                // SyntaxError from JSON.parse
    | OutOfRange                                // RangeError from a view past the end of the buffer

  // ---- Frames

  datatype Frame = Frame(flag: Byte, payload: seq<Byte>)

  predicate Encodable(f: Frame) {
    |f.payload| < TWO_32
  }

  function FrameBytes(f: Frame): (s: seq<Byte>)
    requires Encodable(f)
    ensures |s| == HEADER_BYTES + |f.payload|
  {
    [f.flag] + BigEndianBytes(|f.payload|) + f.payload
  }

  function FramesBytes(fs: seq<Frame>): (s: seq<Byte>)
    requires forall f <- fs :: Encodable(f)
  {
    if fs == [] then [] else FrameBytes(fs[0]) + FramesBytes(fs[1..])
  }

  /** What one frame means to a client, apart from how it is written in bytes. */
  function FrameStep<M>(c: Codec<M>, f: Frame): (step: Step<M, Failure>)
    ensures step.Bad? || (step.Emit? && step.size == HEADER_BYTES + |f.payload|)
  {
    if f.flag == TRAILER_FRAME_FLAG then
      var t := c.trailer(f.payload);
      if t.status != 0 then Bad(GrpcStatus(t.status, t.message)) else Emit([], HEADER_BYTES + |f.payload|)
    else if f.flag != DATA_FRAME_FLAG then Bad(UnknownFlag(f.flag))
    else
      match c.parse(f.payload)
      case None => Bad(BadPayload)
      case Some(m) => Emit([m], HEADER_BYTES + |f.payload|)
  }

  /** What a list of frames means: messages in order up to the first frame that throws. */
  function Meaning<M>(c: Codec<M>, fs: seq<Frame>): (o: Outcome<M, Failure>) {
    if fs == [] then Done([], 0)
    else
      match FrameStep(c, fs[0])
      case Bad(e) => Threw([], e, 0)
      case Emit(ms, n) => After(ms, n, Meaning(c, fs[1..]))
  }

  // ---- One step of the incremental decoder

  predicate CompleteFrame(s: seq<Byte>) {
    HEADER_BYTES <= |s| && HEADER_BYTES + BigEndian(s[1..5]) <= |s|
  }

  function FirstFrame(s: seq<Byte>): (f: Frame)
    requires CompleteFrame(s)
    ensures Encodable(f)
  {
    Frame(s[0], s[5..5 + BigEndian(s[1..5])])
  }

  function IncrementalStep<M>(c: Codec<M>, s: seq<Byte>): Step<M, Failure> {
    if CompleteFrame(s) then FrameStep(c, FirstFrame(s)) else Need
  }

  function Incremental<M>(c: Codec<M>): seq<Byte> -> Step<M, Failure> {
    s => IncrementalStep(c, s)
  }

  lemma FirstFrameStable(a: seq<Byte>, b: seq<Byte>)
    requires CompleteFrame(a)
    ensures CompleteFrame(a + b) && FirstFrame(a + b) == FirstFrame(a)
  {
    assert (a + b)[1..5] == a[1..5];
    var n := 5 + BigEndian(a[1..5]);
    assert (a + b)[5..n] == a[5..n];
  }

  lemma IncrementalIsFraming<M(!new)>(c: Codec<M>)
    ensures Framing(Incremental(c))
  {
    forall a, b: seq<Byte> | !Incremental(c)(a).Need?
      ensures Incremental(c)(a + b) == Incremental(c)(a)
    {
      FirstFrameStable(a, b);
    }
  }

  /** Decoding the whole buffer with the incremental decoder. */
  ghost function Decoded<M(!new)>(c: Codec<M>, s: seq<Byte>): (o: Outcome<M, Failure>)
    ensures o.Done? ==> o.consumed <= |s|
  {
    IncrementalIsFraming(c);
    Scan(Incremental(c), s)
  }

  // ---- Frames and bytes

  lemma FrameThenBytes(f: Frame, rest: seq<Byte>)
    requires Encodable(f)
    ensures CompleteFrame(FrameBytes(f) + rest) && FirstFrame(FrameBytes(f) + rest) == f
    ensures (FrameBytes(f) + rest)[HEADER_BYTES + |f.payload|..] == rest
  {
    var s := FrameBytes(f) + rest;
    var n := |f.payload|;
    assert s[1..5] == BigEndianBytes(n);
    BigEndianRoundTrip(n);
    assert s[5..5 + n] == f.payload;
  }

  /** A complete frame is its own encoding. */
  lemma FirstFrameBytes(s: seq<Byte>)
    requires CompleteFrame(s)
    ensures FrameBytes(FirstFrame(s)) == s[..5 + BigEndian(s[1..5])]
  {
    BigEndianBytesRoundTrip(s[1..5]);
    assert s[..5] == [s[0]] + s[1..5];
  }

  /** Bytes that start with a written frame: what that frame means, and then the rest. */
  lemma FrameDecodes<M(!new)>(c: Codec<M>, f: Frame, rest: seq<Byte>)
    requires Encodable(f)
    ensures Decoded(c, FrameBytes(f) + rest) ==
              match FrameStep(c, f)
              case Bad(e) => Threw([], e, 0)
              case Emit(ms, n) => After(ms, n, Decoded(c, rest))
  {
    IncrementalIsFraming(c);
    FrameThenBytes(f, rest);
  }

  /**
    * The decoder inverts the encoder: bytes written from any list of frames, followed by
    * any incomplete frame, decode to the meaning of the list.
    */
  lemma {:induction false} DecodeFrames<M(!new)>(c: Codec<M>, fs: seq<Frame>, tail: seq<Byte>)
    requires forall f <- fs :: Encodable(f)
    requires !CompleteFrame(tail)
    ensures Decoded(c, FramesBytes(fs) + tail) == Meaning(c, fs)
  {
    if fs == [] {
      assert FramesBytes(fs) + tail == tail;
    } else {
      var rest := FramesBytes(fs[1..]) + tail;
      assert FramesBytes(fs) + tail == FrameBytes(fs[0]) + rest;
      FrameDecodes(c, fs[0], rest);
      DecodeFrames(c, fs[1..], tail);
    }
  }

  /** Every buffer is a list of frames followed by an incomplete frame. */
  lemma {:induction false} Decompose(s: seq<Byte>) returns (fs: seq<Frame>, tail: seq<Byte>)
    ensures forall f <- fs :: Encodable(f)
    ensures s == FramesBytes(fs) + tail && !CompleteFrame(tail)
    decreases |s|
  {
    if CompleteFrame(s) {
      var f := FirstFrame(s);
      var n := HEADER_BYTES + |f.payload|;
      FirstFrameBytes(s);
      fs, tail := Decompose(s[n..]);
      assert s == s[..n] + s[n..];
      var all := [f] + fs;
      assert all[1..] == fs;
      assert FramesBytes(all) + tail == FrameBytes(f) + (FramesBytes(fs) + tail);
      fs := all;
    } else {
      fs, tail := [], s;
    }
  }

  /** The bytes consumed are whole frames, and no longer prefix is. */
  lemma ConsumedIsLongestFramePrefix<M(!new)>(c: Codec<M>, s: seq<Byte>)
    requires Decoded(c, s).Done?
    ensures exists fs ::
              (forall f <- fs :: Encodable(f)) && s[..Decoded(c, s).consumed] == FramesBytes(fs)
    ensures forall fs: seq<Frame> | (forall f <- fs :: Encodable(f)) && FramesBytes(fs) <= s ::
              |FramesBytes(fs)| <= Decoded(c, s).consumed
  {
    var fs, tail := Decompose(s);
    DecodeFrames(c, fs, tail);
    MeaningConsumesAll(c, fs);
    assert s[..Decoded(c, s).consumed] == FramesBytes(fs);
    forall gs: seq<Frame> | (forall f <- gs :: Encodable(f)) && FramesBytes(gs) <= s
      ensures |FramesBytes(gs)| <= Decoded(c, s).consumed
    {
      FramePrefixConsumed(c, gs, s);
    }
  }

  lemma {:induction false} MeaningConsumesAll<M>(c: Codec<M>, fs: seq<Frame>)
    requires forall f <- fs :: Encodable(f)
    requires Meaning(c, fs).Done?
    ensures Meaning(c, fs).consumed == |FramesBytes(fs)|
  {
    if fs == [] {
    } else {
      MeaningConsumesAll(c, fs[1..]);
    }
  }

  lemma {:induction false} FramePrefixConsumed<M(!new)>(c: Codec<M>, fs: seq<Frame>, s: seq<Byte>)
    requires forall f <- fs :: Encodable(f)
    requires FramesBytes(fs) <= s && Decoded(c, s).Done?
    ensures |FramesBytes(fs)| <= Decoded(c, s).consumed
  {
    IncrementalIsFraming(c);
    if fs == [] {
    } else {
      var n := |FrameBytes(fs[0])|;
      FrameThenBytes(fs[0], s[n..]);
      assert s == FrameBytes(fs[0]) + s[n..];
      FramePrefixConsumed(c, fs[1..], s[n..]);
    }
  }

  // ---- The encoder

  /** `encodeDataFrame`: the frame is allocated once and its bytes written in place. */
  method EncodeDataFrame<M>(c: Codec<M>, message: M) returns (frame: array<Byte>)
    ensures fresh(frame)
    ensures var payload := c.write(message);
            && frame[..] == [0x00] + BigEndianBytes(|payload| % TWO_32) + payload
            && (|payload| < TWO_32 ==> frame[..] == FrameBytes(Frame(0x00, payload)))
  {
    var payload := c.write(message);
    var n := |payload|;
    frame := new Byte[5 + n];
    frame[0] := DATA_FRAME_FLAG;
    var digits := MaskedBytes(n);
    MaskedBytesAreDigits(n);
    frame[1] := digits[0];
    frame[2] := digits[1];
    frame[3] := digits[2];
    frame[4] := digits[3];
    forall i | 0 <= i < n {
      frame[5 + i] := payload[i];
    }
    assert frame[..5] == [DATA_FRAME_FLAG] + BigEndianBytes(n % TWO_32);
    assert frame[5..] == payload;
    assert frame[..] == frame[..5] + frame[5..];
  }

  function DataFrames<M>(c: Codec<M>, messages: seq<M>): (fs: seq<Frame>)
    ensures |fs| == |messages|
  {
    seq(|messages|, i requires 0 <= i < |messages| => Frame(DATA_FRAME_FLAG, c.write(messages[i])))
  }

  /** The request body of a client-streaming call: one encoded frame after another. */
  method EncodeStream<M>(c: Codec<M>, messages: seq<M>) returns (body: seq<Byte>)
    requires forall m <- messages :: |c.write(m)| < TWO_32
    ensures body == FramesBytes(DataFrames(c, messages))
  {
    var frameBuffers: seq<seq<Byte>> := [];
    for i := 0 to |messages|
      invariant |frameBuffers| == i
      invariant forall j | 0 <= j < i :: frameBuffers[j] == FrameBytes(DataFrames(c, messages)[j])
    {
      var frame := EncodeDataFrame(c, messages[i]);
      frameBuffers := frameBuffers + [frame[..]];
    }
    ConcatFrames(frameBuffers, DataFrames(c, messages));
    body := Concat(frameBuffers);
  }

  lemma {:induction false} ConcatFrames(buffers: seq<seq<Byte>>, fs: seq<Frame>)
    requires |buffers| == |fs|
    requires forall f <- fs :: Encodable(f)
    requires forall j | 0 <= j < |fs| :: buffers[j] == FrameBytes(fs[j])
    ensures Concat(buffers) == FramesBytes(fs)
  {
    if fs == [] {
    } else {
      ConcatFrames(buffers[1..], fs[1..]);
    }
  }

  /** Frame round trip: what a stream of messages is encoded to decodes to the same messages. */
  lemma {:induction false} StreamRoundTrip<M(!new)>(c: Codec<M>, messages: seq<M>)
    requires forall m <- messages :: |c.write(m)| < TWO_32 && c.parse(c.write(m)) == Some(m)
    ensures var body := FramesBytes(DataFrames(c, messages));
            Decoded(c, body) == Whole(c, body) == Done(messages, |body|)
  {
    var fs := DataFrames(c, messages);
    var body := FramesBytes(fs);
    assert body + [] == body;
    DecodeFrames(c, fs, []);
    MeaningOfData(c, messages);
    MeaningConsumesAll(c, fs);
    DecodersAgree(c, body);
  }

  lemma {:induction false} MeaningOfData<M>(c: Codec<M>, messages: seq<M>)
    requires forall m <- messages :: c.parse(c.write(m)) == Some(m)
    ensures Meaning(c, DataFrames(c, messages)).Done?
    ensures Meaning(c, DataFrames(c, messages)).messages == messages
  {
    if messages == [] {
    } else {
      MeaningOfData(c, messages[1..]);
      assert DataFrames(c, messages)[1..] == DataFrames(c, messages[1..]);
      assert messages[0] in messages;
    }
  }

  // ---- The whole-buffer decoder

  /**
    * One step of `decodeAllDataFrames`, which looks at the flag, and takes its view of a
    * trailer, before it checks that the frame is complete.
    */
  function WholeStep<M>(c: Codec<M>, s: seq<Byte>): Step<M, Failure> {
    if |s| < HEADER_BYTES then Need
    else if CompleteFrame(s) then FrameStep(c, FirstFrame(s))
    else if s[0] == TRAILER_FRAME_FLAG then Bad(OutOfRange)
    else if s[0] != DATA_FRAME_FLAG then Bad(UnknownFlag(s[0]))
    else Need
  }

  function WholeBuffer<M>(c: Codec<M>): seq<Byte> -> Step<M, Failure> {
    s => WholeStep(c, s)
  }

  ghost function Whole<M(!new)>(c: Codec<M>, s: seq<Byte>): (o: Outcome<M, Failure>)
    ensures o.Done? ==> o.consumed <= |s|
  {
    Scan(WholeBuffer(c), s)
  }

  lemma WholeUnfold<M(!new)>(c: Codec<M>, s: seq<Byte>)
    ensures Whole(c, s) ==
            match WholeStep(c, s)
            case Need => Done([], 0)
            case Bad(e) => Threw([], e, 0)
            case Emit(ms, n) => After(ms, n, Whole(c, s[n..]))
  {
  }

  /** The tails on which the whole-buffer decoder stops quietly, as the incremental one does. */
  predicate QuietTail(tail: seq<Byte>) {
    |tail| < HEADER_BYTES || tail[0] == DATA_FRAME_FLAG
  }

  /**
    * The two decoders agree on every buffer except those that end in an incomplete frame
    * whose flag is not the data flag, where the whole-buffer decoder throws.
    */
  lemma {:induction false} DecodersAgree<M(!new)>(c: Codec<M>, s: seq<Byte>)
    ensures Decoded(c, s).Threw? ==> Whole(c, s) == Decoded(c, s)
    ensures Decoded(c, s).Done? ==>
              var tail := s[Decoded(c, s).consumed..];
              Whole(c, s) ==
              if QuietTail(tail) then Decoded(c, s)
              else Threw(Decoded(c, s).messages,
                         if tail[0] == TRAILER_FRAME_FLAG then OutOfRange else UnknownFlag(tail[0]),
                         Decoded(c, s).consumed)
    decreases |s|
  {
    DecodedUnfold(c, s);
    WholeUnfold(c, s);
    match IncrementalStep(c, s)
    case Need =>
      assert s[0..] == s;
    case Bad(_) =>
    case Emit(ms, n) =>
      DecodersAgree(c, s[n..]);
      if Decoded(c, s[n..]).Done? {
        assert s[n..][Decoded(c, s[n..]).consumed..] == s[Decoded(c, s).consumed..];
      }
  }

  /** A trailer cut short behind its header: the incremental decoder waits for more, the whole-buffer decoder throws. */
  lemma TruncatedTrailer<M(!new)>(c: Codec<M>)
    ensures Decoded(c, [0x80, 0, 0, 0, 1]) == Done([], 0)
    ensures Whole(c, [0x80, 0, 0, 0, 1]) == Threw([], OutOfRange, 0)
  {
    var s: seq<Byte> := [0x80, 0, 0, 0, 1];
    assert s[1..5] == [0, 0, 0, 1];
    DecodedUnfold(c, s);
    WholeUnfold(c, s);
  }

  // ---- The decoders as loops

  /** The frame at an offset of a buffer is the first frame of what follows. */
  lemma FrameAt(buffer: seq<Byte>, offset: nat)
    requires offset + HEADER_BYTES <= |buffer|
    ensures var rest := buffer[offset..];
            var n := BigEndian(buffer[offset + 1..offset + 5]);
            && rest[0] == buffer[offset]
            && BigEndian(rest[1..5]) == n
            && (CompleteFrame(rest) <==> offset + 5 + n <= |buffer|)
            && (CompleteFrame(rest) ==>
                  && FirstFrame(rest) == Frame(buffer[offset], buffer[offset + 5..offset + 5 + n])
                  && rest[5 + n..] == buffer[offset + 5 + n..])
  {
    var rest := buffer[offset..];
    assert rest[1..5] == buffer[offset + 1..offset + 5];
  }

  /** The incremental loop from an offset on, with the messages collected before it. */
  function DecodedFrom<M>(c: Codec<M>, buffer: seq<Byte>, offset: nat, messages: seq<M>): Outcome<M, Failure>
    requires offset <= |buffer|
    decreases |buffer| - offset
  {
    if offset + 5 > |buffer| then Done(messages, offset)
    else
      var end := offset + 5 + BigEndian(buffer[offset + 1..offset + 5]);
      if end > |buffer| then Done(messages, offset)
      else
        match FrameStep(c, Frame(buffer[offset], buffer[offset + 5..end]))
        case Bad(e) => Threw(messages, e, offset)
        case Emit(ms, _) => DecodedFrom(c, buffer, end, messages + ms)
  }

  /**
    * `rest` is the outcome behind a frame and `here` the one at it;
    * `next` and `now` are the loop's from the same places.
    */
  lemma TurnJoins<M>(results: seq<M>, offset: nat, ms: seq<M>, n: nat, rest: Outcome<M, Failure>,
                     here: Outcome<M, Failure>, next: Outcome<M, Failure>, now: Outcome<M, Failure>)
    requires here == After(ms, n, rest) && next == After(results + ms, offset + n, rest) && now == next
    ensures now == After(results, offset, here)
  {
    AfterAfter(results, offset, ms, n, rest);
  }

  lemma {:induction false} DecodedFromIs<M(!new)>(c: Codec<M>, buffer: seq<Byte>, offset: nat, messages: seq<M>)
    requires offset <= |buffer|
    ensures DecodedFrom(c, buffer, offset, messages) == After(messages, offset, Decoded(c, buffer[offset..]))
    decreases |buffer| - offset
  {
    var rest := buffer[offset..];
    DecodedUnfold(c, rest);
    if offset + 5 <= |buffer| {
      FrameAt(buffer, offset);
      var end := offset + 5 + BigEndian(buffer[offset + 1..offset + 5]);
      if end <= |buffer| {
        match FrameStep(c, FirstFrame(rest))
        case Bad(_) =>
        case Emit(ms, n) =>
          DecodedFromIs(c, buffer, end, messages + ms);
          TurnJoins(messages, offset, ms, n, Decoded(c, buffer[end..]), Decoded(c, rest),
                    DecodedFrom(c, buffer, end, messages + ms), DecodedFrom(c, buffer, offset, messages));
      }
    }
  }

  lemma DecodedUnfold<M(!new)>(c: Codec<M>, s: seq<Byte>)
    ensures Decoded(c, s) ==
            match IncrementalStep(c, s)
            case Need => Done([], 0)
            case Bad(e) => Threw([], e, 0)
            case Emit(ms, n) => After(ms, n, Decoded(c, s[n..]))
  {
    IncrementalIsFraming(c);
  }

  lemma DecodedFromStart<M(!new)>(c: Codec<M>, buffer: seq<Byte>)
    ensures DecodedFrom(c, buffer, 0, []) == Decoded(c, buffer)
  {
    DecodedFromIs(c, buffer, 0, []);
    assert buffer[0..] == buffer;
    AfterNothing(Decoded(c, buffer));
  }

  /** `decodeFramesIncremental` */
  method DecodeFramesIncremental<M(!new)>(c: Codec<M>, buffer: seq<Byte>) returns (r: Outcome<M, Failure>)
    ensures r == Decoded(c, buffer)
  {
    var messages: seq<M> := [];
    var offset: nat := 0;
    DecodedFromStart(c, buffer);
    while offset + 5 <= |buffer|
      invariant offset <= |buffer|
      invariant Decoded(c, buffer) == DecodedFrom(c, buffer, offset, messages)
    {
      var flag := buffer[offset];
      var messageLength := LengthField(buffer, offset);
      if offset + 5 + messageLength > |buffer| {
        break;
      }
      var payload := buffer[offset + 5..offset + 5 + messageLength];
      if flag == TRAILER_FRAME_FLAG {
        var trailer := c.trailer(payload);
        if trailer.status != 0 {
          return Threw(messages, GrpcStatus(trailer.status, trailer.message), offset);
        }
        assert messages + [] == messages;
        offset := offset + 5 + messageLength;
        continue;
      }
      if flag != DATA_FRAME_FLAG {
        return Threw(messages, UnknownFlag(flag), offset);
      }
      match c.parse(payload) {
        case None => return Threw(messages, BadPayload, offset);
        case Some(m) => messages := messages + [m];
      }
      offset := offset + 5 + messageLength;
    }
    r := Done(messages, offset);
  }

  /** The length field of the frame at an offset, by shifts as the incremental decoder reads it. */
  method LengthField(buffer: seq<Byte>, offset: nat) returns (n: nat)
    requires offset + HEADER_BYTES <= |buffer|
    ensures n == BigEndian(buffer[offset + 1..offset + 5])
  {
    n := ShiftedLength(buffer[offset + 1], buffer[offset + 2], buffer[offset + 3], buffer[offset + 4]);
    ShiftedLengthIsBigEndian(buffer[offset + 1], buffer[offset + 2], buffer[offset + 3], buffer[offset + 4]);
    assert buffer[offset + 1..offset + 5] ==
           [buffer[offset + 1], buffer[offset + 2], buffer[offset + 3], buffer[offset + 4]];
  }

  /** The whole-buffer loop from an offset on, with the results collected before it. */
  function WholeFrom<M>(c: Codec<M>, buffer: seq<Byte>, offset: nat, results: seq<M>): Outcome<M, Failure>
    requires offset <= |buffer|
    decreases |buffer| - offset
  {
    if offset + 5 > |buffer| then Done(results, offset)
    else
      var flag := buffer[offset];
      var end := offset + 5 + BigEndian(buffer[offset + 1..offset + 5]);
      if end > |buffer| then
        if flag == TRAILER_FRAME_FLAG then Threw(results, OutOfRange, offset)
        else if flag != DATA_FRAME_FLAG then Threw(results, UnknownFlag(flag), offset)
        else Done(results, offset)
      else
        match FrameStep(c, Frame(flag, buffer[offset + 5..end]))
        case Bad(e) => Threw(results, e, offset)
        case Emit(ms, _) => WholeFrom(c, buffer, end, results + ms)
  }

  lemma {:induction false} WholeFromIs<M(!new)>(c: Codec<M>, buffer: seq<Byte>, offset: nat, results: seq<M>)
    requires offset <= |buffer|
    ensures WholeFrom(c, buffer, offset, results) == After(results, offset, Whole(c, buffer[offset..]))
    decreases |buffer| - offset
  {
    var rest := buffer[offset..];
    WholeUnfold(c, rest);
    if offset + 5 <= |buffer| {
      FrameAt(buffer, offset);
      var end := offset + 5 + BigEndian(buffer[offset + 1..offset + 5]);
      if end <= |buffer| {
        match FrameStep(c, FirstFrame(rest))
        case Bad(_) =>
        case Emit(ms, n) =>
          WholeFromIs(c, buffer, end, results + ms);
          TurnJoins(results, offset, ms, n, Whole(c, buffer[end..]), Whole(c, rest),
                    WholeFrom(c, buffer, end, results + ms), WholeFrom(c, buffer, offset, results));
      }
    }
  }

  lemma WholeFromStart<M(!new)>(c: Codec<M>, buffer: seq<Byte>)
    ensures WholeFrom(c, buffer, 0, []) == Whole(c, buffer)
  {
    WholeFromIs(c, buffer, 0, []);
    assert buffer[0..] == buffer;
    AfterNothing(Whole(c, buffer));
  }

  /** `decodeAllDataFrames` */
  method DecodeAllDataFrames<M(!new)>(c: Codec<M>, buffer: seq<Byte>) returns (r: Outcome<M, Failure>)
    ensures r == Whole(c, buffer)
  {
    var results: seq<M> := [];
    var offset: nat := 0;
    WholeFromStart(c, buffer);
    while offset + 5 <= |buffer|
      invariant offset <= |buffer|
      invariant WholeFrom(c, buffer, 0, []) == WholeFrom(c, buffer, offset, results)
    {
      var flag := buffer[offset];
      var messageLength := BigEndian(buffer[offset + 1..offset + 5]);
      if flag == TRAILER_FRAME_FLAG {
        if offset + 5 + messageLength > |buffer| {
          return Threw(results, OutOfRange, offset);
        }
        var trailer := c.trailer(buffer[offset + 5..offset + 5 + messageLength]);
        if trailer.status != 0 {
          return Threw(results, GrpcStatus(trailer.status, trailer.message), offset);
        }
        assert results + [] == results;
        offset := offset + 5 + messageLength;
        continue;
      }
      if flag != DATA_FRAME_FLAG {
        return Threw(results, UnknownFlag(flag), offset);
      }
      if offset + 5 + messageLength > |buffer| {
        break;
      }
      match c.parse(buffer[offset + 5..offset + 5 + messageLength]) {
        case None => return Threw(results, BadPayload, offset);
        case Some(m) => results := results + [m];
      }
      offset := offset + 5 + messageLength;
    }
    r := Done(results, offset);
  }

  // ---- The chunked reader

  /** What the consumer of a streaming call has seen when the reader stops. */
  datatype Reading<+M> = Reading(yielded: seq<M>, failure: Option<(Failure, nat)>)

  /** How many chunks, from i on, arrive before the one that completes a bad frame. */
  ghost function SoundChunks<M(!new)>(c: Codec<M>, chunks: seq<seq<Byte>>, i: nat): (n: nat)
    requires i <= |chunks|
    ensures i <= n <= |chunks|
    decreases |chunks| - i
  {
    if i == |chunks| || Decoded(c, Concat(chunks[..i + 1])).Threw? then i else SoundChunks(c, chunks, i + 1)
  }

  /** Where in the stream the buffer begins that is decoded when the chunk with the bad frame arrives. */
  ghost function BufferStart<M(!new)>(c: Codec<M>, chunks: seq<seq<Byte>>): nat {
    var o := Decoded(c, Concat(chunks[..SoundChunks(c, chunks, 0)]));
    if o.Done? then o.consumed else 0
  }

  /**
    * What the reader must have done after the chunks: if the whole stream decodes, it yielded
    * exactly the whole stream's messages. Otherwise it throws what decoding the whole stream
    * throws, at the same place in the stream, and it has yielded what the chunks before the
    * one that completes the bad frame decode to.
    */
  ghost predicate ReadsAsWhole<M(!new)>(c: Codec<M>, chunks: seq<seq<Byte>>, r: Reading<M>) {
    match Decoded(c, Concat(chunks))
    case Done(messages, _) => r == Reading(messages, None)
    case Threw(messages, error, at) =>
      var i := SoundChunks(c, chunks, 0);
      && i < |chunks|
      && Decoded(c, Concat(chunks[..i])) == Done(r.yielded, BufferStart(c, chunks))
      && Decoded(c, Concat(chunks[..i + 1])).Threw?
      && r.yielded <= messages
      && BufferStart(c, chunks) <= at
      && r.failure == Some((error, at - BufferStart(c, chunks)))
  }

  /** After the bytes s: everything complete has been yielded and the rest is carried. */
  ghost predicate ReadSoFar<M(!new)>(c: Codec<M>, s: seq<Byte>, yielded: seq<M>, leftover: seq<Byte>) {
    && |leftover| <= |s|
    && Decoded(c, s) == Done(yielded, |s| - |leftover|)
    && leftover == s[|s| - |leftover|..]
  }

  /** Decoding what a decode left over, followed by more bytes, is decoding everything. */
  lemma DecodedAppend<M(!new)>(c: Codec<M>, s: seq<Byte>, more: seq<Byte>)
    requires Decoded(c, s).Done?
    ensures var d := Decoded(c, s);
            Decoded(c, s + more) == After(d.messages, d.consumed, Decoded(c, s[d.consumed..] + more))
  {
    IncrementalIsFraming(c);
    ScanAppend(Incremental(c), s, more);
  }

  lemma LeftoverMoves(s: seq<Byte>, leftover: seq<Byte>, chunk: seq<Byte>, k: nat)
    requires |leftover| <= |s| && leftover == s[|s| - |leftover|..] && k <= |leftover| + |chunk|
    ensures var left := (leftover + chunk)[k..];
            && |left| <= |s + chunk|
            && |s| - |leftover| + k == |s + chunk| - |left|
            && left == (s + chunk)[|s + chunk| - |left|..]
  {
    assert (s + chunk)[|s| - |leftover|..] == leftover + chunk;
  }

  lemma ReadChunk<M(!new)>(c: Codec<M>, s: seq<Byte>, yielded: seq<M>, leftover: seq<Byte>, chunk: seq<Byte>)
    requires ReadSoFar(c, s, yielded, leftover)
    ensures match Decoded(c, leftover + chunk)
            case Done(ms, k) => ReadSoFar(c, s + chunk, yielded + ms, (leftover + chunk)[k..])
            case Threw(ms, e, at) => Decoded(c, s + chunk) == Threw(yielded + ms, e, |s| - |leftover| + at)
  {
    DecodedAppend(c, s, chunk);
    var d := Decoded(c, leftover + chunk);
    if d.Done? {
      LeftoverMoves(s, leftover, chunk, d.consumed);
    }
  }

  /** A failure is not changed by later bytes. */
  lemma FailureStays<M(!new)>(c: Codec<M>, s: seq<Byte>, more: seq<Byte>)
    requires Decoded(c, s).Threw?
    ensures Decoded(c, s + more) == Decoded(c, s)
  {
    IncrementalIsFraming(c);
    ScanAppend(Incremental(c), s, more);
  }

  /** A chunk that fails behind its leftover fails the whole stream, wherever the stream goes on. */
  lemma ChunkFails<M(!new)>(c: Codec<M>, s: seq<Byte>, yielded: seq<M>, leftover: seq<Byte>, chunk: seq<Byte>,
        more: seq<Byte>)
    requires ReadSoFar(c, s, yielded, leftover) && Decoded(c, leftover + chunk).Threw?
    ensures Decoded(c, s + chunk).Threw?
    ensures var d := Decoded(c, leftover + chunk);
            Decoded(c, s + chunk + more) == Threw(yielded + d.messages, d.error, |s| - |leftover| + d.at)
  {
    ReadChunk(c, s, yielded, leftover, chunk);
    FailureStays(c, s + chunk, more);
  }

  lemma FailsAsWhole<M(!new)>(c: Codec<M>, chunks: seq<seq<Byte>>, i: nat, k: nat, yielded: seq<M>,
        messages: seq<M>, error: Failure, at: nat)
    requires i < |chunks| && SoundChunks(c, chunks, 0) == SoundChunks(c, chunks, i)
    requires Decoded(c, Concat(chunks[..i])) == Done(yielded, k)
    requires Decoded(c, Concat(chunks[..i + 1])).Threw?
    requires Decoded(c, Concat(chunks)) == Threw(yielded + messages, error, k + at)
    ensures ReadsAsWhole(c, chunks, Reading(yielded, Some((error, at))))
  {
    assert SoundChunks(c, chunks, i) == i;
  }

  lemma ReadFailed<M(!new)>(c: Codec<M>, chunks: seq<seq<Byte>>, i: nat, yielded: seq<M>, leftover: seq<Byte>)
    requires i < |chunks| && SoundChunks(c, chunks, 0) == SoundChunks(c, chunks, i)
    requires ReadSoFar(c, Concat(chunks[..i]), yielded, leftover)
    requires Decoded(c, leftover + chunks[i]).Threw?
    ensures var d := Decoded(c, leftover + chunks[i]);
            ReadsAsWhole(c, chunks, Reading(yielded, Some((d.error, d.at))))
  {
    var s, d := Concat(chunks[..i]), Decoded(c, leftover + chunks[i]);
    ChunkFails(c, s, yielded, leftover, chunks[i], Concat(chunks[i + 1..]));
    ConcatStep(chunks, i);
    ConcatSplit(chunks, i + 1);
    FailsAsWhole(c, chunks, i, |s| - |leftover|, yielded, d.messages, d.error, d.at);
  }

  lemma ReadFinished<M(!new)>(c: Codec<M>, chunks: seq<seq<Byte>>, yielded: seq<M>, leftover: seq<Byte>)
    requires ReadSoFar(c, Concat(chunks), yielded, leftover)
    ensures ReadsAsWhole(c, chunks, Reading(yielded, None))
    ensures Decoded(c, leftover) == Done([], 0)
  {
    IncrementalIsFraming(c);
    LeftoverIsDry(Incremental(c), Concat(chunks));
  }

  /** `combined.set(leftover, 0); combined.set(chunk, leftover.byteLength)` */
  method Combine(leftover: seq<Byte>, chunk: seq<Byte>) returns (combined: array<Byte>)
    ensures fresh(combined) && combined[..] == leftover + chunk
  {
    combined := new Byte[|leftover| + |chunk|];
    forall j | 0 <= j < |leftover| {
      combined[j] := leftover[j];
    }
    forall j | 0 <= j < |chunk| {
      combined[|leftover| + j] := chunk[j];
    }
  }

  /** The reassembly loop of `grpcServerStreamingCall`, with the pass over the bytes left when the stream ends. */
  method ReadStream<M(!new)>(c: Codec<M>, chunks: seq<seq<Byte>>) returns (r: Reading<M>)
    ensures ReadsAsWhole(c, chunks, r)
  {
    var yielded: seq<M> := [];
    var leftover: seq<Byte> := [];
    for i := 0 to |chunks|
      invariant ReadSoFar(c, Concat(chunks[..i]), yielded, leftover)
      invariant SoundChunks(c, chunks, 0) == SoundChunks(c, chunks, i)
    {
      var combined := Combine(leftover, chunks[i]);
      var decoded := DecodeFramesIncremental(c, combined[..]);
      if decoded.Threw? {
        ReadFailed(c, chunks, i, yielded, leftover);
        return Reading(yielded, Some((decoded.error, decoded.at)));
      }
      ReadChunk(c, Concat(chunks[..i]), yielded, leftover, chunks[i]);
      ConcatStep(chunks, i);
      yielded := yielded + decoded.messages;
      leftover := combined[decoded.consumed..];
    }
    assert chunks[..|chunks|] == chunks;
    ReadFinished(c, chunks, yielded, leftover);
    r := Reading(yielded, None);
    if |leftover| > 0 {
      var decoded := DecodeFramesIncremental(c, leftover);
      assert decoded == Done([], 0);
      r := Reading(yielded + decoded.messages, None);
    }
  }

  /**
    * Two ways of cutting the same stream give the same messages, and fail alike: with the same error,
    * at the same place in the stream. The offset in the buffer, which the message for an unknown flag
    * names, is the same if and only if the buffers begin at the same place.
    */
  lemma ChunkingDoesNotMatter<M(!new)>(c: Codec<M>, chunks: seq<seq<Byte>>, chunks': seq<seq<Byte>>,
                                       r: Reading<M>, r': Reading<M>)
    requires Concat(chunks) == Concat(chunks')
    requires ReadsAsWhole(c, chunks, r) && ReadsAsWhole(c, chunks', r')
    ensures r.failure.None? <==> r'.failure.None?
    ensures r.failure.None? ==> r.yielded == r'.yielded
    ensures r.failure.Some? ==>
              && r.failure.value.0 == r'.failure.value.0
              && BufferStart(c, chunks) + r.failure.value.1 == BufferStart(c, chunks') + r'.failure.value.1
              && (r.failure == r'.failure <==> BufferStart(c, chunks) == BufferStart(c, chunks'))
    ensures r.yielded <= r'.yielded || r'.yielded <= r.yielded
  {
    var o := Decoded(c, Concat(chunks));
    if o.Threw? {
      assert r.yielded <= o.messages && r'.yielded <= o.messages;
    }
  }

  lemma StartOfOneChunk<M(!new)>(c: Codec<M>, a: seq<Byte>)
    requires Decoded(c, a).Threw?
    ensures BufferStart(c, [a]) == 0
  {
    assert [a][..1] == [a];
    ConcatOne(a);
    assert SoundChunks(c, [a], 0) == 0;
    NothingDecodes(c);
  }

  lemma StartOfTwoChunks<M(!new)>(c: Codec<M>, a: seq<Byte>, b: seq<Byte>)
    requires Decoded(c, a).Done? && Decoded(c, a + b).Threw?
    ensures BufferStart(c, [a, b]) == Decoded(c, a).consumed
  {
    var chunks := [a, b];
    assert chunks[..1] == [a] && chunks[..2] == chunks;
    ConcatOne(a);
    ConcatStep(chunks, 1);
    assert SoundChunks(c, chunks, 1) == 1;
    assert SoundChunks(c, chunks, 0) == 1;
  }

  lemma ConcatOne(a: seq<Byte>)
    ensures Concat([a]) == a
  {
    assert Concat([a]) == a + Concat<Byte>([]);
  }

  lemma NothingDecodes<M(!new)>(c: Codec<M>)
    ensures Decoded(c, []) == Done([], 0)
  {
    DecodedUnfold(c, []);
  }

  /**
    * A message and then a frame with an unknown flag: the offset depends
    * on whether they come in one chunk or in two.
    */
  lemma OffsetDependsOnCut<M(!new)>(c: Codec<M>, m: M)
    requires |c.write(m)| < TWO_32 && c.parse(c.write(m)) == Some(m)
    ensures var first := FrameBytes(Frame(DATA_FRAME_FLAG, c.write(m)));
            var bad := FrameBytes(Frame(1, []));
            && Decoded(c, first + bad) == Threw([m], UnknownFlag(1), |first|)
            && BufferStart(c, [first + bad]) == 0
            && BufferStart(c, [first, bad]) == |first|
  {
    var f, g := Frame(DATA_FRAME_FLAG, c.write(m)), Frame(1, []);
    var first, bad := FrameBytes(f), FrameBytes(g);
    FrameDecodes(c, f, []);
    FrameDecodes(c, f, bad);
    FrameDecodes(c, g, []);
    NothingDecodes(c);
    assert first + [] == first && bad + [] == bad;
    StartOfOneChunk(c, first + bad);
    StartOfTwoChunks(c, first, bad);
  }
}
