/** The request loop of docker/sandbox/src/server.js: a 4-byte length, as many bytes of JSON, and one byte. */
module SandboxServer {
  import opened Wrappers
  import opened Sequences
  import opened Bits
  import opened FrameStream
  import opened Text

  const HEADER_BYTES := 4
  const NEWLINE: Byte := 10

  /** What `JSON.parse` of a request body gives, with `request.id ?? null` and `request.method ?? 'unknown'` taken. */
  datatype Parsed<+I> =
    | Unparsable                     // JSON.parse throws, the frame is skipped
    | NullRequest                    // the JSON text null: reading `.id` of it throws
    | Request(id: I, name: string)

  datatype Reply<+I> = Pong(id: I) | Drained(id: I) | NotImplemented(id: I, name: string)

  /** JSON text is opaque: `parse` reads a request body and `write` is the body of a reply. */
  datatype Protocol<!I> = Protocol(parse: seq<Byte> -> Parsed<I>, write: Reply<I> -> seq<Byte>)

  /** What ends the process: an exception that the handler does not catch. */
  datatype Crash =
    | TypeErrorOnNull    // the request is the JSON text null
    | ReplyTooLong       // `writeUInt32BE` throws RangeError on a body of 2^32 bytes or more

  function ReplyTo<I>(id: I, name: string): Reply<I> {
    if name == "ping" then Pong(id)
    else if name == "drain" then Drained(id)
    else NotImplemented(id, name)
  }

  /** The length of the reply fits the header. */
  predicate Fits<I>(p: Protocol<I>, r: Reply<I>) {
    |p.write(r)| < TWO_32
  }

  predicate CompleteFrame(s: seq<Byte>) {
    HEADER_BYTES <= |s| && HEADER_BYTES + BigEndian(s[..4]) + 1 <= |s|
  }

  function FirstBody(s: seq<Byte>): seq<Byte>
    requires CompleteFrame(s)
  {
    s[4..4 + BigEndian(s[..4])]
  }

  function BodyStep<I>(p: Protocol<I>, body: seq<Byte>): (step: Step<Reply<I>, Crash>)
    ensures step.Bad? || (step.Emit? && step.size == HEADER_BYTES + |body| + 1)
  {
    match p.parse(body)
    case Unparsable => Emit([], HEADER_BYTES + |body| + 1)
    case NullRequest => Bad(TypeErrorOnNull)
    case Request(id, name) =>
      if Fits(p, ReplyTo(id, name)) then Emit([ReplyTo(id, name)], HEADER_BYTES + |body| + 1) else Bad(ReplyTooLong)
  }

  function RequestStep<I>(p: Protocol<I>, s: seq<Byte>): Step<Reply<I>, Crash> {
    if CompleteFrame(s) then BodyStep(p, FirstBody(s)) else Need
  }

  function Requests<I>(p: Protocol<I>): seq<Byte> -> Step<Reply<I>, Crash> {
    s => RequestStep(p, s)
  }

  lemma RequestsIsFraming<I(!new)>(p: Protocol<I>)
    ensures Framing(Requests(p))
  {
    forall a, b: seq<Byte> | !Requests(p)(a).Need?
      ensures Requests(p)(a + b) == Requests(p)(a)
    {
      assert (a + b)[..4] == a[..4];
      var n := 4 + BigEndian(a[..4]);
      assert (a + b)[4..n] == a[4..n];
    }
  }

  /** The replies due for everything received, as if it had come in one piece. */
  ghost function Answers<I(!new)>(p: Protocol<I>, received: seq<Byte>): (o: Outcome<Reply<I>, Crash>)
    ensures o.Done? ==> o.consumed <= |received|
  {
    RequestsIsFraming(p);
    Scan(Requests(p), received)
  }

  function CrashOf<I>(o: Outcome<Reply<I>, Crash>): Option<Crash> {
    match o
    case Done(_, _) => None
    case Threw(_, e, _) => Some(e)
  }

  // ---- Frames as they are written

  /** `writeFrame`, with the closing byte as a parameter because the reader does not look at it. */
  function WrittenFrame(body: seq<Byte>, last: Byte): seq<Byte>
    requires |body| < TWO_32
  {
    BigEndianBytes(|body|) + body + [last]
  }

  predicate AllShort(bodies: seq<seq<Byte>>) {
    forall b <- bodies :: |b| < TWO_32
  }

  function WrittenFrames(bodies: seq<seq<Byte>>, last: Byte): seq<Byte>
    requires AllShort(bodies)
  {
    if bodies == [] then [] else WrittenFrame(bodies[0], last) + WrittenFrames(bodies[1..], last)
  }

  /** One reply for each parsable body, in order, up to the first body on which the handler crashes. */
  function RepliesTo<I>(p: Protocol<I>, bodies: seq<seq<Byte>>): (r: seq<Reply<I>>) {
    if bodies == [] then []
    else
      match BodyStep(p, bodies[0])
      case Emit(rs, _) => rs + RepliesTo(p, bodies[1..])
      case _ => []
  }

  /** What the handler throws on the first body on which it crashes. */
  function FirstCrash<I>(p: Protocol<I>, bodies: seq<seq<Byte>>): Option<Crash> {
    if bodies == [] then None
    else
      match BodyStep(p, bodies[0])
      case Bad(e) => Some(e)
      case _ => FirstCrash(p, bodies[1..])
  }

  /** The body is the JSON text null, or a request whose reply is too long. */
  predicate CrashesOn<I>(p: Protocol<I>, body: seq<Byte>) {
    match p.parse(body)
    case Unparsable => false
    case NullRequest => true
    case Request(id, name) => |p.write(ReplyTo(id, name))| >= TWO_32
  }

  /** The handler throws if and only if it crashes on one of the bodies. */
  lemma {:induction false} CrashesExactly<I>(p: Protocol<I>, bodies: seq<seq<Byte>>)
    ensures FirstCrash(p, bodies).Some? <==> exists b <- bodies :: CrashesOn(p, b)
  {
    if bodies == [] {
    } else {
      CrashesExactly(p, bodies[1..]);
      assert bodies == [bodies[0]] + bodies[1..];
      assert FirstCrash(p, bodies).Some? <==> CrashesOn(p, bodies[0]) || FirstCrash(p, bodies[1..]).Some?;
    }
  }

  lemma WrittenFrameIsRead(body: seq<Byte>, last: Byte, rest: seq<Byte>)
    requires |body| < TWO_32
    ensures var s := WrittenFrame(body, last) + rest;
            CompleteFrame(s) && FirstBody(s) == body && s[HEADER_BYTES + |body| + 1..] == rest
  {
    var s := WrittenFrame(body, last) + rest;
    assert s[..4] == BigEndianBytes(|body|);
    BigEndianRoundTrip(|body|);
    assert s[4..4 + |body|] == body;
  }

  /**
    * The reader loop decodes whatever `writeFrame` produced: every body gets its reply, in order,
    * up to the first on which the handler crashes, and bytes of an unfinished frame behind them
    * change nothing.
    */
  lemma {:induction false} WrittenFramesAreAnswered<I(!new)>(p: Protocol<I>, bodies: seq<seq<Byte>>,
        last: Byte, tail: seq<Byte>)
    requires AllShort(bodies)
    requires !CompleteFrame(tail)
    ensures var o := Answers(p, WrittenFrames(bodies, last) + tail);
            && o.messages == RepliesTo(p, bodies)
            && CrashOf(o) == FirstCrash(p, bodies)
            && (o.Done? ==> o.consumed == |WrittenFrames(bodies, last)|)
  {
    if bodies == [] {
      RequestsIsFraming(p);
      assert WrittenFrames(bodies, last) + tail == tail;
    } else {
      var rest := WrittenFrames(bodies[1..], last) + tail;
      assert WrittenFrames(bodies, last) + tail == WrittenFrame(bodies[0], last) + rest;
      AnswersFirst(p, bodies[0], last, rest);
      WrittenFramesAreAnswered(p, bodies[1..], last, tail);
    }
  }

  lemma AnswersFirst<I(!new)>(p: Protocol<I>, body: seq<Byte>, last: Byte, rest: seq<Byte>)
    requires |body| < TWO_32
    ensures Answers(p, WrittenFrame(body, last) + rest) ==
            match BodyStep(p, body)
            case Bad(e) => Threw([], e, 0)
            case Emit(rs, n) => After(rs, n, Answers(p, rest))
  {
    RequestsIsFraming(p);
    WrittenFrameIsRead(body, last, rest);
  }

  /**
    * What one written frame does: its body is skipped, answered by the name of its method, or ends the
    * handler where it is the text null or the reply has 2^32 bytes or more.
    */
  lemma FrameIsAnswered<I(!new)>(p: Protocol<I>, body: seq<Byte>, last: Byte, rest: seq<Byte>)
    requires |body| < 0x1_0000_0000
    ensures var o, behind := Answers(p, WrittenFrame(body, last) + rest), Answers(p, rest);
            match p.parse(body)
            case Unparsable => o.messages == behind.messages && CrashOf(o) == CrashOf(behind)
            case NullRequest => o.messages == [] && CrashOf(o) == Some(TypeErrorOnNull)
            case Request(id, name) =>
              && (name == "ping" ==> IsReply(p, Pong(id), o, behind))
              && (name == "drain" ==> IsReply(p, Drained(id), o, behind))
              && (name != "ping" && name != "drain" ==> IsReply(p, NotImplemented(id, name), o, behind))
  {
    AnswersFirst(p, body, last, rest);
  }

  /** The reply and then what is behind it, unless the length of the reply does not fit four bytes. */
  ghost predicate IsReply<I>(p: Protocol<I>, reply: Reply<I>,
        o: Outcome<Reply<I>, Crash>, behind: Outcome<Reply<I>, Crash>)
  {
    if |p.write(reply)| < 0x1_0000_0000
    then o.messages == [reply] + behind.messages && CrashOf(o) == CrashOf(behind)
    else o.messages == [] && CrashOf(o) == Some(ReplyTooLong)
  }

  // ---- The connection

  /** One accepted socket. */
  class Connection<!I(!new)> {
    const protocol: Protocol<I>
    var readBuffer: seq<Byte>
    var replies: seq<Reply<I>>    // replies handed to writeFrame, oldest first
    var written: seq<Byte>        // bytes written to the socket
    var crash: Option<Crash>      // what the handler threw, which ends the process
    ghost var received: seq<Byte>

    /** The bytes on the socket are the frames of the replies. */
    ghost predicate Consistent()
      reads this
    {
      && AllShort(Bodies(protocol, replies))
      && written == WrittenFrames(Bodies(protocol, replies), NEWLINE)
    }

    /** The connection has answered exactly what it has received, and kept exactly the unfinished frame. */
    ghost predicate Valid()
      reads this
    {
      && Consistent()
      && match Answers(protocol, received)
         case Done(rs, k) => crash == None && replies == rs && readBuffer == received[k..]
         case Threw(rs, e, _) => crash == Some(e) && replies == rs
    }

    constructor (p: Protocol<I>)
      ensures Valid() && protocol == p && received == [] && replies == [] && crash == None
    {
      protocol := p;
      readBuffer, replies, written, crash, received := [], [], [], None, [];
      new;
      RequestsIsFraming(p);
    }

    /** The state inside the loop of the handler: part of what was received is still in the read buffer. */
    ghost predicate Serving()
      reads this
    {
      crash == None && Consistent() && AnsweredSoFar(protocol, received, replies, readBuffer)
    }

    lemma ServedAll()
      requires Serving() && !CompleteFrame(readBuffer)
      ensures Valid()
    {
      AnswersStop(protocol, received, replies, readBuffer);
    }

    /** The `data` handler. */
    method OnData(chunk: seq<Byte>)
      requires Valid() && crash == None
      modifies this
      ensures Valid() && received == old(received) + chunk
    {
      Arrived(protocol, received, chunk);
      readBuffer := readBuffer + chunk;
      received := received + chunk;
      while |readBuffer| >= HEADER_BYTES
        invariant received == old(received) + chunk
        invariant Serving()
        decreases |readBuffer|
      {
        var messageLength := BigEndian(readBuffer[..4]);
        var totalFrame := HEADER_BYTES + messageLength + 1;
        if |readBuffer| < totalFrame {
          break;
        }
        HandleFrame();
        if crash.Some? {
          return;
        }
      }
      ServedAll();
    }

    /** The body of the loop: cut the first frame off the buffer, then parse and answer it. */
    method HandleFrame()
      requires Serving() && CompleteFrame(readBuffer)
      modifies this
      ensures received == old(received)
      ensures |readBuffer| < |old(readBuffer)|
      ensures if crash.Some? then Valid() else Serving()
    {
      var messageLength := BigEndian(readBuffer[..4]);
      var totalFrame := HEADER_BYTES + messageLength + 1;
      AnswerFrame(protocol, received, replies, readBuffer);
      var jsonBytes := readBuffer[HEADER_BYTES..HEADER_BYTES + messageLength];
      assert jsonBytes == FirstBody(readBuffer);
      readBuffer := readBuffer[totalFrame..];
      match protocol.parse(jsonBytes) {
        case Unparsable =>
          assert replies + [] == replies;
        case NullRequest =>
          crash := Some(TypeErrorOnNull);
        case Request(id, name) =>
          var ok := Dispatch(id, name);
          if !ok {
            crash := Some(ReplyTooLong);
          }
      }
    }

    /** The three replies of the handler; false where writing the reply throws. */
    method Dispatch(id: I, name: string) returns (ok: bool)
      requires Consistent()
      modifies this`replies, this`written
      ensures Consistent() && ok == Fits(protocol, ReplyTo(id, name))
      ensures replies == if ok then old(replies) + [ReplyTo(id, name)] else old(replies)
      ensures ok && name == "ping" ==> replies == old(replies) + [Pong(id)]
      ensures ok && name == "drain" ==> replies == old(replies) + [Drained(id)]
      ensures ok && name != "ping" && name != "drain" ==> replies == old(replies) + [NotImplemented(id, name)]
    {
      if name == "ping" {
        ok := WriteFrame(Pong(id));
      } else if name == "drain" {
        ok := WriteFrame(Drained(id));
      } else {
        ok := WriteFrame(NotImplemented(id, name));
      }
    }

    /** `writeFrame`; false where it throws, which is before anything is written. */
    method WriteFrame(reply: Reply<I>) returns (ok: bool)
      requires Consistent()
      modifies this`replies, this`written
      ensures Consistent() && ok == Fits(protocol, reply)
      ensures if ok
              then replies == old(replies) + [reply] &&
                   var body := protocol.write(reply); written == old(written) + (BigEndianBytes(|body|) + body + [10])
              else replies == old(replies) && written == old(written)
    {
      var body := protocol.write(reply);
      if |body| >= TWO_32 {
        return false;
      }
      var header := BigEndianBytes(|body|);
      assert Bodies(protocol, replies + [reply]) == Bodies(protocol, replies) + [body];
      assert AllShort(Bodies(protocol, replies) + [body]);
      WrittenAppend(Bodies(protocol, replies), body, NEWLINE);
      written := written + (header + body + [NEWLINE]);
      replies := replies + [reply];
      return true;
    }
  }

  function Bodies<I>(p: Protocol<I>, replies: seq<Reply<I>>): (b: seq<seq<Byte>>)
    ensures |b| == |replies|
  {
    seq(|replies|, i requires 0 <= i < |replies| => p.write(replies[i]))
  }

  lemma {:induction false} WrittenAppend(bodies: seq<seq<Byte>>, body: seq<Byte>, last: Byte)
    requires AllShort(bodies + [body])
    ensures AllShort(bodies)
    ensures |body| < TWO_32
    ensures WrittenFrames(bodies + [body], last) == WrittenFrames(bodies, last) + WrittenFrame(body, last)
  {
    assert forall b <- bodies :: b in bodies + [body];
    assert body in bodies + [body];
    if bodies == [] {
      assert bodies + [body] == [body];
      assert WrittenFrames([body], last) == WrittenFrame(body, last) + [];
    } else {
      var rest := bodies[1..];
      assert (bodies + [body])[1..] == rest + [body];
      assert forall b <- rest + [body] :: b in bodies + [body];
      WrittenAppend(rest, body, last);
      Regroup(WrittenFrame(bodies[0], last), WrittenFrames(rest, last), WrittenFrame(body, last));
    }
  }

  /** Part of what was received is still in the read buffer; the rest has been answered. */
  ghost predicate AnsweredSoFar<I(!new)>(p: Protocol<I>, received: seq<Byte>,
        replies: seq<Reply<I>>, buffer: seq<Byte>)
  {
    && |buffer| <= |received|
    && Answers(p, received) == After(replies, |received| - |buffer|, Answers(p, buffer))
    && buffer == received[|received| - |buffer|..]
  }

  lemma Arrived<I(!new)>(p: Protocol<I>, received: seq<Byte>, chunk: seq<Byte>)
    requires Answers(p, received).Done?
    ensures var o := Answers(p, received);
            AnsweredSoFar(p, received + chunk, o.messages, received[o.consumed..] + chunk)
  {
    AnswersAppend(p, received, chunk);
    TailAppend(received, chunk, Answers(p, received).consumed);
  }

  lemma TailAppend(a: seq<Byte>, b: seq<Byte>, k: nat)
    requires k <= |a|
    ensures var tail := a[k..] + b; |tail| == |a + b| - k && tail == (a + b)[k..]
  {
  }

  lemma AnswersAppend<I(!new)>(p: Protocol<I>, received: seq<Byte>, chunk: seq<Byte>)
    requires Answers(p, received).Done?
    ensures var o := Answers(p, received);
            Answers(p, received + chunk) == After(o.messages, o.consumed, Answers(p, received[o.consumed..] + chunk))
  {
    RequestsIsFraming(p);
    ScanAppend(Requests(p), received, chunk);
  }

  lemma AnswerFrame<I(!new)>(p: Protocol<I>, received: seq<Byte>, replies: seq<Reply<I>>, buffer: seq<Byte>)
    requires AnsweredSoFar(p, received, replies, buffer)
    requires CompleteFrame(buffer)
    ensures match BodyStep(p, FirstBody(buffer))
            case Bad(_) => Answers(p, received).Threw? && Answers(p, received).messages == replies
            case Emit(rs, n) => AnsweredSoFar(p, received, replies + rs, buffer[n..])
  {
    RequestsIsFraming(p);
    match BodyStep(p, FirstBody(buffer))
    case Bad(_) =>
    case Emit(rs, n) =>
      AfterAfter(replies, |received| - |buffer|, rs, n, Answers(p, buffer[n..]));
  }

  lemma AnswersStop<I(!new)>(p: Protocol<I>, received: seq<Byte>, replies: seq<Reply<I>>, buffer: seq<Byte>)
    requires AnsweredSoFar(p, received, replies, buffer)
    requires !CompleteFrame(buffer)
    ensures Answers(p, received) == Done(replies, |received| - |buffer|)
  {
    RequestsIsFraming(p);
  }

  /** The chunks are the frames of the bodies, followed by an unfinished frame. */
  ghost predicate Carries(chunks: seq<seq<Byte>>, bodies: seq<seq<Byte>>, last: Byte, tail: seq<Byte>) {
    && AllShort(bodies)
    && !CompleteFrame(tail)
    && Concat(chunks) == WrittenFrames(bodies, last) + tail
  }

  /**
    * A whole connection. However the stream is cut into chunks, the replies are those due for the
    * stream in one piece, the socket carries their frames, and the handler throws exactly what that
    * stream makes it throw. If the chunks carry the frames of some bodies and an unfinished frame,
    * there is one reply for each parsable body, in order, up to the first crash.
    */
  method Serve<I(!new)>(p: Protocol<I>, chunks: seq<seq<Byte>>)
    returns (replies: seq<Reply<I>>, written: seq<Byte>, crash: Option<Crash>)
    ensures replies == Answers(p, Concat(chunks)).messages && crash == CrashOf(Answers(p, Concat(chunks)))
    ensures AllShort(Bodies(p, replies)) && written == WrittenFrames(Bodies(p, replies), 10)
    ensures forall bodies, last, tail | Carries(chunks, bodies, last, tail) ::
              replies == RepliesTo(p, bodies) && crash == FirstCrash(p, bodies)
  {
    replies, written, crash := Exchange(p, chunks);
    forall bodies, last, tail | Carries(chunks, bodies, last, tail)
      ensures replies == RepliesTo(p, bodies) && crash == FirstCrash(p, bodies)
    {
      WrittenFramesAreAnswered(p, bodies, last, tail);
    }
  }

  /** The chunks of one connection, until the handler throws. */
  method Exchange<I(!new)>(p: Protocol<I>, chunks: seq<seq<Byte>>)
    returns (replies: seq<Reply<I>>, written: seq<Byte>, crash: Option<Crash>)
    ensures replies == Answers(p, Concat(chunks)).messages && crash == CrashOf(Answers(p, Concat(chunks)))
    ensures AllShort(Bodies(p, replies)) && written == WrittenFrames(Bodies(p, replies), 10)
  {
    var socket := new Connection(p);
    for i := 0 to |chunks|
      invariant socket.Valid() && socket.protocol == p && fresh(socket)
      invariant socket.received == Concat(chunks[..i]) && socket.crash == None
    {
      ConcatStep(chunks, i);
      socket.OnData(chunks[i]);
      if socket.crash.Some? {
        StreamCrashes(p, chunks, i + 1);
        return socket.replies, socket.written, socket.crash;
      }
    }
    assert chunks[..|chunks|] == chunks;
    return socket.replies, socket.written, socket.crash;
  }

  /** Once the chunks so far crash the handler, the others change nothing. */
  lemma StreamCrashes<I(!new)>(p: Protocol<I>, chunks: seq<seq<Byte>>, i: nat)
    requires i <= |chunks| && Answers(p, Concat(chunks[..i])).Threw?
    ensures Answers(p, Concat(chunks)) == Answers(p, Concat(chunks[..i]))
  {
    RequestsIsFraming(p);
    ConcatSplit(chunks, i);
    ScanAppend(Requests(p), Concat(chunks[..i]), Concat(chunks[i..]));
  }
}
