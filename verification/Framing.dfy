/**
 The receive loops of `esl_recv_event`: a header block up to a blank line, then
 as many body bytes as its content length says. How a header block is read is
 left open: any function from the block to a body length will do.
 */
module Framing {
  import opened Bytes
  import opened Members
  import opened PacketBuffer

  /** `sizeof(socket_buf) - 1` */
  const SOCKET_MAX: nat := 65535

  /** What the header block says about a body; a malformed or oversized length drops the connection. */
  datatype BodyLength = NoBody | Length(n: nat) | BadLength

  type Headers = seq<byte> -> BodyLength

  datatype Frame = Frame(header: seq<byte>, body: Option<seq<byte>>)

  // ----- the frames of a byte stream -----

  datatype First = First(frame: Frame, rest: seq<byte>) | Incomplete | Malformed

  /** The first frame of a stream, looked at as a whole. */
  function FirstFrame(s: seq<byte>, h: Headers): (r: First)
    ensures r.First? ==> |r.rest| < |s|
  {
    match FindPacket(s, 0)
    case None => Incomplete
    case Some(end) =>
      var n := Min(end, SOCKET_MAX);
      var header, rest := s[..n], s[n..];
      match h(header)
      case NoBody => First(Frame(header, None), rest)
      case BadLength => Malformed
      case Length(m) => if m <= |rest| then First(Frame(header, Some(rest[..m])), rest[m..]) else Incomplete
  }

  function Frames(s: seq<byte>, h: Headers): seq<Frame>
    decreases |s|
  {
    match FirstFrame(s, h)
    case First(frame, rest) => [frame] + Frames(rest, h)
    case _ => []
  }

  /** The bytes of a frame, as they came. */
  function Wire(frame: Frame): seq<byte> {
    frame.header + if frame.body.Some? then frame.body.value else []
  }

  /**
   A frame is the bytes in front of the newline that ends the first empty line
   (as many of them as the read buffer takes) and as many more as they announce;
   the rest of the stream is what stands behind.
   */
  lemma FirstFrameIsCut(s: seq<byte>, h: Headers, e: nat)
    requires EndsPacket(s, e)
    ensures var header := s[..Min(e, SOCKET_MAX)];
            var r := FirstFrame(s, h);
            && (r.Malformed? <==> h(header).BadLength?)
            && (r.Incomplete? <==> h(header).Length? && |header| + h(header).n > |s|)
            && (r.First? ==> r.frame.header == header && Wire(r.frame) + r.rest == s)
            && (r.First? ==> match r.frame.body
                             case None => h(header).NoBody?
                             case Some(body) => h(header) == Length(|body|))
  {
    FindsFirstBlankLine(s, e);
  }

  lemma NoFirstFrame(s: seq<byte>, h: Headers)
    requires forall e :: 0 <= e < |s| ==> !EndsPacket(s, e)
    ensures FirstFrame(s, h) == Incomplete
  {
    if FindPacket(s, 0).Some? { FindsFirstBlankLine(s, FindPacket(s, 0).value); }
  }

  function WireOf(frames: seq<Frame>): seq<byte> {
    if frames == [] then [] else Wire(frames[0]) + WireOf(frames[1..])
  }

  /** The frames, one behind the other, are a prefix of the stream: nothing is dropped between them. */
  lemma {:induction false} FramesAreAPrefix(s: seq<byte>, h: Headers)
    ensures WireOf(Frames(s, h)) <= s
    decreases |s|
  {
    var r := FirstFrame(s, h);
    if r.First? {
      var e := FindPacket(s, 0).value;
      FindsFirstBlankLine(s, e);
      FirstFrameIsCut(s, h, e);
      FramesAreAPrefix(r.rest, h);
      var frames := Frames(s, h);
      assert frames[0] == r.frame && frames[1..] == Frames(r.rest, h);
      assert Wire(r.frame) + WireOf(frames[1..]) <= Wire(r.frame) + r.rest;
    }
  }

  /**
   The newline that ends a header block stays in the stream (unless the block was
   longer than the read buffer), so a body starts with it and leaves its own last
   byte behind.
   */
  lemma BodyIsShifted(s: seq<byte>, h: Headers)
    requires FirstFrame(s, h).First? && FindPacket(s, 0).value <= SOCKET_MAX
    ensures var end := FindPacket(s, 0).value;
            var body := FirstFrame(s, h).frame.body;
            body.Some? && body.value != [] ==>
              && end + |body.value| <= |s|
              && body.value == [LF] + s[end + 1..end + |body.value|]
              && FirstFrame(s, h).rest == s[end + |body.value|..]
  {
    var end := FindPacket(s, 0).value;
    hide FindPacket;
    assert s[end..][0] == s[end];
  }

  // ----- the receive loops, chunk by chunk -----

  datatype Ending = Delivered(frame: Frame) | LimitReached | Disconnected | Rejected

  /** How one call of `esl_recv_event` ends, with the unread bytes and the chunks still to come. */
  datatype Received = Received(ending: Ending, pending: seq<byte>, chunks: seq<seq<byte>>)

  predicate Fits(pending: seq<byte>, chunk: seq<byte>, limit: nat) {
    |pending| + |chunk| <= limit
  }

  /** The body loop: wait until enough bytes are buffered, then take exactly that many. */
  function ReceiveBody(header: seq<byte>, m: nat, pending: seq<byte>, chunks: seq<seq<byte>>, limit: nat): Received
    decreases |chunks|
  {
    if m <= |pending| then Received(Delivered(Frame(header, Some(pending[..m]))), pending[m..], chunks)
    else if chunks == [] then Received(Disconnected, pending, [])
    else if !Fits(pending, chunks[0], limit) then Received(LimitReached, pending, chunks[1..])
    else ReceiveBody(header, m, pending + chunks[0], chunks[1..], limit)
  }

  function AfterHeader(header: seq<byte>, pending: seq<byte>, chunks: seq<seq<byte>>, limit: nat, h: Headers): Received
  {
    match h(header)
    case NoBody => Received(Delivered(Frame(header, None)), pending, chunks)
    case BadLength => Received(Rejected, pending, chunks)
    case Length(m) => ReceiveBody(header, m, pending, chunks, limit)
  }

  /** The header loop: take a packet if there is one, else receive and buffer one more chunk. */
  function ReceiveHeader(pending: seq<byte>, chunks: seq<seq<byte>>, limit: nat, h: Headers): Received
    decreases |chunks|
  {
    match FindPacket(pending, 0)
    case Some(end) =>
      var n := Min(end, SOCKET_MAX);
      AfterHeader(pending[..n], pending[n..], chunks, limit, h)
    case None =>
      if chunks == [] then Received(Disconnected, pending, [])
      else if !Fits(pending, chunks[0], limit) then Received(LimitReached, pending, chunks[1..])
      else ReceiveHeader(pending + chunks[0], chunks[1..], limit, h)
  }

  function Concat(chunks: seq<seq<byte>>): seq<byte> {
    if chunks == [] then [] else chunks[0] + Concat(chunks[1..])
  }

  /** A whole connection: frames delivered until a call fails. */
  datatype Run = Run(frames: seq<Frame>, ending: Ending)

  lemma SplitEarly(a: seq<byte>, b: seq<byte>, n: nat)
    requires n <= |a|
    ensures (a + b)[..n] == a[..n] && (a + b)[n..] == a[n..] + b
  {
  }

  lemma {:induction false} BodyFollowsStream(header: seq<byte>, m: nat, pending: seq<byte>,
                                             chunks: seq<seq<byte>>, limit: nat)
    ensures var r, s := ReceiveBody(header, m, pending, chunks, limit), pending + Concat(chunks);
            match r.ending
            case Delivered(frame) =>
              m <= |s| && frame == Frame(header, Some(s[..m])) && r.pending + Concat(r.chunks) == s[m..]
            case LimitReached => |s| > limit
            case Disconnected => |s| < m
            case Rejected => false
    decreases |chunks|
  {
    if m <= |pending| {
      SplitEarly(pending, Concat(chunks), m);
    } else if chunks != [] && Fits(pending, chunks[0], limit) {
      BodyFollowsStream(header, m, pending + chunks[0], chunks[1..], limit);
      assert pending + chunks[0] + Concat(chunks[1..]) == pending + Concat(chunks);
    }
  }

  /** Once a packet is buffered, the stream has the same first packet. */
  lemma PacketBuffered(pending: seq<byte>, chunks: seq<seq<byte>>, limit: nat, h: Headers)
    requires FindPacket(pending, 0).Some?
    ensures var r, s := ReceiveHeader(pending, chunks, limit, h), pending + Concat(chunks);
            match r.ending
            case Delivered(frame) => FirstFrame(s, h) == First(frame, r.pending + Concat(r.chunks))
            case LimitReached => |s| > limit
            case Disconnected => FirstFrame(s, h) == Incomplete
            case Rejected => FirstFrame(s, h) == Malformed
  {
    var n := Min(FindPacket(pending, 0).value, SOCKET_MAX);
    FindIsStable(pending, Concat(chunks), 0);
    hide FindPacket, Concat, ReceiveBody;
    SplitEarly(pending, Concat(chunks), n);
    if h(pending[..n]).Length? {
      BodyFollowsStream(pending[..n], h(pending[..n]).n, pending[n..], chunks, limit);
    }
  }

  /**
   One call delivers the first frame of the stream, or fails because the stream
   has none; only an unread backlog past the limit can come in between.
   */
  lemma {:induction false} ReceiveFollowsStream(pending: seq<byte>, chunks: seq<seq<byte>>, limit: nat, h: Headers)
    ensures var r, s := ReceiveHeader(pending, chunks, limit, h), pending + Concat(chunks);
            match r.ending
            case Delivered(frame) => FirstFrame(s, h) == First(frame, r.pending + Concat(r.chunks))
            case LimitReached => |s| > limit
            case Disconnected => FirstFrame(s, h) == Incomplete
            case Rejected => FirstFrame(s, h) == Malformed
    decreases |chunks|
  {
    hide FindPacket;
    match FindPacket(pending, 0)
    case Some(end) =>
      PacketBuffered(pending, chunks, limit, h);
    case None =>
      if chunks == [] {
        assert pending + Concat(chunks) == pending;
      } else if Fits(pending, chunks[0], limit) {
        ReceiveFollowsStream(pending + chunks[0], chunks[1..], limit, h);
        assert pending + chunks[0] + Concat(chunks[1..]) == pending + Concat(chunks);
      }
  }

  ghost function ReceiveAll(pending: seq<byte>, chunks: seq<seq<byte>>, limit: nat, h: Headers): Run
    decreases |pending| + |Concat(chunks)|
  {
    var r := ReceiveHeader(pending, chunks, limit, h);
    ReceiveFollowsStream(pending, chunks, limit, h);
    if r.ending.Delivered? then
      var rest := ReceiveAll(r.pending, r.chunks, limit, h);
      Run([r.ending.frame] + rest.frames, rest.ending)
    else
      Run([], r.ending)
  }

  // ----- one call sees the stream, not the chunks -----

  /**
   Over a whole connection the frames are those of the stream, unless the
   backlog limit is reached; then they are the first of them.
   */
  lemma {:induction false} RunDeliversFrames(pending: seq<byte>, chunks: seq<seq<byte>>, limit: nat, h: Headers)
    ensures var run := ReceiveAll(pending, chunks, limit, h);
            && run.frames <= Frames(pending + Concat(chunks), h)
            && (run.ending != LimitReached ==> run.frames == Frames(pending + Concat(chunks), h))
    decreases |pending| + |Concat(chunks)|
  {
    ReceiveFollowsStream(pending, chunks, limit, h);
    var r := ReceiveHeader(pending, chunks, limit, h);
    if r.ending.Delivered? { RunDeliversFrames(r.pending, r.chunks, limit, h); }
  }

  /** A stream no longer than the limit never reaches it. */
  lemma {:induction false} ShortStreamsNeverReachLimit(pending: seq<byte>, chunks: seq<seq<byte>>, limit: nat,
                                                       h: Headers)
    requires |pending| + |Concat(chunks)| <= limit
    ensures ReceiveAll(pending, chunks, limit, h).ending != LimitReached
    decreases |pending| + |Concat(chunks)|
  {
    ReceiveFollowsStream(pending, chunks, limit, h);
    var r := ReceiveHeader(pending, chunks, limit, h);
    if r.ending.Delivered? { ShortStreamsNeverReachLimit(r.pending, r.chunks, limit, h); }
  }

  // ----- when no cut of the stream reaches the limit -----

  /** What the socket gives: chunks of at most SOCKET_MAX bytes, none of them empty. */
  ghost predicate FromSocket(chunks: seq<seq<byte>>) {
    forall i :: 0 <= i < |chunks| ==> 0 < |chunks[i]| <= SOCKET_MAX
  }

  /** While at most `need` bytes are pending, of `total` that come, one chunk more always fits. */
  predicate Roomy(need: nat, total: nat, limit: nat) {
    need + SOCKET_MAX <= limit || total <= limit
  }

  /** How many bytes of the first packet are taken as its header block. */
  function HeaderSize(s: seq<byte>): (n: nat)
    requires FindPacket(s, 0).Some?
    ensures 0 < n <= FindPacket(s, 0).value < |s|
  {
    Min(FindPacket(s, 0).value, SOCKET_MAX)
  }

  /** The size of the body behind it, or None when the connection is dropped. */
  function BodySize(s: seq<byte>, h: Headers): Option<nat>
    requires FindPacket(s, 0).Some?
  {
    match h(s[..HeaderSize(s)])
    case NoBody => Some(0)
    case BadLength => None
    case Length(m) => Some(m)
  }

  /** Of the bytes behind the header block, how many are pending at least when it is taken. */
  function Got(s: seq<byte>, have: nat): (got: nat)
    requires FindPacket(s, 0).Some? && have <= |s|
    ensures 0 < got <= |s| - HeaderSize(s) && have <= HeaderSize(s) + got
  {
    Max(have, FindPacket(s, 0).value + 1) - HeaderSize(s)
  }

  /**
   The backlog stays within the limit. `have` bytes have come in any case; a
   header is waited for with at most as many bytes pending as stand in front of
   its last newline, a body of `m` bytes with at most `m - 1`, and a tail
   without an end of packet is buffered whole.
   */
  ghost predicate BacklogFits(s: seq<byte>, have: nat, limit: nat, h: Headers)
    requires have <= |s|
    decreases |s|, 0
  {
    if FindPacket(s, 0).None? then have == |s| || |s| <= limit
    else
      && (FindPacket(s, 0).value < have || Roomy(FindPacket(s, 0).value, |s|, limit))
      && (BodySize(s, h).Some? ==>
            BodyAndRestFit(s[HeaderSize(s)..], Got(s, have), BodySize(s, h).value, limit, h))
  }

  /** The same behind a header block, for a body of `m` bytes. */
  ghost predicate BodyAndRestFit(rest: seq<byte>, got: nat, m: nat, limit: nat, h: Headers)
    requires got <= |rest|
    decreases |rest|, 1
  {
    && (m <= got || got == |rest| || Roomy(m - 1, |rest|, limit))
    && (m <= |rest| ==> BacklogFits(rest[m..], Max(got, m) - m, limit, h))
  }

  /** One chunk more leaves the stream as it is. */
  lemma NextChunk(pending: seq<byte>, chunks: seq<seq<byte>>)
    requires FromSocket(chunks) && chunks != []
    ensures FromSocket(chunks[1..])
    ensures pending + chunks[0] + Concat(chunks[1..]) == pending + Concat(chunks)
    ensures |pending| < |pending + chunks[0]| <= |pending + Concat(chunks)|
  {
    var c, rest := chunks[0], Concat(chunks[1..]);
    assert Concat(chunks) == c + rest;
    Associative(pending, c, rest);
    assert 0 < |c|;
  }

  lemma ChunkIsSmall(chunks: seq<seq<byte>>)
    requires FromSocket(chunks) && chunks != []
    ensures 0 < |chunks[0]| <= SOCKET_MAX
  {
  }

  /** The body loop does not reach the limit. Without bytes to wait for it delivers at once. */
  lemma {:induction false} BodyFits(header: seq<byte>, m: nat, pending: seq<byte>, chunks: seq<seq<byte>>, limit: nat,
                                    got: nat, h: Headers)
    requires FromSocket(chunks) && got <= |pending|
    requires BodyAndRestFit(pending + Concat(chunks), got, m, limit, h)
    ensures var r := ReceiveBody(header, m, pending, chunks, limit);
            && r.ending != LimitReached && FromSocket(r.chunks)
            && (r.ending.Delivered? ==>
                  && Max(got, m) - m <= |r.pending|
                  && BacklogFits(r.pending + Concat(r.chunks), Max(got, m) - m, limit, h))
    ensures m == 0 ==> ReceiveBody(header, m, pending, chunks, limit)
                       == Received(Delivered(Frame(header, Some([]))), pending, chunks)
    decreases |chunks|
  {
    hide FromSocket, Concat, BacklogFits;
    if m <= |pending| {
      SplitEarly(pending, Concat(chunks), m);
    } else if chunks != [] {
      NextChunk(pending, chunks);
      ChunkIsSmall(chunks);
      BodyFits(header, m, pending + chunks[0], chunks[1..], limit, got, h);
    }
  }

  /** What is known to be pending when the first frame has been delivered. */
  ghost function HaveAfter(s: seq<byte>, have: nat, h: Headers): nat
    requires FindPacket(s, 0).Some? && BodySize(s, h).Some? && have <= |s|
  {
    Max(Got(s, have), BodySize(s, h).value) - BodySize(s, h).value
  }

  /** A call that does not reach the limit, and leaves a backlog that fits. */
  ghost predicate CallIsFit(r: Received, s: seq<byte>, have: nat, limit: nat, h: Headers)
    requires have <= |s|
  {
    && r.ending != LimitReached && FromSocket(r.chunks)
    && (r.ending.Delivered? ==>
          && FindPacket(s, 0).Some? && BodySize(s, h).Some? && HaveAfter(s, have, h) <= |r.pending|
          && BacklogFits(r.pending + Concat(r.chunks), HaveAfter(s, have, h), limit, h))
  }

  lemma LostIsFit(pending: seq<byte>, have: nat, limit: nat, h: Headers)
    requires have <= |pending|
    ensures CallIsFit(Received(Disconnected, pending, []), pending + Concat([]), have, limit, h)
  {
  }

  /** Waiting for a packet, one chunk more fits. */
  lemma WaitingFits(pending: seq<byte>, more: seq<byte>, have: nat, limit: nat, h: Headers)
    requires have <= |pending| && more != [] && FindPacket(pending, 0).None?
    requires BacklogFits(pending + more, have, limit, h)
    ensures Roomy(|pending|, |pending + more|, limit)
  {
    hide BodyAndRestFit;
    var s := pending + more;
    if FindPacket(s, 0).Some? && FindPacket(s, 0).value < |pending| { FindOnPrefix(pending, more, 0); }
  }

  lemma AfterHeaderFits(s: seq<byte>, behind: seq<byte>, chunks: seq<seq<byte>>, have: nat, limit: nat, h: Headers)
    requires FromSocket(chunks) && have <= |s| && FindPacket(s, 0).Some?
    requires behind + Concat(chunks) == s[HeaderSize(s)..] && Got(s, have) <= |behind|
    requires BacklogFits(s, have, limit, h)
    ensures CallIsFit(AfterHeader(s[..HeaderSize(s)], behind, chunks, limit, h), s, have, limit, h)
  {
    hide FindPacket, FromSocket, Concat, ReceiveBody, BodyAndRestFit, Roomy, HeaderSize, Got;
    if BodySize(s, h).Some? {
      BodyFits(s[..HeaderSize(s)], BodySize(s, h).value, behind, chunks, limit, Got(s, have), h);
    }
  }

  /** A buffered packet and its body. */
  lemma PacketFits(pending: seq<byte>, chunks: seq<seq<byte>>, have: nat, limit: nat, h: Headers)
    requires FromSocket(chunks) && have <= |pending| && FindPacket(pending, 0).Some?
    requires BacklogFits(pending + Concat(chunks), have, limit, h)
    ensures CallIsFit(ReceiveHeader(pending, chunks, limit, h), pending + Concat(chunks), have, limit, h)
  {
    FindIsStable(pending, Concat(chunks), 0);
    hide FindPacket, FromSocket, Concat, AfterHeader, BodyAndRestFit, Roomy;
    var s, n := pending + Concat(chunks), HeaderSize(pending);
    SplitEarly(pending, Concat(chunks), n);
    assert ReceiveHeader(pending, chunks, limit, h) == AfterHeader(s[..n], pending[n..], chunks, limit, h);
    AfterHeaderFits(s, pending[n..], chunks, have, limit, h);
  }

  lemma {:induction false} CallFits(pending: seq<byte>, chunks: seq<seq<byte>>, have: nat, limit: nat, h: Headers)
    requires FromSocket(chunks) && have <= |pending|
    requires BacklogFits(pending + Concat(chunks), have, limit, h)
    ensures CallIsFit(ReceiveHeader(pending, chunks, limit, h), pending + Concat(chunks), have, limit, h)
    decreases |chunks|
  {
    hide FindPacket, FromSocket, Concat, BacklogFits, CallIsFit, AfterHeader;
    if FindPacket(pending, 0).Some? {
      PacketFits(pending, chunks, have, limit, h);
    } else if chunks != [] {
      NextChunk(pending, chunks);
      ChunkIsSmall(chunks);
      WaitingFits(pending, Concat(chunks), have, limit, h);
      CallFits(pending + chunks[0], chunks[1..], have, limit, h);
    } else {
      LostIsFit(pending, have, limit, h);
    }
  }

  lemma {:induction false} RunFits(pending: seq<byte>, chunks: seq<seq<byte>>, have: nat, limit: nat, h: Headers)
    requires FromSocket(chunks) && have <= |pending|
    requires BacklogFits(pending + Concat(chunks), have, limit, h)
    ensures ReceiveAll(pending, chunks, limit, h).ending != LimitReached
    decreases |pending| + |Concat(chunks)|
  {
    hide BacklogFits, ReceiveHeader, HaveAfter, FromSocket, BodySize, FindPacket;
    CallFits(pending, chunks, have, limit, h);
    ReceiveFollowsStream(pending, chunks, limit, h);
    var r := ReceiveHeader(pending, chunks, limit, h);
    if r.ending.Delivered? { RunFits(r.pending, r.chunks, HaveAfter(pending + Concat(chunks), have, h), limit, h); }
  }

  /** Packets and bodies that stay a chunk below the limit, and a tail within the limit. */
  ghost predicate SmallFrames(s: seq<byte>, limit: nat, h: Headers)
    decreases |s|
  {
    if FindPacket(s, 0).None? then |s| <= limit
    else
      && FindPacket(s, 0).value + SOCKET_MAX <= limit
      && (BodySize(s, h).Some? ==>
            var m, rest := BodySize(s, h).value, s[HeaderSize(s)..];
            m + SOCKET_MAX <= limit && (m <= |rest| ==> SmallFrames(rest[m..], limit, h)))
  }

  /** Small frames fit, however long the stream is. */
  lemma {:induction false} SmallFramesFit(s: seq<byte>, have: nat, limit: nat, h: Headers)
    requires have <= |s| && SmallFrames(s, limit, h)
    ensures BacklogFits(s, have, limit, h)
    decreases |s|
  {
    hide FindPacket, HeaderSize, BodySize, Got;
    if FindPacket(s, 0).Some? && BodySize(s, h).Some? {
      var m, rest, got := BodySize(s, h).value, s[HeaderSize(s)..], Got(s, have);
      if m <= |rest| { SmallFramesFit(rest[m..], Max(got, m) - m, limit, h); }
      assert BodyAndRestFit(rest, got, m, limit, h);
    }
  }

  /** So does a stream that is itself within the limit. */
  lemma {:induction false} ShortStreamFits(s: seq<byte>, have: nat, limit: nat, h: Headers)
    requires have <= |s| <= limit
    ensures BacklogFits(s, have, limit, h)
    decreases |s|
  {
    hide FindPacket, HeaderSize, BodySize, Got;
    if FindPacket(s, 0).Some? && BodySize(s, h).Some? {
      var m, rest, got := BodySize(s, h).value, s[HeaderSize(s)..], Got(s, have);
      if m <= |rest| { ShortStreamFits(rest[m..], Max(got, m) - m, limit, h); }
      assert BodyAndRestFit(rest, got, m, limit, h);
    }
  }

  /** However the same bytes are cut into chunks, the same frames come out. */
  lemma ChunkingDoesNotMatter(chunks: seq<seq<byte>>, others: seq<seq<byte>>, limit: nat, h: Headers)
    requires FromSocket(chunks) && FromSocket(others) && Concat(chunks) == Concat(others)
    requires BacklogFits(Concat(chunks), 0, limit, h)
    ensures ReceiveAll([], chunks, limit, h).frames == ReceiveAll([], others, limit, h).frames
            == Frames(Concat(chunks), h)
  {
    hide BacklogFits, ReceiveAll;
    assert [] + Concat(chunks) == Concat(chunks);
    RunFits([], chunks, 0, limit, h);
    RunFits([], others, 0, limit, h);
    RunDeliversFrames([], chunks, limit, h);
    RunDeliversFrames([], others, limit, h);
  }

  // ----- and when some cut does -----

  /** The stream byte by byte. */
  function Singles(t: seq<byte>): (chunks: seq<seq<byte>>)
    ensures |chunks| == |t| && forall i :: 0 <= i < |t| ==> chunks[i] == [t[i]]
  {
    seq(|t|, i requires 0 <= i < |t| => [t[i]])
  }

  lemma {:induction false} ConcatSingles(t: seq<byte>, cs: seq<seq<byte>>)
    ensures Concat(Singles(t) + cs) == t + Concat(cs)
    decreases |t|
  {
    var all := Singles(t) + cs;
    if t == [] {
      assert all == cs && [] + Concat(cs) == Concat(cs);
    } else {
      assert all[0] == [t[0]] && all[1..] == Singles(t[1..]) + cs;
      ConcatSingles(t[1..], cs);
      assert [t[0]] + (t[1..] + Concat(cs)) == t + Concat(cs);
    }
  }

  lemma FirstSingle(s: seq<byte>, i: nat, k: nat, cs: seq<seq<byte>>)
    requires i < k <= |s|
    ensures var chunks := Singles(s[i..k]) + cs;
            && chunks != [] && chunks[0] == [s[i]] && chunks[1..] == Singles(s[i + 1..k]) + cs
            && s[..i] + chunks[0] == s[..i + 1]
  {
    assert s[i..k][1..] == s[i + 1..k];
  }

  /** There is no packet yet in a part of the stream that ends in front of the first one. */
  lemma NoPacketYet(s: seq<byte>, k: nat)
    requires k <= |s| && (FindPacket(s, 0).Some? ==> k <= FindPacket(s, 0).value)
    ensures FindPacket(s[..k], 0).None?
  {
    assert s == s[..k] + s[k..];
    if FindPacket(s[..k], 0).Some? { FindIsStable(s[..k], s[k..], 0); }
  }

  /** Waiting for a packet byte by byte. */
  lemma {:induction false} WaitBytewise(s: seq<byte>, i: nat, k: nat, cs: seq<seq<byte>>, limit: nat, h: Headers)
    requires i <= k <= |s| && (FindPacket(s, 0).Some? ==> k <= FindPacket(s, 0).value + 1)
    ensures var r := ReceiveHeader(s[..i], Singles(s[i..k]) + cs, limit, h);
            r.ending == LimitReached || r == ReceiveHeader(s[..k], cs, limit, h)
    decreases k - i
  {
    hide FindPacket, AfterHeader;
    if i < k {
      FirstSingle(s, i, k, cs);
      NoPacketYet(s, i);
      WaitBytewise(s, i + 1, k, cs, limit, h);
    } else {
      assert Singles(s[i..k]) + cs == cs;
    }
  }

  /** Waiting for a body byte by byte. */
  lemma {:induction false} BodyBytewise(header: seq<byte>, m: nat, s: seq<byte>, i: nat, k: nat, cs: seq<seq<byte>>,
                                        limit: nat)
    requires i <= k <= |s| && k <= m
    ensures var r := ReceiveBody(header, m, s[..i], Singles(s[i..k]) + cs, limit);
            r.ending == LimitReached || r == ReceiveBody(header, m, s[..k], cs, limit)
    decreases k - i
  {
    if i < k {
      FirstSingle(s, i, k, cs);
      BodyBytewise(header, m, s, i + 1, k, cs, limit);
    } else {
      assert Singles(s[i..k]) + cs == cs;
    }
  }

  /** Byte by byte up to `k`, then a chunk as large as possible. */
  function CutAt(s: seq<byte>, i: nat, k: nat): (chunks: seq<seq<byte>>)
    requires i <= k < |s|
  {
    var b := Min(SOCKET_MAX, |s| - k);
    Singles(s[i..k]) + [s[k..k + b]] + Singles(s[k + b..])
  }

  lemma BigThenSingles(big: seq<byte>, last: seq<byte>)
    ensures Concat([big] + Singles(last)) == big + last
  {
    var all := [big] + Singles(last);
    assert all[0] == big && all[1..] == Singles(last);
    ConcatSingles(last, []);
    assert Singles(last) + [] == Singles(last) && last + [] == last;
  }

  lemma CutAtIsACut(s: seq<byte>, i: nat, k: nat)
    requires i <= k < |s|
    ensures FromSocket(CutAt(s, i, k)) && s[..i] + Concat(CutAt(s, i, k)) == s
  {
    hide Singles, Concat;
    var b := Min(SOCKET_MAX, |s| - k);
    var big, last := s[k..k + b], s[k + b..];
    var tail := [big] + Singles(last);
    ConcatSingles(s[i..k], tail);
    assert CutAt(s, i, k) == Singles(s[i..k]) + tail;
    ConcatSingles(last, []);
    assert Singles(last) + [] == Singles(last);
    BigThenSingles(big, last);
    assert s[..i] + (s[i..k] + (big + last)) == s;
  }

  /** The large chunk does not fit while a packet is waited for. */
  lemma HeaderOverflows(s: seq<byte>, i: nat, k: nat, limit: nat, h: Headers)
    requires i <= k < |s| && (FindPacket(s, 0).Some? ==> k <= FindPacket(s, 0).value)
    requires k + Min(SOCKET_MAX, |s| - k) > limit
    ensures ReceiveHeader(s[..i], CutAt(s, i, k), limit, h).ending == LimitReached
  {
    hide FindPacket, AfterHeader;
    var b := Min(SOCKET_MAX, |s| - k);
    var tail := [s[k..k + b]] + Singles(s[k + b..]);
    assert CutAt(s, i, k) == Singles(s[i..k]) + tail;
    WaitBytewise(s, i, k, tail, limit, h);
    NoPacketYet(s, k);
    assert !Fits(s[..k], tail[0], limit);
  }

  /** The large chunk does not fit while a body is waited for. */
  lemma BodyOverflows(header: seq<byte>, m: nat, s: seq<byte>, i: nat, k: nat, limit: nat)
    requires i <= k < |s| && k < m && k + Min(SOCKET_MAX, |s| - k) > limit
    ensures ReceiveBody(header, m, s[..i], CutAt(s, i, k), limit).ending == LimitReached
  {
    var b := Min(SOCKET_MAX, |s| - k);
    var tail := [s[k..k + b]] + Singles(s[k + b..]);
    assert CutAt(s, i, k) == Singles(s[i..k]) + tail;
    BodyBytewise(header, m, s, i, k, tail, limit);
    assert !Fits(s[..k], tail[0], limit);
  }

  lemma NoSingles(t: seq<byte>, cs: seq<seq<byte>>)
    requires t == []
    ensures Singles(t) + cs == cs
  {
  }

  /** The first header block, byte by byte: it is taken as soon as its end is there. */
  lemma HeaderBytewise(s: seq<byte>, have: nat, cs: seq<seq<byte>>, limit: nat, h: Headers)
    requires have <= |s| && FindPacket(s, 0).Some?
    ensures var n, got := HeaderSize(s), Got(s, have);
            var r := ReceiveHeader(s[..have], Singles(s[have..n + got]) + cs, limit, h);
            r.ending == LimitReached || r == AfterHeader(s[..n], s[n..n + got], cs, limit, h)
  {
    hide AfterHeader;
    var n, k := HeaderSize(s), HeaderSize(s) + Got(s, have);
    assert s == s[..k] + s[k..];
    FindOnPrefix(s[..k], s[k..], 0);
    if have < k {
      WaitBytewise(s, have, k, cs, limit, h);
    } else {
      NoSingles(s[have..k], cs);
    }
    assert s[..k][..n] == s[..n] && s[..k][n..] == s[n..k];
  }

  lemma FromSocketSum(t: seq<byte>, cs: seq<seq<byte>>)
    requires FromSocket(cs)
    ensures FromSocket(Singles(t) + cs)
  {
  }

  lemma CutIsJoined(s: seq<byte>, have: nat, n: nat, got: nat, more: seq<byte>)
    requires have <= n + got <= |s| && s[n..][..got] + more == s[n..]
    ensures s[..have] + (s[have..n + got] + more) == s
  {
    assert s[..have] + s[have..n + got] == s[..n] + s[n..][..got];
    assert s[..n] + (s[n..][..got] + more) == s;
  }

  /** The call itself or a later one ends at the limit. */
  ghost predicate EndsAtLimit(r: Received, limit: nat, h: Headers) {
    r.ending == LimitReached ||
    (r.ending.Delivered? && ReceiveAll(r.pending, r.chunks, limit, h).ending == LimitReached)
  }

  /** A missing body is one of no bytes, as far as the backlog goes. */
  lemma BodyOrNone(s: seq<byte>, cs: seq<seq<byte>>, got: nat, limit: nat, h: Headers)
    requires FindPacket(s, 0).Some? && BodySize(s, h).Some? && HeaderSize(s) + got <= |s|
    requires var n := HeaderSize(s);
             EndsAtLimit(ReceiveBody(s[..n], BodySize(s, h).value, s[n..][..got], cs, limit), limit, h)
    ensures var n := HeaderSize(s); EndsAtLimit(AfterHeader(s[..n], s[n..][..got], cs, limit, h), limit, h)
  {
    hide FindPacket, ReceiveAll, HeaderSize;
    assert s[HeaderSize(s)..][..got][0..] == s[HeaderSize(s)..][..got];
  }

  lemma EndsHere(r: Received, limit: nat, h: Headers)
    requires r.ending == LimitReached
    ensures EndsAtLimit(r, limit, h)
  {
  }

  /** The cut within a body. */
  lemma CutInBody(header: seq<byte>, rest: seq<byte>, got: nat, m: nat, limit: nat, h: Headers)
    returns (cs: seq<seq<byte>>)
    requires got < m && got < |rest| && !Roomy(m - 1, |rest|, limit)
    ensures FromSocket(cs) && rest[..got] + Concat(cs) == rest
    ensures EndsAtLimit(ReceiveBody(header, m, rest[..got], cs, limit), limit, h)
  {
    var last := Min(m - 1, |rest| - 1);
    cs := CutAt(rest, got, last);
    hide FromSocket, Concat, CutAt, EndsAtLimit, ReceiveBody;
    CutAtIsACut(rest, got, last);
    BodyOverflows(header, m, rest, got, last, limit);
    EndsHere(ReceiveBody(header, m, rest[..got], cs, limit), limit, h);
  }

  lemma DeliveredAndOn(frame: Frame, pending: seq<byte>, chunks: seq<seq<byte>>, limit: nat, h: Headers)
    requires ReceiveAll(pending, chunks, limit, h).ending == LimitReached
    ensures EndsAtLimit(Received(Delivered(frame), pending, chunks), limit, h)
  {
  }

  lemma Rejoin(s: seq<byte>, n: nat, k: nat, more: seq<byte>)
    requires n <= k <= |s| && s[n..][..k - n] + more == s[n..]
    ensures s[..k] + more == s
  {
    assert s[..k] == s[..n] + s[n..][..k - n];
    assert s[..n] + (s[n..][..k - n] + more) == s[..k] + more;
  }

  /** A stream whose backlog does not fit can be cut so that the limit is reached. */
  lemma {:induction false} BadCut(s: seq<byte>, have: nat, limit: nat, h: Headers) returns (chunks: seq<seq<byte>>)
    requires have <= |s| && !BacklogFits(s, have, limit, h)
    ensures FromSocket(chunks) && s[..have] + Concat(chunks) == s
    ensures ReceiveAll(s[..have], chunks, limit, h).ending == LimitReached
    decreases |s|, 2
  {
    hide FromSocket, Concat, CutAt, ReceiveHeader, AfterHeader, Singles, BodyAndRestFit, BodySize, HeaderSize, Got;
    if FindPacket(s, 0).None? || (have <= FindPacket(s, 0).value && !Roomy(FindPacket(s, 0).value, |s|, limit)) {
      var k := if FindPacket(s, 0).None? then |s| - 1 else FindPacket(s, 0).value;
      chunks := CutAt(s, have, k);
      CutAtIsACut(s, have, k);
      HeaderOverflows(s, have, k, limit, h);
    } else {
      var n, got := HeaderSize(s), Got(s, have);
      var rest, m := s[n..], BodySize(s, h).value;
      assert !BodyAndRestFit(rest, got, m, limit, h);
      var cs := CutBehindHeader(s[..n], rest, got, m, limit, h);
      chunks := Singles(s[have..n + got]) + cs;
      FromSocketSum(s[have..n + got], cs);
      ConcatSingles(s[have..n + got], cs);
      CutIsJoined(s, have, n, got, Concat(cs));
      HeaderBytewise(s, have, cs, limit, h);
      assert s[n..n + got] == rest[..got];
      BodyOrNone(s, cs, got, limit, h);
    }
  }

  /** The part of that cut behind the first header block. */
  lemma {:induction false} CutBehindHeader(header: seq<byte>, rest: seq<byte>, got: nat, m: nat, limit: nat, h: Headers)
    returns (cs: seq<seq<byte>>)
    requires got <= |rest| && !BodyAndRestFit(rest, got, m, limit, h)
    ensures FromSocket(cs) && rest[..got] + Concat(cs) == rest
    ensures EndsAtLimit(ReceiveBody(header, m, rest[..got], cs, limit), limit, h)
    decreases |rest|, 4
  {
    hide FromSocket, Concat, EndsAtLimit, ReceiveBody, BacklogFits;
    if m > got && got != |rest| && !Roomy(m - 1, |rest|, limit) {
      cs := CutInBody(header, rest, got, m, limit, h);
    } else {
      cs := CutBehindBody(header, rest, got, m, limit, h);
    }
  }

  /** The part of that cut behind a body. */
  lemma {:induction false} CutBehindBody(header: seq<byte>, rest: seq<byte>, got: nat, m: nat, limit: nat, h: Headers)
    returns (cs: seq<seq<byte>>)
    requires got <= |rest| && m <= |rest| && !BacklogFits(rest[m..], Max(got, m) - m, limit, h)
    ensures FromSocket(cs) && rest[..got] + Concat(cs) == rest
    ensures EndsAtLimit(ReceiveBody(header, m, rest[..got], cs, limit), limit, h)
    decreases |rest|, 3
  {
    hide FromSocket, Concat, Singles, BacklogFits, EndsAtLimit;
    if got < m {
      var behind := BadCut(rest[m..], 0, limit, h);
      assert rest[m..][..0] == [] && [] + Concat(behind) == Concat(behind);
      cs := Singles(rest[got..m]) + behind;
      FromSocketSum(rest[got..m], behind);
      ConcatSingles(rest[got..m], behind);
      assert rest[..got] + (rest[got..m] + rest[m..]) == rest;
      BodyBytewise(header, m, rest, got, m, behind, limit);
      assert rest[..m][m..] == rest[m..][..0];
      DeliveredAndOn(Frame(header, Some(rest[..m][..m])), rest[..m][m..], behind, limit, h);
      var r := ReceiveBody(header, m, rest[..got], cs, limit);
      if r.ending == LimitReached { EndsHere(r, limit, h); }
    } else {
      cs := BadCut(rest[m..], got - m, limit, h);
      Rejoin(rest, m, got, Concat(cs));
      assert rest[..got][m..] == rest[m..][..got - m];
      DeliveredAndOn(Frame(header, Some(rest[..got][..m])), rest[..got][m..], cs, limit, h);
    }
  }

  /** Whatever the socket makes of the stream, the limit is not reached. */
  ghost predicate NoCutReachesLimit(s: seq<byte>, limit: nat, h: Headers) {
    forall chunks :: FromSocket(chunks) && Concat(chunks) == s ==>
                       ReceiveAll([], chunks, limit, h).ending != LimitReached
  }

  /** That is so exactly when the backlog fits. */
  lemma NoCutReachesLimitIffBacklogFits(s: seq<byte>, limit: nat, h: Headers)
    ensures NoCutReachesLimit(s, limit, h) <==> BacklogFits(s, 0, limit, h)
  {
    hide BacklogFits, ReceiveAll, Concat, FromSocket;
    if BacklogFits(s, 0, limit, h) {
      forall chunks | FromSocket(chunks) && Concat(chunks) == s
        ensures ReceiveAll([], chunks, limit, h).ending != LimitReached
      {
        assert [] + Concat(chunks) == Concat(chunks);
        RunFits([], chunks, 0, limit, h);
      }
    } else {
      var chunks := BadCut(s, 0, limit, h);
      assert s[..0] == [] && [] + Concat(chunks) == Concat(chunks);
    }
  }

  // ----- the loops themselves -----

  /** A connected handle: its packet buffer, and the chunks the socket will still give. */
  class Handle {
    const packetBuf: Buffer
    const headers: Headers
    var socket: seq<seq<byte>>
    var connected: bool

    ghost predicate Valid()
      reads this`socket, packetBuf, packetBuf.data
    {
      && packetBuf.Valid() && 0 < packetBuf.maxLen <= SIZE_MAX / 8 && packetBuf.blocksize <= SIZE_MAX / 8
      && packetBuf.data.Length <= SIZE_MAX / 2 && packetBuf.used <= packetBuf.maxLen
      && forall c :: c in socket ==> 0 < |c| <= SOCKET_MAX
    }

    constructor (packetBuf: Buffer, socket: seq<seq<byte>>, headers: Headers)
      requires packetBuf.Valid() && packetBuf.Pending() == [] && packetBuf.data.Length <= SIZE_MAX / 2
      requires 0 < packetBuf.maxLen <= SIZE_MAX / 8 && packetBuf.blocksize <= SIZE_MAX / 8
      requires forall c :: c in socket ==> 0 < |c| <= SOCKET_MAX
      ensures Valid() && connected && this.packetBuf == packetBuf && this.socket == socket
    {
      this.packetBuf, this.socket, this.headers, connected := packetBuf, socket, headers, true;
    }

    /** `handle_recv` and `esl_buffer_write`: one more chunk, unless the socket or the buffer is at its end. */
    method ReceiveChunk() returns (failed: Option<Ending>)
      requires Valid()
      modifies this`socket, packetBuf, packetBuf.data
      ensures Valid() && (packetBuf.data == old(packetBuf.data) || fresh(packetBuf.data))
      ensures old(socket) == [] ==> failed == Some(Disconnected)
      ensures old(socket) != [] ==>
                if Fits(old(packetBuf.Pending()), old(socket)[0], packetBuf.maxLen) then failed == None
                else failed == Some(LimitReached)
      ensures failed == None ==> packetBuf.Pending() == old(packetBuf.Pending()) + old(socket)[0]
      ensures failed != None ==> packetBuf.Pending() == old(packetBuf.Pending())
      ensures socket == if old(socket) == [] then [] else old(socket)[1..]
    {
      if socket == [] { return Some(Disconnected); }
      var chunk := socket[0];
      assert chunk in socket;
      socket := socket[1..];
      var w := packetBuf.Write(chunk);
      return if w == 0 then Some(LimitReached) else None;
    }

    /** `esl_buffer_read_packet` when it has a packet: the header, or nothing and no change. */
    method TakeHeader() returns (header: seq<byte>)
      requires Valid()
      modifies packetBuf
      ensures Valid() && packetBuf.data == old(packetBuf.data)
      ensures header == [] ==>
                FindPacket(old(packetBuf.Pending()), 0).None? && packetBuf.Pending() == old(packetBuf.Pending())
      ensures header != [] ==>
                ReceiveHeader(old(packetBuf.Pending()), socket, packetBuf.maxLen, headers) ==
                AfterHeader(header, packetBuf.Pending(), socket, packetBuf.maxLen, headers)
    {
      hide FindPacket, AfterHeader;
      header := packetBuf.ReadPacket(SOCKET_MAX);
    }

    static lemma OneMoreChunk(pending: seq<byte>, chunks: seq<seq<byte>>, limit: nat, h: Headers)
      requires FindPacket(pending, 0).None?
      ensures ReceiveHeader(pending, chunks, limit, h) ==
              if chunks == [] then Received(Disconnected, pending, [])
              else if !Fits(pending, chunks[0], limit) then Received(LimitReached, pending, chunks[1..])
              else ReceiveHeader(pending + chunks[0], chunks[1..], limit, h)
    {
      hide FindPacket, AfterHeader;
    }

    method RecvHeader() returns (header: seq<byte>, failed: Option<Ending>)
      requires Valid()
      modifies this`socket, packetBuf, packetBuf.data
      ensures Valid() && (packetBuf.data == old(packetBuf.data) || fresh(packetBuf.data))
      ensures ReceiveHeader(old(packetBuf.Pending()), old(socket), packetBuf.maxLen, headers) ==
              if failed.Some? then Received(failed.value, packetBuf.Pending(), socket)
              else AfterHeader(header, packetBuf.Pending(), socket, packetBuf.maxLen, headers)
      ensures failed.Some? ==> !failed.value.Delivered?
    {
      hide FindPacket, AfterHeader, ReceiveHeader;
      ghost var goal := ReceiveHeader(packetBuf.Pending(), socket, packetBuf.maxLen, headers);
      while true
        invariant Valid() && (packetBuf.data == old(packetBuf.data) || fresh(packetBuf.data))
        invariant ReceiveHeader(packetBuf.Pending(), socket, packetBuf.maxLen, headers) == goal
        decreases |socket|
      {
        header := TakeHeader();
        if |header| > 0 { return header, None; }
        OneMoreChunk(packetBuf.Pending(), socket, packetBuf.maxLen, headers);
        failed := ReceiveChunk();
        if failed.Some? { return; }
      }
    }

    method RecvBody(header: seq<byte>, m: nat) returns (ending: Ending)
      requires Valid()
      modifies this`socket, packetBuf, packetBuf.data
      ensures Valid() && (packetBuf.data == old(packetBuf.data) || fresh(packetBuf.data))
      ensures Received(ending, packetBuf.Pending(), socket) ==
              ReceiveBody(header, m, old(packetBuf.Pending()), old(socket), packetBuf.maxLen)
    {
      ghost var goal := ReceiveBody(header, m, packetBuf.Pending(), socket, packetBuf.maxLen);
      while packetBuf.used < m
        invariant Valid() && (packetBuf.data == old(packetBuf.data) || fresh(packetBuf.data))
        invariant ReceiveBody(header, m, packetBuf.Pending(), socket, packetBuf.maxLen) == goal
        decreases |socket|
      {
        var failed := ReceiveChunk();
        if failed.Some? { return failed.value; }
      }
      var body := packetBuf.Read(m);
      return Delivered(Frame(header, Some(body)));
    }

    /** `esl_recv_event` up to the body: how it ends and what it leaves unread. */
    method RecvEvent() returns (ending: Ending)
      requires Valid() && connected
      modifies this, packetBuf, packetBuf.data
      ensures Valid() && (packetBuf.data == old(packetBuf.data) || fresh(packetBuf.data))
      ensures Received(ending, packetBuf.Pending(), socket) ==
              ReceiveHeader(old(packetBuf.Pending()), old(socket), packetBuf.maxLen, headers)
      ensures connected <==> ending.Delivered?
    {
      hide ReceiveHeader, ReceiveBody, Valid;
      var header, failed := RecvHeader();
      if failed.Some? {
        connected := false;
        return failed.value;
      }
      match headers(header)
      case NoBody =>
        ending, connected := Delivered(Frame(header, None)), true;
      case BadLength =>
        ending, connected := Rejected, false;
      case Length(m) =>
        ending := RecvBody(header, m);
        connected := ending.Delivered?;
    }
  }
}
