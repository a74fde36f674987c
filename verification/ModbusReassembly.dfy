/**
 Reassembly does not depend on how the network cuts a frame into chunks.
 */
module ModbusReassembly {
  import opened Wire
  import opened ModbusFrame
  import opened ModbusCodec
  import opened ModbusClient

  /** A whole frame: its length field is right and nothing in it refers to bytes behind it. */
  ghost predicate Whole(b: seq<byte>) {
    |b| >= 9 && U16At(b, 4) + 6 as int == |b| && (ListedFunction(b[7]) ==> 9 + 2 * (b[8] / 2) <= |b|)
  }

  lemma WholeResponse(r: Response)
    requires Normal(r) && |r.values| <= 127
    ensures Whole(FrameBytes(r))
  {
    hide FramePrefix;
    var b := FrameBytes(r);
    var head := FramePrefix(r.transactionId, r.protocolId, 3 + 2 * |r.values|, r.unitId);
    assert head <= b;
    PrefixRead(b, r.transactionId, r.protocolId, 3 + 2 * |r.values|, r.unitId);
    assert b[7] == r.functionCode && b[8] == 2 * |r.values|;
  }

  lemma WholeException(transactionId: word, protocolId: word, unitId: byte, functionCode: byte, code: byte)
    ensures Whole(ExceptionBytes(transactionId, protocolId, 3, unitId, functionCode, code))
  {
    hide FramePrefix;
    var b := ExceptionBytes(transactionId, protocolId, 3, unitId, functionCode, code);
    assert FramePrefix(transactionId, protocolId, 3, unitId) <= b;
    PrefixRead(b, transactionId, protocolId, 3, unitId);
    assert b[7] == WithHighBit(functionCode);
  }

  lemma WholeIsDecoded(b: seq<byte>, mem: Memory, length: nat)
    requires Whole(b) && b <= mem && length >= |b|
    ensures Frame(mem, length) == Frame(b, |b|)
    ensures Frame(mem, length).Some?
  {
    hide U16;
    assert forall i :: 0 <= i < |b| ==> At(mem, i) == At(b, i) by {
      assert forall i :: 0 <= i < |b| ==> mem[i] == b[i];
    }
    if ListedFunction(b[7]) {
      assert Registers(mem, 9, b[8] / 2) == Registers(b, 9, b[8] / 2);
    }
  }

  lemma PartIsSilent(b: seq<byte>, part: seq<byte>, beyond: seq<byte>)
    requires Whole(b) && part < b
    ensures Frame(part + beyond, |part|).None?
  {
    if |part| >= 8 {
      assert (part + beyond)[4] == part[4] == b[4] && (part + beyond)[5] == part[5] == b[5];
    }
  }

  /** A chunk, and what lies behind the read buffer when it has been appended. */
  datatype Arrival = Arrival(chunk: seq<byte>, beyond: seq<byte>)

  function Bytes(arrivals: seq<Arrival>): seq<byte> {
    if arrivals == [] then [] else arrivals[0].chunk + Bytes(arrivals[1..])
  }

  /** The state and the events after a sequence of chunks, none of them with a write completion between. */
  function Feed(s: State, arrivals: seq<Arrival>, react: Event -> seq<ReadRequest>): (State, seq<Event>)
    decreases |arrivals|
  {
    if arrivals == [] then (s, [])
    else
      var a := arrivals[0];
      match Completed(s, a.chunk, a.beyond)
      case None => Feed(Arrived(s, a.chunk), arrivals[1..], react)
      case Some(r) =>
        var event := Published(s.pending, r);
        var rest := Feed(Data(s, a.chunk, a.beyond, react(event)), arrivals[1..], react);
        (rest.0, [event] + rest.1)
  }

  /** What a whole frame does when it arrives at once. */
  function Deliver(s: State, b: seq<byte>, react: Event -> seq<ReadRequest>): (State, seq<Event>)
    requires Frame(b, |b|).Some?
  {
    var r := Frame(b, |b|).value;
    var event := Published(s.pending, r);
    (Settled(IssueAll(s, react(event)), r.transactionId), [event])
  }

  lemma {:induction false} EmptyChunks(s: State, arrivals: seq<Arrival>, react: Event -> seq<ReadRequest>)
    requires s.readBuffer == [] && Bytes(arrivals) == []
    ensures Feed(s, arrivals, react) == (s, [])
    decreases |arrivals|
  {
    if arrivals != [] {
      var c := arrivals[0].chunk;
      assert c == [] && Bytes(arrivals[1..]) == [] by {
        assert |c + Bytes(arrivals[1..])| == 0;
      }
      assert s.readBuffer + c == [];
      EmptyChunks(s, arrivals[1..], react);
    }
  }

  lemma {:induction false} IssueKeepsBuffer(s: State, qs: seq<ReadRequest>, buffer: seq<byte>)
    ensures IssueAll(s.(readBuffer := buffer), qs) == IssueAll(s, qs).(readBuffer := buffer)
    ensures IssueAll(s, qs).readBuffer == s.readBuffer
    decreases |qs|
  {
    hide RequestBytes, NextId;
    if qs != [] {
      IssueKeepsBuffer(s, qs[..|qs| - 1], buffer);
    }
  }

  lemma {:induction false} FeedRest(s: State, b: seq<byte>, arrivals: seq<Arrival>, react: Event -> seq<ReadRequest>)
    requires Whole(b) && s.readBuffer < b && s.readBuffer + Bytes(arrivals) == b
    ensures Frame(b, |b|).Some?
    ensures Feed(s, arrivals, react) == Deliver(s, b, react)
    decreases |arrivals|
  {
    hide Frame, RequestBytes, Whole, Published, IssueAll;
    WholeIsDecoded(b, b, |b|);
    var p := s.readBuffer;
    assert |p| + |Bytes(arrivals)| == |b|;
    if arrivals != [] {
      var a := arrivals[0];
      var rest := Bytes(arrivals[1..]);
      assert p + (a.chunk + rest) == p + a.chunk + rest;
      if |p + a.chunk| < |b| {
        PartIsSilent(b, p + a.chunk, a.beyond);
        FeedRest(Arrived(s, a.chunk), b, arrivals[1..], react);
        SameDelivery(s, a.chunk, b, react);
      } else {
        assert p + a.chunk == b && rest == [];
        LastChunk(s, b, arrivals, react);
      }
    }
  }

  lemma SameDelivery(s: State, chunk: seq<byte>, b: seq<byte>, react: Event -> seq<ReadRequest>)
    requires Frame(b, |b|).Some?
    ensures Deliver(Arrived(s, chunk), b, react) == Deliver(s, b, react)
  {
    hide Frame, RequestBytes, Published, IssueAll;
    var event := Published(s.pending, Frame(b, |b|).value);
    IssueKeepsBuffer(s, react(event), s.readBuffer + chunk);
  }

  lemma LastChunk(s: State, b: seq<byte>, arrivals: seq<Arrival>, react: Event -> seq<ReadRequest>)
    requires Whole(b) && arrivals != [] && b <= s.readBuffer + arrivals[0].chunk && Bytes(arrivals[1..]) == []
    ensures Frame(b, |b|).Some?
    ensures Feed(s, arrivals, react) == Deliver(s, b, react)
  {
    hide Frame, RequestBytes, Published, IssueAll;
    var a := arrivals[0];
    assert b <= s.readBuffer + a.chunk + a.beyond;
    WholeIsDecoded(b, s.readBuffer + a.chunk + a.beyond, |s.readBuffer + a.chunk|);
    var event := Published(s.pending, Frame(b, |b|).value);
    SameDelivery(s, a.chunk, b, react);
    assert Completed(s, a.chunk, a.beyond) == Frame(b, |b|);
    EmptyChunks(Data(s, a.chunk, a.beyond, react(event)), arrivals[1..], react);
    assert [event] + [] == [event];
  }

  /**
   However a whole frame is cut into chunks, and whatever memory holds behind the read buffer, the client
   ends in the same state and publishes the same single event as when the frame arrives at once; and the
   read buffer ends empty.
   */
  lemma ChunkingDoesNotMatter(s: State, b: seq<byte>, arrivals: seq<Arrival>, react: Event -> seq<ReadRequest>)
    requires Whole(b) && s.readBuffer == [] && Bytes(arrivals) == b
    ensures Frame(b, |b|).Some?
    ensures Feed(s, arrivals, react) == Deliver(s, b, react)
    ensures Feed(s, arrivals, react).0.readBuffer == []
  {
    hide Frame, Feed, IssueAll, Published;
    assert [] + Bytes(arrivals) == b;
    FeedRest(s, b, arrivals, react);
  }

  /** Nothing is published, and nothing but the read buffer changes, before the chunk that completes the frame. */
  lemma {:induction false} SilentUntilComplete(s: State, b: seq<byte>, arrivals: seq<Arrival>,
                                               react: Event -> seq<ReadRequest>)
    requires Whole(b) && s.readBuffer + Bytes(arrivals) < b
    ensures Feed(s, arrivals, react) == (s.(readBuffer := s.readBuffer + Bytes(arrivals)), [])
    decreases |arrivals|
  {
    hide Frame, Whole;
    if arrivals == [] {
      assert s.readBuffer + [] == s.readBuffer;
    } else {
      var a := arrivals[0];
      var rest := Bytes(arrivals[1..]);
      assert s.readBuffer + (a.chunk + rest) == s.readBuffer + a.chunk + rest;
      PartIsSilent(b, s.readBuffer + a.chunk, a.beyond);
      SilentUntilComplete(Arrived(s, a.chunk), b, arrivals[1..], react);
    }
  }

  /** Bytes that follow a frame in its last chunk are dropped: they belong to no later frame. */
  lemma StraddlingBytesAreLost(s: State, b: seq<byte>, extra: seq<byte>, beyond: seq<byte>,
                               react: Event -> seq<ReadRequest>)
    requires Whole(b) && s.readBuffer == []
    ensures Frame(b, |b|).Some?
    ensures Feed(s, [Arrival(b + extra, beyond)], react) == Deliver(s, b, react)
  {
    hide Feed, Frame, Whole;
    assert [] + (b + extra) == b + extra;
    LastChunk(s, b, [Arrival(b + extra, beyond)], react);
  }

  // Completed writes, which clear the read buffer.

  datatype Arriving = Chunk(a: Arrival) | WriteCompleted

  /** The state and the events after chunks and completed writes. */
  function Watch(s: State, happenings: seq<Arriving>, react: Event -> seq<ReadRequest>): (State, seq<Event>)
    decreases |happenings|
  {
    if happenings == [] then (s, [])
    else
      match happenings[0]
      case WriteCompleted => Watch(WriteDone(s), happenings[1..], react)
      case Chunk(a) =>
        var first := Feed(s, [a], react);
        var rest := Watch(first.0, happenings[1..], react);
        (rest.0, first.1 + rest.1)
  }

  /** The chunks alone. */
  function Chunks(happenings: seq<Arriving>): seq<Arrival> {
    if happenings == [] then []
    else (if happenings[0].Chunk? then [happenings[0].a] else []) + Chunks(happenings[1..])
  }

  /** No write completes while part of a frame has been read. */
  predicate WritesBetweenFrames(s: State, happenings: seq<Arriving>, react: Event -> seq<ReadRequest>)
    decreases |happenings|
  {
    happenings == []
    || (match happenings[0]
        case WriteCompleted => s.readBuffer == [] && WritesBetweenFrames(s, happenings[1..], react)
        case Chunk(a) => WritesBetweenFrames(Feed(s, [a], react).0, happenings[1..], react))
  }

  /** Writes that complete between frames lose nothing: the chunks are handled as if there were no writes. */
  lemma {:induction false} WritesBetweenFramesAreHarmless(s: State, happenings: seq<Arriving>,
                                                          react: Event -> seq<ReadRequest>)
    requires WritesBetweenFrames(s, happenings, react)
    ensures Watch(s, happenings, react) == Feed(s, Chunks(happenings), react)
    decreases |happenings|
  {
    hide Feed;
    if happenings == [] {
      NothingToFeed(s, react);
    } else {
      var rest := happenings[1..];
      match happenings[0]
      case WriteCompleted =>
        assert WriteDone(s) == s;
        WritesBetweenFramesAreHarmless(s, rest, react);
        assert Chunks(happenings) == Chunks(rest);
      case Chunk(a) =>
        WritesBetweenFramesAreHarmless(Feed(s, [a], react).0, rest, react);
        FeedInTwo(s, [a], Chunks(rest), react);
    }
  }

  /** Too few bytes for a frame: fewer than eight, or fewer than what is taken for their length field asks for. */
  predicate Unframed(bytes: seq<byte>) {
    |bytes| < 8 || |bytes| < U16At(bytes, 4) + 6 as int
  }

  lemma FrameNeedsLength(bytes: seq<byte>, beyond: seq<byte>)
    ensures Frame(bytes + beyond, |bytes|).None? <==> Unframed(bytes)
  {
    if |bytes| >= 8 {
      assert (bytes + beyond)[4] == bytes[4] && (bytes + beyond)[5] == bytes[5];
    }
  }

  lemma PartIsUnframed(bytes: seq<byte>, more: seq<byte>)
    requires Unframed(bytes + more)
    ensures Unframed(bytes)
  {
    if |bytes| >= 8 {
      assert (bytes + more)[4] == bytes[4] && (bytes + more)[5] == bytes[5];
    }
  }

  /** Bytes are read without a word if and only if they are too few for a frame. */
  lemma {:induction false} SilentIffUnframed(s: State, arrivals: seq<Arrival>, react: Event -> seq<ReadRequest>)
    requires Unframed(s.readBuffer)
    ensures Feed(s, arrivals, react).1 == [] <==> Unframed(s.readBuffer + Bytes(arrivals))
    ensures Unframed(s.readBuffer + Bytes(arrivals)) ==>
              Feed(s, arrivals, react).0 == s.(readBuffer := s.readBuffer + Bytes(arrivals))
    decreases |arrivals|
  {
    hide Frame, Unframed, IssueAll, Published;
    if arrivals == [] {
      assert s.readBuffer + [] == s.readBuffer;
    } else {
      var a := arrivals[0];
      var rest := Bytes(arrivals[1..]);
      var read := s.readBuffer + a.chunk;
      assert s.readBuffer + (a.chunk + rest) == read + rest;
      FrameNeedsLength(read, a.beyond);
      if Unframed(read) {
        SilentIffUnframed(Arrived(s, a.chunk), arrivals[1..], react);
      } else if Unframed(read + rest) {
        PartIsUnframed(read, rest);
      }
    }
  }

  /**
   A write that completes after part of a frame has been read loses that part: what is left of the frame is
   handled as if it were all of it. Nothing is published for it, and the request stays pending, if and only
   if the rest is shorter than what its own fifth and sixth byte then seem to say. A write that completes
   before the first byte loses nothing: exactly those writes are harmless that find the read buffer empty.
   */
  lemma WriteWithinFrameLosesIt(s: State, b: seq<byte>, before: seq<Arrival>, after: seq<Arrival>,
                                react: Event -> seq<ReadRequest>)
    requires Whole(b) && s.readBuffer == [] && Bytes(before) + Bytes(after) == b && Bytes(after) != []
    ensures var read := Feed(s, before, react).0;
            && read == s.(readBuffer := Bytes(before))
            && (WriteDone(read) == read <==> Bytes(before) == [])
            && Feed(WriteDone(read), after, react) == Feed(s, after, react)
            && (Feed(WriteDone(read), after, react).1 == [] <==> Unframed(Bytes(after)))
            && (Unframed(Bytes(after)) ==>
                  Feed(WriteDone(read), after, react) == (s.(readBuffer := Bytes(after)), []))
            && (Bytes(before) == [] ==>
                  Frame(b, |b|).Some? && Feed(WriteDone(read), after, react) == Deliver(s, b, react))
  {
    NothingIsUnframed();
    hide Feed, Frame, Whole, Unframed, Deliver;
    assert [] + Bytes(before) == Bytes(before) && [] + Bytes(after) == Bytes(after);
    SilentUntilComplete(s, b, before, react);
    var read := Feed(s, before, react).0;
    assert read.(readBuffer := []) == s;
    SilentIffUnframed(s, after, react);
    if Bytes(before) == [] {
      ChunkingDoesNotMatter(s, b, after, react);
    }
  }

  lemma NothingIsUnframed()
    ensures Unframed([])
  {}

  // Streams of frames.

  lemma {:induction false} FeedInTwo(s: State, a: seq<Arrival>, b: seq<Arrival>, react: Event -> seq<ReadRequest>)
    ensures var first := Feed(s, a, react);
            var second := Feed(first.0, b, react);
            Feed(s, a + b, react) == (second.0, first.1 + second.1)
    decreases |a|
  {
    hide Completed, Published, Data;
    if a == [] {
      assert a + b == b;
      var second := Feed(s, b, react);
      assert [] + second.1 == second.1;
    } else {
      assert (a + b)[1..] == a[1..] + b;
      var x := a[0];
      match Completed(s, x.chunk, x.beyond)
      case None => FeedInTwo(Arrived(s, x.chunk), a[1..], b, react);
      case Some(r) =>
        var event := Published(s.pending, r);
        var next := Data(s, x.chunk, x.beyond, react(event));
        FeedInTwo(next, a[1..], b, react);
        var first := Feed(next, a[1..], react);
        var second := Feed(first.0, b, react);
        assert [event] + (first.1 + second.1) == [event] + first.1 + second.1;
    }
  }

  function Flat(groups: seq<seq<Arrival>>): seq<Arrival> {
    if groups == [] then [] else groups[0] + Flat(groups[1..])
  }

  /** Each group of chunks is one whole frame. */
  ghost predicate FramesOf(groups: seq<seq<Arrival>>) {
    forall i :: 0 <= i < |groups| ==> Whole(Bytes(groups[i]))
  }

  ghost function DeliverAll(s: State, groups: seq<seq<Arrival>>, react: Event -> seq<ReadRequest>): (State, seq<Event>)
    requires FramesOf(groups)
    decreases |groups|
  {
    if groups == [] then (s, [])
    else
      WholeIsDecoded(Bytes(groups[0]), Bytes(groups[0]), |Bytes(groups[0])|);
      var first := Deliver(s, Bytes(groups[0]), react);
      var rest := DeliverAll(first.0, groups[1..], react);
      (rest.0, first.1 + rest.1)
  }

  /** A stream whose chunks do not straddle frames publishes every frame, in order, once. */
  lemma {:induction false} StreamIsDelivered(s: State, groups: seq<seq<Arrival>>, react: Event -> seq<ReadRequest>)
    requires FramesOf(groups) && s.readBuffer == []
    ensures Feed(s, Flat(groups), react) == DeliverAll(s, groups, react)
    ensures |DeliverAll(s, groups, react).1| == |groups|
    decreases |groups|
  {
    hide Feed, Whole, Frame, IssueAll, Published, Bytes;
    if groups == [] {
      NothingToFeed(s, react);
    } else {
      var b := Bytes(groups[0]);
      ChunkingDoesNotMatter(s, b, groups[0], react);
      FeedInTwo(s, groups[0], Flat(groups[1..]), react);
      StreamIsDelivered(Deliver(s, b, react).0, groups[1..], react);
    }
  }

  lemma NothingToFeed(s: State, react: Event -> seq<ReadRequest>)
    ensures Feed(s, [], react) == (s, [])
  {}
}
