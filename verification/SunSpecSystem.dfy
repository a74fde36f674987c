/**
 A SunSpec client together with the network: which requests are under way, and that discovery runs in
 lock-step.
 */
module SunSpecSystem {
  import opened Wire
  import opened ModbusFrame
  import opened ModbusClient
  import opened ModbusReassembly
  import opened SunSpecModels
  import opened SunSpecProtocol
  import UnitIds

  /**
   The client, whether the discovery still listens to it, its Modbus client, the requests that the
   network has not answered, all requests ever made, and all notices ever published.
   */
  datatype System = System(client: Client, listed: bool, modbus: State, net: map<word, ReadRequest>,
                           asked: seq<ReadRequest>, notices: seq<Notice>)

  function Posted(net: map<word, ReadRequest>, lastId: word, qs: seq<ReadRequest>): map<word, ReadRequest>
    decreases |qs|
  {
    if qs == [] then net
    else Posted(net, lastId, qs[..|qs| - 1])[Wrap(lastId + |qs|) := qs[|qs| - 1]]
  }

  function Perform(sys: System, e: Effect): System {
    System(e.client, StillListed(sys.listed, e.notices), IssueAll(sys.modbus, e.requests),
           Posted(sys.net, sys.modbus.lastId, e.requests), sys.asked + e.requests, sys.notices + e.notices)
  }

  /** The network has answered with a frame: it is handled, and then its request is forgotten. */
  function OnFrame(sys: System, f: Response): System {
    var answered := sys.(net := sys.net - {f.transactionId});
    var acted := Perform(answered, React(sys.client, sys.listed, Published(sys.modbus.pending, f)));
    acted.(modbus := Settled(acted.modbus, f.transactionId))
  }

  function OnBytes(sys: System, chunk: seq<byte>, beyond: seq<byte>): System {
    match Completed(sys.modbus, chunk, beyond)
    case None => sys.(modbus := Arrived(sys.modbus, chunk))
    case Some(f) => OnFrame(sys.(modbus := Arrived(sys.modbus, chunk)), f)
  }

  /** Bytes change the system as `SunSpecDiscovery.OnData` changes a client. */
  lemma BytesReachClient(sys: System, chunk: seq<byte>, beyond: seq<byte>)
    ensures var after := OnBytes(sys, chunk, beyond);
            match Completed(sys.modbus, chunk, beyond)
            case None => after == sys.(modbus := Arrived(sys.modbus, chunk))
            case Some(f) =>
              var e := React(sys.client, sys.listed, Published(sys.modbus.pending, f));
              && after.client == e.client && after.notices == sys.notices + e.notices
              && after.listed == StillListed(sys.listed, e.notices)
              && after.modbus == Data(sys.modbus, chunk, beyond, e.requests)
  {
    hide Completed, Published, React, RequestBytes, IssueAll;
  }

  /** Construction, followed by the first probe. */
  const NEW_SYSTEM := System(NEW_CLIENT, true, INITIAL, map[], [], [])

  function Start(): System {
    Perform(NEW_SYSTEM, Probe(NEW_CLIENT))
  }

  // Compliant replies.

  /** `f` answers the outstanding request `id`: with exactly the requested registers, or an exception. */
  ghost predicate Answers(sys: System, id: word, f: Response) {
    && id in sys.net && f.transactionId == id && f.userData == 0
    && (f.exceptionCode == NO_EXCEPTION ==> |f.values| == sys.net[id].length)
  }

  /** A frame on the wire that decodes to `f`. */
  ghost predicate Encodes(frame: seq<byte>, f: Response) {
    Whole(frame) && Frame(frame, |frame|) == Some(f)
  }

  function Feeds(sys: System, arrivals: seq<Arrival>): System
    decreases |arrivals|
  {
    if arrivals == [] then sys
    else Feeds(OnBytes(sys, arrivals[0].chunk, arrivals[0].beyond), arrivals[1..])
  }

  lemma BufferDoesNotMatter(sys: System, buffer: seq<byte>, f: Response)
    ensures OnFrame(sys.(modbus := sys.modbus.(readBuffer := buffer)), f) == OnFrame(sys, f)
  {
    hide React, RequestBytes, Published, IssueAll, Posted;
    var e := React(sys.client, sys.listed, Published(sys.modbus.pending, f));
    IssueKeepsBuffer(sys.modbus, e.requests, buffer);
  }

  lemma {:induction false} NothingArrives(sys: System, arrivals: seq<Arrival>)
    requires sys.modbus.readBuffer == [] && Bytes(arrivals) == []
    ensures Feeds(sys, arrivals) == sys
    decreases |arrivals|
  {
    hide OnFrame;
    if arrivals != [] {
      assert |arrivals[0].chunk + Bytes(arrivals[1..])| == 0;
      assert arrivals[0].chunk == [] && Bytes(arrivals[1..]) == [];
      assert sys.modbus.readBuffer + arrivals[0].chunk == [];
      NothingArrives(sys, arrivals[1..]);
    }
  }

  /** A reply has the same effect in whatever chunks it arrives. */
  lemma {:induction false} RepliesArriveInChunks(sys: System, frame: seq<byte>, f: Response, arrivals: seq<Arrival>)
    requires Encodes(frame, f) && sys.modbus.readBuffer < frame
    requires sys.modbus.readBuffer + Bytes(arrivals) == frame
    ensures Feeds(sys, arrivals) == OnFrame(sys, f)
    decreases |arrivals|
  {
    hide OnFrame, Frame, Whole;
    var p := sys.modbus.readBuffer;
    assert |p| + |Bytes(arrivals)| == |frame|;
    if arrivals != [] {
      var a := arrivals[0];
      var rest := Bytes(arrivals[1..]);
      assert p + (a.chunk + rest) == p + a.chunk + rest;
      BufferDoesNotMatter(sys, p + a.chunk, f);
      if |p + a.chunk| < |frame| {
        PartIsSilent(frame, p + a.chunk, a.beyond);
        RepliesArriveInChunks(OnBytes(sys, a.chunk, a.beyond), frame, f, arrivals[1..]);
      } else {
        assert p + a.chunk == frame && rest == [];
        WholeIsDecoded(frame, p + a.chunk + a.beyond, |p + a.chunk|);
        SettledBuffer(sys, f);
        NothingArrives(OnFrame(sys, f), arrivals[1..]);
      }
    }
  }

  lemma SettledBuffer(sys: System, f: Response)
    ensures OnFrame(sys, f).modbus.readBuffer == []
  {}

  // Lock-step.

  /** Exactly one request is under way, and the Modbus client expects its reply. */
  ghost predicate Asking(sys: System, q: ReadRequest) {
    sys.modbus.pending == map[sys.modbus.lastId := q.userData] && sys.net == map[sys.modbus.lastId := q]
  }

  ghost predicate Silent(sys: System) {
    sys.modbus.pending == map[] && sys.net == map[]
  }

  datatype Phase =
    | Probing                   // a header has been asked for
    | Identifying               // the common block has been asked for
    | Walking(address: word)    // the model entry at `address` has been asked for
    | Waiting                   // nothing more will be asked for, but the discovery still listens
    | Finished                  // the discovery has taken the client

  ghost predicate In(sys: System, p: Phase) {
    var c := sys.client;
    && sys.modbus.readBuffer == []
    && match p
       case Probing =>
         && sys.listed && c.sunSpecId == [] && 1 <= c.unitIdx <= |UnitIds.IDS|
         && c.unitId == UnitIds.IDS[c.unitIdx - 1] && Asking(sys, HeaderRequest(c.unitId))
       case Identifying =>
         && sys.listed && c.sunSpecId == [] && (c.headerLength == 65 || c.headerLength == 66)
         && Asking(sys, ReadRequest(c.unitId, COMMON_ADDRESS, c.headerLength, COMMON))
       case Walking(a) => sys.listed && c.sunSpecId != [] && Asking(sys, EntryRequest(c, a))
       case Waiting => sys.listed && c.sunSpecId != [] && Silent(sys)
       case Finished => !sys.listed && Silent(sys)
  }

  /** Where a compliant reply leads. */
  function NextPhase(sys: System, p: Phase, f: Response): Phase {
    var c := sys.client;
    if f.exceptionCode != NO_EXCEPTION then
      if p.Walking? || p.Waiting? then Waiting
      else if c.unitIdx >= |UnitIds.IDS| then Finished
      else Probing
    else
      match p
      case Probing => if ValidHeader(f.values) then Identifying else Finished
      case Identifying => Walking(Wrap(COMMON_ADDRESS + c.headerLength))
      case Walking(a) =>
        if a == READ_HEADER then Waiting
        else if |f.values| == 2 && f.values[0] != 0xFFFF then Walking(Wrap(a + 2 + f.values[1]))
        else Finished
      case _ => p
  }

  /** The one request that an effect may issue replaces the one that has been answered. */
  lemma OneForOne(sys: System, q: ReadRequest, f: Response, e: Effect)
    requires Asking(sys, q) && f.transactionId == sys.modbus.lastId
    requires e == React(sys.client, sys.listed, Published(sys.modbus.pending, f))
    ensures e.requests == [] ==> Silent(OnFrame(sys, f))
    ensures |e.requests| == 1 ==> Asking(OnFrame(sys, f), e.requests[0])
    ensures OnFrame(sys, f).modbus.readBuffer == []
    ensures OnFrame(sys, f).client == e.client
    ensures OnFrame(sys, f).listed == StillListed(sys.listed, e.notices)
    ensures OnFrame(sys, f).asked == sys.asked + e.requests && OnFrame(sys, f).notices == sys.notices + e.notices
  {
    hide React, RequestBytes, NextId, Wrap;
    var id := sys.modbus.lastId;
    assert sys.net - {id} == map[];
    if |e.requests| == 1 {
      var next := e.requests[0];
      assert e.requests == [next] && e.requests[..0] == [];
      NextIdDiffers(id);
      assert IssueAll(sys.modbus, e.requests) == Issue(sys.modbus, next);
      assert sys.modbus.pending[NextId(id) := next.userData] - {id} == map[NextId(id) := next.userData];
      assert Posted(map[], id, e.requests) == map[NextId(id) := next];
      assert OnFrame(sys, f).net == map[NextId(id) := next];
      assert OnFrame(sys, f).modbus.lastId == NextId(id);
      assert OnFrame(sys, f).modbus.pending == map[NextId(id) := next.userData];
    }
  }

  lemma NextIdDiffers(id: word)
    ensures NextId(id) != id && Wrap(id + 1) == NextId(id)
  {}

  /** Published with the user data of the request it answers. */
  lemma ReplyIsPublished(sys: System, q: ReadRequest, f: Response)
    requires Asking(sys, q) && Answers(sys, sys.modbus.lastId, f)
    ensures Published(sys.modbus.pending, f) ==
            if f.exceptionCode != NO_EXCEPTION then Exception(f.unitId, f.exceptionCode)
            else Reply(f.(userData := q.userData))
  {}

  lemma ProbeLeads(sys: System)
    requires sys.client.sunSpecId == [] && sys.listed
    ensures var e := Probe(sys.client);
            && e.client.sunSpecId == []
            && (sys.client.unitIdx >= |UnitIds.IDS| ==> e.requests == [] && e.notices == [Closed])
            && (sys.client.unitIdx < |UnitIds.IDS| ==>
                  && e.notices == [] && e.client.unitIdx == sys.client.unitIdx + 1
                  && e.client.unitId == UnitIds.IDS[sys.client.unitIdx]
                  && e.requests == [HeaderRequest(e.client.unitId)])
  {
    hide UnitIds.IDS;
  }

  lemma ExceptionStep(sys: System, p: Phase, q: ReadRequest, f: Response)
    requires In(sys, p) && Asking(sys, q) && Answers(sys, sys.modbus.lastId, f) && f.exceptionCode != NO_EXCEPTION
    ensures In(OnFrame(sys, f), NextPhase(sys, p, f))
    ensures OnFrame(sys, f).notices == sys.notices + [Excepted(f.unitId, f.exceptionCode)]
                                       + if NextPhase(sys, p, f).Finished? then [Closed] else []
  {
    hide UnitIds.IDS, OnFrame, Published, Probe;
    ReplyIsPublished(sys, q, f);
    var e := React(sys.client, sys.listed, Published(sys.modbus.pending, f));
    OneForOne(sys, q, f, e);
    if sys.client.sunSpecId == [] {
      ProbeLeads(sys);
      var n := Excepted(f.unitId, f.exceptionCode);
      assert sys.notices + ([n] + [Closed]) == sys.notices + [n] + [Closed];
      assert ([n] + [Closed])[1] == Closed;
    } else {
      var n := Excepted(f.unitId, f.exceptionCode);
      assert sys.notices + [n] + [] == sys.notices + [n];
    }
  }

  lemma HeaderStep(sys: System, f: Response)
    requires In(sys, Probing) && Answers(sys, sys.modbus.lastId, f) && f.exceptionCode == NO_EXCEPTION
    ensures In(OnFrame(sys, f), NextPhase(sys, Probing, f))
    ensures OnFrame(sys, f).notices == sys.notices + if ValidHeader(f.values) then [] else [Closed]
  {
    hide UnitIds.IDS, OnFrame, Published;
    var q := HeaderRequest(sys.client.unitId);
    ReplyIsPublished(sys, q, f);
    assert [Closed][0] == Closed;
    assert sys.notices + [] == sys.notices;
    OneForOne(sys, q, f, React(sys.client, sys.listed, Published(sys.modbus.pending, f)));
  }

  lemma CommonStep(sys: System, f: Response)
    requires In(sys, Identifying) && Answers(sys, sys.modbus.lastId, f) && f.exceptionCode == NO_EXCEPTION
    ensures In(OnFrame(sys, f), NextPhase(sys, Identifying, f))
    ensures OnFrame(sys, f).notices == sys.notices
  {
    hide UnitIds.IDS, OnFrame, Published, Common, SunSpecId;
    var c := sys.client;
    var q := ReadRequest(c.unitId, COMMON_ADDRESS, c.headerLength, COMMON);
    ReplyIsPublished(sys, q, f);
    OneForOne(sys, q, f, React(c, sys.listed, Published(sys.modbus.pending, f)));
    assert sys.notices + [] == sys.notices;
  }

  lemma EntryStep(sys: System, a: word, f: Response)
    requires In(sys, Walking(a)) && Answers(sys, sys.modbus.lastId, f) && f.exceptionCode == NO_EXCEPTION
    ensures In(OnFrame(sys, f), NextPhase(sys, Walking(a), f))
    ensures OnFrame(sys, f).notices
         == sys.notices + if NextPhase(sys, Walking(a), f).Finished? then [Connected] else []
  {
    hide UnitIds.IDS, OnFrame, Published;
    var q := EntryRequest(sys.client, a);
    ReplyIsPublished(sys, q, f);
    assert [Connected][0] == Connected;
    assert sys.notices + [] == sys.notices;
    OneForOne(sys, q, f, React(sys.client, sys.listed, Published(sys.modbus.pending, f)));
  }

  /**
   Discovery runs in lock-step: in each phase a compliant reply leads to a phase, so that at every
   quiescent point at most one request is under way, although its handler issues the next one before the
   old id is erased. A normal reply is published with the user data of its request.
   */
  lemma LockStep(sys: System, p: Phase, id: word, f: Response)
    requires In(sys, p) && Answers(sys, id, f)
    ensures In(OnFrame(sys, f), NextPhase(sys, p, f))
    ensures |sys.net| == |sys.modbus.pending| == 1 && id == sys.modbus.lastId
    ensures |OnFrame(sys, f).net| == |OnFrame(sys, f).modbus.pending| <= 1
    ensures f.exceptionCode == NO_EXCEPTION ==>
              Published(sys.modbus.pending, f) == Reply(f.(userData := sys.net[id].userData))
  {
    hide UnitIds.IDS, OnFrame;
    var q := sys.net[id];
    assert Asking(sys, q);
    ReplyIsPublished(sys, q, f);
    if f.exceptionCode != NO_EXCEPTION {
      ExceptionStep(sys, p, q, f);
    } else {
      match p
      case Probing => HeaderStep(sys, f);
      case Identifying => CommonStep(sys, f);
      case Walking(a) => EntryStep(sys, a, f);
    }
  }

  lemma StartIsProbing()
    ensures In(Start(), Probing)
    ensures Start().asked == [HeaderRequest(Start().client.unitId)] && Start().notices == []
  {
    UnitIds.IdsArePermutation();
    hide UnitIds.IDS, RequestBytes;
    var q := HeaderRequest(UnitIds.IDS[0]);
    assert Probe(NEW_CLIENT).requests == [q];
    assert [q][..0] == [];
    assert IssueAll(INITIAL, [q]) == Issue(INITIAL, q);
    assert Posted(map[], 0, [q]) == map[1 := q];
    assert [] + [q] == [q];
  }

  /** The system after a sequence of replies, from construction on. */
  function After(replies: seq<Response>): System
    decreases |replies|
  {
    if replies == [] then Start() else OnFrame(After(replies[..|replies| - 1]), replies[|replies| - 1])
  }

  /** Each reply answers a request that is under way. */
  ghost predicate Compliant(replies: seq<Response>)
    decreases |replies|
  {
    replies == []
    || (Compliant(replies[..|replies| - 1])
        && Answers(After(replies[..|replies| - 1]), replies[|replies| - 1].transactionId, replies[|replies| - 1]))
  }

  /** Every run of compliant replies is in some phase, with at most one request under way. */
  lemma {:induction false} RunsAreInLockStep(replies: seq<Response>) returns (p: Phase)
    requires Compliant(replies)
    ensures In(After(replies), p)
    ensures |After(replies).net| <= 1 && After(replies).net.Keys == After(replies).modbus.pending.Keys
    decreases |replies|
  {
    hide OnFrame, In, Start, Answers;
    if replies == [] {
      StartIsProbing();
      p := Probing;
    } else {
      var f := replies[|replies| - 1];
      var before := After(replies[..|replies| - 1]);
      var q := RunsAreInLockStep(replies[..|replies| - 1]);
      LockStep(before, q, f.transactionId, f);
      p := NextPhase(before, q, f);
    }
    OneAtATime(After(replies), p);
  }

  lemma OneAtATime(sys: System, p: Phase)
    requires In(sys, p)
    ensures |sys.net| <= 1 && sys.net.Keys == sys.modbus.pending.Keys
  {
    hide UnitIds.IDS;
  }
}
