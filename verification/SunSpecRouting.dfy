/**
 Replies are routed by user data and size alone; that this is sound follows from what is ever asked for.
 */
module SunSpecRouting {
  import opened Wire
  import opened ModbusFrame
  import opened ModbusClient
  import opened SunSpecModels
  import opened SunSpecProtocol
  import opened SunSpecSystem
  import opened SunSpecWalk
  import UnitIds

  /**
   What each kind of request needs for its compliant reply to reach its own handler, exactly. Header
   requests need nothing; `ReadBlock` sees to the length; the rest is up to the device's table. A block
   reply asks for nothing more exactly if it is not the common block, which would start the walk anew.
   */
  lemma RoutesExactly(unitId: byte, c: Client, address: word, modelId: word, length: word, values: seq<word>)
    ensures RouteOf(HeaderRequest(unitId).userData, HeaderRequest(unitId).length) == ToHeader
    ensures RouteOf(EntryRequest(c, address).userData, EntryRequest(c, address).length) == ToEntry
            <==> address != READ_HEADER
    ensures ReadBlock(c, modelId, address, length).requests != [] ==>
              (RouteOf(modelId, length) == ToBlock <==> modelId != READ_HEADER)
    ensures modelId != READ_HEADER ==>
              (RouteOf(modelId, length) == ToBlock <==> ReadBlock(c, modelId, address, length).requests != [])
    ensures OnBlock(c, modelId, values).requests == [] <==> modelId != COMMON
  {
    hide Common, Updated;
  }

  /** Which handler a phase waits for. */
  function Expected(c: Client, p: Phase, values: seq<word>): Effect
    requires p.Walking? ==> |values| == 2
  {
    match p
    case Probing => OnHeader(c, values)
    case Identifying => OnBlock(c, COMMON, values)
    case Walking(a) => OnModelEntry(c, a, values)
    case _ => Quiet(c)
  }

  /** During discovery, with entries in the valid range, each reply reaches the handler that waits for it. */
  lemma DiscoveryRoutes(sys: System, p: Phase, id: word, f: Response)
    requires In(sys, p) && Answers(sys, id, f) && f.exceptionCode == NO_EXCEPTION
    requires p.Walking? ==> VALID_START <= p.address <= VALID_END
    ensures p.Walking? ==> |f.values| == 2
    ensures React(sys.client, sys.listed, Published(sys.modbus.pending, f)) == Expected(sys.client, p, f.values)
  {
    hide UnitIds.IDS, OnHeader, OnBlock, OnModelEntry, Published;
    var q := sys.net[id];
    assert Asking(sys, q);
    ReplyIsPublished(sys, q, f);
  }

  // After connect: the user reads models, several at a time if he likes.

  /** The request asks for exactly the payload of the model whose id is its user data. */
  ghost predicate BlockAsked(c: Client, q: ReadRequest) {
    && q.unitId == c.unitId && q.userData in c.blockAddresses
    && q.address == c.blockAddresses[q.userData].0 && q.length == c.blockAddresses[q.userData].1
    && q.length != 2
  }

  /** The ids that would send a reply to another handler, or restart the walk. */
  ghost predicate TableAllowed(c: Client) {
    COMMON !in c.blockAddresses && READ_HEADER !in c.blockAddresses
  }

  ghost predicate Serving(sys: System) {
    && !sys.listed && TableAllowed(sys.client) && SunSpecModels.Identified(sys.client.models)
    && sys.net.Keys == sys.modbus.pending.Keys
    && forall id :: id in sys.net ==>
         BlockAsked(sys.client, sys.net[id]) && sys.modbus.pending[id] == sys.net[id].userData
  }

  /** The user reads models, one after the other. */
  function ReadAll(sys: System, wanted: seq<word>): System
    decreases |wanted|
  {
    if wanted == [] then sys
    else
      var before := ReadAll(sys, wanted[..|wanted| - 1]);
      Perform(before, ReadModel(before.client, wanted[|wanted| - 1]))
  }

  /** A reply has been handled, but its request not yet forgotten: this is when listeners run. */
  function Handled(sys: System, f: Response): System {
    Perform(sys.(net := sys.net - {f.transactionId}), React(sys.client, sys.listed, Published(sys.modbus.pending, f)))
  }

  /** The listeners read models while the reply is published. */
  function OnFrameReading(sys: System, f: Response, wanted: seq<word>): System {
    Forgotten(ReadAll(Handled(sys, f), wanted), f.transactionId)
  }

  function Forgotten(sys: System, id: word): System {
    sys.(modbus := Settled(sys.modbus, id))
  }

  datatype Use = Read(modelId: word) | Answered(f: Response, wanted: seq<word>)

  function Step(sys: System, use: Use): System {
    match use
    case Read(modelId) => Perform(sys, ReadModel(sys.client, modelId))
    case Answered(f, wanted) => OnFrameReading(sys, f, wanted)
  }

  /** No id is reused while it is pending. */
  ghost predicate Fresh(sys: System) {
    NextId(sys.modbus.lastId) !in sys.modbus.pending
  }

  ghost predicate FreshReads(sys: System, wanted: seq<word>)
    decreases |wanted|
  {
    wanted == [] || (FreshReads(sys, wanted[..|wanted| - 1]) && Fresh(ReadAll(sys, wanted[..|wanted| - 1])))
  }

  /** Ids are not reused while pending or being published; replies are compliant, and may come in any order. */
  ghost predicate Possible(sys: System, use: Use) {
    match use
    case Read(_) => Fresh(sys)
    case Answered(f, wanted) => Answers(sys, f.transactionId, f) && FreshReads(Handled(sys, f), wanted)
  }

  function Run(sys: System, uses: seq<Use>): System
    decreases |uses|
  {
    if uses == [] then sys else Step(Run(sys, uses[..|uses| - 1]), uses[|uses| - 1])
  }

  ghost predicate AllPossible(sys: System, uses: seq<Use>)
    decreases |uses|
  {
    uses == []
    || (AllPossible(sys, uses[..|uses| - 1]) && Possible(Run(sys, uses[..|uses| - 1]), uses[|uses| - 1]))
  }

  lemma ReadKeepsServing(sys: System, modelId: word)
    requires Serving(sys) && Possible(sys, Read(modelId))
    ensures Serving(Step(sys, Read(modelId)))
    ensures Step(sys, Read(modelId)).client == sys.client && Step(sys, Read(modelId)).notices == sys.notices
    ensures forall id :: id in Step(sys, Read(modelId)).net ==>
              (id in sys.net && Step(sys, Read(modelId)).net[id] == sys.net[id])
              || Step(sys, Read(modelId)).net[id].userData == modelId
  {
    hide RequestBytes, Wrap;
    var e := ReadModel(sys.client, modelId);
    assert sys.notices + [] == sys.notices;
    if e.requests != [] {
      var q := e.requests[0];
      assert e.requests == [q] && [q][..0] == [];
      assert IssueAll(sys.modbus, [q]) == Issue(sys.modbus, q);
      NextIdDiffers(sys.modbus.lastId);
      assert Posted(sys.net, sys.modbus.lastId, [q]) == sys.net[NextId(sys.modbus.lastId) := q];
    }
  }

  lemma {:induction false} ReadsKeepServing(sys: System, wanted: seq<word>)
    requires Serving(sys) && FreshReads(sys, wanted)
    ensures Serving(ReadAll(sys, wanted))
    ensures ReadAll(sys, wanted).client == sys.client && ReadAll(sys, wanted).notices == sys.notices
    ensures forall id :: id in ReadAll(sys, wanted).net ==>
              (id in sys.net && ReadAll(sys, wanted).net[id] == sys.net[id])
              || ReadAll(sys, wanted).net[id].userData in wanted
    decreases |wanted|
  {
    hide Serving, Perform;
    if wanted != [] {
      var last := |wanted| - 1;
      ReadsKeepServing(sys, wanted[..last]);
      var before := ReadAll(sys, wanted[..last]);
      ReadKeepsServing(before, wanted[last]);
      assert Step(before, Read(wanted[last])) == ReadAll(sys, wanted);
    }
  }

  // Reads that listeners make come before the answered id is erased and the buffer cleared; that is no difference.

  lemma ReadThenForget(sys: System, modelId: word, id: word)
    requires Fresh(sys) && id in sys.modbus.pending
    ensures var e := ReadModel(sys.client, modelId);
            && Forgotten(Perform(sys, e), id) == Perform(Forgotten(sys, id), e)
            && id in Perform(sys, e).modbus.pending && Fresh(Forgotten(sys, id))
  {
    hide RequestBytes, Wrap;
    var e := ReadModel(sys.client, modelId);
    if e.requests != [] {
      var q := e.requests[0];
      var next := NextId(sys.modbus.lastId);
      assert e.requests == [q] && [q][..0] == [];
      assert IssueAll(sys.modbus, [q]) == Issue(sys.modbus, q);
      assert IssueAll(Settled(sys.modbus, id), [q]) == Issue(Settled(sys.modbus, id), q);
      assert sys.modbus.pending[next := q.userData] - {id} == (sys.modbus.pending - {id})[next := q.userData];
    }
  }

  lemma {:induction false} ReadAllThenForget(sys: System, wanted: seq<word>, id: word)
    requires FreshReads(sys, wanted) && id in sys.modbus.pending
    ensures Forgotten(ReadAll(sys, wanted), id) == ReadAll(Forgotten(sys, id), wanted)
    ensures id in ReadAll(sys, wanted).modbus.pending && FreshReads(Forgotten(sys, id), wanted)
    decreases |wanted|
  {
    hide Forgotten, Perform, Fresh;
    if wanted != [] {
      var last := |wanted| - 1;
      ReadAllThenForget(sys, wanted[..last], id);
      var before := ReadAll(sys, wanted[..last]);
      ReadThenForget(before, wanted[last], id);
      assert Forgotten(before, id).client == before.client by {
        ForgottenClient(before, id);
      }
    }
  }

  lemma ForgottenClient(sys: System, id: word)
    ensures Forgotten(sys, id).client == sys.client
  {}

  /** What listeners read while a reply is published is as good as read right after it. */
  lemma ReadingInListeners(sys: System, f: Response, wanted: seq<word>)
    requires FreshReads(Handled(sys, f), wanted) && f.transactionId in Handled(sys, f).modbus.pending
    ensures OnFrameReading(sys, f, wanted) == ReadAll(OnFrame(sys, f), wanted) && FreshReads(OnFrame(sys, f), wanted)
  {
    hide React, Published, ReadAll, FreshReads, IssueAll;
    ReadAllThenForget(Handled(sys, f), wanted, f.transactionId);
    assert Forgotten(Handled(sys, f), f.transactionId) == OnFrame(sys, f);
  }

  /** The reply to a request for a model reaches `parseBlock` with that model's id, and asks for nothing. */
  lemma BlockIsRouted(sys: System, f: Response)
    requires Serving(sys) && Answers(sys, f.transactionId, f) && f.exceptionCode == NO_EXCEPTION
    ensures var q := sys.net[f.transactionId];
            && RouteOf(q.userData, |f.values|) == ToBlock
            && React(sys.client, sys.listed, Published(sys.modbus.pending, f))
               == ParseBlock(sys.client, q.userData, f.values)
            && ParseBlock(sys.client, q.userData, f.values).requests == []
  {
    hide Updated;
    var q := sys.net[f.transactionId];
    assert q.userData != COMMON && q.userData != READ_HEADER;
  }

  /** The client has not changed but for what it has read of the models other than the common one. */
  ghost predicate SameDevice(c: Client, c': Client) {
    c' == c.(models := c'.models) && Entry(c'.models, COMMON) == Entry(c.models, COMMON)
  }

  lemma UpdatedKeepsCommon(models: map<word, Model>, id: word, buffer: seq<word>)
    requires id != COMMON
    ensures Entry(Updated(models, id, buffer), COMMON) == Entry(models, COMMON)
  {
    hide Decoded;
  }

  lemma ReactKeepsTable(sys: System, f: Response)
    requires Serving(sys) && Answers(sys, f.transactionId, f)
    ensures var e := React(sys.client, sys.listed, Published(sys.modbus.pending, f));
            && e.requests == []
            && SameDevice(sys.client, e.client)
            && SunSpecModels.Identified(e.client.models)
  {
    hide Updated;
    if f.exceptionCode == NO_EXCEPTION {
      BlockIsRouted(sys, f);
      UpdatedStaysIdentified(sys.client.models, sys.net[f.transactionId].userData, f.values);
      UpdatedKeepsCommon(sys.client.models, sys.net[f.transactionId].userData, f.values);
    }
  }

  lemma ReplyKeepsServing(sys: System, f: Response)
    requires Serving(sys) && Answers(sys, f.transactionId, f)
    ensures Serving(OnFrame(sys, f))
    ensures SameDevice(sys.client, OnFrame(sys, f).client)
    ensures forall id :: id in OnFrame(sys, f).net ==> id in sys.net && OnFrame(sys, f).net[id] == sys.net[id]
  {
    hide React, Published, SunSpecModels.Identified;
    ReactKeepsTable(sys, f);
  }

  lemma AnswerKeepsServing(sys: System, f: Response, wanted: seq<word>)
    requires Serving(sys) && Possible(sys, Answered(f, wanted))
    ensures Serving(Step(sys, Answered(f, wanted)))
    ensures SameDevice(sys.client, Step(sys, Answered(f, wanted)).client)
    ensures Step(sys, Answered(f, wanted)).notices == OnFrame(sys, f).notices
    ensures forall id :: id in Step(sys, Answered(f, wanted)).net ==>
              (id in sys.net && Step(sys, Answered(f, wanted)).net[id] == sys.net[id])
              || Step(sys, Answered(f, wanted)).net[id].userData in wanted
  {
    hide React, Published, OnFrame, ReadAll, FreshReads, SameDevice;
    StillPending(sys, f);
    ReadingInListeners(sys, f, wanted);
    ReplyKeepsServing(sys, f);
    ReadsKeepServing(OnFrame(sys, f), wanted);
  }

  lemma StillPending(sys: System, f: Response)
    requires Serving(sys) && Answers(sys, f.transactionId, f)
    ensures f.transactionId in Handled(sys, f).modbus.pending
  {
    hide React, Published, SameDevice, SunSpecModels.Identified;
    ReactKeepsTable(sys, f);
  }

  /** The user has read this model, by himself or from a listener. */
  predicate Reads(use: Use, modelId: word) {
    match use
    case Read(id) => id == modelId
    case Answered(_, wanted) => modelId in wanted
  }

  ghost predicate Asked(uses: seq<Use>, modelId: word) {
    exists j :: 0 <= j < |uses| && Reads(uses[j], modelId)
  }

  lemma AskedBefore(uses: seq<Use>, modelId: word)
    requires uses != [] && Asked(uses[..|uses| - 1], modelId)
    ensures Asked(uses, modelId)
  {
    var j :| 0 <= j < |uses| - 1 && Reads(uses[..|uses| - 1][j], modelId);
    assert Reads(uses[j], modelId);
  }

  lemma LastIsAsked(uses: seq<Use>, modelId: word)
    requires uses != [] && Reads(uses[|uses| - 1], modelId)
    ensures Asked(uses, modelId)
  {}

  lemma UseKeepsRequests(sys: System, use: Use)
    requires Serving(sys) && Possible(sys, use)
    ensures Serving(Step(sys, use)) && SameDevice(sys.client, Step(sys, use).client)
    ensures forall id :: id in Step(sys, use).net ==>
              (id in sys.net && Step(sys, use).net[id] == sys.net[id]) || Reads(use, Step(sys, use).net[id].userData)
  {
    hide Serving, Possible, OnFrameReading, Perform;
    match use
    case Read(modelId) => ReadKeepsServing(sys, modelId);
    case Answered(f, wanted) => AnswerKeepsServing(sys, f, wanted);
  }

  /**
   Every way of using a discovered client keeps its requests and replies in order, also when listeners read
   models while a reply is published: whatever is pending asks for exactly the payload of a model that the
   user has read. The device, its unit and its table stay as they are.
   */
  lemma {:induction false} UseKeepsServing(sys: System, uses: seq<Use>)
    requires Serving(sys) && sys.net == map[] && AllPossible(sys, uses)
    ensures Serving(Run(sys, uses))
    ensures SameDevice(sys.client, Run(sys, uses).client)
    ensures forall id :: id in Run(sys, uses).net ==> Asked(uses, Run(sys, uses).net[id].userData)
    decreases |uses|
  {
    hide Serving, Step, Possible, Asked, Reads;
    if uses != [] {
      UseKeepsServing(sys, uses[..|uses| - 1]);
      var before := Run(sys, uses[..|uses| - 1]);
      UseKeepsRequests(before, uses[|uses| - 1]);
      forall id | id in Run(sys, uses).net
        ensures Asked(uses, Run(sys, uses).net[id].userData)
      {
        if id in before.net && Run(sys, uses).net[id] == before.net[id] {
          AskedBefore(uses, before.net[id].userData);
        } else {
          LastIsAsked(uses, Run(sys, uses).net[id].userData);
        }
      }
    }
  }

  /** A discovered client whose device lists neither model 1 nor 63000 starts to serve with nothing under way. */
  lemma {:induction false} DiscoveredServes(bus: map<byte, Registers>, k: nat, headerLength: word,
                                            entries: seq<TableEntry>)
    requires k < |UnitIds.IDS| && UnitIds.IDS[k] in bus && HasHeader(bus[UnitIds.IDS[k]], headerLength)
    requires forall j :: 0 <= j < k ==> PassedOver(bus, UnitIds.IDS[j])
    requires ChainAt(bus[UnitIds.IDS[k]], COMMON_ADDRESS + headerLength as int, entries)
    requires forall i :: 0 <= i < |entries| ==> entries[i].id != COMMON && entries[i].id != READ_HEADER
    ensures Serving(Discovered(bus, k, entries)) && Discovered(bus, k, entries).net == map[]
    ensures var c := Discovered(bus, k, entries).client;
            && c.unitId == UnitIds.IDS[k]
            && c.blockAddresses == Table(map[], COMMON_ADDRESS + headerLength as int, entries)
            && Entry(c.models, COMMON) == Common(NEW_MODEL, ReadAt(bus[c.unitId], COMMON_ADDRESS, headerLength))
    ensures Discovered(bus, k, entries).notices == Refusals(bus, 0, k) + [Connected]
  {
    hide UnitIds.IDS, Serve, Start, ReadAt, Readable, Common, SunSpecId, Discovered, PassedOver;
    DiscoveryFindsDevice(bus, k, headerLength, entries);
    TableIds(map[], COMMON_ADDRESS + headerLength as int, entries);
  }

  /**
   On a device with these registers, in every state that a user can bring about, the reply to a pending
   read publishes at most one model; it has the id that was asked for, and was decoded from the payload
   window of that very model.
   */
  lemma ModelsComeFromTheirWindow(sys: System, regs: Registers, id: word)
    requires Serving(sys) && id in sys.net
    requires Readable(regs, sys.net[id].address, sys.net[id].length)
    ensures var q := sys.net[id];
            var c := sys.client;
            var f := Response(id, 0, q.unitId, READ_HOLDING_REGISTERS, NO_EXCEPTION, 0,
                              ReadAt(regs, q.address, q.length));
            && q.userData in c.blockAddresses
            && c.blockAddresses[q.userData] == (q.address, q.length)
            && OnFrame(sys, f).notices == sys.notices
               + (if !Supported(q.userData) then []
                  else [ModelRead(Decoded(Entry(c.models, COMMON), Before(c.models, q.userData), q.userData,
                                          ReadAt(regs, q.address, q.length)))])
            && Before(c.models, q.userData).modelId == q.userData
  {
    hide Readable, Decoded, Published, React, RequestBytes;
    var q := sys.net[id];
    var f := Response(id, 0, q.unitId, READ_HOLDING_REGISTERS, NO_EXCEPTION, 0, ReadAt(regs, q.address, q.length));
    assert |f.values| == q.length;
    BlockIsRouted(sys, f);
    NonEmptyRead(regs, q.address, q.length);
    assert Updates(q.userData, f.values) <==> Supported(q.userData);
  }

  lemma NonEmptyRead(regs: Registers, address: word, length: word)
    requires Readable(regs, address, length)
    ensures ReadAt(regs, address, length) != []
  {}
}
