/**
 From the registers of a device to the models that a user is given: discovery on a bus that does not change
 meanwhile; then any use of the discovered client, and replies in any order, while the registers change.
 */
module SunSpecEndToEnd {
  import opened Wire
  import opened ModbusFrame
  import opened ModbusClient
  import opened SunSpecModels
  import opened SunSpecDecoding
  import opened SunSpecProtocol
  import opened SunSpecSystem
  import opened SunSpecWalk
  import opened SunSpecOutcomes
  import opened SunSpecRouting
  import UnitIds

  /** Where a device keeps its models: its unit, its first model entry, and the entries. */
  datatype Device = Device(unit: byte, common: Model, start: nat, entries: seq<TableEntry>)

  /** The client knows this device, and nothing of it is under way but reads of its models. */
  ghost predicate Knows(sys: System, d: Device) {
    && Serving(sys) && sys.client.unitId == d.unit && Entry(sys.client.models, COMMON) == d.common
    && sys.client.blockAddresses == Table(map[], d.start, d.entries)
  }

  /** Some registers hold the device's chain. They need not be those that it holds when it is read. */
  ghost predicate Chained(d: Device) {
    exists regs, a: word :: a as int == d.start && ChainAt(regs, a, d.entries)
  }

  /** The payload of the `i`-th entry: where it starts, and as much of it as is read. */
  function PayloadAddress(d: Device, i: nat): nat
    requires i < |d.entries|
  {
    EntryAddress(d.start, d.entries, i) + 2
  }

  function PayloadLength(d: Device, i: nat): word
    requires i < |d.entries|
  {
    Capped(d.entries[i].id, d.entries[i].length)
  }

  /**
   `m` is what was known of the device's last model with this id, and over that, what the registers say in the
   payload of that entry; they say nothing if the payload has not the size that the model's factory wants.
   */
  ghost predicate Genuine(d: Device, regs: Registers, i: nat, before: Model, m: Model) {
    && IsLast(d.entries, i) && PayloadAddress(d, i) < 0x1_0000
    && Readable(regs, PayloadAddress(d, i), PayloadLength(d, i))
    && before.modelId == d.entries[i].id
    && var said := Said(d.common, d.entries[i].id, ReadAt(regs, PayloadAddress(d, i), PayloadLength(d, i)));
       && m == before.(values := before.values + said)
       && (said != map[] <==> Fits(d.common, d.entries[i].id, PayloadLength(d, i)))
  }

  lemma {:induction false} LastWithId(entries: seq<TableEntry>, j: nat) returns (i: nat)
    requires j < |entries|
    ensures IsLast(entries, i) && entries[i].id == entries[j].id
    decreases |entries| - j
  {
    if k :| j < k < |entries| && entries[k].id == entries[j].id {
      i := LastWithId(entries, k);
    } else {
      i := j;
    }
  }

  /** Each id in the table is that of a last entry, and leads to its payload. */
  lemma TableLeadsToPayload(d: Device, id: word) returns (i: nat)
    requires Chained(d) && id in Table(map[], d.start, d.entries)
    ensures IsLast(d.entries, i) && d.entries[i].id == id && PayloadAddress(d, i) < 0x1_0000
    ensures Table(map[], d.start, d.entries)[id] == (PayloadAddress(d, i), PayloadLength(d, i))
  {
    hide ChainAt, Capped, EntryAddress;
    var regs, a: word :| a as int == d.start && ChainAt(regs, a, d.entries);
    TableIsLastEntries(regs, map[], a, d.entries);
    var j :| 0 <= j < |d.entries| && d.entries[j].id == id;
    i := LastWithId(d.entries, j);
  }

  /**
   The reply of a device that now holds `regs` publishes at most one model, under the id that was asked for:
   the one that these registers say of the last entry with that id. A refused read publishes the exception.
   */
  lemma ReplyIsGenuine(sys: System, d: Device, id: word, now: map<byte, Registers>) returns (i: nat)
    requires Knows(sys, d) && Chained(d) && id in sys.net
    ensures IsLast(d.entries, i) && d.entries[i].id == sys.net[id].userData
    ensures var q := sys.net[id];
            var before := Before(sys.client.models, q.userData);
            var after := OnFrame(sys, Answer(now, id, q));
            && q.unitId == d.unit && PayloadAddress(d, i) == q.address && PayloadLength(d, i) == q.length
            && if d.unit !in now || !Readable(now[d.unit], q.address, q.length) then
                 exists code :: after.notices == sys.notices + [Excepted(d.unit, code)]
               else if !Supported(q.userData) then after.notices == sys.notices
               else
                 exists m :: after.notices == sys.notices + [ModelRead(m)]
                             && Genuine(d, now[d.unit], i, before, m)
  {
    hide Readable, Decoded, ReadAt, Said, Fits, OnFrame, Table, Capped, EntryAddress, IsLast, Supported,
         SunSpecModels.Identified;
    var q := sys.net[id];
    assert BlockAsked(sys.client, q);
    i := TableLeadsToPayload(d, q.userData);
    if d.unit !in now || !Readable(now[d.unit], q.address, q.length) {
      RefusalIsPassedOn(sys, id, now);
    } else {
      ModelsComeFromTheirWindow(sys, now[d.unit], id);
      DecodedIsSaid(d.common, Before(sys.client.models, q.userData), q.userData,
                    ReadAt(now[d.unit], q.address, q.length));
      assert Answer(now, id, q) == Response(id, 0, q.unitId, READ_HOLDING_REGISTERS, NO_EXCEPTION, 0,
                                            ReadAt(now[d.unit], q.address, q.length));
      assert sys.notices + [] == sys.notices;
    }
  }

  lemma RefusalIsPassedOn(sys: System, id: word, now: map<byte, Registers>)
    requires Serving(sys) && id in sys.net
    requires sys.net[id].unitId in now ==>
               !Readable(now[sys.net[id].unitId], sys.net[id].address, sys.net[id].length)
    ensures exists code :: OnFrame(sys, Answer(now, id, sys.net[id])).notices
                        == sys.notices + [Excepted(sys.net[id].unitId, code)]
  {
    hide Readable, ReadAt;
    var f := Answer(now, id, sys.net[id]);
    assert OnFrame(sys, f).notices == sys.notices + [Excepted(f.unitId, f.exceptionCode)];
  }

  // Whole runs.

  /** The replies come from units that hold these registers, one map for each use. */
  ghost predicate AllAnswered(sys: System, uses: seq<Use>, nows: seq<map<byte, Registers>>)
    requires |nows| == |uses|
    decreases |uses|
  {
    uses == []
    || (var last := |uses| - 1;
        var before := Run(sys, uses[..last]);
        && AllAnswered(sys, uses[..last], nows[..last])
        && Possible(before, uses[last])
        && (uses[last].Answered? ==>
              uses[last].f == Answer(nows[last], uses[last].f.transactionId, before.net[uses[last].f.transactionId])))
  }

  lemma {:induction false} AnsweredIsPossible(sys: System, uses: seq<Use>, nows: seq<map<byte, Registers>>)
    requires |nows| == |uses| && AllAnswered(sys, uses, nows)
    ensures AllPossible(sys, uses)
    decreases |uses|
  {
    hide Run, Possible;
    if uses != [] {
      AnsweredIsPossible(sys, uses[..|uses| - 1], nows[..|uses| - 1]);
    }
  }

  /**
   The `j`-th use published the notice number `x`: it answers a read of the model that the user made, and the
   model is what the device's registers said of it at that time, over what was known of it at that time.
   */
  ghost predicate Earned(sys: System, d: Device, uses: seq<Use>, nows: seq<map<byte, Registers>>, x: nat, m: Model,
                         j: nat, i: nat)
    requires |nows| == |uses|
  {
    && j < |uses| && uses[j].Answered?
    && var at := Run(sys, uses[..j]);
       && |at.notices| == x
       && uses[j].f.transactionId in at.net && at.net[uses[j].f.transactionId].userData == m.modelId
       && Asked(uses[..j], m.modelId)
       && d.unit in nows[j]
       && Genuine(d, nows[j][d.unit], i, Before(at.client.models, m.modelId), m)
  }

  ghost predicate IsEarned(sys: System, d: Device, uses: seq<Use>, nows: seq<map<byte, Registers>>, x: nat, m: Model)
    requires |nows| == |uses|
  {
    exists j: nat, i: nat :: Earned(sys, d, uses, nows, x, m, j, i)
  }

  lemma EarnedBefore(sys: System, d: Device, uses: seq<Use>, nows: seq<map<byte, Registers>>, x: nat, m: Model)
    requires uses != [] && |nows| == |uses|
    requires IsEarned(sys, d, uses[..|uses| - 1], nows[..|uses| - 1], x, m)
    ensures IsEarned(sys, d, uses, nows, x, m)
  {
    hide Genuine, Asked, Run;
    var j: nat, i: nat :| Earned(sys, d, uses[..|uses| - 1], nows[..|uses| - 1], x, m, j, i);
    assert uses[..|uses| - 1][..j] == uses[..j];
    assert Earned(sys, d, uses, nows, x, m, j, i);
  }

  lemma {:induction false} ModelsAreEarned(sys: System, d: Device, uses: seq<Use>, nows: seq<map<byte, Registers>>)
    requires Knows(sys, d) && Chained(d) && sys.net == map[]
    requires |nows| == |uses| && AllAnswered(sys, uses, nows)
    ensures sys.notices <= Run(sys, uses).notices
    ensures forall x :: |sys.notices| <= x < |Run(sys, uses).notices| && Run(sys, uses).notices[x].ModelRead? ==>
              IsEarned(sys, d, uses, nows, x, Run(sys, uses).notices[x].model)
    decreases |uses|
  {
    hide Knows, Step, IsEarned, Chained, Possible;
    if uses != [] {
      var last := |uses| - 1;
      var before, after := Run(sys, uses[..last]), Run(sys, uses);
      ModelsAreEarned(sys, d, uses[..last], nows[..last]);
      StepIsEarned(sys, d, uses, nows);
      forall x | |sys.notices| <= x < |after.notices| && after.notices[x].ModelRead?
        ensures IsEarned(sys, d, uses, nows, x, after.notices[x].model)
      {
        if x < |before.notices| {
          assert after.notices[x] == before.notices[x];
          EarnedBefore(sys, d, uses, nows, x, after.notices[x].model);
        }
      }
    }
  }

  lemma KnowsStill(sys: System, d: Device, uses: seq<Use>, nows: seq<map<byte, Registers>>)
    requires Knows(sys, d) && sys.net == map[] && |nows| == |uses| && AllAnswered(sys, uses, nows)
    ensures Knows(Run(sys, uses), d)
    ensures forall id :: id in Run(sys, uses).net ==> Asked(uses, Run(sys, uses).net[id].userData)
  {
    hide Serving, Asked, Table, Run, AllAnswered;
    AnsweredIsPossible(sys, uses, nows);
    UseKeepsServing(sys, uses);
  }

  /** What the last use publishes. */
  lemma StepIsEarned(sys: System, d: Device, uses: seq<Use>, nows: seq<map<byte, Registers>>)
    requires Knows(sys, d) && Chained(d) && sys.net == map[]
    requires uses != [] && |nows| == |uses| && AllAnswered(sys, uses, nows)
    ensures var before, after := Run(sys, uses[..|uses| - 1]).notices, Run(sys, uses).notices;
            && before <= after
            && forall x :: |before| <= x < |after| && after[x].ModelRead? ==>
                 IsEarned(sys, d, uses, nows, x, after[x].model)
  {
    hide Serving, OnFrame, OnFrameReading, Genuine, Asked, Chained, Table, Answer, Entry, SameDevice, Answers,
         FreshReads, Handled, Perform, Before;
    var last := |uses| - 1;
    var before := Run(sys, uses[..last]);
    KnowsStill(sys, d, uses[..last], nows[..last]);
    match uses[last]
    case Read(modelId) =>
      ReadKeepsServing(before, modelId);
    case Answered(f, wanted) =>
      AnswerKeepsServing(before, f, wanted);
      AnswersPending(before, f);
      var id := f.transactionId;
      var i := ReplyIsGenuine(before, d, id, nows[last]);
      var x := |before.notices|;
      var after := Run(sys, uses).notices;
      if x < |after| && after[x].ModelRead? {
        GenuineHasId(d, nows[last], i, Before(before.client.models, before.net[id].userData), after[x].model);
        assert Earned(sys, d, uses, nows, x, after[x].model, last, i);
      }
  }

  lemma AnswersPending(sys: System, f: Response)
    requires Answers(sys, f.transactionId, f)
    ensures f.transactionId in sys.net
  {}

  lemma GenuineHasId(d: Device, now: map<byte, Registers>, i: nat, before: Model, m: Model)
    ensures forall regs :: Genuine(d, regs, i, before, m) ==> m.modelId == d.entries[i].id
  {}

  /** The device on the bus. */
  ghost function DeviceAt(bus: map<byte, Registers>, k: nat, headerLength: word, entries: seq<TableEntry>): Device
    requires k < |UnitIds.IDS| && UnitIds.IDS[k] in bus && HasHeader(bus[UnitIds.IDS[k]], headerLength)
  {
    Device(UnitIds.IDS[k], Common(NEW_MODEL, ReadAt(bus[UnitIds.IDS[k]], COMMON_ADDRESS, headerLength)),
           COMMON_ADDRESS + headerLength as int, entries)
  }

  lemma {:induction false} DiscoveredKnows(bus: map<byte, Registers>, k: nat, headerLength: word,
                                           entries: seq<TableEntry>)
    requires k < |UnitIds.IDS| && UnitIds.IDS[k] in bus && HasHeader(bus[UnitIds.IDS[k]], headerLength)
    requires forall j :: 0 <= j < k ==> PassedOver(bus, UnitIds.IDS[j])
    requires ChainAt(bus[UnitIds.IDS[k]], COMMON_ADDRESS + headerLength as int, entries)
    requires forall i :: 0 <= i < |entries| ==> entries[i].id != COMMON && entries[i].id != READ_HEADER
    ensures Knows(Discovered(bus, k, entries), DeviceAt(bus, k, headerLength, entries))
    ensures Chained(DeviceAt(bus, k, headerLength, entries)) && Discovered(bus, k, entries).net == map[]
    ensures Discovered(bus, k, entries).notices == Refusals(bus, 0, k) + [Connected]
  {
    hide UnitIds.IDS, ChainAt, PassedOver, Discovered, Refusals, Serving, Common, ReadAt, Readable, Table, Entry;
    DiscoveredServes(bus, k, headerLength, entries);
    var a: word := COMMON_ADDRESS + headerLength;
    assert ChainAt(bus[UnitIds.IDS[k]], a, entries);
  }

  /**
   On every bus whose first unit that is not passed over is a SunSpec device which lists neither model 1 nor
   63000, discovery connects, once. In every run of reads and replies after that, in any order, with listeners
   that read models themselves, each model published is one that the user had read, published by the reply to
   that read: it is what the registers said, when the device replied, in the payload of the last entry of its
   chain with that id, at the sum of the sizes before it, 48 registers at most for the MPPT extension; and
   else what was known of the model. A payload of a size that does not fit says nothing.
   */
  lemma {:induction false} PublishedModelsAreGenuine(bus: map<byte, Registers>, k: nat, headerLength: word,
                                                     entries: seq<TableEntry>, uses: seq<Use>,
                                                     nows: seq<map<byte, Registers>>)
    requires k < |UnitIds.IDS| && UnitIds.IDS[k] in bus && HasHeader(bus[UnitIds.IDS[k]], headerLength)
    requires forall j :: 0 <= j < k ==> PassedOver(bus, UnitIds.IDS[j])
    requires ChainAt(bus[UnitIds.IDS[k]], COMMON_ADDRESS + headerLength as int, entries)
    requires forall i :: 0 <= i < |entries| ==> entries[i].id != COMMON && entries[i].id != READ_HEADER
    requires |nows| == |uses| && AllAnswered(Discovered(bus, k, entries), uses, nows)
    ensures var start := Discovered(bus, k, entries);
            var d := DeviceAt(bus, k, headerLength, entries);
            var notices := Run(start, uses).notices;
            && start.notices == Refusals(bus, 0, k) + [Connected] <= notices
            && forall x :: |start.notices| <= x < |notices| && notices[x].ModelRead? ==>
                 IsEarned(start, d, uses, nows, x, notices[x].model)
  {
    hide UnitIds.IDS, HasHeader, ChainAt, PassedOver, Discovered, AllAnswered, IsEarned, Refusals, Knows, Chained,
         DeviceAt, Run;
    DiscoveredKnows(bus, k, headerLength, entries);
    ModelsAreEarned(Discovered(bus, k, entries), DeviceAt(bus, k, headerLength, entries), uses, nows);
  }

  // Reads from the listener for connect.

  lemma {:induction false} ReadsAreUses(sys: System, wanted: seq<word>)
    requires FreshReads(sys, wanted)
    ensures var uses := seq<Use>(|wanted|, i requires 0 <= i < |wanted| => Read(wanted[i]));
            Run(sys, uses) == ReadAll(sys, wanted) && AllPossible(sys, uses)
    decreases |wanted|
  {
    hide Fresh, Perform;
    var uses := seq<Use>(|wanted|, i requires 0 <= i < |wanted| => Read(wanted[i]));
    if wanted != [] {
      var last := |wanted| - 1;
      ReadsAreUses(sys, wanted[..last]);
      assert uses[..last] == seq<Use>(last, i requires 0 <= i < last => Read(wanted[..last][i]));
      assert uses[|uses| - 1] == Read(wanted[last]);
    }
  }

  lemma {:induction false} ChainIsWalked(regs: Registers, a: word, entries: seq<TableEntry>)
    requires ChainAt(regs, a, entries)
    ensures WalkAddress(regs, a, |entries|).Some?
    ensures EndMark(regs, WalkAddress(regs, a, |entries|).value)
    decreases |entries|
  {
    ReadTwo(regs, a);
    if entries != [] {
      var next := a + 2 + entries[0].length;
      assert Wrap(a + 2 + regs[a + 1]) == next;
      ChainIsWalked(regs, next, entries[1..]);
    }
  }

  /**
   What the listener for connect reads, while the last entry's reply is still being handled, is as good as read
   right after discovery: the runs above include it.
   */
  lemma {:induction false} ReadsOnConnect(bus: map<byte, Registers>, k: nat, headerLength: word,
                                          entries: seq<TableEntry>, wanted: seq<word>)
    requires k < |UnitIds.IDS| && UnitIds.IDS[k] in bus && HasHeader(bus[UnitIds.IDS[k]], headerLength)
    requires forall j :: 0 <= j < k ==> PassedOver(bus, UnitIds.IDS[j])
    requires ChainAt(bus[UnitIds.IDS[k]], COMMON_ADDRESS + headerLength as int, entries)
    ensures var last := Iterate(Start(), bus, |AskedBetween(bus, 0, k)| + 2 + |entries|);
            && last.modbus.lastId in last.net
            && var f := Answer(bus, last.modbus.lastId, last.net[last.modbus.lastId]);
               && Discovered(bus, k, entries) == OnFrame(last, f)
               && (FreshReads(Handled(last, f), wanted) ==>
                     && OnFrameReading(last, f, wanted) == ReadAll(Discovered(bus, k, entries), wanted)
                     && FreshReads(Discovered(bus, k, entries), wanted))
  {
    hide UnitIds.IDS, ChainAt, PassedOver, Iterate, Start, ReadAt, Readable, WalkAddress, EndMark, OnFrame, Handled,
         OnFrameReading, ReadAll, FreshReads, In, AskedBetween;
    var unit := UnitIds.IDS[k];
    var a: word := COMMON_ADDRESS + headerLength;
    assert Wrap(a) == a;
    assert Enters(bus, k, a) by {
      SunSpecUnitIsFirst(bus, k, headerLength);
    }
    var n := EntersWalk(bus, k, a);
    ChainIsWalked(bus[unit], a, entries);
    var b := WalkAddress(bus[unit], a, |entries|).value;
    WalkReaches(Iterate(Start(), bus, n), bus, a, |entries|, b);
    IterateInTwo(Start(), bus, n, |entries|);
    var last := Iterate(Start(), bus, n + |entries|);
    WalkingAsks(last, b);
    IterateInTwo(Start(), bus, n + |entries|, 1);
    OneServe(last, bus);
    var f := Answer(bus, last.modbus.lastId, last.net[last.modbus.lastId]);
    PendingWhileHandled(last, f);
    if FreshReads(Handled(last, f), wanted) {
      ReadingInListeners(last, f, wanted);
    }
  }

  lemma SunSpecUnitIsFirst(bus: map<byte, Registers>, k: nat, headerLength: word)
    requires k < |UnitIds.IDS| && UnitIds.IDS[k] in bus && HasHeader(bus[UnitIds.IDS[k]], headerLength)
    requires forall j :: 0 <= j < k ==> PassedOver(bus, UnitIds.IDS[j])
    ensures FirstUnit(bus, k)
  {
    hide UnitIds.IDS, PassedOver, HasHeader;
    UnitsAreOfThreeKinds(bus, UnitIds.IDS[k]);
  }

  lemma WalkingAsks(sys: System, a: word)
    requires In(sys, Walking(a))
    ensures sys.modbus.lastId in sys.net && sys.modbus.lastId in sys.modbus.pending
  {
    hide UnitIds.IDS;
  }

  lemma {:induction false} IssueKeepsPending(s: State, qs: seq<ReadRequest>, id: word)
    requires id in s.pending
    ensures id in IssueAll(s, qs).pending
    decreases |qs|
  {
    hide RequestBytes, NextId;
    if qs != [] {
      IssueKeepsPending(s, qs[..|qs| - 1], id);
    }
  }

  lemma PendingWhileHandled(sys: System, f: Response)
    requires f.transactionId in sys.modbus.pending
    ensures f.transactionId in Handled(sys, f).modbus.pending
  {
    hide React, Published, IssueAll;
    IssueKeepsPending(sys.modbus, React(sys.client, sys.listed, Published(sys.modbus.pending, f)).requests,
                      f.transactionId);
  }

  // A payload of the wrong size.

  /**
   A supported model is published whatever the size of its payload: `updateFromBuffer` drops what the factories
   return. It is published as it was known before if and only if nothing is said, which is when the size does
   not fit; a model read for the first time then has no values at all.
   */
  lemma MisfitIsPublishedUndecoded(sys: System, regs: Registers, id: word)
    requires Serving(sys) && id in sys.net && Supported(sys.net[id].userData)
    requires Readable(regs, sys.net[id].address, sys.net[id].length)
    ensures var q := sys.net[id];
            var common := Entry(sys.client.models, COMMON);
            var known := Before(sys.client.models, q.userData);
            var f := Response(id, 0, q.unitId, READ_HOLDING_REGISTERS, NO_EXCEPTION, 0,
                              ReadAt(regs, q.address, q.length));
            && (!Fits(common, q.userData, q.length) ==> OnFrame(sys, f).notices == sys.notices + [ModelRead(known)])
            && (known.values == map[] ==>
                  (OnFrame(sys, f).notices == sys.notices + [ModelRead(known)]
                   <==> !Fits(common, q.userData, q.length)))
  {
    hide Readable, ReadAt, Decoded, Said, OnFrame, SunSpecModels.Identified;
    var q := sys.net[id];
    ModelsComeFromTheirWindow(sys, regs, id);
    var known := Before(sys.client.models, q.userData);
    var said := Said(Entry(sys.client.models, COMMON), q.userData, ReadAt(regs, q.address, q.length));
    DecodedIsSaid(Entry(sys.client.models, COMMON), known, q.userData, ReadAt(regs, q.address, q.length));
    assert map[] + said == said;
    var m := known.(values := known.values + said);
    assert (sys.notices + [ModelRead(m)])[|sys.notices|] == ModelRead(m);
    assert (sys.notices + [ModelRead(known)])[|sys.notices|] == ModelRead(known);
  }

  /** An inverter, whose model 101 has 60 registers where the factory wants 50. */
  const INVERTER: Registers :=
    map a: word | VALID_START <= a < 40140 ::
      if a == 40000 then 0x5375
      else if a == 40001 then 0x6E53
      else if a == 40002 then 1
      else if a == 40003 then 66
      else if a == 40070 then INVERTER_SINGLE_PHASE
      else if a == 40071 then 60
      else if a == 40132 then 0xFFFF
      else 0

  const ENTRIES := [TableEntry(INVERTER_SINGLE_PHASE, 60)]

  lemma InverterIsDevice()
    ensures HasHeader(INVERTER, 66) && ChainAt(INVERTER, 40070, ENTRIES)
    ensures Readable(INVERTER, 40072, 60) && Table(map[], 40070, ENTRIES) == map[INVERTER_SINGLE_PHASE := (40072, 60)]
  {
    assert ReadAt(INVERTER, VALID_START, 4) == [0x5375, 0x6E53, 1, 66];
    assert ENTRIES[1..] == [];
    assert ChainAt(INVERTER, 40132, []);
  }

  lemma InverterHasNoName()
    requires Readable(INVERTER, COMMON_ADDRESS, 66)
    ensures !IsElgris(Common(NEW_MODEL, ReadAt(INVERTER, COMMON_ADDRESS, 66)))
  {
    var block := ReadAt(INVERTER, COMMON_ADDRESS, 66);
    RegisterBytesAt(block[0..16], 0);
    assert block[0..16][0] == block[0] == 0;
    assert UntilNul(RegisterBytes(block[0..16])) == [];
  }

  lemma UnitOneIsFirst()
    ensures |UnitIds.IDS| == 247 && UnitIds.IDS[0] == 1
  {
    UnitIds.IdsArePermutation();
  }

  /** A read of a known model, when nothing is under way, asks for its payload. */
  lemma ReadAsks(sys: System, modelId: word)
    requires sys.net == map[] && modelId in sys.client.blockAddresses && sys.client.blockAddresses[modelId].1 != 2
    ensures var id := NextId(sys.modbus.lastId);
            var place := sys.client.blockAddresses[modelId];
            && Step(sys, Read(modelId)).modbus.lastId == id
            && Step(sys, Read(modelId)).net == map[id := ReadRequest(sys.client.unitId, place.0, place.1, modelId)]
  {
    hide RequestBytes, Wrap;
    var q := ReadModel(sys.client, modelId).requests[0];
    assert ReadModel(sys.client, modelId).requests == [q] && [q][..0] == [];
    assert IssueAll(sys.modbus, [q]) == Issue(sys.modbus, q);
    NextIdDiffers(sys.modbus.lastId);
    assert Posted(sys.net, sys.modbus.lastId, [q]) == map[NextId(sys.modbus.lastId) := q];
  }

  /** The first read of a model whose payload does not fit publishes the model without any values. */
  lemma FirstMisfit(sys: System, regs: Registers, modelId: word)
    requires Serving(sys) && sys.net == map[] && Supported(modelId)
    requires modelId in sys.client.blockAddresses && modelId !in sys.client.models
    requires var (address, length) := sys.client.blockAddresses[modelId];
             length != 2 && Readable(regs, address, length) && !Fits(Entry(sys.client.models, COMMON), modelId, length)
    ensures var read := Step(sys, Read(modelId));
            var id := read.modbus.lastId;
            && id in read.net
            && OnFrame(read, Answer(map[sys.client.unitId := regs], id, read.net[id])).notices
               == sys.notices + [ModelRead(Model(modelId, map[]))]
  {
    hide Readable, ReadAt, OnFrame, Serving, Fits, Step;
    NothingPending(sys);
    ReadKeepsServing(sys, modelId);
    ReadAsks(sys, modelId);
    var read := Step(sys, Read(modelId));
    MisfitIsPublishedUndecoded(read, regs, read.modbus.lastId);
  }

  /** What a discovered client knows of a device, and its own state. */
  lemma {:induction false} DeviceIsFound(bus: map<byte, Registers>, k: nat, headerLength: word,
                                         entries: seq<TableEntry>)
    requires k < |UnitIds.IDS| && UnitIds.IDS[k] in bus && HasHeader(bus[UnitIds.IDS[k]], headerLength)
    requires forall j :: 0 <= j < k ==> PassedOver(bus, UnitIds.IDS[j])
    requires ChainAt(bus[UnitIds.IDS[k]], COMMON_ADDRESS + headerLength as int, entries)
    requires forall i :: 0 <= i < |entries| ==> entries[i].id != COMMON && entries[i].id != READ_HEADER
    ensures var sys := Discovered(bus, k, entries);
            && Serving(sys) && sys.net == map[] && sys.notices == Refusals(bus, 0, k) + [Connected]
            && sys.client.unitId == UnitIds.IDS[k]
            && sys.client.blockAddresses == Table(map[], COMMON_ADDRESS + headerLength as int, entries)
            && sys.client.models.Keys == {COMMON}
            && Entry(sys.client.models, COMMON)
               == Common(NEW_MODEL, ReadAt(bus[UnitIds.IDS[k]], COMMON_ADDRESS, headerLength))
  {
    hide UnitIds.IDS, ReadAt, Readable, Common, Discovered, PassedOver, Table, Serving, Refusals, ChainAt;
    DiscoveredServes(bus, k, headerLength, entries);
    DiscoveredModels(bus, k, headerLength, entries);
  }

  lemma {:induction false} InverterIsFound()
    ensures |UnitIds.IDS| == 247 && UnitIds.IDS[0] == 1
    ensures var sys := Discovered(map[1 := INVERTER], 0, ENTRIES);
            && Serving(sys) && sys.net == map[] && sys.notices == [Connected]
            && sys.client.unitId == 1 && sys.client.blockAddresses == map[INVERTER_SINGLE_PHASE := (40072, 60)]
            && sys.client.models.Keys == {COMMON} && !IsElgris(Entry(sys.client.models, COMMON))
  {
    UnitOneIsFirst();
    InverterIsDevice();
    InverterHasNoName();
    hide UnitIds.IDS, INVERTER, Readable, ReadAt, Discovered, Common, HasHeader, ChainAt, Table, Serving, IsElgris,
         PassedOver, Entry;
    var bus := map[1 := INVERTER];
    assert Refusals(bus, 0, 0) + [Connected] == [Connected];
    DeviceIsFound(bus, 0, 66, ENTRIES);
  }

  /** On a bus with this inverter the user is given a model 101 without any values. */
  lemma {:induction false} MisfitExample()
    ensures |UnitIds.IDS| == 247
    ensures var bus := map[1 := INVERTER];
            var read := Step(Discovered(bus, 0, ENTRIES), Read(INVERTER_SINGLE_PHASE));
            var id := read.modbus.lastId;
            && id in read.net
            && OnFrame(read, Answer(bus, id, read.net[id])).notices
               == [Connected, ModelRead(Model(INVERTER_SINGLE_PHASE, map[]))]
  {
    InverterIsFound();
    InverterIsDevice();
    hide UnitIds.IDS, INVERTER, Readable, Discovered, OnFrame, Serving, IsElgris, Step, Answer, Table, ChainAt,
         HasHeader;
    FirstMisfit(Discovered(map[1 := INVERTER], 0, ENTRIES), INVERTER, INVERTER_SINGLE_PHASE);
    assert [Connected] + [ModelRead(Model(INVERTER_SINGLE_PHASE, map[]))]
        == [Connected, ModelRead(Model(INVERTER_SINGLE_PHASE, map[]))];
  }

  lemma NothingPending(sys: System)
    requires Serving(sys) && sys.net == map[]
    ensures Fresh(sys)
  {
    hide SunSpecModels.Identified, NextId;
    assert sys.modbus.pending.Keys == {};
  }

  lemma {:induction false} DiscoveredModels(bus: map<byte, Registers>, k: nat, headerLength: word,
                                            entries: seq<TableEntry>)
    requires k < |UnitIds.IDS| && UnitIds.IDS[k] in bus && HasHeader(bus[UnitIds.IDS[k]], headerLength)
    requires forall j :: 0 <= j < k ==> PassedOver(bus, UnitIds.IDS[j])
    requires ChainAt(bus[UnitIds.IDS[k]], COMMON_ADDRESS + headerLength as int, entries)
    ensures Discovered(bus, k, entries).client.models.Keys == {COMMON}
  {
    hide UnitIds.IDS, ReadAt, Readable, Common, SunSpecId, Discovered, PassedOver, Table, TextAt, Slug;
    DiscoveryFindsDevice(bus, k, headerLength, entries);
  }
}
