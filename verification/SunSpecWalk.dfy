/**
 Discovery against a bus of compliant devices: probing, the header, the common block, and the walk along
 the linked table of models.
 */
module SunSpecWalk {
  import opened Wire
  import opened ModbusFrame
  import opened ModbusClient
  import opened SunSpecModels
  import opened SunSpecProtocol
  import opened SunSpecSystem
  import UnitIds

  /** The registers that a unit holds. */
  type Registers = map<word, word>

  const GATEWAY_TARGET_FAILED: byte := 0x0B
  const ILLEGAL_DATA_ADDRESS: byte := 2

  predicate Readable(regs: Registers, address: word, length: word) {
    1 <= length <= 125 && forall k: int :: address <= k < address as int + length ==> k in regs
  }

  function ReadAt(regs: Registers, address: word, length: word): (values: seq<word>)
    requires Readable(regs, address, length)
    ensures |values| == length
  {
    seq<word>(length, i requires 0 <= i < length => regs[address + i])
  }

  /** What a bus of units answers: exactly the requested registers, or an exception. */
  function Answer(bus: map<byte, Registers>, id: word, q: ReadRequest): Response {
    var header := Response(id, 0, q.unitId, READ_HOLDING_REGISTERS, NO_EXCEPTION, 0, []);
    if q.unitId !in bus then header.(exceptionCode := GATEWAY_TARGET_FAILED)
    else if !Readable(bus[q.unitId], q.address, q.length) then header.(exceptionCode := ILLEGAL_DATA_ADDRESS)
    else header.(values := ReadAt(bus[q.unitId], q.address, q.length))
  }

  /** The bus answers the outstanding request. */
  function Serve(sys: System, bus: map<byte, Registers>): System {
    var id := sys.modbus.lastId;
    if id in sys.net then OnFrame(sys, Answer(bus, id, sys.net[id])) else sys
  }

  function Iterate(sys: System, bus: map<byte, Registers>, n: nat): System
    decreases n
  {
    if n == 0 then sys else Iterate(Serve(sys, bus), bus, n - 1)
  }

  lemma {:induction false} IterateInTwo(sys: System, bus: map<byte, Registers>, m: nat, n: nat)
    ensures Iterate(sys, bus, m + n) == Iterate(Iterate(sys, bus, m), bus, n)
    decreases m
  {
    hide Serve;
    if m > 0 {
      IterateInTwo(Serve(sys, bus), bus, m - 1, n);
    }
  }

  /** Serving a request: what its reply makes the client do, and nothing else. */
  lemma Served(sys: System, bus: map<byte, Registers>, q: ReadRequest)
    requires Asking(sys, q)
    ensures var f := Answer(bus, sys.modbus.lastId, q);
            var e := React(sys.client, sys.listed, Published(sys.modbus.pending, f));
            && Answers(sys, sys.modbus.lastId, f)
            && Serve(sys, bus) == OnFrame(sys, f)
            && Serve(sys, bus).client == e.client
            && Serve(sys, bus).asked == sys.asked + e.requests
            && Serve(sys, bus).notices == sys.notices + e.notices
  {
    hide React, Published, ReadAt, Readable;
  }

  // The table of models.

  /** A model's id and the length of its payload. */
  datatype TableEntry = TableEntry(id: word, length: word)

  /**
   At `a` starts a chain of model entries, each followed by its payload, that ends with 0xFFFF and stays
   in the valid range.
   */
  ghost predicate ChainAt(regs: Registers, a: word, entries: seq<TableEntry>)
    decreases |entries|
  {
    && VALID_START <= a <= VALID_END && a in regs && a + 1 in regs
    && if entries == [] then regs[a] == 0xFFFF
       else
         && regs[a] == entries[0].id != 0xFFFF && regs[a + 1] == entries[0].length
         && a + 2 + entries[0].length <= VALID_END as int
         && ChainAt(regs, a + 2 + entries[0].length, entries[1..])
  }

  /** Where the `i`-th entry starts: the sizes of those before it, each with its two registers, added up. */
  function EntryAddress(a: nat, entries: seq<TableEntry>, i: nat): nat
    requires i <= |entries|
  {
    if i == 0 then a else EntryAddress(a, entries, i - 1) + 2 + entries[i - 1].length
  }

  function Table(table: map<word, (word, word)>, a: nat, entries: seq<TableEntry>): map<word, (word, word)>
    decreases |entries|
  {
    if entries == [] then table
    else
      var e := entries[0];
      Table(table[e.id := (Wrap(a + 2), Capped(e.id, e.length))], a + 2 + e.length, entries[1..])
  }

  function EntryRequests(unitId: byte, a: nat, entries: seq<TableEntry>): seq<ReadRequest>
    decreases |entries|
  {
    if entries == [] then []
    else
      var next := a + 2 + entries[0].length;
      [ReadRequest(unitId, Wrap(next), 2, Wrap(next))] + EntryRequests(unitId, next, entries[1..])
  }

  lemma ReadTwo(regs: Registers, a: word)
    requires a in regs && a + 1 in regs
    ensures Readable(regs, a, 2) && ReadAt(regs, a, 2) == [regs[a], regs[a + 1]]
  {
  }

  lemma EntryServed(sys: System, bus: map<byte, Registers>, a: word)
    requires In(sys, Walking(a)) && sys.client.unitId in bus && a != READ_HEADER
    requires a in bus[sys.client.unitId] && a + 1 in bus[sys.client.unitId]
    ensures var regs := bus[sys.client.unitId];
            var values := [regs[a], regs[a + 1]];
            var e := OnModelEntry(sys.client, a, values);
            var served := Serve(sys, bus);
            && served.client == e.client
            && served.asked == sys.asked + e.requests
            && served.notices == sys.notices + e.notices
            && In(served, if regs[a] == 0xFFFF then Finished else Walking(Wrap(a + 2 + regs[a + 1])))
  {
    hide UnitIds.IDS, OnFrame, Serve, OnModelEntry;
    var q := EntryRequest(sys.client, a);
    Served(sys, bus, q);
    ReadTwo(bus[sys.client.unitId], a);
    var f := Answer(bus, sys.modbus.lastId, q);
    ReplyIsPublished(sys, q, f);
    EntryStep(sys, a, f);
  }

  /**
   The walk is correct for every chain: one more entry read for each entry, connect published exactly
   once, and nothing changed but the block addresses, which are the table of the chain.
   */
  lemma {:induction false} WalkIsCorrect(sys: System, bus: map<byte, Registers>, a: word, entries: seq<TableEntry>)
    requires In(sys, Walking(a)) && sys.client.unitId in bus
    requires ChainAt(bus[sys.client.unitId], a, entries)
    ensures var after := Iterate(sys, bus, |entries| + 1);
            && In(after, Finished)
            && after.client == sys.client.(blockAddresses := Table(sys.client.blockAddresses, a, entries))
            && after.asked == sys.asked + EntryRequests(sys.client.unitId, a, entries)
            && after.notices == sys.notices + [Connected]
    decreases |entries|
  {
    hide UnitIds.IDS, Serve, In;
    EntryServed(sys, bus, a);
    var next := Serve(sys, bus);
    assert Iterate(sys, bus, |entries| + 1) == Iterate(next, bus, |entries|);
    if entries == [] {
      assert sys.asked + [] == sys.asked;
    } else {
      var e := entries[0];
      assert Wrap(a + 2 + e.length) == a + 2 + e.length;
      WalkIsCorrect(next, bus, a + 2 + e.length, entries[1..]);
      assert sys.notices + [] == sys.notices;
      var asked := EntryRequest(sys.client, a + 2 + e.length);
      var rest := EntryRequests(sys.client.unitId, a + 2 + e.length, entries[1..]);
      assert sys.asked + [asked] + rest == sys.asked + ([asked] + rest);
    }
  }

  lemma {:induction false} EntryAddressShift(a: nat, entries: seq<TableEntry>, i: nat)
    requires i < |entries|
    ensures EntryAddress(a, entries, i + 1) == EntryAddress(a + 2 + entries[0].length, entries[1..], i)
  {
    if i > 0 {
      EntryAddressShift(a, entries, i - 1);
    }
  }

  lemma {:induction false} ChainStaysInRange(regs: Registers, a: word, entries: seq<TableEntry>, i: nat)
    requires ChainAt(regs, a, entries) && i <= |entries|
    ensures VALID_START as int <= EntryAddress(a, entries, i) <= VALID_END as int
    decreases |entries|
  {
    if i > 0 {
      ChainStaysInRange(regs, a + 2 + entries[0].length, entries[1..], i - 1);
      EntryAddressShift(a, entries, i - 1);
    }
  }

  /** The last entry with this id. */
  ghost predicate IsLast(entries: seq<TableEntry>, i: nat) {
    i < |entries| && forall j :: i < j < |entries| ==> entries[j].id != entries[i].id
  }

  lemma LastInRest(entries: seq<TableEntry>, i: nat)
    requires IsLast(entries, i)
    ensures i > 0 ==> IsLast(entries[1..], i - 1)
    ensures i == 0 ==> forall j :: 0 <= j < |entries| - 1 ==> entries[1..][j].id != entries[0].id
  {}

  lemma {:induction false} TableIds(table: map<word, (word, word)>, a: nat, entries: seq<TableEntry>)
    ensures forall id :: id in Table(table, a, entries) <==>
                         id in table || exists i :: 0 <= i < |entries| && entries[i].id == id
    ensures forall id :: id in table && (forall i :: 0 <= i < |entries| ==> entries[i].id != id) ==>
              id in Table(table, a, entries) && Table(table, a, entries)[id] == table[id]
    decreases |entries|
  {
    hide Capped, Wrap;
    if entries != [] {
      var e := entries[0];
      var here := table[e.id := (Wrap(a + 2), Capped(e.id, e.length))];
      TableIds(here, a + 2 + e.length, entries[1..]);
      assert forall i :: 0 <= i < |entries| - 1 ==> entries[1..][i] == entries[i + 1];
      assert forall i :: 0 < i < |entries| ==> entries[i] == entries[1..][i - 1];
    }
  }

  lemma {:induction false} LastEntryInTable(table: map<word, (word, word)>, a: nat, entries: seq<TableEntry>, i: nat)
    requires IsLast(entries, i)
    ensures entries[i].id in Table(table, a, entries)
    ensures Table(table, a, entries)[entries[i].id]
         == (Wrap(EntryAddress(a, entries, i) + 2), Capped(entries[i].id, entries[i].length))
    decreases |entries|
  {
    hide Capped, Wrap;
    var e := entries[0];
    var here := table[e.id := (Wrap(a + 2), Capped(e.id, e.length))];
    LastInRest(entries, i);
    if i == 0 {
      TableIds(here, a + 2 + e.length, entries[1..]);
    } else {
      LastEntryInTable(here, a + 2 + e.length, entries[1..], i - 1);
      EntryAddressShift(a, entries, i - 1);
    }
  }

  /**
   The table maps exactly the ids of the chain (and what it held before), each to where the payload of the
   last entry with that id starts and to its length, 48 at most for the MPPT extension. In a chain that
   stays in the valid range these addresses are plain sums: nothing wraps around.
   */
  lemma TableIsLastEntries(regs: Registers, table: map<word, (word, word)>, a: word, entries: seq<TableEntry>)
    requires ChainAt(regs, a, entries)
    ensures forall id :: id in Table(table, a, entries) <==>
                         id in table || exists i :: 0 <= i < |entries| && entries[i].id == id
    ensures forall i: nat :: IsLast(entries, i) ==>
              && EntryAddress(a, entries, i) + 2 < 0x1_0000
              && entries[i].id in Table(table, a, entries)
              && Table(table, a, entries)[entries[i].id]
                 == (EntryAddress(a, entries, i) + 2, Capped(entries[i].id, entries[i].length))
  {
    TableIds(table, a, entries);
    forall i: nat | IsLast(entries, i)
      ensures EntryAddress(a, entries, i) + 2 < 0x1_0000
      ensures entries[i].id in Table(table, a, entries)
      ensures Table(table, a, entries)[entries[i].id]
           == (EntryAddress(a, entries, i) + 2, Capped(entries[i].id, entries[i].length))
    {
      LastEntryInTable(table, a, entries, i);
      ChainStaysInRange(regs, a, entries, i);
    }
  }

  // Whole runs from construction.

  /** What a unit answers to the header request decides whether it is a SunSpec device. */
  predicate HeaderRead(bus: map<byte, Registers>, unit: byte) {
    unit in bus && Readable(bus[unit], VALID_START, 4)
  }

  function HeaderOf(bus: map<byte, Registers>, unit: byte): (values: seq<word>)
    requires HeaderRead(bus, unit)
    ensures |values| == 4
  {
    ReadAt(bus[unit], VALID_START, 4)
  }

  /** A SunSpec header without a readable common block behind it. */
  predicate CommonRefused(bus: map<byte, Registers>, unit: byte) {
    HeaderRead(bus, unit) && ValidHeader(HeaderOf(bus, unit))
    && !Readable(bus[unit], COMMON_ADDRESS, HeaderOf(bus, unit)[3])
  }

  /** The unit refuses the header request, being absent or not, or the request for its common block. */
  predicate PassedOver(bus: map<byte, Registers>, unit: byte) {
    !HeaderRead(bus, unit) || CommonRefused(bus, unit)
  }

  /** The unit holds registers, but no SunSpec header. */
  predicate Foreign(bus: map<byte, Registers>, unit: byte) {
    HeaderRead(bus, unit) && !ValidHeader(HeaderOf(bus, unit))
  }

  /** The exception that a unit which is passed over answers. */
  function Refusal(bus: map<byte, Registers>, unit: byte): Notice {
    Excepted(unit, if unit in bus then ILLEGAL_DATA_ADDRESS else GATEWAY_TARGET_FAILED)
  }

  /** What a unit which is passed over is asked for after its header. */
  function AskedMore(bus: map<byte, Registers>, unit: byte): seq<ReadRequest> {
    if CommonRefused(bus, unit) then [ReadRequest(unit, COMMON_ADDRESS, HeaderOf(bus, unit)[3], COMMON)] else []
  }

  /** The exceptions that passing over the units from `i` up to `k` publishes. */
  function Refusals(bus: map<byte, Registers>, i: nat, k: nat): seq<Notice>
    requires i <= k <= |UnitIds.IDS|
    decreases k - i
  {
    if i == k then [] else [Refusal(bus, UnitIds.IDS[i])] + Refusals(bus, i + 1, k)
  }

  /** The requests that it takes, one reply each: up to the header of unit `k`, but for that of unit `i`. */
  function AskedBetween(bus: map<byte, Registers>, i: nat, k: nat): seq<ReadRequest>
    requires i <= k < |UnitIds.IDS|
    decreases k - i
  {
    if i == k then []
    else
      AskedMore(bus, UnitIds.IDS[i]) + [HeaderRequest(UnitIds.IDS[i + 1])] + AskedBetween(bus, i + 1, k)
  }

  /** The client but for the length of the last header that was read. */
  function ButHeader(c: Client): Client {
    c.(headerLength := 0)
  }

  /** A refused request: the next unit is probed, until there is none. */
  lemma RefusedServed(sys: System, bus: map<byte, Registers>, p: Phase, q: ReadRequest)
    requires In(sys, p) && (p.Probing? || p.Identifying?) && Asking(sys, q) && 1 <= sys.client.unitIdx
    requires sys.client.unitIdx <= |UnitIds.IDS| && q.unitId == sys.client.unitId
    requires sys.client.unitId in bus ==> !Readable(bus[sys.client.unitId], q.address, q.length)
    ensures var served := Serve(sys, bus);
            var refusal := Refusal(bus, sys.client.unitId);
            if sys.client.unitIdx >= |UnitIds.IDS| then
              && In(served, Finished) && served.notices == sys.notices + [refusal, Closed]
              && served.asked == sys.asked && served.client == sys.client
            else
              && In(served, Probing) && served.notices == sys.notices + [refusal]
              && served.client == NextUnit(sys.client)
              && served.asked == sys.asked + [HeaderRequest(served.client.unitId)]
  {
    hide UnitIds.IDS, OnFrame, Serve, Readable, ReadAt;
    Served(sys, bus, q);
    var f := Answer(bus, sys.modbus.lastId, q);
    ReplyIsPublished(sys, q, f);
    ExceptionStep(sys, p, q, f);
    ProbeLeads(sys);
    var refusal := Refusal(bus, sys.client.unitId);
    assert sys.notices + [refusal] + [Closed] == sys.notices + [refusal, Closed];
    assert sys.notices + [refusal] + [] == sys.notices + [refusal];
    assert sys.asked + [] == sys.asked;
  }

  /** A header: a SunSpec one leads to the common block, another one ends the discovery. */
  lemma HeaderServed(sys: System, bus: map<byte, Registers>)
    requires In(sys, Probing) && HeaderRead(bus, sys.client.unitId)
    ensures var header := HeaderOf(bus, sys.client.unitId);
            var served := Serve(sys, bus);
            && served.client == sys.client.(headerLength := header[3])
            && if ValidHeader(header) then
                 && In(served, Identifying) && served.notices == sys.notices
                 && served.asked == sys.asked + [ReadRequest(sys.client.unitId, COMMON_ADDRESS, header[3], COMMON)]
               else
                 && In(served, Finished) && served.notices == sys.notices + [Closed] && served.asked == sys.asked
  {
    hide UnitIds.IDS, OnFrame, Serve, ReadAt, Readable;
    var q := HeaderRequest(sys.client.unitId);
    Served(sys, bus, q);
    var f := Answer(bus, sys.modbus.lastId, q);
    ReplyIsPublished(sys, q, f);
    HeaderStep(sys, f);
    assert sys.notices + [] == sys.notices && sys.asked + [] == sys.asked;
  }

  /** A unit that is passed over, whether it refuses one request or the other. */
  lemma PassedOverServed(sys: System, bus: map<byte, Registers>)
    requires In(sys, Probing) && PassedOver(bus, sys.client.unitId)
    ensures var more := AskedMore(bus, sys.client.unitId);
            var served := Iterate(sys, bus, |more| + 1);
            var refusal := Refusal(bus, sys.client.unitId);
            if sys.client.unitIdx >= |UnitIds.IDS| then
              && In(served, Finished) && served.notices == sys.notices + [refusal, Closed]
              && served.asked == sys.asked + more && ButHeader(served.client) == ButHeader(sys.client)
            else
              && In(served, Probing) && served.notices == sys.notices + [refusal]
              && ButHeader(served.client) == ButHeader(NextUnit(sys.client))
              && served.asked == sys.asked + more + [HeaderRequest(served.client.unitId)]
  {
    hide UnitIds.IDS, Serve, ReadAt, Readable, HeaderOf, ValidHeader;
    var unit := sys.client.unitId;
    var next := Serve(sys, bus);
    OneServe(sys, bus);
    if CommonRefused(bus, unit) {
      HeaderServed(sys, bus);
      OneServe(next, bus);
      assert Iterate(sys, bus, 2) == Iterate(next, bus, 1);
      RefusedServed(next, bus, Identifying, AskedMore(bus, unit)[0]);
    } else {
      RefusedServed(sys, bus, Probing, HeaderRequest(unit));
      assert sys.asked + [] == sys.asked;
    }
  }

  lemma OneServe(sys: System, bus: map<byte, Registers>)
    ensures Iterate(sys, bus, 1) == Serve(sys, bus)
  {
    hide Serve;
    assert Iterate(Serve(sys, bus), bus, 0) == Serve(sys, bus);
  }

  /** Units that are passed over are probed in order, one reply for each request. */
  lemma {:induction false} ProbesInOrder(sys: System, bus: map<byte, Registers>, i: nat, k: nat)
    requires In(sys, Probing) && sys.client.unitIdx == i + 1 && i <= k < |UnitIds.IDS|
    requires forall j :: i <= j < k ==> PassedOver(bus, UnitIds.IDS[j])
    ensures var after := Iterate(sys, bus, |AskedBetween(bus, i, k)|);
            && In(after, Probing)
            && ButHeader(after.client) == ButHeader(sys.client).(unitId := UnitIds.IDS[k], unitIdx := k + 1)
            && after.asked == sys.asked + AskedBetween(bus, i, k)
            && after.notices == sys.notices + Refusals(bus, i, k)
    decreases k - i
  {
    hide UnitIds.IDS, Serve, OnFrame, PassedOver, AskedMore, Refusal;
    if i == k {
      assert sys.asked + [] == sys.asked && sys.notices + [] == sys.notices;
      assert Iterate(sys, bus, 0) == sys;
    } else {
      PassedOverServed(sys, bus);
      var more := AskedMore(bus, UnitIds.IDS[i]);
      var next := Iterate(sys, bus, |more| + 1);
      var rest := AskedBetween(bus, i + 1, k);
      ProbesInOrder(next, bus, i + 1, k);
      IterateInTwo(sys, bus, |more| + 1, |rest|);
      var q, n := HeaderRequest(UnitIds.IDS[i + 1]), Refusal(bus, UnitIds.IDS[i]);
      assert sys.asked + more + [q] + rest == sys.asked + (more + [q] + rest);
      assert sys.notices + [n] + Refusals(bus, i + 1, k) == sys.notices + ([n] + Refusals(bus, i + 1, k));
    }
  }

  /** The header that a SunSpec device starts with, and its common block. */
  ghost predicate HasHeader(regs: Registers, headerLength: word) {
    && Readable(regs, VALID_START, 4) && ReadAt(regs, VALID_START, 4) == [0x5375, 0x6E53, 1, headerLength]
    && (headerLength == 65 || headerLength == 66)
    && Readable(regs, COMMON_ADDRESS, headerLength)
  }

  /** Each unit is passed over, foreign, or a SunSpec device. */
  lemma UnitsAreOfThreeKinds(bus: map<byte, Registers>, unit: byte)
    ensures PassedOver(bus, unit) || Foreign(bus, unit)
            || (unit in bus && exists headerLength :: HasHeader(bus[unit], headerLength))
    ensures !(PassedOver(bus, unit) && Foreign(bus, unit))
    ensures unit in bus && (exists headerLength :: HasHeader(bus[unit], headerLength)) ==>
              !PassedOver(bus, unit) && !Foreign(bus, unit)
  {
    hide Readable, ReadAt;
    if HeaderRead(bus, unit) && ValidHeader(HeaderOf(bus, unit)) && !CommonRefused(bus, unit) {
      var header := HeaderOf(bus, unit);
      assert header == [0x5375, 0x6E53, 1, header[3]];
      assert HasHeader(bus[unit], header[3]);
    }
  }

  /** What the common block makes of a client. */
  function Identified(c: Client, block: seq<word>): Client {
    var common := Common(Entry(c.models, COMMON), block);
    Named(c.(models := c.models[COMMON := common]), common)
  }

  lemma CommonServed(sys: System, bus: map<byte, Registers>)
    requires In(sys, Identifying) && sys.client.unitId in bus
    requires Readable(bus[sys.client.unitId], COMMON_ADDRESS, sys.client.headerLength)
    ensures var served := Serve(sys, bus);
            var a := COMMON_ADDRESS + sys.client.headerLength;
            && a < 0x1_0000
            && In(served, Walking(a))
            && served.client
               == Identified(sys.client, ReadAt(bus[sys.client.unitId], COMMON_ADDRESS, sys.client.headerLength))
            && served.asked == sys.asked + [ReadRequest(sys.client.unitId, a, 2, a)]
            && served.notices == sys.notices
  {
    hide UnitIds.IDS, OnFrame, Serve, ReadAt, Readable, Common, SunSpecId;
    var c := sys.client;
    var q := ReadRequest(c.unitId, COMMON_ADDRESS, c.headerLength, COMMON);
    Served(sys, bus, q);
    var f := Answer(bus, sys.modbus.lastId, q);
    ReplyIsPublished(sys, q, f);
    CommonStep(sys, f);
    assert sys.notices + [] == sys.notices;
  }

  /** The state in which the first unit that is not passed over is probed. */
  lemma {:induction false} FirstCandidateUnit(bus: map<byte, Registers>, k: nat)
    requires k < |UnitIds.IDS| && forall j :: 0 <= j < k ==> PassedOver(bus, UnitIds.IDS[j])
    ensures var probed := Iterate(Start(), bus, |AskedBetween(bus, 0, k)|);
            && In(probed, Probing) && probed.client.unitId == UnitIds.IDS[k] && probed.client.unitIdx == k + 1
            && ButHeader(probed.client) == NEW_CLIENT.(unitId := UnitIds.IDS[k], unitIdx := k + 1)
            && probed.notices == Refusals(bus, 0, k)
            && probed.asked == [HeaderRequest(UnitIds.IDS[0])] + AskedBetween(bus, 0, k)
  {
    hide UnitIds.IDS, Serve, Start, Iterate, PassedOver, AskedBetween, Refusals;
    Started();
    ProbesInOrder(Start(), bus, 0, k);
    assert [] + Refusals(bus, 0, k) == Refusals(bus, 0, k);
  }

  /** The common block and the walk, from a SunSpec header on. */
  lemma {:induction false} DeviceIsWalked(sys: System, bus: map<byte, Registers>, headerLength: word,
                                          entries: seq<TableEntry>)
    requires In(sys, Probing) && sys.client.unitId in bus && HasHeader(bus[sys.client.unitId], headerLength)
    requires ChainAt(bus[sys.client.unitId], COMMON_ADDRESS + headerLength as int, entries)
    ensures var unit := sys.client.unitId;
            var a := COMMON_ADDRESS + headerLength as int;
            var block := ReadAt(bus[unit], COMMON_ADDRESS, headerLength);
            var known := Identified(sys.client.(headerLength := headerLength), block);
            var after := Iterate(sys, bus, 2 + (|entries| + 1));
            && In(after, Finished)
            && after.notices == sys.notices + [Connected]
            && after.client == known.(blockAddresses := Table(sys.client.blockAddresses, a, entries))
            && after.asked == sys.asked
                              + [ReadRequest(unit, COMMON_ADDRESS, headerLength, COMMON), ReadRequest(unit, a, 2, a)]
                              + EntryRequests(unit, a, entries)
  {
    hide UnitIds.IDS, Serve, In, ReadAt, Readable, Identified, Iterate;
    HeaderServed(sys, bus);
    var greeted := Serve(sys, bus);
    CommonServed(greeted, bus);
    var known := Serve(greeted, bus);
    TwoServes(sys, bus);
    KeepsTable(sys.client.(headerLength := headerLength), ReadAt(bus[sys.client.unitId], COMMON_ADDRESS, headerLength));
    WalkIsCorrect(known, bus, COMMON_ADDRESS + headerLength, entries);
    IterateInTwo(sys, bus, 2, |entries| + 1);
    var q := ReadRequest(sys.client.unitId, COMMON_ADDRESS, headerLength, COMMON);
    var e := EntryRequest(sys.client, COMMON_ADDRESS + headerLength);
    assert sys.asked + [q] + [e] == sys.asked + [q, e];
  }

  lemma TwoServes(sys: System, bus: map<byte, Registers>)
    ensures Iterate(sys, bus, 2) == Serve(Serve(sys, bus), bus)
  {
    hide Serve;
    OneServe(Serve(sys, bus), bus);
    assert Iterate(sys, bus, 2) == Iterate(Serve(sys, bus), bus, 1);
  }

  lemma KeepsTable(c: Client, block: seq<word>)
    ensures Identified(c, block).blockAddresses == c.blockAddresses && Identified(c, block).unitId == c.unitId
  {}

  /** The system when the bus has answered all that a discovery asks for. */
  function Discovered(bus: map<byte, Registers>, k: nat, entries: seq<TableEntry>): System
    requires k < |UnitIds.IDS|
  {
    Iterate(Start(), bus, |AskedBetween(bus, 0, k)| + (2 + (|entries| + 1)))
  }

  /**
   On every bus whose first unit, in probing order, that is not passed over is a SunSpec device: after one
   reply for each request, the client has published the refusals and then connect, once, and knows the
   device's unit, name, common model and model table; and it has asked for nothing else.
   */
  lemma {:induction false} DiscoveryFindsDevice(bus: map<byte, Registers>, k: nat, headerLength: word,
                                                entries: seq<TableEntry>)
    requires k < |UnitIds.IDS| && UnitIds.IDS[k] in bus && HasHeader(bus[UnitIds.IDS[k]], headerLength)
    requires forall j :: 0 <= j < k ==> PassedOver(bus, UnitIds.IDS[j])
    requires ChainAt(bus[UnitIds.IDS[k]], COMMON_ADDRESS + headerLength as int, entries)
    ensures var unit := UnitIds.IDS[k];
            var a := COMMON_ADDRESS + headerLength as int;
            var common := Common(NEW_MODEL, ReadAt(bus[unit], COMMON_ADDRESS, headerLength));
            var after := Discovered(bus, k, entries);
            && In(after, Finished)
            && after.notices == Refusals(bus, 0, k) + [Connected]
            && after.client == Named(NEW_CLIENT, common).(unitId := unit, unitIdx := k + 1,
                                                          headerLength := headerLength,
                                                          models := map[COMMON := common],
                                                          blockAddresses := Table(map[], a, entries))
            && after.asked == [HeaderRequest(UnitIds.IDS[0])] + AskedBetween(bus, 0, k)
                              + [ReadRequest(unit, COMMON_ADDRESS, headerLength, COMMON), ReadRequest(unit, a, 2, a)]
                              + EntryRequests(unit, a, entries)
  {
    hide UnitIds.IDS, Serve, Start, In, ReadAt, Readable, Common, SunSpecId, Slug, TextAt, Iterate, AskedBetween,
         Refusals, EntryRequests, Table, PassedOver;
    FirstCandidateUnit(bus, k);
    var probed := Iterate(Start(), bus, |AskedBetween(bus, 0, k)|);
    DeviceIsWalked(probed, bus, headerLength, entries);
    IterateInTwo(Start(), bus, |AskedBetween(bus, 0, k)|, 2 + (|entries| + 1));
    assert probed.client.(headerLength := headerLength) == ButHeader(probed.client).(headerLength := headerLength);
    var common := Common(NEW_MODEL, ReadAt(bus[UnitIds.IDS[k]], COMMON_ADDRESS, headerLength));
    assert NEW_CLIENT.models[COMMON := common] == map[COMMON := common];
  }

  /**
   A unit with registers but without a SunSpec header ends the discovery, even if a unit that would be probed
   later is a SunSpec device.
   */
  lemma {:induction false} DiscoveryStopsAtForeignUnit(bus: map<byte, Registers>, k: nat)
    requires k < |UnitIds.IDS| && Foreign(bus, UnitIds.IDS[k])
    requires forall j :: 0 <= j < k ==> PassedOver(bus, UnitIds.IDS[j])
    ensures var after := Iterate(Start(), bus, |AskedBetween(bus, 0, k)| + 1);
            && In(after, Finished)
            && after.notices == Refusals(bus, 0, k) + [Closed]
            && after.asked == [HeaderRequest(UnitIds.IDS[0])] + AskedBetween(bus, 0, k)
  {
    hide UnitIds.IDS, Serve, Start, In, Iterate, AskedBetween, Refusals, PassedOver, ValidHeader;
    FirstCandidateUnit(bus, k);
    var probed := Iterate(Start(), bus, |AskedBetween(bus, 0, k)|);
    HeaderServed(probed, bus);
    OneServe(probed, bus);
    IterateInTwo(Start(), bus, |AskedBetween(bus, 0, k)|, 1);
  }

  lemma Started()
    ensures In(Start(), Probing) && Start().notices == [] && Start().client == NextUnit(NEW_CLIENT)
    ensures |UnitIds.IDS| == 247
    ensures Start().asked == [HeaderRequest(UnitIds.IDS[0])]
  {
    StartIsProbing();
    UnitIds.IdsArePermutation();
    hide UnitIds.IDS;
  }

  lemma {:induction false} RefusalsSnoc(bus: map<byte, Registers>, i: nat, k: nat)
    requires i <= k < |UnitIds.IDS|
    ensures Refusals(bus, i, k + 1) == Refusals(bus, i, k) + [Refusal(bus, UnitIds.IDS[k])]
    decreases k - i
  {
    hide UnitIds.IDS, Refusal;
    if i < k {
      RefusalsSnoc(bus, i + 1, k);
      var n := Refusal(bus, UnitIds.IDS[i]);
      assert [n] + (Refusals(bus, i + 1, k) + [Refusal(bus, UnitIds.IDS[k])])
          == [n] + Refusals(bus, i + 1, k) + [Refusal(bus, UnitIds.IDS[k])];
    }
  }

  /** On a bus where every unit from 1 to 247 is passed over, each is probed, once, before the client closes. */
  lemma {:induction false} DiscoveryGivesUp(bus: map<byte, Registers>)
    requires forall unit :: 1 <= unit <= 247 ==> PassedOver(bus, unit)
    ensures |UnitIds.IDS| == 247
    ensures var more := AskedMore(bus, UnitIds.IDS[246]);
            var after := Iterate(Start(), bus, |AskedBetween(bus, 0, 246)| + (|more| + 1));
            && In(after, Finished)
            && after.notices == Refusals(bus, 0, 247) + [Closed]
            && after.asked == [HeaderRequest(UnitIds.IDS[0])] + AskedBetween(bus, 0, 246) + more
  {
    UnitIds.IdsArePermutation();
    hide UnitIds.IDS, Serve, Start, In, Iterate, AskedBetween, Refusals, PassedOver, AskedMore, Refusal;
    FirstCandidateUnit(bus, 246);
    var probed := Iterate(Start(), bus, |AskedBetween(bus, 0, 246)|);
    var more := AskedMore(bus, UnitIds.IDS[246]);
    PassedOverServed(probed, bus);
    IterateInTwo(Start(), bus, |AskedBetween(bus, 0, 246)|, |more| + 1);
    RefusalsSnoc(bus, 0, 246);
    var n := Refusal(bus, UnitIds.IDS[246]);
    assert Refusals(bus, 0, 246) + [n, Closed] == Refusals(bus, 0, 246) + [n] + [Closed];
  }
}
