/**
 The client object of SunSpecClient.cpp over its Modbus client. The listener for exceptions that the discovery
 attaches is part of it: while `listed`, it answers them by probing on.
 */
module SunSpecClient {
  import opened Wire
  import opened ModbusFrame
  import opened ModbusClient
  import opened SunSpecModels
  import opened SunSpecProtocol
  import UnitIds

  class SunSpecClient {
    const modbusClient: ModbusClient
    var unitId: byte
    var unitIdx: nat
    var headerLength: word
    var manufacturer: seq<byte>
    var product: seq<byte>
    var serial: seq<byte>
    var sunSpecId: seq<byte>
    var blockAddresses: map<word, (word, word)>
    var models: map<word, Model>
    var published: seq<Notice>
    var listed: bool

    ghost predicate Valid()
      reads this, modbusClient, modbusClient.request
    {
      modbusClient.Valid()
    }

    ghost function Current(): Client
      reads this
    {
      Client(unitId, unitIdx, headerLength, manufacturer, product, serial, sunSpecId, blockAddresses, models)
    }

    ghost function Modbus(): State
      reads this, modbusClient, modbusClient.request
    {
      modbusClient.Current()
    }

    /** The client has done what `e` says, from a Modbus state and with earlier notices; it is listed as before. */
    ghost predicate Performed(e: Effect, modbus: State, notices: seq<Notice>, wasListed: bool)
      reads this, modbusClient, modbusClient.request
    {
      && Current() == e.client
      && Modbus() == IssueAll(modbus, e.requests)
      && published == notices + e.notices
      && listed == wasListed
    }

    constructor (thing: ModbusClient)
      requires thing.Valid()
      ensures modbusClient == thing && Valid() && Current() == NEW_CLIENT && published == [] && listed
    {
      modbusClient := thing;
      unitId, unitIdx, headerLength := 0, 0, 0;
      manufacturer, product, serial, sunSpecId := [], [], [], [];
      blockAddresses, models, published, listed := map[], map[], [], true;
    }

    method Publish(n: Notice)
      modifies this`published
      ensures published == old(published) + [n]
    {
      published := published + [n];
    }

    method Read(q: ReadRequest)
      requires Valid()
      modifies this, modbusClient, modbusClient.request, modbusClient.request.buffer
      ensures Valid()
      ensures Performed(Ask(old(Current()), q), old(Modbus()), old(published), old(listed))
    {
      hide RequestBytes;
      modbusClient.ReadHoldingRegisters(q.unitId, q.address, q.length, q.userData);
      assert [q][..0] == [];
      assert IssueAll(old(Modbus()), [q]) == Issue(IssueAll(old(Modbus()), []), q);
      assert published + [] == published;
    }

    method NextUnitId() returns (id: byte)
      modifies this`unitId, this`unitIdx
      ensures old(unitIdx) >= |UnitIds.IDS| ==> id == 0 && Current() == old(Current())
      ensures old(unitIdx) < |UnitIds.IDS| ==> id != 0 && Current() == NextUnit(old(Current())) && id == unitId
    {
      UnitIds.IdsArePermutation();
      hide UnitIds.IDS;
      if unitIdx >= |UnitIds.IDS| {
        return 0;
      }
      unitId := UnitIds.IDS[unitIdx];
      unitIdx := unitIdx + 1;
      return unitId;
    }

    method ProbeNextUnitId()
      requires Valid()
      modifies this, modbusClient, modbusClient.request, modbusClient.request.buffer
      ensures Valid()
      ensures Performed(Probe(old(Current())), old(Modbus()), old(published), old(listed))
    {
      hide UnitIds.IDS;
      var id := NextUnitId();
      if id == 0 {
        Publish(Closed);
        return;
      }
      Read(HeaderRequest(id));
    }

    method ReadRegisters(modelId: word, address: word, length: word)
      requires Valid()
      modifies this, modbusClient, modbusClient.request, modbusClient.request.buffer
      ensures Valid()
      ensures Performed(ReadBlock(old(Current()), modelId, address, length), old(Modbus()), old(published), old(listed))
    {
      if length == 2 {
        return;
      }
      Read(ReadRequest(unitId, address, length, modelId));
    }

    method OnReadHeader(values: seq<word>)
      requires Valid()
      modifies this, modbusClient, modbusClient.request, modbusClient.request.buffer
      ensures Valid()
      ensures Performed(OnHeader(old(Current()), values), old(Modbus()), old(published), old(listed))
    {
      if |values| < 4 {
        return;
      }
      headerLength := values[3];
      if values[0] == 0x5375 && values[1] == 0x6E53 && values[2] == 1 && (headerLength == 65 || headerLength == 66) {
        ReadRegisters(COMMON, COMMON_ADDRESS, headerLength);
      } else {
        Publish(Closed);
      }
    }

    method OnReadModelEntry(userData: word, values: seq<word>)
      requires Valid() && |values| == 2
      modifies this, modbusClient, modbusClient.request, modbusClient.request.buffer
      ensures Valid()
      ensures Performed(OnModelEntry(old(Current()), userData, values), old(Modbus()), old(published), old(listed))
    {
      if values[0] != 0xFFFF {
        var length := values[1];
        if values[0] == INVERTER_MPPT_EXTENSION && length > 48 {
          length := 48;
        }
        blockAddresses := blockAddresses[values[0] := (Wrap(userData + 2), length)];
        var next := Wrap(userData + 2 + values[1]);
        Read(ReadRequest(unitId, next, 2, next));
      } else {
        Publish(Connected);
      }
    }

    method Identify(common: Model)
      modifies this`manufacturer, this`product, this`serial, this`sunSpecId
      ensures Current() == Named(old(Current()), common)
    {
      hide Slug, TextAt;
      manufacturer := Slug(TextAt(common, Manufacturer));
      product := Slug(TextAt(common, Product));
      serial := Slug(TextAt(common, Serial));
      sunSpecId := manufacturer + [95] + product + [95] + serial;
    }

    method Parse(modelId: word, values: seq<word>)
      requires Valid()
      modifies this
      ensures Valid() && Modbus() == old(Modbus())
      ensures var e := ParseBlock(old(Current()), modelId, values);
              Current() == e.client && published == old(published) + e.notices
              && listed == old(listed) && e.requests == []
    {
      hide Common, Decoded, Named;
      if modelId == COMMON {
        if COMMON !in models {
          models := models[COMMON := NEW_MODEL];
        }
        var common, done := UpdateCommon(models[COMMON], values);
        models := models[COMMON := common];
        assert models == old(models)[COMMON := common];
        if done {
          Identify(common);
        }
      } else {
        var updated: bool;
        models, updated := UpdateFromBuffer(models, modelId, values);
        if updated {
          Publish(ModelRead(models[modelId]));
        }
      }
    }

    method OnReadBlock(userData: word, values: seq<word>)
      requires Valid()
      modifies this, modbusClient, modbusClient.request, modbusClient.request.buffer
      ensures Valid()
      ensures Performed(OnBlock(old(Current()), userData, values), old(Modbus()), old(published), old(listed))
    {
      hide Common, Updated, SunSpecId;
      Parse(userData, values);
      if userData == COMMON {
        var address := Wrap(COMMON_ADDRESS + headerLength);
        Read(ReadRequest(unitId, address, 2, address));
      }
    }

    /** The listeners for responses and exceptions. */
    method OnEvent(event: Event)
      requires Valid()
      modifies this, modbusClient, modbusClient.request, modbusClient.request.buffer
      ensures Valid()
      ensures Performed(React(old(Current()), old(listed), event), old(Modbus()), old(published), old(listed))
    {
      hide OnHeader, OnModelEntry, OnBlock, UnitIds.IDS;
      match event
      case Reply(r) =>
        if r.userData == READ_HEADER {
          OnReadHeader(r.values);
        } else if |r.values| == 2 {
          OnReadModelEntry(r.userData, r.values);
        } else {
          OnReadBlock(r.userData, r.values);
        }
      case Exception(unit, code) =>
        Publish(Excepted(unit, code));
        if listed && sunSpecId == [] {
          ProbeNextUnitId();
        }
    }

    method ReadModel(modelId: word) returns (known: bool)
      requires Valid()
      modifies this, modbusClient, modbusClient.request, modbusClient.request.buffer
      ensures Valid() && known == (modelId in old(blockAddresses))
      ensures Performed(SunSpecProtocol.ReadModel(old(Current()), modelId), old(Modbus()), old(published), old(listed))
    {
      if modelId in blockAddresses {
        ReadRegisters(modelId, blockAddresses[modelId].0, blockAddresses[modelId].1);
        return true;
      }
      return false;
    }

    /**
     Bytes arrive on the socket: the reply they complete is handled, and may be answered by a new request,
     before its own request is forgotten.
     */
    method OnData(chunk: seq<byte>, beyond: seq<byte>)
      requires Valid()
      modifies this, modbusClient, modbusClient.request, modbusClient.request.buffer
      ensures Valid()
      ensures match Completed(old(Modbus()), chunk, beyond)
              case None =>
                Current() == old(Current()) && published == old(published) && listed == old(listed)
                && Modbus() == Arrived(old(Modbus()), chunk)
              case Some(f) =>
                var e := React(old(Current()), old(listed), Published(old(Modbus()).pending, f));
                && Current() == e.client && published == old(published) + e.notices
                && listed == old(listed)
                && Modbus() == Data(old(Modbus()), chunk, beyond, e.requests)
    {
      hide Completed, Published, React, RequestBytes, IssueAll;
      var response := modbusClient.Receive(chunk, beyond);
      if response.Some? {
        var event := modbusClient.EventFor(response.value);
        OnEvent(event);
        modbusClient.Settle(response.value.transactionId);
      }
    }
  }
}
