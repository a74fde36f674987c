/**
 The Modbus client of ModbusClient.cpp: requests, reassembly of replies, and the order in which a reply
 is published, its request forgotten and the read buffer cleared.
 */
module ModbusClient {
  import opened Wire
  import opened ModbusFrame

  /** A client's fields, and the frames that it has handed to the socket. */
  datatype State = State(lastId: word, pending: map<word, word>, readBuffer: seq<byte>, written: seq<seq<byte>>)

  const INITIAL := State(0, map[], [], [])

  /** What a client publishes about a frame. */
  datatype Event = Exception(unitId: byte, exceptionCode: byte) | Reply(response: Response)

  /** `++transactionId` on 16 bits. */
  function NextId(lastId: word): word {
    if lastId == 0xFFFF then 0 else lastId + 1
  }

  function Issue(s: State, q: ReadRequest): State {
    var id := NextId(s.lastId);
    s.(lastId := id, pending := s.pending[id := q.userData],
       written := s.written + [RequestBytes(id, q.unitId, READ_HOLDING_REGISTERS, q.address, q.length)])
  }

  function IssueAll(s: State, qs: seq<ReadRequest>): State
    decreases |qs|
  {
    if qs == [] then s else Issue(IssueAll(s, qs[..|qs| - 1]), qs[|qs| - 1])
  }

  function WriteDone(s: State): State {
    s.(readBuffer := [])
  }

  function Arrived(s: State, chunk: seq<byte>): State {
    s.(readBuffer := s.readBuffer + chunk)
  }

  /** The frame that a chunk completes; `beyond` is what lies behind the read buffer in memory. */
  function Completed(s: State, chunk: seq<byte>, beyond: seq<byte>): Option<Response> {
    Frame(s.readBuffer + chunk + beyond, |s.readBuffer + chunk|)
  }

  function Published(pending: map<word, word>, r: Response): Event {
    if r.exceptionCode != NO_EXCEPTION then Exception(r.unitId, r.exceptionCode)
    else if r.transactionId in pending then Reply(r.(userData := pending[r.transactionId]))
    else Reply(r)
  }

  function Settled(s: State, id: word): State {
    s.(pending := s.pending - {id}, readBuffer := [])
  }

  /** A chunk arrives; if it completes a frame, the listeners issue `reaction` while it is published. */
  function Data(s: State, chunk: seq<byte>, beyond: seq<byte>, reaction: seq<ReadRequest>): State {
    match Completed(s, chunk, beyond)
    case None => Arrived(s, chunk)
    case Some(r) => Settled(IssueAll(Arrived(s, chunk), reaction), r.transactionId)
  }

  class ModbusClient {
    const request: ModbusRequest
    var transactionsUserData: map<word, word>
    var readBuffer: seq<byte>
    var written: seq<seq<byte>>

    ghost predicate Valid()
      reads this, request
    {
      request.buffer.Length == 12 && request.functionCode == READ_HOLDING_REGISTERS
    }

    ghost function Current(): State
      reads this, request
    {
      State(request.transactionId, transactionsUserData, readBuffer, written)
    }

    constructor ()
      ensures Valid() && Current() == INITIAL
      ensures fresh(request) && fresh(request.buffer)
    {
      request := new ModbusRequest();
      transactionsUserData, readBuffer, written := map[], [], [];
    }

    method ReadHoldingRegisters(unitId: byte, address: word, length: word, userData: word)
      requires Valid()
      modifies this, request, request.buffer
      ensures Valid() && Current() == Issue(old(Current()), ReadRequest(unitId, address, length, userData))
    {
      hide RequestBytes;
      request.unitId := unitId;
      request.memoryAddress := address;
      request.memoryLength := length;
      request.ToBuffer();
      transactionsUserData := transactionsUserData[request.transactionId := userData];
      written := written + [request.buffer[..]];
    }

    method OnWritten()
      modifies this
      ensures Current() == WriteDone(old(Current()))
    {
      readBuffer := [];
    }

    // A data event, in the three parts between which listeners run.

    method Receive(chunk: seq<byte>, beyond: seq<byte>) returns (r: Option<Response>)
      modifies this
      ensures Current() == Arrived(old(Current()), chunk)
      ensures r == Completed(old(Current()), chunk, beyond)
    {
      hide Frame;
      readBuffer := readBuffer + chunk;
      r := FromBuffer(readBuffer + beyond, |readBuffer|);
    }

    method EventFor(r: Response) returns (event: Event)
      ensures event == Published(transactionsUserData, r)
    {
      if r.exceptionCode != NO_EXCEPTION {
        return Exception(r.unitId, r.exceptionCode);
      } else if r.transactionId in transactionsUserData {
        return Reply(r.(userData := transactionsUserData[r.transactionId]));
      } else {
        return Reply(r);
      }
    }

    method Settle(id: word)
      modifies this
      ensures Current() == Settled(old(Current()), id)
    {
      transactionsUserData := transactionsUserData - {id};
      readBuffer := [];
    }

    /** The whole data event, with listeners that issue the requests `react` says. */
    method OnData(chunk: seq<byte>, beyond: seq<byte>, react: Event -> seq<ReadRequest>)
      returns (published: Option<Event>)
      requires Valid()
      modifies this, request, request.buffer
      ensures Valid()
      ensures published.Some? == Completed(old(Current()), chunk, beyond).Some?
      ensures published.Some? ==>
                published.value == Published(old(transactionsUserData), Completed(old(Current()), chunk, beyond).value)
      ensures Current() == Data(old(Current()), chunk, beyond, if published.Some? then react(published.value) else [])
    {
      hide Completed, Published, RequestBytes, NextId;
      var response := Receive(chunk, beyond);
      ghost var arrived := Current();
      if response.None? {
        return None;
      }
      var event := EventFor(response.value);
      var requests := react(event);
      for i := 0 to |requests|
        invariant Valid() && Current() == IssueAll(arrived, requests[..i])
      {
        assert requests[..i + 1][..i] == requests[..i];
        var q := requests[i];
        ReadHoldingRegisters(q.unitId, q.address, q.length, q.userData);
      }
      assert requests[..|requests|] == requests;
      Settle(response.value.transactionId);
      return Some(event);
    }
  }
}
