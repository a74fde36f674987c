/**
 Modbus/TCP frames, as ModbusResponse.cpp, ModbusRequest.cpp and ModbusUtil.cpp read and write them:
 section 3.1.3 of the MODBUS Messaging on TCP/IP Implementation Guide V1.0b, with exceptions as in
 section 7 of MODBUS Application Protocol V1.1b3.
 */
module ModbusFrame {
  import opened Wire

  const READ_HOLDING_REGISTERS: byte := 3
  const NO_EXCEPTION: byte := 0
  const UNKNOWN_EXCEPTION: byte := 0xFF

  datatype Response = Response(transactionId: word, protocolId: word, unitId: byte, functionCode: byte,
                               exceptionCode: byte, userData: word, values: seq<word>)

  predicate ListedFunction(code: byte) {
    1 <= code <= 6 || 0x0F <= code <= 0x11 || code == 0x16 || code == 0x17
  }

  function CastException(code: byte): byte {
    if code <= 6 || code == 8 || code == 0x0A || code == 0x0B then code else UNKNOWN_EXCEPTION
  }

  /** The registers of `count` big-endian words from `o` on. */
  function Registers(mem: Memory, o: nat, count: nat): (values: seq<word>)
    ensures |values| == count
    ensures forall i :: 0 <= i < count ==> values[i] == U16At(mem, o + 2 * i)
  {
    seq<word>(count, i requires 0 <= i < count => U16At(mem, o + 2 * i))
  }

  /** What a function byte that is not listed announces: an exception, whose code comes next. */
  function Exceptional(mem: Memory): Response {
    Response(U16At(mem, 0), U16At(mem, 2), At(mem, 6), READ_HOLDING_REGISTERS, CastException(At(mem, 8)), 0, [])
  }

  /** The frame at the start of `length` received bytes, if it is complete. */
  function Frame(mem: Memory, length: nat): Option<Response> {
    if length < 8 || length < U16At(mem, 4) + 6 then None
    else if !ListedFunction(At(mem, 7)) then Some(Exceptional(mem))
    else Some(Response(U16At(mem, 0), U16At(mem, 2), At(mem, 6), At(mem, 7), NO_EXCEPTION, 0,
                       Registers(mem, 9, At(mem, 8) / 2)))
  }

  /** Loads a word as the host does and swaps its bytes. */
  method LoadSwapped(mem: Memory, p: nat) returns (w: word)
    ensures w == U16At(mem, p)
  {
    SwapHostWord(At(mem, p), At(mem, p + 1));
    var loaded := LoadHostWord(At(mem, p), At(mem, p + 1));
    w := SwapBytes(loaded);
  }

  method FromBuffer(mem: Memory, length: nat) returns (r: Option<Response>)
    ensures r == Frame(mem, length)
  {
    if length < 8 {
      return None;
    }
    var p := 0;
    var transactionId := LoadSwapped(mem, p);
    p := p + 2;
    var protocolId := LoadSwapped(mem, p);
    p := p + 2;
    var length_: int := LoadSwapped(mem, p);
    p := p + 2;
    if length < length_ + 6 {
      return None;
    }
    var unitId := At(mem, p);
    p := p + 1;
    var functionCode := At(mem, p);
    p := p + 1;
    if !ListedFunction(functionCode) {
      var exceptionCode := CastException(At(mem, p));
      return Some(Response(transactionId, protocolId, unitId, READ_HOLDING_REGISTERS, exceptionCode, 0, []));
    }
    var size := At(mem, p) / 2;
    p := p + 1;
    var values: seq<word> := [];
    for i := 0 to size
      invariant p == 9 + 2 * i
      invariant values == Registers(mem, 9, i)
    {
      var v := LoadSwapped(mem, p);
      values := values + [v];
      p := p + 2;
    }
    return Some(Response(transactionId, protocolId, unitId, functionCode, NO_EXCEPTION, 0, values));
  }

  // Writing frames.

  function RegisterBytes(values: seq<word>): (r: seq<byte>)
    ensures |r| == 2 * |values|
  {
    if values == [] then []
    else
      var last := |values| - 1;
      RegisterBytes(values[..last]) + WordBytes(values[last])
  }

  lemma {:induction false} RegisterBytesAt(values: seq<word>, i: nat)
    requires i < |values|
    ensures RegisterBytes(values)[2 * i] == Hi(values[i]) && RegisterBytes(values)[2 * i + 1] == Lo(values[i])
    decreases |values|
  {
    hide Hi, Lo;
    var last := |values| - 1;
    if i < last {
      RegisterBytesAt(values[..last], i);
    }
  }

  function FramePrefix(transactionId: word, protocolId: word, length: word, unitId: byte): (r: seq<byte>)
    ensures |r| == 7
  {
    WordBytes(transactionId) + WordBytes(protocolId) + WordBytes(length) + [unitId]
  }

  /** A response may have as many values as its 16-bit length field can count. */
  predicate Countable(values: seq<word>) {
    3 + 2 * |values| < 0x1_0000
  }

  function FrameBytes(r: Response): (b: seq<byte>)
    requires Countable(r.values)
    ensures |b| == 9 + 2 * |r.values|
  {
    FramePrefix(r.transactionId, r.protocolId, 3 + 2 * |r.values|, r.unitId)
    + [r.functionCode, 2 * |r.values| % 0x100] + RegisterBytes(r.values)
  }

  method ToBuffer(r: Response) returns (buffer: array<byte>)
    requires Countable(r.values)
    ensures fresh(buffer) && buffer[..] == FrameBytes(r)
  {
    hide Hi, Lo, RegisterBytes;
    var length: word := 3 + 2 * |r.values|;
    var count: byte := 2 * |r.values| % 0x100;
    buffer := new byte[6 + length];
    buffer[0], buffer[1] := Hi(r.transactionId), Lo(r.transactionId);
    buffer[2], buffer[3] := Hi(r.protocolId), Lo(r.protocolId);
    buffer[4], buffer[5] := Hi(length), Lo(length);
    buffer[6] := r.unitId;
    buffer[7] := r.functionCode;
    buffer[8] := count;
    ghost var head := buffer[..9];
    assert head[..7] == FramePrefix(r.transactionId, r.protocolId, length, r.unitId);
    assert head[7..] == [r.functionCode, count];
    assert head == head[..7] + head[7..];
    WriteValues(buffer, r.values);
    assert buffer[..] == head + buffer[9..];
  }

  method WriteValues(buffer: array<byte>, values: seq<word>)
    requires buffer.Length == 9 + 2 * |values|
    modifies buffer
    ensures buffer[..9] == old(buffer[..9])
    ensures buffer[9..] == RegisterBytes(values)
  {
    hide Hi, Lo, RegisterBytes;
    for i := 0 to |values|
      invariant forall k :: 0 <= k < 9 ==> buffer[k] == old(buffer[k])
      invariant forall k :: 0 <= k < i ==> buffer[9 + 2 * k] == Hi(values[k]) && buffer[10 + 2 * k] == Lo(values[k])
    {
      buffer[9 + i * 2] := Hi(values[i]);
      buffer[10 + i * 2] := Lo(values[i]);
    }
    forall j | 0 <= j < 2 * |values|
      ensures buffer[9 + j] == RegisterBytes(values)[j]
    {
      var k := j / 2;
      assert j == 2 * k || j == 2 * k + 1;
      RegisterBytesAt(values, k);
      assert buffer[9 + 2 * k] == Hi(values[k]) && buffer[10 + 2 * k] == Lo(values[k]);
    }
  }

  function WithHighBit(code: byte): byte {
    if code < 0x80 then code + 0x80 else code
  }

  function ExceptionBytes(transactionId: word, protocolId: word, length: word, unitId: byte, functionCode: byte,
                          exceptionCode: byte): (b: seq<byte>)
    ensures |b| == 9
  {
    FramePrefix(transactionId, protocolId, length, unitId) + [WithHighBit(functionCode), exceptionCode]
  }

  method CreateModbusExceptionBuffer(transactionId: word, protocolId: word, length: word, unitId: byte,
                                     functionCode: byte, exceptionCode: byte)
    returns (buffer: array<byte>)
    ensures fresh(buffer)
    ensures buffer[..] == ExceptionBytes(transactionId, protocolId, length, unitId, functionCode, exceptionCode)
  {
    buffer := new byte[9];
    buffer[0], buffer[1] := Hi(transactionId), Lo(transactionId);
    buffer[2], buffer[3] := Hi(protocolId), Lo(protocolId);
    buffer[4], buffer[5] := Hi(length), Lo(length);
    buffer[6] := unitId;
    buffer[7] := WithHighBit(functionCode);
    buffer[8] := exceptionCode;
  }

  // Requests.

  datatype ReadRequest = ReadRequest(unitId: byte, address: word, length: word, userData: word)

  function RequestBytes(transactionId: word, unitId: byte, functionCode: byte, address: word,
                        length: word): (b: seq<byte>)
    ensures |b| == 12
  {
    FramePrefix(transactionId, 0, 6, unitId) + [functionCode] + WordBytes(address) + WordBytes(length)
  }

  class ModbusRequest {
    var transactionId: word
    var unitId: byte
    var functionCode: byte
    var memoryAddress: word
    var memoryLength: word
    const buffer: array<byte>

    constructor ()
      ensures transactionId == 0 && functionCode == READ_HOLDING_REGISTERS
      ensures fresh(buffer) && buffer.Length == 12
    {
      transactionId, unitId, functionCode := 0, 0, READ_HOLDING_REGISTERS;
      memoryAddress, memoryLength := 0, 0;
      buffer := new byte[12];
    }

    method ToBuffer()
      requires buffer.Length == 12
      modifies this`transactionId, buffer
      ensures transactionId == Wrap(old(transactionId) + 1)
      ensures buffer[..] == RequestBytes(transactionId, unitId, functionCode, memoryAddress, memoryLength)
    {
      hide Hi, Lo, Wrap;
      transactionId := Wrap(transactionId + 1);
      var p := 0;
      PutWord(p, transactionId);
      p := p + 2;
      PutWord(p, 0);
      p := p + 2;
      PutWord(p, 6);
      p := p + 2;
      buffer[p] := unitId;
      p := p + 1;
      buffer[p] := functionCode;
      p := p + 1;
      PutWord(p, memoryAddress);
      p := p + 2;
      PutWord(p, memoryLength);
    }

    /** Writes a word's most significant byte first. */
    method PutWord(p: nat, w: word)
      requires p + 2 <= buffer.Length
      modifies buffer
      ensures buffer[p] == Hi(w) && buffer[p + 1] == Lo(w)
      ensures forall k :: 0 <= k < buffer.Length && k != p && k != p + 1 ==> buffer[k] == old(buffer[k])
    {
      buffer[p] := Hi(w);
      buffer[p + 1] := Lo(w);
    }
  }
}
