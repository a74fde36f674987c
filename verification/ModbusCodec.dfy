/**
 The Modbus codec is a bijection on well-formed frames.
 */
module ModbusCodec {
  import opened Wire
  import opened ModbusFrame

  /** What the codec carries for a normal reply. */
  predicate Normal(r: Response) {
    ListedFunction(r.functionCode) && r.exceptionCode == NO_EXCEPTION && r.userData == 0 && Countable(r.values)
  }

  lemma PrefixRead(mem: Memory, transactionId: word, protocolId: word, length: word, unitId: byte)
    requires FramePrefix(transactionId, protocolId, length, unitId) <= mem
    ensures U16At(mem, 0) == transactionId && U16At(mem, 2) == protocolId && U16At(mem, 4) == length
    ensures At(mem, 6) == unitId
  {
    hide Hi, Lo, U16;
    WordReadsBack(transactionId);
    WordReadsBack(protocolId);
    WordReadsBack(length);
    var p := FramePrefix(transactionId, protocolId, length, unitId);
    assert forall i :: 0 <= i < 7 ==> mem[i] == p[i];
    assert mem[0] == Hi(transactionId) && mem[1] == Lo(transactionId);
    assert mem[2] == Hi(protocolId) && mem[3] == Lo(protocolId);
    assert mem[4] == Hi(length) && mem[5] == Lo(length);
  }

  lemma ByteOfSlice(mem: Memory, o: nat, b: seq<byte>, i: nat)
    requires o + |b| <= |mem| && mem[o..o + |b|] == b && i < |b|
    ensures At(mem, o + i) == b[i]
  {
    assert mem[o..o + |b|][i] == mem[o + i];
  }

  lemma RegisterRead(mem: Memory, o: nat, values: seq<word>, i: nat)
    requires o + 2 * |values| <= |mem| && mem[o..o + 2 * |values|] == RegisterBytes(values) && i < |values|
    ensures U16At(mem, o + 2 * i) == values[i]
  {
    hide Hi, Lo, U16, At, RegisterBytes;
    RegisterBytesAt(values, i);
    ByteOfSlice(mem, o, RegisterBytes(values), 2 * i);
    ByteOfSlice(mem, o, RegisterBytes(values), 2 * i + 1);
    WordReadsBack(values[i]);
  }

  lemma RegistersRead(mem: Memory, o: nat, values: seq<word>)
    requires o + 2 * |values| <= |mem| && mem[o..o + 2 * |values|] == RegisterBytes(values)
    ensures Registers(mem, o, |values|) == values
  {
    hide U16At, RegisterBytes;
    forall i | 0 <= i < |values|
      ensures U16At(mem, o + 2 * i) == values[i]
    {
      RegisterRead(mem, o, values, i);
    }
  }

  /** What a frame reads as: its byte count is taken modulo 256. */
  lemma FrameRead(r: Response, mem: Memory, length: nat)
    requires Normal(r) && FrameBytes(r) <= mem && length >= |FrameBytes(r)|
    ensures Frame(mem, length) == Some(r.(values := Registers(mem, 9, 2 * |r.values| % 0x100 / 2)))
    ensures mem[9..9 + 2 * |r.values|] == RegisterBytes(r.values)
  {
    hide FramePrefix, RegisterBytes, Registers, U16At;
    var b := FrameBytes(r);
    var head := FramePrefix(r.transactionId, r.protocolId, 3 + 2 * |r.values|, r.unitId);
    assert head <= b;
    PrefixRead(mem, r.transactionId, r.protocolId, 3 + 2 * |r.values|, r.unitId);
    assert mem[7] == b[7] == r.functionCode && mem[8] == b[8] == 2 * |r.values| % 0x100;
    assert mem[9..9 + 2 * |r.values|] == b[9..] == RegisterBytes(r.values);
  }

  /**
   `fromBuffer(toBuffer(r))` is `r` if and only if `r` has at most 127 values, the most that the byte
   count can express. Bytes behind the frame do not matter.
   */
  lemma ResponseRoundTrip(r: Response, mem: Memory, length: nat)
    requires Normal(r) && FrameBytes(r) <= mem && length >= |FrameBytes(r)|
    ensures Frame(mem, length) == Some(r) <==> |r.values| <= 127
  {
    hide FrameBytes, Frame;
    FrameRead(r, mem, length);
    if |r.values| <= 127 {
      RegistersRead(mem, 9, r.values);
    } else {
      assert |Registers(mem, 9, 2 * |r.values| % 0x100 / 2)| < 128;
    }
  }

  /** The MBAP length is 3 plus an even byte count, and the bytes are exactly that frame. */
  predicate ExactFrame(b: seq<byte>) {
    |b| >= 9 && b[8] % 2 == 0 && |b| == b[8] + 9 as int && U16(b[4], b[5]) == |b| - 6 && ListedFunction(b[7])
  }

  /** `toBuffer(fromBuffer(b))` is `b` for every exact frame. */
  lemma FrameRoundTrip(b: seq<byte>)
    requires ExactFrame(b)
    ensures Frame(b, |b|).Some? && Normal(Frame(b, |b|).value)
    ensures FrameBytes(Frame(b, |b|).value) == b
  {
    hide RegisterBytes, FramePrefix;
    var r := Frame(b, |b|).value;
    HeadReadsBack(b, r);
    ValuesReadBack(b, r.values);
    assert b == b[..7] + b[7..9] + b[9..];
  }

  lemma ValuesReadBack(b: seq<byte>, values: seq<word>)
    requires |b| == 9 + 2 * |values| && values == Registers(b, 9, |values|)
    ensures RegisterBytes(values) == b[9..]
  {
    hide Hi, Lo, U16, RegisterBytes;
    forall i | 0 <= i < 2 * |values|
      ensures RegisterBytes(values)[i] == b[9 + i]
    {
      var k := i / 2;
      assert i == 2 * k || i == 2 * k + 1;
      RegisterBytesAt(values, k);
      BytesReadBack(b[9 + 2 * k], b[10 + 2 * k]);
    }
  }

  lemma HeadReadsBack(b: seq<byte>, r: Response)
    requires ExactFrame(b) && Frame(b, |b|) == Some(r)
    ensures FramePrefix(r.transactionId, r.protocolId, 3 + 2 * |r.values|, r.unitId) == b[..7]
    ensures [r.functionCode, 2 * |r.values| % 0x100] == b[7..9]
  {
    hide U16, Hi, Lo;
    BytesReadBack(b[0], b[1]);
    BytesReadBack(b[2], b[3]);
    BytesReadBack(b[4], b[5]);
    assert 2 * |r.values| == b[8];
  }

  /** An exception frame with length field 3 reads as the exception it was made of. */
  lemma ExceptionRead(transactionId: word, protocolId: word, unitId: byte, functionCode: byte, code: byte,
                      mem: Memory, length: nat)
    requires ExceptionBytes(transactionId, protocolId, 3, unitId, functionCode, code) <= mem && length >= 9
    ensures Frame(mem, length) == Some(Response(transactionId, protocolId, unitId, READ_HOLDING_REGISTERS,
                                                CastException(code), 0, []))
  {
    hide FramePrefix, U16At;
    var b := ExceptionBytes(transactionId, protocolId, 3, unitId, functionCode, code);
    assert FramePrefix(transactionId, protocolId, 3, unitId) <= b;
    PrefixRead(mem, transactionId, protocolId, 3, unitId);
    assert mem[7] == b[7] == WithHighBit(functionCode) && mem[8] == b[8] == code;
  }

  // A server reads back what a request asks for.

  function RequestId(b: seq<byte>): word {
    U16At(b, 0)
  }

  function RequestRead(b: seq<byte>): ReadRequest {
    ReadRequest(At(b, 6), U16At(b, 8), U16At(b, 10), 0)
  }

  lemma RequestRoundTrip(transactionId: word, q: ReadRequest)
    ensures var b := RequestBytes(transactionId, q.unitId, READ_HOLDING_REGISTERS, q.address, q.length);
            RequestId(b) == transactionId && RequestRead(b) == q.(userData := 0) && U16At(b, 4) == |b| - 6
  {
    var b := RequestBytes(transactionId, q.unitId, READ_HOLDING_REGISTERS, q.address, q.length);
    hide Hi, Lo, U16;
    assert FramePrefix(transactionId, 0, 6, q.unitId) <= b;
    PrefixRead(b, transactionId, 0, 6, q.unitId);
    WordReadsBack(q.address);
    WordReadsBack(q.length);
    assert b[8] == Hi(q.address) && b[9] == Lo(q.address) && b[10] == Hi(q.length) && b[11] == Lo(q.length);
  }
}
