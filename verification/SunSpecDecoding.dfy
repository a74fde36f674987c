/**
 Byte order and block arithmetic of the SunSpec factories.
 */
module SunSpecDecoding {
  import opened Wire
  import opened ModbusFrame
  import opened ModbusCodec
  import opened SunSpecModels

  // Byte order cancels end to end.

  lemma {:induction false} RegisterBytesConcat(a: seq<word>, b: seq<word>)
    ensures RegisterBytes(a + b) == RegisterBytes(a) + RegisterBytes(b)
    decreases |b|
  {
    hide Hi, Lo;
    if b == [] {
      assert a + b == a;
      assert RegisterBytes(a) + [] == RegisterBytes(a);
    } else {
      var last := |b| - 1;
      RegisterBytesConcat(a, b[..last]);
      assert (a + b)[..|a + b| - 1] == a + b[..last];
      var w := WordBytes(b[last]);
      assert RegisterBytes(a) + RegisterBytes(b[..last]) + w == RegisterBytes(a) + (RegisterBytes(b[..last]) + w);
    }
  }

  lemma RegisterBytesMiddle(a: seq<word>, b: seq<word>, c: seq<word>)
    ensures RegisterBytes(a + b + c)[2 * |a|..2 * |a| + 2 * |b|] == RegisterBytes(b)
  {
    hide RegisterBytes;
    RegisterBytesConcat(a, b);
    RegisterBytesConcat(a + b, c);
    MiddleSlice(RegisterBytes(a), RegisterBytes(b), RegisterBytes(c));
  }

  lemma InThree(values: seq<word>, from: nat, to: nat)
    requires from <= to <= |values|
    ensures values == values[..from] + values[from..to] + values[to..]
  {}

  lemma MiddleSlice(a: seq<byte>, b: seq<byte>, c: seq<byte>)
    ensures (a + b + c)[|a|..|a| + |b|] == b
  {}

  lemma SliceOfRest(s: seq<byte>, k: nat, i: nat, j: nat)
    requires i <= j && k + j <= |s|
    ensures s[k..][i..j] == s[k + i..k + j]
  {}

  /** The bytes of `length` registers from `begin` on, in the order in which they are on the wire. */
  function FieldBytes(frame: seq<byte>, begin: nat, length: nat): seq<byte>
    requires 9 + 2 * (begin + length) <= |frame|
  {
    frame[9 + 2 * begin..9 + 2 * (begin + length)]
  }

  lemma ValuesOnWire(r: Response)
    requires Countable(r.values)
    ensures FrameBytes(r)[9..] == RegisterBytes(r.values)
  {
    hide RegisterBytes, FramePrefix;
  }

  lemma FieldOfFrame(frame: seq<byte>, begin: nat, length: nat)
    requires ExactFrame(frame) && 2 * (begin + length) <= frame[8]
    ensures Frame(frame, |frame|).Some?
    ensures begin + length <= |Frame(frame, |frame|).value.values|
    ensures StringField(Frame(frame, |frame|).value.values, begin, length)
         == Text(UntilNul(FieldBytes(frame, begin, length)))
  {
    hide Frame, RegisterBytes, UntilNul, FrameBytes;
    FrameRoundTrip(frame);
    var r := Frame(frame, |frame|).value;
    assert |FrameBytes(r)| == |frame|;
    InThree(r.values, begin, begin + length);
    RegisterBytesMiddle(r.values[..begin], r.values[begin..begin + length], r.values[begin + length..]);
    ValuesOnWire(r);
    SliceOfRest(frame, 9, 2 * begin, 2 * (begin + length));
  }

  /**
   From the bytes of a common-model reply to the decoded model: each string is the longest NUL-free
   prefix of its field's bytes in wire order.
   */
  lemma CommonReadsWireOrder(frame: seq<byte>, before: Model)
    requires ExactFrame(frame) && CommonSize(frame[8] / 2)
    ensures Frame(frame, |frame|).Some?
    ensures var m := Common(before, Frame(frame, |frame|).value.values);
            m == before.(values := before.values[Manufacturer := Text(UntilNul(FieldBytes(frame, 0, 16)))]
                                                [Product := Text(UntilNul(FieldBytes(frame, 16, 16)))]
                                                [Options := Text(UntilNul(FieldBytes(frame, 32, 8)))]
                                                [Version := Text(UntilNul(FieldBytes(frame, 40, 8)))]
                                                [Serial := Text(UntilNul(FieldBytes(frame, 48, 16)))])
  {
    hide Frame, StringField, UntilNul, FieldBytes;
    FieldOfFrame(frame, 0, 16);
    FieldOfFrame(frame, 16, 16);
    FieldOfFrame(frame, 32, 8);
    FieldOfFrame(frame, 40, 8);
    FieldOfFrame(frame, 48, 16);
    ValueCount(frame);
  }

  lemma ValueCount(frame: seq<byte>)
    requires ExactFrame(frame)
    ensures Frame(frame, |frame|).Some? && |Frame(frame, |frame|).value.values| == frame[8] / 2
  {}

  /** A NUL-free string padded with NULs into its field is read back unchanged. */
  lemma PaddedStringReadsBack(s: seq<byte>, frame: seq<byte>, begin: nat, length: nat)
    requires 0 !in s && |s| <= 2 * length && 9 + 2 * (begin + length) <= |frame|
    requires FieldBytes(frame, begin, length) == s + seq<byte>(2 * length - |s|, _ => 0)
    ensures UntilNul(FieldBytes(frame, begin, length)) == s
  {
    UntilNulIsUnique(FieldBytes(frame, begin, length), s);
  }

  // Capping commutes with MPPT decoding.

  /**
   A block reads its own 20 registers and the three scale factors: it is the same in any two payloads
   that agree there.
   */
  lemma BlockReadsOwnWindow(a: seq<word>, b: seq<word>, i: nat)
    requires HEAD + BLOCK * (i + 1) <= |a| && HEAD + BLOCK * (i + 1) <= |b|
    requires a[..3] == b[..3]
    requires a[HEAD + BLOCK * i..HEAD + BLOCK * (i + 1)] == b[HEAD + BLOCK * i..HEAD + BLOCK * (i + 1)]
    ensures BlockAt(a, i) == BlockAt(b, i)
  {
    hide Pow10;
    var o := HEAD + BLOCK * i;
    var wa, wb := a[o..o + BLOCK], b[o..o + BLOCK];
    assert wa[9] == a[o + 9] && wb[9] == b[o + 9];
    assert wa[10] == a[o + 10] && wb[10] == b[o + 10];
    assert wa[11] == a[o + 11] && wb[11] == b[o + 11];
    assert a[..3][0] == a[0] && b[..3][0] == b[0];
    assert a[..3][1] == a[1] && b[..3][1] == b[1];
    assert a[..3][2] == a[2] && b[..3][2] == b[2];
  }

  /** The windows of different blocks are disjoint, and all of them lie within the payload. */
  lemma WindowsAreDisjoint(n: nat, i: nat, j: nat)
    requires n >= HEAD && i < j < BlockCount(n)
    ensures HEAD <= HEAD + BLOCK * i && HEAD + BLOCK * (i + 1) <= HEAD + BLOCK * j
    ensures HEAD + BLOCK * (j + 1) <= n
  {}

  /** Decoding a prefix of the payload gives a prefix of the blocks: as many as fit into it. */
  lemma PrefixDecodesPrefix(buffer: seq<word>, n: nat)
    requires HEAD <= n <= |buffer|
    ensures BlockCount(n) <= BlockCount(|buffer|)
    ensures MpptBlocks(buffer[..n]) == MpptBlocks(buffer)[..BlockCount(n)]
  {
    hide BlockAt;
    assert BLOCK * BlockCount(n) <= n - HEAD;
    forall i | 0 <= i < BlockCount(n)
      ensures HEAD + BLOCK * (i + 1) <= n
      ensures BlockAt(buffer[..n], i) == BlockAt(buffer, i)
    {
      var o := HEAD + BLOCK * i;
      assert BLOCK * (i + 1) <= BLOCK * BlockCount(n);
      assert buffer[..n][o..o + BLOCK] == buffer[o..o + BLOCK];
      assert buffer[..n][..3] == buffer[..3];
      BlockReadsOwnWindow(buffer[..n], buffer, i);
    }
  }

  /** The first 48 registers decode to exactly the first two blocks. */
  lemma CappingKeepsTwoBlocks(buffer: seq<word>)
    requires |buffer| >= 48
    ensures |MpptBlocks(buffer)| >= 2
    ensures MpptBlocks(buffer[..48]) == MpptBlocks(buffer)[..2]
  {
    PrefixDecodesPrefix(buffer, 48);
  }

  // What a block says of a model.

  /** The size that the factory for a supported id wants, on a device with this common model. */
  predicate Fits(common: Model, id: word, n: nat) {
    if IsElgris(common) then n == 105
    else if id == INVERTER_MPPT_EXTENSION then n >= HEAD
    else if id == METER_WYE_CONNECT_THREE_PHASE then n == 105
    else n == 50
  }

  /** The values that a block gives. */
  function Said(common: Model, id: word, buffer: seq<word>): map<DataPoint, LiveValue> {
    Decoded(common, Model(id, map[]), id, buffer).values
  }

  /**
   Decoding puts the values of the block over those known before, and keeps the others. It gives any values
   if and only if the block has the size that its factory wants; else the model stays as it was.
   */
  lemma DecodedIsSaid(common: Model, before: Model, id: word, buffer: seq<word>)
    ensures Decoded(common, before, id, buffer) == before.(values := before.values + Said(common, id, buffer))
    ensures Said(common, id, buffer) != map[] <==> Fits(common, id, |buffer|)
    ensures !Fits(common, id, |buffer|) ==> Decoded(common, before, id, buffer) == before
  {
    hide MpptBlocks, Signed, Signed32;
    assert before.values + map[] == before.values;
    var m := Decoded(common, Model(id, map[]), id, buffer);
    if Fits(common, id, |buffer|) {
      if id == INVERTER_MPPT_EXTENSION && !IsElgris(common) {
        assert Dc in m.values;
      } else {
        assert TotalActiveAcPower in m.values;
      }
      assert Decoded(common, before, id, buffer).values == before.values + m.values;
    }
  }
}
