/**
 Decoding of SunSpec model blocks, as SunSpecModelFactory.cpp and the factories under models/ do it.
 Scale factors are kept as exponents, or applied as real powers of ten where blocks are compared.
 */
module SunSpecModels {
  import opened Wire
  import opened ModbusFrame

  const COMMON: word := 1
  const INVERTER_SINGLE_PHASE: word := 101
  const INVERTER_THREE_PHASE: word := 103
  const INVERTER_MPPT_EXTENSION: word := 160
  const METER_WYE_CONNECT_THREE_PHASE: word := 203

  datatype DataPoint =
    | Manufacturer | Product | Options | Version | Serial
    | TotalActiveAcPower | TotalExportedActiveEnergy | TotalImportedActiveEnergy
    | OperatingStatus | Events | Dc

  datatype DcBlock = DcBlock(current: real, voltage: real, power: real)

  /** `Scaled` and `Rounded` stand for raw * 10^exponent, the latter rounded to hundreds. */
  datatype LiveValue =
    | Text(text: seq<byte>)
    | Scaled(raw: int, exponent: int)
    | Rounded(raw: int, exponent: int)
    | Code(code: word)
    | Blocks(blocks: seq<DcBlock>)

  datatype Model = Model(modelId: word, values: map<DataPoint, LiveValue>)

  const NEW_MODEL := Model(0, map[])

  // The common model.

  /** The longest prefix without a NUL. */
  function UntilNul(s: seq<byte>): (r: seq<byte>)
    ensures r <= s && 0 !in r && (|r| == |s| || s[|r|] == 0)
  {
    if s == [] || s[0] == 0 then [] else [s[0]] + UntilNul(s[1..])
  }

  lemma {:induction false} UntilNulIsUnique(s: seq<byte>, r: seq<byte>)
    requires r <= s && 0 !in r && (|r| == |s| || s[|r|] == 0)
    ensures UntilNul(s) == r
  {
    assert r == [] || (s != [] && r[0] == s[0] && r[0] in r);
    if s != [] && s[0] != 0 {
      UntilNulIsUnique(s[1..], r[1..]);
    }
  }

  /** The byte at address 0 or 1 of a word in a little-endian host's memory. */
  function HostByte(w: word, i: nat): byte {
    if i == 0 then Lo(w) else Hi(w)
  }

  method ReadString(buffer: seq<word>, begin: nat, length: nat) returns (out: seq<byte>)
    requires begin + length <= |buffer|
    ensures out == UntilNul(RegisterBytes(buffer[begin..begin + length]))
  {
    hide Hi, Lo, RegisterBytes;
    out := [];
    ghost var all := RegisterBytes(buffer[begin..begin + length]);
    for i := 0 to length
      invariant |out| == 2 * i && out <= all && 0 !in out
    {
      var w := buffer[begin + i];
      RegisterBytesAt(buffer[begin..begin + length], i);
      assert all[2 * i] == Hi(buffer[begin..begin + length][i]) && all[2 * i + 1] == Lo(w);
      if HostByte(w, 1) != 0 {
        out := out + [HostByte(w, 1)];
      } else {
        UntilNulIsUnique(all, out);
        return;
      }
      if HostByte(w, 0) != 0 {
        out := out + [HostByte(w, 0)];
      } else {
        UntilNulIsUnique(all, out);
        return;
      }
    }
    UntilNulIsUnique(all, out);
  }

  function StringField(buffer: seq<word>, begin: nat, length: nat): LiveValue
    requires begin + length <= |buffer|
  {
    Text(UntilNul(RegisterBytes(buffer[begin..begin + length])))
  }

  predicate CommonSize(n: nat) {
    n == 66 || n == 65
  }

  function Common(model: Model, buffer: seq<word>): Model {
    if !CommonSize(|buffer|) then model
    else
      model.(values := model.values[Manufacturer := StringField(buffer, 0, 16)]
                                   [Product := StringField(buffer, 16, 16)]
                                   [Options := StringField(buffer, 32, 8)]
                                   [Version := StringField(buffer, 40, 8)]
                                   [Serial := StringField(buffer, 48, 16)])
  }

  method UpdateCommon(before: Model, buffer: seq<word>) returns (model: Model, updated: bool)
    ensures updated == CommonSize(|buffer|) && model == Common(before, buffer)
  {
    model := before;
    if |buffer| != 66 && |buffer| != 65 {
      return model, false;
    }
    var s := ReadString(buffer, 0, 16);
    model := model.(values := model.values[Manufacturer := Text(s)]);
    s := ReadString(buffer, 16, 16);
    model := model.(values := model.values[Product := Text(s)]);
    s := ReadString(buffer, 32, 8);
    model := model.(values := model.values[Options := Text(s)]);
    s := ReadString(buffer, 40, 8);
    model := model.(values := model.values[Version := Text(s)]);
    s := ReadString(buffer, 48, 16);
    model := model.(values := model.values[Serial := Text(s)]);
    return model, true;
  }

  // The MPPT extension.

  function Pow10(e: int): real
    decreases if e < 0 then -e else e
  {
    if e == 0 then 1.0 else if e > 0 then 10.0 * Pow10(e - 1) else Pow10(e + 1) / 10.0
  }

  const HEAD := 8
  const BLOCK := 20

  function BlockCount(n: nat): nat
    requires n >= HEAD
  {
    (n - HEAD) / BLOCK
  }

  /** 65535 says that the inverter does not implement the point. */
  function Implemented(w: word): nat {
    if w == 0xFFFF then 0 else w
  }

  function BlockAt(buffer: seq<word>, i: nat): DcBlock
    requires HEAD + BLOCK * (i + 1) <= |buffer|
  {
    var o := HEAD + BLOCK * i;
    DcBlock(Implemented(buffer[o + 9]) as real * Pow10(Signed(buffer[0])),
            Implemented(buffer[o + 10]) as real * Pow10(Signed(buffer[1])),
            Implemented(buffer[o + 11]) as real * Pow10(Signed(buffer[2])))
  }

  function MpptBlocks(buffer: seq<word>): (blocks: seq<DcBlock>)
    requires |buffer| >= HEAD
    ensures |blocks| == BlockCount(|buffer|)
  {
    seq<DcBlock>(BlockCount(|buffer|), i requires 0 <= i < BlockCount(|buffer|) => BlockAt(buffer, i))
  }

  function Mppt(model: Model, buffer: seq<word>): Model {
    if |buffer| < HEAD then model
    else model.(values := model.values[Dc := Blocks(MpptBlocks(buffer))])
  }

  method UpdateMppt(before: Model, buffer: seq<word>) returns (model: Model, updated: bool)
    ensures updated == (|buffer| >= HEAD) && model == Mppt(before, buffer)
  {
    hide Pow10, Implemented, Signed;
    model := before;
    if |buffer| < 8 {
      return model, false;
    }
    var count := (|buffer| - 8) / 20;
    var sfCurrent, sfVoltage := Pow10(Signed(buffer[0])), Pow10(Signed(buffer[1]));
    var sfPower := Pow10(Signed(buffer[2]));
    var dcs: seq<DcBlock> := [];
    for i := 0 to count
      invariant dcs == MpptBlocks(buffer)[..i]
    {
      assert HEAD + BLOCK * (i + 1) <= |buffer|;
      var dcCurrent := Implemented(buffer[8 + i * 20 + 9]);
      var dcVoltage := Implemented(buffer[8 + i * 20 + 10]);
      var dcPower := Implemented(buffer[8 + i * 20 + 11]);
      var dc := DcBlock(dcCurrent as real * sfCurrent, dcVoltage as real * sfVoltage, dcPower as real * sfPower);
      assert dc == BlockAt(buffer, i) == MpptBlocks(buffer)[i];
      dcs := dcs + [dc];
    }
    assert dcs == MpptBlocks(buffer);
    model := model.(values := model.values[Dc := Blocks(dcs)]);
    return model, true;
  }

  // Inverters and meters.

  /** Two's-complement reading of two registers, most significant first. */
  function Signed32(high: word, low: word): int {
    Signed(high) * 0x1_0000 + low
  }

  function Inverter(model: Model, buffer: seq<word>): Model {
    if |buffer| != 50 then model
    else
      var power := Signed(buffer[12]);
      model.(values := model.values[TotalActiveAcPower := Scaled(if power < 0 then 0 else power, Signed(buffer[13]))]
                                   [TotalExportedActiveEnergy :=
                                      Rounded(Signed32(buffer[22], buffer[23]), Signed(buffer[24]))]
                                   [OperatingStatus := Code(buffer[36])]
                                   [Events := Code(buffer[38])])
  }

  function WyeConnectMeter(model: Model, buffer: seq<word>): Model {
    if |buffer| != 105 then model
    else
      model.(values := model.values[TotalActiveAcPower := Scaled(Signed(buffer[16]), Signed(buffer[20]))]
                                   [TotalExportedActiveEnergy := Rounded(Signed32(buffer[36], buffer[37]), 0)]
                                   [TotalImportedActiveEnergy := Rounded(Signed32(buffer[44], buffer[45]), 0)])
  }

  /** Elgris meters negate the scale factor and send the least significant register first. */
  function ElgrisMeter(model: Model, buffer: seq<word>): Model {
    if |buffer| != 105 then model
    else
      model.(values := model.values[TotalActiveAcPower :=
                                      Scaled(Signed(buffer[16]), Signed(Wrap(-Signed(buffer[20]))))]
                                   [TotalExportedActiveEnergy := Rounded(Signed32(buffer[37], buffer[36]), 0)]
                                   [TotalImportedActiveEnergy := Rounded(Signed32(buffer[45], buffer[44]), 0)])
  }

  // All of them.

  predicate Supported(id: word) {
    id == INVERTER_SINGLE_PHASE || id == INVERTER_THREE_PHASE || id == INVERTER_MPPT_EXTENSION
    || id == METER_WYE_CONNECT_THREE_PHASE
  }

  const ELGRIS: seq<byte> := [101, 108, 103, 114, 105, 115]

  predicate IsElgris(common: Model) {
    Manufacturer in common.values && common.values[Manufacturer] == Text(ELGRIS)
  }

  /** The model that a block decodes to, on a device with this common model. */
  function Decoded(common: Model, before: Model, id: word, buffer: seq<word>): (m: Model)
    ensures m.modelId == before.modelId
  {
    if IsElgris(common) then ElgrisMeter(before, buffer)
    else if id == INVERTER_MPPT_EXTENSION then Mppt(before, buffer)
    else if id == METER_WYE_CONNECT_THREE_PHASE then WyeConnectMeter(before, buffer)
    else Inverter(before, buffer)
  }

  /** `map::operator[]`: an absent model springs into existence, with id 0. */
  function Entry(models: map<word, Model>, id: word): Model {
    if id in models then models[id] else NEW_MODEL
  }

  function Before(models: map<word, Model>, id: word): Model {
    if id in models then models[id] else Model(id, map[])
  }

  predicate Updates(id: word, buffer: seq<word>) {
    buffer != [] && Supported(id)
  }

  function Updated(models: map<word, Model>, id: word, buffer: seq<word>): map<word, Model> {
    if !Updates(id, buffer) then models
    else models[COMMON := Entry(models, COMMON)]
               [id := Decoded(Entry(models, COMMON), Before(models, id), id, buffer)]
  }

  method UpdateFromBuffer(before: map<word, Model>, id: word, buffer: seq<word>)
    returns (models: map<word, Model>, updated: bool)
    ensures updated == Updates(id, buffer) && models == Updated(before, id, buffer)
  {
    hide Inverter, WyeConnectMeter, ElgrisMeter, Mppt;
    models := before;
    if buffer == [] || !Supported(id) {
      return models, false;
    }
    if id !in models {
      models := models[id := NEW_MODEL.(modelId := id)];
    }
    if COMMON !in models {
      models := models[COMMON := NEW_MODEL];
    }
    var model := models[id];
    if IsElgris(models[COMMON]) {
      model := ElgrisMeter(model, buffer);
    } else if id == INVERTER_MPPT_EXTENSION {
      var done: bool;
      model, done := UpdateMppt(model, buffer);
    } else {
      model := Decoded(models[COMMON], model, id, buffer);
    }
    models := models[id := model];
    return models, true;
  }

  /** Every model but the common one carries its own id. */
  ghost predicate Identified(models: map<word, Model>) {
    forall id :: id in models && id != COMMON ==> models[id].modelId == id
  }

  lemma UpdatedStaysIdentified(models: map<word, Model>, id: word, buffer: seq<word>)
    requires Identified(models)
    ensures Identified(Updated(models, id, buffer))
    ensures Updates(id, buffer) ==> id in Updated(models, id, buffer) && Updated(models, id, buffer)[id].modelId == id
  {
    hide Decoded;
  }
}
