/**
 The strategic order in which SunSpecClient.cpp probes unit ids.
 */
module UnitIds {
  import opened Wire

  function Range(from: byte, to: byte): (ids: seq<byte>)
    requires from <= to
    ensures |ids| == to - from + 1
    ensures forall i :: 0 <= i < |ids| ==> ids[i] == from + i
  {
    seq<byte>(to - from + 1, i requires 0 <= i <= to - from => from + i)
  }

  /** Primary, secondary and tertiary devices. */
  const LIKELY: seq<byte> := [1, 240, 126, 127, 100, 2, 247, 241, 128, 129, 3, 4, 5, 242, 243, 244,
                              130, 131, 132, 133, 134, 135, 6, 7, 8, 9, 10]

  const IDS: seq<byte> := LIKELY + Range(11, 99) + Range(101, 125) + Range(136, 239) + [245, 246]

  /** The `i`-th id of the rest of the list, which ascends. */
  function Rest(i: nat): nat
    requires |LIKELY| <= i < 247
  {
    if i < 116 then i - 16 else if i < 141 then i - 15 else if i < 245 then i - 5 else i
  }

  lemma IdAt(i: nat)
    requires |LIKELY| <= i < 247
    ensures |IDS| == 247 && IDS[i] == Rest(i)
  {}

  /** Where an id stands in the list of likely ones. */
  function LikelyPosition(id: nat): nat {
    if id == 1 then 0 else if id == 240 then 1 else if id == 126 then 2 else if id == 127 then 3
    else if id == 100 then 4 else if id == 2 then 5 else if id == 247 then 6 else if id == 241 then 7
    else if id == 128 then 8 else if id == 129 then 9 else if id == 3 then 10 else if id == 4 then 11
    else if id == 5 then 12 else if 242 <= id <= 244 then id - 229 else if 130 <= id <= 135 then id - 114
    else if 6 <= id <= 10 then id + 16 else 247
  }

  /** Where an id stands in the list. */
  function Position(id: nat): nat {
    if LikelyPosition(id) < |LIKELY| then LikelyPosition(id)
    else if 11 <= id <= 99 then id + 16
    else if 101 <= id <= 125 then id + 15
    else if 136 <= id <= 239 then id + 5
    else id
  }

  lemma LikelyAt(i: nat)
    requires i < |LIKELY|
    ensures IDS[i] == LIKELY[i] && LikelyPosition(LIKELY[i]) == i && 1 <= LIKELY[i] <= 247
  {}

  /** The list holds every id from 1 to 247 exactly once. */
  lemma IdsArePermutation()
    ensures |IDS| == 247
    ensures forall i :: 0 <= i < 247 ==> 1 <= IDS[i] <= 247 && Position(IDS[i]) == i
    ensures forall id :: 1 <= id <= 247 ==> 0 <= Position(id) < 247 && IDS[Position(id)] == id
  {
    forall i | 0 <= i < 247
      ensures 1 <= IDS[i] <= 247 && Position(IDS[i]) == i
    {
      if i < |LIKELY| {
        LikelyAt(i);
      } else {
        IdAt(i);
      }
    }
    forall id | 1 <= id <= 247
      ensures 0 <= Position(id) < 247 && IDS[Position(id)] == id
    {
      if LikelyPosition(id) < |LIKELY| {
        LikelyAt(Position(id));
      } else {
        IdAt(Position(id));
      }
    }
  }
}
