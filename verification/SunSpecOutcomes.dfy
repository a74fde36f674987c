/**
 How discovery comes out on every bus whatsoever: the client connects, closes, stalls, or walks for ever.
 */
module SunSpecOutcomes {
  import opened Wire
  import opened SunSpecModels
  import opened SunSpecProtocol
  import opened SunSpecSystem
  import opened SunSpecWalk
  import UnitIds

  // The walk along any registers, chained or not.

  /** The table ends here. */
  predicate EndMark(regs: Registers, a: word) {
    a != READ_HEADER && Readable(regs, a, 2) && regs[a] == 0xFFFF
  }

  /** The walk goes no further: at an end mark, where the device refuses the read, or at address 63000. */
  predicate Stops(regs: Registers, a: word) {
    EndMark(regs, a) || a == READ_HEADER || !Readable(regs, a, 2)
  }

  /** The address of the `n`-th entry that is read, wrapping around as the code does, if the walk gets there. */
  function WalkAddress(regs: Registers, a: word, n: nat): Option<word>
    decreases n
  {
    if n == 0 then Some(a)
    else if Stops(regs, a) then None
    else WalkAddress(regs, Wrap(a + 2 + regs[a + 1]), n - 1)
  }

  ghost predicate StopsAt(regs: Registers, a: word, n: nat, b: word) {
    WalkAddress(regs, a, n) == Some(b) && Stops(regs, b)
  }

  /** What the last reply of a walk publishes. */
  function LastNotice(regs: Registers, unit: byte, b: word): seq<Notice> {
    if EndMark(regs, b) then [Connected]
    else if !Readable(regs, b, 2) then [Excepted(unit, ILLEGAL_DATA_ADDRESS)]
    else []
  }

  lemma RefusedEntryServed(sys: System, bus: map<byte, Registers>, a: word)
    requires In(sys, Walking(a)) && sys.client.unitId in bus && !Readable(bus[sys.client.unitId], a, 2)
    ensures In(Serve(sys, bus), Waiting)
    ensures Serve(sys, bus).notices == sys.notices + [Excepted(sys.client.unitId, ILLEGAL_DATA_ADDRESS)]
  {
    hide UnitIds.IDS, OnFrame, Serve, Readable, ReadAt;
    var q := EntryRequest(sys.client, a);
    Served(sys, bus, q);
    var f := Answer(bus, sys.modbus.lastId, q);
    ReplyIsPublished(sys, q, f);
    ExceptionStep(sys, Walking(a), q, f);
    var n := Excepted(sys.client.unitId, ILLEGAL_DATA_ADDRESS);
    assert sys.notices + [n] + [] == sys.notices + [n];
  }

  /** The reply to an entry read at 63000 passes for a header, which is too short to mean anything. */
  lemma HeaderIdServed(sys: System, bus: map<byte, Registers>, a: word)
    requires In(sys, Walking(a)) && a == READ_HEADER && sys.client.unitId in bus
    requires Readable(bus[sys.client.unitId], a, 2)
    ensures In(Serve(sys, bus), Waiting) && Serve(sys, bus).notices == sys.notices
  {
    hide UnitIds.IDS, OnFrame, Serve, Readable, ReadAt;
    var q := EntryRequest(sys.client, a);
    Served(sys, bus, q);
    var f := Answer(bus, sys.modbus.lastId, q);
    ReplyIsPublished(sys, q, f);
    EntryStep(sys, a, f);
    assert sys.notices + [] == sys.notices;
  }

  lemma LastEntryServed(sys: System, bus: map<byte, Registers>, b: word)
    requires In(sys, Walking(b)) && sys.client.unitId in bus && Stops(bus[sys.client.unitId], b)
    ensures var regs := bus[sys.client.unitId];
            && In(Serve(sys, bus), if EndMark(regs, b) then Finished else Waiting)
            && Serve(sys, bus).notices == sys.notices + LastNotice(regs, sys.client.unitId, b)
  {
    hide In, Serve;
    var regs := bus[sys.client.unitId];
    if EndMark(regs, b) {
      EntryServed(sys, bus, b);
    } else if !Readable(regs, b, 2) {
      RefusedEntryServed(sys, bus, b);
    } else {
      HeaderIdServed(sys, bus, b);
      assert sys.notices + [] == sys.notices;
    }
  }

  lemma NextEntryServed(sys: System, bus: map<byte, Registers>, a: word)
    requires In(sys, Walking(a)) && sys.client.unitId in bus && !Stops(bus[sys.client.unitId], a)
    ensures var next := Wrap(a + 2 + bus[sys.client.unitId][a + 1]);
            && In(Serve(sys, bus), Walking(next))
            && Serve(sys, bus).client.unitId == sys.client.unitId && Serve(sys, bus).notices == sys.notices
  {
    hide In, Serve;
    EntryServed(sys, bus, a);
    assert sys.notices + [] == sys.notices;
  }

  lemma {:induction false} WalkReaches(sys: System, bus: map<byte, Registers>, a: word, n: nat, b: word)
    requires In(sys, Walking(a)) && sys.client.unitId in bus
    requires WalkAddress(bus[sys.client.unitId], a, n) == Some(b)
    ensures var after := Iterate(sys, bus, n);
            In(after, Walking(b)) && after.client.unitId == sys.client.unitId && after.notices == sys.notices
    decreases n
  {
    hide In, Serve;
    if n > 0 {
      NextEntryServed(sys, bus, a);
      WalkReaches(Serve(sys, bus), bus, Wrap(a + 2 + bus[sys.client.unitId][a + 1]), n - 1, b);
    }
  }

  lemma {:induction false} WalkEnds(sys: System, bus: map<byte, Registers>, a: word, n: nat, b: word)
    requires In(sys, Walking(a)) && sys.client.unitId in bus && StopsAt(bus[sys.client.unitId], a, n, b)
    ensures var regs := bus[sys.client.unitId];
            var after := Iterate(sys, bus, n + 1);
            && In(after, if EndMark(regs, b) then Finished else Waiting)
            && after.notices == sys.notices + LastNotice(regs, sys.client.unitId, b)
  {
    hide In, Serve, Stops, EndMark, LastNotice, WalkAddress, Iterate;
    WalkReaches(sys, bus, a, n, b);
    LastEntryServed(Iterate(sys, bus, n), bus, b);
    IterateInTwo(sys, bus, n, 1);
    OneServe(Iterate(sys, bus, n), bus);
  }

  lemma StopsHere(regs: Registers, a: word)
    requires Stops(regs, a)
    ensures StopsAt(regs, a, 0, a)
  {}

  lemma StopsLater(regs: Registers, a: word, n: nat, b: word)
    requires !Stops(regs, a) && StopsAt(regs, Wrap(a + 2 + regs[a + 1]), n, b)
    ensures StopsAt(regs, a, n + 1, b)
  {}

  /** A walk stops somewhere, or goes on for ever. */
  lemma {:induction false} WalkStopsOrNot(regs: Registers, a: word, n: nat)
    requires WalkAddress(regs, a, n).None?
    ensures exists m: nat, b: word :: StopsAt(regs, a, m, b)
    decreases n
  {
    hide StopsAt;
    if Stops(regs, a) {
      StopsHere(regs, a);
    } else {
      var next := Wrap(a + 2 + regs[a + 1]);
      WalkStopsOrNot(regs, next, n - 1);
      var m: nat, b: word :| StopsAt(regs, next, m, b);
      StopsLater(regs, a, m, b);
    }
  }

  // The discovery.

  /** The unit that decides. */
  ghost predicate FirstUnit(bus: map<byte, Registers>, k: nat) {
    && k < |UnitIds.IDS| && !PassedOver(bus, UnitIds.IDS[k])
    && forall j :: 0 <= j < k ==> PassedOver(bus, UnitIds.IDS[j])
  }

  /** The deciding unit is a SunSpec device, whose first model entry is at `a`. */
  ghost predicate Enters(bus: map<byte, Registers>, k: nat, a: word) {
    && FirstUnit(bus, k) && UnitIds.IDS[k] in bus
    && exists headerLength: word ::
         HasHeader(bus[UnitIds.IDS[k]], headerLength) && a == Wrap(COMMON_ADDRESS + headerLength)
  }

  datatype Outcome = Connects | Closes | Stalls | WalksForEver

  /** The registers of the bus have it that discovery comes out like this. */
  ghost predicate Decides(bus: map<byte, Registers>, o: Outcome) {
    match o
    case Connects =>
      exists k: nat, a: word, n: nat, b: word ::
        Enters(bus, k, a) && StopsAt(bus[UnitIds.IDS[k]], a, n, b) && EndMark(bus[UnitIds.IDS[k]], b)
    case Closes =>
      || (forall j :: 0 <= j < |UnitIds.IDS| ==> PassedOver(bus, UnitIds.IDS[j]))
      || exists k: nat :: FirstUnit(bus, k) && Foreign(bus, UnitIds.IDS[k])
    case Stalls =>
      exists k: nat, a: word, n: nat, b: word ::
        Enters(bus, k, a) && StopsAt(bus[UnitIds.IDS[k]], a, n, b) && !EndMark(bus[UnitIds.IDS[k]], b)
    case WalksForEver =>
      exists k: nat, a: word ::
        Enters(bus, k, a) && forall n: nat :: WalkAddress(bus[UnitIds.IDS[k]], a, n).Some?
  }

  ghost predicate LastIs(notices: seq<Notice>, n: Notice) {
    notices != [] && notices[|notices| - 1] == n
  }

  ghost predicate IsWalking(sys: System) {
    exists a: word :: In(sys, Walking(a))
  }

  /**
   After `n` replies it has come out like this: the client has connected, or closed; or it waits, still listed,
   for a reply to nothing; or it asks for one model entry after the other from then on.
   */
  ghost predicate ComesOut(bus: map<byte, Registers>, o: Outcome, n: nat) {
    var sys := Iterate(Start(), bus, n);
    match o
    case Connects => In(sys, Finished) && LastIs(sys.notices, Connected)
    case Closes => In(sys, Finished) && LastIs(sys.notices, Closed)
    case Stalls => In(sys, Waiting)
    case WalksForEver => forall m: nat :: m >= n ==> IsWalking(Iterate(Start(), bus, m))
  }

  lemma UnitsFrom(bus: map<byte, Registers>, i: nat) returns (k: nat)
    requires i <= |UnitIds.IDS| && forall j :: 0 <= j < i ==> PassedOver(bus, UnitIds.IDS[j])
    ensures FirstUnit(bus, k) || forall j :: 0 <= j < |UnitIds.IDS| ==> PassedOver(bus, UnitIds.IDS[j])
    decreases |UnitIds.IDS| - i
  {
    hide UnitIds.IDS, PassedOver;
    k := i;
    if i < |UnitIds.IDS| && PassedOver(bus, UnitIds.IDS[i]) {
      k := UnitsFrom(bus, i + 1);
    }
  }

  lemma EveryBusDecides(bus: map<byte, Registers>) returns (o: Outcome)
    ensures Decides(bus, o)
  {
    hide UnitIds.IDS, PassedOver, Foreign, HasHeader, StopsAt, EndMark, WalkAddress;
    var k := UnitsFrom(bus, 0);
    if forall j :: 0 <= j < |UnitIds.IDS| ==> PassedOver(bus, UnitIds.IDS[j]) {
      return Closes;
    }
    assert FirstUnit(bus, k);
    var unit := UnitIds.IDS[k];
    UnitsAreOfThreeKinds(bus, unit);
    if Foreign(bus, unit) {
      return Closes;
    }
    var headerLength: word :| HasHeader(bus[unit], headerLength);
    var a := Wrap(COMMON_ADDRESS + headerLength);
    assert Enters(bus, k, a);
    if n: nat :| WalkAddress(bus[unit], a, n).None? {
      WalkStopsOrNot(bus[unit], a, n);
      var m: nat, b: word :| StopsAt(bus[unit], a, m, b);
      return if EndMark(bus[unit], b) then Connects else Stalls;
    }
    return WalksForEver;
  }

  /** The deciding unit is asked for its first model entry. */
  lemma {:induction false} EntersWalk(bus: map<byte, Registers>, k: nat, a: word) returns (n: nat)
    requires Enters(bus, k, a)
    ensures n == |AskedBetween(bus, 0, k)| + 2
    ensures var sys := Iterate(Start(), bus, n);
            In(sys, Walking(a)) && sys.client.unitId == UnitIds.IDS[k]
  {
    hide UnitIds.IDS, In, Serve, Iterate, Start, PassedOver, ReadAt, Readable, Common, SunSpecId, Slug, TextAt,
         AskedBetween, Refusals;
    var headerLength: word :| HasHeader(bus[UnitIds.IDS[k]], headerLength) && a == Wrap(COMMON_ADDRESS + headerLength);
    FirstCandidateUnit(bus, k);
    var before := |AskedBetween(bus, 0, k)|;
    var probed := Iterate(Start(), bus, before);
    HeaderServed(probed, bus);
    CommonServed(Serve(probed, bus), bus);
    TwoServes(probed, bus);
    IterateInTwo(Start(), bus, before, 2);
    n := before + 2;
  }

  lemma {:induction false} EnteredWalkEnds(bus: map<byte, Registers>, k: nat, a: word, n: nat, b: word)
    returns (m: nat)
    requires Enters(bus, k, a) && StopsAt(bus[UnitIds.IDS[k]], a, n, b)
    ensures ComesOut(bus, if EndMark(bus[UnitIds.IDS[k]], b) then Connects else Stalls, m)
  {
    hide UnitIds.IDS, In, Iterate, Start, StopsAt, PassedOver, EndMark, Readable;
    var before := EntersWalk(bus, k, a);
    var walking := Iterate(Start(), bus, before);
    WalkEnds(walking, bus, a, n, b);
    IterateInTwo(Start(), bus, before, n + 1);
    m := before + (n + 1);
  }

  lemma {:induction false} EnteredWalkGoesOn(bus: map<byte, Registers>, k: nat, a: word) returns (n: nat)
    requires Enters(bus, k, a) && forall n: nat :: WalkAddress(bus[UnitIds.IDS[k]], a, n).Some?
    ensures ComesOut(bus, WalksForEver, n)
  {
    hide UnitIds.IDS, In, Iterate, Start, PassedOver, WalkAddress;
    n := EntersWalk(bus, k, a);
    var walking := Iterate(Start(), bus, n);
    forall m: nat | m >= n
      ensures IsWalking(Iterate(Start(), bus, m))
    {
      var b := WalkAddress(bus[UnitIds.IDS[k]], a, m - n).value;
      WalkReaches(walking, bus, a, m - n, b);
      IterateInTwo(Start(), bus, n, m - n);
      assert n + (m - n) == m;
    }
  }

  lemma {:induction false} DecisionComesOut(bus: map<byte, Registers>, o: Outcome) returns (n: nat)
    requires Decides(bus, o)
    ensures ComesOut(bus, o, n)
  {
    hide UnitIds.IDS, In, Iterate, Start, HasHeader, StopsAt, EndMark, WalkAddress, PassedOver, Foreign, AskedBetween,
         AskedMore, Refusals;
    match o
    case Connects =>
      var k: nat, a: word, m: nat, b: word :|
        Enters(bus, k, a) && StopsAt(bus[UnitIds.IDS[k]], a, m, b) && EndMark(bus[UnitIds.IDS[k]], b);
      n := EnteredWalkEnds(bus, k, a, m, b);
    case Stalls =>
      var k: nat, a: word, m: nat, b: word :|
        Enters(bus, k, a) && StopsAt(bus[UnitIds.IDS[k]], a, m, b) && !EndMark(bus[UnitIds.IDS[k]], b);
      n := EnteredWalkEnds(bus, k, a, m, b);
    case WalksForEver =>
      var k: nat, a: word :| Enters(bus, k, a) && forall n: nat :: WalkAddress(bus[UnitIds.IDS[k]], a, n).Some?;
      n := EnteredWalkGoesOn(bus, k, a);
    case Closes =>
      n := CloseComesOut(bus);
  }

  lemma {:induction false} CloseComesOut(bus: map<byte, Registers>) returns (n: nat)
    requires Decides(bus, Closes)
    ensures ComesOut(bus, Closes, n)
  {
    hide UnitIds.IDS, In, Iterate, Start, PassedOver, Foreign, AskedBetween, AskedMore, Refusals;
    if k: nat :| FirstUnit(bus, k) && Foreign(bus, UnitIds.IDS[k]) {
      DiscoveryStopsAtForeignUnit(bus, k);
      n := |AskedBetween(bus, 0, k)| + 1;
    } else {
      AllUnitsArePassedOver(bus);
      DiscoveryGivesUp(bus);
      n := |AskedBetween(bus, 0, 246)| + (|AskedMore(bus, UnitIds.IDS[246])| + 1);
    }
  }

  lemma AllUnitsArePassedOver(bus: map<byte, Registers>)
    requires forall j :: 0 <= j < |UnitIds.IDS| ==> PassedOver(bus, UnitIds.IDS[j])
    ensures forall unit :: 1 <= unit <= 247 ==> PassedOver(bus, unit)
  {
    UnitIds.IdsArePermutation();
    hide UnitIds.IDS, PassedOver;
    forall unit | 1 <= unit <= 247
      ensures PassedOver(bus, unit)
    {
      assert UnitIds.IDS[UnitIds.Position(unit)] == unit;
    }
  }

  // Nothing else can come out.

  lemma {:induction false} SilenceLasts(sys: System, bus: map<byte, Registers>, n: nat)
    requires Silent(sys)
    ensures Iterate(sys, bus, n) == sys
    decreases n
  {
    hide OnFrame;
    if n > 0 {
      SilenceLasts(sys, bus, n - 1);
    }
  }

  lemma {:induction false} OutcomeLasts(bus: map<byte, Registers>, o: Outcome, n: nat, m: nat)
    requires ComesOut(bus, o, n) && m >= n
    ensures ComesOut(bus, o, m)
  {
    hide UnitIds.IDS, Start, Iterate;
    if !o.WalksForEver? {
      SilenceLasts(Iterate(Start(), bus, n), bus, m - n);
      IterateInTwo(Start(), bus, n, m - n);
      assert n + (m - n) == m;
    }
  }

  lemma PhasesExclude(sys: System, a: word)
    ensures !(In(sys, Finished) && In(sys, Waiting))
    ensures !(In(sys, Finished) && In(sys, Walking(a))) && !(In(sys, Waiting) && In(sys, Walking(a)))
  {
    hide UnitIds.IDS;
    if In(sys, Walking(a)) {
      assert sys.modbus.lastId in sys.net;
    }
  }

  lemma OutcomesExclude(bus: map<byte, Registers>, o: Outcome, o': Outcome, n: nat)
    requires ComesOut(bus, o, n) && ComesOut(bus, o', n)
    ensures o == o'
  {
    hide In, Start, Iterate;
    var sys := Iterate(Start(), bus, n);
    forall a: word
      ensures !(In(sys, Finished) && In(sys, Waiting))
      ensures !(In(sys, Finished) && In(sys, Walking(a))) && !(In(sys, Waiting) && In(sys, Walking(a)))
    {
      PhasesExclude(sys, a);
    }
    PhasesExclude(sys, 0);
  }

  /**
   On every bus discovery comes out in exactly one way, and the registers say in which: it connects if the
   walk of the first unit that is not passed over ends at an end mark; it closes if all units are passed over,
   or that unit is foreign; it stalls, with the client listed for ever, neither published nor dropped, if and
   only if that walk comes to an entry which the device refuses to have read, or to address 63000; and else
   the walk never ends.
   */
  lemma OutcomeIsDecided(bus: map<byte, Registers>)
    ensures exists o :: Decides(bus, o)
    ensures forall o :: Decides(bus, o) <==> exists n: nat :: ComesOut(bus, o, n)
    ensures forall o, o' :: Decides(bus, o) && Decides(bus, o') ==> o == o'
  {
    hide Decides, ComesOut;
    var d := EveryBusDecides(bus);
    var nd := DecisionComesOut(bus, d);
    forall o, n: nat | ComesOut(bus, o, n)
      ensures o == d
    {
      var m := if n > nd then n else nd;
      OutcomeLasts(bus, o, n, m);
      OutcomeLasts(bus, d, nd, m);
      OutcomesExclude(bus, o, d, m);
    }
    forall o | Decides(bus, o)
      ensures exists n: nat :: ComesOut(bus, o, n)
    {
      var n := DecisionComesOut(bus, o);
    }
  }
}
