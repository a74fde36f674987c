/**
 SunSpecDiscovery.cpp: the candidates that a discovery holds, until it takes each of them out at the first
 notice that ends its discovery. Nothing is assumed of the devices here: any frame may arrive at any time.
 */
module SunSpecDiscovery {
  import opened Wire
  import opened ModbusFrame
  import opened ModbusClient
  import opened SunSpecModels
  import opened SunSpecProtocol
  import opened SunSpecClient
  import opened SunSpecSystem
  import UnitIds

  // The list of candidates.

  /** The list without the first occurrence of `x`. */
  function Without<T(==)>(s: seq<T>, x: T): seq<T> {
    if s == [] then [] else if s[0] == x then s[1..] else [s[0]] + Without(s[1..], x)
  }

  lemma {:induction false} WithoutFirst<T>(s: seq<T>, x: T, i: nat)
    requires i < |s| && s[i] == x && x !in s[..i]
    ensures Without(s, x) == s[..i] + s[i + 1..]
  {
    if i > 0 {
      assert s[0] in s[..i];
      assert x !in s[1..][..i - 1] by {
        assert s[1..][..i - 1] == s[..i][1..];
      }
      WithoutFirst(s[1..], x, i - 1);
      assert s[1..][i..] == s[i + 1..];
    }
  }

  lemma {:induction false} WithoutTakesOne<T>(s: seq<T>, x: T)
    requires x in s
    ensures multiset(Without(s, x)) == multiset(s) - multiset{x} && |Without(s, x)| == |s| - 1
  {
    assert s == [s[0]] + s[1..];
    if s[0] != x {
      WithoutTakesOne(s[1..], x);
    }
  }

  /** What has become of the clients: still candidates, published to the user, or dropped. */
  datatype Lists<T> = Lists(candidates: seq<T>, published: seq<T>, dropped: seq<T>)

  /** A listener hears a notice of a candidate. `None` is a failed assertion of `takeCandidate`. */
  function Hear<T(==)>(l: Lists<T>, x: T, n: Notice): Option<Lists<T>> {
    if !Ends(n) then Some(l)
    else if x !in l.candidates then None
    else if n.Connected? then Some(Lists(Without(l.candidates, x), l.published + [x], l.dropped))
    else Some(Lists(Without(l.candidates, x), l.published, l.dropped + [x]))
  }

  /** The listeners hear the notices in turn, until they are detached. */
  function HearAll<T(==)>(l: Lists<T>, x: T, listed: bool, notices: seq<Notice>): Option<Lists<T>>
    decreases |notices|
  {
    if notices == [] || !listed then Some(l)
    else
      match Hear(l, x, notices[0])
      case None => None
      case Some(next) => HearAll(next, x, !Ends(notices[0]), notices[1..])
  }

  class SunSpecDiscovery {
    var candidates: seq<SunSpecClient>
    var published: seq<SunSpecClient>
    ghost var dropped: seq<SunSpecClient>

    ghost function Current(): Lists<SunSpecClient>
      reads this
    {
      Lists(candidates, published, dropped)
    }

    constructor ()
      ensures Current() == Lists([], [], [])
    {
      candidates, published, dropped := [], [], [];
    }

    /** The first probe of a new client always asks for a header; it has nothing to tell before it is listed. */
    method Discover(thing: ModbusClient) returns (candidate: SunSpecClient)
      requires thing.Valid()
      modifies this`candidates, thing, thing.request, thing.request.buffer
      ensures fresh(candidate) && candidate.Valid() && candidate.modbusClient == thing && candidate.listed
      ensures candidate.Performed(Probe(NEW_CLIENT), old(thing.Current()), [], true) && candidate.published == []
      ensures Current() == old(Current()).(candidates := old(candidates) + [candidate])
    {
      hide UnitIds.IDS;
      FirstProbe();
      candidate := new SunSpecClient(thing);
      candidate.ProbeNextUnitId();
      candidates := candidates + [candidate];
    }

    method TakeCandidate(candidate_: SunSpecClient) returns (candidate: SunSpecClient)
      requires candidate_ in candidates
      modifies this`candidates, candidate_`listed
      ensures candidate == candidate_ && !candidate.listed
      ensures candidates == Without(old(candidates), candidate_)
    {
      var it := 0;
      while it < |candidates| && candidates[it] != candidate_
        invariant it <= |candidates| && candidate_ !in candidates[..it]
      {
        it := it + 1;
      }
      assert it != |candidates| by {
        assert candidates[..|candidates|] == candidates;
      }
      candidate := candidates[it];
      WithoutFirst(candidates, candidate_, it);
      candidates := candidates[..it] + candidates[it + 1..];
      candidate.listed := false;
    }

    /** The listeners for the close, connect and error events of a candidate. */
    method OnNotice(candidate: SunSpecClient, n: Notice)
      requires Ends(n) ==> candidate in candidates
      modifies this, candidate`listed
      ensures Some(Current()) == Hear(old(Current()), candidate, n)
      ensures candidate.listed == (old(candidate.listed) && !Ends(n))
    {
      match n
      case Closed =>
        var taken := TakeCandidate(candidate);
        dropped := dropped + [taken];
      case Connected =>
        var taken := TakeCandidate(candidate);
        published := published + [taken];
      case Failed =>
        var taken := TakeCandidate(candidate);
        dropped := dropped + [taken];
      case _ =>
    }

    /** The notices reach the listeners in turn, as long as these are attached. */
    method OnNotices(candidate: SunSpecClient, notices: seq<Notice>)
      requires candidate.listed ==> candidate in candidates
      modifies this, candidate`listed
      ensures Some(Current()) == HearAll(old(Current()), candidate, old(candidate.listed), notices)
      ensures candidate.listed == StillListed(old(candidate.listed), notices)
    {
      hide Hear;
      var i := 0;
      assert notices[0..] == notices;
      while i < |notices| && candidate.listed
        invariant i <= |notices|
        invariant candidate.listed ==> candidate in candidates
        invariant HearAll(Current(), candidate, candidate.listed, notices[i..])
               == HearAll(old(Current()), candidate, old(candidate.listed), notices)
        invariant StillListed(candidate.listed, notices[i..]) == StillListed(old(candidate.listed), notices)
        decreases |notices| - i
      {
        assert notices[i..][1..] == notices[i + 1..] && notices[i..] == [notices[i]] + notices[i + 1..];
        ListedInTurn(candidate.listed, [notices[i]], notices[i + 1..]);
        assert [notices[i]][0] == notices[i];
        HearKeepsOthers(Current(), candidate, notices[i]);
        OnNotice(candidate, notices[i]);
        i := i + 1;
      }
    }

    /**
     Bytes arrive for a client. What they make it publish reaches the listeners; the last of that is the
     notice that ends the discovery, if any, and nothing is asked for after it.
     */
    method OnData(candidate: SunSpecClient, chunk: seq<byte>, beyond: seq<byte>)
      requires candidate.Valid() && (candidate.listed ==> candidate in candidates)
      modifies this, candidate, candidate.modbusClient, candidate.modbusClient.request,
               candidate.modbusClient.request.buffer
      ensures candidate.Valid()
      ensures match Completed(old(candidate.Modbus()), chunk, beyond)
              case None =>
                candidate.Current() == old(candidate.Current()) && candidate.published == old(candidate.published)
                && candidate.listed == old(candidate.listed) && Current() == old(Current())
                && candidate.Modbus() == Arrived(old(candidate.Modbus()), chunk)
              case Some(f) =>
                var e := React(old(candidate.Current()), old(candidate.listed),
                               Published(old(candidate.Modbus()).pending, f));
                && candidate.Current() == e.client && candidate.published == old(candidate.published) + e.notices
                && candidate.listed == StillListed(old(candidate.listed), e.notices)
                && candidate.Modbus() == Data(old(candidate.Modbus()), chunk, beyond, e.requests)
                && Some(Current()) == HearAll(old(Current()), candidate, old(candidate.listed), e.notices)
    {
      hide Completed, Published, React, HearAll, StillListed, Data;
      var before := |candidate.published|;
      candidate.OnData(chunk, beyond);
      var notices := candidate.published[before..];
      NothingHeard(Current(), candidate, candidate.listed);
      OnNotices(candidate, notices);
      assert Completed(old(candidate.Modbus()), chunk, beyond).None? ==> notices == [];
    }

    /** The connection of a client closes or breaks. */
    method OnEnd(candidate: SunSpecClient, n: Notice)
      requires n == Closed || n == Failed
      requires candidate.listed ==> candidate in candidates
      modifies this, candidate
      ensures candidate.Current() == old(candidate.Current())
      ensures candidate.published == old(candidate.published) + [n] && !candidate.listed
      ensures Some(Current()) == HearAll(old(Current()), candidate, old(candidate.listed), [n])
    {
      candidate.Publish(n);
      OnNotices(candidate, [n]);
      assert [n][0] == n;
    }
  }

  lemma NothingHeard<T>(l: Lists<T>, x: T, listed: bool)
    ensures HearAll(l, x, listed, []) == Some(l) && StillListed(listed, []) == listed
  {}

  lemma HearKeepsOthers<T>(l: Lists<T>, x: T, n: Notice)
    ensures !Ends(n) ==> Hear(l, x, n) == Some(l)
  {}

  lemma FirstProbe()
    ensures |UnitIds.IDS| == 247 && Probe(NEW_CLIENT).notices == []
  {
    UnitIds.IdsArePermutation();
    hide UnitIds.IDS;
  }

  // Whole runs of a discovery.

  /**
   What can happen to a client: any frame at all arrives, its connection ends, or someone who holds it reads a
   model or probes on.
   */
  datatype Happening = Arrives(f: Response) | HangsUp | Breaks | Reads(modelId: word) | Probes

  function Handled(sys: System, h: Happening): Effect {
    match h
    case Arrives(f) => React(sys.client, sys.listed, Published(sys.modbus.pending, f))
    case HangsUp => Notify(sys.client, Closed)
    case Breaks => Notify(sys.client, Failed)
    case Reads(modelId) => ReadModel(sys.client, modelId)
    case Probes => Probe(sys.client)
  }

  function Advance(sys: System, h: Happening): System {
    match h
    case Arrives(f) => OnFrame(sys, f)
    case _ => Perform(sys, Handled(sys, h))
  }

  lemma Advanced(sys: System, h: Happening)
    ensures var e := Handled(sys, h);
            && Advance(sys, h).client == e.client
            && Advance(sys, h).listed == StillListed(sys.listed, e.notices)
            && Advance(sys, h).asked == sys.asked + e.requests
            && Advance(sys, h).notices == sys.notices + e.notices
  {
    hide React, Published, RequestBytes;
  }

  datatype Move = Discover | Happens(k: nat, h: Happening)

  /** Every client ever created, and the lists of their numbers. */
  datatype Manager = Manager(clients: seq<System>, lists: Lists<nat>)

  const NEW_MANAGER := Manager([], Lists([], [], []))

  /** `None` is a failed assertion. A client is listed only after its first probe. */
  function Step(m: Manager, move: Move): Option<Manager> {
    match move
    case Discover =>
      var k := |m.clients|;
      (match HearAll<nat>(m.lists, k, true, Start().notices)
       case None => None
       case Some(l) => Some(Manager(m.clients + [Start()], l.(candidates := l.candidates + [k]))))
    case Happens(k, h) =>
      if k >= |m.clients| then Some(m)
      else
        var sys := m.clients[k];
        match HearAll<nat>(m.lists, k, sys.listed, Handled(sys, h).notices)
        case None => None
        case Some(l) => Some(Manager(m.clients[k := Advance(sys, h)], l))
  }

  function Run(moves: seq<Move>): Option<Manager>
    decreases |moves|
  {
    if moves == [] then Some(NEW_MANAGER)
    else
      match Run(moves[..|moves| - 1])
      case None => None
      case Some(m) => Step(m, moves[|moves| - 1])
  }

  /** The notice at which a discovery takes a client. */
  function FirstEnd(notices: seq<Notice>): Option<Notice> {
    if notices == [] then None
    else if Ends(notices[0]) then Some(notices[0])
    else FirstEnd(notices[1..])
  }

  lemma {:induction false} FirstEndOfSum(a: seq<Notice>, b: seq<Notice>)
    ensures FirstEnd(a + b) == if FirstEnd(a).Some? then FirstEnd(a) else FirstEnd(b)
  {
    if a == [] {
      assert a + b == b;
    } else {
      FirstEndOfSum(a[1..], b);
      assert (a + b)[1..] == a[1..] + b;
    }
  }

  lemma {:induction false} ListedUntilFirstEnd(listed: bool, notices: seq<Notice>)
    ensures StillListed(listed, notices) == (listed && FirstEnd(notices) == None)
    ensures FirstEnd(notices).Some? ==> Ends(FirstEnd(notices).value)
  {
    if notices != [] {
      ListedUntilFirstEnd(listed, notices[1..]);
      assert notices == [notices[0]] + notices[1..];
      ListedInTurn(listed, [notices[0]], notices[1..]);
      assert StillListed(listed, [notices[0]]) == (listed && !Ends([notices[0]][0]));
    }
  }

  /** Of all notices the discovery hears only the first one that ends. */
  lemma {:induction false} OnlyFirstEndIsHeard<T>(l: Lists<T>, x: T, notices: seq<Notice>)
    ensures HearAll(l, x, true, notices)
         == match FirstEnd(notices) case None => Some(l) case Some(n) => Hear(l, x, n)
    decreases |notices|
  {
    if notices != [] && !Ends(notices[0]) {
      OnlyFirstEndIsHeard(l, x, notices[1..]);
    }
  }

  datatype Fate = Absent | Candidate | Found | Lost

  /** A client's fate is sealed by its first ending notice. */
  function FateOf(clients: seq<System>, k: nat): Fate {
    if k >= |clients| then Absent
    else
      match FirstEnd(clients[k].notices)
      case None => Candidate
      case Some(n) => if n.Connected? then Found else Lost
  }

  function One(b: bool): nat {
    if b then 1 else 0
  }

  /** How often a client is in each of the lists. */
  ghost predicate Placed(l: Lists<nat>, k: nat, fate: Fate) {
    && multiset(l.candidates)[k] == One(fate == Candidate)
    && multiset(l.published)[k] == One(fate == Found)
    && multiset(l.dropped)[k] == One(fate == Lost)
  }

  /**
   Each client created is in exactly one of the lists, and there exactly once: a candidate as long as it is
   listened to and nothing has ended its discovery, published if it connected first, dropped if it closed
   or failed first.
   */
  ghost predicate Accounted(m: Manager) {
    && (forall k: nat :: Placed(m.lists, k, FateOf(m.clients, k)))
    && |m.lists.candidates| + |m.lists.published| + |m.lists.dropped| == |m.clients|
    && forall k: nat :: k < |m.clients| ==> (m.clients[k].listed <==> FateOf(m.clients, k) == Candidate)
  }

  /** Hearing the end moves a candidate from its list to the one it belongs to, and no other client. */
  lemma HearingMoves(l: Lists<nat>, x: nat, n: Notice)
    requires Placed(l, x, Candidate) && Ends(n)
    ensures Hear(l, x, n).Some?
    ensures var r := Hear(l, x, n).value;
            && Placed(r, x, if n.Connected? then Found else Lost)
            && (forall j: nat, fate :: j != x && Placed(l, j, fate) ==> Placed(r, j, fate))
            && |r.candidates| + |r.published| + |r.dropped| == |l.candidates| + |l.published| + |l.dropped|
  {
    assert x in multiset(l.candidates);
    WithoutTakesOne(l.candidates, x);
  }

  lemma DiscoverKeepsAccount(m: Manager)
    requires Accounted(m)
    ensures Step(m, Discover).Some? && Accounted(Step(m, Discover).value)
  {
    hide Start;
    StartListens();
    var after := Step(m, Discover).value;
    var n := |m.clients|;
    forall k: nat
      ensures Placed(after.lists, k, FateOf(after.clients, k))
      ensures k < n ==> FateOf(after.clients, k) == FateOf(m.clients, k)
    {
      assert Placed(m.lists, k, FateOf(m.clients, k));
    }
  }

  lemma StartListens()
    ensures Start().listed && Start().notices == []
  {
    StartIsProbing();
    hide UnitIds.IDS;
  }

  /** A client that goes on as it was, in the same list. */
  lemma SameFate(m: Manager, k: nat, sys: System)
    requires Accounted(m) && k < |m.clients|
    requires FirstEnd(sys.notices) == FirstEnd(m.clients[k].notices) && sys.listed == m.clients[k].listed
    ensures Accounted(Manager(m.clients[k := sys], m.lists))
  {
    hide FirstEnd, Placed;
    var after := Manager(m.clients[k := sys], m.lists);
    forall j: nat
      ensures Placed(after.lists, j, FateOf(after.clients, j))
      ensures FateOf(after.clients, j) == FateOf(m.clients, j)
      ensures j < |after.clients| ==> after.clients[j].listed == m.clients[j].listed
    {
      assert Placed(m.lists, j, FateOf(m.clients, j));
    }
  }

  /** A candidate that has met its end, and is taken from the list. */
  lemma TakenAtFirstEnd(m: Manager, k: nat, sys: System, n: Notice)
    requires Accounted(m) && k < |m.clients| && m.clients[k].listed && Ends(n)
    requires FirstEnd(sys.notices) == Some(n) && !sys.listed
    ensures Hear(m.lists, k, n).Some?
    ensures Accounted(Manager(m.clients[k := sys], Hear(m.lists, k, n).value))
  {
    hide FirstEnd, Hear, Placed;
    assert FateOf(m.clients, k) == Candidate;
    HearingMoves(m.lists, k, n);
    var after := Manager(m.clients[k := sys], Hear(m.lists, k, n).value);
    forall j: nat
      ensures Placed(after.lists, j, FateOf(after.clients, j))
      ensures j != k ==> FateOf(after.clients, j) == FateOf(m.clients, j)
    {
      assert Placed(m.lists, j, FateOf(m.clients, j));
    }
  }

  lemma HappeningKeepsAccount(m: Manager, k: nat, h: Happening)
    requires Accounted(m) && k < |m.clients|
    ensures Step(m, Happens(k, h)).Some? && Accounted(Step(m, Happens(k, h)).value)
  {
    hide Handled, Advance, Hear, HearAll, Accounted, FirstEnd;
    var sys := m.clients[k];
    var notices := Handled(sys, h).notices;
    Advanced(sys, h);
    FirstEndOfSum(sys.notices, notices);
    ListedUntilFirstEnd(sys.listed, notices);
    OnlyFirstEndIsHeard<nat>(m.lists, k, notices);
    NotListedHearsNothing<nat>(m.lists, k, notices);
    ListedMeansNoEnd(m, k);
    if sys.listed && FirstEnd(notices).Some? {
      TakenAtFirstEnd(m, k, Advance(sys, h), FirstEnd(notices).value);
    } else {
      SameFate(m, k, Advance(sys, h));
    }
  }

  lemma ListedMeansNoEnd(m: Manager, k: nat)
    requires Accounted(m) && k < |m.clients|
    ensures m.clients[k].listed <==> FirstEnd(m.clients[k].notices) == None
  {
    hide FirstEnd, Placed;
    assert m.clients[k].listed <==> FateOf(m.clients, k) == Candidate;
  }

  lemma NotListedHearsNothing<T>(l: Lists<T>, x: T, notices: seq<Notice>)
    ensures HearAll(l, x, false, notices) == Some(l)
  {}

  /** In every run of a discovery no assertion fails, and each client is accounted for. */
  lemma {:induction false} ClientsAreConserved(moves: seq<Move>)
    ensures Run(moves).Some? && Accounted(Run(moves).value)
    decreases |moves|
  {
    hide Accounted, Step;
    if moves == [] {
      NothingToAccount();
    } else {
      ClientsAreConserved(moves[..|moves| - 1]);
      var m := Run(moves[..|moves| - 1]).value;
      match moves[|moves| - 1]
      case Discover => DiscoverKeepsAccount(m);
      case Happens(k, h) =>
        if k < |m.clients| {
          HappeningKeepsAccount(m, k, h);
        } else {
          NoSuchClient(m, k, h);
        }
    }
  }

  lemma NothingToAccount()
    ensures Accounted(NEW_MANAGER)
  {}

  lemma NoSuchClient(m: Manager, k: nat, h: Happening)
    requires k >= |m.clients|
    ensures Step(m, Happens(k, h)) == Some(m)
  {}

  // Probing.

  /** The units that have been asked for a header. */
  function Probed(asked: seq<ReadRequest>): seq<byte>
    decreases |asked|
  {
    if asked == [] then []
    else
      var q := asked[|asked| - 1];
      Probed(asked[..|asked| - 1]) + if q == HeaderRequest(q.unitId) then [q.unitId] else []
  }

  /** The units have been probed in order, up to `unitIdx`, none twice. */
  ghost predicate ProbedInOrder(sys: System) {
    sys.client.unitIdx <= |UnitIds.IDS| && Probed(sys.asked) == UnitIds.IDS[..sys.client.unitIdx]
  }

  /** Whatever arrives, only an exception before the device is known makes a client probe, and just once. */
  lemma ReactProbesOnce(c: Client, listed: bool, event: Event)
    requires c.unitIdx <= |UnitIds.IDS|
    ensures var e := React(c, listed, event);
            if event.Exception? && listed && c.sunSpecId == [] && c.unitIdx < |UnitIds.IDS| then
              e.client == NextUnit(c) && e.requests == [HeaderRequest(UnitIds.IDS[c.unitIdx])]
            else
              && e.client.unitIdx == c.unitIdx && |e.requests| <= 1
              && forall q :: q in e.requests ==> q != HeaderRequest(q.unitId)
    ensures c.sunSpecId != [] ==> React(c, listed, event).client.sunSpecId != []
  {
    hide Common, Updated, SunSpecId, UnitIds.IDS;
  }

  lemma ProbedOneMore(asked: seq<ReadRequest>, q: ReadRequest)
    ensures Probed(asked + [q]) == Probed(asked) + if q == HeaderRequest(q.unitId) then [q.unitId] else []
  {
    assert (asked + [q])[..|asked|] == asked;
  }

  /** A read asks for a header if and only if the table has the payload of a model 63000 where headers are. */
  lemma ReadIsProbe(c: Client, modelId: word)
    ensures (exists q :: q in ReadModel(c, modelId).requests && q == HeaderRequest(q.unitId)) <==>
            modelId == READ_HEADER && modelId in c.blockAddresses && c.blockAddresses[modelId] == (VALID_START, 4)
    ensures ReadModel(c, modelId).client == c && |ReadModel(c, modelId).requests| <= 1
  {
    if modelId in c.blockAddresses && c.blockAddresses[modelId].1 != 2 {
      var q := ReadRequest(c.unitId, c.blockAddresses[modelId].0, c.blockAddresses[modelId].1, modelId);
      assert q in ReadModel(c, modelId).requests;
    }
  }

  lemma ProbeIsInOrder(c: Client)
    requires c.unitIdx <= |UnitIds.IDS|
    ensures var e := Probe(c);
            && e.client.sunSpecId == c.sunSpecId
            && if c.unitIdx < |UnitIds.IDS|
               then e.client == NextUnit(c) && e.requests == [HeaderRequest(UnitIds.IDS[c.unitIdx])]
               else e.client == c && e.requests == []
  {
    hide UnitIds.IDS;
  }

  /** Nobody reads a model 63000. */
  predicate Usual(h: Happening) {
    h.Reads? ==> h.modelId != READ_HEADER
  }

  lemma HandledProbesOnce(sys: System, h: Happening)
    requires ProbedInOrder(sys) && Usual(h)
    ensures ProbedInOrder(Advance(sys, h))
    ensures sys.client.sunSpecId != [] ==> Advance(sys, h).client.sunSpecId != []
    ensures sys.client.sunSpecId != [] && !h.Probes? ==> Probed(Advance(sys, h).asked) == Probed(sys.asked)
  {
    hide UnitIds.IDS, React, Published, Advance, OnFrame, Probed, Probe, ReadModel;
    Advanced(sys, h);
    var e := Handled(sys, h);
    match h {
      case Arrives(f) => ReactProbesOnce(sys.client, sys.listed, Published(sys.modbus.pending, f));
      case Reads(modelId) => ReadIsProbe(sys.client, modelId);
      case Probes => ProbeIsInOrder(sys.client);
      case _ =>
    }
    if e.requests == [] {
      assert sys.asked + [] == sys.asked;
    } else {
      assert e.requests == [e.requests[0]];
      ProbedOneMore(sys.asked, e.requests[0]);
    }
  }

  function Advances(sys: System, hs: seq<Happening>): System
    decreases |hs|
  {
    if hs == [] then sys else Advance(Advances(sys, hs[..|hs| - 1]), hs[|hs| - 1])
  }

  /**
   In every run of a client in which nobody reads a model 63000, each unit is probed at most once, in the
   strategic order. Once its common block has been read, and so its name is not empty, it keeps a name, and
   does not probe again unless it is told to.
   */
  lemma {:induction false} UnitsAreProbedInOrder(sys: System, hs: seq<Happening>)
    requires ProbedInOrder(sys) && forall i :: 0 <= i < |hs| ==> Usual(hs[i])
    ensures ProbedInOrder(Advances(sys, hs))
    ensures sys.client.sunSpecId != [] ==> Advances(sys, hs).client.sunSpecId != []
    ensures sys.client.sunSpecId != [] && Probes !in hs ==> Probed(Advances(sys, hs).asked) == Probed(sys.asked)
    decreases |hs|
  {
    hide Advance, ProbedInOrder, Probed;
    if hs != [] {
      var last := |hs| - 1;
      UnitsAreProbedInOrder(sys, hs[..last]);
      HandledProbesOnce(Advances(sys, hs[..last]), hs[last]);
      assert Probes !in hs ==> Probes !in hs[..last] && hs[last] != Probes;
    }
  }

  lemma StartProbesInOrder()
    ensures ProbedInOrder(Start())
  {
    StartIsProbing();
    UnitIds.IdsArePermutation();
    hide UnitIds.IDS, RequestBytes;
    var q := HeaderRequest(Start().client.unitId);
    ProbedOneMore([], q);
    assert [] + [q] == [q];
    assert UnitIds.IDS[..1] == [UnitIds.IDS[0]];
  }

  ghost predicate AllUsual(moves: seq<Move>) {
    forall i :: 0 <= i < |moves| && moves[i].Happens? ==> Usual(moves[i].h)
  }

  /** Every client of every discovery probes in order. */
  lemma {:induction false} EveryClientProbesInOrder(moves: seq<Move>)
    requires AllUsual(moves)
    ensures Run(moves).Some?
    ensures forall k :: 0 <= k < |Run(moves).value.clients| ==> ProbedInOrder(Run(moves).value.clients[k])
    decreases |moves|
  {
    hide ProbedInOrder, Advance, HearAll, Handled, Start, Accounted;
    ClientsAreConserved(moves);
    if moves != [] {
      EveryClientProbesInOrder(moves[..|moves| - 1]);
      var m := Run(moves[..|moves| - 1]).value;
      match moves[|moves| - 1]
      case Discover => StartProbesInOrder();
      case Happens(k, h) =>
        if k < |m.clients| {
          HandledProbesOnce(m.clients[k], h);
        }
    }
  }

  /** And once its name is known it does not probe again unless it is told to, whatever else happens. */
  lemma {:induction false} NamedClientsProbeNoMore(moves: seq<Move>, more: seq<Move>, k: nat)
    requires AllUsual(moves) && AllUsual(more) && Happens(k, Probes) !in more
    requires Run(moves).Some? && k < |Run(moves).value.clients|
    requires Run(moves).value.clients[k].client.sunSpecId != []
    ensures Run(moves + more).Some? && k < |Run(moves + more).value.clients|
    ensures var before, after := Run(moves).value.clients[k], Run(moves + more).value.clients[k];
            after.client.sunSpecId != [] && Probed(after.asked) == Probed(before.asked)
    decreases |more|
  {
    hide ProbedInOrder, Probed, Advance, HearAll, Handled, Start, Accounted;
    if more == [] {
      assert moves + more == moves;
    } else {
      var last := |more| - 1;
      assert more == more[..last] + [more[last]];
      NamedClientsProbeNoMore(moves, more[..last], k);
      assert (moves + more)[..|moves + more| - 1] == moves + more[..last];
      assert AllUsual(moves + more[..last]);
      ClientsAreConserved(moves + more);
      EveryClientProbesInOrder(moves + more[..last]);
      var m := Run(moves + more[..last]).value;
      match more[last]
      case Discover =>
      case Happens(j, h) =>
        if j == k {
          HandledProbesOnce(m.clients[k], h);
        }
    }
  }

  /** The ids that a client probes are distinct and lie between 1 and 247. */
  lemma ProbedUnitsAreDistinct(sys: System)
    requires ProbedInOrder(sys)
    ensures var ids := Probed(sys.asked);
            && (forall i :: 0 <= i < |ids| ==> 1 <= ids[i] <= 247)
            && forall i, j :: 0 <= i < j < |ids| ==> ids[i] != ids[j]
  {
    UnitIds.IdsArePermutation();
    hide UnitIds.IDS, Probed;
    assert forall i :: 0 <= i < |Probed(sys.asked)| ==> UnitIds.Position(Probed(sys.asked)[i]) == i;
  }

  /** A client closes for want of further units only after it has probed all 247. */
  lemma ExhaustionProbedAll(sys: System, f: Response)
    requires ProbedInOrder(sys) && Published(sys.modbus.pending, f).Exception?
    requires Closed in Handled(sys, Arrives(f)).notices
    ensures |Probed(sys.asked)| == 247 && forall id :: 1 <= id <= 247 ==> id in Probed(sys.asked)
  {
    UnitIds.IdsArePermutation();
    hide UnitIds.IDS, Probed;
    forall id | 1 <= id <= 247
      ensures id in Probed(sys.asked)
    {
      assert Probed(sys.asked)[UnitIds.Position(id)] == id;
    }
  }
}
