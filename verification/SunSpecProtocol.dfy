/**
 What the handlers of SunSpecClient.cpp do: the client they leave, the requests they issue and the
 events they publish.
 */
module SunSpecProtocol {
  import opened Wire
  import opened ModbusFrame
  import opened ModbusClient
  import opened SunSpecModels
  import UnitIds

  const VALID_START: word := 40000
  const VALID_END: word := 49999
  const READ_HEADER: word := 63000
  const COMMON_ADDRESS: word := 40004

  /** The fields of a client. A block address is where the payload starts, and its length. */
  datatype Client = Client(unitId: byte, unitIdx: nat, headerLength: word, manufacturer: seq<byte>,
                           product: seq<byte>, serial: seq<byte>, sunSpecId: seq<byte>,
                           blockAddresses: map<word, (word, word)>, models: map<word, Model>)

  const NEW_CLIENT := Client(0, 0, 0, [], [], [], [], map[], map[])

  datatype Notice =
    | Closed
    | Connected
    | Failed
    | Excepted(unitId: byte, exceptionCode: byte)
    | ModelRead(model: Model)

  /** A notice that makes the discovery take the client and detach its listeners. */
  predicate Ends(n: Notice) {
    n.Closed? || n.Connected? || n.Failed?
  }

  datatype Effect = Effect(client: Client, requests: seq<ReadRequest>, notices: seq<Notice>)

  function Quiet(c: Client): Effect {
    Effect(c, [], [])
  }

  function Ask(c: Client, q: ReadRequest): Effect {
    Effect(c, [q], [])
  }

  function Notify(c: Client, n: Notice): Effect {
    Effect(c, [], [n])
  }

  // Probing.

  function HeaderRequest(unitId: byte): ReadRequest {
    ReadRequest(unitId, VALID_START, 4, READ_HEADER)
  }

  function NextUnit(c: Client): Client
    requires c.unitIdx < |UnitIds.IDS|
  {
    c.(unitId := UnitIds.IDS[c.unitIdx], unitIdx := c.unitIdx + 1)
  }

  function Probe(c: Client): Effect {
    if c.unitIdx >= |UnitIds.IDS| then Notify(c, Closed)
    else Ask(NextUnit(c), HeaderRequest(NextUnit(c).unitId))
  }

  // Blocks.

  function EntryRequest(c: Client, address: word): ReadRequest {
    ReadRequest(c.unitId, address, 2, address)
  }

  /** A block of two registers is never read: its reply would pass for a model entry. */
  function ReadBlock(c: Client, modelId: word, address: word, length: word): Effect {
    if length == 2 then Quiet(c) else Ask(c, ReadRequest(c.unitId, address, length, modelId))
  }

  predicate ValidHeader(values: seq<word>) {
    |values| >= 4 && values[0] == 0x5375 && values[1] == 0x6E53 && values[2] == 1
    && (values[3] == 65 || values[3] == 66)
  }

  function OnHeader(c: Client, values: seq<word>): Effect {
    if |values| < 4 then Quiet(c)
    else
      var read := c.(headerLength := values[3]);
      if ValidHeader(values) then ReadBlock(read, COMMON, COMMON_ADDRESS, values[3])
      else Notify(read, Closed)
  }

  function Capped(modelId: word, length: word): word {
    if modelId == INVERTER_MPPT_EXTENSION && length > 48 then 48 else length
  }

  function AddModelAddress(c: Client, modelId: word, start: word, length: word): Client {
    c.(blockAddresses := c.blockAddresses[modelId := (start, Capped(modelId, length))])
  }

  function OnModelEntry(c: Client, userData: word, values: seq<word>): Effect
    requires |values| == 2
  {
    if values[0] != 0xFFFF then
      var added := AddModelAddress(c, values[0], Wrap(userData + 2), values[1]);
      Ask(added, EntryRequest(added, Wrap(userData + 2 + values[1])))
    else Notify(c, Connected)
  }

  /** Lower case, with everything but letters and digits replaced by an underscore. */
  function Slug(s: seq<byte>): seq<byte> {
    seq<byte>(|s|, i requires 0 <= i < |s| =>
      if 65 <= s[i] <= 90 then s[i] + 32
      else if 97 <= s[i] <= 122 || 48 <= s[i] <= 57 then s[i]
      else 95)
  }

  function TextAt(m: Model, p: DataPoint): seq<byte> {
    if p in m.values && m.values[p].Text? then m.values[p].text else []
  }

  function SunSpecId(m: Model): (id: seq<byte>)
    ensures id != []
  {
    Slug(TextAt(m, Manufacturer)) + [95] + Slug(TextAt(m, Product)) + [95] + Slug(TextAt(m, Serial))
  }

  /** The client of the device that this common model describes. */
  function Named(c: Client, m: Model): Client {
    c.(manufacturer := Slug(TextAt(m, Manufacturer)), product := Slug(TextAt(m, Product)),
       serial := Slug(TextAt(m, Serial)), sunSpecId := SunSpecId(m))
  }

  function ParseBlock(c: Client, modelId: word, values: seq<word>): Effect {
    if modelId == COMMON then
      var common := Common(Entry(c.models, COMMON), values);
      var known := c.(models := c.models[COMMON := common]);
      Quiet(if CommonSize(|values|) then Named(known, common) else known)
    else
      var parsed := c.(models := Updated(c.models, modelId, values));
      if Updates(modelId, values) then Notify(parsed, ModelRead(parsed.models[modelId])) else Quiet(parsed)
  }

  function OnBlock(c: Client, userData: word, values: seq<word>): Effect {
    var parsed := ParseBlock(c, userData, values);
    if userData != COMMON then parsed
    else
      parsed.(requests := [EntryRequest(parsed.client, Wrap(COMMON_ADDRESS + parsed.client.headerLength))])
  }

  /** Which handler a reply reaches: that depends on its user data and its size alone. */
  datatype Route = ToHeader | ToEntry | ToBlock

  function RouteOf(userData: word, size: nat): Route {
    if userData == READ_HEADER then ToHeader else if size == 2 then ToEntry else ToBlock
  }

  function OnReply(c: Client, userData: word, values: seq<word>): Effect {
    match RouteOf(userData, |values|)
    case ToHeader => OnHeader(c, values)
    case ToEntry => OnModelEntry(c, userData, values)
    case ToBlock => OnBlock(c, userData, values)
  }

  /** An exception is passed on; the discovery, while it listens, then probes the next unit. */
  function React(c: Client, listed: bool, event: Event): Effect {
    match event
    case Exception(unitId, code) =>
      if listed && c.sunSpecId == [] then Probe(c).(notices := [Excepted(unitId, code)] + Probe(c).notices)
      else Notify(c, Excepted(unitId, code))
    case Reply(r) => OnReply(c, r.userData, r.values)
  }

  /** What a user does with a discovered client. */
  function ReadModel(c: Client, modelId: word): Effect {
    if modelId in c.blockAddresses
    then ReadBlock(c, modelId, c.blockAddresses[modelId].0, c.blockAddresses[modelId].1)
    else Quiet(c)
  }

  predicate StillListed(listed: bool, notices: seq<Notice>) {
    listed && forall i :: 0 <= i < |notices| ==> !Ends(notices[i])
  }

  lemma ListedInTurn(listed: bool, a: seq<Notice>, b: seq<Notice>)
    ensures StillListed(listed, a + b) == StillListed(StillListed(listed, a), b)
  {
    if StillListed(listed, a + b) {
      assert forall i :: 0 <= i < |a| ==> a[i] == (a + b)[i];
      assert forall i :: 0 <= i < |b| ==> b[i] == (a + b)[|a| + i];
    }
  }

  /** A handler issues at most one request, publishes at most one ending notice, and that one last. */
  lemma EffectsAreSmall(c: Client, listed: bool, event: Event)
    ensures var e := React(c, listed, event);
            && |e.requests| <= 1
            && |e.notices| <= 2
            && (forall i :: 0 <= i < |e.notices| - 1 ==> !Ends(e.notices[i]))
            && (e.notices != [] && Ends(e.notices[|e.notices| - 1]) ==> e.requests == [])
  {
    hide Common, Updated, SunSpecId, UnitIds.IDS;
  }
}
