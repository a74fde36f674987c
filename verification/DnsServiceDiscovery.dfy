/**
 Service discovery over multicast DNS, as DnsServiceDiscovery.cpp does it.
 */
module DnsServiceDiscovery {
  import opened Wire
  import opened Strings
  import opened DnsParser
  import opened DnsMessage
  import opened DnsEncoder
  import opened DnsRoundTrip

  datatype MdnsResponse = MdnsResponse(serviceName: seq<byte>, ptrData: seq<byte>, aData: Option<nat>,
                                       srvData: Option<SrvData>, txtData: Option<(byte, seq<byte>)>)

  /** What becomes of a datagram. */
  datatype Outcome = Ignored | NeverReturns | Published(response: MdnsResponse)

  predicate EndsWith(s: seq<byte>, suffix: seq<byte>) {
    |suffix| <= |s| && s[|s| - |suffix|..] == suffix
  }

  /** The name with its trailing dot. */
  function Normalised(name: seq<byte>): seq<byte> {
    if EndsWith(name, [DOT]) then name else name + [DOT]
  }

  /** `substr(0, size() - 1)`. */
  function WithoutLast(name: seq<byte>): seq<byte> {
    if name == [] then [] else name[..|name| - 1]
  }

  function ServiceQuery(name: seq<byte>): DnsMessage {
    DnsMessage(NO_FLAGS, [DnsQuestion(WithoutLast(name), TYPE_PTR, CLASS_INTERNET)], [], [], [])
  }

  /** A message that asks for the PTR records of `name` and says nothing else. */
  function ServiceRead(name: seq<byte>): DnsMessage {
    DnsMessage(NO_FLAGS, [DnsQuestion(name, TYPE_PTR, CLASS_INTERNET)], [], [], [])
  }

  // What a record of each kind contributes to a response.

  function PickHost(d: RecordData): Option<seq<byte>> {
    if d.HostName? then Some(d.host) else None
  }

  function PickIpv4(d: RecordData): Option<nat> {
    if d.Ipv4? then Some(d.ipv4) else None
  }

  function PickSrv(d: RecordData): Option<SrvData> {
    if d.Srv? then Some(d.srv) else None
  }

  function PickTxt(d: RecordData): Option<(byte, seq<byte>)> {
    if d.Txt? then Some((d.length, d.txt)) else None
  }

  /** The data of the last record of a kind whose name ends with the service name. */
  function Last<T>(name: seq<byte>, records: seq<DnsResourceRecord>, pick: RecordData -> Option<T>): Option<T>
    decreases |records|
  {
    if records == [] then None
    else
      var r := records[|records| - 1];
      if EndsWith(r.name, name) && pick(r.data).Some? then pick(r.data)
      else Last(name, records[..|records| - 1], pick)
  }

  /** The records of a response that count: it must be one, and must have answers. */
  function Considered(parsed: Parse<DnsMessage>): seq<DnsResourceRecord> {
    if parsed.Parsed? && parsed.value.header.isResponse && parsed.value.answers != []
    then parsed.value.answers + parsed.value.authorityAnswers + parsed.value.additionalAnswers
    else []
  }

  class DnsServiceDiscovery {
    var name: seq<byte>

    constructor (service: seq<byte>)
      ensures name == Normalised(service)
    {
      name := service;
      new;
      if !EndsWith(name, [DOT]) {
        name := name + [DOT];
      }
    }

    /**
     The datagram that `discover` sends. When its labels can be sent, it reads back as asking for
     exactly the stored name, and nothing else.
     */
    method Discover() returns (buffer: seq<byte>)
      ensures EndsWith(name, [DOT]) && Query(ServiceQuery(name)) ==>
                forall mem :: buffer <= mem ==> Message(mem, |buffer|) == Parsed(ServiceRead(name), |buffer|)
    {
      hide Encoded, Message, Query;
      var question := DnsQuestion(WithoutLast(name), TYPE_PTR, CLASS_INTERNET);
      var message := DnsMessage(NO_FLAGS, [question], [], [], []);
      buffer := ToBuffer(message);
      if EndsWith(name, [DOT]) && Query(message) {
        assert WithoutLast(name) + [DOT] == name;
        forall mem | buffer <= mem
          ensures Message(mem, |buffer|) == Parsed(ServiceRead(name), |buffer|)
        {
          QueryRoundTrip(message, mem);
        }
      }
    }

    /** What the listener makes of a datagram of `size` bytes. */
    method OnDatagram(mem: Memory, size: nat) returns (r: Outcome)
      ensures r.NeverReturns? <==> Message(mem, size).Diverges?
      ensures !r.NeverReturns? ==>
                var seen := Considered(Message(mem, size));
                r == if Last(name, seen, PickHost).None? then Ignored
                     else Published(MdnsResponse(name, Last(name, seen, PickHost).value, Last(name, seen, PickIpv4),
                                                 Last(name, seen, PickSrv), Last(name, seen, PickTxt)))
    {
      hide Message;
      var message := FromBuffer(mem, size);
      if message.Diverges? {
        return NeverReturns;
      }
      if !message.Parsed? || !message.value.header.isResponse || message.value.answers == [] {
        return Ignored;
      }
      var ptrData: Option<seq<byte>>, aData: Option<nat> := None, None;
      var srvData: Option<SrvData>, txtData: Option<(byte, seq<byte>)> := None, None;
      var m := message.value;
      var records := m.answers + m.authorityAnswers + m.additionalAnswers;
      for i := 0 to |records|
        invariant ptrData == Last(name, records[..i], PickHost) && aData == Last(name, records[..i], PickIpv4)
        invariant srvData == Last(name, records[..i], PickSrv) && txtData == Last(name, records[..i], PickTxt)
      {
        var a := records[i];
        assert records[..i + 1][..i] == records[..i];
        if EndsWith(a.name, name) {
          match a.data
          case HostName(host) => ptrData := Some(host);
          case Ipv4(ipv4) => aData := Some(ipv4);
          case Srv(srv) => srvData := Some(srv);
          case Txt(length, txt) => txtData := Some((length, txt));
          case OctetStream(_) =>
        }
      }
      assert records[..|records|] == records;
      if ptrData.None? {
        return Ignored;
      }
      return Published(MdnsResponse(name, ptrData.value, aData, srvData, txtData));
    }
  }

  lemma {:induction false} PartsEndEmpty(s: seq<byte>, d: byte)
    requires s != [] && s[|s| - 1] == d
    ensures var parts := Parts(s, d); parts[|parts| - 1] == []
  {
    if |s| > 1 {
      PartsEndEmpty(s[1..], d);
      PartsLength(s[1..], d, |s| - 2);
    }
  }

  lemma {:induction false} PartsLength(s: seq<byte>, d: byte, k: nat)
    requires k < |s| && s[k] == d
    ensures |Parts(s, d)| > 1
  {
    if k > 0 {
      PartsLength(s[1..], d, k - 1);
    }
  }

  /** A name of labels of 1 to 63 bytes that the encoder's 16-bit offset can reach past. */
  ghost predicate SendableName(name: seq<byte>) {
    SendableLabels(Parts(name, DOT)) && HEADER_SIZE + |WireLabels(Parts(name, DOT))| + 1 < 0x1_0000
  }

  /** A sendable service name is asked for in the same way with and without its trailing dot. */
  lemma EitherSpelling(bare: seq<byte>, service: seq<byte>)
    requires SendableName(bare) && (service == bare || service == bare + [DOT])
    ensures Normalised(service) == bare + [DOT]
    ensures Query(ServiceQuery(Normalised(service)))
  {
    if EndsWith(bare, [DOT]) {
      assert bare[|bare| - 1] == DOT;
      PartsEndEmpty(bare, DOT);
      assert false;
    }
    assert EndsWith(bare + [DOT], [DOT]);
    assert WithoutLast(bare + [DOT]) == bare;
  }
}
