/**
 Parsing of DNS messages, as DnsMessage.cpp and DnsRecordDataSrv.cpp do it: sections 4.1.1 to 4.1.3
 of RFC 1035, with SRV data as in RFC 2782.
 */
module DnsMessage {
  import opened Wire
  import opened DnsParser

  const HEADER_SIZE := 12

  const TYPE_INVALID: word := 0
  const TYPE_A: word := 1
  const TYPE_NS: word := 2
  const TYPE_CNAME: word := 5
  const TYPE_PTR: word := 12
  const TYPE_TXT: word := 16
  const TYPE_SRV: word := 33
  const CLASS_INTERNET: word := 1

  type nibble = n: nat | n < 16

  datatype DnsQuestion = DnsQuestion(name: seq<byte>, qtype: word, qclass: word)

  datatype SrvData = SrvData(priority: word, weight: word, port: word, target: seq<byte>)

  datatype RecordData =
    | OctetStream(payload: seq<byte>)
    | Ipv4(ipv4: nat)
    | HostName(host: seq<byte>)
    | Txt(length: byte, txt: seq<byte>)
    | Srv(srv: SrvData)

  datatype DnsResourceRecord = DnsResourceRecord(name: seq<byte>, ttl: nat, data: RecordData)

  datatype Header = Header(transactionId: word, isResponse: bool, opcode: nibble, isAuthoritative: bool,
                           isTruncated: bool, isRecursionDesired: bool, isRecursionAvailable: bool,
                           isAuthenticatedData: bool, isCheckingDisabled: bool, rcode: nibble)

  /** What a message starts out with. */
  const NO_FLAGS := Header(0, false, 0, false, false, false, false, false, false, 0)

  datatype DnsMessage = DnsMessage(header: Header, questions: seq<DnsQuestion>,
                                   answers: seq<DnsResourceRecord>,
                                   authorityAnswers: seq<DnsResourceRecord>,
                                   additionalAnswers: seq<DnsResourceRecord>)

  /** `enum_cast` only knows small enumerators, by default up to 127: TKEY (249) and later ones are not recognised. */
  predicate RecognisedType(t: word) {
    || t <= 2 || t == 5 || t == 6 || t == 12 || t == 13 || 15 <= t <= 18 || t == 24 || t == 25
    || t == 28 || t == 29 || t == 33 || 35 <= t <= 37 || t == 39 || 42 <= t <= 53 || t == 55
    || 59 <= t <= 65 || t == 108 || t == 109
  }

  function CastType(t: word): word {
    if RecognisedType(t) then t else TYPE_INVALID
  }

  predicate RecognisedClass(c: word) {
    c <= CLASS_INTERNET
  }

  function CastClass(c: word): word {
    if RecognisedClass(c) then c else 0
  }

  predicate NameValued(t: word) {
    t == TYPE_NS || t == TYPE_CNAME || t == TYPE_PTR
  }

  // Layout of the parts of a message.

  function Question(mem: Memory, end: nat, o: nat): (r: Parse<DnsQuestion>)
    ensures r.Parsed? ==> r.size > 0 && o + r.size <= end
  {
    if o + 6 > end then Rejects
    else
      match Name(mem, end, o)
      case Diverges => Diverges
      case Rejects => Rejects
      case Parsed(name, n) =>
        if o + n + 4 > end then Rejects
        else Parsed(DnsQuestion(name, CastType(U16At(mem, o + n)), CastClass(U16At(mem, o + n + 2))), n + 4)
  }

  /** SRV data; its target is decoded with the end of the record for its tail. */
  function Service(mem: Memory, data: nat, size: nat): Parse<SrvData> {
    if size < 8 then Rejects
    else
      var target := Name(mem, data + size, data + 6);
      if target.Diverges? then Diverges
      else Parsed(SrvData(U16At(mem, data), U16At(mem, data + 2), U16At(mem, data + 4),
                          if target.Parsed? then target.value else []), size)
  }

  /** What `parseName` yields in C++ terms: a rejected name has size 0 and no text. */
  function SizeOf(r: Parse<seq<byte>>): nat {
    if r.Parsed? then r.size else 0
  }

  function TextOf(r: Parse<seq<byte>>): seq<byte> {
    if r.Parsed? then r.value else []
  }

  /** The address of an A record is copied as it stands, and so read least significant byte first. */
  function LoadHostDword(mem: Memory, o: nat): nat {
    LoadHostWord(At(mem, o), At(mem, o + 1)) + 0x1_0000 * LoadHostWord(At(mem, o + 2), At(mem, o + 3))
  }

  function Data(mem: Memory, end: nat, t: word, data: nat, size: nat): (r: Parse<RecordData>)
    ensures r.Parsed? ==> r.size == size
  {
    if t == TYPE_A then
      if size != 4 then Rejects
      else Parsed(Ipv4(LoadHostDword(mem, data)), size)
    else if NameValued(t) then
      var host := Name(mem, end, data);
      if host.Diverges? then Diverges
      else if SizeOf(host) != size then Rejects
      else Parsed(HostName(TextOf(host)), size)
    else if t == TYPE_TXT then
      if size <= 1 then Rejects
      else Parsed(Txt(At(mem, data), Slice(mem, data + 1, size - 1)), size)
    else if t == TYPE_SRV then
      match Service(mem, data, size)
      case Diverges => Diverges
      case Rejects => Rejects
      case Parsed(srv, _) => Parsed(Srv(srv), size)
    else Parsed(OctetStream(Slice(mem, data, size)), size)
  }

  function Record(mem: Memory, end: nat, o: nat): (r: Parse<DnsResourceRecord>)
    ensures r.Parsed? ==> r.size > 0 && o + r.size <= end
  {
    if o + 6 > end then Rejects
    else
      match Name(mem, end, o)
      case Diverges => Diverges
      case Rejects => Rejects
      case Parsed(name, n) =>
        var fixed := o + n;
        if fixed + 10 > end then Rejects
        else
          var ttl := U16At(mem, fixed + 4) * 0x1_0000 + U16At(mem, fixed + 6);
          var size := U16At(mem, fixed + 8);
          if fixed + 10 + size > end then Rejects
          else
            match Data(mem, end, CastType(U16At(mem, fixed)), fixed + 10, size)
            case Diverges => Diverges
            case Rejects => Rejects
            case Parsed(data, _) => Parsed(DnsResourceRecord(name, ttl, data), n + 10 + size)
  }

  /** Puts an item in front of a list parsed after it. */
  function Cons<T>(item: T, n: nat, rest: Parse<seq<T>>): Parse<seq<T>> {
    Join([item], n, rest)
  }

  function Join<T>(items: seq<T>, n: nat, rest: Parse<seq<T>>): Parse<seq<T>> {
    match rest
    case Parsed(more, m) => Parsed(items + more, n + m)
    case _ => rest
  }

  lemma JoinTwice<T>(a: seq<T>, m: nat, b: seq<T>, n: nat, rest: Parse<seq<T>>)
    ensures Join(a, m, Join(b, n, rest)) == Join(a + b, m + n, rest)
  {
    if rest.Parsed? {
      assert a + (b + rest.value) == a + b + rest.value;
    }
  }

  lemma JoinNothing<T>(rest: Parse<seq<T>>)
    ensures Join([], 0, rest) == rest
  {
    if rest.Parsed? {
      assert [] + rest.value == rest.value;
    }
  }

  function Questions(mem: Memory, end: nat, o: nat, count: nat): Parse<seq<DnsQuestion>>
    decreases count
  {
    if count == 0 then Parsed([], 0)
    else
      match Question(mem, end, o)
      case Diverges => Diverges
      case Rejects => Rejects
      case Parsed(q, n) => Cons(q, n, Questions(mem, end, o + n, count - 1))
  }

  function Records(mem: Memory, end: nat, o: nat, count: nat): Parse<seq<DnsResourceRecord>>
    decreases count
  {
    if count == 0 then Parsed([], 0)
    else
      match Record(mem, end, o)
      case Diverges => Diverges
      case Rejects => Rejects
      case Parsed(r, n) => Cons(r, n, Records(mem, end, o + n, count - 1))
  }

  /** `n >> k` for `weight` 2^k: how often the weight fits into `n`. */
  function Shifted(n: nat, weight: nat): (q: nat)
    requires weight > 0
    ensures n < weight <==> q == 0
  {
    if n < weight then 0 else 1 + Shifted(n - weight, weight)
  }

  /** The bit of this weight: what `n` shifted by one bit less has more than twice `n` shifted. */
  function Flag(n: nat, weight: nat): bool
    requires weight > 0
  {
    Shifted(n, weight) == 2 * Shifted(n, 2 * weight) + 1
  }

  function HeaderAt(mem: Memory): Header {
    var flags := U16At(mem, 2);
    Header(U16At(mem, 0), Flag(flags, 0x8000), Nibble(Shifted(flags, 0x800)), Flag(flags, 0x400), Flag(flags, 0x200),
           Flag(flags, 0x100), Flag(flags, 0x80), Flag(flags, 0x20), Flag(flags, 0x10), Nibble(flags))
  }

  /** The four lowest bits. */
  function Nibble(n: nat): nibble {
    if n < 16 then n else Nibble(n - 16)
  }

  /** A section of records, after which the rest of the message is parsed. */
  function Sections(mem: Memory, end: nat, o: nat, counts: seq<nat>): (r: Parse<seq<seq<DnsResourceRecord>>>)
    ensures r.Parsed? ==> |r.value| == |counts|
    decreases counts
  {
    if counts == [] then Parsed([], 0)
    else
      match Records(mem, end, o, counts[0])
      case Diverges => Diverges
      case Rejects => Rejects
      case Parsed(records, n) => Cons(records, n, Sections(mem, end, o + n, counts[1..]))
  }

  /** The counts of the record sections; a message that is no response has none parsed. */
  function RecordCounts(mem: Memory): (counts: seq<nat>)
    ensures |counts| == 3
  {
    if HeaderAt(mem).isResponse then [U16At(mem, 6), U16At(mem, 8), U16At(mem, 10)] else [0, 0, 0]
  }

  /** `fromBuffer` on the first `size` bytes of a memory. */
  function Message(mem: Memory, size: nat): Parse<DnsMessage> {
    if size < HEADER_SIZE then Rejects
    else
      match Questions(mem, size, HEADER_SIZE, U16At(mem, 4))
      case Diverges => Diverges
      case Rejects => Rejects
      case Parsed(questions, n) =>
        match Sections(mem, size, HEADER_SIZE + n, RecordCounts(mem))
        case Diverges => Diverges
        case Rejects => Rejects
        case Parsed(sections, m) =>
          Parsed(DnsMessage(HeaderAt(mem), questions, sections[0], sections[1], sections[2]),
                 HEADER_SIZE + n + m)
  }

  lemma NoRecords(mem: Memory, end: nat, o: nat)
    ensures Sections(mem, end, o, [0, 0, 0]) == Parsed([[], [], []], 0)
  {
    var none: seq<DnsResourceRecord> := [];
    assert [0, 0, 0][1..] == [0, 0] && [0, 0][1..] == [0] && [0][1..] == [];
    assert Sections(mem, end, o, [0]) == Parsed([none], 0) by {
      assert [none] + [] == [none];
    }
    assert Sections(mem, end, o, [0, 0]) == Parsed([none, none], 0) by {
      assert [none] + [none] == [none, none];
    }
    assert [none] + [none, none] == [none, none, none];
  }

  // One step of the loops below.

  lemma RecordsAdvance(mem: Memory, end: nat, o: nat, count: nat, done: seq<DnsResourceRecord>, n: nat)
    requires count > 0
    ensures var r := Record(mem, end, o);
            Join(done, n, Records(mem, end, o, count)) ==
            if r.Parsed? then Join(done + [r.value], n + r.size, Records(mem, end, o + r.size, count - 1))
            else if r.Diverges? then Diverges else Rejects
  {
    hide Record;
    var r := Record(mem, end, o);
    if r.Parsed? {
      JoinTwice(done, n, [r.value], r.size, Records(mem, end, o + r.size, count - 1));
    }
  }

  lemma QuestionsAdvance(mem: Memory, end: nat, o: nat, count: nat, done: seq<DnsQuestion>, n: nat)
    requires count > 0
    ensures var q := Question(mem, end, o);
            Join(done, n, Questions(mem, end, o, count)) ==
            if q.Parsed? then Join(done + [q.value], n + q.size, Questions(mem, end, o + q.size, count - 1))
            else if q.Diverges? then Diverges else Rejects
  {
    hide Question;
    var q := Question(mem, end, o);
    if q.Parsed? {
      JoinTwice(done, n, [q.value], q.size, Questions(mem, end, o + q.size, count - 1));
    }
  }

  lemma SectionsAdvance(mem: Memory, end: nat, o: nat, counts: seq<nat>,
                        done: seq<seq<DnsResourceRecord>>, n: nat)
    requires counts != []
    ensures var r := Records(mem, end, o, counts[0]);
            Join(done, n, Sections(mem, end, o, counts)) ==
            if r.Parsed? then Join(done + [r.value], n + r.size, Sections(mem, end, o + r.size, counts[1..]))
            else if r.Diverges? then Diverges else Rejects
  {
    hide Records;
    var r := Records(mem, end, o, counts[0]);
    if r.Parsed? {
      JoinTwice(done, n, [r.value], r.size, Sections(mem, end, o + r.size, counts[1..]));
    }
  }

  // The parser itself.

  method ParseQuestion(mem: Memory, end: nat, offset: nat) returns (r: Parse<DnsQuestion>)
    ensures r == Question(mem, end, offset)
  {
    if offset + 6 > end {
      return Rejects;
    }
    var parsed := ParseName(mem, end, offset);
    if parsed.Diverges? {
      return Diverges;
    }
    var rsize: nat := SizeOf(parsed);
    if rsize == 0 {
      return Rejects;
    }
    if offset + rsize + 4 > end {
      return Rejects;
    }
    var qtype := CastType(U16At(mem, offset + rsize));
    rsize := rsize + 2;
    var qclass := CastClass(U16At(mem, offset + rsize));
    rsize := rsize + 2;
    return Parsed(DnsQuestion(parsed.value, qtype, qclass), rsize);
  }

  method ReadService(mem: Memory, data: nat, size: nat) returns (r: Parse<SrvData>)
    ensures r == Service(mem, data, size)
  {
    if size < 8 {
      return Rejects;
    }
    var target: seq<byte> := [];
    var name := ParseName(mem, data + size, data + 6);
    if name.Diverges? {
      return Diverges;
    }
    if name.Parsed? {
      target := name.value;
    }
    return Parsed(SrvData(U16At(mem, data), U16At(mem, data + 2), U16At(mem, data + 4), target), size);
  }

  method ReadDnsRecordData(mem: Memory, end: nat, t: word, data: nat, size: nat) returns (r: Parse<RecordData>)
    ensures r == Data(mem, end, t, data, size)
  {
    hide Name, Service, LoadHostDword, At, Slice;
    if t == TYPE_A {
      if size != 4 {
        return Rejects;
      }
      return Parsed(Ipv4(LoadHostDword(mem, data)), size);
    } else if NameValued(t) {
      var host := ParseName(mem, end, data);
      if host.Diverges? {
        return Diverges;
      }
      if SizeOf(host) != size {
        return Rejects;
      }
      return Parsed(HostName(TextOf(host)), size);
    } else if t == TYPE_TXT {
      if size <= 1 {
        return Rejects;
      }
      return Parsed(Txt(At(mem, data), Slice(mem, data + 1, size - 1)), size);
    } else if t == TYPE_SRV {
      var srv := ReadService(mem, data, size);
      if srv.Parsed? {
        return Parsed(Srv(srv.value), size);
      }
      return if srv.Diverges? then Diverges else Rejects;
    } else {
      return Parsed(OctetStream(Slice(mem, data, size)), size);
    }
  }

  method ParseAnswer(mem: Memory, end: nat, offset: nat) returns (r: Parse<DnsResourceRecord>)
    ensures r == Record(mem, end, offset)
  {
    if offset + 6 > end {
      return Rejects;
    }
    var parsed := ParseName(mem, end, offset);
    if parsed.Diverges? {
      return Diverges;
    }
    var rsize: nat := SizeOf(parsed);
    if rsize == 0 {
      return Rejects;
    }
    if offset + rsize + 10 > end {
      return Rejects;
    }
    var rtype := CastType(U16At(mem, offset + rsize));
    rsize := rsize + 2;
    rsize := rsize + 2; // the class is read and dropped
    var ttl := U16At(mem, offset + rsize) * 0x1_0000 + U16At(mem, offset + rsize + 2);
    rsize := rsize + 4;
    var dataSize := U16At(mem, offset + rsize);
    rsize := rsize + 2;
    if offset + rsize + dataSize > end {
      return Rejects;
    }
    var data := ReadDnsRecordData(mem, end, rtype, offset + rsize, dataSize);
    if !data.Parsed? {
      return if data.Diverges? then Diverges else Rejects;
    }
    rsize := rsize + dataSize;
    return Parsed(DnsResourceRecord(parsed.value, ttl, data.value), rsize);
  }

  method ParseRecords(mem: Memory, end: nat, start: nat, count: nat) returns (r: Parse<seq<DnsResourceRecord>>)
    ensures r == Records(mem, end, start, count)
  {
    hide Record;
    var offset := start;
    var records: seq<DnsResourceRecord> := [];
    JoinNothing(Records(mem, end, start, count));
    for i := 0 to count
      invariant offset >= start
      invariant Join(records, offset - start, Records(mem, end, offset, count - i)) == Records(mem, end, start, count)
    {
      RecordsAdvance(mem, end, offset, count - i, records, offset - start);
      var record := ParseAnswer(mem, end, offset);
      if !record.Parsed? {
        return if record.Diverges? then Diverges else Rejects;
      }
      offset := offset + record.size;
      records := records + [record.value];
    }
    assert records + [] == records;
    return Parsed(records, offset - start);
  }

  method ParseQuestions(mem: Memory, end: nat, start: nat, count: nat) returns (r: Parse<seq<DnsQuestion>>)
    ensures r == Questions(mem, end, start, count)
  {
    hide Question;
    var offset := start;
    var questions: seq<DnsQuestion> := [];
    JoinNothing(Questions(mem, end, start, count));
    for i := 0 to count
      invariant offset >= start
      invariant Join(questions, offset - start, Questions(mem, end, offset, count - i))
             == Questions(mem, end, start, count)
    {
      QuestionsAdvance(mem, end, offset, count - i, questions, offset - start);
      var question := ParseQuestion(mem, end, offset);
      if !question.Parsed? {
        return if question.Diverges? then Diverges else Rejects;
      }
      questions := questions + [question.value];
      offset := offset + question.size;
    }
    assert questions + [] == questions;
    return Parsed(questions, offset - start);
  }

  method ParseSections(mem: Memory, end: nat, start: nat, counts: seq<nat>)
    returns (r: Parse<seq<seq<DnsResourceRecord>>>)
    ensures r == Sections(mem, end, start, counts)
  {
    hide Records;
    var offset := start;
    var sections: seq<seq<DnsResourceRecord>> := [];
    JoinNothing(Sections(mem, end, start, counts));
    assert counts[0..] == counts;
    for i := 0 to |counts|
      invariant offset >= start
      invariant Join(sections, offset - start, Sections(mem, end, offset, counts[i..]))
             == Sections(mem, end, start, counts)
    {
      SectionsAdvance(mem, end, offset, counts[i..], sections, offset - start);
      assert counts[i..][1..] == counts[i + 1..];
      var section := ParseRecords(mem, end, offset, counts[i]);
      if !section.Parsed? {
        return if section.Diverges? then Diverges else Rejects;
      }
      sections := sections + [section.value];
      offset := offset + section.size;
    }
    assert sections + [] == sections;
    return Parsed(sections, offset - start);
  }

  method FromBuffer(mem: Memory, size: nat) returns (r: Parse<DnsMessage>)
    ensures r == Message(mem, size)
  {
    hide HeaderAt, U16At, Questions, Sections, RecordCounts;
    if size < HEADER_SIZE {
      return Rejects;
    }
    var header := HeaderAt(mem);
    var offset := HEADER_SIZE;
    var questions := ParseQuestions(mem, size, offset, U16At(mem, 4));
    if !questions.Parsed? {
      return if questions.Diverges? then Diverges else Rejects;
    }
    offset := offset + questions.size;
    var counts := RecordCounts(mem);
    var sections := ParseSections(mem, size, offset, counts);
    if !sections.Parsed? {
      return if sections.Diverges? then Diverges else Rejects;
    }
    offset := offset + sections.size;
    return Parsed(DnsMessage(header, questions.value, sections.value[0], sections.value[1], sections.value[2]),
                  offset);
  }
}
