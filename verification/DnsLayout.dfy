/**
 Messages laid out byte by byte, without compression, as section 4.1 of RFC 1035 and RFC 2782 describe them:
 they stand in the relation that the parser computes, and so are read.
 */
module DnsLayout {
  import opened Wire
  import opened DnsParser
  import opened DnsMessage
  import opened DnsMessageSpec
  import opened DnsEncoder
  import opened DnsRoundTrip

  /** A name spelt without a pointer. */
  ghost predicate Plain(n: SpeltName) {
    SendableLabels(n.labels) && n.size == |WireLabels(n.labels)| + 1
  }

  function NameWire(n: SpeltName): seq<byte>
    requires SendableLabels(n.labels)
  {
    WireLabels(n.labels) + [0]
  }

  /** Names are plain, RDLENGTH fits its word, and each kind of data has its own type. */
  ghost predicate Valid(d: WireData) {
    && WellTyped(d) && DataSize(d) < 0x1_0000
    && (d.HostOf? ==> Plain(d.name)) && (d.ServiceOf? ==> Plain(d.target))
  }

  ghost predicate ValidRecord(r: WireRecord) {
    Plain(r.owner) && Valid(r.data)
  }

  ghost function DataBytes(d: WireData): (r: seq<byte>)
    requires Valid(d)
    ensures |r| == DataSize(d)
  {
    match d
    case Address(a, b, c, e) => [a, b, c, e]
    case HostOf(_, name) => NameWire(name)
    case Text(length, text) => [length] + text
    case ServiceOf(priority, weight, port, target) =>
      WordBytes(priority) + WordBytes(weight) + WordBytes(port) + NameWire(target)
    case Other(_, payload) => payload
  }

  ghost function FixedBytes(r: WireRecord): (f: seq<byte>)
    requires ValidRecord(r)
    ensures |f| == 10
  {
    WordBytes(TypeOf(r.data)) + WordBytes(r.rclass) + WordBytes(r.ttlHigh) + WordBytes(r.ttlLow)
    + WordBytes(DataSize(r.data))
  }

  ghost function RecordBytes(r: WireRecord): (b: seq<byte>)
    requires ValidRecord(r)
    ensures |b| == RecordSize(r)
  {
    NameWire(r.owner) + (FixedBytes(r) + DataBytes(r.data))
  }

  ghost function QuestionWire(q: WireQuestion): (b: seq<byte>)
    requires Plain(q.name)
    ensures |b| == QuestionSize(q)
  {
    NameWire(q.name) + (WordBytes(q.qtype) + WordBytes(q.qclass))
  }

  // Names, fields and data.

  lemma {:induction false} LabelsAreSpelt(mem: Memory, tail: nat, o: nat, labels: seq<seq<byte>>, hops: nat)
    requires SendableLabels(labels) && Holds(mem, tail, o, WireLabels(labels) + [0])
    requires o + |WireLabels(labels)| < tail
    ensures Spells(mem, tail, o, labels, |WireLabels(labels)| + 1, hops)
    decreases |labels|
  {
    if labels == [] {
      HoldsAt(mem, tail, o, WireLabels(labels) + [0], 0);
    } else {
      var l := labels[0];
      var rest := WireLabels(labels[1..]) + [0];
      assert WireLabels(labels) + [0] == [|l|] + (l + rest);
      HoldsParts(mem, tail, o, [|l|], l + rest);
      HoldsParts(mem, tail, o + 1, l, rest);
      HoldsAt(mem, tail, o, [|l|], 0);
      assert Slice(mem, o + 1, |l|) == l;
      LabelsAreSpelt(mem, tail, o + 1 + |l|, labels[1..], hops);
    }
  }

  lemma PlainIsSpelt(mem: Memory, tail: nat, o: nat, n: SpeltName)
    requires Plain(n) && Holds(mem, tail, o, NameWire(n)) && o + n.size <= tail
    ensures SpeltAt(mem, tail, o, n)
  {
    LabelsAreSpelt(mem, tail, o, n.labels, 0);
  }

  lemma WordAt(mem: Memory, end: nat, o: nat, w: word)
    requires Holds(mem, end, o, WordBytes(w)) && o + 2 <= end
    ensures U16At(mem, o) == w
  {
    HoldsAt(mem, end, o, WordBytes(w), 0);
    HoldsAt(mem, end, o, WordBytes(w), 1);
  }

  lemma WordRead(mem: Memory, end: nat, o: nat, w: word, rest: seq<byte>)
    requires Holds(mem, end, o, WordBytes(w) + rest) && o + 2 <= end
    ensures U16At(mem, o) == w
    ensures Holds(mem, end, o + 2, rest)
  {
    HoldsParts(mem, end, o, WordBytes(w), rest);
    WordAt(mem, end, o, w);
  }

  lemma ServiceFields(mem: Memory, end: nat, o: nat, priority: word, weight: word, port: word, name: seq<byte>)
    requires Holds(mem, end, o, WordBytes(priority) + WordBytes(weight) + WordBytes(port) + name) && o + 6 <= end
    ensures U16At(mem, o) == priority && U16At(mem, o + 2) == weight && U16At(mem, o + 4) == port
    ensures Holds(mem, end, o + 6, name)
  {
    hide WordBytes, Holds, U16At;
    assert WordBytes(priority) + WordBytes(weight) + WordBytes(port) + name
        == WordBytes(priority) + (WordBytes(weight) + (WordBytes(port) + name));
    WordRead(mem, end, o, priority, WordBytes(weight) + (WordBytes(port) + name));
    WordRead(mem, end, o + 2, weight, WordBytes(port) + name);
    WordRead(mem, end, o + 4, port, name);
  }

  lemma HoldsLess(mem: Memory, end: nat, less: nat, o: nat, data: seq<byte>)
    requires Holds(mem, end, o, data) && less <= end
    ensures Holds(mem, less, o, data)
  {}

  lemma HeldSlice(mem: Memory, end: nat, o: nat, data: seq<byte>)
    requires Holds(mem, end, o, data) && o + |data| <= end
    ensures Slice(mem, o, |data|) == data
  {}

  lemma DataIsLaidOut(mem: Memory, end: nat, o: nat, d: WireData)
    requires Valid(d) && Holds(mem, end, o, DataBytes(d)) && o + DataSize(d) <= end
    ensures DataAt(mem, end, o, d)
  {
    hide Plain, SpeltAt, NameWire, Holds, U16At, WordBytes, Slice;
    match d
    case Address(_, _, _, _) => HeldSlice(mem, end, o, DataBytes(d));
    case HostOf(_, name) => PlainIsSpelt(mem, end, o, name);
    case Text(length, text) =>
      HoldsParts(mem, end, o, [length], text);
      HoldsAt(mem, end, o, [length], 0);
      HeldSlice(mem, end, o + 1, text);
    case ServiceOf(priority, weight, port, target) =>
      NameTakes(target);
      ServiceFields(mem, end, o, priority, weight, port, NameWire(target));
      HoldsLess(mem, end, o + 6 + target.size, o + 6, NameWire(target));
      PlainIsSpelt(mem, o + 6 + target.size, o + 6, target);
    case Other(_, payload) => HeldSlice(mem, end, o, payload);
  }

  lemma FixedIsLaidOut(mem: Memory, end: nat, o: nat, r: WireRecord)
    requires ValidRecord(r) && Holds(mem, end, o, FixedBytes(r)) && o + 10 <= end
    ensures FixedAt(mem, o, r)
  {
    hide DataSize, TypeOf, WellTyped, WordBytes, Holds, U16At, Plain;
    var s := WordBytes(DataSize(r.data));
    var l := WordBytes(r.ttlLow) + s;
    var h := WordBytes(r.ttlHigh) + l;
    var c := WordBytes(r.rclass) + h;
    assert FixedBytes(r) == WordBytes(TypeOf(r.data)) + c;
    WordRead(mem, end, o, TypeOf(r.data), c);
    WordRead(mem, end, o + 2, r.rclass, h);
    WordRead(mem, end, o + 4, r.ttlHigh, l);
    WordRead(mem, end, o + 6, r.ttlLow, s);
    WordAt(mem, end, o + 8, DataSize(r.data));
  }

  lemma RecordIsLaidOut(mem: Memory, end: nat, o: nat, r: WireRecord)
    requires ValidRecord(r) && Holds(mem, end, o, RecordBytes(r)) && o + RecordSize(r) <= end
    ensures RecordAt(mem, end, o, r)
  {
    hide Valid, Plain, SpeltAt, NameWire, FixedBytes, DataBytes, FixedAt, DataAt, DataSize, Holds;
    NameTakes(r.owner);
    HoldsParts(mem, end, o, NameWire(r.owner), FixedBytes(r) + DataBytes(r.data));
    var p := o + r.owner.size;
    HoldsParts(mem, end, p, FixedBytes(r), DataBytes(r.data));
    PlainIsSpelt(mem, end, o, r.owner);
    FixedIsLaidOut(mem, end, p, r);
    DataIsLaidOut(mem, end, p + 10, r.data);
  }

  lemma NameTakes(n: SpeltName)
    requires Plain(n)
    ensures SendableLabels(n.labels) && |NameWire(n)| == n.size
  {}

  lemma QuestionIsLaidOut(mem: Memory, end: nat, o: nat, q: WireQuestion)
    requires Plain(q.name) && Holds(mem, end, o, QuestionWire(q)) && o + QuestionSize(q) <= end
    ensures QuestionAt(mem, end, o, q)
  {
    hide Plain, SpeltAt, NameWire, Holds, U16At, WordBytes;
    NameTakes(q.name);
    HoldsParts(mem, end, o, NameWire(q.name), WordBytes(q.qtype) + WordBytes(q.qclass));
    PlainIsSpelt(mem, end, o, q.name);
    var p := o + q.name.size;
    WordRead(mem, end, p, q.qtype, WordBytes(q.qclass));
    WordAt(mem, end, p + 2, q.qclass);
  }

  // Whole messages.

  ghost predicate ValidQuestions(qs: seq<WireQuestion>) {
    |qs| < 0x1_0000 && forall i :: 0 <= i < |qs| ==> Plain(qs[i].name)
  }

  ghost predicate ValidRecords(rs: seq<WireRecord>) {
    |rs| < 0x1_0000 && forall i :: 0 <= i < |rs| ==> ValidRecord(rs[i])
  }

  ghost predicate ValidMessage(w: WireMessage) {
    ValidQuestions(w.questions) && ValidRecords(w.answers) && ValidRecords(w.authority) && ValidRecords(w.additional)
  }

  ghost function QuestionsBytes(qs: seq<WireQuestion>): (b: seq<byte>)
    requires ValidQuestions(qs)
    ensures |b| == QuestionsSize(qs)
    decreases |qs|
  {
    if qs == [] then [] else QuestionWire(qs[0]) + QuestionsBytes(qs[1..])
  }

  ghost function RecordsBytes(rs: seq<WireRecord>): (b: seq<byte>)
    requires ValidRecords(rs)
    ensures |b| == RecordsSize(rs)
    decreases |rs|
  {
    if rs == [] then [] else RecordBytes(rs[0]) + RecordsBytes(rs[1..])
  }

  ghost function SectionsBytes(w: WireMessage): seq<byte>
    requires ValidMessage(w)
  {
    RecordsBytes(w.answers) + (RecordsBytes(w.authority) + RecordsBytes(w.additional))
  }

  /** The header counts every section, whether or not the message is a response. */
  ghost function MessageBytes(w: WireMessage): seq<byte>
    requires ValidMessage(w)
  {
    HeaderBytes(MessageRead(w)) + (QuestionsBytes(w.questions) + SectionsBytes(w))
  }

  lemma {:induction false} QuestionsAreLaidOut(mem: Memory, end: nat, o: nat, qs: seq<WireQuestion>)
    requires ValidQuestions(qs) && Holds(mem, end, o, QuestionsBytes(qs)) && o + QuestionsSize(qs) <= end
    ensures QuestionsAt(mem, end, o, qs)
    decreases |qs|
  {
    hide Plain, QuestionAt, QuestionWire, QuestionSize, Holds;
    if qs != [] {
      HoldsParts(mem, end, o, QuestionWire(qs[0]), QuestionsBytes(qs[1..]));
      QuestionIsLaidOut(mem, end, o, qs[0]);
      QuestionsAreLaidOut(mem, end, o + QuestionSize(qs[0]), qs[1..]);
    }
  }

  lemma {:induction false} RecordsAreLaidOut(mem: Memory, end: nat, o: nat, rs: seq<WireRecord>)
    requires ValidRecords(rs) && Holds(mem, end, o, RecordsBytes(rs)) && o + RecordsSize(rs) <= end
    ensures RecordsAt(mem, end, o, rs)
    decreases |rs|
  {
    hide ValidRecord, RecordAt, RecordBytes, RecordSize, Holds;
    if rs != [] {
      HoldsParts(mem, end, o, RecordBytes(rs[0]), RecordsBytes(rs[1..]));
      RecordIsLaidOut(mem, end, o, rs[0]);
      RecordsAreLaidOut(mem, end, o + RecordSize(rs[0]), rs[1..]);
    }
  }

  lemma SectionsAreLaidOut(mem: Memory, end: nat, o: nat, w: WireMessage)
    requires ValidMessage(w) && Holds(mem, end, o, SectionsBytes(w)) && o + |SectionsBytes(w)| <= end
    ensures SectionsAt(mem, end, o, w)
  {
    hide ValidQuestions, ValidRecords, RecordsAt, RecordsBytes, RecordsSize, Holds;
    var x, y, z := RecordsBytes(w.answers), RecordsBytes(w.authority), RecordsBytes(w.additional);
    HoldsParts(mem, end, o, x, y + z);
    HoldsParts(mem, end, o + |x|, y, z);
    RecordsAreLaidOut(mem, end, o, w.answers);
    RecordsAreLaidOut(mem, end, o + |x|, w.authority);
    RecordsAreLaidOut(mem, end, o + |x| + |y|, w.additional);
  }

  /** A laid-out message stands in the relation to its own bytes. */
  lemma MessageIsLaidOut(w: WireMessage, mem: Memory)
    requires ValidMessage(w) && MessageBytes(w) <= mem
    ensures MessageAt(mem, |MessageBytes(w)|, w)
    ensures |MessageBytes(w)| == HEADER_SIZE + QuestionsSize(w.questions) + RecordsSize(w.answers)
                                 + RecordsSize(w.authority) + RecordsSize(w.additional)
  {
    hide HeaderBytes, QuestionsBytes, RecordsBytes, QuestionsAt, SectionsAt, HeaderAt, U16At, ValidQuestions,
         ValidRecords, QuestionsSize, RecordsSize;
    var size := |MessageBytes(w)|;
    forall i | 0 <= i < size
      ensures At(mem, 0 + i) == MessageBytes(w)[i]
    {
      assert MessageBytes(w)[i] == mem[i];
    }
    HoldsParts(mem, size, 0, HeaderBytes(MessageRead(w)), QuestionsBytes(w.questions) + SectionsBytes(w));
    HoldsParts(mem, size, HEADER_SIZE, QuestionsBytes(w.questions), SectionsBytes(w));
    HeaderReadsBack(MessageRead(w), mem);
    MessageCounts(w);
    QuestionsAreLaidOut(mem, size, HEADER_SIZE, w.questions);
    SectionsAreLaidOut(mem, size, HEADER_SIZE + QuestionsSize(w.questions), w);
  }

  lemma MessageCounts(w: WireMessage)
    requires ValidMessage(w)
    ensures var m := MessageRead(w);
            && Wrap(|m.questions|) == |w.questions| && Wrap(|m.answers|) == |w.answers|
            && Wrap(|m.authorityAnswers|) == |w.authority| && Wrap(|m.additionalAnswers|) == |w.additional|
  {}

  /** The message ends with a question for the root. */
  predicate EndsInRoot(w: WireMessage) {
    && w.questions != [] && w.questions[|w.questions| - 1].name.labels == []
    && w.answers == [] && w.authority == [] && w.additional == []
  }

  lemma RootIsOneByte(n: SpeltName)
    requires Plain(n)
    ensures n.size == 1 <==> n.labels == []
  {
    assert n.labels != [] ==> |n.labels[0]| >= 1;
  }

  lemma RecordsTakeSpace(rs: seq<WireRecord>)
    ensures rs == [] <==> RecordsSize(rs) == 0
  {
    hide DataSize;
  }

  /**
   The parser reads every uncompressed message that does not end with a question for the root: a response
   yields exactly its questions and records, unless one of its records is not `Readable`, when all of it
   is rejected; any other message yields its questions only.
   */
  lemma MessageIsRead(w: WireMessage, mem: Memory)
    requires ValidMessage(w) && MessageBytes(w) <= mem
    ensures var size := |MessageBytes(w)|;
            if EndsInRoot(w) then
              Message(mem, size).Rejects?
            else if !w.header.isResponse then
              Message(mem, size).Parsed?
              && Message(mem, size).value == DnsMessage(w.header, QuestionsRead(w.questions), [], [], [])
            else
              Message(mem, size) ==
              if AllReadable(w.answers) && AllReadable(w.authority) && AllReadable(w.additional)
              then Parsed(MessageRead(w), size)
              else Rejects
  {
    hide HeaderBytes, MessageBytes, Message, QuestionsSize, RecordsSize, AllReadable, Plain, QuestionsRead,
         ValidRecords, MessageAt;
    MessageIsLaidOut(w, mem);
    MessageRefinesRfc1035(mem, |MessageBytes(w)|, w);
    RecordsTakeSpace(w.answers);
    RecordsTakeSpace(w.authority);
    RecordsTakeSpace(w.additional);
    if w.questions != [] {
      RootIsOneByte(w.questions[|w.questions| - 1].name);
    }
    NothingToRead();
  }
}
