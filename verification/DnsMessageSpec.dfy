/**
 Sections 4.1.1 to 4.1.4 of RFC 1035, with service data as in RFC 2782, as a relation between a memory and a
 message, compressed or not; and the proof that the parser computes it.
 */
module DnsMessageSpec {
  import opened Wire
  import opened DnsParser
  import opened DnsNameSpec
  import opened DnsNameCompleteness
  import opened DnsMessage

  /** A name, and how many bytes its spelling takes where it stands: a pointer makes that fewer than its labels. */
  datatype SpeltName = SpeltName(labels: seq<seq<byte>>, size: nat)

  datatype WireData =
    | Address(a: byte, b: byte, c: byte, d: byte)
    | HostOf(kind: word, name: SpeltName)
    | Text(length: byte, text: seq<byte>)
    | ServiceOf(priority: word, weight: word, port: word, target: SpeltName)
    | Other(kind: word, payload: seq<byte>)

  datatype WireRecord = WireRecord(owner: SpeltName, rclass: word, ttlHigh: word, ttlLow: word, data: WireData)

  datatype WireQuestion = WireQuestion(name: SpeltName, qtype: word, qclass: word)

  datatype WireMessage = WireMessage(header: Header, questions: seq<WireQuestion>, answers: seq<WireRecord>,
                                     authority: seq<WireRecord>, additional: seq<WireRecord>)

  function TypeOf(d: WireData): word {
    match d
    case Address(_, _, _, _) => TYPE_A
    case HostOf(kind, _) => kind
    case Text(_, _) => TYPE_TXT
    case ServiceOf(_, _, _, _) => TYPE_SRV
    case Other(kind, _) => kind
  }

  /** Each kind of data has its own type. */
  predicate WellTyped(d: WireData) {
    match d
    case HostOf(kind, _) => NameValued(kind)
    case Other(kind, _) => !NameValued(kind) && kind != TYPE_A && kind != TYPE_TXT && kind != TYPE_SRV
    case _ => true
  }

  function DataSize(d: WireData): nat {
    match d
    case Address(_, _, _, _) => 4
    case HostOf(_, name) => name.size
    case Text(_, text) => 1 + |text|
    case ServiceOf(_, _, _, target) => 6 + target.size
    case Other(_, payload) => |payload|
  }

  function QuestionSize(q: WireQuestion): nat {
    q.name.size + 4
  }

  function RecordSize(r: WireRecord): nat {
    r.owner.size + 10 + DataSize(r.data)
  }

  function QuestionsSize(qs: seq<WireQuestion>): nat {
    if qs == [] then 0 else QuestionSize(qs[0]) + QuestionsSize(qs[1..])
  }

  function RecordsSize(rs: seq<WireRecord>): nat {
    if rs == [] then 0 else RecordSize(rs[0]) + RecordsSize(rs[1..])
  }

  // The relation.

  /** The bytes at `o` spell `labels` in `size` bytes, with at most `hops` pointers. */
  ghost predicate Spells(mem: Memory, tail: nat, o: nat, labels: seq<seq<byte>>, size: nat, hops: nat)
    decreases tail - o
  {
    o < tail &&
    var len := At(mem, o);
    if len == 0 then labels == [] && size == 1
    else if len < 64 then
      && o + 1 + len < tail && size > len + 1
      && labels != [] && labels[0] == Slice(mem, o + 1, len)
      && Spells(mem, tail, o + 1 + len, labels[1..], size - len - 1, hops)
    else
      && len >= 192 && o + 1 < tail && hops > 0 && size == 2
      && NameAt(mem, tail, Target(mem, o), labels, hops - 1)
  }

  ghost predicate SpeltAt(mem: Memory, tail: nat, o: nat, n: SpeltName) {
    exists hops: nat :: Spells(mem, tail, o, n.labels, n.size, hops)
  }

  ghost predicate QuestionAt(mem: Memory, end: nat, o: nat, q: WireQuestion) {
    && SpeltAt(mem, end, o, q.name)
    && o + QuestionSize(q) <= end
    && U16At(mem, o + q.name.size) == q.qtype && U16At(mem, o + q.name.size + 2) == q.qclass
  }

  /** A service's target ends where its record ends, and has no pointer beyond. */
  ghost predicate DataAt(mem: Memory, end: nat, o: nat, d: WireData) {
    && WellTyped(d)
    && match d
       case Address(a, b, c, e) => Slice(mem, o, 4) == [a, b, c, e]
       case HostOf(_, name) => SpeltAt(mem, end, o, name)
       case Text(length, text) => At(mem, o) == length && Slice(mem, o + 1, |text|) == text
       case ServiceOf(priority, weight, port, target) =>
         && U16At(mem, o) == priority && U16At(mem, o + 2) == weight && U16At(mem, o + 4) == port
         && SpeltAt(mem, o + 6 + target.size, o + 6, target)
       case Other(_, payload) => Slice(mem, o, |payload|) == payload
  }

  ghost predicate FixedAt(mem: Memory, o: nat, r: WireRecord) {
    && U16At(mem, o) == TypeOf(r.data) && U16At(mem, o + 2) == r.rclass
    && U16At(mem, o + 4) == r.ttlHigh && U16At(mem, o + 6) == r.ttlLow && U16At(mem, o + 8) == DataSize(r.data)
  }

  ghost predicate RecordAt(mem: Memory, end: nat, o: nat, r: WireRecord) {
    && SpeltAt(mem, end, o, r.owner)
    && o + RecordSize(r) <= end
    && FixedAt(mem, o + r.owner.size, r)
    && DataAt(mem, end, o + r.owner.size + 10, r.data)
  }

  ghost predicate QuestionsAt(mem: Memory, end: nat, o: nat, qs: seq<WireQuestion>)
    decreases |qs|
  {
    qs == [] || (QuestionAt(mem, end, o, qs[0]) && QuestionsAt(mem, end, o + QuestionSize(qs[0]), qs[1..]))
  }

  ghost predicate RecordsAt(mem: Memory, end: nat, o: nat, rs: seq<WireRecord>)
    decreases |rs|
  {
    rs == [] || (RecordAt(mem, end, o, rs[0]) && RecordsAt(mem, end, o + RecordSize(rs[0]), rs[1..]))
  }

  ghost predicate SectionsAt(mem: Memory, end: nat, o: nat, w: WireMessage) {
    && RecordsAt(mem, end, o, w.answers)
    && RecordsAt(mem, end, o + RecordsSize(w.answers), w.authority)
    && RecordsAt(mem, end, o + RecordsSize(w.answers) + RecordsSize(w.authority), w.additional)
  }

  /** The first `size` bytes hold the message, and perhaps more behind it. */
  ghost predicate MessageAt(mem: Memory, size: nat, w: WireMessage) {
    && size >= HEADER_SIZE && HeaderAt(mem) == w.header
    && U16At(mem, 4) == |w.questions| && U16At(mem, 6) == |w.answers|
    && U16At(mem, 8) == |w.authority| && U16At(mem, 10) == |w.additional|
    && QuestionsAt(mem, size, HEADER_SIZE, w.questions)
    && SectionsAt(mem, size, HEADER_SIZE + QuestionsSize(w.questions), w)
  }

  // What the parser is to make of it.

  /** The parser wants a text of at least one byte behind its length, and a target of at least two bytes. */
  predicate Readable(d: WireData) {
    (d.Text? ==> d.text != []) && (d.ServiceOf? ==> d.target.size > 1)
  }

  predicate AllReadable(rs: seq<WireRecord>) {
    forall i :: 0 <= i < |rs| ==> Readable(rs[i].data)
  }

  function DataRead(d: WireData): RecordData {
    match d
    case Address(a, b, c, e) => Ipv4(a + 0x100 * b + 0x1_0000 * c + 0x100_0000 * e)
    case HostOf(_, name) => HostName(Dotted(name.labels))
    case Text(length, text) => Txt(length, text)
    case ServiceOf(priority, weight, port, target) => Srv(SrvData(priority, weight, port, Dotted(target.labels)))
    case Other(_, payload) => OctetStream(payload)
  }

  function RecordRead(r: WireRecord): DnsResourceRecord {
    DnsResourceRecord(Dotted(r.owner.labels), r.ttlHigh * 0x1_0000 + r.ttlLow, DataRead(r.data))
  }

  function QuestionRead(q: WireQuestion): DnsQuestion {
    DnsQuestion(Dotted(q.name.labels), CastType(q.qtype), CastClass(q.qclass))
  }

  function QuestionsRead(qs: seq<WireQuestion>): seq<DnsQuestion> {
    seq<DnsQuestion>(|qs|, i requires 0 <= i < |qs| => QuestionRead(qs[i]))
  }

  function RecordsRead(rs: seq<WireRecord>): seq<DnsResourceRecord> {
    seq<DnsResourceRecord>(|rs|, i requires 0 <= i < |rs| => RecordRead(rs[i]))
  }

  function MessageRead(w: WireMessage): DnsMessage {
    DnsMessage(w.header, QuestionsRead(w.questions), RecordsRead(w.answers), RecordsRead(w.authority),
               RecordsRead(w.additional))
  }

  // Names.

  lemma {:induction false} SpellsName(mem: Memory, tail: nat, o: nat, labels: seq<seq<byte>>, size: nat, hops: nat)
    requires Spells(mem, tail, o, labels, size, hops)
    ensures NameAt(mem, tail, o, labels, hops) && o + size <= tail && size > 0
    decreases tail - o
  {
    hide Target;
    var len := At(mem, o);
    if 0 < len < 64 {
      SpellsName(mem, tail, o + 1 + len, labels[1..], size - len - 1, hops);
    }
  }

  lemma {:induction false} SpellsSize(mem: Memory, tail: nat, o: nat, labels: seq<seq<byte>>, size: nat, h: nat,
                                      hops: nat)
    requires Spells(mem, tail, o, labels, size, h) && Scan(mem, tail, o, hops).Parsed?
    ensures Scan(mem, tail, o, hops).size == size
    decreases tail - o
  {
    hide Target, NameAt;
    var len := At(mem, o);
    if 0 < len < 64 {
      SpellsSize(mem, tail, o + 1 + len, labels[1..], size - len - 1, h, hops);
    }
  }

  /** The name and the size are those that the decoder finds. */
  lemma SpeltNameIsRead(mem: Memory, tail: nat, o: nat, n: SpeltName)
    requires SpeltAt(mem, tail, o, n)
    ensures Name(mem, tail, o) == Parsed(Dotted(n.labels), n.size) && o + n.size <= tail && n.size > 0
  {
    hide Scan, NameAt, Spells;
    var hops: nat :| Spells(mem, tail, o, n.labels, n.size, hops);
    SpellsName(mem, tail, o, n.labels, n.size, hops);
    TailPointersSuffice(mem, tail, o, n.labels, hops);
    ScanOfName(mem, tail, o, n.labels, tail, tail);
    SpellsSize(mem, tail, o, n.labels, n.size, hops, tail);
    RootIsRead(mem, tail, o, n, hops);
    NameStarts(mem, tail, o, n.labels, hops);
  }

  lemma RootIsRead(mem: Memory, tail: nat, o: nat, n: SpeltName, hops: nat)
    requires Spells(mem, tail, o, n.labels, n.size, hops)
    ensures At(mem, o) == 0 ==> n.labels == [] && n.size == 1
  {}

  lemma NameStarts(mem: Memory, tail: nat, o: nat, labels: seq<seq<byte>>, hops: nat)
    requires NameAt(mem, tail, o, labels, hops)
    ensures o < tail
  {}

  // Questions and records.

  /** A question for the root takes five bytes. The parser wants six, and rejects it as the last thing. */
  lemma QuestionIsRead(mem: Memory, end: nat, o: nat, q: WireQuestion)
    requires QuestionAt(mem, end, o, q)
    ensures Question(mem, end, o) ==
            if q.name.size == 1 && o + QuestionSize(q) == end then Rejects
            else Parsed(QuestionRead(q), QuestionSize(q))
  {
    hide Name, CastType, CastClass, U16At, SpeltAt;
    SpeltNameIsRead(mem, end, o, q.name);
  }

  lemma ServiceIsRead(mem: Memory, end: nat, o: nat, d: WireData)
    requires d.ServiceOf? && DataAt(mem, end, o, d)
    ensures Service(mem, o, DataSize(d)) ==
            if d.target.size == 1 then Rejects
            else Parsed(SrvData(d.priority, d.weight, d.port, Dotted(d.target.labels)), DataSize(d))
  {
    hide Name, U16At, SpeltAt;
    SpeltNameIsRead(mem, o + 6 + d.target.size, o + 6, d.target);
  }

  lemma AddressIsRead(mem: Memory, end: nat, o: nat, d: WireData)
    requires d.Address? && DataAt(mem, end, o, d)
    ensures Ipv4(LoadHostDword(mem, o)) == DataRead(d)
  {
    var s := Slice(mem, o, 4);
    assert s[0] == At(mem, o) && s[1] == At(mem, o + 1) && s[2] == At(mem, o + 2) && s[3] == At(mem, o + 3);
  }

  lemma DataIsRead(mem: Memory, end: nat, o: nat, d: WireData)
    requires DataAt(mem, end, o, d)
    ensures Data(mem, end, CastType(TypeOf(d)), o, DataSize(d)) ==
            if Readable(d) then Parsed(DataRead(d), DataSize(d)) else Rejects
  {
    hide Name, Service, LoadHostDword, SpeltAt, U16At;
    match d
    case Address(_, _, _, _) => AddressIsRead(mem, end, o, d);
    case HostOf(_, name) => SpeltNameIsRead(mem, end, o, name);
    case Text(_, _) =>
    case ServiceOf(_, _, _, target) =>
      SpeltNameIsRead(mem, o + 6 + target.size, o + 6, target);
      ServiceIsRead(mem, end, o, d);
    case Other(_, _) =>
  }

  lemma RecordIsRead(mem: Memory, end: nat, o: nat, r: WireRecord)
    requires RecordAt(mem, end, o, r)
    ensures Record(mem, end, o) ==
            if Readable(r.data) then Parsed(RecordRead(r), RecordSize(r)) else Rejects
  {
    hide Name, Data, DataAt, SpeltAt, DataRead, Readable, TypeOf, CastType, U16At, DataSize;
    SpeltNameIsRead(mem, end, o, r.owner);
    DataIsRead(mem, end, o + r.owner.size + 10, r.data);
  }

  // Whole messages.

  predicate EndInRoot(qs: seq<WireQuestion>) {
    qs != [] && qs[|qs| - 1].name.size == 1
  }

  lemma {:induction false} QuestionsAreRead(mem: Memory, end: nat, o: nat, qs: seq<WireQuestion>)
    requires QuestionsAt(mem, end, o, qs) && o <= end
    ensures o + QuestionsSize(qs) <= end
    ensures Questions(mem, end, o, |qs|) ==
            if EndInRoot(qs) && o + QuestionsSize(qs) == end then Rejects
            else Parsed(QuestionsRead(qs), QuestionsSize(qs))
    decreases |qs|
  {
    hide Question, QuestionRead, QuestionAt;
    if qs == [] {
      assert QuestionsRead(qs) == [];
    } else {
      QuestionIsRead(mem, end, o, qs[0]);
      QuestionFits(mem, end, o, qs[0]);
      QuestionsAreRead(mem, end, o + QuestionSize(qs[0]), qs[1..]);
      assert QuestionsRead(qs) == [QuestionRead(qs[0])] + QuestionsRead(qs[1..]);
    }
  }

  lemma QuestionFits(mem: Memory, end: nat, o: nat, q: WireQuestion)
    requires QuestionAt(mem, end, o, q)
    ensures o + QuestionSize(q) <= end
  {}

  lemma {:induction false} RecordsAreRead(mem: Memory, end: nat, o: nat, rs: seq<WireRecord>)
    requires RecordsAt(mem, end, o, rs) && o <= end
    ensures o + RecordsSize(rs) <= end
    ensures Records(mem, end, o, |rs|) ==
            if AllReadable(rs) then Parsed(RecordsRead(rs), RecordsSize(rs)) else Rejects
    decreases |rs|
  {
    hide Record, RecordRead, RecordAt, Readable, AllReadable, RecordsRead, RecordSize;
    if rs == [] {
      NothingToRead();
    } else {
      RecordIsRead(mem, end, o, rs[0]);
      RecordFits(mem, end, o, rs[0]);
      RecordsAreRead(mem, end, o + RecordSize(rs[0]), rs[1..]);
      FirstAndRest(rs);
    }
  }

  lemma NothingToRead()
    ensures AllReadable([]) && RecordsRead([]) == []
  {}

  lemma FirstAndRest(rs: seq<WireRecord>)
    requires rs != []
    ensures AllReadable(rs) <==> Readable(rs[0].data) && AllReadable(rs[1..])
    ensures RecordsRead(rs) == [RecordRead(rs[0])] + RecordsRead(rs[1..])
  {
    hide Readable, RecordRead;
    assert forall i :: 0 <= i < |rs| - 1 ==> rs[1..][i] == rs[i + 1];
    assert forall i :: 0 < i < |rs| ==> rs[i] == rs[1..][i - 1];
  }

  lemma RecordFits(mem: Memory, end: nat, o: nat, r: WireRecord)
    requires RecordAt(mem, end, o, r)
    ensures o + RecordSize(r) <= end
  {}

  lemma {:induction false} SectionsAreRead(mem: Memory, end: nat, o: nat, w: WireMessage)
    requires SectionsAt(mem, end, o, w) && o <= end
    ensures var x, y, z := RecordsSize(w.answers), RecordsSize(w.authority), RecordsSize(w.additional);
            && o + x + y + z <= end
            && Sections(mem, end, o, [|w.answers|, |w.authority|, |w.additional|]) ==
               if AllReadable(w.answers) && AllReadable(w.authority) && AllReadable(w.additional)
               then Parsed([RecordsRead(w.answers), RecordsRead(w.authority), RecordsRead(w.additional)], x + y + z)
               else Rejects
  {
    hide Records, RecordsAt, AllReadable, RecordsRead, RecordsSize;
    var x, y := RecordsSize(w.answers), RecordsSize(w.authority);
    RecordsAreRead(mem, end, o, w.answers);
    RecordsAreRead(mem, end, o + x, w.authority);
    RecordsAreRead(mem, end, o + x + y, w.additional);
    var counts := [|w.answers|, |w.authority|, |w.additional|];
    assert counts[1..] == [|w.authority|, |w.additional|];
    assert [|w.authority|, |w.additional|][1..] == [|w.additional|] && [|w.additional|][1..] == [];
    var a, b, c := RecordsRead(w.answers), RecordsRead(w.authority), RecordsRead(w.additional);
    assert [c] + [] == [c] && [b] + [c] == [b, c] && [a] + [b, c] == [a, b, c];
    assert Sections(mem, end, o + x + y, [|w.additional|])
        == if AllReadable(w.additional) then Parsed([c], RecordsSize(w.additional)) else Rejects;
    assert Sections(mem, end, o + x, [|w.authority|, |w.additional|])
        == if AllReadable(w.authority) && AllReadable(w.additional)
           then Parsed([b, c], y + RecordsSize(w.additional)) else Rejects;
  }

  /** The buffer ends with a question that is a single zero byte, type and class. */
  predicate CutShort(w: WireMessage, size: nat) {
    EndInRoot(w.questions) && HEADER_SIZE + QuestionsSize(w.questions) == size
  }

  /**
   The parser refines RFC 1035: whatever pointers its names use, a response is read as exactly its questions
   and records, unless one of them is not `Readable`, when all of it is rejected; any other message is read
   as its questions. Only a buffer that ends with a question for the root is rejected. Bytes behind the
   message do not matter.
   */
  lemma MessageRefinesRfc1035(mem: Memory, size: nat, w: WireMessage)
    requires MessageAt(mem, size, w)
    ensures var q := HEADER_SIZE + QuestionsSize(w.questions);
            Message(mem, size) ==
            if CutShort(w, size) then Rejects
            else if !w.header.isResponse then
              Parsed(MessageRead(w.(answers := [], authority := [], additional := [])), q)
            else if AllReadable(w.answers) && AllReadable(w.authority) && AllReadable(w.additional) then
              Parsed(MessageRead(w),
                     q + RecordsSize(w.answers) + RecordsSize(w.authority) + RecordsSize(w.additional))
            else Rejects
  {
    hide Questions, Sections, QuestionsAt, SectionsAt, AllReadable, HeaderAt, U16At, QuestionsSize, RecordsSize,
         EndInRoot, QuestionsRead;
    QuestionsAreRead(mem, size, HEADER_SIZE, w.questions);
    var o := HEADER_SIZE + QuestionsSize(w.questions);
    SectionsAreRead(mem, size, o, w);
    NoRecords(mem, size, o);
    NothingToRead();
  }
}
