/**
 Messages with any number of questions: the encoder lays out only the last type and class, so that
 reading back works for at most one question, unless the first has no type to lose.
 */
module DnsSeveralQuestions {
  import opened Wire
  import opened DnsParser
  import opened DnsMessage
  import opened DnsEncoder
  import opened DnsRoundTrip
  import opened Strings

  ghost predicate SendableQuestions(qs: seq<DnsQuestion>) {
    forall i :: 0 <= i < |qs| ==> SendableLabels(Parts(qs[i].name, DOT))
  }

  /** The names of the questions, one behind the other. */
  ghost function NamesBytes(qs: seq<DnsQuestion>): seq<byte>
    requires SendableQuestions(qs)
    decreases |qs|
  {
    if qs == [] then [] else NameBytes(qs[0]) + NamesBytes(qs[1..])
  }

  /** Each question's name overwrites the type and class of the question before it. */
  lemma {:induction false} NamesAreAdjacent(c: Cursor, qs: seq<DnsQuestion>)
    requires c.offset <= |c.buffer| && SendableQuestions(qs)
    requires c.offset + |NamesBytes(qs)| < 0x1_0000
    ensures c.buffer[..c.offset] + NamesBytes(qs) <= PutQuestions(c, qs).buffer
    decreases |qs|
  {
    hide PutQuestion, NameBytes, QuestionBytes;
    if qs == [] {
      assert c.buffer[..c.offset] + [] == c.buffer[..c.offset];
    } else {
      QuestionLayout(c, qs[0]);
      var next := PutQuestion(c, qs[0]);
      NextName(c, qs[0]);
      NamesAreAdjacent(next, qs[1..]);
      assert c.buffer[..c.offset] + NameBytes(qs[0]) + NamesBytes(qs[1..])
          == c.buffer[..c.offset] + (NameBytes(qs[0]) + NamesBytes(qs[1..]));
    }
  }

  lemma NextName(c: Cursor, q: DnsQuestion)
    requires c.offset <= |c.buffer| && SendableLabels(Parts(q.name, DOT))
    ensures c.offset + |NameBytes(q)| <= c.offset + |QuestionBytes(q)|
    ensures (c.buffer[..c.offset] + QuestionBytes(q))[..c.offset + |NameBytes(q)|]
         == c.buffer[..c.offset] + NameBytes(q)
  {}

  /** The first two bytes of a name are a length and a character: no recognised type. */
  lemma NameIsNoType(mem: Memory, end: nat, o: nat, q: DnsQuestion)
    requires SendableLabels(Parts(q.name, DOT)) && Holds(mem, end, o, NameBytes(q)) && o + |NameBytes(q)| <= end
    ensures U16At(mem, o) >= 0x100
  {
    var labels := Parts(q.name, DOT);
    HoldsAt(mem, end, o, NameBytes(q), 0);
    assert NameBytes(q)[0] == |labels[0]|;
  }

  /** With two or more questions, if the buffer is accepted at all, the first comes back with type `Invalid`. */
  lemma SecondQuestionIsLost(m: DnsMessage, mem: Memory)
    requires |m.questions| >= 2 && SendableQuestions(m.questions)
    requires HEADER_SIZE + |NamesBytes(m.questions)| < 0x1_0000
    requires Encoded(m) <= mem
    ensures Message(mem, |Encoded(m)|).Parsed? ==>
              var read := Message(mem, |Encoded(m)|).value.questions;
              read != [] && read[0].qtype == TYPE_INVALID
  {
    hide HeaderBytes, NameBytes, PutQuestions, Question, Sections, Name, HeaderAt, RecordCounts;
    var size := |Encoded(m)|;
    var c := Cursor(HeaderBytes(m), HEADER_SIZE);
    var q, r := m.questions[0], m.questions[1];
    NamesTakeSpace(m.questions);
    NamesAreAdjacent(c, m.questions);
    assert c.buffer[..HEADER_SIZE] == c.buffer;
    var names := NamesBytes(m.questions);
    assert Holds(mem, size, 0, HeaderBytes(m) + names) by {
      forall i | 0 <= i < |HeaderBytes(m) + names|
        ensures At(mem, 0 + i) == (HeaderBytes(m) + names)[i]
      {
        assert Encoded(m)[i] == mem[i];
      }
    }
    HoldsParts(mem, size, 0, HeaderBytes(m), names);
    HeaderReadsBack(m, mem);
    FirstQuestionLosesType(mem, size, HEADER_SIZE, m.questions);
    assert U16At(mem, 4) == |m.questions|;
  }

  lemma FirstQuestionLosesType(mem: Memory, end: nat, o: nat, qs: seq<DnsQuestion>)
    requires |qs| >= 2 && SendableQuestions(qs)
    requires Holds(mem, end, o, NamesBytes(qs)) && o + |NamesBytes(qs)| <= end
    ensures Question(mem, end, o).Parsed? ==> Question(mem, end, o).value.qtype == TYPE_INVALID
  {
    hide Name, U16At, WireLabels, Parts;
    var more := NamesBytes(qs[1..]);
    HoldsParts(mem, end, o, NameBytes(qs[0]), more);
    NameReadsBack(mem, end, o, qs[0].name);
    HoldsParts(mem, end, o + |NameBytes(qs[0])|, NameBytes(qs[1]), NamesBytes(qs[1..][1..]));
    NameIsNoType(mem, end, o + |NameBytes(qs[0])|, qs[1]);
  }

  lemma {:induction false} NamesTakeSpace(qs: seq<DnsQuestion>)
    requires SendableQuestions(qs)
    ensures |NamesBytes(qs)| >= |qs|
    decreases |qs|
  {
    hide Parts;
    if qs != [] {
      NamesTakeSpace(qs[1..]);
      assert |NameBytes(qs[0])| >= 1;
    }
  }

  // Exactly when a message reads back.

  /** No records, labels of 1 to 63 bytes, and names that the 16-bit offset can reach past. */
  ghost predicate Sendable(m: DnsMessage) {
    && m.answers == [] && m.authorityAnswers == [] && m.additionalAnswers == []
    && SendableQuestions(m.questions) && HEADER_SIZE + |NamesBytes(m.questions)| < 0x1_0000
  }

  /** The message with every name spelt with its final dot. */
  function WithDots(m: DnsMessage): DnsMessage {
    m.(questions := seq<DnsQuestion>(|m.questions|, i requires 0 <= i < |m.questions| =>
                                       m.questions[i].(name := m.questions[i].name + [DOT])))
  }

  ghost predicate ReadsBack(m: DnsMessage, mem: Memory) {
    Message(mem, |Encoded(m)|).Parsed? && Message(mem, |Encoded(m)|).value == WithDots(m)
  }

  lemma SendableIsQuery(m: DnsMessage)
    requires Sendable(m) && |m.questions| <= 1
    ensures Query(m) && WithDots(m) == WithDot(m)
  {
    hide NameBytes, Parts;
    if m.questions != [] {
      assert NamesBytes(m.questions[1..]) == [];
      assert |NamesBytes(m.questions)| == |NameBytes(m.questions[0])|;
    }
  }

  /**
   A sendable message of recognised types and classes, whose first type is not `Invalid`, reads back if
   and only if it has at most one question, whatever lies behind the buffer.
   */
  lemma ReadsBackIffOneQuestion(m: DnsMessage, mem: Memory)
    requires Sendable(m) && Encoded(m) <= mem
    requires forall i :: 0 <= i < |m.questions| ==>
               RecognisedType(m.questions[i].qtype) && RecognisedClass(m.questions[i].qclass)
    requires m.questions != [] ==> m.questions[0].qtype != TYPE_INVALID
    ensures ReadsBack(m, mem) <==> |m.questions| <= 1
  {
    hide Encoded, Message, Query, NamesBytes, RecognisedType;
    if |m.questions| <= 1 {
      SendableIsQuery(m);
      QueryRoundTrip(m, mem);
    } else {
      SecondQuestionIsLost(m, mem);
      assert WithDots(m).questions[0].qtype == m.questions[0].qtype;
    }
  }

  // Why the first type matters.

  lemma SingleLabel(name: seq<byte>)
    requires DOT !in name && 1 <= |name| < 64
    ensures Parts(name, DOT) == [name] && SendableLabels(Parts(name, DOT))
    ensures WireLabels(Parts(name, DOT)) == [|name|] + name
    ensures Dotted([name]) == name + [DOT]
  {
    PartsWithout(name, DOT);
    assert [name][1..] == [];
  }

  lemma TwoQuestionsLayout(m: DnsMessage, q: DnsQuestion, r: DnsQuestion)
    requires m.questions == [q, r] && SendableLabels(Parts(q.name, DOT)) && SendableLabels(Parts(r.name, DOT))
    requires HEADER_SIZE + |NameBytes(q)| + |NameBytes(r)| < 0x1_0000
    ensures Encoded(m) == HeaderBytes(m) + NameBytes(q) + QuestionBytes(r)
  {
    hide PutQuestion, NameBytes, QuestionBytes, HeaderBytes, Parts;
    var c := Cursor(HeaderBytes(m), HEADER_SIZE);
    QuestionLayout(c, q);
    assert c.buffer[..HEADER_SIZE] == c.buffer;
    var next := PutQuestion(c, q);
    NextName(c, q);
    QuestionLayout(next, r);
    assert [q, r][1..] == [r] && [r][1..] == [];
    assert PutQuestions(c, [q, r]) == PutQuestions(next, [r]) == PutQuestions(PutQuestion(next, r), []);
  }

  const FIRST := DnsQuestion([97], TYPE_INVALID, 0)
  const LABEL: seq<byte> := [65, 66, 67, 64, 15, 0, 12, 0, 1]
  const SECOND := DnsQuestion(LABEL, TYPE_PTR, CLASS_INTERNET)

  /** Two questions, under any header. */
  function Two(h: Header): DnsMessage {
    DnsMessage(h, [FIRST, SECOND], [], [], [])
  }

  /** The bytes behind the header: the first name, and the second question over the first one's type and class. */
  const TWO_BYTES: seq<byte> := [1, 97, 0] + ([9] + LABEL + [0] + [0, 12, 0, 1])

  lemma NamesOfTwo(q: DnsQuestion, r: DnsQuestion)
    requires SendableQuestions([q, r])
    ensures SendableLabels(Parts(q.name, DOT)) && SendableLabels(Parts(r.name, DOT))
    ensures NamesBytes([q, r]) == NameBytes(q) + NameBytes(r)
  {
    hide NameBytes, Parts;
    assert [q, r][0] == q && [q, r][1] == r;
    assert [q, r][1..] == [r] && [r][1..] == [];
    assert NamesBytes([r]) == NameBytes(r) + [];
  }

  lemma SecondBytes()
    ensures WordBytes(TYPE_PTR) + WordBytes(CLASS_INTERNET) == [0, 12, 0, 1]
  {}

  lemma TwoIsEncoded(h: Header)
    ensures Sendable(Two(h)) && Encoded(Two(h)) == HeaderBytes(Two(h)) + TWO_BYTES
  {
    hide Parts, WireLabels, Encoded, HeaderBytes, WordBytes;
    SingleLabel(FIRST.name);
    SingleLabel(SECOND.name);
    SecondBytes();
    assert NameBytes(FIRST) == [1, 97, 0] && NameBytes(SECOND) == [9] + LABEL + [0];
    assert QuestionBytes(SECOND) == [9] + LABEL + [0] + [0, 12, 0, 1];
    assert SendableQuestions(Two(h).questions);
    NamesOfTwo(FIRST, SECOND);
    TwoQuestionsLayout(Two(h), FIRST, SECOND);
    assert HeaderBytes(Two(h)) + [1, 97, 0] + QuestionBytes(SECOND) == HeaderBytes(Two(h)) + TWO_BYTES;
  }

  /** A pointer at `o` to a whole name elsewhere. */
  lemma PointerIsRead(mem: Memory, tail: nat, o: nat, name: seq<byte>)
    requires DOT !in name && 1 <= |name| < 64 && tail > 0
    requires At(mem, o) >= 64 && o < tail && Target(mem, o) + |name| + 1 < tail
    requires Holds(mem, tail, Target(mem, o), [|name|] + name + [0])
    ensures Name(mem, tail, o) == Parsed(name + [DOT], 2)
  {
    hide Parts, Target;
    SingleLabel(name);
    ScanReadsBack(mem, tail, Target(mem, o), [name], tail - 1);
  }

  /** The bytes stand behind a header. */
  ghost predicate HoldsTwo(mem: Memory) {
    |mem| == 30 && mem[12..] == TWO_BYTES
  }

  lemma ByteOfTwo(mem: Memory, i: nat)
    requires HoldsTwo(mem) && 12 <= i < 30
    ensures At(mem, i) == TWO_BYTES[i - 12]
  {
    assert mem[12..][i - 12] == mem[i];
  }

  lemma FirstIsRead(mem: Memory)
    requires HoldsTwo(mem)
    ensures Question(mem, 30, 12) == Parsed(FIRST.(name := FIRST.name + [DOT]), 7)
  {
    forall i | 12 <= i < 19
      ensures At(mem, i) == TWO_BYTES[i - 12]
    {
      ByteOfTwo(mem, i);
    }
    hide Parts, Name, WireLabels, HoldsTwo;
    SingleLabel(FIRST.name);
    NameReadsBack(mem, 30, 12, FIRST.name);
    assert U16At(mem, 15) == 0x941 && U16At(mem, 17) == 0x4243;
  }

  lemma SecondIsRead(mem: Memory)
    requires HoldsTwo(mem)
    ensures Question(mem, 30, 19) == Parsed(SECOND.(name := SECOND.name + [DOT]), 6)
  {
    forall i | 12 <= i < 30
      ensures At(mem, i) == TWO_BYTES[i - 12]
    {
      ByteOfTwo(mem, i);
    }
    hide Parts, Name, HoldsTwo;
    assert Target(mem, 19) == 15;
    PointerIsRead(mem, 30, 19, LABEL);
    assert U16At(mem, 21) == TYPE_PTR && U16At(mem, 23) == CLASS_INTERNET;
  }

  lemma TwoInMemory(h: Header, mem: Memory)
    requires mem == HeaderBytes(Two(h)) + TWO_BYTES
    ensures HoldsTwo(mem) && HeaderAt(mem) == h && U16At(mem, 4) == 2 && RecordCounts(mem) == [0, 0, 0]
  {
    hide HeaderBytes, HeaderAt, U16At;
    assert Holds(mem, HEADER_SIZE, 0, HeaderBytes(Two(h)));
    HeaderReadsBack(Two(h), mem);
  }

  lemma TwoAreRead(mem: Memory)
    requires HoldsTwo(mem) && U16At(mem, 4) == 2 && RecordCounts(mem) == [0, 0, 0]
    ensures Message(mem, 30) == Parsed(WithDots(Two(HeaderAt(mem))), 25)
  {
    FirstIsRead(mem);
    SecondIsRead(mem);
    hide Sections, Question, Questions, HeaderAt, U16At, RecordCounts, TWO_BYTES, HoldsTwo;
    QuestionsInTwo(mem, 30, 12);
    assert WithDots(Two(HeaderAt(mem))).questions
        == [FIRST.(name := FIRST.name + [DOT]), SECOND.(name := SECOND.name + [DOT])];
    NoRecords(mem, 30, 25);
  }

  /**
   A message of two questions, the first of type `Invalid`, that does read back, whatever its header: the
   overwritten type and class of the first question are not recognised, as they were not before, and the
   parser finds the second question in the middle of its own name.
   */
  lemma TwoQuestionsReadBack(h: Header)
    ensures Sendable(Two(h)) && |Two(h).questions| == 2
    ensures forall i :: 0 <= i < |Two(h).questions| ==>
              RecognisedType(Two(h).questions[i].qtype) && RecognisedClass(Two(h).questions[i].qclass)
    ensures ReadsBack(Two(h), Encoded(Two(h)))
  {
    hide Encoded, Message, HeaderAt, U16At, RecordCounts, TWO_BYTES, Sendable, HeaderBytes;
    TwoIsEncoded(h);
    TwoInMemory(h, Encoded(Two(h)));
    TwoAreRead(Encoded(Two(h)));
  }

  lemma QuestionsInTwo(mem: Memory, end: nat, o: nat)
    requires Question(mem, end, o).Parsed? && Question(mem, end, o + Question(mem, end, o).size).Parsed?
    ensures var q := Question(mem, end, o);
            var r := Question(mem, end, o + q.size);
            Questions(mem, end, o, 2) == Parsed([q.value, r.value], q.size + r.size)
  {
    hide Question;
    var q := Question(mem, end, o);
    var r := Question(mem, end, o + q.size);
    assert Questions(mem, end, o + q.size + r.size, 0) == Parsed([], 0);
    assert [r.value] + [] == [r.value] && [q.value] + [r.value] == [q.value, r.value];
  }
}
