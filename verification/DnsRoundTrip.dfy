/**
 Encoded queries read back, and no proper prefix of one is accepted.
 */
module DnsRoundTrip {
  import opened Wire
  import opened DnsParser
  import opened DnsMessage
  import opened DnsEncoder
  import opened Strings

  /** Labels on the wire: each behind its length byte. */
  function WireLabels(labels: seq<seq<byte>>): seq<byte>
    requires forall i :: 0 <= i < |labels| ==> |labels[i]| < 64
  {
    if labels == [] then [] else [|labels[0]|] + labels[0] + WireLabels(labels[1..])
  }

  ghost predicate SendableLabels(labels: seq<seq<byte>>) {
    forall i :: 0 <= i < |labels| ==> 1 <= |labels[i]| < 64
  }

  /** The memory holds `data` at `o`, as far as it reaches below `end`. */
  ghost predicate Holds(mem: Memory, end: nat, o: nat, data: seq<byte>) {
    forall i :: 0 <= i < |data| && o + i < end ==> At(mem, o + i) == data[i]
  }

  lemma HoldsAt(mem: Memory, end: nat, o: nat, data: seq<byte>, i: nat)
    requires Holds(mem, end, o, data) && i < |data| && o + i < end
    ensures At(mem, o + i) == data[i]
  {}

  lemma HoldsParts(mem: Memory, end: nat, o: nat, a: seq<byte>, b: seq<byte>)
    requires Holds(mem, end, o, a + b)
    ensures Holds(mem, end, o, a) && Holds(mem, end, o + |a|, b)
  {
    forall i | 0 <= i < |a| && o + i < end
      ensures At(mem, o + i) == a[i]
    {
      assert (a + b)[i] == a[i];
    }
    forall i | 0 <= i < |b| && o + |a| + i < end
      ensures At(mem, o + |a| + i) == b[i]
    {
      assert (a + b)[|a| + i] == b[i];
      assert At(mem, o + (|a| + i)) == b[i];
    }
  }

  // Layout of an encoded query.

  /** Resizing to the end of a write and writing keeps what is before the write, and no more. */
  lemma PutAtEnd(buffer: seq<byte>, at: nat, data: seq<byte>)
    requires at <= |buffer|
    ensures Put(Resize(buffer, at + |data|), at, data) == buffer[..at] + data
  {}

  lemma PutLabelAppends(c: Cursor, l: seq<byte>)
    requires c.offset <= |c.buffer| && |l| < 64 && c.offset + |l| + 1 < 0x1_0000
    ensures PutLabel(c, l) == Cursor(c.buffer[..c.offset] + ([|l|] + l), c.offset + |l| + 1)
  {
    var grown := Resize(c.buffer, c.offset + |l| + 1);
    var counted := Put(grown, c.offset, [|l|]);
    assert counted[..c.offset + 1] == c.buffer[..c.offset] + [|l|];
    assert Put(counted, c.offset + 1, l) == c.buffer[..c.offset] + [|l|] + l;
  }

  lemma {:induction false} PutLabelsAppends(c: Cursor, labels: seq<seq<byte>>)
    requires c.offset <= |c.buffer| && SendableLabels(labels)
    requires c.offset + |WireLabels(labels)| < 0x1_0000
    ensures PutLabels(c, labels).offset == c.offset + |WireLabels(labels)| <= |PutLabels(c, labels).buffer|
    ensures PutLabels(c, labels).buffer[..c.offset + |WireLabels(labels)|] == c.buffer[..c.offset] + WireLabels(labels)
    decreases |labels|
  {
    hide PutLabel;
    if labels == [] {
      assert c.buffer[..c.offset] + [] == c.buffer[..c.offset];
    } else {
      var l := labels[0];
      PutLabelAppends(c, l);
      var next := PutLabel(c, l);
      PutLabelsAppends(next, labels[1..]);
      assert next.buffer[..next.offset] == next.buffer;
      assert c.buffer[..c.offset] + ([|l|] + l) + WireLabels(labels[1..])
          == c.buffer[..c.offset] + ([|l|] + l + WireLabels(labels[1..]));
    }
  }

  function NameBytes(q: DnsQuestion): seq<byte>
    requires SendableLabels(Parts(q.name, DOT))
  {
    WireLabels(Parts(q.name, DOT)) + [0]
  }

  function QuestionBytes(q: DnsQuestion): seq<byte>
    requires SendableLabels(Parts(q.name, DOT))
  {
    NameBytes(q) + (WordBytes(q.qtype) + WordBytes(q.qclass))
  }

  /**
   What the encoder lays out: a message without records and with at most one question, whose name is
   dot-separated labels of 1 to 63 bytes, small enough for the 16-bit offset.
   */
  ghost predicate Query(m: DnsMessage) {
    && m.answers == [] && m.authorityAnswers == [] && m.additionalAnswers == []
    && |m.questions| <= 1
    && (m.questions != [] ==>
          && SendableLabels(Parts(m.questions[0].name, DOT))
          && HEADER_SIZE + |NameBytes(m.questions[0])| < 0x1_0000)
  }

  lemma QuestionLayout(c: Cursor, q: DnsQuestion)
    requires c.offset <= |c.buffer| && SendableLabels(Parts(q.name, DOT))
    requires c.offset + |NameBytes(q)| < 0x1_0000
    ensures PutQuestion(c, q) == Cursor(c.buffer[..c.offset] + QuestionBytes(q), c.offset + |NameBytes(q)|)
  {
    hide PutLabels, Parts, WireLabels, WordBytes, Put, Resize;
    var labels := Parts(q.name, DOT);
    PutLabelsAppends(c, labels);
    var named := PutLabels(c, labels);
    PutAtEnd(named.buffer, named.offset, [0]);
    var ended := named.buffer[..named.offset] + [0];
    var fixed := WordBytes(q.qtype) + WordBytes(q.qclass);
    PutAtEnd(ended, |ended|, fixed);
    assert ended[..|ended|] == ended;
    assert c.buffer[..c.offset] + WireLabels(labels) + [0] + fixed == c.buffer[..c.offset] + QuestionBytes(q);
  }

  lemma QueryLayout(m: DnsMessage)
    requires Query(m)
    ensures Encoded(m) == HeaderBytes(m) + if m.questions == [] then [] else QuestionBytes(m.questions[0])
  {
    hide HeaderBytes, PutQuestion, NameBytes, QuestionBytes;
    var c := Cursor(HeaderBytes(m), HEADER_SIZE);
    if m.questions == [] {
      assert HeaderBytes(m) + [] == HeaderBytes(m);
    } else {
      var q := m.questions[0];
      QuestionLayout(c, q);
      assert c.buffer[..HEADER_SIZE] == c.buffer;
      assert m.questions[1..] == [];
      assert PutQuestions(c, m.questions) == PutQuestions(PutQuestion(c, q), []);
    }
  }

  // Reading a header back.

  lemma {:induction false} ShiftedIs(n: nat, weight: nat, q: nat, low: nat)
    requires n == q * weight + low && low < weight
    ensures Shifted(n, weight) == q
    decreases q
  {
    if q > 0 {
      assert n == (q - 1) * weight + weight + low;
      assert (q - 1) * weight >= 0;
      ShiftedIs(n - weight, weight, q - 1, low);
    }
  }

  lemma FlagIs(f: word, w: nat, above: nat, flag: bool, low: nat)
    requires f == (2 * above + Weight(flag, 1)) * w + low && low < w
    ensures Flag(f, w) == flag
  {
    assert f == above * (2 * w) + (Weight(flag, 1) * w + low);
    ShiftedIs(f, w, 2 * above + Weight(flag, 1), low);
    ShiftedIs(f, 2 * w, above, Weight(flag, 1) * w + low);
  }

  lemma {:induction false} NibbleIs(above: nat, low: nibble)
    ensures Nibble(16 * above + low) == low
    decreases above
  {
    if above > 0 {
      NibbleIs(above - 1, low);
    }
  }

  /** The flags below `isResponse` and the opcode, below `isRecursionDesired`, and below `isAuthenticatedData`. */
  function HighFlags(h: Header): (high: nat)
    ensures high < 0x800
  {
    Weight(h.isAuthoritative, 0x400) + Weight(h.isTruncated, 0x200) + Weight(h.isRecursionDesired, 0x100) + LowFlags(h)
  }

  function LowFlags(h: Header): (low: nat)
    ensures low < 0x100
  {
    Weight(h.isRecursionAvailable, 0x80) + Weight(h.isAuthenticatedData, 0x20) + LastFlags(h)
  }

  function LastFlags(h: Header): (last: nat)
    ensures last < 0x20
  {
    Weight(h.isCheckingDisabled, 0x10) + h.rcode
  }

  lemma TopReadsBack(h: Header)
    ensures Flag(Flags(h), 0x8000) == h.isResponse && Nibble(Shifted(Flags(h), 0x800)) == h.opcode
  {
    hide Flag, HighFlags;
    FlagIs(Flags(h), 0x8000, 0, h.isResponse, h.opcode * 0x800 + HighFlags(h)) by {
      FlagsInParts(h);
    }
    ShiftedIs(Flags(h), 0x800, Weight(h.isResponse, 16) + h.opcode, HighFlags(h)) by {
      FlagsInParts(h);
    }
    NibbleIs(Weight(h.isResponse, 1), h.opcode);
  }

  lemma FlagsInParts(h: Header)
    ensures Flags(h) == Weight(h.isResponse, 0x8000) + h.opcode * 0x800 + HighFlags(h)
  {}

  lemma HighReadsBack(h: Header)
    ensures var f := Flags(h);
            && Flag(f, 0x400) == h.isAuthoritative && Flag(f, 0x200) == h.isTruncated
            && Flag(f, 0x100) == h.isRecursionDesired
  {
    FlagsInBytes(h);
    hide Flag, Flags, LowFlags;
    var top := Weight(h.isResponse, 16) + h.opcode;
    var mid := Weight(h.isRecursionDesired, 0x100) + LowFlags(h);
    FlagIs(Flags(h), 0x400, top, h.isAuthoritative, Weight(h.isTruncated, 0x200) + mid);
    FlagIs(Flags(h), 0x200, 2 * top + Weight(h.isAuthoritative, 1), h.isTruncated, mid);
    FlagIs(Flags(h), 0x100, 4 * top + Weight(h.isAuthoritative, 2) + Weight(h.isTruncated, 1),
           h.isRecursionDesired, LowFlags(h));
  }

  /** Everything above the low byte, in units of 0x100. */
  function UpperFlags(h: Header): nat {
    Weight(h.isResponse, 0x80) + 8 * h.opcode + Weight(h.isAuthoritative, 4) + Weight(h.isTruncated, 2)
    + Weight(h.isRecursionDesired, 1)
  }

  lemma FlagsInBytes(h: Header)
    ensures Flags(h) == UpperFlags(h) * 0x100 + LowFlags(h)
  {}

  lemma LowReadsBack(h: Header)
    ensures var f := Flags(h);
            && Flag(f, 0x80) == h.isRecursionAvailable && Flag(f, 0x20) == h.isAuthenticatedData
            && Flag(f, 0x10) == h.isCheckingDisabled && Nibble(f) == h.rcode
  {
    FlagsInBytes(h);
    hide Flag, Flags, UpperFlags;
    var f, q := Flags(h), UpperFlags(h);
    FlagIs(f, 0x80, q, h.isRecursionAvailable, Weight(h.isAuthenticatedData, 0x20) + LastFlags(h));
    FlagIs(f, 0x20, 4 * q + Weight(h.isRecursionAvailable, 2), h.isAuthenticatedData, LastFlags(h));
    var p := 8 * q + Weight(h.isRecursionAvailable, 4) + Weight(h.isAuthenticatedData, 1);
    FlagIs(f, 0x10, p, h.isCheckingDisabled, h.rcode);
    NibbleIs(2 * p + Weight(h.isCheckingDisabled, 1), h.rcode);
  }

  lemma HeaderReadsBack(m: DnsMessage, mem: Memory)
    requires Holds(mem, HEADER_SIZE, 0, HeaderBytes(m))
    ensures HeaderAt(mem) == m.header
    ensures U16At(mem, 4) == Wrap(|m.questions|) && U16At(mem, 6) == Wrap(|m.answers|)
    ensures U16At(mem, 8) == Wrap(|m.authorityAnswers|) && U16At(mem, 10) == Wrap(|m.additionalAnswers|)
  {
    hide Flags, Flag;
    forall i: nat | i < 12
      ensures At(mem, i) == HeaderBytes(m)[i]
    {
      assert At(mem, 0 + i) == HeaderBytes(m)[i];
    }
    TopReadsBack(m.header);
    HighReadsBack(m.header);
    LowReadsBack(m.header);
    assert U16At(mem, 0) == m.header.transactionId;
    assert U16At(mem, 2) == Flags(m.header);
  }

  // Reading a name back.

  lemma {:induction false} DottedIsJoined(labels: seq<seq<byte>>)
    requires labels != []
    ensures Dotted(labels) == Joined(labels, DOT) + [DOT]
  {
    if |labels| == 1 {
      assert labels[1..] == [];
      assert labels[0] + [DOT] + [] == labels[0] + [DOT];
    } else {
      DottedIsJoined(labels[1..]);
    }
  }

  lemma {:induction false} ScanReadsBack(mem: Memory, tail: nat, o: nat, labels: seq<seq<byte>>, hops: nat)
    requires SendableLabels(labels) && Holds(mem, tail, o, WireLabels(labels) + [0])
    requires o + |WireLabels(labels)| < tail
    ensures Scan(mem, tail, o, hops).Parsed?
    ensures Scan(mem, tail, o, hops).size == |WireLabels(labels)| + 1
    ensures Texts(mem, Scan(mem, tail, o, hops).value) == labels
    decreases |labels|
  {
    if labels == [] {
      HoldsAt(mem, tail, o, WireLabels(labels) + [0], 0);
    } else {
      var l := labels[0];
      var rest := WireLabels(labels[1..]) + [0];
      assert WireLabels(labels) + [0] == [|l|] + (l + rest);
      HoldsParts(mem, tail, o, [|l|], l + rest);
      HoldsParts(mem, tail, o + 1, l, rest);
      HoldsAt(mem, tail, o, [|l|], 0);
      assert Slice(mem, o + 1, |l|) == l;
      ScanReadsBack(mem, tail, o + 1 + |l|, labels[1..], hops);
      var parts := Scan(mem, tail, o + |l| + 1, hops).value;
      assert ([o] + parts)[1..] == parts;
    }
  }

  lemma NameReadsBack(mem: Memory, tail: nat, o: nat, name: seq<byte>)
    requires SendableLabels(Parts(name, DOT))
    requires Holds(mem, tail, o, WireLabels(Parts(name, DOT)) + [0])
    requires o + |WireLabels(Parts(name, DOT))| < tail
    ensures Name(mem, tail, o) == Parsed(name + [DOT], |WireLabels(Parts(name, DOT))| + 1)
  {
    var labels := Parts(name, DOT);
    ScanReadsBack(mem, tail, o, labels, tail);
    DottedIsJoined(labels);
    JoinedParts(name, DOT);
    HoldsAt(mem, tail, o, WireLabels(labels) + [0], 0);
  }

  /** The message that a query reads back as: its name is spelt with the final dot. */
  function WithDot(m: DnsMessage): DnsMessage
    requires |m.questions| <= 1
  {
    if m.questions == [] then m
    else m.(questions := [m.questions[0].(name := m.questions[0].name + [DOT])])
  }

  lemma QuestionReadsBack(mem: Memory, end: nat, o: nat, q: DnsQuestion)
    requires SendableLabels(Parts(q.name, DOT)) && RecognisedType(q.qtype) && RecognisedClass(q.qclass)
    requires Holds(mem, end, o, QuestionBytes(q)) && o + |QuestionBytes(q)| <= end
    ensures Question(mem, end, o) == Parsed(q.(name := q.name + [DOT]), |QuestionBytes(q)|)
  {
    hide RecognisedType, Name;
    var fixed := WordBytes(q.qtype) + WordBytes(q.qclass);
    HoldsParts(mem, end, o, NameBytes(q), fixed);
    NameReadsBack(mem, end, o, q.name);
    var p := o + |NameBytes(q)|;
    assert At(mem, p + 0) == fixed[0] && At(mem, p + 1) == fixed[1];
    assert At(mem, p + 2) == fixed[2] && At(mem, p + 3) == fixed[3];
    assert U16At(mem, p) == q.qtype && U16At(mem, p + 2) == q.qclass;
    assert |NameBytes(q)| >= 2 by {
      assert Parts(q.name, DOT) != [];
    }
  }

  /**
   For every query with a recognised type and class, `fromBuffer(toBuffer(m))` is `m` with a dot
   appended to the question's name, whatever the memory holds behind the buffer.
   */
  lemma QueryRoundTrip(m: DnsMessage, mem: Memory)
    requires Query(m)
    requires forall i :: 0 <= i < |m.questions| ==>
               RecognisedType(m.questions[i].qtype) && RecognisedClass(m.questions[i].qclass)
    requires Encoded(m) <= mem
    ensures Message(mem, |Encoded(m)|) == Parsed(WithDot(m), |Encoded(m)|)
  {
    hide HeaderBytes, Encoded, QuestionBytes, Question, Questions, Sections, HeaderAt, U16At, RecordCounts, Holds,
         RecognisedType, Query;
    QueryIsLaidOut(m);
    var size := |Encoded(m)|;
    var rest := if m.questions == [] then [] else QuestionBytes(m.questions[0]);
    QueryInMemory(m, mem);
    HoldsParts(mem, size, 0, HeaderBytes(m), rest);
    QueryHeaderReadsBack(m, mem, size);
    NoRecords(mem, size, HEADER_SIZE + |rest|);
    if m.questions == [] {
      NoQuestions(mem, size);
    } else {
      QuestionReadsBack(mem, size, HEADER_SIZE, m.questions[0]);
      OneQuestion(mem, size);
    }
  }

  lemma QueryIsLaidOut(m: DnsMessage)
    requires Query(m)
    ensures m.answers == m.authorityAnswers == m.additionalAnswers == [] && |m.questions| <= 1
    ensures m.questions != [] ==> SendableLabels(Parts(m.questions[0].name, DOT))
  {}

  lemma QueryHeaderReadsBack(m: DnsMessage, mem: Memory, end: nat)
    requires Query(m) && Holds(mem, end, 0, HeaderBytes(m)) && end >= HEADER_SIZE
    ensures HeaderAt(mem) == m.header && U16At(mem, 4) == |m.questions| && RecordCounts(mem) == [0, 0, 0]
  {
    hide HeaderBytes, HeaderAt, U16At;
    HeaderReadsBack(m, mem);
  }

  lemma NoQuestions(mem: Memory, size: nat)
    ensures Questions(mem, size, HEADER_SIZE, 0) == Parsed([], 0)
  {}

  lemma QueryInMemory(m: DnsMessage, mem: Memory)
    requires Query(m) && Encoded(m) <= mem
    ensures var rest := if m.questions == [] then [] else QuestionBytes(m.questions[0]);
            |Encoded(m)| == HEADER_SIZE + |rest| && Holds(mem, |Encoded(m)|, 0, HeaderBytes(m) + rest)
  {
    hide HeaderBytes, Encoded;
    QueryLayout(m);
    forall i | 0 <= i < |Encoded(m)|
      ensures At(mem, 0 + i) == Encoded(m)[i]
    {
      assert Encoded(m)[i] == mem[i];
    }
  }

  lemma OneQuestion(mem: Memory, size: nat)
    requires Question(mem, size, HEADER_SIZE).Parsed?
    ensures Questions(mem, size, HEADER_SIZE, 1)
         == Parsed([Question(mem, size, HEADER_SIZE).value], Question(mem, size, HEADER_SIZE).size)
  {
    hide Question;
    var q := Question(mem, size, HEADER_SIZE);
    assert Questions(mem, size, HEADER_SIZE + q.size, 0) == Parsed([], 0);
    assert [q.value] + [] == [q.value];
  }

  // Encoded queries are self-delimiting.

  /** A name that is cut off never leaves room for the type and class behind it. */
  lemma {:induction false} CutName(mem: Memory, cut: nat, o: nat, labels: seq<seq<byte>>, hops: nat)
    requires SendableLabels(labels) && Holds(mem, cut, o, WireLabels(labels) + [0])
    requires cut < o + |WireLabels(labels)| + 5
    ensures Scan(mem, cut, o, hops).Rejects?
            || (Scan(mem, cut, o, hops).Parsed? && o + Scan(mem, cut, o, hops).size + 4 > cut)
    decreases |labels|
  {
    if o >= cut {
    } else if labels == [] {
      HoldsAt(mem, cut, o, WireLabels(labels) + [0], 0);
    } else {
      var l := labels[0];
      var rest := WireLabels(labels[1..]) + [0];
      assert WireLabels(labels) + [0] == ([|l|] + l) + rest;
      HoldsParts(mem, cut, o, [|l|] + l, rest);
      HoldsAt(mem, cut, o, [|l|] + l, 0);
      if o + |l| <= cut {
        CutName(mem, cut, o + |l| + 1, labels[1..], hops);
      }
    }
  }

  lemma CutQuestion(mem: Memory, cut: nat, o: nat, q: DnsQuestion)
    requires SendableLabels(Parts(q.name, DOT))
    requires Holds(mem, cut, o, QuestionBytes(q)) && cut < o + |QuestionBytes(q)|
    ensures Question(mem, cut, o).Rejects?
  {
    var labels := Parts(q.name, DOT);
    HoldsParts(mem, cut, o, NameBytes(q), WordBytes(q.qtype) + WordBytes(q.qclass));
    if o + 6 <= cut {
      HoldsAt(mem, cut, o, NameBytes(q), 0);
      CutName(mem, cut, o, labels, cut);
    }
  }

  /**
   No proper prefix of an encoded query is accepted, whatever bytes follow the cut, and wherever the
   cut falls: in the header, in a label, on a label boundary, before the terminator, in the type or
   in the class.
   */
  lemma PrefixIsRejected(m: DnsMessage, mem: Memory, cut: nat)
    requires Query(m) && cut < |Encoded(m)|
    requires forall i :: 0 <= i < cut ==> At(mem, i) == Encoded(m)[i]
    ensures Message(mem, cut).Rejects?
  {
    hide HeaderBytes, Encoded, Question, HeaderAt, QuestionBytes, Sections, RecordCounts, U16At;
    QueryLayout(m);
    if cut >= HEADER_SIZE {
      var q := m.questions[0];
      assert Holds(mem, cut, 0, HeaderBytes(m) + QuestionBytes(q)) by {
        assert forall i :: 0 <= i < cut ==> At(mem, 0 + i) == Encoded(m)[i];
      }
      HoldsParts(mem, cut, 0, HeaderBytes(m), QuestionBytes(q));
      HeaderReadsBack(m, mem);
      CutQuestion(mem, cut, HEADER_SIZE, q);
    }
  }
}
