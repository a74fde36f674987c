/**
 Encoding of DNS messages, as `DnsMessage::toBuffer` does it.
 */
module DnsEncoder {
  import opened Wire
  import opened DnsParser
  import opened DnsMessage
  import opened Strings

  function Zeros(n: nat): seq<byte> {
    seq<byte>(n, _ => 0)
  }

  /** `std::vector::resize`. */
  function Resize(buffer: seq<byte>, n: nat): (r: seq<byte>)
    ensures |r| == n
  {
    if n <= |buffer| then buffer[..n] else buffer + Zeros(n - |buffer|)
  }

  /** Overwrites the bytes at `at`. */
  function Put(buffer: seq<byte>, at: nat, data: seq<byte>): (r: seq<byte>)
    requires at + |data| <= |buffer|
    ensures |r| == |buffer|
  {
    buffer[..at] + data + buffer[at + |data|..]
  }

  function Weight(flag: bool, weight: nat): nat {
    if flag then weight else 0
  }

  function Flags(h: Header): word {
    Weight(h.isResponse, 0x8000) + h.opcode * 0x800 + Weight(h.isAuthoritative, 0x400)
    + Weight(h.isTruncated, 0x200) + Weight(h.isRecursionDesired, 0x100)
    + Weight(h.isRecursionAvailable, 0x80) + Weight(h.isAuthenticatedData, 0x20)
    + Weight(h.isCheckingDisabled, 0x10) + h.rcode
  }

  function HeaderBytes(m: DnsMessage): (r: seq<byte>)
    ensures |r| == HEADER_SIZE
  {
    WordBytes(m.header.transactionId) + WordBytes(Flags(m.header))
    + WordBytes(Wrap(|m.questions|)) + WordBytes(Wrap(|m.answers|))
    + WordBytes(Wrap(|m.authorityAnswers|)) + WordBytes(Wrap(|m.additionalAnswers|))
  }

  /** The buffer under construction and the 16-bit offset of the next write. */
  datatype Cursor = Cursor(buffer: seq<byte>, offset: word)

  function PutLabel(c: Cursor, l: seq<byte>): Cursor {
    var grown := Resize(c.buffer, c.offset + |l| + 1);
    Cursor(Put(Put(grown, c.offset, [|l| % 0x100]), c.offset + 1, l), Wrap(c.offset + |l| + 1))
  }

  function PutLabels(c: Cursor, labels: seq<seq<byte>>): Cursor
    decreases |labels|
  {
    if labels == [] then c else PutLabels(PutLabel(c, labels[0]), labels[1..])
  }

  /** Type and class are written at the offset, which does not move past them. */
  function PutQuestion(c: Cursor, q: DnsQuestion): Cursor {
    var named := PutLabels(c, Parts(q.name, DOT));
    var ended := Put(Resize(named.buffer, named.offset + 1), named.offset, [0]);
    var offset := Wrap(named.offset + 1);
    Cursor(Put(Resize(ended, offset + 4), offset, WordBytes(q.qtype) + WordBytes(q.qclass)), offset)
  }

  function PutQuestions(c: Cursor, qs: seq<DnsQuestion>): Cursor
    decreases |qs|
  {
    if qs == [] then c else PutQuestions(PutQuestion(c, qs[0]), qs[1..])
  }

  function Encoded(m: DnsMessage): seq<byte> {
    PutQuestions(Cursor(HeaderBytes(m), HEADER_SIZE), m.questions).buffer
  }

  lemma {:induction false} PutLabelsSnoc(c: Cursor, labels: seq<seq<byte>>, l: seq<byte>)
    ensures PutLabels(c, labels + [l]) == PutLabel(PutLabels(c, labels), l)
    decreases |labels|
  {
    hide PutLabel;
    if labels == [] {
      assert [l][1..] == [];
    } else {
      assert (labels + [l])[1..] == labels[1..] + [l];
      PutLabelsSnoc(PutLabel(c, labels[0]), labels[1..], l);
    }
  }

  lemma {:induction false} PutQuestionsSnoc(c: Cursor, qs: seq<DnsQuestion>, q: DnsQuestion)
    ensures PutQuestions(c, qs + [q]) == PutQuestion(PutQuestions(c, qs), q)
    decreases |qs|
  {
    hide PutQuestion;
    if qs == [] {
      assert [q][1..] == [];
    } else {
      assert (qs + [q])[1..] == qs[1..] + [q];
      PutQuestionsSnoc(PutQuestion(c, qs[0]), qs[1..], q);
    }
  }

  method ToBuffer(m: DnsMessage) returns (buffer: seq<byte>)
    ensures buffer == Encoded(m)
  {
    hide HeaderBytes, PutQuestion;
    buffer := HeaderBytes(m);
    var offset: word := HEADER_SIZE;
    ghost var start := Cursor(buffer, offset);
    for i := 0 to |m.questions|
      invariant Cursor(buffer, offset) == PutQuestions(start, m.questions[..i])
    {
      PutQuestionsSnoc(start, m.questions[..i], m.questions[i]);
      assert m.questions[..i + 1] == m.questions[..i] + [m.questions[i]];
      buffer, offset := EncodeQuestion(buffer, offset, m.questions[i]);
    }
    assert m.questions[..|m.questions|] == m.questions;
  }

  method EncodeQuestion(before: seq<byte>, start: word, q: DnsQuestion)
    returns (buffer: seq<byte>, offset: word)
    ensures Cursor(buffer, offset) == PutQuestion(Cursor(before, start), q)
  {
    hide PutLabel;
    buffer, offset := before, start;
    var labels := Split(q.name, DOT);
    for j := 0 to |labels|
      invariant Cursor(buffer, offset) == PutLabels(Cursor(before, start), labels[..j])
    {
      PutLabelsSnoc(Cursor(before, start), labels[..j], labels[j]);
      assert labels[..j + 1] == labels[..j] + [labels[j]];
      buffer, offset := EncodeLabel(buffer, offset, labels[j]);
    }
    assert labels[..|labels|] == labels;
    buffer := Resize(buffer, offset + 1);
    buffer := Put(buffer, offset, [0]);
    offset := Wrap(offset + 1);
    buffer := Resize(buffer, offset + 4);
    buffer := Put(buffer, offset, WordBytes(q.qtype) + WordBytes(q.qclass));
  }

  method EncodeLabel(before: seq<byte>, start: word, l: seq<byte>)
    returns (buffer: seq<byte>, offset: word)
    ensures Cursor(buffer, offset) == PutLabel(Cursor(before, start), l)
  {
    buffer, offset := before, start;
    buffer := Resize(buffer, offset + |l| + 1);
    buffer := Put(buffer, offset, [|l| % 0x100]);
    buffer := Put(buffer, offset + 1, l);
    offset := Wrap(offset + |l| + 1);
  }
}
