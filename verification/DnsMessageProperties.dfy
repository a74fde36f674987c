/**
 What a successful parse of a DNS message says about the buffer.
 */
module DnsMessageProperties {
  import opened Wire
  import opened DnsParser
  import opened DnsNameSpec
  import opened DnsMessage

  // Successful parses tile the buffer.

  /** A name whose reported size fits before the tail is terminated or ends in a whole pointer there. */
  lemma {:induction false} FittingFootprint(mem: Memory, tail: nat, o: nat, hops: nat)
    requires Scan(mem, tail, o, hops).Parsed? && o + Scan(mem, tail, o, hops).size <= tail
    ensures Footprint(mem, o, OwnLabels(mem, tail, o), Scan(mem, tail, o, hops).size)
    decreases tail - o
  {
    var len := At(mem, o);
    if 0 < len < 64 && o < tail {
      FittingFootprint(mem, tail, o + 1 + len, hops);
      assert OwnLabels(mem, tail, o)[1..] == OwnLabels(mem, tail, o + 1 + len);
    }
  }

  /** The name at `o` parses to `name` and occupies the bytes up to `to`. */
  ghost predicate NameSpan(mem: Memory, end: nat, o: nat, name: seq<byte>, to: nat) {
    && o < to <= end
    && Name(mem, end, o) == Parsed(name, to - o)
    && Footprint(mem, o, OwnLabels(mem, end, o), to - o)
  }

  lemma NameSpans(mem: Memory, end: nat, o: nat)
    requires Name(mem, end, o).Parsed? && o + Name(mem, end, o).size <= end
    ensures NameSpan(mem, end, o, Name(mem, end, o).value, o + Name(mem, end, o).size)
  {
    if At(mem, o) != 0 {
      FittingFootprint(mem, end, o, end);
    }
  }

  /** The question `q` is the bytes from `from` to `to`: a name, then four bytes. */
  ghost predicate QuestionSpan(mem: Memory, end: nat, from: nat, q: DnsQuestion, to: nat) {
    from < to <= end && to - from > 4
    && NameSpan(mem, end, from, q.name, to - 4)
    && q.qtype == CastType(U16At(mem, to - 4)) && q.qclass == CastClass(U16At(mem, to - 2))
  }

  /**
   The record `r` is the bytes from `from` to `to`: an owner name, ten bytes, and RDLENGTH bytes of
   data, which a name-valued record fills with exactly one name.
   */
  ghost predicate RecordSpan(mem: Memory, end: nat, from: nat, r: DnsResourceRecord, to: nat) {
    && from < to <= end
    && Name(mem, end, from).Parsed?
    && var fixed := from + Name(mem, end, from).size;
       && NameSpan(mem, end, from, r.name, fixed)
       && to == fixed + 10 + U16At(mem, fixed + 8)
       && (r.data.HostName? && to > fixed + 10 ==> NameSpan(mem, end, fixed + 10, r.data.host, to))
  }

  lemma QuestionSpans(mem: Memory, end: nat, o: nat)
    requires Question(mem, end, o).Parsed?
    ensures QuestionSpan(mem, end, o, Question(mem, end, o).value, o + Question(mem, end, o).size)
  {
    hide Name;
    NameSpans(mem, end, o);
  }

  lemma RecordSpans(mem: Memory, end: nat, o: nat)
    requires Record(mem, end, o).Parsed?
    ensures RecordSpan(mem, end, o, Record(mem, end, o).value, o + Record(mem, end, o).size)
  {
    hide Name;
    NameSpans(mem, end, o);
    var fixed := o + Name(mem, end, o).size;
    var host := Name(mem, end, fixed + 10);
    if Record(mem, end, o).value.data.HostName? && U16At(mem, fixed + 8) > 0 {
      NameSpans(mem, end, fixed + 10);
    }
  }

  /** `cuts` divides the bytes from `cuts[0]` to its last element into the spans of `qs`. */
  ghost predicate QuestionsTile(mem: Memory, end: nat, qs: seq<DnsQuestion>, cuts: seq<nat>) {
    |cuts| == |qs| + 1
    && forall i :: 0 <= i < |qs| ==> QuestionSpan(mem, end, cuts[i], qs[i], cuts[i + 1])
  }

  ghost predicate RecordsTile(mem: Memory, end: nat, rs: seq<DnsResourceRecord>, cuts: seq<nat>) {
    |cuts| == |rs| + 1
    && forall i :: 0 <= i < |rs| ==> RecordSpan(mem, end, cuts[i], rs[i], cuts[i + 1])
  }

  lemma {:induction false} QuestionsAreTiled(mem: Memory, end: nat, o: nat, count: nat) returns (cuts: seq<nat>)
    requires Questions(mem, end, o, count).Parsed?
    ensures |Questions(mem, end, o, count).value| == count
    ensures QuestionsTile(mem, end, Questions(mem, end, o, count).value, cuts)
    ensures cuts[0] == o && cuts[count] == o + Questions(mem, end, o, count).size
    decreases count
  {
    hide Question;
    if count == 0 {
      cuts := [o];
    } else {
      QuestionSpans(mem, end, o);
      var more := QuestionsAreTiled(mem, end, o + Question(mem, end, o).size, count - 1);
      cuts := [o] + more;
    }
  }

  lemma {:induction false} RecordsAreTiled(mem: Memory, end: nat, o: nat, count: nat) returns (cuts: seq<nat>)
    requires Records(mem, end, o, count).Parsed?
    ensures |Records(mem, end, o, count).value| == count
    ensures RecordsTile(mem, end, Records(mem, end, o, count).value, cuts)
    ensures cuts[0] == o && cuts[count] == o + Records(mem, end, o, count).size
    decreases count
  {
    hide Record;
    if count == 0 {
      cuts := [o];
    } else {
      RecordSpans(mem, end, o);
      var more := RecordsAreTiled(mem, end, o + Record(mem, end, o).size, count - 1);
      cuts := [o] + more;
    }
  }

  lemma {:induction false} CutsEnd(mem: Memory, end: nat, o: nat, count: nat)
    requires Records(mem, end, o, count).Parsed? && o <= end
    ensures o + Records(mem, end, o, count).size <= end
    decreases count
  {
    hide Record;
    if count > 0 {
      CutsEnd(mem, end, o + Record(mem, end, o).size, count - 1);
    }
  }

  lemma {:induction false} QuestionsEnd(mem: Memory, end: nat, o: nat, count: nat)
    requires Questions(mem, end, o, count).Parsed? && o <= end
    ensures o + Questions(mem, end, o, count).size <= end
    decreases count
  {
    hide Question;
    if count > 0 {
      QuestionsEnd(mem, end, o + Question(mem, end, o).size, count - 1);
    }
  }

  lemma SectionStep(mem: Memory, end: nat, o: nat, counts: seq<nat>)
    requires counts != [] && Sections(mem, end, o, counts).Parsed? && o <= end
    ensures var a := Records(mem, end, o, counts[0]);
            && a.Parsed? && o + a.size <= end
            && Sections(mem, end, o + a.size, counts[1..]).Parsed?
            && Sections(mem, end, o, counts) == Cons(a.value, a.size, Sections(mem, end, o + a.size, counts[1..]))
  {
    hide Records;
    CutsEnd(mem, end, o, counts[0]);
  }

  lemma LastSection(mem: Memory, end: nat, o: nat, z: nat) returns (c: Parse<seq<DnsResourceRecord>>)
    requires Sections(mem, end, o, [z]).Parsed? && o <= end
    ensures c == Records(mem, end, o, z)
    ensures c.Parsed? && o + c.size <= end
    ensures Sections(mem, end, o, [z]) == Parsed([c.value], c.size)
  {
    hide Records;
    SectionStep(mem, end, o, [z]);
    assert [z][1..] == [];
    c := Records(mem, end, o, z);
    assert [c.value] + [] == [c.value];
  }

  lemma LastTwoSections(mem: Memory, end: nat, o: nat, y: nat, z: nat)
    returns (b: Parse<seq<DnsResourceRecord>>, c: Parse<seq<DnsResourceRecord>>)
    requires Sections(mem, end, o, [y, z]).Parsed? && o <= end
    ensures b == Records(mem, end, o, y) && b.Parsed?
    ensures c == Records(mem, end, o + b.size, z) && c.Parsed? && o + b.size + c.size <= end
    ensures Sections(mem, end, o, [y, z]) == Parsed([b.value, c.value], b.size + c.size)
  {
    hide Records, Sections;
    SectionStep(mem, end, o, [y, z]);
    assert [y, z][1..] == [z];
    b := Records(mem, end, o, y);
    c := LastSection(mem, end, o + b.size, z);
    assert [b.value] + [c.value] == [b.value, c.value];
  }

  /** The three record sections start where the one before ends. */
  lemma SectionParts(mem: Memory, end: nat, o: nat, x: nat, y: nat, z: nat)
    returns (a: Parse<seq<DnsResourceRecord>>, b: Parse<seq<DnsResourceRecord>>, c: Parse<seq<DnsResourceRecord>>)
    requires Sections(mem, end, o, [x, y, z]).Parsed? && o <= end
    ensures a == Records(mem, end, o, x) && a.Parsed?
    ensures b == Records(mem, end, o + a.size, y) && b.Parsed?
    ensures c == Records(mem, end, o + a.size + b.size, z) && c.Parsed?
    ensures o + a.size + b.size + c.size <= end
    ensures Sections(mem, end, o, [x, y, z]) == Parsed([a.value, b.value, c.value], a.size + b.size + c.size)
  {
    hide Records, Sections;
    SectionStep(mem, end, o, [x, y, z]);
    assert [x, y, z][1..] == [y, z];
    a := Records(mem, end, o, x);
    b, c := LastTwoSections(mem, end, o + a.size, y, z);
    assert [a.value] + [b.value, c.value] == [a.value, b.value, c.value];
  }

  /**
   The questions and records of an accepted message occupy consecutive spans of positive length that
   start at 12 and end within the buffer. There are as many of each as the header says, except that
   a message that is not a response has no records.
   */
  lemma SuccessTilesBuffer(mem: Memory, size: nat)
    returns (questions: seq<nat>, answers: seq<nat>, authority: seq<nat>, additional: seq<nat>)
    requires Message(mem, size).Parsed?
    ensures var m := Message(mem, size).value;
            && |m.questions| == U16At(mem, 4)
            && |m.answers| == (if m.header.isResponse then U16At(mem, 6) else 0)
            && |m.authorityAnswers| == (if m.header.isResponse then U16At(mem, 8) else 0)
            && |m.additionalAnswers| == (if m.header.isResponse then U16At(mem, 10) else 0)
            && QuestionsTile(mem, size, m.questions, questions)
            && RecordsTile(mem, size, m.answers, answers)
            && RecordsTile(mem, size, m.authorityAnswers, authority)
            && RecordsTile(mem, size, m.additionalAnswers, additional)
            && questions[0] == 12
            && questions[|questions| - 1] == answers[0]
            && answers[|answers| - 1] == authority[0]
            && authority[|authority| - 1] == additional[0]
            && additional[|additional| - 1] == Message(mem, size).size <= size
  {
    hide Records, Questions, Sections;
    var counts := RecordCounts(mem);
    questions := QuestionsAreTiled(mem, size, HEADER_SIZE, U16At(mem, 4));
    QuestionsEnd(mem, size, HEADER_SIZE, U16At(mem, 4));
    var o := HEADER_SIZE + Questions(mem, size, HEADER_SIZE, U16At(mem, 4)).size;
    assert counts == [counts[0], counts[1], counts[2]];
    var a, b, c := SectionParts(mem, size, o, counts[0], counts[1], counts[2]);
    answers := RecordsAreTiled(mem, size, o, counts[0]);
    o := o + a.size;
    authority := RecordsAreTiled(mem, size, o, counts[1]);
    o := o + b.size;
    additional := RecordsAreTiled(mem, size, o, counts[2]);
  }

  // Bytes after a message do not change it.

  lemma {:induction false} ScanAgrees(mem: Memory, mem': Memory, tail: nat, tail': nat, o: nat, hops: nat, hops': nat)
    requires Contained(mem, tail, o, hops, false) && Agree(mem, mem', tail)
    requires tail <= tail' && hops <= hops'
    ensures Scan(mem', tail', o, hops') == Scan(mem, tail, o, hops)
    ensures Scan(mem, tail, o, hops).Parsed?
    ensures Texts(mem', Scan(mem, tail, o, hops).value) == Texts(mem, Scan(mem, tail, o, hops).value)
    decreases hops, tail - o
  {
    var len := At(mem, o);
    assert At(mem', o) == len;
    if len == 0 {
    } else if len < 64 {
      ScanAgrees(mem, mem', tail, tail', o + 1 + len, hops, hops');
      var rest := Scan(mem, tail, o + len + 1, hops).value;
      assert ([o] + rest)[1..] == rest;
      SliceAgree(mem, mem', tail, o + 1, len);
    } else {
      assert At(mem', o + 1) == At(mem, o + 1);
      ScanAgrees(mem, mem', tail, tail', Target(mem, o), hops - 1, hops' - 1);
    }
  }

  lemma NameAgrees(mem: Memory, mem': Memory, tail: nat, tail': nat, o: nat)
    requires Contained(mem, tail, o, tail, false) && Agree(mem, mem', tail) && tail <= tail'
    ensures Name(mem', tail', o) == Name(mem, tail, o)
    ensures Name(mem, tail, o).Parsed? && o + Name(mem, tail, o).size <= tail
  {
    ScanAgrees(mem, mem', tail, tail', o, tail, tail');
    ScanFootprint(mem, tail, o, tail);
    assert At(mem, o) == At(mem', o);
  }

  /** The names that parsing a record reaches are each contained in their own tail. */
  ghost predicate RecordContained(mem: Memory, end: nat, o: nat) {
    && Contained(mem, end, o, end, false)
    && Name(mem, end, o).Parsed?
    && var fixed := o + Name(mem, end, o).size;
       var t := CastType(U16At(mem, fixed));
       var size := U16At(mem, fixed + 8);
       && (NameValued(t) ==> Contained(mem, end, fixed + 10, end, false))
       && (t == TYPE_SRV ==>
             Contained(mem, fixed + 10 + size, fixed + 16, fixed + 10 + size, false))
  }

  ghost predicate RecordsContained(mem: Memory, end: nat, o: nat, count: nat)
    decreases count
  {
    count == 0
    || (RecordContained(mem, end, o) && Record(mem, end, o).Parsed?
        && RecordsContained(mem, end, o + Record(mem, end, o).size, count - 1))
  }

  ghost predicate QuestionsContained(mem: Memory, end: nat, o: nat, count: nat)
    decreases count
  {
    count == 0
    || (Contained(mem, end, o, end, false) && Question(mem, end, o).Parsed?
        && QuestionsContained(mem, end, o + Question(mem, end, o).size, count - 1))
  }

  ghost predicate SectionsContained(mem: Memory, end: nat, o: nat, counts: seq<nat>)
    decreases |counts|
  {
    counts == []
    || (RecordsContained(mem, end, o, counts[0]) && Records(mem, end, o, counts[0]).Parsed?
        && SectionsContained(mem, end, o + Records(mem, end, o, counts[0]).size, counts[1..]))
  }

  ghost predicate NamesContained(mem: Memory, size: nat) {
    && QuestionsContained(mem, size, HEADER_SIZE, U16At(mem, 4))
    && Questions(mem, size, HEADER_SIZE, U16At(mem, 4)).Parsed?
    && SectionsContained(mem, size, HEADER_SIZE + Questions(mem, size, HEADER_SIZE, U16At(mem, 4)).size,
                         RecordCounts(mem))
  }

  lemma QuestionAgrees(mem: Memory, mem': Memory, end: nat, end': nat, o: nat)
    requires Contained(mem, end, o, end, false) && Agree(mem, mem', end) && end <= end'
    requires Question(mem, end, o).Parsed?
    ensures Question(mem', end', o) == Question(mem, end, o)
  {
    hide Name, Contained;
    NameAgrees(mem, mem', end, end', o);
  }

  lemma DataAgrees(mem: Memory, mem': Memory, end: nat, end': nat, t: word, data: nat, size: nat)
    requires Agree(mem, mem', end) && end <= end' && data + size <= end
    requires NameValued(t) ==> Contained(mem, end, data, end, false)
    requires t == TYPE_SRV ==> Contained(mem, data + size, data + 6, data + size, false)
    requires Data(mem, end, t, data, size).Parsed?
    ensures Data(mem', end', t, data, size) == Data(mem, end, t, data, size)
  {
    hide Name, Contained, RecognisedType;
    if NameValued(t) {
      NameAgrees(mem, mem', end, end', data);
    } else if t == TYPE_SRV {
      NameAgrees(mem, mem', data + size, data + size, data + 6);
    } else if t == TYPE_TXT {
      SliceAgree(mem, mem', end, data + 1, size - 1);
    } else {
      SliceAgree(mem, mem', end, data, size);
    }
  }

  lemma RecordAgrees(mem: Memory, mem': Memory, end: nat, end': nat, o: nat)
    requires RecordContained(mem, end, o) && Agree(mem, mem', end) && end <= end'
    requires Record(mem, end, o).Parsed?
    ensures Record(mem', end', o) == Record(mem, end, o)
  {
    hide Name, Contained, Data;
    NameAgrees(mem, mem', end, end', o);
    var fixed := o + Name(mem, end, o).size;
    DataAgrees(mem, mem', end, end', CastType(U16At(mem, fixed)), fixed + 10, U16At(mem, fixed + 8));
  }

  lemma {:induction false} QuestionsAgree(mem: Memory, mem': Memory, end: nat, end': nat, o: nat, count: nat)
    requires QuestionsContained(mem, end, o, count) && Agree(mem, mem', end) && end <= end'
    requires Questions(mem, end, o, count).Parsed?
    ensures Questions(mem', end', o, count) == Questions(mem, end, o, count)
    decreases count
  {
    hide Question, Contained;
    if count > 0 {
      QuestionAgrees(mem, mem', end, end', o);
      QuestionsAgree(mem, mem', end, end', o + Question(mem, end, o).size, count - 1);
    }
  }

  lemma {:induction false} RecordsAgree(mem: Memory, mem': Memory, end: nat, end': nat, o: nat, count: nat)
    requires RecordsContained(mem, end, o, count) && Agree(mem, mem', end) && end <= end'
    requires Records(mem, end, o, count).Parsed?
    ensures Records(mem', end', o, count) == Records(mem, end, o, count)
    decreases count
  {
    hide Record, RecordContained;
    if count > 0 {
      RecordAgrees(mem, mem', end, end', o);
      RecordsAgree(mem, mem', end, end', o + Record(mem, end, o).size, count - 1);
    }
  }

  lemma {:induction false} SectionsAgree(mem: Memory, mem': Memory, end: nat, end': nat, o: nat, counts: seq<nat>)
    requires SectionsContained(mem, end, o, counts) && Agree(mem, mem', end) && end <= end'
    requires Sections(mem, end, o, counts).Parsed?
    ensures Sections(mem', end', o, counts) == Sections(mem, end, o, counts)
    decreases |counts|
  {
    hide Records, RecordsContained;
    if counts != [] {
      RecordsAgree(mem, mem', end, end', o, counts[0]);
      SectionsAgree(mem, mem', end, end', o + Records(mem, end, o, counts[0]).size, counts[1..]);
    }
  }

  /**
   If the first `size` bytes of a memory parse and every name that the parser reached is contained in
   its own tail, then any memory that starts with these bytes parses to the same message at every
   length from `size` on.
   */
  lemma TrailingBytesKeepMessage(mem: Memory, size: nat, mem': Memory, size': nat)
    requires Message(mem, size).Parsed? && NamesContained(mem, size)
    requires Agree(mem, mem', size) && size <= size'
    ensures Message(mem', size') == Message(mem, size)
  {
    hide Questions, Sections, QuestionsContained, SectionsContained;
    HeaderAgrees(mem, mem', size);
    QuestionsAgree(mem, mem', size, size', HEADER_SIZE, U16At(mem, 4));
    SectionsAgree(mem, mem', size, size', HEADER_SIZE + Questions(mem, size, HEADER_SIZE, U16At(mem, 4)).size,
                  RecordCounts(mem));
  }

  lemma HeaderAgrees(mem: Memory, mem': Memory, size: nat)
    requires Agree(mem, mem', size) && size >= HEADER_SIZE
    ensures HeaderAt(mem) == HeaderAt(mem') && RecordCounts(mem) == RecordCounts(mem')
    ensures U16At(mem, 4) == U16At(mem', 4)
  {
    assert forall i: nat :: i < 12 ==> At(mem, i) == At(mem', i);
    assert U16At(mem, 0) == U16At(mem', 0) && U16At(mem, 2) == U16At(mem', 2) && U16At(mem, 4) == U16At(mem', 4);
    assert U16At(mem, 6) == U16At(mem', 6) && U16At(mem, 8) == U16At(mem', 8) && U16At(mem, 10) == U16At(mem', 10);
  }
}
