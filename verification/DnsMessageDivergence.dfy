/**
 Exactly for which messages parsing does not return: some name that the parser reaches comes back, pointer
 by pointer, to a segment it has left.
 */
module DnsMessageDivergence {
  import opened Wire
  import opened DnsParser
  import opened DnsMessage
  import opened DnsDivergence

  /** The name at `o` is not the root, and its pointers form a cycle. */
  ghost predicate NameLoops(mem: Memory, tail: nat, o: nat) {
    At(mem, o) != 0 && exists i: nat, j: nat :: Revisits(mem, tail, o, i, j)
  }

  lemma NameDivergesIffLoops(mem: Memory, tail: nat, o: nat)
    ensures Name(mem, tail, o).Diverges? <==> NameLoops(mem, tail, o)
  {
    hide Scan;
    if o < tail {
      TailHopsAreExact(mem, tail, o);
    } else {
      forall i: nat, j: nat
        ensures !Revisits(mem, tail, o, i, j)
      {
        assert Next(mem, tail, o).None?;
      }
    }
  }

  ghost predicate QuestionLoops(mem: Memory, end: nat, o: nat) {
    o + 6 <= end && NameLoops(mem, end, o)
  }

  /** The data of a record: a host name, or the target of a service within its record. */
  ghost predicate DataLoops(mem: Memory, end: nat, t: word, data: nat, size: nat) {
    || (NameValued(t) && NameLoops(mem, end, data))
    || (t == TYPE_SRV && size >= 8 && NameLoops(mem, data + size, data + 6))
  }

  /** The record's owner loops, or it is whole and its data loops. */
  ghost predicate RecordLoops(mem: Memory, end: nat, o: nat) {
    && o + 6 <= end
    && (NameLoops(mem, end, o)
        || (&& Name(mem, end, o).Parsed?
            && var fixed := o + Name(mem, end, o).size;
               var size := U16At(mem, fixed + 8);
               && fixed + 10 + size <= end
               && DataLoops(mem, end, CastType(U16At(mem, fixed)), fixed + 10, size)))
  }

  lemma QuestionDivergesIffLoops(mem: Memory, end: nat, o: nat)
    ensures Question(mem, end, o).Diverges? <==> QuestionLoops(mem, end, o)
  {
    hide Name, NameLoops;
    NameDivergesIffLoops(mem, end, o);
  }

  lemma DataDivergesIffLoops(mem: Memory, end: nat, t: word, data: nat, size: nat)
    ensures Data(mem, end, t, data, size).Diverges? <==> DataLoops(mem, end, t, data, size)
  {
    hide Name, NameLoops, LoadHostDword, Slice, At, U16At;
    NameDivergesIffLoops(mem, end, data);
    NameDivergesIffLoops(mem, data + size, data + 6);
  }

  lemma RecordDivergesIffLoops(mem: Memory, end: nat, o: nat)
    ensures Record(mem, end, o).Diverges? <==> RecordLoops(mem, end, o)
  {
    hide Name, NameLoops, Data, DataLoops, U16At, CastType;
    NameDivergesIffLoops(mem, end, o);
    var fixed := o + SizeOf(Name(mem, end, o));
    DataDivergesIffLoops(mem, end, CastType(U16At(mem, fixed)), fixed + 10, U16At(mem, fixed + 8));
  }

  // What the parser reaches.

  /** One of `count` questions from `o` on starts at `p`, and all before it are accepted. */
  ghost predicate QuestionReached(mem: Memory, end: nat, o: nat, count: nat, p: nat)
    decreases count
  {
    count > 0
    && (p == o
        || (Question(mem, end, o).Parsed?
            && QuestionReached(mem, end, o + Question(mem, end, o).size, count - 1, p)))
  }

  ghost predicate RecordReached(mem: Memory, end: nat, o: nat, count: nat, p: nat)
    decreases count
  {
    count > 0
    && (p == o
        || (Record(mem, end, o).Parsed?
            && RecordReached(mem, end, o + Record(mem, end, o).size, count - 1, p)))
  }

  /** The same over sections of records. */
  ghost predicate SectionReached(mem: Memory, end: nat, o: nat, counts: seq<nat>, p: nat)
    decreases |counts|
  {
    counts != []
    && (RecordReached(mem, end, o, counts[0], p)
        || (Records(mem, end, o, counts[0]).Parsed?
            && SectionReached(mem, end, o + Records(mem, end, o, counts[0]).size, counts[1..], p)))
  }

  lemma {:induction false} QuestionsDivergeIffOneDoes(mem: Memory, end: nat, o: nat, count: nat)
    ensures Questions(mem, end, o, count).Diverges?
            <==> exists p :: QuestionReached(mem, end, o, count, p) && QuestionLoops(mem, end, p)
    decreases count
  {
    hide Question, QuestionLoops;
    if count > 0 {
      QuestionDivergesIffLoops(mem, end, o);
      assert QuestionReached(mem, end, o, count, o);
      if Question(mem, end, o).Parsed? {
        var next := o + Question(mem, end, o).size;
        QuestionsDivergeIffOneDoes(mem, end, next, count - 1);
        assert forall p :: QuestionReached(mem, end, o, count, p)
                           <==> p == o || QuestionReached(mem, end, next, count - 1, p);
      }
    }
  }

  lemma {:induction false} RecordsDivergeIffOneDoes(mem: Memory, end: nat, o: nat, count: nat)
    ensures Records(mem, end, o, count).Diverges?
            <==> exists p :: RecordReached(mem, end, o, count, p) && RecordLoops(mem, end, p)
    decreases count
  {
    hide Record, RecordLoops;
    if count > 0 {
      RecordDivergesIffLoops(mem, end, o);
      assert RecordReached(mem, end, o, count, o);
      if Record(mem, end, o).Parsed? {
        var next := o + Record(mem, end, o).size;
        RecordsDivergeIffOneDoes(mem, end, next, count - 1);
        assert forall p :: RecordReached(mem, end, o, count, p)
                           <==> p == o || RecordReached(mem, end, next, count - 1, p);
      }
    }
  }

  lemma {:induction false} SectionsDivergeIffOneDoes(mem: Memory, end: nat, o: nat, counts: seq<nat>)
    ensures Sections(mem, end, o, counts).Diverges?
            <==> exists p :: SectionReached(mem, end, o, counts, p) && RecordLoops(mem, end, p)
    decreases |counts|
  {
    hide Records, RecordLoops, RecordReached;
    if counts != [] {
      RecordsDivergeIffOneDoes(mem, end, o, counts[0]);
      var here := Records(mem, end, o, counts[0]);
      if here.Parsed? {
        SectionsDivergeIffOneDoes(mem, end, o + here.size, counts[1..]);
        assert forall p :: SectionReached(mem, end, o, counts, p)
                           <==> RecordReached(mem, end, o, counts[0], p)
                                || SectionReached(mem, end, o + here.size, counts[1..], p);
      }
    }
  }

  /**
   `fromBuffer` does not return if and only if the parser reaches a question whose name loops, or, all
   questions being accepted, a record whose owner, host name or service target loops.
   */
  lemma MessageDivergesIffNameLoops(mem: Memory, size: nat)
    ensures Message(mem, size).Diverges? <==>
            && size >= HEADER_SIZE
            && var questions := Questions(mem, size, HEADER_SIZE, U16At(mem, 4));
               || (exists p :: QuestionReached(mem, size, HEADER_SIZE, U16At(mem, 4), p) && QuestionLoops(mem, size, p))
               || (questions.Parsed?
                   && exists p :: SectionReached(mem, size, HEADER_SIZE + questions.size, RecordCounts(mem), p)
                                  && RecordLoops(mem, size, p))
  {
    hide Questions, Sections, QuestionReached, SectionReached, QuestionLoops, RecordLoops, HeaderAt, U16At,
         RecordCounts;
    if size >= HEADER_SIZE {
      var questions := Questions(mem, size, HEADER_SIZE, U16At(mem, 4));
      QuestionsDivergeIffOneDoes(mem, size, HEADER_SIZE, U16At(mem, 4));
      if questions.Parsed? {
        SectionsDivergeIffOneDoes(mem, size, HEADER_SIZE + questions.size, RecordCounts(mem));
      }
    }
  }
}
