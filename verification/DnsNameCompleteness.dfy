/**
 Which addresses encode a name at all, however many pointers it may take.
 */
module DnsNameCompleteness {
  import opened Wire
  import opened DnsParser
  import opened DnsNameSpec
  import opened DnsDivergence

  /** A name that stays inside the buffer does so with any budget under which its decoding returns. */
  lemma {:induction false} ContainedInFewer(mem: Memory, tail: nat, o: nat, h: nat, hops: nat, marked: bool)
    requires Contained(mem, tail, o, h, marked) && !Scan(mem, tail, o, hops).Diverges?
    ensures Contained(mem, tail, o, hops, marked)
    decreases h, tail - o
  {
    var len := At(mem, o);
    if len == 0 {
    } else if len < 64 {
      ContainedInFewer(mem, tail, o + 1 + len, h, hops, marked);
    } else {
      ContainedStarts(mem, tail, Target(mem, o), h - 1, marked);
      ContainedInFewer(mem, tail, Target(mem, o), h - 1, hops - 1, marked);
    }
  }

  lemma ContainedStarts(mem: Memory, tail: nat, o: nat, h: nat, marked: bool)
    requires Contained(mem, tail, o, h, marked)
    ensures o < tail
  {}

  /** No name takes more than `tail` pointers. */
  lemma {:induction false} TailPointersSuffice(mem: Memory, tail: nat, o: nat, labels: seq<seq<byte>>, h: nat)
    requires NameAt(mem, tail, o, labels, h)
    ensures NameAt(mem, tail, o, labels, tail)
  {
    hide Scan;
    if h <= tail {
      NameMoreHops(mem, tail, o, labels, h, tail);
    } else {
      NameIsContained(mem, tail, o, labels, h);
      ContainedStarts(mem, tail, o, h, true);
      ScanOfName(mem, tail, o, labels, h, h);
      TailHopsAreExact(mem, tail, o);
      ContainedInFewer(mem, tail, o, h, tail, true);
      NameOfScan(mem, tail, o, tail);
      NameIsUnique(mem, tail, o, labels, h, Texts(mem, Scan(mem, tail, o, tail).value), tail);
    }
  }

  /**
   Without any assumption on the pointers' direction or number: some labels are encoded at `o` exactly
   when decoding stays inside the buffer and every pointer starts with bits 11, and then `parseName`
   returns them.
   */
  lemma EncodedIffContained(mem: Memory, tail: nat, o: nat)
    ensures (exists labels, h: nat :: NameAt(mem, tail, o, labels, h)) <==> Contained(mem, tail, o, tail, true)
    ensures forall labels, h: nat :: NameAt(mem, tail, o, labels, h) ==>
              Name(mem, tail, o).Parsed? && Name(mem, tail, o).value == Dotted(labels)
  {
    if Contained(mem, tail, o, tail, true) {
      NameOfScan(mem, tail, o, tail);
      assert exists labels, h: nat :: NameAt(mem, tail, o, labels, h);
    }
    forall labels, h: nat | NameAt(mem, tail, o, labels, h)
      ensures Contained(mem, tail, o, tail, true)
      ensures Name(mem, tail, o).Parsed? && Name(mem, tail, o).value == Dotted(labels)
    {
      TailPointersSuffice(mem, tail, o, labels, h);
      NameIsContained(mem, tail, o, labels, tail);
      ScanOfName(mem, tail, o, labels, tail, tail);
    }
  }
}
