/**
 Section 4.1.4 of RFC 1035 as a relation between an address and a list of labels, and the proof
 that the decoder computes it.
 */
module DnsNameSpec {
  import opened Wire
  import opened DnsParser

  /**
   The bytes at `o` encode `labels` within `tail`, using at most `hops` pointers: a zero byte ends
   the name, a byte of 1 to 63 starts a label, and a byte that starts with bits 11 starts a pointer
   to the rest of the name.
   */
  ghost predicate NameAt(mem: Memory, tail: nat, o: nat, labels: seq<seq<byte>>, hops: nat)
    decreases hops, tail - o
  {
    o < tail &&
    var len := At(mem, o);
    if len == 0 then labels == []
    else if len < 64 then
      && o + 1 + len < tail
      && labels != [] && labels[0] == Slice(mem, o + 1, len)
      && NameAt(mem, tail, o + 1 + len, labels[1..], hops)
    else
      && len >= 192 && o + 1 < tail && hops > 0
      && NameAt(mem, tail, Target(mem, o), labels, hops - 1)
  }

  /**
   The name is terminated inside the buffer, its pointers start with bits 11, and each of them
   refers to a prior occurrence: before `seg`, the start of the segment that contains it.
   */
  ghost predicate WellFormed(mem: Memory, tail: nat, seg: nat, o: nat)
    decreases seg, tail - o
  {
    o < tail &&
    var len := At(mem, o);
    if len == 0 then true
    else if len < 64 then o + 1 + len < tail && WellFormed(mem, tail, seg, o + 1 + len)
    else
      && len >= 192 && o + 1 < tail && Target(mem, o) < seg
      && WellFormed(mem, tail, Target(mem, o), Target(mem, o))
  }

  /**
   Every byte that decoding looks at lies before `tail`. With `marked`, its pointers also start
   with bits 11; the decoder itself does not ask for that.
   */
  ghost predicate Contained(mem: Memory, tail: nat, o: nat, hops: nat, marked: bool)
    decreases hops, tail - o
  {
    o < tail &&
    var len := At(mem, o);
    if len == 0 then true
    else if len < 64 then o + 1 + len < tail && Contained(mem, tail, o + 1 + len, hops, marked)
    else
      && (marked ==> len >= 192) && o + 1 < tail && hops > 0
      && Contained(mem, tail, Target(mem, o), hops - 1, marked)
  }

  /**
   What a name occupies where it stands: its own labels with their length bytes, then one byte for
   a terminator or two for a pointer.
   */
  ghost predicate Footprint(mem: Memory, o: nat, own: seq<seq<byte>>, size: nat)
    decreases own
  {
    var len := At(mem, o);
    if own == [] then (len == 0 && size == 1) || (len >= 64 && size == 2)
    else
      && own[0] == Slice(mem, o + 1, len)
      && size >= len + 1 && Footprint(mem, o + 1 + len, own[1..], size - len - 1)
  }

  // Soundness: the relation determines what the decoder returns.

  lemma {:induction false} ScanOfName(mem: Memory, tail: nat, o: nat, labels: seq<seq<byte>>, h: nat, hops: nat)
    requires NameAt(mem, tail, o, labels, h) && h <= hops
    ensures Scan(mem, tail, o, hops).Parsed?
    ensures Texts(mem, Scan(mem, tail, o, hops).value) == labels
    decreases h, tail - o
  {
    var len := At(mem, o);
    if len == 0 {
    } else if len < 64 {
      ScanOfName(mem, tail, o + 1 + len, labels[1..], h, hops);
      var rest := Scan(mem, tail, o + len + 1, hops).value;
      assert ([o] + rest)[1..] == rest;
    } else {
      ScanOfName(mem, tail, Target(mem, o), labels, h - 1, hops - 1);
    }
  }

  // Completeness: a contained name encodes what the decoder returns.

  lemma {:induction false} NameOfScan(mem: Memory, tail: nat, o: nat, hops: nat)
    requires Contained(mem, tail, o, hops, true)
    ensures Scan(mem, tail, o, hops).Parsed?
    ensures NameAt(mem, tail, o, Texts(mem, Scan(mem, tail, o, hops).value), hops)
    decreases hops, tail - o
  {
    var len := At(mem, o);
    if len == 0 {
    } else if len < 64 {
      NameOfScan(mem, tail, o + 1 + len, hops);
      var rest := Scan(mem, tail, o + len + 1, hops).value;
      assert ([o] + rest)[1..] == rest;
      assert Texts(mem, [o] + rest)[1..] == Texts(mem, rest);
    } else {
      NameOfScan(mem, tail, Target(mem, o), hops - 1);
    }
  }

  lemma {:induction false} NameIsContained(mem: Memory, tail: nat, o: nat, labels: seq<seq<byte>>, hops: nat)
    requires NameAt(mem, tail, o, labels, hops)
    ensures Contained(mem, tail, o, hops, true)
    decreases hops, tail - o
  {
    var len := At(mem, o);
    if len == 0 {
    } else if len < 64 {
      NameIsContained(mem, tail, o + 1 + len, labels[1..], hops);
    } else {
      NameIsContained(mem, tail, Target(mem, o), labels, hops - 1);
    }
  }

  lemma {:induction false} NameMoreHops(mem: Memory, tail: nat, o: nat, labels: seq<seq<byte>>, h: nat, hops: nat)
    requires NameAt(mem, tail, o, labels, h) && h <= hops
    ensures NameAt(mem, tail, o, labels, hops)
    decreases h, tail - o
  {
    var len := At(mem, o);
    if len == 0 {
    } else if len < 64 {
      NameMoreHops(mem, tail, o + 1 + len, labels[1..], h, hops);
    } else {
      NameMoreHops(mem, tail, Target(mem, o), labels, h - 1, hops - 1);
    }
  }

  /** The relation is functional. */
  lemma {:induction false} NameIsUnique(mem: Memory, tail: nat, o: nat,
                     a: seq<seq<byte>>, h: nat, b: seq<seq<byte>>, k: nat)
    requires NameAt(mem, tail, o, a, h) && NameAt(mem, tail, o, b, k)
    ensures a == b
  {
    ScanOfName(mem, tail, o, a, h, h + k);
    ScanOfName(mem, tail, o, b, k, h + k);
  }

  /** A well-formed name takes fewer hops than the start of its segment: each one goes back. */
  lemma {:induction false} WellFormedIsContained(mem: Memory, tail: nat, seg: nat, o: nat, hops: nat)
    requires WellFormed(mem, tail, seg, o) && seg <= hops
    ensures Contained(mem, tail, o, hops, true)
    decreases seg, tail - o
  {
    var len := At(mem, o);
    if len == 0 {
    } else if len < 64 {
      WellFormedIsContained(mem, tail, seg, o + 1 + len, hops);
    } else {
      WellFormedIsContained(mem, tail, Target(mem, o), Target(mem, o), hops - 1);
    }
  }

  lemma {:induction false} MarkedIsContained(mem: Memory, tail: nat, o: nat, hops: nat)
    requires Contained(mem, tail, o, hops, true)
    ensures Contained(mem, tail, o, hops, false)
    decreases hops, tail - o
  {
    var len := At(mem, o);
    if len == 0 {
    } else if len < 64 {
      MarkedIsContained(mem, tail, o + 1 + len, hops);
    } else {
      MarkedIsContained(mem, tail, Target(mem, o), hops - 1);
    }
  }

  /** The labels of a name before its first pointer. */
  function OwnLabels(mem: Memory, tail: nat, o: nat): seq<seq<byte>>
    decreases tail - o
  {
    var len := At(mem, o);
    if len == 0 || len >= 64 || o >= tail then []
    else [Slice(mem, o + 1, len)] + OwnLabels(mem, tail, o + 1 + len)
  }

  lemma {:induction false} ScanFootprint(mem: Memory, tail: nat, o: nat, hops: nat)
    requires Contained(mem, tail, o, hops, false)
    ensures Scan(mem, tail, o, hops).Parsed?
    ensures Footprint(mem, o, OwnLabels(mem, tail, o), Scan(mem, tail, o, hops).size)
    ensures o + Scan(mem, tail, o, hops).size <= tail
    ensures OwnLabels(mem, tail, o) <= Texts(mem, Scan(mem, tail, o, hops).value)
    decreases hops, tail - o
  {
    var len := At(mem, o);
    if len == 0 {
    } else if len < 64 {
      ScanFootprint(mem, tail, o + 1 + len, hops);
      var rest := Scan(mem, tail, o + len + 1, hops).value;
      assert ([o] + rest)[1..] == rest;
      assert OwnLabels(mem, tail, o)[1..] == OwnLabels(mem, tail, o + 1 + len);
    } else {
      ScanFootprint(mem, tail, Target(mem, o), hops - 1);
    }
  }

  /**
   The decoder refines section 4.1.4 of RFC 1035: at a well-formed address the relation holds of
   exactly one list of labels, it needs at most `o` pointers, and `parseName` returns that list
   dotted, with the local footprint for its size.
   */
  lemma NameRefinesRfc1035(mem: Memory, tail: nat, o: nat) returns (labels: seq<seq<byte>>)
    requires WellFormed(mem, tail, o, o)
    ensures NameAt(mem, tail, o, labels, o)
    ensures forall other, h: nat :: NameAt(mem, tail, o, other, h) ==> other == labels
    ensures Name(mem, tail, o).Parsed? && Name(mem, tail, o).value == Dotted(labels)
    ensures OwnLabels(mem, tail, o) <= labels
    ensures Footprint(mem, o, OwnLabels(mem, tail, o), Name(mem, tail, o).size)
    ensures o + Name(mem, tail, o).size <= tail
  {
    WellFormedIsContained(mem, tail, o, o, o);
    WellFormedIsContained(mem, tail, o, o, tail);
    MarkedIsContained(mem, tail, o, tail);
    NameOfScan(mem, tail, o, o);
    labels := Texts(mem, Scan(mem, tail, o, o).value);
    ScanOfName(mem, tail, o, labels, o, tail);
    ScanFootprint(mem, tail, o, tail);
    forall other, h: nat | NameAt(mem, tail, o, other, h)
      ensures other == labels
    {
      NameIsUnique(mem, tail, o, other, h, labels, o);
    }
  }

  // The decoder accepts names that RFC 1035 does not define.

  lemma AcceptsUnterminatedName()
    ensures Name([1, 97], 2, 0) == Parsed([97, DOT], 3)
    ensures !Contained([1, 97], 2, 0, 2, false)
  {
    assert Scan([1, 97], 2, 2, 2) == Parsed([], 1);
    assert Texts([1, 97], [0]) == [[97]] by {
      assert Text([1, 97], 0) == [97];
    }
    assert Dotted([[97]]) == [97, DOT];
  }

  lemma AcceptsReservedBits()
    ensures Name([0, 64, 0], 3, 1) == Parsed([], 2)
    ensures forall labels, h: nat :: !NameAt([0, 64, 0], 3, 1, labels, h)
  {
    assert Target([0, 64, 0], 1) == 0;
    assert Scan([0, 64, 0], 3, 0, 2) == Parsed([], 1);
  }
}
