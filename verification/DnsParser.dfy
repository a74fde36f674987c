/**
 Domain-name decoding with compression pointers, as DnsParser.cpp does it.
 */
module DnsParser {
  import opened Wire

  const DOT: byte := 46

  /**
   What a parser run does. Compression pointers may form a cycle, in which case the recursion never
   returns: that run `Diverges`. A run that returns has either rejected its input (size 0) or
   parsed a value of `size` > 0 bytes.
   */
  datatype Parse<+T> = Diverges | Rejects | Parsed(value: T, size: nat)

  /** The address that the two-byte pointer at `o` refers to. */
  function Target(mem: Memory, o: nat): nat {
    U16At(mem, o) % 0x4000
  }

  function Prepend(parts: seq<nat>, size: nat, d: Parse<seq<nat>>): Parse<seq<nat>> {
    match d
    case Parsed(more, n) => Parsed(parts + more, size + n)
    case _ => d
  }

  lemma PrependNothing(d: Parse<seq<nat>>)
    ensures Prepend([], 0, d) == d
  {
    if d.Parsed? {
      assert [] + d.value == d.value;
    }
  }

  lemma PrependTwice(p: seq<nat>, m: nat, q: seq<nat>, n: nat, d: Parse<seq<nat>>)
    ensures Prepend(p, m, Prepend(q, n, d)) == Prepend(p + q, m + n, d)
  {
    if d.Parsed? {
      assert p + (q + d.value) == p + q + d.value;
    }
  }

  /**
   Decodes from any position of a segment, following at most `hops` more pointers. The value is the
   addresses of the labels' length bytes, the size is what the name occupies before its first jump.
   Any byte with one of its top two bits set is taken for a pointer.
   */
  function Scan(mem: Memory, tail: nat, o: nat, hops: nat): (d: Parse<seq<nat>>)
    ensures d.Parsed? ==> d.size > 0
    decreases hops, tail - o
  {
    var len := At(mem, o);
    if len == 0 || o >= tail then Parsed([], 1)
    else if len >= 64 then
      if Target(mem, o) >= tail then Rejects
      else if hops == 0 then Diverges
      else
        match Scan(mem, tail, Target(mem, o), hops - 1)
        case Parsed(parts, _) => Parsed(parts, 2)
        case failed => failed
    else if o + len > tail then Rejects
    else Prepend([o], len + 1, Scan(mem, tail, o + len + 1, hops))
  }

  /** A segment must start before the tail. */
  function Labels(mem: Memory, tail: nat, o: nat, hops: nat): Parse<seq<nat>> {
    if o >= tail then Rejects else Scan(mem, tail, o, hops)
  }

  method ParseLabels(mem: Memory, start: nat, tail: nat, before: seq<nat>, hops: nat)
    returns (d: Parse<seq<nat>>)
    ensures d == Prepend(before, 0, Labels(mem, tail, start, hops))
    decreases hops
  {
    if start >= tail {
      return Rejects;
    }
    hide Target;
    var ptr, parts: seq<nat>, consumed: nat, countTerminal := start, before, 0, true;
    while At(mem, ptr) != 0 && ptr < tail
      invariant countTerminal
      invariant Prepend(parts, consumed, Scan(mem, tail, ptr, hops)) == Prepend(before, 0, Scan(mem, tail, start, hops))
      decreases tail - ptr
    {
      if At(mem, ptr) >= 64 {
        var offset := Target(mem, ptr);
        if offset >= tail {
          return Rejects;
        }
        if hops == 0 {
          return Diverges;
        }
        var pointed := ParseLabels(mem, offset, tail, parts, hops - 1);
        if !pointed.Parsed? {
          return pointed;
        }
        parts := pointed.value;
        consumed := consumed + 2;
        countTerminal := false;
        ptr := ptr + 2;
        break;
      } else if ptr + At(mem, ptr) > tail {
        return Rejects;
      } else {
        var len := At(mem, ptr);
        PrependTwice(parts, consumed, [ptr], len + 1, Scan(mem, tail, ptr + len + 1, hops));
        parts := parts + [ptr];
        consumed := consumed + len + 1;
        ptr := ptr + len + 1;
      }
    }
    if countTerminal {
      assert parts + [] == parts;
      consumed := consumed + 1;
    }
    return Parsed(parts, consumed);
  }

  /** The text of the label whose length byte is at `o`. */
  function Text(mem: Memory, o: nat): seq<byte> {
    Slice(mem, o + 1, At(mem, o))
  }

  function Texts(mem: Memory, parts: seq<nat>): (labels: seq<seq<byte>>)
    ensures |labels| == |parts|
  {
    if parts == [] then [] else [Text(mem, parts[0])] + Texts(mem, parts[1..])
  }

  lemma TextsSnoc(mem: Memory, parts: seq<nat>, p: nat)
    ensures Texts(mem, parts + [p]) == Texts(mem, parts) + [Text(mem, p)]
  {
    if parts != [] {
      assert (parts + [p])[1..] == parts[1..] + [p];
    }
  }

  /** The labels, each followed by a dot. */
  function Dotted(labels: seq<seq<byte>>): seq<byte> {
    if labels == [] then [] else labels[0] + [DOT] + Dotted(labels[1..])
  }

  lemma DottedConcat(a: seq<seq<byte>>, b: seq<seq<byte>>)
    ensures Dotted(a + b) == Dotted(a) + Dotted(b)
  {
    if a == [] {
      assert a + b == b;
    } else {
      assert (a + b)[1..] == a[1..] + b;
      DottedConcat(a[1..], b);
    }
  }

  /** A run with `tail` hops is exact: see `DnsDivergence.TailHopsAreExact`. */
  function Name(mem: Memory, tail: nat, o: nat): (r: Parse<seq<byte>>)
    ensures r.Parsed? ==> r.size > 0
  {
    if At(mem, o) == 0 then Parsed([], 1)
    else
      match Labels(mem, tail, o, tail)
      case Parsed(parts, size) => Parsed(Dotted(Texts(mem, parts)), size)
      case Rejects => Rejects
      case Diverges => Diverges
  }

  method ParseName(mem: Memory, tail: nat, ptr: nat) returns (r: Parse<seq<byte>>)
    ensures r == Name(mem, tail, ptr)
  {
    if At(mem, ptr) == 0 {
      return Parsed([], 1);
    }
    var labels := ParseLabels(mem, ptr, tail, [], tail);
    PrependNothing(Labels(mem, tail, ptr, tail));
    match labels
    case Diverges => return Diverges;
    case Rejects => return Rejects;
    case Parsed(parts, dataLen) =>
      var name := Concatenate(mem, parts);
      return Parsed(name, dataLen);
  }

  method Concatenate(mem: Memory, parts: seq<nat>) returns (result: seq<byte>)
    ensures result == Dotted(Texts(mem, parts))
  {
    result := [];
    for i := 0 to |parts|
      invariant result == Dotted(Texts(mem, parts[..i]))
    {
      DottedConcat(Texts(mem, parts[..i]), [Text(mem, parts[i])]);
      TextsSnoc(mem, parts[..i], parts[i]);
      assert parts[..i + 1] == parts[..i] + [parts[i]];
      result := result + Text(mem, parts[i]);
      result := result + [DOT];
    }
    assert parts[..|parts|] == parts;
  }
}
