/**
 Bytes, 16-bit words, and the memory that the C++ parsers read through raw pointers.
 */
module Wire {

  type byte = b: int | 0 <= b < 0x100
  type word = w: int | 0 <= w < 0x1_0000

  datatype Option<+T> = None | Some(value: T)

  // The most and least significant byte of a word, and the word they make up in network order.

  function Hi(w: word): byte {
    w / 0x100
  }

  function Lo(w: word): byte {
    w % 0x100
  }

  function U16(hi: byte, lo: byte): word {
    hi * 0x100 + lo
  }

  function WordBytes(w: word): (r: seq<byte>)
    ensures |r| == 2
  {
    [Hi(w), Lo(w)]
  }

  function Wrap(n: int): word {
    n % 0x1_0000
  }

  /** Two's-complement reading of a register. */
  function Signed(w: word): int {
    if w < 0x8000 then w else w - 0x1_0000
  }

  // A little-endian host stores the low byte of a word first.

  function LoadHostWord(b0: byte, b1: byte): word {
    U16(b1, b0)
  }

  function SwapBytes(w: word): word {
    U16(Lo(w), Hi(w))
  }

  lemma WordReadsBack(w: word)
    ensures U16(Hi(w), Lo(w)) == w
  {}

  lemma BytesReadBack(hi: byte, lo: byte)
    ensures Hi(U16(hi, lo)) == hi && Lo(U16(hi, lo)) == lo
  {}

  lemma SwapHostWord(hi: byte, lo: byte)
    ensures SwapBytes(LoadHostWord(hi, lo)) == U16(hi, lo)
  {
    BytesReadBack(lo, hi);
  }

  /**
   The address space of a parser. Address 0 is the head of the buffer; a parser is told where its
   tail is, but nothing stops it from looking at or past the tail, where the bytes are arbitrary.
   */
  type Memory = seq<byte>

  function At(mem: Memory, i: nat): byte {
    if i < |mem| then mem[i] else 0
  }

  function U16At(mem: Memory, i: nat): word {
    U16(At(mem, i), At(mem, i + 1))
  }

  /** The `len` bytes that start at address `from`. */
  function Slice(mem: Memory, from: nat, len: nat): (s: seq<byte>)
    ensures |s| == len
    ensures forall i :: 0 <= i < len ==> s[i] == At(mem, from + i)
  {
    seq<byte>(len, i requires 0 <= i < len => At(mem, from + i))
  }

  /** Two memories hold the same bytes below `n`. */
  ghost predicate Agree(mem: Memory, mem': Memory, n: nat) {
    forall i: nat :: i < n ==> At(mem, i) == At(mem', i)
  }

  lemma SliceAgree(mem: Memory, mem': Memory, n: nat, from: nat, len: nat)
    requires Agree(mem, mem', n) && from + len <= n
    ensures Slice(mem, from, len) == Slice(mem', from, len)
  {}
}
