/**
 Splitting at a delimiter, as `split` in DnsMessage.cpp, and joining again.
 */
module Strings {
  import opened Wire

  /** The pieces of `s` between occurrences of `d`. */
  function Parts(s: seq<byte>, d: byte): (parts: seq<seq<byte>>)
    ensures parts != []
  {
    if s == [] then [[]]
    else
      var rest := Parts(s[1..], d);
      if s[0] == d then [[]] + rest else [[s[0]] + rest[0]] + rest[1..]
  }

  function Joined(parts: seq<seq<byte>>, d: byte): seq<byte> {
    if parts == [] then []
    else if |parts| == 1 then parts[0]
    else parts[0] + [d] + Joined(parts[1..], d)
  }

  function Occurrences(s: seq<byte>, d: byte): nat {
    if s == [] then 0 else (if s[0] == d then 1 else 0) + Occurrences(s[1..], d)
  }

  /** The first occurrence of `d` at or after `from`. */
  method Find(s: seq<byte>, d: byte, from: nat) returns (at: Option<nat>)
    requires from <= |s|
    ensures at.None? ==> d !in s[from..]
    ensures at.Some? ==> from <= at.value < |s| && s[at.value] == d && d !in s[from..at.value]
  {
    for i := from to |s|
      invariant d !in s[from..i]
    {
      if s[i] == d {
        return Some(i);
      }
      assert s[from..i + 1] == s[from..i] + [s[i]];
    }
    return None;
  }

  lemma {:induction false} PartsWithout(s: seq<byte>, d: byte)
    requires d !in s
    ensures Parts(s, d) == [s]
  {
    if s != [] {
      PartsWithout(s[1..], d);
      assert [s[0]] + s[1..] == s;
    }
  }

  lemma {:induction false} PartsAt(s: seq<byte>, d: byte, k: nat)
    requires k < |s| && s[k] == d && d !in s[..k]
    ensures Parts(s, d) == [s[..k]] + Parts(s[k + 1..], d)
  {
    if k > 0 {
      assert s[0] in s[..k];
      assert s[1..][..k - 1] == s[..k][1..];
      PartsAt(s[1..], d, k - 1);
      assert s[1..][k..] == s[k + 1..];
      assert [s[0]] + s[1..][..k - 1] == s[..k];
    }
  }

  method Split(str: seq<byte>, delimiter: byte) returns (labels: seq<seq<byte>>)
    ensures labels == Parts(str, delimiter)
  {
    hide Parts;
    var begin := 0;
    labels := [];
    assert str[begin..] == str;
    var end := Find(str, delimiter, begin);
    while end.Some?
      invariant begin <= |str|
      invariant end.None? ==> delimiter !in str[begin..]
      invariant end.Some? ==> begin <= end.value < |str| && str[end.value] == delimiter
                              && delimiter !in str[begin..end.value]
      invariant labels + Parts(str[begin..], delimiter) == Parts(str, delimiter)
      decreases |str| - begin
    {
      var k := end.value - begin;
      assert str[begin..][..k] == str[begin..end.value];
      assert str[begin..][k + 1..] == str[end.value + 1..];
      PartsAt(str[begin..], delimiter, k);
      labels := labels + [str[begin..end.value]];
      begin := end.value + 1;
      end := Find(str, delimiter, begin);
    }
    PartsWithout(str[begin..], delimiter);
    labels := labels + [str[begin..]];
  }

  // Split and join undo each other.

  lemma {:induction false} JoinedParts(s: seq<byte>, d: byte)
    ensures Joined(Parts(s, d), d) == s
    ensures forall i :: 0 <= i < |Parts(s, d)| ==> d !in Parts(s, d)[i]
    ensures |Parts(s, d)| == 1 + Occurrences(s, d)
  {
    if s != [] {
      JoinedParts(s[1..], d);
      var rest := Parts(s[1..], d);
      if s[0] == d {
        assert ([[]] + rest)[1..] == rest;
        assert [] + [d] + s[1..] == s;
      } else {
        var parts := [[s[0]] + rest[0]] + rest[1..];
        assert parts[1..] == rest[1..];
        assert [s[0]] + s[1..] == s;
        if |rest| > 1 {
          assert [s[0]] + rest[0] + [d] + Joined(rest[1..], d) == [s[0]] + (rest[0] + [d] + Joined(rest[1..], d));
        }
      }
    }
  }

  lemma PartsOfTwo(first: seq<byte>, d: byte, rest: seq<byte>)
    requires d !in first
    ensures Parts(first + [d] + rest, d) == [first] + Parts(rest, d)
  {
    var s := first + [d] + rest;
    assert s[..|first|] == first && s[|first| + 1..] == rest;
    PartsAt(s, d, |first|);
  }

  lemma {:induction false} PartsJoined(parts: seq<seq<byte>>, d: byte)
    requires parts != [] && forall i :: 0 <= i < |parts| ==> d !in parts[i]
    ensures Parts(Joined(parts, d), d) == parts
  {
    if |parts| == 1 {
      PartsWithout(parts[0], d);
    } else {
      PartsJoined(parts[1..], d);
      PartsOfTwo(parts[0], d, Joined(parts[1..], d));
      assert [parts[0]] + parts[1..] == parts;
    }
  }
}
