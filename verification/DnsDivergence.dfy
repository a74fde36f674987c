/**
 Exactly when decoding a name does not return, and why a hop budget of `tail` loses nothing.
 */
module DnsDivergence {
  import opened Wire
  import opened DnsParser

  /** The segment that the pointer ending the segment at `o` refers to, if there is a legal one. */
  function Next(mem: Memory, tail: nat, o: nat): (n: Option<nat>)
    ensures n.Some? ==> n.value < tail
    decreases tail - o
  {
    var len := At(mem, o);
    if len == 0 || o >= tail then None
    else if len >= 64 then if Target(mem, o) < tail then Some(Target(mem, o)) else None
    else if o + len > tail then None
    else Next(mem, tail, o + len + 1)
  }

  /** Decoding at `o` jumps at least `n` times. */
  ghost predicate Chain(mem: Memory, tail: nat, o: nat, n: nat)
    decreases n
  {
    n == 0 || (Next(mem, tail, o).Some? && Chain(mem, tail, Next(mem, tail, o).value, n - 1))
  }

  /** Where the `n`-th jump lands. */
  ghost function Visit(mem: Memory, tail: nat, o: nat, n: nat): nat
    requires Chain(mem, tail, o, n)
    decreases n
  {
    if n == 0 then o else Visit(mem, tail, Next(mem, tail, o).value, n - 1)
  }

  lemma {:induction false} DivergesIffChain(mem: Memory, tail: nat, o: nat, hops: nat)
    ensures Scan(mem, tail, o, hops).Diverges? <==> Chain(mem, tail, o, hops + 1)
    decreases hops, tail - o
  {
    var len := At(mem, o);
    if len == 0 || o >= tail {
    } else if len >= 64 {
      if Target(mem, o) < tail && hops > 0 {
        DivergesIffChain(mem, tail, Target(mem, o), hops - 1);
      }
    } else if o + len <= tail {
      DivergesIffChain(mem, tail, o + len + 1, hops);
      assert Next(mem, tail, o) == Next(mem, tail, o + len + 1);
    }
  }

  /** A run that returns does not depend on its hop budget. */
  lemma {:induction false} MoreHops(mem: Memory, tail: nat, o: nat, hops: nat, more: nat)
    requires hops <= more && !Scan(mem, tail, o, hops).Diverges?
    ensures Scan(mem, tail, o, more) == Scan(mem, tail, o, hops)
    decreases hops, tail - o
  {
    var len := At(mem, o);
    if len == 0 || o >= tail {
    } else if len >= 64 {
      if Target(mem, o) < tail {
        MoreHops(mem, tail, Target(mem, o), hops - 1, more - 1);
      }
    } else if o + len <= tail {
      MoreHops(mem, tail, o + len + 1, hops, more);
    }
  }

  lemma {:induction false} ChainSplit(mem: Memory, tail: nat, o: nat, i: nat, n: nat)
    requires Chain(mem, tail, o, i)
    ensures Chain(mem, tail, o, i + n) <==> Chain(mem, tail, Visit(mem, tail, o, i), n)
    ensures Chain(mem, tail, o, i + n) ==>
              Visit(mem, tail, o, i + n) == Visit(mem, tail, Visit(mem, tail, o, i), n)
    decreases i
  {
    if i > 0 {
      ChainSplit(mem, tail, Next(mem, tail, o).value, i - 1, n);
    }
  }

  lemma {:induction false} ChainPrefix(mem: Memory, tail: nat, o: nat, i: nat, n: nat)
    requires i <= n && Chain(mem, tail, o, n)
    ensures Chain(mem, tail, o, i)
    decreases i
  {
    if i > 0 {
      ChainPrefix(mem, tail, Next(mem, tail, o).value, i - 1, n - 1);
    }
  }

  lemma {:induction false} VisitsInside(mem: Memory, tail: nat, o: nat, n: nat)
    requires o < tail && Chain(mem, tail, o, n)
    ensures Visit(mem, tail, o, n) < tail
    decreases n
  {
    if n > 0 {
      VisitsInside(mem, tail, Next(mem, tail, o).value, n - 1);
    }
  }

  /** Two different jumps of the run land on the same segment. */
  ghost predicate Revisits(mem: Memory, tail: nat, o: nat, i: nat, j: nat) {
    i < j && Chain(mem, tail, o, i) && Chain(mem, tail, o, j)
    && Visit(mem, tail, o, i) == Visit(mem, tail, o, j)
  }

  lemma {:induction false} RevisitForever(mem: Memory, tail: nat, o: nat, i: nat, j: nat, n: nat)
    requires Revisits(mem, tail, o, i, j)
    ensures Chain(mem, tail, o, n)
    decreases n
  {
    if n <= j {
      ChainPrefix(mem, tail, o, n, j);
    } else {
      RevisitForever(mem, tail, o, i, j, i + (n - j));
      ChainSplit(mem, tail, o, i, n - j);
      ChainSplit(mem, tail, o, j, n - j);
    }
  }

  lemma {:induction false} DistinctBound(s: seq<nat>, bound: nat)
    requires forall i :: 0 <= i < |s| ==> s[i] < bound
    requires forall i, j :: 0 <= i < j < |s| ==> s[i] != s[j]
    ensures |s| <= bound
    decreases bound
  {
    assert s == [] || 0 <= s[0] < bound;
    if bound == 0 {
    } else if k :| 0 <= k < |s| && s[k] == bound - 1 {
      DistinctBound(s[..k] + s[k + 1..], bound - 1);
    } else {
      DistinctBound(s, bound - 1);
    }
  }

  lemma LongChainRevisits(mem: Memory, tail: nat, o: nat) returns (i: nat, j: nat)
    requires o < tail && Chain(mem, tail, o, tail + 1)
    ensures Revisits(mem, tail, o, i, j)
  {
    forall k: nat | k <= tail
      ensures Chain(mem, tail, o, k) && Visit(mem, tail, o, k) < tail
    {
      ChainPrefix(mem, tail, o, k, tail + 1);
      VisitsInside(mem, tail, o, k);
    }
    var visits := seq(tail + 1, k requires 0 <= k <= tail => Visit(mem, tail, o, k));
    if forall a, b :: 0 <= a < b < |visits| ==> visits[a] != visits[b] {
      DistinctBound(visits, tail);
      assert false;
    } else {
      i, j :| 0 <= i < j < |visits| && visits[i] == visits[j];
    }
  }

  /**
   A hop budget of `tail` is exact: the run diverges under it if and only if the pointers come back
   to a segment they have left, if and only if it diverges under every budget; and otherwise every
   larger budget gives the same result.
   */
  lemma TailHopsAreExact(mem: Memory, tail: nat, o: nat)
    requires o < tail
    ensures Scan(mem, tail, o, tail).Diverges? <==> exists i: nat, j: nat :: Revisits(mem, tail, o, i, j)
    ensures Scan(mem, tail, o, tail).Diverges? <==> forall hops: nat :: Scan(mem, tail, o, hops).Diverges?
    ensures !Scan(mem, tail, o, tail).Diverges? ==>
              forall hops: nat :: hops >= tail ==> Scan(mem, tail, o, hops) == Scan(mem, tail, o, tail)
  {
    DivergesIffChain(mem, tail, o, tail);
    if Scan(mem, tail, o, tail).Diverges? {
      var i, j := LongChainRevisits(mem, tail, o);
    }
    forall i: nat, j: nat, hops: nat | Revisits(mem, tail, o, i, j)
      ensures Scan(mem, tail, o, hops).Diverges?
    {
      RevisitForever(mem, tail, o, i, j, hops + 1);
      DivergesIffChain(mem, tail, o, hops);
    }
    if !Scan(mem, tail, o, tail).Diverges? {
      forall hops: nat | hops >= tail
        ensures Scan(mem, tail, o, hops) == Scan(mem, tail, o, tail)
      {
        MoreHops(mem, tail, o, tail, hops);
      }
    }
  }
}
