/** Frequency analysis: one scan of the input counting how often each
    octet occurs. */
module Frequency {
  import opened Common

  /** The count `table[b]` reads, 0 for an octet without an entry. */
  function Get(table: map<byte, nat>, b: byte): nat
  {
    if b in table then table[b] else 0
  }

  /** The sum of the counts of the octet values lo, lo + 1, ..., 255. */
  function SumFrom(table: map<byte, nat>, lo: nat): nat
    requires lo <= 0x100
    decreases 0x100 - lo
  {
    if lo == 0x100 then 0 else Get(table, lo as byte) + SumFrom(table, lo + 1)
  }

  /** The sum of all counts in the table. */
  function Total(table: map<byte, nat>): nat
  {
    SumFrom(table, 0)
  }

  /** The empty table sums to 0. */
  lemma {:induction false} SumFromEmpty(lo: nat)
    requires lo <= 0x100
    ensures SumFrom(map[], lo) == 0
    decreases 0x100 - lo
  {
    if lo < 0x100 {
      SumFromEmpty(lo + 1);
    }
  }

  /** Two tables that agree on every octet but `b` have sums that differ
      by exactly the difference of their counts for `b`. */
  lemma {:induction false} SumFromAgree(m: map<byte, nat>, n: map<byte, nat>, b: byte, lo: nat)
    requires lo <= 0x100
    requires forall c :: c != b ==> Get(m, c) == Get(n, c)
    ensures lo <= b as int ==> SumFrom(m, lo) + Get(n, b) == SumFrom(n, lo) + Get(m, b)
    ensures lo > b as int ==> SumFrom(m, lo) == SumFrom(n, lo)
    decreases 0x100 - lo
  {
    if lo < 0x100 {
      SumFromAgree(m, n, b, lo + 1);
    }
  }

  lemma TotalAgree(m: map<byte, nat>, n: map<byte, nat>, b: byte)
    requires forall c :: c != b ==> Get(m, c) == Get(n, c)
    ensures Total(m) + Get(n, b) == Total(n) + Get(m, b)
  {
    SumFromAgree(m, n, b, 0);
  }

  /** Removing an entry takes its count off the sum. */
  lemma TotalRemove(m: map<byte, nat>, b: byte)
    ensures Total(m - {b}) + Get(m, b) == Total(m)
  {
    TotalAgree(m - {b}, m, b);
  }

  /** Each octet read bumps its entry by one, creating it at 0 when absent.
      The table maps every octet of the input, and no other, to its number
      of occurrences, and the counts add up to the input's length. */
  method BuildFrequencyTable(input: seq<byte>) returns (table: map<byte, nat>)
    ensures forall b :: b in table <==> b in input
    ensures forall b :: b in table ==> table[b] == multiset(input)[b]
    ensures Total(table) == |input|
  {
    table := map[];
    SumFromEmpty(0);
    var i := 0;
    while i < |input|
      invariant i <= |input|
      invariant forall b :: b in table <==> b in input[..i]
      invariant forall b :: b in table ==> table[b] == multiset(input[..i])[b]
      invariant Total(table) == i
    {
      var c := input[i];
      var updated := table[c := Get(table, c) + 1];
      TotalAgree(table, updated, c);
      assert input[..i + 1] == input[..i] + [c];
      table := updated;
      i := i + 1;
    }
    assert input[..i] == input;
  }
}
