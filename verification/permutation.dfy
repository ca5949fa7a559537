/** The 256-entry byte table that both halves of RC4 shuffle, and the
    permutation invariant it keeps. */
module Permutation {
  import opened Bytes

  /** The table `i => i` that key scheduling starts from. */
  function Identity(): (s: seq<Byte>)
    ensures |s| == 256
    ensures forall k :: 0 <= k < 256 ==> s[k] == k
  {
    Range(256)
  }

  /** The first `n` byte values in increasing order. */
  function Range(n: nat): (s: seq<Byte>)
    requires n <= 256
    ensures |s| == n
    ensures forall k :: 0 <= k < n ==> s[k] == k
  {
    seq(n, k requires 0 <= k < n => k)
  }

  /** A table of 256 entries in which every byte value occurs exactly once. */
  predicate IsPermutation(s: seq<Byte>) {
    |s| == 256 && forall v: Byte :: multiset(s)[v] == 1
  }

  /** The C# tuple assignment `(s[a], s[b]) = (s[b], s[a])`. */
  function Swap(s: seq<Byte>, a: nat, b: nat): (r: seq<Byte>)
    requires a < |s| && b < |s|
    ensures |r| == |s|
  {
    seq(|s|, k requires 0 <= k < |s| => if k == a then s[b] else if k == b then s[a] else s[k])
  }

  /** A swap exchanges the two entries and leaves every other entry in place. */
  lemma SwapEntries(s: seq<Byte>, a: nat, b: nat)
    requires a < |s| && b < |s|
    ensures Swap(s, a, b)[a] == s[b] && Swap(s, a, b)[b] == s[a]
    ensures forall k :: 0 <= k < |s| && k != a && k != b ==> Swap(s, a, b)[k] == s[k]
  {
  }

  /** A swap does not change the table's contents as a multiset, so a
      permutation stays a permutation. */
  lemma SwapKeepsPermutation(s: seq<Byte>, a: nat, b: nat)
    requires a < |s| && b < |s|
    ensures multiset(Swap(s, a, b)) == multiset(s)
    ensures IsPermutation(s) ==> IsPermutation(Swap(s, a, b))
  {
    assert Swap(s, a, b) == s[a := s[b]][b := s[a]];
  }

  /** How often each value occurs in the first `n` identity entries. */
  lemma {:induction false} RangeCount(n: nat, v: Byte)
    requires n <= 256
    ensures multiset(Range(n))[v] == if v < n then 1 else 0
  {
    if n > 0 {
      assert Range(n) == Range(n - 1) + [n - 1];
      RangeCount(n - 1, v);
    }
  }

  /** The identity table is a permutation. */
  lemma IdentityIsPermutation()
    ensures IsPermutation(Identity())
  {
    forall v: Byte
      ensures multiset(Identity())[v] == 1
    {
      RangeCount(256, v);
    }
  }

  /** A permutation holds every byte value somewhere. */
  lemma PermutationHoldsEveryByte(s: seq<Byte>, v: Byte)
    requires IsPermutation(s)
    ensures v in s
  {
    assert multiset(s)[v] == 1;
  }
}
