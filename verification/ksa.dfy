/** Key scheduling (`KSA`): shuffles the identity table under control of the
    key, reusing the key's characters cyclically. */
module KeySchedule {
  import opened Bytes
  import opened Permutation

  /** The shuffle's state between rounds: the table and the accumulator `j`. */
  datatype Schedule = Schedule(perm: seq<Byte>, j: Byte)

  /** Round `i` of the shuffle: `j` gains the table entry at `i` and the key
      character at `i % |key|`, reduced mod 256, and the entries at `i` and
      `j` are exchanged. */
  function Round(st: Schedule, key: Text, i: nat): (r: Schedule)
    requires |st.perm| == 256 && |key| > 0 && i < 256
    ensures |r.perm| == 256
  {
    var j := (st.j as int + st.perm[i] + key[i % |key|]) % 256;
    Schedule(Swap(st.perm, i, j), j)
  }

  /** The state after the first `n` rounds of the shuffle, starting from the
      identity table and `j = 0`. */
  function Rounds(key: Text, n: nat): (st: Schedule)
    requires |key| > 0 && n <= 256
    ensures |st.perm| == 256
  {
    if n == 0 then Schedule(Identity(), 0) else Round(Rounds(key, n - 1), key, n - 1)
  }

  /** A round only swaps two entries of the table. */
  lemma RoundKeepsPermutation(st: Schedule, key: Text, i: nat)
    requires |st.perm| == 256 && |key| > 0 && i < 256
    ensures multiset(Round(st, key, i).perm) == multiset(st.perm)
    ensures IsPermutation(st.perm) ==> IsPermutation(Round(st, key, i).perm)
  {
    SwapKeepsPermutation(st.perm, i, (st.j as int + st.perm[i] + key[i % |key|]) % 256);
  }

  /** The table starts as the identity and is changed only by swaps, so it is
      a permutation after every round. */
  lemma {:induction false} RoundsArePermutations(key: Text, n: nat)
    requires |key| > 0 && n <= 256
    ensures IsPermutation(Rounds(key, n).perm)
  {
    if n == 0 {
      IdentityIsPermutation();
    } else {
      RoundsArePermutations(key, n - 1);
      RoundKeepsPermutation(Rounds(key, n - 1), key, n - 1);
    }
  }

  /** The initial permutation derived from `key`: all 256 rounds. */
  function Ksa(key: Text): (perm: seq<Byte>)
    requires |key| > 0
    ensures IsPermutation(perm)
  {
    RoundsArePermutations(key, 256);
    Rounds(key, 256).perm
  }

  /** `KSA` as written: fill a 256-entry table with the identity, then run
      the 256 shuffle rounds over it, one swap per round. */
  method ScheduleKey(key: Text) returns (perm: seq<Byte>)
    requires |key| > 0
    ensures perm == Ksa(key)
    ensures IsPermutation(perm)
  {
    perm := [];
    var i := 0;
    while i <= 255
      invariant 0 <= i <= 256
      invariant perm == Range(i)
    {
      perm := perm + [i];
      i := i + 1;
    }

    var j: Byte := 0;
    i := 0;
    while i <= 255
      invariant 0 <= i <= 256
      invariant Schedule(perm, j) == Rounds(key, i)
    {
      j := (j as int + perm[i] + key[i % |key|]) % 256;
      perm := Swap(perm, i, j);
      i := i + 1;
    }
  }

  /** The key byte that round `i` effectively mixes in. */
  function KeyByte(key: Text, i: nat): Byte
    requires |key| > 0
  {
    Truncate(key[i % |key|])
  }

  /** Two keys that mix in the same byte at each of the 256 rounds. */
  predicate SameKeyBytes(key1: Text, key2: Text)
    requires |key1| > 0 && |key2| > 0
  {
    forall i :: 0 <= i < 256 ==> KeyByte(key1, i) == KeyByte(key2, i)
  }

  /** Adding `c` mod 256 depends only on `c % 256`. */
  lemma AddMod(x: nat, c: nat)
    ensures (x + c) % 256 == (x + c % 256) % 256
  {
    var q := c / 256;
    assert c == 256 * q + c % 256;
    AddMultipleMod(x + c % 256, q);
  }

  /** Adding a multiple of 256 does not change a value mod 256. */
  lemma {:induction false} AddMultipleMod(y: nat, q: nat)
    ensures (y + 256 * q) % 256 == y % 256
  {
    if q > 0 {
      AddMultipleMod(y, q - 1);
      assert y + 256 * q == (y + 256 * (q - 1)) + 256;
    }
  }

  /** A round reads the key character only through its low 8 bits. */
  lemma RoundSameKeyByte(st: Schedule, key1: Text, key2: Text, i: nat)
    requires |st.perm| == 256 && |key1| > 0 && |key2| > 0 && i < 256
    requires KeyByte(key1, i) == KeyByte(key2, i)
    ensures Round(st, key1, i) == Round(st, key2, i)
  {
    var x := st.j as int + st.perm[i];
    AddMod(x, key1[i % |key1|]);
    AddMod(x, key2[i % |key2|]);
  }

  /** Keys that agree on every mixed-in byte agree after every round. */
  lemma {:induction false} RoundsSameKeyBytes(key1: Text, key2: Text, n: nat)
    requires |key1| > 0 && |key2| > 0 && n <= 256
    requires SameKeyBytes(key1, key2)
    ensures Rounds(key1, n) == Rounds(key2, n)
  {
    if n > 0 {
      RoundsSameKeyBytes(key1, key2, n - 1);
      RoundSameKeyByte(Rounds(key1, n - 1), key1, key2, n - 1);
    }
  }

  /** The schedule depends on the key only through the byte each round mixes
      in: the low 8 bits of the character at `i % |key|`. */
  lemma KsaSameKeyBytes(key1: Text, key2: Text)
    requires |key1| > 0 && |key2| > 0
    requires SameKeyBytes(key1, key2)
    ensures Ksa(key1) == Ksa(key2)
  {
    RoundsSameKeyBytes(key1, key2, 256);
  }

  /** Only the low 8 bits of each key character matter. */
  lemma KsaLowBitsOnly(key: Text)
    requires |key| > 0
    ensures Ksa(key) == Ksa(FromBytes(ToBytes(key)))
  {
    KsaSameKeyBytes(key, FromBytes(ToBytes(key)));
  }

  /** Key characters beyond the 256th are never read. */
  lemma KsaLongKey(key: Text)
    requires |key| > 256
    ensures Ksa(key) == Ksa(key[..256])
  {
    KsaSameKeyBytes(key, key[..256]);
  }
}
