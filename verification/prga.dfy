/** Keystream generation (`PRGA`): two wrapping byte cursors walk the table,
    swapping entries and emitting one keystream byte per step. */
module KeystreamGenerator {
  import opened Bytes
  import opened Permutation

  /** The generator's state: the table and the byte cursors `i` and `j`. */
  datatype Generator = Generator(perm: seq<Byte>, i: Byte, j: Byte)

  /** A fresh session over `perm`: both cursors start at 0. */
  function Start(perm: seq<Byte>): Generator {
    Generator(perm, 0, 0)
  }

  /** One iteration of the loop, up to the swap: `i` steps by one and `j` by
      the entry at the new `i`, both wrapping at 256, and the entries at `i`
      and `j` are exchanged. */
  function Next(g: Generator): (r: Generator)
    requires |g.perm| == 256
    ensures |r.perm| == 256
  {
    var i := (g.i as int + 1) % 256;
    var j := (g.j as int + g.perm[i]) % 256;
    Generator(Swap(g.perm, i, j), i, j)
  }

  /** The byte emitted at the end of an iteration: the entry, read after the
      swap, at the sum of the entries under the two cursors mod 256. */
  function Output(g: Generator): (b: Byte)
    requires |g.perm| == 256
    ensures b in g.perm
  {
    g.perm[(g.perm[g.i] as int + g.perm[g.j]) % 256]
  }

  /** The state after `n` steps. */
  function Advance(g: Generator, n: nat): (r: Generator)
    requires |g.perm| == 256
    ensures |r.perm| == 256
  {
    if n == 0 then g else Next(Advance(g, n - 1))
  }

  /** One step only swaps two entries of the table. */
  lemma NextKeepsPermutation(g: Generator)
    requires |g.perm| == 256
    ensures multiset(Next(g).perm) == multiset(g.perm)
    ensures IsPermutation(g.perm) ==> IsPermutation(Next(g).perm)
  {
    var i := (g.i as int + 1) % 256;
    SwapKeepsPermutation(g.perm, i, (g.j as int + g.perm[i]) % 256);
  }

  /** Every step only swaps, so the table keeps its contents as a multiset:
      a permutation stays a permutation however many bytes are generated. */
  lemma {:induction false} AdvanceKeepsPermutation(g: Generator, n: nat)
    requires |g.perm| == 256
    ensures multiset(Advance(g, n).perm) == multiset(g.perm)
    ensures IsPermutation(g.perm) ==> IsPermutation(Advance(g, n).perm)
  {
    if n > 0 {
      AdvanceKeepsPermutation(g, n - 1);
      NextKeepsPermutation(Advance(g, n - 1));
    }
  }

  /** After `n` steps the cursor `i` has advanced by `n`, wrapping at 256. */
  lemma {:induction false} AdvanceCursor(g: Generator, n: nat)
    requires |g.perm| == 256
    ensures Advance(g, n).i == (g.i + n) % 256
  {
    if n > 0 {
      AdvanceCursor(g, n - 1);
      WrapIncrement(g.i + n - 1);
    }
  }

  /** The first `n` bytes emitted from state `g`. */
  function Keystream(g: Generator, n: nat): (ks: seq<Byte>)
    requires |g.perm| == 256
    ensures |ks| == n
  {
    if n == 0 then [] else Keystream(g, n - 1) + [Output(Advance(g, n))]
  }

  /** Generating more bytes never changes the ones already emitted: a
      shorter keystream from the same state is a prefix of a longer one. */
  lemma {:induction false} KeystreamPrefix(g: Generator, m: nat, n: nat)
    requires |g.perm| == 256
    requires m <= n
    ensures Keystream(g, m) == Keystream(g, n)[..m]
    decreases n
  {
    if m < n {
      KeystreamPrefix(g, m, n - 1);
      var ks := Keystream(g, n);
      assert ks[..n - 1] == Keystream(g, n - 1);
      assert ks[..m] == ks[..n - 1][..m];
    }
  }

  /** Byte `k` of any keystream that long is the output after `k + 1`
      steps. */
  lemma KeystreamAt(g: Generator, n: nat, k: nat)
    requires |g.perm| == 256
    requires k < n
    ensures Keystream(g, n)[k] == Output(Advance(g, k + 1))
  {
    KeystreamPrefix(g, k + 1, n);
  }

  /** The number of keystream bytes `PRGA` produces for `text`: one per
      character when encrypting, one per pair of hex digits when decrypting
      (rounded down). */
  function KeystreamLength(text: Text, decrypting: bool): nat {
    if decrypting then |text| / 2 else |text|
  }

  /** `PRGA`. The source keeps the table (the caller's array, swapped in
      place) and the two cursors in separate variables; here they travel
      together as one `Generator`, and the table's final contents, which the
      caller's array holds afterwards, are returned as `finalPerm`. */
  method Generate(bytePerm: seq<Byte>, text: Text, decrypting: bool)
    returns (keystream: seq<Byte>, finalPerm: seq<Byte>)
    requires |bytePerm| == 256
    ensures |keystream| == KeystreamLength(text, decrypting)
    ensures keystream == Keystream(Start(bytePerm), |keystream|)
    ensures finalPerm == Advance(Start(bytePerm), |keystream|).perm
    ensures IsPermutation(bytePerm) ==> IsPermutation(finalPerm)
    ensures |keystream| == 0 ==> finalPerm == bytePerm
  {
    var g := Start(bytePerm);
    var length := if decrypting then |text| / 2 else |text|;
    keystream := [];
    var n := 0;
    while n < length
      invariant 0 <= n <= length
      invariant g == Advance(Start(bytePerm), n)
      invariant keystream == Keystream(Start(bytePerm), n)
    {
      g := Next(g);
      keystream := keystream + [Output(g)];
      n := n + 1;
    }
    finalPerm := g.perm;
    AdvanceKeepsPermutation(Start(bytePerm), length);
  }
}
