/** The two halves of the stream cipher proper: `Encrypt` casts the text to
    bytes and XORs it with the keystream, `Decrypt` reads pairs of hex
    digits as bytes and XORs them with the keystream. */
module Cipher {
  import opened Bytes
  import opened Hex

  /** Each data byte XORed with the keystream byte at the same position;
      keystream bytes past the end of the data are not used. */
  function XorWith(data: seq<Byte>, keystream: seq<Byte>): (r: seq<Byte>)
    requires |keystream| >= |data|
    ensures |r| == |data|
  {
    seq(|data|, k requires 0 <= k < |data| => Xor(data[k], keystream[k]))
  }

  /** XORing with the same keystream twice gives back the data: decryption
      undoes encryption. */
  lemma XorWithInvolution(data: seq<Byte>, keystream: seq<Byte>)
    requires |keystream| >= |data|
    ensures XorWith(XorWith(data, keystream), keystream) == data
  {
    forall k | 0 <= k < |data|
      ensures XorWith(XorWith(data, keystream), keystream)[k] == data[k]
    {
      XorCancel(data[k], keystream[k]);
    }
  }

  /** The first loop of `Encrypt`: each character cast to a byte. */
  method CastToBytes(plaintext: Text) returns (plaintextBytes: seq<Byte>)
    ensures plaintextBytes == ToBytes(plaintext)
  {
    plaintextBytes := [];
    var i := 0;
    while i < |plaintext|
      invariant 0 <= i <= |plaintext|
      invariant plaintextBytes == ToBytes(plaintext[..i])
    {
      plaintextBytes := plaintextBytes + [Truncate(plaintext[i])];
      i := i + 1;
    }
    assert plaintext[..i] == plaintext;
  }

  /** The first loop of `Decrypt`: each pair of digits read as a byte. The
      source steps through the text two characters at a time; `n` counts
      the pairs read. */
  method ReadPairs(ciphertext: Text) returns (ciphertextBytes: seq<Byte>)
    requires |ciphertext| % 2 == 0 && IsHexText(ciphertext)
    ensures ciphertextBytes == Parse(ciphertext)
  {
    ciphertextBytes := [];
    ghost var pairs := Parse(ciphertext);
    ghost var n := 0;
    var i := 0;
    while i < |ciphertext|
      invariant 0 <= n <= |pairs| && i == 2 * n
      invariant ciphertextBytes == pairs[..n]
    {
      assert pairs[..n + 1] == pairs[..n] + [pairs[n]];
      ciphertextBytes := ciphertextBytes + [ParsePair(ciphertext[i], ciphertext[i + 1])];
      i := i + 2;
      n := n + 1;
    }
    assert pairs[..n] == pairs;
  }

  /** The second loop of both `Encrypt` and `Decrypt`: each data byte XORed
      with the keystream byte at the same position. */
  method XorLoop(data: seq<Byte>, keystream: seq<Byte>) returns (output: seq<Byte>)
    requires |keystream| >= |data|
    ensures output == XorWith(data, keystream)
  {
    output := [];
    var i := 0;
    while i < |data|
      invariant 0 <= i <= |data|
      invariant |output| == i
      invariant forall k :: 0 <= k < i ==> output[k] == Xor(data[k], keystream[k])
    {
      output := output + [Xor(data[i], keystream[i])];
      i := i + 1;
    }
  }

  /** `Encrypt`: the plaintext cast to bytes, then XORed with the keystream.
      The source indexes the keystream at every position of the plaintext,
      so the keystream must be at least as long. */
  method Encrypt(plaintext: Text, keystream: seq<Byte>) returns (ciphertextBytes: seq<Byte>)
    requires |keystream| >= |plaintext|
    ensures |ciphertextBytes| == |plaintext|
    ensures forall k :: 0 <= k < |plaintext| ==>
              Xor(ciphertextBytes[k], keystream[k]) == Truncate(plaintext[k])
    ensures ciphertextBytes == XorWith(ToBytes(plaintext), keystream)
  {
    var plaintextBytes := CastToBytes(plaintext);
    ciphertextBytes := XorLoop(plaintextBytes, keystream);
    forall k | 0 <= k < |plaintext|
      ensures Xor(ciphertextBytes[k], keystream[k]) == Truncate(plaintext[k])
    {
      XorCancel(plaintextBytes[k], keystream[k]);
    }
  }

  /** `Decrypt`: the digit pairs read as bytes, then XORed with the
      keystream. Pairs are read only from even-length hex text: on an odd
      length the last `Substring(i, 2)` throws, and `Convert.ToByte` throws
      on most other pairs but also reads a few that are not two digits
      (`"+F"` is 15). The decrypt handler lets none of these through, and
      the keystream is indexed at every byte read. */
  method Decrypt(ciphertext: Text, keystream: seq<Byte>) returns (plaintextBytes: seq<Byte>)
    requires |ciphertext| % 2 == 0 && IsHexText(ciphertext)
    requires |keystream| >= |ciphertext| / 2
    ensures |plaintextBytes| == |ciphertext| / 2
    ensures forall k :: 0 <= k < |plaintextBytes| ==>
              Xor(plaintextBytes[k], keystream[k]) == ParsePair(ciphertext[2 * k], ciphertext[2 * k + 1])
    ensures plaintextBytes == XorWith(Parse(ciphertext), keystream)
  {
    var ciphertextBytes := ReadPairs(ciphertext);
    plaintextBytes := XorLoop(ciphertextBytes, keystream);
    forall k | 0 <= k < |plaintextBytes|
      ensures Xor(plaintextBytes[k], keystream[k]) == ParsePair(ciphertext[2 * k], ciphertext[2 * k + 1])
    {
      XorCancel(ciphertextBytes[k], keystream[k]);
    }
  }
}
