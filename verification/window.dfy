/** The window's two buttons. Each click reads the text boxes, validates
    them, runs the cipher and writes one box; when validation fails the
    click does nothing. */
module Window {
  import opened Bytes
  import opened Permutation
  import opened KeySchedule
  import opened KeystreamGenerator
  import opened Hex
  import opened Cipher

  /** The contents of the three text boxes. */
  datatype Boxes = Boxes(plaintext: Text, key: Text, ciphertext: Text)

  /** The keystream a click uses: `n` bytes generated from the scheduled key. */
  function KeystreamFor(key: Text, n: nat): (ks: seq<Byte>)
    requires |key| > 0
    ensures |ks| == n
  {
    Keystream(Start(Ksa(key)), n)
  }

  /** The ciphertext the encrypt button writes for a non-empty plaintext and
      key: the XORed bytes as upper-case hex. */
  function Ciphertext(plaintext: Text, key: Text): (ct: Text)
    requires |key| > 0
    ensures |ct| == 2 * |plaintext|
    ensures IsUpperHexText(ct)
  {
    FormatIsUpperHex(XorWith(ToBytes(plaintext), KeystreamFor(key, |plaintext|)));
    Format(XorWith(ToBytes(plaintext), KeystreamFor(key, |plaintext|)))
  }

  /** The encrypt button: with an empty plaintext or key nothing changes,
      otherwise the ciphertext box is overwritten. */
  function EncryptClick(w: Boxes): (r: Boxes)
    ensures r.plaintext == w.plaintext && r.key == w.key
    ensures w.plaintext == [] || w.key == [] ==> r == w
    ensures w.plaintext != [] && w.key != [] ==>
              |r.ciphertext| == 2 * |w.plaintext| && IsUpperHexText(r.ciphertext)
  {
    if w.plaintext == [] || w.key == [] then w
    else w.(ciphertext := Ciphertext(w.plaintext, w.key))
  }

  /** The decrypt handler's validation of the upper-cased ciphertext and the
      key, as written: not empty, even length, every character in the
      alphabet. The alphabet condition amounts to every character being a
      decimal digit or `A` to `F`. */
  predicate DecryptGuard(ciphertext: Text, key: Text): (ok: bool)
    ensures ok <==> ciphertext != [] && key != [] && |ciphertext| % 2 == 0 && IsUpperHexText(ciphertext)
  {
    InAlphabetIsUpperHex(ciphertext);
    ciphertext != [] && key != [] && |ciphertext| % 2 == 0 && InAlphabet(ciphertext)
  }

  /** The decrypt guard in terms of the box as typed: the handler accepts
      exactly the non-empty, even-length texts of hex digits in either case. */
  lemma DecryptGuardAccepts(ciphertextBox: Text, key: Text)
    ensures DecryptGuard(ToUpper(ciphertextBox), key) <==>
              ciphertextBox != [] && key != [] && |ciphertextBox| % 2 == 0 && IsHexText(ciphertextBox)
  {
    InAlphabetIsUpperHex(ToUpper(ciphertextBox));
    ToUpperHexText(ciphertextBox);
  }

  /** The plaintext the decrypt button writes for validated ciphertext. */
  function Plaintext(ciphertext: Text, key: Text): (p: Text)
    requires DecryptGuard(ciphertext, key)
    ensures |p| == |ciphertext| / 2
    ensures IsLatin1(p)
  {
    InAlphabetIsUpperHex(ciphertext);
    UpperHexIsHex(ciphertext);
    FromBytes(XorWith(Parse(ciphertext), KeystreamFor(key, |ciphertext| / 2)))
  }

  /** The decrypt button: the ciphertext box is upper-cased and validated;
      on failure nothing changes, otherwise the plaintext box is
      overwritten. The ciphertext box itself keeps what was typed. */
  function DecryptClick(w: Boxes): (r: Boxes)
    ensures r.ciphertext == w.ciphertext && r.key == w.key
    ensures r != w ==>
              w.ciphertext != [] && w.key != [] && |w.ciphertext| % 2 == 0 && IsHexText(w.ciphertext)
    ensures w.ciphertext != [] && w.key != [] && |w.ciphertext| % 2 == 0 && IsHexText(w.ciphertext) ==>
              |r.plaintext| == |w.ciphertext| / 2 && IsLatin1(r.plaintext)
  {
    DecryptGuardAccepts(w.ciphertext, w.key);
    var ciphertext := ToUpper(w.ciphertext);
    if !DecryptGuard(ciphertext, w.key) then w
    else w.(plaintext := Plaintext(ciphertext, w.key))
  }

  /** The encrypt output passes the decrypt guard and decrypts to the
      plaintext, cut to the low 8 bits of each character. */
  lemma PlaintextOfCiphertext(plaintext: Text, key: Text)
    requires plaintext != [] && key != []
    ensures DecryptGuard(Ciphertext(plaintext, key), key)
    ensures Plaintext(Ciphertext(plaintext, key), key) == FromBytes(ToBytes(plaintext))
  {
    var ks := KeystreamFor(key, |plaintext|);
    var c := XorWith(ToBytes(plaintext), ks);
    InAlphabetIsUpperHex(Format(c));
    ParseFormat(c);
    XorWithInvolution(ToBytes(plaintext), ks);
  }

  /** Decrypting what the encrypt button wrote gives back the plaintext, cut
      to the low 8 bits of each character. */
  lemma EncryptThenDecrypt(w: Boxes)
    requires w.plaintext != [] && w.key != []
    ensures DecryptClick(EncryptClick(w)).plaintext == FromBytes(ToBytes(w.plaintext))
  {
    var ct := Ciphertext(w.plaintext, w.key);
    ToUpperKeepsUpperHex(ct);
    PlaintextOfCiphertext(w.plaintext, w.key);
  }

  /** For text whose characters all fit in a byte the round trip is exact. */
  lemma EncryptThenDecryptLatin1(w: Boxes)
    requires w.plaintext != [] && w.key != [] && IsLatin1(w.plaintext)
    ensures DecryptClick(EncryptClick(w)).plaintext == w.plaintext
  {
    EncryptThenDecrypt(w);
    CastsKeepText(w.plaintext);
  }

  /** Validated ciphertext is the encrypt output for the text it decrypts
      to. */
  lemma CiphertextOfPlaintext(ciphertext: Text, key: Text)
    requires DecryptGuard(ciphertext, key)
    ensures Ciphertext(Plaintext(ciphertext, key), key) == ciphertext
  {
    InAlphabetIsUpperHex(ciphertext);
    UpperHexIsHex(ciphertext);
    var ks := KeystreamFor(key, |ciphertext| / 2);
    var x := XorWith(Parse(ciphertext), ks);
    ToBytesFromBytes(x);
    XorWithInvolution(Parse(ciphertext), ks);
    FormatParse(ciphertext);
  }

  /** Encrypting what the decrypt button wrote gives back the ciphertext as
      typed, in upper case. */
  lemma DecryptThenEncrypt(w: Boxes)
    requires w.ciphertext != [] && w.key != [] && |w.ciphertext| % 2 == 0 && IsHexText(w.ciphertext)
    ensures EncryptClick(DecryptClick(w)).ciphertext == ToUpper(w.ciphertext)
  {
    DecryptGuardAccepts(w.ciphertext, w.key);
    CiphertextOfPlaintext(ToUpper(w.ciphertext), w.key);
  }

  /** Two messages encrypted under the same key use the same keystream, so
      XORing the two ciphertexts cancels it and leaves the XOR of the two
      plaintexts: the keystream depends on the key and the length only,
      never on the text. */
  lemma SameKeyCancels(p1: Text, p2: Text, key: Text, k: nat)
    requires |key| > 0 && k < |p1| && k < |p2|
    ensures var c1 := XorWith(ToBytes(p1), KeystreamFor(key, |p1|));
            var c2 := XorWith(ToBytes(p2), KeystreamFor(key, |p2|));
            Xor(c1[k], c2[k]) == Xor(Truncate(p1[k]), Truncate(p2[k]))
  {
    var g := Start(Ksa(key));
    KeystreamAt(g, |p1|, k);
    KeystreamAt(g, |p2|, k);
    XorKeyCancels(Truncate(p1[k]), Truncate(p2[k]), Output(Advance(g, k + 1)));
  }

  /** A box holding a character outside the hex digits is rejected and the
      click changes nothing, whatever the key. */
  lemma RejectsNonHexDigit(w: Boxes)
    requires w.ciphertext == Code("1G")
    ensures DecryptClick(w) == w
  {
    var ct := ToUpper(w.ciphertext);
    assert ct[1] == 'G' as nat;
    HexAlphabetMembers(ct[1]);
  }

  /** Lower-case digits are accepted: the box is upper-cased before the
      alphabet condition. */
  lemma AcceptsLowerCase(w: Boxes)
    requires w.ciphertext == Code("0a") && w.key != []
    ensures |DecryptClick(w).plaintext| == 1
  {
    assert IsHexDigit(w.ciphertext[0]) && IsHexDigit(w.ciphertext[1]);
  }

  /** A character above 255 does not survive the round trip: only its low
      8 bits come back, so U+0100 returns as U+0000. */
  lemma WideCharacterTruncated(key: Text, ciphertext: Text)
    requires key != []
    ensures DecryptClick(EncryptClick(Boxes([256], key, ciphertext))).plaintext == [0]
  {
    EncryptThenDecrypt(Boxes([256], key, ciphertext));
  }

  /** The encrypt handler's output loop: two digits appended per byte. */
  method ShowHex(bs: seq<Byte>) returns (text: Text)
    ensures text == Format(bs)
  {
    text := [];
    var n := 0;
    while n < |bs|
      invariant 0 <= n <= |bs|
      invariant text == Format(bs[..n])
    {
      assert bs[..n + 1][..n] == bs[..n];
      text := text + FormatByte(bs[n]);
      n := n + 1;
    }
    assert bs[..n] == bs;
  }

  /** The decrypt handler's output loop: one `(char)b` appended per byte. */
  method ShowChars(bs: seq<Byte>) returns (text: Text)
    ensures text == FromBytes(bs)
  {
    text := [];
    var n := 0;
    while n < |bs|
      invariant 0 <= n <= |bs|
      invariant text == FromBytes(bs[..n])
    {
      text := text + [bs[n] as nat];
      n := n + 1;
    }
    assert bs[..n] == bs;
  }

  /** The encrypt button as written: the same validation, the cipher run
      through the imperative `KSA`, `PRGA` and `Encrypt`, and the ciphertext
      box rebuilt by appending two digits per byte. */
  method EncryptButtonClick(w: Boxes) returns (r: Boxes)
    ensures r == EncryptClick(w)
  {
    var plaintext := w.plaintext;
    var key := w.key;
    if plaintext == [] || key == [] {
      return w;
    }
    var perm := ScheduleKey(key);
    var keystream, _ := Generate(perm, plaintext, false);
    var ciphertextBytes := Encrypt(plaintext, keystream);
    var text := ShowHex(ciphertextBytes);
    r := w.(ciphertext := text);
  }

  /** The decrypt button as written: upper-case the box, validate, run the
      imperative `KSA`, `PRGA` in decrypting mode and `Decrypt`, and rebuild
      the plaintext box one `(char)b` at a time. */
  method DecryptButtonClick(w: Boxes) returns (r: Boxes)
    ensures r == DecryptClick(w)
  {
    var ciphertext := ToUpper(w.ciphertext);
    var key := w.key;
    if ciphertext == [] || key == [] || |ciphertext| % 2 != 0 || !InAlphabet(ciphertext) {
      return w;
    }
    InAlphabetIsUpperHex(ciphertext);
    UpperHexIsHex(ciphertext);
    var perm := ScheduleKey(key);
    var keystream, _ := Generate(perm, ciphertext, true);
    assert keystream == KeystreamFor(key, |ciphertext| / 2);
    var plaintextBytes := Decrypt(ciphertext, keystream);
    var text := ShowChars(plaintextBytes);
    assert text == Plaintext(ciphertext, key);
    r := w.(plaintext := text);
  }
}
