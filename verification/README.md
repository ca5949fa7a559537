# RC4 cipher window, modelled in Dafny

This project models the RC4 stream cipher behind a small desktop window. The window has three text boxes (plaintext, key, ciphertext) and two buttons:

- **Encrypt** turns the plaintext into upper-case hex ciphertext.
- **Decrypt** turns hex ciphertext back into text.

The cipher itself has four parts:

- **Key scheduling (`KSA`)** shuffles the identity table of the 256 byte values. It uses a wrapping byte accumulator `j` and reuses the key's characters cyclically.
- **Keystream generation (`PRGA`)** walks two wrapping byte cursors over that table. At each step it swaps two entries and emits one keystream byte.
- **`Encrypt` and `Decrypt`** XOR the message bytes with the keystream. `Encrypt` gets its bytes by casting the plaintext's characters; `Decrypt` gets them by reading pairs of hex digits.
- **The button handlers** validate the boxes: both must be non-empty and, for decryption, the text must be of even length and made only of hex digits. They write each ciphertext byte as two upper-case hex digits, and each plaintext byte as the character with that code.

Modules, one file each:

- `Bytes` (`bytes.dfy`): bytes, characters as numeric codes, the `(byte)` and `(char)` casts, and XOR.
- `Permutation` (`permutation.dfy`): the identity table, swaps, and the permutation invariant.
- `KeySchedule` (`ksa.dfy`): the shuffle as a round-by-round function `Rounds`/`Ksa`, and the loop `ScheduleKey` proved equal to it.
- `KeystreamGenerator` (`prga.dfy`): the generator state, one step `Next`, the emitted byte `Output`, the keystream `Keystream`, and the loop `Generate` proved equal to them.
- `Hex` (`hex.dfy`): the handler's digit alphabet, `ToUpper`, two-digit formatting and pair parsing.
- `Cipher` (`cipher.dfy`): `XorWith` and the two loops `Encrypt` and `Decrypt`.
- `Window` (`window.dfy`): the boxes as a record, the two clicks as functions from boxes to boxes, the imperative click handlers proved equal to them, and the round trips.

The byte-level XOR is defined bit by bit (`XorBits`). This definition is the reference against which the cancellation laws are proved.

## Model

| member | source | states |
|---|---|---|
| Bytes.CastsKeepText | RC4_Cipher/MainWindow.xaml.cs:131 | casting every character with `(byte)` and back with `(char)` leaves a text unchanged exactly when every character is below 256 |
| Bytes.Truncate | RC4_Cipher/MainWindow.xaml.cs:131 | the cast `(byte)c` keeps a character exactly when it is below 256, and otherwise differs from it by a multiple of 256 (only the low 8 bits survive) |
| Bytes.ToBytesFromBytes | RC4_Cipher/MainWindow.xaml.cs:62-64 | a byte shown as a character `(char)b` and cast back with `(byte)` is the same byte |
| Bytes.XorCancel | RC4_Cipher/MainWindow.xaml.cs:136 | XORing with the same byte twice gives back the original byte |
| Bytes.XorBitsCancel | RC4_Cipher/MainWindow.xaml.cs:136 | the same cancellation for the low `n` bits, by induction over the bits |
| Bytes.XorKeyCancels | RC4_Cipher/MainWindow.xaml.cs:136 | XORing two bytes with the same key byte and then with each other removes the key byte |
| Bytes.Xor | RC4_Cipher/MainWindow.xaml.cs:136 | `(byte)(a ^ b)` on two bytes is a byte, does not depend on the order of its operands, keeps `a` when `b` is zero and is zero when the operands are equal |
| Bytes.XorBitsSymmetric | RC4_Cipher/MainWindow.xaml.cs:136 | exclusive-or of the low `n` bits does not depend on the order of its operands |
| Bytes.XorBitsZero | RC4_Cipher/MainWindow.xaml.cs:136 | exclusive-or with zero keeps a value of `n` bits |
| Bytes.XorBitsSame | RC4_Cipher/MainWindow.xaml.cs:136 | exclusive-or of a value with itself is zero |
| Permutation.SwapEntries | RC4_Cipher/MainWindow.xaml.cs:84 | the tuple swap exchanges the two entries and leaves every other entry alone |
| Permutation.SwapKeepsPermutation | RC4_Cipher/MainWindow.xaml.cs:84 | a swap keeps the table's multiset of values, so a permutation stays a permutation |
| Permutation.RangeCount | RC4_Cipher/MainWindow.xaml.cs:76-77 | after the first `n` identity entries are filled in, each value below `n` occurs once and no other value occurs |
| Permutation.IdentityIsPermutation | RC4_Cipher/MainWindow.xaml.cs:75-77 | the identity table holds each of the 256 byte values exactly once |
| Permutation.PermutationHoldsEveryByte | RC4_Cipher/MainWindow.xaml.cs:75-85 | a permutation contains every byte value |
| Permutation.Swap | RC4_Cipher/MainWindow.xaml.cs:84 | the tuple swap `(s[a], s[b]) = (s[b], s[a])` keeps the table's length; which entries it moves is Permutation.SwapEntries, and that it keeps a permutation is Permutation.SwapKeepsPermutation |
| KeySchedule.RoundsArePermutations | RC4_Cipher/MainWindow.xaml.cs:80-85 | the table is a permutation of 0..255 after every shuffle round |
| KeySchedule.Round | RC4_Cipher/MainWindow.xaml.cs:83-84 | one shuffle round (`j` gains the entry at `i` and the key character at `i % key.Length`, mod 256, then the entries at `i` and `j` are exchanged) keeps the table 256 entries long; KeySchedule.RoundKeepsPermutation shows it stays a permutation |
| KeySchedule.RoundKeepsPermutation | RC4_Cipher/MainWindow.xaml.cs:83-84 | one shuffle round keeps the table's multiset, so a permutation stays a permutation |
| KeySchedule.Ksa | RC4_Cipher/MainWindow.xaml.cs:72-89 | the scheduled table is a permutation of 0..255 |
| KeySchedule.ScheduleKey | RC4_Cipher/MainWindow.xaml.cs:72-89 | the two loops of `KSA` compute `Ksa(key)`, a permutation |
| KeySchedule.RoundSameKeyByte | RC4_Cipher/MainWindow.xaml.cs:83 | a round reads the key character only through its low 8 bits: two keys with the same byte at `i % key.Length` give the same round |
| KeySchedule.RoundsSameKeyBytes | RC4_Cipher/MainWindow.xaml.cs:83 | two keys that mix in the same byte at every round produce the same state after every round |
| KeySchedule.KsaSameKeyBytes | RC4_Cipher/MainWindow.xaml.cs:83 | the schedule depends on the key only through the low 8 bits of the character at `i % key.Length` in each round |
| KeySchedule.KsaLowBitsOnly | RC4_Cipher/MainWindow.xaml.cs:83 | cutting every key character to its low 8 bits does not change the schedule |
| KeySchedule.KsaLongKey | RC4_Cipher/MainWindow.xaml.cs:81-83 | key characters past the 256th are never used |
| KeystreamGenerator.NextKeepsPermutation | RC4_Cipher/MainWindow.xaml.cs:109-111 | one generation step keeps the table's multiset, so it stays a permutation |
| KeystreamGenerator.Next | RC4_Cipher/MainWindow.xaml.cs:109-111 | one generation step (`i += 1`, `j += bytePerm[i]`, both wrapping as bytes, then the swap) keeps the table 256 entries long; KeystreamGenerator.NextKeepsPermutation shows it stays a permutation |
| KeystreamGenerator.Output | RC4_Cipher/MainWindow.xaml.cs:114 | the keystream byte a step emits is an entry of the table, read after the swap at `(bytePerm[i] + bytePerm[j]) % 256` |
| KeystreamGenerator.AdvanceKeepsPermutation | RC4_Cipher/MainWindow.xaml.cs:107-115 | any number of steps keeps the table's multiset, so it stays a permutation |
| KeystreamGenerator.AdvanceCursor | RC4_Cipher/MainWindow.xaml.cs:100-109 | after `n` steps the cursor `i` has moved by `n`, wrapping at 256; from a fresh start it is `n % 256` |
| KeystreamGenerator.KeystreamPrefix | RC4_Cipher/MainWindow.xaml.cs:104-115 | asking for more keystream bytes never changes the earlier ones: a shorter keystream is a prefix of a longer one |
| KeystreamGenerator.KeystreamAt | RC4_Cipher/MainWindow.xaml.cs:114 | keystream byte `k` is the byte emitted after the swap of step `k + 1`, whatever the total length requested |
| KeystreamGenerator.Generate | RC4_Cipher/MainWindow.xaml.cs:98-118 | the keystream has `text.Length` bytes, or `text.Length / 2` when decrypting; it depends on the text only through that length; the table stays a permutation; zero steps leave it unchanged |
| Hex.HexAlphabetMembers | RC4_Cipher/MainWindow.xaml.cs:54 | the handler's alphabet `1234567890ABCDEF` is exactly the decimal digits and `A` to `F` |
| Hex.InAlphabetIsUpperHex | RC4_Cipher/MainWindow.xaml.cs:54 | the alphabet condition on a whole text is the upper-case hex condition |
| Hex.UpperHexIsHex | RC4_Cipher/MainWindow.xaml.cs:54 | every alphabet character is a digit that the base-16 conversion reads |
| Hex.ToUpperDigit | RC4_Cipher/MainWindow.xaml.cs:38 | upper-casing a hex digit keeps its value and puts it in the alphabet |
| Hex.ToUpper | RC4_Cipher/MainWindow.xaml.cs:47 | `ToUpper` on the ciphertext box keeps its length and upper-cases each character in place |
| Hex.ToUpperHexDigit | RC4_Cipher/MainWindow.xaml.cs:47-54 | after upper-casing, a character is in the alphabet exactly when it was a hex digit of either case |
| Hex.ToUpperHexText | RC4_Cipher/MainWindow.xaml.cs:47-54 | the upper-cased box passes the alphabet condition exactly when every typed character is a hex digit of either case |
| Hex.ToUpperKeepsUpperHex | RC4_Cipher/MainWindow.xaml.cs:47 | upper-casing leaves alphabet text unchanged |
| Hex.FormatByte | RC4_Cipher/MainWindow.xaml.cs:38 | `ToString("x2").ToUpper()` writes exactly two alphabet characters |
| Hex.Format | RC4_Cipher/MainWindow.xaml.cs:36-38 | the encrypt handler's output text has two characters per byte; Hex.FormatAt places each byte's digits and Hex.ParseFormat reads them back |
| Hex.FormatAt | RC4_Cipher/MainWindow.xaml.cs:37-38 | characters `2k` and `2k + 1` of the output are the two digits of byte `k` |
| Hex.FormatIsUpperHex | RC4_Cipher/MainWindow.xaml.cs:36-38 | the formatted ciphertext consists of upper-case hex digits only |
| Hex.FormatIsHex | RC4_Cipher/MainWindow.xaml.cs:36-38 | the formatted ciphertext consists of digits that the base-16 conversion reads |
| Hex.ParseFormatByte | RC4_Cipher/MainWindow.xaml.cs:152 | reading back the two digits written for a byte gives that byte |
| Hex.ParsePair | RC4_Cipher/MainWindow.xaml.cs:152 | `Convert.ToByte(pair, 16)` on two hex digits gives the byte whose high nibble is the first digit's value and whose low nibble is the second's |
| Hex.Parse | RC4_Cipher/MainWindow.xaml.cs:150-152 | reading a text of hex digits of even length pair by pair gives half as many bytes; Hex.ParseFormat and Hex.FormatParse make it the inverse of Hex.Format |
| Hex.ParseFormat | RC4_Cipher/MainWindow.xaml.cs:150-152 | parsing formatted bytes gives the bytes back |
| Hex.DigitRoundTrip | RC4_Cipher/MainWindow.xaml.cs:38 | writing the value of an alphabet digit gives back that digit |
| Hex.FormatParsePair | RC4_Cipher/MainWindow.xaml.cs:152 | two alphabet digits are the formatting of the byte they are read as |
| Hex.FormatParse | RC4_Cipher/MainWindow.xaml.cs:150-152 | even-length alphabet text is the formatting of the bytes it is read as |
| Cipher.XorWithInvolution | RC4_Cipher/MainWindow.xaml.cs:157 | XORing with the same keystream twice gives back the data |
| Cipher.XorWith | RC4_Cipher/MainWindow.xaml.cs:134-136 | XORing data with a keystream at least as long gives one byte per data byte; keystream bytes past the data are unused; Cipher.XorWithInvolution makes it its own inverse |
| Cipher.CastToBytes | RC4_Cipher/MainWindow.xaml.cs:129-131 | the cast loop produces `(byte)plaintext[k]` at every position |
| Cipher.ReadPairs | RC4_Cipher/MainWindow.xaml.cs:150-152 | the loop stepping two characters at a time reads exactly the digit pairs, one byte per pair |
| Cipher.XorLoop | RC4_Cipher/MainWindow.xaml.cs:134-136 | the XOR loop combines each data byte with the keystream byte at the same position |
| Cipher.Encrypt | RC4_Cipher/MainWindow.xaml.cs:126-139 | the output has the plaintext's length, and XORing byte `k` with keystream byte `k` gives `(byte)plaintext[k]` |
| Cipher.Decrypt | RC4_Cipher/MainWindow.xaml.cs:147-160 | the output has half the ciphertext's length, and XORing byte `k` with keystream byte `k` gives the byte that digit pair `k` is read as |
| Window.Ciphertext | RC4_Cipher/MainWindow.xaml.cs:32-38 | the encrypt output is twice as long as the plaintext and made of upper-case hex digits |
| Window.EncryptClick | RC4_Cipher/MainWindow.xaml.cs:20-39 | with an empty plaintext or key nothing changes; otherwise only the ciphertext box changes, to `2 * plaintext.Length` upper-case hex digits |
| Window.DecryptGuard | RC4_Cipher/MainWindow.xaml.cs:51-54 | the decrypt handler accepts the upper-cased box exactly when it is non-empty, the key is non-empty, its length is even and every character is a decimal digit or `A` to `F` (the alphabet `1234567890ABCDEF`) |
| Window.DecryptGuardAccepts | RC4_Cipher/MainWindow.xaml.cs:47-55 | the decrypt guard applied after `ToUpper` accepts exactly the non-empty, even-length boxes of hex digits of either case, with a non-empty key |
| Window.Plaintext | RC4_Cipher/MainWindow.xaml.cs:58-64 | the decrypt output has half the ciphertext's length, and every character fits in a byte |
| Window.DecryptClick | RC4_Cipher/MainWindow.xaml.cs:44-65 | the ciphertext and key boxes never change; the click changes something only for input that passes the guard, and then writes `ciphertext.Length / 2` characters below 256 |
| Window.PlaintextOfCiphertext | RC4_Cipher/MainWindow.xaml.cs:32-38 | the encrypt output passes the decrypt guard and decrypts under the same key to the plaintext cut to 8 bits per character |
| Window.CiphertextOfPlaintext | RC4_Cipher/MainWindow.xaml.cs:58-64 | text that passes the decrypt guard is the encrypt output, under the same key, of the text it decrypts to |
| Window.EncryptThenDecrypt | RC4_Cipher/MainWindow.xaml.cs:32-64 | decrypting the encrypt output with the same key gives back the plaintext with each character cut to its low 8 bits |
| Window.EncryptThenDecryptLatin1 | RC4_Cipher/MainWindow.xaml.cs:32-64 | for a plaintext whose characters are all below 256, the round trip gives back the plaintext exactly |
| Window.DecryptThenEncrypt | RC4_Cipher/MainWindow.xaml.cs:32-64 | encrypting the decrypt output with the same key gives back the typed ciphertext in upper case |
| Window.SameKeyCancels | RC4_Cipher/MainWindow.xaml.cs:32-33 | two messages under the same key share their keystream, so XORing their ciphertexts gives the XOR of their plaintexts |
| Window.RejectsNonHexDigit | RC4_Cipher/MainWindow.xaml.cs:54 | the ciphertext `1G` is rejected and the click changes nothing |
| Window.AcceptsLowerCase | RC4_Cipher/MainWindow.xaml.cs:47-54 | the lower-case ciphertext `0a` is accepted and decrypts to one character |
| Window.WideCharacterTruncated | RC4_Cipher/MainWindow.xaml.cs:131 | the character U+0100 comes back from the round trip as U+0000 |
| Window.ShowHex | RC4_Cipher/MainWindow.xaml.cs:36-38 | the encrypt handler's output loop builds the formatted ciphertext |
| Window.ShowChars | RC4_Cipher/MainWindow.xaml.cs:62-64 | the decrypt handler's output loop builds one character per byte |
| Window.EncryptButtonClick | RC4_Cipher/MainWindow.xaml.cs:20-39 | the handler as written, run through `KSA`, `PRGA` and `Encrypt`, does what `EncryptClick` states |
| Window.DecryptButtonClick | RC4_Cipher/MainWindow.xaml.cs:44-65 | the handler as written, run through `KSA`, `PRGA` and `Decrypt`, does what `DecryptClick` states |

## Left out

- The WPF window, `InitializeComponent` and the text-box properties. The three boxes are a `Boxes` record, and a click is a function from the boxes before to the boxes after. A rejected click returns the boxes unchanged, which is what returning early from the handler does.
- `string.IsNullOrEmpty`: the null case is not modelled, because a text is a sequence and is never null. Only the empty case is modelled.
- The .NET string encoding. A character is its numeric code (`nat`) and `(byte)c` is `c % 256`. UTF-16 surrogate pairs count as two characters, as they do in `string.Length`, and get no special treatment.
- Hex.ToUpperChar: upper-cases only the ASCII letters `a` to `z`. .NET's culture-sensitive upper-casing of other letters is not modelled. No non-ASCII letter upper-cases to a hex digit, so this does not change which boxes the decrypt guard accepts.
- `Convert.ToByte(s, 16)` is replaced by `Hex.ParsePair`, which is defined only on two hex digits of either case. The library call also reads some pairs that are not two digits (a leading `+`: `"+F"` reads as 15) and throws on the rest. The decrypt handler's guard at line 54 of `RC4_Cipher/MainWindow.xaml.cs` lets only digit pairs through, so none of those inputs reaches it.
- Cipher.Decrypt requires an even-length text of hex digits. In the source, an odd length makes the last `Substring(i, 2)` throw, and `Convert.ToByte` throws on most non-digit pairs but accepts a few (a leading `+`). Exceptions are not modelled, and the decrypt handler's guard (lines 51-54) never passes such text.
- KeySchedule.Ksa / KeySchedule.ScheduleKey / KeySchedule.Rounds: require a non-empty key. The source's `key[i % key.Length]` (line 83) would throw `DivideByZeroException` on an empty key, and both handlers return before calling `KSA` when the key is empty (lines 27-28 and 51-52).
- KeystreamGenerator.Generate: requires a 256-entry table. The source's `PRGA` indexes `bytePerm` with byte cursors (lines 110-114) and would throw `IndexOutOfRangeException` on a shorter array, and both handlers pass it the 256-entry array that `KSA` builds (lines 32 and 58).
- Cipher.Encrypt and Cipher.Decrypt require a keystream at least as long as the data, because the code indexes it at every data position. They do not require exactly equal lengths, and no length-mismatch error is reported. The code does neither, and the model follows the code.
- The byte arrays are modelled as immutable sequences. In the source, `PRGA` swaps the caller's array in place. `Generate` instead returns the array's final contents as `finalPerm`, and keeps the table and the two cursors together in one `Generator` value. `KSA`'s identity fill is a loop that appends to a sequence.
- Security claims about RC4 (keystream bias, unpredictability) are not properties of this code and are not stated.

