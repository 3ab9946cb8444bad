# GDoc stego codec in Dafny

This project models the core of a tool that hides a file in a Google document.
Each space character of the document is given a foreground colour, and each
colour carries one group of bits. It models three parts of the core:

- **The scrambled set** (`modules/Set.py`, `modules/SetElem.py`, module `Scrambling`).
  A group index in `[0, 2^groupSize)` is rotated by a displacement taken from the
  SHA-256 digest of a password (ROT-N). The rotated index is then split into an R, G, B
  triple, with R holding the most significant bits. The reverse map reads the colour as
  a big-endian number and rotates it back.
- **Message framing** (`modules/Messages.py`, module `Messages`). `fromBytes` turns a
  payload into groups of `groupSize` bits. It adds zero padding, a padding-indicator
  group whose count of ones is the padding length, and a leading length-indicator group.
  `getMessage` reverses this. `encode` and `decode` map groups to and from colours
  through the Set.
- **The envelope blob** (`modules/PGP.py`, module `PGP`). `encrypt` packs
  `cipherText ‖ nonce ‖ tag ‖ wrappedKey`. `decrypt` slices the four fields from the back
  using the fixed lengths 128, 16 and 16. Both refuse to run without the needed key.

Module `Pipeline` puts these together in the order `main.py` uses:
encrypt → frame → capacity check → encode → commit, and
decode → getMessage → decrypt. Its lemma `ReceiveSend` proves the whole round trip.
`Pipeline.Send` frames with the corrected `Messages.FrameBytes` (see "## Findings"),
so it also refuses a payload whose group count does not fit in one group.
`main.py` has no such refusal and exits only when the document is too short.
Module `Bits` holds the bit-string operations the source performs with Python strings:
`int(s, 2)`, `format(n, "0wb")`, joining, chunking and counting ones.

Where the code departs from what its comments and names suggest, the model follows the code:

- The displacement is `int(digest[14:18], 32)`. This parses four hex digits in base 32,
  so it ranges over `0..507375`. It is never reduced modulo `2^groupSize`. The round trips
  hold anyway (`UnapplyApply`, `ApplyUnapply`).
- `getMessage` does not check that the unpadded bit count is a multiple of 8. A short
  final chunk becomes a byte of its own (`PartialChunkBecomesByte`).
- The guard at `Messages.py:62` rejects only `len(groups) < L`. The read of `groups[L]`
  then raises when `len(groups) == L`. The model returns `TruncatedMessage` in the first
  case and `PaddingIndicatorMissing` in the second.
- `PGP.__init__` sets neither key. Using a key that was never added raises instead of
  printing the error message. Both cases are modelled as `MissingKey`.

## Model

| member | source | states |
|---|---|---|
| `Scrambling.NewSet` | modules/Set.py:21-34 | the Set built from a SHA-256 hex digest has modulo `2^groupSize` and a displacement `int(digest[14:18], 32)` of at most 507375 |
| `Scrambling.Base32Value` | modules/Set.py:26 | `int(s, 32)` is below `32^len(s)` |
| `Scrambling.Base32HexBound` | modules/Set.py:26 | `int(s, 32)` of a string of hex digits is at most `15 * (32^len - 1) / 31` |
| `Scrambling.Base32Bound` | modules/Set.py:25-29 | four hex digits parsed in base 32 give at most 507375 |
| `Scrambling.DisplacementExceedsTwoBytes` | modules/Set.py:24-26 | the digest slice `ffff` gives 507375, more than the two bytes the comment claims |
| `Scrambling.Set.ApplyScrambling` | modules/Set.py:37-38 | the scrambled index lies in `[0, 2^groupSize)` for every index and displacement |
| `Scrambling.Set.UnapplyScrambling` | modules/Set.py:41-42 | the unscrambled index lies in `[0, 2^groupSize)`, even when the displacement exceeds the modulo |
| `Scrambling.UnapplyApply` | modules/Set.py:37-42 | unscrambling undoes scrambling on all of `[0, 2^groupSize)`, for any displacement |
| `Scrambling.ApplyUnapply` | modules/Set.py:37-42 | scrambling undoes unscrambling on all of `[0, 2^groupSize)` |
| `Scrambling.ApplyMod` | modules/Set.py:37-38 | scrambling depends on the index only modulo `2^groupSize` |
| `Scrambling.Set.GetIndexOf` | modules/Set.py:69-75 | the index of any colour lies in `[0, 2^groupSize)` |
| `Scrambling.Set.ElemAt` | modules/Set.py:79-97 | `R*65536 + G*256 + B` equals the scrambled index; G and B lie in `0..255`; with `groupSize <= 24`, R does too |
| `Scrambling.Set.GetElemAt` | modules/Set.py:79-97 | filling the three-slot colour buffer by repeated division by 256 gives exactly `ElemAt` |
| `Scrambling.GetIndexOfElemAt` | modules/Set.py:69-97 | colour to index recovers the index modulo `2^groupSize`, for every group size |
| `Scrambling.GetIndexOfElemAtInRange` | modules/Set.py:69-97 | `getIndexOf(getElemAt(i)) == i` for every `i` in `[0, 2^groupSize)` |
| `Scrambling.ElemAtGetIndexOf` | modules/Set.py:69-97 | with `groupSize == 24`, `getElemAt(getIndexOf(c)) == c` for every byte triple: a bijection on all 24-bit colours |
| `Messages.PaddingLength` | modules/Messages.py:19-21 | the padding is below `groupSize` and brings the bit count to a multiple of it |
| `Messages.PaddingLengthFormula` | modules/Messages.py:19-24 | the padding length is `(g - 8n mod g) mod g` |
| `Messages.FromBytesParts` | modules/Messages.py:15-37 | `fromBytes` gives the length indicator, then the padded payload bits in `k` groups of `g` bits, then the padding indicator |
| `Messages.FromBytesPadding` | modules/Messages.py:20-30 | the padding indicator is `g - p` zeros then `p` ones, so its count of ones is the padding length; the middle groups join up to the payload's bits plus the padding |
| `Messages.FromBytesWidths` | modules/Messages.py:30-35 | every group has `g` bits while the group count is below `2^g`; otherwise the length indicator is wider |
| `Messages.FromBytes` | modules/Messages.py:15-37 | at least two groups, and the first group's value is the number of groups after it, the padding indicator included |
| `Messages.FromBytesSize` | modules/Messages.py:20-35 | a framed payload of `n` bytes has `ceil(8n / g) + 2` groups |
| `Messages.CalculateEncodedSize` | modules/Messages.py:87-89 | the size is the number of colours `encode` produces for the message, for every Set |
| `Messages.EncodedSizeExamples` | modules/Messages.py:87-89 | with `g = 24`, `calculateEncodedSize` is 2 for an empty payload and 3 for a 3-byte payload |
| `Messages.GetMessage` | modules/Messages.py:51-84 | no groups gives empty bytes; it fails exactly when the length indicator is at least the group count, and reports truncation exactly when it is larger |
| `Messages.GetMessageFromBytes` | modules/Messages.py:15-84 | `getMessage(fromBytes(b, g)) == b` for every payload and every `g >= 1` |
| `Messages.GetMessageIgnoresTrailing` | modules/Messages.py:71-77 | groups after index `L` do not change the result |
| `Messages.ZeroLengthIndicator` | modules/Messages.py:58-84 | a group list whose length indicator reads 0 decodes to empty bytes |
| `Messages.TruncatedExample` | modules/Messages.py:62-65 | a declared length of 5 with only 3 groups is refused as truncated |
| `Messages.ExampleAB` | modules/Messages.py:15-84 | `b"AB"` with `g = 8` frames as `[3, 0x41, 0x42, 0]` and decodes back to `b"AB"` |
| `Messages.PartialChunkBecomesByte` | modules/Messages.py:80-81 | with no multiple-of-8 check, a trailing 4-bit chunk `1010` becomes the byte 10 |
| `Messages.Encode` | modules/Messages.py:41-47 | the loop maps the groups one by one and in order to `getElemAt(int(group, 2))` |
| `Messages.Decode` | modules/Messages.py:115-129 | the loop maps the elements one by one and in order to `groupSize`-bit groups of their index |
| `Messages.DecodeEncode` | modules/Messages.py:115-129 | decoding the encoding of `g`-bit groups gives the same groups, in order and of the same length |
| `Messages.FirstGroupReceived` | modules/Messages.py:41-47 | the first colour decodes to the first group's value modulo `2^g` |
| `Messages.LengthOverflowLosesPayload` | modules/Messages.py:34 | when the group count is `2^g`, the length indicator has `g + 1` bits, and the receiver gets empty bytes back for a non-empty payload |
| `Messages.LengthOverflowWitness` | modules/Messages.py:34 | a 255-byte payload with `g = 8` reaches that group count |
| `Messages.FrameBytes` | modules/Messages.py:15-37 | the corrected framing refuses exactly the payloads whose group count does not fit in `g` bits, and otherwise is `fromBytes` |
| `Messages.FrameBytesRoundTrip` | modules/Messages.py:15-84 | after the corrected framing, every group has `g` bits, and decoding the colours, followed by any colours at all, gives the payload back |
| `PGP.Pack` | modules/PGP.py:51 | the blob's length is the sum of the four fields' lengths; it starts with the ciphertext and ends with the wrapped key |
| `PGP.SliceBound` | modules/PGP.py:61-64 | a Python slice bound lies in `[0, n]` and is unchanged when already in range |
| `PGP.PySlice` | modules/PGP.py:61-64 | a Python slice is the ordinary slice in range, counts negative bounds from the end, and is empty when the clamped bounds cross |
| `PGP.Seal` | modules/PGP.py:35-51 | with 16-byte nonce and tag and a 128-byte wrapped key, decrypt's slicing finds the ciphertext, nonce, tag and wrapped key again |
| `PGP.Unpack` | modules/PGP.py:61-64 | for a message of at least 160 bytes: the wrapped key is the last 128 bytes, the tag the 16 before it, the nonce the 16 before that, and the ciphertext everything before |
| `PGP.PackUnpack` | modules/PGP.py:61-64 | for a message of at least 160 bytes, the four slices have lengths `n-160`, 16, 16 and 128 and join back to the message |
| `PGP.UnpackPack` | modules/PGP.py:51-64 | splitting a packed blob whose nonce, tag and wrapped key have 16, 16 and 128 bytes gives back the four fields |
| `PGP.Open` | modules/PGP.py:61-75 | plaintext is returned only if RSA unwrapped the key and AES-GCM verified the tag and produced exactly that plaintext |
| `PGP.OpenSeal` | modules/PGP.py:28-75 | what `encrypt` sealed for a key pair is opened by `decrypt` with it, given primitives that do their part |
| `PGP.PGP.constructor` | modules/PGP.py:10-11 | a new PGP object holds neither key |
| `PGP.PGP.AddPublicKey` | modules/PGP.py:14-18 | the public key is set and the private key is left as it was |
| `PGP.PGP.AddPrivateKey` | modules/PGP.py:21-25 | the private key is set and the public key is left as it was |
| `PGP.PGP.Encrypt` | modules/PGP.py:28-51 | fails with `MissingKey` without a public key; otherwise the result is scrypt of the 16-byte password and salt, then AES-GCM and RSA-wrapped key, packed as `cipherText ‖ nonce ‖ tag ‖ wrappedKey` |
| `PGP.PGP.Decrypt` | modules/PGP.py:54-75 | fails with `MissingKey` without a private key; otherwise slices the message from the back, unwraps the key and decrypts |
| `Pipeline.Commit` | main.py:146 | committing recolours the first slots with the elements, leaves every later slot as it was, and keeps the document's length |
| `Pipeline.Send` | main.py:110-146 | a successful send writes a document of the same number of slots |
| `Pipeline.SendFailures` | main.py:125-134 | sending fails exactly when the document has fewer slots than groups needed (main.py's capacity check) or, by the corrected framing of "## Findings" and not by main.py, when the group count does not fit in one group |
| `Pipeline.Receive` | main.py:154-181 | receiving never reports a capacity failure or an oversized message, and an empty document opens as the empty blob |
| `Pipeline.ReceiveSend` | main.py:110-181 | after a successful send, the receiver with the matching private key and the same Set gets the payload back, whatever the other slots hold |
| `Bits.Binary` | modules/Messages.py:34 | `format(n, "0wb")` has value `n` and at least `max(w, 1)` digits |
| `Bits.BinaryWidth` | modules/Messages.py:125 | `format(n, "0wb")` has exactly `w` digits when `n < 2^w` |
| `Bits.BinaryOverflow` | modules/Messages.py:34 | `format(n, "0wb")` has more than `w` digits when `n >= 2^w` |
| `Bits.BinaryOfValue` | modules/Messages.py:44 | formatting `int(s, 2)` at the width of `s` gives `s` back |
| `Bits.Value` | modules/Messages.py:58 | `int(s, 2)` is below `2^len(s)` |
| `Bits.BytesToBits` | modules/Messages.py:17 | the bit string of a payload has 8 bits per byte |
| `Bits.PopCount` | modules/Messages.py:71 | the count of ones is at most the group's length |
| `Bits.DropLast` | modules/Messages.py:78 | `bits[:-p]` (all of `bits` when `p` is 0) is the prefix of length `len(bits) - p`, or empty when `p` is at least the length |
| `Bits.Split` | modules/Messages.py:30 | chunking gives no chunk exactly for the empty string, and every chunk has between 1 and `g` bits |
| `Bits.ToBytes` | modules/Messages.py:80-84 | regrouping 8 bits at a time gives `ceil(len(bits) / 8)` bytes, a short last chunk included |
| `Bits.ConcatSplit` | modules/Messages.py:30 | joining the chunks of a bit string gives it back |
| `Bits.SplitWidth` | modules/Messages.py:30 | a bit string of `g*n` bits splits into `n` chunks of `g` bits |
| `Bits.ToBytesBytesToBits` | modules/Messages.py:17 | regrouping the bits of a byte string 8 at a time gives the byte string back |

## Left out

- SHA-256 is foreign code. `NewSet` takes the hex digest as a parameter.
- RSA, AES-GCM and scrypt are foreign code. They are the function-valued fields of
  `PGP.Primitives`. What the round trip needs of them is stated as the predicate
  `SealOpens`. Tamper detection and the correctness of AES-GCM are not proved.
- `os.urandom` and the nonce drawn by `AES.new` are random. They are parameters of
  `Encrypt`, `Seal` and `Send`.
- PEM key-file loading is I/O. `AddPublicKey` and `AddPrivateKey` take the parsed key.
- `PGP.PGP.Encrypt`: the 32-byte length of the derived AES key is scrypt's promise for
  `dklen = 32` and is not proved. Only the arguments passed to scrypt are modelled.
- The Google Docs reading and writing of `modules/GoogleDoc.py` is network I/O. Its
  float colour conversion is also left out. The document is modelled as the list of its
  slot colours, and `Commit` recolours the first slots exactly.
- `EncodedMessage.fromGoogleDoc` and `sendToDoc` (`Messages.py:99-112, 133-134`) are
  document glue. `Receive` reads the slot colours directly.
- `main.py`'s argument parsing, file checks, zip compression and progress printing are
  left out. The payload enters the pipeline already compressed.
- The commented-out Fisher-Yates `scramble` (`Set.py:47-61`) is dead code and depends on
  `random`.
- Printing an error and calling `exit()` is modelled as a `Failure` result, not as
  process termination.
- `int(group, 2)` on an empty group raises in Python. `Bits.Value` gives 0 there. No
  group built by `fromBytes` or `decode` is empty, because `groupSize >= 1`.

## Findings

| source | as written | input that shows it | evidently intended | confidence | as-written member | corrected member |
|---|---|---|---|---|---|---|
| modules/Messages.py:34 | `format(len(groups), "0gb")` writes more than `g` bits once the group count reaches `2^g`; `encode` maps that value to the colour of index 0 and the receiver reads a length of 0 | a 255-byte payload with `groupSize = 8` (group count 256); with `groupSize = 24`, a payload of `3 * (2^24 - 1)` bytes | refuse a payload whose group count does not fit in one group, instead of silently delivering empty bytes | high, not executed | `Messages.LengthOverflowLosesPayload` | `Messages.FrameBytes`, `Pipeline.Send` |
