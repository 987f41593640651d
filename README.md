# decenc: a verified model of the encode/decode helper

`decenc` (swatk6-decenc, `index.js`) is a small Node.js helper for authenticated
encryption. It enciphers a UTF-8 text with AES-256-CTR and appends the IV and an
HMAC-SHA-256 tag. The result is one text block, `encoded ++ iv ++ hash`, written in
base64 or hex. `decode` trims the block and slices it from the right, using
fixed widths:

- base64: a 24-character IV and a 44-character tag;
- hex: a 32-character IV and a 64-character tag.

It recomputes the tag over the ciphertext text and the IV text, and deciphers only
when the tag matches.

One object holds an options record and a `lastError` status. The status is `''`,
`'key_length'` or `'checksum_fail'`. Every non-null key, hash key or encoding
argument is written back into the options before the key-length check. Such an
override therefore outlives the call, even a call that fails.

The project has five modules:

- `JsString` (`js_string.dfy`): JavaScript's `substr` and `trim`.
- `Primitives` (`primitives.dfy`): the encodings and their fixed widths. It also
  holds the foreign `crypto`/`Buffer` calls, bundled as a `Crypto` value of
  functions. `WellFormed` states the facts about those calls that the framing uses:
  - digest and IV text lengths;
  - a base64 digest ends in its `=` padding character;
  - the output alphabets;
  - parsing the IV text gives the IV back;
  - deciphering undoes enciphering.
- `Framing` (`framing.dfy`): the block layout and the crypto halves of the two
  calls. `Split` is the slicing, `Seal` the tagging and framing, and `Open` the
  tag check and deciphering. Round-trip and tag lemmas are proved about them.
- `DecEnc` (`decenc.dfy`): the object, as the class `DecEnc.Instance`. It has an
  `options` map, a `lastError` field, a constructor that merges the caller's
  options key by key, and `Encode`/`Decode` methods that update the fields step
  by step.
- `Usage` (`usage.dfy`): clients that call the object the way test.js does.

Two details of index.js that the model keeps:

- The constructor copies every property of `opts`, including ones no method
  reads, into the options (index.js:32-36).
- `lastError` is written only when a call returns (index.js:69, 79, 118, 137,
  143), never when it starts.

## Model

| member | source | states |
|---|---|---|
| `JsString.Substr` | index.js:130-132 | `substr` never returns more than `max(length, 0)` characters, nor more than the string has, and returns the empty string for a non-positive length |
| `JsString.SubstrEnds` | index.js:130-132 | on a long enough string, `substr(-n, n)` is its last `n` characters and `substr(0, n)` its first `n` |
| `JsString.SubstrWindow` | index.js:131 | `substr(-m, n)` with `n <= m <= length` is the `n`-character window that starts `m` characters from the end |
| `JsString.SubstrShort` | index.js:130 | a string shorter than `n` is returned whole by `substr(-n, n)` |
| `JsString.TrimStart` | index.js:98 | the result is the suffix of the input that starts at its first non-whitespace character; everything dropped is whitespace |
| `JsString.TrimEnd` | index.js:98 | the result is the prefix of the input that ends at its last non-whitespace character; everything dropped is whitespace |
| `JsString.Trim` | index.js:98 | `trim` leaves no whitespace at either end, and a string that has none there comes back unchanged |
| `JsString.TrimSlice` | index.js:98 | what `trim` keeps is one contiguous slice of the input, and only whitespace lies on either side of it |
| `JsString.TrimIdempotent` | index.js:98 | trimming twice equals trimming once |
| `Primitives.ParseEncoding` | index.js:122-129 | exactly the option values `'base64'` and `'hex'` select an encoding, and the encoding selected has that name |
| `Primitives.AlphabetIsNotWhitespace` | index.js:98 | no base64 or hex character is one that `trim` removes |
| `Primitives.EncodedIsTrimmed` | index.js:98 | `trim` leaves text in either alphabet unchanged, so a block produced by `encode` survives the trim in `decode` |
| `Framing.Split` | index.js:121-132 | the digest is the last `min(diglen, length)` characters, the ciphertext is the first `max(length - (ivlen + diglen), 0)`, and a caller-supplied IV text replaces the embedded one |
| `Framing.SplitJoin` | index.js:130-132 | for `block = c ++ i ++ d` with `i` and `d` of the fixed widths, the slices are exactly `c`, `i` and `d`; with an explicit IV, the IV is that IV's text and the ciphertext is still `c`, so the embedded IV window is skipped |
| `Framing.JoinSplit` | index.js:130-132 | a block at least `ivlen + diglen` long is exactly the concatenation of its three slices, which have the fixed widths |
| `Framing.ShortBlock` | index.js:130-132 | a block shorter than both windows gives an empty ciphertext and, with no IV passed, an IV window made of its first `ivlen` characters (or all of it); one no longer than the digest window is taken whole as the digest |
| `Framing.Seal` | index.js:72-85 | `encoded` is the text enciphered under the key and IV, `iv` is the IV's text, the block is `encoded ++ iv ++ hash`, and the hash is the HMAC, under the hash key, of the encoded ciphertext followed by the IV text. For a 16-byte IV, the IV text and the hash have the fixed widths and the block is in the encoding's alphabet |
| `Framing.Open` | index.js:130-144 | the result is a plaintext exactly when the recomputed HMAC of the ciphertext and IV slices equals the digest slice. The plaintext is the deciphering of the ciphertext slice under the parsed IV |
| `Framing.OpenSeal` | index.js:130-144 | round trip: opening a sealed block with the same settings returns the original text, whether the IV is read from the block or passed again |
| `Framing.WrongKeyPassesCheck` | index.js:133-144 | with the right hash key and a different encryption key, the tag check passes and the result is the ciphertext deciphered under the wrong key |
| `Framing.TagCheckIgnoresKey` | index.js:133-139 | whether the tag check passes does not depend on the encryption key or the algorithm |
| `Framing.HexBlockReadAsBase64` | index.js:121-137 | a block encoded in hex and decoded as base64 always fails the tag check, whichever IV is passed |
| `Framing.Base64BlockReadAsHex` | index.js:121-137 | a block encoded in base64 and decoded as hex always fails the tag check, whichever IV is passed |
| `Framing.TamperedTagFails` | index.js:130-139 | a sealed block whose tag alone is replaced by a different one of the same width fails the tag check, whether the IV is read from the block or passed again |
| `Framing.MismatchNeverDeciphers` | index.js:136-139 | on a tag mismatch the result is a checksum failure whatever the decipher call does, so deciphering is never reached |
| `DecEnc.OverriddenValues` | index.js:50-67 | after the write-back, the key, hash key and encoding each hold the argument if one was given and the old value otherwise; every other option and the set of option names are unchanged |
| `DecEnc.Instance.constructor` | index.js:22-38 | options are the defaults `{algo:'aes-256-ctr', encoding:'base64', key:null, hashkey:null}`, and every key of `opts` overwrites or adds its value; `lastError` is `''` |
| `DecEnc.Instance.Encode` | index.js:49-86 | the options become the old options with the non-null overrides written in. A key whose length is not 32 gives `null` and `'key_length'` without any cipher or HMAC call; the random IV is drawn before this check. Otherwise the result is `Seal` of the text under the stored settings and the given or random IV, and `lastError` is `''` |
| `DecEnc.Instance.Decode` | index.js:97-145 | the options become the old options with the non-null overrides written in. A key whose length is not 32 gives `null` and `'key_length'`. Otherwise the trimmed block is opened: a tag mismatch gives `null` and `'checksum_fail'`, and a match gives the plaintext and `''` |
| `Usage.RoundTrip` | test.js:10-23 | on an object configured with a 32-character key, a hash key and either encoding, decoding the encoded block returns the text and leaves `lastError` empty |
| `Usage.TestScenario` | test.js:4-23 | test.js's sequence. A 7-character key gives `null` and `key_length`. A supplied 32-character key then encodes. `"bad_key"` gives `null` and `key_length`. A wrong 32-character key decodes with no error. The right key returns `"laughs at a dinner party"` |
| `Usage.OverrideOutlivesFailure` | index.js:112-120 | a decode whose key override fails the length check still stores that key, so the next decode without a key fails with `key_length` too |

## Left out

- The AES-256-CTR cipher (FIPS 197 with section 6.5 of NIST SP 800-38A) is not
  modelled. Neither are HMAC-SHA-256 (RFC 2104 over FIPS 180-4), `Buffer`
  text conversion or UTF-8 encoding of the plaintext. They are foreign calls
  and appear only as the functions of a `Crypto` value, passed to each call.
  Only the facts in `Primitives.WellFormed` are assumed about them, and only by
  the members that require it.
- `crypto.randomBytes(16)` is not modelled. It is the `random` parameter of
  `Encode`, required to be 16 bytes long.
- The streaming `update`/`final` concatenation inside the cipher
  (index.js:73-75, index.js:140-142) is library internals. It is one
  `encrypt`/`decrypt` call in the model.
- Calls whose options are outside the model are excluded by `Callable`. A
  call must have a string key. Once the key has 32 characters, it must also
  have a string hash key, a string `algo`, and an encoding of exactly
  `'base64'` or `'hex'`. The source does the following in the cases left out:
  - A null key makes `.length` throw (index.js:68, index.js:117).
  - A null hash key makes `createHmac` throw (index.js:76, index.js:133).
  - A null `algo` makes `createCipheriv` throw in `encode` (index.js:73). In
    `decode` it throws only after a tag match (index.js:140).
  - Node reads encoding names case-insensitively. In `encode`, a case variant
    such as `'BASE64'` or `'Hex'` therefore yields a standard base64 or hex
    block (index.js:72-78). `decode` accepts that block only when it is given
    the lower-case name, because index.js:122 and index.js:126 compare with
    `===`. Another name Node knows, such as `'latin1'`, yields a block in that
    encoding.
  - In `decode`, any other encoding leaves `ivlen`/`diglen` undefined
    (index.js:121-129). With an explicit IV, `iv.toString` at index.js:131
    throws for a name Node does not know, before any tag check. Without one,
    the digest and IV slices are the whole block and the ciphertext slice is
    empty (index.js:130-132). The recomputed digest is then compared with the
    whole block: for a name Node knows it is a string in that encoding,
    and otherwise a `Buffer`, which is never `!==`-equal to a string. The call
    then returns `null` with `'checksum_fail'` instead of throwing, unless
    the HMAC of the block equals the block itself.
- The cipher's own exceptions are not modelled either: an unknown algorithm, a
  key whose UTF-8 form is not 32 bytes, or an IV that does not parse to 16
  bytes. `encrypt` and `decrypt` are total.
- Option values are only `null` or strings, and `null` and `undefined`
  arguments are both `None`. Other JavaScript values, such as numbers or
  objects, are not modelled.
- The `opts!=={}` comparison (index.js:32) is always true and changes nothing.
- String lengths count Dafny characters, which are Unicode scalar values.
  JavaScript counts UTF-16 code units, so the two differ only for characters
  outside the Basic Multilingual Plane.
- Tamper detection is proved only where it needs no property of HMAC. A block
  whose ciphertext or IV portion was changed, or a decode under a different
  hash key, is not proved to yield `checksum_fail`: that needs HMAC collision
  resistance, which is not assumed. What is proved is the direction the code
  guarantees: a plaintext is returned only when the recomputed tag equals the
  digest slice. Two cases need no assumption and are proved: a changed tag
  alone (`Framing.TamperedTagFails`), and decoding with the wrong encoding
  (`Framing.HexBlockReadAsBase64`, `Framing.Base64BlockReadAsHex`).
- Usage.TestScenario: states that the wrong-key decode (test.js:17-18) returns
  the ciphertext deciphered under the wrong key with no error. It does not
  state that this differs from the original text, because that needs a
  key-sensitivity property of the cipher that is not assumed.
- test.js's tester library and `process.exit` are not modelled. Its calls
  appear as `Usage.TestScenario`.
