/** The Node.js `crypto` and `Buffer` calls that the helper makes. They are
    not modelled: a `Crypto` value bundles them as functions, and
    `WellFormed` lists the only facts about them that the framing relies on
    (output lengths, output alphabets, and that deciphering undoes
    enciphering). */
module Primitives {
  import opened JsString

  newtype Byte = b: int | 0 <= b < 256

  /** A Node.js `Buffer`. */
  type Bytes = seq<Byte>

  /** The two text encodings the helper supports. */
  datatype Encoding = Base64 | Hex {
    /** The option value that selects this encoding. */
    function Name(): string {
      match this
      case Base64 => "base64"
      case Hex => "hex"
    }
  }

  /** Reads an encoding option value; anything but the two names is unsupported. */
  function ParseEncoding(name: string): (e: Option<Encoding>)
    ensures e.Some? <==> name == "base64" || name == "hex"
    ensures e.Some? ==> e.value.Name() == name
  {
    if name == "base64" then Some(Base64)
    else if name == "hex" then Some(Hex)
    else None
  }

  datatype Option<T> = None | Some(value: T)

  /** Text length of a 16-byte IV: 24 base64 characters (two of them `=`
      padding), or 32 hex digits. */
  function IvLen(e: Encoding): nat {
    match e
    case Base64 => 24
    case Hex => 32
  }

  /** Text length of a 32-byte HMAC-SHA-256 digest: 44 base64 characters
      (one of them `=` padding), or 64 hex digits. */
  function DigestLen(e: Encoding): nat {
    match e
    case Base64 => 44
    case Hex => 64
  }

  /** The characters Node.js writes for each encoding: the base64 alphabet of
      section 4 of RFC 4648 with its `=` padding, or lower-case hex digits. */
  predicate InAlphabet(c: char, e: Encoding) {
    match e
    case Base64 => ('A' <= c <= 'Z') || ('a' <= c <= 'z') || ('0' <= c <= '9') || c == '+' || c == '/' || c == '='
    case Hex => ('0' <= c <= '9') || ('a' <= c <= 'f')
  }

  predicate IsEncoded(s: string, e: Encoding) {
    forall i :: 0 <= i < |s| ==> InAlphabet(s[i], e)
  }

  /** No character of either alphabet is one that `trim` removes. */
  lemma AlphabetIsNotWhitespace(c: char, e: Encoding)
    requires InAlphabet(c, e)
    ensures !IsWhitespace(c)
  {
  }

  /** Encoded text is never changed by `trim`. */
  lemma EncodedIsTrimmed(s: string, e: Encoding)
    requires IsEncoded(s, e)
    ensures Trimmed(s)
  {
    if s != [] {
      AlphabetIsNotWhitespace(s[0], e);
      AlphabetIsNotWhitespace(s[|s| - 1], e);
    }
  }

  /** The foreign calls, each taking the encoding its text is written in:
      - encrypt(algo, key, iv, text, e): `createCipheriv(algo, key, iv)` fed
        the UTF-8 text, its `update` and `final` output concatenated;
      - decrypt(algo, key, iv, cipherText, e): `createDecipheriv` the same way;
      - hmac(hashkey, message, e): `createHmac('sha256', hashkey)` digest;
      - ivText(iv, e): `iv.toString(e)`;
      - ivBytes(text, e): `Buffer.from(text, e)`. */
  datatype Crypto = Crypto(
    encrypt: (string, string, Bytes, string, Encoding) -> string,
    decrypt: (string, string, Bytes, string, Encoding) -> string,
    hmac: (string, string, Encoding) -> string,
    ivText: (Bytes, Encoding) -> string,
    ivBytes: (string, Encoding) -> Bytes)

  /** The facts about the foreign calls that the block format depends on.
      A 32-byte digest in base64 is 43 characters of data and one `=` of
      padding, so it always ends in `=`. */
  ghost predicate WellFormed(cr: Crypto) {
    (forall k, m, e :: |cr.hmac(k, m, e)| == DigestLen(e) && IsEncoded(cr.hmac(k, m, e), e))
    && (forall k, m :: |cr.hmac(k, m, Base64)| == DigestLen(Base64) ==> cr.hmac(k, m, Base64)[DigestLen(Base64) - 1] == '=')
    && (forall iv, e :: |iv| == 16 ==> |cr.ivText(iv, e)| == IvLen(e))
    && (forall iv, e :: IsEncoded(cr.ivText(iv, e), e))
    && (forall iv, e :: cr.ivBytes(cr.ivText(iv, e), e) == iv)
    && (forall a, k, iv, t, e :: IsEncoded(cr.encrypt(a, k, iv, t, e), e))
    && (forall a, k, iv, t, e :: cr.decrypt(a, k, iv, cr.encrypt(a, k, iv, t, e), e) == t)
  }
}
