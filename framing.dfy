/** The block format and the two cryptographic halves of `encode` and
    `decode` (index.js), once the key-length guard has passed. A block is
    the text `encoded ++ iv ++ hash`: the ciphertext, the IV and the
    HMAC-SHA-256 tag, all written in the configured encoding. The tag covers
    the encoded ciphertext followed by the encoded IV. */
module Framing {
  import opened JsString
  import opened Primitives

  /** The options a call works with once the key check has passed. */
  datatype Settings = Settings(algo: string, encoding: Encoding, key: string, hashkey: string)

  /** The object `encode` returns: `block`, `hash`, `encoded` and `iv`. */
  datatype EncodeResult = EncodeResult(block: string, hash: string, encoded: string, iv: string)

  /** The three pieces `decode` cuts out of a block: `done` (the ciphertext),
      `ivstr` and `digest`. */
  datatype Parts = Parts(cipher: string, iv: string, digest: string)

  /** How `decode` slices a trimmed block from the right: the last
      `DigestLen` characters are the digest, the `IvLen` before them the IV
      (unless the caller passed its own IV, whose text is used instead), and
      everything before both is the ciphertext. A block too short for the
      two windows is not rejected: JavaScript's `substr` clamps. */
  function Split(block: string, e: Encoding, ivOverride: Option<string>): (p: Parts)
    ensures |p.digest| == Min(DigestLen(e), |block|)
    ensures p.digest == block[|block| - |p.digest|..]
    ensures |p.cipher| == Max(|block| - (IvLen(e) + DigestLen(e)), 0)
    ensures p.cipher == block[..|p.cipher|]
    ensures ivOverride.Some? ==> p.iv == ivOverride.value
  {
    var ivlen, diglen := IvLen(e), DigestLen(e);
    var digest := Substr(block, 0 - diglen, diglen);
    var ivstr := if ivOverride.None? then Substr(block, 0 - (diglen + ivlen), ivlen) else ivOverride.value;
    var done := Substr(block, 0, |block| - (diglen + ivlen));
    Parts(done, ivstr, digest)
  }

  /** Joining three pieces of the fixed widths and splitting the result
      gives the pieces back; with a caller-supplied IV the embedded IV window
      is skipped and the ciphertext still ends where it begins. */
  lemma {:induction false} SplitJoin(c: string, i: string, d: string, e: Encoding, ivOverride: Option<string>)
    requires |i| == IvLen(e) && |d| == DigestLen(e)
    ensures Split(c + i + d, e, ivOverride)
            == Parts(c, if ivOverride.Some? then ivOverride.value else i, d)
  {
    var b := c + i + d;
    SubstrEnds(b, DigestLen(e));
    SubstrWindow(b, IvLen(e) + DigestLen(e), IvLen(e));
    SubstrEnds(b, |c|);
    assert b[|b| - DigestLen(e)..] == d;
    assert b[|b| - (IvLen(e) + DigestLen(e))..|b| - (IvLen(e) + DigestLen(e)) + IvLen(e)] == i;
    assert b[..|c|] == c;
  }

  /** Conversely, a block long enough for both windows is exactly the
      concatenation of the three pieces `decode` cuts out of it. */
  lemma {:induction false} JoinSplit(block: string, e: Encoding)
    requires |block| >= IvLen(e) + DigestLen(e)
    ensures var p := Split(block, e, None);
            block == p.cipher + p.iv + p.digest && |p.iv| == IvLen(e) && |p.digest| == DigestLen(e)
  {
    var n := IvLen(e) + DigestLen(e);
    SubstrWindow(block, n, IvLen(e));
    var p := Split(block, e, None);
    assert block == block[..|block| - n] + block[|block| - n..|block| - DigestLen(e)] + block[|block| - DigestLen(e)..];
  }

  /** A block shorter than both windows yields an empty ciphertext, its IV
      window is its first `IvLen` characters (or all of it), and one shorter
      than the digest window is taken whole as the digest. */
  lemma ShortBlock(block: string, e: Encoding, ivOverride: Option<string>)
    requires |block| < IvLen(e) + DigestLen(e)
    ensures Split(block, e, ivOverride).cipher == []
    ensures ivOverride.None? ==> Split(block, e, ivOverride).iv == block[..Min(IvLen(e), |block|)]
    ensures |block| <= DigestLen(e) ==> Split(block, e, ivOverride).digest == block
  {
  }

  /** The part of `encode` after the key check: encrypt, write the IV as
      text, tag the concatenation of the two texts, and frame the three. */
  function Seal(cr: Crypto, s: Settings, text: string, iv: Bytes): (r: EncodeResult)
    ensures r.encoded == cr.encrypt(s.algo, s.key, iv, text, s.encoding)
    ensures r.iv == cr.ivText(iv, s.encoding)
    ensures r.block == r.encoded + r.iv + r.hash
    ensures r.hash == cr.hmac(s.hashkey, r.encoded + r.iv, s.encoding)
    ensures WellFormed(cr) && |iv| == 16 ==>
              |r.iv| == IvLen(s.encoding) && |r.hash| == DigestLen(s.encoding) && IsEncoded(r.block, s.encoding)
  {
    var ivstr := cr.ivText(iv, s.encoding);
    var done := cr.encrypt(s.algo, s.key, iv, text, s.encoding);
    var digest := cr.hmac(s.hashkey, done + ivstr, s.encoding);
    EncodeResult(done + ivstr + digest, digest, done, ivstr)
  }

  /** The part of `decode` after the key check, on an already trimmed block:
      split it, recompute the tag over the ciphertext and IV texts, and
      decipher only when the tag matches. The only failure is a tag mismatch. */
  function Open(cr: Crypto, s: Settings, block: string, iv: Option<Bytes>): (r: Result)
    ensures var p := Split(block, s.encoding, if iv.Some? then Some(cr.ivText(iv.value, s.encoding)) else None);
            (r.Ok? <==> cr.hmac(s.hashkey, p.cipher + p.iv, s.encoding) == p.digest)
            && (r.Ok? ==> r.text == cr.decrypt(s.algo, s.key, cr.ivBytes(p.iv, s.encoding), p.cipher, s.encoding))
  {
    var p := Split(block, s.encoding, if iv.Some? then Some(cr.ivText(iv.value, s.encoding)) else None);
    var checkdigest := cr.hmac(s.hashkey, p.cipher + p.iv, s.encoding);
    if checkdigest != p.digest then ChecksumMismatch
    else Ok(cr.decrypt(s.algo, s.key, cr.ivBytes(p.iv, s.encoding), p.cipher, s.encoding))
  }

  /** What `Open` yields: the plaintext, or a checksum failure. */
  datatype Result = Ok(text: string) | ChecksumMismatch

  /** Round trip: opening a sealed block with the same settings gives the
      text back, whether the IV is read from the block or passed again. */
  lemma {:induction false} OpenSeal(cr: Crypto, s: Settings, text: string, iv: Bytes, again: bool)
    requires WellFormed(cr) && |iv| == 16
    ensures Open(cr, s, Seal(cr, s, text, iv).block, if again then Some(iv) else None) == Ok(text)
  {
    var r := Seal(cr, s, text, iv);
    SplitJoin(r.encoded, r.iv, r.hash, s.encoding, if again then Some(r.iv) else None);
  }

  /** The tag check never looks at the encryption key: with the right hash
      key, a wrong (32-character) key passes the check and yields the
      deciphering of the ciphertext under that wrong key. */
  lemma {:induction false} WrongKeyPassesCheck(cr: Crypto, s: Settings, text: string, iv: Bytes, wrongKey: string)
    requires WellFormed(cr) && |iv| == 16
    ensures var r := Seal(cr, s, text, iv);
            Open(cr, s.(key := wrongKey), r.block, None)
            == Ok(cr.decrypt(s.algo, wrongKey, iv, r.encoded, s.encoding))
  {
    var r := Seal(cr, s, text, iv);
    SplitJoin(r.encoded, r.iv, r.hash, s.encoding, None);
  }

  /** A sealed block whose tag alone was replaced by a different one of the
      same width fails the tag check: the ciphertext and IV are unchanged, so
      the recomputed tag is still the original one. */
  lemma {:induction false} TamperedTagFails(cr: Crypto, s: Settings, text: string, iv: Bytes, forged: string, again: bool)
    requires WellFormed(cr) && |iv| == 16
    requires |forged| == DigestLen(s.encoding) && forged != Seal(cr, s, text, iv).hash
    ensures var r := Seal(cr, s, text, iv);
            Open(cr, s, r.encoded + r.iv + forged, if again then Some(iv) else None) == ChecksumMismatch
  {
    var r := Seal(cr, s, text, iv);
    SplitJoin(r.encoded, r.iv, forged, s.encoding, if again then Some(r.iv) else None);
  }

  /** Whether the tag check passes depends on the hash key, the encoding and
      the block only, never on the encryption key or the algorithm. */
  lemma TagCheckIgnoresKey(cr: Crypto, s: Settings, key: string, algo: string, block: string, iv: Option<Bytes>)
    ensures Open(cr, s, block, iv).Ok? == Open(cr, s.(key := key, algo := algo), block, iv).Ok?
  {
  }

  /** Tag before decrypt: on a mismatch the result is the same whatever the
      decipher call would do, so deciphering is never reached. */
  lemma MismatchNeverDeciphers(cr: Crypto, s: Settings, block: string, iv: Option<Bytes>,
                               decrypt: (string, string, Bytes, string, Encoding) -> string)
    requires Open(cr, s, block, iv) == ChecksumMismatch
    ensures Open(cr.(decrypt := decrypt), s, block, iv) == ChecksumMismatch
  {
  }

  /** A hex block read as base64 fails the tag check: its last 44
      characters are hex digits, while every base64 digest ends in `=`. */
  lemma {:induction false} HexBlockReadAsBase64(cr: Crypto, s: Settings, text: string, iv: Bytes, ivOverride: Option<Bytes>)
    requires WellFormed(cr) && |iv| == 16 && s.encoding == Hex
    ensures Open(cr, s.(encoding := Base64), Seal(cr, s, text, iv).block, ivOverride) == ChecksumMismatch
  {
    var block := Seal(cr, s, text, iv).block;
    var s' := s.(encoding := Base64);
    var p := Split(block, Base64, if ivOverride.Some? then Some(cr.ivText(ivOverride.value, Base64)) else None);
    var check := cr.hmac(s'.hashkey, p.cipher + p.iv, Base64);
    assert |block| >= DigestLen(Hex);
    assert |p.digest| == 44 && p.digest[43] == block[|block| - 1];
    assert InAlphabet(block[|block| - 1], Hex);
    assert check[43] == '=';
  }

  /** A base64 block read as hex fails the tag check: it ends in the `=` of
      its base64 digest, which no hex digest contains. */
  lemma {:induction false} Base64BlockReadAsHex(cr: Crypto, s: Settings, text: string, iv: Bytes, ivOverride: Option<Bytes>)
    requires WellFormed(cr) && |iv| == 16 && s.encoding == Base64
    ensures Open(cr, s.(encoding := Hex), Seal(cr, s, text, iv).block, ivOverride) == ChecksumMismatch
  {
    var r := Seal(cr, s, text, iv);
    var block := r.block;
    var s' := s.(encoding := Hex);
    var p := Split(block, Hex, if ivOverride.Some? then Some(cr.ivText(ivOverride.value, Hex)) else None);
    var check := cr.hmac(s'.hashkey, p.cipher + p.iv, Hex);
    assert block[|block| - 1] == r.hash[43] == '=';
    assert |p.digest| > 0 && p.digest[|p.digest| - 1] == '=';
    if |p.digest| == |check| {
      assert InAlphabet(check[|check| - 1], Hex);
    }
  }
}
