/** Clients of `DecEnc.Instance` that show, from the method contracts alone,
    the behaviour test.js exercises: a round trip through one object, the
    key-length guard, a sticky key override, and a wrong key that passes
    the tag check. */
module Usage {
  import opened Primitives
  import opened Framing
  import opened DecEnc

  /** `decode(encode(text).block)` on one object configured with a
      32-character key and a hash key gives the text back and leaves
      `lastError` empty, in either encoding. */
  method RoundTrip(cr: Crypto, e: Encoding, text: string, key: string, hashkey: string, random: Bytes)
      returns (decoded: Option<string>, status: Status)
    requires WellFormed(cr) && |key| == 32 && |random| == 16
    ensures decoded == Some(text) && status == NoError
  {
    var d := new Instance(Some(map["key" := Str(key), "hashkey" := Str(hashkey), "encoding" := Str(e.Name())]));
    var sealed := d.Encode(cr, text, None, None, None, None, random);
    var s := SettingsOf(d.options);
    assert s == Settings("aes-256-ctr", e, key, hashkey);
    OpenSeal(cr, s, text, random, false);
    EncodedIsTrimmed(sealed.value.block, e);
    decoded := d.Decode(cr, sealed.value.block, None, None, None, None);
    status := d.lastError;
  }

  /** The calls of test.js on one object built with a 7-character key. */
  method TestScenario(cr: Crypto, random: Bytes)
      returns (e1: Option<EncodeResult>, s1: Status, e2: Option<EncodeResult>, s2: Status,
               d3: Option<string>, s3: Status, d4: Option<string>, s4: Status,
               d5: Option<string>, s5: Status)
    requires WellFormed(cr) && |random| == 16
    ensures e1 == None && s1 == KeyLength && s1.Text() == "key_length"
    ensures e2.Some? && s2 == NoError && s2.Text() == ""
    ensures d3 == None && s3 == KeyLength && s3.Text() == "key_length"
    ensures e2.Some? ==> d4 == Some(cr.decrypt("aes-256-ctr", "0123456789012345678901234567890x", random,
                                               e2.value.encoded, Base64))
    ensures s4 == NoError
    ensures d5 == Some("laughs at a dinner party") && s5 == NoError && s5.Text() == ""
  {
    var text := "laughs at a dinner party";
    var good := "01234567890123456789012345678901";
    var d := new Instance(Some(map["key" := Str("agarjag"), "hashkey" := Str("hashish")]));
    e1 := d.Encode(cr, text, None, None, None, None, random);
    s1 := d.lastError;
    e2 := d.Encode(cr, text, Some(good), None, None, None, random);
    s2 := d.lastError;
    var s := Settings("aes-256-ctr", Base64, good, "hashish");
    var block := e2.value.block;
    EncodedIsTrimmed(block, Base64);
    d3 := d.Decode(cr, block, Some("bad_key"), None, None, None);
    s3 := d.lastError;
    WrongKeyPassesCheck(cr, s, text, random, "0123456789012345678901234567890x");
    d4 := d.Decode(cr, block, Some("0123456789012345678901234567890x"), None, None, None);
    s4 := d.lastError;
    OpenSeal(cr, s, text, random, false);
    d5 := d.Decode(cr, block, Some(good), None, None, None);
    s5 := d.lastError;
  }

  /** A key override is written into the options before the key check, so a
      failing call still replaces a good stored key and the next call
      without a key fails as well. */
  method OverrideOutlivesFailure(cr: Crypto, block: string) returns (first: Status, second: Status, stored: OptValue)
    ensures first == KeyLength && second == KeyLength && stored == Str("bad_key")
  {
    var d := new Instance(Some(map["key" := Str("01234567890123456789012345678901"), "hashkey" := Str("hashish")]));
    var r := d.Decode(cr, block, Some("bad_key"), None, None, None);
    first := d.lastError;
    r := d.Decode(cr, block, None, None, None, None);
    second := d.lastError;
    stored := d.options["key"];
  }
}
