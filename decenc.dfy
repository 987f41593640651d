/** The `decenc` object of index.js: an options record filled in by the
    constructor, a `lastError` status, and the `encode` and `decode` methods.
    Both methods write every non-null key, hash key and encoding argument
    back into the options ("sticky" overrides) before checking the key, so
    an override persists even when the call then fails. */
module DecEnc {
  import opened JsString
  import opened Primitives
  import opened Framing

  /** A value stored in the options object: `null`, or a string. */
  datatype OptValue = Null | Str(s: string)

  /** The options object, keyed by property name. */
  type Options = map<string, OptValue>

  /** The three values `lastError` takes. */
  datatype Status = NoError | KeyLength | ChecksumFail {
    /** The string the source stores in `lastError`. */
    function Text(): string {
      match this
      case NoError => ""
      case KeyLength => "key_length"
      case ChecksumFail => "checksum_fail"
    }
  }

  /** The options every instance starts from. */
  function Defaults(): Options {
    map["algo" := Str("aes-256-ctr"), "encoding" := Str("base64"), "key" := Null, "hashkey" := Null]
  }

  /** The four option names the methods read. */
  predicate HasOptionNames(o: Options) {
    "algo" in o && "encoding" in o && "key" in o && "hashkey" in o
  }

  /** A non-null argument replaces the stored option; null leaves it. */
  function Sticky(o: Options, name: string, arg: Option<string>): Options {
    if arg.Some? then o[name := Str(arg.value)] else o
  }

  /** The options after a call's encoding, hash key and key arguments have
      been written back, in the order the source writes them. */
  function Overridden(o: Options, key: Option<string>, hashkey: Option<string>, encoding: Option<string>): Options {
    Sticky(Sticky(Sticky(o, "encoding", encoding), "hashkey", hashkey), "key", key)
  }

  /** The options after the write-back: each of the three names holds the
      argument when one was given and its old value otherwise, and every
      other option is untouched. */
  lemma OverriddenValues(o: Options, key: Option<string>, hashkey: Option<string>, encoding: Option<string>, name: string)
    requires HasOptionNames(o)
    ensures var o' := Overridden(o, key, hashkey, encoding);
            HasOptionNames(o') && o'.Keys == o.Keys
            && o'["key"] == (if key.Some? then Str(key.value) else o["key"])
            && o'["hashkey"] == (if hashkey.Some? then Str(hashkey.value) else o["hashkey"])
            && o'["encoding"] == (if encoding.Some? then Str(encoding.value) else o["encoding"])
            && (name in o && name != "key" && name != "hashkey" && name != "encoding" ==> o'[name] == o[name])
  {
  }

  /** The effective key: the stored one, which the source requires to be a
      string (a null key makes `.length` throw). */
  predicate HasKey(o: Options) {
    "key" in o && o["key"].Str?
  }

  /** What the source needs past the key check for the crypto calls not to
      throw: string algorithm and hash key, and a supported encoding. */
  predicate Usable(o: Options) {
    HasOptionNames(o) && o["key"].Str? && o["algo"].Str? && o["hashkey"].Str?
    && o["encoding"].Str? && ParseEncoding(o["encoding"].s).Some?
  }

  /** The source's preconditions for a call on options `o`: a string key,
      and usable options whenever the key has the right length. */
  predicate Callable(o: Options) {
    HasKey(o) && (|o["key"].s| == 32 ==> Usable(o))
  }

  function SettingsOf(o: Options): (s: Settings)
    requires Usable(o)
    ensures s.encoding.Name() == o["encoding"].s
  {
    Settings(o["algo"].s, ParseEncoding(o["encoding"].s).value, o["key"].s, o["hashkey"].s)
  }

  /** One `decenc` object. */
  class Instance {
    var options: Options
    var lastError: Status

    ghost predicate Valid()
      reads this
    {
      HasOptionNames(options)
    }

    /** `new decenc(opts)`: start from the defaults and copy every property
        of `opts` over them, one key at a time. `None` is a null or
        undefined `opts`, which leaves the defaults. */
    constructor (opts: Option<Options>)
      ensures Valid() && lastError == NoError
      ensures opts.None? ==> options == Defaults()
      ensures opts.Some? ==> options.Keys == Defaults().Keys + opts.value.Keys
      ensures opts.Some? ==> forall k :: k in opts.value ==> options[k] == opts.value[k]
      ensures opts.Some? ==> forall k :: k in Defaults() && k !in opts.value ==> options[k] == Defaults()[k]
    {
      var o := Defaults();
      if opts.Some? {
        var given := opts.value;
        var todo := given.Keys;
        while todo != {}
          invariant todo <= given.Keys
          invariant o.Keys == Defaults().Keys + (given.Keys - todo)
          invariant forall k :: k in given && k !in todo ==> o[k] == given[k]
          invariant forall k :: k in Defaults() && (k !in given || k in todo) ==> o[k] == Defaults()[k]
          decreases todo
        {
          var k :| k in todo;
          o := o[k := given[k]];
          todo := todo - {k};
        }
      }
      options := o;
      lastError := NoError;
    }

    /** `encode(text, secretpass, secrethash, iv, encoding)`. A `None`
        argument is null or undefined. `random` is what
        `crypto.randomBytes(16)` returns, used when no IV is given. */
    method Encode(cr: Crypto, text: string, secretpass: Option<string>, secrethash: Option<string>,
                  iv: Option<Bytes>, encoding: Option<string>, random: Bytes)
        returns (r: Option<EncodeResult>)
      requires Valid() && |random| == 16
      requires Callable(Overridden(options, secretpass, secrethash, encoding))
      modifies this
      ensures Valid()
      ensures options == Overridden(old(options), secretpass, secrethash, encoding)
      ensures |options["key"].s| != 32 ==> r == None && lastError == KeyLength
      ensures |options["key"].s| == 32 ==>
                r == Some(Seal(cr, SettingsOf(options), text, if iv.Some? then iv.value else random))
                && lastError == NoError
    {
      if encoding.Some? {
        options := options["encoding" := Str(encoding.value)];
      }
      var ivb := if iv.None? then random else iv.value;
      var hashkey: OptValue;
      if secrethash.None? {
        hashkey := options["hashkey"];
      } else {
        hashkey := Str(secrethash.value);
        options := options["hashkey" := hashkey];
      }
      var key: string;
      if secretpass.None? {
        key := options["key"].s;
      } else {
        key := secretpass.value;
        options := options["key" := Str(key)];
      }
      if |key| != 32 {
        lastError := KeyLength;
        return None;
      }
      var e := ParseEncoding(options["encoding"].s).value;
      var ivstr := cr.ivText(ivb, e);
      var done := cr.encrypt(options["algo"].s, key, ivb, text, e);
      var digest := cr.hmac(hashkey.s, done + ivstr, e);
      lastError := NoError;
      r := Some(EncodeResult(done + ivstr + digest, digest, done, ivstr));
    }

    /** `decode(block, secretpass, secrethash, iv, encoding)`. A `None`
        argument is null or undefined; `None` as the result is `null`. */
    method Decode(cr: Crypto, block: string, secretpass: Option<string>, secrethash: Option<string>,
                  iv: Option<Bytes>, encoding: Option<string>)
        returns (r: Option<string>)
      requires Valid()
      requires Callable(Overridden(options, secretpass, secrethash, encoding))
      modifies this
      ensures Valid()
      ensures options == Overridden(old(options), secretpass, secrethash, encoding)
      ensures |options["key"].s| != 32 ==> r == None && lastError == KeyLength
      ensures |options["key"].s| == 32 ==>
                match Open(cr, SettingsOf(options), Trim(block), iv)
                case Ok(text) => r == Some(text) && lastError == NoError
                case ChecksumMismatch => r == None && lastError == ChecksumFail
    {
      var b := Trim(block);
      if encoding.Some? {
        options := options["encoding" := Str(encoding.value)];
      }
      var hashkey: OptValue;
      if secrethash.None? {
        hashkey := options["hashkey"];
      } else {
        hashkey := Str(secrethash.value);
        options := options["hashkey" := hashkey];
      }
      var key: string;
      if secretpass.None? {
        key := options["key"].s;
      } else {
        key := secretpass.value;
        options := options["key" := Str(key)];
      }
      if |key| != 32 {
        lastError := KeyLength;
        return None;
      }
      var e := ParseEncoding(options["encoding"].s).value;
      var ivlen: int, diglen: int := IvLen(e), DigestLen(e);
      var digest := Substr(b, 0 - diglen, diglen);
      var ivstr := if iv.None? then Substr(b, 0 - (diglen + ivlen), ivlen) else cr.ivText(iv.value, e);
      var done := Substr(b, 0, |b| - (diglen + ivlen));
      assert Parts(done, ivstr, digest)
             == Split(b, e, if iv.Some? then Some(cr.ivText(iv.value, e)) else None);
      assert SettingsOf(options) == Settings(options["algo"].s, e, key, hashkey.s);
      var checkdigest := cr.hmac(hashkey.s, done + ivstr, e);
      if checkdigest != digest {
        lastError := ChecksumFail;
        return None;
      }
      var text := cr.decrypt(options["algo"].s, key, cr.ivBytes(ivstr, e), done, e);
      lastError := NoError;
      r := Some(text);
    }
  }
}
