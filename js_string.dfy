/** The two JavaScript string built-ins the block framing relies on:
    `String.prototype.substr` (ECMAScript Annex B.2.2.1) and
    `String.prototype.trim` (ECMAScript section 22.1.3.32). A JavaScript
    string is modelled as a sequence of characters. */
module JsString {

  function Min(a: int, b: int): int { if a <= b then a else b }

  function Max(a: int, b: int): int { if a <= b then b else a }

  /** `s.substr(start, length)`: a negative start counts from the end and is
      clamped at 0, a start past the end gives the empty string, and the
      length is clamped to [0, |s|] and cut off at the end of `s`. */
  function Substr(s: string, start: int, length: int): (r: string)
    ensures |r| <= |s|
    ensures length <= 0 ==> r == []
    ensures |r| <= Max(length, 0)
  {
    var from := if start < 0 then Max(|s| + start, 0) else Min(start, |s|);
    var to := Min(from + Min(Max(length, 0), |s|), |s|);
    s[from..to]
  }

  /** `s.substr(-n, n)` is the last `n` characters, and `s.substr(0, n)` the
      first `n`, whenever `s` is long enough. */
  lemma SubstrEnds(s: string, n: int)
    requires 0 <= n <= |s|
    ensures Substr(s, -n, n) == s[|s| - n..]
    ensures Substr(s, 0, n) == s[..n]
  {
  }

  /** `s.substr(-m, n)` with `n <= m` is the window of `n` characters that
      starts `m` characters from the end. */
  lemma SubstrWindow(s: string, m: int, n: int)
    requires 0 <= n <= m <= |s|
    ensures Substr(s, -m, n) == s[|s| - m..|s| - m + n]
  {
  }

  /** When `s` is shorter than `n`, `s.substr(-n, n)` is all of `s`. */
  lemma SubstrShort(s: string, n: int)
    requires |s| <= n
    ensures Substr(s, -n, n) == s
  {
  }

  /** The characters `trim` removes: the ECMAScript WhiteSpace code points
      (tab, vertical tab, form feed, space, no-break space, the byte order
      mark and the Unicode space separators) and the LineTerminator code
      points (line feed, carriage return, line and paragraph separators). */
  predicate IsWhitespace(c: char) {
    var n := c as int;
    n == 0x09 || n == 0x0B || n == 0x0C || n == 0x20 || n == 0xA0 || n == 0xFEFF
    || n == 0x1680 || (0x2000 <= n <= 0x200A) || n == 0x202F || n == 0x205F || n == 0x3000
    || n == 0x0A || n == 0x0D || n == 0x2028 || n == 0x2029
  }

  /** True when neither end of `s` is a whitespace character. */
  predicate Trimmed(s: string) {
    s == [] || (!IsWhitespace(s[0]) && !IsWhitespace(s[|s| - 1]))
  }

  /** Drops the leading whitespace: the result is the suffix of `s` that
      starts at its first non-whitespace character. */
  function TrimStart(s: string): (r: string)
    ensures |r| <= |s| && r == s[|s| - |r|..]
    ensures r == [] || !IsWhitespace(r[0])
    ensures forall i :: 0 <= i < |s| - |r| ==> IsWhitespace(s[i])
  {
    if s != [] && IsWhitespace(s[0]) then TrimStart(s[1..]) else s
  }

  /** Drops the trailing whitespace: the result is the prefix of `s` that
      ends at its last non-whitespace character. */
  function TrimEnd(s: string): (r: string)
    ensures |r| <= |s| && r == s[..|r|]
    ensures r == [] || !IsWhitespace(r[|r| - 1])
    ensures forall i :: |r| <= i < |s| ==> IsWhitespace(s[i])
  {
    if s != [] && IsWhitespace(s[|s| - 1]) then TrimEnd(s[..|s| - 1]) else s
  }

  /** `s.trim()`: no whitespace is left at either end, and a string that is
      already trimmed comes back unchanged. */
  function Trim(s: string): (r: string)
    ensures |r| <= |s|
    ensures Trimmed(r)
    ensures Trimmed(s) ==> r == s
  {
    TrimEnd(TrimStart(s))
  }

  /** What `trim` keeps is one contiguous slice `s[a..a + |Trim(s)|]`, and
      everything it removes on either side is whitespace. */
  lemma TrimSlice(s: string) returns (a: nat)
    ensures a + |Trim(s)| <= |s| && Trim(s) == s[a..a + |Trim(s)|]
    ensures forall i :: 0 <= i < a ==> IsWhitespace(s[i])
    ensures forall i :: a + |Trim(s)| <= i < |s| ==> IsWhitespace(s[i])
  {
    var t := TrimStart(s);
    var r := TrimEnd(t);
    assert r == Trim(s);
    a := |s| - |t|;
    TrailingWhitespace(s, t, r, a);
  }

  /** The trailing part of a suffix `t` of `s` that `TrimEnd` drops is
      whitespace in `s` too. */
  lemma TrailingWhitespace(s: string, t: string, r: string, a: nat)
    requires a + |t| == |s| && t == s[a..]
    requires |r| <= |t| && forall i :: |r| <= i < |t| ==> IsWhitespace(t[i])
    ensures forall i :: a + |r| <= i < |s| ==> IsWhitespace(s[i])
  {
    forall i | a + |r| <= i < |s|
      ensures IsWhitespace(s[i])
    {
      assert s[i] == t[i - a];
    }
  }

  /** Trimming twice is trimming once. */
  lemma TrimIdempotent(s: string)
    ensures Trim(Trim(s)) == Trim(s)
  {
  }
}
