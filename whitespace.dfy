/**
 * Trailing whitespace of a line: the characters matched by the pattern `\s*$`,
 * and the UTF-8 byte lengths in which the trimmer counts what it removes.
 */
module Whitespace {

  /** The Unicode White_Space property, which is what `\s` matches. */
  predicate IsWhitespace(c: char) {
    || ('\t' <= c <= '\r')
    || c == ' '
    || c == '\U{0085}'
    || c == '\U{00A0}'
    || c == '\U{1680}'
    || ('\U{2000}' <= c <= '\U{200A}')
    || c == '\U{2028}'
    || c == '\U{2029}'
    || c == '\U{202F}'
    || c == '\U{205F}'
    || c == '\U{3000}'
  }

  predicate AllWhitespace(s: string) {
    forall k :: 0 <= k < |s| ==> IsWhitespace(s[k])
  }

  /** True when `s` is empty or its last character is not whitespace. */
  predicate NoTrailingWhitespace(s: string) {
    s == [] || !IsWhitespace(s[|s| - 1])
  }

  /**
   * `s` with its maximal whitespace suffix removed: what replacing the first
   * match of `\s*$` by the empty string yields.
   */
  function TrimEnd(s: string): (r: string)
    ensures r <= s
    ensures NoTrailingWhitespace(r)
    ensures AllWhitespace(s[|r|..])
  {
    if s == [] then []
    else if IsWhitespace(s[|s| - 1]) then
      var r := TrimEnd(s[..|s| - 1]);
      assert s[|r|..] == s[..|s| - 1][|r|..] + [s[|s| - 1]];
      r
    else s
  }

  /** The three properties of TrimEnd determine its result. */
  lemma TrimEndUnique(s: string, r: string)
    requires r <= s && NoTrailingWhitespace(r) && AllWhitespace(s[|r|..])
    ensures r == TrimEnd(s)
  {
  }

  lemma TrimEndIdempotent(s: string)
    requires NoTrailingWhitespace(s)
    ensures TrimEnd(s) == s
  {
    TrimEndUnique(s, s);
  }

  /** Appending whitespace does not change what is left after trimming. */
  lemma TrimEndAppendWhitespace(a: string, w: string)
    requires AllWhitespace(w)
    ensures TrimEnd(a + w) == TrimEnd(a)
  {
    var t := TrimEnd(a);
    assert (a + w)[|t|..] == a[|t|..] + w;
    TrimEndUnique(a + w, t);
  }

  /** Number of bytes the UTF-8 encoding of `c` takes. */
  function Utf8Width(c: char): (n: nat)
    ensures 1 <= n <= 4
    ensures (c as int < 0x80) <==> n == 1
  {
    if c as int < 0x80 then 1
    else if c as int < 0x800 then 2
    else if c as int < 0x1_0000 then 3
    else 4
  }

  /** Length in bytes of the UTF-8 encoding of `s`, which is what Rust's `str::len` returns. */
  function ByteLen(s: string): (n: nat)
    ensures |s| <= n <= 4 * |s|
  {
    if s == [] then 0 else ByteLen(s[..|s| - 1]) + Utf8Width(s[|s| - 1])
  }

  lemma {:induction false} ByteLenAppend(a: string, b: string)
    ensures ByteLen(a + b) == ByteLen(a) + ByteLen(b)
    decreases |b|
  {
    if b == [] {
      assert a + b == a;
    } else {
      assert (a + b)[..|a + b| - 1] == a + b[..|b| - 1];
      ByteLenAppend(a, b[..|b| - 1]);
    }
  }

  /** On ASCII text the byte length is the number of characters. */
  lemma {:induction false} ByteLenAscii(s: string)
    requires forall k :: 0 <= k < |s| ==> s[k] as int < 0x80
    ensures ByteLen(s) == |s|
  {
    if s != [] {
      ByteLenAscii(s[..|s| - 1]);
    }
  }

  /**
   * Number of bytes the trimmer removes from `line`: the byte length of its
   * maximal whitespace suffix.
   */
  function Removed(line: string): (n: nat)
    ensures n == ByteLen(line) - ByteLen(TrimEnd(line))
    ensures n == 0 <==> TrimEnd(line) == line
  {
    var t := TrimEnd(line);
    assert line == t + line[|t|..];
    ByteLenAppend(t, line[|t|..]);
    ByteLen(line[|t|..])
  }
}
