/**
 * The text of visualization records. A record shows a line number right-aligned
 * in six columns (`{:>6}`), a `|`, the trimmed text, and one `_` per removed
 * byte; the colours the source paints the `_` run with are not part of the model.
 */
module Format {
  import opened Sequences

  /** One visualization record: which line, what is left of it, how many bytes went. */
  datatype Visual = Visual(lineNumber: nat, text: string, padding: nat)

  function Digit(d: nat): (c: char)
    requires d < 10
    ensures '0' <= c <= '9' && c as int - '0' as int == d
  {
    ('0' as int + d) as char
  }

  /** Decimal notation of `n`, without leading zeros, as `{}` prints a `usize`. */
  function Decimal(n: nat): (s: string)
    ensures 1 <= |s|
    ensures forall i :: 0 <= i < |s| ==> '0' <= s[i] <= '9'
    ensures |s| > 1 ==> s[0] != '0'
  {
    if n < 10 then [Digit(n)] else Decimal(n / 10) + [Digit(n % 10)]
  }

  /** The number a string of decimal digits denotes. */
  function DecimalValue(s: string): nat
    requires forall i :: 0 <= i < |s| ==> '0' <= s[i] <= '9'
  {
    if s == [] then 0
    else DecimalValue(s[..|s| - 1]) * 10 + (s[|s| - 1] as int - '0' as int)
  }

  lemma {:induction false} DecimalRoundTrip(n: nat)
    ensures DecimalValue(Decimal(n)) == n
  {
    if n >= 10 {
      var prefix := Decimal(n / 10);
      assert Decimal(n)[..|prefix|] == prefix by {
        PrefixOfAppend(prefix, Digit(n % 10));
      }
      DecimalRoundTrip(n / 10);
    }
  }

  function Repeat(c: char, n: nat): (s: string)
    ensures |s| == n && forall i :: 0 <= i < n ==> s[i] == c
  {
    seq(n, _ => c)
  }

  /** `s` right-aligned in a field of `width` columns, as `{:>width}` formats it. */
  function PadLeft(s: string, width: nat): (r: string)
    ensures |r| == if |s| < width then width else |s|
    ensures r[|r| - |s|..] == s
    ensures forall i :: 0 <= i < |r| - |s| ==> r[i] == ' '
  {
    if |s| < width then Repeat(' ', width - |s|) + s else s
  }

  /** The line `{:>6}|{}{}` followed by `\n` that a record is written as. */
  function RenderVisual(v: Visual): (line: string)
    ensures |line| >= 8 + |v.text| + v.padding
    ensures line[|line| - 1] == '\n'
    ensures line[|line| - 1 - v.padding..|line| - 1] == Repeat('_', v.padding)
  {
    PadLeft(Decimal(v.lineNumber), 6) + "|" + v.text + Repeat('_', v.padding) + "\n"
  }

  /** The records one after the other, each on its own line. */
  function RenderAll(vs: seq<Visual>): (r: string)
    ensures r == [] <==> vs == []
    ensures r != [] ==> r[|r| - 1] == '\n'
  {
    if vs == [] then "" else RenderVisual(vs[0]) + RenderAll(vs[1..])
  }

  lemma {:induction false} RenderAllAppend(vs: seq<Visual>, ws: seq<Visual>)
    ensures RenderAll(vs + ws) == RenderAll(vs) + RenderAll(ws)
    decreases |vs|
  {
    if vs == [] {
      assert vs + ws == ws;
    } else {
      assert (vs + ws)[1..] == vs[1..] + ws;
      RenderAllAppend(vs[1..], ws);
    }
  }

  /** Rendering one more record appends its line. */
  lemma RenderAllSnoc(vs: seq<Visual>, v: Visual)
    ensures RenderAll(vs + [v]) == RenderAll(vs) + RenderVisual(v)
  {
    RenderAllAppend(vs, [v]);
    assert [v][1..] == [];
    assert RenderAll([v]) == RenderVisual(v);
  }
}
