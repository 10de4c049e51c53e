/**
 * The whole-buffer prototype of src/prelude.rs: `clean`, which trims every
 * line and the text as a whole, and `visualize`, which compares the lines
 * of a file with the cleaned text. The file the lines are read from is
 * replaced by the `lines` parameter.
 */
module Prelude {
  import opened Whitespace
  import opened Lines
  import opened Format
  import opened Sequences
  import opened TrimSpec

  /**
   * `s` with its trailing whitespace replaced by a single `\n`: what
   * replacing the first match of `\s*$` by `\n` yields.
   */
  function RtrimN(s: string): (r: string)
    ensures |r| >= 1 && r[|r| - 1] == '\n'
    ensures r[..|r| - 1] <= s && NoTrailingWhitespace(r[..|r| - 1])
    ensures AllWhitespace(s[|r| - 1..])
  {
    var t := TrimEnd(s);
    PrefixOfAppend(t, '\n');
    t + "\n"
  }

  /** The lines, each put through RtrimN, one after the other. */
  function ConcatRtrimN(lines: seq<string>): (s: string)
    ensures |s| >= |lines|
    ensures lines != [] ==> s[|s| - 1] == '\n'
  {
    if lines == [] then "" else ConcatRtrimN(lines[..|lines| - 1]) + RtrimN(lines[|lines| - 1])
  }

  /** The cleaned text: every line trimmed and ended by `\n`, then the whole trimmed and ended by `\n`. */
  function Clean(lines: seq<string>): (c: string)
    ensures |c| >= 1 && c[|c| - 1] == '\n' && NoTrailingWhitespace(c[..|c| - 1])
  {
    RtrimN(ConcatRtrimN(lines))
  }

  /** Each line put through RtrimN is the trimmed line, terminated. */
  lemma {:induction false} ConcatIsTerminated(lines: seq<string>)
    ensures ConcatRtrimN(lines) == Terminated(Trimmed(lines))
    decreases |lines|
  {
    if lines != [] {
      var p, l := lines[..|lines| - 1], lines[|lines| - 1];
      assert lines == p + [l];
      ConcatIsTerminated(p);
      TrimmedAppend(p, l);
      TerminatedAppend(Trimmed(p), [TrimEnd(l)]);
      assert Terminated([TrimEnd(l)]) == TrimEnd(l) + "\n";
    }
  }

  /** The lines put through RtrimN: the kept trimmed lines terminated, then one `\n` per trailing blank line. */
  lemma {:induction false} ConcatSplit(lines: seq<string>)
    ensures ConcatRtrimN(lines)
         == Terminated(Trimmed(lines)[..Kept(lines)]) + Newlines(TrailingBlanks(lines))
  {
    var k := Kept(lines);
    var ts, m := Trimmed(lines), |lines| - k;
    assert Terminated(ts) == Terminated(ts[..k]) + Newlines(m) by {
      assert ts == ts[..k] + Blanks(m) by {
        TrimmedSplit(lines);
      }
      TerminatedThenBlanks(ts[..k], m);
    }
    ConcatIsTerminated(lines);
  }

  /** Trimming terminated lines and newlines after them leaves the lines joined, when that has no trailing whitespace. */
  lemma {:induction false} TrimTerminated(xs: seq<string>, m: nat)
    requires NoTrailingWhitespace(Join(xs))
    ensures TrimEnd(Terminated(xs) + Newlines(m)) == Join(xs)
  {
    var tail := Newlines(m);
    assert AllWhitespace(tail);
    if xs == [] {
      LeftUnit(tail);
      TrimEndAppendWhitespace([], tail);
    } else {
      JoinThenTerminate(xs);
      Associative(Join(xs), "\n", tail);
      assert AllWhitespace("\n" + tail);
      TrimEndAppendWhitespace(Join(xs), "\n" + tail);
      TrimEndIdempotent(Join(xs));
    }
  }

  /**
   * The prototype cleans exactly as the engine trims with its final newline:
   * the trimmed lines up to the last one with text, joined, and one `\n`.
   */
  lemma {:induction false} CleanIsOutput(lines: seq<string>)
    ensures Clean(lines) == Output(lines, false)
  {
    ConcatSplit(lines);
    BodyNoTrailingWhitespace(lines);
    TrimTerminated(Trimmed(lines)[..Kept(lines)], TrailingBlanks(lines));
  }

  /** The cleaned text ends in exactly one `\n`, and a text without text is a lone `\n`. */
  lemma {:induction false} CleanEnding(lines: seq<string>)
    ensures var c := Clean(lines);
      && c[|c| - 1] == '\n'
      && NoTrailingWhitespace(c[..|c| - 1])
      && (Kept(lines) == 0 <==> c == "\n")
  {
    var b := Body(lines);
    assert Clean(lines) == b + "\n" by {
      CleanIsOutput(lines);
    }
    assert NoTrailingWhitespace(b) && (Kept(lines) == 0 <==> b == []) by {
      BodyNoTrailingWhitespace(lines);
      BodyEmpty(lines);
    }
    PrefixOfAppend(b, '\n');
  }

  /* --- visualize --- */

  /** True when line `i` and piece `i` differ in length, so that a body record is written for them. */
  predicate Differs(lines: seq<string>, pieces: seq<string>, i: nat)
    requires i < |lines| && i < |pieces|
  {
    ByteLen(lines[i]) != ByteLen(pieces[i])
  }

  /** The body records compare no piece longer than its line: the subtraction the source does cannot wrap. */
  predicate Fits(lines: seq<string>, pieces: seq<string>) {
    forall i :: 0 <= i < |lines| && i < |pieces| ==> ByteLen(pieces[i]) <= ByteLen(lines[i])
  }

  /** `v` is the body record of line `v.lineNumber` (1-based) against its piece. */
  predicate IsBodyRecord(lines: seq<string>, pieces: seq<string>, v: Visual) {
    && 1 <= v.lineNumber <= |lines| && v.lineNumber <= |pieces|
    && Differs(lines, pieces, v.lineNumber - 1)
    && v.text == pieces[v.lineNumber - 1]
    && v.padding == ByteLen(lines[v.lineNumber - 1]) - ByteLen(pieces[v.lineNumber - 1])
  }

  /** The body records for the first `n` lines and pieces, zipped, in line order. */
  function BodyRecords(lines: seq<string>, pieces: seq<string>, n: nat): (vs: seq<Visual>)
    requires n <= |lines| && n <= |pieces|
    requires Fits(lines, pieces)
    ensures |vs| <= n
  {
    if n == 0 then []
    else
      var i := n - 1;
      BodyRecords(lines, pieces, i)
        + (if Differs(lines, pieces, i)
           then [Visual(n, pieces[i], ByteLen(lines[i]) - ByteLen(pieces[i]))]
           else [])
  }

  /** Every body record belongs to a line whose piece differs, and the records follow line order. */
  lemma {:induction false} BodyRecordsSound(lines: seq<string>, pieces: seq<string>, n: nat)
    requires n <= |lines| && n <= |pieces| && Fits(lines, pieces)
    ensures forall j :: 0 <= j < |BodyRecords(lines, pieces, n)| ==>
              IsBodyRecord(lines, pieces, BodyRecords(lines, pieces, n)[j])
              && BodyRecords(lines, pieces, n)[j].lineNumber <= n
    ensures forall j, k :: 0 <= j < k < |BodyRecords(lines, pieces, n)| ==>
              BodyRecords(lines, pieces, n)[j].lineNumber < BodyRecords(lines, pieces, n)[k].lineNumber
    decreases n
  {
    if n > 0 {
      BodyRecordsSound(lines, pieces, n - 1);
      var prior := BodyRecords(lines, pieces, n - 1);
      var v := Visual(n, pieces[n - 1], ByteLen(lines[n - 1]) - ByteLen(pieces[n - 1]));
      if Differs(lines, pieces, n - 1) {
        assert IsBodyRecord(lines, pieces, v);
      }
      assert BodyRecords(lines, pieces, n) == prior + (if Differs(lines, pieces, n - 1) then [v] else []);
    }
  }

  /** Every line whose piece differs in length has its body record. */
  lemma {:induction false} BodyRecordsComplete(lines: seq<string>, pieces: seq<string>, n: nat, i: nat)
    requires n <= |lines| && n <= |pieces| && Fits(lines, pieces)
    requires i < n && Differs(lines, pieces, i)
    ensures exists j :: 0 <= j < |BodyRecords(lines, pieces, n)| && BodyRecords(lines, pieces, n)[j].lineNumber == i + 1
    decreases n
  {
    var vs := BodyRecords(lines, pieces, n);
    if i == n - 1 {
      assert vs[|vs| - 1].lineNumber == i + 1;
    } else {
      var prior := BodyRecords(lines, pieces, n - 1);
      BodyRecordsComplete(lines, pieces, n - 1, i);
      var j :| 0 <= j < |prior| && prior[j].lineNumber == i + 1;
      assert vs[j] == prior[j];
    }
  }

  /**
   * The tail records for lines `from` to `n - 1`: one per line, with no text
   * and the whole line as padding, whatever the line holds.
   */
  function TailRecords(lines: seq<string>, from: nat, n: nat): (vs: seq<Visual>)
    requires from <= n <= |lines|
    ensures |vs| == n - from
    ensures forall j :: 0 <= j < |vs| ==> vs[j] == Visual(from + j + 1, "", ByteLen(lines[from + j]))
  {
    if n == from then []
    else TailRecords(lines, from, n - 1) + [Visual(n, "", ByteLen(lines[n - 1]))]
  }

  /** The header record: `file` right-aligned in six columns, `|` and the path as `{:?}` shows it. */
  function Header(pathDebug: string): (h: string)
    ensures h == "  file|" + pathDebug + "\n"
  {
    var column := PadLeft("file", 6);
    assert column == "  file" by {
      assert column[2..] == "file" && column[0] == ' ' && column[1] == ' ';
    }
    column + "|" + pathDebug + "\n"
  }

  function Min(a: nat, b: nat): nat {
    if a < b then a else b
  }

  /**
   * The visualization of `lines` against the text `trimmed`: the header,
   * then a record per line whose piece of `trimmed` (cut at `\n`) differs
   * in length, then a record per line that has no piece. The source's
   * subtraction of the lengths must not wrap, which is what Fits demands.
   */
  function Visualize(pathDebug: string, lines: seq<string>, trimmed: string): (s: string)
    requires Fits(lines, Split(trimmed))
    ensures Header(pathDebug) <= s && s[|s| - 1] == '\n'
  {
    var pieces := Split(trimmed);
    var n := Min(|lines|, |pieces|);
    Header(pathDebug)
      + RenderAll(BodyRecords(lines, pieces, n))
      + RenderAll(TailRecords(lines, n, |lines|))
  }

  /** A lone `\n` splits into two empty pieces. */
  lemma SplitNewline()
    ensures Split("\n") == ["", ""]
  {
    assert IndexOf("\n", '\n') == 0;
    assert Split("\n") == [""] + Split("");
  }

  /** Terminated lines without `\n` split into those lines and one empty piece. */
  lemma {:induction false} SplitTerminated(xs: seq<string>)
    requires xs != []
    requires forall i :: 0 <= i < |xs| ==> '\n' !in xs[i]
    ensures Split(Join(xs) + "\n") == xs + [""]
  {
    JoinAppend(xs, "");
    assert Join(xs) + "\n" == Join(xs + [""]);
    SplitJoin(xs + [""]);
  }

  /**
   * The pieces of a cleaned text: the trimmed lines up to the last one with
   * text and then one empty piece, or two empty pieces when no line has text.
   */
  lemma {:induction false} CleanPieces(lines: seq<string>)
    requires forall i :: 0 <= i < |lines| ==> '\n' !in lines[i]
    ensures Split(Clean(lines))
         == if Kept(lines) == 0 then ["", ""] else Trimmed(lines)[..Kept(lines)] + [""]
  {
    var kept := Trimmed(lines)[..Kept(lines)];
    assert Clean(lines) == Join(kept) + "\n" by {
      CleanIsOutput(lines);
    }
    if kept == [] {
      SplitNewline();
    } else {
      KeptLinesClean(lines);
      SplitTerminated(kept);
    }
  }

  /** Every piece that has a line is that line, trimmed. */
  predicate TrimmedPieces(lines: seq<string>, pieces: seq<string>) {
    forall i :: 0 <= i < |lines| && i < |pieces| ==> pieces[i] == TrimEnd(lines[i])
  }

  /** The trimmed lines up to the last one with text, then empty pieces, are the lines trimmed. */
  lemma {:induction false} PiecesTrimmed(lines: seq<string>, pieces: seq<string>, k: nat)
    requires k <= |lines|
    requires forall i :: k <= i < |lines| ==> !HasText(lines[i])
    requires pieces == if k == 0 then ["", ""] else Trimmed(lines)[..k] + [""]
    ensures TrimmedPieces(lines, pieces)
  {
    forall i | 0 <= i < |lines| && i < |pieces|
      ensures pieces[i] == TrimEnd(lines[i])
    {
      if i >= k {
        assert !HasText(lines[i]);
      }
    }
  }

  /** Each piece of the cleaned text that has a line is that line, trimmed. */
  lemma {:induction false} CleanPiecesTrimmed(lines: seq<string>)
    requires forall i :: 0 <= i < |lines| ==> '\n' !in lines[i]
    ensures TrimmedPieces(lines, Split(Clean(lines)))
  {
    CleanPieces(lines);
    PiecesTrimmed(lines, Split(Clean(lines)), Kept(lines));
  }

  /** Trimmed pieces are never longer than their lines. */
  lemma TrimmedPiecesFit(lines: seq<string>, pieces: seq<string>)
    requires TrimmedPieces(lines, pieces)
    ensures Fits(lines, pieces)
  {
    forall i | 0 <= i < |lines| && i < |pieces|
      ensures ByteLen(pieces[i]) <= ByteLen(lines[i])
    {
      assert Removed(lines[i]) >= 0;
    }
  }

  /** Visualizing the cleaned text never makes the source's subtraction wrap. */
  lemma {:induction false} CleanFits(lines: seq<string>)
    requires forall i :: 0 <= i < |lines| ==> '\n' !in lines[i]
    ensures Fits(lines, Split(Clean(lines)))
  {
    CleanPiecesTrimmed(lines);
    TrimmedPiecesFit(lines, Split(Clean(lines)));
  }

  /** `v` names its line, and holds that line trimmed and the bytes trimming removes from it. */
  predicate Describes(lines: seq<string>, v: Visual) {
    && 1 <= v.lineNumber <= |lines|
    && v.text == TrimEnd(lines[v.lineNumber - 1])
    && v.padding == Removed(lines[v.lineNumber - 1])
  }

  /** Against trimmed pieces, every body record describes a line that loses bytes. */
  lemma {:induction false} TrimmedBodyRecordsSound(lines: seq<string>, pieces: seq<string>, n: nat)
    requires n <= |lines| && n <= |pieces| && TrimmedPieces(lines, pieces)
    ensures Fits(lines, pieces)
    ensures forall j :: 0 <= j < |BodyRecords(lines, pieces, n)| ==>
              Describes(lines, BodyRecords(lines, pieces, n)[j]) && BodyRecords(lines, pieces, n)[j].padding > 0
  {
    TrimmedPiecesFit(lines, pieces);
    BodyRecordsSound(lines, pieces, n);
    var body := BodyRecords(lines, pieces, n);
    forall j | 0 <= j < |body|
      ensures Describes(lines, body[j]) && body[j].padding > 0
    {
      assert IsBodyRecord(lines, pieces, body[j]);
    }
  }

  /** Against trimmed pieces, every line before `n` that loses bytes has a body record. */
  lemma {:induction false} TrimmedBodyRecordsComplete(lines: seq<string>, pieces: seq<string>, n: nat, i: nat)
    requires n <= |lines| && n <= |pieces| && TrimmedPieces(lines, pieces)
    requires i < n && Removed(lines[i]) > 0
    ensures Fits(lines, pieces)
    ensures exists j :: 0 <= j < |BodyRecords(lines, pieces, n)| && BodyRecords(lines, pieces, n)[j].lineNumber == i + 1
  {
    TrimmedPiecesFit(lines, pieces);
    assert Differs(lines, pieces, i);
    BodyRecordsComplete(lines, pieces, n, i);
  }

  /** After the last line with text, each tail record describes its line. */
  lemma {:induction false} TailRecordsBlank(lines: seq<string>, from: nat)
    requires from <= |lines|
    requires forall i :: from <= i < |lines| ==> !HasText(lines[i])
    ensures forall j :: 0 <= j < |TailRecords(lines, from, |lines|)| ==>
              Describes(lines, TailRecords(lines, from, |lines|)[j])
  {
    var tail := TailRecords(lines, from, |lines|);
    forall j | 0 <= j < |tail|
      ensures Describes(lines, tail[j])
    {
      assert !HasText(lines[from + j]);
    }
  }

  /**
   * Visualizing lines against their trimmed pieces: the body records are
   * exactly those of the lines with a piece that lose bytes, each describing
   * its line, in line order and before every line without a piece; when no
   * line without a piece has text, the tail records describe those lines
   * one by one, whether or not they lose bytes.
   */
  predicate VisualizesTrimmed(lines: seq<string>, pieces: seq<string>, i: nat)
    requires Fits(lines, pieces)
  {
    var n := Min(|lines|, |pieces|);
    && (forall j :: 0 <= j < |BodyRecords(lines, pieces, n)| ==>
          Describes(lines, BodyRecords(lines, pieces, n)[j]) && BodyRecords(lines, pieces, n)[j].padding > 0)
    && (forall j :: 0 <= j < |BodyRecords(lines, pieces, n)| ==> BodyRecords(lines, pieces, n)[j].lineNumber <= n)
    && (forall j, k :: 0 <= j < k < |BodyRecords(lines, pieces, n)| ==>
          BodyRecords(lines, pieces, n)[j].lineNumber < BodyRecords(lines, pieces, n)[k].lineNumber)
    && (i < n && Removed(lines[i]) > 0 ==>
          exists j :: 0 <= j < |BodyRecords(lines, pieces, n)| && BodyRecords(lines, pieces, n)[j].lineNumber == i + 1)
    && (forall j :: 0 <= j < |TailRecords(lines, n, |lines|)| ==>
          Describes(lines, TailRecords(lines, n, |lines|)[j]))
  }

  lemma {:induction false} VisualizeTrimmed(lines: seq<string>, pieces: seq<string>, i: nat)
    requires TrimmedPieces(lines, pieces)
    requires forall k :: Min(|lines|, |pieces|) <= k < |lines| ==> !HasText(lines[k])
    ensures Fits(lines, pieces) && VisualizesTrimmed(lines, pieces, i)
  {
    var n := Min(|lines|, |pieces|);
    TrimmedBodyRecordsSound(lines, pieces, n);
    BodyRecordsSound(lines, pieces, n);
    if i < n && Removed(lines[i]) > 0 {
      TrimmedBodyRecordsComplete(lines, pieces, n, i);
    }
    TailRecordsBlank(lines, n);
  }

  /** What visualizing the cleaned text shows: the records VisualizesTrimmed describes. */
  lemma {:induction false} VisualizeClean(lines: seq<string>, i: nat)
    requires forall i :: 0 <= i < |lines| ==> '\n' !in lines[i]
    ensures Fits(lines, Split(Clean(lines))) && VisualizesTrimmed(lines, Split(Clean(lines)), i)
  {
    var pieces := Split(Clean(lines));
    assert TrimmedPieces(lines, pieces) by {
      CleanPiecesTrimmed(lines);
    }
    assert forall k :: Min(|lines|, |pieces|) <= k < |lines| ==> !HasText(lines[k]) by {
      CleanPieces(lines);
      assert Min(|lines|, |pieces|) >= Kept(lines);
    }
    VisualizeTrimmed(lines, pieces, i);
  }
}
