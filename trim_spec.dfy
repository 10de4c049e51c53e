/**
 * What the streaming trimmer of src/trim.rs computes, stated over the whole
 * sequence of input lines: the text it writes, the visualization records it
 * writes, the counters its fold ends with and the byte count it returns.
 */
module TrimSpec {
  import opened Whitespace
  import opened Lines
  import opened Format
  import opened Sequences

  /** True when something is left of `line` once its trailing whitespace is gone. */
  predicate HasText(line: string) {
    TrimEnd(line) != []
  }

  /** Every line with its trailing whitespace removed. */
  function Trimmed(lines: seq<string>): seq<string> {
    seq(|lines|, i requires 0 <= i < |lines| => TrimEnd(lines[i]))
  }

  /**
   * The number of lines up to and including the last line with text; zero
   * when no line has any.
   */
  function Kept(lines: seq<string>): (k: nat)
    ensures k <= |lines|
    ensures k > 0 ==> HasText(lines[k - 1])
    ensures forall i :: k <= i < |lines| ==> !HasText(lines[i])
  {
    if lines == [] then 0
    else if HasText(lines[|lines| - 1]) then |lines|
    else Kept(lines[..|lines| - 1])
  }

  /**
   * What is written before the final newline: the trimmed lines up to and
   * including the last one with text, joined by `\n`.
   */
  function Body(lines: seq<string>): string {
    Join(Trimmed(lines)[..Kept(lines)])
  }

  /**
   * The newlines the fold has read but not written: every line when none has
   * text, else the newline after the last line with text plus one per blank
   * line after it.
   */
  function Pending(lines: seq<string>): nat {
    if Kept(lines) == 0 then |lines| else |lines| - Kept(lines) + 1
  }

  /** The number of blank lines after the last line with text (all of them if none has text). */
  function TrailingBlanks(lines: seq<string>): nat {
    |lines| - Kept(lines)
  }

  /** The bytes of trailing whitespace the lines lose, in total. */
  function SumRemoved(lines: seq<string>): nat {
    if lines == [] then 0 else SumRemoved(lines[..|lines| - 1]) + Removed(lines[|lines| - 1])
  }

  /** The bytes the trimmed lines keep, in total. */
  function SumKept(lines: seq<string>): nat {
    if lines == [] then 0 else SumKept(lines[..|lines| - 1]) + ByteLen(TrimEnd(lines[|lines| - 1]))
  }

  /**
   * The count returned from the fold's final counters `u8` (bytes removed)
   * and `lf` (pending newlines): one less when exactly one newline is
   * pending, one more when the final newline is suppressed.
   */
  function BytesSaved(u8: nat, lf: nat, suppressNewline: bool): (n: int)
    ensures n >= u8 + (if suppressNewline then 1 else 0)
    ensures n == u8 + (if suppressNewline then 1 else 0) <==> lf <= 1
  {
    u8 + lf + (if lf == 1 then -1 else 0) + (if suppressNewline then 1 else 0)
  }

  /** The text the trimmer writes for `lines`. */
  function Output(lines: seq<string>, suppressNewline: bool): string {
    Body(lines) + (if suppressNewline then "" else "\n")
  }

  /** The byte count the trimmer returns for `lines`; never negative. */
  function Saved(lines: seq<string>, suppressNewline: bool): (n: int)
    ensures n >= 0
    ensures n >= SumRemoved(lines)
  {
    BytesSaved(SumRemoved(lines), Pending(lines), suppressNewline)
  }

  /** True when the trimmer writes a visualization record for `line`. */
  predicate Shows(line: string) {
    HasText(line) && Removed(line) > 0
  }

  /** `v` describes line `v.lineNumber` (1-based) of `lines`, which is shown. */
  predicate IsVisualOf(lines: seq<string>, v: Visual) {
    && 1 <= v.lineNumber <= |lines|
    && Shows(lines[v.lineNumber - 1])
    && v.text == TrimEnd(lines[v.lineNumber - 1])
    && v.padding == Removed(lines[v.lineNumber - 1])
  }

  /**
   * The visualization records for `lines`: one per line that keeps text and
   * loses at least one byte, in line order.
   */
  function Visuals(lines: seq<string>): (vs: seq<Visual>)
    ensures |vs| <= |lines|
  {
    if lines == [] then []
    else
      var n := |lines|;
      Visuals(lines[..n - 1])
        + (if Shows(lines[n - 1]) then [Visual(n, TrimEnd(lines[n - 1]), Removed(lines[n - 1]))] else [])
  }

  /* --- One step of the fold --- */

  lemma {:induction false} TrimmedAppend(p: seq<string>, l: string)
    ensures Trimmed(p + [l]) == Trimmed(p) + [TrimEnd(l)]
  {
  }

  /** The trimmed lines are the kept ones followed by empty lines. */
  lemma {:induction false} TrimmedSplit(p: seq<string>)
    ensures Trimmed(p) == Trimmed(p)[..Kept(p)] + Blanks(|p| - Kept(p))
  {
    var ts, k := Trimmed(p), Kept(p);
    var r := ts[..k] + Blanks(|p| - k);
    forall i | 0 <= i < |ts|
      ensures ts[i] == r[i]
    {
      if i >= k {
        assert !HasText(p[i]);
        assert r[i] == Blanks(|p| - k)[i - k];
      }
    }
  }

  /** A line without text only adds one pending newline; nothing is written. */
  lemma {:induction false} StepBlank(p: seq<string>, l: string)
    requires !HasText(l)
    ensures Kept(p + [l]) == Kept(p)
    ensures Body(p + [l]) == Body(p)
    ensures Pending(p + [l]) == Pending(p) + 1
    ensures SumKept(p + [l]) == SumKept(p)
    ensures Visuals(p + [l]) == Visuals(p)
  {
    assert (p + [l])[..|p|] == p;
    TrimmedAppend(p, l);
    assert Trimmed(p + [l])[..Kept(p)] == Trimmed(p)[..Kept(p)];
  }

  /**
   * A line with text is written after all pending newlines, and then only
   * the newline after it is pending.
   */
  lemma {:induction false} StepText(p: seq<string>, l: string)
    requires HasText(l)
    ensures Kept(p + [l]) == |p| + 1
    ensures Body(p + [l]) == Body(p) + Newlines(Pending(p)) + TrimEnd(l)
    ensures Pending(p + [l]) == 1
  {
    var k, t := Kept(p), TrimEnd(l);
    var ts := Trimmed(p);
    assert Kept(p + [l]) == |p| + 1;
    assert Body(p + [l]) == Join(ts + [t]) by {
      TrimmedAppend(p, l);
      PrefixWhole(ts + [t]);
    }
    assert ts == ts[..k] + Blanks(|p| - k) by {
      TrimmedSplit(p);
    }
    JoinBlanksThen(ts[..k], |p| - k, t);
  }

  lemma {:induction false} StepRemoved(p: seq<string>, l: string)
    ensures SumRemoved(p + [l]) == SumRemoved(p) + Removed(l)
    ensures SumKept(p + [l]) == SumKept(p) + ByteLen(TrimEnd(l))
  {
    assert (p + [l])[..|p|] == p;
  }

  /** The bytes removed from two runs of lines add up. */
  lemma {:induction false} SumRemovedAppend(a: seq<string>, b: seq<string>)
    ensures SumRemoved(a + b) == SumRemoved(a) + SumRemoved(b)
    decreases |b|
  {
    if b == [] {
      assert a + b == a;
    } else {
      var init := b[..|b| - 1];
      assert a + b == (a + init) + [b[|b| - 1]];
      StepRemoved(a + init, b[|b| - 1]);
      SumRemovedAppend(a, init);
    }
  }

  lemma {:induction false} StepVisuals(p: seq<string>, l: string)
    ensures Visuals(p + [l])
         == Visuals(p) + (if Shows(l) then [Visual(|p| + 1, TrimEnd(l), Removed(l))] else [])
  {
    assert (p + [l])[..|p|] == p;
  }

  /* --- Properties of the whole run --- */

  /** Blank lines at the end change neither the output nor the records. */
  lemma {:induction false} TrailingBlanksDropped(lines: seq<string>, blanks: seq<string>)
    requires forall i :: 0 <= i < |blanks| ==> !HasText(blanks[i])
    ensures Kept(lines + blanks) == Kept(lines)
    ensures Body(lines + blanks) == Body(lines)
    ensures Visuals(lines + blanks) == Visuals(lines)
    ensures Pending(lines + blanks) == Pending(lines) + |blanks|
    decreases |blanks|
  {
    if blanks == [] {
      assert lines + blanks == lines;
    } else {
      var init, last := blanks[..|blanks| - 1], blanks[|blanks| - 1];
      assert lines + blanks == (lines + init) + [last];
      assert !HasText(last);
      assert forall i :: 0 <= i < |init| ==> !HasText(init[i]);
      TrailingBlanksDropped(lines, init);
      StepBlank(lines + init, last);
    }
  }

  /**
   * Blank lines followed by a line with text are kept as empty lines: the
   * line is written after one newline per pending newline and per blank line.
   */
  lemma {:induction false} InteriorBlanksKept(lines: seq<string>, blanks: seq<string>, l: string)
    requires forall i :: 0 <= i < |blanks| ==> !HasText(blanks[i])
    requires HasText(l)
    ensures Body(lines + blanks + [l]) == Body(lines) + Newlines(Pending(lines) + |blanks|) + TrimEnd(l)
  {
    TrailingBlanksDropped(lines, blanks);
    StepText(lines + blanks, l);
  }

  /** The body never ends in whitespace. */
  lemma {:induction false} BodyNoTrailingWhitespace(lines: seq<string>)
    ensures NoTrailingWhitespace(Body(lines))
  {
    var k := Kept(lines);
    if k > 0 {
      var ts := Trimmed(lines)[..k];
      if k > 1 {
        assert ts == ts[..k - 1] + [ts[k - 1]];
        JoinAppend(ts[..k - 1], ts[k - 1]);
      }
    }
  }

  /** The body is empty exactly when no line has text. */
  lemma BodyEmpty(lines: seq<string>)
    ensures Body(lines) == [] <==> Kept(lines) == 0
  {
    var k := Kept(lines);
    if k > 0 {
      var kept := Trimmed(lines)[..k];
      assert kept[k - 1] == TrimEnd(lines[k - 1]);
      JoinNonEmpty(kept);
    }
  }

  /**
   * The output ends in exactly one `\n` when the final newline is not
   * suppressed, and in no whitespace at all when it is.
   */
  lemma {:induction false} FinalNewline(lines: seq<string>, suppressNewline: bool)
    ensures var out := Output(lines, suppressNewline);
      if suppressNewline then
        TrimEnd(out) == out
      else
        |out| >= 1 && out[|out| - 1] == '\n' && TrimEnd(out) == out[..|out| - 1]
  {
    var b := Body(lines);
    BodyNoTrailingWhitespace(lines);
    TrimEndIdempotent(b);
    if !suppressNewline {
      TrimEndAppendWhitespace(b, "\n");
      assert (b + "\n")[..|b|] == b;
    }
  }

  /** Suppressing the final newline adds exactly one to the count. */
  lemma SuppressAddsOne(lines: seq<string>)
    ensures Saved(lines, true) == Saved(lines, false) + 1
  {
  }

  /** The bytes of the body: the kept bytes plus one per `\n` between kept lines. */
  lemma {:induction false} BodyByteLen(lines: seq<string>)
    ensures Kept(lines) == 0 ==> SumKept(lines) == 0 && ByteLen(Body(lines)) == 0
    ensures Kept(lines) > 0 ==> ByteLen(Body(lines)) == SumKept(lines) + Kept(lines) - 1
    decreases |lines|
  {
    if lines != [] {
      var p, l := lines[..|lines| - 1], lines[|lines| - 1];
      assert lines == p + [l];
      BodyByteLen(p);
      StepRemoved(p, l);
      if HasText(l) {
        StepText(p, l);
        ByteLenAppend(Body(p) + Newlines(Pending(p)), TrimEnd(l));
        ByteLenAppend(Body(p), Newlines(Pending(p)));
        ByteLenAscii(Newlines(Pending(p)));
      } else {
        StepBlank(p, l);
      }
    }
  }

  /** A text whose every line is terminated holds the kept bytes, the removed bytes and one `\n` per line. */
  lemma {:induction false} TerminatedByteLen(lines: seq<string>)
    ensures ByteLen(Terminated(lines)) == SumKept(lines) + SumRemoved(lines) + |lines|
    decreases |lines|
  {
    if lines != [] {
      var p, l := lines[..|lines| - 1], lines[|lines| - 1];
      assert lines == p + [l];
      TerminatedByteLen(p);
      StepRemoved(p, l);
      TerminatedAppend(p, [l]);
      ByteLenAppend(Terminated(p), Terminated([l]));
      assert Terminated([l]) == l + "\n";
      ByteLenAppend(l, "\n");
    }
  }

  /**
   * How the returned count relates to the bytes actually dropped, reading the
   * input as a text whose every line is terminated: it is that difference
   * when exactly one newline is pending at the end, and one more otherwise.
   */
  lemma {:induction false} SavedVersusBytes(lines: seq<string>, suppressNewline: bool)
    ensures Saved(lines, suppressNewline)
         == ByteLen(Terminated(lines)) - ByteLen(Output(lines, suppressNewline))
            + (if Pending(lines) == 1 then 0 else 1)
  {
    BodyByteLen(lines);
    TerminatedByteLen(lines);
    ByteLenAppend(Body(lines), if suppressNewline then "" else "\n");
  }

  /* --- The records --- */

  /** Every record describes a shown line, and the records follow line order. */
  lemma {:induction false} VisualsSound(lines: seq<string>)
    ensures forall j :: 0 <= j < |Visuals(lines)| ==> IsVisualOf(lines, Visuals(lines)[j])
    ensures forall j, k :: 0 <= j < k < |Visuals(lines)| ==>
              Visuals(lines)[j].lineNumber < Visuals(lines)[k].lineNumber
    decreases |lines|
  {
    if lines != [] {
      var n := |lines|;
      var init := lines[..n - 1];
      VisualsSound(init);
      var prior := Visuals(init);
      forall j | 0 <= j < |prior|
        ensures prior[j].lineNumber < n && IsVisualOf(lines, prior[j])
      {
        assert IsVisualOf(init, prior[j]);
        assert init[prior[j].lineNumber - 1] == lines[prior[j].lineNumber - 1];
      }
    }
  }

  /** Every shown line has a record. */
  lemma {:induction false} VisualsComplete(lines: seq<string>, i: nat)
    requires i < |lines| && Shows(lines[i])
    ensures exists j :: 0 <= j < |Visuals(lines)| && Visuals(lines)[j].lineNumber == i + 1
    decreases |lines|
  {
    var n := |lines|;
    var init := lines[..n - 1];
    var vs := Visuals(lines);
    if i == n - 1 {
      assert vs[|vs| - 1].lineNumber == i + 1;
    } else {
      assert init[i] == lines[i];
      VisualsComplete(init, i);
      var j :| 0 <= j < |Visuals(init)| && Visuals(init)[j].lineNumber == i + 1;
      assert vs[j] == Visuals(init)[j];
    }
  }

  /* --- Trimming twice --- */

  /** The lines of a text, trimmed: what the trimmer writes for the text. */
  function TrimText(text: string, suppressNewline: bool): string {
    Output(ReadLines(text), suppressNewline)
  }

  /** The lines the body is made of: trimmed, the last of them with text. */
  lemma {:induction false} KeptLinesClean(lines: seq<string>)
    requires forall i :: 0 <= i < |lines| ==> '\n' !in lines[i]
    ensures var xs := Trimmed(lines)[..Kept(lines)];
      && (forall i :: 0 <= i < |xs| ==> '\n' !in xs[i] && DropCR(xs[i]) == xs[i] && TrimEnd(xs[i]) == xs[i])
      && (xs != [] ==> xs[|xs| - 1] != [])
  {
    var xs := Trimmed(lines)[..Kept(lines)];
    forall i | 0 <= i < |xs|
      ensures '\n' !in xs[i] && DropCR(xs[i]) == xs[i] && TrimEnd(xs[i]) == xs[i]
    {
      assert xs[i] <= lines[i];
      TrimEndIdempotent(xs[i]);
    }
  }

  /** Lines already trimmed, the last with text, are written joined and lose nothing. */
  lemma {:induction false} CleanLines(xs: seq<string>, suppressNewline: bool)
    requires forall i :: 0 <= i < |xs| ==> TrimEnd(xs[i]) == xs[i]
    requires xs != [] ==> xs[|xs| - 1] != []
    ensures Output(xs, suppressNewline) == Join(xs) + (if suppressNewline then "" else "\n")
    ensures xs != [] ==> Saved(xs, suppressNewline) == if suppressNewline then 1 else 0
    ensures Visuals(xs) == []
    decreases |xs|
  {
    assert Trimmed(xs) == xs;
    if xs == [] {
      CleanRemovesNothing(xs);
    } else {
      assert Kept(xs) == |xs|;
      assert xs[..|xs|] == xs;
      CleanRemovesNothing(xs);
      assert Pending(xs) == 1;
    }
  }

  lemma {:induction false} CleanRemovesNothing(xs: seq<string>)
    requires forall i :: 0 <= i < |xs| ==> TrimEnd(xs[i]) == xs[i]
    ensures SumRemoved(xs) == 0 && Visuals(xs) == []
    decreases |xs|
  {
    if xs != [] {
      CleanRemovesNothing(xs[..|xs| - 1]);
    }
  }

  /** Reading back the text written for clean lines yields them again. */
  lemma {:induction false} ReadOutput(xs: seq<string>, suppressNewline: bool)
    requires forall i :: 0 <= i < |xs| ==> '\n' !in xs[i] && DropCR(xs[i]) == xs[i]
    requires xs != [] ==> xs[|xs| - 1] != []
    ensures ReadLines(Join(xs) + (if suppressNewline then "" else "\n"))
         == if xs == [] && !suppressNewline then [""] else xs
  {
    if xs == [] {
      assert Split("") == [""];
      if !suppressNewline {
        assert IndexOf("\n", '\n') == 0;
        assert Split("\n") == [""] + Split("");
      }
    } else if suppressNewline {
      assert Join(xs) + "" == Join(xs);
      ReadJoined(xs);
    } else {
      JoinThenTerminate(xs);
      ReadTerminated(xs);
    }
  }

  /** A lone newline reads as one empty line, which is written back as a lone newline and loses nothing. */
  lemma LoneNewline()
    ensures Output([""], false) == "\n" && Visuals([""]) == [] && Saved([""], false) == 0
  {
    assert Kept([""]) == 0 && Pending([""]) == 1 && SumRemoved([""]) == 0;
    assert [""][..0] == [];
  }

  /** Trimming the text written for clean lines writes it again unchanged, shows nothing, and saves nothing. */
  lemma {:induction false} RetrimClean(xs: seq<string>, suppressNewline: bool)
    requires forall i :: 0 <= i < |xs| ==> '\n' !in xs[i] && DropCR(xs[i]) == xs[i] && TrimEnd(xs[i]) == xs[i]
    requires xs != [] ==> xs[|xs| - 1] != []
    ensures var once := Join(xs) + (if suppressNewline then "" else "\n");
      && TrimText(once, suppressNewline) == once
      && Visuals(ReadLines(once)) == []
      && Saved(ReadLines(once), suppressNewline) == if suppressNewline then 1 else 0
  {
    ReadOutput(xs, suppressNewline);
    if xs == [] && !suppressNewline {
      LoneNewline();
    } else if xs != [] {
      CleanLines(xs, suppressNewline);
    }
  }

  /**
   * Trimming is idempotent: trimming what a trim wrote writes it again
   * unchanged, shows nothing, and saves nothing beyond the byte the
   * suppressed newline is counted as.
   */
  lemma {:induction false} TrimTextIdempotent(text: string, suppressNewline: bool)
    ensures var once := TrimText(text, suppressNewline);
      && TrimText(once, suppressNewline) == once
      && Visuals(ReadLines(once)) == []
      && Saved(ReadLines(once), suppressNewline) == if suppressNewline then 1 else 0
  {
    var lines := ReadLines(text);
    var xs := Trimmed(lines)[..Kept(lines)];
    assert TrimText(text, suppressNewline) == Join(xs) + (if suppressNewline then "" else "\n");
    KeptLinesClean(lines);
    RetrimClean(xs, suppressNewline);
  }
}
