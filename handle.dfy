/**
 * The older streaming trimmer `handle_custom` of src/main.rs. It trims like
 * the engine of src/trim.rs but writes the `\n` after every line with text
 * at once, forgets the pending count after each such line, and ends with a
 * two-line summary on the error stream.
 */
module Handle {
  import opened Whitespace
  import opened Lines
  import opened Format
  import opened Sinks
  import opened TrimSpec
  import opened Sequences

  /**
   * What the prototype writes to `out`: each trimmed line up to and
   * including the last one with text, each followed by `\n`.
   */
  function EagerOutput(lines: seq<string>): string {
    Terminated(Trimmed(lines)[..Kept(lines)])
  }

  /** The two summary lines that end the error stream. */
  function Summary(lf: nat, u8: nat): (s: string)
    ensures |s| > 1 && s[0] == '\n' && s[|s| - 1] == '\n'
  {
    "\n" + PadLeft(Decimal(lf), 6) + " trailing `\\n` trimmed\n"
      + PadLeft(Decimal(u8 + lf), 6) + " bytes saved overall\n"
  }

  /** A line without text changes nothing written so far. */
  lemma {:induction false} EagerStepBlank(p: seq<string>, l: string)
    requires !HasText(l)
    ensures EagerOutput(p + [l]) == EagerOutput(p)
    ensures TrailingBlanks(p + [l]) == TrailingBlanks(p) + 1
  {
    StepBlank(p, l);
    TrimmedAppend(p, l);
    assert Trimmed(p + [l])[..Kept(p)] == Trimmed(p)[..Kept(p)];
  }

  /**
   * A line with text is written after one `\n` per blank line since the
   * previous line with text, and is followed by its own `\n`.
   */
  lemma {:induction false} EagerStepText(p: seq<string>, l: string)
    requires HasText(l)
    ensures EagerOutput(p + [l]) == EagerOutput(p) + (Newlines(TrailingBlanks(p)) + TrimEnd(l) + "\n")
    ensures TrailingBlanks(p + [l]) == 0
  {
    var k, t := Kept(p), TrimEnd(l);
    var ts := Trimmed(p);
    assert Kept(p + [l]) == |p| + 1;
    assert EagerOutput(p + [l]) == Terminated(ts + [t]) by {
      TrimmedAppend(p, l);
      PrefixWhole(ts + [t]);
    }
    assert ts == ts[..k] + Blanks(|p| - k) by {
      TrimmedSplit(p);
    }
    TerminatedBlanksThen(ts[..k], |p| - k, t);
  }

  /**
   * The prototype writes what the engine writes with its final newline,
   * except when no line has text: then it writes nothing where the engine
   * writes a lone `\n`.
   */
  lemma {:induction false} EagerVersusEngine(lines: seq<string>)
    ensures Kept(lines) > 0 ==> EagerOutput(lines) == Output(lines, false)
    ensures Kept(lines) == 0 ==> EagerOutput(lines) == "" && Output(lines, false) == "\n"
  {
    if Kept(lines) > 0 {
      JoinThenTerminate(Trimmed(lines)[..Kept(lines)]);
    }
  }

  /**
   * The second summary count is exact: reading the input as a text whose
   * every line ends in `\n`, it is the number of bytes the output is
   * shorter by.
   */
  lemma {:induction false} EagerSavedBytes(lines: seq<string>)
    ensures ByteLen(Terminated(lines)) == ByteLen(EagerOutput(lines)) + (SumRemoved(lines) + TrailingBlanks(lines))
  {
    TerminatedByteLen(lines);
    BodyByteLen(lines);
    EagerVersusEngine(lines);
    if Kept(lines) > 0 {
      ByteLenAppend(Body(lines), "\n");
      ByteLenAscii("\n");
    } else {
      assert ByteLen(EagerOutput(lines)) == 0;
    }
  }

  /**
   * Trims `lines` into `out`, writing a record per shown line and then the
   * summary into `err`: the count of trailing blank lines dropped and that
   * count plus the bytes of trailing whitespace removed.
   */
  method HandleCustom(lines: seq<string>, out: Sink, err: Sink)
    requires out != err
    modifies out, err
    ensures out.data == old(out.data) + EagerOutput(lines)
    ensures err.data == old(err.data) + RenderAll(Visuals(lines)) + Summary(TrailingBlanks(lines), SumRemoved(lines))
  {
    var count, total := 0, 0;
    var i := 0;
    ghost var done: seq<string> := [];
    while i < |lines|
      invariant 0 <= i <= |lines| && done == lines[..i]
      invariant out.data == old(out.data) + EagerOutput(done)
      invariant err.data == old(err.data) + RenderAll(Visuals(done))
      invariant count == TrailingBlanks(done) && total == SumRemoved(done)
    {
      count, total := HandleLine(done, i + 1, lines[i], count, total, out, err, old(out.data), old(err.data));
      PrefixExtend(lines, i);
      done := done + [lines[i]];
      i := i + 1;
    }
    PrefixWhole(lines);
    ghost var before := err.data;
    var lfLine := "\n" + PadLeft(Decimal(count), 6) + " trailing `\\n` trimmed\n";
    var savedLine := PadLeft(Decimal(total + count), 6) + " bytes saved overall\n";
    err.Write(lfLine);
    err.Write(savedLine);
    Associative(before, lfLine, savedLine);
    Associative(lfLine, PadLeft(Decimal(total + count), 6), " bytes saved overall\n");
  }

  /**
   * One step of the fold of HandleCustom: line `lineNumber`, after the lines
   * `done`, with the counters and sinks as `done` left them.
   */
  method HandleLine(ghost done: seq<string>, lineNumber: nat, line: string, count: nat, total: nat,
                    out: Sink, err: Sink, ghost outBase: string, ghost errBase: string)
    returns (count': nat, total': nat)
    requires out != err
    requires lineNumber == |done| + 1
    requires count == TrailingBlanks(done) && total == SumRemoved(done)
    requires out.data == outBase + EagerOutput(done)
    requires err.data == errBase + RenderAll(Visuals(done))
    modifies out, err
    ensures count' == TrailingBlanks(done + [line]) && total' == SumRemoved(done + [line])
    ensures out.data == outBase + EagerOutput(done + [line])
    ensures err.data == errBase + RenderAll(Visuals(done + [line]))
  {
    var trimmed := TrimEnd(line);
    var lengthDiff := ByteLen(line) - ByteLen(trimmed);
    assert SumRemoved(done + [line]) == total + lengthDiff by {
      StepRemoved(done, line);
    }
    if |trimmed| == 0 {
      assert TrailingBlanks(done + [line]) == count + 1 && EagerOutput(done + [line]) == EagerOutput(done)
          && Visuals(done + [line]) == Visuals(done) by {
        EagerStepBlank(done, line);
        StepVisuals(done, line);
      }
      count', total' := count + 1, total + lengthDiff;
    } else {
      assert TrailingBlanks(done + [line]) == 0
          && EagerOutput(done + [line]) == EagerOutput(done) + (Newlines(count) + trimmed + "\n") by {
        EagerStepText(done, line);
      }
      out.Write(Newlines(count));
      out.Write(trimmed + "\n");
      Associative(outBase + EagerOutput(done), Newlines(count), trimmed + "\n");
      Associative(outBase, EagerOutput(done), Newlines(count) + (trimmed + "\n"));
      Associative(Newlines(count), trimmed, "\n");
      if lengthDiff > 0 {
        var v := Visual(lineNumber, trimmed, lengthDiff);
        assert RenderAll(Visuals(done + [line])) == RenderAll(Visuals(done)) + RenderVisual(v) by {
          StepVisuals(done, line);
          RenderAllSnoc(Visuals(done), v);
        }
        err.Write(RenderVisual(v));
        Associative(errBase, RenderAll(Visuals(done)), RenderVisual(v));
        count', total' := 0, total + lengthDiff;
      } else {
        assert Visuals(done + [line]) == Visuals(done) by {
          StepVisuals(done, line);
        }
        count', total' := 0, total;
      }
    }
  }
}
