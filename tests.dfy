/**
 * The examples of the repository's test tables (src/trim.rs:237-261,
 * src/main.rs:159-178, src/util.rs:95-108), stated about the model. Each
 * example of the trimmer reads the raw text into lines, then trims them;
 * the suppressed count is the table's, the other one less.
 */
module Examples {
  import opened Whitespace
  import opened Lines
  import opened TrimSpec
  import opened Handle
  import opened Sequences
  import opened Format
  import opened Prelude

  /** What trimming a line of ASCII text to `t` removes. */
  lemma TrimsTo(l: string, t: string)
    requires t <= l && NoTrailingWhitespace(t) && AllWhitespace(l[|t|..])
    requires forall k :: 0 <= k < |l| ==> l[k] as int < 0x80
    ensures TrimEnd(l) == t && Removed(l) == |l| - |t|
  {
    TrimEndUnique(l, t);
    ByteLenAscii(l);
    ByteLenAscii(t);
  }

  /* --- BufReader::lines (src/util.rs:95-108) --- */

  lemma ReadFinalBreak()
    ensures ReadLines("abc") == ["abc"] && ReadLines("abc\n") == ["abc"]
  {
    assert Join(["abc"]) == "abc" && Terminated(["abc"]) == "abc\n";
    ReadJoined(["abc"]);
    ReadTerminated(["abc"]);
  }

  lemma ReadBlankLastLine()
    ensures ReadLines("abc\n\n") == ["abc", ""]
  {
    assert Terminated(["abc", ""]) == "abc\n\n";
    ReadTerminated(["abc", ""]);
  }

  lemma ReadLeadingBlankLines()
    ensures ReadLines("\nabc") == ["", "abc"] && ReadLines("\n\nabc") == ["", "", "abc"]
  {
    assert Join(["", "abc"]) == "\nabc";
    ReadJoined(["", "abc"]);
    assert Join(["", "", "abc"]) == "\n\nabc";
    ReadJoined(["", "", "abc"]);
  }

  lemma ReadCarriageReturn()
    ensures ReadLines("abc\r\n") == ["abc"]
  {
    var pieces := ["abc\r", ""];
    assert Join(pieces) == "abc\r\n";
    SplitJoin(pieces);
    assert DropCR("abc\r") == "abc";
    assert DropCRs(pieces[..1]) == ["abc"];
  }

  lemma SplitCarriageReturns()
    ensures Split("abc\r\n\r\n") == ["abc\r", "\r", ""]
  {
    assert Join(["abc\r", "\r", ""]) == "abc\r\n\r\n";
    SplitJoin(["abc\r", "\r", ""]);
  }

  lemma ReadCarriageReturnBlankLastLine()
    ensures ReadLines("abc\r\n\r\n") == ["abc", ""]
  {
    SplitCarriageReturns();
    var pieces := ["abc\r", "\r", ""];
    assert DropCR("abc\r") == "abc" && DropCR("\r") == "";
    assert DropCRs(pieces[..2]) == ["abc", ""] by {
      assert pieces[..2] == ["abc\r", "\r"];
    }
    assert LinesOfPieces(pieces) == DropCRs(pieces[..2]) + [];
  }

  lemma ReadCarriageReturnLeadingBlankLine(text: string)
    requires text == "\r\nabc"
    ensures ReadLines(text) == ["", "abc"]
  {
    var pieces := ["\r", "abc"];
    assert Join(pieces) == text;
    SplitJoin(pieces);
    assert DropCR("\r") == "";
    assert DropCRs(pieces[..1]) == [""];
  }

  lemma SplitLeadingCarriageReturns(text: string)
    requires text == "\r\n\r\nabc"
    ensures Split(text) == ["\r", "\r", "abc"]
  {
    assert Join(["\r", "\r", "abc"]) == "\r\n\r\nabc";
    SplitJoin(["\r", "\r", "abc"]);
  }

  lemma ReadCarriageReturnLeadingBlankLines(text: string)
    requires text == "\r\n\r\nabc"
    ensures ReadLines(text) == ["", "", "abc"]
  {
    SplitLeadingCarriageReturns(text);
    var pieces := ["\r", "\r", "abc"];
    assert DropCRs(pieces[..2]) == ["", ""] by {
      assert pieces[..2] == ["\r", "\r"];
      assert DropCR("\r") == "";
    }
    assert LinesOfPieces(pieces) == DropCRs(pieces[..2]) + [pieces[2]];
  }

  /* --- trim_custom (src/trim.rs:237-261) --- */

  /** An empty file is written as nothing, or a lone newline; it saves one byte only when that newline is suppressed. */
  lemma TrimEmpty()
    ensures ReadLines("") == []
    ensures TrimText("", true) == "" && Saved([], true) == 1
    ensures TrimText("", false) == "\n" && Saved([], false) == 0
  {
    assert Split("") == [""];
  }

  /** `\r` is whitespace, but not a line break. */
  lemma TrimCarriageReturnInside()
    ensures ReadLines("ab \t  \r abc") == ["ab \t  \r abc"]
    ensures Output(["ab \t  \r abc"], true) == "ab \t  \r abc" && Saved(["ab \t  \r abc"], true) == 1
  {
    var l := "ab \t  \r abc";
    assert Join([l]) == l;
    ReadJoined([l]);
    TrimEndIdempotent(l);
    CleanLines([l], true);
  }

  lemma ReadWhitespaceBeforeBreak()
    ensures ReadLines("ab \t  \r \nabc") == ["ab \t  \r ", "abc"]
  {
    var lines := ["ab \t  \r ", "abc"];
    assert Join(lines) == "ab \t  \r \nabc";
    ReadJoined(lines);
  }

  /** Whitespace before a line break is removed, `\r` included. */
  lemma TrimWhitespaceBeforeBreak()
    ensures Output(["ab \t  \r ", "abc"], true) == "ab\nabc"
    ensures Saved(["ab \t  \r ", "abc"], true) == 7
  {
    var lines := ["ab \t  \r ", "abc"];
    assert lines[0][2..] == " \t  \r ";
    TrimsTo(lines[0], "ab");
    TrimsTo(lines[1], "abc");
    assert Kept(lines) == 2;
    assert Trimmed(lines)[..2] == ["ab", "abc"];
    assert Body(lines) == "ab\nabc";
    assert SumRemoved(lines) == 6 by {
      assert lines[..1] == ["ab \t  \r "];
      assert lines[..1][..0] == [];
    }
  }

  lemma ReadTrailingBlankLines()
    ensures ReadLines("ab \ncd \n  \n\n  \n") == ["ab ", "cd ", "  ", "", "  "]
  {
    var lines := ["ab ", "cd ", "  ", "", "  "];
    assert Terminated(lines) == "ab \ncd \n  \n\n  \n";
    ReadTerminated(lines);
  }

  lemma TrimTwoLines()
    ensures Body(["ab ", "cd "]) == "ab\ncd" && SumRemoved(["ab ", "cd "]) == 2 && Pending(["ab ", "cd "]) == 1
    ensures HasText("cd ")
  {
    var text := ["ab ", "cd "];
    TrimsTo("ab ", "ab");
    TrimsTo("cd ", "cd");
    assert Kept(text) == 2 && Trimmed(text)[..2] == ["ab", "cd"];
    assert text[..1] == ["ab "] && text[..1][..0] == [];
  }

  lemma BlankLines()
    ensures Removed("  ") == 2 && !HasText("  ") && Removed("") == 0 && !HasText("")
    ensures SumRemoved(["  ", "", "  "]) == 4
  {
    TrimsTo("  ", "");
    TrimsTo("", "");
    var blanks := ["  ", "", "  "];
    assert SumRemoved(["  "]) == 2 by {
      assert ["  "][..0] == [];
    }
    assert SumRemoved(["  ", ""]) == 2 by {
      assert ["  ", ""][..1] == ["  "];
    }
    assert blanks[..2] == ["  ", ""];
  }

  /** Blank lines after the last line with text are not written; each counts the bytes it loses and its newline. */
  lemma {:induction false} TextThenBlanks(text: seq<string>, blanks: seq<string>)
    requires text != [] && HasText(text[|text| - 1])
    requires blanks != [] && forall i :: 0 <= i < |blanks| ==> !HasText(blanks[i])
    ensures Kept(text + blanks) == |text|
    ensures Body(text + blanks) == Body(text)
    ensures Saved(text + blanks, true) == SumRemoved(text) + SumRemoved(blanks) + |blanks| + 2
  {
    assert Kept(text) == |text| && Pending(text) == 1;
    assert Kept(text + blanks) == |text| && Body(text + blanks) == Body(text)
        && Pending(text + blanks) == 1 + |blanks| by {
      TrailingBlanksDropped(text, blanks);
    }
    SumRemovedAppend(text, blanks);
  }

  /** Blank lines after the last line with text are removed, and each counts its newline. */
  lemma TrimTrailingBlankLines(text: seq<string>, blanks: seq<string>)
    requires text == ["ab ", "cd "] && blanks == ["  ", "", "  "]
    ensures Output(text + blanks, true) == "ab\ncd"
    ensures Saved(text + blanks, true) == 11
  {
    TrimTwoLines();
    BlankLines();
    assert !HasText(blanks[0]) && !HasText(blanks[1]) && !HasText(blanks[2]);
    TextThenBlanks(text, blanks);
  }

  lemma ReadLeadingBlankLinesKept()
    ensures ReadLines("  \n\t\r \r \n 123 absoi") == ["  ", "\t\r \r ", " 123 absoi"]
  {
    var lines := ["  ", "\t\r \r ", " 123 absoi"];
    assert Join(lines) == "  \n\t\r \r \n 123 absoi";
    ReadJoined(lines);
  }

  lemma LeadingBlanks()
    ensures Removed("  ") == 2 && !HasText("  ") && Removed("\t\r \r ") == 5 && !HasText("\t\r \r ")
    ensures SumRemoved(["  ", "\t\r \r "]) == 7
  {
    TrimsTo("  ", "");
    TrimsTo("\t\r \r ", "");
    assert ["  ", "\t\r \r "][..1] == ["  "] && ["  "][..0] == [];
  }

  /** Blank lines before the first line with text are written as empty lines; they count the bytes they lose. */
  lemma {:induction false} BlanksThenText(blanks: seq<string>, l: string)
    requires forall i :: 0 <= i < |blanks| ==> !HasText(blanks[i])
    requires HasText(l)
    ensures Output(blanks + [l], true) == Newlines(|blanks|) + TrimEnd(l)
    ensures Saved(blanks + [l], true) == SumRemoved(blanks) + Removed(l) + 1
  {
    assert Body(blanks) == [] && Pending(blanks) == |blanks| by {
      assert Kept(blanks) == 0;
      BodyEmpty(blanks);
    }
    assert Body(blanks + [l]) == Newlines(|blanks|) + TrimEnd(l) && Pending(blanks + [l]) == 1 by {
      StepText(blanks, l);
      LeftUnit(Newlines(|blanks|));
    }
    StepRemoved(blanks, l);
  }

  /** Blank lines before the first line with text are kept, as empty lines. */
  lemma TrimLeadingBlankLines(blanks: seq<string>, l: string)
    requires blanks == ["  ", "\t\r \r "] && l == " 123 absoi"
    ensures Output(blanks + [l], true) == "\n\n 123 absoi"
    ensures Saved(blanks + [l], true) == 8
  {
    LeadingBlanks();
    assert !HasText(blanks[0]) && !HasText(blanks[1]);
    TrimsTo(l, l);
    BlanksThenText(blanks, l);
    assert Newlines(2) == "\n\n";
  }

  /** A final blank line counts the newline before it and its own. */
  lemma TrimBlankLastLine(text: seq<string>, blanks: seq<string>)
    requires text == ["abc"] && blanks == [""]
    ensures Output(text + blanks, true) == "abc"
    ensures Saved(text + blanks, true) == 3
  {
    TrimsTo("abc", "abc");
    TrimsTo("", "");
    assert Body(text) == "abc" && SumRemoved(text) == 0 by {
      assert Kept(text) == 1 && Trimmed(text)[..1] == ["abc"] && text[..0] == [];
    }
    assert SumRemoved(blanks) == 0 by {
      assert blanks[..0] == [];
    }
    TextThenBlanks(text, blanks);
  }

  lemma ReadTrailingSpace()
    ensures ReadLines("abc ") == ["abc "] && ReadLines("abc \n") == ["abc "]
  {
    assert Join(["abc "]) == "abc " && Terminated(["abc "]) == "abc \n";
    ReadJoined(["abc "]);
    ReadTerminated(["abc "]);
  }

  /** A trailing space on the last line counts its byte. */
  lemma TrimTrailingSpace()
    ensures Output(["abc "], true) == "abc" && Saved(["abc "], true) == 2
  {
    TrimsTo("abc ", "abc");
    assert Kept(["abc "]) == 1 && Trimmed(["abc "])[..1] == ["abc"] && ["abc "][..0] == [];
  }

  /** A line with nothing to trim is written as read; the suppressed newline is the one byte saved. */
  lemma TrimNothing()
    ensures Output(["abc"], true) == "abc" && Saved(["abc"], true) == 1
  {
    TrimsTo("abc", "abc");
    assert Kept(["abc"]) == 1 && Trimmed(["abc"])[..1] == ["abc"] && ["abc"][..0] == [];
  }

  lemma ReadNothingToTrim(lines: seq<string>)
    requires lines == ["", "asd fgh", "abc"]
    ensures ReadLines("\nasd fgh\nabc") == lines
  {
    assert Join(["", "asd fgh", "abc"]) == "\nasd fgh\nabc";
    ReadJoined(lines);
  }

  lemma KeptNothingToTrim(lines: seq<string>)
    requires lines == ["", "asd fgh", "abc"]
    ensures Kept(lines) == 3 && Trimmed(lines) == lines
  {
    TrimsTo("", "");
    TrimsTo("asd fgh", "asd fgh");
    TrimsTo("abc", "abc");
  }

  lemma BodyNothingToTrim(lines: seq<string>)
    requires lines == ["", "asd fgh", "abc"]
    ensures Body(lines) == "\nasd fgh\nabc"
  {
    KeptNothingToTrim(lines);
    assert Trimmed(lines)[..3] == lines;
    assert Join(["", "asd fgh", "abc"]) == "\nasd fgh\nabc";
  }

  lemma RemovedNothingToTrim(lines: seq<string>)
    requires lines == ["", "asd fgh", "abc"]
    ensures SumRemoved(lines) == 0
  {
    TrimsTo("", "");
    TrimsTo("asd fgh", "asd fgh");
    TrimsTo("abc", "abc");
    SumRemovedTwo("", "asd fgh");
    assert lines[..2] == ["", "asd fgh"];
  }

  /** Lines with nothing to trim, an empty first one included, are written as read. */
  lemma TrimNothingLines(lines: seq<string>)
    requires lines == ["", "asd fgh", "abc"]
    ensures Output(lines, true) == "\nasd fgh\nabc" && Saved(lines, true) == 1
  {
    BodyNothingToTrim(lines);
    RemovedNothingToTrim(lines);
    assert HasText(lines[2]) by {
      TrimsTo("abc", "abc");
    }
    assert Kept(lines) == 3 && Pending(lines) == 1;
  }

  /**
   * Lines none of which has text are written as nothing; they count every
   * byte they lose, every newline and the suppressed one, less one when
   * there is a single line.
   */
  lemma {:induction false} AllBlank(blanks: seq<string>)
    requires forall i :: 0 <= i < |blanks| ==> !HasText(blanks[i])
    ensures Output(blanks, true) == ""
    ensures Saved(blanks, true) == SumRemoved(blanks) + |blanks| + (if |blanks| == 1 then 0 else 1)
  {
    assert Kept(blanks) == 0;
    BodyEmpty(blanks);
  }

  /** The first four blank lines of the table, each ended by its newline. */
  lemma TerminatedBlankHead(a: seq<string>)
    requires a == ["", " ", " ", "\t\t \t "]
    ensures Terminated(a) == "\n \n \n\t\t \t \n"
  {
    assert Terminated(["", " ", " ", "\t\t \t "]) == "\n \n \n\t\t \t \n";
  }

  /** The last four blank lines of the table, each ended by its newline. */
  lemma TerminatedBlankTail(b: seq<string>)
    requires b == [" \t\r ", "\r   \r\r ", "     ", " "]
    ensures Terminated(b) == " \t\r \n\r   \r\r \n     \n \n"
  {
    assert Terminated([" \t\r ", "\r   \r\r ", "     ", " "]) == " \t\r \n\r   \r\r \n     \n \n";
  }

  lemma ReadAllBlank(text: string, lines: seq<string>)
    requires text == "\n \n \n\t\t \t \n \t\r \n\r   \r\r \n     \n \n"
    requires lines == ["", " ", " ", "\t\t \t ", " \t\r ", "\r   \r\r ", "     ", " "]
    ensures ReadLines(text) == lines
  {
    var a, b := lines[..4], lines[4..];
    TerminatedBlankHead(a);
    TerminatedBlankTail(b);
    assert lines == a + b;
    TerminatedAppend(a, b);
    assert Terminated(lines) == text;
    ReadTerminated(lines);
  }

  /** The bytes of trailing whitespace two lines lose. */
  lemma SumRemovedTwo(a: string, b: string)
    ensures SumRemoved([a, b]) == Removed(a) + Removed(b)
  {
    assert SumRemoved([a]) == Removed(a) by {
      assert [a][..0] == [];
    }
    assert [a, b][..1] == [a];
  }

  /** The bytes of trailing whitespace eight lines lose, line by line. */
  lemma SumRemovedEight(lines: seq<string>)
    requires |lines| == 8
    ensures SumRemoved(lines) == Removed(lines[0]) + Removed(lines[1]) + Removed(lines[2]) + Removed(lines[3])
                               + Removed(lines[4]) + Removed(lines[5]) + Removed(lines[6]) + Removed(lines[7])
  {
    var a, b, c, d := lines[..2], lines[2..4], lines[4..6], lines[6..];
    assert a == [lines[0], lines[1]] && b == [lines[2], lines[3]] && c == [lines[4], lines[5]] && d == [lines[6], lines[7]];
    assert lines == (a + b) + (c + d);
    SumRemovedTwo(lines[0], lines[1]);
    SumRemovedTwo(lines[2], lines[3]);
    SumRemovedTwo(lines[4], lines[5]);
    SumRemovedTwo(lines[6], lines[7]);
    SumRemovedAppend(a, b);
    SumRemovedAppend(c, d);
    SumRemovedAppend(a + b, c + d);
  }

  /** The first four blank lines of the table: none has text, and each loses all its bytes. */
  lemma BlankTableHead(a: seq<string>)
    requires a == ["", " ", " ", "\t\t \t "]
    ensures !HasText(a[0]) && !HasText(a[1]) && !HasText(a[2]) && !HasText(a[3])
    ensures Removed(a[0]) == 0 && Removed(a[1]) == 1 && Removed(a[2]) == 1 && Removed(a[3]) == 5
  {
    TrimsTo("", "");
    TrimsTo(" ", "");
    TrimsTo("\t\t \t ", "");
  }

  /** The last four blank lines of the table: none has text, and each loses all its bytes. */
  lemma BlankTableTail(b: seq<string>)
    requires b == [" \t\r ", "\r   \r\r ", "     ", " "]
    ensures !HasText(b[0]) && !HasText(b[1]) && !HasText(b[2]) && !HasText(b[3])
    ensures Removed(b[0]) == 4 && Removed(b[1]) == 7 && Removed(b[2]) == 5 && Removed(b[3]) == 1
  {
    TrimsTo(" \t\r ", "");
    TrimsTo("\r   \r\r ", "");
    TrimsTo("     ", "");
    TrimsTo(" ", "");
  }

  /** The blank lines of the table: none has text, and each loses all its bytes. */
  lemma BlankTable(lines: seq<string>)
    requires lines == ["", " ", " ", "\t\t \t ", " \t\r ", "\r   \r\r ", "     ", " "]
    ensures forall i :: 0 <= i < |lines| ==> !HasText(lines[i])
    ensures Removed(lines[0]) == 0 && Removed(lines[1]) == 1 && Removed(lines[2]) == 1 && Removed(lines[3]) == 5
    ensures Removed(lines[4]) == 4 && Removed(lines[5]) == 7 && Removed(lines[6]) == 5 && Removed(lines[7]) == 1
  {
    var a, b := lines[..4], lines[4..];
    BlankTableHead(a);
    BlankTableTail(b);
    forall i | 0 <= i < |lines|
      ensures !HasText(lines[i])
    {
      if i < 4 {
        assert lines[i] == a[i];
      } else {
        assert lines[i] == b[i - 4];
      }
    }
  }

  /** Eight blank lines: all 24 bytes and 8 newlines go, and the suppressed newline makes 33. */
  lemma TrimAllBlank(lines: seq<string>)
    requires lines == ["", " ", " ", "\t\t \t ", " \t\r ", "\r   \r\r ", "     ", " "]
    ensures Output(lines, true) == "" && Saved(lines, true) == 33
  {
    BlankTable(lines);
    SumRemovedEight(lines);
    AllBlank(lines);
  }

  /* --- handle_custom (src/main.rs:159-178), fed the pieces of `split('\n')` --- */

  lemma HandleEmpty()
    ensures Split("") == [""] && EagerOutput([""]) == ""
  {
    TrimsTo("", "");
  }

  /** A line is written with its newline. */
  lemma HandleNothingToTrim()
    ensures Split("abc") == ["abc"] && EagerOutput(["abc"]) == "abc\n"
  {
    assert '\n' !in "abc";
    TrimsTo("abc", "abc");
    assert Kept(["abc"]) == 1;
    assert Trimmed(["abc"])[..1] == ["abc"];
    assert Terminated(["abc"]) == "abc\n";
  }

  lemma HandleOneLine()
    ensures Split("   absoi ") == ["   absoi "] && EagerOutput(["   absoi "]) == "   absoi\n"
  {
    var l := "   absoi ";
    assert '\n' !in l;
    assert HasText(l) && TrimEnd(l) == "   absoi" by {
      TrimsTo(l, "   absoi");
    }
    assert Kept([l]) == 1;
    assert Trimmed([l])[..1] == ["   absoi"];
    assert Terminated(["   absoi"]) == "   absoi\n";
  }

  lemma SplitTrailingBlankLines()
    ensures Split("ab \ncd \n  \n\n  \n") == ["ab ", "cd ", "  ", "", "  ", ""]
  {
    var pieces := ["ab ", "cd ", "  ", "", "  ", ""];
    assert Join(pieces) == "ab \ncd \n  \n\n  \n";
    SplitJoin(pieces);
  }

  lemma TrailingPieces(text: seq<string>, blanks: seq<string>)
    requires text == ["ab ", "cd "] && blanks == ["  ", "", "  ", ""]
    ensures Body(text + blanks) == "ab\ncd" && Kept(text + blanks) == 2
  {
    TrimTwoLines();
    BlankLines();
    assert !HasText(blanks[0]) && !HasText(blanks[1]) && !HasText(blanks[2]) && !HasText(blanks[3]);
    TextThenBlanks(text, blanks);
  }

  /** The prototype drops the trailing blank lines and ends the last line with text with its newline. */
  lemma HandleTrailingBlankLines(text: seq<string>, blanks: seq<string>)
    requires text == ["ab ", "cd "] && blanks == ["  ", "", "  ", ""]
    ensures EagerOutput(text + blanks) == "ab\ncd\n"
  {
    TrailingPieces(text, blanks);
    EagerVersusEngine(text + blanks);
  }

  /* --- visualize (src/prelude.rs:35-64) --- */

  lemma BodyTextThenEmpty(lines: seq<string>)
    requires lines == ["abc", "", ""]
    ensures Body(lines) == "abc"
  {
    var text, blanks := lines[..1], lines[1..];
    assert text == ["abc"] && blanks == ["", ""] && lines == text + blanks;
    TrimsTo("abc", "abc");
    TrimsTo("", "");
    assert !HasText(blanks[0]) && !HasText(blanks[1]);
    TextThenBlanks(text, blanks);
    assert Trimmed(text)[..1] == ["abc"];
  }

  /** Cleaning a line with text and two empty lines leaves the line and its newline. */
  lemma CleanTextThenEmpty(lines: seq<string>)
    requires lines == ["abc", "", ""]
    ensures Clean(lines) == "abc\n"
  {
    CleanIsOutput(lines);
    assert Output(lines, false) == Body(lines) + "\n";
    BodyTextThenEmpty(lines);
  }

  lemma SplitLineBreak()
    ensures Split("abc\n") == ["abc", ""]
  {
    assert Join(["abc", ""]) == "abc\n";
    SplitJoin(["abc", ""]);
  }

  /** Against the pieces `abc` and an empty one, no line differs, and only the third line is past the pieces. */
  lemma RecordsTextThenEmpty(lines: seq<string>, pieces: seq<string>)
    requires lines == ["abc", "", ""] && pieces == ["abc", ""]
    ensures Fits(lines, pieces)
    ensures BodyRecords(lines, pieces, 2) == []
    ensures TailRecords(lines, 2, 3) == [Visual(3, "", 0)]
  {
    ByteLenAscii("abc");
    assert !Differs(lines, pieces, 0) && !Differs(lines, pieces, 1);
    assert BodyRecords(lines, pieces, 1) == [];
  }

  /** Visualizing the lines `abc`, an empty line and another empty line against "abc\n". */
  lemma VisualizeTextThenEmpty(lines: seq<string>, c: string)
    requires lines == ["abc", "", ""] && c == "abc\n"
    ensures Split(c) == ["abc", ""] && Fits(lines, Split(c))
    ensures Visualize("p", lines, c) == Header("p") + RenderAll([Visual(3, "", 0)])
  {
    SplitLineBreak();
    RecordsTextThenEmpty(lines, ["abc", ""]);
    assert Visualize("p", lines, c) == Header("p") + [] + RenderAll([Visual(3, "", 0)]);
    RightUnit(Header("p"));
  }

  /**
   * Past the pieces, every line gets a tail record whatever it loses: of
   * the lines `abc`, an empty line and another empty line, the cleaned text
   * has two pieces; the second empty line gets a record with no padding,
   * while the first one, compared with its piece, gets none.
   */
  lemma VisualizeCleanTail(lines: seq<string>)
    requires lines == ["abc", "", ""]
    ensures Split(Clean(lines)) == ["abc", ""]
    ensures Fits(lines, Split(Clean(lines)))
    ensures Visualize("p", lines, Clean(lines)) == Header("p") + RenderAll([Visual(3, "", 0)])
  {
    CleanTextThenEmpty(lines);
    VisualizeTextThenEmpty(lines, Clean(lines));
  }
}
