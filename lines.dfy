/**
 * Line-level text: joining lines with `\n`, splitting text on `\n` as
 * `str::split('\n')` does, and reading lines as `BufReader::lines` does
 * (src/util.rs:50-56, whose test table is src/util.rs:95-108).
 */
module Lines {

  function IndexOf(s: string, c: char): (i: nat)
    requires c in s
    ensures i < |s| && s[i] == c && c !in s[..i]
  {
    if s[0] == c then 0
    else
      var j := IndexOf(s[1..], c);
      assert s[..j + 1] == [s[0]] + s[1..][..j];
      j + 1
  }

  /** The first `\n` of a text whose first line is `x` sits right after `x`. */
  lemma IndexAfterLine(x: string, rest: string)
    requires '\n' !in x
    ensures IndexOf(x + "\n" + rest, '\n') == |x|
  {
    var s := x + "\n" + rest;
    assert s[..|x|] == x && s[|x|] == '\n';
  }

  /** The lines `xs` joined by a `\n` between neighbours. */
  function Join(xs: seq<string>): string {
    if |xs| == 0 then ""
    else if |xs| == 1 then xs[0]
    else xs[0] + "\n" + Join(xs[1..])
  }

  /** Every line of `xs` followed by its own `\n`: a text whose every line is terminated. */
  function Terminated(xs: seq<string>): string {
    if xs == [] then "" else xs[0] + "\n" + Terminated(xs[1..])
  }

  /** `k` newline characters. */
  function Newlines(k: nat): (s: string)
    ensures |s| == k && forall i :: 0 <= i < k ==> s[i] == '\n'
  {
    seq(k, _ => '\n')
  }

  /** `k` empty lines. */
  function Blanks(k: nat): (xs: seq<string>)
    ensures |xs| == k && forall i :: 0 <= i < k ==> xs[i] == ""
  {
    seq(k, _ => "")
  }

  lemma {:induction false} JoinAppend(xs: seq<string>, t: string)
    requires xs != []
    ensures Join(xs + [t]) == Join(xs) + ['\n'] + t
    decreases |xs|
  {
    if |xs| > 1 {
      assert (xs + [t])[1..] == xs[1..] + [t];
      JoinAppend(xs[1..], t);
    }
  }

  lemma {:induction false} TerminatedAppend(xs: seq<string>, ys: seq<string>)
    ensures Terminated(xs + ys) == Terminated(xs) + Terminated(ys)
    decreases |xs|
  {
    if xs == [] {
      assert xs + ys == ys;
    } else {
      assert (xs + ys)[1..] == xs[1..] + ys;
      TerminatedAppend(xs[1..], ys);
    }
  }

  /** A non-empty list joined and then terminated is every line terminated. */
  lemma {:induction false} JoinThenTerminate(xs: seq<string>)
    requires xs != []
    ensures Join(xs) + "\n" == Terminated(xs)
    decreases |xs|
  {
    if |xs| > 1 {
      JoinThenTerminate(xs[1..]);
    }
  }

  lemma {:induction false} TerminatedBlanks(k: nat)
    ensures Terminated(Blanks(k)) == Newlines(k)
  {
    if k > 0 {
      assert Blanks(k)[1..] == Blanks(k - 1);
      TerminatedBlanks(k - 1);
    }
  }

  /** Joining lines ends with blank lines contributes one `\n` per blank line. */
  lemma {:induction false} JoinBlanks(xs: seq<string>, k: nat)
    requires xs != []
    ensures Join(xs + Blanks(k)) == Join(xs) + Newlines(k)
    decreases k
  {
    if k > 0 {
      assert xs + Blanks(k) == (xs + Blanks(k - 1)) + [""];
      JoinBlanks(xs, k - 1);
      JoinAppend(xs + Blanks(k - 1), "");
    } else {
      assert xs + Blanks(k) == xs;
    }
  }

  /** Blank lines before a line contribute one `\n` each to the joined text. */
  lemma {:induction false} JoinLeadingBlanks(k: nat, t: string)
    ensures Join(Blanks(k) + [t]) == Newlines(k) + t
  {
    if k > 0 {
      var xs := Blanks(k) + [t];
      assert xs[0] == [] && xs[1..] == Blanks(k - 1) + [t];
      JoinLeadingBlanks(k - 1, t);
      assert Newlines(k) == ['\n'] + Newlines(k - 1);
    } else {
      assert Blanks(k) + [t] == [t];
    }
  }

  /** Lines, blank lines and a last line, joined: one `\n` per blank line, and one more after a first line. */
  lemma {:induction false} JoinBlanksThen(xs: seq<string>, m: nat, t: string)
    ensures Join(xs + Blanks(m) + [t]) == Join(xs) + Newlines(if xs == [] then m else m + 1) + t
  {
    if xs == [] {
      assert xs + Blanks(m) == Blanks(m);
      JoinLeadingBlanks(m, t);
      assert Join(xs) + Newlines(m) == Newlines(m);
    } else {
      JoinBlanks(xs, m);
      JoinAppend(xs + Blanks(m), t);
      assert Join(xs) + Newlines(m) + ['\n'] == Join(xs) + Newlines(m + 1);
    }
  }

  /** Lines joined are empty only when there are none or the only one is empty. */
  lemma JoinNonEmpty(xs: seq<string>)
    requires xs != [] && xs[|xs| - 1] != []
    ensures Join(xs) != []
  {
    if |xs| > 1 {
      assert |Join(xs)| >= |xs[0] + "\n"|;
    }
  }

  /** Terminated lines followed by blank lines: one `\n` per blank line. */
  lemma {:induction false} TerminatedThenBlanks(xs: seq<string>, m: nat)
    ensures Terminated(xs + Blanks(m)) == Terminated(xs) + Newlines(m)
  {
    TerminatedAppend(xs, Blanks(m));
    TerminatedBlanks(m);
  }

  /** Terminated lines, blank lines and a last line: one `\n` per blank line before the last line. */
  lemma {:induction false} TerminatedBlanksThen(xs: seq<string>, m: nat, t: string)
    ensures Terminated(xs + Blanks(m) + [t]) == Terminated(xs) + (Newlines(m) + t + "\n")
  {
    TerminatedAppend(xs + Blanks(m), [t]);
    TerminatedThenBlanks(xs, m);
    assert Terminated([t]) == t + "\n";
  }

  /**
   * `s` cut at every `\n`, as `str::split('\n')` does: the pieces hold no
   * `\n`, there is always at least one, and joining them gives `s` back.
   */
  function Split(s: string): (pieces: seq<string>)
    ensures |pieces| >= 1
    ensures forall i :: 0 <= i < |pieces| ==> '\n' !in pieces[i]
    ensures Join(pieces) == s
    decreases |s|
  {
    if '\n' !in s then [s]
    else
      var i := IndexOf(s, '\n');
      assert s == s[..i] + "\n" + s[i + 1..];
      [s[..i]] + Split(s[i + 1..])
  }

  /** Splitting undoes joining for lines that hold no `\n`. */
  lemma {:induction false} SplitJoin(xs: seq<string>)
    requires xs != []
    requires forall i :: 0 <= i < |xs| ==> '\n' !in xs[i]
    ensures Split(Join(xs)) == xs
    decreases |xs|
  {
    if |xs| > 1 {
      var s := Join(xs);
      IndexAfterLine(xs[0], Join(xs[1..]));
      assert s[|xs[0]|] == '\n';
      assert s[..|xs[0]|] == xs[0];
      assert s[|xs[0]| + 1..] == Join(xs[1..]);
      SplitJoin(xs[1..]);
      assert Split(s) == [xs[0]] + Split(Join(xs[1..]));
    }
  }

  /** `x` without one `\r` at its end, if it has one. */
  function DropCR(x: string): (r: string)
    ensures r <= x
  {
    if x != [] && x[|x| - 1] == '\r' then x[..|x| - 1] else x
  }

  /** Every line of `xs` without one `\r` at its end. */
  function DropCRs(xs: seq<string>): (ys: seq<string>)
    ensures |ys| == |xs| && forall i :: 0 <= i < |xs| ==> ys[i] == DropCR(xs[i])
  {
    if xs == [] then [] else [DropCR(xs[0])] + DropCRs(xs[1..])
  }

  /**
   * The lines `BufReader::lines` yields for the text `text`: the text is cut
   * at every `\n`; a piece that a `\n` ends loses one `\r` at its end, and
   * the final piece, which no `\n` ends, is a line only if it is not empty,
   * so "abc" and "abc\n" read the same.
   */
  function ReadLines(text: string): (lines: seq<string>)
    ensures forall i :: 0 <= i < |lines| ==> '\n' !in lines[i]
  {
    LinesOfPieces(Split(text))
  }

  /** The lines that the pieces of a split text make, as ReadLines describes. */
  function LinesOfPieces(pieces: seq<string>): (lines: seq<string>)
    requires pieces != []
    requires forall i :: 0 <= i < |pieces| ==> '\n' !in pieces[i]
    ensures forall i :: 0 <= i < |lines| ==> '\n' !in lines[i]
  {
    var last := pieces[|pieces| - 1];
    DropCRs(pieces[..|pieces| - 1]) + (if last == [] then [] else [last])
  }

  lemma {:induction false} LinesOfPiecesIdentity(xs: seq<string>)
    requires xs != [] && xs[|xs| - 1] != []
    requires forall i :: 0 <= i < |xs| ==> '\n' !in xs[i] && DropCR(xs[i]) == xs[i]
    ensures LinesOfPieces(xs) == xs
  {
    var init := xs[..|xs| - 1];
    assert DropCRs(init) == init;
    assert xs == init + [xs[|xs| - 1]];
  }

  /** Reading a text whose every line is terminated yields those lines. */
  lemma {:induction false} ReadTerminated(xs: seq<string>)
    requires forall i :: 0 <= i < |xs| ==> '\n' !in xs[i] && DropCR(xs[i]) == xs[i]
    ensures ReadLines(Terminated(xs)) == xs
  {
    if xs == [] {
      assert Split("") == [""];
    } else {
      var ys := xs + [[]];
      assert Terminated(xs) == Join(ys) by {
        JoinThenTerminate(xs);
        JoinAppend(xs, []);
      }
      SplitJoin(ys);
      assert LinesOfPieces(ys) == xs by {
        assert ys[..|xs|] == xs;
        assert DropCRs(xs) == xs;
      }
    }
  }

  /** Reading lines joined by `\n` yields them back when the last one is not empty. */
  lemma {:induction false} ReadJoined(xs: seq<string>)
    requires xs != [] && xs[|xs| - 1] != ""
    requires forall i :: 0 <= i < |xs| ==> '\n' !in xs[i] && DropCR(xs[i]) == xs[i]
    ensures ReadLines(Join(xs)) == xs
  {
    SplitJoin(xs);
    LinesOfPiecesIdentity(xs);
  }
}
