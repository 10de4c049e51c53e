/**
 * The trimmer of src/trim.rs: the streaming engine `trim_custom`, the
 * wrapper `trim_iter` that picks the standard streams as sinks, and the
 * in-place edit `trim_file`/`trim_files` over a file system.
 */
module Trim {
  import opened Whitespace
  import opened Lines
  import opened Format
  import opened Sinks
  import opened TrimSpec
  import opened Sequences

  /** Summary of one trim. */
  datatype TrimResult = TrimResult(bytesSaved: int)

  /**
   * Trims `lines` into `out`, writing a visualization record per shown line
   * into `err` when there is one, and returns the byte count.
   */
  method TrimCustom(lines: seq<string>, out: Sink, err: Sink?, suppressNewline: bool)
    returns (bytesSaved: int)
    requires err != out
    modifies out, err
    ensures out.data == old(out.data) + Output(lines, suppressNewline)
    ensures err != null ==> err.data == old(err.data) + RenderAll(Visuals(lines))
    ensures bytesSaved == Saved(lines, suppressNewline)
  {
    var lf, u8 := Fold(lines, out, err);
    if !suppressNewline {
      out.Write("\n");
      Associative(old(out.data), Body(lines), "\n");
    } else {
      RightUnit(Body(lines));
    }
    bytesSaved := u8 + lf + (if lf == 1 then -1 else 0) + (if suppressNewline then 1 else 0);
  }

  /**
   * The fold of TrimCustom over all of `lines`. It keeps `lf`, the newlines
   * read but not yet written, and `u8`, the bytes of trailing whitespace
   * removed so far.
   */
  method Fold(lines: seq<string>, out: Sink, err: Sink?) returns (lf: nat, u8: nat)
    requires err != out
    modifies out, err
    ensures out.data == old(out.data) + Body(lines)
    ensures err != null ==> err.data == old(err.data) + RenderAll(Visuals(lines))
    ensures lf == Pending(lines) && u8 == SumRemoved(lines)
  {
    lf, u8 := 0, 0;
    var i := 0;
    ghost var done: seq<string> := [];
    while i < |lines|
      invariant 0 <= i <= |lines| && done == lines[..i]
      invariant out.data == old(out.data) + Body(done)
      invariant err != null ==> err.data == old(err.data) + RenderAll(Visuals(done))
      invariant lf == Pending(done) && u8 == SumRemoved(done)
    {
      lf, u8 := FoldLine(done, i + 1, lines[i], lf, u8, out, err, old(out.data), if err == null then "" else old(err.data));
      PrefixExtend(lines, i);
      done := done + [lines[i]];
      i := i + 1;
    }
    PrefixWhole(lines);
  }

  /**
   * One step of Fold: line `lineNumber`, after the lines `done`,
   * with the counters and the sinks as `done` left them, `outBase` and
   * `errBase` being what the sinks held before the first line.
   */
  method FoldLine(ghost done: seq<string>, lineNumber: nat, line: string, lf: nat, u8: nat, out: Sink, err: Sink?,
                  ghost outBase: string, ghost errBase: string)
    returns (lf': nat, u8': nat)
    requires err != out
    requires lineNumber == |done| + 1
    requires lf == Pending(done) && u8 == SumRemoved(done)
    requires out.data == outBase + Body(done)
    requires err != null ==> err.data == errBase + RenderAll(Visuals(done))
    modifies out, err
    ensures lf' == Pending(done + [line]) && u8' == SumRemoved(done + [line])
    ensures out.data == outBase + Body(done + [line])
    ensures err != null ==> err.data == errBase + RenderAll(Visuals(done + [line]))
  {
    var trimmed := TrimEnd(line);
    var saved := ByteLen(line) - ByteLen(trimmed);
    assert SumRemoved(done + [line]) == u8 + saved by {
      StepRemoved(done, line);
    }
    if |trimmed| == 0 {
      assert Pending(done + [line]) == lf + 1 && Body(done + [line]) == Body(done)
          && Visuals(done + [line]) == Visuals(done) by {
        StepBlank(done, line);
      }
      lf', u8' := lf + 1, u8 + saved;
    } else {
      assert Pending(done + [line]) == 1 && Body(done + [line]) == Body(done) + Newlines(lf) + trimmed by {
        StepText(done, line);
      }
      out.Write(Newlines(lf) + trimmed);
      Associative(outBase, Body(done) + Newlines(lf), trimmed);
      Associative(outBase, Body(done), Newlines(lf));
      Associative(outBase + Body(done), Newlines(lf), trimmed);
      if err != null && saved > 0 {
        var v := Visual(lineNumber, trimmed, saved);
        assert RenderAll(Visuals(done + [line])) == RenderAll(Visuals(done)) + RenderVisual(v) by {
          StepVisuals(done, line);
          RenderAllSnoc(Visuals(done), v);
        }
        err.Write(RenderVisual(v));
        Associative(errBase, RenderAll(Visuals(done)), RenderVisual(v));
      } else {
        assert err != null ==> Visuals(done + [line]) == Visuals(done) by {
          StepVisuals(done, line);
        }
      }
      lf', u8' := 1, u8 + saved;
    }
  }

  /**
   * Trims `lines` onto standard output; the records go to standard error
   * unless `suppressVisual` is set, in which case nothing is written there.
   */
  method TrimIter(lines: seq<string>, stdout: Sink, stderr: Sink, suppressVisual: bool, suppressNewline: bool)
    returns (r: TrimResult)
    requires stdout != stderr
    modifies stdout, stderr
    ensures stdout.data == old(stdout.data) + Output(lines, suppressNewline)
    ensures stderr.data == old(stderr.data) + (if suppressVisual then "" else RenderAll(Visuals(lines)))
    ensures r.bytesSaved == Saved(lines, suppressNewline)
  {
    var err: Sink? := if suppressVisual then null else stderr;
    var bytesSaved := TrimCustom(lines, stdout, err, suppressNewline);
    r := TrimResult(bytesSaved);
  }

  /* --- Trimming files in place --- */

  type Path = string

  /** A regular file: its bytes, read as text, and its permission bits. */
  datatype FileEntry = FileEntry(content: string, permissions: nat)

  /** The file-system calls of one in-place trim, each of which can fail. */
  datatype Step = RemoveStale | CopyToTemp | OpenTemp | OpenSource | WriteTemp | RenameTemp

  /** What a trim of one file ends with: its summary, or the call that failed. */
  datatype Outcome = Ok(result: TrimResult) | Err(failed: Step)

  /** The last component of a path: what follows its last `/`. */
  function Basename(path: Path): (name: Path)
    ensures |name| <= |path| && name == path[|path| - |name|..] && '/' !in name
    ensures |name| < |path| ==> path[|path| - |name| - 1] == '/'
  {
    if path == [] then []
    else if path[|path| - 1] == '/' then []
    else Basename(path[..|path| - 1]) + [path[|path| - 1]]
  }

  /**
   * The files of the system. A call fails when the file it needs is missing
   * or when the environment refuses it (permissions, a full disk, another
   * process); the latter is the `refused` flag each call is given.
   */
  class FileSystem {
    var files: map<Path, FileEntry>

    constructor (initial: map<Path, FileEntry>)
      ensures files == initial
    {
      files := initial;
    }

    method Exists(p: Path) returns (b: bool)
      ensures b == (p in files)
    {
      b := p in files;
    }

    method RemoveFile(p: Path, refused: bool) returns (ok: bool)
      modifies this
      ensures ok == (p in old(files) && !refused)
      ensures files == if ok then old(files) - {p} else old(files)
    {
      ok := p in files && !refused;
      if ok {
        files := files - {p};
      }
    }

    /** Copies the content and the permissions of `src` to `dst`. */
    method Copy(src: Path, dst: Path, refused: bool) returns (ok: bool)
      modifies this
      ensures ok == (src in old(files) && !refused)
      ensures files == if ok then old(files)[dst := old(files)[src]] else old(files)
    {
      ok := src in files && !refused;
      if ok {
        files := files[dst := files[src]];
      }
    }

    /** Opens an existing file for writing, emptying it; the file is not created. */
    method OpenTruncate(p: Path, refused: bool) returns (ok: bool)
      modifies this
      ensures ok == (p in old(files) && !refused)
      ensures files == if ok then old(files)[p := FileEntry("", old(files)[p].permissions)] else old(files)
    {
      ok := p in files && !refused;
      if ok {
        files := files[p := FileEntry("", files[p].permissions)];
      }
    }

    /** Opens an existing file for reading and returns its content. */
    method Open(p: Path, refused: bool) returns (ok: bool, content: string)
      ensures ok == (p in files && !refused)
      ensures ok ==> content == files[p].content
    {
      ok := p in files && !refused;
      content := if ok then files[p].content else "";
    }

    /** Appends `data` to an open file. */
    method Append(p: Path, data: string, refused: bool) returns (ok: bool)
      modifies this
      ensures ok == (p in old(files) && !refused)
      ensures files == if ok then old(files)[p := FileEntry(old(files)[p].content + data, old(files)[p].permissions)]
                       else old(files)
    {
      ok := p in files && !refused;
      if ok {
        files := files[p := FileEntry(files[p].content + data, files[p].permissions)];
      }
    }

    /** Moves `src` to `dst`, replacing whatever `dst` held, in one step. */
    method Rename(src: Path, dst: Path, refused: bool) returns (ok: bool)
      modifies this
      ensures ok == (src in old(files) && !refused)
      ensures files == if ok then (old(files) - {src})[dst := old(files)[src]] else old(files)
    {
      ok := src in files && !refused;
      if ok {
        files := (files - {src})[dst := files[src]];
      }
    }
  }

  lemma OutsideUnchanged(before: map<Path, FileEntry>, after: map<Path, FileEntry>, tempPath: Path)
    requires after - {tempPath} == before - {tempPath}
    ensures forall p :: p != tempPath ==> Unchanged(before, after, p)
  {
    forall p | p != tempPath
      ensures Unchanged(before, after, p)
    {
      assert p in after <==> p in after - {tempPath};
      assert p in before <==> p in before - {tempPath};
    }
  }

  lemma RemoveTwice<K, V>(m: map<K, V>, k: K)
    ensures (m - {k}) - {k} == m - {k}
  {
  }

  lemma UpdateRemove<K, V>(m: map<K, V>, k: K, v: V)
    ensures m[k := v] - {k} == m - {k}
  {
  }

  lemma UpdateUpdate<K, V>(m: map<K, V>, k: K, v: V, w: V)
    ensures m[k := v][k := w] == m[k := w]
  {
  }

  /** `p` names the same file, or no file, in both systems. */
  predicate Unchanged(before: map<Path, FileEntry>, after: map<Path, FileEntry>, p: Path) {
    (p in after <==> p in before) && (p in after ==> after[p] == before[p])
  }

  /** The file system after a successful in-place trim of `path` through `tempPath`. */
  function AfterTrim(files: map<Path, FileEntry>, path: Path, tempPath: Path, suppressNewline: bool): map<Path, FileEntry>
    requires path in files
  {
    (files - {tempPath})[path := FileEntry(TrimText(files[path].content, suppressNewline), files[path].permissions)]
  }

  lemma AfterTrimOutside(files: map<Path, FileEntry>, path: Path, tempPath: Path, suppressNewline: bool)
    requires path in files
    ensures forall p :: p != path && p != tempPath ==> Unchanged(files, AfterTrim(files, path, tempPath, suppressNewline), p)
  {
  }

  /** The environment lets every call of an in-place trim of `path` through `tempPath` go through. */
  predicate TrimSucceeds(files: map<Path, FileEntry>, path: Path, tempPath: Path, refused: set<Step>) {
    && path in files && path != tempPath
    && (tempPath in files ==> RemoveStale !in refused)
    && CopyToTemp !in refused && OpenTemp !in refused && OpenSource !in refused
    && WriteTemp !in refused && RenameTemp !in refused
  }

  /** No file but `path` and `tempPath` differs between `before` and `after`. */
  ghost predicate Confined(before: map<Path, FileEntry>, after: map<Path, FileEntry>, path: Path, tempPath: Path) {
    forall p :: p != path && p != tempPath ==> Unchanged(before, after, p)
  }

  /**
   * An in-place trim of `path` through `tempPath` took the system from
   * `before` to `after` with outcome `r`: it succeeds exactly when no call is
   * refused, and then the file holds its trimmed text, the copy is gone and
   * the count is that of the file's lines; a failure changes nothing but the
   * copy; no other file changes either way.
   */
  ghost predicate TrimsFile(before: map<Path, FileEntry>, after: map<Path, FileEntry>, path: Path, tempPath: Path,
                      suppressNewline: bool, refused: set<Step>, r: Outcome) {
    && (r.Ok? <==> TrimSucceeds(before, path, tempPath, refused))
    && (r.Ok? ==> path in before && after == AfterTrim(before, path, tempPath, suppressNewline)
                  && r.result.bytesSaved == Saved(ReadLines(before[path].content), suppressNewline))
    && (r.Err? ==> after - {tempPath} == before - {tempPath})
    && Confined(before, after, path, tempPath)
  }

  /**
   * Trims the file at `path` in place: a stale `tempPath` is removed, the file
   * is copied to `tempPath` (content and permissions), the copy is emptied,
   * the trimmed lines of the original are written into it, and the copy is
   * renamed over the original. The first refused call ends the trim.
   */
  method TrimFile(fs: FileSystem, path: Path, tempPath: Path, suppressNewline: bool, refused: set<Step>)
    returns (r: Outcome)
    modifies fs
    ensures TrimsFile(old(fs.files), fs.files, path, tempPath, suppressNewline, refused, r)
  {
    ghost var initial := fs.files;
    var stale := fs.Exists(tempPath);
    if stale {
      var ok := fs.RemoveFile(tempPath, RemoveStale in refused);
      if !ok {
        OutsideUnchanged(initial, fs.files, tempPath);
        return Err(RemoveStale);
      }
    }
    ghost var cleared := fs.files;
    assert cleared - {tempPath} == initial - {tempPath} by {
      if stale {
        RemoveTwice(initial, tempPath);
      }
    }
    var ok := fs.Copy(path, tempPath, CopyToTemp in refused);
    if !ok {
      OutsideUnchanged(initial, fs.files, tempPath);
      return Err(CopyToTemp);
    }
    assert path != tempPath && path in initial;
    UpdateRemove(cleared, tempPath, initial[path]);
    ok := fs.OpenTruncate(tempPath, OpenTemp in refused);
    if !ok {
      OutsideUnchanged(initial, fs.files, tempPath);
      return Err(OpenTemp);
    }
    var entry := FileEntry("", initial[path].permissions);
    UpdateUpdate(cleared, tempPath, initial[path], entry);
    UpdateRemove(cleared, tempPath, entry);
    var content;
    ok, content := fs.Open(path, OpenSource in refused);
    if !ok {
      OutsideUnchanged(initial, fs.files, tempPath);
      return Err(OpenSource);
    }
    var buffer := new Sink();
    var bytesSaved := TrimCustom(ReadLines(content), buffer, null, suppressNewline);
    var written := buffer.data;
    LeftUnit(Output(ReadLines(content), suppressNewline));
    ok := fs.Append(tempPath, written, WriteTemp in refused);
    if !ok {
      OutsideUnchanged(initial, fs.files, tempPath);
      return Err(WriteTemp);
    }
    var trimmed := FileEntry(written, initial[path].permissions);
    UpdateUpdate(cleared, tempPath, entry, trimmed);
    UpdateRemove(cleared, tempPath, trimmed);
    ok := fs.Rename(tempPath, path, RenameTemp in refused);
    if !ok {
      OutsideUnchanged(initial, fs.files, tempPath);
      return Err(RenameTemp);
    }
    RemoveTwice(initial, tempPath);
    assert fs.files == AfterTrim(initial, path, tempPath, suppressNewline);
    AfterTrimOutside(initial, path, tempPath, suppressNewline);
    return Ok(TrimResult(bytesSaved));
  }

  /**
   * The map that collecting the pairs `(paths[k], outcomes[k])` builds: a
   * later pair for a path replaces an earlier one.
   */
  function Collect(paths: seq<Path>, outcomes: seq<Outcome>): (m: map<Path, Outcome>)
    requires |paths| == |outcomes|
    ensures forall p :: p in m <==> p in paths
  {
    if paths == [] then map[]
    else
      var n := |paths| - 1;
      Collect(paths[..n], outcomes[..n])[paths[n] := outcomes[n]]
  }

  /** The entry for a path is the outcome of its last occurrence. */
  lemma {:induction false} CollectLast(paths: seq<Path>, outcomes: seq<Outcome>, j: nat)
    requires |paths| == |outcomes| && j < |paths|
    requires forall k :: j < k < |paths| ==> paths[k] != paths[j]
    ensures Collect(paths, outcomes)[paths[j]] == outcomes[j]
    decreases |paths|
  {
    var n := |paths| - 1;
    if j < n {
      CollectLast(paths[..n], outcomes[..n], j);
    }
  }

  /** The paths an in-place trim of each of `paths` may change: the paths and their temp paths. */
  function Touched(paths: seq<Path>, tempPathOf: Path -> Path): set<Path> {
    (set k | 0 <= k < |paths| :: paths[k]) + (set k | 0 <= k < |paths| :: tempPathOf(Basename(paths[k])))
  }

  /** No path repeats, and none is the temp path of any of them. */
  predicate Separate(paths: seq<Path>, tempPathOf: Path -> Path) {
    && (forall j, k :: 0 <= j < k < |paths| ==> paths[j] != paths[k])
    && (forall j, k :: 0 <= j < |paths| && 0 <= k < |paths| ==> paths[j] != tempPathOf(Basename(paths[k])))
  }

  /** `p` holds in `after` its text of `before`, trimmed, with its permissions. */
  predicate HoldsTrimmed(before: map<Path, FileEntry>, after: map<Path, FileEntry>, p: Path, suppressNewline: bool) {
    && p in before && p in after
    && after[p] == FileEntry(TrimText(before[p].content, suppressNewline), before[p].permissions)
  }

  /** Step `m` of `states` leaves `p` as it was. */
  predicate UnchangedAt(states: seq<map<Path, FileEntry>>, m: nat, p: Path) {
    m + 1 < |states| && Unchanged(states[m], states[m + 1], p)
  }

  /** A path that no step from `lo` to `hi` changes names the same file, or none, at both ends. */
  lemma {:induction false} UnchangedAcross(states: seq<map<Path, FileEntry>>, lo: nat, hi: nat, p: Path)
    requires lo <= hi < |states|
    requires forall m :: lo <= m < hi ==> UnchangedAt(states, m, p)
    ensures Unchanged(states[lo], states[hi], p)
    decreases hi
  {
    if lo < hi {
      UnchangedAcross(states, lo, hi - 1, p);
      assert UnchangedAt(states, hi - 1, p);
    }
  }

  /** Step `m` of `states` changes no file but `paths[m]` and its copy. */
  ghost predicate ConfinedAt(paths: seq<Path>, tempPathOf: Path -> Path, states: seq<map<Path, FileEntry>>, m: nat) {
    m < |paths| && m + 1 < |states| && Confined(states[m], states[m + 1], paths[m], tempPathOf(Basename(paths[m])))
  }

  /** `outcomes` and `states` record the in-place trims of the first `|outcomes|` paths, one after the other. */
  ghost predicate Steps(paths: seq<Path>, tempPathOf: Path -> Path, suppressNewline: bool, refused: nat -> set<Step>,
                        outcomes: seq<Outcome>, states: seq<map<Path, FileEntry>>) {
    && |outcomes| <= |paths| && |states| == |outcomes| + 1
    && forall k {:trigger outcomes[k]} :: 0 <= k < |outcomes| ==>
         TrimsFile(states[k], states[k + 1], paths[k], tempPathOf(Basename(paths[k])), suppressNewline, refused(k), outcomes[k])
  }

  /** One more trim extends the record. */
  lemma StepsExtend(paths: seq<Path>, tempPathOf: Path -> Path, suppressNewline: bool, refused: nat -> set<Step>,
                    outcomes: seq<Outcome>, states: seq<map<Path, FileEntry>>, after: map<Path, FileEntry>, r: Outcome)
    requires Steps(paths, tempPathOf, suppressNewline, refused, outcomes, states) && |outcomes| < |paths|
    requires var i := |outcomes|;
      TrimsFile(states[i], after, paths[i], tempPathOf(Basename(paths[i])), suppressNewline, refused(i), r)
    ensures Steps(paths, tempPathOf, suppressNewline, refused, outcomes + [r], states + [after])
  {
    var outcomes', states' := outcomes + [r], states + [after];
    forall k | 0 <= k < |outcomes'|
      ensures TrimsFile(states'[k], states'[k + 1], paths[k], tempPathOf(Basename(paths[k])), suppressNewline,
                        refused(k), outcomes'[k])
    {
      if k < |outcomes| {
        assert states'[k] == states[k] && states'[k + 1] == states[k + 1] && outcomes'[k] == outcomes[k];
      } else {
        assert states'[k] == states[k] && states'[k + 1] == after && outcomes'[k] == r;
      }
    }
  }

  /** An in-place trim changes no file but its own and its copy. */
  lemma TrimsFileElsewhere(before: map<Path, FileEntry>, after: map<Path, FileEntry>, path: Path, tempPath: Path,
                           suppressNewline: bool, refused: set<Step>, r: Outcome, p: Path)
    requires TrimsFile(before, after, path, tempPath, suppressNewline, refused, r)
    requires p != path && p != tempPath
    ensures Unchanged(before, after, p)
  {
  }

  /** A successful in-place trim leaves the file trimmed; a failed one, apart from its copy, leaves it as it was. */
  lemma TrimsFileItself(before: map<Path, FileEntry>, after: map<Path, FileEntry>, path: Path, tempPath: Path,
                        suppressNewline: bool, refused: set<Step>, r: Outcome)
    requires TrimsFile(before, after, path, tempPath, suppressNewline, refused, r)
    requires path != tempPath
    ensures r.Ok? ==> HoldsTrimmed(before, after, path, suppressNewline)
    ensures r.Err? ==> Unchanged(before, after, path)
  {
    if r.Err? {
      assert path in after <==> path in after - {tempPath};
      assert path in before <==> path in before - {tempPath};
    }
  }

  /** Trims of separate paths, one after the other: what becomes of path `k`. */
  lemma {:induction false} TrimFilesOutcomeAt(paths: seq<Path>, tempPathOf: Path -> Path, suppressNewline: bool,
                                              refused: nat -> set<Step>, outcomes: seq<Outcome>,
                                              states: seq<map<Path, FileEntry>>, k: nat)
    requires Steps(paths, tempPathOf, suppressNewline, refused, outcomes, states) && |outcomes| == |paths|
    requires k < |paths|
    requires Separate(paths, tempPathOf)
    ensures outcomes[k].Ok? ==> HoldsTrimmed(states[0], states[|paths|], paths[k], suppressNewline)
    ensures outcomes[k].Err? ==> Unchanged(states[0], states[|paths|], paths[k])
  {
    var n := |paths|;
    var p := paths[k];
    forall m | 0 <= m < n && m != k
      ensures UnchangedAt(states, m, p)
    {
      TrimsFileElsewhere(states[m], states[m + 1], paths[m], tempPathOf(Basename(paths[m])), suppressNewline,
                         refused(m), outcomes[m], p);
    }
    UnchangedAcross(states, 0, k, p);
    UnchangedAcross(states, k + 1, n, p);
    TrimsFileItself(states[k], states[k + 1], p, tempPathOf(Basename(p)), suppressNewline, refused(k), outcomes[k]);
  }

  /**
   * In-place trims one after the other, of separate paths: each path whose
   * trim succeeded ends holding its original text trimmed, and each path
   * whose trim failed ends as it was.
   */
  lemma TrimFilesOutcome(paths: seq<Path>, tempPathOf: Path -> Path, suppressNewline: bool,
                         refused: nat -> set<Step>, outcomes: seq<Outcome>,
                         states: seq<map<Path, FileEntry>>)
    requires Steps(paths, tempPathOf, suppressNewline, refused, outcomes, states) && |outcomes| == |paths|
    requires Separate(paths, tempPathOf)
    ensures forall k :: 0 <= k < |paths| ==>
      && (outcomes[k].Ok? ==> HoldsTrimmed(states[0], states[|paths|], paths[k], suppressNewline))
      && (outcomes[k].Err? ==> Unchanged(states[0], states[|paths|], paths[k]))
  {
    forall k | 0 <= k < |paths|
      ensures outcomes[k].Ok? ==> HoldsTrimmed(states[0], states[|paths|], paths[k], suppressNewline)
      ensures outcomes[k].Err? ==> Unchanged(states[0], states[|paths|], paths[k])
    {
      TrimFilesOutcomeAt(paths, tempPathOf, suppressNewline, refused, outcomes, states, k);
    }
  }

  /** Each recorded trim changes no file but its own and its copy. */
  lemma StepsConfined(paths: seq<Path>, tempPathOf: Path -> Path, suppressNewline: bool,
                      refused: nat -> set<Step>, outcomes: seq<Outcome>, states: seq<map<Path, FileEntry>>)
    requires Steps(paths, tempPathOf, suppressNewline, refused, outcomes, states)
    ensures forall m :: 0 <= m < |outcomes| ==> ConfinedAt(paths, tempPathOf, states, m)
  {
    forall m | 0 <= m < |outcomes|
      ensures ConfinedAt(paths, tempPathOf, states, m)
    {
      assert TrimsFile(states[m], states[m + 1], paths[m], tempPathOf(Basename(paths[m])), suppressNewline,
                       refused(m), outcomes[m]);
    }
  }

  /** A file that no step touches is the same at both ends of the steps. */
  lemma ConfinedUntouched(paths: seq<Path>, tempPathOf: Path -> Path, states: seq<map<Path, FileEntry>>, p: Path)
    requires |states| == |paths| + 1
    requires forall m :: 0 <= m < |paths| ==> ConfinedAt(paths, tempPathOf, states, m)
    requires forall m :: 0 <= m < |paths| ==> p != paths[m] && p != tempPathOf(Basename(paths[m]))
    ensures Unchanged(states[0], states[|paths|], p)
  {
    forall m | 0 <= m < |paths|
      ensures UnchangedAt(states, m, p)
    {
      assert ConfinedAt(paths, tempPathOf, states, m);
    }
    UnchangedAcross(states, 0, |paths|, p);
  }

  /** Steps each confined to a path of `paths` and its copy keep unchanged every file none of them touches. */
  lemma ConfinedTouched(paths: seq<Path>, tempPathOf: Path -> Path, states: seq<map<Path, FileEntry>>)
    requires |states| == |paths| + 1
    requires forall m :: 0 <= m < |paths| ==> ConfinedAt(paths, tempPathOf, states, m)
    ensures forall p :: p !in Touched(paths, tempPathOf) ==> Unchanged(states[0], states[|paths|], p)
  {
    forall p | p !in Touched(paths, tempPathOf)
      ensures Unchanged(states[0], states[|paths|], p)
    {
      forall m | 0 <= m < |paths|
        ensures p != paths[m] && p != tempPathOf(Basename(paths[m]))
      {
        assert paths[m] in Touched(paths, tempPathOf);
        assert tempPathOf(Basename(paths[m])) in Touched(paths, tempPathOf);
      }
      ConfinedUntouched(paths, tempPathOf, states, p);
    }
  }

  /**
   * What a complete record of trims says about the system at its two ends:
   * no file outside the touched paths changes, and for separate paths each
   * one ends trimmed if its trim succeeded and as it was if its trim failed.
   */
  lemma StepsEnds(paths: seq<Path>, tempPathOf: Path -> Path, suppressNewline: bool,
                  refused: nat -> set<Step>, outcomes: seq<Outcome>, states: seq<map<Path, FileEntry>>)
    requires Steps(paths, tempPathOf, suppressNewline, refused, outcomes, states) && |outcomes| == |paths|
    ensures forall p :: p !in Touched(paths, tempPathOf) ==> Unchanged(states[0], states[|paths|], p)
    ensures Separate(paths, tempPathOf) ==> forall k :: 0 <= k < |paths| ==>
      && (outcomes[k].Ok? ==> HoldsTrimmed(states[0], states[|paths|], paths[k], suppressNewline))
      && (outcomes[k].Err? ==> Unchanged(states[0], states[|paths|], paths[k]))
  {
    StepsConfined(paths, tempPathOf, suppressNewline, refused, outcomes, states);
    ConfinedTouched(paths, tempPathOf, states);
    if Separate(paths, tempPathOf) {
      TrimFilesOutcome(paths, tempPathOf, suppressNewline, refused, outcomes, states);
    }
  }

  /**
   * One step of TrimFiles: trims the next path of `paths` in place, from
   * the system the recorded trims left, and records the step.
   */
  method TrimNext(fs: FileSystem, paths: seq<Path>, tempPathOf: Path -> Path, suppressNewline: bool,
                  refused: nat -> set<Step>, outcomes: seq<Outcome>, ghost states: seq<map<Path, FileEntry>>)
    returns (outcomes': seq<Outcome>, ghost states': seq<map<Path, FileEntry>>)
    requires Steps(paths, tempPathOf, suppressNewline, refused, outcomes, states) && |outcomes| < |paths|
    requires states[|outcomes|] == fs.files
    modifies fs
    ensures Steps(paths, tempPathOf, suppressNewline, refused, outcomes', states')
    ensures |outcomes'| == |outcomes| + 1 && outcomes'[..|outcomes|] == outcomes
    ensures states'[..|states|] == states && states'[|outcomes'|] == fs.files
  {
    var path := paths[|outcomes|];
    var outcome := TrimFile(fs, path, tempPathOf(Basename(path)), suppressNewline, refused(|outcomes|));
    StepsExtend(paths, tempPathOf, suppressNewline, refused, outcomes, states, fs.files, outcome);
    outcomes', states' := outcomes + [outcome], states + [fs.files];
  }

  /**
   * Trims every file of `paths` in place, the temp path of each being
   * `tempPathOf` its basename, and maps each path to its outcome. The
   * trims run one after the other, each from the system the previous one
   * left (`states`), whatever the previous one's outcome. The calls the
   * environment refuses during the `k`-th trim are `refused(k)`, so two
   * occurrences of one path can meet different refusals.
   */
  method TrimFiles(fs: FileSystem, paths: seq<Path>, tempPathOf: Path -> Path, suppressNewline: bool,
                   refused: nat -> set<Step>)
    returns (results: map<Path, Outcome>, outcomes: seq<Outcome>, ghost states: seq<map<Path, FileEntry>>)
    modifies fs
    ensures |outcomes| == |paths| && results == Collect(paths, outcomes)
    ensures forall p :: p in results <==> p in paths
    ensures Steps(paths, tempPathOf, suppressNewline, refused, outcomes, states)
    ensures states[0] == old(fs.files) && states[|paths|] == fs.files
    ensures forall p :: p !in Touched(paths, tempPathOf) ==> Unchanged(old(fs.files), fs.files, p)
    ensures Separate(paths, tempPathOf) ==> forall k :: 0 <= k < |paths| ==>
      && (outcomes[k].Ok? ==> HoldsTrimmed(old(fs.files), fs.files, paths[k], suppressNewline))
      && (outcomes[k].Err? ==> Unchanged(old(fs.files), fs.files, paths[k]))
  {
    outcomes := [];
    states := [fs.files];
    var i := 0;
    while i < |paths|
      invariant 0 <= i <= |paths| && |outcomes| == i
      invariant Steps(paths, tempPathOf, suppressNewline, refused, outcomes, states)
      invariant states[0] == old(fs.files) && states[i] == fs.files
    {
      outcomes, states := TrimNext(fs, paths, tempPathOf, suppressNewline, refused, outcomes, states);
      i := i + 1;
    }
    results := Collect(paths, outcomes);
    StepsEnds(paths, tempPathOf, suppressNewline, refused, outcomes, states);
  }
}
