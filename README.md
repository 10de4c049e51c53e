# trim, modelled in Dafny

`trim` removes trailing whitespace. It trims every line, and it drops the blank lines at the end of
a text. It reports how many bytes it saved. It can also draw each trimmed line with its removed
bytes shown as `_` padding (a "visualization"). It writes to standard output, or it rewrites files
in place through a temporary copy.

This project models the core of the Rust crate and proves properties of that model.

- `Whitespace` models the regular expression `\s*$` as the removal of the longest suffix of
  Unicode white space (`TrimEnd`). `IsWhitespace` lists the characters with the Unicode
  White_Space property, which is the class `\s` matches. Lengths are UTF-8 byte counts (`ByteLen`), as Rust's `len()` counts them.
- `Lines` defines joining lines with `\n` (`Join`) and ending every line with `\n`
  (`Terminated`). It also models `str::split('\n')` (`Split`) and the lines `BufReader::lines`
  yields (`ReadLines`).
- `Format` models the `{:>6}` padding, decimal numbers and the visualization record
  `{:>6}|<trimmed line><padding>` (`Visual`, `RenderVisual`).
- `Sinks` is a writer: a class whose `data` each `Write` extends.
- `TrimSpec` holds the specification functions of the streaming trimmer:
  - `Trimmed`: every line with its trailing white space removed;
  - `Kept`: how many lines run up to the last one with text;
  - `Body`: the kept lines joined;
  - `Output` and `Saved`: what is written and the count returned;
  - `Visuals`: the records.

  It also holds the lemmas about them.
- `Trim` models src/trim.rs:
  - `trim_custom` as the method `TrimCustom`, whose fold is `Fold`/`FoldLine`;
  - `trim_iter` as `TrimIter`;
  - `trim_file` and `trim_files` over a `FileSystem` class whose `files` map the methods update.
- `Handle` models the older streaming trimmer `handle_custom` of src/main.rs.
- `Prelude` models the whole-buffer prototype of src/prelude.rs: `clean` is `Clean`, and
  `visualize` is `Visualize`, with its body records (`BodyRecords`) and tail records
  (`TailRecords`).
- `Examples` states the rows of the repository's test tables about the model.

Where the code and descriptions of it disagree, the model follows the code:

- An empty input written with its final newline is one `\n`. `trim_custom` returns 0 for it
  (src/trim.rs:211-228, and the test at src/trim.rs:240 with line 287). It does not return 1.
- `trim_files` is documented to rewrite a file only when its content changes
  (src/trim.rs:79-80). `trim_file` always renames the trimmed copy over the original, and
  `TrimFile` does the same.
- Trimming already-trimmed text is described as saving nothing. When the final newline is
  suppressed, `trim_custom` counts that newline even then, so a second trim returns 1
  (src/trim.rs:256-257). `TrimSpec.TrimTextIdempotent` proves the output unchanged and the count
  exactly 1 in that case.

`visualize` filters its body records by a difference in length (src/prelude.rs:45), but it writes
a tail record for every line past the pieces (src/prelude.rs:52-61), even one that loses
nothing. The model keeps this asymmetry. For the lines `abc`, an empty line and another empty
line, the cleaned text has two pieces. The third line gets a record with no padding, and the
second line gets none (`Examples.VisualizeCleanTail`).

## Model

| member | source | states |
|---|---|---|
| Whitespace.TrimEnd | src/trim.rs:148-159 | the result is a prefix of the line; it ends in no white space; everything removed is white space |
| Whitespace.TrimEndUnique | src/trim.rs:148-159 | any prefix that ends in no white space and leaves only white space after it is the trimmed line, so replacing `\s*$` has exactly one result |
| Whitespace.TrimEndIdempotent | src/prelude.rs:21-26 | a line without trailing white space is left as it is |
| Whitespace.TrimEndAppendWhitespace | src/prelude.rs:20-27 | white space appended to a line is removed with the line's own |
| Whitespace.ByteLen | src/trim.rs:160 | the UTF-8 length of a string is between its character count and four times it |
| Whitespace.ByteLenAppend | src/trim.rs:160 | byte lengths add up over concatenation |
| Whitespace.Removed | src/trim.rs:160 | the bytes trimming removes from a line; zero exactly when the line is already trimmed |
| Lines.Split | src/prelude.rs:37 | `split('\n')` gives at least one piece, no piece holds `\n`, and joining the pieces gives the text back |
| Lines.SplitJoin | src/prelude.rs:37 | splitting lines that were joined gives those lines back |
| Lines.JoinThenTerminate | src/main.rs:110-112 | lines joined by `\n` and then ended by `\n` are every line ended by `\n` |
| Lines.DropCRs | src/util.rs:50-56 | each line loses one `\r` at its end, if it has one, and nothing else |
| Lines.ReadLines | src/util.rs:50-56 | the lines a reader yields hold no `\n` |
| Lines.ReadTerminated | src/util.rs:50-56 | reading a text whose every line ends in `\n` yields those lines |
| Lines.ReadJoined | src/util.rs:50-56 | reading lines joined by `\n` yields them back when the last one is not empty, so "abc" and "abc\n" read the same |
| Format.Decimal | src/trim.rs:163 | the decimal digits of a number, with no leading zero |
| Format.DecimalRoundTrip | src/trim.rs:163 | reading the digits back gives the number |
| Format.PadLeft | src/trim.rs:163 | `{:>6}`: the string right-aligned in at least six columns, padded with spaces |
| Format.Repeat | src/util.rs:65-70 | the padding is `length` underscores |
| Format.RenderVisual | src/trim.rs:161-164 | a record ends in `\n`, and its last `padding` characters before the `\n` are underscores |
| Format.RenderAll | src/prelude.rs:63 | the records render as nothing exactly when there are none, and otherwise end in `\n` |
| Format.RenderAllAppend | src/trim.rs:184-189 | the records of two runs render as the renderings one after the other |
| Sinks.Sink.Write | src/trim.rs:182 | a write appends its text to what the writer holds |
| TrimSpec.Kept | src/trim.rs:175-193 | no line after the kept ones has text, and the last kept one does |
| TrimSpec.BytesSaved | src/trim.rs:212-227 | the count is at least the removed bytes plus the suppressed newline, and exactly that when at most one newline is pending at the end, because the file's own final newline is not counted as saved |
| TrimSpec.Saved | src/trim.rs:211-228 | the returned count is never negative and never less than the bytes of white space removed |
| TrimSpec.StepBlank | src/trim.rs:175-177 | a line without text writes nothing, shows nothing and adds one pending newline |
| TrimSpec.StepText | src/trim.rs:178-193 | a line with text writes the pending newlines and then the trimmed line, and leaves one newline pending |
| TrimSpec.StepRemoved | src/trim.rs:160 | each line adds the bytes it loses to the running total |
| TrimSpec.StepVisuals | src/trim.rs:159-189 | a line adds a record exactly when it has text and loses bytes |
| TrimSpec.TrailingBlanksDropped | src/trim.rs:172-177 | blank lines at the end write nothing and show nothing; each adds a pending newline |
| TrimSpec.InteriorBlanksKept | src/trim.rs:179-182 | blank lines before a line with text are written as one `\n` each |
| TrimSpec.BodyNoTrailingWhitespace | src/trim.rs:155-198 | what the fold writes ends in no white space |
| TrimSpec.BodyEmpty | src/trim.rs:175-193 | the fold writes nothing exactly when no line has text |
| TrimSpec.FinalNewline | src/trim.rs:200-203 | the output ends in exactly one `\n` unless it is suppressed, and then in no white space at all |
| TrimSpec.SuppressAddsOne | src/trim.rs:224-227 | suppressing the final newline adds exactly one to the count |
| TrimSpec.BodyByteLen | src/trim.rs:178-193 | the fold writes the kept bytes plus one `\n` between kept lines |
| TrimSpec.TerminatedByteLen | src/trim.rs:160 | a text whose every line ends in `\n` holds the kept bytes, the removed bytes and one byte per line |
| TrimSpec.SavedVersusBytes | src/trim.rs:211-228 | the count is the input's bytes minus the output's when exactly one newline is pending at the end, and one more otherwise |
| TrimSpec.VisualsSound | src/trim.rs:159-189 | every record names a line with text that loses bytes, holds the trimmed line and the lost bytes, and records follow line order |
| TrimSpec.VisualsComplete | src/trim.rs:159-189 | every line with text that loses bytes has a record |
| TrimSpec.KeptLinesClean | src/trim.rs:155-198 | the lines written are trimmed, hold no `\n` or final `\r`, and the last one has text |
| TrimSpec.CleanLines | src/trim.rs:136-230 | trimming already-clean lines writes them joined, shows nothing and counts only the suppressed newline |
| TrimSpec.CleanRemovesNothing | src/trim.rs:160 | already-trimmed lines lose no bytes and show nothing |
| TrimSpec.ReadOutput | src/util.rs:50-56 | the written text reads back as the lines written |
| TrimSpec.LoneNewline | src/trim.rs:200-228 | a lone blank line is written as one `\n` and counts nothing |
| TrimSpec.RetrimClean | src/trim.rs:136-230 | trimming the text written for clean lines writes it unchanged |
| TrimSpec.TrimTextIdempotent | src/trim.rs:136-230 | trimming what a trim wrote writes it again unchanged, shows nothing and counts only the suppressed newline |
| Trim.TrimCustom | src/trim.rs:136-230 | writes the trimmed text to `out`, the records to `err` when there is one, and returns `Saved` |
| Trim.Fold | src/trim.rs:155-198 | the fold writes the body and ends with the pending newlines and the removed bytes |
| Trim.FoldLine | src/trim.rs:158-196 | one step of the fold keeps the counters and both writers in step with the specification |
| Trim.TrimIter | src/trim.rs:41-61 | trims to standard output; records go to standard error unless suppressed; the count is `Saved` |
| Trim.Basename | src/trim.rs:94 | the part of a path after its last `/` |
| Trim.FileSystem.constructor | src/trim.rs:92-119 | a file system holding the given files |
| Trim.FileSystem.Exists | src/trim.rs:97 | whether a file is there |
| Trim.FileSystem.RemoveFile | src/trim.rs:98 | removes an existing file unless refused; otherwise nothing changes |
| Trim.FileSystem.Copy | src/trim.rs:100 | copies content and permissions to the target unless the source is missing or the copy is refused |
| Trim.FileSystem.OpenTruncate | src/trim.rs:103-106 | empties an existing file and keeps its permissions; does not create one |
| Trim.FileSystem.Open | src/trim.rs:110 | reads an existing file's content |
| Trim.FileSystem.Append | src/trim.rs:109-114 | appends the written text to an open file |
| Trim.FileSystem.Rename | src/trim.rs:116 | moves the copy over the target in one step |
| Trim.OutsideUnchanged | src/trim.rs:92-119 | a failed trim changes no file but the temporary copy; the trimmed file itself is among those left unchanged |
| Trim.AfterTrimOutside | src/trim.rs:92-119 | a successful trim changes no file but the trimmed one and its temporary copy |
| Trim.TrimFile | src/trim.rs:92-119 | succeeds exactly when the file exists, is not its own temporary path and no call is refused; then the file holds its trimmed text with its permissions, the copy is gone, and the count is `Saved` of its lines; on failure only the copy may differ |
| Trim.Collect | src/trim.rs:85-88 | the map has exactly the paths given as keys |
| Trim.CollectLast | src/trim.rs:85-88 | a path maps to the outcome of its last occurrence |
| Trim.TrimNext | src/trim.rs:85-88 | trims the next path from the files the earlier trims left, and extends the record by exactly that trim's outcome and resulting files |
| Trim.TrimFiles | src/trim.rs:81-89 | one outcome per path, the refusals of the `k`-th trim given by position, collected into a map over exactly those paths; the trims run in order, and each outcome is what `TrimFile` gives from the files the earlier trims left (success exactly when no call is refused, then the file trimmed and the count `Saved` of its lines); no file outside the paths and their temporary copies changes; for separate paths, each path whose trim succeeded ends holding its original text trimmed, and each path whose trim failed ends as it was |
| Trim.StepsExtend | src/trim.rs:85-88 | one more trim from the last recorded files keeps the record of trims in order |
| Trim.UnchangedAcross | src/trim.rs:85-88 | a file that no step changes is the same after all the steps |
| Trim.TrimsFileElsewhere | src/trim.rs:92-119 | an in-place trim changes no file but its own and its temporary copy |
| Trim.TrimsFileItself | src/trim.rs:92-119 | when the file is not its own temporary path, a successful trim leaves the file holding its trimmed text with its permissions, and a failed one leaves the file as it was |
| Trim.TrimFilesOutcomeAt | src/trim.rs:81-119 | for separate paths, a path ends trimmed if its trim succeeded and as it was if its trim failed |
| Trim.TrimFilesOutcome | src/trim.rs:81-119 | for separate paths, the same holds for every path at once |
| Trim.StepsConfined | src/trim.rs:81-119 | each recorded trim changes no file but its own and its temporary copy |
| Trim.ConfinedUntouched | src/trim.rs:81-119 | a file that is none of the paths and none of their temporary copies is the same at both ends |
| Trim.ConfinedTouched | src/trim.rs:81-119 | no file outside the paths and their temporary copies changes across all the trims |
| Trim.StepsEnds | src/trim.rs:81-119 | what a complete record of trims says about the files at both ends: untouched files are unchanged, and for separate paths each ends trimmed or as it was, by its outcome |
| Handle.Summary | src/main.rs:128-129 | the summary starts and ends with `\n` |
| Handle.EagerStepBlank | src/main.rs:106 | a blank line writes nothing and adds one to the newline count |
| Handle.EagerStepText | src/main.rs:107-121 | a line with text writes the counted newlines, the trimmed line and `\n`, and resets the count |
| Handle.EagerVersusEngine | src/main.rs:102-126 | the prototype writes what `trim_custom` writes with its final newline, except that it writes nothing when no line has text |
| Handle.EagerSavedBytes | src/main.rs:87-88 | the "bytes saved overall" figure is exactly how much shorter the output is than the input read as terminated lines |
| Handle.HandleCustom | src/main.rs:78-134 | writes the eager output to `out`, and the records and then the summary to `err` |
| Handle.HandleLine | src/main.rs:93-125 | one step of the fold keeps the counters and both writers in step with the specification |
| Prelude.RtrimN | src/prelude.rs:21-22 | the string without its trailing white space, ended by one `\n` |
| Prelude.ConcatRtrimN | src/prelude.rs:24 | each line contributes at least its `\n`, and the concatenation ends in `\n` when there are lines |
| Prelude.Clean | src/prelude.rs:20-27 | the cleaned text ends in `\n` with no white space before it |
| Prelude.ConcatIsTerminated | src/prelude.rs:23-24 | the lines put through `rtrim_n` and concatenated are the trimmed lines, each ended by `\n` |
| Prelude.ConcatSplit | src/prelude.rs:23-24 | that concatenation is the kept lines, terminated, followed by one `\n` per trailing blank line |
| Prelude.TrimTerminated | src/prelude.rs:26 | trimming that concatenation as a whole leaves the kept lines joined |
| Prelude.CleanIsOutput | src/prelude.rs:17-27 | `clean` gives exactly what `trim_custom` writes without suppressing the final newline |
| Prelude.CleanEnding | src/prelude.rs:17-27 | the cleaned text ends in one `\n` with no white space before it, and it is a lone `\n` exactly when no line has text |
| Prelude.BodyRecords | src/prelude.rs:40-50 | for pieces no longer than their lines, at most one body record per compared line |
| Prelude.BodyRecordsSound | src/prelude.rs:40-50 | every body record is for a line whose piece differs in length, holds the piece and the difference, and records follow line order |
| Prelude.BodyRecordsComplete | src/prelude.rs:40-50 | every compared line whose piece differs in length has a body record |
| Prelude.TailRecords | src/prelude.rs:52-61 | one tail record per line past the pieces, with no text and the whole line as padding |
| Prelude.Header | src/prelude.rs:39 | the header line is `  file|`, the path as `{:?}` renders it, and `\n` |
| Prelude.Visualize | src/prelude.rs:35-64 | for pieces no longer than their lines, the visualization starts with the header line and ends in `\n` |
| Prelude.SplitTerminated | src/prelude.rs:37 | terminated lines split into those lines and one empty piece |
| Prelude.CleanPieces | src/prelude.rs:37 | the cleaned text splits into the kept trimmed lines and an empty piece, or two empty pieces when no line has text |
| Prelude.PiecesTrimmed | src/prelude.rs:37-45 | each such piece is its line trimmed |
| Prelude.CleanFits | src/prelude.rs:47 | against the cleaned text no piece is longer than its line, so the subtraction cannot wrap |
| Prelude.TrimmedBodyRecordsSound | src/prelude.rs:40-50 | against trimmed pieces every body record holds its trimmed line and the bytes it loses, which are more than none |
| Prelude.TrimmedBodyRecordsComplete | src/prelude.rs:40-50 | against trimmed pieces every compared line that loses bytes has a body record |
| Prelude.TailRecordsBlank | src/prelude.rs:52-61 | after the last line with text every tail record holds its line trimmed (empty) and its bytes |
| Prelude.VisualizeTrimmed | src/prelude.rs:35-64 | against trimmed pieces, the body records are exactly those of the compared lines that lose bytes, each holding its trimmed line and the lost bytes, in increasing line order and before every line past the pieces; when no line past the pieces has text, every such line gets a tail record of its bytes, whatever it loses |
| Prelude.VisualizeClean | src/prelude.rs:35-64 | against the cleaned text the same holds: body records exactly for the compared lines that lose bytes, in line order, and a tail record for every line past the pieces, whatever it loses |
| Examples.ReadFinalBreak | src/util.rs:97-98 | "abc" and "abc\n" both read as `["abc"]` |
| Examples.ReadBlankLastLine | src/util.rs:99 | "abc\n\n" reads as `["abc", ""]` |
| Examples.ReadLeadingBlankLines | src/util.rs:100-101 | leading newlines read as empty lines |
| Examples.ReadCarriageReturn | src/util.rs:104 | "abc\r\n" reads as `["abc"]` |
| Examples.ReadCarriageReturnBlankLastLine | src/util.rs:105 | "abc\r\n\r\n" reads as `["abc", ""]` |
| Examples.ReadCarriageReturnLeadingBlankLines | src/util.rs:106-107 | "\r\nabc" and "\r\n\r\nabc" read as leading empty lines and `abc` |
| Examples.TrimEmpty | src/trim.rs:240 | the empty text is written as nothing with count 1, or as `\n` with count 0 |
| Examples.TrimNothing | src/trim.rs:256-257 | "abc", which reads like "abc\n", is written as "abc" with count 1 |
| Examples.ReadNothingToTrim | src/trim.rs:243 | "\nasd fgh\nabc" reads as an empty line, `asd fgh` and `abc` |
| Examples.TrimNothingLines | src/trim.rs:243 | those lines are written as read, with count 1 |
| Examples.TrimCarriageReturnInside | src/trim.rs:244-245 | a `\r` inside a line is not a break; nothing is trimmed and the count is 1 |
| Examples.ReadWhitespaceBeforeBreak | src/trim.rs:247 | "ab \t  \r \nabc" reads as `ab \t  \r ` and `abc`: only the `\n` breaks the line |
| Examples.TrimWhitespaceBeforeBreak | src/trim.rs:247 | "ab \t  \r \nabc" trims to "ab\nabc" with count 7 |
| Examples.ReadAllBlank | src/trim.rs:248 | the text of the all-blank row reads as its eight blank lines |
| Examples.BlankTable | src/trim.rs:248 | none of those lines has text, and they lose 0, 1, 1, 5, 4, 7, 5 and 1 bytes |
| Examples.AllBlank | src/trim.rs:248 | lines none of which has text are written as nothing and count every byte they lose, every newline and the suppressed one, less one when there is a single line |
| Examples.TrimAllBlank | src/trim.rs:248 | the all-blank row is written as nothing with count 33, though it holds 32 bytes |
| Examples.ReadTrailingBlankLines | src/trim.rs:250 | "ab \ncd \n  \n\n  \n" reads as five lines, the last three blank |
| Examples.TrimTrailingBlankLines | src/trim.rs:250 | "ab \ncd \n  \n\n  \n" trims to "ab\ncd" with count 11 |
| Examples.ReadLeadingBlankLinesKept | src/trim.rs:252 | "  \n\t\r \r \n 123 absoi" reads as two blank lines and ` 123 absoi` |
| Examples.TrimLeadingBlankLines | src/trim.rs:252 | "  \n\t\r \r \n 123 absoi" trims to "\n\n 123 absoi" with count 8 |
| Examples.TrimBlankLastLine | src/trim.rs:258 | "abc\n\n" trims to "abc" with count 3 |
| Examples.ReadTrailingSpace | src/trim.rs:259-260 | "abc " and "abc \n" both read as the one line `abc ` |
| Examples.TrimTrailingSpace | src/trim.rs:259-260 | "abc " and "abc \n" trim to "abc" with count 2 |
| Examples.TextThenBlanks | src/trim.rs:249-250 | blank lines after the last line with text are not written and each counts its bytes and newline |
| Examples.BlanksThenText | src/trim.rs:251-252 | blank lines before the first line with text are written as empty lines |
| Examples.HandleEmpty | src/main.rs:161 | the prototype writes nothing for the empty text |
| Examples.HandleNothingToTrim | src/main.rs:162 | "abc" is written as "abc\n" |
| Examples.HandleOneLine | src/main.rs:163 | "   absoi " is written as "   absoi\n" |
| Examples.HandleTrailingBlankLines | src/main.rs:164 | "ab \ncd \n  \n\n  \n" is written as "ab\ncd\n" |
| Examples.CleanTextThenEmpty | src/prelude.rs:20-27 | the lines `abc`, an empty line and another empty line clean to "abc\n" |
| Examples.VisualizeCleanTail | src/prelude.rs:52-61 | visualizing those lines against their cleaned text gives the header and one tail record, for the third line with no padding, and no record for the second line |

## Left out

- Reading files and standard input: the lines, or the text they are read from, are parameters.
  Read errors and the `unwrap` calls that turn them into panics are not modelled.
- Write and flush errors on the standard streams: those writers never fail, so the error branch
  that the fold passes along is never taken there. The in-place trim writes the trimmed text
  into its copy with one `Append`, which succeeds or fails as a whole (the `WriteTemp` step).
  The source writes line by line, so a failure part-way leaves a partly written copy; that
  partial copy is not modelled. Either way the original file is untouched until the rename,
  unless the file is its own temporary path: then removing the stale copy deletes the original,
  and the copy that follows fails.
- The ANSI colours of the padding: the padding is the underscores alone.
- The regular-expression engine: `\s*$` is modelled by `TrimEnd` over Unicode white space.
- `hash_default` and `env::temp_dir`: the temporary path of a basename is the parameter
  `tempPathOf`.
- Rust's path normalisation in `file_name`: `Basename` is what follows the last `/`, so a path
  ending in `/` has the empty name where Rust skips the `/`, and the panic on a path with no
  file name (`..`, `/`) is not modelled. The name only feeds `tempPathOf`.
- Parallel trimming with rayon in `trim_files`: files are trimmed one after the other. Two
  paths with the same basename share one temporary copy, and run concurrently they can race;
  run in sequence they cannot.
- Trim.TrimCustom: does not model the `as i32` conversion of the count, which wraps for
  inputs larger than 2 GiB; the count is an unbounded integer.
- Trim.TrimFiles: states each file's final content only when the paths are separate, that is,
  no path repeats and none is another path's temporary copy. Otherwise it states each trim's
  outcome and resulting files from the files the earlier trims left (`Steps`). It does not state
  the final content, because a later trim can overwrite or remove an earlier path.
- The command line (`main`, `handle`, argument parsing) and the other helpers of src/util.rs
  (`mktemp`, `red`, `green`).
- Prelude.Visualize: requires that no piece of the cleaned text is longer than its line (`Fits`),
  and so does `BodyRecords`. `visualize` is public and does not check this. On such an input
  `line.len() - trimmed.len()` (src/prelude.rs:47) underflows: a debug build panics, and a
  release build wraps the padding length. Those inputs are excluded, not modelled. Text that
  `clean` produced always fits (`CleanFits`).
- The `{:?}` rendering of a path in the visualization header: `Visualize` takes that
  rendering as the parameter `pathDebug`.
- The file that `visualize` reads its lines from: `Visualize` takes the lines as a parameter.
