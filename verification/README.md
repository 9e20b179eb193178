# eve — a Dafny model

`eve` replaces `{{NAME}}` placeholders in text files with the values of
environment variables. The library half is `Eve::replace`. It runs the
regular expression `\{\{(.*)\}\}` with `replace_all`, and its `Replacer`
appends the value of `env::var(<capture>)` for each match, or nothing when the
variable is not set or not Unicode. The binary half walks its path
arguments in order. Each file is read and replaced. The result is printed
with a trailing line feed, or with `-i` written back in place, after an
optional backup with `-e <ext>`. With `-r` a directory is walked, and without
it a directory is an error that ends the run.

The model has five modules:

- `Common` (common.dfy): `Option`, `Distinct`, and sequence associativity.
- `Pattern` (pattern.dfy): what a match of `\{\{(.*)\}\}` is, and where
  `replace_all` finds it.
  - `IsMatchAt` and `IsFirstMatch` describe it declaratively. The engine's
    `.` excludes the line feed, `.*` is greedy, and the leftmost match wins.
  - `FindMatch` is a scanner that computes it.
  - `FindMatchSpec` proves the two agree.
- `Eve` (eve.dfy): `Replace` as the scanner-driven loop of `replace_all`,
  with a partner view of it. `Tokenize` cuts a text into literal pieces and
  holes, `Render` spells the pieces back, and `Substitute` fills the holes.
  Lemmas connect the three.
- `Cli` (cli.dfy): the `replace!` macro and the per-path loop of `main`.
  They run over an in-memory file system (`map<Path, Node>`) and an
  accumulated standard output. The first error ends the run, and earlier
  effects stay.
  - `Resolve` is a partner reference: a plan read from the file system
    before the run, listing the files to process and the error that ends
    the run.
  - The plan describes the run without `-i` (`PrintRun`) and with `-i` but
    no `-e` (`InlineRun`). Under `-e` a backup written during the run can
    change what later arguments find, so there the plan can differ from
    the run.
- `Scenarios` (examples.dfy): the binary's test cases and two further
  scenarios worked through the model.

Four facts about the code shape the model:

- **Missing variable** (src/lib.rs:118): a variable that is not set is
  replaced by nothing, and the run goes on. The replacer extends the output
  with the `Result` of `env::var`, and an `Err` adds nothing.
- **Directory without `-r`** (src/main.rs:72-85): the error comes only when
  the loop reaches that path. The paths before it have already been printed
  or rewritten.
- **Backup path** (src/main.rs:62): it is `Path::with_extension(ext)`, which
  replaces an existing extension rather than appending one. It is a
  parameter of the model, `Config.withExtension`.
- **Match scope** (src/lib.rs:104): a match never crosses a line feed.
  Several placeholders on one line are one match, from the first `{{` to the
  last `}}`.

## Model

| member | source | states |
|---|---|---|
| Pattern.LastCloseSpec | src/lib.rs:104 | the closing `}}` chosen for an opening is on the same line, and no `}}` of that line lies beyond it (greedy `.*` without line feeds) |
| Pattern.FindMatchSpec | src/lib.rs:104-108 | the scanner reports the leftmost `{{` that has a `}}` later on its line, closed at that line's last `}}`; it reports nothing exactly when no match starts at or after the search position |
| Pattern.FirstMatchUnique | src/lib.rs:104-108 | the leftmost-first greedy match from a position is unique |
| Pattern.NextMatchOnLaterLine | src/lib.rs:104-108 | a line feed always separates the end of one match from the start of the next, so one line yields at most one match |
| Pattern.FindMatchShift | src/lib.rs:108 | matching depends only on the text searched: a suffix has the matches of the whole text, shifted |
| Pattern.FindMatchFirstLine | src/lib.rs:104 | a search from the first line reports that line's own match if it has one, and otherwise the first match of the following lines |
| Eve.ReplaceIsSubstitute | src/lib.rs:108-119 | `replace_all` with the environment replacer equals cutting the text at its matches and filling every capture with its value |
| Eve.RenderTokenizeAll | src/lib.rs:104-108 | the pieces spell the original text: everything outside a match is kept in order, and each match is `{{`, its capture and `}}` |
| Eve.NoMatchIdentity | src/lib.rs:108 | a text is a single literal piece exactly when it holds no match, and then replacing returns it unchanged |
| Eve.SubstituteFrame | src/lib.rs:113-119 | replacing reads the environment only at captured names: environments that agree there give the same output |
| Eve.MissingIsEmpty | src/lib.rs:118 | an unset variable behaves exactly like one set to the empty string: its placeholder disappears and replacement succeeds |
| Eve.ReplaceQuoting | src/lib.rs:108-118 | when every captured name's value is its own placeholder, replacing returns the text unchanged |
| Eve.TokenizeAlternates | src/lib.rs:104-108 | literal pieces and holes alternate, starting and ending with a literal |
| Eve.HoleNamesOnOneLine | src/lib.rs:104 | no capture contains a line feed |
| Eve.HolesOnSeparateLines | src/lib.rs:104-108 | every literal piece between two holes contains a line feed |
| Eve.OneHolePerLine | src/lib.rs:104-108 | a text without line feeds is cut into at most three pieces, so at most one placeholder is replaced |
| Eve.WholeLine | src/lib.rs:104 | a line that starts with `{{` and ends with `}}` is one match whose capture is everything in between |
| Eve.ReplaceWholeLine | src/lib.rs:104-118 | such a line is replaced by the value of that whole capture |
| Eve.GreedyCapture | src/lib.rs:104 | `{{A}} x {{B}}` is one placeholder named `A}} x {{B` |
| Eve.NoTrimming | src/lib.rs:114-118 | the capture is looked up verbatim, blanks included |
| Eve.NoRescan | src/lib.rs:108-118 | a value is inserted as it is; placeholders inside it are not replaced in turn |
| Eve.OnlyMatch | src/lib.rs:104-118 | a text with exactly one match is the text before it, the value of its capture, and the text after it |
| Eve.SinglePlaceholder | src/lib.rs:104-118 | `a{{k}}b`, when `{{k}}` is its only match, becomes `a`, the value of `k`, then `b` |
| Eve.SinglePlaceholderNoBraces | src/lib.rs:104-118 | without other braces in `a`, `k` and `b`, `a{{k}}b` becomes `a` + value of `k` + `b` |
| Eve.ReplaceAtFirstMatch | src/lib.rs:108-118 | one step of `replace_all` at the leftmost-first greedy match of the declarative description: the text before the match, then the capture's value, then the replacement of the rest from the match's end |
| Eve.ReplaceShift | src/lib.rs:108 | replacing from a position of a text equals replacing the corresponding suffix on its own |
| Eve.ReplaceSkip | src/lib.rs:108 | text that no match starts in is copied unchanged |
| Eve.Locality | src/lib.rs:104-108 | lines are replaced independently: `replace(l1 + "\n" + l2)` is `replace(l1) + "\n" + replace(l2)` |
| Cli.Read | src/main.rs:57 | reading succeeds exactly on a regular file and yields its text |
| Cli.Write | src/main.rs:65 | writing fails exactly on a directory and then changes nothing; otherwise the path holds the data, and every other path and stdout are unchanged |
| Cli.Print | src/main.rs:67 | printing appends the text and one line feed to stdout and leaves the files alone |
| Cli.ReplaceFile | src/main.rs:55-70 | the `replace!` macro: a path that is not a readable file fails with no effect. Without `-i` it prints the replacement and touches no file. With `-i` it writes the replacement of the text read before any write, and prints nothing; the file ends up holding that replacement even when the backup path is the file itself. With `-e` it first writes the original to the backup path; a backup path that is a directory fails before the file is touched; on success the backup holds the original, the file its replacement, and every other path is unchanged |
| Cli.ReplaceFiles | src/main.rs:80-82 | over the walked files, without `-i` no file changes, and with `-i` nothing is printed |
| Cli.ReplaceFilesAppend | src/main.rs:80-82 | the walked files are processed in turn: processing `a + b` is processing `a`, then `b` only if `a` succeeded, so a failing file (a backup path that is a directory, say) ends the inner loop and the files after it are not touched |
| Cli.Walked | src/main.rs:75-78 | the walk keeps exactly the entries that are regular files, never more of them, and without duplicates when the walk has none |
| Cli.WalkedAppend | src/main.rs:75-81 | the filter goes entry by entry in walk order: a single entry is kept exactly when it is a regular file, and a walk split in two gives the kept entries of the first part followed by those of the second |
| Cli.ReplacePath | src/main.rs:73-88 | a missing path fails at `metadata`; a directory without `-r` fails with no effect; the `-i` frame conditions hold |
| Cli.Run | src/main.rs:72-90 | the loop over the path arguments: without `-i` the file system is unchanged, with `-i` stdout is unchanged |
| Cli.FileEvolves | src/main.rs:55-70 | `replace!` removes no path, never changes a directory into a file or back, and creates only files |
| Cli.FilesEvolve | src/main.rs:80-82 | the same for a walked directory's files |
| Cli.RunEvolves | src/main.rs:72-90 | the same for a whole run, failed or not |
| Cli.ResolvePath | src/main.rs:73-88 | the files one argument leads to are regular files, and none when the argument fails |
| Cli.Resolve | src/main.rs:72-90 | the files of a run are regular files; a run without error has no failing argument |
| Cli.WalkedSameShape | src/main.rs:75-78 | which walked entries are processed depends only on which paths exist and which are directories |
| Cli.ResolveSameShape | src/main.rs:72-88 | the plan of a run depends only on which paths exist and which are directories, not on what files hold |
| Cli.PrintFiles | src/main.rs:67-82 | without `-i`, a list of files appends each file's replacement and a line feed to stdout |
| Cli.PrintPath | src/main.rs:73-88 | without `-i`, one argument prints the replacements of the files of its plan and ends with the plan's error |
| Cli.PrintRun | src/main.rs:72-90 | without `-i`, a run leaves the files alone, prints each planned file's replacement followed by a line feed, and ends with the plan's error |
| Cli.InlineFiles | src/main.rs:65-82 | with `-i` and no backup, distinct files are each rewritten with their replacement, and nothing else changes |
| Cli.InlinePath | src/main.rs:73-88 | with `-i` and no backup, one argument rewrites the files of its plan and ends with the plan's error |
| Cli.InlineRun | src/main.rs:72-90 | with `-i` and no backup, a run whose plan names each file once rewrites exactly those files, prints nothing, and ends with the plan's error |
| Cli.RunAppend | src/main.rs:72-89 | running `a + b` is running `a`, then `b` only if `a` succeeded: a failed read, write or `metadata` ends the loop, and later paths are not processed |
| Cli.DirectoryStopsRun | src/main.rs:84-85 | a directory without `-r` ends the run at that argument: the arguments before it have taken effect, and the ones after it are never looked at |
| Scenarios.SingleFile | src/main.rs:105-123 | with `HELLO=Hello` set, a file holding `{{HELLO}} World!` and a line feed prints `Hello World!` and two line feeds |
| Scenarios.BackupInlineFile | src/main.rs:125-153 | with `HELLO=Hello` set, `-i -e backup` leaves `Hello World!` in the file and the original text in the backup, and prints nothing |
| Scenarios.TwoFiles | src/main.rs:155-176 | with `HELLO=Hello` set, two files are printed in argument order, each followed by a line feed |
| Scenarios.SingleInlineFile | src/main.rs:178-199 | with `HELLO=Hello` set, `-i` rewrites the file to `Hello World!` and prints nothing |
| Scenarios.Directory | src/main.rs:201-238 | with `HELLO=Hello` and `WORLD=World!` set, `-ir` on a directory rewrites both files in it to `Hello World!`, leaves the directory entry alone, and prints nothing |
| Scenarios.DirectoryWithoutFlag | src/main.rs:84-85 | a file before a directory given without `-r` is printed, and the run then fails at the directory |
| Scenarios.MissingVariable | src/lib.rs:118 | `x={{NOPE}};` with `NOPE` unset becomes `x=;` |

## Left out

- Loading the environment file (`Eve::new`, `Eve::from_path`, dotenv). The
  environment is the parameter `env`, a map from names to values. An
  `env::var` failure, whether the variable is unset or not Unicode, is an
  absent key.
- Argument parsing with clap, and the standard-input branch for zero paths
  (src/main.rs:43-53). `values_of("input").unwrap()` panics when no path is
  given, so that branch cannot run.
- The compile error of `Regex::new`. The pattern is a constant that
  compiles, so `Replace` returns a plain string.
- `Path::with_extension` and `WalkDir`. They are the `Config` parameters
  `withExtension` and `walk`. Walk errors and symbolic links are not
  modelled; the walk's entries are kept when they are regular files of the
  file system as it is when the directory argument is reached.
- The laziness of `WalkDir`. The real walk reads the directory while the
  loop is writing into it, so a file the loop creates there may be yielded
  and processed too. For example, under `-ir -i -e bak` a fresh `dir/a.bak`
  could be visited and its backup overwritten with its own replacement. The
  model's `walk` is a fixed list, filtered once when the directory argument
  is reached, so it never visits such files.
- I/O failures other than the ones named: missing parent directories,
  permissions, non-UTF-8 file contents, and a failing `println!`. Reading
  fails only on a missing path or a directory, and writing fails only on a
  directory.
- Byte-level text: strings are sequences of characters.
- Path aliasing. Paths are canonical: each file has one spelling. Aliasing
  through `./`, `..`, or hard or symbolic links is not modelled, and
  `Distinct` compares spellings. The file system is a map keyed by spelling,
  so the "every other path is unchanged" clauses of `Cli.Write`,
  `Cli.ReplaceFile`, `Cli.InlineFiles` and `Cli.InlineRun` hold for files
  with one spelling. `eve -i a ./a` rewrites `a` twice, but the model treats
  its two arguments as two files.
- Cli.Resolve: under `-e`, a backup written during the run can create a
  path that a later argument names or that a walk lists. The plan, read
  before the run, can then report a failed `metadata` that the run does not
  meet, so the plan matches the run only without `-e`.
- Cli.InlineRun: covers only `-i` without `-e`, and only when the plan names
  every file once. With a backup, or when a file is reached twice, the
  outcome is still determined by `Run` and `ReplaceFile`, but it has no
  closed-form statement.
- Scenarios.SingleFile, Scenarios.TwoFiles: the test suite compares standard
  output after trimming trailing white space, so its expected strings lack
  the final line feed that `println!` writes. The scenarios state the
  untrimmed output.
- Scenarios.BackupInlineFile: the backup path is `AddExtension`, the
  extension appended after a dot. That is what `Path::with_extension` gives
  for the test's extension-less temporary name. For a name that already has
  an extension, the real call would replace it instead.
- Scenarios.Directory: the directory test asserts that the expected and
  actual directories differ, which holds anyway because their file names
  differ. The scenario states the intended outcome instead: both files are
  rewritten.
