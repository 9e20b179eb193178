/**
  The `eve` binary's per-path loop and its `replace!` macro, over an
  in-memory file system and an accumulated standard output.

  Each path argument is processed in order. A file is read, replaced, and
  either printed with a trailing line feed or written back in place, the
  optional backup being written first. A directory is walked when `-r` is
  given and is an error otherwise. The first failure ends the run; what was
  done before it stays done.
*/
module Cli {
  import opened Common
  import opened Eve

  type Path = string

  /** An entry of the file system: a regular file and its text, or a
      directory. */
  datatype Node = File(content: string) | Dir

  type FileSystem = map<Path, Node>

  /** The command-line options the loop reads, and the two calls into the
      standard library and `walkdir` whose behaviour is not modelled:
      `Path::with_extension` and the entries `WalkDir` yields for a
      directory. */
  datatype Config = Config(
    inline: bool,                            // -i
    extension: Option<string>,               // -e <ext>
    recursive: bool,                         // -r
    withExtension: (Path, string) -> Path,
    walk: Path -> seq<Path>)

  datatype Error =
    | MetadataFailed(path: Path)             // fs::metadata: no such path
    | ReadFailed(path: Path)                 // fs::read_to_string
    | WriteFailed(path: Path)                // fs::write
    | DirectoryWithoutRecursive(path: Path)

  datatype State = State(fs: FileSystem, stdout: string)

  /** Where a run got to, and the error that ended it, if any. */
  datatype Step = Step(state: State, error: Option<Error>)

  predicate IsFile(fs: FileSystem, p: Path) {
    p in fs && fs[p].File?
  }

  predicate IsDir(fs: FileSystem, p: Path) {
    p in fs && fs[p].Dir?
  }

  /** `fs'` is `fs` after writes to files: no path disappears, directories
      stay directories, files stay files, and new paths are files. */
  predicate Evolves(fs: FileSystem, fs': FileSystem) {
    && fs.Keys <= fs'.Keys
    && (forall q :: q in fs ==> (fs[q].Dir? <==> fs'[q].Dir?))
    && (forall q :: q in fs' && q !in fs ==> fs'[q].File?)
  }

  lemma EvolvesTransitive(a: FileSystem, b: FileSystem, c: FileSystem)
    requires Evolves(a, b) && Evolves(b, c)
    ensures Evolves(a, c)
  {
  }

  /** `fs::read_to_string`: the text of a regular file; a missing path or a
      directory cannot be read. */
  function Read(fs: FileSystem, p: Path): (r: Option<string>)
    ensures r.Some? <==> IsFile(fs, p)
    ensures r.Some? ==> fs[p] == File(r.value)
  {
    if IsFile(fs, p) then Some(fs[p].content) else None
  }

  /** `fs::write`: creates the file or replaces its text; writing to a
      directory fails and changes nothing. */
  function Write(st: State, p: Path, data: string): (r: Step)
    ensures r.error.None? <==> !IsDir(st.fs, p)
    ensures r.error.Some? ==> r == Step(st, Some(WriteFailed(p)))
    ensures r.error.None? ==>
      && r.state.stdout == st.stdout
      && r.state.fs.Keys == st.fs.Keys + {p}
      && Read(r.state.fs, p) == Some(data)
      && (forall q :: q in st.fs && q != p ==> r.state.fs[q] == st.fs[q])
  {
    if IsDir(st.fs, p) then Step(st, Some(WriteFailed(p)))
    else Step(State(st.fs[p := File(data)], st.stdout), None)
  }

  /** `println!`: the text and one line feed. */
  function Print(st: State, text: string): (r: State)
    ensures r.fs == st.fs
    ensures |r.stdout| == |st.stdout| + |text| + 1
    ensures r.stdout[..|st.stdout|] == st.stdout && r.stdout[|st.stdout|..] == text + "\n"
  {
    State(st.fs, st.stdout + text + "\n")
  }

  /** The `replace!` macro on one file. The replacement is computed once,
      from the text read before any write; in place, the backup is written
      before the file. */
  function ReplaceFile(st: State, cfg: Config, env: Env, p: Path): (r: Step)
    ensures !IsFile(st.fs, p) ==> r == Step(st, Some(ReadFailed(p)))
    ensures !cfg.inline ==> r.state.fs == st.fs
    ensures !cfg.inline && IsFile(st.fs, p) ==>
      r == Step(Print(st, Replace(st.fs[p].content, env)), None)
    ensures cfg.inline ==> r.state.stdout == st.stdout
    ensures cfg.inline && r.error.None? ==> Read(r.state.fs, p) == Some(Replace(st.fs[p].content, env))
    ensures cfg.inline && cfg.extension.None? && IsFile(st.fs, p) ==>
      r == Step(State(st.fs[p := File(Replace(st.fs[p].content, env))], st.stdout), None)
    ensures cfg.inline && cfg.extension.Some? && IsFile(st.fs, p) ==>
      var backup := cfg.withExtension(p, cfg.extension.value);
      && (r.error.None? <==> !IsDir(st.fs, backup))
      && (r.error.Some? ==> r == Step(st, Some(WriteFailed(backup))))
      && (r.error.None? && backup != p ==> Read(r.state.fs, backup) == Some(st.fs[p].content))
      && (r.error.None? ==> r.state.fs.Keys == st.fs.Keys + {backup})
      && (r.error.None? ==> r == Step(State(st.fs[backup := File(st.fs[p].content)][p := File(Replace(st.fs[p].content, env))], st.stdout), None))
  {
    match Read(st.fs, p)
    case None => Step(st, Some(ReadFailed(p)))
    case Some(original) =>
      var replaced := Replace(original, env);
      if !cfg.inline then Step(Print(st, replaced), None)
      else if cfg.extension.None? then Write(st, p, replaced)
      else
        var backup := Write(st, cfg.withExtension(p, cfg.extension.value), original);
        if backup.error.Some? then backup
        else Write(backup.state, p, replaced)
  }

  /** The inner loop over a walked directory: `replace!` on each file in
      turn, stopping at the first error. */
  function ReplaceFiles(st: State, cfg: Config, env: Env, files: seq<Path>): (r: Step)
    ensures !cfg.inline ==> r.state.fs == st.fs
    ensures cfg.inline ==> r.state.stdout == st.stdout
    decreases |files|
  {
    if |files| == 0 then Step(st, None)
    else
      var first := ReplaceFile(st, cfg, env, files[0]);
      if first.error.Some? then first
      else ReplaceFiles(first.state, cfg, env, files[1..])
  }

  /** The entries of a walk that are regular files, in walk order. */
  function Walked(fs: FileSystem, entries: seq<Path>): (r: seq<Path>)
    ensures forall x :: x in r <==> x in entries && IsFile(fs, x)
    ensures |r| <= |entries|
    ensures Distinct(entries) ==> Distinct(r)
  {
    if |entries| == 0 then []
    else if IsFile(fs, entries[0]) then [entries[0]] + Walked(fs, entries[1..])
    else Walked(fs, entries[1..])
  }

  /** The walk is filtered entry by entry, in walk order: one entry is kept
      exactly when it is a regular file, and the result for a walk split in
      two is the results for the two parts, one after the other. */
  lemma {:induction false} WalkedAppend(fs: FileSystem, a: seq<Path>, b: seq<Path>)
    ensures Walked(fs, a + b) == Walked(fs, a) + Walked(fs, b)
    ensures |a| == 1 ==> Walked(fs, a) == if IsFile(fs, a[0]) then a else []
    decreases |a|
  {
    if |a| == 0 {
      assert a + b == b;
    } else {
      assert (a + b)[0] == a[0] && (a + b)[1..] == a[1..] + b;
      WalkedAppend(fs, a[1..], b);
      if |a| == 1 {
        assert a[1..] == [];
      }
    }
  }

  /** One path argument: `fs::metadata` must find it; a directory is walked
      with `-r` and refused without; a file goes through `replace!`. */
  function ReplacePath(st: State, cfg: Config, env: Env, p: Path): (r: Step)
    ensures p !in st.fs ==> r == Step(st, Some(MetadataFailed(p)))
    ensures IsDir(st.fs, p) && !cfg.recursive ==> r == Step(st, Some(DirectoryWithoutRecursive(p)))
    ensures !cfg.inline ==> r.state.fs == st.fs
    ensures cfg.inline ==> r.state.stdout == st.stdout
  {
    if p !in st.fs then Step(st, Some(MetadataFailed(p)))
    else if st.fs[p].Dir? then
      if cfg.recursive then ReplaceFiles(st, cfg, env, Walked(st.fs, cfg.walk(p)))
      else Step(st, Some(DirectoryWithoutRecursive(p)))
    else ReplaceFile(st, cfg, env, p)
  }

  /** The loop over the path arguments, in order, stopping at the first
      error. */
  function Run(st: State, cfg: Config, env: Env, paths: seq<Path>): (r: Step)
    ensures !cfg.inline ==> r.state.fs == st.fs
    ensures cfg.inline ==> r.state.stdout == st.stdout
    decreases |paths|
  {
    if |paths| == 0 then Step(st, None)
    else
      var first := ReplacePath(st, cfg, env, paths[0]);
      if first.error.Some? then first
      else Run(first.state, cfg, env, paths[1..])
  }

  lemma WriteEvolves(st: State, p: Path, data: string)
    ensures Evolves(st.fs, Write(st, p, data).state.fs)
  {
  }

  /** `replace!` never removes a path, never turns a directory into a file or
      back, and creates nothing but files. */
  lemma FileEvolves(st: State, cfg: Config, env: Env, p: Path)
    ensures Evolves(st.fs, ReplaceFile(st, cfg, env, p).state.fs)
  {
    if IsFile(st.fs, p) && cfg.inline {
      var replaced := Replace(st.fs[p].content, env);
      if cfg.extension.None? {
        WriteEvolves(st, p, replaced);
      } else {
        var backup := Write(st, cfg.withExtension(p, cfg.extension.value), st.fs[p].content);
        WriteEvolves(st, cfg.withExtension(p, cfg.extension.value), st.fs[p].content);
        if backup.error.None? {
          WriteEvolves(backup.state, p, replaced);
          EvolvesTransitive(st.fs, backup.state.fs, Write(backup.state, p, replaced).state.fs);
        }
      }
    }
  }

  lemma {:induction false} FilesEvolve(st: State, cfg: Config, env: Env, files: seq<Path>)
    ensures Evolves(st.fs, ReplaceFiles(st, cfg, env, files).state.fs)
    decreases |files|
  {
    if |files| > 0 {
      var first := ReplaceFile(st, cfg, env, files[0]);
      FileEvolves(st, cfg, env, files[0]);
      if first.error.None? {
        FilesEvolve(first.state, cfg, env, files[1..]);
        EvolvesTransitive(st.fs, first.state.fs, ReplaceFiles(first.state, cfg, env, files[1..]).state.fs);
      }
    }
  }

  /** A whole run, successful or not, only writes files: every path it
      started with is still there and every directory is still a
      directory. */
  lemma {:induction false} RunEvolves(st: State, cfg: Config, env: Env, paths: seq<Path>)
    ensures Evolves(st.fs, Run(st, cfg, env, paths).state.fs)
    decreases |paths|
  {
    if |paths| > 0 {
      var p := paths[0];
      var first := ReplacePath(st, cfg, env, p);
      if p in st.fs && st.fs[p].Dir? && cfg.recursive {
        FilesEvolve(st, cfg, env, Walked(st.fs, cfg.walk(p)));
      } else if p in st.fs && st.fs[p].File? {
        FileEvolves(st, cfg, env, p);
      }
      if first.error.None? {
        RunEvolves(first.state, cfg, env, paths[1..]);
        EvolvesTransitive(st.fs, first.state.fs, Run(first.state, cfg, env, paths[1..]).state.fs);
      }
    }
  }

  /** What a run does, read off the file system before it starts: the files
      `replace!` is applied to, in order, and the error that ends the run, if
      any. */
  datatype Plan = Plan(files: seq<Path>, error: Option<Error>)

  function ResolvePath(fs: FileSystem, cfg: Config, p: Path): (r: Plan)
    ensures forall f :: f in r.files ==> IsFile(fs, f)
    ensures r.error.Some? ==> r.files == []
  {
    if p !in fs then Plan([], Some(MetadataFailed(p)))
    else if fs[p].Dir? then
      if cfg.recursive then Plan(Walked(fs, cfg.walk(p)), None)
      else Plan([], Some(DirectoryWithoutRecursive(p)))
    else Plan([p], None)
  }

  /** The plan of a whole run: the plans of the path arguments up to and
      including the first one that fails. */
  function Resolve(fs: FileSystem, cfg: Config, paths: seq<Path>): (r: Plan)
    ensures forall f :: f in r.files ==> IsFile(fs, f)
    ensures r.error.None? ==> forall i :: 0 <= i < |paths| ==> ResolvePath(fs, cfg, paths[i]).error.None?
    decreases |paths|
  {
    if |paths| == 0 then Plan([], None)
    else
      var first := ResolvePath(fs, cfg, paths[0]);
      if first.error.Some? then first
      else
        var rest := Resolve(fs, cfg, paths[1..]);
        Plan(first.files + rest.files, rest.error)
  }

  /** Standard output after printing the replacement of each file. */
  function Printed(fs: FileSystem, files: seq<Path>, env: Env): string
    requires forall f :: f in files ==> IsFile(fs, f)
    decreases |files|
  {
    if |files| == 0 then ""
    else
      assert files[0] in files && IsFile(fs, files[0]);
      Replace(fs[files[0]].content, env) + "\n" + Printed(fs, files[1..], env)
  }

  lemma {:induction false} PrintedAppend(fs: FileSystem, a: seq<Path>, b: seq<Path>, env: Env)
    requires forall f :: f in a + b ==> IsFile(fs, f)
    ensures Printed(fs, a + b, env) == Printed(fs, a, env) + Printed(fs, b, env)
    decreases |a|
  {
    if |a| == 0 {
      assert a + b == b;
    } else {
      assert (a + b)[1..] == a[1..] + b;
      PrintedAppend(fs, a[1..], b, env);
    }
  }

  /** Every file of `files` rewritten with its replacement; everything else
      as it was. */
  function Rewritten(fs: FileSystem, files: seq<Path>, env: Env): (r: FileSystem)
    ensures SameShape(fs, r)
  {
    map q | q in fs :: if q in files && fs[q].File? then File(Replace(fs[q].content, env)) else fs[q]
  }

  /** `fs` and `fs'` hold the same paths, and the same ones are directories. */
  predicate SameShape(fs: FileSystem, fs': FileSystem) {
    fs.Keys == fs'.Keys && forall q :: q in fs ==> (fs[q].Dir? <==> fs'[q].Dir?)
  }

  lemma {:induction false} WalkedSameShape(fs: FileSystem, fs': FileSystem, entries: seq<Path>)
    requires SameShape(fs, fs')
    ensures Walked(fs', entries) == Walked(fs, entries)
    decreases |entries|
  {
    if |entries| > 0 {
      WalkedSameShape(fs, fs', entries[1..]);
    }
  }

  /** The plan depends only on which paths exist and which are directories,
      not on what the files hold. */
  lemma {:induction false} ResolveSameShape(fs: FileSystem, fs': FileSystem, cfg: Config, paths: seq<Path>)
    requires SameShape(fs, fs')
    ensures Resolve(fs', cfg, paths) == Resolve(fs, cfg, paths)
    decreases |paths|
  {
    if |paths| > 0 {
      if paths[0] in fs && fs[paths[0]].Dir? && cfg.recursive {
        WalkedSameShape(fs, fs', cfg.walk(paths[0]));
      }
      ResolveSameShape(fs, fs', cfg, paths[1..]);
    }
  }

  /** Printing the replacements of files, one after another. */
  lemma {:induction false} PrintFiles(fs: FileSystem, out: string, cfg: Config, env: Env, files: seq<Path>)
    requires !cfg.inline
    requires forall f :: f in files ==> IsFile(fs, f)
    ensures ReplaceFiles(State(fs, out), cfg, env, files) == Step(State(fs, out + Printed(fs, files, env)), None)
    decreases |files|
  {
    if |files| > 0 {
      assert files[0] in files && IsFile(fs, files[0]);
      var printed := Replace(fs[files[0]].content, env) + "\n";
      var later := Printed(fs, files[1..], env);
      assert ReplaceFile(State(fs, out), cfg, env, files[0]) == Step(State(fs, out + printed), None);
      assert ReplaceFiles(State(fs, out + printed), cfg, env, files[1..]) == Step(State(fs, out + printed + later), None) by {
        PrintFiles(fs, out + printed, cfg, env, files[1..]);
      }
      assert Printed(fs, files, env) == printed + later;
      ConcatAssoc(out, printed, later);
    }
  }

  lemma PrintPath(fs: FileSystem, out: string, cfg: Config, env: Env, p: Path)
    requires !cfg.inline
    ensures var plan := ResolvePath(fs, cfg, p);
      ReplacePath(State(fs, out), cfg, env, p) == Step(State(fs, out + Printed(fs, plan.files, env)), plan.error)
  {
    if p in fs && fs[p].Dir? && cfg.recursive {
      PrintFiles(fs, out, cfg, env, Walked(fs, cfg.walk(p)));
    } else if p in fs && fs[p].File? {
      assert Printed(fs, [p], env) == Replace(fs[p].content, env) + "\n" + Printed(fs, [], env);
    } else {
      assert out + Printed(fs, [], env) == out;
    }
  }

  /** Without `-i` the file system is left alone, and standard output gets,
      in order, the replacement of every file the plan names, each followed
      by a line feed; the run ends with the plan's error. */
  lemma {:induction false} PrintRun(fs: FileSystem, out: string, cfg: Config, env: Env, paths: seq<Path>)
    requires !cfg.inline
    ensures var plan := Resolve(fs, cfg, paths);
      Run(State(fs, out), cfg, env, paths) == Step(State(fs, out + Printed(fs, plan.files, env)), plan.error)
    decreases |paths|, 1
  {
    if |paths| == 0 {
      assert out + Printed(fs, [], env) == out;
    } else if ResolvePath(fs, cfg, paths[0]).error.Some? {
      PrintPath(fs, out, cfg, env, paths[0]);
    } else {
      PrintRunStep(fs, out, cfg, env, paths);
    }
  }

  lemma {:induction false} PrintRunStep(fs: FileSystem, out: string, cfg: Config, env: Env, paths: seq<Path>)
    requires !cfg.inline && |paths| > 0 && ResolvePath(fs, cfg, paths[0]).error.None?
    ensures var plan := Resolve(fs, cfg, paths);
      Run(State(fs, out), cfg, env, paths) == Step(State(fs, out + Printed(fs, plan.files, env)), plan.error)
    decreases |paths|, 0
  {
    var first := ResolvePath(fs, cfg, paths[0]);
    var rest := Resolve(fs, cfg, paths[1..]);
    var now, later := Printed(fs, first.files, env), Printed(fs, rest.files, env);
    var st := State(fs, out + now);
    assert ReplacePath(State(fs, out), cfg, env, paths[0]) == Step(st, None) by {
      PrintPath(fs, out, cfg, env, paths[0]);
    }
    assert Run(State(fs, out), cfg, env, paths) == Run(st, cfg, env, paths[1..]);
    assert Run(st, cfg, env, paths[1..]) == Step(State(fs, out + now + later), rest.error) by {
      PrintRun(fs, out + now, cfg, env, paths[1..]);
    }
    assert Resolve(fs, cfg, paths) == Plan(first.files + rest.files, rest.error);
    assert Printed(fs, first.files + rest.files, env) == now + later by {
      PrintedAppend(fs, first.files, rest.files, env);
    }
    ConcatAssoc(out, now, later);
  }

  lemma RewrittenNone(fs: FileSystem, env: Env)
    ensures Rewritten(fs, [], env) == fs
  {
  }

  /** Rewriting one file, then a list it is not part of. */
  lemma RewrittenStep(fs: FileSystem, f: Path, rest: seq<Path>, env: Env)
    requires IsFile(fs, f) && f !in rest
    ensures Rewritten(fs[f := File(Replace(fs[f].content, env))], rest, env) == Rewritten(fs, [f] + rest, env)
  {
  }

  /** Rewriting two disjoint lists one after the other. */
  lemma RewrittenCompose(fs: FileSystem, a: seq<Path>, b: seq<Path>, env: Env)
    requires forall f :: f in a ==> f !in b
    ensures Rewritten(Rewritten(fs, a, env), b, env) == Rewritten(fs, a + b, env)
  {
  }

  lemma DistinctSplit<T>(a: seq<T>, b: seq<T>)
    requires Distinct(a + b)
    ensures Distinct(a) && Distinct(b)
    ensures forall x :: x in a ==> x !in b
  {
    forall i, j | 0 <= i < |a| && 0 <= j < |b|
      ensures a[i] != b[j]
    {
      assert (a + b)[i] == a[i] && (a + b)[|a| + j] == b[j];
    }
    forall x | x in a
      ensures x !in b
    {
      var i :| 0 <= i < |a| && a[i] == x;
      assert forall j :: 0 <= j < |b| ==> b[j] != a[i];
    }
    forall i, j | 0 <= i < j < |a|
      ensures a[i] != a[j]
    {
      assert (a + b)[i] == a[i] && (a + b)[j] == a[j];
    }
    forall i, j | 0 <= i < j < |b|
      ensures b[i] != b[j]
    {
      assert (a + b)[|a| + i] == b[i] && (a + b)[|a| + j] == b[j];
    }
  }

  /** In place without backups, files listed once are rewritten in turn. */
  lemma {:induction false} InlineFiles(st: State, cfg: Config, env: Env, files: seq<Path>)
    requires cfg.inline && cfg.extension.None?
    requires Distinct(files)
    requires forall f :: f in files ==> IsFile(st.fs, f)
    ensures ReplaceFiles(st, cfg, env, files) == Step(State(Rewritten(st.fs, files, env), st.stdout), None)
    decreases |files|
  {
    if |files| == 0 {
      RewrittenNone(st.fs, env);
    } else {
      var f := files[0];
      assert f in files && IsFile(st.fs, f);
      var fs1 := st.fs[f := File(Replace(st.fs[f].content, env))];
      assert ReplaceFile(st, cfg, env, f) == Step(State(fs1, st.stdout), None);
      DistinctSplit([f], files[1..]);
      assert [f] + files[1..] == files;
      forall g | g in files[1..]
        ensures IsFile(fs1, g)
      {
        assert g in files;
      }
      InlineFiles(State(fs1, st.stdout), cfg, env, files[1..]);
      RewrittenStep(st.fs, f, files[1..], env);
    }
  }

  lemma InlinePath(fs: FileSystem, out: string, cfg: Config, env: Env, p: Path)
    requires cfg.inline && cfg.extension.None?
    requires Distinct(ResolvePath(fs, cfg, p).files)
    ensures var plan := ResolvePath(fs, cfg, p);
      ReplacePath(State(fs, out), cfg, env, p) == Step(State(Rewritten(fs, plan.files, env), out), plan.error)
  {
    var plan := ResolvePath(fs, cfg, p);
    if plan.files == [] {
      RewrittenNone(fs, env);
    }
    if p in fs && fs[p].Dir? && cfg.recursive {
      InlineFiles(State(fs, out), cfg, env, plan.files);
    } else if p in fs && fs[p].File? {
      assert fs[p := File(Replace(fs[p].content, env))] == Rewritten(fs, [p], env);
    }
  }

  /** In place without backups, when the plan names every file once: standard
      output is untouched, exactly the planned files are rewritten with their
      replacements, and the run ends with the plan's error. */
  lemma {:induction false} InlineRun(fs: FileSystem, out: string, cfg: Config, env: Env, paths: seq<Path>)
    requires cfg.inline && cfg.extension.None?
    requires Distinct(Resolve(fs, cfg, paths).files)
    ensures var plan := Resolve(fs, cfg, paths);
      Run(State(fs, out), cfg, env, paths) == Step(State(Rewritten(fs, plan.files, env), out), plan.error)
    decreases |paths|
  {
    if |paths| == 0 {
      RewrittenNone(fs, env);
    } else {
      var first := ResolvePath(fs, cfg, paths[0]);
      if first.error.Some? {
        InlinePath(fs, out, cfg, env, paths[0]);
      } else {
        var rest := Resolve(fs, cfg, paths[1..]);
        DistinctSplit(first.files, rest.files);
        InlinePath(fs, out, cfg, env, paths[0]);
        var fs1 := Rewritten(fs, first.files, env);
        ResolveSameShape(fs, fs1, cfg, paths[1..]);
        InlineRun(fs1, out, cfg, env, paths[1..]);
        RewrittenCompose(fs, first.files, rest.files, env);
      }
    }
  }

  /** Running a list of paths is running its first part, then, only if that
      succeeded, its second part from where the first left off. */
  lemma {:induction false} RunAppend(st: State, cfg: Config, env: Env, a: seq<Path>, b: seq<Path>)
    ensures Run(st, cfg, env, a + b) ==
      var r := Run(st, cfg, env, a);
      if r.error.Some? then r else Run(r.state, cfg, env, b)
    decreases |a|
  {
    if |a| == 0 {
      assert a + b == b;
    } else {
      assert (a + b)[0] == a[0] && (a + b)[1..] == a[1..] + b;
      var first := ReplacePath(st, cfg, env, a[0]);
      if first.error.None? {
        RunAppend(first.state, cfg, env, a[1..], b);
      }
    }
  }

  /** The same for the files of a walked directory: a failing file, such as
      one whose backup path is a directory, ends the inner loop, and the
      files after it are not touched. */
  lemma {:induction false} ReplaceFilesAppend(st: State, cfg: Config, env: Env, a: seq<Path>, b: seq<Path>)
    ensures ReplaceFiles(st, cfg, env, a + b) ==
      var r := ReplaceFiles(st, cfg, env, a);
      if r.error.Some? then r else ReplaceFiles(r.state, cfg, env, b)
    decreases |a|
  {
    if |a| == 0 {
      assert a + b == b;
    } else {
      assert (a + b)[0] == a[0] && (a + b)[1..] == a[1..] + b;
      var first := ReplaceFile(st, cfg, env, a[0]);
      if first.error.None? {
        ReplaceFilesAppend(first.state, cfg, env, a[1..], b);
      }
    }
  }

  /** A directory given without `-r` ends the run right there: the paths
      before it have been processed, the ones after it are not looked at. */
  lemma DirectoryStopsRun(st: State, cfg: Config, env: Env, a: seq<Path>, d: Path, b: seq<Path>)
    requires !cfg.recursive && IsDir(st.fs, d)
    ensures Run(st, cfg, env, a + [d] + b) ==
      var r := Run(st, cfg, env, a);
      if r.error.Some? then r else Step(r.state, Some(DirectoryWithoutRecursive(d)))
  {
    RunAppend(st, cfg, env, a, [d] + b);
    assert a + [d] + b == a + ([d] + b);
    var r := Run(st, cfg, env, a);
    RunEvolves(st, cfg, env, a);
    assert IsDir(r.state.fs, d);
  }
}
