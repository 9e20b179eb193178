/**
  The command-line scenarios of the binary's test suite, worked through the
  model: one file printed, two files printed, one file in place, one file in
  place with a backup, and a directory in place with `-r`. Two further
  scenarios follow the code where no test does: a directory without `-r`,
  and an unset variable.
*/
module Scenarios {
  import opened Common
  import opened Eve
  import opened Cli

  /** The backup path the scenarios use: the extension appended after a dot.
      This is what `Path::with_extension` gives for a name without an
      extension, such as the test suite's temporary `.tmpXXXXXX` files, whose
      leading dot does not start an extension; for a name that has one, the
      real call would replace it instead. */
  function AddExtension(p: Path, ext: string): Path {
    p + "." + ext
  }

  /** The directory `d` holds `d/a` and `d/b`; `WalkDir` yields a directory
      before its entries. */
  function WalkTwo(p: Path): seq<Path> {
    [p, p + "/a", p + "/b"]
  }

  function Options(inline: bool, extension: Option<string>, recursive: bool): Config {
    Config(inline, extension, recursive, AddExtension, WalkTwo)
  }

  /** The environment file of most tests: `HELLO=Hello`. */
  predicate HelloEnv(env: Env) {
    Lookup(env, "HELLO") == "Hello"
  }

  /** The environment file of the directory test: `HELLO=Hello` and
      `WORLD=World!`. */
  predicate HelloWorldEnv(env: Env) {
    HelloEnv(env) && Lookup(env, "WORLD") == "World!"
  }

  /** A placeholder at the start of the text. */
  lemma LeadingPlaceholder(k: string, b: string, env: Env)
    requires '{' !in b && '}' !in b
    requires '{' !in k && '}' !in k && '\n' !in k
    ensures Replace("{{" + k + "}}" + b, env) == Lookup(env, k) + b
  {
    SinglePlaceholderNoBraces("", k, b, env);
    assert "" + "{{" + k + "}}" + b == "{{" + k + "}}" + b;
    assert "" + Lookup(env, k) + b == Lookup(env, k) + b;
  }

  /** A placeholder at the end of the text. */
  lemma TrailingPlaceholder(a: string, k: string, env: Env)
    requires '{' !in a && '}' !in a
    requires '{' !in k && '}' !in k && '\n' !in k
    ensures Replace(a + "{{" + k + "}}", env) == a + Lookup(env, k)
  {
    SinglePlaceholderNoBraces(a, k, "", env);
    assert a + "{{" + k + "}}" + "" == a + "{{" + k + "}}";
    assert a + Lookup(env, k) + "" == a + Lookup(env, k);
  }

  lemma HelloFirst(s: string, env: Env)
    requires s == "{{HELLO}} World!" && HelloEnv(env)
    ensures Replace(s, env) == "Hello World!"
  {
    assert "{{" + "HELLO" + "}}" + " World!" == s;
    LeadingPlaceholder("HELLO", " World!", env);
    assert "Hello" + " World!" == "Hello World!";
  }

  lemma HelloLast(s: string, env: Env)
    requires s == "World! {{HELLO}}" && HelloEnv(env)
    ensures Replace(s, env) == "World! Hello"
  {
    assert "World! " + "{{" + "HELLO" + "}}" == s;
    TrailingPlaceholder("World! ", "HELLO", env);
    assert "World! " + "Hello" == "World! Hello";
  }

  /** A file ending in a line feed, printed: its replacement and one more
      line feed. */
  lemma SingleFile(t: Path, env: Env)
    requires HelloEnv(env)
    ensures var fs := map[t := File("{{HELLO}} World!\n")];
      Run(State(fs, ""), Options(false, None, false), env, [t])
      == Step(State(fs, "Hello World!\n\n"), None)
  {
    var l := "{{HELLO}} World!";
    assert Replace(l + "\n" + "", env) == "Hello World!" + "\n" + "" by {
      Locality(l, "", env);
      HelloFirst(l, env);
      assert Replace("", env) == "";
    }
    assert l + "\n" + "" == "{{HELLO}} World!\n";
    assert "Hello World!" + "\n" + "" == "Hello World!\n";
  }

  /** Two files printed in argument order. */
  lemma TwoFiles(a: Path, b: Path, first: string, second: string, env: Env)
    requires a != b && HelloEnv(env)
    requires first == "{{HELLO}} World!" && second == "World! {{HELLO}}"
    ensures var fs := map[a := File(first), b := File(second)];
      Run(State(fs, ""), Options(false, None, false), env, [a, b])
      == Step(State(fs, "Hello World!\n" + "World! Hello\n"), None)
  {
    HelloFirst(first, env);
    HelloLast(second, env);
    var fs := map[a := File(first), b := File(second)];
    var cfg := Options(false, None, false);
    var st1 := State(fs, "Hello World!\n");
    assert ReplacePath(State(fs, ""), cfg, env, a) == Step(st1, None) by {
      assert "" + "Hello World!" + "\n" == "Hello World!\n";
    }
    assert [a, b][1..] == [b] && [b][1..] == [];
    assert Run(st1, cfg, env, [b]) == Step(State(fs, "Hello World!\n" + "World! Hello\n"), None);
  }

  /** In place without a backup: the file holds its replacement and nothing
      is printed. */
  lemma SingleInlineFile(t: Path, env: Env)
    requires HelloEnv(env)
    ensures Run(State(map[t := File("{{HELLO}} World!")], ""), Options(true, None, false), env, [t])
      == Step(State(map[t := File("Hello World!")], ""), None)
  {
    HelloFirst("{{HELLO}} World!", env);
    assert map[t := File("{{HELLO}} World!")][t := File("Hello World!")] == map[t := File("Hello World!")];
  }

  /** In place with `-e backup`: the backup holds the original text, the
      file its replacement. */
  lemma BackupInlineFile(t: Path, env: Env)
    requires HelloEnv(env)
    ensures var backup := t + ".backup";
      Run(State(map[t := File("{{HELLO}} World!")], ""), Options(true, Some("backup"), false), env, [t])
      == Step(State(map[t := File("Hello World!"), backup := File("{{HELLO}} World!")], ""), None)
  {
    HelloFirst("{{HELLO}} World!", env);
    var backup := t + ".backup";
    assert AddExtension(t, "backup") == backup;
    assert backup != t by {
      assert |backup| == |t| + 7;
    }
    assert map[t := File("{{HELLO}} World!")][backup := File("{{HELLO}} World!")][t := File("Hello World!")]
      == map[t := File("Hello World!"), backup := File("{{HELLO}} World!")];
  }

  /** `d/a` and `d/b` are two distinct paths other than `d`. */
  lemma EntryNames(d: Path)
    ensures d + "/a" != d && d + "/b" != d && d + "/a" != d + "/b"
  {
    var a, b := d + "/a", d + "/b";
    assert |a| == |d| + 2 && |b| == |d| + 2;
    assert a[|d| + 1] == 'a' && b[|d| + 1] == 'b';
  }

  /** Rewriting the two files of a directory leaves the directory entry and
      gives each file its replacement. */
  lemma DirectoryRewritten(d: Path, a: Path, b: Path, first: string, second: string, env: Env)
    requires a != d && b != d && a != b
    ensures var fs := map[d := Dir, a := File(first), b := File(second)];
      Rewritten(fs, [a, b], env) == map[d := Dir, a := File(Replace(first, env)), b := File(Replace(second, env))]
  {
  }

  /** `-ir` on a directory: each file in it is rewritten, the directory
      itself is skipped. */
  lemma Directory(d: Path, first: string, second: string, env: Env)
    requires HelloWorldEnv(env)
    requires first == "{{HELLO}} World!" && second == "Hello {{WORLD}}"
    ensures var fs := map[d := Dir, d + "/a" := File(first), d + "/b" := File(second)];
      Run(State(fs, ""), Options(true, None, true), env, [d])
      == Step(State(map[d := Dir, d + "/a" := File("Hello World!"), d + "/b" := File("Hello World!")], ""), None)
  {
    HelloFirst(first, env);
    assert Replace(second, env) == "Hello World!" by {
      assert "Hello " + "{{" + "WORLD" + "}}" == second;
      TrailingPlaceholder("Hello ", "WORLD", env);
      assert "Hello " + "World!" == "Hello World!";
    }
    EntryNames(d);
    DirectoryInline(d, d + "/a", d + "/b", first, second, env);
    DirectoryRewritten(d, d + "/a", d + "/b", first, second, env);
  }

  /** The walk of the directory yields its two files, in order, and drops
      the directory entry itself. */
  lemma DirectoryWalked(fs: FileSystem, d: Path, a: Path, b: Path)
    requires IsDir(fs, d) && IsFile(fs, a) && IsFile(fs, b)
    requires a == d + "/a" && b == d + "/b"
    ensures Walked(fs, WalkTwo(d)) == [a, b]
  {
    assert WalkTwo(d) == [d] + ([a] + [b]);
    WalkedAppend(fs, [d], [a] + [b]);
    WalkedAppend(fs, [a], [b]);
    WalkedAppend(fs, [b], []);
    assert [b] + [] == [b];
  }

  /** `-ir` on the directory rewrites its two files in place. */
  lemma DirectoryInline(d: Path, a: Path, b: Path, first: string, second: string, env: Env)
    requires a == d + "/a" && b == d + "/b" && a != d && b != d && a != b
    ensures var fs := map[d := Dir, a := File(first), b := File(second)];
      Run(State(fs, ""), Options(true, None, true), env, [d])
      == Step(State(Rewritten(fs, [a, b], env), ""), None)
  {
    var fs := map[d := Dir, a := File(first), b := File(second)];
    var cfg := Options(true, None, true);
    DirectoryWalked(fs, d, a, b);
    InlineFiles(State(fs, ""), cfg, env, [a, b]);
    assert ReplacePath(State(fs, ""), cfg, env, d) == Step(State(Rewritten(fs, [a, b], env), ""), None);
    assert [d][1..] == [];
  }

  /** Without `-r` a directory is an error, after the files before it have
      been printed. */
  lemma DirectoryWithoutFlag(a: Path, d: Path, env: Env)
    requires a != d && HelloEnv(env)
    ensures var fs := map[a := File("{{HELLO}} World!"), d := Dir];
      Run(State(fs, ""), Options(false, None, false), env, [a, d, a])
      == Step(State(fs, "Hello World!\n"), Some(DirectoryWithoutRecursive(d)))
  {
    HelloFirst("{{HELLO}} World!", env);
    var fs := map[a := File("{{HELLO}} World!"), d := Dir];
    DirectoryStopsRun(State(fs, ""), Options(false, None, false), env, [a], d, [a]);
    assert [a] + [d] + [a] == [a, d, a];
  }

  /** A variable the environment lacks is replaced by nothing. */
  lemma MissingVariable(s: string, env: Env)
    requires s == "x={{NOPE}};" && "NOPE" !in env
    ensures Replace(s, env) == "x=;"
  {
    assert "x=" + "{{" + "NOPE" + "}}" + ";" == s;
    SinglePlaceholderNoBraces("x=", "NOPE", ";", env);
    assert "x=" + "" + ";" == "x=;";
  }
}
