/**
 * scripts/check-file-size.mjs: every `.cs` file under the working directory, outside
 * the excluded paths, must have at most 1000 lines.
 *
 * The directory tree is passed in as a value (what `readdirSync` would list, level by
 * level) and file contents through `read`, keyed by the full path.
 */
module FileSize {
  import opened Text
  import opened Filtering

  const MaxLines: nat := 1000
  const ExcludePatterns: seq<string> := ["bin", "obj", ".git", "node_modules", "artifacts"]

  /** A directory entry as `readdirSync(dir, { withFileTypes: true })` reports it. */
  datatype Entry =
    | File(name: string)
    | Directory(name: string, entries: seq<Entry>)
    | Other(name: string)  // neither a file nor a directory, e.g. a symbolic link

  /** `shouldExclude(path)`: some pattern occurs anywhere in the path, not only as a whole segment. */
  predicate ShouldExclude(path: string) {
    exists k :: 0 <= k < |ExcludePatterns| && Contains(path, ExcludePatterns[k])
  }

  /** `extname(name) === '.cs'` for a file name: `.cs` ends the name and is not all of it. */
  predicate IsCSharpName(name: string) {
    |name| > 3 && EndsWith(name, ".cs")
  }

  /** `join(dir, name)` for a directory path and an entry name. */
  function JoinPath(dir: string, name: string): string {
    dir + "/" + name
  }

  // ---------------------------------------------------------------------------
  // the walk (lines 29-52)
  // ---------------------------------------------------------------------------

  /** The paths `walkDir(dir)` pushes for a directory listing `entries`, in the order pushed. */
  function Walk(dir: string, entries: seq<Entry>): seq<string>
    decreases entries
  {
    if |entries| == 0 then []
    else Walk(dir, entries[..|entries| - 1]) + Visit(dir, entries[|entries| - 1])
  }

  /** The paths pushed for one entry of `dir`: nothing when its path is excluded. */
  function Visit(dir: string, e: Entry): seq<string>
    decreases e
  {
    var path := JoinPath(dir, e.name);
    if ShouldExclude(path) then []
    else
      match e
      case Directory(_, sub) => Walk(path, sub)
      case File(name) => if IsCSharpName(name) then [path] else []
      case Other(_) => []
  }

  /** The walk of `files` in `findCSharpFiles`: an object that gathers the paths pushed. */
  class FileCollector {
    var files: seq<string>

    constructor ()
      ensures files == []
    {
      files := [];
    }

    /** `walkDir(dir)` over the listing `entries`, recursing into each directory that is not excluded. */
    method WalkDir(dir: string, entries: seq<Entry>)
      modifies this
      ensures files == old(files) + Walk(dir, entries)
      decreases entries
    {
      var i := 0;
      while i < |entries|
        invariant 0 <= i <= |entries|
        invariant files == old(files) + Walk(dir, entries[..i])
      {
        var entry := entries[i];
        var fullPath := JoinPath(dir, entry.name);
        assert entries[..i + 1][..i] == entries[..i];
        if !ShouldExclude(fullPath) {
          match entry
          case Directory(_, sub) =>
            WalkDir(fullPath, sub);
          case File(name) =>
            if IsCSharpName(name) {
              files := files + [fullPath];
            }
          case Other(_) =>
        }
        i := i + 1;
      }
      assert entries[..|entries|] == entries;
    }
  }

  /** The walk of consecutive listings is the walk of the first, then of the second. */
  lemma {:induction false} WalkAppend(dir: string, a: seq<Entry>, b: seq<Entry>)
    ensures Walk(dir, a + b) == Walk(dir, a) + Walk(dir, b)
    decreases b
  {
    if |b| == 0 {
      assert a + b == a;
    } else {
      var c := a + b;
      assert c[..|c| - 1] == a + b[..|b| - 1];
      assert c[|c| - 1] == b[|b| - 1];
      WalkAppend(dir, a, b[..|b| - 1]);
    }
  }

  /**
   * Depth-first in listing order: everything found under an entry comes before anything
   * found under the entries listed after it.
   */
  lemma WalkInListingOrder(dir: string, e: Entry, rest: seq<Entry>)
    ensures Walk(dir, [e] + rest) == Visit(dir, e) + Walk(dir, rest)
  {
    WalkAppend(dir, [e], rest);
    assert [e][..0] == [];
  }

  /** Whatever is found under one entry of the listing is found by the walk of the listing. */
  lemma VisitWithinWalk(dir: string, entries: seq<Entry>, i: nat)
    requires i < |entries|
    ensures forall p :: p in Visit(dir, entries[i]) ==> p in Walk(dir, entries)
  {
    var front := entries[..i + 1];
    assert front[..i] == entries[..i];
    assert front + entries[i + 1..] == entries;
    WalkAppend(dir, front, entries[i + 1..]);
  }

  /** A listed `.cs` file whose path is not excluded is collected. */
  lemma WalkCollectsFile(dir: string, entries: seq<Entry>, i: nat)
    requires i < |entries| && entries[i].File? && IsCSharpName(entries[i].name)
    requires !ShouldExclude(JoinPath(dir, entries[i].name))
    ensures JoinPath(dir, entries[i].name) in Walk(dir, entries)
  {
    VisitWithinWalk(dir, entries, i);
  }

  /** A listed directory whose path is not excluded is entered: what its walk finds is collected. */
  lemma WalkEntersDirectory(dir: string, entries: seq<Entry>, i: nat)
    requires i < |entries| && entries[i].Directory?
    requires !ShouldExclude(JoinPath(dir, entries[i].name))
    ensures forall p :: p in Walk(JoinPath(dir, entries[i].name), entries[i].entries) ==> p in Walk(dir, entries)
  {
    VisitWithinWalk(dir, entries, i);
  }

  /** Every path collected lies under `dir`, is not excluded, and ends in `.cs`. */
  lemma {:induction false} WalkPathsValid(dir: string, entries: seq<Entry>)
    ensures forall p :: p in Walk(dir, entries) ==>
              StartsWith(p, dir + "/") && !ShouldExclude(p) && EndsWith(p, ".cs")
    decreases entries
  {
    if |entries| > 0 {
      WalkPathsValid(dir, entries[..|entries| - 1]);
      VisitPathsValid(dir, entries[|entries| - 1]);
    }
  }

  lemma {:induction false} VisitPathsValid(dir: string, e: Entry)
    ensures forall p :: p in Visit(dir, e) ==>
              StartsWith(p, dir + "/") && !ShouldExclude(p) && EndsWith(p, ".cs")
    decreases e
  {
    var path := JoinPath(dir, e.name);
    if !ShouldExclude(path) {
      match e
      case Directory(_, sub) =>
        WalkPathsValid(path, sub);
        forall p | p in Walk(path, sub) ensures StartsWith(p, dir + "/") {
          PrefixOfPrefix(dir + "/", path + "/", p);
        }
      case File(name) =>
        if IsCSharpName(name) {
          assert path == (dir + "/") + name;
          assert path[..|dir + "/"|] == dir + "/";
          assert path[|path| - 3..] == name[|name| - 3..];
        }
      case Other(_) =>
    }
  }

  lemma PrefixOfPrefix(a: string, b: string, c: string)
    requires StartsWith(b, a) && StartsWith(c, b)
    ensures StartsWith(c, a)
  {
    assert c[..|a|] == c[..|b|][..|a|];
  }

  /** Nothing is collected under an excluded directory: every path there contains its pattern too. */
  lemma ExcludedDirectoryYieldsNothing(dir: string, entries: seq<Entry>)
    requires ShouldExclude(dir)
    ensures Walk(dir, entries) == []
  {
    WalkPathsValid(dir, entries);
    if Walk(dir, entries) != [] {
      var p := Walk(dir, entries)[0];
      assert p in Walk(dir, entries);
      UnderExcludedIsExcluded(dir, p);
      assert false;
    }
  }

  lemma UnderExcludedIsExcluded(dir: string, p: string)
    requires ShouldExclude(dir) && StartsWith(p, dir + "/")
    ensures ShouldExclude(p)
  {
    var k :| 0 <= k < |ExcludePatterns| && Contains(dir, ExcludePatterns[k]);
    PrefixOfPrefix(dir, dir + "/", p);
    ContainsInExtension(dir, p, ExcludePatterns[k]);
  }

  /** A path segment that merely contains a pattern, such as `cabinet`, is excluded as well. */
  lemma CabinetIsExcluded()
    ensures ShouldExclude("src/cabinet/Shelf.cs")
  {
    assert OccursAt("src/cabinet/Shelf.cs", "bin", 6);
    assert ExcludePatterns[0] == "bin";
  }

  // ---------------------------------------------------------------------------
  // line counts and the verdict (lines 59-97)
  // ---------------------------------------------------------------------------

  /** `content.split('\n').length`: one more than the number of line feeds, so an empty file has one line. */
  function CountLines(content: string): (n: nat)
    ensures n == Count(content, '\n') + 1
  {
    |Split(content, '\n')|
  }

  datatype Violation = Violation(file: string, lines: nat)

  /** `relative(cwd, file)` for a path under `cwd`. */
  function Relative(cwd: string, path: string): string {
    if StartsWith(path, cwd + "/") then path[|cwd| + 1..] else path
  }

  /** The violations for `files`, in file order: each file with strictly more than `MaxLines` lines. */
  function ViolationsOf(cwd: string, files: seq<string>, read: string -> string): seq<Violation> {
    if |files| == 0 then []
    else
      var f := files[|files| - 1];
      var n := CountLines(read(f));
      ViolationsOf(cwd, files[..|files| - 1], read) + if n > MaxLines then [Violation(Relative(cwd, f), n)] else []
  }

  /**
   * Each violation names a file with more than `MaxLines` lines, in file order; there are
   * none exactly when every file has at most `MaxLines` lines.
   */
  lemma {:induction false} ViolationsAreLongFiles(cwd: string, files: seq<string>, read: string -> string)
    ensures var vs := ViolationsOf(cwd, files, read);
            && |vs| <= |files|
            && (forall k :: 0 <= k < |vs| ==> vs[k].lines > MaxLines)
            && (vs == [] <==> forall k :: 0 <= k < |files| ==> CountLines(read(files[k])) <= MaxLines)
  {
    if |files| > 0 {
      var front := files[..|files| - 1];
      ViolationsAreLongFiles(cwd, front, read);
      assert forall k :: 0 <= k < |front| ==> front[k] == files[k];
    }
  }

  /** The violation a file yields on its own: one exactly when it is longer than `MaxLines` lines. */
  lemma ViolationsOfOne(cwd: string, file: string, read: string -> string)
    ensures var n := CountLines(read(file));
            ViolationsOf(cwd, [file], read) == if n > MaxLines then [Violation(Relative(cwd, file), n)] else []
  {
    assert [file][..0] == [];
  }

  /**
   * The violations of a concatenation are those of each part, in order. With
   * `ViolationsOfOne` this determines `ViolationsOf` completely: one violation per long
   * file, with its relative path and line count, in file order, and nothing else.
   */
  lemma {:induction false} ViolationsOfAppend(cwd: string, a: seq<string>, b: seq<string>, read: string -> string)
    ensures ViolationsOf(cwd, a + b, read) == ViolationsOf(cwd, a, read) + ViolationsOf(cwd, b, read)
  {
    if |b| == 0 {
      assert a + b == a;
    } else {
      var b' := b[..|b| - 1];
      assert (a + b)[..|a + b| - 1] == a + b';
      assert (a + b)[|a + b| - 1] == b[|b| - 1];
      ViolationsOfAppend(cwd, a, b', read);
    }
  }

  /**
   * Membership: a violation is reported exactly for each file with more than `MaxLines`
   * lines, carrying its path relative to `cwd` and its line count.
   */
  lemma {:induction false} ViolationsAreExactlyLongFiles(cwd: string, files: seq<string>, read: string -> string, v: Violation)
    ensures v in ViolationsOf(cwd, files, read) <==>
              exists j :: && 0 <= j < |files| && CountLines(read(files[j])) > MaxLines
                          && v == Violation(Relative(cwd, files[j]), CountLines(read(files[j])))
  {
    if |files| > 0 {
      var front := files[..|files| - 1];
      ViolationsAreExactlyLongFiles(cwd, front, read, v);
      assert forall j :: 0 <= j < |front| ==> front[j] == files[j];
    }
  }

  /**
   * `vs` lists, through the strictly increasing indices `js`, one violation per file of
   * `files` with more than `MaxLines` lines, in file order, with that file's relative path
   * and line count; every such file is among them.
   */
  ghost predicate IndexedViolations(cwd: string, files: seq<string>, read: string -> string, js: seq<int>, vs: seq<Violation>) {
    KeptInOrder(files, f => CountLines(read(f)) > MaxLines, f => Violation(Relative(cwd, f), CountLines(read(f))), js, vs)
  }

  /** The violations are exactly the long files, one each, in file order. */
  lemma {:induction false} ViolationsInFileOrder(cwd: string, files: seq<string>, read: string -> string)
    ensures exists js :: IndexedViolations(cwd, files, read, js, ViolationsOf(cwd, files, read))
  {
    if |files| == 0 {
      assert IndexedViolations(cwd, files, read, [], ViolationsOf(cwd, files, read));
    } else {
      var n := |files| - 1;
      ViolationsInFileOrder(cwd, files[..n], read);
      var vs := ViolationsOf(cwd, files[..n], read);
      var js :| IndexedViolations(cwd, files[..n], read, js, vs);
      var long, violation := f => CountLines(read(f)) > MaxLines, f => Violation(Relative(cwd, f), CountLines(read(f)));
      var js' := KeptInOrderStep(files, long, violation, js, vs);
      ViolationsStep(cwd, files, n, read);
      assert files[..n + 1] == files;
      assert vs + (if long(files[n]) then [violation(files[n])] else []) == ViolationsOf(cwd, files, read);
      assert IndexedViolations(cwd, files, read, js', ViolationsOf(cwd, files, read));
    }
  }

  /** The limit is strict: a file of exactly `MaxLines` lines (999 line feeds) passes. */
  lemma ExactlyAtLimitPasses(cwd: string, file: string, read: string -> string)
    requires Count(read(file), '\n') == MaxLines - 1
    ensures ViolationsOf(cwd, [file], read) == []
  {
    assert [file][..0] == [];
  }

  /**
   * The script after `findCSharpFiles`: the violations found and the exit code, 0 exactly
   * when there are none. `cwd` is the working directory and `tree` its listing.
   */
  method CheckFileSize(cwd: string, tree: seq<Entry>, read: string -> string)
    returns (exitCode: int, violations: seq<Violation>)
    ensures violations == ViolationsOf(cwd, Walk(cwd, tree), read)
    ensures exitCode == 0 <==> forall p :: p in Walk(cwd, tree) ==> CountLines(read(p)) <= MaxLines
    ensures exitCode == 0 || exitCode == 1
  {
    var collector := new FileCollector();
    collector.WalkDir(cwd, tree);
    var files := collector.files;
    violations := [];
    for i := 0 to |files|
      invariant violations == ViolationsOf(cwd, files[..i], read)
    {
      ViolationsStep(cwd, files, i, read);
      var lineCount := CountLines(read(files[i]));
      if lineCount > MaxLines {
        violations := violations + [Violation(Relative(cwd, files[i]), lineCount)];
      }
    }
    assert files[..|files|] == files;
    NoViolationsIffAllShort(cwd, files, read);
    exitCode := if |violations| == 0 then 0 else 1;
  }

  /** One more file checked adds its violation, if any, at the end. */
  lemma ViolationsStep(cwd: string, files: seq<string>, i: nat, read: string -> string)
    requires i < |files|
    ensures var n := CountLines(read(files[i]));
            ViolationsOf(cwd, files[..i + 1], read)
            == ViolationsOf(cwd, files[..i], read) + if n > MaxLines then [Violation(Relative(cwd, files[i]), n)] else []
  {
    assert files[..i + 1][..i] == files[..i];
  }

  /** The exit code's condition: no violations exactly when every collected file is short enough. */
  lemma NoViolationsIffAllShort(cwd: string, files: seq<string>, read: string -> string)
    ensures ViolationsOf(cwd, files, read) == [] <==> forall p :: p in files ==> CountLines(read(p)) <= MaxLines
  {
    ViolationsAreLongFiles(cwd, files, read);
    if forall k :: 0 <= k < |files| ==> CountLines(read(files[k])) <= MaxLines {
      forall p | p in files ensures CountLines(read(p)) <= MaxLines {
        var k :| 0 <= k < |files| && files[k] == p;
      }
    }
  }

  /** A working directory whose path contains a pattern (such as `/home/robin/app`) yields no files to check. */
  lemma ExcludedWorkingDirectoryChecksNothing(cwd: string, tree: seq<Entry>, read: string -> string)
    requires ShouldExclude(cwd)
    ensures ViolationsOf(cwd, Walk(cwd, tree), read) == []
  {
    ExcludedDirectoryYieldsNothing(cwd, tree);
  }
}
