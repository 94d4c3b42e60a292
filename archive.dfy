/**
 * Locating and unpacking the task archive (agent.js `findTaskArchive` and
 * `unzipTask`): the task directory's files with an archive suffix are sorted
 * by name and the first is taken; its suffix chooses the extraction command.
 */
module Archive {
  import opened Wrappers
  import opened Text
  import opened Summary

  /** An entry of the task directory, as `readdir` reports it. */
  datatype DirEntry = DirEntry(name: string, isFile: bool)

  datatype ArchiveError =
    | NoArchive(taskDir: string)
    | UnsupportedFormat(archivePath: string)
    | UnzipFailed(message: string)

  /** The suffixes of `/\.(zip|7z|tar\.gz|tgz|rar)$/i`, in lower case. */
  const ArchiveSuffixes: seq<string> := [".zip", ".7z", ".tar.gz", ".tgz", ".rar"]

  /** The archive-name test of `findTaskArchive`: one of the suffixes, in any
      letter case. */
  predicate IsArchiveName(name: string) {
    exists k :: 0 <= k < |ArchiveSuffixes| && EndsWith(Lower(name), ArchiveSuffixes[k])
  }

  /** The names of the files among `entries` that pass the archive test, in
      directory order. */
  function ArchiveNames(entries: seq<DirEntry>): (names: seq<string>)
    ensures forall n :: n in names ==> IsArchiveName(n)
    ensures forall i :: 0 <= i < |entries| && entries[i].isFile && IsArchiveName(entries[i].name) ==>
              entries[i].name in names
  {
    if entries == [] then []
    else
      var rest := ArchiveNames(entries[1..]);
      if entries[0].isFile && IsArchiveName(entries[0].name) then [entries[0].name] + rest else rest
  }

  predicate Sorted(s: seq<string>) {
    forall i, j :: 0 <= i < j < |s| ==> Utf16Le(s[i], s[j])
  }

  /** Insertion of `x` before the first element it does not exceed. */
  function Insert(x: string, s: seq<string>): seq<string> {
    if s == [] then [x]
    else if Utf16Le(x, s[0]) then [x] + s
    else [s[0]] + Insert(x, s[1..])
  }

  /** `Array.prototype.sort` with its default order, as an insertion sort:
      the default order is total, so every sorting algorithm agrees with it. */
  function SortNames(s: seq<string>): seq<string> {
    if s == [] then [] else Insert(s[0], SortNames(s[1..]))
  }

  /** `path.join(TASK_DIR, name)`, for a task directory without a trailing separator. */
  function JoinPath(dir: string, name: string): string {
    dir + "/" + name
  }

  /** `findTaskArchive`: the first archive name in sorted order, under the
      task directory; an error naming the directory when there is none. */
  function FindTaskArchive(taskDir: string, entries: seq<DirEntry>): Result<string, ArchiveError> {
    var sorted := SortNames(ArchiveNames(entries));
    if |sorted| == 0 then Failure(NoArchive(taskDir)) else Success(JoinPath(taskDir, sorted[0]))
  }

  lemma {:induction false} InsertPermutes(x: string, s: seq<string>)
    ensures multiset(Insert(x, s)) == multiset(s) + multiset{x}
  {
    if s != [] && !Utf16Le(x, s[0]) {
      var t := Insert(x, s[1..]);
      InsertPermutes(x, s[1..]);
      assert Insert(x, s) == [s[0]] + t;
      assert multiset([s[0]] + t) == multiset{s[0]} + multiset(t);
      assert s == [s[0]] + s[1..];
      assert multiset(s) == multiset{s[0]} + multiset(s[1..]);
    }
  }

  lemma {:induction false} InsertSorted(x: string, s: seq<string>)
    requires Sorted(s)
    ensures Sorted(Insert(x, s))
  {
    if s == [] {
    } else if Utf16Le(x, s[0]) {
      forall j | 0 < j < |s| ensures Utf16Le(x, s[j]) {
        Utf16LeTransitive(x, s[0], s[j]);
      }
    } else {
      Utf16LeTotal(x, s[0]);
      assert Sorted(s[1..]);
      InsertSorted(x, s[1..]);
      InsertPermutes(x, s[1..]);
      var t := Insert(x, s[1..]);
      forall j | 0 <= j < |t| ensures Utf16Le(s[0], t[j]) {
        assert t[j] in multiset(s[1..]) + multiset{x};
        if t[j] != x {
          var m :| 0 <= m < |s[1..]| && s[1..][m] == t[j];
          assert s[m + 1] == t[j];
        }
      }
    }
  }

  /** The sort puts the names in order and neither loses nor invents a name. */
  lemma {:induction false} SortNamesCorrect(s: seq<string>)
    ensures Sorted(SortNames(s))
    ensures multiset(SortNames(s)) == multiset(s)
  {
    if s != [] {
      SortNamesCorrect(s[1..]);
      InsertSorted(s[0], SortNames(s[1..]));
      InsertPermutes(s[0], SortNames(s[1..]));
      assert s == [s[0]] + s[1..];
    }
  }

  /** The chosen archive is a file of the task directory with an archive
      name, and no other such name comes before it; the search fails exactly
      when there is no such file. */
  lemma FindTaskArchiveCorrect(taskDir: string, entries: seq<DirEntry>)
    ensures FindTaskArchive(taskDir, entries).Failure? <==>
            forall i :: 0 <= i < |entries| ==> !(entries[i].isFile && IsArchiveName(entries[i].name))
    ensures FindTaskArchive(taskDir, entries).Failure? ==> FindTaskArchive(taskDir, entries).error == NoArchive(taskDir)
    ensures FindTaskArchive(taskDir, entries).Success? ==>
              exists i :: 0 <= i < |entries| && entries[i].isFile && IsArchiveName(entries[i].name) &&
                FindTaskArchive(taskDir, entries).value == JoinPath(taskDir, entries[i].name) &&
                forall j :: 0 <= j < |entries| && entries[j].isFile && IsArchiveName(entries[j].name) ==>
                  Utf16Le(entries[i].name, entries[j].name)
  {
    var names := ArchiveNames(entries);
    var sorted := SortNames(names);
    SortNamesCorrect(names);
    assert |sorted| == |names| by {
      assert |multiset(sorted)| == |multiset(names)|;
    }
    if sorted != [] {
      var first := sorted[0];
      assert first in multiset(names);
      ArchiveNamesFrom(entries, first);
      forall n | n in names ensures Utf16Le(first, n) {
        assert n in multiset(sorted);
        var m :| 0 <= m < |sorted| && sorted[m] == n;
        if m == 0 { Utf16LeReflexive(first); }
      }
    }
  }

  /** Every name the filter keeps comes from a file entry. */
  lemma {:induction false} ArchiveNamesFrom(entries: seq<DirEntry>, n: string)
    requires n in ArchiveNames(entries)
    ensures exists i :: 0 <= i < |entries| && entries[i].isFile && IsArchiveName(entries[i].name) && entries[i].name == n
  {
    if entries[0].isFile && IsArchiveName(entries[0].name) && n == entries[0].name {
      assert 0 < |entries|;
    } else {
      ArchiveNamesFrom(entries[1..], n);
      var i :| 0 <= i < |entries[1..]| && entries[1..][i].isFile && IsArchiveName(entries[1..][i].name) && entries[1..][i].name == n;
      assert entries[i + 1] == entries[1..][i];
    }
  }

  /** What `unzipTask` extracts with. */
  datatype ArchiveKind = Zip | SevenZip | TarGz | Rar

  /** The suffix chain of `unzipTask` on the lower-cased path. */
  function KindOf(archivePath: string): Option<ArchiveKind> {
    var lower := Lower(archivePath);
    if EndsWith(lower, ".zip") then Some(Zip)
    else if EndsWith(lower, ".7z") then Some(SevenZip)
    else if EndsWith(lower, ".tar.gz") || EndsWith(lower, ".tgz") then Some(TarGz)
    else if EndsWith(lower, ".rar") then Some(Rar)
    else None
  }

  function Quoted(s: string): string {
    "\"" + s + "\""
  }

  /** The extraction command for each kind; a RAR archive is tried with 7z
      first and with unrar when that fails. */
  function CommandFor(kind: ArchiveKind, archivePath: string, sourceDir: string): string {
    match kind
    case Zip => "unzip -o " + Quoted(archivePath) + " -d " + Quoted(sourceDir)
    case SevenZip => "7z x " + Quoted(archivePath) + " -o" + Quoted(sourceDir) + " -y"
    case TarGz => "tar -xzf " + Quoted(archivePath) + " -C " + Quoted(sourceDir)
    case Rar => "7z x " + Quoted(archivePath) + " -o" + Quoted(sourceDir) + " -y || unrar x " +
                Quoted(archivePath) + " " + Quoted(sourceDir)
  }

  /** The command `unzipTask` runs, or the unsupported-format error. */
  function UnzipCommand(archivePath: string, sourceDir: string): (r: Result<string, ArchiveError>)
    ensures r.Failure? <==> KindOf(archivePath).None?
    ensures r.Failure? ==> r.error == UnsupportedFormat(archivePath)
    ensures r.Success? ==> r.value == CommandFor(KindOf(archivePath).value, archivePath, sourceDir)
  {
    match KindOf(archivePath)
    case None => Failure(UnsupportedFormat(archivePath))
    case Some(kind) => Success(CommandFor(kind, archivePath, sourceDir))
  }

  /** How `unzipTask` judges the extraction: a non-zero exit code is an error
      carrying stderr, or stdout when stderr is empty. */
  function UnzipOutcome(result: ExecResult): (r: Result<(), ArchiveError>)
    ensures r.Success? <==> result.code == 0
    ensures r.Failure? ==> (r.error.UnzipFailed? &&
                            (result.stderr != "" ==> r.error.message == result.stderr) &&
                            (result.stderr == "" ==> r.error.message == result.stdout))
  {
    if result.code != 0 then
      Failure(UnzipFailed(if result.stderr != "" then result.stderr else result.stdout))
    else Success(())
  }

  /** Each suffix selects its own command, in whichever order the chain
      checks them: no name ends with two of the suffixes of different kinds. */
  lemma UnzipCommandBySuffix(archivePath: string, sourceDir: string)
    ensures EndsWith(Lower(archivePath), ".zip") ==>
              UnzipCommand(archivePath, sourceDir) ==
              Success("unzip -o " + Quoted(archivePath) + " -d " + Quoted(sourceDir))
    ensures EndsWith(Lower(archivePath), ".7z") ==>
              UnzipCommand(archivePath, sourceDir) ==
              Success("7z x " + Quoted(archivePath) + " -o" + Quoted(sourceDir) + " -y")
    ensures EndsWith(Lower(archivePath), ".tar.gz") || EndsWith(Lower(archivePath), ".tgz") ==>
              UnzipCommand(archivePath, sourceDir) ==
              Success("tar -xzf " + Quoted(archivePath) + " -C " + Quoted(sourceDir))
    ensures EndsWith(Lower(archivePath), ".rar") ==>
              UnzipCommand(archivePath, sourceDir) ==
              Success("7z x " + Quoted(archivePath) + " -o" + Quoted(sourceDir) + " -y || unrar x " +
                      Quoted(archivePath) + " " + Quoted(sourceDir))
  {
    var lower := Lower(archivePath);
    var n := |lower|;
    if EndsWith(lower, ".7z") {
      assert lower[n - 1] == "7z"[1] == 'z' && lower[n - 2] == '7';
    }
    if EndsWith(lower, ".tar.gz") {
      assert lower[n - 1] == ".tar.gz"[6] == 'z' && lower[n - 2] == 'g';
    }
    if EndsWith(lower, ".tgz") {
      assert lower[n - 1] == ".tgz"[3] == 'z' && lower[n - 2] == 'g';
    }
    if EndsWith(lower, ".rar") {
      assert lower[n - 1] == ".rar"[3] == 'r';
    }
    if EndsWith(lower, ".zip") {
      assert lower[n - 1] == ".zip"[3] == 'p';
    }
  }

  /** `unzipTask`: the extraction command for the archive's suffix, run by
      `run`, judged by its exit code. */
  function UnzipTask(archivePath: string, sourceDir: string, run: string -> ExecResult): (r: Result<(), ArchiveError>)
    ensures KindOf(archivePath).None? ==> r == Failure(UnsupportedFormat(archivePath))
  {
    match UnzipCommand(archivePath, sourceDir)
    case Failure(e) => Failure(e)
    case Success(command) => UnzipOutcome(run(command))
  }

  /** Unpacking the archive `findTaskArchive` picks fails only on the
      command's exit code: it succeeds exactly when the command for the
      archive's kind exits with 0. */
  lemma UnzipFoundArchive(taskDir: string, entries: seq<DirEntry>, sourceDir: string, run: string -> ExecResult)
    requires FindTaskArchive(taskDir, entries).Success?
    ensures var archivePath := FindTaskArchive(taskDir, entries).value;
            KindOf(archivePath).Some? &&
            var command := CommandFor(KindOf(archivePath).value, archivePath, sourceDir);
            (UnzipTask(archivePath, sourceDir, run).Success? <==> run(command).code == 0) &&
            (UnzipTask(archivePath, sourceDir, run).Failure? ==> UnzipTask(archivePath, sourceDir, run).error.UnzipFailed?)
  {
    FoundArchiveIsSupported(taskDir, entries, sourceDir);
  }

  lemma {:induction false} LowerAppend(a: string, b: string)
    ensures Lower(a + b) == Lower(a) + Lower(b)
  {
    if a == [] {
      assert a + b == b;
    } else {
      assert (a + b)[0] == a[0] && (a + b)[1..] == a[1..] + b;
      LowerAppend(a[1..], b);
    }
  }

  lemma EndsWithExtend(pre: string, s: string, suffix: string)
    requires EndsWith(s, suffix)
    ensures EndsWith(pre + s, suffix)
  {
    assert (pre + s)[|pre + s| - |suffix|..] == s[|s| - |suffix|..];
  }

  /** The filter of `findTaskArchive` and the suffix chain of `unzipTask` are
      written separately but accept the same names. */
  lemma ArchiveNameIffKind(name: string)
    ensures IsArchiveName(name) <==> KindOf(name).Some?
  {
    if IsArchiveName(name) {
      var k :| 0 <= k < |ArchiveSuffixes| && EndsWith(Lower(name), ArchiveSuffixes[k]);
      SuffixHasKind(name, k);
    }
    if KindOf(name).Some? {
      KindHasSuffix(name);
    }
  }

  lemma SuffixHasKind(name: string, k: nat)
    requires k < |ArchiveSuffixes| && EndsWith(Lower(name), ArchiveSuffixes[k])
    ensures KindOf(name).Some?
  {
    var lower := Lower(name);
    if k == 0 { assert EndsWith(lower, ".zip"); }
    else if k == 1 { assert EndsWith(lower, ".7z"); }
    else if k == 2 { assert EndsWith(lower, ".tar.gz"); }
    else if k == 3 { assert EndsWith(lower, ".tgz"); }
    else { assert EndsWith(lower, ".rar"); }
  }

  lemma KindHasSuffix(name: string)
    requires KindOf(name).Some?
    ensures IsArchiveName(name)
  {
    var lower := Lower(name);
    var k := if EndsWith(lower, ".zip") then 0
             else if EndsWith(lower, ".7z") then 1
             else if EndsWith(lower, ".tar.gz") then 2
             else if EndsWith(lower, ".tgz") then 3
             else 4;
    assert EndsWith(lower, ArchiveSuffixes[k]);
  }

  /** The archive `findTaskArchive` returns is always one `unzipTask` can
      extract: its path has a supported suffix. */
  lemma FoundArchiveIsSupported(taskDir: string, entries: seq<DirEntry>, sourceDir: string)
    requires FindTaskArchive(taskDir, entries).Success?
    ensures UnzipCommand(FindTaskArchive(taskDir, entries).value, sourceDir).Success?
  {
    FindTaskArchiveCorrect(taskDir, entries);
    var i :| 0 <= i < |entries| && entries[i].isFile && IsArchiveName(entries[i].name) &&
      FindTaskArchive(taskDir, entries).value == JoinPath(taskDir, entries[i].name);
    var name := entries[i].name;
    var k :| 0 <= k < |ArchiveSuffixes| && EndsWith(Lower(name), ArchiveSuffixes[k]);
    LowerAppend(taskDir + "/", name);
    EndsWithExtend(Lower(taskDir + "/"), Lower(name), ArchiveSuffixes[k]);
    assert IsArchiveName(JoinPath(taskDir, name));
    ArchiveNameIffKind(JoinPath(taskDir, name));
  }

  /** Letter case does not matter to the dispatch. */
  lemma KindIgnoresCase(archivePath: string)
    ensures KindOf(Lower(archivePath)) == KindOf(archivePath)
  {
    LowerIdempotent(archivePath);
  }

  lemma LowerIdempotent(s: string)
    ensures Lower(Lower(s)) == Lower(s)
  {
    assert forall i :: 0 <= i < |s| ==> LowerChar(LowerChar(s[i])) == LowerChar(s[i]);
  }
}
