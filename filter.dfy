/** The inclusion policy and the two decisions taken from `collect_files`:
    whether to descend into a directory, and whether to include a file.
    Both are pure; the walk that applies them is in `Collector`. */
module Filter {
  import opened Wrappers
  import opened Text
  import opened Paths
  import opened Glob
  import opened Csv

  /** The rules fixed for one run. */
  datatype Policy = Policy(
    includeExts: set<string>,
    ignoreDirs: set<string>,
    ignoreFiles: set<string>,
    excludeExts: set<string>,
    excludeGlobs: set<string>)

  /** `DEFAULT_IGNORE_DIRS`. */
  const DefaultIgnoreDirs: set<string> := {
    ".git", ".hg", ".svn",
    "__pycache__", ".pytest_cache", ".mypy_cache", ".ruff_cache",
    ".ipynb_checkpoints",
    "node_modules",
    "venv", ".venv", "env",
    "dist", "build", "target", "out",
    ".idea", ".vscode"}

  /** `DEFAULT_IGNORE_FILES`, the generator's own output and script included. */
  const DefaultIgnoreFiles: set<string> := {
    ".DS_Store",
    "package-lock.json", "yarn.lock", "pnpm-lock.yaml",
    "poetry.lock", "Pipfile.lock",
    "prompt_context.md",
    "generate_prompt_context.py"}

  /** `DEFAULT_EXCLUDE_EXTS`. */
  const DefaultExcludeExts: set<string> := {
    ".png", ".jpg", ".jpeg", ".gif", ".webp", ".svg", ".ico",
    ".pdf",
    ".zip", ".tar", ".gz", ".bz2", ".xz", ".7z", ".rar",
    ".mp3", ".wav", ".mp4", ".mov", ".avi", ".mkv",
    ".parquet", ".feather", ".arrow", ".orc",
    ".npz", ".npy",
    ".pt", ".pth", ".onnx",
    ".pkl", ".pickle",
    ".db", ".sqlite", ".sqlite3",
    ".exe", ".dll", ".so", ".dylib"}

  /** The policy `main` builds from `--include-ext`, `--exclude-ext` and
      `--exclude-glob`: the built-in sets, with the command-line extensions
      added to the excluded ones. */
  function PolicyFromArgs(includeExt: string, excludeExt: string, excludeGlob: string): (p: Policy)
    ensures p.excludeExts == DefaultExcludeExts + ToExtSet(Some(excludeExt))
    ensures p.ignoreDirs == DefaultIgnoreDirs && p.ignoreFiles == DefaultIgnoreFiles
    ensures p.includeExts == ToExtSet(Some(includeExt))
    ensures p.excludeGlobs == ParseCsvSet(Some(excludeGlob))
  {
    Policy(
      ToExtSet(Some(includeExt)),
      DefaultIgnoreDirs,
      DefaultIgnoreFiles,
      DefaultExcludeExts + ToExtSet(Some(excludeExt)),
      ParseCsvSet(Some(excludeGlob)))
  }

  /** Directory pruning: descend into `dir` unless its name is an ignored
      directory name or its path matches an exclusion glob. */
  predicate KeepDir(p: Policy, dir: Path)
    requires dir != []
  {
    Name(dir) !in p.ignoreDirs && !MatchesAnyGlob(Posix(dir), p.excludeGlobs, true)
  }

  /** A directory is descended into exactly when its name is not ignored
      and no pattern matches its path, with or without a trailing slash. */
  lemma KeepDirMeaning(p: Policy, dir: Path)
    requires dir != []
    ensures KeepDir(p, dir) <==>
      && Name(dir) !in p.ignoreDirs
      && !exists pat :: pat in p.excludeGlobs &&
           (Match(pat, Posix(dir)) || (!EndsWith(Posix(dir), "/") && Match(pat, Posix(dir) + "/")))
  {
  }

  /** Why a file is or is not included: the first check it fails, in the
      order the collector applies them. */
  datatype Verdict = Include | IgnoredName | Symlink | GlobExcluded | ExtExcluded | NotIncluded

  /** File admission for the file at `path`. */
  function FileVerdict(p: Policy, path: Path, symlink: bool): (v: Verdict)
    requires path != []
    ensures v == Include <==>
      && Name(path) !in p.ignoreFiles
      && !symlink
      && !MatchesAnyGlob(Posix(path), p.excludeGlobs, false)
      && Ext(Name(path)) !in p.excludeExts
      && (p.includeExts == {} || Ext(Name(path)) in p.includeExts)
  {
    if Name(path) in p.ignoreFiles then IgnoredName
    else if symlink then Symlink
    else if MatchesAnyGlob(Posix(path), p.excludeGlobs, false) then GlobExcluded
    else
      var ext := Ext(Name(path));
      if ext in p.excludeExts then ExtExcluded
      else if p.includeExts != {} && ext !in p.includeExts then NotIncluded
      else Include
  }

  /** An ignored name, a symbolic link, a glob match or an excluded
      extension each keep a file out, whatever else holds. */
  lemma ExcludedFileNeverIncluded(p: Policy, path: Path, symlink: bool)
    requires path != []
    requires || Name(path) in p.ignoreFiles
             || symlink
             || MatchesAnyGlob(Posix(path), p.excludeGlobs, false)
             || Ext(Name(path)) in p.excludeExts
    ensures FileVerdict(p, path, symlink) != Include
  {
  }

  /** An excluded extension wins over the allow-list: a file whose extension
      is in both is refused as excluded. */
  lemma ExcludeWinsOverInclude(p: Policy, path: Path)
    requires path != []
    requires Name(path) !in p.ignoreFiles
    requires !MatchesAnyGlob(Posix(path), p.excludeGlobs, false)
    requires Ext(Name(path)) in p.excludeExts && Ext(Name(path)) in p.includeExts
    ensures FileVerdict(p, path, false) == ExtExcluded
  {
  }

  /** With an allow-list, every included file has an allowed extension. */
  lemma IncludedExtIsAllowed(p: Policy, path: Path, symlink: bool)
    requires path != []
    requires p.includeExts != {}
    requires FileVerdict(p, path, symlink) == Include
    ensures Ext(Name(path)) in p.includeExts
  {
  }

  /** A file with a built-in excluded extension is never included, whatever
      `--include-ext` says. */
  lemma DefaultExcludedExtAlwaysWins(includeExt: string, excludeExt: string, excludeGlob: string, path: Path, symlink: bool)
    requires path != []
    requires Ext(Name(path)) in DefaultExcludeExts
    ensures FileVerdict(PolicyFromArgs(includeExt, excludeExt, excludeGlob), path, symlink) != Include
  {
  }

  /** An extension named by `--exclude-ext` keeps every file with that
      extension out, whatever `--include-ext` says. */
  lemma ExcludeExtKeepsOut(includeExt: string, excludeExt: string, excludeGlob: string, path: Path, symlink: bool)
    requires path != []
    requires Ext(Name(path)) in ToExtSet(Some(excludeExt))
    ensures FileVerdict(PolicyFromArgs(includeExt, excludeExt, excludeGlob), path, symlink) != Include
  {
  }

  lemma StripPY()
    ensures Strip("PY") == "PY"
  {
    assert !IsSpace("PY"[0]) && !IsSpace("PY"[1]);
    StripUnique("PY", "PY", 0);
  }

  lemma ParseSingleEntry()
    ensures ToExtSet(Some("PY")) == {".PY"}
  {
    StripPY();
    CleanPY();
    ParseSingle("PY");
    ToExtSetSingle(Some("PY"), "PY");
    WithDotPY();
  }

  lemma CleanPY()
    requires Strip("PY") == "PY"
    ensures IsCleanItem("PY")
  {
  }

  lemma WithDotPY()
    ensures WithDot("PY") == ".PY"
  {
    assert !StartsWith("PY", ".") by { assert "PY"[0] != '.'; }
    assert "." + "PY" == ".PY";
  }

  lemma ParseEmpty()
    ensures ToExtSet(Some("")) == {} && ParseCsvSet(Some("")) == {}
  {
  }

  lemma PyNotExcludedByDefault()
    ensures ".py" !in DefaultExcludeExts
  {
  }

  lemma APyNotIgnored()
    ensures "a.py" !in DefaultIgnoreFiles
  {
  }

  /** The allow-list is compared with the lower-cased suffix but is not
      lower-cased itself: an allow-list holding `.PY` admits no `a.py`. */
  lemma IncludeExtIsCaseSensitive(p: Policy)
    requires p.includeExts == {".PY"} && p.excludeGlobs == {}
    requires ".py" !in p.excludeExts && "a.py" !in p.ignoreFiles
    ensures FileVerdict(p, ["a.py"], false) == NotIncluded
  {
    var path: Path := ["a.py"];
    assert Ext(Name(path)) == ".py" by {
      ExtOfOneLetterPy('a');
      assert "a.py" == ['a'] + ".py";
    }
    assert ".py" !in p.includeExts;
    assert !MatchesAnyGlob(Posix(path), p.excludeGlobs, false);
  }

  lemma PolicyForIncludePY()
    ensures PolicyFromArgs("PY", "", "").includeExts == {".PY"}
    ensures PolicyFromArgs("PY", "", "").excludeExts == DefaultExcludeExts
    ensures PolicyFromArgs("PY", "", "").excludeGlobs == {}
  {
    ParseSingleEntry();
    ParseEmpty();
  }

  /** `--include-ext PY` builds exactly such an allow-list. */
  lemma IncludeExtPYAdmitsNoPy()
    ensures FileVerdict(PolicyFromArgs("PY", "", ""), ["a.py"], false) == NotIncluded
  {
    PolicyForIncludePY();
    PyNotExcludedByDefault();
    APyNotIgnored();
    IncludeExtIsCaseSensitive(PolicyFromArgs("PY", "", ""));
  }
}
