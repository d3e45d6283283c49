/** `collect_files` over an in-memory directory tree: a top-down walk that
    prunes the subdirectory list in place before descending, appends every
    admitted file, and finally sorts by the lower-cased relative path.

    The walk's specification is stated for any pair of decisions (keep a
    directory, admit a file); `KeepOf` and `AdmitOf` give the pair that a
    policy defines, which is what the methods apply. */
module Collector {
  import opened Text
  import opened Paths
  import opened Glob
  import opened Filter
  import opened Sorting

  /** One entry of a directory listing, as `os.walk` splits it. */
  datatype Entry =
      /** A non-directory (listed among `filenames`); `symlink` is what
          `is_symlink()` reports. */
    | File(name: string, symlink: bool)
      /** A real subdirectory (listed among `dirnames`) and its listing. */
    | Dir(name: string, entries: seq<Entry>)
      /** A symbolic link to a directory: listed among `dirnames`, but
          never walked since links are not followed. */
    | DirLink(name: string)

  predicate IsDirEntry(e: Entry)
  {
    e.Dir? || e.DirLink?
  }

  /** Directory pruning under policy `p`, as a decision on paths. */
  function KeepOf(p: Policy): Path -> bool
  {
    (d: Path) => d != [] && KeepDir(p, d)
  }

  /** File admission under policy `p`, as a decision on a path and its
      symbolic-link flag. */
  function AdmitOf(p: Policy): (Path, bool) -> bool
  {
    (f: Path, symlink: bool) => f != [] && FileVerdict(p, f, symlink) == Include
  }

  /** `dirnames`: the directory entries of a listing, in listing order. */
  function DirEntries(es: seq<Entry>): (ds: seq<Entry>)
    ensures forall e :: e in ds <==> e in es && IsDirEntry(e)
  {
    if es == [] then []
    else DirEntries(es[..|es| - 1]) + (if IsDirEntry(es[|es| - 1]) then [es[|es| - 1]] else [])
  }

  /** `filenames`: the other entries of a listing, in listing order. */
  function FileEntries(es: seq<Entry>): (fs: seq<Entry>)
    ensures forall e :: e in fs <==> e in es && e.File?
  {
    if es == [] then []
    else FileEntries(es[..|es| - 1]) + (if es[|es| - 1].File? then [es[|es| - 1]] else [])
  }

  /** `kept_dirnames` after the pruning loop has seen the entries `ds` of
      the directory `rel`. */
  function KeptDirs(keep: Path -> bool, rel: Path, ds: seq<Entry>): (kept: seq<Entry>)
    ensures forall e :: e in kept ==> e in ds
  {
    if ds == [] then []
    else
      var d := ds[|ds| - 1];
      KeptDirs(keep, rel, ds[..|ds| - 1]) + (if keep(rel + [d.name]) then [d] else [])
  }

  /** The paths the file loop appends after seeing the entries `fs` of the
      directory `rel`. */
  function Admitted(admit: (Path, bool) -> bool, rel: Path, fs: seq<Entry>): seq<Path>
  {
    if fs == [] then []
    else
      var e := fs[|fs| - 1];
      Admitted(admit, rel, fs[..|fs| - 1])
        + (if e.File? && admit(rel + [e.name], e.symlink) then [rel + [e.name]] else [])
  }

  /** What the walk appends for the directory `rel` with listing `es`:
      its admitted files, then the files of each kept subdirectory. */
  function WalkSpec(keep: Path -> bool, admit: (Path, bool) -> bool, rel: Path, es: seq<Entry>): seq<Path>
    decreases es, 1
  {
    Admitted(admit, rel, FileEntries(es)) + DirWalks(keep, admit, rel, es)
  }

  /** The files found below the subdirectories among `es` that are kept,
      in listing order. */
  function DirWalks(keep: Path -> bool, admit: (Path, bool) -> bool, rel: Path, es: seq<Entry>): seq<Path>
    decreases es, 0
  {
    if es == [] then []
    else
      var sub := match es[|es| - 1]
        case Dir(name, cs) => if keep(rel + [name]) then WalkSpec(keep, admit, rel + [name], cs) else []
        case _ => [];
      DirWalks(keep, admit, rel, es[..|es| - 1]) + sub
  }

  /** The files found below each directory of `ks` in turn, as the walk
      visits the pruned `dirnames`. */
  function SubWalks(keep: Path -> bool, admit: (Path, bool) -> bool, rel: Path, ks: seq<Entry>): seq<Path>
  {
    if ks == [] then []
    else
      var sub := match ks[|ks| - 1]
        case Dir(name, cs) => WalkSpec(keep, admit, rel + [name], cs)
        case _ => [];
      SubWalks(keep, admit, rel, ks[..|ks| - 1]) + sub
  }

  lemma {:induction false} KeptSubWalks(keep: Path -> bool, admit: (Path, bool) -> bool, rel: Path, es: seq<Entry>)
    ensures SubWalks(keep, admit, rel, KeptDirs(keep, rel, DirEntries(es))) == DirWalks(keep, admit, rel, es)
    decreases |es|
  {
    if es != [] {
      var init, last := es[..|es| - 1], es[|es| - 1];
      KeptSubWalks(keep, admit, rel, init);
      var ds0 := DirEntries(init);
      if IsDirEntry(last) {
        var ds := ds0 + [last];
        assert DirEntries(es) == ds;
        assert ds[..|ds| - 1] == ds0;
        var k0 := KeptDirs(keep, rel, ds0);
        if keep(rel + [last.name]) {
          var ks := k0 + [last];
          assert KeptDirs(keep, rel, ds) == ks;
          assert ks[..|ks| - 1] == k0;
        } else {
          assert KeptDirs(keep, rel, ds) == k0;
        }
      } else {
        assert DirEntries(es) == ds0;
      }
    }
  }

  lemma AdmittedStep(admit: (Path, bool) -> bool, rel: Path, fs: seq<Entry>, i: nat)
    requires i < |fs|
    ensures Admitted(admit, rel, fs[..i + 1]) == Admitted(admit, rel, fs[..i])
      + (if fs[i].File? && admit(rel + [fs[i].name], fs[i].symlink) then [rel + [fs[i].name]] else [])
  {
    assert fs[..i + 1][..i] == fs[..i];
  }

  lemma SubWalksStep(keep: Path -> bool, admit: (Path, bool) -> bool, rel: Path, ks: seq<Entry>, i: nat)
    requires i < |ks|
    ensures ks[i].Dir? ==>
      SubWalks(keep, admit, rel, ks[..i + 1])
        == SubWalks(keep, admit, rel, ks[..i]) + WalkSpec(keep, admit, rel + [ks[i].name], ks[i].entries)
    ensures !ks[i].Dir? ==> SubWalks(keep, admit, rel, ks[..i + 1]) == SubWalks(keep, admit, rel, ks[..i])
  {
    assert ks[..i + 1][..i] == ks[..i];
  }

  /** `a` is `b` with some elements left out, the rest kept in order. */
  predicate IsSubsequence<T(==)>(a: seq<T>, b: seq<T>)
    decreases |b|
  {
    if a == [] then true
    else if b == [] then false
    else (a[|a| - 1] == b[|b| - 1] && IsSubsequence(a[..|a| - 1], b[..|b| - 1]))
         || IsSubsequence(a, b[..|b| - 1])
  }

  /** The pruned list keeps the order of the listing. */
  lemma {:induction false} KeptDirsSubsequence(keep: Path -> bool, rel: Path, ds: seq<Entry>)
    ensures IsSubsequence(KeptDirs(keep, rel, ds), ds)
    decreases |ds|
  {
    if ds != [] {
      var init := ds[..|ds| - 1];
      var k0 := KeptDirs(keep, rel, init);
      KeptDirsSubsequence(keep, rel, init);
      if keep(rel + [ds[|ds| - 1].name]) {
        var k := k0 + [ds[|ds| - 1]];
        assert k[..|k| - 1] == k0;
      } else {
        assert KeptDirs(keep, rel, ds) == k0;
        if k0 != [] {
          assert IsSubsequence(k0, ds);
        }
      }
    }
  }

  /** A directory entry survives pruning exactly when it is kept. */
  lemma {:induction false} KeptDirsMembers(keep: Path -> bool, rel: Path, ds: seq<Entry>, d: Entry)
    ensures d in KeptDirs(keep, rel, ds) <==> d in ds && keep(rel + [d.name])
    decreases |ds|
  {
    if ds != [] {
      var init := ds[..|ds| - 1];
      KeptDirsMembers(keep, rel, init, d);
      assert ds == init + [ds[|ds| - 1]];
    }
  }

  /** The pruning loop: `kept_dirnames` holds, in order, the directory
      entries of `rel` that are neither ignored by name nor matched by an
      exclusion glob. */
  method PruneDirs(p: Policy, rel: Path, dirnames: seq<Entry>) returns (kept: seq<Entry>)
    ensures kept == KeptDirs(KeepOf(p), rel, dirnames)
    ensures IsSubsequence(kept, dirnames)
    ensures forall d :: d in kept <==>
      d in dirnames && d.name !in p.ignoreDirs && !MatchesAnyGlob(Posix(rel + [d.name]), p.excludeGlobs, true)
  {
    kept := [];
    for i := 0 to |dirnames|
      invariant kept == KeptDirs(KeepOf(p), rel, dirnames[..i])
    {
      assert dirnames[..i + 1][..i] == dirnames[..i];
      var d := dirnames[i];
      if d.name in p.ignoreDirs {
        continue;
      }
      var relDir := rel + [d.name];
      if MatchesAnyGlob(Posix(relDir), p.excludeGlobs, true) {
        continue;
      }
      kept := kept + [d];
    }
    assert dirnames[..|dirnames|] == dirnames;
    KeptDirsSubsequence(KeepOf(p), rel, dirnames);
    forall d ensures d in kept <==> d in dirnames && KeepDir(p, rel + [d.name]) {
      KeptDirsMembers(KeepOf(p), rel, dirnames, d);
    }
  }

  /** The file loop: every file entry of `rel` that passes the admission
      checks, in order, is appended to `files`. */
  method AppendAdmitted(p: Policy, rel: Path, filenames: seq<Entry>, files: seq<Path>) returns (out: seq<Path>)
    requires forall e :: e in filenames ==> e.File?
    ensures out == files + Admitted(AdmitOf(p), rel, filenames)
  {
    out := files;
    for i := 0 to |filenames|
      invariant out == files + Admitted(AdmitOf(p), rel, filenames[..i])
    {
      var fn := filenames[i];
      var path := rel + [fn.name];
      AdmittedStep(AdmitOf(p), rel, filenames, i);
      AdmitOfFile(p, rel, fn.name, fn.symlink);
      SeqAssoc(files, Admitted(AdmitOf(p), rel, filenames[..i]), [path]);
      if fn.name in p.ignoreFiles {
        continue;
      }
      if fn.symlink {
        continue;
      }
      if MatchesAnyGlob(Posix(path), p.excludeGlobs, false) {
        continue;
      }
      var ext := Ext(fn.name);
      if ext in p.excludeExts {
        continue;
      }
      if p.includeExts != {} && ext !in p.includeExts {
        continue;
      }
      out := out + [path];
    }
    assert filenames[..|filenames|] == filenames;
  }

  /** The admission checks for the file `name` of directory `rel`. */
  lemma AdmitOfFile(p: Policy, rel: Path, name: string, symlink: bool)
    ensures AdmitOf(p)(rel + [name], symlink) <==>
      && name !in p.ignoreFiles
      && !symlink
      && !MatchesAnyGlob(Posix(rel + [name]), p.excludeGlobs, false)
      && Ext(name) !in p.excludeExts
      && (p.includeExts == {} || Ext(name) in p.includeExts)
  {
    assert Name(rel + [name]) == name;
  }

  /** One directory of the walk: prune its subdirectory list, append its
      admitted files, then (as `os.walk` does next) walk each kept
      subdirectory in turn. `files` grows by the admitted files of
      `entries` and of every kept subdirectory below it. */
  method Walk(p: Policy, rel: Path, entries: seq<Entry>, files: seq<Path>) returns (out: seq<Path>)
    ensures out == files + WalkSpec(KeepOf(p), AdmitOf(p), rel, entries)
    decreases entries, 1
  {
    var dirnames := DirEntries(entries);
    var filenames := FileEntries(entries);
    dirnames := PruneDirs(p, rel, dirnames);
    out := AppendAdmitted(p, rel, filenames, files);
    out := WalkSubdirs(p, rel, dirnames, entries, out);
    KeptSubWalks(KeepOf(p), AdmitOf(p), rel, entries);
    SeqAssoc(files, Admitted(AdmitOf(p), rel, filenames), DirWalks(KeepOf(p), AdmitOf(p), rel, entries));
  }

  /** The walk's descent into the pruned `dirnames` of `rel`, in order;
      directory links are listed but not followed. */
  method WalkSubdirs(p: Policy, rel: Path, dirnames: seq<Entry>, ghost listing: seq<Entry>, files: seq<Path>)
    returns (out: seq<Path>)
    requires forall d :: d in dirnames ==> d in listing
    ensures out == files + SubWalks(KeepOf(p), AdmitOf(p), rel, dirnames)
    decreases listing, 0
  {
    out := files;
    for i := 0 to |dirnames|
      invariant out == files + SubWalks(KeepOf(p), AdmitOf(p), rel, dirnames[..i])
    {
      assert dirnames[i] in listing;
      SubWalksStep(KeepOf(p), AdmitOf(p), rel, dirnames, i);
      match dirnames[i]
      case Dir(name, cs) =>
        out := Walk(p, rel + [name], cs, out);
        SeqAssoc(files, SubWalks(KeepOf(p), AdmitOf(p), rel, dirnames[..i]), WalkSpec(KeepOf(p), AdmitOf(p), rel + [name], cs));
      case DirLink(_) =>
      case File(_, _) =>
    }
    assert dirnames[..|dirnames|] == dirnames;
  }

  /** `t` names, relative to the listing `es`, a non-directory entry
      reached through real subdirectories only, with link flag `symlink`. */
  ghost predicate FileIn(es: seq<Entry>, t: Path, symlink: bool)
    decreases es
  {
    if |t| == 0 then false
    else if |t| == 1 then File(t[0], symlink) in es
    else exists cs :: Dir(t[0], cs) in es && FileIn(cs, t[1..], symlink)
  }

  /** The walk below `rel` (with listing `es`) reports `f` exactly when
      `f` is a file below `rel`, every directory strictly between them is
      kept, and the file itself is admitted. */
  ghost predicate Selected(keep: Path -> bool, admit: (Path, bool) -> bool, rel: Path, es: seq<Entry>, f: Path)
  {
    && |f| > |rel|
    && f[..|rel|] == rel
    && (exists symlink :: FileIn(es, f[|rel|..], symlink) && admit(f, symlink))
    && (forall k :: |rel| < k < |f| ==> keep(f[..k]))
  }

  /** Every path the file loop appends comes from a file entry it admits. */
  lemma {:induction false} AdmittedSource(admit: (Path, bool) -> bool, rel: Path, fs: seq<Entry>, f: Path)
    returns (name: string, symlink: bool)
    requires f in Admitted(admit, rel, fs)
    ensures File(name, symlink) in fs && f == rel + [name] && admit(f, symlink)
    decreases |fs|
  {
    var init, e := fs[..|fs| - 1], fs[|fs| - 1];
    assert fs == init + [e];
    if f in Admitted(admit, rel, init) {
      name, symlink := AdmittedSource(admit, rel, init, f);
    } else {
      name, symlink := e.name, e.symlink;
    }
  }

  /** Every admitted file entry is appended by the file loop. */
  lemma {:induction false} AdmittedHas(admit: (Path, bool) -> bool, rel: Path, fs: seq<Entry>, name: string, symlink: bool)
    requires File(name, symlink) in fs && admit(rel + [name], symlink)
    ensures rel + [name] in Admitted(admit, rel, fs)
    decreases |fs|
  {
    var init, e := fs[..|fs| - 1], fs[|fs| - 1];
    assert fs == init + [e];
    if e != File(name, symlink) {
      AdmittedHas(admit, rel, init, name, symlink);
    }
  }

  /** Every path found below the subdirectories comes from a kept one. */
  lemma {:induction false} DirWalksSource(keep: Path -> bool, admit: (Path, bool) -> bool, rel: Path, es: seq<Entry>, f: Path)
    returns (name: string, cs: seq<Entry>)
    requires f in DirWalks(keep, admit, rel, es)
    ensures Dir(name, cs) in es && keep(rel + [name]) && f in WalkSpec(keep, admit, rel + [name], cs)
    decreases |es|
  {
    var init, e := es[..|es| - 1], es[|es| - 1];
    assert es == init + [e];
    if f in DirWalks(keep, admit, rel, init) {
      name, cs := DirWalksSource(keep, admit, rel, init, f);
    } else {
      name, cs := e.name, e.entries;
    }
  }

  /** Every path found below a kept subdirectory is reported. */
  lemma {:induction false} DirWalksHas(keep: Path -> bool, admit: (Path, bool) -> bool, rel: Path, es: seq<Entry>,
                                       name: string, cs: seq<Entry>, f: Path)
    requires Dir(name, cs) in es && keep(rel + [name]) && f in WalkSpec(keep, admit, rel + [name], cs)
    ensures f in DirWalks(keep, admit, rel, es)
    decreases |es|
  {
    var init, e := es[..|es| - 1], es[|es| - 1];
    assert es == init + [e];
    if e != Dir(name, cs) {
      DirWalksHas(keep, admit, rel, init, name, cs, f);
    }
  }

  /** A file the directory's own loop admits is selected. */
  lemma OwnFileSelected(keep: Path -> bool, admit: (Path, bool) -> bool, rel: Path, es: seq<Entry>,
                        name: string, symlink: bool)
    requires File(name, symlink) in es && admit(rel + [name], symlink)
    ensures Selected(keep, admit, rel, es, rel + [name])
  {
    var f := rel + [name];
    assert f[|rel|..] == [name];
    assert FileIn(es, f[|rel|..], symlink);
    assert f[..|rel|] == rel;
  }

  /** A file selected below a kept subdirectory is selected here too. */
  lemma SubFileSelected(keep: Path -> bool, admit: (Path, bool) -> bool, rel: Path, es: seq<Entry>,
                        name: string, cs: seq<Entry>, f: Path)
    requires Dir(name, cs) in es && keep(rel + [name])
    requires Selected(keep, admit, rel + [name], cs, f)
    ensures Selected(keep, admit, rel, es, f)
  {
    var sub := rel + [name];
    var symlink :| FileIn(cs, f[|sub|..], symlink) && admit(f, symlink);
    var t := f[|rel|..];
    assert f[..|sub|] == sub;
    assert f[..|rel|] == f[..|sub|][..|rel|];
    assert t[0] == name && t[1..] == f[|sub|..];
    assert FileIn(es, t, symlink);
    forall k | |rel| < k < |f| ensures keep(f[..k]) {
      if k == |sub| {
        assert f[..k] == sub;
      }
    }
  }

  /** What the walk reports is selected. */
  lemma {:induction false} WalkedIsSelected(keep: Path -> bool, admit: (Path, bool) -> bool, rel: Path, es: seq<Entry>, f: Path)
    requires f in WalkSpec(keep, admit, rel, es)
    ensures Selected(keep, admit, rel, es, f)
    decreases es
  {
    if f in Admitted(admit, rel, FileEntries(es)) {
      var name, symlink := AdmittedSource(admit, rel, FileEntries(es), f);
      OwnFileSelected(keep, admit, rel, es, name, symlink);
    } else {
      var name, cs := DirWalksSource(keep, admit, rel, es, f);
      WalkedIsSelected(keep, admit, rel + [name], cs, f);
      SubFileSelected(keep, admit, rel, es, name, cs, f);
    }
  }

  /** What is selected, the walk reports. */
  lemma {:induction false} SelectedIsWalked(keep: Path -> bool, admit: (Path, bool) -> bool, rel: Path, es: seq<Entry>, f: Path)
    requires Selected(keep, admit, rel, es, f)
    ensures f in WalkSpec(keep, admit, rel, es)
    decreases es
  {
    var symlink :| FileIn(es, f[|rel|..], symlink) && admit(f, symlink);
    var t := f[|rel|..];
    var name := t[0];
    var sub := rel + [name];
    assert f[..|sub|] == sub;
    if |t| == 1 {
      assert f == sub;
      AdmittedHas(admit, rel, FileEntries(es), name, symlink);
    } else {
      var cs :| Dir(name, cs) in es && FileIn(cs, t[1..], symlink);
      assert t[1..] == f[|sub|..];
      assert f[..|sub|][..|rel|] == rel;
      assert keep(f[..|sub|]);
      assert Selected(keep, admit, sub, cs, f);
      SelectedIsWalked(keep, admit, sub, cs, f);
      DirWalksHas(keep, admit, rel, es, name, cs, f);
    }
  }

  /** The walk reports exactly the selected files. */
  lemma WalkSpecSelects(keep: Path -> bool, admit: (Path, bool) -> bool, rel: Path, es: seq<Entry>, f: Path)
    ensures f in WalkSpec(keep, admit, rel, es) <==> Selected(keep, admit, rel, es, f)
  {
    if f in WalkSpec(keep, admit, rel, es) {
      WalkedIsSelected(keep, admit, rel, es, f);
    }
    if Selected(keep, admit, rel, es, f) {
      SelectedIsWalked(keep, admit, rel, es, f);
    }
  }

  /** The sort key: the lower-cased POSIX form of the relative path. */
  predicate PathLe(a: Path, b: Path)
  {
    StrLe(Lower(Posix(a)), Lower(Posix(b)))
  }

  lemma PathLeIsTotalPreorder()
    ensures IsTotalPreorder(PathLe)
  {
    forall a: Path, b: Path ensures PathLe(a, b) || PathLe(b, a) {
      StrLeTotal(Lower(Posix(a)), Lower(Posix(b)));
    }
    forall a: Path, b: Path, c: Path | PathLe(a, b) && PathLe(b, c) ensures PathLe(a, c) {
      StrLeTrans(Lower(Posix(a)), Lower(Posix(b)), Lower(Posix(c)));
    }
  }

  /** `collect_files`: walk the tree from the root, then sort the relative
      paths by their lower-cased POSIX form. The result is sorted and
      holds exactly the selected files. */
  method CollectFiles(p: Policy, root: seq<Entry>) returns (files: seq<Path>)
    ensures files == SortSeq(WalkSpec(KeepOf(p), AdmitOf(p), [], root), PathLe)
    ensures Sorted(files, PathLe)
    ensures forall f :: f in files <==> Selected(KeepOf(p), AdmitOf(p), [], root, f)
  {
    files := Walk(p, [], root, []);
    assert files == WalkSpec(KeepOf(p), AdmitOf(p), [], root);
    ghost var walked := files;
    files := SortSeq(files, PathLe);
    PathLeIsTotalPreorder();
    SortSeqSorted(walked, PathLe);
    forall f ensures f in files <==> Selected(KeepOf(p), AdmitOf(p), [], root, f) {
      SortSeqSameElements(walked, PathLe, f);
      WalkSpecSelects(KeepOf(p), AdmitOf(p), [], root, f);
    }
  }

  /** Under a policy, the walk from the root reports `f` exactly when `f`
      names a regular (non-link) file of the tree whose checks all pass and
      every ancestor directory of which survives pruning: nothing is ever
      collected from below an ignored or glob-excluded directory. */
  lemma CollectedUnderPolicy(p: Policy, root: seq<Entry>, f: Path)
    ensures f in WalkSpec(KeepOf(p), AdmitOf(p), [], root) <==>
      && f != []
      && FileIn(root, f, false)
      && FileVerdict(p, f, false) == Include
      && (forall k :: 0 < k < |f| ==> KeepDir(p, f[..k]))
  {
    WalkSpecSelects(KeepOf(p), AdmitOf(p), [], root, f);
    assert f[0..] == f && f[..0] == [];
    if f in WalkSpec(KeepOf(p), AdmitOf(p), [], root) {
      var symlink :| FileIn(root, f, symlink) && AdmitOf(p)(f, symlink);
      if symlink {
        ExcludedFileNeverIncluded(p, f, true);
      }
    }
  }

  /** Nothing is collected from below an ignored directory name or a
      directory matched by an exclusion glob. */
  lemma NothingBelowPrunedDir(p: Policy, root: seq<Entry>, f: Path, k: nat)
    requires f in WalkSpec(KeepOf(p), AdmitOf(p), [], root)
    requires 0 < k < |f|
    ensures f[k - 1] !in p.ignoreDirs
    ensures !MatchesAnyGlob(Posix(f[..k]), p.excludeGlobs, true)
  {
    CollectedUnderPolicy(p, root, f);
    assert KeepDir(p, f[..k]);
    assert Name(f[..k]) == f[k - 1];
  }

  lemma ExampleSubFiles(admit: (Path, bool) -> bool)
    requires admit(["b", "c.py"], false)
    ensures Admitted(admit, ["b"], FileEntries([File("c.py", false)])) == [["b", "c.py"]]
  {
    var sub := [File("c.py", false)];
    assert sub[..0] == [];
    assert FileEntries(sub) == sub;
    assert ["b"] + ["c.py"] == ["b", "c.py"];
  }

  lemma ExampleSubDirs(keep: Path -> bool, admit: (Path, bool) -> bool)
    ensures DirWalks(keep, admit, ["b"], [File("c.py", false)]) == []
  {
    assert [File("c.py", false)][..0] == [];
  }

  lemma ExampleSubWalk(keep: Path -> bool, admit: (Path, bool) -> bool)
    requires admit(["b", "c.py"], false)
    ensures WalkSpec(keep, admit, ["b"], [File("c.py", false)]) == [["b", "c.py"]]
  {
    ExampleSubFiles(admit);
    ExampleSubDirs(keep, admit);
  }

  lemma ExampleOwnFiles(admit: (Path, bool) -> bool)
    requires admit(["a.py"], false)
    ensures Admitted(admit, [], FileEntries(ExampleTree())) == [["a.py"]]
  {
    var es := ExampleTree();
    assert es[..2][..1] == [es[0]] && es[..2] == [es[0], es[1]] && es[..1] == [es[0]];
    var fs := [File("a.py", false)];
    assert FileEntries(es) == fs;
    assert fs[..0] == [];
    assert [] + ["a.py"] == ["a.py"];
  }

  lemma ExampleDirWalks(keep: Path -> bool, admit: (Path, bool) -> bool)
    requires keep(["b"]) && !keep(["node_modules"])
    requires admit(["b", "c.py"], false)
    ensures DirWalks(keep, admit, [], ExampleTree()) == [["b", "c.py"]]
  {
    var es := ExampleTree();
    assert es[..2][..1] == [es[0]] && es[..2] == [es[0], es[1]] && es[..1] == [es[0]];
    assert [] + ["b"] == ["b"] && [] + ["node_modules"] == ["node_modules"];
    assert DirWalks(keep, admit, [], es[..1]) == [];
    ExampleSubWalk(keep, admit);
    assert DirWalks(keep, admit, [], es[..2]) == [["b", "c.py"]];
  }

  /** The walk of a small tree, for any decisions that keep `b`, prune
      `node_modules` and admit both `.py` files outside it. */
  lemma ExampleWalk(keep: Path -> bool, admit: (Path, bool) -> bool)
    requires keep(["b"]) && !keep(["node_modules"])
    requires admit(["a.py"], false) && admit(["b", "c.py"], false)
    ensures WalkSpec(keep, admit, [], ExampleTree()) == [["a.py"], ["b", "c.py"]]
  {
    var es := ExampleTree();
    var own, below := Admitted(admit, [], FileEntries(es)), DirWalks(keep, admit, [], es);
    assert WalkSpec(keep, admit, [], es) == own + below;
    assert own == [["a.py"]] by { ExampleOwnFiles(admit); }
    assert below == [["b", "c.py"]] by { ExampleDirWalks(keep, admit); }
  }

  function ExampleTree(): seq<Entry>
  {
    [File("a.py", false), Dir("b", [File("c.py", false)]), Dir("node_modules", [File("x.py", false)])]
  }

  lemma DefaultKeeps()
    ensures KeepOf(PolicyFromArgs("", "", ""))(["b"])
    ensures !KeepOf(PolicyFromArgs("", "", ""))(["node_modules"])
  {
    ParseEmpty();
  }

  lemma DefaultAdmitsTop()
    ensures AdmitOf(PolicyFromArgs("", "", ""))(["a.py"], false)
  {
    ParseEmpty();
    ExtOfOneLetterPy('a');
    assert "a.py" == ['a'] + ".py";
    PyNotExcludedByDefault();
  }

  lemma DefaultAdmitsNested()
    ensures AdmitOf(PolicyFromArgs("", "", ""))(["b", "c.py"], false)
  {
    ParseEmpty();
    ExtOfOneLetterPy('c');
    assert "c.py" == ['c'] + ".py";
    PyNotExcludedByDefault();
  }

  /** With the default options, a tree holding `a.py`, `b/c.py` and
      `node_modules/x.py` yields `a.py` then `b/c.py`: the ignored
      directory is never entered. */
  lemma DefaultWalkExample()
    ensures
      var p := PolicyFromArgs("", "", "");
      WalkSpec(KeepOf(p), AdmitOf(p), [], ExampleTree()) == [["a.py"], ["b", "c.py"]]
  {
    DefaultKeeps();
    DefaultAdmitsTop();
    DefaultAdmitsNested();
    ExampleWalk(KeepOf(PolicyFromArgs("", "", "")), AdmitOf(PolicyFromArgs("", "", "")));
  }
}
