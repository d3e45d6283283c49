/** The tree drawn for a small listing: `a.py` and `b/c.py`. The directory
    `b` is drawn before the file `a.py`, although `a` sorts first by name. */
module TreeExample {
  import opened Paths
  import opened TreeRender

  function Files(): seq<Path>
  {
    [["a.py"], ["b", "c.py"]]
  }

  lemma Kinds()
    ensures !IsDir(Files(), ["a.py"]) && IsDir(Files(), ["b"]) && !IsDir(Files(), ["b", "c.py"])
  {
    var fs := Files();
    assert fs[1][..1] == ["b"];
    assert forall f :: f in fs ==> f == ["a.py"] || f == ["b", "c.py"];
    assert ["b", "c.py"][..1] != ["a.py"];
  }

  lemma RootKids()
    ensures KidsOf(Files(), []) == [["a.py"], ["b"]]
  {
    var fs := Files();
    assert fs[..1] == [["a.py"]];
    assert fs[..1][..0] == [];
    assert ["a.py"][..1] == ["a.py"] && ["b", "c.py"][..1] == ["b"];
    assert KidsOf(fs[..1], []) == [["a.py"]];
  }

  lemma BKids()
    ensures KidsOf(Files(), ["b"]) == [["b", "c.py"]]
  {
    var fs := Files();
    assert fs[..1] == [["a.py"]];
    assert fs[..1][..0] == [];
    assert ["b", "c.py"][..1] == ["b"] && ["b", "c.py"][..2] == ["b", "c.py"];
    assert KidsOf(fs[..1], ["b"]) == [];
  }

  /** The directory `b` comes before the file `a.py`. */
  lemma RootChildren()
    ensures ChildrenOf(Files(), []) == [["b"], ["a.py"]]
  {
    RootKids();
    FileAfterDir();
    var ks := [["a.py"], ["b"]];
    var le := SiblingOrder(Files());
    assert ks[..1] == [["a.py"]] && ks[..1][..0] == [];
    assert Sorting.SortSeq(ks[..1], le) == [["a.py"]];
    assert !le(["a.py"], ["b"]);
  }

  lemma FileAfterDir()
    ensures !SiblingLe(Files(), ["a.py"], ["b"])
  {
    Kinds();
  }

  lemma BChildren()
    ensures ChildrenOf(Files(), ["b"]) == [["b", "c.py"]]
  {
    BKids();
    var ks := [["b", "c.py"]];
    assert ks[..0] == [];
  }

  lemma BLines()
    ensures Lines(Files(), "\U{2502}   ", ["b"]) == ["\U{2502}   \U{2514}\U{2500}\U{2500} c.py"]
  {
    var fs, pre := Files(), "\U{2502}   ";
    BChildren();
    Kinds();
    HeightOfFiles();
    var kids := [["b", "c.py"]];
    KidLinesUnfold(fs, pre, ["b"], kids, 0);
    assert SubLines(fs, pre + Extension(true), ["b", "c.py"]) == [];
    assert KidLines(fs, pre, ["b"], kids, 1) == [];
    LeafLine();
  }

  lemma LeafLine()
    ensures NodeLine(Files(), "\U{2502}   ", ["b", "c.py"], true) == "\U{2502}   \U{2514}\U{2500}\U{2500} c.py"
  {
    Kinds();
  }

  lemma HeightOfFiles()
    ensures Height(Files()) == 2
  {
    var fs := Files();
    assert fs[..1] == [["a.py"]] && fs[..1][..0] == [];
  }

  /** The lines `walk` appends for the listing; `build_tree_lines` puts
      `.` in front of them. */
  lemma ExampleLines()
    ensures Lines(Files(), "", []) == [
      "\U{251C}\U{2500}\U{2500} b/",
      "\U{2502}   \U{2514}\U{2500}\U{2500} c.py",
      "\U{2514}\U{2500}\U{2500} a.py"]
  {
    var fs, kids := Files(), [["b"], ["a.py"]];
    RootChildren();
    HeightOfFiles();
    KidLinesUnfold(fs, "", [], kids, 0);
    RootLines();
    BSubLines();
    LastKidLines();
    Assemble(NodeLine(fs, "", ["b"], false), SubLines(fs, "" + Extension(false), ["b"]),
             KidLines(fs, "", [], kids, 1), KidLines(fs, "", [], kids, 0));
  }

  lemma BSubLines()
    ensures SubLines(Files(), "" + Extension(false), ["b"]) == ["\U{2502}   \U{2514}\U{2500}\U{2500} c.py"]
  {
    Kinds();
    ExtensionNotLast();
    BLines();
  }

  lemma ExtensionNotLast()
    ensures "" + Extension(false) == "\U{2502}   "
  {
  }

  lemma LastKidLines()
    ensures KidLines(Files(), "", [], [["b"], ["a.py"]], 1) == ["\U{2514}\U{2500}\U{2500} a.py"]
  {
    var fs, kids := Files(), [["b"], ["a.py"]];
    HeightOfFiles();
    Kinds();
    KidLinesUnfold(fs, "", [], kids, 1);
    assert KidLines(fs, "", [], kids, 2) == [];
    assert SubLines(fs, "" + Extension(true), ["a.py"]) == [];
    RootLines();
  }

  lemma Assemble<T>(a: T, s: seq<T>, k1: seq<T>, k0: seq<T>)
    requires k0 == [a] + s + k1 && |s| == 1 && |k1| == 1
    ensures k0 == [a, s[0], k1[0]]
  {
  }

  lemma RootLines()
    ensures NodeLine(Files(), "", ["b"], false) == "\U{251C}\U{2500}\U{2500} b/"
    ensures NodeLine(Files(), "", ["a.py"], true) == "\U{2514}\U{2500}\U{2500} a.py"
  {
    Kinds();
  }
}
