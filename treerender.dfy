/** `build_tree_lines`: the ASCII tree of the collected files. The set of
    nodes (every non-empty prefix of a file path) is built first; the walk
    then lists the children of each directory, directories first and by
    case-folded name, drawing `├── ` / `└── ` connectors and indenting
    with `│   ` / four spaces.

    Whether a node is a directory is asked of the file system in the
    program; here a node is a directory exactly when some listed file lies
    strictly below it, which is what the file system answers for paths
    that `collect_files` produced. */
module TreeRender {
  import opened Text
  import opened Paths
  import opened Sorting

  /** `n` is a node of the tree: a non-empty prefix of a listed file. */
  predicate IsNode(files: seq<Path>, n: Path)
  {
    n != [] && exists f :: f in files && |n| <= |f| && f[..|n|] == n
  }

  /** `(root / n).is_dir()`: some listed file lies strictly below `n`. */
  predicate IsDir(files: seq<Path>, n: Path)
  {
    exists f :: f in files && |n| < |f| && f[..|n|] == n
  }

  /** `n` is a direct child of `parent`. */
  predicate IsChild(parent: Path, n: Path)
  {
    |n| == |parent| + 1 && n[..|parent|] == parent
  }

  /** Every element occurs at most once. */
  ghost predicate NoDup<T(!new)>(s: seq<T>)
  {
    forall x :: multiset(s)[x] <= 1
  }

  /** `n` is one of `parts[:1]`, ..., `parts[:i-1]`. */
  predicate ShortPrefix(parts: Path, i: nat, n: Path)
  {
    n != [] && |n| < i && |n| <= |parts| && n == parts[..|n|]
  }

  /** The node-set loop: every prefix `parts[:i]`, `1 <= i <= len(parts)`,
      of every file is added. */
  method BuildNodes(files: seq<Path>) returns (nodes: set<Path>)
    ensures forall n :: n in nodes <==> IsNode(files, n)
  {
    nodes := {};
    for j := 0 to |files|
      invariant forall n :: n in nodes <==> IsNode(files[..j], n)
    {
      var parts := files[j];
      for i := 1 to |parts| + 1
        invariant forall n :: n in nodes <==> IsNode(files[..j], n) || ShortPrefix(parts, i, n)
      {
        ghost var before := nodes;
        nodes := nodes + {parts[..i]};
        forall n ensures n in nodes <==> IsNode(files[..j], n) || ShortPrefix(parts, i + 1, n) {
          assert ShortPrefix(parts, i + 1, n) <==> ShortPrefix(parts, i, n) || n == parts[..i];
        }
      }
      NodesStep(files, j);
    }
    assert files[..|files|] == files;
  }

  lemma NodesStep(files: seq<Path>, j: nat)
    requires j < |files|
    ensures forall n :: IsNode(files[..j + 1], n) <==> IsNode(files[..j], n) || ShortPrefix(files[j], |files[j]| + 1, n)
  {
    var parts := files[j];
    assert files[..j + 1] == files[..j] + [parts];
    forall n ensures IsNode(files[..j + 1], n) <==> IsNode(files[..j], n) || ShortPrefix(parts, |parts| + 1, n) {
      if ShortPrefix(parts, |parts| + 1, n) {
        assert parts in files[..j + 1];
      }
      if IsNode(files[..j + 1], n) && !IsNode(files[..j], n) {
        var f :| f in files[..j + 1] && |n| <= |f| && f[..|n|] == n;
        assert f == parts;
      }
    }
  }

  /** The sort key of `children`: directories before files, then the
      lower-cased name; names that agree ignoring case are ordered by the
      name itself. */
  predicate KeyLe(dirA: bool, nameA: string, dirB: bool, nameB: string)
    ensures dirA && !dirB ==> KeyLe(dirA, nameA, dirB, nameB)
    ensures !dirA && dirB ==> !KeyLe(dirA, nameA, dirB, nameB)
    ensures dirA == dirB && Lower(nameA) != Lower(nameB) ==>
      (KeyLe(dirA, nameA, dirB, nameB) <==> StrLe(Lower(nameA), Lower(nameB)))
  {
    if dirA != dirB then dirA
    else if Lower(nameA) != Lower(nameB) then StrLe(Lower(nameA), Lower(nameB))
    else StrLe(nameA, nameB)
  }

  lemma KeyLeTotal(dirA: bool, nameA: string, dirB: bool, nameB: string)
    ensures KeyLe(dirA, nameA, dirB, nameB) || KeyLe(dirB, nameB, dirA, nameA)
  {
    StrLeTotal(Lower(nameA), Lower(nameB));
    StrLeTotal(nameA, nameB);
  }

  lemma KeyLeTrans(dirA: bool, nameA: string, dirB: bool, nameB: string, dirC: bool, nameC: string)
    requires KeyLe(dirA, nameA, dirB, nameB) && KeyLe(dirB, nameB, dirC, nameC)
    ensures KeyLe(dirA, nameA, dirC, nameC)
  {
    if dirA == dirB && dirB == dirC {
      var a, b, c := Lower(nameA), Lower(nameB), Lower(nameC);
      if a != b && b != c {
        StrLeTrans(a, b, c);
        if a == c {
          StrLeAntisym(a, b);
        }
      } else if a != b {
        assert b == c;
      } else if b != c {
        assert a == b;
      } else {
        StrLeTrans(nameA, nameB, nameC);
      }
    }
  }

  lemma KeyLeAntisym(dirA: bool, nameA: string, dirB: bool, nameB: string)
    requires KeyLe(dirA, nameA, dirB, nameB) && KeyLe(dirB, nameB, dirA, nameA)
    ensures dirA == dirB && nameA == nameB
  {
    if Lower(nameA) != Lower(nameB) {
      StrLeAntisym(Lower(nameA), Lower(nameB));
    } else {
      StrLeAntisym(nameA, nameB);
    }
  }

  /** The order of siblings in the tree. */
  predicate SiblingLe(files: seq<Path>, a: Path, b: Path)
  {
    KeyLe(IsDir(files, a), Name(a), IsDir(files, b), Name(b))
  }

  function SiblingOrder(files: seq<Path>): (Path, Path) -> bool
  {
    (a: Path, b: Path) => SiblingLe(files, a, b)
  }

  lemma SiblingOrderIsTotalPreorder(files: seq<Path>)
    ensures IsTotalPreorder(SiblingOrder(files))
  {
    forall a: Path, b: Path ensures SiblingLe(files, a, b) || SiblingLe(files, b, a) {
      KeyLeTotal(IsDir(files, a), Name(a), IsDir(files, b), Name(b));
    }
    forall a: Path, b: Path, c: Path | SiblingLe(files, a, b) && SiblingLe(files, b, c)
      ensures SiblingLe(files, a, c)
    {
      KeyLeTrans(IsDir(files, a), Name(a), IsDir(files, b), Name(b), IsDir(files, c), Name(c));
    }
  }

  /** Two different siblings are never tied: the sibling order is strict
      on the children of one directory. */
  lemma SiblingsNeverTie(files: seq<Path>, parent: Path, a: Path, b: Path)
    requires IsChild(parent, a) && IsChild(parent, b)
    requires SiblingLe(files, a, b) && SiblingLe(files, b, a)
    ensures a == b
  {
    KeyLeAntisym(IsDir(files, a), Name(a), IsDir(files, b), Name(b));
    assert a == a[..|parent|] + [Name(a)];
    assert b == b[..|parent|] + [Name(b)];
  }

  /** The children of `parent` in the order the files first reach them. */
  function KidsOf(files: seq<Path>, parent: Path): (ks: seq<Path>)
    ensures NoDup(ks)
    ensures forall n :: n in ks ==> IsChild(parent, n)
  {
    if files == [] then []
    else
      var f := files[|files| - 1];
      var ks := KidsOf(files[..|files| - 1], parent);
      if |f| > |parent| && f[..|parent|] == parent && f[..|parent| + 1] !in ks then
        assert f[..|parent| + 1][..|parent|] == parent;
        ks + [f[..|parent| + 1]]
      else
        ks
  }

  /** The children listed are exactly the nodes one level below `parent`. */
  lemma KidsOfMembers(files: seq<Path>, parent: Path)
    ensures forall n :: n in KidsOf(files, parent) <==> IsChild(parent, n) && IsNode(files, n)
  {
    forall n ensures n in KidsOf(files, parent) <==> IsChild(parent, n) && IsNode(files, n) {
      KidsOfHas(files, parent, n);
    }
  }

  lemma {:induction false} KidsOfHas(files: seq<Path>, parent: Path, n: Path)
    ensures n in KidsOf(files, parent) <==> IsChild(parent, n) && IsNode(files, n)
    decreases |files|
  {
    if files != [] {
      var init, f := files[..|files| - 1], files[|files| - 1];
      assert files == init + [f];
      KidsOfHas(init, parent, n);
      NodeOfSnoc(init, f, n);
      if IsChild(parent, n) && |n| <= |f| && f[..|n|] == n {
        assert f[..|parent|] == n[..|parent|];
      }
    }
  }

  /** The nodes of `init + [f]` are those of `init` and the prefixes of `f`. */
  lemma NodeOfSnoc(init: seq<Path>, f: Path, n: Path)
    ensures IsNode(init + [f], n) <==> IsNode(init, n) || (n != [] && |n| <= |f| && f[..|n|] == n)
  {
    if IsNode(init + [f], n) && !IsNode(init, n) {
      var g :| g in init + [f] && |n| <= |g| && g[..|n|] == n;
      assert g !in init;
    }
  }

  /** `children(of)`: the children of `parent`, sorted. */
  function ChildrenOf(files: seq<Path>, parent: Path): (kids: seq<Path>)
    ensures forall n :: n in kids ==> IsChild(parent, n)
  {
    var ks := KidsOf(files, parent);
    var kids := SortSeq(ks, SiblingOrder(files));
    assert forall n :: n in kids ==> n in multiset(ks);
    kids
  }

  /** The children listed are exactly the nodes one level below `parent`. */
  lemma ChildrenOfMembers(files: seq<Path>, parent: Path)
    ensures forall n :: n in ChildrenOf(files, parent) <==> IsChild(parent, n) && IsNode(files, n)
  {
    var ks := KidsOf(files, parent);
    var kids := ChildrenOf(files, parent);
    KidsOfMembers(files, parent);
    assert forall n :: n in kids <==> n in multiset(kids);
    assert forall n :: n in ks <==> n in multiset(ks);
  }

  /** The children listed are exactly the nodes one level below `parent`,
      each once, directories first and then by case-folded name. */
  lemma ChildrenOfSpec(files: seq<Path>, parent: Path)
    ensures NoDup(ChildrenOf(files, parent))
    ensures forall n :: n in ChildrenOf(files, parent) <==> IsChild(parent, n) && IsNode(files, n)
    ensures Sorted(ChildrenOf(files, parent), SiblingOrder(files))
  {
    SiblingOrderIsTotalPreorder(files);
    SortSeqSorted(KidsOf(files, parent), SiblingOrder(files));
    ChildrenOfMembers(files, parent);
  }

  /** Sequences without repetition that hold the same elements hold them
      the same number of times. */
  lemma SameMultiset(a: seq<Path>, b: seq<Path>)
    requires NoDup(a) && NoDup(b)
    requires forall n :: n in a <==> n in b
    ensures multiset(a) == multiset(b)
  {
    forall n ensures multiset(a)[n] == multiset(b)[n] {
      assert n in a <==> n in multiset(a);
      assert n in b <==> n in multiset(b);
    }
  }

  /** `children(of)`: scan the node set (in whatever order the set yields
      its elements), keep the direct children of `parent`, then sort them. */
  method Children(files: seq<Path>, nodes: set<Path>, parent: Path) returns (kids: seq<Path>)
    requires forall n :: n in nodes <==> IsNode(files, n)
    ensures kids == ChildrenOf(files, parent)
  {
    var out: seq<Path> := [];
    var rest := nodes;
    while rest != {}
      invariant rest <= nodes
      invariant NoDup(out)
      invariant forall n :: n in out <==> n in nodes && n !in rest && IsChild(parent, n)
      decreases |rest|
    {
      var n :| n in rest;
      rest := rest - {n};
      if |n| == |parent| + 1 && n[..|parent|] == parent {
        assert n !in out;
        out := out + [n];
      }
    }
    kids := SortSeq(out, SiblingOrder(files));
    var spec := ChildrenOf(files, parent);
    ChildrenOfSpec(files, parent);
    KidsOfMembers(files, parent);
    SameMultiset(out, KidsOf(files, parent));
    SiblingOrderIsTotalPreorder(files);
    SortSeqSorted(out, SiblingOrder(files));
    forall a, b | a in kids && b in kids && SiblingLe(files, a, b) && SiblingLe(files, b, a)
      ensures a == b
    {
      assert a in multiset(kids) && b in multiset(kids);
      SiblingsNeverTie(files, parent, a, b);
    }
    SortedUnique(kids, spec, SiblingOrder(files));
  }

  /** The length of the longest listed path. */
  function Height(files: seq<Path>): nat
  {
    if files == [] then 0
    else
      var h := Height(files[..|files| - 1]);
      if |files[|files| - 1]| > h then |files[|files| - 1]| else h
  }

  /** No listed path is longer than the height. */
  lemma {:induction false} HeightBound(files: seq<Path>, f: Path)
    requires f in files
    ensures |f| <= Height(files)
    decreases |files|
  {
    var init := files[..|files| - 1];
    assert files == init + [files[|files| - 1]];
    if f != files[|files| - 1] {
      HeightBound(init, f);
    }
  }

  /** A directory node lies strictly below the height of the tree. */
  lemma DirBelowHeight(files: seq<Path>, n: Path)
    requires IsDir(files, n)
    ensures |n| < Height(files)
  {
    var f :| f in files && |n| < |f| && f[..|n|] == n;
    HeightBound(files, f);
  }

  /** `├── ` for a child with later siblings, `└── ` for the last one. */
  function Connector(isLast: bool): (c: string)
    ensures |c| == 4 && c[1..] == "\U{2500}\U{2500} "
    ensures c[0] == '\U{2514}' <==> isLast
  {
    if isLast then "\U{2514}\U{2500}\U{2500} " else "\U{251C}\U{2500}\U{2500} "
  }

  /** The indentation added below a child: a vertical bar while siblings
      follow, blanks below the last one. */
  function Extension(isLast: bool): (e: string)
    ensures |e| == |Connector(isLast)| && e[1..] == "   "
    ensures e[0] == ' ' <==> isLast
  {
    if isLast then "    " else "\U{2502}   "
  }

  /** The line drawn for child `k` after `prefix`. */
  function NodeLine(files: seq<Path>, prefix: string, k: Path, isLast: bool): string
  {
    prefix + Connector(isLast) + Name(k) + (if IsDir(files, k) then "/" else "")
  }

  /** The lines `walk(prefix, parent)` appends. */
  function Lines(files: seq<Path>, prefix: string, parent: Path): seq<string>
    requires |parent| <= Height(files)
    decreases Height(files) - |parent|, 1, 0
  {
    KidLines(files, prefix, parent, ChildrenOf(files, parent), 0)
  }

  /** The lines for the children `kids[i..]` of `parent` and everything
      below them. */
  function KidLines(files: seq<Path>, prefix: string, parent: Path, kids: seq<Path>, i: nat): seq<string>
    requires |parent| <= Height(files)
    requires i <= |kids|
    requires forall k :: k in kids ==> IsChild(parent, k)
    decreases Height(files) - |parent|, 0, |kids| - i
  {
    if i == |kids| then []
    else
      var k := kids[i];
      assert k in kids && IsChild(parent, k);
      var isLast := i == |kids| - 1;
      [NodeLine(files, prefix, k, isLast)]
        + (if IsDir(files, k) then DirBelowHeight(files, k); Lines(files, prefix + Extension(isLast), k) else [])
        + KidLines(files, prefix, parent, kids, i + 1)
  }

  /** The subtree drawn below child `k` under indentation `prefix`:
      nothing for a file. */
  function SubLines(files: seq<Path>, prefix: string, k: Path): seq<string>
  {
    if IsDir(files, k) then DirBelowHeight(files, k); Lines(files, prefix, k) else []
  }

  lemma KidLinesUnfold(files: seq<Path>, prefix: string, parent: Path, kids: seq<Path>, i: nat)
    requires |parent| <= Height(files)
    requires i < |kids|
    requires forall k :: k in kids ==> IsChild(parent, k)
    ensures KidLines(files, prefix, parent, kids, i)
      == [NodeLine(files, prefix, kids[i], i == |kids| - 1)]
         + SubLines(files, prefix + Extension(i == |kids| - 1), kids[i])
         + KidLines(files, prefix, parent, kids, i + 1)
  {
  }

  /** Emitting the next child's line and subtree keeps the total. */
  lemma WalkStep(files: seq<Path>, prefix: string, parent: Path, kids: seq<Path>, idx: nat,
                 done: seq<string>, total: seq<string>)
    requires |parent| <= Height(files)
    requires idx < |kids|
    requires forall k :: k in kids ==> IsChild(parent, k)
    requires done + KidLines(files, prefix, parent, kids, idx) == total
    ensures done + [NodeLine(files, prefix, kids[idx], idx == |kids| - 1)]
                 + SubLines(files, prefix + Extension(idx == |kids| - 1), kids[idx])
                 + KidLines(files, prefix, parent, kids, idx + 1) == total
  {
    KidLinesUnfold(files, prefix, parent, kids, idx);
    Regroup(done, [NodeLine(files, prefix, kids[idx], idx == |kids| - 1)],
            SubLines(files, prefix + Extension(idx == |kids| - 1), kids[idx]),
            KidLines(files, prefix, parent, kids, idx + 1));
  }

  lemma Regroup<T>(a: seq<T>, b: seq<T>, c: seq<T>, d: seq<T>)
    ensures a + (b + c + d) == a + b + c + d
  {
  }

  /** `walk(prefix, parent)`: one line per child of `parent`, each directory
      followed by its own subtree drawn one level deeper. */
  method Walk(files: seq<Path>, nodes: set<Path>, prefix: string, parent: Path, lines: seq<string>)
    returns (out: seq<string>)
    requires forall n :: n in nodes <==> IsNode(files, n)
    requires |parent| <= Height(files)
    ensures out == lines + Lines(files, prefix, parent)
    decreases Height(files) - |parent|
  {
    var kids := Children(files, nodes, parent);
    ghost var total := lines + Lines(files, prefix, parent);
    out := lines;
    for idx := 0 to |kids|
      invariant out + KidLines(files, prefix, parent, kids, idx) == total
    {
      var k := kids[idx];
      var isLast := idx == |kids| - 1;
      var connector := Connector(isLast);
      var isDir := IsDir(files, k);
      var suffix := if isDir then "/" else "";
      ghost var done := out;
      ghost var sub := SubLines(files, prefix + Extension(isLast), k);
      WalkStep(files, prefix, parent, kids, idx, done, total);
      out := out + [prefix + connector + Name(k) + suffix];
      if isDir {
        assert k in kids && IsChild(parent, k);
        DirBelowHeight(files, k);
        var extension := Extension(isLast);
        out := Walk(files, nodes, prefix + extension, k, out);
      }
      assert out == done + [NodeLine(files, prefix, k, isLast)] + sub;
    }
  }

  /** `build_tree_lines`: the root line `.` followed by the walk from the
      root. Every node of the tree gets exactly one line, in the order
      `Order` gives; each line names its node, with `/` after a
      directory. */
  method BuildTreeLines(files: seq<Path>) returns (lines: seq<string>)
    ensures lines == ["."] + Lines(files, "", [])
    ensures |lines| == 1 + |NodeSet(files)|
    ensures LinesFor(files, "", 0, lines[1..], Order(files, []))
  {
    var nodes := BuildNodes(files);
    lines := ["."];
    lines := Walk(files, nodes, "", [], lines);
    TreeCoversNodes(files);
    LinesShape(files, "", []);
    assert lines[1..] == Lines(files, "", []);
  }

  /** `/` after a directory's name, nothing after a file's. */
  function DirMark(files: seq<Path>, n: Path): string
  {
    if IsDir(files, n) then "/" else ""
  }

  /** The nodes in the order their lines are drawn: each child of
      `parent`, followed by its own subtree when it is a directory. */
  function Order(files: seq<Path>, parent: Path): seq<Path>
    requires |parent| <= Height(files)
    decreases Height(files) - |parent|, 1
  {
    ConcatMap(ChildrenOf(files, parent), Subtrees(files, parent), 0)
  }

  /** The subtree drawn below a child of `parent`: nothing for a file. */
  function Subtrees(files: seq<Path>, parent: Path): Path -> seq<Path>
    requires |parent| <= Height(files)
    decreases Height(files) - |parent|, 0
  {
    (k: Path) =>
      if |k| == |parent| + 1 && IsDir(files, k) then DirBelowHeight(files, k); Order(files, k) else []
  }

  lemma SubtreesAt(files: seq<Path>, parent: Path, k: Path)
    requires |parent| <= Height(files) && IsChild(parent, k)
    ensures IsDir(files, k) ==> |k| <= Height(files) && Subtrees(files, parent)(k) == Order(files, k)
    ensures !IsDir(files, k) ==> Subtrees(files, parent)(k) == []
  {
    if IsDir(files, k) {
      DirBelowHeight(files, k);
    }
  }

  /** Each of `ks[i..]` followed by what `g` lists for it. */
  function ConcatMap<T>(ks: seq<T>, g: T -> seq<T>, i: nat): seq<T>
    requires i <= |ks|
    decreases |ks| - i
  {
    if i == |ks| then [] else [ks[i]] + g(ks[i]) + ConcatMap(ks, g, i + 1)
  }

  lemma {:induction false} ConcatMapHas<T>(ks: seq<T>, g: T -> seq<T>, i: nat, j: nat, x: T)
    requires i <= j < |ks|
    requires x == ks[j] || x in g(ks[j])
    ensures x in ConcatMap(ks, g, i)
    decreases |ks| - i
  {
    if i < j {
      ConcatMapHas(ks, g, i + 1, j, x);
    }
  }

  lemma {:induction false} ConcatMapSource<T>(ks: seq<T>, g: T -> seq<T>, i: nat, x: T) returns (j: nat)
    requires i <= |ks| && x in ConcatMap(ks, g, i)
    ensures i <= j < |ks| && (x == ks[j] || x in g(ks[j]))
    decreases |ks| - i
  {
    if x == ks[i] || x in g(ks[i]) {
      j := i;
    } else {
      j := ConcatMapSource(ks, g, i + 1, x);
    }
  }

  /** `n` is the last of its parent's children, the one drawn with `└── `. */
  predicate IsLastChild(files: seq<Path>, n: Path)
    requires n != []
  {
    var kids := ChildrenOf(files, n[..|n| - 1]);
    kids != [] && kids[|kids| - 1] == n
  }

  /** The indentation in front of the connector of node `n`, counted from
      depth `d`: for each ancestor `n[..i]` with `d < i < |n|`, a bar while
      that ancestor has later siblings and blanks once it is the last. */
  function Indent(files: seq<Path>, d: nat, n: Path): string
    requires d < |n|
    decreases |n| - d
  {
    if d + 1 == |n| then "" else Extension(IsLastChild(files, n[..d + 1])) + Indent(files, d + 1, n)
  }

  /** The line of node `n` in a drawing of the levels below depth `d`,
      indented by `prefix`: the indentation its ancestors call for, the
      connector for its place among its siblings, its name and, for a
      directory, `/`. */
  function LineOf(files: seq<Path>, prefix: string, d: nat, n: Path): string
    requires d < |n|
  {
    prefix + Indent(files, d, n) + Connector(IsLastChild(files, n)) + Name(n) + DirMark(files, n)
  }

  /** `lines` holds the line of each of `nodes`, in the same order. */
  predicate LinesFor(files: seq<Path>, prefix: string, d: nat, lines: seq<string>, nodes: seq<Path>)
  {
    Pairwise(LineAt(files, prefix, d), lines, nodes)
  }

  /** `line` is the line of node `n`, for a drawing of the levels below `d`. */
  function LineAt(files: seq<Path>, prefix: string, d: nat): (string, Path) -> bool
  {
    (line: string, n: Path) => |n| > d && line == LineOf(files, prefix, d, n)
  }

  /** Two sequences of equal length, related position by position. */
  predicate Pairwise<A, B>(r: (A, B) -> bool, xs: seq<A>, ys: seq<B>)
  {
    |xs| == |ys| && forall m :: 0 <= m < |xs| ==> r(xs[m], ys[m])
  }

  /** In a sequence without repetition, two positions hold different elements. */
  lemma NoDupIndex<T(!new)>(s: seq<T>, i: nat, j: nat)
    requires NoDup(s) && i < j < |s|
    ensures s[i] != s[j]
  {
    var x := s[j];
    assert s == s[..j] + [x] + s[j + 1..];
    assert multiset(s)[x] == multiset(s[..j])[x] + 1 + multiset(s[j + 1..])[x];
    assert s[..j][i] == s[i];
    assert s[i] in multiset(s[..j]);
  }

  /** Child `i` of `parent` is the last child exactly when it is drawn last. */
  lemma LastChildAt(files: seq<Path>, parent: Path, i: nat)
    requires i < |ChildrenOf(files, parent)|
    ensures var kids := ChildrenOf(files, parent);
      IsChild(parent, kids[i]) && (IsLastChild(files, kids[i]) <==> i == |kids| - 1)
  {
    var kids := ChildrenOf(files, parent);
    var k := kids[i];
    ChildAt(files, parent, kids, i);
    ChildrenNoDup(files, parent);
    LastOfNoDup(kids, i);
    LastChildOf(files, parent, k, kids);
  }

  lemma ChildAt(files: seq<Path>, parent: Path, kids: seq<Path>, i: nat)
    requires kids == ChildrenOf(files, parent) && i < |kids|
    ensures IsChild(parent, kids[i])
  {
    assert kids[i] in kids;
  }

  lemma LastChildOf(files: seq<Path>, parent: Path, k: Path, kids: seq<Path>)
    requires IsChild(parent, k) && kids == ChildrenOf(files, parent)
    ensures IsLastChild(files, k) <==> kids != [] && kids[|kids| - 1] == k
  {
    assert k[..|k| - 1] == parent;
  }

  lemma LastOfNoDup<T(!new)>(s: seq<T>, i: nat)
    requires NoDup(s) && i < |s|
    ensures s[|s| - 1] == s[i] <==> i == |s| - 1
  {
    if i != |s| - 1 {
      NoDupIndex(s, i, |s| - 1);
    }
  }

  lemma ChildrenNoDup(files: seq<Path>, parent: Path)
    ensures NoDup(ChildrenOf(files, parent))
  {
  }

  /** The line `walk` draws for child `i` of `parent` is that child's line. */
  lemma NodeLineIs(files: seq<Path>, prefix: string, parent: Path, i: nat)
    requires i < |ChildrenOf(files, parent)|
    ensures var kids := ChildrenOf(files, parent);
      |kids[i]| == |parent| + 1 &&
      NodeLine(files, prefix, kids[i], i == |kids| - 1) == LineOf(files, prefix, |parent|, kids[i])
  {
    var kids := ChildrenOf(files, parent);
    LastChildAt(files, parent, i);
    assert Indent(files, |parent|, kids[i]) == "";
    assert prefix + "" == prefix;
  }

  /** Lines drawn one level deeper, under a child's extension, are the
      lines of the same nodes drawn from the parent. */
  lemma LinesForDeeper(files: seq<Path>, prefix: string, parent: Path, k: Path,
                       sub: seq<string>, subO: seq<Path>)
    requires IsChild(parent, k)
    requires LinesFor(files, prefix + Extension(IsLastChild(files, k)), |k|, sub, subO)
    requires forall x :: x in subO ==> Below(k, x)
    ensures LinesFor(files, prefix, |parent|, sub, subO)
  {
    forall m | 0 <= m < |sub|
      ensures LineAt(files, prefix, |parent|)(sub[m], subO[m])
    {
      assert LineAt(files, prefix + Extension(IsLastChild(files, k)), |k|)(sub[m], subO[m]);
      assert subO[m] in subO;
      LineOfDeeper(files, prefix, parent, k, subO[m]);
    }
  }

  /** A node below child `k` gets the same line whether drawn from `k`
      under `k`'s extension or from `k`'s parent. */
  lemma LineOfDeeper(files: seq<Path>, prefix: string, parent: Path, k: Path, x: Path)
    requires IsChild(parent, k) && Below(k, x)
    ensures |x| > |parent|
    ensures LineOf(files, prefix + Extension(IsLastChild(files, k)), |k|, x) == LineOf(files, prefix, |parent|, x)
  {
    var ext := Extension(IsLastChild(files, k));
    assert x[..|parent| + 1] == k;
    var ind := Indent(files, |k|, x);
    assert Indent(files, |parent|, x) == ext + ind;
    Regroup5(prefix, ext, ind, Connector(IsLastChild(files, x)), Name(x), DirMark(files, x));
  }

  lemma Regroup5<T>(a: seq<T>, b: seq<T>, c: seq<T>, d: seq<T>, e: seq<T>, f: seq<T>)
    ensures a + (b + c) + d + e + f == (a + b) + c + d + e + f
  {
  }

  lemma PairwiseConcat<A, B>(r: (A, B) -> bool, a: A, b: B,
                             sub: seq<A>, subB: seq<B>, rest: seq<A>, restB: seq<B>)
    requires r(a, b) && Pairwise(r, sub, subB) && Pairwise(r, rest, restB)
    ensures Pairwise(r, [a] + sub + rest, [b] + subB + restB)
  {
    var all, allB := [a] + sub + rest, [b] + subB + restB;
    forall m | 0 <= m < |all| ensures r(all[m], allB[m]) {
      if 0 < m <= |sub| {
        assert all[m] == sub[m - 1] && allB[m] == subB[m - 1];
      } else if m > |sub| {
        assert all[m] == rest[m - 1 - |sub|] && allB[m] == restB[m - 1 - |sub|];
      }
    }
  }

  /** `walk(prefix, parent)` draws the line of each node below `parent`, in
      the order `Order` lists them: under the indentation its ancestors
      call for, `└── ` before the last child of a directory and `├── `
      before the others, then the name and, for a directory, `/`. */
  lemma {:induction false} LinesShape(files: seq<Path>, prefix: string, parent: Path)
    requires |parent| <= Height(files)
    ensures LinesFor(files, prefix, |parent|, Lines(files, prefix, parent), Order(files, parent))
    decreases Height(files) - |parent|, 1, 0
  {
    KidLinesShape(files, prefix, parent, 0);
  }

  lemma {:induction false} KidLinesShape(files: seq<Path>, prefix: string, parent: Path, i: nat)
    requires |parent| <= Height(files)
    requires i <= |ChildrenOf(files, parent)|
    ensures LinesFor(files, prefix, |parent|,
                     KidLines(files, prefix, parent, ChildrenOf(files, parent), i),
                     ConcatMap(ChildrenOf(files, parent), Subtrees(files, parent), i))
    decreases Height(files) - |parent|, 0, |ChildrenOf(files, parent)| - i
  {
    var kids := ChildrenOf(files, parent);
    if i < |kids| {
      var k := kids[i];
      var g := Subtrees(files, parent);
      var isLast := i == |kids| - 1;
      LastChildAt(files, parent, i);
      NodeLineIs(files, prefix, parent, i);
      SubtreesAt(files, parent, k);
      var sub: seq<string>, subO: seq<Path> := [], [];
      if IsDir(files, k) {
        sub, subO := Lines(files, prefix + Extension(isLast), k), Order(files, k);
        LinesShape(files, prefix + Extension(isLast), k);
        forall x | x in subO ensures Below(k, x) {
          OrderSound(files, k, x);
        }
        LinesForDeeper(files, prefix, parent, k, sub, subO);
      }
      assert subO == g(k);
      KidLinesShape(files, prefix, parent, i + 1);
      KidLinesUnfold(files, prefix, parent, kids, i);
      var line := NodeLine(files, prefix, k, isLast);
      assert LineAt(files, prefix, |parent|)(line, k);
      PairwiseConcat(LineAt(files, prefix, |parent|), line, k, sub, subO,
                     KidLines(files, prefix, parent, kids, i + 1), ConcatMap(kids, g, i + 1));
    }
  }

  /** `n` lies strictly below `parent`. */
  predicate Below(parent: Path, n: Path)
  {
    |n| > |parent| && n[..|parent|] == parent
  }

  /** Every drawn node is a node below `parent`. */
  lemma {:induction false} OrderSound(files: seq<Path>, parent: Path, n: Path)
    requires |parent| <= Height(files)
    requires n in Order(files, parent)
    ensures IsNode(files, n) && Below(parent, n)
    decreases Height(files) - |parent|
  {
    var kids := ChildrenOf(files, parent);
    var j := ConcatMapSource(kids, Subtrees(files, parent), 0, n);
    var k := kids[j];
    KidIsNode(files, parent, kids, j);
    SubtreesAt(files, parent, k);
    if n != k {
      OrderSound(files, k, n);
      BelowChild(parent, k, n);
    }
  }

  lemma KidIsNode(files: seq<Path>, parent: Path, kids: seq<Path>, j: nat)
    requires kids == ChildrenOf(files, parent) && j < |kids|
    ensures IsChild(parent, kids[j]) && IsNode(files, kids[j]) && Below(parent, kids[j])
  {
    assert kids[j] in kids;
    ChildrenOfMembers(files, parent);
  }

  /** A path below a child of `parent` is below `parent`, through that child. */
  lemma BelowChild(parent: Path, k: Path, n: Path)
    requires IsChild(parent, k) && Below(k, n)
    ensures Below(parent, n)
  {
    assert n[..|parent|] == n[..|k|][..|parent|];
  }

  /** A non-empty prefix of a node is a node; a proper one is a directory. */
  lemma PrefixOfNode(files: seq<Path>, n: Path, m: nat)
    requires IsNode(files, n) && 0 < m <= |n|
    ensures IsNode(files, n[..m])
    ensures m < |n| ==> IsDir(files, n[..m])
  {
    var f :| f in files && |n| <= |f| && f[..|n|] == n;
    assert f[..m] == n[..m];
  }

  /** Every node below `parent` is drawn. */
  lemma {:induction false} OrderComplete(files: seq<Path>, parent: Path, n: Path)
    requires |parent| <= Height(files)
    requires IsNode(files, n) && Below(parent, n)
    ensures n in Order(files, parent)
    decreases Height(files) - |parent|
  {
    var kids := ChildrenOf(files, parent);
    ChildrenOfMembers(files, parent);
    var c := n[..|parent| + 1];
    PrefixOfNode(files, n, |parent| + 1);
    assert IsChild(parent, c);
    assert c in kids;
    var j :| 0 <= j < |kids| && kids[j] == c;
    SubtreesAt(files, parent, c);
    if n != c {
      assert n[..|c|] == c;
      OrderComplete(files, c, n);
    }
    ConcatMapHas(kids, Subtrees(files, parent), 0, j, n);
  }

  /** Splitting off the first element of a sequence without repetition. */
  lemma NoDupTail<T(!new)>(s: seq<T>)
    requires s != [] && NoDup(s)
    ensures NoDup(s[1..]) && s[0] !in s[1..]
  {
    assert s == [s[0]] + s[1..];
    assert multiset(s) == multiset{s[0]} + multiset(s[1..]);
    forall x ensures multiset(s[1..])[x] <= 1 {
      assert multiset(s)[x] == multiset{s[0]}[x] + multiset(s[1..])[x];
    }
    assert multiset(s)[s[0]] == 1 + multiset(s[1..])[s[0]];
  }

  /** `ConcatMap` repeats nothing when the listed elements are distinct,
      each block repeats nothing, and `key` tells the blocks apart. */
  lemma {:induction false} ConcatMapNoDup<T(!new)>(ks: seq<T>, g: T -> seq<T>, key: T -> T, i: nat)
    requires i <= |ks| && NoDup(ks[i..])
    requires forall k :: k in ks ==> key(k) == k && k !in g(k) && NoDup(g(k))
    requires forall k, x :: k in ks && x in g(k) ==> key(x) == k
    ensures NoDup(ConcatMap(ks, g, i))
    ensures forall x :: x in ConcatMap(ks, g, i) ==> key(x) in ks[i..]
    decreases |ks| - i
  {
    if i < |ks| {
      var k := ks[i];
      assert ks[i..][0] == k && ks[i..][1..] == ks[i + 1..];
      NoDupTail(ks[i..]);
      ConcatMapNoDup(ks, g, key, i + 1);
      var sub, rest := g(k), ConcatMap(ks, g, i + 1);
      var all := [k] + sub + rest;
      assert ConcatMap(ks, g, i) == all;
      assert multiset(all) == multiset{k} + multiset(sub) + multiset(rest);
      forall x ensures multiset(all)[x] <= 1 {
        if x in rest {
          assert key(x) in ks[i + 1..];
          assert x != k && x !in sub;
        }
      }
      forall x | x in all ensures key(x) in ks[i..] {
        if x in rest {
          assert key(x) in ks[i + 1..];
        }
      }
    }
  }

  /** The child of `parent` through which a path below it passes. */
  function KeyAt(depth: nat): Path -> Path
  {
    (x: Path) => if |x| > depth then x[..depth + 1] else x
  }

  /** Each node is drawn at most once. */
  lemma {:induction false} OrderNoDup(files: seq<Path>, parent: Path)
    requires |parent| <= Height(files)
    ensures NoDup(Order(files, parent))
    decreases Height(files) - |parent|
  {
    var kids := ChildrenOf(files, parent);
    var g := Subtrees(files, parent);
    ChildrenOfSpec(files, parent);
    var key := KeyAt(|parent|);
    forall k | k in kids
      ensures key(k) == k && k !in g(k) && NoDup(g(k))
    {
      assert IsChild(parent, k);
      SubtreesAt(files, parent, k);
      if IsDir(files, k) {
        OrderNoDup(files, k);
        if k in Order(files, k) {
          OrderSound(files, k, k);
        }
      }
    }
    forall k, x | k in kids && x in g(k) ensures key(x) == k {
      assert IsChild(parent, k);
      SubtreesAt(files, parent, k);
      OrderSound(files, k, x);
    }
    assert kids[0..] == kids;
    ConcatMapNoDup(kids, g, key, 0);
  }

  /** The nodes of the tree, as the node-set loop collects them. */
  ghost function NodeSet(files: seq<Path>): set<Path>
  {
    set f, i | f in files && 1 <= i <= |f| :: f[..i]
  }

  lemma NodeSetMembers(files: seq<Path>, n: Path)
    ensures n in NodeSet(files) <==> IsNode(files, n)
  {
    if IsNode(files, n) {
      var f :| f in files && |n| <= |f| && f[..|n|] == n;
      assert n == f[..|n|];
    }
  }

  /** A sequence without repetition has as many elements as its set. */
  lemma {:induction false} CardOfNoDup<T(!new)>(s: seq<T>)
    requires NoDup(s)
    ensures |set x | x in s| == |s|
    decreases |s|
  {
    if s != [] {
      NoDupTail(s);
      CardOfNoDup(s[1..]);
      assert (set x | x in s) == {s[0]} + (set x | x in s[1..]);
    }
  }

  /** The drawn nodes are the nodes of the tree, each once. */
  lemma TreeCoversNodes(files: seq<Path>)
    ensures NoDup(Order(files, []))
    ensures forall n :: n in Order(files, []) <==> IsNode(files, n)
    ensures |Order(files, [])| == |NodeSet(files)|
  {
    var order := Order(files, []);
    OrderNoDup(files, []);
    forall n ensures n in order <==> n in NodeSet(files) {
      NodeSetMembers(files, n);
      if n in order {
        OrderSound(files, [], n);
      }
      if IsNode(files, n) {
        OrderComplete(files, [], n);
      }
    }
    CardOfNoDup(order);
    assert (set x | x in order) == NodeSet(files);
  }
}
