/** Relative paths as the generator sees them: a sequence of name parts
    joined with `/` for matching and sorting (`as_posix()`), the final part
    as `name`, pathlib's `suffix`, and `fence_lang`. */
module Paths {
  import opened Text

  /** A path relative to the scanned root, one entry per part. */
  type Path = seq<string>

  /** `as_posix()`: the parts joined with `/`. */
  function Posix(p: Path): (s: string)
    ensures |p| == 1 ==> s == p[0]
  {
    Join(p, '/')
  }

  /** Parts without a slash can be read back from the POSIX form. */
  lemma PosixRoundTrip(p: Path)
    requires p != []
    requires forall i :: 0 <= i < |p| ==> '/' !in p[i]
    ensures Split(Posix(p), '/') == p
  {
    SplitJoin(p, '/');
  }

  /** `name`: the last part; the empty path's name is empty. */
  function Name(p: Path): string
  {
    if p == [] then "" else p[|p| - 1]
  }

  /** `s.rfind(c)`: the last index of `c`, or -1. */
  function RFind(s: string, c: char): (i: int)
    ensures -1 <= i < |s|
    ensures i >= 0 ==> s[i] == c
    ensures forall k :: i < k < |s| ==> s[k] != c
  {
    if s == [] then -1
    else if s[|s| - 1] == c then |s| - 1
    else RFind(s[..|s| - 1], c)
  }

  /** pathlib's `suffix`: from the last dot to the end, provided that dot is
      neither the first nor the last character of the name; otherwise empty. */
  function Suffix(name: string): (r: string)
    ensures r != [] ==> 2 <= |r| < |name| && r[0] == '.'
    ensures r != [] ==> name[|name| - |r|..] == r && '.' !in r[1..]
    ensures r == [] <==> RFind(name, '.') <= 0 || RFind(name, '.') == |name| - 1
  {
    var i := RFind(name, '.');
    if 0 < i < |name| - 1 then
      assert forall k :: 1 <= k < |name[i..]| ==> name[i..][k] == name[i + k];
      name[i..]
    else ""
  }

  /** `p.suffix.lower()`, the extension the filters compare. */
  function Ext(name: string): (e: string)
    ensures |e| == |Suffix(name)|
  {
    Lower(Suffix(name))
  }

  /** A one-letter stem before `.py` leaves the extension `.py`. */
  lemma ExtOfOneLetterPy(c: char)
    ensures Ext([c] + ".py") == ".py"
  {
    var name := [c] + ".py";
    assert RFind(name, '.') == 1 by {
      assert name[3] != '.' && name[2] != '.' && name[1] == '.';
    }
    assert Suffix(name) == ".py";
    assert Lower(".py") == ".py";
  }

  lemma {:induction false} RFindLower(s: string)
    ensures RFind(Lower(s), '.') == RFind(s, '.')
    decreases |s|
  {
    if s != [] {
      assert Lower(s)[..|s| - 1] == Lower(s[..|s| - 1]);
      RFindLower(s[..|s| - 1]);
    }
  }

  /** Lower-casing a name and taking its suffix can be done in either order. */
  lemma SuffixOfLower(name: string)
    ensures Suffix(Lower(name)) == Lower(Suffix(name))
  {
    RFindLower(name);
    var i := RFind(name, '.');
    if 0 < i < |name| - 1 {
      LowerDrop(name, i);
    }
  }

  lemma LowerDrop(s: string, i: nat)
    requires i <= |s|
    ensures Lower(s)[i..] == Lower(s[i..])
  {
  }

  /** A name without any dot has no suffix; nor does a dotfile such as
      `.gitignore` or a name ending in a dot. */
  lemma NoSuffixCases()
    ensures Suffix("Makefile") == ""
    ensures Suffix(".gitignore") == ""
    ensures Suffix("notes.") == ""
    ensures Suffix("archive.tar.gz") == ".gz"
  {
    assert RFind("Makefile", '.') == -1;
    assert RFind(".gitignore", '.') == 0 by {
      assert ".gitignore"[0] == '.';
    }
    assert RFind("notes.", '.') == 5;
    assert RFind("archive.tar.gz", '.') == 11;
  }

  /** `LANG_MAP`: the fence label for each known lower-case extension. */
  const LangMap: map<string, string> := map[
    ".py" := "python", ".js" := "javascript", ".ts" := "typescript",
    ".tsx" := "tsx", ".jsx" := "jsx", ".java" := "java", ".go" := "go",
    ".rs" := "rust", ".cpp" := "cpp", ".c" := "c", ".h" := "c",
    ".hpp" := "cpp", ".cs" := "csharp", ".php" := "php", ".rb" := "ruby",
    ".kt" := "kotlin", ".swift" := "swift", ".sh" := "bash", ".zsh" := "zsh",
    ".ps1" := "powershell", ".sql" := "sql", ".json" := "json",
    ".yaml" := "yaml", ".yml" := "yaml", ".toml" := "toml", ".ini" := "ini",
    ".cfg" := "ini", ".xml" := "xml", ".html" := "html", ".css" := "css",
    ".md" := "markdown", ".tex" := "tex"]

  /** `fence_lang`: `dockerfile` for a file named Dockerfile in any case,
      otherwise the label of the lower-cased suffix, `text` when unknown. */
  function FenceLang(name: string): (lang: string)
    ensures lang == "dockerfile" || lang == "text" || lang in LangMap.Values
    ensures Lower(name) == "dockerfile" ==> lang == "dockerfile"
  {
    var ext := Ext(name);
    if Lower(name) == "dockerfile" then "dockerfile"
    else if ext in LangMap then LangMap[ext] else "text"
  }

  /** The label does not depend on the case of the name. */
  lemma FenceLangIgnoresCase(a: string, b: string)
    requires Lower(a) == Lower(b)
    ensures FenceLang(a) == FenceLang(b)
  {
    assert Ext(a) == Ext(b) by {
      SuffixOfLower(a);
      SuffixOfLower(b);
    }
    FenceLangOfParts(a, b);
  }

  /** The label depends only on the lower-cased name and the extension. */
  lemma FenceLangOfParts(a: string, b: string)
    requires Lower(a) == Lower(b) && Ext(a) == Ext(b)
    ensures FenceLang(a) == FenceLang(b)
  {
  }

  /** A name whose lower-cased suffix is a key of the table gets that key's
      label, unless the name is a Dockerfile; anything else gets `text`. */
  lemma FenceLangLookup(name: string)
    requires Lower(name) != "dockerfile"
    ensures Ext(name) in LangMap ==> FenceLang(name) == LangMap[Ext(name)]
    ensures Ext(name) !in LangMap ==> FenceLang(name) == "text"
  {
  }

  lemma FenceLangExamples()
    ensures FenceLang("main.PY") == "python"
    ensures FenceLang("Dockerfile") == "dockerfile"
    ensures FenceLang("Makefile") == "text"
    ensures FenceLang(".py") == "text"
  {
    FenceLangPython();
    FenceLangText("Makefile");
    FenceLangText(".py");
    FenceLangDockerfile();
  }

  lemma FenceLangDockerfile()
    ensures FenceLang("Dockerfile") == "dockerfile"
  {
    var l := Lower("Dockerfile");
    assert l[0] == 'd';
    assert l == "dockerfile";
  }

  lemma FenceLangPython()
    ensures FenceLang("main.PY") == "python"
  {
    assert RFind("main.PY", '.') == 4;
    assert Suffix("main.PY") == ".PY";
    assert Lower(".PY") == ".py";
    assert Lower("main.PY") != "dockerfile" by {
      assert |Lower("main.PY")| == 7;
    }
  }

  /** A name without an extension that is not a Dockerfile is `text`. */
  lemma FenceLangText(name: string)
    requires name == "Makefile" || name == ".py"
    ensures FenceLang(name) == "text"
  {
    if name == "Makefile" {
      assert RFind(name, '.') == -1;
    } else {
      assert RFind(name, '.') == 0;
    }
    assert Lower("") == "";
    assert Lower(name) != "dockerfile" by {
      assert |Lower(name)| != 10;
    }
  }
}
