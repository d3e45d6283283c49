// `matches_any_glob`: shell-style pattern matching of relative POSIX paths
// against the `--exclude-glob` patterns. A directory is tried both as
// written and with a trailing slash, so that `data/**` prunes `data`.
module Glob {
  import opened Text

  /** `fnmatch.fnmatch(s, pat)` for the wildcards `*` (any string, `/`
      included) and `?` (any one character); every other character of the
      pattern stands for itself. */
  function Match(pat: string, s: string): bool
    decreases |pat| + |s|
  {
    if pat == [] then s == []
    else if pat[0] == '*' then Match(pat[1..], s) || (s != [] && Match(pat, s[1..]))
    else s != [] && (pat[0] == '?' || pat[0] == s[0]) && Match(pat[1..], s[1..])
  }

  /** Every pattern character other than `*` consumes exactly one
      character: a match is at least as long as the pattern without its
      stars, and exactly as long as a star-free pattern. */
  lemma {:induction false} MatchLength(pat: string, s: string)
    requires Match(pat, s)
    ensures |s| >= |pat| - multiset(pat)['*']
    ensures '*' !in pat ==> |s| == |pat|
    decreases |pat| + |s|
  {
    if pat != [] {
      assert pat == [pat[0]] + pat[1..];
      if pat[0] == '*' {
        if Match(pat[1..], s) {
          MatchLength(pat[1..], s);
        } else {
          MatchLength(pat, s[1..]);
        }
      } else {
        MatchLength(pat[1..], s[1..]);
      }
    }
  }

  /** A pattern without wildcards. */
  predicate IsLiteral(pat: string)
  {
    '*' !in pat && '?' !in pat
  }

  /** A lone `*` matches every string, slashes included. */
  lemma {:induction false} StarMatchesAll(s: string)
    ensures Match("*", s)
    decreases |s|
  {
    if s != [] {
      StarMatchesAll(s[1..]);
    }
  }

  /** `**` behaves like `*`: it matches every string. */
  lemma DoubleStarMatchesAll(s: string)
    ensures Match("**", s)
  {
    assert "**"[1..] == "*";
    StarMatchesAll(s);
  }

  /** A literal prefix of a pattern consumes exactly itself. */
  lemma {:induction false} LiteralPrefix(lit: string, rest: string, s: string)
    requires IsLiteral(lit)
    ensures Match(lit + rest, s) <==> StartsWith(s, lit) && Match(rest, s[|lit|..])
    decreases |lit|
  {
    if lit != [] {
      var p := lit + rest;
      assert p[0] == lit[0] && p[0] != '*' && p[0] != '?';
      assert p[1..] == lit[1..] + rest;
      if s != [] {
        LiteralPrefix(lit[1..], rest, s[1..]);
        assert StartsWith(s, lit) <==> s[0] == lit[0] && StartsWith(s[1..], lit[1..]) by {
          if |lit| <= |s| {
            assert s[..|lit|] == [s[0]] + s[1..][..|lit| - 1];
            assert lit == [lit[0]] + lit[1..];
          }
        }
        if |lit| <= |s| {
          assert s[1..][|lit| - 1..] == s[|lit|..];
        }
      }
    } else {
      assert lit + rest == rest;
    }
  }

  /** A pattern without wildcards matches exactly itself. */
  lemma LiteralMatchesOnlyItself(lit: string, s: string)
    requires IsLiteral(lit)
    ensures Match(lit, s) <==> s == lit
  {
    LiteralPrefix(lit, "", s);
    assert lit + "" == lit;
  }

  /** `lit**` matches exactly the strings that start with `lit`. */
  lemma PrefixStarStar(lit: string, s: string)
    requires IsLiteral(lit)
    ensures Match(lit + "**", s) <==> StartsWith(s, lit)
  {
    LiteralPrefix(lit, "**", s);
    if StartsWith(s, lit) {
      DoubleStarMatchesAll(s[|lit|..]);
    }
  }

  /** The strings `matches_any_glob` puts to the patterns: the path itself,
      and for a directory not already ending in `/` also the path with a
      trailing slash. */
  function Candidates(rel: string, isDir: bool): (cs: seq<string>)
    ensures |cs| == (if isDir && !EndsWith(rel, "/") then 2 else 1)
    ensures cs[0] == rel
    ensures |cs| == 2 ==> cs[1] == rel + "/"
  {
    if isDir && !EndsWith(rel, "/") then [rel, rel + "/"] else [rel]
  }

  /** `matches_any_glob`: some pattern matches some candidate. */
  function MatchesAnyGlob(rel: string, patterns: set<string>, isDir: bool): (r: bool)
    ensures patterns == {} ==> !r
    ensures !isDir ==> (r <==> exists pat :: pat in patterns && Match(pat, rel))
    ensures isDir ==>
      (r <==> exists pat :: pat in patterns &&
                (Match(pat, rel) || (!EndsWith(rel, "/") && Match(pat, rel + "/"))))
  {
    if patterns == {} then false
    else
      var cs := Candidates(rel, isDir);
      exists c, pat :: c in cs && pat in patterns && Match(pat, c)
  }

  /** Adding patterns never turns a match into a non-match. */
  lemma MorePatternsMatchMore(rel: string, small: set<string>, large: set<string>, isDir: bool)
    requires small <= large
    requires MatchesAnyGlob(rel, small, isDir)
    ensures MatchesAnyGlob(rel, large, isDir)
  {
  }

  // A directory is tried in its trailing-slash form as well: for a literal
  // directory path `d`, the pattern `d/**` prunes the directory `d` itself,
  // while a file of the same path is not excluded by it.
  lemma DirSlashStarStarPrunesDir(d: string)
    requires IsLiteral(d) && !EndsWith(d, "/")
    ensures MatchesAnyGlob(d, {d + "/**"}, true)
    ensures !MatchesAnyGlob(d, {d + "/**"}, false)
  {
    var pat := d + "/**";
    assert pat == (d + "/") + "**";
    assert IsLiteral(d + "/");
    PrefixStarStar(d + "/", d + "/");
    PrefixStarStar(d + "/", d);
  }

  // Every path below a literal directory `d` matches `d/**`.
  lemma SlashStarStarCoversSubtree(d: string, rel: string, isDir: bool)
    requires IsLiteral(d)
    requires StartsWith(rel, d + "/")
    ensures MatchesAnyGlob(rel, {d + "/**"}, isDir)
  {
    assert d + "/**" == (d + "/") + "**";
    assert IsLiteral(d + "/");
    PrefixStarStar(d + "/", rel);
  }
}
