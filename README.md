# Prompt-context generator: file selection and tree rendering

This project models the core of `generate_prompt_context.py`. The script
walks a project directory and picks the files worth showing to a language
model. It draws them as an ASCII tree and reads each one as text. The model
covers that pipeline:

- the binary sniffer `is_probably_binary` (module `Sniffer`);
- the comma-list parsers `parse_csv_set` and `to_ext_set` (`Csv`);
- the glob test `matches_any_glob` with an `fnmatch`-style matcher (`Glob`);
- pathlib's `suffix`, `name`, `as_posix()`, and `fence_lang` (`Paths`);
- `read_text_file`, fed the bytes already read (`Reader`);
- the directory-pruning and file-admission rules of `collect_files`, and
  the policy `main` builds from its options (`Filter`);
- `collect_files` itself, over an in-memory directory tree (`Collector`);
- `build_tree_lines` (`TreeRender`, with a worked example in `TreeExample`).

Supporting modules:

- `Text` holds the Python `str` operations the script relies on: `lower`,
  `strip`, `split`, `startswith`, string ordering and integer formatting.
- `Sorting` holds a stable sort by key.
- `Wrappers` holds `Option`.

## How the model is organised

**Directory tree.** The file system is the value `seq<Entry>`. Each entry is
one of three kinds:

- a file, with the flag `is_symlink()` would report;
- a real subdirectory, with its own listing;
- a symbolic link to a directory.

`os.walk(..., followlinks=False)` lists a link to a directory among
`dirnames` but never enters it. `os.walk` splits a listing into `dirnames`
and `filenames`; `DirEntries` and `FileEntries` do the same.

**Collector.** The walk keeps the source's imperative shape:

- `PruneDirs` is the loop that builds `kept_dirnames`.
- `AppendAdmitted` is the file loop, applying the checks in source order.
- `Walk` and `WalkSubdirs` do the top-down descent into the kept directories.
- `CollectFiles` runs the walk, then sorts.

Each method is proved against a specification function:

- `KeptDirs`, `Admitted` and `WalkSpec`;
- `SortSeq`, for the final sort.

These functions take the two decisions as parameters: whether to keep a
directory and whether to admit a file. `KeepOf(p)` and `AdmitOf(p)` are the
decisions a policy `p` defines. Lemmas then characterise the collected set:

- `WalkSpecSelects` and `CollectedUnderPolicy`: exactly the regular files
  whose checks pass and whose ancestor directories all survive pruning.

**Tree renderer.** The renderer follows the script's nested loops and
recursive `walk` that appends to a shared list:

- `BuildNodes` is the node-set loop.
- `Children` scans the node set, then sorts.
- `Walk` appends the lines.
- `BuildTreeLines` puts `.` first.

Specification functions:

- `ChildrenOf` gives the children, sorted.
- `Lines` and `KidLines` give the drawn lines.
- `Order` gives the nodes in drawing order.

`(root / p).is_dir()` is replaced by "p is a proper prefix of a collected
path" (`IsDir`). For the nodes of the tree, that is the same question.

The sibling order of `children` is: directories first, then the lower-cased
name. The script leaves the order of two names that differ only in case to
the iteration order of a `set`. The model breaks such ties by the raw name
(`KeyLe`), an order the script does not fix; this makes the sibling order
strict.

**Line layout.** `LineOf` says what the line of a node is, independently of
the walk: the indentation its ancestors call for (`Indent`: `│   ` below an
ancestor with later siblings, four blanks below a last child), then `└── `
for the last child of a directory and `├── ` for the others (`IsLastChild`),
then the name and `/` for a directory. `LinesShape` proves that `walk`
draws exactly these lines, in drawing order.

**Binary ratio.** `IsProbablyBinary` computes the ratio with exact
rationals. Lemma `IntegerRatioForm` shows that the test is
`10 * non_text > 3 * len(sample)`. A float and the exact ratio can only
disagree at exactly 3/10, and there both forms say "not binary". So the
exact form is the float test, not a weaker stand-in.

## Model

| member | source | states |
|---|---|---|
| Sniffer.IsProbablyBinary | generate_prompt_context.py:90-98 | any buffer containing a NUL byte is binary; the empty buffer is not |
| Sniffer.Sample | generate_prompt_context.py:95 | the sample is the first `min(len, 4096)` bytes of the buffer |
| Sniffer.RatioIsInteger | generate_prompt_context.py:98 | over exact rationals, `k / len > 0.30` holds iff `10 * k > 3 * len` |
| Sniffer.IntegerRatioForm | generate_prompt_context.py:90-98 | without a NUL byte, the verdict is `10 * non_text(sample) > 3 * len(sample)` |
| Sniffer.OnlySampleMatters | generate_prompt_context.py:95-98 | without a NUL byte, two buffers that agree on their first 4096 bytes get the same verdict |
| Sniffer.NonTextAppend | generate_prompt_context.py:97 | the count of non-text bytes is additive over concatenation |
| Sniffer.IsTextByte | generate_prompt_context.py:96 | the text bytes are 32..126, 9, 10 and 13; every text byte lies in 9..126, so NUL is never one |
| Sniffer.NonText | generate_prompt_context.py:97 | the count of bytes outside the text set, never more than the length |
| Sniffer.TextOnlyIsNotBinary | generate_prompt_context.py:96-98 | a buffer made only of printable ASCII, tab, LF and CR is never binary |
| Sniffer.NoTextIsBinary | generate_prompt_context.py:96-98 | a non-empty buffer with no text byte is binary |
| Csv.ParseCsvSet | generate_prompt_context.py:79-82 | `None` and `""` give the empty set; every element is non-empty, stripped and comma-free |
| Csv.ParseCsvSetMembers | generate_prompt_context.py:82 | an element is in the set iff it is the stripped form of a non-blank comma-separated piece |
| Csv.StrippedPieceIsClean | generate_prompt_context.py:82 | a stripped non-blank piece without a comma is a clean entry |
| Csv.ParseJoinRoundTrip | generate_prompt_context.py:79-82 | a comma list joined from clean entries parses back to exactly the set of those entries |
| Csv.WithDot | generate_prompt_context.py:87 | the result starts with `.`; a dotted entry is unchanged, any other gets a dot in front |
| Csv.ToExtSet | generate_prompt_context.py:85-87 | `None` and `""` give the empty set; every extension starts with `.` and has no comma |
| Csv.ToExtSetMembers | generate_prompt_context.py:85-87 | the extensions are exactly the parsed entries with a dot supplied; a dotted entry is kept as it is |
| Csv.ToExtSetSingle | generate_prompt_context.py:85-87 | a list with one entry gives one extension |
| Csv.ParseSingle | generate_prompt_context.py:79-82 | a list holding one clean entry parses to exactly that entry |
| Text.Lower | generate_prompt_context.py:112-113 | lower-casing keeps the length and maps each character on its own |
| Text.Strip | generate_prompt_context.py:82 | the stripped string is a contiguous piece of the input that neither starts nor ends with whitespace; it is empty iff the input is all whitespace |
| Text.IsSpace | generate_prompt_context.py:82 | the whitespace `str.strip()` removes: exactly the characters `str.isspace()` accepts |
| Text.StripIdempotent | generate_prompt_context.py:82 | stripping twice is stripping once |
| Text.StripLeft | generate_prompt_context.py:82 | the result is a suffix of the input, everything cut is whitespace, and it does not start with whitespace |
| Text.StripRight | generate_prompt_context.py:82 | the result is a prefix of the input, everything cut is whitespace, and it does not end with whitespace |
| Text.StripTrims | generate_prompt_context.py:82 | the stripped string is the input with some leading and some trailing characters cut, all of them whitespace |
| Text.StripUnique | generate_prompt_context.py:82 | any piece obtained by cutting only whitespace from both ends, and not itself starting or ending with whitespace, is the stripped string |
| Text.Split | generate_prompt_context.py:82 | the pieces never hold the separator, and joined with it they give the string back |
| Text.SplitJoin | generate_prompt_context.py:82 | splitting a join of comma-free pieces on the separator gives the pieces back |
| Text.DecimalRoundTrip | generate_prompt_context.py:130 | the decimal text of `max_bytes` in the truncation note reads back as the same number |
| Text.Decimal | generate_prompt_context.py:130 | `str(n)` is a non-empty string of digits without a leading zero |
| Text.StartsWith | generate_prompt_context.py:87 | `s.startswith(p)`: `p` is a prefix of `s` |
| Text.EndsWith | generate_prompt_context.py:106 | `s.endswith(p)`: `p` is a suffix of `s` |
| Text.StrLe | generate_prompt_context.py:185 | Python's `<=` on strings: lexicographic on code points, a proper prefix first |
| Text.StrLeRefl | generate_prompt_context.py:185 | every string is `<=` itself |
| Text.StrLeTotal | generate_prompt_context.py:185 | any two strings are comparable |
| Text.StrLeTrans | generate_prompt_context.py:185 | the order is transitive |
| Text.StrLeAntisym | generate_prompt_context.py:185 | two strings each `<=` the other are equal, so ties in a key are ties in the string |
| Glob.StarMatchesAll | generate_prompt_context.py:108 | `*` matches every string, `/` included |
| Glob.Match | generate_prompt_context.py:108 | `fnmatch` for `*` (any string, `/` included) and `?` (one character); other characters match themselves |
| Glob.MatchLength | generate_prompt_context.py:108 | in a match, every pattern character other than `*` consumes one character: a star-free pattern matches only strings of its own length |
| Glob.LiteralMatchesOnlyItself | generate_prompt_context.py:108 | a pattern without wildcards matches only itself |
| Glob.PrefixStarStar | generate_prompt_context.py:108 | `lit**` matches exactly the strings starting with `lit` |
| Glob.Candidates | generate_prompt_context.py:105-107 | the path itself comes first; a directory not ending in `/` gets exactly one more candidate, the path followed by `/` |
| Glob.MatchesAnyGlob | generate_prompt_context.py:101-108 | never true for no patterns; a file matches iff some pattern matches the path; a directory also tries the path plus `/` |
| Glob.MorePatternsMatchMore | generate_prompt_context.py:101-108 | adding patterns never turns a match into a non-match |
| Glob.DirSlashStarStarPrunesDir | generate_prompt_context.py:104-107 | `d/**` matches the directory `d` but not a file at path `d` |
| Glob.SlashStarStarCoversSubtree | generate_prompt_context.py:104-108 | every path below `d/` matches `d/**` |
| Paths.RFind | generate_prompt_context.py:112 | the last index of a character, or -1 when it does not occur |
| Paths.Posix | generate_prompt_context.py:159 | `as_posix()` joins the parts with `/`; a one-part path is that part |
| Paths.PosixRoundTrip | generate_prompt_context.py:173 | splitting the POSIX form on `/` gives back the parts, when no part holds a slash |
| Paths.Name | generate_prompt_context.py:167 | `name` is the last part of the path, and empty for the empty path |
| Paths.Ext | generate_prompt_context.py:177 | the extension the filters compare is the lower-cased suffix, as long as the suffix |
| Paths.ExtOfOneLetterPy | generate_prompt_context.py:177 | a one-letter stem before `.py` gives the extension `.py` |
| Paths.LangMap | generate_prompt_context.py:43-76 | the table from lower-cased suffix to code-block label |
| Paths.Suffix | generate_prompt_context.py:112 | the suffix runs from the last dot to the end and holds no other dot; it is empty iff there is no dot, the dot is first, or the dot is last |
| Paths.SuffixOfLower | generate_prompt_context.py:112 | lower-casing then taking the suffix is taking the suffix then lower-casing |
| Paths.NoSuffixCases | generate_prompt_context.py:112 | `Makefile`, `.gitignore` and `notes.` have no suffix; `archive.tar.gz` has `.gz` |
| Paths.FenceLang | generate_prompt_context.py:111-115 | a `Dockerfile` in any case gives `dockerfile`; any result is `dockerfile`, `text` or a label of the table |
| Paths.FenceLangIgnoresCase | generate_prompt_context.py:111-115 | names equal up to case get the same label |
| Paths.FenceLangOfParts | generate_prompt_context.py:111-115 | the label depends only on the lower-cased name and the lower-cased suffix |
| Paths.FenceLangLookup | generate_prompt_context.py:115 | other names get the table's label for their lower-cased suffix, `text` when the suffix is not a key |
| Paths.FenceLangExamples | generate_prompt_context.py:111-115 | `main.PY` gives `python`, `Dockerfile` gives `dockerfile`, `Makefile` and `.py` give `text` |
| Reader.Kept | generate_prompt_context.py:128-129 | with a positive budget exceeded, exactly the first `max_bytes` bytes are kept; otherwise all of them |
| Reader.Truncates | generate_prompt_context.py:128 | the budget cuts exactly when it is positive and the buffer is longer |
| Reader.TruncatedNote | generate_prompt_context.py:130 | the note starts with `TRUNCATED to first ` followed by the decimal form of the budget |
| Reader.ReplacedNote | generate_prompt_context.py:136 | the note for replaced bytes is `invalid utf-8 replaced` |
| Reader.IsUtf8 | generate_prompt_context.py:132-135 | strict UTF-8 validity; a valid non-empty buffer starts with an ASCII byte or a lead byte in C2..F4 |
| Reader.ReadTextFile | generate_prompt_context.py:118-138 | a failed read or a binary buffer gives no text and no note; otherwise the text is the decoded kept bytes; the note is absent iff nothing was cut and the bytes were valid UTF-8; otherwise it is the truncation note, the replacement note, or both joined by ` \| ` |
| Reader.BinaryCheckSeesWholeBuffer | generate_prompt_context.py:124-129 | a NUL byte beyond the budget still suppresses the file |
| Reader.NulBeyondBudgetExample | generate_prompt_context.py:124-129 | `a` then NUL with a one-byte budget is skipped, while `a` alone is shown |
| Reader.ZeroBudgetKeepsAll | generate_prompt_context.py:128 | a budget of 0 never cuts; the note is absent iff the bytes are valid UTF-8 |
| Reader.TextFileIsNeverSkipped | generate_prompt_context.py:127-138 | a non-binary buffer always yields text |
| Reader.AsciiIsUtf8 | generate_prompt_context.py:133 | plain ASCII is valid UTF-8 |
| Reader.AsciiPrefixUtf8 | generate_prompt_context.py:133 | an ASCII prefix does not change whether the rest is valid UTF-8 |
| Reader.CutCharacterGivesBothNotes | generate_prompt_context.py:128-136 | a budget that splits a two-byte character gives both notes, joined |
| Filter.PolicyFromArgs | generate_prompt_context.py:238-249 | the built-in ignore sets are used; the excluded extensions are the built-in ones together with the `--exclude-ext` ones; the allow-list and the globs are the parsed options |
| Filter.FileVerdict | generate_prompt_context.py:166-183 | a file is included iff its name is not ignored, it is not a link, no glob matches, its lower-cased suffix is not excluded, and the allow-list is empty or holds it |
| Filter.DefaultIgnoreDirs | generate_prompt_context.py:12-20 | the built-in ignored directory names |
| Filter.DefaultIgnoreFiles | generate_prompt_context.py:22-28 | the built-in ignored file names, the output file and the script itself included |
| Filter.DefaultExcludeExts | generate_prompt_context.py:30-41 | the built-in excluded extensions |
| Filter.ExcludeExtKeepsOut | generate_prompt_context.py:177-179 | an extension named by `--exclude-ext` keeps every file with that extension out, whatever `--include-ext` says |
| Filter.KeepDir | generate_prompt_context.py:156-162 | the pruning test: the name is not ignored and the path does not match a glob as a directory |
| Filter.KeepDirMeaning | generate_prompt_context.py:155-162 | a directory is descended into iff its name is not ignored and no pattern matches its path or its path followed by `/` |
| Filter.ExcludedFileNeverIncluded | generate_prompt_context.py:166-179 | an ignored name, a link, a glob match or an excluded suffix each keep a file out |
| Filter.ExcludeWinsOverInclude | generate_prompt_context.py:177-181 | a suffix both excluded and allowed is refused as excluded |
| Filter.IncludedExtIsAllowed | generate_prompt_context.py:180-181 | with an allow-list, every included file's suffix is on it |
| Filter.DefaultExcludedExtAlwaysWins | generate_prompt_context.py:177-179 | a file with a built-in excluded suffix is never included, whatever the options |
| Filter.IncludeExtIsCaseSensitive | generate_prompt_context.py:177-181 | the allow-list is not lower-cased, so `.PY` on it admits no `a.py` |
| Filter.IncludeExtPYAdmitsNoPy | generate_prompt_context.py:85-87 | `--include-ext PY` refuses `a.py` |
| Collector.DirEntries | generate_prompt_context.py:151 | `dirnames` holds exactly the directory entries of the listing |
| Collector.KeepOf | generate_prompt_context.py:156-162 | the pruning decision of a policy, as a function of the directory path |
| Collector.AdmitOf | generate_prompt_context.py:166-183 | the admission decision of a policy, as a function of the file path and its link flag |
| Collector.PathLe | generate_prompt_context.py:185 | the sort key order: the lower-cased POSIX paths compared as Python compares strings |
| Collector.FileEntries | generate_prompt_context.py:151 | `filenames` holds exactly the file entries of the listing |
| Collector.KeptDirsSubsequence | generate_prompt_context.py:155-163 | the pruned list keeps the order of the listing |
| Collector.KeptDirsMembers | generate_prompt_context.py:155-163 | a directory entry survives pruning iff it is kept |
| Collector.PruneDirs | generate_prompt_context.py:155-163 | `kept_dirnames` is an order-preserving subsequence holding exactly the entries not ignored by name and not matched by a glob |
| Collector.AppendAdmitted | generate_prompt_context.py:166-183 | the file loop appends, in listing order, exactly the admitted files |
| Collector.AdmitOfFile | generate_prompt_context.py:166-183 | admission of a file of a directory is the conjunction of the five checks |
| Collector.Walk | generate_prompt_context.py:151-184 | one directory of the walk appends its admitted files, then everything found below its kept subdirectories |
| Collector.WalkSubdirs | generate_prompt_context.py:151-163 | the walk descends into each kept subdirectory in order and never into a directory link |
| Collector.KeptSubWalks | generate_prompt_context.py:151-163 | walking the pruned `dirnames` finds what the kept subdirectories of the listing hold |
| Collector.WalkSpecSelects | generate_prompt_context.py:151-184 | the walk reports a path iff it names a file below the directory, every directory in between is kept, and the file is admitted |
| Collector.PathLeIsTotalPreorder | generate_prompt_context.py:185 | the sort key order is total and transitive |
| Collector.CollectFiles | generate_prompt_context.py:141-186 | the result is the walk's output stably sorted, is sorted by lower-cased POSIX path, and holds exactly the selected files |
| Collector.CollectedUnderPolicy | generate_prompt_context.py:151-184 | a path is collected iff it names a regular file of the tree, it passes the file checks, and every ancestor directory is kept |
| Collector.NothingBelowPrunedDir | generate_prompt_context.py:155-163 | nothing below an ignored or glob-matched directory is ever collected |
| Collector.DefaultWalkExample | generate_prompt_context.py:151-184 | with default options, `a.py`, `b/c.py` and `node_modules/x.py` yield `a.py` then `b/c.py` |
| Sorting.Insert | generate_prompt_context.py:185 | insertion adds exactly one occurrence of the element |
| Sorting.SortSeq | generate_prompt_context.py:185 | the sorted copy is a permutation of the input |
| Sorting.SortSeqSorted | generate_prompt_context.py:185 | the sorted copy is sorted |
| Sorting.SortSeqSameElements | generate_prompt_context.py:185 | the sorted copy holds exactly the input's elements |
| Sorting.SortedUnique | generate_prompt_context.py:203 | two sorted permutations are equal when the order never ties distinct elements |
| Sorting.SortSeqStable | generate_prompt_context.py:185 | the sort is stable: the elements tied with any given element keep their input order |
| Sorting.StableSortUnique | generate_prompt_context.py:185 | two sorted permutations that keep every group of tied elements in the same order are equal, so every stable sort gives this result |
| TreeRender.BuildNodes | generate_prompt_context.py:190-195 | the node set is exactly the non-empty prefixes of the collected paths |
| TreeRender.NodeSetMembers | generate_prompt_context.py:190-195 | the set of prefixes `parts[:i]` is the set of nodes |
| TreeRender.KidsOf | generate_prompt_context.py:199-202 | the children found are distinct and each is a direct child |
| TreeRender.IsDir | generate_prompt_context.py:203 | `(root / p).is_dir()` for a tree made of the listed files: some file lies strictly below the node |
| TreeRender.KidsOfMembers | generate_prompt_context.py:199-202 | the children found are exactly the nodes one level below the parent |
| TreeRender.KeyLeTrans | generate_prompt_context.py:203 | the sibling key order is transitive |
| TreeRender.KeyLe | generate_prompt_context.py:203 | a directory comes before a file whatever the names; otherwise the lower-cased names decide when they differ |
| TreeRender.SiblingOrderIsTotalPreorder | generate_prompt_context.py:203 | the sibling order is total and transitive |
| TreeRender.SiblingsNeverTie | generate_prompt_context.py:203 | two different children of one directory are never tied |
| TreeRender.ChildrenOfSpec | generate_prompt_context.py:197-204 | the children are listed once each, exactly the direct child nodes, directories first and then by lower-cased name |
| TreeRender.Children | generate_prompt_context.py:197-204 | scanning the node set in any order and sorting gives the specified children |
| TreeRender.Walk | generate_prompt_context.py:207-217 | `walk` appends exactly the lines `Lines` specifies |
| TreeRender.LinesShape | generate_prompt_context.py:207-217 | the walk draws, for each node below the parent in drawing order, exactly its `LineOf`: the indentation its ancestors call for, `└── ` before a last child and `├── ` before the others, the name, and `/` for a directory |
| TreeRender.OrderSound | generate_prompt_context.py:207-217 | every drawn node is a node below the parent |
| TreeRender.Connector | generate_prompt_context.py:211 | four characters, `─` `─` and a blank after a corner that is `└` exactly for the last child |
| TreeRender.Extension | generate_prompt_context.py:216 | as wide as the connector, three blanks after a first character that is a blank exactly below the last child |
| TreeRender.NodeLine | generate_prompt_context.py:214 | the line of one child: the indentation, the connector, the name and `/` for a directory |
| TreeRender.DirMark | generate_prompt_context.py:213 | `/` after a directory's name, nothing after a file's |
| TreeRender.IsLastChild | generate_prompt_context.py:210 | a node is the last of its parent's sorted children |
| TreeRender.Indent | generate_prompt_context.py:216-217 | the indentation of a node: one extension per ancestor, `│   ` unless that ancestor is a last child |
| TreeRender.LineOf | generate_prompt_context.py:211-217 | the line of a node, built from its ancestors alone: indentation, connector, name and directory mark |
| TreeRender.LastChildAt | generate_prompt_context.py:209-210 | the child drawn at position `idx` is a last child iff `idx == len(kids) - 1` |
| TreeRender.NodeLineIs | generate_prompt_context.py:209-214 | the line `walk` appends for child `idx` is that child's `LineOf` |
| TreeRender.LineOfDeeper | generate_prompt_context.py:215-217 | drawing a subtree under `prefix + extension` gives its nodes the same lines as drawing them from the parent |
| TreeRender.OrderComplete | generate_prompt_context.py:207-217 | every node below the parent is drawn |
| TreeRender.OrderNoDup | generate_prompt_context.py:207-217 | no node is drawn twice |
| TreeRender.TreeCoversNodes | generate_prompt_context.py:189-220 | the drawn nodes are exactly the tree's nodes, each once, as many as the node set holds |
| TreeRender.BuildTreeLines | generate_prompt_context.py:189-220 | the first line is `.`, there is one line per node, and the lines are the nodes' `LineOf` lines in drawing order |
| TreeExample.RootChildren | generate_prompt_context.py:203 | for `a.py` and `b/c.py`, the directory `b` is listed before the file `a.py` |
| TreeExample.ExampleLines | generate_prompt_context.py:206-219 | the tree of `a.py` and `b/c.py` is `├── b/`, `│   └── c.py`, `└── a.py` |

## Left out

- `main()` (argument parsing, timestamp, Markdown assembly, writing the
  output file, printing) is I/O and formatting. Only the policy it builds
  from `--include-ext`, `--exclude-ext` and `--exclude-glob` is modelled
  (`Filter.PolicyFromArgs`).
- File-system calls are not modelled. `os.walk` becomes a walk over the
  `Entry` value; `is_symlink()` becomes the entry's flag; `is_dir()` in the
  renderer becomes the proper-prefix test. The model assumes the tree does
  not change during the run. `os.walk` is called without `onerror`, so a
  directory it cannot list is skipped without a word; the model has no
  unreadable directories.
- `read_bytes` and its exception are not modelled. The outcome of the read
  is an input: `None` for a failed read, or the bytes.
- UTF-8 decoding with `errors="replace"` is a function parameter of
  `ReadTextFile`. Strict validity is the predicate `IsUtf8`.
- Glob.Match: `fnmatch` character classes `[...]` are not modelled. Every
  character other than `*` and `?` matches itself. On POSIX, `fnmatch`
  does not fold case, so the model does not either.
- Text.Lower: `str.lower()` is modelled for ASCII letters only.
- Text.Strip: `IsSpace` lists exactly the code points Python's
  `str.isspace()` accepts, the whitespace `str.strip()` removes; it is
  written out as a fixed list rather than read from the Unicode Character
  Database that CPython generates its table from.
- Sorting.SortSeq: `list.sort` is modelled as an insertion sort on a
  sequence, not an in-place sort. `SortSeqStable` proves it stable and
  `StableSortUnique` proves a stable sort's result unique, so the outcome
  is the same.
- TreeRender.KeyLe: two sibling names that differ only in case are ordered
  by the name itself. The script leaves their order to `set` iteration.
- Reader.ReadTextFile: `max_bytes` is a natural number. A negative value
  would make the script slice from the end of the buffer.
- Sniffer.IsProbablyBinary: the ratio is computed with exact rationals,
  not floating point. This changes no verdict (see `IntegerRatioForm`).
