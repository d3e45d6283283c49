/** `parse_csv_set` and `to_ext_set`: the comma lists given on the command
    line become sets of stripped, non-empty entries; extension lists also
    get a leading dot. */
module Csv {
  import opened Wrappers
  import opened Text

  /** What an entry of a parsed comma list looks like: non-empty, without
      surrounding whitespace, and without a comma. */
  predicate IsCleanItem(x: string)
  {
    x != "" && Strip(x) == x && ',' !in x
  }

  lemma StrippedPieceIsClean(piece: string)
    requires ',' !in piece && Strip(piece) != ""
    ensures IsCleanItem(Strip(piece))
  {
    StripIdempotent(piece);
    InfixNotIn(Strip(piece), piece, ',');
  }

  /** `parse_csv_set`: `None` and `""` give the empty set; otherwise the
      stripped form of every comma-separated piece that is not blank. Each
      entry is clean; `ParseCsvSetMembers` says which entries there are. */
  function ParseCsvSet(value: Option<string>): (r: set<string>)
    ensures value == None || value == Some("") ==> r == {}
    ensures forall x :: x in r ==> IsCleanItem(x)
  {
    if value == None || value.value == "" then {}
    else
      var pieces := Split(value.value, ',');
      assert forall p :: p in pieces && Strip(p) != "" ==> IsCleanItem(Strip(p)) by {
        forall p | p in pieces && Strip(p) != "" ensures IsCleanItem(Strip(p)) {
          StrippedPieceIsClean(p);
        }
      }
      set p | p in pieces && Strip(p) != "" :: Strip(p)
  }

  /** The parsed set holds exactly the stripped non-blank pieces. */
  lemma ParseCsvSetMembers(value: string, x: string)
    requires value != ""
    ensures x in ParseCsvSet(Some(value)) <==>
      exists piece :: piece in Split(value, ',') && Strip(piece) != "" && Strip(piece) == x
  {
  }

  lemma JoinStartsWithFirst(items: seq<string>, sep: char)
    requires |items| >= 1
    ensures StartsWith(Join(items, sep), items[0])
  {
  }

  /** Round trip: a comma list written from clean entries parses back to
      exactly the set of those entries. */
  lemma ParseJoinRoundTrip(items: seq<string>)
    requires |items| >= 1
    requires forall i :: 0 <= i < |items| ==> IsCleanItem(items[i])
    ensures ParseCsvSet(Some(Join(items, ','))) == set x | x in items
  {
    var s := Join(items, ',');
    JoinStartsWithFirst(items, ',');
    assert s != "";
    SplitJoin(items, ',');
    assert Split(s, ',') == items;
    CleanPiecesSet(items);
  }

  /** A list of one clean entry parses to that entry alone. */
  lemma ParseSingle(x: string)
    requires IsCleanItem(x)
    ensures ParseCsvSet(Some(x)) == {x}
  {
    ParseJoinRoundTrip([x]);
    assert Join([x], ',') == x;
    assert (set y | y in [x]) == {x};
  }

  /** Clean entries are their own stripped, non-blank forms. */
  lemma CleanPiecesSet(items: seq<string>)
    requires forall i :: 0 <= i < |items| ==> IsCleanItem(items[i])
    ensures (set p | p in items && Strip(p) != "" :: Strip(p)) == set x | x in items
  {
    forall x | x in items ensures Strip(x) == x && x != "" {
      var i :| 0 <= i < |items| && items[i] == x;
      assert IsCleanItem(items[i]);
    }
  }

  /** `x if x.startswith(".") else f".{x}"`. */
  function WithDot(x: string): (e: string)
    ensures StartsWith(e, ".")
    ensures StartsWith(x, ".") ==> e == x
    ensures !StartsWith(x, ".") ==> e == "." + x
  {
    if StartsWith(x, ".") then x else "." + x
  }

  /** `to_ext_set`: every element starts with a dot and holds no comma;
      `ToExtSetMembers` says which elements there are. */
  function ToExtSet(value: Option<string>): (r: set<string>)
    ensures value == None || value == Some("") ==> r == {}
    ensures forall e :: e in r ==> StartsWith(e, ".") && ',' !in e
  {
    var raw := ParseCsvSet(value);
    set x | x in raw :: WithDot(x)
  }

  /** An entry that already starts with a dot is kept as it is, any other
      one gets a dot in front, and nothing else is in the set. */
  lemma ToExtSetMembers(value: Option<string>, e: string)
    ensures e in ToExtSet(value) <==> exists x :: x in ParseCsvSet(value) && e == WithDot(x)
    ensures StartsWith(e, ".") && e in ParseCsvSet(value) ==> e in ToExtSet(value)
    ensures e in ParseCsvSet(value) && !StartsWith(e, ".") ==> "." + e in ToExtSet(value)
  {
  }

  /** A list with a single entry gives a single extension. */
  lemma ToExtSetSingle(value: Option<string>, x: string)
    requires ParseCsvSet(value) == {x}
    ensures ToExtSet(value) == {WithDot(x)}
  {
    var r := ToExtSet(value);
    forall e ensures e in r <==> e == WithDot(x) {
      ToExtSetMembers(value, e);
      if e == WithDot(x) {
        assert x in ParseCsvSet(value);
      }
    }
    assert r == {WithDot(x)};
  }
}
