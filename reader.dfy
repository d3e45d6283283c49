/** `read_text_file`, fed the outcome of reading the file instead of a path:
    binary buffers give no content, an oversized buffer is cut to the byte
    budget, and bytes that are not well-formed UTF-8 are decoded with
    replacement characters; each recovery leaves a note. */
module Reader {
  import opened Wrappers
  import opened Text
  import opened Sniffer

  predicate InRange(b: byte, lo: int, hi: int)
  {
    lo <= b as int <= hi
  }

  /** Well-formed UTF-8 as Python's strict decoder accepts it: shortest
      forms only, no surrogates, nothing above U+10FFFF. */
  predicate IsUtf8(s: seq<byte>)
    ensures IsUtf8(s) && s != [] ==> s[0] < 0x80 || InRange(s[0], 0xC2, 0xF4)
    decreases |s|
  {
    if s == [] then true
    else if s[0] < 0x80 then IsUtf8(s[1..])
    else if InRange(s[0], 0xC2, 0xDF) then
      |s| >= 2 && InRange(s[1], 0x80, 0xBF) && IsUtf8(s[2..])
    else if InRange(s[0], 0xE0, 0xEF) then
      var lo := if s[0] == 0xE0 then 0xA0 else 0x80;
      var hi := if s[0] == 0xED then 0x9F else 0xBF;
      |s| >= 3 && InRange(s[1], lo, hi) && InRange(s[2], 0x80, 0xBF) && IsUtf8(s[3..])
    else if InRange(s[0], 0xF0, 0xF4) then
      var lo := if s[0] == 0xF0 then 0x90 else 0x80;
      var hi := if s[0] == 0xF4 then 0x8F else 0xBF;
      |s| >= 4 && InRange(s[1], lo, hi) && InRange(s[2], 0x80, 0xBF)
        && InRange(s[3], 0x80, 0xBF) && IsUtf8(s[4..])
    else false
  }

  /** Plain ASCII is well-formed UTF-8. */
  lemma {:induction false} AsciiIsUtf8(s: seq<byte>)
    requires forall i :: 0 <= i < |s| ==> s[i] < 0x80
    ensures IsUtf8(s)
    decreases |s|
  {
    if s != [] {
      AsciiIsUtf8(s[1..]);
    }
  }

  /** The note left when the buffer was cut. */
  function TruncatedNote(maxBytes: nat): (note: string)
    ensures StartsWith(note, "TRUNCATED to first ")
    ensures 19 + |Decimal(maxBytes)| <= |note| && note[19..19 + |Decimal(maxBytes)|] == Decimal(maxBytes)
  {
    "TRUNCATED to first " + Decimal(maxBytes) + " bytes (use --max-bytes 0 for full content)"
  }

  /** The note left when replacement characters were needed. */
  const ReplacedNote: string := "invalid utf-8 replaced"

  /** `max_bytes and len(data) > max_bytes`: whether the budget cuts the buffer. */
  predicate Truncates(data: seq<byte>, maxBytes: nat)
  {
    maxBytes > 0 && |data| > maxBytes
  }

  /** The bytes that are decoded: the first `maxBytes` when the budget cuts,
      the whole buffer otherwise. */
  function Kept(data: seq<byte>, maxBytes: nat): (kept: seq<byte>)
    ensures Truncates(data, maxBytes) ==> |kept| == maxBytes && kept == data[..maxBytes]
    ensures !Truncates(data, maxBytes) ==> kept == data
  {
    if Truncates(data, maxBytes) then data[..maxBytes] else data
  }

  /** What the reader hands to the document: the text, if any, and a note. */
  datatype Content = Content(text: Option<string>, note: Option<string>)

  /** `read_text_file`. `read` is `None` when reading the file failed;
      `decode` is UTF-8 decoding with `errors="replace"`, which on
      well-formed input agrees with the strict decoder. */
  function ReadTextFile(read: Option<seq<byte>>, maxBytes: nat, decode: seq<byte> -> string): (c: Content)
    ensures read == None ==> c == Content(None, None)
    ensures read.Some? && IsProbablyBinary(read.value) ==> c == Content(None, None)
    ensures read.Some? && !IsProbablyBinary(read.value) ==>
      var kept := Kept(read.value, maxBytes);
      && c.text == Some(decode(kept))
      && (c.note == None <==> !Truncates(read.value, maxBytes) && IsUtf8(kept))
      && (Truncates(read.value, maxBytes) && IsUtf8(kept) ==> c.note == Some(TruncatedNote(maxBytes)))
      && (!Truncates(read.value, maxBytes) && !IsUtf8(kept) ==> c.note == Some(ReplacedNote))
      && (Truncates(read.value, maxBytes) && !IsUtf8(kept) ==>
            c.note == Some(TruncatedNote(maxBytes) + " | " + ReplacedNote))
  {
    match read
    case None => Content(None, None)
    case Some(data) =>
      if IsProbablyBinary(data) then Content(None, None)
      else
        var note: Option<string> := if Truncates(data, maxBytes) then Some(TruncatedNote(maxBytes)) else None;
        var data' := if Truncates(data, maxBytes) then data[..maxBytes] else data;
        if IsUtf8(data') then Content(Some(decode(data')), note)
        else
          var note' := (if note.Some? then note.value + " | " else "") + ReplacedNote;
          assert note.None? ==> note' == ReplacedNote;
          Content(Some(decode(data')), Some(note'))
  }

  /** The binary test runs on the whole buffer before truncation: a NUL byte
      beyond the budget still suppresses the file. */
  lemma BinaryCheckSeesWholeBuffer(data: seq<byte>, maxBytes: nat, i: nat, decode: seq<byte> -> string)
    requires 0 < maxBytes <= i < |data| && data[i] == 0
    ensures ReadTextFile(Some(data), maxBytes, decode) == Content(None, None)
  {
    assert data[i] in data;
  }

  /** For instance `a` followed by a NUL, with a budget of one byte, is
      skipped, although the single byte `a` on its own would be shown. */
  lemma NulBeyondBudgetExample(decode: seq<byte> -> string)
    ensures ReadTextFile(Some([0x61, 0x00]), 1, decode) == Content(None, None)
    ensures ReadTextFile(Some([0x61]), 1, decode).text == Some(decode([0x61]))
  {
    BinaryCheckSeesWholeBuffer([0x61, 0x00], 1, 1, decode);
    TextOnlyIsNotBinary([0x61]);
  }

  /** With a budget of 0 nothing is ever cut. */
  lemma ZeroBudgetKeepsAll(data: seq<byte>, decode: seq<byte> -> string)
    requires !IsProbablyBinary(data)
    ensures ReadTextFile(Some(data), 0, decode).text == Some(decode(data))
    ensures ReadTextFile(Some(data), 0, decode).note == None <==> IsUtf8(data)
  {
  }

  /** A text file that is not binary always yields content: the file is
      annotated, never skipped, when it is cut or badly encoded. */
  lemma TextFileIsNeverSkipped(data: seq<byte>, maxBytes: nat, decode: seq<byte> -> string)
    requires !IsProbablyBinary(data)
    ensures ReadTextFile(Some(data), maxBytes, decode).text.Some?
  {
  }

  /** An ASCII prefix does not change whether the rest is well-formed. */
  lemma {:induction false} AsciiPrefixUtf8(a: seq<byte>, t: seq<byte>)
    requires forall i :: 0 <= i < |a| ==> a[i] < 0x80
    ensures IsUtf8(a + t) == IsUtf8(t)
    decreases |a|
  {
    if a != [] {
      assert (a + t)[1..] == a[1..] + t;
      AsciiPrefixUtf8(a[1..], t);
    } else {
      assert a + t == t;
    }
  }

  /** Cutting in the middle of a multi-byte character gives both notes:
      `é` is the two bytes C3 A9, and a budget that ends between them keeps
      the lead byte alone. */
  lemma CutCharacterGivesBothNotes(prefix: seq<byte>, decode: seq<byte> -> string)
    requires 5 <= |prefix| <= SampleSize - 2
    requires forall i :: 0 <= i < |prefix| ==> 32 <= prefix[i] <= 126
    ensures var data := prefix + [0xC3, 0xA9];
      ReadTextFile(Some(data), |prefix| + 1, decode)
        == Content(Some(decode(prefix + [0xC3])),
                   Some(TruncatedNote(|prefix| + 1) + " | " + ReplacedNote))
  {
    var tail: seq<byte> := [0xC3, 0xA9];
    var data := prefix + tail;
    AllTextCount(prefix);
    NonTextAppend(prefix, tail);
    assert tail[..1] == [0xC3];
    assert NonText(tail) == 2;
    assert 0 !in data by {
      forall i | 0 <= i < |data| ensures data[i] != 0 {
        if i < |prefix| { assert data[i] == prefix[i]; }
      }
    }
    IntegerRatioForm(data);
    assert Sample(data) == data by {
      assert data[..|data|] == data;
    }
    assert !IsProbablyBinary(data);
    assert data[..|prefix| + 1] == prefix + [0xC3];
    AsciiPrefixUtf8(prefix, [0xC3]);
  }
}
