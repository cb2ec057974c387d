/**
 * The reader of a zero-context unified diff: which lines a change adds, file by file. The format
 * is that of the POSIX diff utility, "Diff -u or -U Output Format".
 */
module Hunks {
  import opened Options
  import opened Words
  import opened Decimals

  // ---------------------------------------------------------------- strings

  function FindChar(s: string, c: char): (at: nat)
    ensures at <= |s|
    ensures at < |s| ==> s[at] == c
    ensures forall i :: 0 <= i < at ==> s[i] != c
  {
    if s == "" || s[0] == c then 0
    else
      var rest := FindChar(s[1..], c);
      assert forall i :: 1 <= i < 1 + rest ==> s[i] == s[1..][i - 1];
      1 + rest
  }

  predicate StartsWith(s: string, prefix: string) { prefix <= s }

  function StripPrefix(s: string, prefix: string): Option<string>
  {
    if StartsWith(s, prefix) then Some(s[|prefix|..]) else None
  }

  predicate IsWhitespace(c: char)
  {
    var u := c as int;
    0x9 <= u <= 0xD || u == 0x20 || u == 0x85 || u == 0xA0 || u == 0x1680 || 0x2000 <= u <= 0x200A
    || u == 0x2028 || u == 0x2029 || u == 0x202F || u == 0x205F || u == 0x3000
  }

  /** Length of the leading word. */
  function WordEnd(s: string): (n: nat)
    ensures n <= |s|
    ensures n < |s| ==> IsWhitespace(s[n])
    ensures forall i :: 0 <= i < n ==> !IsWhitespace(s[i])
  {
    if s == "" || IsWhitespace(s[0]) then 0
    else
      var rest := WordEnd(s[1..]);
      assert forall i :: 1 <= i < 1 + rest ==> s[i] == s[1..][i - 1];
      1 + rest
  }

  function SplitWhitespace(s: string): seq<string>
    decreases |s|
  {
    if s == "" then []
    else if IsWhitespace(s[0]) then SplitWhitespace(s[1..])
    else [s[..WordEnd(s)]] + SplitWhitespace(s[WordEnd(s)..])
  }

  /** The line without the carriage return of a CR LF ending. */
  function Chomp(line: string): string
  {
    if line != "" && line[|line| - 1] == '\r' then line[..|line| - 1] else line
  }

  /** Lines of a text; the last needs no newline, and one it lacks takes no carriage return with it. */
  function Lines(text: string): seq<string>
    decreases |text|
  {
    if text == "" then []
    else
      var end := FindChar(text, '\n');
      if end == |text| then [text] else [Chomp(text[..end])] + Lines(text[end + 1..])
  }

  // ---------------------------------------------------------------- the reader

  /** An inclusive range of 1-based lines. */
  datatype Range = Range(first: U64, last: U64)

  /** What follows the first word that starts with a plus. */
  function FirstAdded(parts: seq<string>): Option<string>
  {
    if parts == [] then None
    else if StripPrefix(parts[0], "+").Some? then StripPrefix(parts[0], "+")
    else FirstAdded(parts[1..])
  }

  function RangeOf(start: Option<U64>, count: Option<U64>): Option<Range>
  {
    if start == None || count == None || count.value == 0 || start.value + count.value > U64_MAX then None
    else Some(Range(start.value, start.value + count.value - 1))
  }

  /** The added range of one hunk header past its opening marker, or none for a hunk that only deletes. */
  function HunkRange(hunk: string): Option<Range>
  {
    match FirstAdded(SplitWhitespace(hunk))
    case None => None
    case Some(added) =>
      var comma := FindChar(added, ',');
      if comma == |added| then RangeOf(ParseUsize(added), Some(1))
      else RangeOf(ParseUsize(added[..comma]), ParseUsize(added[comma + 1..]))
  }

  type Found = map<string, seq<Range>>

  datatype Reader = Reader(current: Option<string>, found: Found)

  function Push(found: Found, name: string, range: Range): Found
  {
    found[name := (if name in found then found[name] else []) + [range]]
  }

  function ReadLine(r: Reader, line: string): Reader
  {
    var path, hunk := StripPrefix(line, "+++ "), StripPrefix(line, "@@ ");
    if path.Some? then r.(current := StripPrefix(path.value, "b/"))
    else if hunk.Some? && r.current.Some? && HunkRange(hunk.value).Some? then
      r.(found := Push(r.found, r.current.value, HunkRange(hunk.value).value))
    else r
  }

  function ReadAll(r: Reader, lines: seq<string>): Reader
  {
    if lines == [] then r else ReadLine(ReadAll(r, lines[..|lines| - 1]), lines[|lines| - 1])
  }

  const FRESH := Reader(None, map[])

  /** The added ranges of every file of a diff, in hunk order. */
  method AddedLines(diff: string) returns (found: Found)
    ensures found == ReadAll(FRESH, Lines(diff)).found
  {
    hide HunkRange, Lines;
    found := map[];
    var current: Option<string> := None;
    var lines := Lines(diff);
    for i := 0 to |lines|
      invariant Reader(current, found) == ReadAll(FRESH, lines[..i])
    {
      assert lines[..i + 1][..i] == lines[..i];
      var path, hunk := StripPrefix(lines[i], "+++ "), StripPrefix(lines[i], "@@ ");
      if path.Some? {
        current := StripPrefix(path.value, "b/");
      } else if hunk.Some? && current.Some? {
        var range := HunkRange(hunk.value);
        if range.Some? {
          found := Push(found, current.value, range.value);
        }
      }
    }
    assert lines[..|lines|] == lines;
  }
}
