/** Printing a zero-context diff and reading back the lines it adds. */
module HunkRoundTrip {
  import opened Options
  import opened Words
  import opened Decimals
  import opened Hunks

  /** The file a section of the diff leaves behind. */
  datatype Target = Kept(path: string) | Deleted

  /** One hunk: its two ranges, whatever follows the closing marker, and its changed lines. */
  datatype Hunk = Hunk(oldStart: nat, oldCount: nat, newStart: nat, newCount: nat, tail: string, body: seq<string>)

  datatype FileDiff = FileDiff(preamble: seq<string>, target: Target, hunks: seq<Hunk>)

  // ---------------------------------------------------------------- the printer

  /** A range of one line omits its count. */
  function RangeText(start: nat, count: nat): string
  {
    Decimal(start) + if count == 1 then "" else "," + Decimal(count)
  }

  function HeaderText(h: Hunk): string
  {
    "-" + RangeText(h.oldStart, h.oldCount) + " " + ("+" + RangeText(h.newStart, h.newCount) + " " + ("@@" + h.tail))
  }

  function TargetText(t: Target): string
  {
    match t
    case Kept(path) => "b/" + path
    case Deleted => "/dev/null"
  }

  function HunkLines(h: Hunk): seq<string> { ["@@ " + HeaderText(h)] + h.body }

  function AllHunkLines(hunks: seq<Hunk>): seq<string>
  {
    if hunks == [] then [] else AllHunkLines(hunks[..|hunks| - 1]) + HunkLines(hunks[|hunks| - 1])
  }

  function FileLines(f: FileDiff): seq<string>
  {
    f.preamble + ["+++ " + TargetText(f.target)] + AllHunkLines(f.hunks)
  }

  function DiffLines(files: seq<FileDiff>): seq<string>
  {
    if files == [] then [] else DiffLines(files[..|files| - 1]) + FileLines(files[|files| - 1])
  }

  function Text(lines: seq<string>): string
  {
    if lines == [] then "" else lines[0] + "\n" + Text(lines[1..])
  }

  // ---------------------------------------------------------------- what it adds

  function AddedBy(h: Hunk): Option<Range>
  {
    if h.newCount == 0 || h.newStart + h.newCount > U64_MAX then None
    else Some(Range(h.newStart, h.newStart + h.newCount - 1))
  }

  /** The ranges of the hunks that add something, in hunk order. */
  function Added(hunks: seq<Hunk>): seq<Range>
  {
    if hunks == [] then []
    else
      var last := AddedBy(hunks[|hunks| - 1]);
      Added(hunks[..|hunks| - 1]) + if last.Some? then [last.value] else []
  }

  function PushAll(found: Found, name: string, ranges: seq<Range>): Found
  {
    if ranges == [] then found else found[name := (if name in found then found[name] else []) + ranges]
  }

  function AddFile(found: Found, f: FileDiff): Found
  {
    match f.target
    case Kept(path) => PushAll(found, path, Added(f.hunks))
    case Deleted => found
  }

  function AddFiles(files: seq<FileDiff>): Found
  {
    if files == [] then map[] else AddFile(AddFiles(files[..|files| - 1]), files[|files| - 1])
  }

  // ---------------------------------------------------------------- which diffs read back

  predicate LooksLikeHeader(line: string) { StartsWith(line, "+++ ") || StartsWith(line, "@@ ") }

  /** A changed line, or the note about a missing last newline. */
  predicate IsBody(line: string) { line != "" && (line[0] == '-' || line[0] == '+' || line[0] == '\\') }

  /** The printed shape of a file's section: an inert preamble, and hunks made of changed lines. */
  ghost predicate Framed(f: FileDiff)
  {
    && (forall i :: 0 <= i < |f.preamble| ==> !LooksLikeHeader(f.preamble[i]))
    && (forall i, k :: 0 <= i < |f.hunks| && 0 <= k < |f.hunks[i].body| ==> IsBody(f.hunks[i].body[k]))
  }

  /** The file a section is about, when it leaves one. */
  function Owner(f: FileDiff): Option<string>
  {
    match f.target
    case Kept(path) => Some(path)
    case Deleted => None
  }

  /** Every changed line of the hunks, in order. */
  function Bodies(hunks: seq<Hunk>): seq<string>
  {
    if hunks == [] then [] else Bodies(hunks[..|hunks| - 1]) + hunks[|hunks| - 1].body
  }

  /** The last of the lines that looks like a file header. */
  function LastTitle(lines: seq<string>): (title: Option<string>)
    ensures title.Some? ==> StartsWith(title.value, "+++ ")
  {
    if lines == [] then None
    else if StartsWith(lines[|lines| - 1], "+++ ") then Some(lines[|lines| - 1])
    else LastTitle(lines[..|lines| - 1])
  }

  /** The file a header-like line names, if it names one. */
  function Named(title: string): Option<string>
    requires StartsWith(title, "+++ ")
  {
    StripPrefix(title[4..], "b/")
  }

  /**
   * Before every hunk that adds lines, the last changed line so far that looks like a file header,
   * if there is one, names the very file the section is about; in a deleted file's section, no file.
   */
  ghost predicate Undiverted(owner: Option<string>, hunks: seq<Hunk>)
  {
    forall i :: 0 <= i < |hunks| && AddedBy(hunks[i]).Some? ==>
      (var title := LastTitle(Bodies(hunks[..i])); title.Some? ==> Named(title.value) == owner)
  }

  // ---------------------------------------------------------------- one header

  predicate IsWord(s: string) { s != "" && forall i :: 0 <= i < |s| ==> !IsWhitespace(s[i]) }

  lemma WordEndIs(s: string, n: nat)
    requires n < |s| && IsWhitespace(s[n])
    requires forall i :: 0 <= i < n ==> !IsWhitespace(s[i])
    ensures WordEnd(s) == n
  {
    hide IsWhitespace;
  }

  lemma WordThenRest(word: string, rest: string)
    requires IsWord(word)
    ensures SplitWhitespace(word + " " + rest) == [word] + SplitWhitespace(rest)
  {
    hide IsWhitespace;
    var s := word + " " + rest;
    assert !IsWhitespace(s[0]) by { assert s[0] == word[0]; }
    assert IsWhitespace(' ') by { SpaceIsWhitespace(); }
    var n := |word|;
    WordEndIs(s, n);
    assert s[..n] == word && s[n..] == " " + rest && (" " + rest)[1..] == rest;
    assert SplitWhitespace(s[n..]) == SplitWhitespace(rest);
  }

  lemma SpaceIsWhitespace()
    ensures IsWhitespace(' ')
  {
  }

  lemma RangeTextIsWord(start: nat, count: nat)
    ensures IsWord(RangeText(start, count))
    ensures IsWord("-" + RangeText(start, count)) && IsWord("+" + RangeText(start, count))
  {
    hide Decimal;
    var text := RangeText(start, count);
    assert forall i :: 0 <= i < |text| ==> IsDigit(text[i]) || text[i] == ',';
  }

  lemma FindComma(digits: string, rest: string)
    requires AllDigits(digits)
    ensures FindChar(digits, ',') == |digits|
    ensures FindChar(digits + "," + rest, ',') == |digits|
  {
    var s := digits + "," + rest;
    assert s[|digits|] == ',';
    assert forall i :: 0 <= i < |digits| ==> s[i] == digits[i];
    assert FindChar(digits, ',') < |digits| ==> IsDigit(digits[FindChar(digits, ',')]);
  }

  /** The header of any hunk reads back to exactly the lines the hunk adds, whatever follows it. */
  lemma HeaderReadsBack(h: Hunk)
    ensures HunkRange(HeaderText(h)) == AddedBy(h)
  {
    hide SplitWhitespace, Decimal, ParseUsize, IsWord, FindChar;
    var was, now := "-" + RangeText(h.oldStart, h.oldCount), "+" + RangeText(h.newStart, h.newCount);
    RangeTextIsWord(h.oldStart, h.oldCount);
    RangeTextIsWord(h.newStart, h.newCount);
    WordThenRest(was, now + " " + ("@@" + h.tail));
    WordThenRest(now, "@@" + h.tail);
    var rest := SplitWhitespace("@@" + h.tail);
    assert SplitWhitespace(HeaderText(h)) == [was] + ([now] + rest);
    FirstPlus(was, now, rest, RangeText(h.newStart, h.newCount));
    ParsePrinted(h.newStart);
    ParsePrinted(h.newCount);
    FindComma(Decimal(h.newStart), Decimal(h.newCount));
    var added := RangeText(h.newStart, h.newCount);
    if h.newCount == 1 {
      assert added == Decimal(h.newStart);
    } else {
      var at := |Decimal(h.newStart)|;
      assert added == Decimal(h.newStart) + "," + Decimal(h.newCount);
      assert added[..at] == Decimal(h.newStart) && added[at + 1..] == Decimal(h.newCount);
    }
  }

  lemma FirstPlus(was: string, now: string, rest: seq<string>, text: string)
    requires was != "" && was[0] == '-' && now == "+" + text
    ensures FirstAdded([was] + ([now] + rest)) == Some(text)
  {
    var parts := [was] + ([now] + rest);
    assert parts[1..] == [now] + rest;
    assert now[1..] == text;
  }

  // ---------------------------------------------------------------- whole diffs

  lemma {:induction false} ReadConcat(r: Reader, a: seq<string>, b: seq<string>)
    ensures ReadAll(r, a + b) == ReadAll(ReadAll(r, a), b)
  {
    hide ReadLine;
    if b == [] {
      assert a + b == a;
    } else {
      ReadConcat(r, a, b[..|b| - 1]);
      assert (a + b)[..|a + b| - 1] == a + b[..|b| - 1];
    }
  }

  lemma ReadOne(r: Reader, line: string)
    ensures ReadAll(r, [line]) == ReadLine(r, line)
  {
    hide ReadLine;
    var lines := [line];
    assert lines[..0] == [];
  }

  lemma {:induction false} InertLines(r: Reader, lines: seq<string>)
    requires forall i :: 0 <= i < |lines| ==> !LooksLikeHeader(lines[i])
    ensures ReadAll(r, lines) == r
  {
    hide HunkRange;
    if lines != [] {
      InertLines(r, lines[..|lines| - 1]);
    }
  }

  /** The file being read after some changed lines. */
  function CurrentAfter(current: Option<string>, lines: seq<string>): Option<string>
  {
    var title := LastTitle(lines);
    if title.Some? then Named(title.value) else current
  }

  function FoundAfter(r: Reader, h: Hunk): Found
  {
    if r.current.Some? && AddedBy(h).Some? then Push(r.found, r.current.value, AddedBy(h).value) else r.found
  }

  /** Changed lines move nothing but the file being read, and only the last header-like one decides it. */
  lemma {:induction false} BodyReads(r: Reader, lines: seq<string>)
    requires forall k :: 0 <= k < |lines| ==> IsBody(lines[k])
    ensures ReadAll(r, lines) == r.(current := CurrentAfter(r.current, lines))
  {
    hide HunkRange;
    if lines != [] {
      BodyReads(r, lines[..|lines| - 1]);
    }
  }

  /** One printed hunk, whatever its changed lines look like. */
  lemma HunkReads(r: Reader, h: Hunk)
    requires forall k :: 0 <= k < |h.body| ==> IsBody(h.body[k])
    ensures ReadAll(r, HunkLines(h)) == Reader(CurrentAfter(r.current, h.body), FoundAfter(r, h))
  {
    hide HunkRange, HeaderText, AddedBy, Push, CurrentAfter;
    var header := "@@ " + HeaderText(h);
    HeaderReadsBack(h);
    assert header[3..] == HeaderText(h);
    assert !StartsWith(header, "+++ ") by { assert header[0] == '@'; }
    ReadConcat(r, [header], h.body);
    ReadOne(r, header);
    BodyReads(ReadLine(r, header), h.body);
  }

  lemma {:induction false} LastTitleConcat(a: seq<string>, b: seq<string>)
    ensures LastTitle(a + b) == if LastTitle(b).Some? then LastTitle(b) else LastTitle(a)
  {
    hide StartsWith;
    if b == [] {
      assert a + b == a;
    } else {
      LastTitleConcat(a, b[..|b| - 1]);
      assert (a + b)[..|a + b| - 1] == a + b[..|b| - 1];
    }
  }

  ghost predicate AllBodies(hunks: seq<Hunk>)
  {
    forall i, k :: 0 <= i < |hunks| && 0 <= k < |hunks[i].body| ==> IsBody(hunks[i].body[k])
  }

  /** The state in which the reader meets the hunk after the given ones, and what that hunk then does. */
  lemma HunksStep(r: Reader, init: seq<Hunk>, last: Hunk)
    requires AllBodies(init + [last])
    requires ReadAll(r, AllHunkLines(init)).current == CurrentAfter(r.current, Bodies(init))
    ensures ReadAll(r, AllHunkLines(init + [last]))
         == Reader(CurrentAfter(r.current, Bodies(init + [last])), FoundAfter(ReadAll(r, AllHunkLines(init)), last))
  {
    hide HunkLines, IsBody, FoundAfter, Named;
    var hunks := init + [last];
    assert hunks[..|init|] == init && hunks[|init|] == last;
    ReadConcat(r, AllHunkLines(init), HunkLines(last));
    HunkReads(ReadAll(r, AllHunkLines(init)), last);
    LastTitleConcat(Bodies(init), last.body);
  }

  lemma {:induction false} HunksCurrent(r: Reader, hunks: seq<Hunk>)
    requires AllBodies(hunks)
    ensures ReadAll(r, AllHunkLines(hunks)).current == CurrentAfter(r.current, Bodies(hunks))
  {
    hide HunkLines, FoundAfter, IsBody;
    if hunks != [] {
      var init, last := hunks[..|hunks| - 1], hunks[|hunks| - 1];
      HunksCurrent(r, init);
      assert hunks == init + [last];
      HunksStep(r, init, last);
    }
  }

  lemma HunksFound(r: Reader, hunks: seq<Hunk>)
    requires AllBodies(hunks) && hunks != []
    ensures var init := hunks[..|hunks| - 1];
      ReadAll(r, AllHunkLines(hunks)).found
      == FoundAfter(Reader(CurrentAfter(r.current, Bodies(init)), ReadAll(r, AllHunkLines(init)).found), hunks[|hunks| - 1])
  {
    hide HunkLines, FoundAfter, IsBody, AllHunkLines, ReadAll, Bodies, CurrentAfter;
    var init, last := hunks[..|hunks| - 1], hunks[|hunks| - 1];
    HunksCurrent(r, init);
    assert hunks == init + [last];
    HunksStep(r, init, last);
  }

  lemma UndivertedStep(owner: Option<string>, hunks: seq<Hunk>)
    requires hunks != []
    ensures var init := hunks[..|hunks| - 1];
      Undiverted(owner, hunks) <==>
      Undiverted(owner, init) && (AddedBy(hunks[|hunks| - 1]).Some? ==> CurrentAfter(owner, Bodies(init)) == owner)
  {
    hide Bodies, LastTitle, Named, AddedBy;
    var init := hunks[..|hunks| - 1];
    assert forall i :: 0 <= i < |init| ==> init[..i] == hunks[..i] && init[i] == hunks[i];
  }

  lemma PushOneMore(found: Found, name: string, ranges: seq<Range>, range: Range)
    ensures PushAll(found, name, ranges + [range]) == Push(PushAll(found, name, ranges), name, range)
  {
    var before := if name in found then found[name] else [];
    assert before + (ranges + [range]) == before + ranges + [range];
    if ranges == [] {
      assert ranges + [range] == [range] && before + [] == before;
    } else {
      var mid := found[name := before + ranges];
      assert mid[name := before + ranges + [range]] == found[name := before + ranges + [range]];
    }
  }

  /** What a file has been credited with so far. */
  function Credit(found: Found, name: string): seq<Range> { if name in found then found[name] else [] }

  lemma PushCredits(found: Found, name: string, range: Range, other: string)
    ensures Credit(Push(found, name, range), other) == Credit(found, other) + if other == name then [range] else []
  {
  }

  /** A kept file's section: exact while nothing is diverted, and for ever short afterwards. */
  lemma {:induction false} KeptHunksRead(r: Reader, path: string, hunks: seq<Hunk>)
    requires AllBodies(hunks) && r.current == Some(path)
    ensures var found := ReadAll(r, AllHunkLines(hunks)).found;
      && (Undiverted(Some(path), hunks) ==> found == PushAll(r.found, path, Added(hunks)))
      && |Credit(found, path)| <= |Credit(r.found, path)| + |Added(hunks)|
      && (!Undiverted(Some(path), hunks) ==> |Credit(found, path)| < |Credit(r.found, path)| + |Added(hunks)|)
  {
    hide HunkLines, AddedBy, Push, PushAll, IsBody, Undiverted, Bodies, CurrentAfter, ReadLine, Credit;
    if hunks == [] {
      PushNothing(r.found, path);
      NothingDiverted(Some(path));
    } else {
      var init, last := hunks[..|hunks| - 1], hunks[|hunks| - 1];
      var before := ReadAll(r, AllHunkLines(init)).found;
      KeptHunksRead(r, path, init);
      HunksFound(r, hunks);
      UndivertedStep(Some(path), hunks);
      assert Added(init) + [] == Added(init);
      var current := CurrentAfter(r.current, Bodies(init));
      if AddedBy(last).Some? {
        PushOneMore(r.found, path, Added(init), AddedBy(last).value);
        if current.Some? {
          PushCredits(before, current.value, AddedBy(last).value, path);
        }
      }
    }
  }

  lemma NothingDiverted(owner: Option<string>)
    ensures Undiverted(owner, [])
  {
  }

  /** A deleted file's section: it leaves everything alone exactly while no adding hunk is given a file. */
  lemma {:induction false} DeletedHunksRead(r: Reader, hunks: seq<Hunk>, name: string) returns (gainer: string)
    requires AllBodies(hunks) && r.current == None
    ensures var found := ReadAll(r, AllHunkLines(hunks)).found;
      && (Undiverted(None, hunks) ==> found == r.found)
      && |Credit(r.found, name)| <= |Credit(found, name)|
      && (!Undiverted(None, hunks) ==> |Credit(r.found, gainer)| < |Credit(found, gainer)|)
  {
    hide HunkLines, AddedBy, Push, IsBody, Undiverted, Bodies, CurrentAfter, ReadLine, Credit;
    gainer := name;
    if hunks == [] {
      NothingDiverted(None);
    } else {
      var init, last := hunks[..|hunks| - 1], hunks[|hunks| - 1];
      var before := ReadAll(r, AllHunkLines(init)).found;
      gainer := DeletedHunksRead(r, init, name);
      HunksFound(r, hunks);
      UndivertedStep(None, hunks);
      var current := CurrentAfter(r.current, Bodies(init));
      if AddedBy(last).Some? && current.Some? {
        PushCredits(before, current.value, AddedBy(last).value, name);
        PushCredits(before, current.value, AddedBy(last).value, gainer);
        if Undiverted(None, init) {
          gainer := current.value;
          PushCredits(before, gainer, AddedBy(last).value, gainer);
        }
      }
    }
  }

  lemma PushNothing(found: Found, name: string)
    ensures PushAll(found, name, []) == found
  {
  }

  lemma PushAllCredits(found: Found, name: string, ranges: seq<Range>)
    ensures Credit(PushAll(found, name, ranges), name) == Credit(found, name) + ranges
  {
  }

  /** Past its preamble and its title, the reader holds the file the section is about. */
  lemma TitleReads(r: Reader, f: FileDiff)
    requires Framed(f)
    ensures ReadAll(r, FileLines(f)) == ReadAll(r.(current := Owner(f)), AllHunkLines(f.hunks))
  {
    hide AllHunkLines, HunkRange;
    var target := "+++ " + TargetText(f.target);
    ReadConcat(r, f.preamble + [target], AllHunkLines(f.hunks));
    ReadConcat(r, f.preamble, [target]);
    InertLines(r, f.preamble);
    assert target[4..] == TargetText(f.target);
    ReadOne(r, target);
    if f.target.Kept? {
      assert TargetText(f.target)[2..] == f.target.path;
    } else {
      assert TargetText(f.target)[0] == '/';
    }
  }

  /**
   * The round trip of one file's section, exactly: whatever was found before, reading it back adds
   * its non-empty added ranges in hunk order, and nothing else, if and only if no adding hunk is
   * diverted by a changed line that looks like a file header.
   */
  lemma FileReadsBackIff(r: Reader, f: FileDiff)
    requires Framed(f)
    ensures ReadAll(r, FileLines(f)).found == AddFile(r.found, f) <==> Undiverted(Owner(f), f.hunks)
  {
    hide FileLines, AllHunkLines, ReadAll, Added, PushAll, Undiverted, Credit, IsBody, LooksLikeHeader;
    TitleReads(r, f);
    var titled := r.(current := Owner(f));
    match f.target
    case Kept(path) =>
      KeptHunksRead(titled, path, f.hunks);
      PushAllCredits(r.found, path, Added(f.hunks));
    case Deleted =>
      var _ := DeletedHunksRead(titled, f.hunks, "");
  }

  /** Reading the printed lines of any undiverted diff yields, file by file, exactly its non-empty added ranges in hunk order. */
  lemma {:induction false} LinesReadBack(files: seq<FileDiff>)
    requires forall i :: 0 <= i < |files| ==> Framed(files[i]) && Undiverted(Owner(files[i]), files[i].hunks)
    ensures ReadAll(FRESH, DiffLines(files)).found == AddFiles(files)
  {
    hide FileLines, AddFile, Framed, Undiverted;
    if files != [] {
      var init, last := files[..|files| - 1], files[|files| - 1];
      LinesReadBack(init);
      ReadConcat(FRESH, DiffLines(init), FileLines(last));
      FileReadsBackIff(ReadAll(FRESH, DiffLines(init)), last);
    }
  }

  // ---------------------------------------------------------------- text, and CR LF endings

  ghost predicate OneLine(line: string) { '\n' !in line }

  function ChompAll(lines: seq<string>): seq<string>
  {
    if lines == [] then [] else [Chomp(lines[0])] + ChompAll(lines[1..])
  }

  lemma {:induction false} LinesOfText(lines: seq<string>)
    requires forall i :: 0 <= i < |lines| ==> OneLine(lines[i])
    ensures Lines(Text(lines)) == ChompAll(lines)
  {
    hide Chomp;
    if lines != [] {
      var line, rest := lines[0], Text(lines[1..]);
      var text := line + "\n" + rest;
      NewlineAt(line, rest);
      assert text[..|line|] == line && text[|line| + 1..] == rest;
      LinesOfText(lines[1..]);
    }
  }

  lemma NewlineAt(line: string, rest: string)
    requires OneLine(line)
    ensures FindChar(line + "\n" + rest, '\n') == |line|
  {
    hide FindChar;
    var text := line + "\n" + rest;
    var at := FindChar(text, '\n');
    assert text[|line|] == '\n';
    assert forall i :: 0 <= i < |line| ==> text[i] == line[i];
  }

  lemma {:induction false} ChompConcat(a: seq<string>, b: seq<string>)
    ensures ChompAll(a + b) == ChompAll(a) + ChompAll(b)
  {
    hide Chomp;
    if a == [] {
      assert a + b == b;
    } else {
      ChompConcat(a[1..], b);
      assert (a + b)[0] == a[0] && (a + b)[1..] == a[1..] + b;
      var head, tail, rest := [Chomp(a[0])], ChompAll(a[1..]), ChompAll(b);
      assert head + (tail + rest) == (head + tail) + rest;
    }
  }

  lemma {:induction false} ChompAt(lines: seq<string>)
    ensures |ChompAll(lines)| == |lines|
    ensures forall i :: 0 <= i < |lines| ==> ChompAll(lines)[i] == Chomp(lines[i])
  {
    hide Chomp;
    if lines != [] {
      ChompAt(lines[1..]);
    }
  }

  function ChompHunk(h: Hunk): Hunk { h.(tail := Chomp(h.tail), body := ChompAll(h.body)) }

  function ChompHunks(hunks: seq<Hunk>): seq<Hunk>
  {
    if hunks == [] then [] else ChompHunks(hunks[..|hunks| - 1]) + [ChompHunk(hunks[|hunks| - 1])]
  }

  function ChompFile(f: FileDiff): FileDiff { f.(preamble := ChompAll(f.preamble), hunks := ChompHunks(f.hunks)) }

  lemma ChompHeader(h: Hunk)
    ensures Chomp("@@ " + HeaderText(h)) == "@@ " + HeaderText(ChompHunk(h))
  {
    hide RangeText;
    var front := "@@ " + ("-" + RangeText(h.oldStart, h.oldCount) + " "
                          + ("+" + RangeText(h.newStart, h.newCount) + " " + "@@"));
    assert "@@ " + HeaderText(h) == front + h.tail;
    assert "@@ " + HeaderText(ChompHunk(h)) == front + Chomp(h.tail);
    assert front[|front| - 1] == '@';
    ChompTail(front, h.tail);
  }

  lemma ChompTail(front: string, tail: string)
    requires front != "" && front[|front| - 1] != '\r'
    ensures Chomp(front + tail) == front + Chomp(tail)
  {
  }

  lemma ChompNothing()
    ensures ChompAll([]) == []
  {
  }

  lemma ChompOneHunk(h: Hunk)
    ensures ChompAll(HunkLines(h)) == HunkLines(ChompHunk(h))
  {
    hide HeaderText, Chomp;
    ChompHeader(h);
    var header := ["@@ " + HeaderText(h)];
    ChompConcat(header, h.body);
    assert header[1..] == [];
  }

  lemma {:induction false} ChompHunkLines(hunks: seq<Hunk>)
    ensures ChompAll(AllHunkLines(hunks)) == AllHunkLines(ChompHunks(hunks))
  {
    hide HunkLines, Chomp, ChompAll, ChompHunk;
    if hunks == [] {
      ChompNothing();
    } else {
      var init, last := hunks[..|hunks| - 1], hunks[|hunks| - 1];
      ChompHunkLines(init);
      ChompConcat(AllHunkLines(init), HunkLines(last));
      ChompOneHunk(last);
      assert ChompHunks(hunks)[..|ChompHunks(init)|] == ChompHunks(init);
    }
  }

  lemma {:induction false} ChompHunksAt(hunks: seq<Hunk>)
    ensures |ChompHunks(hunks)| == |hunks|
    ensures forall i :: 0 <= i < |hunks| ==> ChompHunks(hunks)[i] == ChompHunk(hunks[i])
  {
    hide ChompHunk;
    if hunks != [] {
      ChompHunksAt(hunks[..|hunks| - 1]);
    }
  }

  /** Line endings never change what the hunks add. */
  lemma {:induction false} ChompKeepsAdded(hunks: seq<Hunk>)
    ensures Added(ChompHunks(hunks)) == Added(hunks)
  {
    hide Chomp, ChompAll;
    if hunks != [] {
      var init, last := hunks[..|hunks| - 1], hunks[|hunks| - 1];
      ChompKeepsAdded(init);
      assert ChompHunks(hunks) == ChompHunks(init) + [ChompHunk(last)];
      assert ChompHunks(hunks)[..|ChompHunks(init)|] == ChompHunks(init);
    }
  }

  lemma ChompKeepsShape(line: string)
    ensures LooksLikeHeader(Chomp(line)) ==> LooksLikeHeader(line)
    ensures IsBody(line) ==> IsBody(Chomp(line))
    ensures StartsWith(Chomp(line), "+++ ") ==> StartsWith(line, "+++ ")
  {
  }

  /** A path git prints unquoted does not end in a carriage return. */
  ghost predicate PlainPath(f: FileDiff)
  {
    f.target.Kept? ==> f.target.path == "" || f.target.path[|f.target.path| - 1] != '\r'
  }

  /** A printed section the reader gets right: read without its carriage returns, nothing in it is diverted. */
  ghost predicate Plain(f: FileDiff)
  {
    Framed(f) && PlainPath(f) && Undiverted(Owner(f), ChompHunks(f.hunks))
  }

  lemma ChompFileKeeps(f: FileDiff)
    requires Framed(f) && PlainPath(f)
    ensures Framed(ChompFile(f))
    ensures ChompAll(FileLines(f)) == FileLines(ChompFile(f))
    ensures forall found :: AddFile(found, ChompFile(f)) == AddFile(found, f)
  {
    hide Chomp, LooksLikeHeader, IsBody, StartsWith, AllHunkLines, Added, PushAll;
    var target := "+++ " + TargetText(f.target);
    ChompHunkLines(f.hunks);
    ChompHunksAt(f.hunks);
    ChompKeepsAdded(f.hunks);
    ChompConcat(f.preamble + [target], AllHunkLines(f.hunks));
    ChompConcat(f.preamble, [target]);
    ChompTarget(f.target);
    assert ChompAll([target]) == [target] by { assert [target][1..] == []; }
    ChompAt(f.preamble);
    forall i | 0 <= i < |f.preamble| ensures !LooksLikeHeader(ChompAll(f.preamble)[i]) {
      ChompKeepsShape(f.preamble[i]);
    }
    forall i, k | 0 <= i < |f.hunks| && 0 <= k < |ChompHunks(f.hunks)[i].body|
      ensures IsBody(ChompHunks(f.hunks)[i].body[k])
    {
      ChompAt(f.hunks[i].body);
      ChompKeepsShape(f.hunks[i].body[k]);
    }
  }

  lemma ChompTarget(t: Target)
    requires t.Kept? ==> t.path == "" || t.path[|t.path| - 1] != '\r'
    ensures Chomp("+++ " + TargetText(t)) == "+++ " + TargetText(t)
  {
  }

  lemma PlainKeeps(f: FileDiff)
    requires Plain(f)
    ensures Framed(ChompFile(f)) && Undiverted(Owner(ChompFile(f)), ChompFile(f).hunks)
    ensures ChompAll(FileLines(f)) == FileLines(ChompFile(f))
    ensures forall found :: AddFile(found, ChompFile(f)) == AddFile(found, f)
  {
    hide Framed, PlainPath, Undiverted, AddFile;
    ChompFileKeeps(f);
  }

  lemma {:induction false} ChompedReadBack(files: seq<FileDiff>)
    requires forall i :: 0 <= i < |files| ==> Plain(files[i])
    ensures ReadAll(FRESH, ChompAll(DiffLines(files))).found == AddFiles(files)
  {
    hide FileLines, AddFile, Plain, ReadLine, Chomp;
    if files != [] {
      var init, last := files[..|files| - 1], files[|files| - 1];
      ChompedReadBack(init);
      ChompConcat(DiffLines(init), FileLines(last));
      ReadConcat(FRESH, ChompAll(DiffLines(init)), ChompAll(FileLines(last)));
      PlainKeeps(last);
      FileReadsBackIff(ReadAll(FRESH, ChompAll(DiffLines(init))), ChompFile(last));
    }
  }

  /**
   * The round trip, on text, with any mix of line endings inside changed lines: reading the text of
   * any diff in which nothing is diverted yields for each file exactly its non-empty added ranges in
   * hunk order. A hunk that only deletes and a deleted file contribute nothing.
   */
  lemma TextReadsBack(files: seq<FileDiff>)
    requires forall i :: 0 <= i < |files| ==> Plain(files[i])
    requires forall i :: 0 <= i < |DiffLines(files)| ==> OneLine(DiffLines(files)[i])
    ensures ReadAll(FRESH, Lines(Text(DiffLines(files)))).found == AddFiles(files)
  {
    hide Plain, Lines, Text, ReadAll, AddFiles, DiffLines;
    LinesOfText(DiffLines(files));
    ChompedReadBack(files);
  }

  /** The text of one file's section reads back if and only if, without its carriage returns, nothing in it is diverted. */
  lemma TextReadsBackIff(f: FileDiff)
    requires Framed(f) && PlainPath(f)
    requires forall i :: 0 <= i < |FileLines(f)| ==> OneLine(FileLines(f)[i])
    ensures ReadAll(FRESH, Lines(Text(FileLines(f)))).found == AddFile(map[], f) <==> Plain(f)
  {
    hide Framed, PlainPath, Undiverted, Lines, Text, ReadAll, AddFile, FileLines, OneLine;
    LinesOfText(FileLines(f));
    ChompFileKeeps(f);
    FileReadsBackIff(FRESH, ChompFile(f));
  }

  // ---------------------------------------------------------------- the one ambiguity

  /** A section in which no added line starts with two pluses and a space diverts nothing. */
  lemma NoPlusesIsPlain(f: FileDiff)
    requires Framed(f) && PlainPath(f)
    requires forall i, k :: 0 <= i < |f.hunks| && 0 <= k < |f.hunks[i].body| ==> !StartsWith(f.hunks[i].body[k], "+++ ")
    ensures Plain(f) && Undiverted(Owner(f), f.hunks)
  {
    hide StartsWith, Chomp, ChompAll, AddedBy, Bodies, LastTitle;
    ChompHunksAt(f.hunks);
    UntitledHunks(f.hunks);
    forall i, k | 0 <= i < |f.hunks| && 0 <= k < |ChompHunks(f.hunks)[i].body|
      ensures !StartsWith(ChompHunks(f.hunks)[i].body[k], "+++ ")
    {
      ChompAt(f.hunks[i].body);
      ChompKeepsShape(f.hunks[i].body[k]);
    }
    UntitledHunks(ChompHunks(f.hunks));
  }

  lemma {:induction false} UntitledHunks(hunks: seq<Hunk>)
    requires forall i, k :: 0 <= i < |hunks| && 0 <= k < |hunks[i].body| ==> !StartsWith(hunks[i].body[k], "+++ ")
    ensures forall i :: 0 <= i <= |hunks| ==> LastTitle(Bodies(hunks[..i])) == None
  {
    hide StartsWith;
    assert hunks[..|hunks|] == hunks;
    if hunks != [] {
      var init, last := hunks[..|hunks| - 1], hunks[|hunks| - 1];
      UntitledHunks(init);
      assert forall i :: 0 <= i <= |init| ==> init[..i] == hunks[..i];
      assert init[..|init|] == init;
      Untitled(last.body);
      LastTitleConcat(Bodies(init), last.body);
    }
  }

  lemma {:induction false} Untitled(lines: seq<string>)
    requires forall k :: 0 <= k < |lines| ==> !StartsWith(lines[k], "+++ ")
    ensures LastTitle(lines) == None
  {
    if lines != [] {
      Untitled(lines[..|lines| - 1]);
    }
  }

  /**
   * What a header-like changed line costs the hunk after it: if it names a file the hunk's range is
   * filed under that file, and if it names none the range is not read at all.
   */
  lemma HunkAfterATitle(r: Reader, text: string, h: Hunk)
    ensures ReadAll(ReadLine(r, "+++ " + text), ["@@ " + HeaderText(h)]).found == (
      var name := StripPrefix(text, "b/");
      if name.Some? && AddedBy(h).Some? then Push(r.found, name.value, AddedBy(h).value) else r.found)
  {
    hide HunkRange, HeaderText, AddedBy;
    assert ("+++ " + text)[4..] == text;
    var header := "@@ " + HeaderText(h);
    HeaderReadsBack(h);
    assert header[3..] == HeaderText(h);
    ReadOne(ReadLine(r, "+++ " + text), header);
    assert !StartsWith(header, "+++ ") by { assert header[0] == '@'; }
  }

  /** One added line of `a` whose text is `++ ` and then `text`, and a later hunk adding line 5. */
  function Misleading(text: string): FileDiff
  {
    FileDiff([], Kept("a"), [Hunk(0, 0, 1, 1, "", ["+++ " + text]), Hunk(3, 0, 5, 1, "", ["+x"])])
  }

  lemma MisleadingReads(r: Reader, text: string)
    ensures Framed(Misleading(text))
    ensures ReadAll(r, FileLines(Misleading(text))).found == (
      var first := Push(r.found, "a", Range(1, 1));
      var name := StripPrefix(text, "b/");
      if name.Some? then Push(first, name.value, Range(5, 5)) else first)
  {
    hide HunkLines, ReadAll, FileLines, Push;
    var f := Misleading(text);
    var one, two := f.hunks[0], f.hunks[1];
    assert ("+++ " + text)[4..] == text;
    TitleReads(r, f);
    var titled := r.(current := Some("a"));
    assert f.hunks[..1] == [one] && [one][..0] == [];
    TitleOfOne("+++ " + text);
    HunksOfTwo(one, two);
    ReadConcat(titled, HunkLines(one), HunkLines(two));
    HunkReads(titled, one);
    HunkReads(ReadAll(titled, HunkLines(one)), two);
  }

  lemma TitleOfOne(line: string)
    requires StartsWith(line, "+++ ")
    ensures LastTitle([line]) == Some(line)
  {
  }

  lemma HunksOfTwo(one: Hunk, two: Hunk)
    ensures AllHunkLines([one, two]) == HunkLines(one) + HunkLines(two)
  {
    hide HunkLines;
    assert [one, two][..1] == [one] && [one][..0] == [];
    assert AllHunkLines([one]) == [] + HunkLines(one);
  }

  /**
   * Two printed diffs that do not read back: with `b/b` in the added line the second range is filed
   * under a file the diff never touched, and with text that names no file it is lost.
   */
  lemma MisleadingDiffs()
    ensures AddFile(map[], Misleading("b/b")) == AddFile(map[], Misleading("x")) == map["a" := [Range(1, 1), Range(5, 5)]]
    ensures ReadAll(FRESH, FileLines(Misleading("b/b"))).found == map["a" := [Range(1, 1)], "b" := [Range(5, 5)]]
    ensures ReadAll(FRESH, FileLines(Misleading("x"))).found == map["a" := [Range(1, 1)]]
  {
    hide ReadAll, FileLines, AllHunkLines;
    MisleadingReads(FRESH, "b/b");
    MisleadingReads(FRESH, "x");
    assert "b/b"[2..] == "b" && !StartsWith("x", "b/");
    MisleadingAdds("b/b");
    MisleadingAdds("x");
    var first: Found := map["a" := [Range(1, 1)]];
    assert Push(map[], "a", Range(1, 1)) == first by { assert [] + [Range(1, 1)] == [Range(1, 1)]; }
    assert Push(first, "b", Range(5, 5)) == map["a" := [Range(1, 1)], "b" := [Range(5, 5)]] by {
      assert [] + [Range(5, 5)] == [Range(5, 5)];
    }
  }

  lemma MisleadingAdds(text: string)
    ensures AddFile(map[], Misleading(text)) == map["a" := [Range(1, 1), Range(5, 5)]]
  {
    hide Added;
    AddedOfTwo(Misleading(text).hunks[0], Misleading(text).hunks[1]);
    assert [] + [Range(1, 1), Range(5, 5)] == [Range(1, 1), Range(5, 5)];
  }

  lemma AddedOfTwo(one: Hunk, two: Hunk)
    requires AddedBy(one).Some? && AddedBy(two).Some?
    ensures Added([one, two]) == [AddedBy(one).value, AddedBy(two).value]
  {
    hide AddedBy;
    assert [one, two][..1] == [one] && [one][..0] == [];
    assert Added([one]) == [] + [AddedBy(one).value];
  }
}
