/** Diffs whose content has breaks: files with carriage returns are read well, a removed line can be
    taken for an added line or for a file header. */
module DiffBreaks {

  import opened DiffText
  import opened LineSplitting
  import opened StagedDiff
  import opened Wrappers

  // ---- Files whose lines end in carriage returns ----

  /** The only break, if any, is a carriage return at the end. */
  predicate Returned(line: string) {
    Unbroken(Trim(line))
  }

  function Trim(line: string): string {
    if line != [] && line[|line| - 1] == '\r' then line[..|line| - 1] else line
  }

  function Trims(lines: seq<string>): seq<string> {
    seq(|lines|, i requires 0 <= i < |lines| => Trim(lines[i]))
  }

  predicate AllReturned(lines: seq<string>) {
    forall i :: 0 <= i < |lines| ==> Returned(lines[i])
  }

  predicate ReturnedHunks(hs: seq<Hunk>) {
    forall i :: 0 <= i < |hs| ==> Unbroken(hs[i].section) && AllReturned(hs[i].removed) && AllReturned(hs[i].added)
  }

  lemma ReturnedPieces(line: string)
    requires Returned(line)
    ensures First(line) == Trim(line) && Tail(line) == []
  {
    if Trim(line) == line {
      PlainPieces(line);
    } else {
      assert line == Trim(line) + "\r";
      ReturnPieces(Trim(line));
    }
  }

  lemma {:induction false} ReturnedTails(lines: seq<string>)
    requires AllReturned(lines)
    ensures Tails(lines) == [] && Firsts(lines) == Trims(lines)
  {
    hide IsBreak, Pieces, LineLength, Returned;
    if lines != [] {
      ReturnedPieces(lines[0]);
      ReturnedTails(lines[1..]);
      assert forall i :: 1 <= i < |lines| ==> Firsts(lines)[i] == Firsts(lines[1..])[i - 1];
      assert forall i :: 1 <= i < |lines| ==> Trims(lines)[i] == Trims(lines[1..])[i - 1];
    }
  }

  lemma {:induction false} OnePieceEach(c: char, lines: seq<string>)
    requires Tails(lines) == [] && !IsBreak(c)
    ensures Flat(Prefixed(c, lines)) == Prefixed(c, Firsts(lines))
  {
    hide IsBreak, Pieces, LineLength;
    if lines != [] {
      FlatPrefixed(c, lines);
      OnePieceEach(c, lines[1..]);
      assert Tail(lines[0]) == [];
      assert Firsts(lines)[1..] == Firsts(lines[1..]);
      assert Prefixed(c, Firsts(lines)) == [[c] + First(lines[0])] + Prefixed(c, Firsts(lines[1..]));
    }
  }

  lemma {:induction false} NumbersCount(number: nat, added: seq<string>)
    requires Tails(added) == []
    ensures forall j :: 0 <= j < |added| ==> Numbers(number, added)[j] == number + j
    decreases added
  {
    if added != [] {
      assert Tail(added[0]) == [];
      NumbersCount(number + 1, added[1..]);
    }
  }

  lemma {:induction false} MinusUnpaired(before: string, lines: seq<string>)
    ensures NoPair(before, Prefixed('-', lines))
    decreases lines
  {
    if lines != [] {
      var printed := Prefixed('-', lines);
      assert printed[0] == "-" + lines[0] && printed[1..] == Prefixed('-', lines[1..]);
      assert printed[0][0] == '-';
      NotPlus(printed[0]);
      MinusUnpaired(printed[0], lines[1..]);
    }
  }

  lemma {:induction false} PlusUnpaired(before: string, lines: seq<string>)
    ensures NoPair(before, Prefixed('+', lines))
            <==> !(StartsWith(before, "--- ") && lines != [] && StartsWith(lines[0], "++ "))
    decreases lines
  {
    if lines != [] {
      var printed := Prefixed('+', lines);
      assert printed[0] == "+" + lines[0] && printed[1..] == Prefixed('+', lines[1..]);
      PlusPlus(lines[0]);
      StepPlus(START, lines[0]);
      PlusUnpaired(printed[0], lines[1..]);
    }
  }

  lemma MarkerUnpaired(before: string, present: bool)
    ensures NoPair(before, Marker(present))
    ensures present ==> !StartsWith(Last(before, Marker(present)), "--- ")
  {
    if present {
      var lines := Marker(present);
      assert lines[0][0] == '\\' && lines[1..] == [];
      NotPlus(lines[0]);
    }
  }

  /** A hunk without later pieces has a pair exactly when it looks like a file header. */
  lemma UnpairedIsLegible(h: Hunk)
    requires HunkTails(h) == []
    ensures Unpaired(h) <==> !LooksLikeHeader(h)
  {
    hide Range, MatchHunk, Pieces, IsBreak, NoPair, Flat, HunkLines, Unbroken;
    PlainMarks();
    var header := HunkHeader(h.(section := First(h.section)));
    SinglePieces(h, header);
    HeaderBack(h.(section := First(h.section)));
    SinglePiecesUnpaired(header, Firsts(h.removed), h.removedMarker, Firsts(h.added), h.addedMarker);
    if h.removed != [] {
      FirstStarts(h.removed[|h.removed| - 1], "-- ");
    }
    if h.added != [] {
      FirstStarts(h.added[0], "++ ");
    }
  }

  lemma SinglePieces(h: Hunk, header: string)
    requires HunkTails(h) == [] && header == HunkHeader(h.(section := First(h.section)))
    ensures HunkPieces(h)
            == [header] + Prefixed('-', Firsts(h.removed)) + Marker(h.removedMarker)
               + (Prefixed('+', Firsts(h.added)) + Marker(h.addedMarker))
  {
    hide Range, MatchHunk, IsBreak, HunkLines, HunkHeader;
    PlainMarks();
    HunkParts(h);
    PiecesOfHeader(h);
    NoTails(Tail(h.section), Tails(h.removed), Tails(h.added));
    OnePieceEach('-', h.removed);
    OnePieceEach('+', h.added);
    assert [header] + [] == [header];
  }

  lemma NoTails<T>(a: seq<T>, b: seq<T>, c: seq<T>)
    requires a + b + c == []
    ensures a == [] && b == [] && c == []
  {
    assert |a + b + c| == |a| + |b| + |c|;
  }

  lemma SinglePiecesUnpaired(
    header: string, removed: seq<string>, removedMarker: bool, added: seq<string>, addedMarker: bool)
    requires header != [] && header[0] == '@'
    ensures NoPair("", [header] + Prefixed('-', removed) + Marker(removedMarker)
                       + (Prefixed('+', added) + Marker(addedMarker)))
            <==> !(&& removed != [] && !removedMarker && added != []
                   && StartsWith(removed[|removed| - 1], "-- ") && StartsWith(added[0], "++ "))
  {
    var opening, plus := [header] + Prefixed('-', removed) + Marker(removedMarker), Prefixed('+', added);
    OpeningUnpaired(header, removed, removedMarker);
    var last := Last("", opening);
    NoPairAppend("", opening, plus + Marker(addedMarker));
    NoPairAppend(last, plus, Marker(addedMarker));
    MarkerUnpaired(Last(last, plus), addedMarker);
    PlusUnpaired(last, added);
  }

  lemma OpeningUnpaired(header: string, removed: seq<string>, marker: bool)
    requires header != [] && header[0] == '@'
    ensures NoPair("", [header] + Prefixed('-', removed) + Marker(marker))
    ensures StartsWith(Last("", [header] + Prefixed('-', removed) + Marker(marker)), "--- ")
            <==> removed != [] && !marker && StartsWith(removed[|removed| - 1], "-- ")
  {
    var minus := Prefixed('-', removed);
    NotPlus(header);
    NoPairAppend("", [header] + minus, Marker(marker));
    NoPairAppend("", [header], minus);
    MinusUnpaired(header, removed);
    MarkerUnpaired(Last("", [header] + minus), marker);
    if removed != [] {
      assert minus[|removed| - 1] == "-" + removed[|removed| - 1];
      MinusMinus(removed[|removed| - 1]);
    }
  }

  function HunksTrimmed(path: string, hs: seq<Hunk>): seq<Added> {
    if hs == [] then [] else AddedLines(path, hs[0].newStart, Trims(hs[0].added)) + HunksTrimmed(path, hs[1..])
  }

  /** The added lines, each without a carriage return at its end. */
  function DiffTrimmed(fs: seq<FileDiff>): seq<Added> {
    if fs == [] then [] else HunksTrimmed(fs[0].path, fs[0].hunks) + DiffTrimmed(fs[1..])
  }

  lemma ReturnedHunk(h: Hunk)
    requires Unbroken(h.section) && AllReturned(h.removed) && AllReturned(h.added)
    ensures Clean(h) && Numbered(h) && (Unpaired(h) <==> !LooksLikeHeader(h))
    ensures Firsts(h.added) == Trims(h.added)
  {
    PlainPieces(h.section);
    ReturnedTails(h.removed);
    ReturnedTails(h.added);
    UnpairedIsLegible(h);
    NumbersCount(h.newStart, h.added);
  }

  lemma {:induction false} HunksReturned(path: string, hs: seq<Hunk>)
    requires ReturnedHunks(hs)
    ensures CleanHunks(hs) && NumberedHunks(hs) && (UnpairedHunks(hs) <==> Legible(hs))
    ensures HunksSeen(path, hs) == HunksTrimmed(path, hs)
  {
    forall i | 0 <= i < |hs|
      ensures Clean(hs[i]) && Numbered(hs[i]) && (Unpaired(hs[i]) <==> !LooksLikeHeader(hs[i]))
    {
      ReturnedHunk(hs[i]);
    }
    if hs != [] {
      ReturnedHunk(hs[0]);
      HunksReturned(path, hs[1..]);
    }
  }

  lemma {:induction false} DiffReturned(fs: seq<FileDiff>)
    requires forall i :: 0 <= i < |fs| ==> ReturnedHunks(fs[i].hunks)
    ensures AllClean(fs) && AllNumbered(fs)
    ensures AllUnpaired(fs) <==> forall i :: 0 <= i < |fs| ==> Legible(fs[i].hunks)
    ensures DiffSeen(fs) == DiffTrimmed(fs)
  {
    forall i | 0 <= i < |fs|
      ensures CleanHunks(fs[i].hunks) && NumberedHunks(fs[i].hunks)
      ensures UnpairedHunks(fs[i].hunks) <==> Legible(fs[i].hunks)
    {
      HunksReturned(fs[i].path, fs[i].hunks);
    }
    if fs != [] {
      HunksReturned(fs[0].path, fs[0].hunks);
      DiffReturned(fs[1..]);
    }
  }

  /** When the only other breaks are carriage returns at line ends, the added lines are read with
      their paths and numbers and without those returns, exactly unless a hunk looks like a header. */
  lemma ReturnsAreTrimmed(fs: seq<FileDiff>)
    requires Readable(fs) && forall i :: 0 <= i < |fs| ==> ReturnedHunks(fs[i].hunks)
    ensures StagedText(fs) == DiffTrimmed(fs) <==> forall i :: 0 <= i < |fs| ==> Legible(fs[i].hunks)
  {
    DiffReturned(fs);
    StagedTextExact(fs);
  }

  // ---- What goes wrong ----

  lemma OneHunk(f: FileDiff, h: Hunk)
    requires f.hunks == [h]
    ensures DiffAdded([f]) == AddedLines(f.path, h.newStart, h.added)
    ensures DiffSeen([f]) == AddedLines(f.path, h.newStart, Firsts(h.added))
    ensures DiffLines([f]) == f.preamble + Names(f) + HunkLines(h)
  {
    assert HunksAdded(f.path, [h]) == AddedLines(f.path, h.newStart, h.added) + HunksAdded(f.path, []);
    assert HunksSeen(f.path, [h]) == AddedLines(f.path, h.newStart, Firsts(h.added)) + HunksSeen(f.path, []);
    assert HunksLines([h]) == HunkLines(h) + HunksLines([]);
    assert DiffAdded([f]) == HunksAdded(f.path, [h]) + DiffAdded([]);
    assert DiffSeen([f]) == HunksSeen(f.path, [h]) + DiffSeen([]);
    FileParts(f);
    assert DiffLines([f]) == FileLines(f) + DiffLines([]);
  }

  /** The text of a single hunk is read from where the file's names leave off. */
  lemma OneHunkText(f: FileDiff, h: Hunk) returns (s: Scan)
    requires Printable(f) && Plain(f) && f.hunks == [h]
    ensures s.path == f.path && s.found == []
    ensures StagedText([f]) == Read(s, HunkPieces(h)).found
  {
    TextIsPieces([f]);
    OneHunk(f, h);
    ReadHead(START, f);
    s := Read(START, f.preamble + Names(f));
    PlainHead(f);
    PlainFlat(HeadLines(f));
    FlatAppend(f.preamble + Names(f), HunkLines(h));
    ReadAppend(START, f.preamble + Names(f), HunkPieces(h));
  }

  lemma TwoPieces(a: string, b: string)
    requires Unbroken(a) && Unbroken(b)
    ensures First(a + "\r+" + b) == a && Tail(a + "\r+" + b) == ["+" + b]
  {
    var line := a + "\r+" + b;
    assert line == a + ("\r+" + b);
    LineLengthOf(a, "\r+" + b);
    assert line[..|a|] == a && line[|a|] == '\r' && line[|a| + 1..] == "+" + b;
    assert Unbroken("+" + b);
    PlainPieces("+" + b);
  }

  /** The pieces of a hunk with one removed line that has a carriage return before a plus sign. */
  lemma LeakPieces(h: Hunk, a: string, b: string)
    requires Unbroken(h.section) && Unbroken(a) && Unbroken(b)
    requires h.removed == [a + "\r+" + b] && !h.removedMarker && AllUnbroken(h.added) && !h.addedMarker
    ensures HunkPieces(h) == [HunkHeader(h)] + ["-" + a, "+" + b] + Prefixed('+', h.added)
    ensures HunkTails(h) == ["+" + b]
  {
    UnbrokenHeader(h);
    PlainPieces(HunkHeader(h));
    PlainPieces(h.section);
    TwoPieces(a, b);
    FlatPrefixed('-', h.removed);
    assert h.removed[1..] == [];
    PlainFlat(h.added);
    OnePieceEach('+', h.added);
    HunkParts(h);
    assert Tails(h.removed) == ["+" + b] + [];
    assert OpeningPieces(h) == [HunkHeader(h)] + ["-" + a, "+" + b];
    assert ClosingPieces(h) == Prefixed('+', h.added);
  }

  lemma ReadTwo(s: Scan, x: string, y: string)
    ensures Read(s, [x, y]) == Step(Step(s, x), y)
  {
    assert [x, y][1..] == [y] && [y][1..] == [];
    assert Read(Step(s, x), [y]) == Read(Step(Step(s, x), y), []);
  }

  lemma LeakRead(s: Scan, h: Hunk, a: string, piece: string)
    ensures Read(s, [HunkHeader(h)] + ["-" + a, piece]) == Step(Scan(s.path, h.newStart, "-" + a, s.found), piece)
  {
    StepHeader(s, h);
    StepMinus(Scan(s.path, h.newStart, HunkHeader(h), s.found), a);
    ReadAppend(s, [HunkHeader(h)], ["-" + a, piece]);
    ReadTwo(Scan(s.path, h.newStart, HunkHeader(h), s.found), "-" + a, piece);
  }

  /** A removed line that carries a carriage return and a plus sign is read as an added line. */
  lemma RemovedBreakLeaks(f: FileDiff, h: Hunk, a: string, b: string)
    requires Printable(f) && Plain(f) && f.hunks == [h]
    requires Unbroken(h.section) && Unbroken(a) && Unbroken(b) && !(StartsWith(a, "-- ") && StartsWith(b, "++ "))
    requires h.removed == [a + "\r+" + b] && !h.removedMarker && h.added == [] && !h.addedMarker
    ensures DiffAdded([f]) == []
    ensures StagedText([f]) == [Added(f.path, h.newStart, b)]
  {
    var s := OneHunkText(f, h);
    OneHunk(f, h);
    LeakPieces(h, a, b);
    LeakRead(s, h, a, "+" + b);
    LeakFound(s.(number := h.newStart, previous := "-" + a), a, b);
    assert [HunkHeader(h)] + ["-" + a, "+" + b] + [] == [HunkHeader(h)] + ["-" + a, "+" + b];
  }

  lemma LeakFound(s: Scan, a: string, b: string)
    requires s.path != "" && s.found == [] && s.previous == "-" + a && !(StartsWith(a, "-- ") && StartsWith(b, "++ "))
    ensures Step(s, "+" + b).found == [Added(s.path, s.number, b)]
  {
    MinusMinus(a);
    StepPlus(s, b);
  }

  /** With a later piece that starts with '+' and also a pair, anything can happen: a removed line
      that spells out a file header moves the added lines to the path it names. */
  lemma SpelledHeaderMoves(f: FileDiff, h: Hunk, a: string, p: string, text: string)
    requires Printable(f) && Plain(f) && f.hunks == [h]
    requires Unbroken(h.section) && Unbroken(a) && Unbroken(p) && Unbroken(text) && p != ""
    requires h.removed == ["-- " + a + "\r+" + ("++ b/" + p)] && !h.removedMarker
    requires h.added == [text] && !h.addedMarker
    ensures !Clean(h) && !Unpaired(h)
    ensures StagedText([f]) == [Added(p, h.newStart, text)]
    ensures StagedText([f]) == DiffAdded([f]) <==> p == f.path
  {
    hide Read, Step, HunkPieces, Flat, Tails, MatchHunk;
    var s := OneHunkText(f, h);
    OneHunk(f, h);
    LeakPieces(h, "-- " + a, "++ b/" + p);
    SpelledIsPair(h, "-- " + a, "++ b/" + p);
    SpelledRead(s, h, "-- " + a, p, text);
    OtherPath(p, f.path, h.newStart, text);
  }

  lemma OtherPath(p: string, path: string, start: nat, text: string)
    ensures [Added(p, start, text)] == AddedLines(path, start, [text]) <==> p == path
  {
    assert AddedLines(path, start, [text]) == [Added(path, start, text)];
    assert [Added(p, start, text)][0] == Added(p, start, text);
  }

  lemma SpelledRead(s: Scan, h: Hunk, before: string, p: string, text: string)
    requires s.found == [] && StartsWith(before, "-- ") && p != ""
    ensures Read(s, [HunkHeader(h)] + ["-" + before, "+" + ("++ b/" + p)] + Prefixed('+', [text])).found
            == [Added(p, h.newStart, text)]
  {
    var spelled := "+" + ("++ b/" + p);
    var s1 := Scan(p, h.newStart, spelled, []);
    LeakRead(s, h, before, spelled);
    MinusMinus(before);
    SpelledPath(Scan(s.path, h.newStart, "-" + before, s.found), p);
    ReadAppend(s, [HunkHeader(h)] + ["-" + before, spelled], Prefixed('+', [text]));
    StepPlus(s1, "++ b/" + p);
    ReadAdded(s1, [text]);
    assert [] + AddedLines(p, h.newStart, [text]) == [Added(p, h.newStart, text)];
  }

  lemma SpelledPath(s: Scan, p: string)
    requires StartsWith(s.previous, "--- ")
    ensures Step(s, "+" + ("++ b/" + p)) == Scan(p, s.number, "+" + ("++ b/" + p), s.found)
  {
    assert "+" + ("++ b/" + p) == "+++ b/" + p;
    StepPath(s, p);
  }

  lemma SpelledIsPair(h: Hunk, before: string, piece: string)
    requires HunkPieces(h) == [HunkHeader(h)] + ["-" + before, "+" + piece] + Prefixed('+', h.added)
    requires HunkTails(h) == ["+" + piece] && StartsWith(before, "-- ") && StartsWith(piece, "++ ")
    ensures !Clean(h) && !Unpaired(h)
  {
    MinusMinus(before);
    PlusPlus(piece);
    var opening := [HunkHeader(h)] + ["-" + before, "+" + piece];
    NoPairAppend("", opening, Prefixed('+', h.added));
    NoPairAppend("", [HunkHeader(h)], ["-" + before, "+" + piece]);
    assert ["-" + before, "+" + piece][1..] == ["+" + piece];
    assert StartsWith(HunkTails(h)[0], "+");
  }
}
