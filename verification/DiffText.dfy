/** The text of a staged diff: staged_lines reads it with str.splitlines, so a printed line that has
    other breaks than its newline is read as several pieces. */
module DiffText {

  import Decimal
  import opened LineSplitting
  import opened Sequences
  import opened StagedDiff
  import opened Wrappers

  /** What staged_lines yields for the text of a diff. */
  function StagedText(fs: seq<FileDiff>): seq<Added> {
    Read(START, SplitLines(Joined(DiffLines(fs)))).found
  }

  // ---- The later pieces of a hunk's lines ----

  /** The pieces of the section heading and of the content lines, except each line's first. */
  function HunkTails(h: Hunk): seq<string> {
    Tail(h.section) + Tails(h.removed) + Tails(h.added)
  }

  predicate Calm(pieces: seq<string>) {
    forall i :: 0 <= i < |pieces| ==> !StartsWith(pieces[i], "+")
  }

  /** No later piece looks like an added line. */
  predicate Clean(h: Hunk) {
    Calm(HunkTails(h))
  }

  function HunkPieces(h: Hunk): seq<string> {
    Flat(HunkLines(h))
  }

  predicate Completes(before: string, piece: string) {
    StartsWith(before, "--- ") && StartsWith(piece, "+++ ")
  }

  predicate NoPair(before: string, pieces: seq<string>)
    decreases pieces
  {
    pieces == [] || (!Completes(before, pieces[0]) && NoPair(pieces[0], pieces[1..]))
  }

  /** No two neighbouring pieces of the hunk look like a file header. */
  predicate Unpaired(h: Hunk) {
    NoPair("", HunkPieces(h))
  }

  /** The line number after pieces that may look like hunk headers. */
  function LastStart(pieces: seq<string>, number: nat): nat
    decreases pieces
  {
    if pieces == [] then number
    else LastStart(pieces[1..], if MatchHunk(pieces[0]).Some? then MatchHunk(pieces[0]).value else number)
  }

  /** The number that each added line is read with. */
  function Numbers(number: nat, added: seq<string>): (numbers: seq<nat>)
    ensures |numbers| == |added|
    decreases added
  {
    if added == [] then [] else [number] + Numbers(LastStart(Tail(added[0]), number + 1), added[1..])
  }

  function ReadNumbers(h: Hunk): (numbers: seq<nat>)
    ensures |numbers| == |h.added|
  {
    Numbers(LastStart(Tail(h.section) + Tails(h.removed), h.newStart), h.added)
  }

  /** No later piece announces another line number to an added line after it. */
  predicate Numbered(h: Hunk) {
    forall j :: 0 <= j < |h.added| ==> ReadNumbers(h)[j] == h.newStart + j
  }

  predicate CleanHunks(hs: seq<Hunk>) {
    forall i :: 0 <= i < |hs| ==> Clean(hs[i])
  }

  predicate UnpairedHunks(hs: seq<Hunk>) {
    forall i :: 0 <= i < |hs| ==> Unpaired(hs[i])
  }

  predicate NumberedHunks(hs: seq<Hunk>) {
    forall i :: 0 <= i < |hs| ==> Numbered(hs[i])
  }

  predicate UnbrokenHunks(hs: seq<Hunk>) {
    forall i :: 0 <= i < |hs| ==> AllUnbroken(hs[i].added)
  }

  /** Content and section headings are lines of files; names and extended headers have no breaks. */
  predicate Plain(f: FileDiff) {
    && AllUnbroken(f.preamble) && Unbroken(f.oldName) && Unbroken(f.path)
    && forall i :: 0 <= i < |f.hunks| ==> PlainHunk(f.hunks[i])
  }

  predicate PlainHunk(h: Hunk) {
    OneLine(h.section) && AllOneLine(h.removed) && AllOneLine(h.added)
  }

  // ---- What is read, and what should be ----

  function LinesAt(path: string, numbers: seq<nat>, texts: seq<string>): seq<Added>
    requires |numbers| == |texts|
  {
    seq(|texts|, i requires 0 <= i < |texts| => Added(path, numbers[i], texts[i]))
  }

  function HunkRead(path: string, h: Hunk): seq<Added> {
    LinesAt(path, ReadNumbers(h), Firsts(h.added))
  }

  function HunksRead(path: string, hs: seq<Hunk>): seq<Added> {
    if hs == [] then [] else HunkRead(path, hs[0]) + HunksRead(path, hs[1..])
  }

  /** The added lines, each cut at its first break, with the number it is read with. */
  function DiffRead(fs: seq<FileDiff>): seq<Added> {
    if fs == [] then [] else HunksRead(fs[0].path, fs[0].hunks) + DiffRead(fs[1..])
  }

  function HunksSeen(path: string, hs: seq<Hunk>): seq<Added> {
    if hs == [] then [] else AddedLines(path, hs[0].newStart, Firsts(hs[0].added)) + HunksSeen(path, hs[1..])
  }

  /** The added lines, each cut at its first break, with its own number. */
  function DiffSeen(fs: seq<FileDiff>): seq<Added> {
    if fs == [] then [] else HunksSeen(fs[0].path, fs[0].hunks) + DiffSeen(fs[1..])
  }

  // ---- Reading pieces ----

  function Last(before: string, pieces: seq<string>): string {
    if pieces == [] then before else pieces[|pieces| - 1]
  }

  lemma {:induction false} ReadPrevious(s: Scan, pieces: seq<string>)
    ensures Read(s, pieces).previous == Last(s.previous, pieces)
    decreases pieces
  {
    if pieces != [] {
      ReadPrevious(Step(s, pieces[0]), pieces[1..]);
    }
  }

  lemma {:induction false} NoPairAppend(before: string, a: seq<string>, b: seq<string>)
    ensures NoPair(before, a + b) <==> NoPair(before, a) && NoPair(Last(before, a), b)
    decreases a
  {
    if a == [] {
      assert a + b == b;
    } else {
      assert (a + b)[1..] == a[1..] + b;
      NoPairAppend(a[0], a[1..], b);
    }
  }

  lemma {:induction false} LastStartAppend(a: seq<string>, b: seq<string>, number: nat)
    ensures LastStart(a + b, number) == LastStart(b, LastStart(a, number))
    decreases a
  {
    if a == [] {
      assert a + b == b;
    } else {
      assert (a + b)[1..] == a[1..] + b;
      LastStartAppend(a[1..], b, if MatchHunk(a[0]).Some? then MatchHunk(a[0]).value else number);
    }
  }

  lemma FourPluses(piece: string)
    ensures StartsWith(piece, "+++ ") ==> StartsWith(piece, "+")
    ensures StartsWith(piece, "+") ==> MatchHunk(piece).None?
  {
    if StartsWith(piece, "+++ ") {
      assert piece[0] == '+';
    }
    if StartsWith(piece, "+") {
      assert piece[0] == '+';
      NotHunk(piece);
    }
  }

  lemma NotHunk(piece: string)
    requires piece != [] && piece[0] != '@'
    ensures MatchHunk(piece).None?
  {
    assert "@@ -"[0] == '@';
  }

  /** Pieces that do not start with '+' can only change the number. */
  lemma {:induction false} ReadCalm(s: Scan, pieces: seq<string>)
    requires Calm(pieces)
    ensures Read(s, pieces).path == s.path && Read(s, pieces).found == s.found
    ensures Read(s, pieces).number == LastStart(pieces, s.number)
    decreases pieces
  {
    if pieces != [] {
      FourPluses(pieces[0]);
      ReadCalm(Step(s, pieces[0]), pieces[1..]);
    }
  }

  /** Under a path and without header pairs, every piece that starts with '+' is found. */
  lemma {:induction false} ReadCounts(s: Scan, pieces: seq<string>)
    requires s.path != "" && NoPair(s.previous, pieces)
    ensures Read(s, pieces).path == s.path
    ensures |Read(s, pieces).found| == |s.found| + PlusCount(pieces)
    decreases pieces
  {
    if pieces != [] {
      FourPluses(pieces[0]);
      ReadCounts(Step(s, pieces[0]), pieces[1..]);
    }
  }

  /** A header pair swallows its second piece. */
  lemma {:induction false} ReadLoses(s: Scan, pieces: seq<string>)
    requires !NoPair(s.previous, pieces)
    ensures |Read(s, pieces).found| < |s.found| + PlusCount(pieces)
    decreases pieces
  {
    FourPluses(pieces[0]);
    if Completes(s.previous, pieces[0]) {
      FoundBound(Step(s, pieces[0]), pieces[1..]);
    } else {
      ReadLoses(Step(s, pieces[0]), pieces[1..]);
    }
  }

  // ---- The pieces of printed content ----

  lemma CalmBoth(a: seq<string>, b: seq<string>)
    ensures Calm(a + b) <==> Calm(a) && Calm(b)
  {
    assert forall i :: 0 <= i < |a| ==> (a + b)[i] == a[i];
    assert forall i :: 0 <= i < |b| ==> (a + b)[|a| + i] == b[i];
  }

  lemma {:induction false} CalmCount(pieces: seq<string>)
    ensures Calm(pieces) <==> PlusCount(pieces) == 0
  {
    if pieces != [] {
      CalmCount(pieces[1..]);
      assert forall i :: 1 <= i < |pieces| ==> pieces[i] == pieces[1..][i - 1];
    }
  }

  /** The pieces of the first of some content lines. */
  lemma FlatPrefixed(c: char, lines: seq<string>)
    requires lines != [] && !IsBreak(c)
    ensures Flat(Prefixed(c, lines))
            == [[c] + First(lines[0])] + (Tail(lines[0]) + Flat(Prefixed(c, lines[1..])))
  {
    var printed := Prefixed(c, lines);
    assert printed[0] == [c] + lines[0];
    assert printed[1..] == Prefixed(c, lines[1..]);
    PrefixPieces([c], lines[0]);
    Assoc([[c] + First(lines[0])], Tail(lines[0]), Flat(Prefixed(c, lines[1..])));
  }

  lemma ContentStart(c: char, text: string)
    requires c == '-' || c == '+'
    ensures StartsWith([c] + text, "+") <==> c == '+'
    ensures MatchHunk([c] + text).None?
  {
    var line := [c] + text;
    assert line[0] == c;
    assert c == '+' ==> line == "+" + text;
  }

  lemma {:induction false} CountPrefixed(c: char, lines: seq<string>)
    requires c == '-' || c == '+'
    ensures PlusCount(Flat(Prefixed(c, lines))) == (if c == '+' then |lines| else 0) + PlusCount(Tails(lines))
  {
    if lines != [] {
      var rest := Flat(Prefixed(c, lines[1..]));
      FlatPrefixed(c, lines);
      ContentStart(c, First(lines[0]));
      CountPrefixed(c, lines[1..]);
      PlusAppend([[c] + First(lines[0])], Tail(lines[0]) + rest);
      PlusAppend(Tail(lines[0]), rest);
      PlusAppend(Tail(lines[0]), Tails(lines[1..]));
      PlusOne([c] + First(lines[0]));
    }
  }

  lemma PlainMarks()
    ensures !IsBreak('-') && !IsBreak('+') && Unbroken("-- ") && Unbroken("++ ") && Unbroken("")
  {
  }

  lemma PlusOne(piece: string)
    ensures PlusCount([piece]) == if StartsWith(piece, "+") then 1 else 0
  {
    assert [piece][1..] == [];
  }

  /** Removed lines change the number only through their later pieces. */
  lemma {:induction false} StartPrefixed(lines: seq<string>, number: nat)
    ensures LastStart(Flat(Prefixed('-', lines)), number) == LastStart(Tails(lines), number)
    decreases lines
  {
    if lines != [] {
      var first, rest := "-" + First(lines[0]), Flat(Prefixed('-', lines[1..]));
      FlatPrefixed('-', lines);
      ContentStart('-', First(lines[0]));
      assert LastStart([first] + (Tail(lines[0]) + rest), number) == LastStart(Tail(lines[0]) + rest, number) by {
        assert ([first] + (Tail(lines[0]) + rest))[1..] == Tail(lines[0]) + rest;
      }
      LastStartAppend(Tail(lines[0]), rest, number);
      LastStartAppend(Tail(lines[0]), Tails(lines[1..]), number);
      StartPrefixed(lines[1..], LastStart(Tail(lines[0]), number));
    }
  }

  lemma MarkerIsPlain()
    ensures Unbroken(MARKER) && MARKER != [] && MARKER[0] == '\\'
  {
    var text := MARKER;
    assert |text| == 27;
    assert Unbroken(text[..14]) && Unbroken(text[14..]);
    forall i | 0 <= i < |text|
      ensures !IsBreak(text[i])
    {
      assert text[i] == if i < 14 then text[..14][i] else text[14..][i - 14];
    }
  }

  lemma MarkerPieces(present: bool)
    ensures Flat(Marker(present)) == Marker(present)
    ensures Calm(Marker(present)) && PlusCount(Marker(present)) == 0
    ensures forall number: nat :: LastStart(Marker(present), number) == number
  {
    if present {
      PlainMarker(MARKER, Marker(present));
    }
  }

  lemma PlainMarker(text: string, lines: seq<string>)
    requires text == MARKER && lines == [text]
    ensures Flat(lines) == lines
    ensures Calm(lines) && PlusCount(lines) == 0
    ensures forall number: nat :: LastStart(lines, number) == number
  {
    hide IsBreak, Unbroken;
    MarkerIsPlain();
    PlainPieces(text);
    FlatOne(text);
    NotHunk(text);
    NotPlus(text);
    PlusOne(text);
    assert lines[1..] == [];
  }

  // ---- The pieces of a hunk ----

  lemma UnbrokenRange(start: nat, count: nat)
    ensures Unbroken(Range(start, count))
  {
    UnbrokenNumber(start);
    UnbrokenNumber(count);
  }

  lemma UnbrokenNumber(n: nat)
    ensures Unbroken(Decimal.ToString(n))
  {
    assert forall i :: 0 <= i < |Decimal.ToString(n)| ==> Decimal.IsDigit(Decimal.ToString(n)[i]);
  }

  lemma UnbrokenHeader(h: Hunk)
    requires Unbroken(h.section)
    ensures Unbroken(HunkHeader(h))
  {
    UnbrokenRange(h.oldStart, h.oldCount);
    UnbrokenRange(h.newStart, h.newCount);
  }

  /** A header's first piece is the header with its section cut. */
  lemma PiecesOfHeader(h: Hunk)
    ensures Pieces(HunkHeader(h)) == [HunkHeader(h.(section := First(h.section)))] + Tail(h.section)
    ensures MatchHunk(HunkHeader(h.(section := First(h.section)))) == Some(h.newStart)
  {
    var prefix := HunkHeader(h.(section := ""));
    UnbrokenHeader(h.(section := ""));
    assert HunkHeader(h) == prefix + h.section;
    assert HunkHeader(h.(section := First(h.section))) == prefix + First(h.section);
    PrefixPieces(prefix, h.section);
    HeaderBack(h.(section := First(h.section)));
  }

  function OpeningPieces(h: Hunk): seq<string> {
    Pieces(HunkHeader(h)) + Flat(Prefixed('-', h.removed)) + Marker(h.removedMarker)
  }

  function ClosingPieces(h: Hunk): seq<string> {
    Flat(Prefixed('+', h.added)) + Marker(h.addedMarker)
  }

  lemma HunkParts(h: Hunk)
    ensures HunkPieces(h) == OpeningPieces(h) + ClosingPieces(h)
  {
    var header, removed, added := [HunkHeader(h)], Prefixed('-', h.removed), Prefixed('+', h.added);
    FlatAppend(Opening(HunkHeader(h), h.removed, h.removedMarker), Closing(h.added, h.addedMarker));
    FlatAppend(header + removed, Marker(h.removedMarker));
    FlatAppend(header, removed);
    FlatAppend(added, Marker(h.addedMarker));
    FlatOne(HunkHeader(h));
    MarkerPieces(h.removedMarker);
    MarkerPieces(h.addedMarker);
  }

  /** A hunk has as many pieces that start with '+' as it has added lines and such later pieces. */
  lemma HunkCount(h: Hunk)
    ensures PlusCount(HunkPieces(h)) == |h.added| + PlusCount(HunkTails(h))
  {
    HunkParts(h);
    OpeningCount(h);
    CountPrefixed('+', h.added);
    MarkerPieces(h.addedMarker);
    PlusAppend(Flat(Prefixed('+', h.added)), Marker(h.addedMarker));
    PlusAppend(OpeningPieces(h), ClosingPieces(h));
    PlusAppend(Tail(h.section) + Tails(h.removed), Tails(h.added));
  }

  lemma OpeningCount(h: Hunk)
    ensures PlusCount(OpeningPieces(h)) == PlusCount(Tail(h.section) + Tails(h.removed))
  {
    var first := HunkHeader(h.(section := First(h.section)));
    PiecesOfHeader(h);
    HeaderBack(h.(section := First(h.section)));
    NotPlus(first);
    PlusOne(first);
    CountPrefixed('-', h.removed);
    MarkerPieces(h.removedMarker);
    PlusAppend([first], Tail(h.section));
    PlusAppend(Pieces(HunkHeader(h)), Flat(Prefixed('-', h.removed)));
    PlusAppend(Pieces(HunkHeader(h)) + Flat(Prefixed('-', h.removed)), Marker(h.removedMarker));
    PlusAppend(Tail(h.section), Tails(h.removed));
  }

  lemma OpeningStart(h: Hunk, number: nat)
    ensures LastStart(OpeningPieces(h), number) == LastStart(Tail(h.section) + Tails(h.removed), h.newStart)
  {
    var first := HunkHeader(h.(section := First(h.section)));
    var removed := Flat(Prefixed('-', h.removed));
    PiecesOfHeader(h);
    assert ([first] + Tail(h.section))[1..] == Tail(h.section);
    assert LastStart(Pieces(HunkHeader(h)), number) == LastStart(Tail(h.section), h.newStart);
    LastStartAppend(Pieces(HunkHeader(h)), removed, number);
    StartPrefixed(h.removed, LastStart(Tail(h.section), h.newStart));
    LastStartAppend(Pieces(HunkHeader(h)) + removed, Marker(h.removedMarker), number);
    MarkerPieces(h.removedMarker);
    LastStartAppend(Tail(h.section), Tails(h.removed), h.newStart);
  }

  /** A hunk starts with '@', so what comes before it forms no pair with it. */
  lemma HunkAnywhere(h: Hunk, before: string)
    ensures NoPair(before, HunkPieces(h)) <==> Unpaired(h)
  {
    HunkParts(h);
    PiecesOfHeader(h);
    HeaderBack(h.(section := First(h.section)));
    NotPlus(HunkHeader(h.(section := First(h.section))));
    assert HunkPieces(h)[0] == HunkHeader(h.(section := First(h.section)));
  }

  /** Added lines whose later pieces are calm: each is found, cut at its first break. */
  lemma {:induction false} ReadAddedPieces(s: Scan, added: seq<string>)
    requires s.path != "" && Calm(Tails(added)) && NoPair(s.previous, Flat(Prefixed('+', added)))
    ensures Finds(s, Flat(Prefixed('+', added)), s.path, LinesAt(s.path, Numbers(s.number, added), Firsts(added)))
    decreases added
  {
    hide Step, MatchHunk, Pieces, IsBreak, NoPair;
    PlainMarks();
    if added == [] {
      FindsNothing(s);
    } else {
      var text, tail, rest := First(added[0]), Tail(added[0]), Flat(Prefixed('+', added[1..]));
      FlatPrefixed('+', added);
      CalmBoth(tail, Tails(added[1..]));
      ReadOneAdded(s, text, tail, rest);
      var s1 := Read(s, ["+" + text] + tail);
      ReadAddedPieces(s1, added[1..]);
      NumbersStep(s.path, s.number, added);
      var more := LinesAt(s.path, Numbers(s1.number, added[1..]), Firsts(added[1..]));
      FindsOneMore(s, text, tail, rest, more);
      FindsSame(s, ["+" + text] + (tail + rest), Flat(Prefixed('+', added)), s.path,
                [Added(s.path, s.number, text)] + more, LinesAt(s.path, Numbers(s.number, added), Firsts(added)));
    }
  }

  lemma FindsOneMore(s: Scan, text: string, tail: seq<string>, rest: seq<string>, more: seq<Added>)
    requires Read(s, ["+" + text] + tail).found == s.found + [Added(s.path, s.number, text)]
    requires Finds(Read(s, ["+" + text] + tail), rest, s.path, more)
    ensures Finds(s, ["+" + text] + (tail + rest), s.path, [Added(s.path, s.number, text)] + more)
  {
    FindsBoth(s, ["+" + text] + tail, [Added(s.path, s.number, text)], rest, more, s.path);
    Assoc(["+" + text], tail, rest);
  }

  lemma FindsSame(s: Scan, a: seq<string>, b: seq<string>, path: string, one: seq<Added>, other: seq<Added>)
    requires Finds(s, a, path, one) && a == b && one == other
    ensures Finds(s, b, path, other)
  {
  }

  /** One added line's pieces, before whatever follows. */
  lemma ReadOneAdded(s: Scan, text: string, tail: seq<string>, rest: seq<string>)
    requires s.path != "" && Calm(tail) && NoPair(s.previous, ["+" + text] + (tail + rest))
    ensures var r := Read(s, ["+" + text] + tail);
            && r.path == s.path && r.found == s.found + [Added(s.path, s.number, text)]
            && r.number == LastStart(tail, s.number + 1) && NoPair(r.previous, rest)
  {
    var s1 := Step(s, "+" + text);
    NoPairAppend(s.previous, ["+" + text], tail + rest);
    NoPairAppend("+" + text, tail, rest);
    FirstIsFound(s, text, tail);
    ReadCalm(s1, tail);
    ReadPrevious(s1, tail);
  }

  lemma FirstIsFound(s: Scan, text: string, rest: seq<string>)
    requires s.path != "" && NoPair(s.previous, ["+" + text])
    ensures Step(s, "+" + text) == Scan(s.path, s.number + 1, "+" + text, s.found + [Added(s.path, s.number, text)])
    ensures Read(s, ["+" + text] + rest) == Read(Step(s, "+" + text), rest)
  {
    PlusPlus(text);
    StepPlus(s, text);
    assert (["+" + text] + rest)[1..] == rest;
  }

  lemma LinesAtOne(path: string, number: nat, numbers: seq<nat>, text: string, texts: seq<string>)
    requires |numbers| == |texts|
    ensures LinesAt(path, [number] + numbers, [text] + texts)
            == [Added(path, number, text)] + LinesAt(path, numbers, texts)
  {
  }

  lemma FirstsStep(added: seq<string>)
    requires added != []
    ensures Firsts(added) == [First(added[0])] + Firsts(added[1..])
  {
    hide First;
    assert forall i :: 1 <= i < |added| ==> Firsts(added)[i] == Firsts(added[1..])[i - 1];
  }

  lemma NumbersStep(path: string, number: nat, added: seq<string>)
    requires added != []
    ensures LinesAt(path, Numbers(number, added), Firsts(added))
            == [Added(path, number, First(added[0]))]
               + LinesAt(path, Numbers(LastStart(Tail(added[0]), number + 1), added[1..]), Firsts(added[1..]))
  {
    hide First, Tail, LastStart, LinesAt;
    FirstsStep(added);
    LinesAtOne(path, number, Numbers(LastStart(Tail(added[0]), number + 1), added[1..]),
               First(added[0]), Firsts(added[1..]));
  }

  lemma ReadHunkPieces(s: Scan, h: Hunk)
    requires s.path != "" && Clean(h) && Unpaired(h)
    ensures Finds(s, HunkPieces(h), s.path, HunkRead(s.path, h))
  {
    var opening, added := OpeningPieces(h), Flat(Prefixed('+', h.added));
    HunkParts(h);
    HunkAnywhere(h, s.previous);
    NoPairAppend(s.previous, opening, ClosingPieces(h));
    NoPairAppend(Last(s.previous, opening), added, Marker(h.addedMarker));
    CalmBoth(Tail(h.section) + Tails(h.removed), Tails(h.added));
    CalmCount(Tail(h.section) + Tails(h.removed));
    OpeningCount(h);
    CalmCount(opening);
    ReadCalm(s, opening);
    ReadPrevious(s, opening);
    OpeningStart(h, s.number);
    var s1 := Read(s, opening);
    ReadAddedPieces(s1, h.added);
    MarkerPieces(h.addedMarker);
    ReadCalm(Read(s1, added), Marker(h.addedMarker));
    ReadAppend(s1, added, Marker(h.addedMarker));
    FindsAfter(s, opening, ClosingPieces(h), HunkRead(s.path, h), s.path);
  }

  // ---- All hunks of a file ----

  function HunksPieces(hs: seq<Hunk>): seq<string> {
    if hs == [] then [] else HunkPieces(hs[0]) + HunksPieces(hs[1..])
  }

  lemma {:induction false} HunksFlat(hs: seq<Hunk>)
    ensures Flat(HunksLines(hs)) == HunksPieces(hs)
  {
    if hs != [] {
      FlatAppend(HunkLines(hs[0]), HunksLines(hs[1..]));
      HunksFlat(hs[1..]);
    }
  }

  lemma {:induction false} ReadHunksPieces(s: Scan, hs: seq<Hunk>)
    requires s.path != "" && CleanHunks(hs) && UnpairedHunks(hs)
    ensures Finds(s, HunksPieces(hs), s.path, HunksRead(s.path, hs))
    decreases hs
  {
    if hs == [] {
      FindsNothing(s);
    } else {
      ReadHunkPieces(s, hs[0]);
      ReadHunksPieces(Read(s, HunkPieces(hs[0])), hs[1..]);
      FindsBoth(s, HunkPieces(hs[0]), HunkRead(s.path, hs[0]), HunksPieces(hs[1..]), HunksRead(s.path, hs[1..]),
                s.path);
    }
  }

  lemma HunksParts(hs: seq<Hunk>)
    requires hs != []
    ensures CleanHunks(hs) <==> Clean(hs[0]) && CleanHunks(hs[1..])
    ensures UnpairedHunks(hs) <==> Unpaired(hs[0]) && UnpairedHunks(hs[1..])
    ensures NumberedHunks(hs) <==> Numbered(hs[0]) && NumberedHunks(hs[1..])
    ensures UnbrokenHunks(hs) <==> AllUnbroken(hs[0].added) && UnbrokenHunks(hs[1..])
  {
    hide Clean, Unpaired, Numbered, AllUnbroken;
    assert forall i :: 1 <= i < |hs| ==> hs[i] == hs[1..][i - 1];
  }

  /** Added lines and stray pieces of some hunks. */
  function HunksPlus(hs: seq<Hunk>): nat {
    if hs == [] then 0 else |hs[0].added| + PlusCount(HunkTails(hs[0])) + HunksPlus(hs[1..])
  }

  lemma {:induction false} HunksCounted(s: Scan, hs: seq<Hunk>)
    requires s.path != "" && UnpairedHunks(hs)
    ensures Read(s, HunksPieces(hs)).path == s.path
    ensures |Read(s, HunksPieces(hs)).found| == |s.found| + HunksPlus(hs)
    decreases hs
  {
    if hs != [] {
      HunkAnywhere(hs[0], s.previous);
      HunkCount(hs[0]);
      ReadCounts(s, HunkPieces(hs[0]));
      HunksCounted(Read(s, HunkPieces(hs[0])), hs[1..]);
      ReadAppend(s, HunkPieces(hs[0]), HunksPieces(hs[1..]));
    }
  }

  lemma {:induction false} HunksBounded(s: Scan, hs: seq<Hunk>)
    ensures |Read(s, HunksPieces(hs)).found| <= |s.found| + HunksPlus(hs)
    ensures !UnpairedHunks(hs) ==> |Read(s, HunksPieces(hs)).found| < |s.found| + HunksPlus(hs)
    decreases hs
  {
    if hs != [] {
      HunkAnywhere(hs[0], s.previous);
      HunkCount(hs[0]);
      FoundBound(s, HunkPieces(hs[0]));
      if !Unpaired(hs[0]) {
        ReadLoses(s, HunkPieces(hs[0]));
      }
      HunksBounded(Read(s, HunkPieces(hs[0])), hs[1..]);
      ReadAppend(s, HunkPieces(hs[0]), HunksPieces(hs[1..]));
    }
  }

  lemma {:induction false} HunksAddedCount(path: string, hs: seq<Hunk>)
    ensures |HunksAdded(path, hs)| <= HunksPlus(hs)
    ensures |HunksAdded(path, hs)| == HunksPlus(hs) <==> CleanHunks(hs)
    ensures |HunksSeen(path, hs)| == |HunksAdded(path, hs)|
  {
    if hs != [] {
      CalmCount(HunkTails(hs[0]));
      HunksAddedCount(path, hs[1..]);
      HunksParts(hs);
    }
  }

  // ---- All files of a diff ----

  /** A file section, up to its hunks, is read as printed. */
  function HeadLines(f: FileDiff): seq<string> {
    f.preamble + (if f.hunks == [] then [] else Names(f))
  }

  lemma FileFlat(f: FileDiff)
    requires Plain(f)
    ensures Flat(FileLines(f)) == HeadLines(f) + HunksPieces(f.hunks)
  {
    PlainHead(f);
    PlainFlat(HeadLines(f));
    HunksFlat(f.hunks);
    if f.hunks == [] {
      assert FileLines(f) == HeadLines(f);
      assert HeadLines(f) + [] == HeadLines(f);
    } else {
      FileParts(f);
      FlatAppend(HeadLines(f), HunksLines(f.hunks));
    }
  }

  lemma PlainHead(f: FileDiff)
    requires Plain(f)
    ensures AllUnbroken(HeadLines(f))
  {
    assert Unbroken("--- " + f.oldName) && Unbroken("+++ b/" + f.path);
  }

  lemma ReadHeadLines(s: Scan, f: FileDiff)
    requires Printable(f)
    ensures Read(s, HeadLines(f)).found == s.found
    ensures f.hunks != [] ==> Read(s, HeadLines(f)).path == f.path
  {
    if f.hunks == [] {
      assert HeadLines(f) == f.preamble;
      ReadPreamble(s, f.preamble);
    } else {
      ReadHead(s, f);
    }
  }

  predicate Readable(fs: seq<FileDiff>) {
    forall i :: 0 <= i < |fs| ==> Printable(fs[i]) && Plain(fs[i])
  }

  predicate AllClean(fs: seq<FileDiff>) {
    forall i :: 0 <= i < |fs| ==> CleanHunks(fs[i].hunks)
  }

  predicate AllUnpaired(fs: seq<FileDiff>) {
    forall i :: 0 <= i < |fs| ==> UnpairedHunks(fs[i].hunks)
  }

  predicate AllNumbered(fs: seq<FileDiff>) {
    forall i :: 0 <= i < |fs| ==> NumberedHunks(fs[i].hunks)
  }

  predicate AllAddedUnbroken(fs: seq<FileDiff>) {
    forall i :: 0 <= i < |fs| ==> UnbrokenHunks(fs[i].hunks)
  }

  function DiffPlus(fs: seq<FileDiff>): nat {
    if fs == [] then 0 else HunksPlus(fs[0].hunks) + DiffPlus(fs[1..])
  }

  lemma {:induction false} ReadDiffPieces(s: Scan, fs: seq<FileDiff>)
    requires Readable(fs) && AllClean(fs) && AllUnpaired(fs)
    ensures Read(s, Flat(DiffLines(fs))).found == s.found + DiffRead(fs)
    decreases fs
  {
    if fs == [] {
      FindsNothing(s);
    } else {
      var f, pieces := fs[0], Flat(FileLines(fs[0]));
      var one, rest := HunksRead(f.path, f.hunks), Flat(DiffLines(fs[1..]));
      FlatAppend(FileLines(f), DiffLines(fs[1..]));
      ReadFilePieces(s, f);
      var s1 := Read(s, pieces);
      ReadDiffPieces(s1, fs[1..]);
      FindsBoth(s, pieces, one, rest, DiffRead(fs[1..]), Read(s1, rest).path);
    }
  }

  lemma ReadFilePieces(s: Scan, f: FileDiff)
    requires Printable(f) && Plain(f) && CleanHunks(f.hunks) && UnpairedHunks(f.hunks)
    ensures Read(s, Flat(FileLines(f))).found == s.found + HunksRead(f.path, f.hunks)
  {
    FileFlat(f);
    ReadHeadLines(s, f);
    var s1 := Read(s, HeadLines(f));
    ReadAppend(s, HeadLines(f), HunksPieces(f.hunks));
    if f.hunks == [] {
      FindsNothing(s1);
    } else {
      ReadHunksPieces(s1, f.hunks);
    }
  }

  /** The number of lines found: at most one for every piece that starts with '+', and exactly that
      many if nothing is mistaken for a file header. */
  lemma {:induction false} DiffCounted(s: Scan, fs: seq<FileDiff>)
    requires Readable(fs)
    ensures |Read(s, Flat(DiffLines(fs))).found| <= |s.found| + DiffPlus(fs)
    ensures |Read(s, Flat(DiffLines(fs))).found| == |s.found| + DiffPlus(fs) <==> AllUnpaired(fs)
    decreases fs
  {
    if fs != [] {
      var pieces := Flat(FileLines(fs[0]));
      FlatAppend(FileLines(fs[0]), DiffLines(fs[1..]));
      ReadAppend(s, pieces, Flat(DiffLines(fs[1..])));
      FileCounted(s, fs[0]);
      DiffCounted(Read(s, pieces), fs[1..]);
      FilesParts(fs);
    }
  }

  lemma FilesParts(fs: seq<FileDiff>)
    requires fs != []
    ensures AllClean(fs) <==> CleanHunks(fs[0].hunks) && AllClean(fs[1..])
    ensures AllUnpaired(fs) <==> UnpairedHunks(fs[0].hunks) && AllUnpaired(fs[1..])
    ensures AllNumbered(fs) <==> NumberedHunks(fs[0].hunks) && AllNumbered(fs[1..])
    ensures AllAddedUnbroken(fs) <==> UnbrokenHunks(fs[0].hunks) && AllAddedUnbroken(fs[1..])
  {
    hide CleanHunks, UnpairedHunks, NumberedHunks, UnbrokenHunks;
    assert forall i :: 1 <= i < |fs| ==> fs[i] == fs[1..][i - 1];
  }

  lemma FileCounted(s: Scan, f: FileDiff)
    requires Printable(f) && Plain(f)
    ensures |Read(s, Flat(FileLines(f))).found| <= |s.found| + HunksPlus(f.hunks)
    ensures |Read(s, Flat(FileLines(f))).found| == |s.found| + HunksPlus(f.hunks) <==> UnpairedHunks(f.hunks)
  {
    FileFlat(f);
    ReadHeadLines(s, f);
    var s1 := Read(s, HeadLines(f));
    ReadAppend(s, HeadLines(f), HunksPieces(f.hunks));
    HunksBounded(s1, f.hunks);
    if f.hunks != [] && UnpairedHunks(f.hunks) {
      HunksCounted(s1, f.hunks);
    }
  }

  lemma {:induction false} DiffAddedCount(fs: seq<FileDiff>)
    ensures |DiffAdded(fs)| <= DiffPlus(fs)
    ensures |DiffAdded(fs)| == DiffPlus(fs) <==> AllClean(fs)
    ensures |DiffSeen(fs)| == |DiffAdded(fs)|
  {
    if fs != [] {
      HunksAddedCount(fs[0].path, fs[0].hunks);
      DiffAddedCount(fs[1..]);
      FilesParts(fs);
    }
  }

  // ---- When the numbers are right ----

  lemma SplitEqual<T>(a: seq<T>, x: seq<T>, b: seq<T>, y: seq<T>)
    requires |a| == |b|
    ensures a + x == b + y <==> a == b && x == y
  {
    if a + x == b + y {
      assert a == (a + x)[..|a|] && b == (b + y)[..|b|];
      assert x == (a + x)[|a|..] && y == (b + y)[|b|..];
    }
  }

  lemma HunkReadRight(path: string, h: Hunk)
    ensures HunkRead(path, h) == AddedLines(path, h.newStart, Firsts(h.added)) <==> Numbered(h)
  {
    var read, right := HunkRead(path, h), AddedLines(path, h.newStart, Firsts(h.added));
    if read == right {
      forall j | 0 <= j < |h.added| ensures ReadNumbers(h)[j] == h.newStart + j {
        assert read[j] == right[j];
      }
    }
  }

  lemma {:induction false} HunksReadRight(path: string, hs: seq<Hunk>)
    ensures HunksRead(path, hs) == HunksSeen(path, hs) <==> NumberedHunks(hs)
    ensures |HunksRead(path, hs)| == |HunksSeen(path, hs)|
  {
    if hs != [] {
      HunkReadRight(path, hs[0]);
      HunksReadRight(path, hs[1..]);
      SplitEqual(HunkRead(path, hs[0]), HunksRead(path, hs[1..]),
                 AddedLines(path, hs[0].newStart, Firsts(hs[0].added)), HunksSeen(path, hs[1..]));
      HunksParts(hs);
    }
  }

  lemma {:induction false} DiffReadRight(fs: seq<FileDiff>)
    ensures DiffRead(fs) == DiffSeen(fs) <==> AllNumbered(fs)
    ensures |DiffRead(fs)| == |DiffSeen(fs)|
  {
    if fs != [] {
      HunksReadRight(fs[0].path, fs[0].hunks);
      DiffReadRight(fs[1..]);
      SplitEqual(HunksRead(fs[0].path, fs[0].hunks), DiffRead(fs[1..]),
                 HunksSeen(fs[0].path, fs[0].hunks), DiffSeen(fs[1..]));
      FilesParts(fs);
    }
  }

  // ---- When the texts are whole ----

  predicate UnbrokenTexts(found: seq<Added>) {
    forall i :: 0 <= i < |found| ==> Unbroken(found[i].text)
  }

  /** No break is ever part of a line that is found. */
  lemma {:induction false} FoundAreUnbroken(s: Scan, lines: seq<string>)
    requires AllUnbroken(lines) && UnbrokenTexts(s.found)
    ensures UnbrokenTexts(Read(s, lines).found)
    decreases lines
  {
    if lines != [] {
      FoundAreUnbroken(Step(s, lines[0]), lines[1..]);
    }
  }

  lemma UnbrokenBoth(a: seq<Added>, b: seq<Added>)
    ensures UnbrokenTexts(a + b) <==> UnbrokenTexts(a) && UnbrokenTexts(b)
  {
    assert forall i :: 0 <= i < |a| ==> (a + b)[i] == a[i];
    assert forall i :: 0 <= i < |b| ==> (a + b)[|a| + i] == b[i];
  }

  lemma UnbrokenLines(path: string, start: nat, lines: seq<string>)
    ensures UnbrokenTexts(AddedLines(path, start, lines)) <==> AllUnbroken(lines)
  {
    assert forall i :: 0 <= i < |lines| ==> AddedLines(path, start, lines)[i].text == lines[i];
  }

  lemma {:induction false} HunksWhole(path: string, hs: seq<Hunk>)
    ensures UnbrokenTexts(HunksAdded(path, hs)) <==> UnbrokenHunks(hs)
    ensures UnbrokenHunks(hs) ==> HunksSeen(path, hs) == HunksAdded(path, hs)
  {
    if hs != [] {
      UnbrokenLines(path, hs[0].newStart, hs[0].added);
      UnbrokenBoth(AddedLines(path, hs[0].newStart, hs[0].added), HunksAdded(path, hs[1..]));
      HunksWhole(path, hs[1..]);
      HunksParts(hs);
      if UnbrokenHunks(hs) {
        PlainFlat(hs[0].added);
      }
    }
  }

  lemma {:induction false} DiffWhole(fs: seq<FileDiff>)
    ensures UnbrokenTexts(DiffAdded(fs)) <==> AllAddedUnbroken(fs)
    ensures AllAddedUnbroken(fs) ==> DiffSeen(fs) == DiffAdded(fs)
  {
    if fs != [] {
      HunksWhole(fs[0].path, fs[0].hunks);
      UnbrokenBoth(HunksAdded(fs[0].path, fs[0].hunks), DiffAdded(fs[1..]));
      DiffWhole(fs[1..]);
      FilesParts(fs);
    }
  }

  // ---- The main results ----

  lemma {:induction false} OneLineDiff(fs: seq<FileDiff>)
    requires forall i :: 0 <= i < |fs| ==> Plain(fs[i])
    ensures AllOneLine(DiffLines(fs))
  {
    if fs != [] {
      OneLineFile(fs[0]);
      OneLineDiff(fs[1..]);
    }
  }

  lemma OneLineFile(f: FileDiff)
    requires Plain(f)
    ensures AllOneLine(FileLines(f))
  {
    PlainHead(f);
    UnbrokenIsOneLine(HeadLines(f));
    OneLineHunks(f.hunks);
    if f.hunks == [] {
      assert FileLines(f) == HeadLines(f);
    } else {
      FileParts(f);
    }
  }

  lemma UnbrokenIsOneLine(lines: seq<string>)
    requires AllUnbroken(lines)
    ensures AllOneLine(lines)
  {
  }

  lemma {:induction false} OneLineHunks(hs: seq<Hunk>)
    requires forall i :: 0 <= i < |hs| ==> PlainHunk(hs[i])
    ensures AllOneLine(HunksLines(hs))
  {
    if hs != [] {
      OneLineHunk(hs[0]);
      OneLineHunks(hs[1..]);
    }
  }

  lemma OneLineHunk(h: Hunk)
    requires PlainHunk(h)
    ensures AllOneLine(HunkLines(h))
  {
    hide HunkHeader, IsBreak;
    OneLineHeader(h);
    OneLinePrefixed('-', h.removed);
    OneLinePrefixed('+', h.added);
  }

  lemma OneLinePrefixed(c: char, lines: seq<string>)
    requires c != '\n' && AllOneLine(lines)
    ensures AllOneLine(Prefixed(c, lines))
  {
  }

  lemma OneLineBoth(a: string, b: string)
    requires OneLine(a) && OneLine(b)
    ensures OneLine(a + b)
  {
  }

  lemma UnbrokenLine(s: string)
    requires Unbroken(s)
    ensures OneLine(s)
  {
  }

  lemma OneLineHeader(h: Hunk)
    requires OneLine(h.section)
    ensures OneLine(HunkHeader(h))
  {
    hide OneLine, Unbroken, Range;
    var prefix := HunkHeader(h.(section := ""));
    assert Unbroken("") by {
      PlainMarks();
    }
    UnbrokenHeader(h.(section := ""));
    UnbrokenLine(prefix);
    OneLineBoth(prefix, h.section);
    assert HunkHeader(h) == prefix + h.section;
  }

  /** The text is read piece by piece. */
  lemma TextIsPieces(fs: seq<FileDiff>)
    requires Readable(fs)
    ensures StagedText(fs) == Read(START, Flat(DiffLines(fs))).found
  {
    OneLineDiff(fs);
    SplitJoined(DiffLines(fs));
  }

  /** If no later piece starts with '+' and nothing looks like a file header, exactly the added lines
      are found, in order, each cut at its first break. */
  lemma TextIsRead(fs: seq<FileDiff>)
    requires Readable(fs) && AllClean(fs) && AllUnpaired(fs)
    ensures StagedText(fs) == DiffRead(fs)
  {
    TextIsPieces(fs);
    ReadDiffPieces(START, fs);
    assert [] + DiffRead(fs) == DiffRead(fs);
  }

  /** The cut lines come out right only if later pieces that start with '+' and pairs that look like a
      file header occur both or not at all. Unless both occur (then a line too many and a line too few
      can make up for each other), they come out right exactly when neither does and no later piece
      announces another number to an added line; and the whole lines come out right exactly when,
      besides, no added line has a break. */
  lemma StagedTextExact(fs: seq<FileDiff>)
    requires Readable(fs)
    ensures StagedText(fs) == DiffSeen(fs) ==> (AllClean(fs) <==> AllUnpaired(fs))
    ensures AllClean(fs) || AllUnpaired(fs) ==>
              (StagedText(fs) == DiffSeen(fs) <==> AllClean(fs) && AllUnpaired(fs) && AllNumbered(fs))
    ensures StagedText(fs) == DiffAdded(fs) <==> StagedText(fs) == DiffSeen(fs) && AllAddedUnbroken(fs)
  {
    TextIsPieces(fs);
    DiffCounted(START, fs);
    DiffAddedCount(fs);
    if AllClean(fs) && AllUnpaired(fs) {
      TextIsRead(fs);
      DiffReadRight(fs);
    }
    FoundAreUnbroken(START, SplitLines(Joined(DiffLines(fs))));
    DiffWhole(fs);
  }

  // ---- Names ----

  predicate UnbrokenPlaces(found: seq<Added>) {
    forall i :: 0 <= i < |found| ==> Unbroken(found[i].path)
  }

  /** No break is ever part of a path under which a line is found. */
  lemma {:induction false} PlacesAreUnbroken(s: Scan, lines: seq<string>)
    requires AllUnbroken(lines) && UnbrokenPlaces(s.found) && Unbroken(s.path)
    ensures UnbrokenPlaces(Read(s, lines).found)
    decreases lines
  {
    hide IsBreak, MatchHunk;
    if lines != [] {
      PlacesAreUnbroken(Step(s, lines[0]), lines[1..]);
    }
  }

  lemma {:induction false} HunksPlaced(path: string, hs: seq<Hunk>, k: nat)
    requires k < |hs| && hs[k].added != []
    ensures HunksAdded(path, hs) != []
    ensures forall i :: 0 <= i < |HunksAdded(path, hs)| ==> HunksAdded(path, hs)[i].path == path
    decreases hs
  {
    HunksPath(path, hs);
    if k > 0 {
      HunksPlaced(path, hs[1..], k - 1);
    }
  }

  lemma {:induction false} HunksPath(path: string, hs: seq<Hunk>)
    ensures forall i :: 0 <= i < |HunksAdded(path, hs)| ==> HunksAdded(path, hs)[i].path == path
  {
    if hs != [] {
      HunksPath(path, hs[1..]);
    }
  }

  lemma {:induction false} DiffPlaced(fs: seq<FileDiff>, n: nat, k: nat)
    requires n < |fs| && k < |fs[n].hunks| && fs[n].hunks[k].added != [] && !Unbroken(fs[n].path)
    ensures !UnbrokenPlaces(DiffAdded(fs))
    decreases fs
  {
    var a, b := HunksAdded(fs[0].path, fs[0].hunks), DiffAdded(fs[1..]);
    assert forall i :: 0 <= i < |a| ==> (a + b)[i] == a[i];
    assert forall i :: 0 <= i < |b| ==> (a + b)[|a| + i] == b[i];
    if n == 0 {
      HunksPlaced(fs[0].path, fs[0].hunks, k);
      assert !Unbroken(a[0].path);
    } else {
      DiffPlaced(fs[1..], n - 1, k);
      var i :| 0 <= i < |b| && !Unbroken(b[i].path);
      assert !Unbroken((a + b)[|a| + i].path);
    }
  }

  /** Whatever else a diff holds: an added line under a name with a break is not read as it is. */
  lemma BrokenNameIsMisread(fs: seq<FileDiff>, n: nat, k: nat)
    requires n < |fs| && k < |fs[n].hunks| && fs[n].hunks[k].added != [] && !Unbroken(fs[n].path)
    ensures StagedText(fs) != DiffAdded(fs)
  {
    DiffPlaced(fs, n, k);
    PlacesAreUnbroken(START, SplitLines(Joined(DiffLines(fs))));
  }
}
