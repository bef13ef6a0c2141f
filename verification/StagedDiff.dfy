/** Reading a zero-context unified diff back: tools/check_denylist.py's staged_lines. Text is a
    sequence of Unicode code points; `\d` is modelled for the ASCII digits that hunk headers use. */
module StagedDiff {

  import opened Wrappers
  import Decimal

  /** One added line: path, new-file line number, content. */
  datatype Added = Added(path: string, number: nat, text: string)

  /** A hunk as zero-context output has it: removed lines, then added lines; the "no newline"
      marker may follow either group. `section` is whatever the header carries after the ranges. */
  datatype Hunk = Hunk(
    oldStart: nat, oldCount: nat, newStart: nat, newCount: nat, section: string,
    removed: seq<string>, removedMarker: bool, added: seq<string>, addedMarker: bool)

  /** A file section. Without hunks (a pure rename or mode change) no ---/+++ lines are printed. */
  datatype FileDiff = FileDiff(preamble: seq<string>, oldName: string, path: string, hunks: seq<Hunk>)

  predicate StartsWith(s: string, p: string) {
    p <= s
  }

  // ---- Printing (POSIX diff, "Diff -u or -U Output Format") ----

  const MARKER := "\\ No newline at end of file"

  function Range(start: nat, count: nat): string {
    Decimal.ToString(start) + (if count == 1 then "" else "," + Decimal.ToString(count))
  }

  function HunkHeader(h: Hunk): string {
    "@@ -" + Range(h.oldStart, h.oldCount) + " +" + Range(h.newStart, h.newCount) + " @@" + h.section
  }

  function Prefixed(c: char, lines: seq<string>): seq<string> {
    seq(|lines|, i requires 0 <= i < |lines| => [c] + lines[i])
  }

  function Marker(present: bool): seq<string> {
    if present then [MARKER] else []
  }

  /** A header, the removed lines and their marker. */
  function Opening(header: string, removed: seq<string>, marker: bool): seq<string> {
    [header] + Prefixed('-', removed) + Marker(marker)
  }

  function Closing(added: seq<string>, marker: bool): seq<string> {
    Prefixed('+', added) + Marker(marker)
  }

  function HunkLines(h: Hunk): seq<string> {
    Opening(HunkHeader(h), h.removed, h.removedMarker) + Closing(h.added, h.addedMarker)
  }

  function HunksLines(hs: seq<Hunk>): seq<string> {
    if hs == [] then [] else HunkLines(hs[0]) + HunksLines(hs[1..])
  }

  function Names(f: FileDiff): seq<string> {
    ["--- " + f.oldName, "+++ b/" + f.path]
  }

  function FileLines(f: FileDiff): seq<string> {
    f.preamble
    + (if f.hunks == [] then [] else Names(f) + HunksLines(f.hunks))
  }

  function DiffLines(fs: seq<FileDiff>): seq<string> {
    if fs == [] then [] else FileLines(fs[0]) + DiffLines(fs[1..])
  }

  // ---- What should be read ----

  function AddedLines(path: string, start: nat, lines: seq<string>): seq<Added> {
    seq(|lines|, i requires 0 <= i < |lines| => Added(path, start + i, lines[i]))
  }

  function HunksAdded(path: string, hs: seq<Hunk>): seq<Added> {
    if hs == [] then [] else AddedLines(path, hs[0].newStart, hs[0].added) + HunksAdded(path, hs[1..])
  }

  function DiffAdded(fs: seq<FileDiff>): seq<Added> {
    if fs == [] then [] else HunksAdded(fs[0].path, fs[0].hunks) + DiffAdded(fs[1..])
  }

  // ---- Reading ----

  /** Strips a decimal number off the front. */
  function TakeNumber(s: string): Option<(nat, string)> {
    var n := Decimal.DigitRun(s);
    if n == 0 then None else Some((Decimal.Value(s[..n]), s[n..]))
  }

  /** Strips an optional ",number". */
  function DropCount(s: string): string {
    if s != [] && s[0] == ',' && Decimal.DigitRun(s[1..]) > 0 then s[1 + Decimal.DigitRun(s[1..])..] else s
  }

  /** The pattern from the new file's range on. */
  function MatchNew(text: string): Option<nat> {
    if !StartsWith(text, " +") then None
    else
      match TakeNumber(text[2..])
      case None => None
      case Some((start, rest)) => if StartsWith(DropCount(rest), " @@") then Some(start) else None
  }

  /** The hunk pattern; its group is the new file's starting line. */
  function MatchHunk(line: string): Option<nat> {
    if !StartsWith(line, "@@ -") then None
    else
      match TakeNumber(line[4..])
      case None => None
      case Some((_, rest)) => MatchNew(DropCount(rest))
  }

  /** path is None or "" when added lines are skipped (both are falsy). */
  datatype Scan = Scan(path: string, number: nat, previous: string, found: seq<Added>)

  const START := Scan("", 0, "", [])

  function HeaderPath(line: string): string {
    if StartsWith(line, "+++ b/") then line[6..] else ""
  }

  function Step(s: Scan, line: string): Scan {
    if StartsWith(line, "+++ ") && StartsWith(s.previous, "--- ") then
      Scan(HeaderPath(line), s.number, line, s.found)
    else if MatchHunk(line).Some? then
      Scan(s.path, MatchHunk(line).value, line, s.found)
    else if s.path != "" && StartsWith(line, "+") then
      Scan(s.path, s.number + 1, line, s.found + [Added(s.path, s.number, line[1..])])
    else
      Scan(s.path, s.number, line, s.found)
  }

  function Read(s: Scan, lines: seq<string>): Scan
    decreases lines
  {
    if lines == [] then s else Read(Step(s, lines[0]), lines[1..])
  }

  method StagedLines(lines: seq<string>) returns (found: seq<Added>)
    ensures found == Read(START, lines).found
  {
    var path, number, previous := "", 0, "";
    found := [];
    for i := 0 to |lines|
      invariant Read(START, lines) == Read(Scan(path, number, previous, found), lines[i..])
    {
      var line := lines[i];
      assert lines[i..][0] == line && lines[i..][1..] == lines[i + 1..];
      if StartsWith(line, "+++ ") && StartsWith(previous, "--- ") {
        path := if StartsWith(line, "+++ b/") then line[6..] else "";
      } else if MatchHunk(line).Some? {
        number := MatchHunk(line).value;
      } else if path != "" && StartsWith(line, "+") {
        found := found + [Added(path, number, line[1..])];
        number := number + 1;
      }
      previous := line;
    }
  }

  lemma {:induction false} ReadAppend(s: Scan, a: seq<string>, b: seq<string>)
    ensures Read(s, a + b) == Read(Read(s, a), b)
    decreases a
  {
    if a == [] {
      assert a + b == b;
    } else {
      assert (a + b)[1..] == a[1..] + b;
      ReadAppend(Step(s, a[0]), a[1..], b);
    }
  }

  // ---- What the hunk pattern accepts ----

  predicate IsNumber(s: string) {
    s != "" && forall i :: 0 <= i < |s| ==> '0' <= s[i] <= '9'
  }

  /** An optional ",number". */
  predicate IsCount(s: string) {
    s == "" || (s[0] == ',' && IsNumber(s[1..]))
  }

  lemma DigitsTaken(digits: string, rest: string)
    requires IsNumber(digits) && (rest == "" || !('0' <= rest[0] <= '9'))
    ensures Decimal.DigitRun(digits + rest) == |digits|
  {
    var s := digits + rest;
    var n := Decimal.DigitRun(s);
    assert forall i :: 0 <= i < |digits| ==> s[i] == digits[i];
    assert rest != "" ==> s[|digits|] == rest[0];
  }

  lemma RangeTaken(digits: string, count: string, rest: string)
    requires IsNumber(digits) && IsCount(count) && StartsWith(rest, " ")
    ensures TakeNumber(digits + (count + rest)) == Some((Decimal.Value(digits), count + rest))
    ensures DropCount(count + rest) == rest
  {
    DigitsTaken(digits, count + rest);
    var s := digits + (count + rest);
    assert s[..|digits|] == digits && s[|digits|..] == count + rest;
    if count != "" {
      DigitsTaken(count[1..], rest);
      assert (count + rest)[1..] == count[1..] + rest;
      assert (count + rest)[|count|..] == rest;
    }
  }

  lemma CommaDigits(tail: string, k: nat)
    requires 0 < k < |tail| && tail[0] == ','
    requires forall i :: 0 <= i < k ==> Decimal.IsDigit(tail[1..][i])
    ensures IsCount(tail[..1 + k])
  {
    assert forall i :: 0 <= i < k ==> tail[..1 + k][1..][i] == tail[1..][i];
  }

  lemma DroppedCount(tail: string) returns (count: string)
    ensures tail == count + DropCount(tail) && IsCount(count)
  {
    hide Decimal.DigitRun, Decimal.IsDigit;
    if tail != [] && tail[0] == ',' && Decimal.DigitRun(tail[1..]) > 0 {
      var k := Decimal.DigitRun(tail[1..]);
      CommaDigits(tail, k);
      hide IsCount;
      count := tail[..1 + k];
      assert DropCount(tail) == tail[1 + k..];
    } else {
      count := "";
      assert tail == "" + tail;
    }
  }

  lemma TakenRange(s: string) returns (digits: string, count: string, rest: string)
    requires TakeNumber(s).Some?
    ensures s == digits + (count + rest) && IsNumber(digits) && IsCount(count)
    ensures TakeNumber(s).value.0 == Decimal.Value(digits) && DropCount(TakeNumber(s).value.1) == rest
  {
    hide DropCount, IsCount;
    var n := Decimal.DigitRun(s);
    digits := s[..n];
    count := DroppedCount(s[n..]);
    rest := DropCount(s[n..]);
    assert s == digits + s[n..];
  }

  /** The line has the shape of a hunk header whose new range starts at the number. */
  predicate IsHeader(line: string, before: string, beforeCount: string, start: string, count: string, rest: string) {
    && IsNumber(before) && IsCount(beforeCount) && IsNumber(start) && IsCount(count)
    && line == "@@ -" + (before + (beforeCount + (" +" + (start + (count + (" @@" + rest))))))
  }

  lemma NewMatches(start: string, count: string, rest: string)
    requires IsNumber(start) && IsCount(count)
    ensures MatchNew(" +" + (start + (count + (" @@" + rest)))) == Some(Decimal.Value(start))
  {
    hide IsNumber, IsCount;
    var text := start + (count + (" @@" + rest));
    RangeTaken(start, count, " @@" + rest);
    assert (" +" + text)[2..] == text;
  }

  lemma NewParsed(tail: string) returns (start: string, count: string, rest: string)
    requires MatchNew(tail).Some?
    ensures IsNumber(start) && IsCount(count) && tail == " +" + (start + (count + (" @@" + rest)))
    ensures MatchNew(tail) == Some(Decimal.Value(start))
  {
    hide IsNumber, IsCount, TakeNumber, DropCount;
    var after;
    start, count, after := TakenRange(tail[2..]);
    assert tail == " +" + tail[2..];
    assert after == " @@" + after[3..];
    rest := after[3..];
  }

  lemma OldMatches(before: string, beforeCount: string, tail: string)
    requires IsNumber(before) && IsCount(beforeCount) && StartsWith(tail, " ")
    ensures MatchHunk("@@ -" + (before + (beforeCount + tail))) == MatchNew(tail)
  {
    hide IsNumber, IsCount, MatchNew;
    var text := before + (beforeCount + tail);
    RangeTaken(before, beforeCount, tail);
    assert ("@@ -" + text)[4..] == text;
  }

  /** The pattern matches exactly the lines "@@ -range +range @@" with anything behind, where a range is a
      number and an optional ",number"; its group is the new range's number. */
  lemma HunkPatternIsExact(line: string, n: nat)
    ensures MatchHunk(line) == Some(n) <==>
              exists before, beforeCount, start, count, rest ::
                IsHeader(line, before, beforeCount, start, count, rest) && Decimal.Value(start) == n
  {
    hide IsNumber, IsCount, TakeNumber, DropCount, MatchNew;
    if MatchHunk(line) == Some(n) {
      var before, beforeCount, tail := TakenRange(line[4..]);
      var start, count, rest := NewParsed(tail);
      assert line == "@@ -" + line[4..];
      assert IsHeader(line, before, beforeCount, start, count, rest);
    }
    if before, beforeCount, start, count, rest :|
       IsHeader(line, before, beforeCount, start, count, rest) && Decimal.Value(start) == n {
      NewMatches(start, count, rest);
      OldMatches(before, beforeCount, " +" + (start + (count + (" @@" + rest))));
    }
  }

  // ---- Hunk headers are read back ----

  lemma TakeNumberBack(n: nat, rest: string)
    requires rest == [] || !Decimal.IsDigit(rest[0])
    ensures TakeNumber(Decimal.ToString(n) + rest) == Some((n, rest))
  {
    Decimal.DigitRunOf(n, rest);
    Decimal.ValueOfToString(n);
    assert (Decimal.ToString(n) + rest)[|Decimal.ToString(n)|..] == rest;
  }

  lemma DropCountBack(count: nat, rest: string)
    requires rest != [] && !Decimal.IsDigit(rest[0])
    ensures DropCount("," + Decimal.ToString(count) + rest) == rest
  {
    var tail := "," + Decimal.ToString(count) + rest;
    assert tail[1..] == Decimal.ToString(count) + rest;
    Decimal.DigitRunOf(count, rest);
    assert tail[1 + |Decimal.ToString(count)|..] == rest;
  }

  lemma RangeBack(start: nat, count: nat, rest: string)
    requires rest != [] && !Decimal.IsDigit(rest[0]) && rest[0] != ','
    ensures var taken := TakeNumber(Range(start, count) + rest);
            taken.Some? && taken.value.0 == start && DropCount(taken.value.1) == rest
  {
    var tail := if count == 1 then rest else "," + Decimal.ToString(count) + rest;
    assert Range(start, count) + rest == Decimal.ToString(start) + tail;
    TakeNumberBack(start, tail);
    if count != 1 {
      DropCountBack(count, rest);
    }
  }

  lemma MatchNewBack(text: string, rest: string, start: nat)
    requires var taken := TakeNumber(text + rest);
             taken.Some? && taken.value.0 == start && DropCount(taken.value.1) == rest
    requires StartsWith(rest, " @@")
    ensures MatchNew(" +" + (text + rest)) == Some(start)
  {
    var line := " +" + (text + rest);
    assert line[2..] == text + rest;
  }

  lemma MatchOldBack(text: string, rest: string)
    requires TakeNumber(text + rest).Some? && DropCount(TakeNumber(text + rest).value.1) == rest
    ensures MatchHunk("@@ -" + (text + rest)) == MatchNew(rest)
  {
    var line := "@@ -" + (text + rest);
    assert line[4..] == text + rest;
  }

  lemma HeaderPieces(a: string, b: string, section: string)
    ensures "@@ -" + a + " +" + b + " @@" + section == "@@ -" + (a + (" +" + (b + (" @@" + section))))
  {
  }

  lemma HeaderBack(h: Hunk)
    ensures MatchHunk(HunkHeader(h)) == Some(h.newStart)
    ensures HunkHeader(h) != [] && HunkHeader(h)[0] == '@'
  {
    var oldRange, newRange := Range(h.oldStart, h.oldCount), Range(h.newStart, h.newCount);
    var tail := " @@" + h.section;
    var rest := " +" + (newRange + tail);
    RangeBack(h.newStart, h.newCount, tail);
    MatchNewBack(newRange, tail, h.newStart);
    RangeBack(h.oldStart, h.oldCount, rest);
    MatchOldBack(oldRange, rest);
    HeaderPieces(oldRange, newRange, h.section);
  }

  // ---- Reading a hunk ----

  /** The one shape that the reader mistakes for a file header. */
  predicate LooksLikeHeader(h: Hunk) {
    && h.removed != [] && !h.removedMarker && h.added != []
    && StartsWith(h.removed[|h.removed| - 1], "-- ")
    && StartsWith(h.added[0], "++ ")
  }

  lemma StepMinus(s: Scan, text: string)
    ensures Step(s, "-" + text) == Scan(s.path, s.number, "-" + text, s.found)
  {
    var line := "-" + text;
    assert line[0] == '-';
  }

  lemma {:induction false} ReadRemoved(s: Scan, lines: seq<string>)
    ensures Read(s, Prefixed('-', lines))
            == s.(previous := if lines == [] then s.previous else "-" + lines[|lines| - 1])
    decreases lines
  {
    if lines != [] {
      var printed := Prefixed('-', lines);
      assert printed[0] == "-" + lines[0];
      assert printed[1..] == Prefixed('-', lines[1..]);
      StepMinus(s, lines[0]);
      ReadRemoved(Step(s, printed[0]), lines[1..]);
    }
  }

  lemma StepMarker(s: Scan)
    ensures Step(s, MARKER) == s.(previous := MARKER)
  {
    assert MARKER[0] == '\\';
  }

  lemma ReadMarker(s: Scan, present: bool)
    ensures Read(s, Marker(present)) == s.(previous := if present then MARKER else s.previous)
  {
    if present {
      assert Marker(present)[1..] == [];
      StepMarker(s);
    }
  }

  lemma PlusPlus(text: string)
    ensures StartsWith("+" + text, "+++ ") <==> StartsWith(text, "++ ")
  {
    var a := "+" + text;
    assert a[1..] == text;
    if StartsWith(text, "++ ") {
      assert text == "++ " + text[3..];
      assert a == "+++ " + text[3..];
    }
    if StartsWith(a, "+++ ") {
      assert a == "+++ " + a[4..];
      assert text == "++ " + a[4..];
    }
  }

  lemma MinusMinus(text: string)
    ensures StartsWith("-" + text, "--- ") <==> StartsWith(text, "-- ")
  {
    var b := "-" + text;
    assert b[1..] == text;
    if StartsWith(text, "-- ") {
      assert text == "-- " + text[3..];
      assert b == "--- " + text[3..];
    }
    if StartsWith(b, "--- ") {
      assert b == "--- " + b[4..];
      assert text == "-- " + b[4..];
    }
  }

  /** A content line under a known path is found, unless it is taken for a file header. */
  lemma StepPlus(s: Scan, text: string)
    ensures (StartsWith(text, "++ ") && StartsWith(s.previous, "--- ")) ==> Step(s, "+" + text).found == s.found
    ensures s.path != "" && !(StartsWith(text, "++ ") && StartsWith(s.previous, "--- ")) ==>
              Step(s, "+" + text) == Scan(s.path, s.number + 1, "+" + text, s.found + [Added(s.path, s.number, text)])
    ensures !StartsWith("+" + text, "--- ")
  {
    var line := "+" + text;
    PlusPlus(text);
    assert line[0] == '+' && line[1..] == text;
  }

  /** Added lines under a known path, none of them taken for a file header. */
  lemma {:induction false} ReadAdded(s: Scan, lines: seq<string>)
    requires s.path != ""
    requires !(lines != [] && StartsWith(lines[0], "++ ") && StartsWith(s.previous, "--- "))
    ensures Read(s, Prefixed('+', lines)).path == s.path
    ensures Read(s, Prefixed('+', lines)).found == s.found + AddedLines(s.path, s.number, lines)
    decreases lines
  {
    if lines == [] {
      assert s.found + [] == s.found;
    } else {
      var printed := Prefixed('+', lines);
      assert printed[0] == "+" + lines[0];
      assert printed[1..] == Prefixed('+', lines[1..]);
      StepPlus(s, lines[0]);
      var one := [Added(s.path, s.number, lines[0])];
      ReadAdded(Step(s, printed[0]), lines[1..]);
      assert AddedLines(s.path, s.number, lines) == one + AddedLines(s.path, s.number + 1, lines[1..]);
      assert s.found + one + AddedLines(s.path, s.number + 1, lines[1..])
             == s.found + (one + AddedLines(s.path, s.number + 1, lines[1..]));
    }
  }

  lemma NotPlus(line: string)
    requires line != [] && line[0] != '+'
    ensures !StartsWith(line, "+++ ") && !StartsWith(line, "+")
  {
  }

  lemma StepHeader(s: Scan, h: Hunk)
    ensures Read(s, [HunkHeader(h)]) == Scan(s.path, h.newStart, HunkHeader(h), s.found)
  {
    hide MatchHunk, HunkHeader;
    var header := HunkHeader(h);
    HeaderBack(h);
    NotPlus(header);
    assert [header][0] == header && [header][1..] == [];
    assert Read(s, [header]) == Step(s, header);
  }

  /** The scan after the hunk's header and removed lines. */
  lemma ReadOpening(s: Scan, h: Hunk)
    ensures var r := Read(s, Opening(HunkHeader(h), h.removed, h.removedMarker));
            && r.path == s.path && r.number == h.newStart && r.found == s.found
            && (StartsWith(r.previous, "--- ") <==>
                  h.removed != [] && !h.removedMarker && StartsWith(h.removed[|h.removed| - 1], "-- "))
  {
    HeaderBack(h);
    StepHeader(s, h);
    ReadAfterHeader(s, HunkHeader(h), h.newStart, h.removed, h.removedMarker);
  }

  lemma ReadAfterHeader(s: Scan, header: string, start: nat, removed: seq<string>, marker: bool)
    requires header != [] && header[0] == '@' && Read(s, [header]) == Scan(s.path, start, header, s.found)
    ensures var r := Read(s, Opening(header, removed, marker));
            && r.path == s.path && r.number == start && r.found == s.found
            && (StartsWith(r.previous, "--- ") <==>
                  removed != [] && !marker && StartsWith(removed[|removed| - 1], "-- "))
  {
    var s1 := Scan(s.path, start, header, s.found);
    ReadAppend(s, [header], Prefixed('-', removed));
    ReadRemoved(s1, removed);
    ReadAppend(s, [header] + Prefixed('-', removed), Marker(marker));
    ReadMarker(Read(s1, Prefixed('-', removed)), marker);
    if removed != [] {
      MinusMinus(removed[|removed| - 1]);
    }
    assert MARKER[0] == '\\';
  }

  lemma ReadClosing(s: Scan, added: seq<string>, marker: bool)
    requires s.path != ""
    requires !(added != [] && StartsWith(added[0], "++ ") && StartsWith(s.previous, "--- "))
    ensures Read(s, Closing(added, marker)).path == s.path
    ensures Read(s, Closing(added, marker)).found == s.found + AddedLines(s.path, s.number, added)
  {
    ReadAdded(s, added);
    ReadAppend(s, Prefixed('+', added), Marker(marker));
    ReadMarker(Read(s, Prefixed('+', added)), marker);
  }

  lemma ReadHunk(s: Scan, h: Hunk)
    requires s.path != "" && !LooksLikeHeader(h)
    ensures Finds(s, HunkLines(h), s.path, AddedLines(s.path, h.newStart, h.added))
  {
    var header := HunkHeader(h);
    ReadOpening(s, h);
    ReadAppend(s, Opening(header, h.removed, h.removedMarker), Closing(h.added, h.addedMarker));
    ReadClosing(Read(s, Opening(header, h.removed, h.removedMarker)), h.added, h.addedMarker);
  }

  /** Reading `lines` leaves the scan at `path` having found `more`. */
  predicate Finds(s: Scan, lines: seq<string>, path: string, more: seq<Added>) {
    Read(s, lines).path == path && Read(s, lines).found == s.found + more
  }

  lemma FindsNothing(s: Scan)
    ensures Finds(s, [], s.path, [])
  {
    assert s.found + [] == s.found;
  }

  lemma FindsBoth(s: Scan, a: seq<string>, one: seq<Added>, b: seq<string>, rest: seq<Added>, path: string)
    requires Read(s, a).found == s.found + one && Finds(Read(s, a), b, path, rest)
    ensures Finds(s, a + b, path, one + rest)
  {
    hide Step;
    ReadAppend(s, a, b);
    assert s.found + one + rest == s.found + (one + rest);
  }

  /** No hunk is mistaken for a file header. */
  predicate Legible(hs: seq<Hunk>) {
    forall i :: 0 <= i < |hs| ==> !LooksLikeHeader(hs[i])
  }

  lemma {:induction false} ReadHunks(s: Scan, hs: seq<Hunk>)
    requires s.path != "" && Legible(hs)
    ensures Finds(s, HunksLines(hs), s.path, HunksAdded(s.path, hs))
    decreases hs
  {
    if hs == [] {
      FindsNothing(s);
    } else {
      ReadHunk(s, hs[0]);
      ReadHunks(Read(s, HunkLines(hs[0])), hs[1..]);
      FindsBoth(s, HunkLines(hs[0]), AddedLines(s.path, hs[0].newStart, hs[0].added),
                HunksLines(hs[1..]), HunksAdded(s.path, hs[1..]), s.path);
    }
  }

  // ---- Reading files ----

  /** Extended header lines: none starts like content, a file header or a hunk. */
  predicate InertLine(line: string) {
    !StartsWith(line, "+") && !StartsWith(line, "@@ -")
  }

  /** A printable file section: inert preamble and a nonempty path. */
  predicate Printable(f: FileDiff) {
    f.path != "" && forall line :: line in f.preamble ==> InertLine(line)
  }

  lemma {:induction false} ReadPreamble(s: Scan, lines: seq<string>)
    requires forall line :: line in lines ==> InertLine(line)
    ensures var r := Read(s, lines);
            r.path == s.path && r.number == s.number && r.found == s.found
    decreases lines
  {
    if lines != [] {
      assert lines[0] in lines && InertLine(lines[0]);
      assert StartsWith(lines[0], "+++ ") ==> StartsWith(lines[0], "+");
      ReadPreamble(Step(s, lines[0]), lines[1..]);
    }
  }

  lemma StepNames(s: Scan, oldName: string)
    ensures Step(s, "--- " + oldName) == Scan(s.path, s.number, "--- " + oldName, s.found)
    ensures StartsWith("--- " + oldName, "--- ")
  {
    var line := "--- " + oldName;
    assert line[0] == '-';
  }

  lemma StepPath(s: Scan, path: string)
    requires StartsWith(s.previous, "--- ")
    ensures Step(s, "+++ b/" + path) == Scan(path, s.number, "+++ b/" + path, s.found)
  {
    var line := "+++ b/" + path;
    assert line[6..] == path;
    assert line == "+++ " + ("b/" + path);
  }

  lemma ReadNames(s: Scan, f: FileDiff)
    ensures Read(s, Names(f)).path == f.path && Read(s, Names(f)).found == s.found
  {
    var a, b := "--- " + f.oldName, "+++ b/" + f.path;
    var rest := [b];
    assert Names(f)[0] == a && Names(f)[1..] == rest && rest[1..] == [];
    StepNames(s, f.oldName);
    StepPath(Step(s, a), f.path);
    assert Read(Step(s, a), rest) == Step(Step(s, a), b);
  }

  /** The scan when a file's hunks begin, or after a section without hunks. */
  lemma ReadHead(s: Scan, f: FileDiff)
    requires Printable(f) && f.hunks != []
    ensures Read(s, f.preamble + Names(f)).path == f.path && Read(s, f.preamble + Names(f)).found == s.found
  {
    ReadPreamble(s, f.preamble);
    ReadAppend(s, f.preamble, Names(f));
    ReadNames(Read(s, f.preamble), f);
  }

  lemma FindsAfter(s: Scan, a: seq<string>, b: seq<string>, more: seq<Added>, path: string)
    requires Read(s, a).found == s.found && Finds(Read(s, a), b, path, more)
    ensures Finds(s, a + b, path, more)
  {
    ReadAppend(s, a, b);
  }

  lemma ReadFile(s: Scan, f: FileDiff)
    requires Printable(f) && Legible(f.hunks)
    ensures Read(s, FileLines(f)).found == s.found + HunksAdded(f.path, f.hunks)
  {
    if f.hunks == [] {
      ReadPreamble(s, f.preamble);
      assert FileLines(f) == f.preamble;
      FindsNothing(s);
    } else {
      ReadHead(s, f);
      ReadFileHunks(s, f, f.preamble + Names(f));
    }
  }

  lemma ReadFileHunks(s: Scan, f: FileDiff, head: seq<string>)
    requires Legible(f.hunks) && f.hunks != [] && f.path != ""
    requires head == f.preamble + Names(f) && Read(s, head).path == f.path && Read(s, head).found == s.found
    ensures Read(s, FileLines(f)).found == s.found + HunksAdded(f.path, f.hunks)
  {
    ReadHunks(Read(s, head), f.hunks);
    FindsAfter(s, head, HunksLines(f.hunks), HunksAdded(f.path, f.hunks), f.path);
    FileParts(f);
  }

  lemma FileParts(f: FileDiff)
    requires f.hunks != []
    ensures FileLines(f) == f.preamble + Names(f) + HunksLines(f.hunks)
  {
  }

  /** Reading inverts printing, unless a hunk looks like a file header. */
  lemma {:induction false} ReadInvertsPrint(s: Scan, fs: seq<FileDiff>)
    requires forall i :: 0 <= i < |fs| ==> Printable(fs[i]) && Legible(fs[i].hunks)
    ensures Read(s, DiffLines(fs)).found == s.found + DiffAdded(fs)
    decreases fs
  {
    if fs == [] {
      FindsNothing(s);
    } else {
      ReadFile(s, fs[0]);
      var s1 := Read(s, FileLines(fs[0]));
      ReadInvertsPrint(s1, fs[1..]);
      FindsBoth(s, FileLines(fs[0]), HunksAdded(fs[0].path, fs[0].hunks),
                DiffLines(fs[1..]), DiffAdded(fs[1..]), Read(s1, DiffLines(fs[1..])).path);
    }
  }

  // ---- The converse: a hunk that looks like a header always loses a line ----

  /** How many of the lines could be content. */
  function PlusCount(lines: seq<string>): nat {
    if lines == [] then 0 else (if StartsWith(lines[0], "+") then 1 else 0) + PlusCount(lines[1..])
  }

  lemma {:induction false} PlusAppend(a: seq<string>, b: seq<string>)
    ensures PlusCount(a + b) == PlusCount(a) + PlusCount(b)
  {
    if a == [] {
      assert a + b == b;
    } else {
      assert (a + b)[1..] == a[1..] + b;
      PlusAppend(a[1..], b);
    }
  }

  /** At most one line is found per line that starts with '+'. */
  lemma {:induction false} FoundBound(s: Scan, lines: seq<string>)
    ensures |Read(s, lines).found| <= |s.found| + PlusCount(lines)
    decreases lines
  {
    if lines != [] {
      FoundBound(Step(s, lines[0]), lines[1..]);
    }
  }

  lemma {:induction false} PlusPrefixed(c: char, lines: seq<string>)
    ensures PlusCount(Prefixed(c, lines)) == if c == '+' then |lines| else 0
  {
    if lines != [] {
      var printed := Prefixed(c, lines);
      assert printed[0][0] == c;
      assert c == '+' ==> printed[0] == "+" + lines[0];
      assert printed[1..] == Prefixed(c, lines[1..]);
      PlusPrefixed(c, lines[1..]);
    }
  }

  lemma PlusOpening(header: string, removed: seq<string>, marker: bool)
    requires header != [] && header[0] == '@'
    ensures PlusCount(Opening(header, removed, marker)) == 0
  {
    assert [header][1..] == [];
    PlusPrefixed('-', removed);
    PlusMarker(marker);
    PlusAppend([header], Prefixed('-', removed));
    PlusAppend([header] + Prefixed('-', removed), Marker(marker));
  }

  lemma PlusMarker(marker: bool)
    ensures PlusCount(Marker(marker)) == 0
  {
    assert MARKER[0] == '\\';
    assert marker ==> Marker(marker)[1..] == [];
  }

  lemma PlusHunk(h: Hunk)
    ensures PlusCount(HunkLines(h)) == |h.added|
  {
    var header := HunkHeader(h);
    HeaderBack(h);
    PlusOpening(header, h.removed, h.removedMarker);
    PlusPrefixed('+', h.added);
    PlusMarker(h.addedMarker);
    PlusAppend(Prefixed('+', h.added), Marker(h.addedMarker));
    PlusAppend(Opening(header, h.removed, h.removedMarker), Closing(h.added, h.addedMarker));
  }

  lemma {:induction false} PlusHunks(path: string, hs: seq<Hunk>)
    ensures PlusCount(HunksLines(hs)) == |HunksAdded(path, hs)|
  {
    if hs != [] {
      PlusHunk(hs[0]);
      PlusAppend(HunkLines(hs[0]), HunksLines(hs[1..]));
      PlusHunks(path, hs[1..]);
    }
  }

  lemma LostInClosing(s: Scan, added: seq<string>, marker: bool)
    requires added != [] && StartsWith(added[0], "++ ") && StartsWith(s.previous, "--- ")
    ensures |Read(s, Closing(added, marker)).found| < |s.found| + |added|
  {
    var lines := Closing(added, marker);
    assert lines[0] == "+" + added[0];
    assert lines[1..] == Prefixed('+', added[1..]) + Marker(marker);
    StepPlus(s, added[0]);
    PlusPrefixed('+', added[1..]);
    PlusMarker(marker);
    PlusAppend(Prefixed('+', added[1..]), Marker(marker));
    FoundBound(Step(s, lines[0]), lines[1..]);
  }

  /** The added line that looks like a header is swallowed. */
  lemma LostLine(s: Scan, h: Hunk)
    requires LooksLikeHeader(h)
    ensures |Read(s, HunkLines(h)).found| < |s.found| + |h.added|
  {
    var header := HunkHeader(h);
    ReadOpening(s, h);
    ReadAppend(s, Opening(header, h.removed, h.removedMarker), Closing(h.added, h.addedMarker));
    LostInClosing(Read(s, Opening(header, h.removed, h.removedMarker)), h.added, h.addedMarker);
  }

  lemma {:induction false} LostInHunks(s: Scan, path: string, hs: seq<Hunk>, k: nat)
    requires k < |hs| && LooksLikeHeader(hs[k])
    ensures |Read(s, HunksLines(hs)).found| < |s.found| + |HunksAdded(path, hs)|
    decreases hs
  {
    ReadAppend(s, HunkLines(hs[0]), HunksLines(hs[1..]));
    var s1 := Read(s, HunkLines(hs[0]));
    if k == 0 {
      LostLine(s, hs[0]);
      FoundBound(s1, HunksLines(hs[1..]));
      PlusHunks(path, hs[1..]);
    } else {
      PlusHunk(hs[0]);
      FoundBound(s, HunkLines(hs[0]));
      LostInHunks(s1, path, hs[1..], k - 1);
    }
  }

  /** Reading a section finds at most its added lines, and fewer if a hunk looks like a header. */
  lemma FoundInFile(s: Scan, f: FileDiff)
    requires Printable(f)
    ensures |Read(s, FileLines(f)).found| <= |s.found| + |HunksAdded(f.path, f.hunks)|
    ensures !Legible(f.hunks) ==> |Read(s, FileLines(f)).found| < |s.found| + |HunksAdded(f.path, f.hunks)|
  {
    if f.hunks == [] {
      ReadPreamble(s, f.preamble);
      assert FileLines(f) == f.preamble;
    } else {
      ReadHead(s, f);
      FileParts(f);
      ReadAppend(s, f.preamble + Names(f), HunksLines(f.hunks));
      var s1 := Read(s, f.preamble + Names(f));
      FoundBound(s1, HunksLines(f.hunks));
      PlusHunks(f.path, f.hunks);
      if k :| 0 <= k < |f.hunks| && LooksLikeHeader(f.hunks[k]) {
        LostInHunks(s1, f.path, f.hunks, k);
      }
    }
  }

  lemma {:induction false} FoundInDiff(s: Scan, fs: seq<FileDiff>)
    requires forall i :: 0 <= i < |fs| ==> Printable(fs[i])
    ensures |Read(s, DiffLines(fs)).found| <= |s.found| + |DiffAdded(fs)|
    ensures (exists i :: 0 <= i < |fs| && !Legible(fs[i].hunks)) ==>
              |Read(s, DiffLines(fs)).found| < |s.found| + |DiffAdded(fs)|
    decreases fs
  {
    if fs != [] {
      FoundInFile(s, fs[0]);
      ReadAppend(s, FileLines(fs[0]), DiffLines(fs[1..]));
      FoundInDiff(Read(s, FileLines(fs[0])), fs[1..]);
      assert forall i :: 1 <= i < |fs| ==> fs[i] == fs[1..][i - 1];
    }
  }

  /** staged_lines yields exactly the added lines of the diff if and only if no hunk ends its
      removed lines with one beginning "-- " directly before an added line beginning "++ ". */
  lemma StagedLinesExact(fs: seq<FileDiff>)
    requires forall i :: 0 <= i < |fs| ==> Printable(fs[i])
    ensures Read(START, DiffLines(fs)).found == DiffAdded(fs)
            <==> forall i :: 0 <= i < |fs| ==> Legible(fs[i].hunks)
  {
    if forall i :: 0 <= i < |fs| ==> Legible(fs[i].hunks) {
      ReadInvertsPrint(START, fs);
      assert [] + DiffAdded(fs) == DiffAdded(fs);
    } else {
      FoundInDiff(START, fs);
    }
  }
}
