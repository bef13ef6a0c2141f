/** Python's str.splitlines, and what it makes of lines that were printed with newlines. */
module LineSplitting {

  import opened Sequences

  predicate IsBreak(c: char) {
    || c == '\n' || c == '\r' || c == '\U{0b}' || c == '\U{0c}' || c == '\U{1c}' || c == '\U{1d}'
    || c == '\U{1e}' || c == '\U{85}' || c == '\U{2028}' || c == '\U{2029}'
  }

  predicate Unbroken(s: string) {
    forall i :: 0 <= i < |s| ==> !IsBreak(s[i])
  }

  predicate AllUnbroken(lines: seq<string>) {
    forall i :: 0 <= i < |lines| ==> Unbroken(lines[i])
  }

  /** A line of a file: newlines end it, other breaks may be inside. */
  predicate OneLine(s: string) {
    '\n' !in s
  }

  predicate AllOneLine(lines: seq<string>) {
    forall i :: 0 <= i < |lines| ==> OneLine(lines[i])
  }

  /** How many characters come before the first break. */
  function LineLength(s: string): (n: nat)
    ensures n <= |s| && (forall i :: 0 <= i < n ==> !IsBreak(s[i]))
    ensures n < |s| ==> IsBreak(s[n])
  {
    if s == [] || IsBreak(s[0]) then 0 else 1 + LineLength(s[1..])
  }

  /** str.splitlines: a carriage return with its newline is one break; no empty last line. */
  function SplitLines(s: string): (lines: seq<string>)
    ensures AllUnbroken(lines)
    decreases |s|
  {
    var n := LineLength(s);
    if n == |s| then if s == [] then [] else [s[..n]]
    else if s[n] == '\r' && n + 1 < |s| && s[n + 1] == '\n' then [s[..n]] + SplitLines(s[n + 2..])
    else [s[..n]] + SplitLines(s[n + 1..])
  }

  /** Printing ends every line with a newline. */
  function Joined(lines: seq<string>): string {
    if lines == [] then "" else lines[0] + "\n" + Joined(lines[1..])
  }

  // ---- What one printed line is split into ----

  function First(line: string): string {
    line[..LineLength(line)]
  }

  /** The pieces after the first; a final carriage return merges with the newline. */
  function Tail(line: string): seq<string>
    decreases |line|, 0
  {
    var n := LineLength(line);
    if n == |line| || (line[n] == '\r' && n + 1 == |line|) then [] else Pieces(line[n + 1..])
  }

  /** The pieces of a line without newlines. */
  function Pieces(line: string): seq<string>
    decreases |line|, 1
  {
    [First(line)] + Tail(line)
  }

  function Flat(lines: seq<string>): seq<string> {
    if lines == [] then [] else Pieces(lines[0]) + Flat(lines[1..])
  }

  function Tails(lines: seq<string>): seq<string> {
    if lines == [] then [] else Tail(lines[0]) + Tails(lines[1..])
  }

  function Firsts(lines: seq<string>): seq<string> {
    seq(|lines|, i requires 0 <= i < |lines| => First(lines[i]))
  }

  lemma LineLengthOf(line: string, rest: string)
    requires Unbroken(line) && (rest == [] || IsBreak(rest[0]))
    ensures LineLength(line + rest) == |line|
  {
    var s := line + rest;
    assert rest != [] ==> s[|line|] == rest[0];
    assert forall i :: 0 <= i < |line| ==> s[i] == line[i];
  }

  /** One line, ended by a break that is not the first half of a pair. */
  lemma SplitOne(line: string, end: char, rest: string)
    requires Unbroken(line) && IsBreak(end) && !(end == '\r' && rest != [] && rest[0] == '\n')
    ensures SplitLines(line + ([end] + rest)) == [line] + SplitLines(rest)
  {
    var s := line + ([end] + rest);
    LineLengthOf(line, [end] + rest);
    assert s[..|line|] == line && s[|line|] == end && s[|line| + 1..] == rest;
    assert rest != [] ==> s[|line| + 1] == rest[0];
  }

  /** A line ended by a carriage return and its newline. */
  lemma SplitPair(line: string, rest: string)
    requires Unbroken(line)
    ensures SplitLines(line + (['\r'] + (['\n'] + rest))) == [line] + SplitLines(rest)
  {
    var tail := ['\r'] + (['\n'] + rest);
    var s := line + tail;
    LineLengthOf(line, tail);
    assert tail[0] == '\r' && tail[1] == '\n' && tail[2..] == rest;
    assert s[..|line|] == line && s[|line|] == tail[0] && s[|line| + 1] == tail[1] && s[|line| + 2..] == rest;
  }

  /** A break inside a printed line. */
  lemma SplitInside(head: string, end: char, after: string, x: string)
    requires Unbroken(head) && IsBreak(end) && !(end == '\r' && after == []) && OneLine(after)
    ensures SplitLines(head + ([end] + after) + x) == [head] + SplitLines(after + x)
  {
    Assoc(head, [end] + after, x);
    Assoc([end], after, x);
    assert after != [] ==> (after + x)[0] == after[0] && after[0] in after;
    SplitOne(head, end, after + x);
  }

  lemma NewlinesBreak()
    ensures IsBreak('\n') && IsBreak('\r')
  {
  }

  lemma {:induction false} SplitPrinted(line: string, rest: string)
    requires OneLine(line)
    ensures SplitLines(line + (['\n'] + rest)) == Pieces(line) + SplitLines(rest)
    decreases |line|
  {
    hide SplitLines, IsBreak, LineLength;
    NewlinesBreak();
    var n := LineLength(line);
    var head, x := line[..n], ['\n'] + rest;
    if n == |line| {
      assert head == line;
      SplitOne(line, '\n', rest);
      assert Pieces(line) == [line];
    } else if line[n] == '\r' && n + 1 == |line| {
      assert line == head + ['\r'];
      Assoc(head, ['\r'], x);
      SplitPair(head, rest);
      assert Pieces(line) == [head];
    } else {
      var end, after := line[n], line[n + 1..];
      assert line == head + ([end] + after);
      SplitInside(head, end, after, x);
      SplitPrinted(after, rest);
      assert Pieces(line) == [head] + Pieces(after);
      Assoc([head], Pieces(after), SplitLines(rest));
    }
  }

  /** Splitting what was printed gives the pieces of each line, in order. */
  lemma {:induction false} SplitJoined(lines: seq<string>)
    requires AllOneLine(lines)
    ensures SplitLines(Joined(lines)) == Flat(lines)
  {
    if lines != [] {
      var rest := Joined(lines[1..]);
      assert Joined(lines) == lines[0] + (['\n'] + rest);
      SplitPrinted(lines[0], rest);
      SplitJoined(lines[1..]);
    }
  }

  // ---- Pieces of put-together and of plain lines ----

  lemma {:induction false} FlatAppend(a: seq<string>, b: seq<string>)
    ensures Flat(a + b) == Flat(a) + Flat(b)
  {
    if a == [] {
      assert a + b == b;
    } else {
      assert (a + b)[1..] == a[1..] + b;
      FlatAppend(a[1..], b);
      Assoc(Pieces(a[0]), Flat(a[1..]), Flat(b));
    }
  }

  lemma FlatOne(line: string)
    ensures Flat([line]) == Pieces(line)
  {
    assert [line][1..] == [];
    assert Pieces(line) + [] == Pieces(line);
  }

  lemma PlainPieces(line: string)
    requires Unbroken(line)
    ensures Pieces(line) == [line] && First(line) == line && Tail(line) == []
  {
    assert line + [] == line;
    LineLengthOf(line, []);
    assert line[..|line|] == line;
  }

  lemma {:induction false} PlainFlat(lines: seq<string>)
    requires AllUnbroken(lines)
    ensures Flat(lines) == lines && Tails(lines) == [] && Firsts(lines) == lines
  {
    if lines != [] {
      PlainPieces(lines[0]);
      PlainFlat(lines[1..]);
      assert lines == [lines[0]] + lines[1..];
      assert forall i :: 1 <= i < |lines| ==> Firsts(lines)[i] == Firsts(lines[1..])[i - 1];
    }
  }

  /** A line whose only break is a carriage return at its end has one piece, without it. */
  lemma ReturnPieces(line: string)
    requires Unbroken(line)
    ensures Pieces(line + "\r") == [line] && First(line + "\r") == line && Tail(line + "\r") == []
  {
    LineLengthOf(line, "\r");
    assert (line + "\r")[..|line|] == line;
  }

  lemma UnbrokenTogether(a: string, b: string)
    requires Unbroken(a) && Unbroken(b)
    ensures Unbroken(a + b)
  {
    hide IsBreak;
    assert forall i :: 0 <= i < |a| ==> (a + b)[i] == a[i];
    assert forall i :: 0 <= i < |b| ==> (a + b)[|a| + i] == b[i];
  }

  lemma PrefixLength(prefix: string, line: string)
    requires Unbroken(prefix)
    ensures LineLength(prefix + line) == |prefix| + LineLength(line)
  {
    hide IsBreak;
    var n := LineLength(line);
    assert Unbroken(line[..n]);
    UnbrokenTogether(prefix, line[..n]);
    assert prefix + line == prefix + line[..n] + line[n..];
    LineLengthOf(prefix + line[..n], line[n..]);
  }

  /** Text without breaks in front of a line stays with its first piece. */
  lemma PrefixPieces(prefix: string, line: string)
    requires Unbroken(prefix)
    ensures Pieces(prefix + line) == [prefix + First(line)] + Tail(line)
    ensures Tail(prefix + line) == Tail(line)
  {
    hide IsBreak, LineLength, Unbroken;
    var n := LineLength(line);
    var s, m := prefix + line, |prefix| + n;
    PrefixLength(prefix, line);
    assert s[..m] == prefix + line[..n];
    if n < |line| {
      assert s[m] == line[n] && s[m + 1..] == line[n + 1..];
    }
  }

  /** Whether a piece starts with a break-free text does not depend on what follows the piece. */
  lemma FirstStarts(line: string, start: string)
    requires Unbroken(start)
    ensures start <= First(line) <==> start <= line
  {
    var n := LineLength(line);
    if start <= line {
      assert forall i :: 0 <= i < |start| ==> line[i] == start[i];
      assert n >= |start|;
    }
  }

  /** Text is split at exactly these characters. */
  lemma SplitsAtBreaks(c: char)
    ensures SplitLines(['x', c, 'y'])
            == if c in {'\n', '\r', '\U{0b}', '\U{0c}', '\U{1c}', '\U{1d}', '\U{1e}', '\U{85}', '\U{2028}', '\U{2029}'}
               then ["x", "y"] else [['x', c, 'y']]
  {
    var s := ['x', c, 'y'];
    assert s[1..] == [c, 'y'] && s[2..] == ['y'] && ['y'][1..] == [];
    assert [c, 'y'][1..] == ['y'];
    assert LineLength(['y']) == 1 && ['y'][..1] == ['y'];
    assert LineLength([c, 'y']) == if IsBreak(c) then 0 else 2;
    assert LineLength(s) == if IsBreak(c) then 1 else 3;
    assert s[..1] == ['x'] && s[..3] == s;
    assert SplitLines(['y']) == [['y']];
    assert "x" == ['x'] && "y" == ['y'];
  }
}
