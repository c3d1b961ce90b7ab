/** String operations of Python's `str` that the program relies on, over `seq<char>`:
    `str.join`, `str.splitlines`, and "t occurs in s". */
module Text {

  /** `sep.join(parts)`: the parts, with `sep` between each two consecutive ones. */
  function Join(sep: string, parts: seq<string>): string
  {
    if |parts| == 0 then ""
    else if |parts| == 1 then parts[0]
    else parts[0] + sep + Join(sep, parts[1..])
  }

  /** Joining one more part adds the separator and that part at the end. */
  lemma {:induction false} JoinAppend(sep: string, parts: seq<string>, last: string)
    requires parts != []
    ensures Join(sep, parts + [last]) == Join(sep, parts) + sep + last
  {
    if |parts| == 1 {
      assert parts + [last] == [parts[0], last];
      assert [parts[0], last][1..] == [last];
    } else {
      assert (parts + [last])[1..] == parts[1..] + [last];
      JoinAppend(sep, parts[1..], last);
    }
  }

  /** A join of at least one part begins with the first part. */
  lemma JoinStartsWithFirst(sep: string, parts: seq<string>)
    requires parts != []
    ensures |Join(sep, parts)| >= |parts[0]|
    ensures Join(sep, parts)[..|parts[0]|] == parts[0]
  {
  }

  /** Every part of a join occurs in it. */
  lemma {:induction false} PartOccursInJoin(sep: string, parts: seq<string>, i: nat)
    requires i < |parts|
    ensures Occurs(parts[i], Join(sep, parts))
  {
    if |parts| == 1 {
      OccursIn([], parts[0], []);
      assert [] + parts[0] + [] == parts[0];
    } else if i == 0 {
      OccursIn([], parts[0], sep + Join(sep, parts[1..]));
      assert [] + parts[0] + (sep + Join(sep, parts[1..])) == Join(sep, parts);
    } else {
      PartOccursInJoin(sep, parts[1..], i - 1);
      OccursWithin(parts[i], Join(sep, parts[1..]), parts[0] + sep, []);
      assert parts[0] + sep + Join(sep, parts[1..]) + [] == Join(sep, parts);
    }
  }

  /** The characters at which Python's `str.splitlines` breaks a line
      (`\r\n` counts as one break). */
  predicate IsLineBreak(c: char)
  {
    c == '\n' || c == '\r' || c == '\U{000B}' || c == '\U{000C}' || c == '\U{001C}' ||
    c == '\U{001D}' || c == '\U{001E}' || c == '\U{0085}' || c == '\U{2028}' || c == '\U{2029}'
  }

  /** The string holds no line break. */
  predicate IsSingleLine(s: string)
  {
    forall j :: 0 <= j < |s| ==> !IsLineBreak(s[j])
  }

  /** `text.splitlines()`: the lines of `text` without their breaks, where a break at
      the very end does not open an empty last line. */
  function SplitLines(text: string): (lines: seq<string>)
    ensures forall i :: 0 <= i < |lines| ==> IsSingleLine(lines[i])
  {
    SplitFrom(text, [])
  }

  /** The lines of `current + rest`, where `current` is the unfinished line read so far. */
  function SplitFrom(rest: string, current: string): (lines: seq<string>)
    requires IsSingleLine(current)
    ensures forall i :: 0 <= i < |lines| ==> IsSingleLine(lines[i])
    decreases |rest|
  {
    if rest == [] then (if current == [] then [] else [current])
    else if rest[0] == '\r' && |rest| > 1 && rest[1] == '\n' then [current] + SplitFrom(rest[2..], [])
    else if IsLineBreak(rest[0]) then [current] + SplitFrom(rest[1..], [])
    else SplitFrom(rest[1..], current + [rest[0]])
  }

  /** All lines, concatenated. */
  function Concat(lines: seq<string>): string
  {
    if lines == [] then "" else lines[0] + Concat(lines[1..])
  }

  /** `s` with its line breaks deleted. */
  function WithoutBreaks(s: string): string
  {
    if s == [] then "" else (if IsLineBreak(s[0]) then "" else [s[0]]) + WithoutBreaks(s[1..])
  }

  lemma ConcatCons(line: string, rest: seq<string>)
    ensures Concat([line] + rest) == line + Concat(rest)
  {
    assert ([line] + rest)[1..] == rest;
  }

  lemma {:induction false} SplitFromKeepsText(rest: string, current: string)
    requires IsSingleLine(current)
    ensures Concat(SplitFrom(rest, current)) == current + WithoutBreaks(rest)
    decreases |rest|
  {
    if rest == [] {
      if current != [] {
        ConcatCons(current, []);
      }
    } else if rest[0] == '\r' && |rest| > 1 && rest[1] == '\n' {
      var lines := SplitFrom(rest[2..], []);
      assert SplitFrom(rest, current) == [current] + lines;
      SplitFromKeepsText(rest[2..], []);
      ConcatCons(current, lines);
      assert rest[1..][1..] == rest[2..];
      assert WithoutBreaks(rest[1..]) == WithoutBreaks(rest[2..]);
      assert WithoutBreaks(rest) == WithoutBreaks(rest[1..]);
    } else if IsLineBreak(rest[0]) {
      var lines := SplitFrom(rest[1..], []);
      assert SplitFrom(rest, current) == [current] + lines;
      SplitFromKeepsText(rest[1..], []);
      ConcatCons(current, lines);
      assert WithoutBreaks(rest) == WithoutBreaks(rest[1..]);
    } else {
      assert SplitFrom(rest, current) == SplitFrom(rest[1..], current + [rest[0]]);
      SplitFromKeepsText(rest[1..], current + [rest[0]]);
      assert WithoutBreaks(rest) == [rest[0]] + WithoutBreaks(rest[1..]);
    }
  }

  /** Splitting loses nothing but the line breaks: the lines, put back together,
      are the text with its breaks deleted. */
  lemma SplitLinesKeepsText(text: string)
    ensures Concat(SplitLines(text)) == WithoutBreaks(text)
  {
    SplitFromKeepsText(text, []);
  }

  lemma {:induction false} SplitFromSkipsLine(line: string, rest: string, current: string)
    requires IsSingleLine(current) && IsSingleLine(line)
    ensures SplitFrom(line + rest, current) == SplitFrom(rest, current + line)
    decreases |line|
  {
    if line != [] {
      assert (line + rest)[0] == line[0];
      assert (line + rest)[1..] == line[1..] + rest;
      SplitFromSkipsLine(line[1..], rest, current + [line[0]]);
      assert current + [line[0]] + line[1..] == current + line;
    } else {
      assert line + rest == rest;
      assert current + line == current;
    }
  }

  /** Splitting undoes joining with "\n", for lines without breaks whose last line is
      not empty (an empty last line leaves only a trailing "\n", which opens no line). */
  lemma {:induction false} SplitLinesOfJoin(lines: seq<string>)
    requires forall i :: 0 <= i < |lines| ==> IsSingleLine(lines[i])
    requires lines != [] ==> lines[|lines| - 1] != ""
    ensures SplitLines(Join("\n", lines)) == lines
  {
    if |lines| == 1 {
      SplitFromSkipsLine(lines[0], [], []);
      assert lines[0] + [] == lines[0];
      assert [] + lines[0] == lines[0];
    } else if |lines| > 1 {
      var tail := Join("\n", lines[1..]);
      SplitFromSkipsLine(lines[0], "\n" + tail, []);
      assert Join("\n", lines) == lines[0] + ("\n" + tail);
      assert [] + lines[0] == lines[0];
      assert ("\n" + tail)[1..] == tail;
      SplitLinesOfJoin(lines[1..]);
      assert [lines[0]] + lines[1..] == lines;
    }
  }

  /** `t` occurs in `s` as a contiguous piece (Python's `t in s`). */
  predicate Occurs(t: string, s: string)
    decreases |s|
  {
    (|t| <= |s| && s[..|t|] == t) || (s != [] && Occurs(t, s[1..]))
  }

  /** A piece occurs in any string built around it. */
  lemma {:induction false} OccursIn(before: string, t: string, after: string)
    ensures Occurs(t, before + t + after)
    decreases |before|
  {
    if before == [] {
      assert (before + t + after)[..|t|] == t;
    } else {
      assert (before + t + after)[1..] == before[1..] + t + after;
      OccursIn(before[1..], t, after);
    }
  }

  /** What occurs in a piece occurs in any string built around that piece. */
  lemma {:induction false} OccursWithin(t: string, s: string, before: string, after: string)
    requires Occurs(t, s)
    ensures Occurs(t, before + s + after)
    decreases |s|
  {
    if |t| <= |s| && s[..|t|] == t {
      assert before + s + after == before + t + (s[|t|..] + after);
      OccursIn(before, t, s[|t|..] + after);
    } else {
      OccursWithin(t, s[1..], before + [s[0]], after);
      assert before + [s[0]] + s[1..] + after == before + s + after;
    }
  }
}
