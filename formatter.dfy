/** `format_line` (main.py:26-34): four rewrites of one extracted line, applied in
    order: wrap page references in parentheses, normalise the bullet, put a colon
    after the code that follows the bullet, collapse runs of spaces. Each regular
    expression is written out as a matcher over `seq<char>`. */
module Formatter {
  import opened Wrappers
  import opened Patterns

  /** The hollow bullet `○` (U+25CB) that the PDF text may carry. */
  const Hollow: char := '\U{25CB}'

  /** The solid bullet `●` (U+25CF) of the announcement. */
  const Solid: char := '\U{25CF}'

  /** `"\t● "`, prepended to a line that has no hollow bullet. */
  const Bullet: string := "\t\U{25CF} "

  /** `s` with every character of `cs` deleted. */
  function Drop(cs: set<char>, s: string): string
  {
    if s == [] then "" else (if s[0] in cs then "" else [s[0]]) + Drop(cs, s[1..])
  }

  lemma {:induction false} DropConcat(cs: set<char>, a: string, b: string)
    ensures Drop(cs, a + b) == Drop(cs, a) + Drop(cs, b)
  {
    if a == [] {
      assert a + b == b;
    } else {
      assert (a + b)[1..] == a[1..] + b;
      DropConcat(cs, a[1..], b);
    }
  }

  lemma {:induction false} DropKeeps(cs: set<char>, s: string, c: char)
    requires c !in cs
    ensures c in Drop(cs, s) <==> c in s
  {
    if s != [] {
      DropKeeps(cs, s[1..], c);
      assert s == [s[0]] + s[1..];
    }
  }

  // ---------------------------------------------------------------------------
  // Step 1 (main.py:28): r"(?i)(?<!\()P[aáÁ]g\.? \d+(-\d+)?(?!\))" -> "(\g<0>)"
  // ---------------------------------------------------------------------------

  /** `P` under `(?i)`. */
  predicate IsP(c: char) { c == 'P' || c == 'p' }

  /** `[aáÁ]` under `(?i)`. */
  predicate IsA(c: char) { c == 'a' || c == 'A' || c == '\U{00E1}' || c == '\U{00C1}' }

  /** `g` under `(?i)`. */
  predicate IsG(c: char) { c == 'g' || c == 'G' }

  /** The number of consecutive digits from index k. */
  function DigitRun(s: string, k: nat): (n: nat)
    ensures n == 0 || k + n <= |s|
    ensures forall j :: k <= j < k + n ==> IsDigit(s[j])
    ensures k + n < |s| ==> !IsDigit(s[k + n])
    decreases |s| - k
  {
    if k < |s| && IsDigit(s[k]) then 1 + DigitRun(s, k + 1) else 0
  }

  /** A `)` stands at index e, so the lookahead `(?!\))` fails there. */
  predicate Closes(s: string, e: nat)
  {
    e < |s| && s[e] == ')'
  }

  /** `\d+` spans exactly `s[a..b]`. */
  predicate Digits(s: string, a: nat, b: nat)
  {
    a < b <= |s| && forall t :: a <= t < b ==> IsDigit(s[t])
  }

  /** `\d+(-\d+)?` spans exactly `s[a..e]`. */
  predicate NumberOrRange(s: string, a: nat, e: nat)
  {
    Digits(s, a, e) ||
    exists m: nat :: a < m < e && Digits(s, a, m) && Digits(s, m + 1, e) && s[m] == '-'
  }

  /** `\d+(-\d+)?(?!\))` matches `s[a..e]`. */
  predicate NumberMatch(s: string, a: nat, e: nat)
  {
    NumberOrRange(s, a, e) && !Closes(s, e)
  }

  /** `(?<!\()P[aáÁ]g\.? ` matches from index i up to index k, where the number begins. */
  predicate HeadMatch(s: string, i: nat, k: nat)
  {
    i + 4 <= k <= |s| && IsP(s[i]) && IsA(s[i + 1]) && IsG(s[i + 2]) &&
    !(i > 0 && s[i - 1] == '(') &&
    ((k == i + 4 && s[i + 3] == ' ') || (k == i + 5 && s[i + 3] == '.' && s[i + 4] == ' '))
  }

  /** The page-reference expression matches `s[i..e]`, lookbehind and lookahead
      included: a case-insensitive `Pag`, an optional dot, one space, a page number
      or page range, not preceded by `(` and not followed by `)`. */
  predicate PageRefMatch(s: string, i: nat, e: nat)
  {
    (HeadMatch(s, i, i + 4) && NumberMatch(s, i + 4, e)) ||
    (HeadMatch(s, i, i + 5) && NumberMatch(s, i + 5, e))
  }

  /** Where the head of the expression, matched from index i, ends. The optional dot
      leaves no choice: with a dot at i + 3 the space can only come after it. */
  function HeadEnd(s: string, i: nat): (k: Option<nat>)
    ensures k.Some? ==> HeadMatch(s, i, k.value)
  {
    if !(i + 3 <= |s| && IsP(s[i]) && IsA(s[i + 1]) && IsG(s[i + 2])) then None
    else if i > 0 && s[i - 1] == '(' then None
    else if i + 4 < |s| && s[i + 3] == '.' && s[i + 4] == ' ' then Some(i + 5)
    else if i + 3 < |s| && s[i + 3] == ' ' then Some(i + 4)
    else None
  }

  /** The head matches at most one way, and the matcher finds it. */
  lemma HeadEndUnique(s: string, i: nat, k: nat)
    requires HeadMatch(s, i, k)
    ensures HeadEnd(s, i) == Some(k)
  {
  }

  /** Where the backtracking matcher ends `\d+(-\d+)?(?!\))` from index a. The
      greedy quantifiers try the longest digit runs first; when a `)` follows, they
      give back one digit, so "12)" matches as "1". */
  function NumberEnd(s: string, a: nat): (e: Option<nat>)
    ensures e.Some? ==> a < e.value <= |s|
  {
    var n := DigitRun(s, a);
    if n == 0 then None
    else
      var e := a + n;
      var n2 := if e < |s| && s[e] == '-' then DigitRun(s, e + 1) else 0;
      if n2 > 0 then
        (if !Closes(s, e + 1 + n2) then Some(e + 1 + n2)
         else if n2 > 1 then Some(e + n2)
         else Some(e))
      else if !Closes(s, e) then Some(e)
      else if n > 1 then Some(e - 1)
      else None
  }

  /** What the number matcher returns is a match. */
  lemma NumberEndSound(s: string, a: nat)
    ensures NumberEnd(s, a).Some? ==> NumberMatch(s, a, NumberEnd(s, a).value)
  {
    var r := NumberEnd(s, a);
    if r.Some? {
      var n := DigitRun(s, a);
      var e := a + n;
      var n2 := if e < |s| && s[e] == '-' then DigitRun(s, e + 1) else 0;
      if n2 > 0 && r.value != e {
        assert Digits(s, a, e);
        assert Digits(s, e + 1, r.value);
        assert NumberOrRange(s, a, r.value);
      } else {
        assert Digits(s, a, r.value);
      }
    }
  }

  /** The number matcher finds the longest match there is. */
  lemma NumberEndLongest(s: string, a: nat, e': nat)
    requires NumberMatch(s, a, e')
    ensures NumberEnd(s, a).Some? && e' <= NumberEnd(s, a).value
  {
    var n := DigitRun(s, a);
    var e := a + n;
    assert IsDigit(s[a]);
    assert n > 0;
    assert e < |s| ==> !IsDigit(s[e]);
    var n2 := if e < |s| && s[e] == '-' then DigitRun(s, e + 1) else 0;
    if Digits(s, a, e') {
      assert e' <= e;
      if n2 == 0 && e' < e {
        assert n > 1;
      }
    } else {
      var m: nat :| a < m < e' && Digits(s, a, m) && Digits(s, m + 1, e') && s[m] == '-';
      assert !IsDigit(s[m]);
      assert m <= e;
      assert m == e;
      assert IsDigit(s[e + 1]);
      assert n2 > 0;
      assert e + 1 + n2 < |s| ==> !IsDigit(s[e + 1 + n2]);
      assert e' <= e + 1 + n2;
    }
  }

  /** Where the page-reference matcher ends a match that starts at index i. */
  function PageRefEnd(s: string, i: nat): (e: Option<nat>)
    ensures e.Some? ==> i + 5 <= e.value <= |s|
  {
    match HeadEnd(s, i)
    case None => None
    case Some(k) => NumberEnd(s, k)
  }

  /** What the matcher returns is a match of the expression. */
  lemma PageRefEndSound(s: string, i: nat)
    ensures PageRefEnd(s, i).Some? ==> PageRefMatch(s, i, PageRefEnd(s, i).value)
  {
    if HeadEnd(s, i).Some? {
      NumberEndSound(s, HeadEnd(s, i).value);
    }
  }

  /** The matcher finds a match whenever the expression has one from index i, and
      the longest one: backtracking never settles for less than the longest match. */
  lemma PageRefEndLongest(s: string, i: nat, e': nat)
    requires PageRefMatch(s, i, e')
    ensures PageRefEnd(s, i).Some? && e' <= PageRefEnd(s, i).value
  {
    if HeadMatch(s, i, i + 4) && NumberMatch(s, i + 4, e') {
      HeadEndUnique(s, i, i + 4);
      NumberEndLongest(s, i + 4, e');
    } else {
      HeadEndUnique(s, i, i + 5);
      NumberEndLongest(s, i + 5, e');
    }
  }

  /** A reference right after `(` is never wrapped. */
  lemma OpenedRefNotWrapped(s: string, i: nat)
    requires 0 < i < |s| && s[i - 1] == '('
    ensures PageRefEnd(s, i) == None
  {
  }

  /** `re.sub` of the page-reference expression, scanning from index i of the
      original line: each match is wrapped in parentheses and the scan resumes
      where the match ended. */
  function WrapFrom(s: string, i: nat): string
    decreases |s| - i
  {
    if i >= |s| then ""
    else match PageRefEnd(s, i)
      case Some(e) => "(" + s[i..e] + ")" + WrapFrom(s, e)
      case None => [s[i]] + WrapFrom(s, i + 1)
  }

  /** Step 1 of `format_line`. */
  function WrapPageRefs(line: string): string
  {
    WrapFrom(line, 0)
  }

  /** One step of the scan where a reference starts: it is wrapped and the scan
      resumes after it. */
  lemma WrapFromMatched(s: string, i: nat)
    requires i < |s| && PageRefEnd(s, i).Some?
    ensures WrapFrom(s, i) == "(" + s[i..PageRefEnd(s, i).value] + ")" + WrapFrom(s, PageRefEnd(s, i).value)
  {
  }

  /** One step of the scan where no reference starts: the character is copied. */
  lemma WrapFromUnmatched(s: string, i: nat)
    requires i < |s| && PageRefEnd(s, i).None?
    ensures WrapFrom(s, i) == [s[i]] + WrapFrom(s, i + 1)
  {
  }

  /** A copied character leaves the comparison of the rest as it was. */
  lemma CopyStep(cs: set<char>, s: string, i: nat, w: string)
    requires i < |s| && Drop(cs, w) == Drop(cs, s[i + 1..])
    ensures Drop(cs, [s[i]] + w) == Drop(cs, s[i..])
  {
    DropConcat(cs, [s[i]], w);
    DropConcat(cs, [s[i]], s[i + 1..]);
    assert s[i..] == [s[i]] + s[i + 1..];
  }

  /** Text inserted around a piece, made only of deleted characters, leaves the
      comparison of the rest as it was. */
  lemma InsertedVanish(cs: set<char>, pre: string, x: string, post: string, w: string, t: string)
    requires Drop(cs, pre) == [] && Drop(cs, post) == [] && Drop(cs, w) == Drop(cs, t)
    ensures Drop(cs, pre + x + post + w) == Drop(cs, x + t)
  {
    DropConcat(cs, pre + x + post, w);
    DropConcat(cs, pre + x, post);
    DropConcat(cs, pre, x);
    DropConcat(cs, x, t);
  }

  /** Parentheses around a piece vanish once parentheses are deleted. */
  lemma ParensStep(s: string, i: nat, e: nat, w: string)
    requires i <= e <= |s| && Drop({'(', ')'}, w) == Drop({'(', ')'}, s[e..])
    ensures Drop({'(', ')'}, "(" + s[i..e] + ")" + w) == Drop({'(', ')'}, s[i..])
  {
    var cs := {'(', ')'};
    assert Drop(cs, "(") == [] && Drop(cs, ")") == [];
    InsertedVanish(cs, "(", s[i..e], ")", w, s[e..]);
    assert s[i..] == s[i..e] + s[e..];
  }

  /** Step 1 only adds parentheses: deleting all parentheses from its input and
      from its output gives the same string. */
  lemma {:induction false} WrapOnlyAddsParens(s: string, i: nat)
    requires i <= |s|
    ensures Drop({'(', ')'}, WrapFrom(s, i)) == Drop({'(', ')'}, s[i..])
    decreases |s| - i
  {
    if i < |s| {
      match PageRefEnd(s, i)
      case Some(e) =>
        WrapFromMatched(s, i);
        WrapOnlyAddsParens(s, e);
        ParensStep(s, i, e, WrapFrom(s, e));
      case None =>
        WrapFromUnmatched(s, i);
        WrapOnlyAddsParens(s, i + 1);
        CopyStep({'(', ')'}, s, i, WrapFrom(s, i + 1));
    } else {
      assert s[i..] == [];
    }
  }

  /** A slice is its first element followed by the rest. */
  lemma ConsSlice<T>(s: seq<T>, i: nat, n: nat)
    requires i < n <= |s|
    ensures s[i..n] == [s[i]] + s[i + 1..n]
  {
  }

  /** Concatenation is associative. */
  lemma ConcatAssoc<T>(a: seq<T>, b: seq<T>, c: seq<T>)
    ensures a + (b + c) == (a + b) + c
  {
  }

  /** Concatenation after a single element is associative. */
  lemma ConsAssoc<T>(x: T, a: seq<T>, b: seq<T>)
    ensures [x] + (a + b) == ([x] + a) + b
  {
  }

  /** Where nothing matches, step 1 copies the line. */
  lemma {:induction false} WrapCopiesUnmatched(s: string, i: nat, n: nat)
    requires i <= n <= |s|
    requires forall j :: i <= j < n ==> PageRefEnd(s, j).None?
    ensures WrapFrom(s, i) == s[i..n] + WrapFrom(s, n)
    decreases n - i
  {
    if i < n {
      WrapFromUnmatched(s, i);
      WrapCopiesUnmatched(s, i + 1, n);
      ConsSlice(s, i, n);
      ConsAssoc(s[i], s[i + 1..n], WrapFrom(s, n));
    }
  }

  /** A bare reference is wrapped. */
  lemma WrapExample(s: string)
    requires s == "Pag 5"
    ensures WrapPageRefs(s) == "(" + s + ")"
  {
    assert |s| == 5 && s[3] == ' ';
    assert HeadEnd(s, 0) == Some(4);
    assert DigitRun(s, 5) == 0;
    assert DigitRun(s, 4) == 1;
    assert PageRefEnd(s, 0) == Some(5);
    WrapFromMatched(s, 0);
    assert WrapFrom(s, 5) == "";
    assert s[0..5] == s;
  }

  /** A reference already in parentheses is left alone. */
  lemma WrapLeavesWrapped(s: string)
    requires s == "(Pag 5)"
    ensures WrapPageRefs(s) == s
  {
    assert |s| == 7 && s[0] == '(';
    assert forall j :: 2 <= j < 7 ==> !IsP(s[j]);
    assert HeadEnd(s, 1) == None;
    WrapCopiesUnmatched(s, 0, 7);
    assert WrapFrom(s, 7) == "";
    assert s[0..7] == s;
  }

  /** An accented, dotted page range is wrapped whole. */
  lemma WrapRangeExample(s: string)
    requires s == "P\U{00E1}g. 12-13"
    ensures WrapPageRefs(s) == "(" + s + ")"
  {
    assert |s| == 10 && s[3] == '.' && s[4] == ' ' && s[7] == '-';
    assert HeadEnd(s, 0) == Some(5);
    assert DigitRun(s, 10) == 0;
    assert DigitRun(s, 9) == 1;
    assert DigitRun(s, 8) == 2;
    assert DigitRun(s, 6) == 1;
    assert DigitRun(s, 5) == 2;
    assert NumberEnd(s, 5) == Some(10);
    assert PageRefEnd(s, 0) == Some(10);
    WrapFromMatched(s, 0);
    assert WrapFrom(s, 10) == "";
    assert s[0..10] == s;
  }

  /** Before a closing parenthesis the digit run backtracks by one digit, so the
      reference is split rather than left alone. */
  lemma WrapBacktrackingExample(s: string)
    requires s == "Pag 12)"
    ensures WrapPageRefs(s) == "(Pag 1)2)"
  {
    assert |s| == 7 && s[3] == ' ' && s[6] == ')';
    assert HeadEnd(s, 0) == Some(4);
    assert DigitRun(s, 6) == 0;
    assert DigitRun(s, 5) == 1;
    assert DigitRun(s, 4) == 2;
    assert NumberEnd(s, 4) == Some(5);
    assert PageRefEnd(s, 0) == Some(5);
    WrapFromMatched(s, 0);
    assert !IsP(s[5]) && !IsP(s[6]);
    WrapCopiesUnmatched(s, 5, 7);
    assert WrapFrom(s, 7) == "";
    assert s[0..5] == "Pag 1" && s[5..7] == "2)";
  }

  // ---------------------------------------------------------------------------
  // Step 2 (main.py:30): swap "○" for "\t●", or prepend "\t● "
  // ---------------------------------------------------------------------------

  /** `line.replace("○", "\t●")`. */
  function ReplaceHollow(s: string): (r: string)
    ensures Hollow !in r
  {
    if s == [] then ""
    else (if s[0] == Hollow then "\t" + [Solid] else [s[0]]) + ReplaceHollow(s[1..])
  }

  /** Apart from bullets and tabs, the replacement changes nothing. */
  lemma {:induction false} ReplaceHollowKeepsText(s: string)
    ensures Drop({'\t', Solid}, ReplaceHollow(s)) == Drop({'\t', Solid, Hollow}, s)
  {
    if s != [] {
      var head := if s[0] == Hollow then "\t" + [Solid] else [s[0]];
      ReplaceHollowKeepsText(s[1..]);
      DropConcat({'\t', Solid}, head, ReplaceHollow(s[1..]));
    }
  }

  /** The replacement works character by character: it distributes over `+`,
      turns ○ into "\t●" and keeps every other character. */
  lemma {:induction false} ReplaceHollowConcat(a: string, b: string)
    ensures ReplaceHollow(a + b) == ReplaceHollow(a) + ReplaceHollow(b)
    ensures ReplaceHollow([Hollow]) == "\t" + [Solid]
    ensures forall c :: c != Hollow ==> ReplaceHollow([c]) == [c]
  {
    ReplaceHollowSplits(a, b);
  }

  /** The replacement distributes over `+`. */
  lemma {:induction false} ReplaceHollowSplits(a: string, b: string)
    ensures ReplaceHollow(a + b) == ReplaceHollow(a) + ReplaceHollow(b)
  {
    if a != [] {
      var head := if a[0] == Hollow then "\t" + [Solid] else [a[0]];
      assert (a + b)[0] == a[0] && (a + b)[1..] == a[1..] + b;
      ReplaceHollowSplits(a[1..], b);
      assert ReplaceHollow(a + b) == head + ReplaceHollow(a[1..] + b);
      assert ReplaceHollow(a) == head + ReplaceHollow(a[1..]);
      ConcatAssoc(head, ReplaceHollow(a[1..]), ReplaceHollow(b));
    } else {
      assert a + b == b;
    }
  }

  /** A text without a hollow bullet is left as it is by the replacement. */
  lemma {:induction false} ReplaceHollowKeepsPlain(s: string)
    requires Hollow !in s
    ensures ReplaceHollow(s) == s
  {
    if s != [] {
      ReplaceHollowKeepsPlain(s[1..]);
    }
  }

  /** Step 2 of `format_line`. */
  function NormalizeBullet(s: string): (r: string)
    ensures Hollow !in r
    ensures Hollow !in s ==> r == Bullet + s
  {
    if Hollow in s then ReplaceHollow(s) else Bullet + s
  }

  // ---------------------------------------------------------------------------
  // Step 3 (main.py:32): r"(● (LE..|GC..))(?!:)" -> r"\1:"
  // ---------------------------------------------------------------------------

  /** The colon expression matches the six characters from index i: the solid
      bullet, a space, a `LE..`/`GC..` code, and no colon after it. */
  predicate MarkerAt(s: string, i: nat)
  {
    i + 6 <= |s| && s[i] == Solid && s[i + 1] == ' ' && CodeAt(s, i + 2) &&
    !(i + 6 < |s| && s[i + 6] == ':')
  }

  /** `re.sub` of the colon expression, scanning from index i. */
  function ColonFrom(s: string, i: nat): string
    decreases |s| - i
  {
    if i >= |s| then ""
    else if MarkerAt(s, i) then s[i..i + 6] + ":" + ColonFrom(s, i + 6)
    else [s[i]] + ColonFrom(s, i + 1)
  }

  /** Step 3 of `format_line`. */
  function InsertColons(s: string): string
  {
    ColonFrom(s, 0)
  }

  /** Step 3 only adds colons. */
  lemma {:induction false} ColonsOnlyAdded(s: string, i: nat)
    requires i <= |s|
    ensures Drop({':'}, ColonFrom(s, i)) == Drop({':'}, s[i..])
    decreases |s| - i
  {
    if i < |s| {
      if MarkerAt(s, i) {
        ColonsOnlyAdded(s, i + 6);
        ColonStep(s, i, ColonFrom(s, i + 6));
      } else {
        ColonsOnlyAdded(s, i + 1);
        CopyStep({':'}, s, i, ColonFrom(s, i + 1));
      }
    } else {
      assert s[i..] == [];
    }
  }

  /** An inserted colon vanishes once colons are deleted. */
  lemma ColonStep(s: string, i: nat, w: string)
    requires i + 6 <= |s| && Drop({':'}, w) == Drop({':'}, s[i + 6..])
    ensures Drop({':'}, s[i..i + 6] + ":" + w) == Drop({':'}, s[i..])
  {
    var cs := {':'};
    assert Drop(cs, ":") == [] && Drop(cs, []) == [];
    InsertedVanish(cs, [], s[i..i + 6], ":", w, s[i + 6..]);
    assert [] + s[i..i + 6] == s[i..i + 6];
    assert s[i..] == s[i..i + 6] + s[i + 6..];
  }

  /** The output of the scan from index i begins with the two characters there. */
  lemma ColonFromHead(s: string, i: nat)
    requires i + 1 < |s|
    ensures |ColonFrom(s, i)| >= 2 && ColonFrom(s, i)[..2] == s[i..i + 2]
  {
    if !MarkerAt(s, i) {
      assert ColonFrom(s, i + 1)[0] == s[i + 1];
    }
  }

  /** Without a marker from index i on, the rest of the text is copied as it is. */
  lemma {:induction false} ColonCopiesUnmarked(s: string, i: nat)
    requires i <= |s|
    requires forall j :: i <= j < |s| ==> !MarkerAt(s, j)
    ensures ColonFrom(s, i) == s[i..]
    decreases |s| - i
  {
    if i < |s| {
      ColonCopiesUnmarked(s, i + 1);
      assert s[i..] == [s[i]] + s[i + 1..];
    }
  }

  /** The scan from index k copies the (at most six) characters there as they are,
      and never shortens the text. */
  lemma {:induction false} ColonFromPrefix(s: string, k: nat)
    requires k <= |s|
    ensures |ColonFrom(s, k)| >= |s| - k
    ensures forall m :: 0 <= m < 6 && k + m < |s| ==> ColonFrom(s, k)[m] == s[k + m]
    decreases |s| - k
  {
    if k < |s| {
      if MarkerAt(s, k) {
        ColonFromPrefix(s, k + 6);
      } else {
        ColonFromPrefix(s, k + 1);
      }
    }
  }

  /** A marker only depends on the text from its own index on. */
  lemma MarkerShift(a: string, b: string, j: nat)
    ensures MarkerAt(a + b, |a| + j) == MarkerAt(b, j)
  {
    if j + 6 <= |b| {
      assert forall m :: j <= m < |b| ==> (a + b)[|a| + m] == b[m];
    }
  }

  /** Scanning a text that has fewer than six characters from index k copies it. */
  lemma ShortTailCopied(s: string, k: nat)
    requires k <= |s| < k + 6
    ensures ColonFrom(s, k) == s[k..]
  {
    ColonCopiesUnmarked(s, k);
  }

  /** Whether a marker starts at index 0 depends on the first seven characters
      alone, once there are seven. */
  lemma MarkerOfWindow(u: string, v: string)
    requires |u| >= 7 && |v| >= 7
    requires u[0] == v[0] && u[1] == v[1] && u[2] == v[2] && u[3] == v[3]
    requires u[4] == v[4] && u[5] == v[5] && u[6] == v[6]
    ensures MarkerAt(u, 0) == MarkerAt(v, 0)
  {
  }

  /** A copied character starts no marker in the output either: the following
      six characters come out as they went in. */
  lemma CopiedStartsNoMarker(s: string, i: nat)
    requires i < |s| && !MarkerAt(s, i)
    ensures !MarkerAt([s[i]] + ColonFrom(s, i + 1), 0)
  {
    MarkerShift(s[..i], s[i..], 0);
    assert s[..i] + s[i..] == s;
    if |s| < i + 7 {
      ShortTailCopied(s, i + 1);
      assert [s[i]] + s[i + 1..] == s[i..];
    } else {
      var r := ColonFrom(s, i + 1);
      ColonFromPrefix(s, i + 1);
      var out := [s[i]] + r;
      var t := s[i..];
      assert out[0] == t[0] && out[1] == r[0] == t[1] && out[2] == r[1] == t[2];
      assert out[3] == r[2] == t[3] && out[4] == r[3] == t[4];
      assert out[5] == r[4] == t[5] && out[6] == r[5] == t[6];
      MarkerOfWindow(out, t);
    }
  }

  /** A marker's output, its six characters and then a colon, ends no marker
      inside it, and starts none in the text that follows. */
  lemma MatchedStartsNoMarker(s: string, i: nat, r: string, j: nat)
    requires MarkerAt(s, i) && j < 7
    requires forall k: nat :: !MarkerAt(r, k)
    ensures !MarkerAt(s[i..i + 6] + ":" + r, j)
  {
    var out := s[i..i + 6] + ":" + r;
    assert out[6] == ':';
    assert forall m :: 0 <= m < 6 ==> out[m] == s[i + m];
  }

  /** After step 3, no bullet-and-code marker lacks its colon. */
  lemma {:induction false} ColonsEnsuredFrom(s: string, i: nat)
    requires i <= |s|
    ensures forall j: nat :: !MarkerAt(ColonFrom(s, i), j)
    decreases |s| - i
  {
    if i < |s| {
      if MarkerAt(s, i) {
        var r := ColonFrom(s, i + 6);
        var head := s[i..i + 6] + ":";
        ColonsEnsuredFrom(s, i + 6);
        forall j: nat ensures !MarkerAt(head + r, j) {
          if j < 7 {
            MatchedStartsNoMarker(s, i, r, j);
          } else {
            MarkerShift(head, r, j - 7);
          }
        }
      } else {
        var r := ColonFrom(s, i + 1);
        ColonsEnsuredFrom(s, i + 1);
        forall j: nat ensures !MarkerAt([s[i]] + r, j) {
          if j == 0 {
            CopiedStartsNoMarker(s, i);
          } else {
            MarkerShift([s[i]], r, j - 1);
          }
        }
      }
    }
  }

  /** Step 3 leaves every bullet-and-code marker followed by a colon. */
  lemma ColonsEnsured(s: string)
    ensures forall j: nat :: !MarkerAt(InsertColons(s), j)
  {
    ColonsEnsuredFrom(s, 0);
  }

  /** A code after the bullet gets its colon. */
  lemma ColonAddedExample()
    ensures InsertColons("\t\U{25CF} LECB x") == "\t\U{25CF} LECB: x"
  {
    var s := "\t\U{25CF} LECB x";
    assert MarkerAt(s, 1);
    assert s[1..7] == "\U{25CF} LECB";
    assert ColonFrom(s, 7) == " x";
  }

  /** A code that already has its colon is left alone. */
  lemma ColonKeptExample()
    ensures InsertColons("\t\U{25CF} LECB: x") == "\t\U{25CF} LECB: x"
  {
    var s := "\t\U{25CF} LECB: x";
    assert s[7] == ':' && !MarkerAt(s, 1);
    assert forall i :: 2 <= i < |s| ==> s[i] != Solid;
    ColonCopiesUnmarked(s, 0);
    assert s[0..] == s;
  }

  // ---------------------------------------------------------------------------
  // Step 4 (main.py:34): r" +" -> " "
  // ---------------------------------------------------------------------------

  /** No two consecutive spaces. */
  predicate NoDoubleSpace(s: string)
  {
    forall i :: 0 < i < |s| ==> !(s[i - 1] == ' ' && s[i] == ' ')
  }

  /** Step 4 of `format_line`: every run of spaces becomes one space. */
  function CollapseSpaces(s: string): (r: string)
    ensures NoDoubleSpace(r)
    ensures s != [] ==> r != [] && r[0] == s[0]
  {
    if |s| <= 1 then s
    else if s[0] == ' ' && s[1] == ' ' then CollapseSpaces(s[1..])
    else [s[0]] + CollapseSpaces(s[1..])
  }

  /** Collapsing deletes spaces only. */
  lemma {:induction false} CollapseOnlyDropsSpaces(s: string)
    ensures Drop({' '}, CollapseSpaces(s)) == Drop({' '}, s)
  {
    if |s| > 1 {
      CollapseOnlyDropsSpaces(s[1..]);
      DropConcat({' '}, [s[0]], CollapseSpaces(s[1..]));
      assert s == [s[0]] + s[1..];
      DropConcat({' '}, [s[0]], s[1..]);
    }
  }

  /** Collapsing leaves a string alone exactly when it has no double space, so
      applying it twice is the same as applying it once. */
  lemma {:induction false} CollapseFixesExactlySingleSpaced(s: string)
    ensures CollapseSpaces(s) == s <==> NoDoubleSpace(s)
  {
    if |s| > 1 && NoDoubleSpace(s) {
      assert !(s[0] == ' ' && s[1] == ' ');
      assert NoDoubleSpace(s[1..]) by {
        forall i | 0 < i < |s[1..]| ensures !(s[1..][i - 1] == ' ' && s[1..][i] == ' ') {
          assert s[1..][i - 1] == s[i] && s[1..][i] == s[i + 1];
        }
      }
      CollapseFixesExactlySingleSpaced(s[1..]);
      assert s == [s[0]] + s[1..];
    }
  }

  /** Collapsing keeps a prefix that has no double space. */
  lemma {:induction false} CollapseKeepsPrefix(p: string, q: string)
    requires NoDoubleSpace(p)
    ensures |CollapseSpaces(p + q)| >= |p| && CollapseSpaces(p + q)[..|p|] == p
  {
    if |p| > 0 {
      var s := p + q;
      if |s| > 1 {
        if |p| == 1 {
          assert CollapseSpaces(s)[0] == s[0];
        } else {
          assert s[0] == p[0] && s[1] == p[1];
          assert !(p[0] == ' ' && p[1] == ' ');
          assert NoDoubleSpace(p[1..]) by {
            forall i | 0 < i < |p[1..]| ensures !(p[1..][i - 1] == ' ' && p[1..][i] == ' ') {
              assert p[1..][i - 1] == p[i] && p[1..][i] == p[i + 1];
            }
          }
          assert s[1..] == p[1..] + q;
          CollapseKeepsPrefix(p[1..], q);
          assert CollapseSpaces(s) == [s[0]] + CollapseSpaces(s[1..]);
        }
      }
    }
  }

  /** Only spaces. */
  predicate AllSpaces(run: string)
  {
    forall i :: 0 <= i < |run| ==> run[i] == ' '
  }

  /** A run of spaces before a non-space becomes one space. */
  lemma {:induction false} RunCollapses(run: string, b: string)
    requires run != [] && AllSpaces(run)
    requires b == [] || b[0] != ' '
    ensures CollapseSpaces(run + b) == " " + CollapseSpaces(b)
    decreases |run|
  {
    var s := run + b;
    if |run| == 1 {
      assert s == " " + b;
      if b != [] {
        assert s[1..] == b;
      }
    } else {
      assert s[0] == ' ' && s[1] == ' ';
      assert s[1..] == run[1..] + b;
      RunCollapses(run[1..], b);
    }
  }

  /** One step of step 4: a space followed by a space is dropped, any other
      character is kept. */
  lemma CollapseCons(x: char, t: string)
    ensures CollapseSpaces([x] + t) ==
      if t != [] && x == ' ' && t[0] == ' ' then CollapseSpaces(t) else [x] + CollapseSpaces(t)
  {
    assert ([x] + t)[1..] == t;
  }

  /** Every run of spaces between two other characters becomes exactly one space:
      the words on either side are collapsed on their own and kept apart. */
  lemma {:induction false} CollapseRun(a: string, run: string, b: string)
    requires run != [] && AllSpaces(run)
    requires a == [] || a[|a| - 1] != ' '
    requires b == [] || b[0] != ' '
    ensures CollapseSpaces(a + run + b) == CollapseSpaces(a) + " " + CollapseSpaces(b)
    decreases |a|
  {
    if a == [] {
      assert a + run + b == run + b;
      RunCollapses(run, b);
    } else {
      var t := a[1..] + run + b;
      assert a + run + b == [a[0]] + t;
      assert a == [a[0]] + a[1..];
      CollapseRun(a[1..], run, b);
      var x, y := CollapseSpaces(a[1..]), CollapseSpaces(b);
      CollapseCons(a[0], t);
      CollapseCons(a[0], a[1..]);
      if a[1..] != [] && a[0] == ' ' && a[1] == ' ' {
        assert t[0] == ' ';
      } else {
        assert !(a[0] == ' ' && t[0] == ' ');
        ConsAssoc(a[0], x + " ", y);
        ConsAssoc(a[0], x, " ");
      }
    }
  }

  // ---------------------------------------------------------------------------
  // format_line
  // ---------------------------------------------------------------------------

  /** `format_line(line)` (main.py:26-34). */
  function FormatLine(line: string): string
  {
    CollapseSpaces(InsertColons(NormalizeBullet(WrapPageRefs(line))))
  }

  /** Characters other than parentheses, colons and spaces are never introduced by
      steps 1, 3 and 4. */
  lemma StepsKeepAbsent(c: char, s: string)
    requires c != '(' && c != ')' && c != ':' && c != ' '
    ensures c !in s ==> c !in WrapPageRefs(s)
    ensures c !in s ==> c !in InsertColons(s)
    ensures c !in s ==> c !in CollapseSpaces(s)
  {
    WrapOnlyAddsParens(s, 0);
    DropKeeps({'(', ')'}, WrapPageRefs(s), c);
    DropKeeps({'(', ')'}, s, c);
    ColonsOnlyAdded(s, 0);
    DropKeeps({':'}, InsertColons(s), c);
    DropKeeps({':'}, s, c);
    CollapseOnlyDropsSpaces(s);
    DropKeeps({' '}, CollapseSpaces(s), c);
    DropKeeps({' '}, s, c);
    assert s[0..] == s;
  }

  /** The shape of every formatted line: no hollow bullet, no double space, and a
      leading "\t● " when the raw line had no hollow bullet. */
  lemma FormatLineShape(line: string)
    ensures Hollow !in FormatLine(line)
    ensures NoDoubleSpace(FormatLine(line))
    ensures Hollow !in line ==> |FormatLine(line)| >= 3 && FormatLine(line)[..3] == Bullet
  {
    var w := WrapPageRefs(line);
    var b := NormalizeBullet(w);
    var c := InsertColons(b);
    StepsKeepAbsent(Hollow, b);
    StepsKeepAbsent(Hollow, c);
    if Hollow !in line {
      StepsKeepAbsent(Hollow, line);
      assert b == Bullet + w;
      assert !MarkerAt(b, 0);
      assert c == [b[0]] + ColonFrom(b, 1);
      ColonFromHead(b, 1);
      assert c[..3] == Bullet;
      assert NoDoubleSpace(Bullet);
      CollapseKeepsPrefix(Bullet, c[3..]);
      assert Bullet + c[3..] == c;
    }
  }

  /** The characters that steps 1, 3 and 4 add or delete. */
  const Punctuation: set<char> := {'(', ')', ':', ' '}

  /** Deleting a smaller set first changes nothing once the larger set is deleted. */
  lemma {:induction false} DropAbsorbs(a: set<char>, b: set<char>, s: string)
    requires a <= b
    ensures Drop(b, Drop(a, s)) == Drop(b, s)
  {
    if s != [] {
      DropAbsorbs(a, b, s[1..]);
      DropConcat(b, if s[0] in a then "" else [s[0]], Drop(a, s[1..]));
    }
  }

  /** Texts that agree once a set is deleted agree once a larger set is deleted. */
  lemma DropAgrees(a: set<char>, b: set<char>, s: string, t: string)
    requires a <= b && Drop(a, s) == Drop(a, t)
    ensures Drop(b, s) == Drop(b, t)
  {
    DropAbsorbs(a, b, s);
    DropAbsorbs(a, b, t);
  }

  /** Punctuation together with the tab and both bullets. */
  const Marks: set<char> := Punctuation + {'\t', Solid, Hollow}

  /** Steps 1, 3 and 4 only add or delete punctuation. */
  lemma PunctuationSteps(line: string)
    ensures Drop(Punctuation, WrapPageRefs(line)) == Drop(Punctuation, line)
    ensures Drop(Punctuation, FormatLine(line)) == Drop(Punctuation, NormalizeBullet(WrapPageRefs(line)))
  {
    var w := WrapPageRefs(line);
    var b := NormalizeBullet(w);
    var c := InsertColons(b);
    WrapOnlyAddsParens(line, 0);
    assert line[0..] == line;
    DropAgrees({'(', ')'}, Punctuation, w, line);
    ColonsOnlyAdded(b, 0);
    assert b[0..] == b;
    DropAgrees({':'}, Punctuation, c, b);
    CollapseOnlyDropsSpaces(c);
    DropAgrees({' '}, Punctuation, CollapseSpaces(c), c);
  }

  /** Step 2 adds the bullet and the tab, or turns hollow bullets into them. */
  lemma BulletStep(w: string)
    ensures Hollow !in w ==> Drop(Punctuation, NormalizeBullet(w)) == ['\t', Solid] + Drop(Punctuation, w)
    ensures Drop(Marks, NormalizeBullet(w)) == Drop(Marks, w)
  {
    if Hollow in w {
      ReplaceHollowKeepsText(w);
      DropAbsorbs({'\t', Solid}, Marks, ReplaceHollow(w));
      DropAbsorbs({'\t', Solid, Hollow}, Marks, w);
    } else {
      DropConcat(Punctuation, Bullet, w);
      DropConcat(Marks, Bullet, w);
      assert Drop(Punctuation, Bullet) == ['\t', Solid];
      assert '\t' in Marks && Solid in Marks && ' ' in Marks;
      assert Drop(Marks, [' ']) == "" by { assert [' '][1..] == []; }
      assert Drop(Marks, [Solid, ' ']) == "" by { assert [Solid, ' '][1..] == [' ']; }
      assert Drop(Marks, Bullet) == "" by { assert Bullet[1..] == [Solid, ' ']; }
    }
  }

  /** `format_line` keeps the text of the line, in order: it only adds the bullet,
      parentheses and colons, and changes spaces; a line without a hollow bullet
      gains exactly "\t●" once the punctuation is set aside. */
  lemma FormatLineKeepsText(line: string)
    ensures Hollow !in line ==> Drop(Punctuation, FormatLine(line)) == ['\t', Solid] + Drop(Punctuation, line)
    ensures Drop(Marks, FormatLine(line)) == Drop(Marks, line)
  {
    var w := WrapPageRefs(line);
    PunctuationSteps(line);
    BulletStep(w);
    DropAgrees(Punctuation, Marks, FormatLine(line), NormalizeBullet(w));
    DropAgrees(Punctuation, Marks, w, line);
    if Hollow !in line {
      StepsKeepAbsent(Hollow, line);
    }
  }

  /** A line without a `P` or `p` holds no page reference, and step 1 leaves it
      as it is. */
  lemma WithoutPagesUnwrapped(s: string)
    requires forall j :: 0 <= j < |s| ==> !IsP(s[j])
    ensures WrapPageRefs(s) == s
  {
    forall j | 0 <= j < |s| ensures PageRefEnd(s, j).None? {
    }
    WrapCopiesUnmatched(s, 0, |s|);
    assert s[0..] == s;
  }

  /** A bullet followed by two spaces is no marker, so step 3 adds no colon. */
  lemma DoubleSpaceNoColon(c: string)
    requires forall j :: 0 <= j < |c| ==> c[j] != Solid
    ensures InsertColons(['\t', Solid] + ([' ', ' '] + c)) == ['\t', Solid] + ([' ', ' '] + c)
  {
    var b := ['\t', Solid] + ([' ', ' '] + c);
    assert forall j :: 0 <= j < |b| && j != 1 ==> b[j] != Solid;
    assert b[3] == ' ' && !MarkerAt(b, 1);
    ColonCopiesUnmarked(b, 0);
    assert b[0..] == b;
  }

  /** Two spaces before a text that is already single-spaced collapse to one. */
  lemma TwoSpacesCollapse(c: string)
    requires c != [] && c[0] != ' ' && NoDoubleSpace(c)
    ensures CollapseSpaces([' ', ' '] + c) == [' '] + c
  {
    RunCollapses([' ', ' '], c);
    CollapseFixesExactlySingleSpaced(c);
  }

  /** The tab and the bullet in front pass through step 4 unchanged. */
  lemma BulletPrefixKept(x: string)
    ensures CollapseSpaces(['\t', Solid] + x) == ['\t', Solid] + CollapseSpaces(x)
  {
    CollapseCons(Solid, x);
    CollapseCons('\t', [Solid] + x);
    assert ['\t', Solid] + x == ['\t'] + ([Solid] + x);
  }

  /** Steps 1 and 2 on a hollow bullet, two spaces and a text without `P`, `p` or
      bullets: nothing is wrapped, and the hollow bullet becomes "\t●". */
  lemma HollowThenSpaces(c: string)
    requires forall j :: 0 <= j < |c| ==> c[j] != Hollow && c[j] != Solid && !IsP(c[j])
    ensures NormalizeBullet(WrapPageRefs([Hollow] + ([' ', ' '] + c))) == ['\t', Solid] + ([' ', ' '] + c)
  {
    var rest := [' ', ' '] + c;
    var line := [Hollow] + rest;
    assert forall j :: 0 <= j < |line| ==> !IsP(line[j]) by {
      assert forall j :: 3 <= j < |line| ==> line[j] == c[j - 3];
    }
    WithoutPagesUnwrapped(line);
    assert Hollow in line && Hollow !in rest by {
      assert line[0] == Hollow;
      assert forall j :: 2 <= j < |rest| ==> rest[j] == c[j - 2];
    }
    ReplaceHollowConcat([Hollow], rest);
    ReplaceHollowKeepsPlain(rest);
  }

  /** The colon step runs before spaces are collapsed: after a hollow bullet and
      two spaces, whatever follows (a code included) gets no colon, and the two
      spaces then collapse to one. */
  lemma ColonBlockedByDoubleSpace(c: string)
    requires c != [] && c[0] != ' ' && NoDoubleSpace(c)
    requires forall j :: 0 <= j < |c| ==> c[j] != Hollow && c[j] != Solid && !IsP(c[j])
    ensures FormatLine([Hollow] + ([' ', ' '] + c)) == ['\t', Solid] + ([' '] + c)
  {
    HollowThenSpaces(c);
    DoubleSpaceNoColon(c);
    BulletPrefixKept([' ', ' '] + c);
    TwoSpacesCollapse(c);
  }

  /** The example of main.py's step order: "○  LECS x" loses its second space
      but never gets its colon. */
  lemma DoubleSpaceBlocksColon(line: string)
    requires line == "\U{25CB}  LECS x"
    ensures FormatLine(line) == "\t\U{25CF} LECS x"
  {
    var c := line[3..];
    assert line == [Hollow] + ([' ', ' '] + c);
    assert c == "LECS x";
    assert NoDoubleSpace(c) by {
      assert forall j :: 0 <= j < |c| && j != 4 ==> c[j] != ' ';
    }
    ColonBlockedByDoubleSpace(c);
    assert ['\t', Solid] + ([' '] + c) == "\t\U{25CF} LECS x";
  }

  /** Formatting a formatted line changes it again: the second pass prepends one
      more bullet, since it only looks for the hollow one. */
  lemma FormatLineNotIdempotent(line: string)
    ensures FormatLine(FormatLine(line)) != FormatLine(line)
  {
    var f := FormatLine(line);
    FormatLineShape(line);
    FormatLineKeepsText(f);
    assert |Drop(Punctuation, FormatLine(f))| == 2 + |Drop(Punctuation, f)|;
  }
}
