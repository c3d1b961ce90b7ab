/** The two checks `main` applies to the operator's input before it reads the PDF
    and writes the announcement: the cycle number (main.py:109) and the amendment's
    download link (main.py:117). */
module Boundary {
  import opened Patterns

  /** `s.isdigit()`: at least one character, and every character a digit. */
  predicate IsDigitString(s: string)
  {
    |s| > 0 && forall i :: 0 <= i < |s| ==> IsDigit(s[i])
  }

  /** The cycle check as written (main.py:109): the program exits only when the
      input is not numeric AND its length is not four. */
  predicate CycleRejected(airac: string)
  {
    !IsDigitString(airac) && |airac| != 4
  }

  /** The check lets through numbers of any length and any four characters. */
  lemma CycleCheckLetsThrough()
    ensures !CycleRejected("12") && !CycleRejected("123456") && !CycleRejected("abcd")
    ensures CycleRejected("") && CycleRejected("abc")
    ensures !IntendedCycleOk("12") && !IntendedCycleOk("abcd")
  {
    assert !IsDigit('a');
    assert "abc"[0] == 'a' && "abcd"[0] == 'a';
  }

  /** The cycle check that was evidently meant: exactly four digits. */
  predicate IntendedCycleOk(airac: string)
  {
    |airac| == 4 && IsDigitString(airac)
  }

  /** The digit character for 0 <= d < 10. */
  function DigitChar(d: nat): (c: char)
    requires d < 10
    ensures IsDigit(c)
  {
    (48 + d) as char
  }

  /** The value of a digit character. */
  function DigitValue(c: char): (d: nat)
    requires IsDigit(c)
    ensures d < 10 && DigitChar(d) == c
  {
    (c as int - 48) as nat
  }

  /** The number below 10000 written with four digits, with leading zeros. */
  function FourDigits(n: nat): string
    requires n < 10000
  {
    [DigitChar(n / 1000), DigitChar(n / 100 % 10), DigitChar(n / 10 % 10), DigitChar(n % 10)]
  }

  /** Every value the intended check accepts is also let through by the program's
      check: the as-written check only adds cases. */
  lemma IntendedIsStricter(airac: string)
    ensures IntendedCycleOk(airac) ==> !CycleRejected(airac)
  {
  }

  /** Division by ten with a known quotient and remainder. */
  lemma DivideByTen(n: int, q: int, r: int)
    requires 0 <= r < 10 && n == 10 * q + r
    ensures n / 10 == q && n % 10 == r
  {
  }

  /** Four digits, read as a number and written back, are the same four digits. */
  lemma FourDigitsOfValue(d0: nat, d1: nat, d2: nat, d3: nat)
    requires d0 < 10 && d1 < 10 && d2 < 10 && d3 < 10
    ensures 1000 * d0 + 100 * d1 + 10 * d2 + d3 < 10000
    ensures FourDigits(1000 * d0 + 100 * d1 + 10 * d2 + d3) ==
      [DigitChar(d0), DigitChar(d1), DigitChar(d2), DigitChar(d3)]
  {
    var n := 1000 * d0 + 100 * d1 + 10 * d2 + d3;
    DivideByTen(n, 100 * d0 + 10 * d1 + d2, d3);
    DivideByTen(100 * d0 + 10 * d1 + d2, 10 * d0 + d1, d2);
    DivideByTen(10 * d0 + d1, d0, d1);
    assert n / 100 == 10 * d0 + d1;
    assert n / 1000 == d0;
  }

  /** The intended check accepts exactly the four-digit renderings of the numbers
      0 to 9999, which are the AIRAC cycle identifiers. */
  lemma IntendedCycleIsFourDigits(airac: string)
    ensures IntendedCycleOk(airac) <==> exists n: nat :: n < 10000 && airac == FourDigits(n)
  {
    if IntendedCycleOk(airac) {
      var d0, d1, d2, d3 := DigitValue(airac[0]), DigitValue(airac[1]), DigitValue(airac[2]), DigitValue(airac[3]);
      FourDigitsOfValue(d0, d1, d2, d3);
      assert airac == FourDigits(1000 * d0 + 100 * d1 + 10 * d2 + d3);
    }
    if exists n: nat :: n < 10000 && airac == FourDigits(n) {
      var n: nat :| n < 10000 && airac == FourDigits(n);
      assert forall i :: 0 <= i < 4 ==> IsDigit(airac[i]);
    }
  }

  /** One piece of the link expression: literal text, the unescaped `.` (any
      character but a newline), or `\d{n}`. */
  datatype Piece = Text(t: string) | AnyOne | Digits(n: nat)

  /** `https://aip.enaire.es/AIP/contenido_AMDT/LE_Amdt_A_\d{4}_\d{2}_en.pdf`, whose
      three dots are not escaped and so stand for any character. */
  const AmdtPattern: seq<Piece> :=
    [Text("https://aip"), AnyOne, Text("enaire"), AnyOne, Text("es/AIP/contenido_AMDT/LE_Amdt_A_"),
     Digits(4), Text("_"), Digits(2), Text("_en"), AnyOne, Text("pdf")]

  /** The number of characters a piece consumes. */
  function Width(q: Piece): nat
  {
    match q
    case Text(t) => |t|
    case AnyOne => 1
    case Digits(n) => n
  }

  /** The piece matches the first `Width(q)` characters of s. */
  predicate PieceMatches(q: Piece, s: string)
    requires Width(q) <= |s|
  {
    match q
    case Text(t) => s[..|t|] == t
    case AnyOne => AnyChar(s[0])
    case Digits(n) => forall i :: 0 <= i < n ==> IsDigit(s[i])
  }

  /** `re.match` of an expression without alternatives or repetition: the pieces
      match one after the other from the start of s; what follows does not matter. */
  predicate MatchesAtStart(ps: seq<Piece>, s: string)
    decreases |ps|
  {
    ps == [] ||
    (Width(ps[0]) <= |s| && PieceMatches(ps[0], s) && MatchesAtStart(ps[1..], s[Width(ps[0])..]))
  }

  /** The link check of main.py:117. */
  predicate AmdtLinkAccepted(amdt: string)
  {
    MatchesAtStart(AmdtPattern, amdt)
  }

  /** A piece's verdict depends only on the characters it consumes. */
  lemma PieceIgnoresSuffix(q: Piece, s: string, extra: string)
    requires Width(q) <= |s|
    ensures PieceMatches(q, s + extra) == PieceMatches(q, s)
  {
    match q
    case Text(t) => assert (s + extra)[..|t|] == s[..|t|];
    case AnyOne => assert (s + extra)[0] == s[0];
    case Digits(n) => assert forall i :: 0 <= i < n ==> (s + extra)[i] == s[i];
  }

  /** The match anchors only at the start: text after a match keeps it a match. */
  lemma {:induction false} MatchWithSuffix(ps: seq<Piece>, s: string, extra: string)
    requires MatchesAtStart(ps, s)
    ensures MatchesAtStart(ps, s + extra)
    decreases |ps|
  {
    if ps != [] {
      var w := Width(ps[0]);
      PieceIgnoresSuffix(ps[0], s, extra);
      MatchWithSuffix(ps[1..], s[w..], extra);
      assert (s + extra)[w..] == s[w..] + extra;
    }
  }

  /** Text after an accepted link keeps it accepted. */
  lemma AcceptedWithSuffix(amdt: string, extra: string)
    requires AmdtLinkAccepted(amdt)
    ensures AmdtLinkAccepted(amdt + extra)
  {
    MatchWithSuffix(AmdtPattern, amdt, extra);
  }

  /** Matching a piece on u and the rest of the pattern on v matches the whole
      pattern on u + v. */
  lemma MatchStep(ps: seq<Piece>, u: string, v: string)
    requires ps != [] && Width(ps[0]) == |u| && PieceMatches(ps[0], u)
    requires MatchesAtStart(ps[1..], v)
    ensures MatchesAtStart(ps, u + v)
  {
    PieceIgnoresSuffix(ps[0], u, v);
    assert (u + v)[..|u|] == u && (u + v)[|u|..] == v;
  }

  /** The pieces from the four-digit year to the end match their text. */
  lemma AcceptedTail(c: char, year: string, num: string)
    requires AnyChar(c)
    requires |year| == 4 && IsDigitString(year)
    requires |num| == 2 && IsDigitString(num)
    ensures MatchesAtStart(AmdtPattern[5..], year + ("_" + (num + ("_en" + ([c] + "pdf")))))
  {
    var ps := AmdtPattern;
    assert MatchesAtStart(ps[10..], "pdf") by {
      assert ps[10..][1..] == [];
      MatchStep(ps[10..], "pdf", []);
      assert "pdf" + [] == "pdf";
    }
    MatchStep(ps[9..], [c], "pdf") by { assert ps[9..][1..] == ps[10..]; }
    MatchStep(ps[8..], "_en", [c] + "pdf") by { assert ps[8..][1..] == ps[9..]; }
    MatchStep(ps[7..], num, "_en" + ([c] + "pdf")) by { assert ps[7..][1..] == ps[8..]; }
    MatchStep(ps[6..], "_", num + ("_en" + ([c] + "pdf"))) by { assert ps[6..][1..] == ps[7..]; }
    MatchStep(ps[5..], year, "_" + (num + ("_en" + ([c] + "pdf")))) by { assert ps[5..][1..] == ps[6..]; }
  }

  /** A literal piece matches its own text. */
  lemma TextMatchesItself(t: string)
    ensures Width(Text(t)) == |t| && PieceMatches(Text(t), t)
  {
    assert t[..|t|] == t;
  }

  /** The pieces from the first dot to the last literal before the year match
      their text. */
  lemma AcceptedMiddle(a: char, b: char, s5: string)
    requires AnyChar(a) && AnyChar(b)
    requires MatchesAtStart(AmdtPattern[5..], s5)
    ensures MatchesAtStart(AmdtPattern[1..], [a] + ("enaire" + ([b] + ("es/AIP/contenido_AMDT/LE_Amdt_A_" + s5))))
  {
    var ps := AmdtPattern;
    var lit := "es/AIP/contenido_AMDT/LE_Amdt_A_";
    TextMatchesItself(lit);
    TextMatchesItself("enaire");
    MatchStep(ps[4..], lit, s5) by { assert ps[4..][0] == Text(lit) && ps[4..][1..] == ps[5..]; }
    MatchStep(ps[3..], [b], "es/AIP/contenido_AMDT/LE_Amdt_A_" + s5) by { assert ps[3..][1..] == ps[4..]; }
    MatchStep(ps[2..], "enaire", [b] + ("es/AIP/contenido_AMDT/LE_Amdt_A_" + s5)) by { assert ps[2..][1..] == ps[3..]; }
    MatchStep(ps[1..], [a], "enaire" + ([b] + ("es/AIP/contenido_AMDT/LE_Amdt_A_" + s5))) by { assert ps[1..][1..] == ps[2..]; }
  }

  /** Every link of the published shape is accepted, whatever stands at the three
      dots (other than a newline), for any four-digit year and two-digit number. */
  lemma AcceptedShape(a: char, b: char, c: char, year: string, num: string)
    requires AnyChar(a) && AnyChar(b) && AnyChar(c)
    requires |year| == 4 && IsDigitString(year)
    requires |num| == 2 && IsDigitString(num)
    ensures AmdtLinkAccepted("https://aip" + ([a] + ("enaire" + ([b] + ("es/AIP/contenido_AMDT/LE_Amdt_A_" +
                             (year + ("_" + (num + ("_en" + ([c] + "pdf"))))))))))
  {
    var s5 := year + ("_" + (num + ("_en" + ([c] + "pdf"))));
    AcceptedTail(c, year, num);
    AcceptedMiddle(a, b, s5);
    MatchStep(AmdtPattern, "https://aip", [a] + ("enaire" + ([b] + ("es/AIP/contenido_AMDT/LE_Amdt_A_" + s5))));
  }

  /** A match of the pattern splits into a match of its first piece and a match
      of the remaining pieces after it. */
  lemma MatchUnstep(ps: seq<Piece>, s: string)
    requires ps != [] && MatchesAtStart(ps, s)
    ensures Width(ps[0]) <= |s| && PieceMatches(ps[0], s)
    ensures MatchesAtStart(ps[1..], s[Width(ps[0])..])
    ensures s == s[..Width(ps[0])] + s[Width(ps[0])..]
  {
  }

  /** A match that opens with a literal starts with that literal. */
  lemma TextUnstep(t: string, ps: seq<Piece>, s: string)
    requires ps != [] && ps[0] == Text(t) && MatchesAtStart(ps, s)
    ensures |t| <= |s| && s == t + s[|t|..] && MatchesAtStart(ps[1..], s[|t|..])
  {
    MatchUnstep(ps, s);
  }

  /** A match that opens with `.` starts with a non-newline character. */
  lemma AnyUnstep(ps: seq<Piece>, s: string)
    requires ps != [] && ps[0] == AnyOne && MatchesAtStart(ps, s)
    ensures |s| > 0 && AnyChar(s[0]) && s == [s[0]] + s[1..] && MatchesAtStart(ps[1..], s[1..])
  {
    MatchUnstep(ps, s);
  }

  /** A match that opens with `\d{n}` starts with n digits. */
  lemma DigitsUnstep(n: nat, ps: seq<Piece>, s: string)
    requires n > 0 && ps != [] && ps[0] == Digits(n) && MatchesAtStart(ps, s)
    ensures n <= |s| && |s[..n]| == n && IsDigitString(s[..n])
    ensures s == s[..n] + s[n..] && MatchesAtStart(ps[1..], s[n..])
  {
    MatchUnstep(ps, s);
    assert forall i :: 0 <= i < n ==> s[..n][i] == s[i];
  }

  /** The pieces from the year to the end accept only the published tail,
      followed by anything. */
  lemma TailShape(s5: string) returns (c: char, year: string, num: string, extra: string)
    requires MatchesAtStart(AmdtPattern[5..], s5)
    ensures AnyChar(c) && |year| == 4 && IsDigitString(year) && |num| == 2 && IsDigitString(num)
    ensures s5 == year + ("_" + (num + ("_en" + ([c] + ("pdf" + extra)))))
  {
    var ps := AmdtPattern;
    DigitsUnstep(4, ps[5..], s5) by { assert ps[5..][0] == Digits(4); }
    year := s5[..4];
    var s6 := s5[4..];
    TextUnstep("_", ps[6..], s6) by { assert ps[5..][1..] == ps[6..] && ps[6..][0] == Text("_"); }
    var s7 := s6[1..];
    DigitsUnstep(2, ps[7..], s7) by { assert ps[6..][1..] == ps[7..] && ps[7..][0] == Digits(2); }
    num := s7[..2];
    var s8 := s7[2..];
    TextUnstep("_en", ps[8..], s8) by { assert ps[7..][1..] == ps[8..] && ps[8..][0] == Text("_en"); }
    var s9 := s8[3..];
    AnyUnstep(ps[9..], s9) by { assert ps[8..][1..] == ps[9..] && ps[9..][0] == AnyOne; }
    c := s9[0];
    var s10 := s9[1..];
    TextUnstep("pdf", ps[10..], s10) by { assert ps[9..][1..] == ps[10..] && ps[10..][0] == Text("pdf"); }
    extra := s10[3..];
  }

  /** The pieces before the year accept only the published head. */
  lemma HeadShape(amdt: string) returns (a: char, b: char, s5: string)
    requires AmdtLinkAccepted(amdt)
    ensures AnyChar(a) && AnyChar(b) && MatchesAtStart(AmdtPattern[5..], s5)
    ensures amdt == "https://aip" + ([a] + ("enaire" + ([b] + ("es/AIP/contenido_AMDT/LE_Amdt_A_" + s5))))
  {
    var ps := AmdtPattern;
    var lit := "es/AIP/contenido_AMDT/LE_Amdt_A_";
    TextUnstep("https://aip", ps, amdt);
    var s1 := amdt[11..];
    AnyUnstep(ps[1..], s1) by { assert ps[1..][0] == AnyOne; }
    a := s1[0];
    var s2 := s1[1..];
    TextUnstep("enaire", ps[2..], s2) by { assert ps[1..][1..] == ps[2..] && ps[2..][0] == Text("enaire"); }
    var s3 := s2[6..];
    AnyUnstep(ps[3..], s3) by { assert ps[2..][1..] == ps[3..] && ps[3..][0] == AnyOne; }
    b := s3[0];
    var s4 := s3[1..];
    TextUnstep(lit, ps[4..], s4) by { assert ps[3..][1..] == ps[4..] && ps[4..][0] == Text(lit); }
    s5 := s4[|lit|..];
    assert ps[4..][1..] == ps[5..];
  }

  /** Conversely to AcceptedShape, every accepted link has the published shape,
      followed by any text at all. */
  lemma AcceptedIsShape(amdt: string)
    requires AmdtLinkAccepted(amdt)
    ensures exists a: char, b: char, c: char, year: string, num: string, extra: string ::
      AnyChar(a) && AnyChar(b) && AnyChar(c) &&
      |year| == 4 && IsDigitString(year) && |num| == 2 && IsDigitString(num) &&
      amdt == "https://aip" + ([a] + ("enaire" + ([b] + ("es/AIP/contenido_AMDT/LE_Amdt_A_" +
                (year + ("_" + (num + ("_en" + ([c] + ("pdf" + extra))))))))))
  {
    var a, b, s5 := HeadShape(amdt);
    var c, year, num, extra := TailShape(s5);
  }

  /** A link that does not open with "https://aip" is refused. */
  lemma RefusedWithoutPrefix(amdt: string)
    requires |amdt| < 11 || amdt[..11] != "https://aip"
    ensures !AmdtLinkAccepted(amdt)
  {
  }
}
