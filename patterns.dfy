/** The region-code patterns of main.py: `LE..` and `GC..` for FIR and airport
    codes, `ATC` for the air-traffic-control section, and the allowlist FIRS. */
module Patterns {
  import opened Wrappers

  /** The allowlist FIRS (main.py:10): four FIRs and the ATC marker. */
  const Firs: seq<string> := ["LECB", "LECS", "LECM", "GCCC", "ATC"]

  /** The ATC marker, a header that opens a section with no output. */
  const Atc: string := "ATC"

  /** The regex `.`: any character but a newline. */
  predicate AnyChar(c: char)
  {
    c != '\n'
  }

  /** The regex `\d`, on ASCII digits. */
  predicate IsDigit(c: char)
  {
    '0' <= c <= '9'
  }

  /** `LE..|GC..` matches the four characters from index i. */
  predicate CodeAt(s: string, i: nat)
  {
    i + 4 <= |s| &&
    ((s[i] == 'L' && s[i + 1] == 'E') || (s[i] == 'G' && s[i + 1] == 'C')) &&
    AnyChar(s[i + 2]) && AnyChar(s[i + 3])
  }

  /** `ATC` matches the three characters from index i. */
  predicate AtcAt(s: string, i: nat)
  {
    i + 3 <= |s| && s[i] == 'A' && s[i + 1] == 'T' && s[i + 2] == 'C'
  }

  /** The text `(LE..|GC..|ATC)` matches from index i; the alternatives start with
      different letters, so at most one of them applies. */
  function TokenAt(s: string, i: nat): Option<string>
  {
    if CodeAt(s, i) then Some(s[i..i + 4])
    else if AtcAt(s, i) then Some(Atc)
    else None
  }

  /** `re.search(r"(LE..|GC..|ATC)", s)` started at `from`: the leftmost index where
      the token matches. */
  function FindToken(s: string, from: nat): (k: Option<nat>)
    ensures k.Some? ==> from <= k.value < |s| && TokenAt(s, k.value).Some?
    ensures k.Some? ==> forall j :: from <= j < k.value ==> TokenAt(s, j).None?
    ensures k.None? ==> forall j :: from <= j < |s| ==> TokenAt(s, j).None?
    decreases |s| - from
  {
    if from >= |s| then None
    else if TokenAt(s, from).Some? then Some(from)
    else FindToken(s, from + 1)
  }

  /** `re.search(r"(LE..|GC..)", line)` finds something. */
  predicate HasCode(line: string)
  {
    exists i: nat :: i < |line| && CodeAt(line, i)
  }

  /** The header token of a line (main.py:42-44): the leftmost match of
      `(LE..|GC..|ATC)`, provided it is in FIRS. */
  function HeaderOf(line: string): (h: Option<string>)
    ensures h.Some? ==> h.value in Firs
  {
    match FindToken(line, 0)
    case None => None
    case Some(k) => if TokenAt(line, k).value in Firs then TokenAt(line, k) else None
  }

  /** A line is a header for `t` exactly when `t` is in FIRS and is the token of the
      leftmost match; a listed code further right does not make it a header. */
  lemma HeaderIsLeftmostListedToken(line: string, t: string)
    ensures HeaderOf(line) == Some(t) <==>
      t in Firs &&
      exists k: nat :: TokenAt(line, k) == Some(t) && forall j :: 0 <= j < k ==> TokenAt(line, j).None?
  {
    if t in Firs && exists k: nat :: TokenAt(line, k) == Some(t) && forall j :: 0 <= j < k ==> TokenAt(line, j).None? {
      var k: nat :| TokenAt(line, k) == Some(t) && forall j :: 0 <= j < k ==> TokenAt(line, j).None?;
      var found := FindToken(line, 0);
      assert k < |line|;
      assert found.Some?;
      assert found.value == k;
    }
    if HeaderOf(line) == Some(t) {
      var k := FindToken(line, 0).value;
      assert TokenAt(line, k) == Some(t);
    }
  }

  /** A bare FIR name is a header. */
  lemma BareFirIsHeader(line: string)
    requires line == "LECB"
    ensures HeaderOf(line) == Some("LECB")
  {
    assert CodeAt(line, 0) && line[0..4] == "LECB";
  }

  /** ATC after other words is a header: FIR, the first word, is no token. */
  lemma AtcIsHeader(line: string)
    requires line == "FIR ATC"
    ensures HeaderOf(line) == Some("ATC")
  {
    assert forall j :: 0 <= j < 4 ==> TokenAt(line, j).None?;
    assert TokenAt(line, 4) == Some("ATC");
  }

  /** A content line that opens with a FIR name counts as a header, although it
      mentions a code and would otherwise be kept. */
  lemma ContentLineWithFirIsHeader(line: string)
    requires line == "LECB: cambio Pag 5"
    ensures HasCode(line) && HeaderOf(line) == Some(line[..4])
  {
    assert CodeAt(line, 0) && line[0..4] == "LECB";
  }

  /** An airport code to the left of a FIR name keeps the line from being a header. */
  lemma AirportFirstIsNoHeader(line: string)
    requires line == "LEMD LECB"
    ensures HeaderOf(line) == None
  {
    assert CodeAt(line, 0) && line[0..4] == "LEMD";
  }

  /** A line without any token is no header. */
  lemma NoTokenIsNoHeader(line: string)
    requires line == "XXXX"
    ensures HeaderOf(line) == None
  {
    assert forall j :: 0 <= j < 4 ==> TokenAt(line, j).None?;
  }
}
