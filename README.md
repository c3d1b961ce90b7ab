# AIRAC announcement generator, modelled in Dafny

`main.py` of airacBotTxtGenerator turns one AIRAC amendment into the text that
IVAO Spain's Discord bot posts. It reads the amendment PDF as plain text and
splits it into lines. Header lines such as `LECB` or `ATC` move a cursor that
names the current FIR. While the cursor names LECB, LECS, LECM or GCCC, each line
that mentions a `LE..`/`GC..` code is formatted and filed under that FIR in an
insertion-ordered dictionary. Each formatted line gets a bullet, parentheses
around page references not opened by "(" nor closed by ")" (a longer number
before ")" gives back its last digit, `Formatter.WrapBacktrackingExample`), a
colon after a `LE..`/`GC..` code that directly follows the bullet and one space,
and single spaces. The FIRs
are then rendered as labelled blocks inside a fixed template, together with
the cycle number, the effective date and the download link.

The model covers:

- the four rewrites of `format_line`, each regular expression written out as a
  matcher over `seq<char>`, backtracking and lookarounds included (module
  `Formatter`);
- the header detection of the scan (module `Patterns`);
- the scan-and-group loop, as a `while` loop proved equal to a reference
  grouping of the trace of kept lines (module `Grouping`);
- `str.splitlines` and `str.join` (module `Text`);
- the rendering of `changes_text` and of the output template (module `Render`);
- the date lookup of `get_airac_data` and the way `main` chooses the effective
  date (module `AiracDates`);
- the two input checks of `main`: the cycle number and the download link
  (module `Boundary`).

Five behaviours of the code that its comments do not suggest:

- A header is any line whose leftmost `LE..|GC..|ATC` token is listed in FIRS.
  A content line that opens with a FIR name, such as "LECB: cambio Pag 5", is
  therefore a header and is dropped; an airport code to the left of a FIR name
  keeps a line from being one (`Patterns.ContentLineWithFirIsHeader`,
  `Patterns.AirportFirstIsNoHeader`).
- `format_line` only looks for the hollow bullet, so a second pass prepends a
  second `"\t● "`. Formatting is never idempotent
  (`Formatter.FormatLineNotIdempotent`).
- The colon step runs before spaces are collapsed, so a code that follows the
  bullet after two spaces gets no colon: "○  LECS x" becomes "\t● LECS x"
  (`Formatter.ColonBlockedByDoubleSpace`, `Formatter.DoubleSpaceBlocksColon`).
  A kept line only has to mention a code somewhere, and a code that is not
  directly after a bullet and one space gets no colon.
- A lookup through a status-200 response whose table lacks the cycle yields
  None, with no manual fallback, and the announcement then says
  "Fecha de entrada en vigor: None" (`AiracDates.ResolveWef`,
  `Render.DocumentMentions`).
- When a one-cell row comes first, before any row whose second cell holds the
  cycle, the lookup stops with an IndexError; rows with no cells are skipped.
  This is modelled as `Failure(CycleCellMissing(row))`.

## Model

| member | source | states |
|---|---|---|
| Text.SplitLines | main.py:40 | every line of `text.splitlines()` is free of line-break characters |
| Text.SplitLinesKeepsText | main.py:40 | the lines, concatenated, are the text with its line breaks deleted: nothing else is lost or added |
| Text.SplitLinesOfJoin | main.py:40 | splitting lines joined by "\n" gives the same lines back when no line holds a break and the last is not empty |
| Text.JoinAppend | main.py:55-58 | joining one more part appends the separator and that part |
| Text.PartOccursInJoin | main.py:55-58 | every joined part occurs in the joined text |
| Patterns.FindToken | main.py:42 | `re.search` of `(LE..\|GC..\|ATC)` returns the leftmost index where the token matches, or none when no index matches |
| Patterns.HeaderOf | main.py:42-46 | a header token is always one of FIRS |
| Patterns.HeaderIsLeftmostListedToken | main.py:42-46 | a line is a header for t exactly when t is in FIRS and is the token of the leftmost match |
| Patterns.BareFirIsHeader | main.py:42-46 | "LECB" is a header for LECB |
| Patterns.AtcIsHeader | main.py:42-46 | "FIR ATC" is a header for ATC |
| Patterns.ContentLineWithFirIsHeader | main.py:42-46 | "LECB: cambio Pag 5" mentions a code yet is a header for LECB, so it is dropped rather than kept |
| Patterns.AirportFirstIsNoHeader | main.py:42-46 | "LEMD LECB" is no header: the leftmost token LEMD is not listed |
| Patterns.NoTokenIsNoHeader | main.py:42-46 | "XXXX" is no header |
| Formatter.DigitRun | main.py:28 | `\d+` consumes digits only and stops before the first non-digit |
| Formatter.HeadEnd | main.py:28 | what the head matcher returns is a match of `(?<!\()P[aáÁ]g\.? ` |
| Formatter.HeadEndUnique | main.py:28 | the head matches in at most one way, and the matcher finds it |
| Formatter.NumberEndSound | main.py:28 | what the backtracking number matcher returns matches `\d+(-\d+)?(?!\))` |
| Formatter.NumberEndLongest | main.py:28 | the number matcher succeeds whenever a match exists and returns the longest one |
| Formatter.PageRefEndSound | main.py:28 | what the page-reference matcher returns is a match of the whole expression |
| Formatter.PageRefEndLongest | main.py:28 | the page-reference matcher succeeds whenever the expression matches there and returns the longest match |
| Formatter.OpenedRefNotWrapped | main.py:28 | a reference right after "(" is never matched |
| Formatter.WrapOnlyAddsParens | main.py:28 | step 1 only adds parentheses: with them deleted, input and output agree |
| Formatter.WrapCopiesUnmatched | main.py:28 | where no reference starts, step 1 copies the line unchanged |
| Formatter.WithoutPagesUnwrapped | main.py:28 | a line without `P` or `p` holds no page reference and step 1 leaves it as it is |
| Formatter.WrapExample | main.py:28 | "Pag 5" becomes "(Pag 5)" |
| Formatter.WrapLeavesWrapped | main.py:28 | "(Pag 5)" stays as it is |
| Formatter.WrapRangeExample | main.py:28 | "Pág. 12-13" is wrapped whole |
| Formatter.WrapBacktrackingExample | main.py:28 | "Pag 12)" becomes "(Pag 1)2)": the lookahead makes `\d+` give back a digit |
| Formatter.ReplaceHollow | main.py:30 | `replace("○", "\t●")` leaves no hollow bullet |
| Formatter.ReplaceHollowKeepsText | main.py:30 | apart from tabs and bullets, the replacement changes nothing |
| Formatter.ReplaceHollowConcat | main.py:30 | `str.replace` works character by character: it distributes over concatenation, turns ○ into "\t●" and keeps every other character |
| Formatter.ReplaceHollowKeepsPlain | main.py:30 | a text without a hollow bullet is left as it is by the replacement |
| Formatter.NormalizeBullet | main.py:30 | step 2 leaves no hollow bullet, and a line without one gets "\t● " in front |
| Formatter.ColonsOnlyAdded | main.py:32 | step 3 only adds colons |
| Formatter.ColonsEnsured | main.py:31-32 | after step 3 no bullet followed by a space and a `LE..`/`GC..` code is left without its colon |
| Formatter.ColonFromHead | main.py:32 | step 3 keeps the first two characters of what it scans |
| Formatter.ColonCopiesUnmarked | main.py:32 | where no bullet-and-code marker occurs, step 3 copies the text |
| Formatter.ColonAddedExample | main.py:32 | "\t● LECB x" becomes "\t● LECB: x" |
| Formatter.ColonKeptExample | main.py:32 | "\t● LECB: x" keeps its single colon |
| Formatter.CollapseSpaces | main.py:34 | the result has no two consecutive spaces and keeps the first character |
| Formatter.RunCollapses | main.py:34 | a run of spaces before a non-space or the end of the text becomes exactly one space |
| Formatter.CollapseRun | main.py:34 | a run of spaces between two non-spaces (or an end of the text) becomes exactly one space, and the text on either side is collapsed on its own |
| Formatter.CollapseOnlyDropsSpaces | main.py:34 | step 4 deletes spaces only |
| Formatter.CollapseFixesExactlySingleSpaced | main.py:34 | step 4 leaves a text alone exactly when it has no double space |
| Formatter.CollapseKeepsPrefix | main.py:34 | a prefix without double spaces survives step 4 |
| Formatter.StepsKeepAbsent | main.py:26-34 | steps 1, 3 and 4 never introduce a character other than parentheses, colons and spaces |
| Formatter.FormatLineShape | main.py:26-34 | a formatted line has no hollow bullet and no double space, and starts with "\t● " when the raw line had no hollow bullet |
| Formatter.PunctuationSteps | main.py:28-34 | steps 1, 3 and 4 only add or delete parentheses, colons and spaces |
| Formatter.BulletStep | main.py:30 | step 2 adds exactly a tab and a bullet, or turns hollow bullets into them |
| Formatter.FormatLineKeepsText | main.py:26-34 | `format_line` keeps every other character of the line, in order; without a hollow bullet it adds exactly "\t●" beyond punctuation |
| Formatter.ColonBlockedByDoubleSpace | main.py:26-34 | for any single-spaced text without `P`, `p` or bullets after a hollow bullet and two spaces, `format_line` adds no colon and leaves one space |
| Formatter.DoubleSpaceBlocksColon | main.py:26-34 | the colon step runs before the spaces are collapsed: "○  LECS x" becomes "\t● LECS x", with no colon |
| Formatter.FormatLineNotIdempotent | main.py:30 | formatting a formatted line always changes it again |
| Grouping.SetDefaultAppendKeys | main.py:52 | `setdefault(...).append` keeps the keys in insertion order and adds a new key last |
| Grouping.SetDefaultAppendLookup | main.py:52 | the value is appended to its key's list and every other list is unchanged |
| Grouping.SetDefaultAppendDistinct | main.py:52 | no key appears twice in the dictionary |
| Grouping.LookupAt | main.py:52 | with distinct keys, the list under an entry's key is that entry's list |
| Grouping.LookupMissing | main.py:52 | a key that was never added has no lines |
| Grouping.FirstSeenDistinct | main.py:52 | the reference key order lists each FIR once |
| Grouping.FirstSeenIffSelected | main.py:52 | a FIR is a key exactly when it received a line |
| Grouping.SameDictionary | main.py:52 | two dictionaries with the same keys in the same order and the same lists are equal |
| Grouping.GroupOfIsDictionary | main.py:38-52 | the reference grouping has distinct keys, in first-seen order, and each FIR's lines in input order |
| Grouping.EntryKeepsGrouping | main.py:52 | one `setdefault(...).append` keeps the dictionary equal to the grouping of the trace extended by one entry |
| Grouping.StepKeepsGrouping | main.py:40-52 | one pass of the loop body keeps the dictionary equal to the grouping of the lines read so far |
| Grouping.ScanChanges | main.py:37-52 | the loop's dictionary is the reference grouping of the kept, formatted lines |
| Grouping.ScanAppend | main.py:40-52 | one more line moves the cursor only if it is a header, and adds an entry only if it is kept |
| Grouping.CursorEmptyOrListed | main.py:37-46 | the cursor is always empty or one of FIRS |
| Grouping.HeaderStep | main.py:42-46 | a header sets the cursor and outputs nothing; any other line leaves the cursor as it was |
| Grouping.NoOutputOutsideRealFir | main.py:47 | while the cursor is empty or ATC, non-header lines neither move the cursor nor add output |
| Grouping.ContentStep | main.py:47-52 | under a real FIR, a non-header line is appended formatted to that FIR's list exactly when it mentions a code |
| Grouping.EmittedUnderRealFirs | main.py:47-52 | every kept line is filed under LECB, LECS, LECM or GCCC, never ATC |
| Grouping.GroupsNonEmpty | main.py:52 | every FIR in the dictionary holds at least one line |
| Grouping.FirstSeenFromEntries | main.py:52 | every key comes from a kept line |
| Grouping.SelectSplits | main.py:52 | a FIR's lines over two stretches of the trace are its lines in each, in order |
| Grouping.FirstSeenGrows | main.py:52 | later lines never reorder the keys already present |
| Render.ChangesTextEmptyIff | main.py:55-58 | the change text is empty exactly when no FIR received a line |
| Render.ChangesTextAppend | main.py:55-58 | each further FIR adds "\n" and its block at the end |
| Render.BlockInChangesText | main.py:55-58 | every FIR's label and block occur in the change text |
| Render.DocumentMentions | main.py:61-75 | the announcement contains the cycle, the date line ("None" when the date is missing), the AMDT link and the change text |
| Render.SaveTextToTxt | main.py:36-75 | the text written is the template filled with the grouping of the kept, formatted lines of the text |
| Render.EveryFirHasItsBlock | main.py:52-58 | every FIR in the dictionary has a non-empty entry list, and its label and its whole block occur in the announcement |
| AiracDates.FirstStopCases | main.py:89-99 | either no row stops the search or exactly one row is the first to do so |
| AiracDates.GetAiracData | main.py:89-99 | the result is the last cell of the first row whose second cell holds the cycle; None when no row does; an error when a one-cell row comes first |
| AiracDates.ResolveWef | main.py:121-134 | a response with status 200 gives the table lookup, with no fallback; any other status or a failed request gives the operator's answer |
| Boundary.CycleCheckLetsThrough | main.py:109 | the check as written accepts "12", "123456" and "abcd" and rejects only when both tests fail |
| Boundary.IntendedIsStricter | main.py:109 | every cycle the intended check accepts is also accepted as written |
| Boundary.IntendedCycleIsFourDigits | main.py:109 | the intended check accepts exactly the four-digit renderings of 0 to 9999 |
| Boundary.MatchWithSuffix | main.py:117 | `re.match` anchors only at the start: text after a match keeps it a match |
| Boundary.AcceptedWithSuffix | main.py:117 | text after an accepted link keeps it accepted |
| Boundary.AcceptedShape | main.py:117 | every link of the published shape is accepted, whatever non-newline characters stand at the three unescaped dots |
| Boundary.AcceptedIsShape | main.py:117 | conversely, every accepted link is the published shape, with non-newline characters at the three dots, four and two digits, and then any text at all |
| Boundary.RefusedWithoutPrefix | main.py:117 | a link that does not open with "https://aip" is refused |

## Left out

- Reading the PDF (main.py:12-24): pdfplumber is a foreign library. `SaveTextToTxt` takes the extracted text as a parameter.
- The HTTP request and the printing of its status and body (main.py:121-134): the outcome enters `ResolveWef` as a `Fetch` value.
- HTML parsing with BeautifulSoup (main.py:83-90): the page enters `GetAiracData` as rows of cells. Each cell is the stripped text of its first `<strong>`, or None.
- Console input, `strip()`, the banner, ANSI-coloured messages and `sys.exit(1)` (main.py:102-120, 140): they are I/O. The checks appear as the predicates `CycleRejected` and `AmdtLinkAccepted`, and the operator's answers as parameters.
- The file write (main.py:77-78): I/O. `SaveTextToTxt` returns the text it would write.
- Python's `\d` also accepts non-ASCII decimal digits, and `str.isdigit` also accepts other digit characters such as "²". The model accepts the ASCII digits only (`Patterns.IsDigit`).

## Findings

| source | as written | input that shows it | evidently intended | confidence | as-written member | corrected member |
|---|---|---|---|---|---|---|
| main.py:109 | `not airac.isdigit() and len(airac) != 4` exits only when the cycle is both non-numeric and not four characters long | "12", "123456" and "abcd" are all accepted | exit unless the cycle is exactly four digits (`or` instead of `and`) | not executed | Boundary.CycleCheckLetsThrough | Boundary.IntendedCycleIsFourDigits |
