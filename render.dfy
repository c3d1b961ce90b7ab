/** The text that `save_text_to_txt` writes (main.py:54-75): one block per FIR of
    `changes`, and the announcement template around them. */
module Render {
  import opened Wrappers
  import opened Text
  import opened Grouping

  /** The label that opens the block of a FIR. */
  function Label(fir: string): string
  {
    "**FIR de " + fir + "**\n"
  }

  /** `f"**FIR de {fir}**\n" + "\n".join(lines) + "\n"` (main.py:56). */
  function Block(g: Group): string
  {
    Label(g.fir) + Join("\n", g.entries) + "\n"
  }

  /** The blocks of the dictionary, in its order. */
  function Blocks(c: ChangeList): seq<string>
  {
    seq(|c|, i requires 0 <= i < |c| => Block(c[i]))
  }

  /** `changes_text` (main.py:55-58): the blocks joined by "\n", so that a blank line
      separates two blocks. */
  function ChangesText(c: ChangeList): string
  {
    Join("\n", Blocks(c))
  }

  /** The change text is empty exactly when no FIR received a line. */
  lemma ChangesTextEmptyIff(c: ChangeList)
    ensures ChangesText(c) == "" <==> c == []
  {
    if c != [] {
      JoinStartsWithFirst("\n", Blocks(c));
      assert |Blocks(c)[0]| > 0;
    }
  }

  /** A single FIR gives its block alone; each further FIR adds a "\n" and its block
      at the end. */
  lemma ChangesTextAppend(c: ChangeList, g: Group)
    ensures c == [] ==> ChangesText(c + [g]) == Block(g)
    ensures c != [] ==> ChangesText(c + [g]) == ChangesText(c) + "\n" + Block(g)
  {
    assert Blocks(c + [g]) == Blocks(c) + [Block(g)];
    if c != [] {
      JoinAppend("\n", Blocks(c), Block(g));
    }
  }

  /** Each FIR's label and each of its blocks stand in the change text. */
  lemma BlockInChangesText(c: ChangeList, i: nat)
    requires i < |c|
    ensures Occurs(Block(c[i]), ChangesText(c))
    ensures Occurs(Label(c[i].fir), ChangesText(c))
  {
    PartOccursInJoin("\n", Blocks(c), i);
    OccursIn([], Label(c[i].fir), Join("\n", c[i].entries) + "\n");
    assert [] + Label(c[i].fir) + (Join("\n", c[i].entries) + "\n") == Block(c[i]);
    OccursTransitive(Label(c[i].fir), Block(c[i]), ChangesText(c));
  }

  /** What occurs in a piece of a string occurs in the string. */
  lemma {:induction false} OccursTransitive(t: string, s: string, u: string)
    requires Occurs(t, s) && Occurs(s, u)
    ensures Occurs(t, u)
    decreases |u|
  {
    if |s| <= |u| && u[..|s|] == s {
      OccursWithin(t, s, [], u[|s|..]);
      assert [] + s + u[|s|..] == u;
    } else {
      OccursTransitive(t, s, u[1..]);
    }
  }

  /** Python's `f"{v}"` for a value that is a string or None. */
  function Shown(v: Option<string>): string
  {
    match v
    case Some(s) => s
    case None => "None"
  }

  /** The first line of the announcement, naming the cycle. */
  function Title(airac: string): string
  {
    "**Comunicaci\U{00F3}n Mensual de Enmienda AIRAC** **Ciclo " + airac + "**\n"
  }

  /** The effective date, in italics. */
  function DateLine(wef: Option<string>): string
  {
    "*Fecha de entrada en vigor: " + Shown(wef) + "*"
  }

  /** The download link of the amendment. */
  function AmdtLink(amdt: string): string
  {
    "[AMDT](" + amdt + ")"
  }

  /** The fixed text after the change blocks: links to the old ENR charts and the
      disclaimer. */
  const Footer: string :=
    "**Aerov\U{00ED}as Antiguas**\n" +
    "ENR antiguo con informaci\U{00F3}n del sistema anterior de aerov\U{00ED}as:\n" +
    "[ENR 3.0](https://files.es.ivao.aero/FIR/AOC/AIRACS/2402_LE_ENR_3_0_en.pdf)\n" +
    "[ENR 3.1](https://files.es.ivao.aero/FIR/AOC/AIRACS/2402_LE_ENR_3_1_en.pdf)\n" +
    "[ENR 3.2](https://files.es.ivao.aero/FIR/AOC/AIRACS/2402_LE_ENR_3_2_en.pdf)\n\n" +
    "Este documento se ha generado autom\U{00E1}ticamente. Puede contener errores.\n\n" +
    "SOLO PARA USO EN SIMULACI\U{00D3}N - NO V\U{00C1}LIDO PARA OPERACIONES REALES\n\n" +
    "Departamento de Operaciones ATC de IVAO Espa\U{00F1}a \U{1F4E1}\n"

  /** The pieces of `output_template` (main.py:61-75), in order. */
  function DocumentParts(airac: string, wef: Option<string>, amdt: string, changesText: string): seq<string>
  {
    [Title(airac),
     DateLine(wef) + "\n\n",
     "Enlaces de descarga de la enmienda:\n",
     AmdtLink(amdt) + "\n\n",
     changesText + "\n",
     Footer]
  }

  /** `output_template` (main.py:61-75). */
  function Document(airac: string, wef: Option<string>, amdt: string, changesText: string): string
  {
    Concat(DocumentParts(airac, wef, amdt, changesText))
  }

  /** Each piece of a concatenation occurs in it. */
  lemma {:induction false} PartOccursInConcat(parts: seq<string>, i: nat)
    requires i < |parts|
    ensures Occurs(parts[i], Concat(parts))
  {
    if i == 0 {
      OccursIn([], parts[0], Concat(parts[1..]));
      assert [] + parts[0] + Concat(parts[1..]) == Concat(parts);
    } else {
      PartOccursInConcat(parts[1..], i - 1);
      OccursWithin(parts[i], Concat(parts[1..]), parts[0], []);
      assert parts[0] + Concat(parts[1..]) + [] == Concat(parts);
    }
  }

  /** A string occurs in itself followed by more text. */
  lemma OccursAtStart(t: string, after: string)
    ensures Occurs(t, t + after)
  {
    OccursIn([], t, after);
    assert [] + t + after == t + after;
  }

  /** The announcement names the cycle, gives the effective date (the text "None"
      when the date lookup found nothing), the download link and the change text. */
  lemma DocumentMentions(airac: string, wef: Option<string>, amdt: string, changesText: string)
    ensures Occurs(airac, Document(airac, wef, amdt, changesText))
    ensures Occurs("*Fecha de entrada en vigor: " + Shown(wef) + "*", Document(airac, wef, amdt, changesText))
    ensures wef.None? ==> Occurs("*Fecha de entrada en vigor: None*", Document(airac, wef, amdt, changesText))
    ensures Occurs("[AMDT](" + amdt + ")", Document(airac, wef, amdt, changesText))
    ensures Occurs(changesText, Document(airac, wef, amdt, changesText))
  {
    var parts := DocumentParts(airac, wef, amdt, changesText);
    var doc := Document(airac, wef, amdt, changesText);
    OccursIn("**Comunicaci\U{00F3}n Mensual de Enmienda AIRAC** **Ciclo ", airac, "**\n");
    PartOccursInConcat(parts, 0);
    OccursTransitive(airac, parts[0], doc);
    if wef.None? {
      assert DateLine(wef) == "*Fecha de entrada en vigor: None*";
    }
    OccursAtStart(DateLine(wef), "\n\n");
    PartOccursInConcat(parts, 1);
    OccursTransitive(DateLine(wef), parts[1], doc);
    OccursAtStart(AmdtLink(amdt), "\n\n");
    PartOccursInConcat(parts, 3);
    OccursTransitive(AmdtLink(amdt), parts[3], doc);
    OccursAtStart(changesText, "\n");
    PartOccursInConcat(parts, 4);
    OccursTransitive(changesText, parts[4], doc);
  }

  /** `save_text_to_txt` (main.py:36-75) without the file write: the text of the
      announcement for the extracted text and the run's metadata. */
  method SaveTextToTxt(text: string, wef: Option<string>, airac: string, amdt: string) returns (output: string)
    ensures output == Document(airac, wef, amdt, ChangesText(GroupOf(Emitted(SplitLines(text)))))
  {
    var changes := ScanChanges(SplitLines(text));
    var changesText := ChangesText(changes);
    output := Document(airac, wef, amdt, changesText);
  }

  /** The announcement carries the labelled block of every FIR that received a
      line; only such FIRs get a block of their own. */
  lemma EveryFirHasItsBlock(text: string, wef: Option<string>, airac: string, amdt: string, i: nat)
    requires i < |GroupOf(Emitted(SplitLines(text)))|
    ensures Occurs(Label(GroupOf(Emitted(SplitLines(text)))[i].fir),
                   Document(airac, wef, amdt, ChangesText(GroupOf(Emitted(SplitLines(text))))))
    ensures Occurs(Block(GroupOf(Emitted(SplitLines(text)))[i]),
                   Document(airac, wef, amdt, ChangesText(GroupOf(Emitted(SplitLines(text))))))
    ensures GroupOf(Emitted(SplitLines(text)))[i].entries != []
  {
    var c := GroupOf(Emitted(SplitLines(text)));
    BlockInChangesText(c, i);
    DocumentMentions(airac, wef, amdt, ChangesText(c));
    OccursTransitive(Block(c[i]), ChangesText(c), Document(airac, wef, amdt, ChangesText(c)));
    OccursTransitive(Label(c[i].fir), ChangesText(c), Document(airac, wef, amdt, ChangesText(c)));
    GroupsNonEmpty(SplitLines(text));
  }
}
