/** The scan-and-group loop of `save_text_to_txt` (main.py:37-52). A cursor names the
    current FIR; header lines move it, and while it names a real FIR the lines that
    mention a code are formatted and appended to that FIR's list in `changes`, an
    insertion-ordered dictionary written here as a list of groups. */
module Grouping {
  import opened Wrappers
  import opened Patterns
  import opened Formatter

  /** One entry of `changes`: a FIR and its formatted lines. */
  datatype Group = Group(fir: string, entries: seq<string>)

  /** The dictionary `changes`, its entries in insertion order. */
  type ChangeList = seq<Group>

  /** The keys of the dictionary, in order. */
  function Keys(c: ChangeList): (ks: seq<string>)
    ensures |ks| == |c|
    ensures forall i :: 0 <= i < |c| ==> ks[i] == c[i].fir
  {
    if c == [] then [] else [c[0].fir] + Keys(c[1..])
  }

  /** The list stored under key k, or nothing when k is not a key. */
  function Lookup(c: ChangeList, k: string): seq<string>
  {
    if c == [] then [] else if c[0].fir == k then c[0].entries else Lookup(c[1..], k)
  }

  /** No value occurs twice in the sequence. */
  predicate Distinct(ks: seq<string>)
  {
    forall i, j :: 0 <= i < j < |ks| ==> ks[i] != ks[j]
  }

  /** A dictionary has each key once. */
  predicate DistinctKeys(c: ChangeList)
  {
    Distinct(Keys(c))
  }

  /** With distinct keys, looking up the key of an entry finds that entry's list. */
  lemma {:induction false} LookupAt(c: ChangeList, i: nat)
    requires DistinctKeys(c) && i < |c|
    ensures Lookup(c, c[i].fir) == c[i].entries
  {
    if i > 0 {
      assert Keys(c)[0] != Keys(c)[i];
      assert DistinctKeys(c[1..]) by {
        forall a, b | 0 <= a < b < |c[1..]| ensures Keys(c[1..])[a] != Keys(c[1..])[b] {
          assert Keys(c)[a + 1] != Keys(c)[b + 1];
        }
      }
      LookupAt(c[1..], i - 1);
    }
  }

  /** Looking up a key that is not there gives nothing. */
  lemma {:induction false} LookupMissing(c: ChangeList, k: string)
    requires k !in Keys(c)
    ensures Lookup(c, k) == []
  {
    if c != [] {
      assert Keys(c) == [c[0].fir] + Keys(c[1..]);
      LookupMissing(c[1..], k);
    }
  }

  /** The keys of a dictionary with one more entry in front. */
  lemma KeysCons(g: Group, c: ChangeList)
    ensures Keys([g] + c) == [g.fir] + Keys(c)
  {
    assert ([g] + c)[1..] == c;
  }

  /** Looking up in a dictionary with one more entry in front. */
  lemma LookupCons(g: Group, c: ChangeList)
    ensures forall k :: Lookup([g] + c, k) == if g.fir == k then g.entries else Lookup(c, k)
  {
    assert ([g] + c)[1..] == c;
  }

  /** Distinct keys stay distinct without the first entry, whose key does not come
      back. */
  lemma DistinctTail(c: ChangeList)
    requires c != [] && DistinctKeys(c)
    ensures DistinctKeys(c[1..]) && c[0].fir !in Keys(c[1..])
  {
    KeysCons(c[0], c[1..]);
    assert [c[0]] + c[1..] == c;
    forall a, b | 0 <= a < b < |c[1..]| ensures Keys(c[1..])[a] != Keys(c[1..])[b] {
      assert Keys(c)[a + 1] != Keys(c)[b + 1];
    }
    forall a | 0 <= a < |c[1..]| ensures Keys(c[1..])[a] != c[0].fir {
      assert Keys(c)[0] != Keys(c)[a + 1];
    }
  }

  /** A new key in front keeps the keys distinct. */
  lemma DistinctCons(g: Group, c: ChangeList)
    requires DistinctKeys(c) && g.fir !in Keys(c)
    ensures DistinctKeys([g] + c)
  {
    KeysCons(g, c);
    forall a, b | 0 <= a < b < |[g] + c| ensures Keys([g] + c)[a] != Keys([g] + c)[b] {
      if a > 0 {
        assert Keys(c)[a - 1] != Keys(c)[b - 1];
      } else {
        assert Keys(c)[b - 1] in Keys(c);
      }
    }
  }

  /** `changes.setdefault(k, []).append(v)`: append v to the list of k, first adding
      k at the end with an empty list when it is not a key yet. */
  function SetDefaultAppend(c: ChangeList, k: string, v: string): ChangeList
  {
    if c == [] then [Group(k, [v])]
    else if c[0].fir == k then [Group(k, c[0].entries + [v])] + c[1..]
    else [c[0]] + SetDefaultAppend(c[1..], k, v)
  }

  /** The dictionary after `setdefault(...).append` is the old one with entry k
      replaced or added: its first entry and the rest. */
  lemma SetDefaultAppendCons(c: ChangeList, k: string, v: string)
    requires c != []
    ensures SetDefaultAppend(c, k, v) ==
      if c[0].fir == k then [Group(k, c[0].entries + [v])] + c[1..]
      else [c[0]] + SetDefaultAppend(c[1..], k, v)
  {
  }

  /** `setdefault(...).append` keeps the keys in place, adding k last when it is
      new. */
  lemma {:induction false} SetDefaultAppendKeys(c: ChangeList, k: string, v: string)
    ensures Keys(SetDefaultAppend(c, k, v)) == if k in Keys(c) then Keys(c) else Keys(c) + [k]
  {
    if c != [] {
      SetDefaultAppendCons(c, k, v);
      KeysCons(c[0], c[1..]);
      assert [c[0]] + c[1..] == c;
      if c[0].fir == k {
        KeysCons(Group(k, c[0].entries + [v]), c[1..]);
      } else {
        SetDefaultAppendKeys(c[1..], k, v);
        KeysCons(c[0], SetDefaultAppend(c[1..], k, v));
      }
    }
  }

  /** `setdefault(...).append` appends v to the list of k and leaves every other
      list as it was. */
  lemma {:induction false} SetDefaultAppendLookup(c: ChangeList, k: string, v: string)
    ensures Lookup(SetDefaultAppend(c, k, v), k) == Lookup(c, k) + [v]
    ensures forall k' :: k' != k ==> Lookup(SetDefaultAppend(c, k, v), k') == Lookup(c, k')
  {
    if c != [] {
      SetDefaultAppendCons(c, k, v);
      LookupCons(c[0], c[1..]);
      assert [c[0]] + c[1..] == c;
      if c[0].fir == k {
        LookupCons(Group(k, c[0].entries + [v]), c[1..]);
      } else {
        SetDefaultAppendLookup(c[1..], k, v);
        LookupCons(c[0], SetDefaultAppend(c[1..], k, v));
      }
    }
  }

  /** `setdefault(...).append` never duplicates a key. */
  lemma {:induction false} SetDefaultAppendDistinct(c: ChangeList, k: string, v: string)
    requires DistinctKeys(c)
    ensures DistinctKeys(SetDefaultAppend(c, k, v))
  {
    if c == [] {
      assert Keys([Group(k, [v])]) == [k];
    } else {
      SetDefaultAppendCons(c, k, v);
      DistinctTail(c);
      if c[0].fir == k {
        KeysCons(c[0], c[1..]);
        DistinctCons(Group(k, c[0].entries + [v]), c[1..]);
      } else {
        SetDefaultAppendDistinct(c[1..], k, v);
        SetDefaultAppendKeys(c[1..], k, v);
        DistinctCons(c[0], SetDefaultAppend(c[1..], k, v));
      }
    }
  }

  /** A formatted line recorded under a FIR, in the order the scan keeps them. */
  datatype Entry = Entry(fir: string, text: string)

  /** The cursor names a FIR whose lines are kept: it is set and it is not ATC
      (main.py:47). */
  predicate IsRealFir(cursor: string)
  {
    cursor != "" && cursor != Atc
  }

  /** The line is kept under `cursor`: it is not a header, the cursor names a real
      FIR, and the line mentions a `LE..` or `GC..` code (main.py:44-50). */
  predicate Kept(cursor: string, line: string)
  {
    HeaderOf(line).None? && IsRealFir(cursor) && HasCode(line)
  }

  /** The cursor after the lines: the token of the last header line, or empty. */
  function CursorAfter(lines: seq<string>): string
  {
    if lines == [] then ""
    else match HeaderOf(lines[|lines| - 1])
      case Some(t) => t
      case None => CursorAfter(lines[..|lines| - 1])
  }

  /** The kept lines, formatted and labelled with the cursor they were read under,
      in input order. */
  function Emitted(lines: seq<string>): seq<Entry>
  {
    if lines == [] then []
    else
      var before := lines[..|lines| - 1];
      var line := lines[|lines| - 1];
      var cursor := CursorAfter(before);
      Emitted(before) + (if Kept(cursor, line) then [Entry(cursor, FormatLine(line))] else [])
  }

  /** The FIRs of the entries, each once, in the order they first appear. */
  function FirstSeen(es: seq<Entry>): seq<string>
  {
    if es == [] then []
    else
      var keys := FirstSeen(es[..|es| - 1]);
      var k := es[|es| - 1].fir;
      if k in keys then keys else keys + [k]
  }

  /** The texts of the entries for FIR k, in order. */
  function Select(es: seq<Entry>, k: string): seq<string>
  {
    if es == [] then []
    else
      var e := es[|es| - 1];
      Select(es[..|es| - 1], k) + (if e.fir == k then [e.text] else [])
  }

  /** One more entry extends the first-seen FIRs and the selection for its FIR. */
  lemma TraceAppend(es: seq<Entry>, e: Entry)
    ensures FirstSeen(es + [e]) == if e.fir in FirstSeen(es) then FirstSeen(es) else FirstSeen(es) + [e.fir]
    ensures forall k :: Select(es + [e], k) == Select(es, k) + (if e.fir == k then [e.text] else [])
  {
    assert (es + [e])[..|es|] == es;
  }

  /** The reference grouping of a trace: one group per FIR in first-seen order,
      holding that FIR's texts in order. */
  function GroupOf(es: seq<Entry>): ChangeList
  {
    var keys := FirstSeen(es);
    seq(|keys|, i requires 0 <= i < |keys| => Group(keys[i], Select(es, keys[i])))
  }

  /** Each FIR is listed once. */
  lemma {:induction false} FirstSeenDistinct(es: seq<Entry>)
    ensures Distinct(FirstSeen(es))
  {
    if es != [] {
      FirstSeenDistinct(es[..|es| - 1]);
    }
  }

  /** A FIR is listed exactly when some entry has it. */
  lemma {:induction false} FirstSeenIffSelected(es: seq<Entry>, k: string)
    ensures k in FirstSeen(es) <==> Select(es, k) != []
  {
    if es != [] {
      FirstSeenIffSelected(es[..|es| - 1], k);
    }
  }

  /** Two dictionaries with distinct keys, the same keys in the same order and the
      same list under every key are the same. */
  lemma SameDictionary(c: ChangeList, d: ChangeList)
    requires DistinctKeys(c) && DistinctKeys(d)
    requires Keys(c) == Keys(d)
    requires forall k :: Lookup(c, k) == Lookup(d, k)
    ensures c == d
  {
    forall i | 0 <= i < |c| ensures c[i] == d[i] {
      LookupAt(c, i);
      LookupAt(d, i);
    }
  }

  /** The reference grouping really is a dictionary with the first-seen keys and the
      selected texts under each key. */
  lemma GroupOfIsDictionary(es: seq<Entry>)
    ensures DistinctKeys(GroupOf(es))
    ensures Keys(GroupOf(es)) == FirstSeen(es)
    ensures forall k :: Lookup(GroupOf(es), k) == Select(es, k)
  {
    var g := GroupOf(es);
    FirstSeenDistinct(es);
    assert Keys(g) == FirstSeen(es);
    forall k ensures Lookup(g, k) == Select(es, k) {
      FirstSeenIffSelected(es, k);
      if k in Keys(g) {
        var i :| 0 <= i < |g| && Keys(g)[i] == k;
        LookupAt(g, i);
      } else {
        LookupMissing(g, k);
      }
    }
  }

  /** One line more: the cursor moves on a header, and the trace grows by the line
      when it is kept. */
  lemma ScanAppend(done: seq<string>, line: string)
    ensures CursorAfter(done + [line]) ==
      if HeaderOf(line).Some? then HeaderOf(line).value else CursorAfter(done)
    ensures Emitted(done + [line]) == Emitted(done) +
      (if Kept(CursorAfter(done), line) then [Entry(CursorAfter(done), FormatLine(line))] else [])
  {
    assert (done + [line])[..|done|] == done;
  }

  /** Appending a kept line to the dictionary keeps it equal to the grouping of the
      trace. */
  lemma StepKeepsGrouping(done: seq<string>, line: string, changes: ChangeList, next: ChangeList)
    requires DistinctKeys(changes)
    requires Keys(changes) == FirstSeen(Emitted(done))
    requires forall k :: Lookup(changes, k) == Select(Emitted(done), k)
    requires next == if Kept(CursorAfter(done), line)
                     then SetDefaultAppend(changes, CursorAfter(done), FormatLine(line))
                     else changes
    ensures DistinctKeys(next)
    ensures Keys(next) == FirstSeen(Emitted(done + [line]))
    ensures forall k :: Lookup(next, k) == Select(Emitted(done + [line]), k)
  {
    ScanAppend(done, line);
    var before := Emitted(done);
    if Kept(CursorAfter(done), line) {
      var e := Entry(CursorAfter(done), FormatLine(line));
      assert Emitted(done + [line]) == before + [e];
      EntryKeepsGrouping(changes, before, e);
    } else {
      assert Emitted(done + [line]) == before;
    }
  }

  /** Appending an entry's text under its FIR keeps the dictionary equal to the
      grouping of the trace extended by that entry. */
  lemma EntryKeepsGrouping(changes: ChangeList, es: seq<Entry>, e: Entry)
    requires DistinctKeys(changes)
    requires Keys(changes) == FirstSeen(es)
    requires forall k :: Lookup(changes, k) == Select(es, k)
    ensures DistinctKeys(SetDefaultAppend(changes, e.fir, e.text))
    ensures Keys(SetDefaultAppend(changes, e.fir, e.text)) == FirstSeen(es + [e])
    ensures forall k :: Lookup(SetDefaultAppend(changes, e.fir, e.text), k) == Select(es + [e], k)
  {
    SetDefaultAppendKeys(changes, e.fir, e.text);
    SetDefaultAppendLookup(changes, e.fir, e.text);
    SetDefaultAppendDistinct(changes, e.fir, e.text);
    TraceAppend(es, e);
  }

  /** The loop of `save_text_to_txt` over the lines of the text (main.py:37-52). The
      result is the reference grouping of the kept lines. */
  method ScanChanges(lines: seq<string>) returns (changes: ChangeList)
    ensures changes == GroupOf(Emitted(lines))
  {
    var fir := "";
    changes := [];
    var i := 0;
    while i < |lines|
      invariant 0 <= i <= |lines|
      invariant fir == CursorAfter(lines[..i])
      invariant DistinctKeys(changes)
      invariant Keys(changes) == FirstSeen(Emitted(lines[..i]))
      invariant forall k :: Lookup(changes, k) == Select(Emitted(lines[..i]), k)
    {
      var line := lines[i];
      assert lines[..i + 1] == lines[..i] + [line];
      ghost var old_changes := changes;
      var found := FindToken(line, 0);
      if found.Some? && TokenAt(line, found.value).value in Firs {
        assert HeaderOf(line) == TokenAt(line, found.value);
        fir := TokenAt(line, found.value).value;
      } else {
        assert HeaderOf(line).None?;
        if fir != "" && fir != Atc && HasCode(line) {
          changes := SetDefaultAppend(changes, fir, FormatLine(line));
        }
      }
      ScanAppend(lines[..i], line);
      StepKeepsGrouping(lines[..i], line, old_changes, changes);
      i := i + 1;
    }
    assert lines[..i] == lines;
    GroupOfIsDictionary(Emitted(lines));
    SameDictionary(changes, GroupOf(Emitted(lines)));
  }

  // ---------------------------------------------------------------------------
  // Properties of the scan
  // ---------------------------------------------------------------------------

  /** The cursor is empty or one of FIRS. */
  lemma {:induction false} CursorEmptyOrListed(lines: seq<string>)
    ensures CursorAfter(lines) == "" || CursorAfter(lines) in Firs
  {
    if lines != [] && HeaderOf(lines[|lines| - 1]).None? {
      CursorEmptyOrListed(lines[..|lines| - 1]);
    }
  }

  /** A header line sets the cursor to its token and adds nothing to the output; a
      line that is not a header leaves the cursor as it was. */
  lemma HeaderStep(done: seq<string>, line: string)
    ensures HeaderOf(line).Some? ==>
      CursorAfter(done + [line]) == HeaderOf(line).value && Emitted(done + [line]) == Emitted(done)
    ensures HeaderOf(line).None? ==> CursorAfter(done + [line]) == CursorAfter(done)
  {
    ScanAppend(done, line);
    assert Emitted(done) + [] == Emitted(done);
  }

  /** While the cursor is empty or ATC, no line is output: lines that are not headers
      change neither the cursor nor the output. */
  lemma {:induction false} NoOutputOutsideRealFir(before: seq<string>, after: seq<string>)
    requires !IsRealFir(CursorAfter(before))
    requires forall i :: 0 <= i < |after| ==> HeaderOf(after[i]).None?
    ensures CursorAfter(before + after) == CursorAfter(before)
    ensures Emitted(before + after) == Emitted(before)
  {
    if after != [] {
      var init := after[..|after| - 1];
      var line := after[|after| - 1];
      assert before + after == (before + init) + [line];
      NoOutputOutsideRealFir(before, init);
      ScanAppend(before + init, line);
      assert Emitted(before + init) + [] == Emitted(before + init);
    } else {
      assert before + after == before;
    }
  }

  /** Under a real FIR, a line that is not a header is appended, formatted, to the
      list of the cursor's FIR exactly when it mentions a code; every other list and
      the order of the keys stay as they were. */
  lemma ContentStep(done: seq<string>, line: string)
    requires IsRealFir(CursorAfter(done)) && HeaderOf(line).None?
    ensures GroupOf(Emitted(done + [line])) ==
      if HasCode(line)
      then SetDefaultAppend(GroupOf(Emitted(done)), CursorAfter(done), FormatLine(line))
      else GroupOf(Emitted(done))
  {
    var c := GroupOf(Emitted(done));
    GroupOfIsDictionary(Emitted(done));
    var next := if HasCode(line) then SetDefaultAppend(c, CursorAfter(done), FormatLine(line)) else c;
    StepKeepsGrouping(done, line, c, next);
    GroupOfIsDictionary(Emitted(done + [line]));
    SameDictionary(next, GroupOf(Emitted(done + [line])));
  }

  /** Every kept line is recorded under one of the four real FIRs. */
  lemma {:induction false} EmittedUnderRealFirs(lines: seq<string>)
    ensures forall i :: 0 <= i < |Emitted(lines)| ==>
      Emitted(lines)[i].fir in Firs && IsRealFir(Emitted(lines)[i].fir)
  {
    if lines != [] {
      var before := lines[..|lines| - 1];
      EmittedUnderRealFirs(before);
      CursorEmptyOrListed(before);
    }
  }

  /** Each group of the output has at least one line and a real FIR; so a header
      that is followed by no kept line produces no group, and neither ATC nor the
      empty cursor ever does. */
  lemma GroupsNonEmpty(lines: seq<string>)
    ensures forall i :: 0 <= i < |GroupOf(Emitted(lines))| ==>
      GroupOf(Emitted(lines))[i].entries != [] && IsRealFir(GroupOf(Emitted(lines))[i].fir)
  {
    var es := Emitted(lines);
    var g := GroupOf(es);
    EmittedUnderRealFirs(lines);
    forall i | 0 <= i < |g| ensures g[i].entries != [] && IsRealFir(g[i].fir) {
      var k := FirstSeen(es)[i];
      FirstSeenIffSelected(es, k);
      FirstSeenFromEntries(es, k);
    }
  }

  /** A first-seen FIR is the FIR of some entry. */
  lemma {:induction false} FirstSeenFromEntries(es: seq<Entry>, k: string)
    requires k in FirstSeen(es)
    ensures exists i :: 0 <= i < |es| && es[i].fir == k
  {
    var init := es[..|es| - 1];
    if k in FirstSeen(init) {
      FirstSeenFromEntries(init, k);
      var i :| 0 <= i < |init| && init[i].fir == k;
      assert es[i] == init[i];
    } else {
      assert es[|es| - 1].fir == k;
    }
  }

  /** Each FIR's list keeps the encounter order: the lines of an earlier stretch of
      input come before those of a later one. */
  lemma {:induction false} SelectSplits(a: seq<Entry>, b: seq<Entry>, k: string)
    ensures Select(a + b, k) == Select(a, k) + Select(b, k)
  {
    if b == [] {
      assert a + b == a;
    } else {
      var init := b[..|b| - 1];
      assert (a + b)[..|a + b| - 1] == a + init;
      SelectSplits(a, init, k);
    }
  }

  /** Later entries never reorder the keys: the first-seen FIRs of a prefix of the
      trace are a prefix of the first-seen FIRs of the whole trace. */
  lemma {:induction false} FirstSeenGrows(a: seq<Entry>, b: seq<Entry>)
    ensures |FirstSeen(a)| <= |FirstSeen(a + b)| && FirstSeen(a + b)[..|FirstSeen(a)|] == FirstSeen(a)
  {
    if b == [] {
      assert a + b == a;
    } else {
      var init := b[..|b| - 1];
      assert (a + b)[..|a + b| - 1] == a + init;
      FirstSeenGrows(a, init);
    }
  }
}
