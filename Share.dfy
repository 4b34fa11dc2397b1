/**
 The results panel's formatter: the number of the daily puzzle and the text
 offered for copying, a header line followed by one line of five squares per
 guess, a filled square where the guess has exactly the target's value in that
 category. The game screen declares the panel but never opens it, so these are
 standalone functions of the guesses, the target and the puzzle number.
 */
module Share {
  import opened Text
  import opened Drugs
  import opened Engine

  /** The green square of a category whose value equals the target's. */
  const Filled: char := '\U{1F7E9}'
  /** The white square of a category whose value differs. */
  const Blank: char := '\U{2B1C}'
  /** The party popper that opens the header. */
  const Party: char := '\U{1F389}'

  /** The five categories of a result line, in order; prescription status is not shown. */
  const ShareCategories: seq<Category> := [TherapeuticClass, MoleculeClass, Route, Mechanism, TargetSystem]

  // ---------------------------------------------------------------------------
  // Puzzle number

  /** `getDailyNumber`: whole days since the reference instant, counted from 1. */
  function DailyNumber(startMs: int, nowMs: int): (n: int)
    ensures (n - 1) * MsPerDay <= nowMs - startMs < n * MsPerDay
  {
    DayCount(startMs, nowMs) + 1
  }

  /** The reference day is puzzle 1, and each later day is numbered one higher. */
  lemma DailyNumberSteps(startMs: int, nowMs: int)
    ensures startMs <= nowMs < startMs + MsPerDay ==> DailyNumber(startMs, nowMs) == 1
    ensures DailyNumber(startMs, nowMs + MsPerDay) == DailyNumber(startMs, nowMs) + 1
  {
    var d := DayCount(startMs, nowMs);
    DayCountUnique(startMs, nowMs + MsPerDay, d + 1);
    if startMs <= nowMs < startMs + MsPerDay {
      DayCountUnique(startMs, nowMs, 0);
    }
  }

  /**
   From the reference day on, puzzle `n` is the entry at index `n - 1` modulo
   the catalog length: the number shown belongs to the drug of the day.
   */
  lemma DailyNumberNamesTarget(catalog: seq<DrugRecord>, startMs: int, nowMs: int)
    requires |catalog| > 0 && nowMs >= startMs
    ensures DailyNumber(startMs, nowMs) >= 1
    ensures GetDailyDrug(catalog, startMs, nowMs)
      == Some(catalog[(DailyNumber(startMs, nowMs) - 1) % |catalog|])
  {
  }

  // ---------------------------------------------------------------------------
  // Result lines

  /** One guess's line: a filled square per category whose value equals the target's, character for character. */
  function Line(g: DrugRecord, t: DrugRecord): (r: string)
    ensures |r| == |ShareCategories|
    ensures forall i :: 0 <= i < |r| ==> r[i] == Filled || r[i] == Blank
  {
    seq(|ShareCategories|, i requires 0 <= i < |ShareCategories| =>
      if g.Attr(ShareCategories[i]) == t.Attr(ShareCategories[i]) then Filled else Blank)
  }

  /** `guesses.map(...)`: the lines in the order the guesses were made. */
  function Lines(guesses: seq<DrugRecord>, t: DrugRecord): (r: seq<string>)
    ensures |r| == |guesses|
    ensures forall i :: 0 <= i < |r| ==> r[i] == Line(guesses[i], t)
  {
    seq(|guesses|, i requires 0 <= i < |guesses| => Line(guesses[i], t))
  }

  /** A square is filled exactly when the guess's value in that category equals the target's. */
  lemma {:induction false} LineSquares(g: DrugRecord, t: DrugRecord, i: nat)
    requires i < |ShareCategories|
    ensures Line(g, t)[i] == Filled <==> g.Attr(ShareCategories[i]) == t.Attr(ShareCategories[i])
  {
    assert Filled != Blank;
  }

  /** Guessing the target itself gives five filled squares. */
  lemma LineSelf(t: DrugRecord)
    ensures Line(t, t) == [Filled, Filled, Filled, Filled, Filled]
  {
  }

  /** In a catalog with distinct names, the winning guess is the target and its line is all filled. */
  lemma WinningLine(catalog: seq<DrugRecord>, g: DrugRecord, t: DrugRecord)
    requires DistinctNames(catalog) && g in catalog && t in catalog
    requires SameName(g, t)
    ensures Line(g, t) == [Filled, Filled, Filled, Filled, Filled]
  {
    var i :| 0 <= i < |catalog| && catalog[i] == g;
    var j :| 0 <= j < |catalog| && catalog[j] == t;
    LineSelf(t);
  }

  /**
   The line never looks at the name, the prescription status or the summary:
   two guesses with the same five category values get the same line.
   */
  lemma LineOnlyShareCategories(g: DrugRecord, h: DrugRecord, t: DrugRecord)
    requires forall c :: c in ShareCategories ==> g.Attr(c) == h.Attr(c)
    ensures Line(g, t) == Line(h, t)
  {
    forall i | 0 <= i < |ShareCategories|
      ensures Line(g, t)[i] == Line(h, t)[i]
    {
      assert ShareCategories[i] in ShareCategories;
    }
  }

  /** A filled square means the board's comparison also reports a match in that category. */
  lemma FilledMeansMatch(g: DrugRecord, t: DrugRecord, i: nat)
    requires i < |ShareCategories| && Line(g, t)[i] == Filled
    ensures ComputeMatch(t, ShareCategories[i], Some(g.Attr(ShareCategories[i]))) == Match
  {
    LineSquares(g, t, i);
  }

  /**
   The converse fails: the share line compares raw text while the board
   compares normalised text, so a value differing only in case is a match on
   the board and a blank square in the shared line.
   */
  lemma LineCaseSensitive()
    ensures var g := Aspirin.(therapeuticClass := "nsaid");
      && ComputeMatch(Aspirin, TherapeuticClass, Some(g.therapeuticClass)) == Match
      && Line(g, Aspirin)[0] == Blank
  {
    NormalizeUnpadded("NSAID");
    NormalizeUnpadded("nsaid");
    assert ToLower("NSAID") == "nsaid";
    assert ToLower("nsaid") == "nsaid";
    assert "nsaid" != "NSAID";
  }

  // ---------------------------------------------------------------------------
  // The share text

  /** The first line of the share text, which carries the puzzle number. */
  function Header(n: int): (r: string)
    ensures '\n' !in r
  {
    [Party] + " I won Druggle #" + IntToString(n) + "!"
  }

  /** `generateShareString`: the header, a line break, then the lines joined by line breaks. */
  function ShareString(guesses: seq<DrugRecord>, t: DrugRecord, n: int): string {
    Header(n) + "\n" + Join(Lines(guesses, t), '\n')
  }

  /** Different puzzle numbers give different headers. */
  lemma HeaderInjective(m: int, n: int)
    requires Header(m) == Header(n)
    ensures m == n
  {
    var p := |[Party] + " I won Druggle #"|;
    assert IntToString(m) == Header(m)[p..|Header(m)| - 1];
    assert IntToString(n) == Header(n)[p..|Header(n)| - 1];
    IntToStringInjective(m, n);
  }

  /**
   Cutting the share text at its line breaks gives back the header and one
   line per guess, in order.
   */
  lemma ShareStringLines(guesses: seq<DrugRecord>, t: DrugRecord, n: int)
    requires |guesses| >= 1
    ensures Split(ShareString(guesses, t, n), '\n') == [Header(n)] + Lines(guesses, t)
  {
    var lines := Lines(guesses, t);
    forall k | 0 <= k < |lines| ensures '\n' !in lines[k] {
      assert forall i :: 0 <= i < |lines[k]| ==> lines[k][i] == Filled || lines[k][i] == Blank;
    }
    SplitJoin(lines, '\n');
    SplitCons(Header(n), '\n', Join(lines, '\n'));
  }

  /** With no guesses the share text is the header followed by an empty line. */
  lemma ShareStringNoGuesses(t: DrugRecord, n: int)
    ensures ShareString([], t, n) == Header(n) + "\n"
    ensures Split(ShareString([], t, n), '\n') == [Header(n), ""]
  {
    assert Header(n) + "\n" == Header(n) + "\n" + [];
    SplitCons(Header(n), '\n', []);
  }

  /** The share text of a one-guess win on puzzle 4: the header and five filled squares. */
  lemma ShareScenario()
    ensures ShareString([Aspirin], Aspirin, 4)
      == [Party] + " I won Druggle #4!\n" + [Filled, Filled, Filled, Filled, Filled]
  {
    LineSelf(Aspirin);
    assert IntToString(4) == "4";
  }
}
