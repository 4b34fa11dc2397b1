/**
 The game screen's state and its handlers. The fields are the component's
 state variables; the methods are `handleSubmit`, `revealHint`, `resetGame`,
 the input's change handler, the effect that counts the streak, and
 `checkAchievements`. The target is chosen once, when the session starts.

 The screen disables the guess input, the Guess button and the Hint button
 once the game is won or lost; that guard is the precondition of `Submit`
 and `RevealHint` here.
 */
module Session {
  import opened Drugs
  import opened Engine

  const UnknownDrugMessage: string := "Unknown drug. Please pick from suggestions."

  class Game {
    const catalog: seq<DrugRecord>
    const target: DrugRecord
    var guesses: seq<DrugRecord>
    var currentGuess: string
    var error: string
    var hintsRevealed: seq<Category>
    var streak: nat
    var achievements: seq<string>

    /**
     The session invariant: the target and every guess come from the catalog,
     no guess repeats the one before it, at most six guesses are made, and the
     revealed hints are distinct hintable categories.
     */
    ghost predicate Valid()
      reads this`guesses, this`hintsRevealed
    {
      && target in catalog
      && (forall i :: 0 <= i < |guesses| ==> guesses[i] in catalog)
      && NoAdjacentRepeat(guesses)
      && |guesses| <= MaxAttempts
      && HintsValid(hintsRevealed)
    }

    /** The screen as it starts: today's target, no guesses, no hints, the stored counters. */
    constructor (catalog: seq<DrugRecord>, startMs: int, nowMs: int, storedStreak: nat, storedAchievements: seq<string>)
      requires GetDailyDrug(catalog, startMs, nowMs).Some?
      ensures Valid()
      ensures this.catalog == catalog && target == GetDailyDrug(catalog, startMs, nowMs).value
      ensures guesses == [] && currentGuess == "" && error == "" && hintsRevealed == []
      ensures streak == storedStreak && achievements == storedAchievements
    {
      this.catalog := catalog;
      target := GetDailyDrug(catalog, startMs, nowMs).value;
      guesses := [];
      currentGuess := "";
      error := "";
      hintsRevealed := [];
      streak := storedStreak;
      achievements := storedAchievements;
    }

    /** The input's change handler, and a click on a suggestion: the typed text becomes `text`. */
    method SetCurrentGuess(text: string)
      modifies this`currentGuess
      ensures currentGuess == text
    {
      currentGuess := text;
    }

    /**
     The effect keyed on `hasWon`: it runs when `hasWon` differs from its value
     at the previous render (`wasWon`) and then adds one to the streak if the
     game is now won.
     */
    method StreakEffect(wasWon: bool)
      modifies this`streak
      ensures streak == old(streak) + (if HasWon(guesses, target) && !wasWon then 1 else 0)
    {
      var won := HasWon(guesses, target);
      if won != wasWon && won {
        streak := streak + 1;
      }
    }

    /**
     `handleSubmit`: resolves the typed name against the catalog. An unknown
     name sets the error message and changes nothing else. A known one clears
     the error and the input and is appended unless it repeats the last guess;
     the streak then grows by one if this guess wins the game.
     */
    method Submit()
      requires Valid() && !HasWon(guesses, target) && !HasLost(guesses, target)
      modifies this
      ensures Valid()
      ensures hintsRevealed == old(hintsRevealed) && achievements == old(achievements)
      ensures match Resolve(catalog, old(currentGuess))
        case None =>
          && guesses == old(guesses) && error == UnknownDrugMessage
          && currentGuess == old(currentGuess) && streak == old(streak)
        case Some(d) =>
          && guesses == AppendGuess(old(guesses), d) && error == "" && currentGuess == ""
          && streak == old(streak) + (if HasWon(guesses, target) then 1 else 0)
    {
      var found := Resolve(catalog, currentGuess);
      var wasWon := HasWon(guesses, target);
      error := "";
      if found.None? {
        error := UnknownDrugMessage;
        return;
      }
      RecordGuess(found.value);
      currentGuess := "";
      StreakEffect(wasWon);
    }

    /** The `setGuesses` updater of `handleSubmit`: appends `d` unless it repeats the last guess. */
    method RecordGuess(d: DrugRecord)
      requires Valid() && d in catalog && |guesses| < MaxAttempts
      modifies this`guesses
      ensures Valid()
      ensures guesses == AppendGuess(old(guesses), d)
    {
      var prev := guesses;
      AppendGuessProperties(prev, d);
      if !(|prev| > 0 && SameName(prev[|prev| - 1], d)) {
        guesses := prev + [d];
      }
    }

    /**
     `revealHint`: appends one hint category not revealed yet, the one at
     `choice` among those remaining (the source draws it at random); once all
     five are revealed it does nothing.
     */
    method RevealHint(choice: nat)
      requires Valid() && !HasWon(guesses, target) && !HasLost(guesses, target)
      requires Remaining(hintsRevealed) != [] ==> choice < |Remaining(hintsRevealed)|
      modifies this`hintsRevealed
      ensures Valid()
      ensures Remaining(old(hintsRevealed)) == [] ==> hintsRevealed == old(hintsRevealed)
      ensures Remaining(old(hintsRevealed)) != [] ==>
        hintsRevealed == old(hintsRevealed) + [Remaining(old(hintsRevealed))[choice]]
      ensures |hintsRevealed| == if |old(hintsRevealed)| < |HintCategories()| then |old(hintsRevealed)| + 1 else |old(hintsRevealed)|
    {
      var remaining := Remaining(hintsRevealed);
      RemainingCount(hintsRevealed);
      if |remaining| == 0 {
        return;
      }
      var next := remaining[choice];
      RevealKeepsHintsValid(hintsRevealed, choice);
      hintsRevealed := hintsRevealed + [next];
    }

    /** `resetGame`: empties the guesses and hints and clears the error and the input; the streak stays. */
    method Reset()
      requires Valid()
      modifies this
      ensures Valid()
      ensures guesses == [] && currentGuess == "" && error == "" && hintsRevealed == []
      ensures streak == old(streak) && achievements == old(achievements)
    {
      var wasWon := HasWon(guesses, target);
      guesses := [];
      currentGuess := "";
      error := "";
      hintsRevealed := [];
      StreakEffect(wasWon);
    }

    /**
     `checkAchievements`: given an outcome and the hints revealed, pushes the
     achievements it unlocks onto the stored list and returns that list.
     */
    method CheckAchievements(won: bool, hints: seq<Category>) returns (list: seq<string>)
      modifies this`achievements
      ensures achievements == Unlock(old(achievements), won, |hints|)
      ensures list == achievements
    {
      var a := achievements;
      if won && FirstWin !in a {
        a := a + [FirstWin];
      }
      if won && |hints| == 0 && WinWithoutHints !in a {
        a := a + [WinWithoutHints];
      }
      achievements := a;
      list := a;
    }
  }

  /**
   A client of the handlers: on day 0 of a two-entry catalog the target is
   Aspirin; a repeated guess is recorded once, and an unknown name only sets
   the error message.
   */
  method RepeatScenario() {
    var g := new Game([Aspirin, Ibuprofen], 0, 0, 0, []);
    DayCountUnique(0, 0, 0);
    assert g.target == Aspirin;
    ResolveExact();
    ResolveUnknown();

    g.SetCurrentGuess("Ibuprofen");
    g.Submit();
    assert g.guesses == [Ibuprofen];
    assert !HasWon(g.guesses, g.target);
    g.SetCurrentGuess("Ibuprofen");
    g.Submit();
    assert g.guesses == [Ibuprofen];

    g.SetCurrentGuess("Paracetamol");
    g.Submit();
    assert g.error == UnknownDrugMessage && g.guesses == [Ibuprofen];
  }

  /**
   A client of the handlers: "aspirin " with a trailing space wins on the
   first guess and the streak goes up by one; a reset keeps the streak, and
   winning the same puzzle again after the reset counts once more.
   */
  method WinScenario() {
    var g := new Game([Aspirin, Ibuprofen], 0, 0, 0, []);
    DayCountUnique(0, 0, 0);
    assert g.target == Aspirin;
    ResolvePadded();

    g.SetCurrentGuess("aspirin ");
    g.Submit();
    assert g.guesses == [Aspirin];
    assert HasWon(g.guesses, g.target);
    assert g.streak == 1;

    g.Reset();
    assert g.guesses == [] && g.streak == 1;

    g.SetCurrentGuess("aspirin ");
    g.Submit();
    assert g.guesses == [Aspirin] && g.streak == 2;
  }
}
