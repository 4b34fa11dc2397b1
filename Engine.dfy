/**
 The pure logic of the game screen: name normalisation, per-category matching,
 the daily target, catalog lookup, the win and loss predicates, the rule that
 appends a guess, the hint candidates, achievement unlocking and the
 autocomplete filter. The state that these functions read and the handlers
 that update it are in module Session.
 */
module Engine {
  import opened Text
  import opened Drugs

  // ---------------------------------------------------------------------------
  // Normalisation and matching

  /** `normalize`: a missing value becomes the empty text; any other is trimmed, then lower-cased. */
  function Normalize(v: Option<string>): string {
    match v
    case None => []
    case Some(s) => ToLower(Trim(s))
  }

  /**
   A normalised value has no white space at either end and no upper-case
   letter; a missing value normalises to the empty text.
   */
  lemma NormalizeSpec(v: Option<string>)
    ensures v.None? ==> Normalize(v) == []
    ensures var r := Normalize(v);
      && (r == [] || (!IsSpace(r[0]) && !IsSpace(r[|r| - 1])))
      && (forall i :: 0 <= i < |r| ==> !('A' <= r[i] <= 'Z'))
  {
    if v.Some? {
      TrimSpec(v.value);
      ToLowerSpec(Trim(v.value));
    }
  }

  /** Normalising an already normalised value changes nothing. */
  lemma NormalizeIdempotent(v: Option<string>)
    ensures Normalize(Some(Normalize(v))) == Normalize(v)
  {
    var n := Normalize(v);
    NormalizeSpec(v);
    TrimStartOfTrimmed(n);
    TrimEndOfTrimmed(n);
    ToLowerSpec(n);
    if v.Some? {
      ToLowerSpec(Trim(v.value));
    }
  }

  /** Normalisation ignores letter case. */
  lemma NormalizeToLower(s: string)
    ensures Normalize(Some(ToLower(s))) == Normalize(Some(s))
  {
    TrimToLower(s);
    ToLowerSpec(Trim(s));
  }

  /** Text without white space at either end normalises to its lower-case form. */
  lemma NormalizeUnpadded(s: string)
    requires s == [] || (!IsSpace(s[0]) && !IsSpace(s[|s| - 1]))
    ensures Normalize(Some(s)) == ToLower(s)
  {
    TrimStartOfTrimmed(s);
    TrimEndOfTrimmed(s);
  }

  /**
   Two texts normalise alike exactly when, once trimmed, they have the same
   length and agree character by character up to ASCII letter case.
   */
  lemma NormalizeEqual(a: string, b: string)
    ensures Normalize(Some(a)) == Normalize(Some(b)) <==>
      (|Trim(a)| == |Trim(b)| && forall i :: 0 <= i < |Trim(a)| ==> SameUpToAsciiCase(Trim(a)[i], Trim(b)[i]))
  {
    var x, y := Trim(a), Trim(b);
    ToLowerSpec(x);
    ToLowerSpec(y);
    forall i | 0 <= i < |x| && i < |y|
      ensures ToLower(x)[i] == ToLower(y)[i] <==> SameUpToAsciiCase(x[i], y[i])
    {
      LowerCharEqual(x[i], y[i]);
    }
    if |x| == |y| && forall i :: 0 <= i < |x| ==> SameUpToAsciiCase(x[i], y[i]) {
      assert ToLower(x) == ToLower(y);
    }
  }

  /** Names differing in a letter, not only in its case, stay apart after normalisation. */
  lemma NormalizeKeepsLetters()
    ensures Normalize(Some("Aspirin")) != Normalize(Some("Bspirin"))
    ensures Normalize(Some("ASPIRIN")) == Normalize(Some("aspirin"))
  {
    NormalizeUnpadded("Aspirin");
    NormalizeUnpadded("Bspirin");
    NormalizeUnpadded("ASPIRIN");
    NormalizeUnpadded("aspirin");
    assert ToLower("Aspirin")[0] != ToLower("Bspirin")[0];
    ToLowerSpec("ASPIRIN");
    ToLowerSpec("aspirin");
    assert ToLower("ASPIRIN") == "aspirin";
  }

  /** A present value normalises to the empty text exactly when it is all white space. */
  lemma NormalizeEmpty(s: string)
    ensures Normalize(Some(s)) == [] <==> AllSpace(s)
  {
    TrimEmpty(s);
  }

  datatype MatchStatus = Match | NoMatch

  /** `computeMatch`: compares the target's attribute with a value, both normalised. */
  function ComputeMatch(target: DrugRecord, key: Category, value: Option<string>): MatchStatus {
    if Normalize(Some(target.Attr(key))) == Normalize(value) then Match else NoMatch
  }

  /** Every record matches itself in every category. */
  lemma ComputeMatchReflexive(a: DrugRecord, key: Category)
    ensures ComputeMatch(a, key, Some(a.Attr(key))) == Match
  {
  }

  /** Comparing `a` against `b`'s value gives the same status as comparing `b` against `a`'s. */
  lemma ComputeMatchSymmetric(a: DrugRecord, b: DrugRecord, key: Category)
    ensures ComputeMatch(a, key, Some(b.Attr(key))) == ComputeMatch(b, key, Some(a.Attr(key)))
    ensures ComputeMatch(a, key, Some(b.Attr(key))) == Match
        <==> Normalize(Some(a.Attr(key))) == Normalize(Some(b.Attr(key)))
  {
  }

  /** The status does not depend on the case of the value, nor on its surrounding white space. */
  lemma ComputeMatchInsensitive(target: DrugRecord, key: Category, s: string)
    ensures ComputeMatch(target, key, Some(ToLower(s))) == ComputeMatch(target, key, Some(s))
    ensures ComputeMatch(target, key, Some(Normalize(Some(s)))) == ComputeMatch(target, key, Some(s))
  {
    NormalizeToLower(s);
    NormalizeIdempotent(Some(s));
  }

  /** A missing value matches exactly the attributes that are all white space. */
  lemma ComputeMatchMissing(target: DrugRecord, key: Category)
    ensures ComputeMatch(target, key, None) == Match <==> AllSpace(target.Attr(key))
  {
    NormalizeEmpty(target.Attr(key));
  }

  // ---------------------------------------------------------------------------
  // Daily target

  const MsPerDay: int := 1000 * 60 * 60 * 24

  /** Whole days from the reference instant to now: `Math.floor((now - start) / msPerDay)`. */
  function DayCount(startMs: int, nowMs: int): (d: int)
    ensures d * MsPerDay <= nowMs - startMs < (d + 1) * MsPerDay
  {
    (nowMs - startMs) / MsPerDay
  }

  /** The day count is the unique `d` whose day contains `now`. */
  lemma DayCountUnique(startMs: int, nowMs: int, d: int)
    requires startMs + d * MsPerDay <= nowMs < startMs + (d + 1) * MsPerDay
    ensures DayCount(startMs, nowMs) == d
  {
  }

  /** Euclidean division has one remainder: any `q * n + r` with `0 <= r < n` leaves `r`. */
  lemma ModUnique(a: int, n: int, q: int, r: int)
    requires n > 0 && 0 <= r < n && a == q * n + r
    ensures a % n == r
  {
    var k := q - a / n;
    assert k * n == a % n - r;
  }

  /** JavaScript's `%`: the remainder has the sign of the dividend. */
  function JsRemainder(a: int, n: int): (r: int)
    requires n > 0
    ensures a >= 0 ==> 0 <= r < n && r == a % n
    ensures a < 0 ==> -n < r <= 0 && (r == 0 <==> a % n == 0)
  {
    if a >= 0 then a % n
    else
      var m := (-a) % n;
      assert m == 0 ==> a % n == 0 by {
        if m == 0 { ModUnique(a, n, -((-a) / n), 0); }
      }
      assert a % n == 0 ==> m == 0 by {
        if a % n == 0 { ModUnique(-a, n, -(a / n), 0); }
      }
      -m
  }

  /** `diffDays % DRUGS.length`, the index the daily selection reads. */
  function DailyIndex(n: int, startMs: int, nowMs: int): int
    requires n > 0
  {
    JsRemainder(DayCount(startMs, nowMs), n)
  }

  /**
   `getDailyDrug`: the catalog entry at the day count modulo the catalog length;
   `None` where JavaScript would read `undefined` (an empty catalog, or a
   negative remainder before the reference day).
   */
  function GetDailyDrug(catalog: seq<DrugRecord>, startMs: int, nowMs: int): (r: Option<DrugRecord>)
    ensures r.Some? <==>
      |catalog| > 0 && (DayCount(startMs, nowMs) >= 0 || DayCount(startMs, nowMs) % |catalog| == 0)
    ensures r.Some? ==> r.value == catalog[DayCount(startMs, nowMs) % |catalog|]
  {
    if |catalog| == 0 then None
    else
      var i := DailyIndex(|catalog|, startMs, nowMs);
      if 0 <= i then Some(catalog[i]) else None
  }

  /** Two instants within the same day select the same entry. */
  lemma DailySameDay(catalog: seq<DrugRecord>, startMs: int, now1: int, now2: int, d: int)
    requires startMs + d * MsPerDay <= now1 < startMs + (d + 1) * MsPerDay
    requires startMs + d * MsPerDay <= now2 < startMs + (d + 1) * MsPerDay
    ensures GetDailyDrug(catalog, startMs, now1) == GetDailyDrug(catalog, startMs, now2)
  {
    DayCountUnique(startMs, now1, d);
    DayCountUnique(startMs, now2, d);
  }

  lemma ModSucc(d: nat, n: int)
    requires n > 0
    ensures (d + 1) % n == (d % n + 1) % n
  {
    var q, r := d / n, d % n;
    if r + 1 < n {
      ModUnique(d + 1, n, q, r + 1);
      ModUnique(r + 1, n, 0, r + 1);
    } else {
      ModUnique(d + 1, n, q + 1, 0);
      ModUnique(r + 1, n, 1, 0);
    }
  }

  /** From the reference day on, one day later the index is one further, wrapping around. */
  lemma DailyNextDay(n: int, startMs: int, nowMs: int)
    requires n > 0
    requires nowMs >= startMs
    ensures 0 <= DailyIndex(n, startMs, nowMs) < n
    ensures DailyIndex(n, startMs, nowMs + MsPerDay) == (DailyIndex(n, startMs, nowMs) + 1) % n
  {
    var d := DayCount(startMs, nowMs);
    DayCountUnique(startMs, nowMs + MsPerDay, d + 1);
    ModSucc(d, n);
  }

  /** Three days after the reference day, a two-entry catalog selects its second entry. */
  lemma DailyScenario(startMs: int)
    ensures GetDailyDrug([Aspirin, Ibuprofen], startMs, startMs + 3 * MsPerDay) == Some(Ibuprofen)
  {
    DayCountUnique(startMs, startMs + 3 * MsPerDay, 3);
  }

  /** The day before the reference day has no target once the catalog has two entries or more. */
  lemma DailyBeforeStart(catalog: seq<DrugRecord>, startMs: int)
    requires |catalog| >= 2
    ensures GetDailyDrug(catalog, startMs, startMs - 1) == None
  {
    DayCountUnique(startMs, startMs - 1, -1);
  }

  // ---------------------------------------------------------------------------
  // Catalog lookup

  /** `normalize(d.name) === normalize(input)`: the record carries the typed name. */
  predicate NameMatches(d: DrugRecord, input: string) {
    Normalize(Some(d.name)) == Normalize(Some(input))
  }

  /** Two records name the same drug: one carries the other's name. */
  predicate SameName(a: DrugRecord, b: DrugRecord) {
    NameMatches(a, b.name)
  }

  /** No two catalog entries have the same normalised name. */
  predicate DistinctNames(catalog: seq<DrugRecord>) {
    forall i, j :: 0 <= i < j < |catalog| ==> !SameName(catalog[i], catalog[j])
  }

  /** The first index at or after `from` whose entry carries the name `input`. */
  function FindIndex(catalog: seq<DrugRecord>, input: string, from: nat): (r: Option<nat>)
    requires from <= |catalog|
    ensures r.Some? ==> from <= r.value < |catalog| && NameMatches(catalog[r.value], input)
    ensures r.Some? ==> forall j :: from <= j < r.value ==> !NameMatches(catalog[j], input)
    ensures r.None? ==> forall j :: from <= j < |catalog| ==> !NameMatches(catalog[j], input)
    decreases |catalog| - from
  {
    if from == |catalog| then None
    else if NameMatches(catalog[from], input) then Some(from)
    else FindIndex(catalog, input, from + 1)
  }

  /** `DRUGS.find(d => normalize(d.name) === normalize(input))`. */
  function Resolve(catalog: seq<DrugRecord>, input: string): (r: Option<DrugRecord>)
    ensures r.Some? ==> r.value in catalog
  {
    match FindIndex(catalog, input, 0)
    case None => None
    case Some(i) => Some(catalog[i])
  }

  /**
   A name resolves to a catalog entry that carries it, and fails to resolve
   exactly when no entry carries it.
   */
  lemma ResolveSpec(catalog: seq<DrugRecord>, input: string)
    ensures var r := Resolve(catalog, input);
      && (r.Some? ==> r.value in catalog && NameMatches(r.value, input))
      && (r.None? <==> forall d :: d in catalog ==> !NameMatches(d, input))
  {
    var r := FindIndex(catalog, input, 0);
    if r.None? {
      forall d | d in catalog ensures !NameMatches(d, input) {
        var j :| 0 <= j < |catalog| && catalog[j] == d;
      }
    }
  }

  /** In a catalog with distinct names, a name resolves to the one entry that carries it. */
  lemma ResolveUnique(catalog: seq<DrugRecord>, input: string, k: nat)
    requires DistinctNames(catalog)
    requires k < |catalog| && NameMatches(catalog[k], input)
    ensures Resolve(catalog, input) == Some(catalog[k])
  {
    var r := FindIndex(catalog, input, 0);
    assert r.Some?;
    var i := r.value;
    if i < k {
      assert SameName(catalog[i], catalog[k]);
      assert false;
    }
  }

  /** A name typed in another case and with a trailing space resolves to its entry. */
  lemma ResolvePadded()
    ensures Resolve([Aspirin, Ibuprofen], "aspirin ") == Some(Aspirin)
  {
    assert "aspirin "[..7] == "aspirin";
    assert TrimEnd("aspirin ") == TrimEnd("aspirin");
    TrimStartOfTrimmed("aspirin ");
    TrimEndOfTrimmed("aspirin");
    NormalizeUnpadded("Aspirin");
    assert NameMatches(Aspirin, "aspirin ");
    assert FindIndex([Aspirin, Ibuprofen], "aspirin ", 0) == Some(0);
  }

  /** A name resolves to its own entry even when another entry comes first. */
  lemma ResolveExact()
    ensures Resolve([Aspirin, Ibuprofen], "Ibuprofen") == Some(Ibuprofen)
    ensures !SameName(Ibuprofen, Aspirin)
  {
    NormalizeUnpadded("Aspirin");
    NormalizeUnpadded("Ibuprofen");
    assert ToLower("Aspirin")[0] != ToLower("Ibuprofen")[0];
    assert !NameMatches(Aspirin, "Ibuprofen");
    assert FindIndex([Aspirin, Ibuprofen], "Ibuprofen", 1) == Some(1);
  }

  /** A name outside the catalog does not resolve. */
  lemma ResolveUnknown()
    ensures Resolve([Aspirin, Ibuprofen], "Paracetamol") == None
  {
    NormalizeUnpadded("Aspirin");
    NormalizeUnpadded("Ibuprofen");
    NormalizeUnpadded("Paracetamol");
    assert ToLower("Aspirin")[0] != ToLower("Paracetamol")[0];
    assert ToLower("Ibuprofen")[0] != ToLower("Paracetamol")[0];
    assert FindIndex([Aspirin, Ibuprofen], "Paracetamol", 1) == None;
  }

  /** `DRUGS.map(d => d.name)`. */
  function Names(catalog: seq<DrugRecord>): (r: seq<string>)
    ensures |r| == |catalog| && forall i :: 0 <= i < |r| ==> r[i] == catalog[i].name
  {
    seq(|catalog|, i requires 0 <= i < |catalog| => catalog[i].name)
  }

  /** `filteredSuggestions`: names that extend the normalised input without being equal to it. */
  function Suggestions(names: seq<string>, input: string): (r: seq<string>)
    ensures forall n :: n in r <==>
      n in names && StartsWith(Normalize(Some(n)), Normalize(Some(input)))
      && Normalize(Some(n)) != Normalize(Some(input))
    ensures |r| <= |names|
  {
    if names == [] then []
    else
      var n := names[0];
      var rest := Suggestions(names[1..], input);
      if StartsWith(Normalize(Some(n)), Normalize(Some(input))) && Normalize(Some(n)) != Normalize(Some(input))
      then [n] + rest
      else rest
  }

  /** Picking a suggestion and submitting it always resolves to a catalog entry. */
  lemma SuggestionResolves(catalog: seq<DrugRecord>, input: string, n: string)
    requires n in Suggestions(Names(catalog), input)
    ensures Resolve(catalog, n).Some?
  {
    var names := Names(catalog);
    var i :| 0 <= i < |names| && names[i] == n;
    assert NameMatches(catalog[i], n);
    ResolveSpec(catalog, n);
  }

  // ---------------------------------------------------------------------------
  // Outcome

  const MaxAttempts: nat := 6

  /** `hasWon`: some guess names the target. */
  function HasWon(guesses: seq<DrugRecord>, target: DrugRecord): bool {
    if guesses == [] then false
    else SameName(guesses[0], target) || HasWon(guesses[1..], target)
  }

  /** A guess list is won exactly when one of its guesses names the target. */
  lemma {:induction false} HasWonSpec(guesses: seq<DrugRecord>, target: DrugRecord)
    ensures HasWon(guesses, target) <==> exists i :: 0 <= i < |guesses| && SameName(guesses[i], target)
  {
    if guesses != [] {
      HasWonSpec(guesses[1..], target);
      if HasWon(guesses[1..], target) {
        var i :| 0 <= i < |guesses| - 1 && SameName(guesses[1..][i], target);
        assert SameName(guesses[i + 1], target);
      }
      if exists i :: 0 <= i < |guesses| && SameName(guesses[i], target) {
        var i :| 0 <= i < |guesses| && SameName(guesses[i], target);
        if i > 0 {
          assert SameName(guesses[1..][i - 1], target);
        }
      }
    }
  }

  /** `hasLost`: all attempts are used and none names the target. */
  function HasLost(guesses: seq<DrugRecord>, target: DrugRecord): bool {
    |guesses| >= MaxAttempts && !HasWon(guesses, target)
  }

  /** Winning and losing exclude each other, and losing needs every attempt used. */
  lemma OutcomeExclusive(guesses: seq<DrugRecord>, target: DrugRecord)
    ensures !(HasWon(guesses, target) && HasLost(guesses, target))
    ensures HasLost(guesses, target) ==> |guesses| >= MaxAttempts
  {
  }

  /** Six guesses that never name the target lose. */
  lemma SixMissesLose(guesses: seq<DrugRecord>, target: DrugRecord)
    requires |guesses| == MaxAttempts
    requires forall i :: 0 <= i < |guesses| ==> !SameName(guesses[i], target)
    ensures HasLost(guesses, target) && !HasWon(guesses, target)
  {
    HasWonSpec(guesses, target);
  }

  /** A won list stays won whatever is appended. */
  lemma HasWonAppend(guesses: seq<DrugRecord>, d: DrugRecord, target: DrugRecord)
    ensures HasWon(guesses + [d], target) <==> HasWon(guesses, target) || SameName(d, target)
  {
    var g := guesses + [d];
    HasWonSpec(guesses, target);
    HasWonSpec(g, target);
    if SameName(d, target) {
      assert SameName(g[|guesses|], target);
    }
    if HasWon(guesses, target) {
      var i :| 0 <= i < |guesses| && SameName(guesses[i], target);
      assert SameName(g[i], target);
    }
    if HasWon(g, target) {
      var i :| 0 <= i < |g| && SameName(g[i], target);
      if i < |guesses| {
        assert SameName(guesses[i], target);
      }
    }
  }

  // ---------------------------------------------------------------------------
  // Appending a guess

  /** No guess repeats the name of the guess just before it. */
  predicate NoAdjacentRepeat(guesses: seq<DrugRecord>) {
    forall i :: 0 < i < |guesses| ==> !SameName(guesses[i - 1], guesses[i])
  }

  /** The update `handleSubmit` gives the guess list: a repeat of the last guess is dropped. */
  function AppendGuess(prev: seq<DrugRecord>, d: DrugRecord): seq<DrugRecord> {
    if |prev| > 0 && SameName(prev[|prev| - 1], d) then prev else prev + [d]
  }

  /**
   Appending keeps every earlier guess, adds at most `d` and only at the end,
   drops `d` exactly when it repeats the last guess, and never creates an
   adjacent repeat.
   */
  lemma AppendGuessProperties(prev: seq<DrugRecord>, d: DrugRecord)
    ensures var r := AppendGuess(prev, d);
      && |prev| <= |r| <= |prev| + 1
      && r[..|prev|] == prev
      && (|r| == |prev| <==> |prev| > 0 && SameName(prev[|prev| - 1], d))
      && (|r| == |prev| + 1 ==> r[|prev|] == d)
      && SameName(r[|r| - 1], d)
      && (NoAdjacentRepeat(prev) ==> NoAdjacentRepeat(r))
  {
  }

  /** Guessing the same name twice in a row records it once. */
  lemma AppendGuessTwice(prev: seq<DrugRecord>, d: DrugRecord, e: DrugRecord)
    requires SameName(d, e)
    ensures AppendGuess(AppendGuess(prev, d), e) == AppendGuess(prev, d)
  {
  }

  /** A name guessed again after a different guess is recorded again. */
  lemma AppendGuessAfterOther(prev: seq<DrugRecord>, a: DrugRecord, b: DrugRecord)
    requires !SameName(a, b)
    ensures AppendGuess(AppendGuess(prev + [a], b), a) == prev + [a, b, a]
  {
  }

  // ---------------------------------------------------------------------------
  // Hints

  /** Revealed hints are hintable categories, each at most once. */
  predicate HintsValid(h: seq<Category>) {
    (forall i :: 0 <= i < |h| ==> h[i] != Prescription)
    && (forall i, j :: 0 <= i < j < |h| ==> h[i] != h[j])
  }

  /** `cats.filter(c => !revealed.includes(c))`. */
  function Unrevealed(cats: seq<Category>, revealed: seq<Category>): (r: seq<Category>)
    ensures forall c :: c in r <==> c in cats && c !in revealed
    ensures (forall i, j :: 0 <= i < j < |cats| ==> cats[i] != cats[j])
        ==> (forall i, j :: 0 <= i < j < |r| ==> r[i] != r[j])
  {
    if cats == [] then []
    else if cats[0] in revealed then Unrevealed(cats[1..], revealed)
    else [cats[0]] + Unrevealed(cats[1..], revealed)
  }

  /** The hint categories not yet revealed, in table order. */
  function Remaining(revealed: seq<Category>): (r: seq<Category>)
    ensures forall c :: c in r <==> c != Prescription && c !in revealed
    ensures forall i, j :: 0 <= i < j < |r| ==> r[i] != r[j]
  {
    Unrevealed(HintCategories(), revealed)
  }

  /** In a list without repeats, every category occurs once or not at all. */
  lemma {:induction false} DistinctMultiplicity(s: seq<Category>, x: Category)
    requires forall i, j :: 0 <= i < j < |s| ==> s[i] != s[j]
    ensures multiset(s)[x] == if x in s then 1 else 0
  {
    if s != [] {
      DistinctMultiplicity(s[1..], x);
      assert s == [s[0]] + s[1..];
      assert multiset(s) == multiset{s[0]} + multiset(s[1..]);
    }
  }

  /** The revealed hints and the remaining ones together are the five hint categories, once each. */
  lemma RemainingCount(h: seq<Category>)
    requires HintsValid(h)
    ensures |Remaining(h)| == |HintCategories()| - |h|
    ensures Remaining(h) == [] <==> |h| == |HintCategories()|
  {
    var r, all := Remaining(h), HintCategories();
    forall x: Category ensures multiset(r)[x] + multiset(h)[x] == multiset(all)[x] {
      DistinctMultiplicity(r, x);
      DistinctMultiplicity(h, x);
      DistinctMultiplicity(all, x);
    }
    assert multiset(r) + multiset(h) == multiset(all);
    assert |multiset(r)| + |multiset(h)| == |multiset(all)|;
  }

  /** Revealing any remaining category keeps the revealed hints valid. */
  lemma RevealKeepsHintsValid(h: seq<Category>, choice: nat)
    requires HintsValid(h) && choice < |Remaining(h)|
    ensures HintsValid(h + [Remaining(h)[choice]])
  {
    var c := Remaining(h)[choice];
    assert c in Remaining(h);
  }

  // ---------------------------------------------------------------------------
  // Achievements

  const FirstWin: string := "first_win"
  const WinWithoutHints: string := "win_without_hints"

  predicate NoDuplicates(list: seq<string>) {
    forall i, j :: 0 <= i < j < |list| ==> list[i] != list[j]
  }

  /**
   The list `checkAchievements` stores: on a win it adds `first_win`, and
   `win_without_hints` when no hint was revealed, each only if absent.
   */
  function Unlock(list: seq<string>, won: bool, hintCount: nat): (r: seq<string>)
    ensures |list| <= |r| && r[..|list|] == list
    ensures forall i :: |list| <= i < |r| ==> r[i] == FirstWin || r[i] == WinWithoutHints
    ensures NoDuplicates(list) ==> NoDuplicates(r)
    ensures !won ==> r == list
    ensures won ==> FirstWin in r
    ensures WinWithoutHints in r <==> WinWithoutHints in list || (won && hintCount == 0)
  {
    var a := if won && FirstWin !in list then list + [FirstWin] else list;
    if won && hintCount == 0 && WinWithoutHints !in a then a + [WinWithoutHints] else a
  }

  /** Unlocking twice with the same outcome is unlocking once. */
  lemma UnlockIdempotent(list: seq<string>, won: bool, hintCount: nat)
    ensures Unlock(Unlock(list, won, hintCount), won, hintCount) == Unlock(list, won, hintCount)
  {
  }
}
