/**
 * The round: a guess buffer per attempt, the round state machine of `GameData`
 * and the game options (`GameOptions`) it is started from.
 *
 * A round's answer is a constructor parameter; the random pick that supplies it in
 * the program is `GameOptions.RandomWord`.
 */
module Game {
  import opened Wrappers
  import opened Strings
  import opened Scoring
  import D = Dictionaries

  type u16 = x: int | 0 <= x < 0x1_0000

  datatype GameError =
    | FileLoadError
    | DictionaryError
    | NoActiveGame
    | EmptyGuess
    | FullGuess
    | IncompleteGuess
    | NoActiveGuess

  /** A guess waits (Pending), is being typed (Active), or has been scored (Complete). */
  datatype GuessState = Active | Complete | Pending

  datatype GameState = Active | Won | Lost

  /** The contents of a guess, as a value. */
  datatype GuessView = GuessView(letters: string, result: Option<seq<LetterResult>>, state: GuessState)

  /** One attempt: a letter buffer of fixed capacity, its score once submitted, and its state. */
  class Guess {
    const maxLength: u16
    var letters: string
    var result: Option<seq<LetterResult>>
    var state: GuessState

    ghost predicate Valid()
      reads this
    {
      |letters| <= maxLength as int
    }

    function View(): GuessView
      reads this
    {
      GuessView(letters, result, state)
    }

    /** `Guess::new`: an empty, unscored, Pending guess. */
    constructor(maxLength: u16)
      ensures this.maxLength == maxLength
      ensures View() == GuessView([], None, GuessState.Pending)
      ensures Valid()
    {
      this.maxLength := maxLength;
      letters := [];
      result := None;
      state := GuessState.Pending;
    }

    /** `remaining_letters`: the free capacity, which a valid guess keeps from underflowing. */
    function RemainingLetters(): (n: u16)
      reads this
      requires Valid()
      ensures n == 0 <==> |letters| == maxLength as int
      ensures n as int + |letters| == maxLength as int
    {
      maxLength - |letters|
    }

    /** `add_letter`: appends `c`, or fails with FullGuess and changes nothing. */
    method AddLetter(c: char) returns (r: Outcome<GameError>)
      requires Valid()
      modifies this
      ensures Valid()
      ensures old(|letters|) == maxLength as int ==> r == Fail(FullGuess) && letters == old(letters)
      ensures old(|letters|) < maxLength as int ==> r == Pass && letters == old(letters) + [c]
      ensures result == old(result) && state == old(state)
    {
      if RemainingLetters() <= 0 {
        return Fail(FullGuess);
      }
      letters := letters + [c];
      return Pass;
    }

    /** `delete_letter`: drops the last letter, or fails with EmptyGuess and changes nothing. */
    method DeleteLetter() returns (r: Outcome<GameError>)
      requires Valid()
      modifies this
      ensures Valid()
      ensures old(letters) == [] ==> r == Fail(EmptyGuess) && letters == old(letters)
      ensures old(letters) != [] ==> r == Pass && letters == old(letters[..|letters| - 1])
      ensures result == old(result) && state == old(state)
    {
      if RemainingLetters() == maxLength {
        return Fail(EmptyGuess);
      }
      letters := letters[..|letters| - 1];
      return Pass;
    }

    /** `complete_guess`: records the score and marks the guess Complete. */
    method CompleteGuess(res: seq<LetterResult>)
      requires Valid()
      modifies this
      ensures Valid()
      ensures letters == old(letters) && result == Some(res) && state == GuessState.Complete
    {
      result := Some(res);
      state := GuessState.Complete;
    }

    /**
     * `values`: the cells to draw. A scored guess pairs each letter with its outcome;
     * an unscored one shows its letters upper-cased, then blanks up to the capacity,
     * all with outcome Empty.
     */
    method Values() returns (vs: seq<(Option<char>, Option<LetterResult>)>)
      requires Valid()
      ensures result.Some? ==>
        && |vs| == (if |letters| < |result.value| then |letters| else |result.value|)
        && forall i :: 0 <= i < |vs| ==> vs[i] == (Some(letters[i]), Some(result.value[i]))
      ensures result.None? ==>
        && |vs| == maxLength as int
        && (forall i :: 0 <= i < |letters| ==> vs[i] == (Some(ToAsciiUpper(letters[i])), Some(Empty)))
        && (forall i :: |letters| <= i < |vs| ==> vs[i] == (Some(' '), Some(Empty)))
    {
      var ls := letters;
      match result
      case Some(outcomes) =>
        var n := if |ls| < |outcomes| then |ls| else |outcomes|;
        vs := seq(n, i requires 0 <= i < n => (Some(ls[i]), Some(outcomes[i])));
      case None =>
        var cells := seq(maxLength, _ => (Some(' '), Some(Empty)));
        for i := 0 to |ls|
          invariant |cells| == maxLength as int
          invariant forall j :: 0 <= j < i ==> cells[j] == (Some(ToAsciiUpper(ls[j])), Some(Empty))
          invariant forall j :: i <= j < |cells| ==> cells[j] == (Some(' '), Some(Empty))
        {
          cells := cells[i := (Some(ToAsciiUpper(ls[i])), Some(Empty))];
        }
        vs := cells;
    }

    /** `make_vec`: `maxGuesses` new, empty guesses of capacity `wordLength`; only the first is Active. */
    static method MakeVec(wordLength: u16, maxGuesses: u16) returns (gs: seq<Guess>)
      ensures |gs| == maxGuesses as int
      ensures forall i :: 0 <= i < |gs| ==> fresh(gs[i]) && gs[i].Valid() && gs[i].maxLength == wordLength
      ensures forall i, j :: 0 <= i < j < |gs| ==> gs[i] != gs[j]
      ensures forall i :: 0 <= i < |gs| ==> gs[i].View() == InitialView(i)
    {
      gs := [];
      for i := 0 to maxGuesses
        invariant |gs| == i
        invariant forall j :: 0 <= j < i ==> fresh(gs[j]) && gs[j].Valid() && gs[j].maxLength == wordLength
        invariant forall j, l :: 0 <= j < l < i ==> gs[j] != gs[l]
        invariant forall j :: 0 <= j < i ==> gs[j].View() == InitialView(j)
      {
        var g := new Guess(wordLength);
        if i == 0 {
          g.state := GuessState.Active;
        }
        gs := gs + [g];
      }
    }
  }

  /** Guess `i` of a new round: empty, unscored, Active for the first and Pending for the rest. */
  function InitialView(i: nat): GuessView {
    GuessView([], None, if i == 0 then GuessState.Active else GuessState.Pending)
  }

  function InitialViews(n: nat): (vs: seq<GuessView>)
    ensures |vs| == n && forall i :: 0 <= i < n ==> vs[i] == InitialView(i)
  {
    seq(n, i requires 0 <= i < n => InitialView(i))
  }

  /** The first Active guess at or after `i`. */
  function ActiveFrom(gs: seq<Guess>, i: nat): (r: Option<nat>)
    reads gs
    requires i <= |gs|
    ensures r.Some? ==> i <= r.value < |gs| && gs[r.value].state == GuessState.Active
    ensures r.Some? ==> forall j :: i <= j < r.value ==> gs[j].state != GuessState.Active
    ensures r.None? ==> forall j :: i <= j < |gs| ==> gs[j].state != GuessState.Active
    decreases |gs| - i
  {
    if i == |gs| then None
    else if gs[i].state == GuessState.Active then Some(i)
    else ActiveFrom(gs, i + 1)
  }

  // ---------------------------------------------------------------------------
  // The round invariant, stated over the guesses' contents

  /** A guess of the round: upper-case letters; scored, with the program's score, exactly when Complete. */
  ghost predicate RowOk(v: GuessView, answer: string) {
    && UpperFixed(v.letters)
    && (v.result.Some? <==> v.state == GuessState.Complete)
    && (v.state == GuessState.Complete ==>
          |v.letters| == |answer| && v.result == Some(Score(v.letters, answer)))
  }

  /** A guess that has been scored and scored all Correct. */
  ghost predicate RowSolved(v: GuessView) {
    v.result.Some? && Solved(v.result.value)
  }

  /**
   * Guess `j` in a round whose first `k` guesses are scored: it is as `RowOk` says;
   * it is Complete exactly when it comes before `k`, Active exactly when it is guess
   * `k` of a running round, and not solved when a later guess has been scored.
   */
  ghost predicate RowInRound(rows: seq<GuessView>, j: nat, state: GameState, k: nat, answer: string)
    requires j < |rows|
  {
    && RowOk(rows[j], answer)
    && (rows[j].state == GuessState.Complete <==> j < k)
    && (rows[j].state == GuessState.Active <==> j == k && state == GameState.Active)
    && (j + 1 < k ==> !RowSolved(rows[j]))
  }

  /**
   * The guesses form a Complete prefix of length `k`, then the Active guess while the
   * round is Active, then Pending guesses. Only the last Complete guess can be solved,
   * and it is exactly when the round is Won; a Lost round has used every guess.
   */
  ghost predicate RoundInvariant(rows: seq<GuessView>, state: GameState, k: nat, answer: string) {
    && k <= |rows|
    && (forall j :: 0 <= j < |rows| ==> RowInRound(rows, j, state, k, answer))
    && (0 < k ==> (RowSolved(rows[k - 1]) <==> state == GameState.Won))
    && (state == GameState.Won ==> 0 < k)
    && (state == GameState.Lost ==> 0 < k == |rows|)
    && (state == GameState.Active ==> k < |rows| || |rows| == 0)
  }

  /** A new round satisfies the invariant. */
  lemma InitialRound(n: nat, answer: string)
    ensures RoundInvariant(InitialViews(n), GameState.Active, 0, answer)
  {
    var rows := InitialViews(n);
    forall j | 0 <= j < n
      ensures RowInRound(rows, j, GameState.Active, 0, answer)
    {
      assert rows[j] == InitialView(j);
    }
  }

  /** The round goes on exactly when no row is scored yet, or the last scored row is unsolved and another remains. */
  lemma ActiveIffOpen(rows: seq<GuessView>, state: GameState, k: nat, answer: string)
    requires RoundInvariant(rows, state, k, answer)
    ensures state == GameState.Active <==> k == 0 || (k < |rows| && !RowSolved(rows[k - 1]))
  {
  }

  /** A round is Won exactly when its last scored guess spells the upper-cased answer. */
  lemma WonIffAnswerGuessed(rows: seq<GuessView>, state: GameState, k: nat, answer: string)
    requires RoundInvariant(rows, state, k, answer)
    ensures state == GameState.Won <==> 0 < k && rows[k - 1].letters == UpperString(answer)
  {
    if 0 < k {
      assert RowInRound(rows, k - 1, state, k, answer);
      SolvedIffGuessIsAnswer(rows[k - 1].letters, answer, false);
    }
  }

  /** In a Lost round no guess spelled the upper-cased answer. */
  lemma LostMeansNeverGuessed(rows: seq<GuessView>, k: nat, answer: string)
    requires RoundInvariant(rows, GameState.Lost, k, answer)
    ensures forall j :: 0 <= j < |rows| ==> rows[j].letters != UpperString(answer)
  {
    forall j | 0 <= j < |rows|
      ensures rows[j].letters != UpperString(answer)
    {
      assert RowInRound(rows, j, GameState.Lost, k, answer);
      if j + 1 == k {
        assert !RowSolved(rows[j]);
      }
      SolvedIffGuessIsAnswer(rows[j].letters, answer, false);
    }
  }

  /** A typing step: guess `k` gets new letters and keeps its state and result. */
  lemma TypingKeepsInvariant(rows: seq<GuessView>, state: GameState, k: nat, answer: string, letters: string)
    requires RoundInvariant(rows, state, k, answer) && k < |rows|
    requires rows[k].state == GuessState.Active && UpperFixed(letters)
    ensures RoundInvariant(rows[k := rows[k].(letters := letters)], state, k, answer)
  {
    var rows' := rows[k := rows[k].(letters := letters)];
    forall j | 0 <= j < |rows|
      ensures RowInRound(rows', j, state, k, answer)
    {
      assert RowInRound(rows, j, state, k, answer);
    }
    if 0 < k {
      assert rows'[k - 1] == rows[k - 1];
    }
  }

  /** The guesses after submitting guess `k` with score `res`. */
  ghost function SubmittedRows(rows: seq<GuessView>, k: nat, res: seq<LetterResult>): (rs: seq<GuessView>)
    requires k < |rows|
    ensures |rs| == |rows|
  {
    var scored := rows[k := rows[k].(result := Some(res), state := GuessState.Complete)];
    if !Solved(res) && k + 1 < |rows| then scored[k + 1 := scored[k + 1].(state := GuessState.Active)]
    else scored
  }

  /**
   * The round state after submitting guess `k` of `n`: Won when solved, else Active
   * when `n - k - 1 > 0` (the program's test for a further guess), else Lost.
   */
  function StateAfterSubmit(solved: bool, k: nat, n: nat): (r: GameState)
    ensures r == GameState.Won <==> solved
    ensures r == GameState.Active <==> !solved && k + 1 < n
    ensures r == GameState.Lost <==> !solved && n <= k + 1
  {
    if solved then GameState.Won
    else if n - k - 1 > 0 then GameState.Active
    else GameState.Lost
  }

  /** Submitting the full Active guess keeps the round invariant. */
  lemma SubmitKeepsInvariant(rows: seq<GuessView>, k: nat, answer: string, res: seq<LetterResult>)
    requires RoundInvariant(rows, GameState.Active, k, answer) && k < |rows|
    requires |rows[k].letters| == |answer| && res == Score(rows[k].letters, answer)
    ensures RoundInvariant(SubmittedRows(rows, k, res), StateAfterSubmit(Solved(res), k, |rows|), k + 1, answer)
  {
    var rows' := SubmittedRows(rows, k, res);
    var state' := StateAfterSubmit(Solved(res), k, |rows|);
    assert RowInRound(rows, k, GameState.Active, k, answer);
    assert rows'[k] == rows[k].(result := Some(res), state := GuessState.Complete);
    var k' := k + 1;
    forall j | 0 <= j < |rows|
      ensures RowInRound(rows', j, state', k', answer)
    {
      assert RowInRound(rows, j, GameState.Active, k, answer);
      if j == k + 1 && state' == GameState.Active {
        assert rows'[j] == rows[j].(state := GuessState.Active);
      } else if j != k {
        assert rows'[j] == rows[j];
      }
    }
  }

  // ---------------------------------------------------------------------------
  // The scorer

  /**
   * The scorer of `submit_word`: the upper-cased answer letters and the outcome
   * buffer, all Absent, are two arrays the two passes update in place.
   */
  method ScoreGuess(guessChars: string, answer: string, wordLength: u16) returns (result: seq<LetterResult>)
    requires |guessChars| == |answer| == wordLength as int
    ensures result == Score(guessChars, answer)
  {
    var upper := UpperString(answer);
    var answerChars := new char[|upper|](i requires 0 <= i < |upper| => upper[i]);
    var cells := new LetterResult[wordLength](_ => Absent);
    assert answerChars[..] == upper;
    assert cells[..] == AllAbsent(|guessChars|);
    MarkExact(guessChars, upper, answerChars, cells);
    ghost var t0 := ExactPass(guessChars, upper, |guessChars|);
    MarkMisplaced(guessChars, t0, answerChars, cells);
    result := cells[..];
  }

  /** Pass 1: each exact match becomes Correct and its answer letter NUL. */
  method MarkExact(guessChars: string, upper: string, answerChars: array<char>, cells: array<LetterResult>)
    requires |guessChars| == |upper| && answerChars[..] == upper && cells[..] == AllAbsent(|guessChars|)
    modifies answerChars, cells
    ensures Tally(cells[..], answerChars[..]) == ExactPass(guessChars, upper, |guessChars|)
  {
    for i := 0 to |guessChars|
      invariant Tally(cells[..], answerChars[..]) == ExactPass(guessChars, upper, i)
    {
      ghost var t := ExactPass(guessChars, upper, i);
      if guessChars[i] == ToAsciiUpper(answerChars[i]) {
        cells[i] := Correct;
        answerChars[i] := NUL;
        assert Tally(cells[..], answerChars[..]) == Tally(t.result[i := Correct], t.pool[i := NUL]);
      }
    }
  }

  /**
   * Pass 2: each guess letter other than NUL that still has a copy among the answer
   * letters becomes Present and consumes the first such copy.
   */
  method MarkMisplaced(guessChars: string, ghost t0: Tally, answerChars: array<char>, cells: array<LetterResult>)
    requires |t0.result| == |t0.pool| == |guessChars| && Tally(cells[..], answerChars[..]) == t0
    modifies answerChars, cells
    ensures Tally(cells[..], answerChars[..]) == MisplacedPass(guessChars, t0, |guessChars|, false)
  {
    for i := 0 to |guessChars|
      invariant Tally(cells[..], answerChars[..]) == MisplacedPass(guessChars, t0, i, false)
    {
      ghost var t := MisplacedPass(guessChars, t0, i, false);
      var g := guessChars[i];
      if g != NUL {
        var pos := FirstIndex(answerChars[..], g);
        if pos.Some? {
          cells[i] := Present;
          answerChars[pos.value] := NUL;
          assert Tally(cells[..], answerChars[..]) == Tally(t.result[i := Present], t.pool[pos.value := NUL]);
        }
      }
    }
  }

  // ---------------------------------------------------------------------------
  // Game options

  /** The word length, the number of guesses and the dictionary a round is played with. */
  class GameOptions {
    var wordLength: u16
    var maxGuesses: u16
    var dictionary: D.Dictionary

    /** The dictionary is a catalog entry and the word length is its length. */
    ghost predicate Valid()
      reads this
    {
      dictionary in D.Catalog() && wordLength == dictionary.length as int
    }

    /** `GameOptions::default`: the first "Wordle" dictionary, 5 letters, 6 guesses. */
    constructor Default()
      ensures wordLength == 5 && maxGuesses == 6
      ensures dictionary == D.Dictionary("Wordle", 5, "data/wordle.txt")
      ensures Valid()
    {
      var ds := D.Catalog();
      D.CatalogDefault();
      var found := D.FindNamed(ds, "Wordle");
      wordLength := 5;
      maxGuesses := 6;
      dictionary := ds[found.value];
    }

    /** `random_word`: the dictionary's pick, with any dictionary error reported as DictionaryError. */
    method RandomWord(file: D.FileRead) returns (r: Result<string, GameError>)
      requires file.Contents? ==> D.Matching(Lines(file.text), dictionary.length) != []
      ensures file.Unreadable? ==> r == Failure(DictionaryError)
      ensures file.Contents? ==>
        r.Success? && r.value in Lines(file.text) && ByteLen(r.value) == dictionary.length as int
    {
      var word := dictionary.RandomWord(file);
      match word
      case Success(w) => r := Success(w);
      case Failure(_) => r := Failure(DictionaryError);
    }

    /**
     * `set_dictionary`: switches to the first catalog entry named `name` with word
     * length `length`, and the word length with it; with no such entry it fails with
     * DictionaryError and changes nothing. The number of guesses is never touched.
     */
    method SetDictionary(name: string, length: D.u8) returns (r: Outcome<GameError>)
      modifies this
      ensures maxGuesses == old(maxGuesses)
      ensures D.FindIndex(D.Catalog(), name, length).None? ==>
        r == Fail(DictionaryError) && dictionary == old(dictionary) && wordLength == old(wordLength)
      ensures D.FindIndex(D.Catalog(), name, length).Some? ==>
        r == Pass && dictionary == D.Catalog()[D.FindIndex(D.Catalog(), name, length).value]
      ensures r.Pass? ==> Valid() && dictionary.name == name && dictionary.length == length && wordLength == length
    {
      var ds := D.Catalog();
      var found := D.FindIndex(ds, name, length);
      if found.None? {
        return Fail(DictionaryError);
      }
      dictionary := ds[found.value];
      wordLength := length;
      return Pass;
    }
  }

  // ---------------------------------------------------------------------------
  // The round

  /** A guess scored all Correct. */
  predicate GuessSolved(g: Guess)
    reads g
  {
    g.result.Some? && Solved(g.result.value)
  }

  /** A valid guess whose contents are `v`. */
  ghost predicate Holds(g: Guess, v: GuessView)
    reads g
  {
    && |g.letters| <= g.maxLength as int
    && g.letters == v.letters && g.result == v.result && g.state == v.state
  }

  /** A round: its options, its answer, one guess per attempt and whether it is won, lost or going on. */
  class GameData {
    var gameState: GameState
    const wordLength: u16
    const maxGuesses: u16
    const dictionary: D.Dictionary
    const answer: string
    var guesses: seq<Guess>
    /** The guesses' contents. */
    ghost var rows: seq<GuessView>
    /** How many guesses have been scored. */
    ghost var completed: nat

    /** The guesses are distinct, valid, of capacity `wordLength`, and hold `rows`. */
    ghost predicate Mirrors()
      reads this`guesses, this`rows, guesses
    {
      && |guesses| == maxGuesses as int
      && |rows| == |guesses|
      && |answer| == wordLength as int
      && (forall i, j :: 0 <= i < j < |guesses| ==> guesses[i] != guesses[j])
      && (forall i :: 0 <= i < |guesses| ==> guesses[i].maxLength == wordLength && Holds(guesses[i], rows[i]))
    }

    ghost predicate Valid()
      reads this, guesses
    {
      Mirrors() && RoundInvariant(rows, gameState, completed, answer)
    }

    /** `GameData::new`, with the answer the program picks at random given as `answer`. */
    constructor(opts: GameOptions, answer: string)
      requires |answer| == opts.wordLength as int
      ensures Valid()
      ensures wordLength == opts.wordLength && maxGuesses == opts.maxGuesses && dictionary == opts.dictionary
      ensures this.answer == answer && gameState == GameState.Active && completed == 0
      ensures rows == InitialViews(maxGuesses as int)
      ensures forall i :: 0 <= i < |guesses| ==> fresh(guesses[i])
    {
      var gs := Guess.MakeVec(opts.wordLength, opts.maxGuesses);
      gameState := GameState.Active;
      wordLength := opts.wordLength;
      maxGuesses := opts.maxGuesses;
      dictionary := opts.dictionary;
      this.answer := answer;
      guesses := gs;
      rows := InitialViews(opts.maxGuesses as int);
      completed := 0;
      new;
      InitialRound(maxGuesses as int, answer);
    }

    /**
     * `GameData::new` with its pick: the answer is a line of the dictionary's file of
     * the word length. The program panics when the file cannot be read or holds no such
     * line; the model also asks those lines to be ASCII, so that their length in
     * characters is the word length.
     */
    static method FromOptions(opts: GameOptions, file: D.FileRead) returns (g: GameData)
      requires opts.Valid() && file.Contents?
      requires D.Matching(Lines(file.text), opts.dictionary.length) != []
      requires forall l :: l in Lines(file.text) && ByteLen(l) == opts.wordLength as int ==> IsAscii(l)
      ensures fresh(g) && g.Valid()
      ensures g.answer in Lines(file.text) && ByteLen(g.answer) == |g.answer| == g.wordLength as int
      ensures g.wordLength == opts.wordLength && g.maxGuesses == opts.maxGuesses && g.dictionary == opts.dictionary
      ensures g.gameState == GameState.Active && g.completed == 0
      ensures g.rows == InitialViews(g.maxGuesses as int)
      ensures forall i :: 0 <= i < |g.guesses| ==> fresh(g.guesses[i])
    {
      var word := opts.RandomWord(file);
      var w := word.value;
      g := new GameData(opts, w);
    }

    /** `active_guess`: the index of the first Active guess, if any. */
    function ActiveGuess(): (r: Option<nat>)
      reads this, guesses
      ensures r.Some? ==> r.value < |guesses| && guesses[r.value].state == GuessState.Active
      ensures r.Some? ==> forall j :: 0 <= j < r.value ==> guesses[j].state != GuessState.Active
      ensures r.None? ==> forall j :: 0 <= j < |guesses| ==> guesses[j].state != GuessState.Active
    {
      ActiveFrom(guesses, 0)
    }

    /** `is_active`. */
    predicate IsActive()
      reads this
    {
      gameState == GameState.Active
    }

    /**
     * `is_active` in terms of the guesses: the round goes on exactly when no guess has
     * been scored yet, or the last scored guess is not all Correct and a further one remains.
     */
    lemma IsActiveIffOpen()
      requires Valid()
      ensures IsActive() <==> completed == 0 || (completed < |guesses| && !GuessSolved(guesses[completed - 1]))
    {
      ActiveIffOpen(rows, gameState, completed, answer);
      if 0 < completed {
        assert Holds(guesses[completed - 1], rows[completed - 1]);
      }
    }

    /** While the round goes on, the Active guess is the one after the scored ones. */
    lemma ActiveGuessIsNext()
      requires Valid()
      ensures ActiveGuess() == if IsActive() && 0 < maxGuesses then Some(completed) else None
    {
      forall j | 0 <= j < |guesses|
        ensures guesses[j].state == GuessState.Active <==> j == completed && IsActive()
      {
        assert RowInRound(rows, j, gameState, completed, answer);
        assert Holds(guesses[j], rows[j]);
      }
      if IsActive() && 0 < maxGuesses {
        assert completed < |guesses| && guesses[completed].state == GuessState.Active;
      }
    }

    /** The Active guess of a running round, which `ActiveGuessIsNext` says is guess `completed`. */
    lemma ActiveRow()
      requires Valid() && IsActive() && 0 < maxGuesses
      ensures completed < |rows| && rows[completed].state == GuessState.Active
      ensures UpperFixed(rows[completed].letters) && rows[completed].result.None?
    {
      assert RowInRound(rows, completed, gameState, completed, answer);
    }

    /**
     * `add_letter`: types `c`, upper-cased, into the Active guess. Fails with
     * NoActiveGame once the round is over, with NoActiveGuess when the round has no
     * guesses, and with FullGuess when the guess is full; a failure changes nothing.
     */
    method AddLetter(c: char) returns (r: Outcome<GameError>)
      requires Valid()
      modifies this, guesses
      ensures Valid()
      ensures guesses == old(guesses) && gameState == old(gameState) && completed == old(completed)
      ensures !old(IsActive()) ==> r == Fail(NoActiveGame) && rows == old(rows)
      ensures old(IsActive()) && maxGuesses == 0 ==> r == Fail(NoActiveGuess) && rows == old(rows)
      ensures old(IsActive()) && 0 < maxGuesses ==>
        var v := old(rows)[completed];
        if |v.letters| == wordLength as int then r == Fail(FullGuess) && rows == old(rows)
        else r == Pass && rows == old(rows)[completed := v.(letters := v.letters + [ToAsciiUpper(c)])]
    {
      if !IsActive() {
        return Fail(NoActiveGame);
      }
      var found := ActiveGuess();
      ActiveGuessIsNext();
      if found.None? {
        return Fail(NoActiveGuess);
      }
      var k := found.value;
      ActiveRow();
      ghost var typed := rows[k].letters + [ToAsciiUpper(c)];
      assert UpperFixed(typed);
      TypingKeepsInvariant(rows, gameState, k, answer, typed);
      r := AppendTo(k, ToAsciiUpper(c));
    }

    /**
     * `delete_letter`: removes the last letter of the Active guess. Fails like
     * `AddLetter` when there is no Active guess, and with EmptyGuess when it is empty.
     */
    method DeleteLetter() returns (r: Outcome<GameError>)
      requires Valid()
      modifies this, guesses
      ensures Valid()
      ensures guesses == old(guesses) && gameState == old(gameState) && completed == old(completed)
      ensures !old(IsActive()) ==> r == Fail(NoActiveGame) && rows == old(rows)
      ensures old(IsActive()) && maxGuesses == 0 ==> r == Fail(NoActiveGuess) && rows == old(rows)
      ensures old(IsActive()) && 0 < maxGuesses ==>
        var v := old(rows)[completed];
        if v.letters == [] then r == Fail(EmptyGuess) && rows == old(rows)
        else r == Pass && rows == old(rows)[completed := v.(letters := v.letters[..|v.letters| - 1])]
    {
      if !IsActive() {
        return Fail(NoActiveGame);
      }
      var found := ActiveGuess();
      ActiveGuessIsNext();
      if found.None? {
        return Fail(NoActiveGuess);
      }
      var k := found.value;
      ActiveRow();
      ghost var letters := rows[k].letters;
      if letters != [] {
        ghost var shorter := letters[..|letters| - 1];
        assert UpperFixed(shorter) by {
          assert forall i :: 0 <= i < |shorter| ==> shorter[i] == letters[i];
        }
        TypingKeepsInvariant(rows, gameState, k, answer, shorter);
      }
      r := TruncateAt(k);
    }

    /** `add_letter` on guess `k`. */
    method AppendTo(k: nat, c: char) returns (r: Outcome<GameError>)
      requires Mirrors() && k < |rows|
      modifies this`rows, guesses
      ensures Mirrors()
      ensures var v := old(rows)[k];
        if |v.letters| == wordLength as int then r == Fail(FullGuess) && rows == old(rows)
        else r == Pass && rows == old(rows)[k := v.(letters := v.letters + [c])]
    {
      var guess := guesses[k];
      r := guess.AddLetter(c);
      rows := rows[k := guess.View()];
    }

    /** `delete_letter` on guess `k`. */
    method TruncateAt(k: nat) returns (r: Outcome<GameError>)
      requires Mirrors() && k < |rows|
      modifies this`rows, guesses
      ensures Mirrors()
      ensures var v := old(rows)[k];
        if v.letters == [] then r == Fail(EmptyGuess) && rows == old(rows)
        else r == Pass && rows == old(rows)[k := v.(letters := v.letters[..|v.letters| - 1])]
    {
      var guess := guesses[k];
      r := guess.DeleteLetter();
      rows := rows[k := guess.View()];
    }

    /**
     * `submit_word`: scores the full Active guess, marks it Complete and then wins the
     * round, activates the next guess, or loses the round; it returns the new round
     * state. Fails with NoActiveGame once the round is over and with IncompleteGuess
     * when the guess is not full; a failure changes nothing. The program panics when a
     * running round has no Active guess; that happens only for a round of no guesses,
     * which the precondition excludes.
     */
    method SubmitWord() returns (r: Result<GameState, GameError>)
      requires Valid()
      requires IsActive() ==> 0 < maxGuesses
      modifies this, guesses
      ensures Valid()
      ensures guesses == old(guesses)
      ensures !old(IsActive()) ==>
        r == Failure(NoActiveGame) && gameState == old(gameState)
        && completed == old(completed) && rows == old(rows)
      ensures old(IsActive()) && |old(rows)[old(completed)].letters| < wordLength as int ==>
        r == Failure(IncompleteGuess) && gameState == old(gameState)
        && completed == old(completed) && rows == old(rows)
      ensures old(IsActive()) && |old(rows)[old(completed)].letters| == wordLength as int ==>
        var k := old(completed);
        var res := Score(old(rows)[k].letters, answer);
        && gameState == StateAfterSubmit(Solved(res), k, maxGuesses as int)
        && r == Success(gameState)
        && completed == k + 1
        && rows == SubmittedRows(old(rows), k, res)
    {
      if gameState != GameState.Active {
        return Failure(NoActiveGame);
      }
      var found := ActiveGuess();
      ActiveGuessIsNext();
      var guessIdx := found.value;
      ActiveRow();
      var guess := guesses[guessIdx];
      if guess.RemainingLetters() > 0 {
        return Failure(IncompleteGuess);
      }
      var res := ScoreGuess(guess.letters, answer, wordLength);
      SubmitKeepsInvariant(rows, guessIdx, answer, res);
      Record(guessIdx, res);
      return Success(gameState);
    }

    /**
     * The second half of `submit_word`: guess `k`, the Active one, is marked Complete
     * with the outcomes `res`, and the round is won, moves on to the next guess, or is lost.
     */
    method Record(k: nat, res: seq<LetterResult>)
      requires Mirrors() && IsActive() && k < |rows|
      requires RoundInvariant(SubmittedRows(rows, k, res), StateAfterSubmit(Solved(res), k, |rows|), k + 1, answer)
      modifies this, guesses
      ensures Valid()
      ensures guesses == old(guesses)
      ensures gameState == StateAfterSubmit(Solved(res), k, maxGuesses as int)
      ensures completed == k + 1
      ensures rows == SubmittedRows(old(rows), k, res)
    {
      Advance(k, res);
      gameState := StateAfterSubmit(Solved(res), k, maxGuesses as int);
      completed := k + 1;
    }

    /** Guess `k` is marked Complete with `res`; unless `res` solves the round, the next guess, if any, becomes Active. */
    method Advance(k: nat, res: seq<LetterResult>)
      requires Mirrors() && k < |rows|
      modifies this`rows, guesses
      ensures Mirrors()
      ensures rows == SubmittedRows(old(rows), k, res)
    {
      ghost var rows' := SubmittedRows(rows, k, res);
      CompleteRow(k, res);
      if !Solved(res) && k + 1 < |guesses| {
        ActivateRow(k + 1);
      }
      assert rows == rows';
    }

    /** `complete_guess` on guess `k`. */
    method CompleteRow(k: nat, res: seq<LetterResult>)
      requires Mirrors() && k < |rows|
      modifies this`rows, guesses
      ensures Mirrors()
      ensures rows == old(rows)[k := old(rows)[k].(result := Some(res), state := GuessState.Complete)]
    {
      var guess := guesses[k];
      guess.CompleteGuess(res);
      rows := rows[k := guess.View()];
    }

    /** Guess `k` becomes the Active one. */
    method ActivateRow(k: nat)
      requires Mirrors() && k < |rows|
      modifies this`rows, guesses
      ensures Mirrors()
      ensures rows == old(rows)[k := old(rows)[k].(state := GuessState.Active)]
    {
      var guess := guesses[k];
      guess.state := GuessState.Active;
      rows := rows[k := guess.View()];
    }

    /** `clear`: a fresh set of guesses and an Active round, with the same options and answer. */
    method Clear()
      requires Valid()
      modifies this
      ensures Valid()
      ensures gameState == GameState.Active && completed == 0
      ensures rows == InitialViews(maxGuesses as int)
      ensures forall i :: 0 <= i < |guesses| ==> fresh(guesses[i])
    {
      guesses := Guess.MakeVec(wordLength, maxGuesses);
      gameState := GameState.Active;
      rows := InitialViews(maxGuesses as int);
      completed := 0;
      InitialRound(maxGuesses as int, answer);
    }
  }
}
