# tui-wordle core, modelled in Dafny

tui-wordle is a terminal Wordle game. This project models its core: the round
state machine and the two-pass scorer (`src/game.rs`), the options screen's state
(`src/options.rs`), and the dictionary catalog with its word picker (`src/dictionary.rs`).

- `wrappers.dfy`: `Option`, `Result` (with `:-` support) and `Outcome`, the model's
  stand-in for `Result<(), E>`.
- `strings.dfy`: the pieces of Rust's standard library the core relies on, stated over
  Dafny strings. These are `char::to_ascii_uppercase`, `str::len` (a UTF-8 byte count),
  `str::lines`, `Iterator::position` and the decimal rendering of an unsigned integer.
- `dictionary.dfy` (module `Dictionaries`):
  - the `Dictionary` value and the fixed catalog;
  - loading a word list and filtering it to the dictionary's length;
  - the random pick, as a nondeterministic choice;
  - the `Display` text.
- `scoring.dfy` (module `Scoring`):
  - the two-pass scorer of `submit_word` as a function, exactly as the program computes it;
  - its guarantees: length, Absent/Correct/Present meaning, per-letter credit bound, solved iff
    guessed;
  - worked examples;
  - the scorer with the evidently intended pass-2 rule (see Findings), which credits each letter
    min(copies in the guess, copies in the answer) times.
- `game.dfy` (module `Game`):
  - `Guess` is a class with a capacity-checked letter buffer, its score and its state.
  - `GameData` is a class holding the round: the answer, one `Guess` per attempt and the
    Won/Lost/Active state.
  - `GameOptions` is a class holding the word length, the number of guesses and the dictionary.
  - The scorer of `submit_word` is a method over two arrays, the answer letters and the outcome
    buffer, which its two loops update in place. It is proved equal to `Scoring.Score`.
  - `GameData` keeps a ghost copy of its guesses' contents (`rows`) and the count of scored
    guesses (`completed`). Its invariant is `RoundInvariant`:
    - Complete guesses come first, then the Active one while the round runs, then Pending ones;
    - a guess is scored exactly when it is Complete, with the program's score;
    - only the last scored guess may be solved, and it is exactly when the round is Won;
    - a Lost round has used every guess.
    Every operation keeps it.
- `options.dfy` (module `Options`): `OptionData` is a class.
  - Its `next` and `previous` move cyclically through the catalog.
  - The tries counter is clamped to [3, 10].
  - `apply` writes the selection into a `GameOptions`.

File reading and the random generator are not modelled. A file read is a `FileRead`
parameter, either the file's text or `Unreadable`. A random pick is a choice (`:|`)
among the candidates. A round's answer is a parameter of the `GameData` constructor;
the program draws it with `GameOptions::random_word`, which `GameOptions.RandomWord` models.

Where the program panics, the model has a precondition:
- the `unwrap` on an empty filtered word list;
- the `expect` of `next`/`previous` when the selection is not in the catalog;
- the `panic!` of `submit_word` when a running round has no Active guess, which only a
  round of no guesses can reach;
- the `u16` overflow of `max_tries += 1` at 65535 and of `max_tries -= 1` at 0. A build with
  overflow checks (the debug profile) panics there. A release build wraps: 65535 + 1 becomes 0,
  which `min(10)` keeps at 0, and 0 - 1 becomes 65535, which `max(3)` keeps at 65535. Neither
  bound is reachable from the initial 6 tries.
- the `panic!` of `GameData::new` when the pick fails.

The model follows the code on these points:
- The word list is not cached. The program's comment at src/dictionary.rs:30 says the
  `Lazy` field is meant to defer loading the file. However, that field holds the loader
  closure, not the loaded words, so every `random_word` call reads the file again. An
  unreadable file therefore fails with `FileLoadError` on each call, not once for good.
  The model takes the file's contents as a parameter of each `RandomWord` call.
- For answer REACT and guess TRACE the code gives `[Present, Present, Correct, Correct, Present]`.
  Position 3 holds C in both words.
- The length filter compares `str::len`, a byte count, not a character count.
- A list with no line of the right length makes `random_word` panic; it does not fail with an error.

## Model

| member | source | states |
|---|---|---|
| Strings.LinesOfUnlines | src/dictionary.rs:64 | `str::lines`, which the loader uses, gives back the lines of a text whose lines end in "\n" or "\r\n" |
| Strings.FinalTerminatorOptional | src/dictionary.rs:64 | `str::lines` yields the same lines whether or not the last line has a terminator, "\n" or "\r\n" |
| Strings.ToAsciiUpper | src/game.rs:280 | 'a'..'z' become 'A'..'Z', 32 code points lower; every other character is left alone; the result is never a small ASCII letter |
| Strings.UpperString | src/game.rs:275 | the same length, each character upper-cased by `ToAsciiUpper`; upper-casing again changes nothing |
| Strings.ByteLen | src/dictionary.rs:86 | the UTF-8 length lies between the character count and four times it, and equals the character count for an ASCII string |
| Strings.Lines | src/dictionary.rs:64 | no line holds a "\n" |
| Strings.FirstIndexWhere | src/game.rs:222 | the first index whose element satisfies the predicate; None exactly when no element does |
| Strings.FirstIndex | src/game.rs:288 | the first index holding the value; None exactly when the value does not occur |
| Strings.Decimal | src/dictionary.rs:53 | `{}` of an unsigned integer: digits only, nonempty, no leading zero, and it starts with '0' exactly for 0 |
| Strings.DecimalRoundTrip | src/dictionary.rs:53 | the decimal text of the word length reads back as the length |
| Strings.DecimalOfParse | src/dictionary.rs:53 | every numeral without a leading zero is the decimal text of the number it denotes |
| Dictionaries.Dictionary.Display | src/dictionary.rs:51-55 | the text parses back to the name and the length |
| Dictionaries.ParseDisplayInverts | src/dictionary.rs:51-55 | the only text that parses to a name and a length is "Dictionary: {name}, Word Length: {length}", so with `Display` the text and the pair determine each other |
| Dictionaries.LoadDictionary | src/dictionary.rs:58-71 | fails exactly when the file cannot be read, always with FileLoadError; otherwise yields the text's lines |
| Dictionaries.Matching | src/dictionary.rs:85-86 | keeps exactly the words whose UTF-8 byte length is the dictionary's length |
| Dictionaries.Dictionary.RandomWord | src/dictionary.rs:80-91 | an unreadable file gives FileLoadError; otherwise the result is one of the file's lines whose byte length is the dictionary's length; requires such a line, as the source unwraps the pick |
| Dictionaries.Catalog | src/dictionary.rs:104-121 | ten entries, no two with the same (name, length), the first ("Wordle", 5, "data/wordle.txt") |
| Dictionaries.FindIndex | src/game.rs:87-90 | the first entry with the given name and length; None exactly when there is none |
| Dictionaries.FindNamed | src/game.rs:63 | the first entry with the given name; None exactly when there is none |
| Dictionaries.FindIndexOfEntry | src/options.rs:28-31 | with distinct keys, looking up an entry's (name, length) finds that entry's index |
| Dictionaries.CatalogDefault | src/dictionary.rs:108 | the first "Wordle" entry and the ("Wordle", 5) entry are both index 0 |
| Scoring.Score | src/game.rs:275-293 | the program's score has one outcome per answer letter |
| Scoring.ExactPassClosedForm | src/game.rs:279-284 | after pass 1, exactly the positions whose guess letter equals the upper-cased answer letter are Correct, and exactly those answer letters are NUL |
| Scoring.ExactPassCredits | src/game.rs:279-284 | pass 1 credits each letter exactly as many times as it consumes a copy of it |
| Scoring.MisplacedPassResults | src/game.rs:286-293 | pass 2 leaves unreached positions alone and changes a reached one only to Present, for a non-NUL letter that occurs in the answer |
| Scoring.MisplacedPassPool | src/game.rs:286-293 | pass 2 only ever overwrites answer letters with NUL |
| Scoring.MisplacedPassCredits | src/game.rs:286-293 | pass 2 never credits a letter more often than it consumes a copy of it |
| Scoring.MisplacedPassIdle | src/game.rs:286-293 | when pass 1 consumed every answer letter, pass 2 changes nothing |
| Scoring.ScoreFacts | src/game.rs:275-293 | the outcome of each position is pass 1's Correct/Absent, or Present for a letter in the answer; under the intended rule Correct cells stay Correct |
| Scoring.ScoreNeverEmpty | src/game.rs:276-293 | no outcome is Empty |
| Scoring.AbsentMeansMismatch | src/game.rs:279-284 | a position is Absent only where the guess letter differs from the upper-cased answer letter |
| Scoring.CorrectMeansMatch | src/game.rs:279-284 | a position is Correct only where the guess letter equals the upper-cased answer letter |
| Scoring.PresentMeansOccurs | src/game.rs:286-293 | a position is Present only when its letter occurs in the upper-cased answer |
| Scoring.CreditsBounded | src/game.rs:279-293 | for each letter, the positions holding it that are Correct or Present never outnumber its copies in the upper-cased answer |
| Scoring.MissingLetterNeverCredited | src/game.rs:279-293 | a letter the answer lacks is never Correct or Present |
| Scoring.SolvedIffGuessIsAnswer | src/game.rs:279-298 | every outcome is Correct exactly when the guess is the upper-cased answer |
| Scoring.ScoreAlloyLolly | src/game.rs:275-293 | answer ALLOY, guess LOLLY scores `[Present, Present, Correct, Absent, Correct]` |
| Scoring.ScoreReactTrace | src/game.rs:275-293 | answer REACT, guess TRACE scores `[Present, Present, Correct, Correct, Present]` |
| Scoring.ScoreRelabelsCorrect | src/game.rs:286-293 | answer AAXYZ, guess ABCDE: position 0 matches, yet the program scores `[Present, Absent, Absent, Absent, Absent]` |
| Scoring.IntendedScore | src/game.rs:286-293 | the intended score also has one outcome per answer letter |
| Scoring.MisplacedPassKeepsCorrect | src/game.rs:286-293 | with pass 2 skipping Correct cells, no Correct cell changes |
| Scoring.IntendedCorrectIffMatch | src/game.rs:279-293 | under the intended rule a position is Correct exactly when its letter matches the upper-cased answer letter |
| Scoring.IntendedKeepsCorrect | src/game.rs:286-293 | answer AAXYZ, guess ABCDE scores `[Correct, Absent, Absent, Absent, Absent]` under the intended rule |
| Scoring.MisplacedPassSettled | src/game.rs:286-293 | later steps of pass 2 never change an outcome it has already set, and only ever blank answer letters |
| Scoring.IntendedPassCredits | src/game.rs:286-293 | under the intended rule, pass 2 credits a letter exactly as many times as it consumes a copy of it |
| Scoring.Leftover | src/game.rs:275-293 | the answer letters neither pass consumed, as many as the answer has |
| Scoring.AbsentMeansExhausted | src/game.rs:286-293 | under either rule, a non-NUL cell left Absent has no unconsumed copy of its letter in the answer |
| Scoring.CreditsBelowOccurrences | src/game.rs:279-293 | the credited positions holding a letter never outnumber its copies in the guess, and equal them when all are credited |
| Scoring.IntendedCreditsEveryCopy | src/game.rs:279-293 | under the intended rule, each letter other than NUL is credited exactly min(copies in the guess, copies in the upper-cased answer) times |
| Scoring.ScoreStrandsCopy | src/game.rs:286-293 | answer AAC, guess ACA scores `[Present, Present, Absent]`: both words hold two A's, yet only one is credited |
| Scoring.IntendedCreditsBothCopies | src/game.rs:286-293 | answer AAC, guess ACA scores `[Correct, Present, Present]` under the intended rule |
| Game.Guess.constructor | src/game.rs:115-122 | a new guess of the given capacity is empty, unscored and Pending |
| Game.Guess.RemainingLetters | src/game.rs:154-156 | the free capacity, zero exactly when the guess is full; it cannot underflow |
| Game.Guess.AddLetter | src/game.rs:136-143 | a full guess fails with FullGuess and keeps its letters; otherwise exactly the letter is appended; the capacity bound holds after |
| Game.Guess.DeleteLetter | src/game.rs:145-152 | an empty guess fails with EmptyGuess; otherwise only the last letter is removed |
| Game.Guess.CompleteGuess | src/game.rs:162-165 | the score is recorded and the guess is Complete, its letters unchanged |
| Game.Guess.Values | src/game.rs:167-184 | a scored guess pairs each letter with its outcome; an unscored one shows its letters upper-cased, then blanks up to the capacity, all Empty |
| Game.Guess.MakeVec | src/game.rs:124-134 | `maxGuesses` distinct new guesses of capacity `wordLength`, empty and unscored, the first Active and the rest Pending |
| Game.ActiveFrom | src/game.rs:218-229 | the first Active guess at or after an index; None exactly when there is none |
| Game.InitialRound | src/game.rs:203-216 | a new round of fresh guesses satisfies the round invariant |
| Game.TypingKeepsInvariant | src/game.rs:235-251 | changing the letters of the Active guess keeps the round invariant |
| Game.SubmitKeepsInvariant | src/game.rs:295-304 | scoring the Active guess and then winning, moving to the next guess or losing keeps the round invariant |
| Game.WonIffAnswerGuessed | src/game.rs:279-298 | a round is Won exactly when its last scored guess spells the upper-cased answer |
| Game.LostMeansNeverGuessed | src/game.rs:297-304 | in a Lost round no guess spells the upper-cased answer |
| Game.ScoreGuess | src/game.rs:275-293 | the in-place scorer computes exactly `Scoring.Score` |
| Game.MarkExact | src/game.rs:279-284 | the first loop leaves the outcomes and answer letters of pass 1 |
| Game.MarkMisplaced | src/game.rs:286-293 | the second loop leaves the outcomes and answer letters of pass 2 |
| Game.GameOptions.Default | src/game.rs:59-75 | 5 letters, 6 guesses, the ("Wordle", 5) catalog entry; the options are consistent |
| Game.GameOptions.RandomWord | src/game.rs:78-82 | the dictionary's pick, with a load failure reported as DictionaryError |
| Game.GameOptions.SetDictionary | src/game.rs:84-96 | an unknown (name, length) fails with DictionaryError and changes nothing; otherwise the dictionary and the word length change together, to that entry and that length; the number of guesses never changes |
| Game.StateAfterSubmit | src/game.rs:297-304 | Won exactly when the guess is solved; otherwise Active exactly when another guess follows guess `k`, and Lost exactly when none does |
| Game.GameData.IsActiveIffOpen | src/game.rs:231-233 | in a valid round, `is_active` holds exactly when no guess is scored yet, or the last scored guess is not all Correct and another guess remains |
| Game.GameData.FromOptions | src/game.rs:203-216 | with consistent options and a readable list, the round's answer is a line of the list of the word length, and the new round is Active, has no scored guess, holds fresh empty initial guesses (the first Active) and satisfies its invariant |
| Game.GameData.constructor | src/game.rs:203-216 | a round with the options' settings, the given answer, fresh initial guesses and state Active, satisfying its invariant |
| Game.GameData.ActiveGuess | src/game.rs:218-229 | the index of the first Active guess, None exactly when there is none |
| Game.GameData.ActiveGuessIsNext | src/game.rs:218-229 | in a valid round the first Active guess is the one after the scored ones while the round runs, and there is none otherwise |
| Game.GameData.AddLetter | src/game.rs:235-242 | NoActiveGame once the round is over, NoActiveGuess for a round of no guesses, FullGuess on a full guess, each changing nothing; otherwise the upper-cased letter is appended to the Active guess only |
| Game.GameData.DeleteLetter | src/game.rs:244-251 | NoActiveGame, NoActiveGuess or EmptyGuess, each changing nothing; otherwise only the last letter of the Active guess goes |
| Game.GameData.AppendTo | src/game.rs:241 | `add_letter` on one guess, reflected in the round's contents |
| Game.GameData.TruncateAt | src/game.rs:250 | `delete_letter` on one guess, reflected in the round's contents |
| Game.GameData.SubmitWord | src/game.rs:253-307 | NoActiveGame once over and IncompleteGuess on a short guess, changing nothing; otherwise the guess is scored with the program's score and Complete, the state is Won if solved, else Active with the next guess Active if one is left, else Lost, and that state is returned |
| Game.GameData.Record | src/game.rs:295-306 | after scoring, the guess is Complete and the round moves on as `StateAfterSubmit` says; the invariant holds |
| Game.GameData.Advance | src/game.rs:295-303 | the guess is marked Complete and, unless solved, the next guess if any becomes Active |
| Game.GameData.CompleteRow | src/game.rs:295 | `complete_guess` on one guess, reflected in the round's contents |
| Game.GameData.ActivateRow | src/game.rs:301-302 | the next guess's state becomes Active, reflected in the round's contents |
| Game.GameData.Clear | src/game.rs:309-313 | fresh initial guesses and state Active, the options and the answer kept; the invariant holds |
| Options.NextIndex | src/options.rs:33 | `(idx + 1) % len` is in range, wraps to 0 exactly from the last index, and otherwise is `idx + 1` |
| Options.PreviousIndex | src/options.rs:45-49 | in range, wraps to the last index exactly from 0, and otherwise is `idx - 1` |
| Options.NextEntry | src/options.rs:27-37 | the entry `next` moves to is a catalog entry |
| Options.PreviousEntry | src/options.rs:39-54 | the entry `previous` moves to is a catalog entry |
| Options.NextMovesOn | src/options.rs:27-37 | with distinct keys, `next` moves the selection to index `(idx + 1) % len` |
| Options.PreviousMovesBack | src/options.rs:39-54 | with distinct keys, `previous` moves the selection to the index before, wrapping from 0 to the last |
| Options.PreviousUndoesNext | src/options.rs:27-54 | with distinct keys, `previous` after `next` restores the selection |
| Options.NextUndoesPrevious | src/options.rs:27-54 | with distinct keys, `next` after `previous` restores the selection |
| Options.NextTimes | src/options.rs:27-37 | any number of `next` moves stays on catalog entries |
| Options.NextTimesIndex | src/options.rs:27-37 | with distinct keys, `k` moves of `next` reach the entry `k` steps on in the cycle |
| Options.CycleReturns | src/options.rs:33 | `len` steps of `(idx + 1) % len` return to the start |
| Options.FullCycleReturns | src/options.rs:27-37 | with distinct keys, as many `next` moves as there are entries return to the first selection |
| Options.Incremented | src/options.rs:63-66 | one more try, capped at 10 |
| Options.Decremented | src/options.rs:68-71 | one fewer try, floored at 3 |
| Options.Step | src/options.rs:63-71 | a tries key keeps the tries in [3, 10] |
| Options.AfterKeys | src/options.rs:63-71 | any sequence of tries keys keeps the tries in [3, 10] |
| Options.FromDefaultStaysInRange | src/options.rs:23 | starting from 6 tries, the tries stay in [3, 10] |
| Options.IdempotentAtBounds | src/options.rs:63-71 | incrementing at 10 and decrementing at 3 change nothing, however often |
| Options.RepeatedIncrement | src/options.rs:63-66 | `k` increments reach `t + k`, capped at 10 |
| Options.RepeatedDecrement | src/options.rs:68-71 | `k` decrements reach `t - k`, floored at 3 |
| Options.OptionData.Selected | src/options.rs:28-31 | the first catalog index whose entry has the selected name and length; None exactly when there is none |
| Options.OptionData.constructor | src/options.rs:19-26 | ("Wordle", 5) selected, 6 tries, the whole catalog; the selection is catalog index 0; the options are valid |
| Options.OptionData.Next | src/options.rs:27-37 | the selection becomes the entry after the current one, wrapping, and stays in the catalog; the tries are unchanged; validity is kept |
| Options.OptionData.Previous | src/options.rs:39-54 | the selection becomes the entry before the current one, wrapping, and stays in the catalog; the tries are unchanged; validity is kept |
| Options.OptionData.IncrementTries | src/options.rs:63-66 | the tries become `Incremented` of the old value; the selection is unchanged; validity is kept |
| Options.OptionData.DecrementTries | src/options.rs:68-71 | the tries become `Decremented` of the old value; the selection is unchanged; validity is kept |
| Options.OptionData.Apply | src/options.rs:56-61 | an unknown selection passes on DictionaryError and changes no option, the number of guesses included; otherwise the dictionary, the word length and the number of guesses become the selection and the tries; valid options over the catalog always succeed |

## Left out

- Drawing and input are not modelled, because they are presentation and terminal I/O. This covers `draw_options` (src/options.rs:74-101), the screens and the key loop of `src/main.rs`.
- `fs::read_to_string` is not modelled; it becomes the `FileRead` parameter. `choose(&mut rand::rng())` is not modelled either; it becomes a nondeterministic choice. Both are I/O or randomness.
- The `OnceLock` catalog cache and the `Lazy` loader cell become a constant catalog and a per-call file read. `Rc`/`Arc` sharing becomes plain dictionary values. No word list is ever loaded into either cell.
- `Clone` and `Debug` for `Dictionary` and `GameOptions` are left out, as are `Display` for `GameError` and `DictionaryError`. They only format or copy.
- `as_chars` is not a member of its own: it returns the letters, which the scorer reads directly.
- `GameData::new` picks the answer at random and panics when that fails. The constructor takes the answer as a parameter and requires its length in characters to equal the word length. `GameData.FromOptions` composes the pick with the constructor.
- Game.GameData.FromOptions: requires the list's lines of the word length to be ASCII, so that their character count is the word length; the program does not check this. It also requires a readable list with such a line, because the program panics otherwise.
- Game.GameData.constructor: requires the answer's character count to equal the word length, which holds for the ASCII word lists the filter's byte count is meant for. With a non-ASCII answer the program would index past its buffers.
- Game.GameData.SubmitWord: requires a running round to have at least one guess. The program panics in that case (src/game.rs:262-266), and it is the only way a running round can lack an Active guess.
- Dictionaries.Dictionary.RandomWord: requires a readable list to hold a line of the right length, because the program unwraps the pick.
- Options.OptionData.Next and Options.OptionData.Previous: require the selection to be in the catalog, because the program's `expect` panics otherwise. The claim that the index moves by one is stated for catalogs with distinct keys, which `Dictionaries.Catalog` has.
- Options.OptionData.IncrementTries and Options.OptionData.DecrementTries: require `max_tries` below 65535 and above 0 respectively. At those bounds a debug build panics, while a release build wraps (65535 + 1 gives 0, kept by `min(10)`; 0 - 1 gives 65535, kept by `max(3)`). The model covers neither outcome. From the initial 6 tries, and under `OptionData.Valid`, neither bound is reached.
- Scoring.CreditsBounded: stated for letters other than NUL. The scorer uses NUL to mark consumed answer letters, and a typed letter is never NUL because only alphabetic keys are added (src/main.rs:173-174).
- `GameData` keeps its options as constants: the word length, the number of guesses and the dictionary. This matches the program's private clone of the options, which nothing changes after construction.

## Findings

| source | as written | input that shows it | evidently intended | confidence | as-written member | corrected member |
|---|---|---|---|---|---|---|
| src/game.rs:286-293 | pass 2 looks at every position whose guess letter is not NUL, including positions pass 1 marked Correct, and relabels such a cell Present when another copy of its letter remains in the answer | answer AAXYZ, guess ABCDE: position 0 is an exact match, yet the score is `[Present, Absent, Absent, Absent, Absent]` | pass 2 skips positions already Correct, so an exact match always shows Correct: `[Correct, Absent, Absent, Absent, Absent]` | high; not executed | Scoring.ScoreRelabelsCorrect | Scoring.IntendedCorrectIffMatch |
| src/game.rs:286-293 | relabelling a Correct cell also spends a second copy of its letter, which a later copy in the guess then cannot find | answer AAC, guess ACA: both words hold two A's, yet the score is `[Present, Present, Absent]`, with one A credited | each letter is credited min(copies in the guess, copies in the answer) times: `[Correct, Present, Present]` | high; not executed | Scoring.ScoreStrandsCopy | Scoring.IntendedCreditsEveryCopy |

`Scoring.IntendedScore` is the corrected scorer. `Scoring.IntendedKeepsCorrect` and `Scoring.IntendedCreditsBothCopies` show its results on the same inputs. The round (`Game.GameData.SubmitWord` and its invariant) keeps the program's scorer, so the model describes the program as shipped. The round-level results hold under either rule: `Game.WonIffAnswerGuessed` rests on `Scoring.SolvedIffGuessIsAnswer`, which is proved for both rules.
