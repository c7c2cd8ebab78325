/**
 * The two-pass scorer of `GameData::submit_word`, as a function of the guess and
 * the answer, with what it guarantees.
 *
 * Pass 1 marks every exact match Correct and overwrites that answer letter with NUL.
 * Pass 2 walks the guess again; for each position it looks at, it marks the cell
 * Present and consumes the first remaining copy of the guess letter, if there is one.
 * The program's pass 2 looks at every position whose guess letter is not NUL, which
 * includes positions pass 1 marked Correct: such a cell is relabelled Present when a
 * further copy of its letter remains. `IntendedScore` is the rule with pass 2 skipping
 * Correct cells; `Score` is the rule as the program has it.
 */
module Scoring {
  import opened Wrappers
  import opened Strings

  /** The outcome shown for one letter. */
  datatype LetterResult = Empty | Absent | Present | Correct

  /** The outcomes that give a guess letter credit for a copy in the answer. */
  predicate Credited(r: LetterResult) {
    r == Correct || r == Present
  }

  /** Every outcome is Correct. */
  predicate Solved(res: seq<LetterResult>) {
    forall i :: 0 <= i < |res| ==> res[i] == Correct
  }

  /** The scorer's working state: the outcomes so far and the answer letters, NUL where consumed. */
  datatype Tally = Tally(result: seq<LetterResult>, pool: string)

  function AllAbsent(n: nat): (r: seq<LetterResult>)
    ensures |r| == n && forall i :: 0 <= i < n ==> r[i] == Absent
  {
    seq(n, _ => Absent)
  }

  /** Pass 1 after its first `n` positions, starting from the upper-cased answer. */
  function ExactPass(guess: string, upper: string, n: nat): (t: Tally)
    requires |guess| == |upper| && n <= |guess|
    ensures |t.result| == |t.pool| == |guess|
  {
    if n == 0 then Tally(AllAbsent(|guess|), upper)
    else
      var t := ExactPass(guess, upper, n - 1);
      if guess[n - 1] == ToAsciiUpper(t.pool[n - 1]) then
        Tally(t.result[n - 1 := Correct], t.pool[n - 1 := NUL])
      else t
  }

  /**
   * Whether pass 2 looks at position `i`: the program asks only that the guess letter
   * is not NUL; the intended rule also passes over cells already Correct.
   */
  predicate Considered(guess: string, t: Tally, i: nat, skipCorrect: bool)
    requires i < |guess| && i < |t.result|
  {
    guess[i] != NUL && !(skipCorrect && t.result[i] == Correct)
  }

  /** Pass 2 after its first `n` positions, starting from the tally pass 1 left. */
  function MisplacedPass(guess: string, t0: Tally, n: nat, skipCorrect: bool): (t: Tally)
    requires |t0.result| == |t0.pool| == |guess| && n <= |guess|
    ensures |t.result| == |t.pool| == |guess|
  {
    if n == 0 then t0
    else
      var t := MisplacedPass(guess, t0, n - 1, skipCorrect);
      if Considered(guess, t, n - 1, skipCorrect) then
        match FirstIndex(t.pool, guess[n - 1])
        case Some(pos) => Tally(t.result[n - 1 := Present], t.pool[pos := NUL])
        case None => t
      else t
  }

  /** Both passes over the whole guess. */
  function TwoPass(guess: string, answer: string, skipCorrect: bool): (r: seq<LetterResult>)
    requires |guess| == |answer|
    ensures |r| == |answer|
  {
    MisplacedPass(guess, ExactPass(guess, UpperString(answer), |guess|), |guess|, skipCorrect).result
  }

  /** The outcomes `submit_word` computes, exactly as the program computes them. */
  function Score(guess: string, answer: string): (r: seq<LetterResult>)
    requires |guess| == |answer|
    ensures |r| == |answer|
  {
    TwoPass(guess, answer, false)
  }

  /** The outcomes under the evidently intended rule: pass 2 leaves Correct cells alone. */
  function IntendedScore(guess: string, answer: string): (r: seq<LetterResult>)
    requires |guess| == |answer|
    ensures |r| == |answer|
  {
    TwoPass(guess, answer, true)
  }

  // ---------------------------------------------------------------------------
  // Counting credits

  /** How many of the first `n` positions hold letter `c` and are credited. */
  function CreditsBelow(guess: string, res: seq<LetterResult>, c: char, n: nat): nat
    requires n <= |guess| && n <= |res|
  {
    if n == 0 then 0
    else CreditsBelow(guess, res, c, n - 1) + (if Credited(res[n - 1]) && guess[n - 1] == c then 1 else 0)
  }

  /** How many positions holding letter `c` are credited Correct or Present. */
  function Credits(guess: string, res: seq<LetterResult>, c: char): nat
    requires |guess| == |res|
  {
    CreditsBelow(guess, res, c, |guess|)
  }

  lemma {:induction false} CreditsBelowUpdate(guess: string, res: seq<LetterResult>, i: nat, v: LetterResult, c: char, n: nat)
    requires n <= |guess| == |res| && i < |res|
    ensures CreditsBelow(guess, res[i := v], c, n) + (if i < n && Credited(res[i]) && guess[i] == c then 1 else 0)
         == CreditsBelow(guess, res, c, n) + (if i < n && Credited(v) && guess[i] == c then 1 else 0)
  {
    if n > 0 {
      CreditsBelowUpdate(guess, res, i, v, c, n - 1);
    }
  }

  /** Changing one outcome changes the credits of a letter by at most that one cell. */
  lemma CreditsUpdate(guess: string, res: seq<LetterResult>, i: nat, v: LetterResult, c: char)
    requires |guess| == |res| && i < |res|
    ensures Credits(guess, res[i := v], c) + (if Credited(res[i]) && guess[i] == c then 1 else 0)
         == Credits(guess, res, c) + (if Credited(v) && guess[i] == c then 1 else 0)
  {
    CreditsBelowUpdate(guess, res, i, v, c, |guess|);
  }

  lemma {:induction false} CreditsBelowNone(guess: string, res: seq<LetterResult>, c: char, n: nat)
    requires n <= |guess| && n <= |res|
    requires forall j :: 0 <= j < n ==> !Credited(res[j])
    ensures CreditsBelow(guess, res, c, n) == 0
  {
    if n > 0 {
      CreditsBelowNone(guess, res, c, n - 1);
    }
  }

  /** How many copies of `c` the string holds. */
  function Occurrences(s: string, c: char): nat {
    if s == [] then 0 else (if s[0] == c then 1 else 0) + Occurrences(s[1..], c)
  }

  /** A letter occurs in a string exactly when the string holds at least one copy of it. */
  lemma {:induction false} OccursIffPositive(s: string, c: char)
    ensures c in s <==> Occurrences(s, c) > 0
  {
    if s != [] {
      OccursIffPositive(s[1..], c);
      assert c in s <==> s[0] == c || c in s[1..];
    }
  }

  /** Overwriting one letter of a string with NUL removes one copy of that letter. */
  lemma {:induction false} ConsumeOne(s: string, pos: nat, c: char)
    requires pos < |s| && c != NUL
    ensures Occurrences(s[pos := NUL], c) == Occurrences(s, c) - (if s[pos] == c then 1 else 0)
  {
    if pos > 0 {
      assert s[pos := NUL][1..] == s[1..][pos - 1 := NUL];
      ConsumeOne(s[1..], pos - 1, c);
    } else {
      assert s[pos := NUL][1..] == s[1..];
    }
  }

  // ---------------------------------------------------------------------------
  // Pass 1

  /** Whether guess position `j` is an exact match for the answer letter there. */
  predicate MatchesAt(guess: string, upper: string, j: nat)
    requires j < |guess| == |upper|
  {
    guess[j] == ToAsciiUpper(upper[j])
  }

  /** Pass 1's outcomes after `n` positions, in closed form. */
  ghost function ExactResult(guess: string, upper: string, n: nat): (r: seq<LetterResult>)
    requires |guess| == |upper|
  {
    seq(|guess|, j requires 0 <= j < |guess| => if j < n && MatchesAt(guess, upper, j) then Correct else Absent)
  }

  /** Pass 1's remaining answer letters after `n` positions, in closed form. */
  ghost function ExactPool(guess: string, upper: string, n: nat): (p: string)
    requires |guess| == |upper|
  {
    seq(|guess|, j requires 0 <= j < |guess| => if j < n && MatchesAt(guess, upper, j) then NUL else upper[j])
  }

  /** After `n` positions, exactly the exact matches among them are Correct and consumed. */
  lemma {:induction false} ExactPassClosedForm(guess: string, upper: string, n: nat)
    requires |guess| == |upper| && n <= |guess|
    ensures ExactPass(guess, upper, n) == Tally(ExactResult(guess, upper, n), ExactPool(guess, upper, n))
  {
    if n > 0 {
      ExactPassClosedForm(guess, upper, n - 1);
      var t := ExactPass(guess, upper, n - 1);
      assert t.pool[n - 1] == upper[n - 1];
      var r, p := ExactResult(guess, upper, n), ExactPool(guess, upper, n);
      if MatchesAt(guess, upper, n - 1) {
        assert t.result[n - 1 := Correct] == r;
        assert t.pool[n - 1 := NUL] == p;
      } else {
        assert t.result == r;
        assert t.pool == p;
      }
    }
  }

  /** Pass 1 has not yet touched the positions at or after `n`. */
  lemma ExactPassAhead(guess: string, upper: string, n: nat)
    requires |guess| == |upper| && n <= |guess|
    ensures var t := ExactPass(guess, upper, n);
      forall j :: n <= j < |guess| ==> t.result[j] == Absent && t.pool[j] == upper[j]
  {
    ExactPassClosedForm(guess, upper, n);
    var r, p := ExactResult(guess, upper, n), ExactPool(guess, upper, n);
    assert forall j :: n <= j < |guess| ==> r[j] == Absent && p[j] == upper[j];
  }

  /** Pass 1 credits a letter exactly as often as it consumes a copy of it. */
  lemma {:induction false} ExactPassCredits(guess: string, upper: string, n: nat, c: char)
    requires |guess| == |upper| && n <= |guess| && UpperFixed(upper) && c != NUL
    ensures var t := ExactPass(guess, upper, n);
      Credits(guess, t.result, c) + Occurrences(t.pool, c) == Occurrences(upper, c)
  {
    if n == 0 {
      CreditsBelowNone(guess, AllAbsent(|guess|), c, |guess|);
    } else {
      var t := ExactPass(guess, upper, n - 1);
      ExactPassCredits(guess, upper, n - 1, c);
      ExactPassAhead(guess, upper, n - 1);
      if MatchesAt(guess, upper, n - 1) {
        assert guess[n - 1] == upper[n - 1];
        var hit := if guess[n - 1] == c then 1 else 0;
        var next := Tally(t.result[n - 1 := Correct], t.pool[n - 1 := NUL]);
        assert ExactPass(guess, upper, n) == next;
        assert !Credited(t.result[n - 1]);
        CreditsUpdate(guess, t.result, n - 1, Correct, c);
        ConsumeOne(t.pool, n - 1, c);
        assert Occurrences(next.pool, c) == Occurrences(t.pool, c) - hit;
      } else {
        assert ExactPass(guess, upper, n) == t;
      }
    }
  }

  // ---------------------------------------------------------------------------
  // Pass 2

  /** A tally pass 1 can leave: outcomes Correct or Absent, pool letters original or NUL. */
  ghost predicate AfterExactPass(guess: string, upper: string, t: Tally) {
    && |t.result| == |t.pool| == |guess| == |upper|
    && (forall j :: 0 <= j < |guess| ==> t.result[j] == Correct || t.result[j] == Absent)
    && (forall j :: 0 <= j < |guess| ==> t.pool[j] == upper[j] || t.pool[j] == NUL)
  }

  lemma ExactPassLeaves(guess: string, upper: string)
    requires |guess| == |upper|
    ensures AfterExactPass(guess, upper, ExactPass(guess, upper, |guess|))
  {
    ExactPassClosedForm(guess, upper, |guess|);
  }

  /** Pass 2 only ever overwrites answer letters with NUL. */
  lemma {:induction false} MisplacedPassPool(guess: string, upper: string, t0: Tally, n: nat, skipCorrect: bool)
    requires AfterExactPass(guess, upper, t0) && n <= |guess|
    ensures var t := MisplacedPass(guess, t0, n, skipCorrect);
      forall j :: 0 <= j < |guess| ==> t.pool[j] == upper[j] || t.pool[j] == NUL
  {
    if n > 0 {
      MisplacedPassPool(guess, upper, t0, n - 1, skipCorrect);
    }
  }

  /**
   * Pass 2 leaves the positions it has not reached alone, and changes a reached one
   * only to Present, for a letter that is not NUL and occurs in the answer.
   */
  lemma {:induction false} MisplacedPassResults(guess: string, upper: string, t0: Tally, n: nat, skipCorrect: bool)
    requires AfterExactPass(guess, upper, t0) && n <= |guess|
    ensures var t := MisplacedPass(guess, t0, n, skipCorrect);
      && (forall j :: n <= j < |guess| ==> t.result[j] == t0.result[j])
      && (forall j :: 0 <= j < |guess| ==>
            t.result[j] == t0.result[j] || (t.result[j] == Present && guess[j] != NUL && guess[j] in upper))
  {
    if n > 0 {
      MisplacedPassResults(guess, upper, t0, n - 1, skipCorrect);
      MisplacedPassPool(guess, upper, t0, n - 1, skipCorrect);
      var t := MisplacedPass(guess, t0, n - 1, skipCorrect);
      var t' := MisplacedPass(guess, t0, n, skipCorrect);
      if Considered(guess, t, n - 1, skipCorrect) && FirstIndex(t.pool, guess[n - 1]).Some? {
        var pos := FirstIndex(t.pool, guess[n - 1]).value;
        assert t'.result == t.result[n - 1 := Present];
        assert upper[pos] == guess[n - 1];
        assert guess[n - 1] in upper;
      } else {
        assert t'.result == t.result;
      }
    }
  }

  /** Under the intended rule pass 2 never touches a Correct cell. */
  lemma {:induction false} MisplacedPassKeepsCorrect(guess: string, upper: string, t0: Tally, n: nat)
    requires AfterExactPass(guess, upper, t0) && n <= |guess|
    ensures var t := MisplacedPass(guess, t0, n, true);
      forall j :: 0 <= j < |guess| && t0.result[j] == Correct ==> t.result[j] == Correct
  {
    if n > 0 {
      MisplacedPassKeepsCorrect(guess, upper, t0, n - 1);
      MisplacedPassResults(guess, upper, t0, n - 1, true);
    }
  }

  /** When pass 1 has consumed every answer letter, pass 2 changes nothing. */
  lemma {:induction false} MisplacedPassIdle(guess: string, t0: Tally, n: nat, skipCorrect: bool)
    requires |t0.result| == |t0.pool| == |guess| && n <= |guess|
    requires forall j :: 0 <= j < |guess| ==> t0.pool[j] == NUL
    ensures MisplacedPass(guess, t0, n, skipCorrect) == t0
  {
    if n > 0 {
      MisplacedPassIdle(guess, t0, n - 1, skipCorrect);
      assert guess[n - 1] != NUL ==> guess[n - 1] !in t0.pool;
    }
  }

  /** Pass 2 never credits a letter more often than it consumes a copy of it. */
  lemma {:induction false} MisplacedPassCredits(guess: string, t0: Tally, n: nat, skipCorrect: bool, c: char)
    requires |t0.result| == |t0.pool| == |guess| && n <= |guess| && c != NUL
    ensures var t := MisplacedPass(guess, t0, n, skipCorrect);
      Credits(guess, t.result, c) + Occurrences(t.pool, c) <= Credits(guess, t0.result, c) + Occurrences(t0.pool, c)
  {
    if n > 0 {
      MisplacedPassCredits(guess, t0, n - 1, skipCorrect, c);
      var t := MisplacedPass(guess, t0, n - 1, skipCorrect);
      var hit := if guess[n - 1] == c then 1 else 0;
      if Considered(guess, t, n - 1, skipCorrect) {
        match FirstIndex(t.pool, guess[n - 1])
        case Some(pos) =>
          var next := Tally(t.result[n - 1 := Present], t.pool[pos := NUL]);
          assert MisplacedPass(guess, t0, n, skipCorrect) == next;
          CreditsUpdate(guess, t.result, n - 1, Present, c);
          ConsumeOne(t.pool, pos, c);
          assert Occurrences(next.pool, c) == Occurrences(t.pool, c) - hit;
        case None =>
          assert MisplacedPass(guess, t0, n, skipCorrect) == t;
      } else {
        assert MisplacedPass(guess, t0, n, skipCorrect) == t;
      }
    }
  }

  /** Once pass 2 is past a position it never changes it again, and the answer letters only lose copies. */
  lemma {:induction false} MisplacedPassSettled(guess: string, t0: Tally, m: nat, n: nat, skipCorrect: bool)
    requires |t0.result| == |t0.pool| == |guess| && m <= n <= |guess|
    ensures var a, b := MisplacedPass(guess, t0, m, skipCorrect), MisplacedPass(guess, t0, n, skipCorrect);
      && (forall j :: 0 <= j < m ==> b.result[j] == a.result[j])
      && (forall k :: 0 <= k < |guess| ==> b.pool[k] == a.pool[k] || b.pool[k] == NUL)
    decreases n - m
  {
    if m < n {
      MisplacedPassSettled(guess, t0, m, n - 1, skipCorrect);
    }
  }

  /**
   * Under the intended rule pass 2 credits a letter exactly as often as it consumes a
   * copy of it: every cell it marks Present was Absent before.
   */
  lemma {:induction false} IntendedPassCredits(guess: string, upper: string, t0: Tally, n: nat, c: char)
    requires AfterExactPass(guess, upper, t0) && n <= |guess| && c != NUL
    ensures var t := MisplacedPass(guess, t0, n, true);
      Credits(guess, t.result, c) + Occurrences(t.pool, c) == Credits(guess, t0.result, c) + Occurrences(t0.pool, c)
  {
    if n > 0 {
      IntendedPassCredits(guess, upper, t0, n - 1, c);
      MisplacedPassResults(guess, upper, t0, n - 1, true);
      var t := MisplacedPass(guess, t0, n - 1, true);
      var hit := if guess[n - 1] == c then 1 else 0;
      if Considered(guess, t, n - 1, true) {
        match FirstIndex(t.pool, guess[n - 1])
        case Some(pos) =>
          var next := Tally(t.result[n - 1 := Present], t.pool[pos := NUL]);
          assert MisplacedPass(guess, t0, n, true) == next;
          assert t.result[n - 1] == Absent;
          CreditsUpdate(guess, t.result, n - 1, Present, c);
          ConsumeOne(t.pool, pos, c);
          assert Occurrences(next.pool, c) == Occurrences(t.pool, c) - hit;
        case None =>
          assert MisplacedPass(guess, t0, n, true) == t;
      } else {
        assert MisplacedPass(guess, t0, n, true) == t;
      }
    }
  }

  // ---------------------------------------------------------------------------
  // What a score says (for the program's rule and the intended one alike)

  lemma ScoreFacts(guess: string, answer: string, skipCorrect: bool)
    requires |guess| == |answer|
    ensures var upper := UpperString(answer);
      var t0 := ExactPass(guess, upper, |guess|);
      var r := TwoPass(guess, answer, skipCorrect);
      && (forall j :: 0 <= j < |guess| ==> (t0.result[j] == Correct <==> guess[j] == upper[j]))
      && (forall j :: 0 <= j < |guess| ==> t0.result[j] == Correct || t0.result[j] == Absent)
      && (forall j :: 0 <= j < |guess| ==>
            r[j] == t0.result[j] || (r[j] == Present && guess[j] != NUL && guess[j] in upper))
      && (skipCorrect ==> forall j :: 0 <= j < |guess| && t0.result[j] == Correct ==> r[j] == Correct)
  {
    var upper := UpperString(answer);
    ExactPassClosedForm(guess, upper, |guess|);
    ExactPassLeaves(guess, upper);
    var t0 := ExactPass(guess, upper, |guess|);
    MisplacedPassResults(guess, upper, t0, |guess|, skipCorrect);
    if skipCorrect {
      MisplacedPassKeepsCorrect(guess, upper, t0, |guess|);
    }
  }

  /** No cell is left unscored: every outcome is Correct, Present or Absent. */
  lemma ScoreNeverEmpty(guess: string, answer: string, skipCorrect: bool)
    requires |guess| == |answer|
    ensures forall j :: 0 <= j < |guess| ==> TwoPass(guess, answer, skipCorrect)[j] != Empty
  {
    ScoreFacts(guess, answer, skipCorrect);
  }

  /** A cell is Absent only where the guess letter differs from the upper-cased answer's letter there. */
  lemma AbsentMeansMismatch(guess: string, answer: string, skipCorrect: bool)
    requires |guess| == |answer|
    ensures forall j :: 0 <= j < |guess| && TwoPass(guess, answer, skipCorrect)[j] == Absent ==>
      guess[j] != UpperString(answer)[j]
  {
    ScoreFacts(guess, answer, skipCorrect);
  }

  /** A cell is Correct only where the guess letter equals the upper-cased answer's letter there. */
  lemma CorrectMeansMatch(guess: string, answer: string, skipCorrect: bool)
    requires |guess| == |answer|
    ensures forall j :: 0 <= j < |guess| && TwoPass(guess, answer, skipCorrect)[j] == Correct ==>
      guess[j] == UpperString(answer)[j]
  {
    ScoreFacts(guess, answer, skipCorrect);
  }

  /** A cell is Present only when its letter occurs in the upper-cased answer. */
  lemma PresentMeansOccurs(guess: string, answer: string, skipCorrect: bool)
    requires |guess| == |answer|
    ensures forall j :: 0 <= j < |guess| && TwoPass(guess, answer, skipCorrect)[j] == Present ==>
      guess[j] in UpperString(answer)
  {
    ScoreFacts(guess, answer, skipCorrect);
  }

  /** For every letter, the credited positions holding it never outnumber its copies in the answer. */
  lemma CreditsBounded(guess: string, answer: string, skipCorrect: bool, c: char)
    requires |guess| == |answer| && c != NUL
    ensures Credits(guess, TwoPass(guess, answer, skipCorrect), c) <= Occurrences(UpperString(answer), c)
  {
    var upper := UpperString(answer);
    var t0 := ExactPass(guess, upper, |guess|);
    ExactPassCredits(guess, upper, |guess|, c);
    ExactPassLeaves(guess, upper);
    MisplacedPassCredits(guess, t0, |guess|, skipCorrect, c);
  }

  /** A letter the answer does not hold is never credited, neither Correct nor Present. */
  lemma MissingLetterNeverCredited(guess: string, answer: string, skipCorrect: bool, c: char)
    requires |guess| == |answer| && c != NUL && c !in UpperString(answer)
    ensures Credits(guess, TwoPass(guess, answer, skipCorrect), c) == 0
  {
    CreditsBounded(guess, answer, skipCorrect, c);
    OccursIffPositive(UpperString(answer), c);
  }

  /** The answer letters left over after both passes, NUL where a position was credited with them. */
  function Leftover(guess: string, answer: string, skipCorrect: bool): (p: string)
    requires |guess| == |answer|
    ensures |p| == |answer|
  {
    MisplacedPass(guess, ExactPass(guess, UpperString(answer), |guess|), |guess|, skipCorrect).pool
  }

  /**
   * A cell is Absent only when no copy of its letter is left over: pass 2 marks Present
   * every letter that still finds an unused copy in the answer.
   */
  lemma AbsentMeansExhausted(guess: string, answer: string, skipCorrect: bool)
    requires |guess| == |answer|
    ensures forall j :: 0 <= j < |guess| && TwoPass(guess, answer, skipCorrect)[j] == Absent && guess[j] != NUL ==>
      guess[j] !in Leftover(guess, answer, skipCorrect)
  {
    var upper := UpperString(answer);
    var t0 := ExactPass(guess, upper, |guess|);
    var t := MisplacedPass(guess, t0, |guess|, skipCorrect);
    ExactPassLeaves(guess, upper);
    forall j | 0 <= j < |guess| && t.result[j] == Absent && guess[j] != NUL
      ensures guess[j] !in t.pool
    {
      AbsentAt(guess, upper, t0, j, skipCorrect);
    }
  }

  /** One cell of `AbsentMeansExhausted`: pass 2 found no copy of it, and no later step adds one. */
  lemma AbsentAt(guess: string, upper: string, t0: Tally, j: nat, skipCorrect: bool)
    requires AfterExactPass(guess, upper, t0) && j < |guess| && guess[j] != NUL
    requires MisplacedPass(guess, t0, |guess|, skipCorrect).result[j] == Absent
    ensures guess[j] !in MisplacedPass(guess, t0, |guess|, skipCorrect).pool
  {
    var tj := MisplacedPass(guess, t0, j, skipCorrect);
    var tj' := MisplacedPass(guess, t0, j + 1, skipCorrect);
    MisplacedPassResults(guess, upper, t0, |guess|, skipCorrect);
    MisplacedPassResults(guess, upper, t0, j, skipCorrect);
    assert tj.result[j] == Absent;
    assert Considered(guess, tj, j, skipCorrect);
    MisplacedPassSettled(guess, t0, j + 1, |guess|, skipCorrect);
    assert tj'.result[j] == Absent;
    assert FirstIndex(tj.pool, guess[j]).None?;
    MisplacedPassSettled(guess, t0, j, |guess|, skipCorrect);
  }

  lemma {:induction false} OccurrencesSnoc(s: string, x: char, c: char)
    ensures Occurrences(s + [x], c) == Occurrences(s, c) + (if x == c then 1 else 0)
  {
    if s != [] {
      assert (s + [x])[1..] == s[1..] + [x];
      OccurrencesSnoc(s[1..], x, c);
    }
  }

  /** The credited positions holding `c` are at most its copies in the guess, and all of them when all are credited. */
  lemma {:induction false} CreditsBelowOccurrences(guess: string, res: seq<LetterResult>, c: char, n: nat)
    requires n <= |guess| && n <= |res|
    ensures CreditsBelow(guess, res, c, n) <= Occurrences(guess[..n], c)
    ensures (forall j :: 0 <= j < n && guess[j] == c ==> Credited(res[j])) ==>
      CreditsBelow(guess, res, c, n) == Occurrences(guess[..n], c)
  {
    if n > 0 {
      CreditsBelowOccurrences(guess, res, c, n - 1);
      assert guess[..n] == guess[..n - 1] + [guess[n - 1]];
      OccurrencesSnoc(guess[..n - 1], guess[n - 1], c);
    }
  }

  function Min(a: nat, b: nat): nat {
    if a < b then a else b
  }

  /**
   * Under the intended rule each letter is credited, Correct or Present, exactly as
   * often as it occurs in both words: the smaller of its two counts.
   */
  lemma IntendedCreditsEveryCopy(guess: string, answer: string, c: char)
    requires |guess| == |answer| && c != NUL
    ensures Credits(guess, IntendedScore(guess, answer), c)
         == Min(Occurrences(guess, c), Occurrences(UpperString(answer), c))
  {
    var upper := UpperString(answer);
    var t0 := ExactPass(guess, upper, |guess|);
    var r := IntendedScore(guess, answer);
    var left := Leftover(guess, answer, true);
    ExactPassCredits(guess, upper, |guess|, c);
    ExactPassLeaves(guess, upper);
    IntendedPassCredits(guess, upper, t0, |guess|, c);
    assert Credits(guess, r, c) + Occurrences(left, c) == Occurrences(upper, c);
    CreditsBelowOccurrences(guess, r, c, |guess|);
    assert guess[..|guess|] == guess;
    if Credits(guess, r, c) < Occurrences(guess, c) {
      var j :| 0 <= j < |guess| && guess[j] == c && !Credited(r[j]);
      ScoreNeverEmpty(guess, answer, true);
      AbsentMeansExhausted(guess, answer, true);
      OccursIffPositive(left, c);
    }
  }

  /** Every cell is Correct exactly when the guess is the upper-cased answer. */
  lemma SolvedIffGuessIsAnswer(guess: string, answer: string, skipCorrect: bool)
    requires |guess| == |answer|
    ensures Solved(TwoPass(guess, answer, skipCorrect)) <==> guess == UpperString(answer)
  {
    var upper := UpperString(answer);
    var t0 := ExactPass(guess, upper, |guess|);
    var r := TwoPass(guess, answer, skipCorrect);
    ScoreFacts(guess, answer, skipCorrect);
    if guess == upper {
      ExactPassClosedForm(guess, upper, |guess|);
      MisplacedPassIdle(guess, t0, |guess|, skipCorrect);
    }
    if Solved(r) {
      assert forall j :: 0 <= j < |guess| ==> guess[j] == upper[j];
    }
  }

  /** Under the intended rule a cell is Correct exactly where the letters match, and Present never is. */
  lemma IntendedCorrectIffMatch(guess: string, answer: string)
    requires |guess| == |answer|
    ensures forall j :: 0 <= j < |guess| ==>
      (IntendedScore(guess, answer)[j] == Correct <==> guess[j] == UpperString(answer)[j])
  {
    ScoreFacts(guess, answer, true);
  }

  /** One step of pass 2 that finds the guess letter at `pos`, the first remaining copy. */
  lemma MisplacedStepFound(guess: string, t0: Tally, n: nat, skipCorrect: bool, t: Tally, pos: nat)
    requires |t0.result| == |t0.pool| == |guess| && 1 <= n <= |guess|
    requires MisplacedPass(guess, t0, n - 1, skipCorrect) == t
    requires Considered(guess, t, n - 1, skipCorrect)
    requires pos < |t.pool| && t.pool[pos] == guess[n - 1]
    requires forall j :: 0 <= j < pos ==> t.pool[j] != guess[n - 1]
    ensures MisplacedPass(guess, t0, n, skipCorrect) == Tally(t.result[n - 1 := Present], t.pool[pos := NUL])
  {
  }

  /** One step of pass 2 that changes nothing: the position is passed over or its letter is used up. */
  lemma MisplacedStepMissed(guess: string, t0: Tally, n: nat, skipCorrect: bool, t: Tally)
    requires |t0.result| == |t0.pool| == |guess| && 1 <= n <= |guess|
    requires MisplacedPass(guess, t0, n - 1, skipCorrect) == t
    requires Considered(guess, t, n - 1, skipCorrect) ==> guess[n - 1] !in t.pool
    ensures MisplacedPass(guess, t0, n, skipCorrect) == t
  {
  }

  // ---------------------------------------------------------------------------
  // Worked examples. Each is split into its two passes, and the words are parameters
  // fixed by the precondition, which keeps each proof obligation small.

  /** Answer "ALLOY", guess "LOLLY": the surplus third L is Absent because both answer L's are used. */
  lemma ScoreAlloyLolly(guess: string, answer: string)
    requires guess == "LOLLY" && answer == "ALLOY"
    ensures Score(guess, answer) == [Present, Present, Correct, Absent, Correct]
  {
    var t0 := Tally([Absent, Absent, Correct, Absent, Correct], ['A', 'L', NUL, 'O', NUL]);
    AlloyLollyFirstPass(guess, answer, t0);
    AlloyLollySecondPass(guess, t0);
  }

  lemma AlloyLollyFirstPass(guess: string, answer: string, t0: Tally)
    requires guess == "LOLLY" && answer == "ALLOY"
    requires t0 == Tally([Absent, Absent, Correct, Absent, Correct], ['A', 'L', NUL, 'O', NUL])
    ensures ExactPass(guess, UpperString(answer), 5) == t0
  {
    assert UpperString(answer) == answer;
    ExactPassClosedForm(guess, answer, 5);
    assert ExactResult(guess, answer, 5) == t0.result;
    assert ExactPool(guess, answer, 5) == t0.pool;
  }

  lemma AlloyLollySecondPass(guess: string, t0: Tally)
    requires guess == "LOLLY"
    requires t0 == Tally([Absent, Absent, Correct, Absent, Correct], ['A', 'L', NUL, 'O', NUL])
    ensures MisplacedPass(guess, t0, 5, false).result == [Present, Present, Correct, Absent, Correct]
  {
    var t2 := Tally([Present, Present, Correct, Absent, Correct], ['A', NUL, NUL, NUL, NUL]);
    AlloyLollyFirstTwo(guess, t0, t2);
    MisplacedStepMissed(guess, t0, 3, false, t2);
    MisplacedStepMissed(guess, t0, 4, false, t2);
    MisplacedStepMissed(guess, t0, 5, false, t2);
  }

  /** The two L's and the O of "LOLLY" before the third L: the first two find copies. */
  lemma AlloyLollyFirstTwo(guess: string, t0: Tally, t2: Tally)
    requires guess == "LOLLY"
    requires t0 == Tally([Absent, Absent, Correct, Absent, Correct], ['A', 'L', NUL, 'O', NUL])
    requires t2 == Tally([Present, Present, Correct, Absent, Correct], ['A', NUL, NUL, NUL, NUL])
    ensures MisplacedPass(guess, t0, 2, false) == t2
  {
    var t1 := Tally([Present, Absent, Correct, Absent, Correct], ['A', NUL, NUL, 'O', NUL]);
    MisplacedStepFound(guess, t0, 1, false, t0, 1);
    MisplacedStepFound(guess, t0, 2, false, t1, 3);
  }

  /** Answer "REACT", guess "TRACE": the A and the C stand where the answer has them and are Correct; T, R and E are Present. */
  lemma ScoreReactTrace(guess: string, answer: string)
    requires guess == "TRACE" && answer == "REACT"
    ensures Score(guess, answer) == [Present, Present, Correct, Correct, Present]
  {
    var t0 := Tally([Absent, Absent, Correct, Correct, Absent], ['R', 'E', NUL, NUL, 'T']);
    ReactTraceFirstPass(guess, answer, t0);
    ReactTraceSecondPass(guess, t0);
  }

  lemma ReactTraceFirstPass(guess: string, answer: string, t0: Tally)
    requires guess == "TRACE" && answer == "REACT"
    requires t0 == Tally([Absent, Absent, Correct, Correct, Absent], ['R', 'E', NUL, NUL, 'T'])
    ensures ExactPass(guess, UpperString(answer), 5) == t0
  {
    assert UpperString(answer) == answer;
    ExactPassClosedForm(guess, answer, 5);
    assert ExactResult(guess, answer, 5) == t0.result;
    assert ExactPool(guess, answer, 5) == t0.pool;
  }

  lemma ReactTraceSecondPass(guess: string, t0: Tally)
    requires guess == "TRACE"
    requires t0 == Tally([Absent, Absent, Correct, Correct, Absent], ['R', 'E', NUL, NUL, 'T'])
    ensures MisplacedPass(guess, t0, 5, false).result == [Present, Present, Correct, Correct, Present]
  {
    var t2 := Tally([Present, Present, Correct, Correct, Absent], [NUL, 'E', NUL, NUL, NUL]);
    ReactTraceFirstTwo(guess, t0, t2);
    MisplacedStepMissed(guess, t0, 3, false, t2);
    MisplacedStepMissed(guess, t0, 4, false, t2);
    MisplacedStepFound(guess, t0, 5, false, t2, 1);
  }

  /** The T and the R of "TRACE" find the answer's T and R. */
  lemma ReactTraceFirstTwo(guess: string, t0: Tally, t2: Tally)
    requires guess == "TRACE"
    requires t0 == Tally([Absent, Absent, Correct, Correct, Absent], ['R', 'E', NUL, NUL, 'T'])
    requires t2 == Tally([Present, Present, Correct, Correct, Absent], [NUL, 'E', NUL, NUL, NUL])
    ensures MisplacedPass(guess, t0, 2, false) == t2
  {
    var t1 := Tally([Present, Absent, Correct, Correct, Absent], ['R', 'E', NUL, NUL, NUL]);
    MisplacedStepFound(guess, t0, 1, false, t0, 4);
    MisplacedStepFound(guess, t0, 2, false, t1, 0);
  }

  /**
   * Answer "AAXYZ", guess "ABCDE": the exact A at position 0 is relabelled Present by
   * pass 2 because a second A remains, so the program's score has no Correct cell even
   * though position 0 matches.
   */
  lemma ScoreRelabelsCorrect(guess: string, answer: string)
    requires guess == "ABCDE" && answer == "AAXYZ"
    ensures guess[0] == UpperString(answer)[0]
    ensures Score(guess, answer) == [Present, Absent, Absent, Absent, Absent]
  {
    var t0 := Tally([Correct, Absent, Absent, Absent, Absent], [NUL, 'A', 'X', 'Y', 'Z']);
    RelabelFirstPass(guess, answer, t0);
    var t1 := Tally([Present, Absent, Absent, Absent, Absent], [NUL, NUL, 'X', 'Y', 'Z']);
    MisplacedStepFound(guess, t0, 1, false, t0, 1);
    RelabelSecondPass(guess, t0, t1, 5, false);
  }

  /** The same words under the intended rule: position 0 stays Correct. */
  lemma IntendedKeepsCorrect(guess: string, answer: string)
    requires guess == "ABCDE" && answer == "AAXYZ"
    ensures IntendedScore(guess, answer) == [Correct, Absent, Absent, Absent, Absent]
  {
    var t0 := Tally([Correct, Absent, Absent, Absent, Absent], [NUL, 'A', 'X', 'Y', 'Z']);
    RelabelFirstPass(guess, answer, t0);
    MisplacedStepMissed(guess, t0, 1, true, t0);
    RelabelSecondPass(guess, t0, t0, 5, true);
  }

  lemma RelabelFirstPass(guess: string, answer: string, t0: Tally)
    requires guess == "ABCDE" && answer == "AAXYZ"
    requires t0 == Tally([Correct, Absent, Absent, Absent, Absent], [NUL, 'A', 'X', 'Y', 'Z'])
    ensures ExactPass(guess, UpperString(answer), 5) == t0
  {
    assert UpperString(answer) == answer;
    ExactPassClosedForm(guess, answer, 5);
    assert ExactResult(guess, answer, 5) == t0.result;
    assert ExactPool(guess, answer, 5) == t0.pool;
  }

  /** Past position 0 nothing changes: no pool holds a B, C, D or E. */
  lemma {:induction false} RelabelSecondPass(guess: string, t0: Tally, t: Tally, n: nat, skipCorrect: bool)
    requires guess == "ABCDE" && 1 <= n <= 5 && |t0.result| == |t0.pool| == 5
    requires MisplacedPass(guess, t0, 1, skipCorrect) == t
    requires forall j :: 0 <= j < 5 ==> t.pool[j] in [NUL, 'A', 'X', 'Y', 'Z']
    ensures MisplacedPass(guess, t0, n, skipCorrect) == t
  {
    if n > 1 {
      RelabelSecondPass(guess, t0, t, n - 1, skipCorrect);
      assert guess[n - 1] !in t.pool;
      MisplacedStepMissed(guess, t0, n, skipCorrect, t);
    }
  }

  /**
   * Answer "AAC", guess "ACA": pass 2 spends the answer's second A on the exact A at
   * position 0, so the A at position 2 stays Absent; both words hold two A's, yet only
   * one is credited.
   */
  lemma ScoreStrandsCopy(guess: string, answer: string)
    requires guess == "ACA" && answer == "AAC"
    ensures Score(guess, answer) == [Present, Present, Absent]
    ensures Occurrences(guess, 'A') == Occurrences(UpperString(answer), 'A') == 2
    ensures Credits(guess, Score(guess, answer), 'A') == 1
  {
    var t0 := Tally([Correct, Absent, Absent], [NUL, 'A', 'C']);
    StrandFirstPass(guess, answer, t0);
    var t1 := Tally([Present, Absent, Absent], [NUL, NUL, 'C']);
    var t2 := Tally([Present, Present, Absent], [NUL, NUL, NUL]);
    MisplacedStepFound(guess, t0, 1, false, t0, 1);
    MisplacedStepFound(guess, t0, 2, false, t1, 2);
    MisplacedStepMissed(guess, t0, 3, false, t2);
    StrandCounts(guess, answer, t2.result);
  }

  lemma StrandCounts(guess: string, answer: string, r: seq<LetterResult>)
    requires guess == "ACA" && answer == "AAC" && r == [Present, Present, Absent]
    ensures Occurrences(guess, 'A') == Occurrences(UpperString(answer), 'A') == 2
    ensures Credits(guess, r, 'A') == 1
  {
    assert UpperString(answer) == answer;
    assert guess[1..] == "CA" && guess[1..][1..] == "A" && "A"[1..] == [];
    assert answer[1..] == "AC" && answer[1..][1..] == "C" && "C"[1..] == [];
    assert Occurrences("A", 'A') == 1;
    assert Occurrences("CA", 'A') == 1;
    assert Occurrences("C", 'A') == 0;
    assert Occurrences("AC", 'A') == 1;
    assert CreditsBelow(guess, r, 'A', 1) == 1;
    assert CreditsBelow(guess, r, 'A', 2) == 1;
  }

  /** The same words under the intended rule: position 0 stays Correct and both A's are credited. */
  lemma IntendedCreditsBothCopies(guess: string, answer: string)
    requires guess == "ACA" && answer == "AAC"
    ensures IntendedScore(guess, answer) == [Correct, Present, Present]
  {
    var t0 := Tally([Correct, Absent, Absent], [NUL, 'A', 'C']);
    StrandFirstPass(guess, answer, t0);
    var u2 := Tally([Correct, Present, Absent], [NUL, 'A', NUL]);
    MisplacedStepMissed(guess, t0, 1, true, t0);
    MisplacedStepFound(guess, t0, 2, true, t0, 2);
    MisplacedStepFound(guess, t0, 3, true, u2, 1);
  }

  lemma StrandFirstPass(guess: string, answer: string, t0: Tally)
    requires guess == "ACA" && answer == "AAC"
    requires t0 == Tally([Correct, Absent, Absent], [NUL, 'A', 'C'])
    ensures ExactPass(guess, UpperString(answer), 3) == t0
  {
    assert UpperString(answer) == answer;
    ExactPassClosedForm(guess, answer, 3);
    assert ExactResult(guess, answer, 3) == t0.result;
    assert ExactPool(guess, answer, 3) == t0.pool;
  }
}
