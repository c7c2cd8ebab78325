/**
 * The options screen's state: the selected catalog entry, moved cyclically through
 * the catalog, the number of tries, clamped to [3, 10], and applying both to the
 * game options.
 */
module Options {
  import opened Wrappers
  import D = Dictionaries
  import G = Game

  const MinTries: G.u16 := 3
  const MaxTries: G.u16 := 10

  /** The index after `i` in a cycle of `n`. */
  function NextIndex(i: nat, n: nat): (j: nat)
    requires i < n
    ensures j < n
    ensures j == 0 <==> i == n - 1
    ensures 0 < j ==> j == i + 1
  {
    (i + 1) % n
  }

  /** The index before `i` in a cycle of `n`. */
  function PreviousIndex(i: nat, n: nat): (j: nat)
    requires i < n
    ensures j < n
    ensures j == n - 1 <==> i == 0
    ensures j < n - 1 ==> j + 1 == i
  {
    if i == 0 then n - 1 else i - 1
  }

  /** The entry `next` moves to from the selection (`name`, `length`). */
  function NextEntry(ds: seq<D.Dictionary>, name: string, length: int): (d: D.Dictionary)
    requires D.FindIndex(ds, name, length).Some?
    ensures d in ds
  {
    ds[NextIndex(D.FindIndex(ds, name, length).value, |ds|)]
  }

  /** The entry `previous` moves to from the selection (`name`, `length`). */
  function PreviousEntry(ds: seq<D.Dictionary>, name: string, length: int): (d: D.Dictionary)
    requires D.FindIndex(ds, name, length).Some?
    ensures d in ds
  {
    ds[PreviousIndex(D.FindIndex(ds, name, length).value, |ds|)]
  }

  /** With distinct keys, `next` moves the selection one entry on, wrapping at the end. */
  lemma NextMovesOn(ds: seq<D.Dictionary>, i: nat)
    requires D.KeysDistinct(ds) && i < |ds|
    ensures var d := NextEntry(ds, ds[i].name, ds[i].length);
      D.FindIndex(ds, d.name, d.length) == Some(NextIndex(i, |ds|))
  {
    D.FindIndexOfEntry(ds, i);
    D.FindIndexOfEntry(ds, NextIndex(i, |ds|));
  }

  /** With distinct keys, `previous` moves the selection one entry back, wrapping at the start. */
  lemma PreviousMovesBack(ds: seq<D.Dictionary>, i: nat)
    requires D.KeysDistinct(ds) && i < |ds|
    ensures var d := PreviousEntry(ds, ds[i].name, ds[i].length);
      D.FindIndex(ds, d.name, d.length) == Some(PreviousIndex(i, |ds|))
  {
    D.FindIndexOfEntry(ds, i);
    D.FindIndexOfEntry(ds, PreviousIndex(i, |ds|));
  }

  /** With distinct keys, `previous` undoes `next`. */
  lemma PreviousUndoesNext(ds: seq<D.Dictionary>, name: string, length: int)
    requires D.KeysDistinct(ds) && D.FindIndex(ds, name, length).Some?
    ensures var d := NextEntry(ds, name, length);
      var e := PreviousEntry(ds, d.name, d.length);
      e.name == name && e.length == length
  {
    var i := D.FindIndex(ds, name, length).value;
    NextMovesOn(ds, i);
  }

  /** With distinct keys, `next` undoes `previous`. */
  lemma NextUndoesPrevious(ds: seq<D.Dictionary>, name: string, length: int)
    requires D.KeysDistinct(ds) && D.FindIndex(ds, name, length).Some?
    ensures var d := PreviousEntry(ds, name, length);
      var e := NextEntry(ds, d.name, d.length);
      e.name == name && e.length == length
  {
    var i := D.FindIndex(ds, name, length).value;
    PreviousMovesBack(ds, i);
  }

  /** The entry reached from entry `i` by `k` moves of `next`. */
  function NextTimes(ds: seq<D.Dictionary>, i: nat, k: nat): (d: D.Dictionary)
    requires D.KeysDistinct(ds) && i < |ds|
    ensures d in ds
  {
    if k == 0 then ds[i]
    else
      var d := NextTimes(ds, i, k - 1);
      D.FindIndexOfEntryIn(ds, d);
      NextEntry(ds, d.name, d.length)
  }

  /** The index reached from `i` by `k` steps of `NextIndex`. */
  function CycleIndex(i: nat, k: nat, n: nat): (j: nat)
    requires i < n
    ensures j < n
  {
    if k == 0 then i else NextIndex(CycleIndex(i, k - 1, n), n)
  }

  /** With distinct keys, `k` moves of `next` from entry `i` reach the entry `k` steps on in the cycle. */
  lemma {:induction false} NextTimesIndex(ds: seq<D.Dictionary>, i: nat, k: nat)
    requires D.KeysDistinct(ds) && i < |ds|
    ensures NextTimes(ds, i, k) == ds[CycleIndex(i, k, |ds|)]
  {
    if k > 0 {
      NextTimesIndex(ds, i, k - 1);
      D.FindIndexOfEntry(ds, CycleIndex(i, k - 1, |ds|));
    }
  }

  lemma {:induction false} CycleCompose(i: nat, a: nat, b: nat, n: nat)
    requires i < n
    ensures CycleIndex(i, a + b, n) == CycleIndex(CycleIndex(i, a, n), b, n)
    decreases b
  {
    if b > 0 {
      CycleCompose(i, a, b - 1, n);
    }
  }

  /** Before the end of the catalog, `k` steps advance the index by `k`. */
  lemma {:induction false} CycleNoWrap(i: nat, k: nat, n: nat)
    requires i + k < n
    ensures CycleIndex(i, k, n) == i + k
  {
    if k > 0 {
      CycleNoWrap(i, k - 1, n);
    }
  }

  /** `n` steps in a cycle of `n` return to the start. */
  lemma CycleReturns(i: nat, n: nat)
    requires i < n
    ensures CycleIndex(i, n, n) == i
  {
    var toLast := n - 1 - i;
    CycleNoWrap(i, toLast, n);
    CycleCompose(i, toLast, 1, n);
    CycleCompose(i, toLast + 1, i, n);
    CycleNoWrap(0, i, n);
  }

  /** With distinct keys, as many moves of `next` as there are entries return to the starting entry. */
  lemma FullCycleReturns(ds: seq<D.Dictionary>, i: nat)
    requires D.KeysDistinct(ds) && i < |ds|
    ensures NextTimes(ds, i, |ds|) == ds[i]
  {
    NextTimesIndex(ds, i, |ds|);
    CycleReturns(i, |ds|);
  }

  // ---------------------------------------------------------------------------
  // The tries counter

  /** `increment_tries`: one more, but never above 10 (the source's `+= 1` panics at 65535). */
  function Incremented(t: G.u16): (r: G.u16)
    requires t < 0xFFFF
    ensures r <= MaxTries
    ensures r == MaxTries || r == t + 1
    ensures t < MaxTries ==> r == t + 1
  {
    if t + 1 < MaxTries then t + 1 else MaxTries
  }

  /** `decrement_tries`: one fewer, but never below 3 (the source's `-= 1` panics at 0). */
  function Decremented(t: G.u16): (r: G.u16)
    requires 0 < t
    ensures MinTries <= r
    ensures r == MinTries || r + 1 == t
    ensures MinTries < t ==> r + 1 == t
  {
    if t - 1 > MinTries then t - 1 else MinTries
  }

  /** A key on the options screen that changes the tries. */
  datatype TriesKey = MoreTries | FewerTries

  function Step(t: G.u16, key: TriesKey): (r: G.u16)
    requires MinTries <= t <= MaxTries
    ensures MinTries <= r <= MaxTries
  {
    match key
    case MoreTries => Incremented(t)
    case FewerTries => Decremented(t)
  }

  /** The tries after a sequence of keys. */
  function AfterKeys(t: G.u16, keys: seq<TriesKey>): (r: G.u16)
    requires MinTries <= t <= MaxTries
    ensures MinTries <= r <= MaxTries
    decreases |keys|
  {
    if keys == [] then t else AfterKeys(Step(t, keys[0]), keys[1..])
  }

  /** From the default of 6, any sequence of keys keeps the tries within [3, 10]. */
  lemma FromDefaultStaysInRange(keys: seq<TriesKey>)
    ensures MinTries <= AfterKeys(6, keys) <= MaxTries
  {
  }

  /** Each operation is idempotent at its bound. */
  lemma IdempotentAtBounds()
    ensures Incremented(MaxTries) == MaxTries && Incremented(Incremented(MaxTries)) == MaxTries
    ensures Decremented(MinTries) == MinTries && Decremented(Decremented(MinTries)) == MinTries
  {
  }

  /** `k` increments from `t` reach `t + k`, capped at 10. */
  lemma {:induction false} RepeatedIncrement(t: G.u16, k: nat)
    requires MinTries <= t <= MaxTries
    decreases k
    ensures AfterKeys(t, seq(k, _ => MoreTries)) == if t as int + k < MaxTries as int then t as int + k else MaxTries as int
  {
    if k > 0 {
      var keys := seq(k, _ => MoreTries);
      assert keys[1..] == seq(k - 1, _ => MoreTries);
      RepeatedIncrement(Incremented(t), k - 1);
    }
  }

  /** `k` decrements from `t` reach `t - k`, floored at 3. */
  lemma {:induction false} RepeatedDecrement(t: G.u16, k: nat)
    requires MinTries <= t <= MaxTries
    decreases k
    ensures AfterKeys(t, seq(k, _ => FewerTries)) == if t as int - k > MinTries as int then t as int - k else MinTries as int
  {
    if k > 0 {
      var keys := seq(k, _ => FewerTries);
      assert keys[1..] == seq(k - 1, _ => FewerTries);
      RepeatedDecrement(Decremented(t), k - 1);
    }
  }

  // ---------------------------------------------------------------------------
  // The options screen

  /** The selected dictionary, by name and length, the tries, and the catalog to choose from. */
  class OptionData {
    var dictionaryName: string
    var dictionaryLength: D.u8
    var maxTries: G.u16
    const dictionaries: seq<D.Dictionary>

    /** The catalog index of the selection, if the selection is a catalog entry. */
    function Selected(): (r: Option<nat>)
      reads this
      ensures r.Some? ==> r.value < |dictionaries|
      ensures r.Some? ==> dictionaries[r.value].name == dictionaryName && dictionaries[r.value].length == dictionaryLength
      ensures r.None? ==> forall j :: 0 <= j < |dictionaries| ==>
        dictionaries[j].name != dictionaryName || dictionaries[j].length != dictionaryLength
    {
      D.FindIndex(dictionaries, dictionaryName, dictionaryLength)
    }

    /**
     * The selection is one of the entries and the tries lie in the screen's range, so
     * that none of the methods below can panic.
     */
    predicate Valid()
      reads this
    {
      Selected().Some? && MinTries <= maxTries <= MaxTries
    }

    /** `OptionData::new`: ("Wordle", 5) selected, 6 tries, the whole catalog. */
    constructor()
      ensures dictionaryName == "Wordle" && dictionaryLength == 5 && maxTries == 6
      ensures dictionaries == D.Catalog()
      ensures Selected() == Some(0)
      ensures Valid()
    {
      dictionaryName := "Wordle";
      dictionaryLength := 5;
      maxTries := 6;
      dictionaries := D.Catalog();
      new;
      D.CatalogDefault();
    }

    /**
     * `next`: selects the entry after the selected one, the first after the last.
     * The source panics when the selection is not in the catalog.
     */
    method Next()
      requires Selected().Some?
      modifies this
      ensures maxTries == old(maxTries)
      ensures var d := NextEntry(dictionaries, old(dictionaryName), old(dictionaryLength));
        dictionaryName == d.name && dictionaryLength == d.length
      ensures Selected().Some?
      ensures old(Valid()) ==> Valid()
      ensures D.KeysDistinct(dictionaries) ==> Selected() == Some(NextIndex(old(Selected()).value, |dictionaries|))
    {
      var idx := D.FindIndex(dictionaries, dictionaryName, dictionaryLength).value;
      var next := (idx + 1) % |dictionaries|;
      ghost var i := idx;
      var dict := dictionaries[next];
      dictionaryName := dict.name;
      dictionaryLength := dict.length;
      D.FindIndexOfEntryIn(dictionaries, dict);
      if D.KeysDistinct(dictionaries) {
        NextMovesOn(dictionaries, i);
        D.FindIndexOfEntry(dictionaries, i);
      }
    }

    /**
     * `previous`: selects the entry before the selected one, the last before the first.
     * The source panics when the selection is not in the catalog.
     */
    method Previous()
      requires Selected().Some?
      modifies this
      ensures maxTries == old(maxTries)
      ensures var d := PreviousEntry(dictionaries, old(dictionaryName), old(dictionaryLength));
        dictionaryName == d.name && dictionaryLength == d.length
      ensures Selected().Some?
      ensures old(Valid()) ==> Valid()
      ensures D.KeysDistinct(dictionaries) ==> Selected() == Some(PreviousIndex(old(Selected()).value, |dictionaries|))
    {
      var idx := D.FindIndex(dictionaries, dictionaryName, dictionaryLength).value;
      ghost var i := idx;
      var prev := if idx == 0 then |dictionaries| - 1 else idx - 1;
      var dict := dictionaries[prev];
      dictionaryName := dict.name;
      dictionaryLength := dict.length;
      D.FindIndexOfEntryIn(dictionaries, dict);
      if D.KeysDistinct(dictionaries) {
        PreviousMovesBack(dictionaries, i);
        D.FindIndexOfEntry(dictionaries, i);
      }
    }

    /** `increment_tries`. */
    method IncrementTries()
      requires maxTries < 0xFFFF
      modifies this
      ensures maxTries == Incremented(old(maxTries))
      ensures dictionaryName == old(dictionaryName) && dictionaryLength == old(dictionaryLength)
      ensures old(Valid()) ==> Valid()
    {
      maxTries := maxTries + 1;
      maxTries := if maxTries < MaxTries then maxTries else MaxTries;
    }

    /** `decrement_tries`. */
    method DecrementTries()
      requires 0 < maxTries
      modifies this
      ensures maxTries == Decremented(old(maxTries))
      ensures dictionaryName == old(dictionaryName) && dictionaryLength == old(dictionaryLength)
      ensures old(Valid()) ==> Valid()
    {
      maxTries := maxTries - 1;
      maxTries := if maxTries > MinTries then maxTries else MinTries;
    }

    /**
     * `apply`: selects the dictionary in `opts` and then sets its number of guesses to
     * the tries. When the selection is not in the catalog the error is passed on and
     * `opts` is left as it was, its number of guesses included.
     */
    method Apply(opts: G.GameOptions) returns (r: Outcome<G.GameError>)
      modifies opts
      ensures D.FindIndex(D.Catalog(), dictionaryName, dictionaryLength).None? ==>
        && r == Fail(G.DictionaryError)
        && opts.maxGuesses == old(opts.maxGuesses)
        && opts.dictionary == old(opts.dictionary)
        && opts.wordLength == old(opts.wordLength)
      ensures D.FindIndex(D.Catalog(), dictionaryName, dictionaryLength).Some? ==>
        && r == Pass
        && opts.dictionary == D.Catalog()[D.FindIndex(D.Catalog(), dictionaryName, dictionaryLength).value]
        && opts.wordLength == dictionaryLength
        && opts.maxGuesses == maxTries
        && opts.Valid()
      ensures dictionaries == D.Catalog() && Valid() ==> r == Pass
    {
      var selected := opts.SetDictionary(dictionaryName, dictionaryLength);
      if selected.Fail? {
        return selected;
      }
      opts.maxGuesses := maxTries;
      return Pass;
    }
  }
}
