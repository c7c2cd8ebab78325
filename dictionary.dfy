/**
 * The dictionary layer: the fixed catalog of word lists, loading a list and
 * picking a word of the dictionary's length from it, and the `Display` text.
 *
 * Reading a file is not modelled: its outcome is a `FileRead` the caller passes in.
 * The random pick is a nondeterministic choice among the matching lines.
 */
module Dictionaries {
  import opened Wrappers
  import opened Strings

  type u8 = x: int | 0 <= x < 0x100

  /** The dictionary errors; only `FileLoadError` is ever produced. */
  datatype DictionaryError = FileLoadError | NoMatchingName | NoMatchingLength | CacheError

  /** What `fs::read_to_string` yields for a dictionary's file. */
  datatype FileRead = Contents(text: string) | Unreadable

  const DisplayPrefix: string := "Dictionary: "
  const DisplaySeparator: string := ", Word Length: "

  /** A named word list and the word length it is played with. */
  datatype Dictionary = Dictionary(name: string, length: u8, filename: string)
  {
    /** The `Display` text; it determines the name and the length. */
    function Display(): (s: string)
      ensures ParseDisplay(s) == Some((name, length as nat))
    {
      var head := DisplayPrefix + name + DisplaySeparator;
      var digits := Decimal(length);
      var s := head + digits;
      TrailingDigitsOfConcat(head, digits);
      DecimalRoundTrip(length);
      assert s[..|s| - |digits|] == head && s[|s| - |digits|..] == digits;
      assert head[..|DisplayPrefix|] == DisplayPrefix;
      assert head[|head| - |DisplaySeparator|..] == DisplaySeparator;
      assert head[|DisplayPrefix|..|head| - |DisplaySeparator|] == name;
      s
    }

    /**
     * `random_word`: loads the list afresh and returns one of its lines whose UTF-8
     * length is `length`. The source unwraps the pick, so a readable list must hold
     * at least one such line.
     */
    method RandomWord(file: FileRead) returns (r: Result<string, DictionaryError>)
      requires file.Contents? ==> Matching(Lines(file.text), length) != []
      ensures file.Unreadable? ==> r == Failure(FileLoadError)
      ensures file.Contents? ==> r.Success? && r.value in Lines(file.text) && ByteLen(r.value) == length
    {
      var contents :- LoadDictionary(file);
      var filtered := Matching(contents, length);
      assert filtered[0] in filtered;
      var word :| word in filtered;
      return Success(word);
    }
  }

  /** What the loader closure returns: the file's lines, or `FileLoadError` when it cannot be read. */
  function LoadDictionary(file: FileRead): (r: Result<seq<string>, DictionaryError>)
    ensures r.Failure? <==> file.Unreadable?
    ensures r.Failure? ==> r.error == FileLoadError
    ensures r.Success? ==> r.value == Lines(file.text)
  {
    match file
    case Contents(text) => Success(Lines(text))
    case Unreadable => Failure(FileLoadError)
  }

  /** The `filter` step of `random_word`: the words, in order, whose UTF-8 length is `length`. */
  function Matching(words: seq<string>, length: nat): (ws: seq<string>)
    ensures |ws| <= |words|
    ensures forall w :: w in ws <==> w in words && ByteLen(w) == length
  {
    if words == [] then []
    else (if ByteLen(words[0]) == length then [words[0]] else []) + Matching(words[1..], length)
  }

  /** Reads a name and a length back from a `Display` text. */
  function ParseDisplay(s: string): Option<(string, nat)> {
    var d := TrailingDigits(s);
    var head := s[..|s| - d];
    if 0 < d && (d == 1 || s[|s| - d] != '0') && |DisplayPrefix| + |DisplaySeparator| <= |head|
      && head[..|DisplayPrefix|] == DisplayPrefix
      && head[|head| - |DisplaySeparator|..] == DisplaySeparator
    then
      assert AllDigits(s[|s| - d..]);
      Some((head[|DisplayPrefix|..|head| - |DisplaySeparator|], ParseDecimal(s[|s| - d..])))
    else None
  }

  /** Only a `Display` text parses: what `ParseDisplay` accepts is the text of the pair it returns. */
  lemma ParseDisplayInverts(s: string, name: string, n: nat)
    requires ParseDisplay(s) == Some((name, n))
    ensures s == DisplayPrefix + name + DisplaySeparator + Decimal(n)
  {
    var d := TrailingDigits(s);
    var head, digits := s[..|s| - d], s[|s| - d..];
    assert Canonical(digits);
    DecimalOfParse(digits);
    assert head == DisplayPrefix + name + DisplaySeparator;
    assert s == head + digits;
  }

  /** A catalog entry is identified by its name together with its length. */
  predicate KeysDistinct(ds: seq<Dictionary>) {
    forall i, j :: 0 <= i < j < |ds| ==> ds[i].name != ds[j].name || ds[i].length != ds[j].length
  }

  /** `get_dictionaries`: the fixed catalog, in this order. */
  function Catalog(): (ds: seq<Dictionary>)
    ensures |ds| == 10
    ensures KeysDistinct(ds)
    ensures ds[0] == Dictionary("Wordle", 5, "data/wordle.txt")
  {
    [ Dictionary("Wordle", 5, "data/wordle.txt"),
      Dictionary("Scrabble", 4, "data/scrabble.txt"),
      Dictionary("Scrabble", 5, "data/scrabble.txt"),
      Dictionary("Scrabble", 6, "data/scrabble.txt"),
      Dictionary("Scrabble", 7, "data/scrabble.txt"),
      Dictionary("Dutch", 5, "data/dutch.txt"),
      Dictionary("French", 6, "data/french.txt"),
      Dictionary("French", 7, "data/french.txt"),
      Dictionary("French", 8, "data/french.txt"),
      Dictionary("Italian", 5, "data/italian.txt") ]
  }

  /** The first entry whose name and length are the given ones. */
  function FindIndex(ds: seq<Dictionary>, name: string, length: int): (r: Option<nat>)
    ensures r.Some? ==> r.value < |ds| && ds[r.value].name == name && ds[r.value].length == length
    ensures r.Some? ==> forall j :: 0 <= j < r.value ==> ds[j].name != name || ds[j].length != length
    ensures r.None? ==> forall j :: 0 <= j < |ds| ==> ds[j].name != name || ds[j].length != length
  {
    FirstIndexWhere(ds, (d: Dictionary) => d.name == name && d.length == length)
  }

  /** The first entry with the given name, whatever its length. */
  function FindNamed(ds: seq<Dictionary>, name: string): (r: Option<nat>)
    ensures r.Some? ==> r.value < |ds| && ds[r.value].name == name
    ensures r.Some? ==> forall j :: 0 <= j < r.value ==> ds[j].name != name
    ensures r.None? ==> forall j :: 0 <= j < |ds| ==> ds[j].name != name
  {
    FirstIndexWhere(ds, (d: Dictionary) => d.name == name)
  }

  /** With distinct keys, looking an entry's own key up finds that entry. */
  lemma FindIndexOfEntry(ds: seq<Dictionary>, i: nat)
    requires KeysDistinct(ds) && i < |ds|
    ensures FindIndex(ds, ds[i].name, ds[i].length) == Some(i)
  {
  }

  /** Looking up the key of any entry finds an entry with that key. */
  lemma FindIndexOfEntryIn(ds: seq<Dictionary>, d: Dictionary)
    requires d in ds
    ensures FindIndex(ds, d.name, d.length).Some?
  {
    var i :| 0 <= i < |ds| && ds[i] == d;
    assert ds[i].name == d.name && ds[i].length == d.length;
  }

  /** The default game relies on the first "Wordle" entry being ("Wordle", 5). */
  lemma CatalogDefault()
    ensures FindNamed(Catalog(), "Wordle") == Some(0)
    ensures FindIndex(Catalog(), "Wordle", 5) == Some(0)
  {
  }
}
