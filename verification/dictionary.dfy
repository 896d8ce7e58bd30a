/**
 * The Thai word list used by the segmenter: a set of words and the length
 * (in characters) of the longest of them.
 */
module Dictionary {
  import opened Results
  import opened Strs

  datatype ThaiTextError = DictionaryLoadError(message: string)

  datatype Dict = Dict(words: set<string>, maxWordLen: nat)

  /** `maxWordLen` is exactly the length of the longest word (0 when empty). */
  ghost predicate Valid(d: Dict)
  {
    && (forall w | w in d.words :: |w| <= d.maxWordLen)
    && (d.words == {} ==> d.maxWordLen == 0)
    && (d.words != {} ==> exists w | w in d.words :: |w| == d.maxWordLen)
  }

  /** The empty dictionary. */
  function New(): (d: Dict)
    ensures Valid(d) && d.words == {} && Len(d) == 0
  {
    Dict({}, 0)
  }

  /** Adds one word; the bound on word length grows to cover it. */
  function AddWord(d: Dict, word: string): (r: Dict)
    ensures word in r.words && d.words <= r.words
    ensures forall w | w in r.words && w != word :: w in d.words
    ensures d.maxWordLen <= r.maxWordLen && |word| <= r.maxWordLen
  {
    Dict(d.words + {word}, if |word| > d.maxWordLen then |word| else d.maxWordLen)
  }

  /** Adding a word keeps `maxWordLen` equal to the longest word's length. */
  lemma AddWordValid(d: Dict, word: string)
    requires Valid(d)
    ensures Valid(AddWord(d, word))
  {
    var r := AddWord(d, word);
    if |word| <= d.maxWordLen && d.words != {} {
      var w :| w in d.words && |w| == d.maxWordLen;
      assert w in r.words;
    }
  }

  /** The words form a set: adding one already present changes nothing, its count included. */
  lemma AddPresentWord(d: Dict, word: string)
    requires Valid(d) && Contains(d, word)
    ensures AddWord(d, word) == d && Len(AddWord(d, word)) == Len(d)
  {
    assert d.words + {word} == d.words;
  }

  function Contains(d: Dict, word: string): (b: bool)
    ensures b <==> word in d.words
  {
    word in d.words
  }

  /** The number of distinct words. */
  function Len(d: Dict): (n: nat)
    ensures n == |d.words|
    ensures n == 0 <==> d.words == {}
  {
    |d.words|
  }

  /** Adding a word not yet present counts one more word. */
  lemma AddNewWordCounts(d: Dict, word: string)
    requires !Contains(d, word)
    ensures Len(AddWord(d, word)) == Len(d) + 1
  {
    assert AddWord(d, word).words == d.words + {word};
  }

  function IsEmpty(d: Dict): (b: bool)
    ensures b <==> Len(d) == 0
  {
    d.words == {}
  }

  /**
   * The lines of the content. Rust's `lines` also drops a `\r` before each
   * `\n` and the empty piece after a final `\n`; both vanish under the
   * trimming below, so splitting on `\n` is enough here.
   */
  function Lines(content: string): seq<string>
  {
    Split(content, '\n')
  }

  /** A line contributes a word when, trimmed, it is non-empty and not a `#` comment. */
  predicate IsEntry(line: string)
  {
    var w := Trim(line);
    w != [] && w[0] != '#'
  }

  /** The words a file's lines contribute, in order. */
  function Entries(lines: seq<string>): (ws: seq<string>)
    ensures forall i | 0 <= i < |ws| :: ws[i] != [] && ws[i][0] != '#'
    ensures forall i | 0 <= i < |ws| :: exists j | 0 <= j < |lines| :: IsEntry(lines[j]) && ws[i] == Trim(lines[j])
  {
    if |lines| == 0 then []
    else if IsEntry(lines[0]) then [Trim(lines[0])] + Entries(lines[1..])
    else Entries(lines[1..])
  }

  /** The set of words a file's lines contribute, by index. */
  ghost function EntrySet(lines: seq<string>): set<string>
  {
    set i | 0 <= i < |lines| && IsEntry(lines[i]) :: Trim(lines[i])
  }

  lemma {:induction false} EntriesAreEntrySet(lines: seq<string>)
    ensures forall w :: w in Entries(lines) <==> w in EntrySet(lines)
  {
    if |lines| > 0 {
      EntriesAreEntrySet(lines[1..]);
      forall w ensures w in EntrySet(lines) <==> (w in EntrySet(lines[1..]) || (IsEntry(lines[0]) && w == Trim(lines[0]))) {
        if w in EntrySet(lines) {
          var i :| 0 <= i < |lines| && IsEntry(lines[i]) && Trim(lines[i]) == w;
          if i > 0 { assert lines[1..][i - 1] == lines[i]; }
        }
        if w in EntrySet(lines[1..]) {
          var i :| 0 <= i < |lines| - 1 && IsEntry(lines[1..][i]) && Trim(lines[1..][i]) == w;
          assert lines[i + 1] == lines[1..][i];
        }
      }
    }
  }

  /** Adds the words in order. */
  function AddAll(d: Dict, ws: seq<string>): (r: Dict)
    ensures r.words == d.words + set w | w in ws
    decreases |ws|
  {
    if |ws| == 0 then d
    else
      var r := AddAll(AddWord(d, ws[0]), ws[1..]);
      assert (set w | w in ws) == {ws[0]} + set w | w in ws[1..] by {
        assert ws == [ws[0]] + ws[1..];
      }
      r
  }

  lemma {:induction false} AddAllValid(d: Dict, ws: seq<string>)
    requires Valid(d)
    ensures Valid(AddAll(d, ws))
    decreases |ws|
  {
    if |ws| > 0 {
      AddWordValid(d, ws[0]);
      AddAllValid(AddWord(d, ws[0]), ws[1..]);
    }
  }

  /**
   * Builds a dictionary from one-word-per-line text: blank lines and lines
   * starting with `#` (after trimming) are skipped, and a content with no
   * word at all is an error.
   */
  function FromStrContent(content: string): (r: Result<Dict, ThaiTextError>)
    ensures r.Err? <==> EntrySet(Lines(content)) == {}
    ensures r.Err? ==> r.error == DictionaryLoadError("Dictionary is empty")
    ensures r.Ok? ==> r.value.words == EntrySet(Lines(content)) && Valid(r.value)
  {
    var d := AddAll(New(), Entries(Lines(content)));
    LoadedFromEntries(Lines(content));
    if d.words == {} then Err(DictionaryLoadError("Dictionary is empty")) else Ok(d)
  }

  /** Adding the entries of some lines to a new dictionary gives exactly their entry set. */
  lemma LoadedFromEntries(lines: seq<string>)
    ensures var d := AddAll(New(), Entries(lines));
      d.words == EntrySet(lines) && Valid(d)
  {
    var ws := Entries(lines);
    AddAllValid(New(), ws);
    EntriesAreEntrySet(lines);
    assert forall w :: w in AddAll(New(), ws).words <==> w in ws;
  }

  /** Every word a loaded dictionary holds is a trimmed, non-comment line of its content. */
  lemma LoadedWordsAreLines(content: string, w: string)
    requires FromStrContent(content).Ok?
    requires w in FromStrContent(content).value.words
    ensures exists line | line in Lines(content) :: Trim(line) == w && w != [] && w[0] != '#'
  {
    var lines := Lines(content);
    var i :| 0 <= i < |lines| && IsEntry(lines[i]) && Trim(lines[i]) == w;
    assert lines[i] in lines;
  }
}
