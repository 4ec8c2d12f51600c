/** The detector's engine as the source runs it: a word iterator that the window
    builder and the sliding loops share and advance, the synonym table that
    `GetAllSynonyms` updates in place, and the detector whose methods build the
    reference set and count matching tuples. Every method is proved against the
    specification functions of `TupleStrings` and `Synonyms`. */
module DetectPlagiarism {
  import opened JavaStrings
  import opened Synonyms
  import opened TupleStrings

  /** An `Iterator<String>` over a fixed sequence of words. */
  class WordIterator {
    const words: seq<string>
    var pos: nat

    ghost predicate Valid()
      reads this
    {
      pos <= |words|
    }

    constructor (words: seq<string>)
      ensures Valid() && this.words == words && pos == 0
    {
      this.words := words;
      pos := 0;
    }

    /** The words `next` has not returned yet. */
    ghost function Remaining(): seq<string>
      reads this
      requires Valid()
    {
      words[pos..]
    }

    predicate HasNext()
      reads this
    {
      pos < |words|
    }

    method Next() returns (w: string)
      requires Valid() && HasNext()
      modifies this`pos
      ensures Valid() && pos == old(pos) + 1 && w == words[old(pos)]
    {
      w := words[pos];
      pos := pos + 1;
    }
  }

  /** The `Hashtable<String, Integer>` from words to group values. */
  class SynonymTable {
    var entries: SynonymMap

    constructor ()
      ensures entries == map[]
    {
      entries := map[];
    }

    method Put(key: string, value: Int32)
      modifies this
      ensures entries == old(entries)[key := value]
    {
      entries := entries[key := value];
    }
  }

  class Detector {
    /** `String.hashCode`, left abstract. */
    const hash: string -> Int32
    var tupleSize: int
    var synonymMappings: SynonymTable
    var allHashedStrings: set<Int32>

    constructor (tupleSize: int, hash: string -> Int32)
      ensures this.tupleSize == tupleSize && this.hash == hash
      ensures fresh(synonymMappings) && synonymMappings.entries == map[]
      ensures allHashedStrings == {}
    {
      this.tupleSize := tupleSize;
      this.hash := hash;
      synonymMappings := new SynonymTable();
      allHashedStrings := {};
    }

    /** Puts every word of `line.split(" ")` into `mappings` with the line's
        hash as value and hands the same table back. */
    method GetAllSynonyms(line: string, mappings: SynonymTable) returns (r: SynonymTable)
      modifies mappings
      ensures r == mappings
      ensures mappings.entries == WithLine(hash, old(mappings.entries), line)
    {
      var words := Split(line);
      for i := 0 to |words|
        invariant mappings.entries == AddWords(old(mappings.entries), words[..i], hash(line))
      {
        assert words[..i + 1][..i] == words[..i] && words[..i + 1][i] == words[i];
        mappings.Put(words[i], hash(line));
      }
      assert words[..|words|] == words;
      r := mappings;
    }

    /** Starts a tuple with `word` and adds words from the iterator until the
        tuple has `tupleSize` slots or the words run out; a tuple size below 2
        gives a single slot. */
    method GetFirstTuple(it: WordIterator, word: string) returns (firstTuple: string)
      requires it.Valid()
      modifies it`pos
      ensures it.Valid()
      ensures it.pos == old(it.pos) + FirstSlots(tupleSize, |old(it.Remaining())|) - 1
      ensures firstTuple == Render(synonymMappings.entries, [word] + it.words[old(it.pos)..it.pos])
    {
      var m := synonymMappings.entries;
      var countWords := 1;
      firstTuple := NextTuple(m, "", word);
      assert ([word] + it.words[it.pos..it.pos])[..0] == [];
      while countWords < tupleSize && it.HasNext()
        invariant it.Valid() && old(it.pos) <= it.pos
        invariant countWords == 1 + it.pos - old(it.pos) <= Width(tupleSize)
        invariant firstTuple == Render(m, [word] + it.words[old(it.pos)..it.pos])
      {
        ghost var before := [word] + it.words[old(it.pos)..it.pos];
        var next := it.Next();
        assert ([word] + it.words[old(it.pos)..it.pos]) == before + [next];
        assert (before + [next])[..|before|] == before;
        firstTuple := NextTuple(m, firstTuple, next);
        countWords := countWords + 1;
      }
    }

    /** The hashes of all tuples of the remaining words; the iterator ends up
        exhausted. */
    method GetAllTuples(it: WordIterator) returns (allTuples: set<Int32>)
      requires it.Valid()
      modifies it`pos
      ensures it.Valid() && !it.HasNext()
      ensures allTuples == Fingerprints(hash, Tuples(synonymMappings.entries, tupleSize, old(it.Remaining())))
    {
      var m := synonymMappings.entries;
      ghost var ws := it.Remaining();
      ghost var all := Tuples(m, tupleSize, ws);
      ghost var produced: seq<string> := [];
      allTuples := {};
      var curr := "";
      while it.HasNext()
        invariant it.Valid()
        decreases |it.words| - it.pos
        invariant allTuples == Fingerprints(hash, produced)
        invariant Sliding(m, ws, all, produced, curr, it.words[it.pos..])
      {
        ghost var start := it.pos;
        var word := it.Next();
        if |curr| == 0 {
          curr := GetFirstTuple(it, word);
          SuffixSlices(it.words, start, it.pos);
          FirstTupleStarts(m, tupleSize, ws, all, produced, curr, [word] + it.words[start + 1..it.pos], it.words[it.pos..]);
        } else {
          ghost var prev := curr;
          ClosedIsEvictable(curr);
          curr := NextTuple(m, curr[IndexOf(curr, ']') + 2..], word);
          SlideStep(m, ws, all, produced, prev, curr, it.words, start);
        }
        FingerprintsAppend(hash, produced, curr);
        produced := produced + [curr];
        allTuples := allTuples + {hash(curr)};
      }
      ExhaustedTuples(m, ws, all, produced, curr);
    }

    /** Counts the tuples of the remaining words and how many of them have
        their hash in `allHashedStrings`; the iterator ends up exhausted. */
    method CalculatePlagiarism(it: WordIterator) returns (plagiarizedCount: nat, tupleCount: nat)
      requires it.Valid()
      modifies it`pos
      ensures it.Valid() && !it.HasNext()
      ensures tupleCount == |Tuples(synonymMappings.entries, tupleSize, old(it.Remaining()))|
      ensures plagiarizedCount == CountMatched(hash, Tuples(synonymMappings.entries, tupleSize, old(it.Remaining())), allHashedStrings)
      ensures plagiarizedCount <= tupleCount
      ensures allHashedStrings == old(allHashedStrings)
    {
      var m := synonymMappings.entries;
      var reference := allHashedStrings;
      ghost var ws := it.Remaining();
      ghost var all := Tuples(m, tupleSize, ws);
      ghost var produced: seq<string> := [];
      var curr := "";
      tupleCount, plagiarizedCount := 0, 0;
      while it.HasNext()
        invariant it.Valid()
        decreases |it.words| - it.pos
        invariant tupleCount == |produced|
        invariant plagiarizedCount == CountMatched(hash, produced, reference)
        invariant Sliding(m, ws, all, produced, curr, it.words[it.pos..])
      {
        ghost var start := it.pos;
        var word := it.Next();
        if |curr| == 0 {
          curr := GetFirstTuple(it, word);
          SuffixSlices(it.words, start, it.pos);
          FirstTupleStarts(m, tupleSize, ws, all, produced, curr, [word] + it.words[start + 1..it.pos], it.words[it.pos..]);
        } else {
          ghost var prev := curr;
          ClosedIsEvictable(curr);
          curr := NextTuple(m, curr[IndexOf(curr, ']') + 2..], word);
          SlideStep(m, ws, all, produced, prev, curr, it.words, start);
        }
        CountMatchedSnoc(hash, produced, curr, reference);
        produced := produced + [curr];
        tupleCount := tupleCount + 1;
        plagiarizedCount := if hash(curr) in reference then plagiarizedCount + 1 else plagiarizedCount;
      }
      ExhaustedTuples(m, ws, all, produced, curr);
    }

    /** Builds the synonym table from the synonym lines, one `GetAllSynonyms`
        per line, and installs it. */
    method LoadSynonyms(lines: seq<string>)
      modifies this
      ensures fresh(synonymMappings) && synonymMappings.entries == BuildIndex(hash, lines)
      ensures tupleSize == old(tupleSize) && allHashedStrings == old(allHashedStrings)
    {
      var mappings := new SynonymTable();
      for i := 0 to |lines|
        invariant fresh(mappings)
        invariant tupleSize == old(tupleSize) && allHashedStrings == old(allHashedStrings)
        invariant mappings.entries == BuildIndex(hash, lines[..i])
      {
        BuildIndexSnoc(hash, lines, i + 1);
        mappings := GetAllSynonyms(lines[i], mappings);
      }
      assert lines[..|lines|] == lines;
      synonymMappings := mappings;
    }

    /** Makes the tuple hashes of the reference document the set that
        `CalculatePlagiarism` checks against. */
    method LoadReference(it: WordIterator)
      requires it.Valid()
      modifies this, it`pos
      ensures it.Valid() && !it.HasNext()
      ensures synonymMappings == old(synonymMappings) && tupleSize == old(tupleSize)
      ensures allHashedStrings == Fingerprints(hash, Tuples(synonymMappings.entries, tupleSize, old(it.Remaining())))
    {
      allHashedStrings := GetAllTuples(it);
    }
  }

  /** Where the sliding loops stand: before the first word nothing is produced
      and all words remain; afterwards `curr` is the last tuple formed, and the
      tuples produced followed by the slides still to come are all the tuples. */
  ghost predicate Sliding(m: SynonymMap, ws: seq<string>, all: seq<string>, produced: seq<string>, curr: string, rest: seq<string>) {
    if curr == "" then produced == [] && rest == ws
    else ClosesSlot(curr) && produced + Steps(m, curr, rest) == all
  }

  /** After the first word and `GetFirstTuple`, the tuple built is the first
      tuple of the document and the words left are those the slides use. */
  lemma FirstTupleStarts(m: SynonymMap, k: int, ws: seq<string>, all: seq<string>, produced: seq<string>,
                         first: string, head: seq<string>, rest: seq<string>)
    requires all == Tuples(m, k, ws) && produced == []
    requires ws == head + rest && head != [] && |head| == FirstSlots(k, |ws| - 1)
    requires first == Render(m, head)
    ensures first != "" && Sliding(m, ws, all, produced + [first], first, rest)
  {
    assert ws[..|head|] == head && ws[|head|..] == rest;
    FirstTupleUnfold(m, k, ws);
    StartSliding(m, ws, all, produced, first, rest);
  }

  /** The words from `start` on: the one at `start`, those up to `now`, and the rest. */
  lemma SuffixSlices(words: seq<string>, start: nat, now: nat)
    requires start < now <= |words|
    ensures words[start..] == ([words[start]] + words[start + 1..now]) + words[now..]
  {
  }

  lemma StartSliding(m: SynonymMap, ws: seq<string>, all: seq<string>, produced: seq<string>, first: string, rest: seq<string>)
    requires produced == [] && ClosesSlot(first) && all == [first] + Steps(m, first, rest)
    ensures first != "" && Sliding(m, ws, all, produced + [first], first, rest)
  {
    assert produced + [first] == [first];
  }

  /** The tuples start with the first tuple, which closes a slot. */
  lemma FirstTupleUnfold(m: SynonymMap, k: int, ws: seq<string>)
    requires ws != []
    ensures var c := FirstSlots(k, |ws| - 1); var first := Render(m, ws[..c]);
      ClosesSlot(first) && Tuples(m, k, ws) == [first] + Steps(m, first, ws[c..])
  {
    RenderCloses(m, ws[..FirstSlots(k, |ws| - 1)]);
  }

  /** One slide in the loops: the tuple formed from the next word is the next
      one the specification lists. */
  lemma SlideStep(m: SynonymMap, ws: seq<string>, all: seq<string>, produced: seq<string>, curr: string,
                  next: string, words: seq<string>, pos: nat)
    requires pos < |words| && curr != "" && Sliding(m, ws, all, produced, curr, words[pos..])
    requires IndexOf(curr, ']') + 2 <= |curr| && next == NextTuple(m, Evict(curr), words[pos])
    ensures next != "" && Sliding(m, ws, all, produced + [next], next, words[pos + 1..])
  {
    var rest := words[pos..];
    assert rest[0] == words[pos] && rest[1..] == words[pos + 1..];
    StepsUnfold(m, produced, curr, rest);
  }

  /** When the words have run out, the tuples produced are all the tuples. */
  lemma ExhaustedTuples(m: SynonymMap, ws: seq<string>, all: seq<string>, produced: seq<string>, curr: string)
    requires ws == [] ==> all == []
    requires Sliding(m, ws, all, produced, curr, [])
    ensures produced == all
  {
    if curr != "" {
      assert produced + Steps(m, curr, []) == produced;
    }
  }

  /** One slide, stated on the tuple strings. */
  lemma StepsUnfold(m: SynonymMap, produced: seq<string>, prev: string, rest: seq<string>)
    requires rest != [] && ClosesSlot(prev)
    ensures IndexOf(prev, ']') + 2 <= |prev|
    ensures var next := Evict(prev) + Slot(m, rest[0]);
      ClosesSlot(next) && produced + Steps(m, prev, rest) == (produced + [next]) + Steps(m, next, rest[1..])
  {
    ClosedIsEvictable(prev);
  }

  /** The comparison itself, without the file handling around it: build the
      synonym table, take the reference set from `withTuples`, and score
      `toCheck` against it. */
  method CheckDocuments(hash: string -> Int32, tupleSize: int, synonyms: seq<string>,
                        withTuples: seq<string>, toCheck: seq<string>)
    returns (plagiarizedCount: nat, tupleCount: nat)
    ensures var m := BuildIndex(hash, synonyms);
      && tupleCount == |Tuples(m, tupleSize, toCheck)| == WindowCount(tupleSize, |toCheck|)
      && plagiarizedCount == CountMatched(hash, Tuples(m, tupleSize, toCheck), Fingerprints(hash, Tuples(m, tupleSize, withTuples)))
    ensures plagiarizedCount <= tupleCount
    ensures SameSlots(BuildIndex(hash, synonyms), withTuples, toCheck) ==> plagiarizedCount == tupleCount
  {
    var detector := new Detector(tupleSize, hash);
    detector.LoadSynonyms(synonyms);
    var reference := new WordIterator(withTuples);
    detector.LoadReference(reference);
    var checked := new WordIterator(toCheck);
    plagiarizedCount, tupleCount := detector.CalculatePlagiarism(checked);
    var m := BuildIndex(hash, synonyms);
    if SameSlots(m, withTuples, toCheck) {
      SynonymTuplesEqual(m, tupleSize, withTuples, toCheck);
      SelfMatchIsFull(hash, m, tupleSize, withTuples);
    }
  }
}
