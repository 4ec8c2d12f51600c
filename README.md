# DetectPlagiarism tuple engine in Dafny

This project models the tuple-matching engine of `DetectPlagiarism`, a plagiarism detector.

Each synonym line is split on single spaces, and every word of the line is mapped to the line's hash, its *group value*. A document is read word by word through an iterator, and a tuple string covers `tupleSize` consecutive words. The engine builds the tuple strings directly:

- Each word contributes one bracketed slot, `"[" + content + "] "`. The content is the word's group value in decimal when the table has the word, and the word itself otherwise.
- The first tuple takes its words from the shared iterator.
- Every later word slides the window by one. The slide cuts the text up to the first `']'` and the space after it, then appends the new word's slot.
- `getAllTuples` collects the hashes of all tuples of the reference document into a set.
- `calculatePlagiarism` counts how many tuples of the checked document there are, and how many of them have their hash in that set.

The model has five modules:

- `JavaStrings` covers the Java string operations the engine relies on: `indexOf`, `split(" ")` with Java's rules (trailing empty strings dropped, `"".split(" ")` is `[""]`) and `Integer.toString`.
- `Synonyms` is the synonym table as a value. `WithLine` is one `getAllSynonyms` call and `BuildIndex` is a whole synonym file.
- `TupleStrings` defines the tuple strings as the code forms them:
  - `Slot`, `NextTuple`, `Render`, `Evict`, `Steps` and `Tuples`;
  - `Windows`, a reference definition: the stride-1 word windows;
  - `Fingerprints` (the set of tuple hashes) and `CountMatched` (the matched count).
- `DetectPlagiarism` is the imperative engine:
  - `WordIterator` is the shared `Iterator<String>`;
  - `SynonymTable` is the `Hashtable` that `getAllSynonyms` updates in place;
  - `Detector` holds the fields `tupleSize`, `synonymMappings` and `allHashedStrings`, and its methods run the source's loops. Each method is proved against the functions of `TupleStrings` and `Synonyms`.
- `Examples` proves the documented scenarios. Each holds for every hash function, except the counts that rest on hashes not colliding (`ProgramOrderHalfMatchShape`, `ProgramOrderHalfMatch`, `BracketWordBreaksContainment`, which require `NoCollisions`).

`String.hashCode` is a parameter: a `const hash: string -> Int32` of the detector and a parameter of the functions. The documented assumption that hashes never collide is the predicate `TupleStrings.NoCollisions`. It is restricted to the tuples being compared and is a precondition only of the lemmas that need it. The full-match lemmas `ContainedFullyMatch` and `ContainedWindowsFullyMatch` hold for every hash function.

The model follows the code, not its comments, in these points:

- A document with fewer words than `tupleSize` (but at least one) still yields one partial tuple of all its words (`FirstSlots`, `Windows`).
- A `tupleSize` of 0 or less behaves like a size of 1 (`NonPositiveSizeActsAsOne`).
- An empty synonym line is not skipped: it maps the empty word to the hash of the empty line (`EmptyLineAddsEmptyWord`).
- A word absent from the table whose text is the decimal of a group value gets the same slot as that group's words (`RawWordMimicsGroup`).
- Eviction depends on slot contents. A raw word containing `']'` makes the slide cut inside its own slot rather than after it (`EvictSlotIff`).
  - `TuplesAreWindows` holds under `BracketFree`, the condition that no slot content has a `']'`. The condition is sufficient, not necessary: a `']'` word that is never evicted does no harm.
  - Group values never contain a `']'` (`GroupSlotsBracketFree`).
  - Without the condition, window containment stops implying a match. With an empty table and a tuple size of 2, B = "c d" is the second window of A = "a]]b c d", yet B scores 0 of 1 when hashes do not collide (`BracketWordBreaksContainment`).
- The synonym table is updated in place. `GetAllSynonyms` returns the very table it was given.
- The class comment's 100% example (DetectPlagiarism.java:26-27) takes its file1, "go run now go jog now", as the reference and checks "go jog now" against it (`DuplicatesCountAsPlagiarism`, 1 of 1). The program wires the roles the other way round:
  - `Main` passes its first file argument as `fileToCheck` and its second as `fileWithTuples` (Main.java:9-11);
  - `plagiarismCheck` builds `allHashedStrings` from that file and scores the first (DetectPlagiarismFromFiles.java:39, 43).
  - In that order the same pair gives 2 of 4 tuples, 50% (`ProgramOrderHalfMatch`). The example's 100% holds only when file1 is the reference.

## Model

| member | source | states |
|---|---|---|
| JavaStrings.IndexOf | DetectPlagiarism.java:108 | `indexOf` returns -1 exactly when the character is absent; otherwise it returns an index holding the character, with no earlier occurrence |
| JavaStrings.Split | DetectPlagiarism.java:81 | `line.split(" ")`: `[""]` for the empty line, otherwise the one-pass `Words`; its contract is `SplitWords` with `WordsArePieces` |
| JavaStrings.SplitWords | DetectPlagiarism.java:81 | the words of `split(" ")` hold no space; a string without a space is its own one word (so `""` splits to `[""]`); otherwise the words are the space-separated pieces up to the last non-empty one, with only empty pieces dropped |
| JavaStrings.WordsArePieces | DetectPlagiarism.java:81 | the one-pass split equals cutting at every space and dropping the trailing empty pieces |
| JavaStrings.JoinPieces | DetectPlagiarism.java:81 | cutting a line at every space and joining with single spaces gives the line back |
| JavaStrings.PiecesNoSpace | DetectPlagiarism.java:81 | no piece between spaces holds a space |
| JavaStrings.DropTrailingEmptyDrops | DetectPlagiarism.java:81 | dropping trailing empty strings keeps a prefix that ends in a non-empty string and removes only empty strings |
| JavaStrings.IntToString | DetectPlagiarism.java:145-146 | the decimal text of an `Integer` value: non-empty, a `'-'` at position 0 exactly for negative values, and digits everywhere else |
| JavaStrings.IntToStringReadsBack | DetectPlagiarism.java:145-146 | the text has no leading zero except for `"0"`, and the independent reading `DecimalValue` gives the value back |
| JavaStrings.IntToStringInjective | DetectPlagiarism.java:145-146 | distinct group values have distinct decimal texts, since each text reads back as its value |
| Synonyms.WithLine | DetectPlagiarism.java:79-85 | one `getAllSynonyms` call on the table as a value: a `put` of the line's hash for each word in order; its contract is `WithLineEntries` |
| Synonyms.WithLineEntries | DetectPlagiarism.java:79-85 | after one line, the keys are the old keys plus the line's words; every word of the line maps to the line's hash; every other key keeps its value |
| Synonyms.WithLineLookup | DetectPlagiarism.java:81-82 | the same, for the lookup of one word |
| Synonyms.BuildIndex | DetectPlagiarismFromFiles.java:58-69 | the table after all synonym lines in order, starting empty; its contracts are `LastLineWins`, `IndexKeys` and `IndexSizeDisjoint` |
| Synonyms.LastLineWins | DetectPlagiarismFromFiles.java:58-69 | a word takes the hash of the last synonym line it occurs on |
| Synonyms.IndexKeys | DetectPlagiarismFromFiles.java:58-69 | a word is a key of the table built from the lines exactly when it is a word of one of them |
| Synonyms.AllWords | DetectPlagiarismFromFiles.java:58-69 | the concatenated words of the lines contain exactly the words that occur on some line |
| Synonyms.IndexSizeDisjoint | DetectPlagiarism.java:20 | when no word occurs twice in the synonym lines, the table has exactly one entry per word |
| Synonyms.EmptyLineAddsEmptyWord | DetectPlagiarism.java:81-82 | an empty synonym line adds the empty word, mapped to the hash of the empty line |
| TupleStrings.NextTuple | DetectPlagiarism.java:144-147 | `getNextTuple(cur, w)`; its contract is `NextTupleAddsOneSlot` |
| TupleStrings.NextTupleAddsOneSlot | DetectPlagiarism.java:144-147 | `getNextTuple(cur, w)` keeps `cur` as its prefix and appends exactly `'['`, the group value's decimal text if `w` is a key and `w` otherwise, then `"] "` |
| TupleStrings.SlotsEqualIff | DetectPlagiarism.java:144-147 | two keys give equal slots exactly when their group values are equal; two non-keys, exactly when the words are equal |
| TupleStrings.SynonymsShareSlot | DetectPlagiarism.java:144-147 | words that are equal or share a group value give the same slot |
| TupleStrings.RawWordMimicsGroup | DetectPlagiarism.java:145-146 | for every table, a non-key word spelled as a key's group value in decimal gets that key's slot |
| TupleStrings.MixedSlotsIff | DetectPlagiarism.java:145-146 | a key and a non-key give equal slots exactly when the non-key word is the decimal text of the key's group value |
| TupleStrings.GroupSlotsBracketFree | DetectPlagiarism.java:145-146 | the content of a group value's slot holds no `']'` |
| TupleStrings.RenderCloses | DetectPlagiarism.java:129 | a tuple of at least one word ends with `"] "` |
| TupleStrings.ClosedIsEvictable | DetectPlagiarism.java:108 | on a tuple ending with `"] "`, `substring(indexOf("]") + 2)` stays in range |
| TupleStrings.Evict | DetectPlagiarism.java:108 | `curr.substring(curr.indexOf("]") + 2)`, with the range condition Java's `substring` needs; its contracts are `ClosedIsEvictable`, `EvictSlotIff` and `EvictRender` |
| TupleStrings.EvictSlotIff | DetectPlagiarism.java:108 | the slide's cut removes exactly the first slot if and only if that slot's content holds no `']'`; when it holds one, the cut leaves more than the rest |
| TupleStrings.EvictRender | DetectPlagiarism.java:175 | on a rendered tuple whose first content is bracket-free, the cut leaves the rendering of the remaining words |
| TupleStrings.Steps | DetectPlagiarism.java:101-110 | the slides produce one tuple per remaining word |
| TupleStrings.Width | DetectPlagiarism.java:127 | the window width is at least 1 and equals `tupleSize` when that is positive |
| TupleStrings.FirstSlots | DetectPlagiarism.java:124-133 | the first tuple has `max(1, min(tupleSize, 1 + remaining))` slots |
| TupleStrings.Tuples | DetectPlagiarism.java:94-113 | a document of n words gives no tuple for n = 0, one for 1 <= n < width, and n - width + 1 otherwise |
| TupleStrings.Windows | DetectPlagiarism.java:94-113 | reference definition: the windows are the consecutive runs of `width` words (or the whole short document), as many as `Tuples`; `RenderAll` renders each in turn for `TuplesAreWindows` |
| TupleStrings.WindowsCover | DetectPlagiarism.java:94-113 | every word of a document lies in one of its windows |
| TupleStrings.StepsSlide | DetectPlagiarism.java:101-110 | starting from the first window, each slide yields the rendering of the next window, when no slot content holds `']'` |
| TupleStrings.TuplesAreWindows | DetectPlagiarism.java:94-113 | the tuple strings formed are exactly the renderings of the stride-1 word windows, in order, when no slot content holds `']'` |
| TupleStrings.NonPositiveSizeActsAsOne | DetectPlagiarism.java:124-133 | a `tupleSize` of 0 or less gives the same tuples as 1 |
| TupleStrings.RenderSameSlots | DetectPlagiarism.java:144-147 | word sequences agreeing slot by slot render to the same string |
| TupleStrings.SynonymTuplesEqual | DetectPlagiarism.java:26-27 | documents that differ only by words sharing slots (synonyms of one line) give equal tuple strings |
| TupleStrings.Fingerprints | DetectPlagiarism.java:96-109 | the `allTuples` set of tuple hashes; its contracts are `FingerprintsHas` and `FingerprintsAppend` |
| TupleStrings.FingerprintsHas | DetectPlagiarism.java:94-113 | a hash is in the collected set exactly when some tuple has it |
| TupleStrings.FingerprintsAppend | DetectPlagiarism.java:105 | adding a tuple adds its hash to the set |
| TupleStrings.CountMatched | DetectPlagiarism.java:166-179 | the matched count never exceeds the number of tuples |
| TupleStrings.CountMatchedSnoc | DetectPlagiarism.java:171-178 | one more tuple adds one to the count exactly when its hash is in the set |
| TupleStrings.CountMatchedAppend | DetectPlagiarism.java:26-28 | counting is per occurrence: the count over two runs of tuples is the sum of their counts |
| TupleStrings.CountOccurring | DetectPlagiarism.java:21-25 | reference definition of a match, by string membership: at most one per tuple |
| TupleStrings.MatchesAreOccurrences | DetectPlagiarism.java:21-25 | without collisions, the hash count equals the number of tuples whose string occurs in the reference |
| TupleStrings.ContainedFullyMatch | DetectPlagiarism.java:10-14 | if every tuple of B occurs among A's tuples, all of B's tuples are counted, for any hash |
| TupleStrings.FullMatchOnlyIfContained | DetectPlagiarism.java:21 | without collisions, a full match means every tuple of B occurs among A's tuples |
| TupleStrings.OccurringAll | DetectPlagiarism.java:21 | if the occurrence count is full, every tuple occurs in the reference |
| TupleStrings.SelfMatchIsFull | DetectPlagiarism.java:10-14 | a document checked against its own reference set is fully matched |
| TupleStrings.ContainedBracketFree | DetectPlagiarism.java:10-14 | when every window of B is a window of A and no slot content of A holds `']'`, none of B's does either |
| TupleStrings.ContainedWindowsFullyMatch | DetectPlagiarism.java:10-14 | if every word window of B is a window of A and no slot content of A holds `']'`, B is fully matched against A's set, for any hash |
| DetectPlagiarism.WordIterator.HasNext | DetectPlagiarism.java:101 | `hasNext()`: words remain; `Next` requires it |
| DetectPlagiarism.WordIterator.Next | DetectPlagiarism.java:102 | `next()` returns the word at the position and advances by one |
| DetectPlagiarism.SynonymTable.Put | DetectPlagiarism.java:82 | `put` sets the one key and leaves the rest of the table as it was |
| DetectPlagiarism.Detector.constructor | DetectPlagiarism.java:51-55 | stores the tuple size and starts with an empty table and an empty set |
| DetectPlagiarism.Detector.GetAllSynonyms | DetectPlagiarism.java:79-85 | updates the given table in place to `WithLine` of its old contents and returns that same table |
| DetectPlagiarism.Detector.GetFirstTuple | DetectPlagiarism.java:124-133 | advances the iterator by `FirstSlots - 1` words and returns the rendering of the word and those words |
| DetectPlagiarism.Detector.GetAllTuples | DetectPlagiarism.java:94-113 | exhausts the iterator and returns the hashes of exactly `Tuples` of the remaining words |
| DetectPlagiarism.Detector.CalculatePlagiarism | DetectPlagiarism.java:158-181 | exhausts the iterator; the tuple count is the number of `Tuples`; the plagiarized count is `CountMatched` against `allHashedStrings` and at most the tuple count; `allHashedStrings` is unchanged |
| DetectPlagiarism.Detector.LoadSynonyms | DetectPlagiarismFromFiles.java:58-69 | installs a fresh table equal to `BuildIndex` of the synonym lines, one `GetAllSynonyms` per line, leaving the other fields alone |
| DetectPlagiarism.Detector.LoadReference | DetectPlagiarismFromFiles.java:78-87 | sets `allHashedStrings` to the hashes of the reference document's tuples |
| DetectPlagiarism.FirstTupleStarts | DetectPlagiarism.java:103-106 | the first branch of the loops produces the first tuple of the specification |
| DetectPlagiarism.SlideStep | DetectPlagiarism.java:108 | the slide branch of the loops produces the next tuple of the specification |
| DetectPlagiarism.ExhaustedTuples | DetectPlagiarism.java:101-110 | when the words run out, the tuples produced are all the tuples |
| DetectPlagiarism.CheckDocuments | DetectPlagiarismFromFiles.java:37-43 | build the table, collect the reference set, score the checked document: the counts are the window count and `CountMatched`, and documents agreeing slot by slot score a full match |
| Examples.SplitSynonymLine | DetectPlagiarism.java:26 | `"run jog sprint"` splits into its three words |
| Examples.SplitDoubledSpace | DetectPlagiarism.java:81 | `"a  b "` splits to `["a", "", "b"]` |
| Examples.SplitEmptyAndSpace | DetectPlagiarism.java:81 | `""` splits to `[""]` and `" "` splits to nothing |
| Examples.OneWindowMatches | DetectPlagiarism.java:26-27 | a one-window document agreeing slot by slot with A's first window forms one tuple, and it is matched |
| Examples.OneLineGroup | DetectPlagiarism.java:79-85 | a table built from one line maps each of its words to the line's hash |
| Examples.DuplicatesCountAsPlagiarism | DetectPlagiarism.java:26-27 | with the line "run jog sprint" and size 3, "go jog now" checked against the set of "go run now go jog now" gives 1 of 1 tuples matched (100%), and "go run now go jog now" has 4 tuples |
| Examples.ProgramOrderHalfMatchShape | DetectPlagiarismFromFiles.java:39-43 | for any document "p r q p j q" checked against the set of "p j q", with `r`, `j` in one group, and `p`, `q` raw words without `']'` that differ in their first letter, where `p`'s first letter is neither `'-'` nor a digit (so `p`'s slot cannot agree with a group's decimal text at position 1), no collisions give 2 of 4 tuples matched |
| Examples.ProgramOrderHalfMatch | DetectPlagiarismFromFiles.java:39-43 | in the program's order, "go run now go jog now" checked against the set of "go jog now" gives 2 of 4 tuples matched (50%) without collisions |
| Examples.BracketWordShape | DetectPlagiarism.java:108 | when the first word's slot content holds `']'`, B = "y z" is a window of A = "x y z" but its tuple is none of A's (if `x`, `z` differ in length) |
| Examples.BracketWordBreaksContainment | DetectPlagiarism.java:10-14 | "c d" is a window of "a]]b c d", yet without collisions "c d" scores 0 of 1 against it, for a size of 2 |

## Left out

- The float division `plagiarizedCount / tupleCount` (DetectPlagiarism.java:180) is left out, including NaN for an empty document and the loss of exactness of `float` counters beyond 2^24. `CalculatePlagiarism` returns the two counts as natural numbers.
- The 32-bit arithmetic of `String.hashCode` is left out. The hash is an arbitrary function parameter, and the no-collision assumption is the predicate `NoCollisions`.
- The sole-occurrence assumption on synonym words (DetectPlagiarism.java:20) is not enforced, because the code does not enforce it. `LastLineWins` gives the behaviour when it fails, and `IndexSizeDisjoint` gives the behaviour when it holds.
- The abstract `plagiarismCheck` has no body in the core. `CheckDocuments` stands in for the comparison steps of its one implementation.
- All file handling in `DetectPlagiarismFromFiles.java` is I/O and is left out:
  - the file-length checks and the "100%"/"0%" prints (lines 29-36 and 40-42);
  - the `printf` of the percentage (line 43);
  - `Scanner` reading of lines and words;
  - the `FileNotFoundException` branches.
- Documents are given as their sequence of words, so `Scanner` tokenisation into words is not modelled.
- `Main.java` is left out: argument parsing and the default tuple size are I/O.
- The database/LinkedHashMap spill strategy in the class comment (DetectPlagiarism.java:29-39) is not implemented in the code and is not modelled.
- `Hashtable.get(w) != null` is modelled as `w in m`, because the table never holds `null` values.
