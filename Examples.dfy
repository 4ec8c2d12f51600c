/** Concrete scenarios from the detector's documentation, and the cases that
    show where its claims depend on the order of the documents or on the
    words themselves. Each is proved for every hash function, except the
    counts that rest on hashes not colliding (`ProgramOrderHalfMatchShape`,
    `ProgramOrderHalfMatch`, `BracketWordBreaksContainment`). */
module Examples {
  import opened JavaStrings
  import opened Synonyms
  import opened TupleStrings

  /** Three words without spaces, joined by single spaces, split back. */
  lemma SplitThree(x: string, y: string, z: string)
    requires x != "" && y != "" && z != "" && ' ' !in x && ' ' !in y && ' ' !in z
    ensures Split(x + " " + y + " " + z) == [x, y, z]
  {
    WordsOfWord(z);
    WordsAfterWord(y, z);
    assert x + " " + y + " " + z == x + " " + (y + " " + z);
    WordsAfterWord(x, y + " " + z);
  }

  /** `split(" ")` on a synonym line. */
  lemma SplitSynonymLine()
    ensures Split("run jog sprint") == ["run", "jog", "sprint"]
  {
    SplitThree("run", "jog", "sprint");
    assert "run" + " " + "jog" + " " + "sprint" == "run jog sprint";
  }

  /** `split(" ")` keeps the empty string between two spaces and drops the one
      after a trailing space. */
  lemma SplitDoubledSpace()
    ensures Split("a  b ") == ["a", "", "b"]
  {
    assert Words("") == [];
    assert "b " == "b" + " " + "";
    WordsAfterWord("b", "");
    assert Words(" b ") == [""] + Words("b ");
    assert "a  b " == "a" + " " + " b ";
    WordsAfterWord("a", " b ");
  }

  /** The empty line is one empty word; a lone space gives no word at all. */
  lemma SplitEmptyAndSpace()
    ensures Split("") == [""] && Split(" ") == []
  {
    assert Words(" ") == [];
  }

  /** A document of exactly one window that agrees slot by slot with the first
      window of A forms one tuple, and that tuple is matched. */
  lemma OneWindowMatches(hash: string -> Int32, m: SynonymMap, k: int, a: seq<string>, b: seq<string>)
    requires 1 <= |b| == Width(k) <= |a| && SameSlots(m, a[..|b|], b)
    ensures |Tuples(m, k, b)| == 1
    ensures CountMatched(hash, Tuples(m, k, b), Fingerprints(hash, Tuples(m, k, a))) == 1
  {
    var c := |b|;
    var tsA, tsB := Tuples(m, k, a), Tuples(m, k, b);
    assert FirstSlots(k, |a| - 1) == c && FirstSlots(k, c - 1) == c;
    assert tsA[0] == Render(m, a[..c]);
    assert b[..c] == b;
    assert tsB[0] == Render(m, b);
    RenderSameSlots(m, a[..c], b);
    assert tsB[0] in tsA;
    ContainedFullyMatch(hash, tsA, tsB);
  }

  /** A table built from one line maps each of its words to that line's hash. */
  lemma OneLineGroup(hash: string -> Int32, line: string, w: string)
    requires w in Split(line)
    ensures w in BuildIndex(hash, [line]) && BuildIndex(hash, [line])[w] == hash(line)
  {
    LastLineWins(hash, [line], 0, w);
  }

  /** With a synonym line whose words are "run jog sprint" (as
      `SplitSynonymLine` shows the line "run jog sprint" is) and a tuple size
      of 3, checking "go jog now" against the reference set of "go run now go
      jog now" forms one tuple, and that tuple is matched: the 100% of the
      class comment, which takes its file1 as the reference. The program
      passes the files the other way round (`ProgramOrderHalfMatch`). */
  lemma DuplicatesCountAsPlagiarism(hash: string -> Int32, line: string)
    requires Split(line) == ["run", "jog", "sprint"]
    ensures var m := BuildIndex(hash, [line]);
      var tsA := Tuples(m, 3, ["go", "run", "now", "go", "jog", "now"]);
      var tsB := Tuples(m, 3, ["go", "jog", "now"]);
      |tsA| == 4 && |tsB| == 1 && CountMatched(hash, tsB, Fingerprints(hash, tsA)) == 1
  {
    var m := BuildIndex(hash, [line]);
    var a, b := ["go", "run", "now", "go", "jog", "now"], ["go", "jog", "now"];
    OneLineGroup(hash, line, "run");
    OneLineGroup(hash, line, "jog");
    assert Canon(m, "run") == Canon(m, "jog");
    assert a[..3] == ["go", "run", "now"];
    assert SameSlots(m, a[..3], b);
    OneWindowMatches(hash, m, 3, a, b);
  }

  /** The occurrence count over the first `n` tuples, one tuple at a time. */
  lemma CountOccurringPrefix(ts: seq<string>, ref: seq<string>, n: nat)
    requires 0 < n <= |ts|
    ensures CountOccurring(ts[..n], ref) == CountOccurring(ts[..n - 1], ref) + (if ts[n - 1] in ref then 1 else 0)
  {
    assert ts[..n][..n - 1] == ts[..n - 1];
  }

  lemma RenderSnoc(m: SynonymMap, ws: seq<string>, w: string)
    ensures Render(m, ws + [w]) == Render(m, ws) + Slot(m, w)
  {
    assert (ws + [w])[..|ws|] == ws;
  }

  lemma RenderTwo(m: SynonymMap, x: string, y: string)
    ensures Render(m, [x, y]) == Slot(m, x) + Slot(m, y)
  {
    var none: seq<string> := [];
    RenderSnoc(m, none, x);
    RenderSnoc(m, [x], y);
    assert none + [x] == [x] && [x] + [y] == [x, y];
  }

  lemma RenderThree(m: SynonymMap, x: string, y: string, z: string)
    ensures Render(m, [x, y, z]) == Slot(m, x) + Slot(m, y) + Slot(m, z)
  {
    RenderTwo(m, x, y);
    RenderSnoc(m, [x, y], z);
    assert [x, y] + [z] == [x, y, z];
  }

  /** Tuple `i` of a bracket-free document, for a tuple size of 3, is the
      rendering of words `i` to `i + 2`. */
  lemma TupleOfWindow(m: SynonymMap, ws: seq<string>, i: nat, x: string, y: string, z: string)
    requires BracketFree(m, ws) && i + 3 <= |ws| && ws[i] == x && ws[i + 1] == y && ws[i + 2] == z
    ensures i < |Tuples(m, 3, ws)| && Tuples(m, 3, ws)[i] == Slot(m, x) + Slot(m, y) + Slot(m, z)
  {
    TuplesAreWindows(m, 3, ws);
    SliceThree(ws, i);
    RenderThree(m, x, y, z);
  }

  /** Three consecutive words of a document. */
  lemma SliceThree(ws: seq<string>, i: nat)
    requires i + 3 <= |ws|
    ensures ws[i..i + 3] == [ws[i], ws[i + 1], ws[i + 2]]
  {
  }

  /** The second character of a three-slot tuple is the first character of
      its first slot's content. */
  lemma LeadChar(m: SynonymMap, x: string, y: string, z: string)
    requires Canon(m, x) != ""
    ensures (Slot(m, x) + Slot(m, y) + Slot(m, z))[1] == Canon(m, x)[0]
  {
    var sx := Slot(m, x);
    assert sx[1] == Canon(m, x)[0];
    assert (sx + Slot(m, y) + Slot(m, z))[1] == sx[1];
  }

  lemma DifferAt(s: string, t: string, i: nat)
    requires i < |s| && i < |t| && s[i] != t[i]
    ensures s != t
  {
  }

  /** Four tuples checked against a single reference tuple that equals the
      first and the last but neither of the middle two count two matches. */
  lemma FirstAndLastMatch(hash: string -> Int32, ts: seq<string>, ref: seq<string>)
    requires |ts| == 4 && |ref| == 1 && NoCollisions(hash, ref, ts)
    requires ts[0] == ref[0] && ts[1] != ref[0] && ts[2] != ref[0] && ts[3] == ref[0]
    ensures CountMatched(hash, ts, Fingerprints(hash, ref)) == 2
  {
    assert ref == [ref[0]];
    MatchesAreOccurrences(hash, ref, ts);
    CountOccurringPrefix(ts, ref, 4);
    CountOccurringPrefix(ts, ref, 3);
    CountOccurringPrefix(ts, ref, 2);
    CountOccurringPrefix(ts, ref, 1);
    assert ts[..4] == ts && ts[..0] == [];
  }

  /** The four tuples of "p r q p j q" for a tuple size of 3, when no slot
      content holds a `']'`. */
  lemma SixWordTuples(m: SynonymMap, p: string, r: string, q: string, j: string)
    requires ']' !in Canon(m, p) && ']' !in Canon(m, r) && ']' !in Canon(m, q) && ']' !in Canon(m, j)
    ensures var ts := Tuples(m, 3, [p, r, q, p, j, q]);
      && |ts| == 4
      && ts[0] == Slot(m, p) + Slot(m, r) + Slot(m, q)
      && ts[1] == Slot(m, r) + Slot(m, q) + Slot(m, p)
      && ts[2] == Slot(m, q) + Slot(m, p) + Slot(m, j)
      && ts[3] == Slot(m, p) + Slot(m, j) + Slot(m, q)
  {
    var a := [p, r, q, p, j, q];
    assert BracketFree(m, a);
    TupleOfWindow(m, a, 0, p, r, q);
    TupleOfWindow(m, a, 1, r, q, p);
    TupleOfWindow(m, a, 2, q, p, j);
    TupleOfWindow(m, a, 3, p, j, q);
  }

  /** The one tuple of "p j q" for a tuple size of 3. */
  lemma ThreeWordTuples(m: SynonymMap, p: string, j: string, q: string)
    requires ']' !in Canon(m, p) && ']' !in Canon(m, j) && ']' !in Canon(m, q)
    ensures Tuples(m, 3, [p, j, q]) == [Slot(m, p) + Slot(m, j) + Slot(m, q)]
  {
    var b := [p, j, q];
    assert BracketFree(m, b);
    TupleOfWindow(m, b, 0, p, j, q);
  }

  /** The program's order on any document of the shape "p r q p j q" checked
      against the tuples of "p j q", where `r` and `j` share a group and `p`,
      `q` are raw words told apart by their first letter: only the first and
      the last of the four tuples are found. */
  lemma ProgramOrderHalfMatchShape(hash: string -> Int32, m: SynonymMap, p: string, r: string, q: string, j: string)
    requires r in m && j in m && m[r] == m[j] && p !in m && q !in m
    requires p != "" && q != "" && p[0] != q[0] && p[0] != '-' && !('0' <= p[0] <= '9')
    requires ']' !in p && ']' !in q
    requires NoCollisions(hash, Tuples(m, 3, [p, j, q]), Tuples(m, 3, [p, r, q, p, j, q]))
    ensures |Tuples(m, 3, [p, r, q, p, j, q])| == 4
    ensures CountMatched(hash, Tuples(m, 3, [p, r, q, p, j, q]), Fingerprints(hash, Tuples(m, 3, [p, j, q]))) == 2
  {
    var tsA, tsB := Tuples(m, 3, [p, r, q, p, j, q]), Tuples(m, 3, [p, j, q]);
    var g := IntToString(m[r]);
    assert Canon(m, r) == g == Canon(m, j) && Canon(m, p) == p && Canon(m, q) == q;
    GroupSlotsBracketFree(m, r);
    SixWordTuples(m, p, r, q, j);
    ThreeWordTuples(m, p, j, q);
    assert Slot(m, j) == Slot(m, r);
    var target := Slot(m, p) + Slot(m, r) + Slot(m, q);
    assert tsB[0] == target && tsA[0] == target && tsA[3] == target;
    LeadChar(m, p, r, q);
    LeadChar(m, r, q, p);
    LeadChar(m, q, p, j);
    assert g[0] == '-' || '0' <= g[0] <= '9';
    DifferAt(tsA[1], target, 1);
    DifferAt(tsA[2], target, 1);
    FirstAndLastMatch(hash, tsA, tsB);
  }

  /** In the order the program passes the documents (the first file is the one
      checked, the second gives the reference set), "go run now go jog now"
      checked against the tuples of "go jog now" finds only the first and the
      last of its four tuples: 50%, not the 100% of the reverse order. */
  lemma ProgramOrderHalfMatch(hash: string -> Int32, line: string)
    requires Split(line) == ["run", "jog", "sprint"]
    requires var m := BuildIndex(hash, [line]);
      NoCollisions(hash, Tuples(m, 3, ["go", "jog", "now"]), Tuples(m, 3, ["go", "run", "now", "go", "jog", "now"]))
    ensures var m := BuildIndex(hash, [line]);
      var tsChecked := Tuples(m, 3, ["go", "run", "now", "go", "jog", "now"]);
      var tsRef := Tuples(m, 3, ["go", "jog", "now"]);
      |tsChecked| == 4 && CountMatched(hash, tsChecked, Fingerprints(hash, tsRef)) == 2
  {
    var m := BuildIndex(hash, [line]);
    RunJogTable(hash, line);
    ProgramOrderHalfMatchShape(hash, m, "go", "run", "now", "jog");
  }

  /** The table of the one line "run jog sprint": "run" and "jog" share a
      group, and "go" and "now" are raw words. */
  lemma RunJogTable(hash: string -> Int32, line: string)
    requires Split(line) == ["run", "jog", "sprint"]
    ensures var m := BuildIndex(hash, [line]);
      "run" in m && "jog" in m && m["run"] == m["jog"] && "go" !in m && "now" !in m
  {
    OneLineGroup(hash, line, "run");
    OneLineGroup(hash, line, "jog");
    IndexKeys(hash, [line], "go");
    IndexKeys(hash, [line], "now");
    assert [line][0] == line;
  }

  /** The windows of "y z" and of "x y z" for a tuple size of 2. */
  lemma PairWindows(x: string, y: string, z: string)
    ensures Windows(2, [y, z]) == [[y, z]] && Windows(2, [x, y, z]) == [[x, y], [y, z]]
  {
    assert [y, z][0..2] == [y, z];
    assert [x, y, z][0..2] == [x, y] && [x, y, z][1..3] == [y, z];
  }

  /** The two tuples of "x y z" for a tuple size of 2: the first two slots,
      then the text the slide leaves of them followed by `z`'s slot. */
  lemma PairTuples(m: SynonymMap, x: string, y: string, z: string)
    ensures IndexOf(Slot(m, x) + Slot(m, y), ']') + 2 <= |Slot(m, x) + Slot(m, y)|
    ensures Tuples(m, 2, [x, y, z]) == [Slot(m, x) + Slot(m, y), Evict(Slot(m, x) + Slot(m, y)) + Slot(m, z)]
  {
    var a := [x, y, z];
    EvictSlotIff(m, x, Slot(m, y));
    assert a[..2] == [x, y] && a[2..] == [z] && [z][1..] == [];
    RenderTwo(m, x, y);
  }

  /** The one tuple of "y z" for a tuple size of 2. */
  lemma PairTuple(m: SynonymMap, y: string, z: string)
    ensures Tuples(m, 2, [y, z]) == [Slot(m, y) + Slot(m, z)]
  {
    var b := [y, z];
    assert b[..2] == b && b[2..] == [];
    RenderTwo(m, y, z);
  }

  /** Window containment without the bracket condition, for a first word
      whose slot content holds a `']'`: B = "y z" is the second window of
      A = "x y z" with a tuple size of 2, but the slide cuts inside A's first
      slot, so A's second tuple is longer than B's tuple; when `x` and `z`
      also differ in length, B's tuple is none of A's. */
  lemma BracketWordShape(m: SynonymMap, x: string, y: string, z: string)
    requires ']' in Canon(m, x) && |Canon(m, x)| != |Canon(m, z)|
    ensures forall i :: 0 <= i < |Windows(2, [y, z])| ==> Windows(2, [y, z])[i] in Windows(2, [x, y, z])
    ensures Tuples(m, 2, [y, z]) == [Slot(m, y) + Slot(m, z)]
    ensures |Tuples(m, 2, [x, y, z])| == 2 && Tuples(m, 2, [y, z])[0] !in Tuples(m, 2, [x, y, z])
  {
    PairWindows(x, y, z);
    PairTuples(m, x, y, z);
    PairTuple(m, y, z);
    var sy, sz := Slot(m, y), Slot(m, z);
    EvictSlotIff(m, x, sy);
    var tsA := Tuples(m, 2, [x, y, z]);
    assert |tsA[1]| > |sy + sz| && |tsA[0]| != |sy + sz|;
  }

  /** The concrete case: with an empty table, B = "c d" is the second window
      of A = "a]]b c d", yet without hash collisions B scores 0 of 1. */
  lemma BracketWordBreaksContainment(hash: string -> Int32)
    requires NoCollisions(hash, Tuples(map[], 2, ["a]]b", "c", "d"]), Tuples(map[], 2, ["c", "d"]))
    ensures forall i :: 0 <= i < |Windows(2, ["c", "d"])| ==> Windows(2, ["c", "d"])[i] in Windows(2, ["a]]b", "c", "d"])
    ensures CountMatched(hash, Tuples(map[], 2, ["c", "d"]), Fingerprints(hash, Tuples(map[], 2, ["a]]b", "c", "d"]))) == 0
  {
    var m: SynonymMap := map[];
    assert "a]]b"[1] == ']';
    BracketWordShape(m, "a]]b", "c", "d");
    var tsA, tsB := Tuples(m, 2, ["a]]b", "c", "d"]), Tuples(m, 2, ["c", "d"]);
    MatchesAreOccurrences(hash, tsA, tsB);
    assert tsB[..0] == [];
  }
}
