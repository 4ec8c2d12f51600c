/** The synonym table as a value: every word of a synonym line is mapped to the
    hash of that whole line, the line's group value. */
module Synonyms {
  import opened JavaStrings

  type SynonymMap = map<string, Int32>

  /** `m` after `put(w, h)` for each word `w` of `ws`, in order. */
  function AddWords(m: SynonymMap, ws: seq<string>, h: Int32): SynonymMap {
    if ws == [] then m else AddWords(m, ws[..|ws| - 1], h)[ws[|ws| - 1] := h]
  }

  lemma {:induction false} AddWordsEntries(m: SynonymMap, ws: seq<string>, h: Int32)
    ensures AddWords(m, ws, h).Keys == m.Keys + set w | w in ws
    ensures forall w :: w in ws ==> AddWords(m, ws, h)[w] == h
    ensures forall w :: w in m && w !in ws ==> AddWords(m, ws, h)[w] == m[w]
  {
    if ws != [] {
      var front := ws[..|ws| - 1];
      AddWordsEntries(m, front, h);
      assert ws == front + [ws[|ws| - 1]];
    }
  }

  /** The table after one synonym line, `getAllSynonyms(line, m)`. */
  function WithLine(hash: string -> Int32, m: SynonymMap, line: string): SynonymMap {
    AddWords(m, Split(line), hash(line))
  }

  /** After a line, every word of `line.split(" ")` maps to `hash(line)`, every
      other key keeps its value, and no other key appears. */
  lemma WithLineEntries(hash: string -> Int32, m: SynonymMap, line: string)
    ensures WithLine(hash, m, line).Keys == m.Keys + set w | w in Split(line)
    ensures forall w :: w in Split(line) ==> WithLine(hash, m, line)[w] == hash(line)
    ensures forall w :: w in m && w !in Split(line) ==> WithLine(hash, m, line)[w] == m[w]
  {
    AddWordsEntries(m, Split(line), hash(line));
  }

  /** `WithLineEntries` for one word. */
  lemma WithLineLookup(hash: string -> Int32, m: SynonymMap, line: string, w: string)
    ensures w in Split(line) ==> w in WithLine(hash, m, line) && WithLine(hash, m, line)[w] == hash(line)
    ensures w !in Split(line) ==> (w in WithLine(hash, m, line) <==> w in m)
    ensures w !in Split(line) && w in m ==> WithLine(hash, m, line)[w] == m[w]
  {
    WithLineEntries(hash, m, line);
  }

  /** The table built from the synonym lines in order, starting empty. */
  function BuildIndex(hash: string -> Int32, lines: seq<string>): SynonymMap {
    if lines == [] then map[] else WithLine(hash, BuildIndex(hash, lines[..|lines| - 1]), lines[|lines| - 1])
  }

  /** The table after the first `n` lines is the table after `n - 1` lines
      with line `n - 1` added. */
  lemma BuildIndexSnoc(hash: string -> Int32, lines: seq<string>, n: nat)
    requires 0 < n <= |lines|
    ensures BuildIndex(hash, lines[..n]) == WithLine(hash, BuildIndex(hash, lines[..n - 1]), lines[n - 1])
  {
    assert lines[..n][..n - 1] == lines[..n - 1];
  }

  /** A word takes the group value of the last line it appears on. */
  lemma LastLineWins(hash: string -> Int32, lines: seq<string>, j: nat, w: string)
    requires j < |lines| && w in Split(lines[j])
    requires forall i :: j < i < |lines| ==> w !in Split(lines[i])
    ensures w in BuildIndex(hash, lines) && BuildIndex(hash, lines)[w] == hash(lines[j])
  {
    LastLineWinsUpTo(hash, lines, j, |lines|, w);
    assert lines[..|lines|] == lines;
  }

  /** `LastLineWins` for the first `n` lines. */
  lemma {:induction false} LastLineWinsUpTo(hash: string -> Int32, lines: seq<string>, j: nat, n: nat, w: string)
    requires j < n <= |lines| && w in Split(lines[j])
    requires forall i :: j < i < n ==> w !in Split(lines[i])
    ensures w in BuildIndex(hash, lines[..n]) && BuildIndex(hash, lines[..n])[w] == hash(lines[j])
  {
    BuildIndexSnoc(hash, lines, n);
    if j < n - 1 {
      LastLineWinsUpTo(hash, lines, j, n - 1, w);
      assert w !in Split(lines[n - 1]);
    }
    LookupStep(hash, BuildIndex(hash, lines[..n - 1]), lines[n - 1], w, hash(lines[j]));
  }

  /** The value of `w` after one more line: the line's hash if the line has
      `w`, its old value otherwise. */
  lemma LookupStep(hash: string -> Int32, prev: SynonymMap, line: string, w: string, v: Int32)
    requires (w in Split(line) && v == hash(line)) || (w !in Split(line) && w in prev && prev[w] == v)
    ensures w in WithLine(hash, prev, line) && WithLine(hash, prev, line)[w] == v
  {
    WithLineLookup(hash, prev, line, w);
  }

  /** `w` is a word of one of the lines. */
  predicate OnSomeLine(lines: seq<string>, w: string) {
    exists j :: 0 <= j < |lines| && w in Split(lines[j])
  }

  lemma OnSomeLineSnoc(lines: seq<string>, w: string)
    requires lines != []
    ensures OnSomeLine(lines, w) <==> OnSomeLine(lines[..|lines| - 1], w) || w in Split(lines[|lines| - 1])
  {
    var front := lines[..|lines| - 1];
    if OnSomeLine(lines, w) && w !in Split(lines[|lines| - 1]) {
      var j :| 0 <= j < |lines| && w in Split(lines[j]);
      assert front[j] == lines[j];
    }
    if OnSomeLine(front, w) {
      var j :| 0 <= j < |front| && w in Split(front[j]);
      assert front[j] == lines[j];
    }
  }

  /** The table's keys are exactly the words of the lines. */
  lemma {:induction false} IndexKeys(hash: string -> Int32, lines: seq<string>, w: string)
    ensures w in BuildIndex(hash, lines) <==> OnSomeLine(lines, w)
  {
    if lines != [] {
      var front := lines[..|lines| - 1];
      IndexKeys(hash, front, w);
      WithLineLookup(hash, BuildIndex(hash, front), lines[|lines| - 1], w);
      OnSomeLineSnoc(lines, w);
    }
  }

  /** An empty synonym line is not skipped: `"".split(" ")` is `[""]`,
      so it maps the empty word to the hash of the empty line. */
  lemma EmptyLineAddsEmptyWord(hash: string -> Int32, m: SynonymMap)
    ensures WithLine(hash, m, "") == m["" := hash("")]
  {
    assert Split("") == [""];
    assert [""][..0] == [];
    assert AddWords(m, [""], hash("")) == AddWords(m, [], hash(""))["" := hash("")];
  }

  /** All words of the lines, line after line. */
  function AllWords(lines: seq<string>): (ws: seq<string>)
    ensures forall w :: w in ws <==> OnSomeLine(lines, w)
  {
    if lines == [] then []
    else
      var front := lines[..|lines| - 1];
      var ws := AllWords(front) + Split(lines[|lines| - 1]);
      assert forall j :: 0 <= j < |front| ==> front[j] == lines[j];
      ws
  }

  predicate Distinct(ws: seq<string>) {
    forall i, j :: 0 <= i < j < |ws| ==> ws[i] != ws[j]
  }

  lemma {:induction false} DistinctSetSize(ws: seq<string>)
    requires Distinct(ws)
    ensures |set w | w in ws| == |ws|
  {
    if ws != [] {
      var front := ws[..|ws| - 1];
      var last := ws[|ws| - 1];
      DistinctSetSize(front);
      assert (set w | w in ws) == (set w | w in front) + {last} by {
        assert ws == front + [last];
      }
      assert last !in front;
    }
  }

  /** When no word appears twice in the synonym lines, the table has exactly
      one entry per word. */
  lemma IndexSizeDisjoint(hash: string -> Int32, lines: seq<string>)
    requires Distinct(AllWords(lines))
    ensures |BuildIndex(hash, lines)| == |AllWords(lines)|
  {
    var idx := BuildIndex(hash, lines);
    forall w ensures w in idx.Keys <==> w in (set v | v in AllWords(lines)) {
      IndexKeys(hash, lines, w);
    }
    assert idx.Keys == set v | v in AllWords(lines);
    DistinctSetSize(AllWords(lines));
  }
}
