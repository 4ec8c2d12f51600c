/** The tuple strings of the engine, as the source builds them: a tuple is the
    concatenation of one bracketed slot per word, `"[" + content + "] "`, where
    the content is the word's group value in decimal when the synonym table has
    the word, and the word itself otherwise. The window slides by cutting the
    text up to the first `']'` and the space after it, then appending a slot.

    `Windows` is the reference definition: the stride-1 word windows of a
    document. `TuplesAreWindows` proves that the string manipulation yields the
    rendering of exactly those windows whenever no slot content holds a `']'`. */
module TupleStrings {
  import opened JavaStrings
  import opened Synonyms

  /** What a word contributes between the brackets of its slot: the decimal
      text of its group value, or the word itself. */
  function Canon(m: SynonymMap, w: string): string {
    if w in m then IntToString(m[w]) else w
  }

  function Slot(m: SynonymMap, w: string): string {
    "[" + Canon(m, w) + "] "
  }

  /** `getNextTuple(cur, w)`: `cur` followed by exactly one slot for `w`. */
  function NextTuple(m: SynonymMap, cur: string, w: string): string {
    cur + Slot(m, w)
  }

  /** The result of `getNextTuple(cur, w)` keeps `cur` as its prefix and adds
      one slot: `'['`, then the decimal group value when `w` is in the table
      and `w` itself otherwise, then `']'` and a space. */
  lemma NextTupleAddsOneSlot(m: SynonymMap, cur: string, w: string)
    ensures var r := NextTuple(m, cur, w); var content := if w in m then IntToString(m[w]) else w;
      && |r| == |cur| + |content| + 3 && r[..|cur|] == cur
      && r[|cur|] == '[' && r[|cur| + 1..|r| - 2] == content && r[|r| - 2..] == "] "
  {
  }

  /** The text ends with the close of a slot. */
  predicate ClosesSlot(s: string) {
    |s| >= 2 && s[|s| - 2] == ']' && s[|s| - 1] == ' '
  }

  /** The tuple string of a word sequence: its slots, left to right. */
  function Render(m: SynonymMap, ws: seq<string>): string {
    if ws == [] then "" else Render(m, ws[..|ws| - 1]) + Slot(m, ws[|ws| - 1])
  }

  /** A tuple of at least one word ends with a closed slot. */
  lemma RenderCloses(m: SynonymMap, ws: seq<string>)
    requires ws != []
    ensures ClosesSlot(Render(m, ws))
  {
    var s := Render(m, ws[..|ws| - 1]) + Slot(m, ws[|ws| - 1]);
    assert s[|s| - 2..] == Slot(m, ws[|ws| - 1])[|Slot(m, ws[|ws| - 1])| - 2..];
  }

  /** Text that closes a slot can be cut after its first `']'` without an
      out-of-range `substring`. */
  lemma ClosedIsEvictable(s: string)
    requires ClosesSlot(s)
    ensures 0 <= IndexOf(s, ']') && IndexOf(s, ']') + 2 <= |s|
  {
    assert s[|s| - 2] == ']';
  }

  /** `s.substring(s.indexOf("]") + 2)`: Java's `substring` throws exactly when
      the index passes the end, which the requires excludes. */
  function Evict(s: string): string
    requires IndexOf(s, ']') + 2 <= |s|
  {
    s[IndexOf(s, ']') + 2..]
  }

  /** One slide per remaining word: drop the first slot, append the word's. */
  function Steps(m: SynonymMap, cur: string, rest: seq<string>): (ts: seq<string>)
    requires ClosesSlot(cur)
    ensures |ts| == |rest|
    decreases |rest|
  {
    if rest == [] then []
    else
      ClosedIsEvictable(cur);
      var next := Evict(cur) + Slot(m, rest[0]);
      [next] + Steps(m, next, rest[1..])
  }

  /** The window width in effect: a tuple size below 1 behaves as 1. */
  function Width(k: int): (w: nat)
    ensures w >= 1 && (k >= 1 ==> w == k)
  {
    if k < 1 then 1 else k
  }

  /** How many slots `getFirstTuple` lays down when `rem` words follow the first
      one: `max(1, min(k, 1 + rem))`. */
  function FirstSlots(k: int, rem: nat): (c: nat)
    ensures 1 <= c <= 1 + rem && c <= Width(k)
    ensures c == Width(k) || c == 1 + rem
  {
    if k <= 1 then 1 else if k <= 1 + rem then k else 1 + rem
  }

  /** The number of tuples a document of `n` words produces. */
  function WindowCount(k: int, n: nat): nat {
    if n == 0 then 0 else if n < Width(k) then 1 else n - Width(k) + 1
  }

  /** Every tuple string the engine forms for the words `ws`, in order: the
      first tuple from the first `FirstSlots` words, then one slide per word. */
  function Tuples(m: SynonymMap, k: int, ws: seq<string>): (ts: seq<string>)
    ensures |ts| == WindowCount(k, |ws|)
  {
    if ws == [] then []
    else
      var c := FirstSlots(k, |ws| - 1);
      var first := Render(m, ws[..c]);
      RenderCloses(m, ws[..c]);
      [first] + Steps(m, first, ws[c..])
  }

  /** Reference definition: the stride-1 windows of `Width(k)` consecutive
      words, or the whole document as one partial window when it is shorter. */
  function Windows(k: int, ws: seq<string>): (w: seq<seq<string>>)
    ensures |w| == WindowCount(k, |ws|)
    ensures forall i :: 0 <= i < |w| ==> |w[i]| == (if |ws| < Width(k) then |ws| else Width(k))
    ensures forall i :: 0 <= i < |w| ==> w[i] == ws[i..i + |w[i]|]
  {
    var n, c := |ws|, Width(k);
    if n == 0 then []
    else if n < c then [ws]
    else seq(n - c + 1, i requires 0 <= i < n - c + 1 => ws[i..i + c])
  }

  function RenderAll(m: SynonymMap, wins: seq<seq<string>>): (ts: seq<string>)
    ensures |ts| == |wins| && forall i :: 0 <= i < |ts| ==> ts[i] == Render(m, wins[i])
  {
    seq(|wins|, i requires 0 <= i < |wins| => Render(m, wins[i]))
  }

  /** No slot content of the document contains a `']'`. Group values never do
      (`GroupSlotsBracketFree`); a raw word may. */
  predicate BracketFree(m: SynonymMap, ws: seq<string>) {
    forall i :: 0 <= i < |ws| ==> ']' !in Canon(m, ws[i])
  }

  lemma GroupSlotsBracketFree(m: SynonymMap, w: string)
    ensures w in m ==> ']' !in Canon(m, w)
  {
    if w in m {
      var s := IntToString(m[w]);
      assert forall j :: 0 <= j < |s| ==> s[j] != ']';
    }
  }

  /** The eviction step removes exactly the first slot if and only if that
      slot's content holds no `']'`. */
  lemma EvictSlotIff(m: SynonymMap, w: string, rest: string)
    ensures IndexOf(Slot(m, w) + rest, ']') + 2 <= |Slot(m, w) + rest|
    ensures Evict(Slot(m, w) + rest) == rest <==> ']' !in Canon(m, w)
    ensures ']' in Canon(m, w) ==> |Evict(Slot(m, w) + rest)| > |rest|
  {
    var c := Canon(m, w);
    var s := Slot(m, w) + rest;
    assert s == ['['] + c + [']', ' '] + rest;
    assert s[1 + |c|] == ']';
    var i := IndexOf(s, ']');
    if ']' !in c {
      assert s[..1 + |c|] == ['['] + c;
      assert i == 1 + |c|;
      assert s[i + 2..] == rest;
    } else {
      assert i < 1 + |c| by {
        var j :| 0 <= j < |c| && c[j] == ']';
        assert s[1 + j] == ']';
      }
      assert |Evict(s)| > |rest|;
    }
  }

  lemma {:induction false} RenderCons(m: SynonymMap, ws: seq<string>)
    requires ws != []
    ensures Render(m, ws) == Slot(m, ws[0]) + Render(m, ws[1..])
  {
    var n := |ws|;
    if n == 1 {
      assert ws[..0] == [] && ws[1..] == [];
    } else {
      var front, tail := ws[..n - 1], ws[1..];
      RenderCons(m, front);
      assert front[0] == ws[0];
      assert front[1..] == tail[..n - 2];
      assert tail[n - 2] == ws[n - 1];
      var first, middle, last := Slot(m, ws[0]), Render(m, front[1..]), Slot(m, ws[n - 1]);
      calc {
        Render(m, ws);
        Render(m, front) + last;
        (first + middle) + last;
        first + (middle + last);
        { assert Render(m, tail) == middle + last; }
        first + Render(m, tail);
      }
    }
  }

  lemma EvictRender(m: SynonymMap, ws: seq<string>)
    requires ws != [] && ']' !in Canon(m, ws[0])
    ensures IndexOf(Render(m, ws), ']') + 2 <= |Render(m, ws)|
    ensures Evict(Render(m, ws)) == Render(m, ws[1..])
  {
    RenderCons(m, ws);
    EvictSlotIff(m, ws[0], Render(m, ws[1..]));
  }

  /** The windows after the first one: the `c` words starting at 1, 2, ... */
  function LaterWindows(ws: seq<string>, c: nat): (w: seq<seq<string>>)
    requires c <= |ws|
  {
    seq(|ws| - c, j requires 0 <= j < |ws| - c => ws[j + 1..j + 1 + c])
  }

  /** One slide turns the rendering of the window at 0 into that at 1. */
  lemma SlideOnce(m: SynonymMap, ws: seq<string>, c: nat)
    requires 1 <= c < |ws| && ']' !in Canon(m, ws[0])
    ensures IndexOf(Render(m, ws[..c]), ']') + 2 <= |Render(m, ws[..c])|
    ensures Evict(Render(m, ws[..c])) + Slot(m, ws[c]) == Render(m, ws[1..c + 1])
  {
    var first, second, shared := ws[..c], ws[1..c + 1], ws[1..c];
    EvictRender(m, first);
    assert first[1..] == shared;
    assert second[..c - 1] == shared && second[c - 1] == ws[c];
    assert Render(m, second) == Render(m, second[..c - 1]) + Slot(m, second[c - 1]);
  }

  lemma LaterWindowsCons(ws: seq<string>, c: nat)
    requires c < |ws|
    ensures LaterWindows(ws, c) == [ws[1..c + 1]] + LaterWindows(ws[1..], c)
  {
    var later, rest := LaterWindows(ws, c), LaterWindows(ws[1..], c);
    forall j | 0 <= j < |rest| ensures later[j + 1] == rest[j] {
      assert ws[1..][j + 1..j + 1 + c] == ws[j + 2..j + 2 + c];
    }
  }

  lemma RenderAllCons(m: SynonymMap, w: seq<string>, wins: seq<seq<string>>)
    ensures RenderAll(m, [w] + wins) == [Render(m, w)] + RenderAll(m, wins)
  {
  }

  /** Starting from the first window, each slide renders the next window. */
  lemma {:induction false} StepsSlide(m: SynonymMap, ws: seq<string>, c: nat)
    requires 1 <= c <= |ws| && BracketFree(m, ws)
    ensures Steps(m, Render(m, ws[..c]), ws[c..]) == RenderAll(m, LaterWindows(ws, c))
    decreases |ws|
  {
    if c < |ws| {
      var tail := ws[1..];
      SlideOnce(m, ws, c);
      assert ws[1..c + 1] == tail[..c];
      var next := Render(m, tail[..c]);
      assert ws[c..][0] == ws[c] && ws[c..][1..] == tail[c..];
      assert Steps(m, Render(m, ws[..c]), ws[c..]) == [next] + Steps(m, next, tail[c..]);
      assert BracketFree(m, tail) by {
        assert forall j :: 0 <= j < |tail| ==> tail[j] == ws[j + 1];
      }
      StepsSlide(m, tail, c);
      LaterWindowsCons(ws, c);
      RenderAllCons(m, tail[..c], LaterWindows(tail, c));
    }
  }

  lemma WindowsSplit(k: int, ws: seq<string>)
    requires 1 <= Width(k) <= |ws|
    ensures Windows(k, ws) == [ws[..Width(k)]] + LaterWindows(ws, Width(k))
  {
    var c := Width(k);
    var wins, later := Windows(k, ws), LaterWindows(ws, c);
    forall j | 0 <= j < |later| ensures wins[j + 1] == later[j] { }
  }

  lemma LongTuplesAreWindows(m: SynonymMap, k: int, ws: seq<string>)
    requires BracketFree(m, ws) && Width(k) <= |ws|
    ensures Tuples(m, k, ws) == RenderAll(m, Windows(k, ws))
  {
    var c := Width(k);
    assert FirstSlots(k, |ws| - 1) == c;
    assert Tuples(m, k, ws) == [Render(m, ws[..c])] + Steps(m, Render(m, ws[..c]), ws[c..]);
    StepsSlide(m, ws, c);
    WindowsSplit(k, ws);
    RenderAllCons(m, ws[..c], LaterWindows(ws, c));
  }

  /** The tuple strings the engine forms are the renderings of the stride-1
      word windows, one per window, in order. */
  lemma TuplesAreWindows(m: SynonymMap, k: int, ws: seq<string>)
    requires BracketFree(m, ws)
    ensures Tuples(m, k, ws) == RenderAll(m, Windows(k, ws))
  {
    var n := |ws|;
    if n >= Width(k) {
      LongTuplesAreWindows(m, k, ws);
    } else if n > 0 {
      assert FirstSlots(k, n - 1) == n;
      assert ws[..n] == ws && ws[n..] == [];
      assert Tuples(m, k, ws) == [Render(m, ws)];
    }
  }

  /** Word sequences whose slots agree position by position. */
  predicate SameSlots(m: SynonymMap, a: seq<string>, b: seq<string>) {
    |a| == |b| && forall i :: 0 <= i < |a| ==> Canon(m, a[i]) == Canon(m, b[i])
  }

  /** Two words found in the table give equal slots exactly when they have the
      same group value; two words absent from it, exactly when they are equal. */
  lemma SlotsEqualIff(m: SynonymMap, x: string, y: string)
    requires x in m <==> y in m
    ensures Slot(m, x) == Slot(m, y) <==> if x in m then m[x] == m[y] else x == y
  {
    if Slot(m, x) == Slot(m, y) {
      assert Canon(m, x) == Slot(m, x)[1..|Slot(m, x)| - 2];
      assert Canon(m, y) == Slot(m, y)[1..|Slot(m, y)| - 2];
      if x in m { IntToStringInjective(m[x], m[y]); }
    }
  }

  /** A word absent from the table renders like a group value when it is that
      value's decimal text: the slot text does not say which it is. */
  lemma RawWordMimicsGroup(m: SynonymMap, w: string, x: string)
    requires w in m && x !in m && x == IntToString(m[w])
    ensures Slot(m, x) == Slot(m, w)
  {
  }

  /** A key and a non-key give equal slots exactly when the non-key word is
      the decimal text of the key's group value. */
  lemma MixedSlotsIff(m: SynonymMap, x: string, y: string)
    requires x in m && y !in m
    ensures Slot(m, x) == Slot(m, y) <==> y == IntToString(m[x])
  {
    if Slot(m, x) == Slot(m, y) {
      assert Canon(m, x) == Slot(m, x)[1..|Slot(m, x)| - 2];
      assert Canon(m, y) == Slot(m, y)[1..|Slot(m, y)| - 2];
    }
  }

  lemma {:induction false} RenderSameSlots(m: SynonymMap, a: seq<string>, b: seq<string>)
    requires SameSlots(m, a, b)
    ensures Render(m, a) == Render(m, b)
  {
    if a != [] {
      var n := |a|;
      assert SameSlots(m, a[..n - 1], b[..n - 1]) by {
        assert forall i :: 0 <= i < n - 1 ==> a[..n - 1][i] == a[i] && b[..n - 1][i] == b[i];
      }
      RenderSameSlots(m, a[..n - 1], b[..n - 1]);
      assert Canon(m, a[n - 1]) == Canon(m, b[n - 1]);
    }
  }

  lemma {:induction false} StepsSameSlots(m: SynonymMap, cur: string, a: seq<string>, b: seq<string>)
    requires ClosesSlot(cur) && SameSlots(m, a, b)
    ensures Steps(m, cur, a) == Steps(m, cur, b)
    decreases |a|
  {
    if a != [] {
      assert Canon(m, a[0]) == Canon(m, b[0]);
      ClosedIsEvictable(cur);
      var next := Evict(cur) + Slot(m, a[0]);
      assert SameSlots(m, a[1..], b[1..]) by {
        assert forall i :: 0 <= i < |a| - 1 ==> a[1..][i] == a[i + 1] && b[1..][i] == b[i + 1];
      }
      StepsSameSlots(m, next, a[1..], b[1..]);
    }
  }

  /** Replacing words by synonyms from the same line leaves every tuple string
      unchanged ("go run now" and "go jog now" under "run jog sprint"). */
  lemma SynonymTuplesEqual(m: SynonymMap, k: int, a: seq<string>, b: seq<string>)
    requires SameSlots(m, a, b)
    ensures Tuples(m, k, a) == Tuples(m, k, b)
  {
    if a != [] {
      var c := FirstSlots(k, |a| - 1);
      assert SameSlots(m, a[..c], b[..c]) by {
        assert forall i :: 0 <= i < c ==> a[..c][i] == a[i] && b[..c][i] == b[i];
      }
      assert SameSlots(m, a[c..], b[c..]) by {
        assert forall i :: 0 <= i < |a| - c ==> a[c..][i] == a[c + i] && b[c..][i] == b[c + i];
      }
      RenderSameSlots(m, a[..c], b[..c]);
      StepsSameSlots(m, Render(m, a[..c]), a[c..], b[c..]);
    }
  }

  /** Words that are equal or share a group value have equal slots. */
  lemma SynonymsShareSlot(m: SynonymMap, x: string, y: string)
    requires x == y || (x in m && y in m && m[x] == m[y])
    ensures Slot(m, x) == Slot(m, y)
  {
  }

  /** A tuple size below 1 gives the same tuples as a size of 1. */
  lemma NonPositiveSizeActsAsOne(m: SynonymMap, k: int, ws: seq<string>)
    requires k <= 0
    ensures Tuples(m, k, ws) == Tuples(m, 1, ws)
  {
  }

  /** The set of tuple hashes (the reference set). */
  function Fingerprints(hash: string -> Int32, ts: seq<string>): set<Int32> {
    if ts == [] then {} else Fingerprints(hash, ts[..|ts| - 1]) + {hash(ts[|ts| - 1])}
  }

  /** A hash is in the reference set exactly when some tuple has it. */
  lemma {:induction false} FingerprintsHas(hash: string -> Int32, ts: seq<string>, x: Int32)
    ensures x in Fingerprints(hash, ts) <==> exists t :: t in ts && hash(t) == x
  {
    if ts != [] {
      var front, last := ts[..|ts| - 1], ts[|ts| - 1];
      FingerprintsHas(hash, front, x);
      assert ts == front + [last];
      assert forall t :: t in ts <==> t in front || t == last;
    }
  }

  lemma FingerprintsAppend(hash: string -> Int32, ts: seq<string>, t: string)
    ensures Fingerprints(hash, ts + [t]) == Fingerprints(hash, ts) + {hash(t)}
  {
    assert (ts + [t])[..|ts|] == ts;
  }

  function CountMatched(hash: string -> Int32, ts: seq<string>, ref: set<Int32>): (r: nat)
    ensures r <= |ts|
  {
    if ts == [] then 0
    else CountMatched(hash, ts[..|ts| - 1], ref) + (if hash(ts[|ts| - 1]) in ref then 1 else 0)
  }

  /** Counting is per occurrence: the count over two runs of tuples is the sum
      of the counts, so a repeated tuple counts every time. */
  lemma {:induction false} CountMatchedAppend(hash: string -> Int32, a: seq<string>, b: seq<string>, ref: set<Int32>)
    ensures CountMatched(hash, a + b, ref) == CountMatched(hash, a, ref) + CountMatched(hash, b, ref)
    decreases |b|
  {
    if b == [] {
      assert a + b == a;
    } else {
      var n := |b|;
      assert (a + b)[..|a + b| - 1] == a + b[..n - 1];
      assert (a + b)[|a + b| - 1] == b[n - 1];
      CountMatchedAppend(hash, a, b[..n - 1], ref);
    }
  }

  /** One more tuple adds one to the count exactly when its hash is in `ref`. */
  lemma CountMatchedSnoc(hash: string -> Int32, ts: seq<string>, t: string, ref: set<Int32>)
    ensures CountMatched(hash, ts + [t], ref) == CountMatched(hash, ts, ref) + (if hash(t) in ref then 1 else 0)
  {
    assert (ts + [t])[..|ts|] == ts;
  }

  /** Reference definition of a match: the tuple string itself occurs among
      the reference tuples. */
  function CountOccurring(tsB: seq<string>, tsA: seq<string>): (r: nat)
    ensures r <= |tsB|
  {
    if tsB == [] then 0
    else CountOccurring(tsB[..|tsB| - 1], tsA) + (if tsB[|tsB| - 1] in tsA then 1 else 0)
  }

  /** The documented no-collision assumption, restricted to the tuples compared:
      a tuple of B and a tuple of A with the same hash are the same string. */
  predicate NoCollisions(hash: string -> Int32, tsA: seq<string>, tsB: seq<string>) {
    forall a, b :: a in tsA && b in tsB && hash(a) == hash(b) ==> a == b
  }

  /** Under the no-collision assumption a hash lookup finds exactly the tuples
      that occur in the reference document. */
  lemma {:induction false} MatchesAreOccurrences(hash: string -> Int32, tsA: seq<string>, tsB: seq<string>)
    requires NoCollisions(hash, tsA, tsB)
    ensures CountMatched(hash, tsB, Fingerprints(hash, tsA)) == CountOccurring(tsB, tsA)
  {
    if tsB != [] {
      var front, last := tsB[..|tsB| - 1], tsB[|tsB| - 1];
      assert NoCollisions(hash, tsA, front) by {
        assert forall b :: b in front ==> b in tsB;
      }
      MatchesAreOccurrences(hash, tsA, front);
      assert last in tsB;
      FingerprintsHas(hash, tsA, hash(last));
      assert hash(last) in Fingerprints(hash, tsA) <==> last in tsA;
    }
  }

  /** Every tuple of B counts as matched when it occurs among A's tuples,
      whatever the hash function. */
  lemma {:induction false} ContainedFullyMatch(hash: string -> Int32, tsA: seq<string>, tsB: seq<string>)
    requires forall i :: 0 <= i < |tsB| ==> tsB[i] in tsA
    ensures CountMatched(hash, tsB, Fingerprints(hash, tsA)) == |tsB|
  {
    if tsB != [] {
      var front := tsB[..|tsB| - 1];
      assert forall i :: 0 <= i < |front| ==> front[i] == tsB[i];
      ContainedFullyMatch(hash, tsA, front);
      assert tsB[|tsB| - 1] in tsA;
      FingerprintsHas(hash, tsA, hash(tsB[|tsB| - 1]));
    }
  }

  /** Under the no-collision assumption a full match means every tuple of B
      occurs among A's tuples. */
  lemma {:induction false} FullMatchOnlyIfContained(hash: string -> Int32, tsA: seq<string>, tsB: seq<string>)
    requires NoCollisions(hash, tsA, tsB)
    requires CountMatched(hash, tsB, Fingerprints(hash, tsA)) == |tsB|
    ensures forall i :: 0 <= i < |tsB| ==> tsB[i] in tsA
  {
    MatchesAreOccurrences(hash, tsA, tsB);
    OccurringAll(tsA, tsB);
  }

  lemma {:induction false} OccurringAll(tsA: seq<string>, tsB: seq<string>)
    requires CountOccurring(tsB, tsA) == |tsB|
    ensures forall i :: 0 <= i < |tsB| ==> tsB[i] in tsA
  {
    if tsB != [] {
      var front := tsB[..|tsB| - 1];
      OccurringAll(tsA, front);
      assert forall i :: 0 <= i < |front| ==> front[i] == tsB[i];
    }
  }

  /** Scoring a document against its own reference set gives a full match. */
  lemma SelfMatchIsFull(hash: string -> Int32, m: SynonymMap, k: int, ws: seq<string>)
    ensures var ts := Tuples(m, k, ws); CountMatched(hash, ts, Fingerprints(hash, ts)) == |ts|
  {
    var ts := Tuples(m, k, ws);
    ContainedFullyMatch(hash, ts, ts);
  }

  /** Every word of a document lies in one of its windows. */
  lemma WindowsCover(k: int, ws: seq<string>, j: nat)
    requires j < |ws|
    ensures exists i, p :: 0 <= i < |Windows(k, ws)| && 0 <= p < |Windows(k, ws)[i]| && Windows(k, ws)[i][p] == ws[j]
  {
    var wins, c := Windows(k, ws), Width(k);
    var i := if |ws| < c || j <= |ws| - c then (if |ws| < c then 0 else j) else |ws| - c;
    assert 0 <= i < |wins| && 0 <= j - i < |wins[i]| && wins[i][j - i] == ws[j];
  }

  /** A word inside a window of A names its slot content in A. */
  lemma WindowWordBracketFree(m: SynonymMap, k: int, a: seq<string>, win: seq<string>, p: nat)
    requires BracketFree(m, a) && win in Windows(k, a) && p < |win|
    ensures ']' !in Canon(m, win[p])
  {
    var wa := Windows(k, a);
    var i :| 0 <= i < |wa| && wa[i] == win;
    assert win == a[i..i + |win|];
    assert win[p] == a[i + p];
  }

  /** When every window of B is a window of A and A is bracket-free, so is B. */
  lemma ContainedBracketFree(m: SynonymMap, k: int, a: seq<string>, b: seq<string>)
    requires BracketFree(m, a)
    requires forall i :: 0 <= i < |Windows(k, b)| ==> Windows(k, b)[i] in Windows(k, a)
    ensures BracketFree(m, b)
  {
    var wb := Windows(k, b);
    forall j | 0 <= j < |b| ensures ']' !in Canon(m, b[j]) {
      WindowsCover(k, b, j);
      var i, p :| 0 <= i < |wb| && 0 <= p < |wb[i]| && wb[i][p] == b[j];
      WindowWordBracketFree(m, k, a, wb[i], p);
    }
  }

  /** If every word window of B is also a word window of A, and no slot
      content of A holds a `']'`, B is fully matched against A's reference
      set. */
  lemma ContainedWindowsFullyMatch(hash: string -> Int32, m: SynonymMap, k: int, a: seq<string>, b: seq<string>)
    requires BracketFree(m, a)
    requires forall i :: 0 <= i < |Windows(k, b)| ==> Windows(k, b)[i] in Windows(k, a)
    ensures CountMatched(hash, Tuples(m, k, b), Fingerprints(hash, Tuples(m, k, a))) == |Tuples(m, k, b)|
  {
    var tsA, tsB := Tuples(m, k, a), Tuples(m, k, b);
    ContainedBracketFree(m, k, a, b);
    TuplesAreWindows(m, k, a);
    TuplesAreWindows(m, k, b);
    forall i | 0 <= i < |tsB| ensures tsB[i] in tsA {
      var wa, wb := Windows(k, a), Windows(k, b);
      assert wb[i] in wa;
      var j :| 0 <= j < |wa| && wa[j] == wb[i];
      assert tsA[j] == tsB[i];
    }
    ContainedFullyMatch(hash, tsA, tsB);
  }
}
