/** The few Java string operations the tuple engine relies on, stated on Dafny's
    `string` (a `seq<char>`): `indexOf`, `split(" ")` and the decimal rendering
    of an `Integer` that string concatenation performs. */
module JavaStrings {

  /** Java's `int`: the range of `String.hashCode` and of the `Integer` values
      kept in the synonym table. */
  type Int32 = x: int | -0x8000_0000 <= x < 0x8000_0000

  /** `s.indexOf(c)`: the first index at which `c` occurs in `s`, or -1. */
  function IndexOf(s: string, c: char): (i: int)
    ensures -1 <= i < |s|
    ensures i == -1 <==> c !in s
    ensures 0 <= i ==> s[i] == c && c !in s[..i]
  {
    if s == [] then -1
    else if s[0] == c then 0
    else
      var j := IndexOf(s[1..], c);
      assert j >= 0 ==> s[..j + 1] == [s[0]] + s[1..][..j];
      if j == -1 then -1 else j + 1
  }

  /** The pieces between single spaces, empty pieces included
      ("a  b" has the three pieces "a", "" and "b"). */
  function Pieces(s: string): (ps: seq<string>)
    ensures |ps| >= 1
  {
    if s == [] then [""]
    else
      var rest := Pieces(s[1..]);
      if s[0] == ' ' then [""] + rest
      else [[s[0]] + rest[0]] + rest[1..]
  }

  /** No piece holds a space. */
  lemma {:induction false} PiecesNoSpace(s: string)
    ensures forall i :: 0 <= i < |Pieces(s)| ==> ' ' !in Pieces(s)[i]
  {
    if s != [] {
      PiecesNoSpace(s[1..]);
      var rest := Pieces(s[1..]);
      if s[0] != ' ' {
        assert ' ' !in [s[0]] + rest[0];
        assert forall i :: 1 <= i < |Pieces(s)| ==> Pieces(s)[i] == rest[i];
      } else {
        assert forall i :: 1 <= i < |Pieces(s)| ==> Pieces(s)[i] == rest[i - 1];
      }
    }
  }

  /** Glues pieces back together with one space between neighbours. */
  function Join(ps: seq<string>): string {
    if |ps| == 0 then ""
    else if |ps| == 1 then ps[0]
    else ps[0] + " " + Join(ps[1..])
  }

  /** Cutting at every space and gluing back with spaces gives the line back. */
  lemma {:induction false} JoinPieces(s: string)
    ensures Join(Pieces(s)) == s
  {
    if s != [] {
      JoinPieces(s[1..]);
      var rest := Pieces(s[1..]);
      if s[0] == ' ' {
        assert Pieces(s) == [""] + rest;
        assert ([""] + rest)[1..] == rest;
      } else {
        var ps := Pieces(s);
        assert ps == [[s[0]] + rest[0]] + rest[1..];
        if |rest| == 1 {
          assert Join(ps) == [s[0]] + rest[0];
        } else {
          assert ps[1..] == rest[1..];
          assert Join(rest) == rest[0] + " " + Join(rest[1..]);
          assert Join(ps) == [s[0]] + rest[0] + " " + Join(rest[1..]);
        }
      }
    }
  }

  /** `ps` with its trailing empty strings removed. */
  function DropTrailingEmpty(ps: seq<string>): seq<string> {
    if ps != [] && ps[|ps| - 1] == "" then DropTrailingEmpty(ps[..|ps| - 1]) else ps
  }

  /** Only empty strings are dropped, and only from the end. */
  lemma {:induction false} DropTrailingEmptyDrops(ps: seq<string>)
    ensures DropTrailingEmpty(ps) <= ps
    ensures DropTrailingEmpty(ps) == [] || DropTrailingEmpty(ps)[|DropTrailingEmpty(ps)| - 1] != ""
    ensures forall i :: |DropTrailingEmpty(ps)| <= i < |ps| ==> ps[i] == ""
  {
    if ps != [] && ps[|ps| - 1] == "" {
      DropTrailingEmptyDrops(ps[..|ps| - 1]);
    }
  }

  /** One more string in front: it is dropped only when it and everything after
      it are empty. */
  lemma {:induction false} DropTrailingEmptyCons(x: string, ps: seq<string>)
    ensures DropTrailingEmpty([x] + ps) ==
      if x == "" && DropTrailingEmpty(ps) == [] then [] else [x] + DropTrailingEmpty(ps)
    decreases |ps|
  {
    var xs := [x] + ps;
    if ps == [] {
      assert xs[..0] == [];
    } else if ps[|ps| - 1] == "" {
      assert xs[..|xs| - 1] == [x] + ps[..|ps| - 1];
      DropTrailingEmptyCons(x, ps[..|ps| - 1]);
    }
  }

  /** The non-empty-string case of `split(" ")` in one pass over the
      characters: the pieces between spaces, with the trailing empty pieces
      already dropped. */
  function Words(s: string): seq<string>
    decreases |s|
  {
    if s == [] then []
    else
      var rest := Words(s[1..]);
      if s[0] == ' ' then (if rest == [] then [] else [""] + rest)
      else if rest == [] then [[s[0]]]
      else [[s[0]] + rest[0]] + rest[1..]
  }

  /** The one-pass form agrees with cutting at every space and then dropping
      the trailing empty pieces. */
  lemma {:induction false} WordsArePieces(s: string)
    ensures Words(s) == DropTrailingEmpty(Pieces(s))
  {
    if s != [] {
      WordsArePieces(s[1..]);
      var ps := Pieces(s[1..]);
      if s[0] == ' ' {
        DropTrailingEmptyCons("", ps);
      } else {
        var tail := ps[1..];
        var head := [s[0]] + ps[0];
        assert ps == [ps[0]] + tail;
        assert Pieces(s) == [head] + tail;
        DropTrailingEmptyCons(ps[0], tail);
        DropTrailingEmptyCons(head, tail);
        var rest := Words(s[1..]);
        if rest == [] {
          assert ps[0] == "" && head == [s[0]];
        } else {
          assert rest[0] == ps[0] && rest[1..] == DropTrailingEmpty(tail);
        }
      }
    }
  }

  /** A word without spaces, a space, and more text: the word comes first. */
  lemma {:induction false} WordsAfterWord(x: string, r: string)
    requires x != "" && ' ' !in x
    ensures Words(x + " " + r) == if Words(r) == [] then [x] else [x] + Words(r)
  {
    var t := x + " " + r;
    var u := t[1..];
    assert t == [x[0]] + u && t[0] == x[0];
    var rest := Words(u);
    if |x| == 1 {
      assert u == " " + r && u[0] == ' ' && u[1..] == r;
      assert rest == if Words(r) == [] then [] else [""] + Words(r);
      assert [x[0]] == x;
      if Words(r) != [] {
        assert rest[0] == "" && rest[1..] == Words(r);
        assert [x[0]] + rest[0] == x;
      }
    } else {
      assert u == x[1..] + " " + r;
      assert ' ' !in x[1..] by { assert forall i :: 0 <= i < |x[1..]| ==> x[1..][i] == x[i + 1]; }
      WordsAfterWord(x[1..], r);
      assert [x[0]] + x[1..] == x;
      assert rest[0] == x[1..];
      assert rest[1..] == if Words(r) == [] then [] else Words(r);
    }
  }

  /** A string without spaces is its own single word. */
  lemma {:induction false} WordsOfWord(x: string)
    requires x != "" && ' ' !in x
    ensures Words(x) == [x]
  {
    var u := x[1..];
    assert x[0] != ' ' && [x[0]] + u == x;
    if |x| == 1 {
      assert u == [] && Words(u) == [] && [x[0]] == x;
    } else {
      assert ' ' !in u by { assert forall i :: 0 <= i < |u| ==> u[i] == x[i + 1]; }
      WordsOfWord(u);
    }
  }

  /** `s.split(" ")`: the pieces between spaces, trailing empty pieces dropped;
      a string with no space at all, the empty string included, is its own
      one piece, so `"".split(" ")` is `[""]` and `" ".split(" ")` is empty. */
  function Split(s: string): seq<string> {
    if s == "" then [""] else Words(s)
  }

  /** The words of `s.split(" ")` hold no space; a string without a space is its
      one word; otherwise the words are the pieces up to the last non-empty one. */
  lemma SplitWords(s: string)
    ensures forall i :: 0 <= i < |Split(s)| ==> ' ' !in Split(s)[i]
    ensures ' ' !in s ==> Split(s) == [s]
    ensures ' ' in s ==> Split(s) <= Pieces(s) && (Split(s) == [] || Split(s)[|Split(s)| - 1] != "")
    ensures ' ' in s ==> forall i :: |Split(s)| <= i < |Pieces(s)| ==> Pieces(s)[i] == ""
  {
    if s != "" {
      WordsArePieces(s);
      NoSpaceOnePiece(s);
      PiecesNoSpace(s);
      DropTrailingEmptyDrops(Pieces(s));
      assert forall i :: 0 <= i < |Split(s)| ==> Split(s)[i] == Pieces(s)[i];
    }
  }

  lemma {:induction false} NoSpaceOnePiece(s: string)
    ensures ' ' !in s ==> Pieces(s) == [s]
  {
    if s != [] && ' ' !in s {
      NoSpaceOnePiece(s[1..]);
      assert ' ' !in s[1..] by { assert forall i :: 0 <= i < |s[1..]| ==> s[1..][i] == s[i + 1]; }
      assert [s[0]] + s[1..] == s;
    }
  }

  function Digit(d: nat): (c: char)
    requires d < 10
    ensures '0' <= c <= '9' && c as int - '0' as int == d
  {
    (48 + d) as char
  }

  /** The number a string of decimal digits spells, most significant digit
      first; an independent reading of the digits `NatToString` writes. */
  function DigitsValue(d: string): int {
    if d == [] then 0 else 10 * DigitsValue(d[..|d| - 1]) + (d[|d| - 1] as int - '0' as int)
  }

  /** The value of an optional minus sign followed by decimal digits, as
      `Integer.parseInt` reads the texts `Integer.toString` writes. */
  function DecimalValue(s: string): int {
    if s != [] && s[0] == '-' then -DigitsValue(s[1..]) else DigitsValue(s)
  }

  /** The decimal digits of `n`, without leading zeros. */
  function NatToString(n: nat): (s: string)
    ensures 1 <= |s| && (n >= 10 <==> |s| >= 2)
    ensures forall i :: 0 <= i < |s| ==> '0' <= s[i] <= '9'
    ensures s[0] == '0' ==> n == 0
    ensures DigitsValue(s) == n
  {
    if n < 10 then [Digit(n)]
    else
      var front := NatToString(n / 10);
      assert (front + [Digit(n % 10)])[..|front|] == front;
      front + [Digit(n % 10)]
  }

  /** `Integer.toString(i)`: a minus sign exactly for negative values, then
      the digits of the magnitude (`IntToStringReadsBack` gives their value). */
  function IntToString(i: int): (s: string)
    ensures 1 <= |s|
    ensures s[0] == '-' <==> i < 0
    ensures forall j :: 1 <= j < |s| ==> '0' <= s[j] <= '9'
    ensures i >= 0 ==> '0' <= s[0] <= '9'
  {
    if i < 0 then "-" + NatToString(-i) else NatToString(i)
  }

  /** The text of `i` has no leading zero except for `"0"`, and reads back
      as `i`. */
  lemma IntToStringReadsBack(i: int)
    ensures var s := IntToString(i);
      && (s[0] == '0' ==> s == "0")
      && (i < 0 ==> |s| >= 2 && s[1] != '0')
      && DecimalValue(s) == i
  {
    if i < 0 {
      var digits := NatToString(-i);
      assert ("-" + digits)[1..] == digits;
    }
  }

  /** Distinct group values render as distinct text: each text reads back
      as its own value. */
  lemma IntToStringInjective(a: int, b: int)
    ensures IntToString(a) == IntToString(b) ==> a == b
  {
    IntToStringReadsBack(a);
    IntToStringReadsBack(b);
  }
}
