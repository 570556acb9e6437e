/** The literal scan shared by the two source files: splitting a text on every
    occurrence of any of a set of equal-width literal delimiters, leftmost match
    first and without overlap (what Python's `re.split` does with a pattern of
    escaped literals joined by `|`, and `str.split` with one separator), and
    joining pieces back with a separator (`str.join`). */
module Scan {

  /** Some delimiter of width `width` occurs in `text` at position `j`. */
  predicate MatchAt(text: string, delims: seq<string>, width: nat, j: int)
  {
    0 <= j && j + width <= |text| && text[j..j + width] in delims
  }

  /** The leftmost match at or after `i`, or `|text|` when there is none. */
  function NextMatch(text: string, delims: seq<string>, width: nat, i: nat): (j: nat)
    requires width > 0 && i <= |text|
    ensures i <= j <= |text|
    ensures j < |text| ==> MatchAt(text, delims, width, j)
    ensures forall k :: i <= k < j ==> !MatchAt(text, delims, width, k)
    decreases |text| - i
  {
    if i == |text| || MatchAt(text, delims, width, i) then i
    else NextMatch(text, delims, width, i + 1)
  }

  /** The pieces of `text[i..]` between the matches found by a left-to-right scan
      that resumes after each match. */
  function PiecesFrom(text: string, delims: seq<string>, width: nat, i: nat): (ps: seq<string>)
    requires width > 0 && i <= |text|
    ensures |ps| >= 1
    decreases |text| - i
  {
    var j := NextMatch(text, delims, width, i);
    if j == |text| then [text[i..]]
    else [text[i..j]] + PiecesFrom(text, delims, width, j + width)
  }

  /** A pattern that matches only the empty string splits before every character
      and at both ends: `"abc"` gives `["", "a", "b", "c", ""]`. */
  function ZeroWidthPieces(text: string): (ps: seq<string>)
    ensures |ps| == |text| + 2
    ensures ps[0] == [] && ps[|text| + 1] == []
    ensures forall k :: 0 <= k < |text| ==> ps[k + 1] == [text[k]]
  {
    [[]] + seq(|text|, k requires 0 <= k < |text| => [text[k]]) + [[]]
  }

  /** Splits `text` on every occurrence of any delimiter of `delims`, all of
      which have width `width`. */
  function Split(text: string, delims: seq<string>, width: nat): (ps: seq<string>)
    ensures |ps| >= 1
    ensures forall k :: 0 <= k < |ps| ==> |ps[k]| <= |text|
  {
    if width == 0 then ZeroWidthPieces(text)
    else
      PiecesAreSlices(text, delims, width, 0);
      assert forall k :: 0 <= k < |PiecesFrom(text, delims, width, 0)| ==>
        PiecesFrom(text, delims, width, 0)[k] in PiecesFrom(text, delims, width, 0);
      PiecesFrom(text, delims, width, 0)
  }

  /** `sep.join(ps)`. */
  function Join(ps: seq<string>, sep: string): string
  {
    if |ps| == 0 then []
    else if |ps| == 1 then ps[0]
    else ps[0] + sep + Join(ps[1..], sep)
  }

  /** Splitting on one non-empty separator and joining with it gives the text back. */
  lemma {:induction false} JoinPiecesFrom(text: string, sep: string, i: nat)
    requires |sep| > 0 && i <= |text|
    ensures Join(PiecesFrom(text, [sep], |sep|, i), sep) == text[i..]
    decreases |text| - i
  {
    var j := NextMatch(text, [sep], |sep|, i);
    if j < |text| {
      JoinPiecesFrom(text, sep, j + |sep|);
      assert text[j..j + |sep|] == sep;
      assert text[i..] == text[i..j] + text[j..j + |sep|] + text[j + |sep|..];
    }
  }

  /** `p` occurs in `text` at position `a`. */
  predicate SliceAt(p: string, text: string, a: int)
  {
    0 <= a && a + |p| <= |text| && text[a..a + |p|] == p
  }

  /** Every piece is a slice of the text lying at or after `i`; when the scan
      finds a match, no piece is the whole of `text[i..]`. */
  lemma {:induction false} PiecesAreSlices(text: string, delims: seq<string>, width: nat, i: nat)
    requires width > 0 && i <= |text|
    ensures forall p :: p in PiecesFrom(text, delims, width, i) ==> exists a :: i <= a && SliceAt(p, text, a)
    ensures NextMatch(text, delims, width, i) < |text| ==>
      forall p :: p in PiecesFrom(text, delims, width, i) ==> |p| < |text| - i
    decreases |text| - i
  {
    var j := NextMatch(text, delims, width, i);
    var ps := PiecesFrom(text, delims, width, i);
    if j < |text| {
      var rest := PiecesFrom(text, delims, width, j + width);
      PiecesAreSlices(text, delims, width, j + width);
      assert ps == [text[i..j]] + rest;
      assert SliceAt(text[i..j], text, i);
      if NextMatch(text, delims, width, j + width) == |text| {
        assert rest == [text[j + width..]];
      }
    } else {
      assert ps == [text[i..]];
      assert SliceAt(text[i..], text, i);
    }
  }

  /** A character of a piece is a character of the text. */
  lemma PieceCharsInText(text: string, delims: seq<string>, width: nat, p: string)
    requires width > 0 && p in PiecesFrom(text, delims, width, 0)
    ensures forall c :: c in p ==> c in text
  {
    PiecesAreSlices(text, delims, width, 0);
    var a :| 0 <= a && SliceAt(p, text, a);
    forall c | c in p ensures c in text {
      var m :| 0 <= m < |p| && p[m] == c;
      assert text[a..a + |p|][m] == text[a + m];
    }
  }

  /** Joining two non-empty lists one after the other puts the separator
      between their joins. */
  lemma {:induction false} JoinAppend(a: seq<string>, b: seq<string>, sep: string)
    requires a != [] && b != []
    ensures Join(a + b, sep) == Join(a, sep) + sep + Join(b, sep)
  {
    if |a| == 1 {
      assert (a + b)[1..] == b;
    } else {
      JoinAppend(a[1..], b, sep);
      assert (a + b)[1..] == a[1..] + b;
    }
  }

  /** `list(text)`: every character as a one-character string. */
  function Chars(text: string): (ps: seq<string>)
    ensures |ps| == |text|
    ensures forall k :: 0 <= k < |text| ==> ps[k] == [text[k]]
  {
    seq(|text|, k requires 0 <= k < |text| => [text[k]])
  }

  /** Joining the characters with nothing between them gives the text back. */
  lemma {:induction false} JoinChars(text: string)
    ensures Join(Chars(text), []) == text
  {
    if |text| > 1 {
      JoinChars(text[1..]);
      assert Chars(text)[1..] == Chars(text[1..]);
      assert text == [text[0]] + text[1..];
    }
  }
}
