/** The semantic boundary hierarchy of `src/semchunk/boundaries.py`: start offsets
    of paragraphs, sentences, subparts and tokens, made subset-closed from coarse
    to fine, and re-based onto a window of the text. */
module Boundaries {
  import opened Scan

  datatype Option<T> = None | Some(value: T)

  /** The conditions the source raises. */
  datatype Error =
    | IndexOutOfRange                 // `delimiters[0]` on an empty delimiter list
    | AssertionFailed                 // delimiters of different widths
    | UnknownChunkType(name: string)  // a chunk type name outside the four known ones

  datatype Result<T> = Ok(value: T) | Err(error: Error)

  /** A document: plain text, or text annotated with the start offsets of its
      sentences and of its tokens. */
  datatype Document =
    | PlainText(text: string)
    | Annotated(text: string, sentStarts: seq<int>, tokenStarts: seq<int>)

  // ---------------------------------------------------------------------------
  // Offset lists

  predicate StrictlyIncreasing(s: seq<int>)
  {
    forall a, b :: 0 <= a < b < |s| ==> s[a] < s[b]
  }

  predicate Sorted(s: seq<int>)
  {
    forall a, b :: 0 <= a < b < |s| ==> s[a] <= s[b]
  }

  predicate NoDuplicates(s: seq<int>)
  {
    forall a, b :: 0 <= a < b < |s| ==> s[a] != s[b]
  }

  /** The offsets of a level, as a set. */
  function Elems(s: seq<int>): set<int>
  {
    set x | x in s
  }

  // ---------------------------------------------------------------------------
  // get_split_offsets

  /** Every delimiter has the width of the first. */
  predicate UniformWidth(delims: seq<string>)
    requires |delims| > 0
  {
    forall k :: 1 <= k < |delims| ==> |delims[k]| == |delims[0]|
  }

  /** Start offset of every piece, when each piece is followed by a delimiter of
      width `width` and the first piece starts at `start`. */
  function Offsets(pieces: seq<string>, width: nat, start: int): (os: seq<int>)
    ensures |os| == |pieces|
    ensures pieces != [] ==> os[0] == start
  {
    if pieces == [] then []
    else [start] + Offsets(pieces[1..], width, start + |pieces[0]| + width)
  }

  /** What `get_split_offsets(text, delims)` returns or raises. */
  function SplitOffsets(text: string, delims: seq<string>): (r: Result<seq<int>>)
    ensures r.Ok? ==> |r.value| >= 1 && r.value[0] == 0
  {
    if |delims| == 0 then Err(IndexOutOfRange)
    else if !UniformWidth(delims) then Err(AssertionFailed)
    else Ok(Offsets(Split(text, delims, |delims[0]|), |delims[0]|, 0))
  }

  /** `get_split_offsets`: reads `delimiters[0]`, asserts the widths agree,
      then walks the pieces, recording each start and advancing past the piece
      and the delimiter after it. */
  method GetSplitOffsets(text: string, delimiters: seq<string>) returns (r: Result<seq<int>>)
    ensures r == SplitOffsets(text, delimiters)
  {
    if |delimiters| == 0 {
      return Err(IndexOutOfRange);
    }
    var width := |delimiters[0]|;
    if !(forall k :: 1 <= k < |delimiters| ==> |delimiters[k]| == width) {
      return Err(AssertionFailed);
    }
    var pieces := Split(text, delimiters, width);
    var startChar := 0;
    var startChars := [];
    for k := 0 to |pieces|
      invariant startChars + Offsets(pieces[k..], width, startChar) == Offsets(pieces, width, 0)
    {
      assert pieces[k..][1..] == pieces[k + 1..];
      startChars := startChars + [startChar];
      startChar := startChar + |pieces[k]| + width;
    }
    assert pieces[|pieces|..] == [];
    assert startChars + [] == startChars;
    return Ok(startChars);
  }

  /** The offsets of the pieces of `text[i..]`, read off the scan directly: `i`,
      then the offset after each leftmost match. */
  function ScanOffsets(text: string, delims: seq<string>, width: nat, i: nat): seq<int>
    requires width > 0 && i <= |text|
    decreases |text| - i
  {
    var j := NextMatch(text, delims, width, i);
    if j == |text| then [i] else [i] + ScanOffsets(text, delims, width, j + width)
  }

  /** The running offsets of the pieces are the scan's positions. */
  lemma {:induction false} OffsetsOfPieces(text: string, delims: seq<string>, width: nat, i: nat)
    requires width > 0 && i <= |text|
    ensures Offsets(PiecesFrom(text, delims, width, i), width, i) == ScanOffsets(text, delims, width, i)
    decreases |text| - i
  {
    var j := NextMatch(text, delims, width, i);
    if j < |text| {
      OffsetsOfPieces(text, delims, width, j + width);
      var ps := PiecesFrom(text, delims, width, i);
      assert ps[1..] == PiecesFrom(text, delims, width, j + width);
    }
  }

  /** The offsets start at `i`, increase strictly and never pass the end. */
  lemma {:induction false} ScanOffsetsIncrease(text: string, delims: seq<string>, width: nat, i: nat)
    requires width > 0 && i <= |text|
    ensures var os := ScanOffsets(text, delims, width, i);
            && |os| > 0 && os[0] == i && StrictlyIncreasing(os)
            && forall k :: 0 <= k < |os| ==> i <= os[k] <= |text|
    decreases |text| - i
  {
    var j := NextMatch(text, delims, width, i);
    if j < |text| {
      ScanOffsetsIncrease(text, delims, width, j + width);
      var os := ScanOffsets(text, delims, width, i);
      var ros := ScanOffsets(text, delims, width, j + width);
      assert os == [i] + ros;
      forall k | 0 < k < |os| ensures os[k] == ros[k - 1] && i < os[k] <= |text| {
      }
    }
  }

  /** `b` comes right after the leftmost match at or after `a`. */
  predicate LeftmostStep(text: string, delims: seq<string>, width: nat, a: int, b: int)
  {
    width > 0 && 0 <= a <= |text| && NextMatch(text, delims, width, a) < |text|
    && NextMatch(text, delims, width, a) + width == b
  }

  /** No match starts at or after `a`. */
  predicate NoMatchFrom(text: string, delims: seq<string>, width: nat, a: int)
  {
    width > 0 && 0 <= a <= |text| && NextMatch(text, delims, width, a) == |text|
  }

  /** Each offset after the first comes right after the leftmost match following
      the previous offset; after the last offset there is no match. */
  lemma {:induction false} ScanOffsetsLeftmost(text: string, delims: seq<string>, width: nat, i: nat)
    requires width > 0 && i <= |text|
    ensures var os := ScanOffsets(text, delims, width, i);
            && |os| > 0
            && (forall k :: 0 < k < |os| ==> LeftmostStep(text, delims, width, os[k - 1], os[k]))
            && NoMatchFrom(text, delims, width, os[|os| - 1])
    decreases |text| - i
  {
    var j := NextMatch(text, delims, width, i);
    if j < |text| {
      ScanOffsetsLeftmost(text, delims, width, j + width);
      var os := ScanOffsets(text, delims, width, i);
      var ros := ScanOffsets(text, delims, width, j + width);
      assert os == [i] + ros;
      assert ros[0] == j + width;
      assert os[0] == i && os[1] == j + width;
      assert LeftmostStep(text, delims, width, i, j + width);
      forall k | 0 < k < |os| ensures LeftmostStep(text, delims, width, os[k - 1], os[k]) {
        if k > 1 {
          assert os[k - 1] == ros[k - 2] && os[k] == ros[k - 1];
        }
      }
    }
  }

  /** Offsets from non-empty delimiters of one width form a well-formed level. */
  lemma SplitOffsetsLevel(text: string, delims: seq<string>)
    requires SplitOffsets(text, delims).Ok? && |delims[0]| > 0
    ensures WellFormedLevel(SplitOffsets(text, delims).value, |text|)
  {
    SplitOffsetsWellFormed(text, delims);
  }

  /** `os` starts at 0, increases strictly, stays within the text, each later
      offset is immediately preceded by a delimiter that starts at or after the
      previous offset, and no delimiter starts between an offset and the
      delimiter that ends its piece (nor after the last offset). */
  ghost predicate LeftmostOffsets(text: string, delims: seq<string>, w: nat, os: seq<int>)
  {
    && |os| >= 1 && os[0] == 0 && StrictlyIncreasing(os)
    && (forall k :: 0 <= k < |os| ==> 0 <= os[k] <= |text|)
    && (forall k :: 0 < k < |os| ==> MatchAt(text, delims, w, os[k] - w))
    && (forall k :: 0 < k < |os| ==> os[k - 1] <= os[k] - w)
    && (forall k, m :: 0 < k < |os| && os[k - 1] <= m < os[k] - w ==> !MatchAt(text, delims, w, m))
    && (forall m :: os[|os| - 1] <= m ==> !MatchAt(text, delims, w, m))
  }

  /** With non-empty delimiters of one width, the offsets are `LeftmostOffsets`. */
  lemma SplitOffsetsWellFormed(text: string, delims: seq<string>)
    requires |delims| > 0 && UniformWidth(delims) && |delims[0]| > 0
    ensures SplitOffsets(text, delims).Ok?
    ensures LeftmostOffsets(text, delims, |delims[0]|, SplitOffsets(text, delims).value)
  {
    var w := |delims[0]|;
    var os := SplitOffsets(text, delims).value;
    assert os == ScanOffsets(text, delims, w, 0) by {
      OffsetsOfPieces(text, delims, w, 0);
    }
    ScanWellFormed(text, delims, w, os);
  }

  /** The scan's offsets from 0 are `LeftmostOffsets`. */
  lemma ScanWellFormed(text: string, delims: seq<string>, w: nat, os: seq<int>)
    requires w > 0 && os == ScanOffsets(text, delims, w, 0)
    ensures LeftmostOffsets(text, delims, w, os)
  {
    ScanOffsetsIncrease(text, delims, w, 0);
    ScanOffsetsLeftmost(text, delims, w, 0);
    StepsAreMatches(text, delims, w, os);
  }

  /** `LeftmostOffsets` pins the offsets down: two lists that satisfy it agree
      position by position. */
  lemma {:induction false} LeftmostAgree(text: string, delims: seq<string>, w: nat, os1: seq<int>, os2: seq<int>, k: nat)
    requires LeftmostOffsets(text, delims, w, os1) && LeftmostOffsets(text, delims, w, os2)
    requires k < |os1| && k < |os2|
    ensures os1[k] == os2[k]
    decreases k
  {
    if k > 0 {
      LeftmostAgree(text, delims, w, os1, os2, k - 1);
      var m1, m2 := os1[k] - w, os2[k] - w;
      assert MatchAt(text, delims, w, m1) && MatchAt(text, delims, w, m2);
      assert m1 < m2 ==> !MatchAt(text, delims, w, m1);
      assert m2 < m1 ==> !MatchAt(text, delims, w, m2);
    }
  }

  /** Two lists of `LeftmostOffsets` that agree at position `k` either both
      go on past it or both stop there. */
  lemma LeftmostExtends(text: string, delims: seq<string>, w: nat, os1: seq<int>, os2: seq<int>, k: nat)
    requires LeftmostOffsets(text, delims, w, os1) && LeftmostOffsets(text, delims, w, os2)
    requires k < |os1| && k < |os2| && os1[k] == os2[k]
    ensures k + 1 < |os1| <==> k + 1 < |os2|
  {
    if k + 1 < |os2| {
      assert MatchAt(text, delims, w, os2[k + 1] - w) && os2[k] <= os2[k + 1] - w;
    }
    if k + 1 < |os1| {
      assert MatchAt(text, delims, w, os1[k + 1] - w) && os1[k] <= os1[k + 1] - w;
    }
  }

  /** There is only one list of `LeftmostOffsets` for a text: the one the scan
      produces. */
  lemma LeftmostOffsetsUnique(text: string, delims: seq<string>, w: nat, os1: seq<int>, os2: seq<int>)
    requires LeftmostOffsets(text, delims, w, os1) && LeftmostOffsets(text, delims, w, os2)
    ensures os1 == os2
  {
    var n := if |os1| < |os2| then |os1| else |os2|;
    LeftmostAgree(text, delims, w, os1, os2, n - 1);
    LeftmostExtends(text, delims, w, os1, os2, n - 1);
    forall k | 0 <= k < |os1| ensures os1[k] == os2[k] {
      LeftmostAgree(text, delims, w, os1, os2, k);
    }
  }

  /** Offsets that each follow the leftmost match after the previous one sit
      right after a match, and no match is skipped. */
  lemma StepsAreMatches(text: string, delims: seq<string>, w: nat, os: seq<int>)
    requires |os| > 0
    requires forall k :: 0 < k < |os| ==> LeftmostStep(text, delims, w, os[k - 1], os[k])
    requires NoMatchFrom(text, delims, w, os[|os| - 1])
    ensures forall k :: 0 < k < |os| ==> MatchAt(text, delims, w, os[k] - w)
    ensures forall k :: 0 < k < |os| ==> os[k - 1] <= os[k] - w
    ensures forall k, m :: 0 < k < |os| && os[k - 1] <= m < os[k] - w ==> !MatchAt(text, delims, w, m)
    ensures forall m :: os[|os| - 1] <= m ==> !MatchAt(text, delims, w, m)
  {
    forall k | 0 < k < |os| ensures MatchAt(text, delims, w, os[k] - w) && os[k - 1] <= os[k] - w {
      assert LeftmostStep(text, delims, w, os[k - 1], os[k]);
    }
    forall k, m | 0 < k < |os| && os[k - 1] <= m < os[k] - w ensures !MatchAt(text, delims, w, m) {
      assert LeftmostStep(text, delims, w, os[k - 1], os[k]);
    }
    forall m | os[|os| - 1] <= m ensures !MatchAt(text, delims, w, m) {
      assert NoMatchFrom(text, delims, w, os[|os| - 1]);
    }
  }



  /** With non-empty delimiters, a single offset `[0]` comes out exactly when no
      delimiter occurs in the text. */
  lemma SplitOffsetsSingleIffNoDelimiter(text: string, delims: seq<string>)
    requires |delims| > 0 && UniformWidth(delims) && |delims[0]| > 0
    ensures SplitOffsets(text, delims) == Ok([0]) <==> forall j :: !MatchAt(text, delims, |delims[0]|, j)
  {
    var w := |delims[0]|;
    OffsetsOfPieces(text, delims, w, 0);
    if forall j :: !MatchAt(text, delims, w, j) {
      assert NextMatch(text, delims, w, 0) == |text|;
    } else {
      var j :| MatchAt(text, delims, w, j);
      assert NextMatch(text, delims, w, 0) <= j;
      assert |ScanOffsets(text, delims, w, 0)| > 1;
    }
  }

  /** Offsets of pieces that (but for the last) are single characters, joined by
      zero-width delimiters. */
  lemma {:induction false} UnitPieceOffsets(ps: seq<string>, start: int)
    requires forall k :: 0 <= k < |ps| - 1 ==> |ps[k]| == 1
    ensures Offsets(ps, 0, start) == seq(|ps|, k => start + k)
  {
    if ps != [] {
      UnitPieceOffsets(ps[1..], start + |ps[0]|);
      if |ps| > 1 {
        assert |ps[0]| == 1;
      }
    }
  }

  /** Zero-width delimiters match before every character and at the end, so the
      offsets are 0 followed by every position 0..|text|. */
  lemma SplitOffsetsZeroWidth(text: string, delims: seq<string>)
    requires |delims| > 0 && UniformWidth(delims) && |delims[0]| == 0
    ensures SplitOffsets(text, delims) == Ok([0] + seq(|text| + 1, k => k))
  {
    var ps := ZeroWidthPieces(text);
    assert |delims[0]| == 0;
    assert SplitOffsets(text, delims) == Ok(Offsets(ps, 0, 0));
    assert forall k :: 0 <= k < |ps[1..]| - 1 ==> |ps[1..][k]| == 1;
    UnitPieceOffsets(ps[1..], 0);
    assert Offsets(ps, 0, 0) == [0] + Offsets(ps[1..], 0, 0);
    assert seq(|ps[1..]|, k => 0 + k) == seq(|text| + 1, k => k);
  }

  /** Delimiters of different widths are refused, and so is an empty list. */
  lemma SplitOffsetsErrors(text: string, delims: seq<string>)
    ensures SplitOffsets(text, delims).Err? <==>
            |delims| == 0 || exists k :: 1 <= k < |delims| && |delims[k]| != |delims[0]|
    ensures |delims| == 0 ==> SplitOffsets(text, delims) == Err(IndexOutOfRange)
    ensures |delims| > 0 && !UniformWidth(delims) ==> SplitOffsets(text, delims) == Err(AssertionFailed)
  {
  }

  /** Where the sentence delimiters occur in `"a. b? c! "`. */
  lemma ExampleMatches()
    ensures var t, d := "a. b? c! ", [". ", "? ", "! "];
            && MatchAt(t, d, 2, 1) && MatchAt(t, d, 2, 4) && MatchAt(t, d, 2, 7)
            && !MatchAt(t, d, 2, 0) && !MatchAt(t, d, 2, 3) && !MatchAt(t, d, 2, 6)
  {
    var t := "a. b? c! ";
    assert t[1..3] == ". " && t[4..6] == "? " && t[7..9] == "! ";
    assert t[0..2][0] == 'a' && t[3..5][0] == 'b' && t[6..8][0] == 'c';
  }

  lemma ExampleScan()
    ensures ScanOffsets("a. b? c! ", [". ", "? ", "! "], 2, 0) == [0, 3, 6, 9]
  {
    var t, d := "a. b? c! ", [". ", "? ", "! "];
    ExampleMatches();
    assert NextMatch(t, d, 2, 1) == 1 && NextMatch(t, d, 2, 0) == 1;
    assert NextMatch(t, d, 2, 4) == 4 && NextMatch(t, d, 2, 3) == 4;
    assert NextMatch(t, d, 2, 7) == 7 && NextMatch(t, d, 2, 6) == 7;
    assert NextMatch(t, d, 2, 9) == 9;
    assert ScanOffsets(t, d, 2, 9) == [9];
    assert ScanOffsets(t, d, 2, 6) == [6, 9];
    assert ScanOffsets(t, d, 2, 3) == [3, 6, 9];
  }

  /** The sentence delimiters give `[0, 3, 6, 9]` on `"a. b? c! "`; delimiters
      of widths 2 and 1 are refused. */
  lemma SplitOffsetsExample()
    ensures SplitOffsets("a. b? c! ", [". ", "? ", "! "]) == Ok([0, 3, 6, 9])
    ensures SplitOffsets("a. b? c! ", ["ab", "c"]) == Err(AssertionFailed)
  {
    assert !UniformWidth(["ab", "c"]) by {
      assert |["ab", "c"][1]| != |["ab", "c"][0]|;
    }
    var t, d := "a. b? c! ", [". ", "? ", "! "];
    assert UniformWidth(d) && |d[0]| == 2;
    ExampleScan();
    OffsetsOfPieces(t, d, 2, 0);
    assert Split(t, d, 2) == PiecesFrom(t, d, 2, 0);
  }

  // ---------------------------------------------------------------------------
  // bisect.insort_left, used to keep each level sorted

  /** The binary search of `bisect_left`: on a sorted list, the first position
      whose element is not below `x`. */
  method BisectLeft(a: seq<int>, x: int) returns (lo: nat)
    ensures lo <= |a|
    ensures Sorted(a) ==> (forall k :: 0 <= k < lo ==> a[k] < x) && (forall k :: lo <= k < |a| ==> x <= a[k])
  {
    lo := 0;
    var hi := |a|;
    while lo < hi
      invariant lo <= hi <= |a|
      invariant Sorted(a) ==> (forall k :: 0 <= k < lo ==> a[k] < x) && (forall k :: hi <= k < |a| ==> x <= a[k])
    {
      var mid := (lo + hi) / 2;
      if a[mid] < x {
        lo := mid + 1;
      } else {
        hi := mid;
      }
    }
  }

  /** Inserting `x` at position `p` adds `x` to the elements. */
  lemma InsertElems(a: seq<int>, p: nat, x: int)
    requires p <= |a|
    ensures Elems(a[..p] + [x] + a[p..]) == Elems(a) + {x}
  {
    var r := a[..p] + [x] + a[p..];
    assert a == a[..p] + a[p..];
    forall y | y in Elems(r) ensures y in Elems(a) + {x} {
      var k :| 0 <= k < |r| && r[k] == y;
      if k != p {
        assert y == a[if k < p then k else k - 1];
      }
    }
    forall y | y in Elems(a) ensures y in Elems(r) {
      var k :| 0 <= k < |a| && a[k] == y;
      assert r[if k < p then k else k + 1] == y;
    }
    assert r[p] == x;
  }

  /** Inserting `x` where everything before is below it and everything after is
      not keeps the ordering, and keeps it strict when `x` is new. */
  lemma InsertOrdered(a: seq<int>, p: nat, x: int)
    requires p <= |a|
    requires forall k :: 0 <= k < p ==> a[k] < x
    requires forall k :: p <= k < |a| ==> x <= a[k]
    ensures Sorted(a) ==> Sorted(a[..p] + [x] + a[p..])
    ensures StrictlyIncreasing(a) && x !in a ==> StrictlyIncreasing(a[..p] + [x] + a[p..])
  {
    var r := a[..p] + [x] + a[p..];
    assert forall k :: 0 <= k < |r| ==> r[k] == if k < p then a[k] else if k == p then x else a[k - 1];
    if x !in a {
      assert forall k :: 0 <= k < |a| ==> a[k] != x;
    }
  }

  /** Inserting a new element anywhere keeps the elements distinct. */
  lemma InsertFresh(a: seq<int>, p: nat, x: int)
    requires p <= |a| && NoDuplicates(a) && x !in a
    ensures NoDuplicates(a[..p] + [x] + a[p..])
  {
    var r := a[..p] + [x] + a[p..];
    assert forall k :: 0 <= k < |r| ==> r[k] == if k < p then a[k] else if k == p then x else a[k - 1];
    assert forall k :: 0 <= k < |a| ==> a[k] != x;
  }

  /** `r` is `a` with `x` inserted at position `p`, which on a sorted `a` is
      the `bisect_left` position of `x`. */
  predicate InsertedAt(a: seq<int>, x: int, p: int, r: seq<int>)
  {
    && 0 <= p <= |a|
    && r == a[..p] + [x] + a[p..]
    && (Sorted(a) ==> (forall k :: 0 <= k < p ==> a[k] < x) && (forall k :: p <= k < |a| ==> x <= a[k]))
  }

  /** `r` is `a` with `x` inserted at some position, the `bisect_left` one when
      `a` is sorted. */
  ghost predicate Inserted(a: seq<int>, x: int, r: seq<int>)
  {
    exists p :: InsertedAt(a, x, p, r)
  }

  /** Inserts `x` at the `bisect_left` position: `x` added once, nothing else
      moved, ordering kept. */
  method InsortLeft(a: seq<int>, x: int) returns (r: seq<int>)
    ensures Inserted(a, x, r)
    ensures multiset(r) == multiset(a) + multiset{x}
    ensures |r| == |a| + 1 && Elems(r) == Elems(a) + {x}
    ensures Sorted(a) ==> Sorted(r)
    ensures StrictlyIncreasing(a) && x !in a ==> StrictlyIncreasing(r)
    ensures NoDuplicates(a) && x !in a ==> NoDuplicates(r)
  {
    var p := BisectLeft(a, x);
    r := a[..p] + [x] + a[p..];
    assert InsertedAt(a, x, p, r);
    assert a == a[..p] + a[p..];
    InsertElems(a, p, x);
    if Sorted(a) {
      InsertOrdered(a, p, x);
    }
    if NoDuplicates(a) && x !in a {
      InsertFresh(a, p, x);
    }
  }

  // ---------------------------------------------------------------------------
  // Propagation of coarse boundaries into every finer level

  /** Every offset of levels `0..m-1`. */
  function UnionBelow(levels: seq<seq<int>>, m: nat): set<int>
    requires m <= |levels|
  {
    if m == 0 then {} else UnionBelow(levels, m - 1) + Elems(levels[m - 1])
  }

  /** More levels, more offsets. */
  lemma {:induction false} UnionBelowMonotone(levels: seq<seq<int>>, a: nat, b: nat)
    requires a <= b <= |levels|
    ensures UnionBelow(levels, a) <= UnionBelow(levels, b)
    decreases b
  {
    if a < b {
      UnionBelowMonotone(levels, a, b - 1);
    }
  }

  /** The offsets of two disjoint sets, counted once each. */
  lemma DisjointUnion(a: set<int>, b: set<int>)
    requires a !! b
    ensures multiset(a + b) == multiset(a) + multiset(b)
  {
  }

  /** `out` is `raw` after propagation: level `j` holds exactly the offsets of
      levels `0..j` of `raw`, and each level keeps the order and distinctness it
      had. */
  ghost predicate Propagated(raw: seq<seq<int>>, out: seq<seq<int>>)
  {
    && |out| == |raw|
    && (forall j :: 0 <= j < |out| ==> Elems(out[j]) == UnionBelow(raw, j + 1))
    && (forall j :: 0 <= j < |out| && Sorted(raw[j]) ==> Sorted(out[j]))
    && (forall j :: 0 <= j < |out| && StrictlyIncreasing(raw[j]) ==> StrictlyIncreasing(out[j]))
    && (forall j :: 0 <= j < |out| && NoDuplicates(raw[j]) ==> NoDuplicates(out[j]))
  }

  /** The counts of the offsets after propagation: level `j` holds its own raw
      offsets, repetitions included, and each offset of a coarser level that it
      lacked exactly once. */
  ghost predicate PropagatedCounts(raw: seq<seq<int>>, out: seq<seq<int>>)
    requires |out| == |raw|
  {
    forall j :: 0 <= j < |out| ==> Merged(raw[j], UnionBelow(raw, j), out[j])
  }

  /** The level keeps every property it had in `raw`. */
  ghost predicate KeepsShape(raw: seq<int>, s: seq<int>)
  {
    && (Sorted(raw) ==> Sorted(s))
    && (StrictlyIncreasing(raw) ==> StrictlyIncreasing(s))
    && (NoDuplicates(raw) ==> NoDuplicates(s))
  }

  /** `cur` is `base` with every offset of `seen` that `base` lacks added once. */
  ghost predicate Merged(base: seq<int>, seen: set<int>, cur: seq<int>)
  {
    && Elems(cur) == Elems(base) + seen
    && multiset(cur) == multiset(base) + multiset(seen - Elems(base))
  }

  /** Inserting an offset the level lacks records it as merged. */
  lemma MergedInsert(base: seq<int>, seen: set<int>, cur: seq<int>, b: int, ins: seq<int>)
    requires Merged(base, seen, cur) && b !in cur
    requires Elems(ins) == Elems(cur) + {b} && multiset(ins) == multiset(cur) + multiset{b}
    ensures Merged(base, seen + {b}, ins)
  {
    assert b !in Elems(cur);
    DisjointUnion(seen - Elems(base), {b});
    assert (seen + {b}) - Elems(base) == (seen - Elems(base)) + {b};
  }

  /** An offset the level already holds changes nothing. */
  lemma MergedPresent(base: seq<int>, seen: set<int>, cur: seq<int>, b: int)
    requires Merged(base, seen, cur) && b in cur
    ensures Merged(base, seen + {b}, cur)
  {
    assert b in Elems(cur);
    assert (seen + {b}) - Elems(base) == seen - Elems(base);
  }

  /** Merging `s1` and then `s2` is merging their union. */
  lemma MergedTwice(base: seq<int>, s1: set<int>, mid: seq<int>, s2: set<int>, cur: seq<int>)
    requires Merged(base, s1, mid) && Merged(mid, s2, cur)
    ensures Merged(base, s1 + s2, cur)
  {
    DisjointUnion(s1 - Elems(base), s2 - (Elems(base) + s1));
    assert (s1 - Elems(base)) + (s2 - (Elems(base) + s1)) == (s1 + s2) - Elems(base);
  }

  /** The body of the innermost loop: `b` is inserted with `insort_left` unless
      the level already holds it. */
  method InsertIfMissing(cur: seq<int>, b: int, ghost base: seq<int>, ghost seen: set<int>, ghost raw: seq<int>)
    returns (ins: seq<int>)
    requires Merged(base, seen, cur) && KeepsShape(raw, cur)
    ensures Merged(base, seen + {b}, ins) && KeepsShape(raw, ins)
  {
    if b !in cur {
      ins := InsortLeft(cur, b);
      MergedInsert(base, seen, cur, b, ins);
    } else {
      ins := cur;
      MergedPresent(base, seen, cur, b);
    }
  }

  /** Inserts every offset of level `src` that level `dst` lacks into `dst`. */
  method MergeLevel(levels: seq<seq<int>>, src: nat, dst: nat, ghost raw: seq<int>) returns (out: seq<seq<int>>)
    requires src < dst < |levels|
    requires KeepsShape(raw, levels[dst])
    ensures |out| == |levels| && out[dst := levels[dst]] == levels
    ensures Merged(levels[dst], Elems(levels[src]), out[dst])
    ensures KeepsShape(raw, out[dst])
  {
    var s := levels[src];
    var cur := levels[dst];
    for k := 0 to |s|
      invariant Merged(levels[dst], Elems(s[..k]), cur)
      invariant KeepsShape(raw, cur)
    {
      var b := s[k];
      assert Elems(s[..k + 1]) == Elems(s[..k]) + {b} by {
        assert s[..k + 1] == s[..k] + [b];
      }
      cur := InsertIfMissing(cur, b, levels[dst], Elems(s[..k]), raw);
    }
    assert s[..|s|] == s;
    out := levels[dst := cur];
  }


  /** Level `m` holds the offsets of levels `0..min(m, i)` of `raw` (and of its
      own raw level): the state after the outer loop has handled levels `0..i-1`. */
  ghost predicate StageDone(raw: seq<seq<int>>, out: seq<seq<int>>, i: nat)
    requires |out| == |raw| && i <= |raw|
  {
    forall m :: 0 <= m < |out| ==> Merged(raw[m], UnionBelow(raw, if m < i then m else i), out[m])
  }

  /** Inserts the offsets of level `i` into every finer level. */
  method PropagateLevel(levels: seq<seq<int>>, i: nat, ghost raw: seq<seq<int>>) returns (out: seq<seq<int>>)
    requires i < |levels| == |raw|
    requires forall m :: 0 <= m < |levels| ==> KeepsShape(raw[m], levels[m])
    ensures |out| == |levels|
    ensures forall m :: 0 <= m <= i ==> out[m] == levels[m]
    ensures forall m :: i < m < |out| ==> Merged(levels[m], Elems(levels[i]), out[m])
    ensures forall m :: 0 <= m < |out| ==> KeepsShape(raw[m], out[m])
  {
    out := levels;
    for j := i + 1 to |levels|
      invariant |out| == |levels|
      invariant forall m :: 0 <= m < j ==> m <= i || Merged(levels[m], Elems(levels[i]), out[m])
      invariant forall m :: 0 <= m < |out| ==> (m <= i || j <= m) ==> out[m] == levels[m]
      invariant forall m :: 0 <= m < |out| ==> KeepsShape(raw[m], out[m])
    {
      var next := MergeLevel(out, i, j, raw[j]);
      assert forall m :: 0 <= m < |out| && m != j ==> next[m] == next[j := out[j]][m];
      out := next;
    }
  }

  /** The nested loop that inserts every offset of each level into every finer
      level, coarsest level first. */
  method Propagate(levels: seq<seq<int>>) returns (out: seq<seq<int>>)
    ensures Propagated(levels, out) && PropagatedCounts(levels, out)
  {
    out := levels;
    StageStart(levels);
    if |levels| == 0 {
      StageFinal(levels, out, 0);
      return;
    }
    for i := 0 to |levels| - 1
      invariant |out| == |levels|
      invariant StageDone(levels, out, i)
      invariant forall m :: 0 <= m < |levels| ==> KeepsShape(levels[m], out[m])
    {
      var next := PropagateLevel(out, i, levels);
      StageStep(levels, out, next, i);
      out := next;
    }
    StageFinal(levels, out, |levels| - 1);
  }

  /** Before any merge, every level is its own raw level. */
  lemma StageStart(raw: seq<seq<int>>)
    ensures StageDone(raw, raw, 0)
  {
    forall m | 0 <= m < |raw| ensures Merged(raw[m], UnionBelow(raw, 0), raw[m]) {
      assert UnionBelow(raw, 0) - Elems(raw[m]) == {};
    }
  }

  /** Merging level `i` into every finer level completes stage `i + 1`. */
  lemma StageStep(raw: seq<seq<int>>, out: seq<seq<int>>, next: seq<seq<int>>, i: nat)
    requires i < |raw| == |out| == |next| && StageDone(raw, out, i)
    requires forall m :: 0 <= m <= i ==> next[m] == out[m]
    requires forall m :: i < m < |next| ==> Merged(out[m], Elems(out[i]), next[m])
    ensures StageDone(raw, next, i + 1)
  {
    assert Merged(raw[i], UnionBelow(raw, i), out[i]);
    forall m | 0 <= m < |raw|
      ensures Merged(raw[m], UnionBelow(raw, if m < i + 1 then m else i + 1), next[m])
    {
      if m > i {
        StageLevel(raw, i, out[m], out[i], next[m], m);
      }
    }
  }

  /** Stage `i + 1` for one finer level `m`. */
  lemma StageLevel(raw: seq<seq<int>>, i: nat, cur: seq<int>, coarse: seq<int>, nxt: seq<int>, m: nat)
    requires i < m < |raw|
    requires Merged(raw[m], UnionBelow(raw, i), cur)
    requires Merged(raw[i], UnionBelow(raw, i), coarse)
    requires Merged(cur, Elems(coarse), nxt)
    ensures Merged(raw[m], UnionBelow(raw, i + 1), nxt)
  {
    MergedTwice(raw[m], UnionBelow(raw, i), cur, Elems(coarse), nxt);
    assert UnionBelow(raw, i) + Elems(coarse) == UnionBelow(raw, i + 1);
  }

  /** Once every level coarser than the last is merged, each level holds the
      offsets of all coarser levels. */
  lemma StageFinal(raw: seq<seq<int>>, out: seq<seq<int>>, i: nat)
    requires |raw| == |out| && i <= |raw| && (|raw| > 0 ==> i == |raw| - 1)
    requires StageDone(raw, out, i)
    requires forall m :: 0 <= m < |raw| ==> KeepsShape(raw[m], out[m])
    ensures Propagated(raw, out)
    ensures PropagatedCounts(raw, out)
  {
    forall j | 0 <= j < |out|
      ensures Elems(out[j]) == UnionBelow(raw, j + 1)
      ensures Merged(raw[j], UnionBelow(raw, j), out[j])
    {
      assert j <= i && Merged(raw[j], UnionBelow(raw, j), out[j]);
    }
  }

  /** A sorted sequence is fixed by its multiset of elements. */
  lemma {:induction false} SortedUnique(a: seq<int>, b: seq<int>)
    requires Sorted(a) && Sorted(b) && multiset(a) == multiset(b)
    ensures a == b
    decreases |a|
  {
    if a == [] {
      assert |b| == |multiset(b)| == 0;
    } else {
      assert a[0] in multiset(a);
      HeadIsLeast(b, a[0]);
      HeadIsLeast(a, b[0]);
      assert a[0] == b[0];
      Tail(a);
      Tail(b);
      SortedUnique(a[1..], b[1..]);
      assert a == [a[0]] + a[1..] && b == [b[0]] + b[1..];
    }
  }

  /** The head of a sorted sequence is its least element. */
  lemma HeadIsLeast(a: seq<int>, y: int)
    requires Sorted(a) && y in multiset(a)
    ensures a != [] && a[0] <= y
  {
    var k :| 0 <= k < |a| && a[k] == y;
  }

  /** The tail of a sorted sequence is sorted and holds the rest of its multiset. */
  lemma Tail(a: seq<int>)
    requires Sorted(a) && a != []
    ensures Sorted(a[1..]) && multiset(a[1..]) == multiset(a) - multiset{a[0]}
  {
    assert a == [a[0]] + a[1..];
  }

  /** On sorted raw levels the result of propagation is fully determined:
      the offsets with their counts, in sorted order. */
  lemma PropagatedUnique(raw: seq<seq<int>>, out1: seq<seq<int>>, out2: seq<seq<int>>)
    requires forall j :: 0 <= j < |raw| ==> Sorted(raw[j])
    requires Propagated(raw, out1) && PropagatedCounts(raw, out1)
    requires Propagated(raw, out2) && PropagatedCounts(raw, out2)
    ensures out1 == out2
  {
    forall j | 0 <= j < |raw| ensures out1[j] == out2[j] {
      assert Merged(raw[j], UnionBelow(raw, j), out1[j]) && Merged(raw[j], UnionBelow(raw, j), out2[j]);
      SortedUnique(out1[j], out2[j]);
    }
  }

  /** After propagation every coarser level is a subset of every finer one. */
  lemma PropagatedSubsetClosed(raw: seq<seq<int>>, out: seq<seq<int>>)
    requires Propagated(raw, out)
    ensures forall i, j :: 0 <= i < j < |out| ==> Elems(out[i]) <= Elems(out[j])
  {
    forall i, j | 0 <= i < j < |out| ensures Elems(out[i]) <= Elems(out[j]) {
      UnionBelowMonotone(raw, i + 1, j + 1);
    }
  }

  /** A level of the offsets of a text of length `n`: strictly increasing, from 0,
      never past `n`. */
  predicate WellFormedLevel(s: seq<int>, n: int)
  {
    && |s| > 0 && s[0] == 0
    && StrictlyIncreasing(s)
    && (forall k :: 0 <= k < |s| ==> 0 <= s[k] <= n)
  }

  /** Propagation keeps well-formed levels well formed. */
  lemma PropagatedWellFormed(raw: seq<seq<int>>, out: seq<seq<int>>, n: int)
    requires Propagated(raw, out)
    requires forall j :: 0 <= j < |raw| ==> WellFormedLevel(raw[j], n)
    ensures forall j :: 0 <= j < |out| ==> WellFormedLevel(out[j], n)
  {
    forall j | 0 <= j < |out| ensures WellFormedLevel(out[j], n) {
      UnionBelowBounded(raw, j + 1, n);
      UnionBelowMonotone(raw, 1, j + 1);
      assert 0 in UnionBelow(raw, 1) by {
        assert raw[0][0] == 0;
      }
      var s := out[j];
      assert StrictlyIncreasing(s);
      assert forall k :: 0 <= k < |s| ==> s[k] in Elems(s);
      assert 0 in Elems(s);
      var z :| 0 <= z < |s| && s[z] == 0;
      assert s[0] <= s[z];
      assert s[0] in Elems(s);
    }
  }

  /** The offsets of well-formed levels stay within the text. */
  lemma {:induction false} UnionBelowBounded(raw: seq<seq<int>>, m: nat, n: int)
    requires m <= |raw|
    requires forall j :: 0 <= j < |raw| ==> WellFormedLevel(raw[j], n)
    ensures forall x :: x in UnionBelow(raw, m) ==> 0 <= x <= n
  {
    if m > 0 {
      UnionBelowBounded(raw, m - 1, n);
    }
  }

  // ---------------------------------------------------------------------------
  // get_semantic_bounderies

  /** The four granularities, coarsest first in the default order. */
  datatype ChunkType = Paragraphs | Sentences | Subparts | Tokens

  /** The granularity a name stands for, if any. */
  function ParseChunkType(name: string): Option<ChunkType>
  {
    if name == "paragraphs" then Some(Paragraphs)
    else if name == "sentences" then Some(Sentences)
    else if name == "subparts" then Some(Subparts)
    else if name == "tokens" then Some(Tokens)
    else None
  }

  const ParagraphDelimiters: seq<string> := ["\n\n"]
  const SubpartDelimiters: seq<string> := [": ", "; ", ", "]
  const DefaultChunkTypes: seq<string> := ["paragraphs", "sentences", "subparts", "tokens"]
  const DefaultSentenceDelimiters: seq<string> := [". ", "? ", "! "]
  const DefaultTokenDelimiters: seq<string> := [" "]

  /** Sentence and token starts: from the annotation, or for plain text from the
      heuristic delimiters (the sentence delimiters are tried first). */
  function SentenceAndTokenStarts(doc: Document, sentenceDelims: seq<string>, tokenDelims: seq<string>): (r: Result<(seq<int>, seq<int>)>)
    ensures doc.PlainText? && r.Ok? ==> r.value.0 != [] && r.value.0[0] == 0 && r.value.1 != [] && r.value.1[0] == 0
    ensures r.Err? ==> doc.PlainText? && (SplitOffsets(doc.text, sentenceDelims).Err? || SplitOffsets(doc.text, tokenDelims).Err?)
  {
    match doc
    case PlainText(text) =>
      (match SplitOffsets(text, sentenceDelims)
       case Err(e) => Err(e)
       case Ok(sents) =>
         match SplitOffsets(text, tokenDelims)
         case Err(e) => Err(e)
         case Ok(toks) => Ok((sents, toks)))
    case Annotated(_, sents, toks) => Ok((sents, toks))
  }

  /** The offsets one chunk type contributes before propagation. */
  function RawLevel(text: string, t: ChunkType, sents: seq<int>, toks: seq<int>): seq<int>
  {
    match t
    case Paragraphs => Offsets(Split(text, ParagraphDelimiters, 2), 2, 0)
    case Sentences => sents
    case Subparts => Offsets(Split(text, SubpartDelimiters, 2), 2, 0)
    case Tokens => toks
  }

  /** One raw level per requested name, or the first unknown name. */
  function RawLevels(text: string, names: seq<string>, sents: seq<int>, toks: seq<int>): (r: Result<seq<seq<int>>>)
    ensures r.Ok? ==> |r.value| == |names|
    ensures r.Err? ==> r.error.UnknownChunkType? && r.error.name in names && ParseChunkType(r.error.name).None?
  {
    if names == [] then Ok([])
    else match ParseChunkType(names[0])
      case None => Err(UnknownChunkType(names[0]))
      case Some(t) =>
        match RawLevels(text, names[1..], sents, toks)
        case Err(e) => Err(e)
        case Ok(rest) => Ok([RawLevel(text, t, sents, toks)] + rest)
  }

  /** The levels before propagation, or the condition raised while computing them. */
  function RawHierarchy(doc: Document, names: seq<string>, sentenceDelims: seq<string>, tokenDelims: seq<string>): (r: Result<seq<seq<int>>>)
    ensures r.Ok? ==> |r.value| == |names|
  {
    match SentenceAndTokenStarts(doc, sentenceDelims, tokenDelims)
    case Err(e) => Err(e)
    case Ok(st) => RawLevels(doc.text, names, st.0, st.1)
  }

  /** `levels` in front of a result's levels; an error stays as it is. */
  function Prepend(levels: seq<seq<int>>, r: Result<seq<seq<int>>>): Result<seq<seq<int>>>
  {
    match r
    case Err(e) => Err(e)
    case Ok(rest) => Ok(levels + rest)
  }

  /** Prepending twice is prepending once the two lists joined. */
  lemma PrependTwice(a: seq<seq<int>>, b: seq<seq<int>>, r: Result<seq<seq<int>>>)
    ensures Prepend(a, Prepend(b, r)) == Prepend(a + b, r)
  {
    if r.Ok? {
      assert a + (b + r.value) == (a + b) + r.value;
    }
  }

  /** `get_semantic_bounderies`: sentence and token starts first (from the
      annotation, or from the delimiters for plain text), then one raw level per
      requested name, and then propagation.  The result is the raw hierarchy
      propagated, or the condition the source raises. */
  method GetSemanticBoundaries(doc: Document, chunkTypes: seq<string>, sentenceDelims: seq<string>, tokenDelims: seq<string>)
    returns (r: Result<seq<seq<int>>>)
    ensures RawHierarchy(doc, chunkTypes, sentenceDelims, tokenDelims).Err? ==>
            r == Err(RawHierarchy(doc, chunkTypes, sentenceDelims, tokenDelims).error)
    ensures RawHierarchy(doc, chunkTypes, sentenceDelims, tokenDelims).Ok? ==>
            && r.Ok? && Propagated(RawHierarchy(doc, chunkTypes, sentenceDelims, tokenDelims).value, r.value)
            && PropagatedCounts(RawHierarchy(doc, chunkTypes, sentenceDelims, tokenDelims).value, r.value)
  {
    var text := doc.text;
    var sents, toks;
    if doc.PlainText? {
      var s := GetSplitOffsets(text, sentenceDelims);
      if s.Err? {
        return Err(s.error);
      }
      var t := GetSplitOffsets(text, tokenDelims);
      if t.Err? {
        return Err(t.error);
      }
      sents, toks := s.value, t.value;
    } else {
      sents, toks := doc.sentStarts, doc.tokenStarts;
    }
    assert SentenceAndTokenStarts(doc, sentenceDelims, tokenDelims) == Ok((sents, toks));

    assert RawHierarchy(doc, chunkTypes, sentenceDelims, tokenDelims) == RawLevels(text, chunkTypes, sents, toks);
    var raw := BuildLevels(text, chunkTypes, sents, toks);
    if raw.Err? {
      return Err(raw.error);
    }
    var out := Propagate(raw.value);
    return Ok(out);
  }

  /** The loop over the requested chunk types: one raw level per name, or the
      error for the first unknown name. */
  method BuildLevels(text: string, chunkTypes: seq<string>, sents: seq<int>, toks: seq<int>) returns (r: Result<seq<seq<int>>>)
    ensures r == RawLevels(text, chunkTypes, sents, toks)
  {
    assert |ParagraphDelimiters[0]| == 2 && UniformWidth(ParagraphDelimiters);
    assert |SubpartDelimiters[0]| == 2 && UniformWidth(SubpartDelimiters);

    var levels: seq<seq<int>> := [];
    assert chunkTypes[0..] == chunkTypes;
    var all := RawLevels(text, chunkTypes, sents, toks);
    assert Prepend(levels, all) == all by {
      if all.Ok? {
        assert levels + all.value == all.value;
      }
    }
    for k := 0 to |chunkTypes|
      invariant RawLevels(text, chunkTypes, sents, toks) == Prepend(levels, RawLevels(text, chunkTypes[k..], sents, toks))
    {
      assert chunkTypes[k..][1..] == chunkTypes[k + 1..];
      var name := chunkTypes[k];
      var rest := RawLevels(text, chunkTypes[k + 1..], sents, toks);
      var level;
      if name == "paragraphs" {
        var p := GetSplitOffsets(text, ParagraphDelimiters);
        level := p.value;
      } else if name == "sentences" {
        level := sents;
      } else if name == "subparts" {
        var p := GetSplitOffsets(text, SubpartDelimiters);
        level := p.value;
      } else if name == "tokens" {
        level := toks;
      } else {
        assert RawLevels(text, chunkTypes[k..], sents, toks) == Err(UnknownChunkType(name));
        return Err(UnknownChunkType(name));
      }
      assert level == RawLevel(text, ParseChunkType(name).value, sents, toks);
      assert RawLevels(text, chunkTypes[k..], sents, toks) == Prepend([level], rest);
      PrependTwice(levels, [level], rest);
      levels := levels + [level];
    }
    assert chunkTypes[|chunkTypes|..] == [];
    assert levels + [] == levels;
    return Ok(levels);
  }

  /** One level per requested name, in the requested order, each from its own
      source; an unknown name is reported as the first one in the list. */
  lemma {:induction false} RawLevelsShape(text: string, names: seq<string>, sents: seq<int>, toks: seq<int>)
    ensures RawLevels(text, names, sents, toks).Ok? <==> forall k :: 0 <= k < |names| ==> ParseChunkType(names[k]).Some?
    ensures RawLevels(text, names, sents, toks).Ok? ==>
            var raw := RawLevels(text, names, sents, toks).value;
            && |raw| == |names|
            && forall k :: 0 <= k < |names| ==>
                 raw[k] == RawLevel(text, ParseChunkType(names[k]).value, sents, toks)
    ensures RawLevels(text, names, sents, toks).Err? ==>
            exists k :: 0 <= k < |names| && ParseChunkType(names[k]).None?
                        && RawLevels(text, names, sents, toks).error == UnknownChunkType(names[k])
                        && forall m :: 0 <= m < k ==> ParseChunkType(names[m]).Some?
  {
    if names != [] {
      RawLevelsShape(text, names[1..], sents, toks);
      assert forall k :: 1 <= k < |names| ==> names[k] == names[1..][k - 1];
      if ParseChunkType(names[0]).Some? && RawLevels(text, names[1..], sents, toks).Err? {
        var k :| 0 <= k < |names[1..]| && ParseChunkType(names[1..][k]).None?
                 && RawLevels(text, names[1..], sents, toks).error == UnknownChunkType(names[1..][k])
                 && forall m :: 0 <= m < k ==> ParseChunkType(names[1..][m]).Some?;
        assert ParseChunkType(names[k + 1]).None?;
      }
    }
  }

  /** The level a known name stands for: paragraphs and subparts always from
      their fixed delimiters, sentences and tokens from the annotation when there
      is one and from the heuristic delimiters otherwise. */
  lemma RawHierarchyLevels(doc: Document, names: seq<string>, sentenceDelims: seq<string>, tokenDelims: seq<string>)
    requires RawHierarchy(doc, names, sentenceDelims, tokenDelims).Ok?
    ensures var raw := RawHierarchy(doc, names, sentenceDelims, tokenDelims).value;
      && |raw| == |names|
      && forall k :: 0 <= k < |names| ==>
           && (names[k] == "paragraphs" ==> raw[k] == SplitOffsets(doc.text, ParagraphDelimiters).value)
           && (names[k] == "subparts" ==> raw[k] == SplitOffsets(doc.text, SubpartDelimiters).value)
           && (names[k] == "sentences" ==> raw[k] == if doc.Annotated? then doc.sentStarts else SplitOffsets(doc.text, sentenceDelims).value)
           && (names[k] == "tokens" ==> raw[k] == if doc.Annotated? then doc.tokenStarts else SplitOffsets(doc.text, tokenDelims).value)
  {
    var st := SentenceAndTokenStarts(doc, sentenceDelims, tokenDelims).value;
    RawLevelsShape(doc.text, names, st.0, st.1);
  }

  /** The conditions raised: for plain text a bad sentence or token delimiter
      list (sentence first), then the first unknown chunk type name. */
  lemma RawHierarchyErrors(doc: Document, names: seq<string>, sentenceDelims: seq<string>, tokenDelims: seq<string>)
    ensures doc.PlainText? && SplitOffsets(doc.text, sentenceDelims).Err? ==>
            RawHierarchy(doc, names, sentenceDelims, tokenDelims) == Err(SplitOffsets(doc.text, sentenceDelims).error)
    ensures doc.PlainText? && SplitOffsets(doc.text, sentenceDelims).Ok? && SplitOffsets(doc.text, tokenDelims).Err? ==>
            RawHierarchy(doc, names, sentenceDelims, tokenDelims) == Err(SplitOffsets(doc.text, tokenDelims).error)
    ensures SentenceAndTokenStarts(doc, sentenceDelims, tokenDelims).Ok? ==>
            (RawHierarchy(doc, names, sentenceDelims, tokenDelims).Ok? <==>
             forall k :: 0 <= k < |names| ==> names[k] in DefaultChunkTypes)
  {
    if SentenceAndTokenStarts(doc, sentenceDelims, tokenDelims).Ok? {
      var st := SentenceAndTokenStarts(doc, sentenceDelims, tokenDelims).value;
      RawLevelsShape(doc.text, names, st.0, st.1);
      assert forall name :: ParseChunkType(name).Some? <==> name in DefaultChunkTypes;
    }
  }

  /** For plain text and non-empty delimiters, every level produced is strictly
      increasing, starts at 0 and stays within the text; every coarser level is a
      subset of every finer one. */
  lemma PlainTextHierarchyWellFormed(text: string, names: seq<string>, sentenceDelims: seq<string>, tokenDelims: seq<string>, out: seq<seq<int>>)
    requires |sentenceDelims| > 0 && |sentenceDelims[0]| > 0
    requires |tokenDelims| > 0 && |tokenDelims[0]| > 0
    requires RawHierarchy(PlainText(text), names, sentenceDelims, tokenDelims).Ok?
    requires Propagated(RawHierarchy(PlainText(text), names, sentenceDelims, tokenDelims).value, out)
    ensures forall j :: 0 <= j < |out| ==> WellFormedLevel(out[j], |text|)
    ensures forall i, j :: 0 <= i < j < |out| ==> Elems(out[i]) <= Elems(out[j])
  {
    var raw := RawHierarchy(PlainText(text), names, sentenceDelims, tokenDelims).value;
    RawHierarchyLevels(PlainText(text), names, sentenceDelims, tokenDelims);
    assert forall k :: 0 <= k < |names| ==> names[k] in DefaultChunkTypes by {
      RawHierarchyErrors(PlainText(text), names, sentenceDelims, tokenDelims);
    }
    forall j | 0 <= j < |raw| ensures WellFormedLevel(raw[j], |text|) {
      var d := if names[j] == "paragraphs" then ParagraphDelimiters
               else if names[j] == "subparts" then SubpartDelimiters
               else if names[j] == "sentences" then sentenceDelims
               else tokenDelims;
      assert raw[j] == SplitOffsets(text, d).value;
      SplitOffsetsLevel(text, d);
    }
    PropagatedWellFormed(raw, out, |text|);
    PropagatedSubsetClosed(raw, out);
  }

  /** The default call on plain text, with the four default chunk types and
      the default sentence and token delimiters, succeeds with four raw levels,
      and after propagation every level is well formed. */
  lemma DefaultCallWellFormed(text: string, out: seq<seq<int>>)
    ensures RawHierarchy(PlainText(text), DefaultChunkTypes, DefaultSentenceDelimiters, DefaultTokenDelimiters).Ok?
    ensures |RawHierarchy(PlainText(text), DefaultChunkTypes, DefaultSentenceDelimiters, DefaultTokenDelimiters).value| == 4
    ensures Propagated(RawHierarchy(PlainText(text), DefaultChunkTypes, DefaultSentenceDelimiters, DefaultTokenDelimiters).value, out) ==>
            forall j :: 0 <= j < |out| ==> WellFormedLevel(out[j], |text|)
  {
    assert UniformWidth(DefaultSentenceDelimiters) && UniformWidth(DefaultTokenDelimiters);
    RawHierarchyErrors(PlainText(text), DefaultChunkTypes, DefaultSentenceDelimiters, DefaultTokenDelimiters);
    var raw := RawHierarchy(PlainText(text), DefaultChunkTypes, DefaultSentenceDelimiters, DefaultTokenDelimiters);
    if Propagated(raw.value, out) {
      PlainTextHierarchyWellFormed(text, DefaultChunkTypes, DefaultSentenceDelimiters, DefaultTokenDelimiters, out);
    }
  }

  // ---------------------------------------------------------------------------
  // adapt_semantic_boundaries

  /** An original offset in the window's coordinates: moved by the window start,
      and past the inserted span by its length. */
  function Relocate(b: int, chunkCharOffset: int, addedCharsLen: int, addedCharsEndPos: int): (nb: int)
    ensures nb == b - chunkCharOffset || nb == b - chunkCharOffset + addedCharsLen
    ensures addedCharsLen == 0 ==> nb == b - chunkCharOffset
  {
    var nb := b - chunkCharOffset;
    if nb >= addedCharsEndPos then nb + addedCharsLen else nb
  }

  /** The scan of one level: offsets before the window are skipped, those inside
      kept, and the scan stops at the first one past the end. */
  function AdaptLevel(level: seq<int>, chunkCharOffset: int, chunkLen: int, addedCharsLen: int, addedCharsEndPos: int): (r: seq<int>)
    ensures forall k :: 0 <= k < |r| ==> 0 <= r[k] <= chunkLen
  {
    if level == [] then []
    else
      var nb := Relocate(level[0], chunkCharOffset, addedCharsLen, addedCharsEndPos);
      if 0 <= nb <= chunkLen then [nb] + AdaptLevel(level[1..], chunkCharOffset, chunkLen, addedCharsLen, addedCharsEndPos)
      else if nb > chunkLen then []
      else AdaptLevel(level[1..], chunkCharOffset, chunkLen, addedCharsLen, addedCharsEndPos)
  }

  /** Puts a 0 in front unless the level already starts with one. */
  function Anchor(s: seq<int>): (r: seq<int>)
    ensures |r| > 0 && r[0] == 0
    ensures r[1..] == s || r == s
  {
    if s == [] || s[0] != 0 then [0] + s else s
  }

  /** Every level scanned into the window and anchored at 0. */
  function AdaptHierarchy(boundaries: seq<seq<int>>, chunkCharOffset: int, chunkLen: int, addedCharsLen: int, addedCharsEndPos: int): (r: seq<seq<int>>)
    ensures |r| == |boundaries|
    ensures forall i :: 0 <= i < |r| ==> r[i] != [] && r[i][0] == 0
  {
    seq(|boundaries|, i requires 0 <= i < |boundaries| =>
      Anchor(AdaptLevel(boundaries[i], chunkCharOffset, chunkLen, addedCharsLen, addedCharsEndPos)))
  }

  /** The inner loop over one level, with its early exit. */
  method AdaptLevelScan(level: seq<int>, chunkCharOffset: int, chunkLen: int, addedCharsLen: int, addedCharsEndPos: int)
    returns (kept: seq<int>)
    ensures kept == AdaptLevel(level, chunkCharOffset, chunkLen, addedCharsLen, addedCharsEndPos)
  {
    kept := [];
    var k := 0;
    while k < |level|
      invariant k <= |level|
      invariant kept + AdaptLevel(level[k..], chunkCharOffset, chunkLen, addedCharsLen, addedCharsEndPos)
                == AdaptLevel(level, chunkCharOffset, chunkLen, addedCharsLen, addedCharsEndPos)
    {
      assert level[k..][1..] == level[k + 1..];
      var newB := level[k] - chunkCharOffset;
      if newB >= addedCharsEndPos {
        newB := newB + addedCharsLen;
      }
      assert newB == Relocate(level[k], chunkCharOffset, addedCharsLen, addedCharsEndPos);
      if newB >= 0 && newB <= chunkLen {
        kept := kept + [newB];
      } else if newB > chunkLen {
        assert kept + [] == kept;
        return;
      }
      k := k + 1;
    }
    assert level[k..] == [];
    assert kept + [] == kept;
  }

  /** The first loop of `adapt_semantic_boundaries`: every level scanned into
      the window. */
  method AdaptLevels(boundaries: seq<seq<int>>, chunkCharOffset: int, chunkLen: int, addedCharsLen: int, addedCharsEndPos: int)
    returns (adapted: seq<seq<int>>)
    ensures |adapted| == |boundaries|
    ensures forall m :: 0 <= m < |adapted| ==> adapted[m] == AdaptLevel(boundaries[m], chunkCharOffset, chunkLen, addedCharsLen, addedCharsEndPos)
  {
    adapted := [];
    for i := 0 to |boundaries|
      invariant |adapted| == i
      invariant forall m :: 0 <= m < i ==> adapted[m] == AdaptLevel(boundaries[m], chunkCharOffset, chunkLen, addedCharsLen, addedCharsEndPos)
    {
      var kept := AdaptLevelScan(boundaries[i], chunkCharOffset, chunkLen, addedCharsLen, addedCharsEndPos);
      adapted := adapted + [kept];
    }
  }

  /** The second loop of `adapt_semantic_boundaries`: a 0 put in front of each
      level that does not start with one. */
  method AnchorLevels(adapted: seq<seq<int>>) returns (r: seq<seq<int>>)
    ensures |r| == |adapted|
    ensures forall m :: 0 <= m < |r| ==> r[m] == Anchor(adapted[m])
  {
    r := [];
    for i := 0 to |adapted|
      invariant |r| == i
      invariant forall m :: 0 <= m < i ==> r[m] == Anchor(adapted[m])
    {
      var b := adapted[i];
      if |b| == 0 || b[0] != 0 {
        b := [0] + b;
      }
      r := r + [b];
    }
  }

  /** `adapt_semantic_boundaries`: scans every level into the window, then puts
      a 0 in front of each level that does not start with one. */
  method AdaptSemanticBoundaries(boundaries: seq<seq<int>>, chunkCharOffset: int, chunkLen: int, addedCharsLen: int, addedCharsEndPos: int)
    returns (r: seq<seq<int>>)
    ensures r == AdaptHierarchy(boundaries, chunkCharOffset, chunkLen, addedCharsLen, addedCharsEndPos)
  {
    var adapted := AdaptLevels(boundaries, chunkCharOffset, chunkLen, addedCharsLen, addedCharsEndPos);
    r := AnchorLevels(adapted);
  }

  /** One level per input level; every level begins with 0 and, for a window of
      non-negative length, lies within it. */
  lemma AdaptHierarchyAnchoredAndBounded(boundaries: seq<seq<int>>, chunkCharOffset: int, chunkLen: int, addedCharsLen: int, addedCharsEndPos: int)
    requires chunkLen >= 0
    ensures var r := AdaptHierarchy(boundaries, chunkCharOffset, chunkLen, addedCharsLen, addedCharsEndPos);
      && |r| == |boundaries|
      && forall i :: 0 <= i < |r| ==> |r[i]| > 0 && r[i][0] == 0 && forall k :: 0 <= k < |r[i]| ==> 0 <= r[i][k] <= chunkLen
  {
    var r := AdaptHierarchy(boundaries, chunkCharOffset, chunkLen, addedCharsLen, addedCharsEndPos);
    forall i, k | 0 <= i < |r| && 0 <= k < |r[i]| ensures 0 <= r[i][k] <= chunkLen {
      var a := AdaptLevel(boundaries[i], chunkCharOffset, chunkLen, addedCharsLen, addedCharsEndPos);
      if k > 0 && r[i][1..] == a {
        assert r[i][k] == a[k - 1];
      }
    }
  }

  /** Relocation keeps order when the inserted span has non-negative length. */
  lemma RelocateMonotone(b1: int, b2: int, chunkCharOffset: int, addedCharsLen: int, addedCharsEndPos: int)
    requires addedCharsLen >= 0 && b1 <= b2
    ensures Relocate(b1, chunkCharOffset, addedCharsLen, addedCharsEndPos) - Relocate(b2, chunkCharOffset, addedCharsLen, addedCharsEndPos) <= b1 - b2
  {
  }

  /** On a sorted level the early exit loses nothing: the scan keeps exactly the
      relocated offsets that fall within the window. */
  lemma {:induction false} AdaptLevelKeepsExactlyInWindow(level: seq<int>, chunkCharOffset: int, chunkLen: int, addedCharsLen: int, addedCharsEndPos: int, x: int)
    requires Sorted(level) && addedCharsLen >= 0
    ensures x in AdaptLevel(level, chunkCharOffset, chunkLen, addedCharsLen, addedCharsEndPos) <==>
            0 <= x <= chunkLen && exists b :: b in level && Relocate(b, chunkCharOffset, addedCharsLen, addedCharsEndPos) == x
  {
    if level != [] {
      AdaptLevelKeepsExactlyInWindow(level[1..], chunkCharOffset, chunkLen, addedCharsLen, addedCharsEndPos, x);
      var nb := Relocate(level[0], chunkCharOffset, addedCharsLen, addedCharsEndPos);
      assert forall b :: b in level <==> b == level[0] || b in level[1..];
      if nb > chunkLen {
        forall b | b in level ensures Relocate(b, chunkCharOffset, addedCharsLen, addedCharsEndPos) > chunkLen {
          RelocateMonotone(level[0], b, chunkCharOffset, addedCharsLen, addedCharsEndPos);
        }
      }
    }
  }

  /** On a strictly increasing level the scan keeps strictly increasing
      offsets, none below the relocated first offset. */
  lemma {:induction false} AdaptLevelStrictlyIncreasing(level: seq<int>, chunkCharOffset: int, chunkLen: int, addedCharsLen: int, addedCharsEndPos: int)
    requires StrictlyIncreasing(level) && addedCharsLen >= 0
    ensures var r := AdaptLevel(level, chunkCharOffset, chunkLen, addedCharsLen, addedCharsEndPos);
            && StrictlyIncreasing(r)
            && (level != [] ==> forall k :: 0 <= k < |r| ==> Relocate(level[0], chunkCharOffset, addedCharsLen, addedCharsEndPos) <= r[k])
  {
    if level != [] {
      var rest := level[1..];
      AdaptLevelStrictlyIncreasing(rest, chunkCharOffset, chunkLen, addedCharsLen, addedCharsEndPos);
      var nb := Relocate(level[0], chunkCharOffset, addedCharsLen, addedCharsEndPos);
      var rr := AdaptLevel(rest, chunkCharOffset, chunkLen, addedCharsLen, addedCharsEndPos);
      if rest != [] {
        assert level[0] < rest[0];
        RelocateMonotone(level[0], rest[0], chunkCharOffset, addedCharsLen, addedCharsEndPos);
      }
      assert forall k :: 0 <= k < |rr| ==> nb < rr[k];
    }
  }

  /** Strictly increasing levels stay strictly increasing once re-based and
      anchored. */
  lemma AdaptHierarchyStrictlyIncreasing(boundaries: seq<seq<int>>, chunkCharOffset: int, chunkLen: int, addedCharsLen: int, addedCharsEndPos: int)
    requires addedCharsLen >= 0
    requires forall i :: 0 <= i < |boundaries| ==> StrictlyIncreasing(boundaries[i])
    ensures var r := AdaptHierarchy(boundaries, chunkCharOffset, chunkLen, addedCharsLen, addedCharsEndPos);
            forall i :: 0 <= i < |r| ==> StrictlyIncreasing(r[i])
  {
    var r := AdaptHierarchy(boundaries, chunkCharOffset, chunkLen, addedCharsLen, addedCharsEndPos);
    forall i | 0 <= i < |r| ensures StrictlyIncreasing(r[i]) {
      var a := AdaptLevel(boundaries[i], chunkCharOffset, chunkLen, addedCharsLen, addedCharsEndPos);
      AdaptLevelStrictlyIncreasing(boundaries[i], chunkCharOffset, chunkLen, addedCharsLen, addedCharsEndPos);
      if a == [] || a[0] != 0 {
        assert r[i] == [0] + a;
        forall p, q | 0 <= p < q < |r[i]| ensures r[i][p] < r[i][q] {
          if p == 0 {
            assert r[i][q] == a[q - 1];
            assert a[0] > 0 && a[0] <= a[q - 1];
          }
        }
      }
    }
  }

  /** On a sorted level the scan keeps sorted offsets, none below the
      relocated first offset. */
  lemma {:induction false} AdaptLevelSorted(level: seq<int>, chunkCharOffset: int, chunkLen: int, addedCharsLen: int, addedCharsEndPos: int)
    requires Sorted(level) && addedCharsLen >= 0
    ensures var r := AdaptLevel(level, chunkCharOffset, chunkLen, addedCharsLen, addedCharsEndPos);
            && Sorted(r)
            && (level != [] ==> forall k :: 0 <= k < |r| ==> Relocate(level[0], chunkCharOffset, addedCharsLen, addedCharsEndPos) <= r[k])
  {
    if level != [] {
      var rest := level[1..];
      AdaptLevelSorted(rest, chunkCharOffset, chunkLen, addedCharsLen, addedCharsEndPos);
      var nb := Relocate(level[0], chunkCharOffset, addedCharsLen, addedCharsEndPos);
      var rr := AdaptLevel(rest, chunkCharOffset, chunkLen, addedCharsLen, addedCharsEndPos);
      if rest != [] {
        assert level[0] <= rest[0];
        RelocateMonotone(level[0], rest[0], chunkCharOffset, addedCharsLen, addedCharsEndPos);
      }
      assert forall k :: 0 <= k < |rr| ==> nb <= rr[k];
    }
  }

  /** Sorted levels stay sorted once re-based and anchored. */
  lemma AdaptHierarchySorted(boundaries: seq<seq<int>>, chunkCharOffset: int, chunkLen: int, addedCharsLen: int, addedCharsEndPos: int)
    requires addedCharsLen >= 0
    requires forall i :: 0 <= i < |boundaries| ==> Sorted(boundaries[i])
    ensures var r := AdaptHierarchy(boundaries, chunkCharOffset, chunkLen, addedCharsLen, addedCharsEndPos);
            forall i :: 0 <= i < |r| ==> Sorted(r[i])
  {
    var r := AdaptHierarchy(boundaries, chunkCharOffset, chunkLen, addedCharsLen, addedCharsEndPos);
    forall i | 0 <= i < |r| ensures Sorted(r[i]) {
      var a := AdaptLevel(boundaries[i], chunkCharOffset, chunkLen, addedCharsLen, addedCharsEndPos);
      AdaptLevelSorted(boundaries[i], chunkCharOffset, chunkLen, addedCharsLen, addedCharsEndPos);
      if a == [] || a[0] != 0 {
        assert r[i] == [0] + a;
        forall p, q | 0 <= p < q < |r[i]| ensures r[i][p] <= r[i][q] {
          if p == 0 {
            assert r[i][q] == a[q - 1];
            assert 0 <= a[q - 1];
          }
        }
      }
    }
  }

  /** With the default arguments (no inserted span) the scan of a sorted
      level keeps exactly the offsets inside the window, shifted to its start. */
  lemma AdaptDefaultsKeepWindow(level: seq<int>, chunkCharOffset: int, chunkLen: int, x: int)
    requires Sorted(level)
    ensures x in AdaptLevel(level, chunkCharOffset, chunkLen, 0, 0) <==>
            0 <= x <= chunkLen && x + chunkCharOffset in level
  {
    AdaptLevelKeepsExactlyInWindow(level, chunkCharOffset, chunkLen, 0, 0, x);
    if x + chunkCharOffset in level {
      assert Relocate(x + chunkCharOffset, chunkCharOffset, 0, 0) == x;
    }
  }

  /** The windowing example: offset 3 and length 7 give `[[0, 7], [0, 2, 7]]`. */
  lemma AdaptExample()
    ensures AdaptHierarchy([[0, 10], [0, 3, 5, 10]], 3, 7, 0, 0) == [[0, 7], [0, 2, 7]]
  {
    var h := AdaptHierarchy([[0, 10], [0, 3, 5, 10]], 3, 7, 0, 0);
    assert |h| == 2;
    assert AdaptLevel([], 3, 7, 0, 0) == [];
    assert AdaptLevel([10], 3, 7, 0, 0) == [7];
    assert AdaptLevel([0, 10], 3, 7, 0, 0) == [7];
    assert AdaptLevel([5, 10], 3, 7, 0, 0) == [2, 7];
    assert AdaptLevel([3, 5, 10], 3, 7, 0, 0) == [0, 2, 7];
    assert AdaptLevel([0, 3, 5, 10], 3, 7, 0, 0) == [0, 2, 7];
    assert h[0] == Anchor([7]) && h[1] == Anchor([0, 2, 7]);
    assert Anchor([7]) == [0, 7] && Anchor([0, 2, 7]) == [0, 2, 7];
    assert h == [h[0], h[1]];
  }

  /** Five inserted characters ending at 0 push every kept offset up by 5. */
  lemma AdaptInsertedExample()
    ensures AdaptHierarchy([[0, 10], [0, 3, 5, 10]], 3, 12, 5, 0) == [[0, 12], [0, 5, 7, 12]]
  {
    var h := AdaptHierarchy([[0, 10], [0, 3, 5, 10]], 3, 12, 5, 0);
    assert |h| == 2;
    assert AdaptLevel([], 3, 12, 5, 0) == [];
    assert AdaptLevel([10], 3, 12, 5, 0) == [12];
    assert AdaptLevel([0, 10], 3, 12, 5, 0) == [12];
    assert AdaptLevel([5, 10], 3, 12, 5, 0) == [7, 12];
    assert AdaptLevel([3, 5, 10], 3, 12, 5, 0) == [5, 7, 12];
    assert AdaptLevel([0, 3, 5, 10], 3, 12, 5, 0) == [5, 7, 12];
    assert h[0] == Anchor([12]) && h[1] == Anchor([5, 7, 12]);
    assert Anchor([12]) == [0, 12] && Anchor([5, 7, 12]) == [0, 5, 7, 12];
    assert h == [h[0], h[1]];
  }

}
