/** The recursive chunker of `src/semchunk/semchunk.py`: choosing the most
    meaningful splitter present in a text, counting tokens with a length
    heuristic, the n-ary search for the longest prefix of splits that fits, and
    the two chunking procedures built on them.  The token counter is a
    parameter: any function from strings to naturals. */
module Semchunk {
  import opened Scan

  // ---------------------------------------------------------------------------
  // Character classes
  // ---------------------------------------------------------------------------

  /** A character of the class `[\r\n]`. */
  predicate IsNewline(c: char) { c == '\n' || c == '\r' }

  /** A tab. */
  predicate IsTab(c: char) { c == '\t' }

  /** A character of Python's `\s` class on `str` patterns (the code points for
      which `str.isspace` holds). */
  predicate IsSpace(c: char)
  {
    ('\t' <= c <= '\r') || ('\U{1c}' <= c <= '\U{1f}') || c == ' '
    || c == '\U{85}' || c == '\U{a0}' || c == '\U{1680}'
    || ('\U{2000}' <= c <= '\U{200a}') || c == '\U{2028}' || c == '\U{2029}'
    || c == '\U{202f}' || c == '\U{205f}' || c == '\U{3000}'
  }

  /** The non-whitespace splitters, most desirable first: sentence terminators,
      clause separators, sentence interrupters and word joiners. */
  const Splitters: seq<char> := [
    '.', '?', '!', '*',
    ';', ',', '(', ')', '[', ']', '\U{201c}', '\U{201d}', '\U{2018}', '\U{2019}', '\'', '"', '`',
    ':', '\U{2014}', '\U{2026}',
    '/', '\\', '\U{2013}', '&', '-'
  ]

  // ---------------------------------------------------------------------------
  // Runs of a character class (`re.findall` of `[...]+`)
  // ---------------------------------------------------------------------------

  /** The end of the run of `p`-characters that starts at `i`. */
  function RunEnd(s: string, p: char -> bool, i: nat): (e: nat)
    requires i <= |s|
    ensures i <= e <= |s|
    ensures forall k :: i <= k < e ==> p(s[k])
    ensures e < |s| ==> !p(s[e])
    ensures i < |s| && p(s[i]) ==> i < e
    decreases |s| - i
  {
    if i < |s| && p(s[i]) then RunEnd(s, p, i + 1) else i
  }

  /** The maximal runs of `p`-characters in `s[i..]`, left to right. */
  function RunsFrom(s: string, p: char -> bool, i: nat): (rs: seq<string>)
    requires i <= |s|
    ensures |rs| <= |s| - i
    decreases |s| - i
  {
    if i == |s| then []
    else if !p(s[i]) then RunsFrom(s, p, i + 1)
    else [s[i..RunEnd(s, p, i)]] + RunsFrom(s, p, RunEnd(s, p, i))
  }

  /** Every run is a non-empty slice of `s[i..]` made of `p`-characters, and
      there is a run exactly when some character of `s[i..]` satisfies `p`. */
  lemma {:induction false} RunsFacts(s: string, p: char -> bool, i: nat)
    requires i <= |s|
    ensures forall r :: r in RunsFrom(s, p, i) ==>
      |r| > 0 && (forall m :: 0 <= m < |r| ==> p(r[m])) && exists a :: i <= a && SliceAt(r, s, a)
    ensures (exists k :: i <= k < |s| && p(s[k])) <==> RunsFrom(s, p, i) != []
    decreases |s| - i
  {
    if i < |s| {
      if !p(s[i]) {
        RunsFacts(s, p, i + 1);
        assert forall k :: i <= k < |s| && p(s[k]) ==> i + 1 <= k;
      } else {
        var e := RunEnd(s, p, i);
        RunsFacts(s, p, e);
        assert SliceAt(s[i..e], s, i);
        assert forall m :: 0 <= m < |s[i..e]| ==> s[i..e][m] == s[i + m];
      }
    }
  }

  // ---------------------------------------------------------------------------
  // Python's ordering of strings and `max`
  // ---------------------------------------------------------------------------

  /** Python's `a <= b` on strings: code point by code point, a proper prefix
      coming first. */
  predicate LexLe(a: string, b: string)
    ensures a <= b ==> LexLe(a, b)
  {
    a == [] || (b != [] && (a[0] < b[0] || (a[0] == b[0] && LexLe(a[1..], b[1..]))))
  }

  /** Any two strings are ordered one way or the other. */
  lemma {:induction false} LexLeTotal(a: string, b: string)
    ensures LexLe(a, b) || LexLe(b, a)
  {
    if a != [] && b != [] && a[0] == b[0] {
      LexLeTotal(a[1..], b[1..]);
    }
  }

  /** The ordering is antisymmetric. */
  lemma {:induction false} LexLeAntisym(a: string, b: string)
    requires LexLe(a, b) && LexLe(b, a)
    ensures a == b
  {
    if a != [] {
      LexLeAntisym(a[1..], b[1..]);
      assert a == [a[0]] + a[1..] && b == [b[0]] + b[1..];
    }
  }

  /** The ordering is transitive. */
  lemma {:induction false} LexLeTrans(a: string, b: string, c: string)
    requires LexLe(a, b) && LexLe(b, c)
    ensures LexLe(a, c)
  {
    if a != [] && a[0] == b[0] && b[0] == c[0] {
      LexLeTrans(a[1..], b[1..], c[1..]);
    }
  }

  /** `max(xs)`: an element of `xs` that no element exceeds. */
  function MaxString(xs: seq<string>): (m: string)
    requires xs != []
    ensures m in xs
    ensures forall x :: x in xs ==> LexLe(x, m)
  {
    if |xs| == 1 then LexLeTotal(xs[0], xs[0]); xs[0]
    else
      var rest := MaxString(xs[1..]);
      LexLeTotal(rest, xs[0]);
      LexLeTotal(xs[0], xs[0]);
      assert forall x :: x in xs ==> x == xs[0] || x in xs[1..];
      if LexLe(rest, xs[0]) then
        assert forall x :: x in xs[1..] ==> LexLe(x, xs[0]) by {
          forall x | x in xs[1..] ensures LexLe(x, xs[0]) { LexLeTrans(x, rest, xs[0]); }
        }
        xs[0]
      else rest
  }

  /** A string made only of `c`s. */
  predicate AllChar(s: string, c: char) { forall m :: 0 <= m < |s| ==> s[m] == c }

  /** Among strings of one repeated character the ordering is by length. */
  lemma {:induction false} LexLeSameChar(a: string, b: string, c: char)
    requires AllChar(a, c) && AllChar(b, c) && LexLe(a, b)
    ensures |a| <= |b|
  {
    if a != [] {
      LexLeSameChar(a[1..], b[1..], c);
    }
  }

  // ---------------------------------------------------------------------------
  // Choosing the splitter (`_split_text`)
  // ---------------------------------------------------------------------------

  /** A string made only of whitespace. */
  predicate Blank(s: string) { forall m :: 0 <= m < |s| ==> IsSpace(s[m]) }

  /** What `_split_text` returns: the splitter, whether it is whitespace, and
      the splits. */
  datatype TextSplit = TextSplit(splitter: string, splitterIsWhitespace: bool, splits: seq<string>)

  /** `sep` is the greatest run of `p`-characters in `text`. */
  predicate IsMaxRun(sep: string, text: string, p: char -> bool)
  {
    sep in RunsFrom(text, p, 0) && forall r :: r in RunsFrom(text, p, 0) ==> LexLe(r, sep)
  }

  /** The greatest run of `p`-characters of a text that has one. */
  function MaxRun(text: string, p: char -> bool): (sep: string)
    requires RunsFrom(text, p, 0) != []
    ensures IsMaxRun(sep, text, p)
  {
    MaxString(RunsFrom(text, p, 0))
  }

  /** The index in `Splitters` of the first splitter at or after `k` that occurs
      in `text`, or `|Splitters|` when none does. */
  function FirstSplitter(text: string, k: nat): (r: nat)
    requires k <= |Splitters|
    ensures k <= r <= |Splitters|
    ensures r < |Splitters| ==> Splitters[r] in text
    ensures forall m :: k <= m < r ==> Splitters[m] !in text
    decreases |Splitters| - k
  {
    if k == |Splitters| || Splitters[k] in text then k else FirstSplitter(text, k + 1)
  }

  /** Splits `text` on the greatest run of `p`-characters. */
  function SplitOnMaxRun(text: string, p: char -> bool): (r: TextSplit)
    requires exists k :: 0 <= k < |text| && p(text[k])
    ensures r.splitterIsWhitespace && r.splitter != []
    ensures forall m :: 0 <= m < |r.splitter| ==> p(r.splitter[m])
  {
    RunsFacts(text, p, 0);
    var sep := MaxRun(text, p);
    TextSplit(sep, true, Split(text, [sep], |sep|))
  }

  /** Some character of `text` is whitespace. */
  predicate HasSpace(text: string) { exists k :: 0 <= k < |text| && IsSpace(text[k]) }

  /** `_split_text`: split on the greatest run of newlines if there is one, else
      of tabs, else of whitespace, else on the most desirable punctuation mark
      present; with none of those, into characters with an empty splitter. */
  function SplitText(text: string): (r: TextSplit)
    ensures r.splitterIsWhitespace ==> Blank(r.splitter)
    ensures !r.splitterIsWhitespace ==> |r.splitter| == 1 && r.splitter[0] in Splitters && r.splitter[0] in text
  {
    if '\n' in text || '\r' in text then
      assert exists k :: 0 <= k < |text| && IsNewline(text[k]);
      SplitOnMaxRun(text, IsNewline)
    else if '\t' in text then
      assert exists k :: 0 <= k < |text| && IsTab(text[k]);
      SplitOnMaxRun(text, IsTab)
    else if HasSpace(text) then
      SplitOnMaxRun(text, IsSpace)
    else
      var k := FirstSplitter(text, 0);
      if k == |Splitters| then TextSplit([], true, Chars(text))
      else TextSplit([Splitters[k]], false, Split(text, [[Splitters[k]]], 1))
  }

  /** `sep` is the first of `Splitters` that occurs in `text`. */
  predicate IsFirstSplitterPresent(sep: string, text: string)
  {
    exists k :: 0 <= k < |Splitters| && sep == [Splitters[k]] && Splitters[k] in text
      && forall m :: 0 <= m < k ==> Splitters[m] !in text
  }

  /** The order of preference: each class of splitter is used only when every
      more desirable class is absent, a whitespace splitter is the greatest run
      of its class, a punctuation splitter is the first of `Splitters` present,
      and the text falls apart into characters only when nothing else is
      present. */
  lemma SplitTextPriority(text: string)
    ensures var r := SplitText(text);
      && (('\n' in text || '\r' in text) ==> r.splitterIsWhitespace && IsMaxRun(r.splitter, text, IsNewline))
      && (!('\n' in text || '\r' in text) && '\t' in text ==> r.splitterIsWhitespace && IsMaxRun(r.splitter, text, IsTab))
      && (!('\n' in text || '\r' in text || '\t' in text) && HasSpace(text) ==>
            r.splitterIsWhitespace && IsMaxRun(r.splitter, text, IsSpace))
      && (!HasSpace(text) ==>
            && (!r.splitterIsWhitespace <==> exists c :: c in Splitters && c in text)
            && (!r.splitterIsWhitespace ==> IsFirstSplitterPresent(r.splitter, text))
            && (r.splitterIsWhitespace ==> r.splitter == [] && r.splits == Chars(text)))
  {
    var r := SplitText(text);
    if !HasSpace(text) {
      assert !('\n' in text || '\r' in text || '\t' in text);
      var k := FirstSplitter(text, 0);
      if k == |Splitters| {
        assert forall c :: c in Splitters ==> c !in text;
      }
    }
  }

  /** Joining the splits with the splitter gives the text back, whichever
      splitter was chosen. */
  lemma SplitTextRejoins(text: string)
    ensures Join(SplitText(text).splits, SplitText(text).splitter) == text
  {
    var r := SplitText(text);
    if r.splitter == [] {
      SplitTextPriority(text);
      RunsFacts(text, IsNewline, 0);
      RunsFacts(text, IsTab, 0);
      RunsFacts(text, IsSpace, 0);
      JoinChars(text);
    } else {
      JoinPiecesFrom(text, r.splitter, 0);
    }
  }

  /** `sep` is a non-empty slice of `text`, so splitting on it gives pieces that
      are slices of `text`, each shorter than it. */
  lemma SplitOnPresent(text: string, sep: string)
    requires |sep| > 0 && exists a :: SliceAt(sep, text, a)
    ensures forall p :: p in Split(text, [sep], |sep|) ==> |p| < |text|
    ensures forall p :: p in Split(text, [sep], |sep|) ==> forall c :: c in p ==> c in text
  {
    var a :| SliceAt(sep, text, a);
    assert MatchAt(text, [sep], |sep|, a);
    PiecesAreSlices(text, [sep], |sep|, 0);
    forall p | p in Split(text, [sep], |sep|) ensures forall c :: c in p ==> c in text {
      PieceCharsInText(text, [sep], |sep|, p);
    }
  }

  /** How the splitter of `r` relates to `text`: a non-empty splitter occurs in
      the text and the splits are the pieces between its occurrences, a
      punctuation splitter is one of the text's characters, and an empty
      splitter leaves a text with neither whitespace nor punctuation in
      characters. */
  predicate SplitterFacts(text: string, r: TextSplit)
  {
    && (r.splitter != [] ==>
          (exists a :: 0 <= a <= |text| && SliceAt(r.splitter, text, a)) && r.splits == Split(text, [r.splitter], |r.splitter|))
    && (!r.splitterIsWhitespace ==> |r.splitter| == 1 && r.splitter[0] in Splitters && r.splitter[0] in text)
    && (r.splitter == [] ==>
          r.splits == Chars(text) && forall k :: 0 <= k < |text| ==> !IsSpace(text[k]) && text[k] !in Splitters)
  }

  /** Splitting on a greatest run splits on a slice of the text. */
  lemma SplitOnMaxRunFacts(text: string, p: char -> bool)
    requires exists k :: 0 <= k < |text| && p(text[k])
    ensures SplitterFacts(text, SplitOnMaxRun(text, p))
  {
    RunsFacts(text, p, 0);
    var r := SplitOnMaxRun(text, p);
    var a :| 0 <= a && SliceAt(r.splitter, text, a);
  }

  /** `SplitText` chooses a splitter of the text, or none. */
  lemma SplitTextSplitter(text: string)
    ensures SplitterFacts(text, SplitText(text))
  {
    var r := SplitText(text);
    if '\n' in text || '\r' in text {
      assert exists k :: 0 <= k < |text| && IsNewline(text[k]);
      SplitOnMaxRunFacts(text, IsNewline);
    } else if '\t' in text {
      assert exists k :: 0 <= k < |text| && IsTab(text[k]);
      SplitOnMaxRunFacts(text, IsTab);
    } else if HasSpace(text) {
      SplitOnMaxRunFacts(text, IsSpace);
    } else {
      SplitTextPriority(text);
      if !r.splitterIsWhitespace {
        var k :| 0 <= k < |text| && text[k] == r.splitter[0];
        assert SliceAt(r.splitter, text, k);
      }
    }
  }

  /** The facts about a split of `text` that the chunkers rely on: there are
      splits exactly when the text is non-empty; every split is shorter than
      the text, unless the text is one character that is neither whitespace nor
      punctuation; splits only contain characters of the text; a punctuation
      splitter is one character of the text. */
  predicate SplitShape(text: string, r: TextSplit)
  {
    && (r.splits == [] <==> text == [])
    && (forall k :: 0 <= k < |r.splits| ==>
          |r.splits[k]| < |text| || (|text| == 1 && r.splits[k] == text && !IsSpace(text[0]) && text[0] !in Splitters))
    && (forall k :: 0 <= k < |r.splits| ==> forall c :: c in r.splits[k] ==> c in text)
    && (!r.splitterIsWhitespace ==> |r.splitter| == 1 && r.splitter[0] in Splitters && r.splitter[0] in text)
  }

  /** A split whose splitter relates to the text as `SplitText`'s does has the
      shape the chunkers rely on. */
  lemma ShapeOfSplit(text: string, r: TextSplit)
    requires SplitterFacts(text, r)
    ensures SplitShape(text, r)
  {
    if r.splitter == [] {
      if |text| == 1 {
        assert r.splits[0] == text;
      }
    } else {
      SplitOnPresent(text, r.splitter);
      assert r.splits == PiecesFrom(text, [r.splitter], |r.splitter|, 0);
      assert forall k :: 0 <= k < |r.splits| ==> r.splits[k] in r.splits;
    }
  }

  /** The splits `SplitText` returns have the shape the chunkers rely on. */
  lemma SplitTextShape(text: string)
    ensures SplitShape(text, SplitText(text))
  {
    SplitTextSplitter(text);
    ShapeOfSplit(text, SplitText(text));
  }

  /** The newline splitter is the greatest run, not the longest: in
      `"\n\na\r"` the single carriage return outranks the two line feeds. */
  lemma NewlineSplitterNotLongest()
    ensures SplitText("\n\na\r").splitter == "\r"
    ensures "\n\n" in RunsFrom("\n\na\r", IsNewline, 0)
  {
    var t := "\n\na\r";
    assert RunsFrom(t, IsNewline, 4) == [];
    assert RunEnd(t, IsNewline, 4) == 4;
    assert RunEnd(t, IsNewline, 3) == 4;
    assert t[3..4] == "\r";
    assert RunsFrom(t, IsNewline, 3) == ["\r"];
    assert RunsFrom(t, IsNewline, 2) == ["\r"];
    assert RunEnd(t, IsNewline, 0) == 2;
    assert t[0..2] == "\n\n";
    assert RunsFrom(t, IsNewline, 0) == ["\n\n", "\r"];
    assert LexLe("\n\n", "\r");
    var m := MaxRun(t, IsNewline);
    assert LexLe("\r", m);
    assert m == "\n\n" || m == "\r";
  }

  /** A tab splitter is the longest run of tabs. */
  lemma TabSplitterIsLongestRun(text: string)
    requires !('\n' in text || '\r' in text) && '\t' in text
    ensures forall r :: r in RunsFrom(text, IsTab, 0) ==> |r| <= |SplitText(text).splitter|
  {
    SplitTextPriority(text);
    RunsFacts(text, IsTab, 0);
    var sep := SplitText(text).splitter;
    forall r | r in RunsFrom(text, IsTab, 0) ensures |r| <= |sep| {
      LexLeSameChar(r, sep, '\t');
    }
  }

  // ---------------------------------------------------------------------------
  // Counting (`count`)
  // ---------------------------------------------------------------------------

  /** One less than the length of the longest token the heuristic allows for. */
  const MaxToken: int := 42 - 1

  /** Python's `s[:k]` for any integer `k`; a negative `k` counts from the end. */
  function PyPrefix<T>(s: seq<T>, k: int): (r: seq<T>)
    ensures exists m :: 0 <= m <= |s| && r == s[..m]
    ensures 0 <= k <= |s| ==> r == s[..k]
  {
    if k >= 0 then (if k <= |s| then s[..k] else assert s == s[..|s|]; s)
    else if |s| + k >= 0 then s[..|s| + k]
    else assert s[..0] == []; []
  }

  /** `count`: the token count of `text`, except that a text longer than six
      characters per allowed token whose first `6 * maxSize + 41` characters
      already exceed `maxSize` is reported as `maxSize + 1` without counting it
      whole. */
  function Count(text: string, maxSize: int, counter: string -> nat): (r: int)
    ensures |text| <= 6 * maxSize ==> r == counter(text)
    ensures r == counter(text) || (r == maxSize + 1 && |text| > 6 * maxSize)
  {
    var heuristic := 6 * maxSize;
    if |text| > heuristic && counter(PyPrefix(text, heuristic + MaxToken)) > maxSize then maxSize + 1
    else counter(text)
  }

  /** When no prefix of `text` counts more than the whole, the heuristic never
      changes the verdict: `count` exceeds `maxSize` exactly when the counter
      does. */
  lemma CountDecidesLikeCounter(text: string, maxSize: int, counter: string -> nat)
    requires forall k :: 0 <= k <= |text| ==> counter(text[..k]) <= counter(text)
    ensures Count(text, maxSize, counter) > maxSize <==> counter(text) > maxSize
  {
    var p := PyPrefix(text, 6 * maxSize + MaxToken);
    var m :| 0 <= m <= |text| && p == text[..m];
    assert counter(p) <= counter(text);
  }

  /** A text of at most one character that the counter lets through is let
      through by `count` too. */
  lemma CountShort(t: string, maxSize: int, counter: string -> nat)
    requires |t| <= 1 && counter(t) <= maxSize
    ensures Count(t, maxSize, counter) <= maxSize
  {
    if |t| > 6 * maxSize {
      assert maxSize >= 0;
      assert PyPrefix(t, 6 * maxSize + MaxToken) == t;
    }
  }

  // ---------------------------------------------------------------------------
  // The n-ary search (`find_split`)
  // ---------------------------------------------------------------------------

  /** `k` separates the prefixes of `splits`: the first `k` splits joined fit in
      `maxSize` (when `k` is not negative), and the first `k + 1` do not (when
      there are that many). */
  predicate SplitPoint(splits: seq<string>, maxSize: int, splitter: string, counter: string -> nat, k: int)
  {
    && -1 <= k <= |splits|
    && (k >= 0 ==> Count(Join(splits[..k], splitter), maxSize, counter) <= maxSize)
    && (k < |splits| ==> Count(Join(splits[..k + 1], splitter), maxSize, counter) > maxSize)
  }

  /** `find_split`: searches for the split point, probing one eighth of the way
      into the remaining interval; returns it together with the joined prefix. */
  method FindSplit(splits: seq<string>, maxSize: int, splitter: string, counter: string -> nat)
    returns (optimal: int, chunk: string)
    ensures SplitPoint(splits, maxSize, splitter, counter, optimal)
    ensures chunk == Join(PyPrefix(splits, optimal), splitter)
  {
    var low, high := 0, |splits| + 1;
    while low < high
      invariant 0 <= low <= high <= |splits| + 1
      invariant low > 0 ==> Count(Join(splits[..low - 1], splitter), maxSize, counter) <= maxSize
      invariant high <= |splits| ==> Count(Join(splits[..high], splitter), maxSize, counter) > maxSize
      decreases high - low
    {
      var mid := low + (high - low) / 8;
      if Count(Join(splits[..mid], splitter), maxSize, counter) > maxSize {
        high := mid;
      } else {
        low := mid + 1;
      }
    }
    optimal := low - 1;
    chunk := Join(PyPrefix(splits, optimal), splitter);
  }

  /** The verdict of `count` on the joined prefixes of `splits` only ever turns
      from "fits" to "does not fit" as the prefix grows. */
  predicate PrefixMonotone(splits: seq<string>, maxSize: int, splitter: string, counter: string -> nat)
  {
    forall a, b :: 0 <= a <= b <= |splits| ==>
      Count(Join(splits[..b], splitter), maxSize, counter) <= maxSize ==>
      Count(Join(splits[..a], splitter), maxSize, counter) <= maxSize
  }

  /** Under monotonicity the split point is the number of splits in the longest
      prefix that fits, so there is exactly one; when the empty text fits it is
      not negative. */
  lemma SplitPointIsLongestFit(splits: seq<string>, maxSize: int, splitter: string,
                                                  counter: string -> nat, k: int, k': int)
    requires PrefixMonotone(splits, maxSize, splitter, counter)
    requires SplitPoint(splits, maxSize, splitter, counter, k)
    requires SplitPoint(splits, maxSize, splitter, counter, k')
    ensures forall m :: 0 <= m <= k ==> Count(Join(splits[..m], splitter), maxSize, counter) <= maxSize
    ensures forall m :: k < m <= |splits| ==> Count(Join(splits[..m], splitter), maxSize, counter) > maxSize
    ensures k == k'
    ensures Count([], maxSize, counter) <= maxSize ==> k >= 0
  {
    assert splits[..0] == [];
  }

  // ---------------------------------------------------------------------------
  // The content of the chunks
  // ---------------------------------------------------------------------------

  /** The characters of `s` that are not whitespace, in order. */
  function Visible(s: string): string
  {
    if s == [] then [] else Shown(s[0]) + Visible(s[1..])
  }

  /** A character as it is kept: nothing for whitespace. */
  function Shown(c: char): string
  {
    if IsSpace(c) then [] else [c]
  }

  lemma {:induction false} VisibleAppend(a: string, b: string)
    ensures Visible(a + b) == Visible(a) + Visible(b)
  {
    if a != [] {
      VisibleAppend(a[1..], b);
      assert (a + b)[0] == a[0] && (a + b)[1..] == a[1..] + b;
      assert Shown(a[0]) + (Visible(a[1..]) + Visible(b)) == (Shown(a[0]) + Visible(a[1..])) + Visible(b);
    } else {
      assert a + b == b;
    }
  }

  /** Whitespace is invisible. */
  lemma {:induction false} VisibleBlank(s: string)
    requires Blank(s)
    ensures Visible(s) == []
  {
    if s != [] {
      VisibleBlank(s[1..]);
    }
  }

  /** `''.join(chunks)`. */
  function Concat(chunks: seq<string>): string
  {
    Join(chunks, [])
  }

  lemma ConcatAppend(a: seq<string>, b: seq<string>)
    ensures Concat(a + b) == Concat(a) + Concat(b)
  {
    if a == [] {
      assert a + b == b;
    } else if b == [] {
      assert a + b == a;
    } else {
      JoinAppend(a, b, []);
    }
  }

  /** Extending the last chunk extends the concatenation. */
  lemma ConcatExtendLast(chunks: seq<string>, x: string)
    requires chunks != []
    ensures Concat(chunks[|chunks| - 1 := chunks[|chunks| - 1] + x]) == Concat(chunks) + x
  {
    var n := |chunks|;
    var init := chunks[..n - 1];
    assert chunks == init + [chunks[n - 1]];
    assert chunks[n - 1 := chunks[n - 1] + x] == init + [chunks[n - 1] + x];
    ConcatAppend(init, [chunks[n - 1]]);
    ConcatAppend(init, [chunks[n - 1] + x]);
  }

  /** Dropping empty chunks does not change the concatenation. */
  lemma {:induction false} ConcatNonEmpty(chunks: seq<string>)
    ensures Concat(NonEmpty(chunks)) == Concat(chunks)
  {
    if chunks != [] {
      ConcatNonEmpty(chunks[1..]);
      assert chunks == [chunks[0]] + chunks[1..];
      ConcatAppend([chunks[0]], chunks[1..]);
      ConcatAppend(if chunks[0] == [] then [] else [chunks[0]], NonEmpty(chunks[1..]));
    }
  }

  /** Chunks that hold one split, up to whitespace, hold the join of that
      split alone. */
  lemma WholeSplit(splits: seq<string>, splitter: string, i: nat, taken: seq<string>)
    requires i < |splits| && Visible(Concat(taken)) == Visible(splits[i])
    ensures Visible(Concat(taken)) == Visible(Join(splits[i..i + 1], splitter))
  {
    assert splits[i..i + 1] == [splits[i]];
  }

  /** The text the chunks hold once the splits before `f` are taken: those
      splits joined by the splitter, and the splitter once more when a taken
      split is followed by another. */
  function Taken(splits: seq<string>, splitter: string, f: nat): string
    requires f <= |splits|
  {
    Join(splits[..f], splitter) + (if 0 < f < |splits| then splitter else [])
  }

  /** Taking the splits `f .. next - 1` as chunks that hold them, up to
      whitespace, extends the text held to the first `next` splits joined. */
  lemma TakeContent(splits: seq<string>, splitter: string, f: nat, next: nat, chunks: seq<string>, sub: seq<string>)
    requires f < next <= |splits|
    requires Visible(Concat(chunks)) == Visible(Taken(splits, splitter, f))
    requires Visible(Concat(sub)) == Visible(Join(splits[f..next], splitter))
    ensures Visible(Concat(chunks + sub)) == Visible(Join(splits[..next], splitter))
  {
    ConcatAppend(chunks, sub);
    VisibleAppend(Concat(chunks), Concat(sub));
    if f == 0 {
      assert splits[..next] == splits[f..next];
    } else {
      assert splits[..next] == splits[..f] + splits[f..next];
      JoinAppend(splits[..f], splits[f..next], splitter);
      VisibleAppend(Join(splits[..f], splitter) + splitter, Join(splits[f..next], splitter));
    }
  }

  /** After the splitter step: with splits still to come, the chunks hold the
      splitter once more (appended, or invisible); after the last split they
      hold the whole join. */
  lemma SplitterContent(splits: seq<string>, splitter: string, next: nat, held: string)
    requires 0 < next <= |splits|
    requires Visible(held) == Visible(Join(splits[..next], splitter))
    ensures next == |splits| ==> Visible(held) == Visible(Taken(splits, splitter, next))
    ensures next < |splits| ==> Visible(held + splitter) == Visible(Taken(splits, splitter, next))
    ensures next < |splits| && Blank(splitter) ==> Visible(held) == Visible(Taken(splits, splitter, next))
  {
    var joined := Join(splits[..next], splitter);
    if next == |splits| {
      assert Taken(splits, splitter, next) == joined + [];
      assert joined + [] == joined;
    } else {
      assert Taken(splits, splitter, next) == joined + splitter;
      VisibleAppend(held, splitter);
      VisibleAppend(joined, splitter);
      if Blank(splitter) {
        VisibleBlank(splitter);
        assert Visible(held) + [] == Visible(held);
      }
    }
  }

  /** Once every split is taken the chunks hold the text, up to whitespace. */
  lemma AllTaken(text: string, r: TextSplit, chunks: seq<string>)
    requires r == SplitText(text)
    requires Visible(Concat(chunks)) == Visible(Taken(r.splits, r.splitter, |r.splits|))
    ensures Visible(Concat(NonEmpty(chunks))) == Visible(text)
    ensures Visible(Concat(chunks)) == Visible(text)
  {
    var joined := Join(r.splits, r.splitter);
    assert r.splits[..|r.splits|] == r.splits;
    assert Taken(r.splits, r.splitter, |r.splits|) == joined + [];
    assert joined + [] == joined;
    SplitTextRejoins(text);
    ConcatNonEmpty(chunks);
  }

  // ---------------------------------------------------------------------------
  // Chunking (`chunk_legacy` and `chunk`)
  // ---------------------------------------------------------------------------

  /** What the recursion needs to stop: the empty text fits, and so does every
      character of `text` that cannot be split further (one that is neither
      whitespace nor punctuation). */
  predicate Chunkable(text: string, chunkSize: int, counter: string -> nat)
  {
    && counter([]) <= chunkSize
    && forall k :: 0 <= k < |text| && !IsSpace(text[k]) && text[k] !in Splitters ==> counter([text[k]]) <= chunkSize
  }

  /** A chunk of `text` keeps within `chunkSize` tokens, or is a punctuation
      splitter of the text standing alone because it fitted nowhere else. */
  predicate Fits(chunk: string, text: string, chunkSize: int, counter: string -> nat)
  {
    counter(chunk) <= chunkSize || (|chunk| == 1 && chunk[0] in Splitters && chunk[0] in text)
  }

  /** When every character of the text fits, every chunk that `Fits` keeps
      within `chunkSize`. */
  lemma FitsWhenCharsFit(chunk: string, text: string, chunkSize: int, counter: string -> nat)
    requires Fits(chunk, text, chunkSize, counter)
    requires forall k :: 0 <= k < |text| ==> counter([text[k]]) <= chunkSize
    ensures counter(chunk) <= chunkSize
  {
    if |chunk| == 1 && chunk[0] in text {
      var k :| 0 <= k < |text| && text[k] == chunk[0];
      assert chunk == [text[k]];
    }
  }

  /** A piece made of characters of a chunkable text is chunkable. */
  lemma ChunkableSplit(text: string, split: string, chunkSize: int, counter: string -> nat)
    requires Chunkable(text, chunkSize, counter)
    requires forall c :: c in split ==> c in text
    ensures Chunkable(split, chunkSize, counter)
  {
    forall k | 0 <= k < |split| && !IsSpace(split[k]) && split[k] !in Splitters
      ensures counter([split[k]]) <= chunkSize
    {
      assert split[k] in split;
      var m :| 0 <= m < |text| && text[m] == split[k];
    }
  }

  /** A chunkable one-character text that cannot be split fits, by the counter
      and by `count`. */
  lemma AtomFits(t: string, chunkSize: int, counter: string -> nat)
    ensures Chunkable(t, chunkSize, counter) && |t| == 1 && !IsSpace(t[0]) && t[0] !in Splitters ==>
      counter(t) <= chunkSize && Count(t, chunkSize, counter) <= chunkSize
  {
    if Chunkable(t, chunkSize, counter) && |t| == 1 && !IsSpace(t[0]) && t[0] !in Splitters {
      assert t == [t[0]];
      CountShort(t, chunkSize, counter);
    }
  }

  /** A split the chunkers recurse into (one too large by the counter, or by
      `count`) is non-empty, shorter than the text, made of the text's
      characters, and chunkable in turn: so the recursion stops. */
  lemma RecursiveSplit(text: string, r: TextSplit, k: nat, chunkSize: int, counter: string -> nat)
    requires SplitShape(text, r) && Chunkable(text, chunkSize, counter) && k < |r.splits|
    requires counter(r.splits[k]) > chunkSize || Count(r.splits[k], chunkSize, counter) > chunkSize
    ensures r.splits[k] != [] && |r.splits[k]| < |text|
    ensures forall c :: c in r.splits[k] ==> c in text
    ensures Chunkable(r.splits[k], chunkSize, counter)
  {
    CountShort([], chunkSize, counter);
    AtomFits(text, chunkSize, counter);
    ChunkableSplit(text, r.splits[k], chunkSize, counter);
  }

  /** `range(lo, hi)` as a set. */
  function Range(lo: nat, hi: nat): (r: set<nat>)
    ensures forall j :: j in r <==> lo <= j < hi
    decreases hi - lo
  {
    if lo >= hi then {} else {lo} + Range(lo + 1, hi)
  }

  /** The numbers `lo`, ..., `hi - 1`, in order. */
  function Span(lo: nat, hi: nat): (r: seq<nat>)
    requires lo <= hi
    ensures |r| == hi - lo && forall k :: 0 <= k < |r| ==> r[k] == lo + k
  {
    seq(hi - lo, k requires 0 <= k < hi - lo => lo + k)
  }

  /** The skipping of the chunkers at the top of iteration `i` over `n` splits:
      the splits before `frontier` have been taken into chunks, in order, each
      once; those from `i` on were merged into an earlier chunk and are in
      `skips`; nothing at or past the frontier is. */
  ghost predicate Bookkeeping(skips: set<nat>, i: nat, frontier: nat, n: nat, consumed: seq<nat>)
  {
    && i <= frontier <= n
    && consumed == Span(0, frontier)
    && (forall j :: j in skips ==> j < frontier)
    && (forall j :: i <= j < frontier ==> j in skips)
  }

  /** A split in `skips` was already taken. */
  lemma SkipStep(skips: set<nat>, i: nat, frontier: nat, n: nat, consumed: seq<nat>)
    requires Bookkeeping(skips, i, frontier, n, consumed) && i < n && i in skips
    ensures Bookkeeping(skips, i + 1, frontier, n, consumed)
  {
  }

  /** A split not in `skips` is the frontier; taking it together with the
      splits up to `next` and skipping those moves the frontier to `next`. */
  lemma TakeStep(skips: set<nat>, i: nat, frontier: nat, n: nat, consumed: seq<nat>, next: nat)
    requires Bookkeeping(skips, i, frontier, n, consumed) && i !in skips && i < next <= n
    ensures i == frontier
    ensures Bookkeeping(skips + Range(i + 1, next), i + 1, next, n, consumed + Span(i, next))
  {
    assert Span(0, i) + Span(i, next) == Span(0, next);
  }

  /** Every chunk of `chunks` fits. */
  predicate AllFit(chunks: seq<string>, text: string, chunkSize: int, counter: string -> nat)
  {
    forall k :: 0 <= k < |chunks| ==> Fits(chunks[k], text, chunkSize, counter)
  }

  /** The chunks of a piece of the text fit the text. */
  lemma AllFitWithin(chunks: seq<string>, split: string, text: string, chunkSize: int, counter: string -> nat)
    requires AllFit(chunks, split, chunkSize, counter)
    requires forall c :: c in split ==> c in text
    ensures AllFit(chunks, text, chunkSize, counter)
  {
    forall k | 0 <= k < |chunks| ensures Fits(chunks[k], text, chunkSize, counter) {
      if |chunks[k]| == 1 && chunks[k][0] in Splitters && chunks[k][0] in split {
        assert chunks[k][0] in text;
      }
    }
  }

  /** Replacing the last chunk by, or appending, one that fits keeps every
      chunk fitting. */
  lemma AllFitAttach(chunks: seq<string>, x: string, text: string, chunkSize: int, counter: string -> nat)
    requires AllFit(chunks, text, chunkSize, counter) && Fits(x, text, chunkSize, counter)
    ensures chunks != [] ==> AllFit(chunks[|chunks| - 1 := x], text, chunkSize, counter)
    ensures AllFit(chunks + [x], text, chunkSize, counter)
  {
  }

  /** Two lists of fitting chunks one after the other fit. */
  lemma AllFitConcat(a: seq<string>, b: seq<string>, text: string, chunkSize: int, counter: string -> nat)
    requires AllFit(a, text, chunkSize, counter) && AllFit(b, text, chunkSize, counter)
    ensures AllFit(a + b, text, chunkSize, counter)
  {
  }

  /** `list(filter(None, chunks))`: the non-empty chunks, in order. */
  function NonEmpty(chunks: seq<string>): (r: seq<string>)
    ensures forall k :: 0 <= k < |r| ==> r[k] != []
    ensures forall x :: x in r <==> x in chunks && x != []
  {
    if chunks == [] then []
    else (if chunks[0] == [] then [] else [chunks[0]]) + NonEmpty(chunks[1..])
  }

  /** Dropping the empty chunks keeps every chunk fitting. */
  lemma AllFitNonEmpty(chunks: seq<string>, text: string, chunkSize: int, counter: string -> nat)
    requires AllFit(chunks, text, chunkSize, counter)
    ensures AllFit(NonEmpty(chunks), text, chunkSize, counter)
  {
    var r := NonEmpty(chunks);
    forall k | 0 <= k < |r| ensures Fits(r[k], text, chunkSize, counter) {
      assert r[k] in r;
      var m :| 0 <= m < |chunks| && chunks[m] == r[k];
    }
  }

  /** The inner loop of `chunk_legacy`: merges the splits after `i` into
      `splits[i]` while the merged chunk still fits, stopping at the first that
      does not; the splits merged in are `i + 1`, ..., `next - 1`. */
  method MergeFollowing(splits: seq<string>, splitter: string, i: nat, chunkSize: int, counter: string -> nat)
    returns (newChunk: string, next: nat)
    requires i < |splits| && counter(splits[i]) <= chunkSize
    ensures i < next <= |splits|
    ensures newChunk == Join(splits[i..next], splitter)
    ensures counter(newChunk) <= chunkSize
    ensures next < |splits| ==> counter(Join(splits[i..next + 1], splitter)) > chunkSize
  {
    newChunk := splits[i];
    next := i + 1;
    while next < |splits|
      invariant i < next <= |splits|
      invariant newChunk == Join(splits[i..next], splitter)
      invariant counter(newChunk) <= chunkSize
      decreases |splits| - next
    {
      var updatedChunk := newChunk + splitter + splits[next];
      JoinAppend(splits[i..next], [splits[next]], splitter);
      assert splits[i..next + 1] == splits[i..next] + [splits[next]];
      if counter(updatedChunk) <= chunkSize {
        newChunk := updatedChunk;
        next := next + 1;
      } else {
        break;
      }
    }
  }

  /** After taking the splits up to `next`, the test "this is the last split,
      or every later split was skipped" holds exactly when no split is left. */
  lemma LastTaken(skips: set<nat>, i: nat, next: nat, n: nat, consumed: seq<nat>)
    requires Bookkeeping(skips, i + 1, next, n, consumed) && i < n
    ensures (i == n - 1 || forall j :: i + 1 <= j < n ==> j in skips) <==> next == n
  {
    if next < n {
      assert next !in skips;
    }
  }

  /** The splitter step of `chunk_legacy`: the punctuation splitter goes onto
      the last chunk when the result still fits, else it is a chunk of its own. */
  method AttachSplitterLegacy(chunks: seq<string>, splitter: string, text: string, chunkSize: int, counter: string -> nat)
    returns (r: seq<string>)
    requires chunks != [] && AllFit(chunks, text, chunkSize, counter) && Fits(splitter, text, chunkSize, counter)
    ensures r == if counter(chunks[|chunks| - 1] + splitter) <= chunkSize
                 then chunks[|chunks| - 1 := chunks[|chunks| - 1] + splitter]
                 else chunks + [splitter]
    ensures r != [] && Concat(r) == Concat(chunks) + splitter
    ensures AllFit(r, text, chunkSize, counter)
  {
    var lastChunkWithSplitter := chunks[|chunks| - 1] + splitter;
    if counter(lastChunkWithSplitter) <= chunkSize {
      AllFitAttach(chunks, lastChunkWithSplitter, text, chunkSize, counter);
      ConcatExtendLast(chunks, splitter);
      r := chunks[|chunks| - 1 := lastChunkWithSplitter];
    } else {
      AllFitAttach(chunks, splitter, text, chunkSize, counter);
      ConcatAppend(chunks, [splitter]);
      r := chunks + [splitter];
    }
  }

  /** A split that `counter` finds too large, chunked by a recursive call of
      `chunk_legacy`. */
  method RechunkLegacy(text: string, r: TextSplit, i: nat, chunkSize: int, counter: string -> nat, recursionDepth: nat)
    returns (taken: seq<string>)
    requires SplitShape(text, r) && Chunkable(text, chunkSize, counter) && i < |r.splits|
    requires counter(r.splits[i]) > chunkSize
    ensures taken != []
    ensures Visible(Concat(taken)) == Visible(Join(r.splits[i..i + 1], r.splitter))
    ensures AllFit(taken, text, chunkSize, counter)
    decreases |text|, 0
  {
    var split := r.splits[i];
    RecursiveSplit(text, r, i, chunkSize, counter);
    ghost var subConsumed;
    taken, subConsumed := ChunkLegacy(split, chunkSize, counter, recursionDepth + 1);
    AllFitWithin(taken, split, text, chunkSize, counter);
    WholeSplit(r.splits, r.splitter, i, taken);
  }

  /** The merge step of `chunk_legacy` at split `i`: one chunk joining the
      splits `i .. next - 1`, which cannot take split `next` as well without
      exceeding `chunkSize`. */
  predicate GreedyStep(splits: seq<string>, splitter: string, i: nat, chunkSize: int, counter: string -> nat,
                       taken: seq<string>, next: nat)
  {
    && i < next <= |splits|
    && taken == [Join(splits[i..next], splitter)]
    && (next < |splits| ==> counter(Join(splits[i..next + 1], splitter)) > chunkSize)
  }

  /** One split of `chunk_legacy` that is not skipped: chunked recursively
      when too large, otherwise merged with as many following splits as still
      fit.  `taken` are the chunks it adds and `next` the first split they do
      not hold. */
  method TakeLegacy(text: string, r: TextSplit, i: nat, chunkSize: int, counter: string -> nat, recursionDepth: nat)
    returns (taken: seq<string>, next: nat)
    requires SplitShape(text, r) && Chunkable(text, chunkSize, counter) && i < |r.splits|
    ensures i < next <= |r.splits|
    ensures taken != []
    ensures Visible(Concat(taken)) == Visible(Join(r.splits[i..next], r.splitter))
    ensures AllFit(taken, text, chunkSize, counter)
    ensures counter(r.splits[i]) > chunkSize ==> next == i + 1
    ensures counter(r.splits[i]) <= chunkSize ==> GreedyStep(r.splits, r.splitter, i, chunkSize, counter, taken, next)
    decreases |text|, 1
  {
    if counter(r.splits[i]) > chunkSize {
      taken := RechunkLegacy(text, r, i, chunkSize, counter, recursionDepth);
      next := i + 1;
    } else {
      var newChunk;
      newChunk, next := MergeFollowing(r.splits, r.splitter, i, chunkSize, counter);
      taken := [newChunk];
      assert Concat(taken) == newChunk;
      assert GreedyStep(r.splits, r.splitter, i, chunkSize, counter, taken, next);
    }
  }

  /** `chunk_legacy`: splits `text` on its most meaningful splitter, takes
      every split not yet merged into a chunk, and re-attaches a punctuation
      splitter after every chunk but the last.  The chunks hold the text with
      only whitespace splitters removed.  `consumed` lists the indices of the
      splits in the order they were taken into a chunk: every split is taken
      exactly once, in order, whatever the skipping. */
  method ChunkLegacy(text: string, chunkSize: int, counter: string -> nat, recursionDepth: nat)
    returns (chunks: seq<string>, ghost consumed: seq<nat>)
    requires Chunkable(text, chunkSize, counter)
    ensures Visible(Concat(chunks)) == Visible(text)
    ensures AllFit(chunks, text, chunkSize, counter)
    ensures recursionDepth == 0 ==> forall k :: 0 <= k < |chunks| ==> chunks[k] != []
    ensures recursionDepth > 0 && text != [] ==> chunks != []
    ensures consumed == Span(0, |SplitText(text).splits|)
    decreases |text|, 2
  {
    var r := SplitText(text);
    var splitter, splitterIsWhitespace, splits := r.splitter, r.splitterIsWhitespace, r.splits;
    SplitTextShape(text);
    chunks := [];
    var skips: set<nat> := {};
    consumed := [];
    ghost var frontier: nat := 0;
    for i := 0 to |splits|
      invariant Bookkeeping(skips, i, frontier, |splits|, consumed)
      invariant AllFit(chunks, text, chunkSize, counter)
      invariant frontier > 0 ==> chunks != []
      invariant Visible(Concat(chunks)) == Visible(Taken(splits, splitter, frontier))
    {
      if i in skips {
        SkipStep(skips, i, frontier, |splits|, consumed);
        continue;
      }
      var taken, next := TakeLegacy(text, r, i, chunkSize, counter, recursionDepth);
      TakeStep(skips, i, frontier, |splits|, consumed, next);
      TakeContent(splits, splitter, i, next, chunks, taken);
      AllFitConcat(chunks, taken, text, chunkSize, counter);
      skips := skips + Range(i + 1, next);
      chunks := chunks + taken;
      consumed := consumed + Span(i, next);
      frontier := next;
      LastTaken(skips, i, frontier, |splits|, consumed);
      SplitterContent(splits, splitter, frontier, Concat(chunks));
      if !splitterIsWhitespace && !(i == |splits| - 1 || forall j :: i + 1 <= j < |splits| ==> j in skips) {
        chunks := AttachSplitterLegacy(chunks, splitter, text, chunkSize, counter);
      }
    }
    AllTaken(text, r, chunks);
    if recursionDepth == 0 {
      AllFitNonEmpty(chunks, text, chunkSize, counter);
      chunks := NonEmpty(chunks);
    }
  }

  /** The counter never counts more tokens in a concatenation than in its
      parts together, which the splitter re-attachment of `chunk` relies on. */
  ghost predicate Subadditive(counter: string -> nat)
  {
    forall a: string, b: string :: counter(a + b) <= counter(a) + counter(b)
  }

  /** The splitter step of `chunk`: the punctuation splitter goes onto the last
      chunk when the counts of the two add up to no more than `chunkSize`, else
      it is a chunk of its own. */
  method AttachSplitter(chunks: seq<string>, splitter: string, text: string, chunkSize: int, counter: string -> nat)
    returns (r: seq<string>)
    requires chunks != [] && Fits(splitter, text, chunkSize, counter)
    ensures r == if counter(chunks[|chunks| - 1]) + counter(splitter) <= chunkSize
                 then chunks[|chunks| - 1 := chunks[|chunks| - 1] + splitter]
                 else chunks + [splitter]
    ensures r != [] && Concat(r) == Concat(chunks) + splitter
    ensures Subadditive(counter) && AllFit(chunks, text, chunkSize, counter) ==> AllFit(r, text, chunkSize, counter)
  {
    var lastChunk := chunks[|chunks| - 1];
    if counter(lastChunk) + counter(splitter) <= chunkSize {
      if Subadditive(counter) && AllFit(chunks, text, chunkSize, counter) {
        assert counter(lastChunk + splitter) <= chunkSize;
        AllFitAttach(chunks, lastChunk + splitter, text, chunkSize, counter);
      }
      ConcatExtendLast(chunks, splitter);
      r := chunks[|chunks| - 1 := lastChunk + splitter];
    } else {
      if AllFit(chunks, text, chunkSize, counter) {
        AllFitAttach(chunks, splitter, text, chunkSize, counter);
      }
      ConcatAppend(chunks, [splitter]);
      r := chunks + [splitter];
    }
  }

  /** A split that `count` finds too large, chunked by a recursive call of
      `chunk`. */
  method Rechunk(text: string, r: TextSplit, i: nat, chunkSize: int, counter: string -> nat, recursionDepth: nat)
    returns (taken: seq<string>)
    requires SplitShape(text, r) && Chunkable(text, chunkSize, counter) && i < |r.splits|
    requires Count(r.splits[i], chunkSize, counter) > chunkSize
    ensures taken != []
    ensures Visible(Concat(taken)) == Visible(Join(r.splits[i..i + 1], r.splitter))
    ensures Subadditive(counter) ==> AllFit(taken, text, chunkSize, counter)
    decreases |text|, 0
  {
    var split := r.splits[i];
    RecursiveSplit(text, r, i, chunkSize, counter);
    ghost var subConsumed;
    taken, subConsumed := Chunk(split, chunkSize, counter, recursionDepth + 1);
    if Subadditive(counter) {
      AllFitWithin(taken, split, text, chunkSize, counter);
    }
    WholeSplit(r.splits, r.splitter, i, taken);
  }

  /** The merge step of `chunk` at split `i`: one chunk joining the splits
      `i .. next - 1`, where `next - i` is `find_split`'s split point. */
  predicate MergeStep(splits: seq<string>, splitter: string, i: nat, chunkSize: int, counter: string -> nat,
                      taken: seq<string>, next: nat)
  {
    && i < next <= |splits|
    && taken == [Join(splits[i..next], splitter)]
    && SplitPoint(splits[i..], chunkSize, splitter, counter, next - i)
  }

  /** A split that `count` finds small enough, merged with as many of the
      following splits as `FindSplit` finds room for. */
  method Merge(splits: seq<string>, splitter: string, i: nat, chunkSize: int, counter: string -> nat)
    returns (taken: seq<string>, next: nat)
    requires i < |splits| && counter([]) <= chunkSize
    requires Count(splits[i], chunkSize, counter) <= chunkSize
    ensures i < next <= |splits|
    ensures taken == [Join(splits[i..next], splitter)]
    ensures counter(taken[0]) <= chunkSize
    ensures SplitPoint(splits[i..], chunkSize, splitter, counter, next - i)
    ensures Visible(Concat(taken)) == Visible(Join(splits[i..next], splitter))
    ensures MergeStep(splits, splitter, i, chunkSize, counter, taken, next)
  {
    var optimal, newChunk := FindSplit(splits[i..], chunkSize, splitter, counter);
    ProbeFirstSplit(splits, i, chunkSize, splitter, counter, optimal);
    next := i + optimal;
    taken := [newChunk];
    assert Concat(taken) == newChunk;
  }

  /** One split of `chunk` that is not skipped: chunked recursively when
      `count` finds it too large, otherwise taken together with the following
      splits that `FindSplit` finds room for. */
  method Take(text: string, r: TextSplit, i: nat, chunkSize: int, counter: string -> nat, recursionDepth: nat)
    returns (taken: seq<string>, next: nat)
    requires SplitShape(text, r) && Chunkable(text, chunkSize, counter) && i < |r.splits|
    ensures i < next <= |r.splits|
    ensures taken != []
    ensures Visible(Concat(taken)) == Visible(Join(r.splits[i..next], r.splitter))
    ensures Subadditive(counter) ==> AllFit(taken, text, chunkSize, counter)
    ensures Count(r.splits[i], chunkSize, counter) > chunkSize ==> next == i + 1
    ensures Count(r.splits[i], chunkSize, counter) <= chunkSize ==> MergeStep(r.splits, r.splitter, i, chunkSize, counter, taken, next)
    decreases |text|, 1
  {
    if Count(r.splits[i], chunkSize, counter) > chunkSize {
      taken := Rechunk(text, r, i, chunkSize, counter, recursionDepth);
      next := i + 1;
    } else {
      taken, next := Merge(r.splits, r.splitter, i, chunkSize, counter);
    }
  }

  /** `chunk`: as `chunk_legacy`, but a split is judged by `count` and the
      splits to merge with it are found by `FindSplit`; a punctuation splitter
      is re-attached when the counts of the chunk and the splitter add up to no
      more than `chunkSize`, so the bound on chunks holds for subadditive
      counters. */
  method Chunk(text: string, chunkSize: int, counter: string -> nat, recursionDepth: nat)
    returns (chunks: seq<string>, ghost consumed: seq<nat>)
    requires Chunkable(text, chunkSize, counter)
    ensures Visible(Concat(chunks)) == Visible(text)
    ensures Subadditive(counter) ==> AllFit(chunks, text, chunkSize, counter)
    ensures recursionDepth == 0 ==> forall k :: 0 <= k < |chunks| ==> chunks[k] != []
    ensures recursionDepth > 0 && text != [] ==> chunks != []
    ensures consumed == Span(0, |SplitText(text).splits|)
    decreases |text|, 2
  {
    var r := SplitText(text);
    var splitter, splitterIsWhitespace, splits := r.splitter, r.splitterIsWhitespace, r.splits;
    SplitTextShape(text);
    chunks := [];
    var skips: set<nat> := {};
    consumed := [];
    ghost var frontier: nat := 0;
    for i := 0 to |splits|
      invariant Bookkeeping(skips, i, frontier, |splits|, consumed)
      invariant Subadditive(counter) ==> AllFit(chunks, text, chunkSize, counter)
      invariant frontier > 0 ==> chunks != []
      invariant Visible(Concat(chunks)) == Visible(Taken(splits, splitter, frontier))
    {
      if i in skips {
        SkipStep(skips, i, frontier, |splits|, consumed);
        continue;
      }
      var taken, next := Take(text, r, i, chunkSize, counter, recursionDepth);
      TakeStep(skips, i, frontier, |splits|, consumed, next);
      TakeContent(splits, splitter, i, next, chunks, taken);
      if Subadditive(counter) {
        AllFitConcat(chunks, taken, text, chunkSize, counter);
      }
      skips := skips + Range(i + 1, next);
      chunks := chunks + taken;
      consumed := consumed + Span(i, next);
      frontier := next;
      LastTaken(skips, i, frontier, |splits|, consumed);
      SplitterContent(splits, splitter, frontier, Concat(chunks));
      if !splitterIsWhitespace && !(i == |splits| - 1 || forall j :: i + 1 <= j < |splits| ==> j in skips) {
        chunks := AttachSplitter(chunks, splitter, text, chunkSize, counter);
      }
    }
    AllTaken(text, r, chunks);
    if recursionDepth == 0 {
      if Subadditive(counter) {
        AllFitNonEmpty(chunks, text, chunkSize, counter);
      }
      chunks := NonEmpty(chunks);
    }
  }

  /** When the first split fits, the split point of the remaining splits takes
      at least that split, and the chunk it returns fits. */
  lemma ProbeFirstSplit(splits: seq<string>, i: nat, chunkSize: int, splitter: string,
                        counter: string -> nat, optimal: int)
    requires i < |splits| && counter([]) <= chunkSize
    requires Count(splits[i], chunkSize, counter) <= chunkSize
    requires SplitPoint(splits[i..], chunkSize, splitter, counter, optimal)
    ensures 1 <= optimal <= |splits| - i
    ensures PyPrefix(splits[i..], optimal) == splits[i..i + optimal]
    ensures counter(Join(PyPrefix(splits[i..], optimal), splitter)) <= chunkSize
  {
    var rest := splits[i..];
    assert rest[..0] == [];
    CountShort([], chunkSize, counter);
    assert rest[..1] == [splits[i]];
    assert PyPrefix(rest, optimal) == rest[..optimal];
  }
}
