# semchunk core, modelled in Dafny

This project models the two cores of the `semchunk` repository and proves properties of them.

**Semantic boundary hierarchy** (`src/semchunk/boundaries.py`):
- `get_split_offsets` returns the start offset of every piece when a text is cut on equal-width literal delimiters.
- `get_semantic_bounderies` builds one offset level per granularity: paragraphs, sentences, subparts and tokens. It then propagates every coarser offset into every finer level with `insort_left`.
- `adapt_semantic_boundaries` re-bases a hierarchy onto a window of the text. The window may contain an inserted span.

**Recursive chunker** (`src/semchunk/semchunk.py`):
- `_split_text` picks the most meaningful splitter present in the text.
- `count` is the token count with a length heuristic.
- `find_split` is the n-ary search for the longest prefix of splits that fits.
- `chunk_legacy` and `chunk` are the two recursive chunkers.

Files:
- `scan.dfy` (module `Scan`) holds the literal scan shared by both cores. `re.split` on a pattern of escaped literals joined by `|` is a leftmost, non-overlapping scan. `str.split` is the same scan with one separator. `str.join` is `Join`.
- `boundaries.dfy` (module `Boundaries`) models `boundaries.py`.
  - Each loop of the source is a method.
  - `GetSplitOffsets`, `BuildLevels` (the loop over chunk types), `AdaptLevelScan`, `AdaptLevels` and `AnchorLevels` are each proved equal to a specification function: `SplitOffsets`, `RawLevels`, `AdaptLevel`, and `AdaptLevel` and `Anchor` level by level. The properties are proved about those functions.
  - The triple loop `Propagate` is not proved equal to a function. It is specified by two predicates. `Propagated` fixes the offsets each level holds and the order it keeps. `PropagatedCounts` fixes how often each offset occurs. When the raw levels are sorted, the two predicates fix the result completely (`PropagatedUnique`).
  - `GetSemanticBoundaries` is specified by `RawHierarchy` plus `Propagated` and `PropagatedCounts`. `AdaptSemanticBoundaries` is specified by `AdaptHierarchy`.
  - `get_semantic_bounderies`' input is the datatype `Document`: `PlainText(text)` or `Annotated(text, sentStarts, tokenStarts)`. This replaces the `type(doc) == str` probe.
  - The Python exceptions are `Result` errors: `IndexOutOfRange` for `delimiters[0]` on an empty list, `AssertionFailed` for delimiters of different widths, and `UnknownChunkType` for the `ValueError`.
- `semchunk.dfy` (module `Semchunk`) models `semchunk.py`.
  - `_split_text` and `count` are pure functions. `find_split` is a method with its `while` loop.
  - `chunk_legacy` and `chunk` are recursive methods with their `for` loop, the `skips` set and the in-place update of the last chunk.
  - The body of each chunker's loop is split into methods. `TakeLegacy` and `Take` choose between the recursive call (`RechunkLegacy`, `Rechunk`) and the merge (`MergeFollowing`, `Merge`). `AttachSplitterLegacy` and `AttachSplitter` are the splitter step.
  - The token counter is a parameter `counter: string -> nat`.

Two facts about the code that the model keeps as they are:
- Mixed delimiter widths fail through the bare `assert` at `boundaries.py:16`. An empty delimiter list fails with `IndexError` at `boundaries.py:15`.
- Levels are merged by repeated `insort_left` (`boundaries.py:80-84`).

The code and its comments disagree in one place, and the model follows the code:
- The comment at `semchunk.py:21-24` calls the splitter "the largest sequence" of newlines, tabs or whitespace. The code takes `max` of the runs, which is the lexicographically greatest run. For newlines and general whitespace that is not always the longest run: in `"\n\na\r"` the splitter is `"\r"`. `NewlineSplitterNotLongest` shows this. For tabs the two readings agree (`TabSplitterIsLongestRun`).

How the chunkers terminate: a split is shorter than its text. The one exception is a single character that is neither whitespace nor punctuation, which `_split_text` returns as the one-element `list(text)`. The chunkers require `Chunkable`: the empty string fits, and so does every character that cannot be split further. This condition is sufficient for the recursion to be well founded on the text's length. It is not necessary. Outside it the source can recurse without end (a lone letter that does not fit), which CPython stops with `RecursionError`; it can also take `chunks[-1]` of an empty list, or return normally.

What the chunks hold: `Visible(Concat(chunks)) == Visible(text)`. Concatenated, the chunks give back the text with its whitespace removed. The docstrings promise this at `semchunk.py:58` and `semchunk.py:162`. The loop keeps it as an invariant: the chunks so far hold the splits taken so far, joined (`Taken`).

What the chunkers promise about size (`Fits`): every chunk keeps within `chunk_size`, or it is a punctuation splitter of the text standing alone. The source appends such a splitter as its own chunk when it fits nowhere else, whatever its count. For `chunk` this holds when the counter is subadditive. `chunk` re-attaches a splitter when `counter(chunk) + counter(splitter) <= chunk_size`, which bounds `counter(chunk + splitter)` only for such counters. The comment at `semchunk.py:198-200` notes that the two separate counts can differ from the joint count. The case it names, the last token and the splitter merging into one token, makes the joint count smaller and never breaks the bound. The bound fails only for counters with `counter(a + b) > counter(a) + counter(b)`, which the source does not mention.

## Model

| member | source | states |
|---|---|---|
| Scan.NextMatch | src/semchunk/boundaries.py:17 | the scan's next match is the leftmost match at or after the current position; none starts before it |
| Scan.PiecesAreSlices | src/semchunk/boundaries.py:17 | every piece is a slice of the text; when some delimiter occurs, every piece is shorter than the text |
| Scan.PieceCharsInText | src/semchunk/semchunk.py:46 | every character of a piece is a character of the text |
| Scan.JoinPiecesFrom | src/semchunk/semchunk.py:46 | splitting on a non-empty separator and joining with it gives the text back |
| Scan.JoinAppend | src/semchunk/semchunk.py:89 | joining two non-empty lists is joining each and putting the separator between them; so adding one split to a joined chunk appends the separator and the split |
| Scan.PiecesFrom | src/semchunk/boundaries.py:17 | the scan from any position yields at least one piece |
| Scan.Split | src/semchunk/boundaries.py:17 | `re.split` yields at least one piece, none longer than the text |
| Scan.Chars | src/semchunk/semchunk.py:43 | `list(text)` has one one-character string per character of the text, in order |
| Scan.JoinChars | src/semchunk/semchunk.py:43 | `''.join(list(text))` is the text |
| Scan.ZeroWidthPieces | src/semchunk/boundaries.py:17 | a pattern matching only the empty string cuts before every character and at both ends |
| Boundaries.GetSplitOffsets | src/semchunk/boundaries.py:11-21 | the loop returns `SplitOffsets`: an error for an empty or mixed-width delimiter list, else the running start offset of every piece |
| Boundaries.Offsets | src/semchunk/boundaries.py:17-19 | one offset per piece, the first at the start offset |
| Boundaries.SplitOffsets | src/semchunk/boundaries.py:11-21 | a successful result is never empty and starts at 0 |
| Boundaries.OffsetsOfPieces | src/semchunk/boundaries.py:17-19 | the running offsets (piece length plus delimiter width) are 0 followed by the position right after each leftmost match |
| Boundaries.ScanOffsetsIncrease | src/semchunk/boundaries.py:17-19 | those offsets start at the scan start, increase strictly and never pass the end of the text |
| Boundaries.ScanOffsetsLeftmost | src/semchunk/boundaries.py:14-19 | each offset follows the leftmost match after the previous one; no match starts after the last offset |
| Boundaries.ScanWellFormed | src/semchunk/boundaries.py:17-19 | the scan's offsets start at 0, increase strictly, stay within the text, each later one follows a match, and no match is skipped |
| Boundaries.StepsAreMatches | src/semchunk/boundaries.py:17-19 | leftmost steps give offsets that each follow a match starting at or after the previous offset, with no match between two offsets and none after the last |
| Boundaries.LeftmostAgree | src/semchunk/boundaries.py:17-19 | two lists of leftmost offsets agree at every position both have |
| Boundaries.LeftmostExtends | src/semchunk/boundaries.py:17-19 | two lists of leftmost offsets that agree at a position both go on past it or both stop there |
| Boundaries.LeftmostOffsetsUnique | src/semchunk/boundaries.py:17-19 | only one list of offsets is leftmost for a text, so `LeftmostOffsets` characterises the result of `get_split_offsets` |
| Boundaries.SplitOffsetsWellFormed | src/semchunk/boundaries.py:12-19 | with non-empty equal-width delimiters: first offset 0, strictly increasing, within the text, each later offset right after a delimiter that starts at or after the previous offset, no delimiter skipped |
| Boundaries.SplitOffsetsLevel | src/semchunk/boundaries.py:11-21 | with non-empty delimiters a successful result is a well-formed level: it starts at 0, increases strictly and stays within the text |
| Boundaries.SplitOffsetsSingleIffNoDelimiter | src/semchunk/boundaries.py:17-19 | the result is exactly `[0]` if and only if no delimiter occurs in the text |
| Boundaries.UnitPieceOffsets | src/semchunk/boundaries.py:18-19 | pieces of one character with zero-width delimiters give consecutive offsets |
| Boundaries.SplitOffsetsZeroWidth | src/semchunk/boundaries.py:14-19 | zero-width delimiters give 0 followed by every position from 0 to the text length |
| Boundaries.SplitOffsetsErrors | src/semchunk/boundaries.py:15-16 | an error comes exactly for an empty list (`IndexOutOfRange`) or delimiters of different widths (`AssertionFailed`) |
| Boundaries.SplitOffsetsExample | src/semchunk/boundaries.py:12-19 | `"a. b? c! "` on `. `, `? `, `! ` gives `[0, 3, 6, 9]`; `["ab", "c"]` fails the width assertion |
| Boundaries.ExampleMatches | src/semchunk/boundaries.py:14-17 | in `"a. b? c! "` the delimiters match at 1, 4 and 7 and not at 0, 3 or 6 |
| Boundaries.ExampleScan | src/semchunk/boundaries.py:17-19 | the scan of that example gives `[0, 3, 6, 9]` |
| Boundaries.BisectLeft | src/semchunk/boundaries.py:84 | on a sorted level, the position returned has every element before it below `x` and none after it below `x` |
| Boundaries.InsertElems | src/semchunk/boundaries.py:84 | inserting at a position adds exactly `x` to the offsets |
| Boundaries.InsertOrdered | src/semchunk/boundaries.py:84 | inserting at the `bisect_left` position keeps a level sorted, and strictly increasing when `x` is new |
| Boundaries.InsertFresh | src/semchunk/boundaries.py:83-84 | inserting an absent offset anywhere keeps a level free of duplicates |
| Boundaries.InsortLeft | src/semchunk/boundaries.py:84 | the result is the level with `x` inserted at one position, the `bisect_left` position when the level is sorted; its multiset gains exactly one `x`; sortedness kept, strictness and distinctness kept when `x` was absent |
| Boundaries.UnionBelowMonotone | src/semchunk/boundaries.py:80-84 | the offsets of the first `a` levels are among those of the first `b >= a` levels |
| Boundaries.DisjointUnion | src/semchunk/boundaries.py:83-84 | the multiset of a union of disjoint offset sets is the sum of their multisets |
| Boundaries.MergedInsert | src/semchunk/boundaries.py:83-84 | inserting an offset the level lacks, once, extends the merge by that offset |
| Boundaries.MergedPresent | src/semchunk/boundaries.py:83 | an offset already in the level leaves it unchanged and extends the merge |
| Boundaries.MergedTwice | src/semchunk/boundaries.py:81-84 | merging one set, then another, is merging their union |
| Boundaries.InsertIfMissing | src/semchunk/boundaries.py:83-84 | one step of the innermost loop extends the merge by `b` and keeps the level's shape |
| Boundaries.MergeLevel | src/semchunk/boundaries.py:82-84 | after the innermost loop, the finer level holds its own offsets, repetitions included, plus each offset of the coarser level it lacked exactly once; it keeps its shape, and no other level changes |
| Boundaries.PropagateLevel | src/semchunk/boundaries.py:81-84 | one pass of the middle loop merges level `i`'s offsets, once each, into every finer level and leaves levels up to `i` unchanged |
| Boundaries.Propagate | src/semchunk/boundaries.py:80-84 | after the triple loop, level `j` holds exactly the offsets of raw levels `0..j`: its own raw offsets with their repetitions, and each coarser offset it lacked exactly once; it keeps the sortedness, strictness and distinctness it had |
| Boundaries.StageStart | src/semchunk/boundaries.py:80 | before the outer loop no level has been merged into |
| Boundaries.StageStep | src/semchunk/boundaries.py:80-84 | one pass of the outer loop extends every finer level's merge by level `i` |
| Boundaries.StageLevel | src/semchunk/boundaries.py:81-84 | for one finer level, merging level `i` after levels `0..i-1` is merging levels `0..i` |
| Boundaries.StageFinal | src/semchunk/boundaries.py:80-84 | when the outer loop ends, every level holds the merge of all coarser levels, so the result is `Propagated` with its counts |
| Boundaries.HeadIsLeast | src/semchunk/boundaries.py:84 | the first element of a sorted level is its least |
| Boundaries.Tail | src/semchunk/boundaries.py:84 | dropping the head of a sorted level keeps it sorted and removes one occurrence of the head |
| Boundaries.SortedUnique | src/semchunk/boundaries.py:84 | two sorted levels with the same multiset are equal |
| Boundaries.PropagatedUnique | src/semchunk/boundaries.py:80-84 | on sorted raw levels, `Propagated` with its counts admits exactly one result |
| Boundaries.PropagatedSubsetClosed | src/semchunk/boundaries.py:78-84 | after propagation every coarser level is a subset of every finer level |
| Boundaries.PropagatedWellFormed | src/semchunk/boundaries.py:80-84 | levels that start at 0, increase strictly and stay within the text still do after propagation |
| Boundaries.UnionBelowBounded | src/semchunk/boundaries.py:80-84 | every offset of well-formed levels lies within the text |
| Boundaries.PrependTwice | src/semchunk/boundaries.py:59-76 | adding levels one at a time in front of the rest equals adding them all at once |
| Boundaries.SentenceAndTokenStarts | src/semchunk/boundaries.py:47-57 | for plain text the sentence and token levels each start at 0; an error comes only for plain text whose sentence or token delimiters are invalid |
| Boundaries.RawLevels | src/semchunk/boundaries.py:59-76 | one level per name on success; an error names an unknown chunk type among the names |
| Boundaries.RawHierarchy | src/semchunk/boundaries.py:47-76 | one level per name on success |
| Boundaries.BuildLevels | src/semchunk/boundaries.py:59-76 | the loop over the chunk types computes `RawLevels` |
| Boundaries.GetSemanticBoundaries | src/semchunk/boundaries.py:24-87 | the result is the raw hierarchy after propagation (contents, counts and shape), or the same error the raw hierarchy raises |
| Boundaries.RawLevelsShape | src/semchunk/boundaries.py:59-76 | one level per requested name, in order, each the level of its granularity; an error exactly when some name is unknown, naming the first such name |
| Boundaries.RawHierarchyLevels | src/semchunk/boundaries.py:47-74 | paragraphs and subparts always come from their fixed delimiters; sentences and tokens come from the annotation when present, else from the heuristic delimiters |
| Boundaries.RawHierarchyErrors | src/semchunk/boundaries.py:47-76 | for plain text a bad sentence list fails first, then a bad token list; otherwise the call succeeds exactly when every name is one of the four |
| Boundaries.PlainTextHierarchyWellFormed | src/semchunk/boundaries.py:47-84 | for plain text every level of the hierarchy starts at 0, increases strictly, stays within the text, and coarser levels are subsets of finer ones |
| Boundaries.DefaultCallWellFormed | src/semchunk/boundaries.py:24-28 | with the default chunk types and delimiters, plain text always succeeds with four levels, each well formed after propagation |
| Boundaries.Relocate | src/semchunk/boundaries.py:108-111 | a relocated offset is moved by the window start, and by the inserted length or not at all; with no inserted characters, only by the window start |
| Boundaries.AdaptLevel | src/semchunk/boundaries.py:107-117 | every offset the scan keeps lies in `[0, chunk_len]` |
| Boundaries.Anchor | src/semchunk/boundaries.py:120-122 | the anchored level starts with 0 and is the level, with a 0 put in front if it did not start with one |
| Boundaries.AdaptHierarchy | src/semchunk/boundaries.py:104-124 | one level per input level, each non-empty and starting at 0 |
| Boundaries.AdaptLevelScan | src/semchunk/boundaries.py:107-117 | the inner loop with its `break` computes `AdaptLevel` |
| Boundaries.AdaptLevels | src/semchunk/boundaries.py:104-117 | the first loop scans every level into the window: level `m` becomes `AdaptLevel` of input level `m` |
| Boundaries.AnchorLevels | src/semchunk/boundaries.py:120-122 | the second loop anchors every level at 0 |
| Boundaries.AdaptSemanticBoundaries | src/semchunk/boundaries.py:90-124 | the two loops compute `AdaptHierarchy` |
| Boundaries.AdaptHierarchyAnchoredAndBounded | src/semchunk/boundaries.py:104-122 | one level per input level; every level begins with 0 and lies within `[0, chunk_len]` |
| Boundaries.RelocateMonotone | src/semchunk/boundaries.py:108-111 | with an inserted span of non-negative length, relocation never brings two offsets closer together, so it keeps their order |
| Boundaries.AdaptLevelKeepsExactlyInWindow | src/semchunk/boundaries.py:107-117 | on a sorted level the early exit loses nothing: `x` is kept if and only if some offset relocates to `x` within `[0, chunk_len]` |
| Boundaries.AdaptLevelStrictlyIncreasing | src/semchunk/boundaries.py:107-117 | a strictly increasing level stays strictly increasing after the scan |
| Boundaries.AdaptLevelSorted | src/semchunk/boundaries.py:107-117 | a sorted level stays sorted after the scan, when the inserted length is not negative |
| Boundaries.AdaptHierarchySorted | src/semchunk/boundaries.py:104-122 | sorted levels stay sorted once scanned and anchored |
| Boundaries.AdaptHierarchyStrictlyIncreasing | src/semchunk/boundaries.py:104-122 | strictly increasing levels stay strictly increasing once scanned and anchored |
| Boundaries.AdaptDefaultsKeepWindow | src/semchunk/boundaries.py:90 | with the default inserted length and end position 0, a sorted level keeps exactly its offsets inside the window, shifted by the window start |
| Boundaries.AdaptExample | src/semchunk/boundaries.py:104-122 | `((0,10),(0,3,5,10))` at offset 3 with length 7 gives `((0,7),(0,2,7))` |
| Boundaries.AdaptInsertedExample | src/semchunk/boundaries.py:104-122 | the same levels at offset 3 with length 12 and five characters inserted ending at 0 give `((0,12),(0,5,7,12))` |
| Semchunk.RunEnd | src/semchunk/semchunk.py:26 | a run extends over class characters only and stops before the first character outside the class |
| Semchunk.RunsFrom | src/semchunk/semchunk.py:26 | there are no more runs than characters left |
| Semchunk.RunsFacts | src/semchunk/semchunk.py:26-32 | every run found is a non-empty slice of the text made of class characters; there is a run exactly when some character is in the class |
| Semchunk.LexLe | src/semchunk/semchunk.py:26-32 | Python's string order contains Dafny's prefix order |
| Semchunk.LexLeAntisym | src/semchunk/semchunk.py:26-32 | Python's string order is antisymmetric |
| Semchunk.LexLeTotal | src/semchunk/semchunk.py:26-32 | Python's string order is total |
| Semchunk.LexLeTrans | src/semchunk/semchunk.py:26-32 | Python's string order is transitive |
| Semchunk.MaxString | src/semchunk/semchunk.py:26-32 | `max` returns one of the runs and no run is greater |
| Semchunk.LexLeSameChar | src/semchunk/semchunk.py:29 | on strings of one repeated character the order is by length |
| Semchunk.MaxRun | src/semchunk/semchunk.py:26-32 | the splitter chosen is the greatest run of its class |
| Semchunk.FirstSplitter | src/semchunk/semchunk.py:36-39 | the first punctuation mark in tuple order that occurs in the text; none earlier in the tuple occurs |
| Semchunk.SplitOnMaxRun | src/semchunk/semchunk.py:25-32 | splitting on the greatest run gives a non-empty whitespace splitter made of class characters |
| Semchunk.SplitText | src/semchunk/semchunk.py:15-46 | a whitespace splitter is blank; otherwise it is one punctuation character that occurs in the text |
| Semchunk.SplitTextPriority | src/semchunk/semchunk.py:18-43 | newline runs win over tabs, tabs over other whitespace, whitespace over punctuation; the flag is false only for punctuation; with none present the result is `('', True, list(text))` |
| Semchunk.SplitTextRejoins | src/semchunk/semchunk.py:43-46 | joining the splits with the splitter gives the text back |
| Semchunk.SplitOnPresent | src/semchunk/semchunk.py:46 | splitting on a separator that occurs gives pieces shorter than the text, made of its characters |
| Semchunk.SplitOnMaxRunFacts | src/semchunk/semchunk.py:25-46 | the greatest run occurs in the text and the splits are the text cut on it |
| Semchunk.SplitTextSplitter | src/semchunk/semchunk.py:25-46 | a non-empty splitter occurs in the text; a punctuation splitter is one character of it; an empty splitter means characters with no whitespace or punctuation |
| Semchunk.ShapeOfSplit | src/semchunk/semchunk.py:42-46 | splits exist exactly for non-empty text, are shorter than it except for one unsplittable character, and contain only its characters |
| Semchunk.SplitTextShape | src/semchunk/semchunk.py:15-46 | `_split_text`'s result has that shape |
| Semchunk.NewlineSplitterNotLongest | src/semchunk/semchunk.py:21-26 | for `"\n\na\r"` the splitter is `"\r"`, although `"\n\n"` is a longer run |
| Semchunk.TabSplitterIsLongestRun | src/semchunk/semchunk.py:28-29 | a tab splitter is at least as long as every run of tabs |
| Semchunk.PyPrefix | src/semchunk/semchunk.py:133 | a Python prefix slice is a prefix for any integer bound, and the exact prefix for a bound within the length |
| Semchunk.Count | src/semchunk/semchunk.py:117-135 | `count` equals `counter(text)` when the text is at most `6 * max_size` long; otherwise it is `counter(text)` or `max_size + 1` |
| Semchunk.CountDecidesLikeCounter | src/semchunk/semchunk.py:117-135 | when no prefix counts more than the whole, `count` exceeds `max_size` if and only if the counter does |
| Semchunk.CountShort | src/semchunk/semchunk.py:133-135 | a text of at most one character that fits by the counter fits by `count` |
| Semchunk.FindSplit | src/semchunk/semchunk.py:137-150 | the search returns a split point: the first `k` splits joined fit and the first `k + 1` do not, with the joined prefix as a Python slice |
| Semchunk.SplitPointIsLongestFit | src/semchunk/semchunk.py:137-150 | under monotone counts the split point is the longest fitting prefix, there is only one, and it is not negative when the empty text fits |
| Semchunk.VisibleAppend | src/semchunk/semchunk.py:58 | removing whitespace commutes with concatenation |
| Semchunk.VisibleBlank | src/semchunk/semchunk.py:58 | a whitespace splitter leaves nothing once whitespace is removed |
| Semchunk.ConcatAppend | src/semchunk/semchunk.py:79 | concatenating two lists of chunks is concatenating each |
| Semchunk.ConcatExtendLast | src/semchunk/semchunk.py:105-106 | extending the last chunk by `x` extends the concatenation by `x` |
| Semchunk.ConcatNonEmpty | src/semchunk/semchunk.py:111-113 | dropping empty chunks keeps the concatenation |
| Semchunk.WholeSplit | src/semchunk/semchunk.py:77-79 | chunks that hold one split hold the join of that split alone |
| Semchunk.TakeContent | src/semchunk/semchunk.py:77-101 | taking the next splits as chunks extends the text held to the join of all splits taken |
| Semchunk.SplitterContent | src/semchunk/semchunk.py:103-109 | after the splitter step the chunks hold the splits taken, plus the splitter when more splits follow |
| Semchunk.AllTaken | src/semchunk/semchunk.py:111-115 | once every split is taken the chunks, with or without the empty ones, are the text up to whitespace |
| Semchunk.ProbeFirstSplit | src/semchunk/semchunk.py:182-194 | when the first split fits, `find_split` takes at least that split and returns a chunk that fits |
| Semchunk.FitsWhenCharsFit | src/semchunk/semchunk.py:103-109 | when every character of the text fits by the counter, every chunk that `Fits` keeps within `chunk_size`, a lone splitter included |
| Semchunk.ChunkableSplit | src/semchunk/semchunk.py:77-79 | a split made of the text's characters is chunkable when the text is |
| Semchunk.AtomFits | src/semchunk/semchunk.py:42-43 | a chunkable unsplittable character fits by the counter and by `count` |
| Semchunk.RecursiveSplit | src/semchunk/semchunk.py:77-79 | a split the chunker recurses into is non-empty, shorter than the text and chunkable |
| Semchunk.Range | src/semchunk/semchunk.py:191 | `range(lo, hi)` holds exactly the integers from `lo` below `hi` |
| Semchunk.Span | src/semchunk/semchunk.py:72 | the indices `lo .. hi - 1` in order |
| Semchunk.SkipStep | src/semchunk/semchunk.py:72-75 | an index in `skips` was already taken into a chunk, so skipping it loses nothing |
| Semchunk.TakeStep | src/semchunk/semchunk.py:72-98 | an index not skipped is the next untaken split; taking it and the merged splits moves the frontier past them |
| Semchunk.AllFitWithin | src/semchunk/semchunk.py:77-79 | chunks of a split fit the text when they fit the split and the split's characters are the text's |
| Semchunk.AllFitConcat | src/semchunk/semchunk.py:79 | `chunks.extend` of fitting chunks keeps all chunks fitting |
| Semchunk.AllFitAttach | src/semchunk/semchunk.py:103-109 | replacing the last chunk or appending one that fits keeps all chunks fitting |
| Semchunk.NonEmpty | src/semchunk/semchunk.py:111-113 | `filter(None, chunks)` keeps exactly the non-empty chunks |
| Semchunk.AllFitNonEmpty | src/semchunk/semchunk.py:111-113 | dropping empty chunks keeps all chunks fitting |
| Semchunk.MergeFollowing | src/semchunk/semchunk.py:84-98 | the merged chunk joins the splits `i .. next - 1`, fits, and cannot take the next split without exceeding `chunk_size` |
| Semchunk.LastTaken | src/semchunk/semchunk.py:104 | the test "last split, or every later split skipped" holds exactly when no split is left |
| Semchunk.AttachSplitterLegacy | src/semchunk/semchunk.py:104-109 | the splitter joins the last chunk exactly when the result fits, and is a chunk of its own otherwise; it ends up at the end of the concatenation, and every chunk still fits |
| Semchunk.RechunkLegacy | src/semchunk/semchunk.py:77-79 | the recursive call returns fitting chunks that hold the split |
| Semchunk.TakeLegacy | src/semchunk/semchunk.py:77-101 | one split not skipped adds fitting chunks that hold the splits `i .. next - 1`; a split too large is chunked alone (`next == i + 1`); otherwise one chunk joins the splits `i .. next - 1` and could not take split `next` too without exceeding `chunk_size` |
| Semchunk.ChunkLegacy | src/semchunk/semchunk.py:48-115 | the chunks, concatenated, are the text up to whitespace; every chunk fits or is a lone punctuation splitter; no empty chunk at the top level; a non-empty result inside the recursion; every split taken exactly once, in order |
| Semchunk.AttachSplitter | src/semchunk/semchunk.py:197-204 | the splitter joins the last chunk exactly when `counter(last) + counter(splitter) <= chunk_size`, and is a chunk of its own otherwise; it ends up at the end of the concatenation; every chunk still fits when the counter is subadditive |
| Semchunk.Rechunk | src/semchunk/semchunk.py:182-183 | the recursive call returns chunks that hold the split, fitting when the counter is subadditive |
| Semchunk.Merge | src/semchunk/semchunk.py:186-194 | the `find_split` step takes at least split `i` and returns one fitting chunk that joins the splits `i .. next - 1`, where `next - i` is `find_split`'s split point |
| Semchunk.Take | src/semchunk/semchunk.py:182-194 | one split not skipped adds chunks that hold the splits `i .. next - 1`, fitting when the counter is subadditive; a split too large by `count` is chunked alone (`next == i + 1`); otherwise one chunk joins the splits up to `find_split`'s split point |
| Semchunk.Chunk | src/semchunk/semchunk.py:152-210 | the chunks, concatenated, are the text up to whitespace; otherwise the same as `chunk_legacy`, with the size bound for subadditive counters |

## Left out

- Memoisation is not modelled: `functools.cache`, the `_memoised_token_counters` dictionary, the `memoize` parameter and the `chunk = wraps(chunk)(cache(chunk))` rebinding. They cache calls and change no result.
- The tokenizer is left out. It is the arbitrary function parameter `counter`.
- The spaCy import and its fallback are left out. An annotated document is the `Annotated` constructor.
- Python's `re` engine is not modelled.
  - `re.split` on escaped literals and `str.split` are the literal scan of `Scan`.
  - `re.findall` of `[\r\n]+`, `\t+` and `\s+` is `RunsFrom` over a character predicate.
  - `\s` is the fixed list of code points Python matches with it.
- Conversion of the result to tuples is left out. Levels are sequences, which are values already.
- List aliasing is left out. When a granularity name is requested twice, the source appends the same list object twice. The model has value semantics.
- `tests/bench.py` is left out: it is wall-clock timing over external libraries. `src/semchunk/__init__.py` is left out: it holds re-exports only.
- MergeFollowing: the source adds each merged index to `skips` inside the inner loop. The model adds the same indices after the loop, as `Range(i + 1, next)`.
- ChunkLegacy: requires `Chunkable`, which is sufficient for termination but not necessary. Without it the source can recurse until CPython raises `RecursionError`, or index an empty list (`IndexError`). The model does not give those outcomes a `Result`, and it says nothing about the inputs outside `Chunkable` on which the source returns normally.
- ChunkLegacy, Chunk: the greedy merge and the choice for the splitter are stated per step, not in the chunkers' own ensures. They are stated on `TakeLegacy`, `Take`, `MergeFollowing`, `Merge`, `AttachSplitterLegacy` and `AttachSplitter`, which the loop calls. The chunkers' ensures state content, size and the order in which splits are taken, not which splits share a chunk.
- ChunkLegacy, Chunk: the content is stated up to all whitespace. `Visible` drops every whitespace character, not only the whitespace splitters the source removes. The ensures does not say which whitespace a chunk keeps.
- Chunk: requires `Chunkable`, as `ChunkLegacy` does. The chunk-size bound is proved only for subadditive counters, because the splitter re-attachment adds two separate counts.
- Chunk: when the empty string does not fit, `find_split` can return the split point -1 and `chunk` silently loses text. The model does not cover this case. Take `counter('') = 2`, `counter('a') = counter('b') = 1`, `counter('a b') = 5` and `chunk_size = 1`. Then `chunk('a b')` returns `['a']` and `chunk_legacy('a b')` returns `['a', 'b']`.
- InsortLeft: on an unsorted level the contract leaves the insertion position free. `BisectLeft` runs the source's binary search, but its contract pins the position only for a sorted level.
- Propagate: the result is fixed completely only when every raw level is sorted (`PropagatedUnique`). For an unsorted raw level the contract fixes contents, counts and the shape kept, but not the order.
- AdaptLevelKeepsExactlyInWindow, AdaptLevelSorted, AdaptHierarchySorted, AdaptLevelStrictlyIncreasing, AdaptHierarchyStrictlyIncreasing: these assume a non-negative inserted length and a sorted (or strictly increasing) input level. Otherwise relocation can reorder offsets, and the source makes no promise.
- PlainTextHierarchyWellFormed: this assumes non-empty sentence and token delimiters. Zero-width delimiters give the offset 0 twice (`SplitOffsetsZeroWidth`), so those levels are not strictly increasing.
