# solr-ocrhighlighting, modelled in Dafny

This project models the core of solr-ocrhighlighting in Dafny and proves properties of the model. solr-ocrhighlighting is a Solr plugin that highlights search matches in OCR documents (hOCR, ALTO and MiniOCR) and returns them with their page coordinates. It reads the OCR text from external files through byte-offset source pointers. The repository also ships two scripts: a converter from hOCR/ALTO to MiniOCR, and a class-file patcher for older Solr versions.

The model has one module per source file:

- **Reading sources.**
  - `SourcePointer`: pointer syntax, regions and round trips.
  - `ExternalUtf8ContentFilterFactory`: region adjustment over concatenated sources, skipping a byte-order mark.
  - `BaseSourceReader`: sectioned LRU cache, ASCII and UTF-8 reads, offset adjustment.
  - `FileBytesCharIterator`: a byte-indexed character iterator.
  - `PeekingReader`: peek buffer and back context.
- **Decoding and offsets.**
  - `Fastu` and `Unicode`: UTF-8 to UTF-16 decoding, following RFC 3629 and RFC 2781.
  - `Utf8MappingCharFilter`: char-to-byte offset corrections.
  - `NonAlphaTrimFilter`: trimming tokens.
- **Search and break location.**
  - `ArrayUtils` and `CharBufUtils`: floor search and substring search.
  - Break locators: `BaseBreakLocator` with its range caches, `ContextBreakLocator`, `TagBreakLocator` and `HocrClassBreakLocator`.
- **OCR formats and parsing.**
  - Format descriptions: `OcrFormat`, `HocrFormat`, `AltoFormat` and `MiniOcrFormat`.
  - `OcrParser` and `HocrParser`: highlight-span tracking, hOCR titles, hyphenation and the text between words.
  - `OcrPassageFormatter`: merging matches, entity-aware positions and the start page.
  - `SanitizingXmlFilter`: in-place XML repair.
  - `ByteOffsetPhraseHelper`: a sorted offset collector.
  - `PageIndex`: the page index file layout, its header and record parsing, and page lookup.
- **Scripts.**
  - `MiniOcr` and `MiniOcrParse`: the MiniOCR converter in `util/miniocr.py`.
  - `PatchBytecode`: the constant-pool walker and patcher in `util/patch_solr78_bytecode.py`.
- **Shared vocabulary.**
  - `Common`: `Option`/`Result`, Java string primitives and sequence lemmas.

How the model is built:

- State that the source updates in place is a Dafny `class`. This covers the caches, readers, filters, parsers and locators.
- Pure logic consists of functions and lemmas.
- Java and Python exceptions become `Err` values that carry the exception's name.
- Where the code has a bug, the model keeps both halves. An "as written" member follows the code and comes with a lemma that shows the failing input. A "corrected" member carries the intended property, and the operational members use it. Each such pair is listed under "## Findings". The third column of each row below starts with a label:
  - "as written": the member follows the code.
  - "corrected": the member holds the corrected behaviour.
  - "as written vs corrected": the member sets the two halves against each other.
  - "as written and corrected alike": the member is stated for both halves.

## Model

Rows list the members that carry a contract. The as-written definitions that only compute, without an `ensures` of their own, are named in the "## Findings" table beside the lemma that exhibits their discrepancy, and that lemma's row cites their source lines.

| member | source | states |
|---|---|---|
| `ArrayUtils.BinaryFloorIdxSearch` | src/main/java/com/github/dbmdz/solrocr/util/ArrayUtils.java:6-31 | as written: -1 for a null or empty array; otherwise an index whose element is at most the key, and on a sorted array the floor (no element at most the key is larger; -1 only when every element exceeds it; an exact hit is found) |
| `CharBufUtils.IndexOf` | src/main/java/de/digitalcollections/solrocr/util/CharBufUtils.java:15-30 | as written: the result is the naive scan's answer; an empty needle gives `fromIndex`; any non-negative result is a real occurrence of the needle inside the window |
| `CharBufUtils.NaiveScanSound` | src/main/java/de/digitalcollections/solrocr/util/CharBufUtils.java:16-29 | as written: whatever index the scan loop reports starts an occurrence of the needle inside the window |
| `CharBufUtils.NaiveScanMissesOverlap` | src/main/java/de/digitalcollections/solrocr/util/CharBufUtils.java:17-24 | as written vs intended: the scan returns -1 for "ab" in "aab" although "ab" occurs at 1 |
| `CharBufUtils.IndexOfRestarting` | src/main/java/de/digitalcollections/solrocr/util/CharBufUtils.java:5-15 | corrected: the first occurrence of the needle inside the window, restarting after each failed candidate; -1 exactly when no occurrence exists |
| `CharBufUtils.IsWhitespace` | src/main/java/de/digitalcollections/solrocr/util/CharBufUtils.java:32-39 | as written: true exactly when every char of `buf[from..from+len)` is whitespace |
| `Fastu.SequenceLength` | src/main/java/de/digitalcollections/solrocr/util/Fastu.java:33-103 | as written: a lead byte announces at most six bytes, and none exactly for a continuation byte or 0xFE/0xFF, the bytes no branch of the mask chain accepts |
| `Fastu.ToChars` | src/main/java/de/digitalcollections/solrocr/util/Fastu.java:111-123 | as written: an out-of-range code point raises IllegalArgumentException and leaves `dst` alone; otherwise `dst` holds the code point's UTF-16 form at `index`, nothing else changes, and the index after it is returned |
| `Fastu.DecodeBytes` | src/main/java/de/digitalcollections/solrocr/util/Fastu.java:28-109 | as written: the result equals the decoding function `Decode` of the bytes, and a decoded text is never longer than the input |
| `Fastu.DecodeSequenceAt` | src/main/java/de/digitalcollections/solrocr/util/Fastu.java:33-106 | as written: one loop iteration either raises the exception the rest of the decoding raises, or appends the sequence's chars and advances past it, keeping the result in step with `Decode` |
| `Fastu.DecodeMultiByte` | src/main/java/de/digitalcollections/solrocr/util/Fastu.java:39-105 | as written: a multi-byte sequence that fits in the data appends its UTF-16 form, or fails as `Decode` does for a value above U+10FFFF |
| `Fastu.AssembleSequence` | src/main/java/de/digitalcollections/solrocr/util/Fastu.java:40-103 | as written: the unrolled shift-and-or steps compute the sequence's payload value |
| `Fastu.MultiByteStep` | src/main/java/de/digitalcollections/solrocr/util/Fastu.java:39-105 | as written: one well-formed multi-byte sequence adds exactly its UTF-16 form in front of the decoding of the rest |
| `Fastu.DecodeStep` | src/main/java/de/digitalcollections/solrocr/util/Fastu.java:32-107 | as written: one loop step of `decode`: a well-formed leading sequence contributes the UTF-16 form of its value |
| `Fastu.PayloadBound` | src/main/java/de/digitalcollections/solrocr/util/Fastu.java:40-67 | as written: a sequence of two bytes assembles a value below 0x800, of three a BMP value; only four or more bytes reach the supplementary planes |
| `Fastu.DecodeLength` | src/main/java/de/digitalcollections/solrocr/util/Fastu.java:29 | as written: a successful decoding never yields more chars than there were bytes, so the `data.length` buffer suffices |
| `Fastu.DecodeOne` | src/main/java/de/digitalcollections/solrocr/util/Fastu.java:28-123 | as written: decoding the UTF-8 form of one code point consumes exactly its bytes and yields its UTF-16 form |
| `Fastu.SequenceLengthOfLead` | src/main/java/de/digitalcollections/solrocr/util/Fastu.java:33-103 | as written: the lead byte of the UTF-8 form of a code point announces exactly that form's length |
| `Fastu.PayloadOfUtf8` | src/main/java/de/digitalcollections/solrocr/util/Fastu.java:39-103 | as written: the lead and continuation payloads of a code point's UTF-8 form reassemble the code point |
| `Fastu.DecodeUtf8` | src/main/java/de/digitalcollections/solrocr/util/Fastu.java:28-109 | as written, round trip: decoding the UTF-8 form of any code-point sequence yields its UTF-16 form |
| `Fastu.StrayContinuationFails` | src/main/java/de/digitalcollections/solrocr/util/Fastu.java:33-103 | as written: a stray continuation byte matches no branch, so `decode` fails rather than substituting a char |
| `Unicode.Utf16SurrogatePair` | src/main/java/de/digitalcollections/solrocr/util/Fastu.java:119-122 | as written: a supplementary code point is written as a high then a low surrogate, and the pair stands for the code point again |
| `Utf8MappingCharFilter.CharUtf8Size` | src/main/java/de/digitalcollections/solrocr/lucene/Utf8MappingCharFilter.java:53-63 | as written: 1, 2, 3 or 4 bytes by code point range, with anything above U+10FFFF counted as 3 |
| `Utf8MappingCharFilter.StepRangeCounters` | src/main/java/de/digitalcollections/solrocr/lucene/Utf8MappingCharFilter.java:37-51 | as written: for BMP text: `currentOffset` advances by the number of chars, `cumulative` by the UTF-8 byte count minus the char count, and `nextIsOffset` says whether the last char took more than one byte |
| `Utf8MappingCharFilter.StepRangeCorrections` | src/main/java/de/digitalcollections/solrocr/lucene/Utf8MappingCharFilter.java:37-51 | as written: for BMP text, every recorded correction maps a char offset to the extra UTF-8 bytes of the chars before it, so char offset plus correction is the byte offset |
| `Utf8MappingCharFilter.Utf8MappingCharFilter.constructor` | src/main/java/de/digitalcollections/solrocr/lucene/Utf8MappingCharFilter.java:12-16 | as written: both counters start at 0, no correction is recorded, `nextIsOffset` is false |
| `Utf8MappingCharFilter.Utf8MappingCharFilter.CorrectOffsets` | src/main/java/de/digitalcollections/solrocr/lucene/Utf8MappingCharFilter.java:37-51 | as written: the filter's counters and corrections afterwards are those of the per-char step function run over `cbuf[off..off+len)` |
| `Utf8MappingCharFilter.Utf8MappingCharFilter.Step` | src/main/java/de/digitalcollections/solrocr/lucene/Utf8MappingCharFilter.java:39-49 | as written: the state after one char is the step function applied to the old state |
| `Utf8MappingCharFilter.Utf8MappingCharFilter.Read` | src/main/java/de/digitalcollections/solrocr/lucene/Utf8MappingCharFilter.java:19-35 | as written: -1 exactly when chars were requested and the reader was already exhausted; otherwise `min(len, available)` chars are copied, the remaining input shrinks by them, and the offsets of exactly those chars are recorded |
| `Utf8MappingCharFilter.Utf8MappingCharFilter.ReadInput` | src/main/java/de/digitalcollections/solrocr/lucene/Utf8MappingCharFilter.java:23 | as written: the wrapped reader: -1 exactly at its end; otherwise the next `min(lenToRead, available)` chars land at `at` and nothing before `at` changes |
| `NonAlphaTrimFilter.LeadSkips` | src/main/java/de/digitalcollections/solrocr/lucene/NonAlphaTrimFilterFactory.java:52-53 | as written: the length of the maximal run of skippable units at the start of the token |
| `NonAlphaTrimFilter.TrailSkips` | src/main/java/de/digitalcollections/solrocr/lucene/NonAlphaTrimFilterFactory.java:56-57 | as written: the length of the maximal run of skippable units at the end of the token |
| `NonAlphaTrimFilter.Trimmed` | src/main/java/de/digitalcollections/solrocr/lucene/NonAlphaTrimFilterFactory.java:59-65 | as written: the trimmed token is never longer than the token |
| `NonAlphaTrimFilter.RunsDisjoint` | src/main/java/de/digitalcollections/solrocr/lucene/NonAlphaTrimFilterFactory.java:52-57 | as written: when some unit is kept, the trailing run ends after the leading one, so the copy range is not empty |
| `NonAlphaTrimFilter.TrimmedEmptyIffAllSkipped` | src/main/java/de/digitalcollections/solrocr/lucene/NonAlphaTrimFilterFactory.java:59-64 | as written: the token becomes empty exactly when every unit is skippable |
| `NonAlphaTrimFilter.TrimmedIsMiddle` | src/main/java/de/digitalcollections/solrocr/lucene/NonAlphaTrimFilterFactory.java:59-62 | as written: the trimmed token lies between the leading and trailing runs and begins and ends with a kept unit |
| `NonAlphaTrimFilter.TrimmedKeepsEveryKept` | src/main/java/de/digitalcollections/solrocr/lucene/NonAlphaTrimFilterFactory.java:59-65 | as written: every letter or surrogate of the token survives trimming; only skippable units are cut |
| `NonAlphaTrimFilter.LeadSkipsIsFirstKept` | src/main/java/de/digitalcollections/solrocr/lucene/NonAlphaTrimFilterFactory.java:52-53 | as written: the first loop stops at the first kept unit |
| `NonAlphaTrimFilter.TrailSkipsIsLastKept` | src/main/java/de/digitalcollections/solrocr/lucene/NonAlphaTrimFilterFactory.java:56-57 | as written: the second loop stops just after the last kept unit |
| `NonAlphaTrimFilter.TrimmedKeepsCleanToken` | src/main/java/de/digitalcollections/solrocr/lucene/NonAlphaTrimFilterFactory.java:59 | as written: a token with nothing skippable at either end is left as it is |
| `NonAlphaTrimFilter.TrimmedIdempotent` | src/main/java/de/digitalcollections/solrocr/lucene/NonAlphaTrimFilterFactory.java:40-68 | as written: trimming twice is trimming once |
| `NonAlphaTrimFilter.NonAlphaTrimFilter.constructor` | src/main/java/de/digitalcollections/solrocr/lucene/NonAlphaTrimFilterFactory.java:35-37 | as written: the filter wraps the given token stream with an empty term |
| `NonAlphaTrimFilter.NonAlphaTrimFilter.IncrementToken` | src/main/java/de/digitalcollections/solrocr/lucene/NonAlphaTrimFilterFactory.java:40-68 | as written: false exactly when the upstream is exhausted, changing nothing; otherwise the term is the next upstream token trimmed of its leading and trailing skippable runs |
| `ContextBreakLocator.NthNextStep` | src/main/java/com/github/dbmdz/solrocr/iter/ContextBreakLocator.java:34-40 | as written: one more forward step is one more base `following` call |
| `ContextBreakLocator.NthPrevStep` | src/main/java/com/github/dbmdz/solrocr/iter/ContextBreakLocator.java:54-60 | as written: one more backward step is one more base `preceding` call |
| `ContextBreakLocator.NthNextStaysBeyond` | src/main/java/com/github/dbmdz/solrocr/iter/ContextBreakLocator.java:31-38 | as written: once the forward walk reaches a limit inside the text it stays at or beyond it, so returning the limit early is sound |
| `ContextBreakLocator.NthPrevStaysBefore` | src/main/java/com/github/dbmdz/solrocr/iter/ContextBreakLocator.java:51-58 | as written: once the backward walk reaches a limit at or after 0 it stays at or before it |
| `ContextBreakLocator.NthNextMonotone` | src/main/java/com/github/dbmdz/solrocr/iter/ContextBreakLocator.java:30-41 | as written: the forward walk never moves back as steps are added, and leaves the offset after one step |
| `ContextBreakLocator.NthNextBounds` | src/main/java/com/github/dbmdz/solrocr/iter/ContextBreakLocator.java:30-41 | as written: the forward walk from inside the text stays within it |
| `ContextBreakLocator.NthNextGrows` | src/main/java/com/github/dbmdz/solrocr/iter/ContextBreakLocator.java:35-39 | as written: one more forward step never moves back, and moves forward unless at the end |
| `ContextBreakLocator.NthPrevShrinks` | src/main/java/com/github/dbmdz/solrocr/iter/ContextBreakLocator.java:55-59 | as written: one more backward step never moves forward, and moves back unless at 0 |
| `ContextBreakLocator.NextAdvances` | src/main/java/com/github/dbmdz/solrocr/iter/ContextBreakLocator.java:35 | as written: a base forward step within the text never moves back, and moves forward unless at the end |
| `ContextBreakLocator.PrevRetreats` | src/main/java/com/github/dbmdz/solrocr/iter/ContextBreakLocator.java:55 | as written: a base backward step within the text never moves forward, and moves back unless at 0 |
| `ContextBreakLocator.NthPrevMonotone` | src/main/java/com/github/dbmdz/solrocr/iter/ContextBreakLocator.java:50-61 | as written: the backward walk never moves forward as steps are added, and leaves the offset after one step |
| `ContextBreakLocator.NthPrevBounds` | src/main/java/com/github/dbmdz/solrocr/iter/ContextBreakLocator.java:50-61 | as written: the backward walk from a positive offset stays at or after 0 |
| `ContextBreakLocator.ContextBreakLocator.constructor` | src/main/java/com/github/dbmdz/solrocr/iter/ContextBreakLocator.java:17-21 | as written: keeps the two locators and the context size |
| `ContextBreakLocator.ContextBreakLocator.Following` | src/main/java/com/github/dbmdz/solrocr/iter/ContextBreakLocator.java:24-42 | as written: never beyond the limit (the limit locator's next break, or the text length), and inside the text the (contextSize + 1)-th base break after the offset unless the limit comes first |
| `ContextBreakLocator.ContextBreakLocator.WidenForward` | src/main/java/com/github/dbmdz/solrocr/iter/ContextBreakLocator.java:30-41 | as written: the loop returns the minimum of the limit and the (contextSize + 1)-th base break |
| `ContextBreakLocator.ContextBreakLocator.Preceding` | src/main/java/com/github/dbmdz/solrocr/iter/ContextBreakLocator.java:45-62 | as written: never before the limit (the limit locator's previous break, or 0), and for a positive offset the (contextSize + 1)-th base break before it unless the limit comes first |
| `ContextBreakLocator.ContextBreakLocator.WidenBackward` | src/main/java/com/github/dbmdz/solrocr/iter/ContextBreakLocator.java:50-61 | as written: the loop returns the maximum of the limit and the (contextSize + 1)-th base break before the offset |
| `BaseBreakLocator.OptimizedLastIndexOf` | src/main/java/de/digitalcollections/solrocr/iter/BaseBreakLocator.java:35-42 | as written: the last occurrence of the needle starting before `fromIdx`, as `String.lastIndexOf(needle, fromIdx - 1)` answers it, or -1 |
| `BaseBreakLocator.Next` | src/main/java/de/digitalcollections/solrocr/iter/BaseBreakLocator.java:73-76 | as written: the reference `getFollowing`: a break after `x` with none between, or the text length when none follows |
| `BaseBreakLocator.Prev` | src/main/java/de/digitalcollections/solrocr/iter/BaseBreakLocator.java:102 | as written: the reference `getPreceding`: a break before `x` with none between, or 0 when none precedes |
| `BaseBreakLocator.GapNext` | src/main/java/de/digitalcollections/solrocr/iter/BaseBreakLocator.java:77 | corrected: every offset of `[lo, hi)` between two neighbouring bounds has `hi` as its following break, so caching the range is sound |
| `BaseBreakLocator.GapPrev` | src/main/java/de/digitalcollections/solrocr/iter/BaseBreakLocator.java:78 | corrected: every offset of `(lo, hi]` between two neighbouring bounds has `lo` as its preceding break |
| `BaseBreakLocator.AroundIsGap` | src/main/java/de/digitalcollections/solrocr/iter/BaseBreakLocator.java:62-78 | corrected: the last break at or before `x` and the first break after it span a gap |
| `BaseBreakLocator.BeforeIsGap` | src/main/java/de/digitalcollections/solrocr/iter/BaseBreakLocator.java:91-104 | corrected: the last break before `x` and the first break at or after it span a gap |
| `BaseBreakLocator.GetEntry` | src/main/java/de/digitalcollections/solrocr/iter/BaseBreakLocator.java:62 | as written: the range map's `getEntry(x)`: the entry returned holds `x`, and none is returned only when no stored range holds it |
| `BaseBreakLocator.ClipOutside` | src/main/java/de/digitalcollections/solrocr/iter/BaseBreakLocator.java:77-78 | as written: a range-map `put` leaves the value of every offset outside the new range unchanged |
| `BaseBreakLocator.ClipInside` | src/main/java/de/digitalcollections/solrocr/iter/BaseBreakLocator.java:77-78 | as written: after the cut, no stored range holds an offset of the new range |
| `BaseBreakLocator.PutGet` | src/main/java/de/digitalcollections/solrocr/iter/BaseBreakLocator.java:77-78 | as written: after `put(range, v)`, offsets in the range answer `v` and all others answer what they did before |
| `BaseBreakLocator.PiecesOfGap` | src/main/java/de/digitalcollections/solrocr/iter/BaseBreakLocator.java:77-78 | as written: two gaps never partly overlap, so cutting one out of another leaves it whole or removes it |
| `BaseBreakLocator.PutForward` | src/main/java/de/digitalcollections/solrocr/iter/BaseBreakLocator.java:77 | corrected: putting a gap mapped to its upper end keeps every forward-cache entry a gap mapped to its following break |
| `BaseBreakLocator.PutBackward` | src/main/java/de/digitalcollections/solrocr/iter/BaseBreakLocator.java:78 | corrected: putting a gap mapped to its lower end keeps every backward-cache entry a gap mapped to its preceding break |
| `BaseBreakLocator.FollowingOnBreakAsWritten` | src/main/java/de/digitalcollections/solrocr/iter/BaseBreakLocator.java:62-77 | as written vs intended: with breaks 10, 20, 30, `following(20)` caches `[10, 30) -> 30`, so a later `following(15)` answers 30 where the next break is 20 |
| `BaseBreakLocator.BaseBreakLocator.constructor` | src/main/java/de/digitalcollections/solrocr/iter/BaseBreakLocator.java:44-46 | as written: the locator starts with both caches empty over the given breaks |
| `BaseBreakLocator.BaseBreakLocator.Following` | src/main/java/de/digitalcollections/solrocr/iter/BaseBreakLocator.java:54-80 | corrected: DONE at or past the text end, otherwise the first break after the offset whatever the caches hold, and both caches stay sound; the cached range starts at the last break at or before the offset rather than before it |
| `BaseBreakLocator.BaseBreakLocator.Preceding` | src/main/java/de/digitalcollections/solrocr/iter/BaseBreakLocator.java:83-106 | corrected: DONE at or before 0, otherwise the last break before the offset whatever the caches hold, and both caches stay sound; the cached range ends at the first break at or after the offset |
| `TagBreakLocator.BreakTag` | src/main/java/com/github/dbmdz/solrocr/iter/TagBreakLocator.java:24-28 | as written: `</name>` for a closing tag and `<name` for an opening one; never empty |
| `TagBreakLocator.OccursInBlock` | src/main/java/com/github/dbmdz/solrocr/iter/TagBreakLocator.java:37-38 | as written: an occurrence in the block `text[a..b]` is exactly an occurrence of the text lying wholly between a and b |
| `TagBreakLocator.IndexOfSkip` | src/main/java/com/github/dbmdz/solrocr/iter/TagBreakLocator.java:36-47 | as written: with no occurrence in [a, c), the first occurrence from a is the first from c |
| `TagBreakLocator.LastIndexOfSkip` | src/main/java/com/github/dbmdz/solrocr/iter/TagBreakLocator.java:56-67 | as written: with no occurrence in (c, a], the last occurrence up to a is the last up to c |
| `TagBreakLocator.BlockIndexOf` | src/main/java/com/github/dbmdz/solrocr/iter/TagBreakLocator.java:37-41 | as written: the block search finds the first occurrence from a when one lies wholly inside the block, and otherwise reports none |
| `TagBreakLocator.BlockLastIndexOfMisses` | src/main/java/com/github/dbmdz/solrocr/iter/TagBreakLocator.java:57-58 | as written: an occurrence wholly inside the block is found by the backward block search |
| `TagBreakLocator.BlockLastIndexOfAfter` | src/main/java/com/github/dbmdz/solrocr/iter/TagBreakLocator.java:57-58 | as written: no occurrence inside the block follows the one the backward block search finds |
| `TagBreakLocator.BlockLastIndexOfMissing` | src/main/java/com/github/dbmdz/solrocr/iter/TagBreakLocator.java:57-58 | as written: no occurrence lies inside the block when the backward block search finds none |
| `TagBreakLocator.BlockLastIndexOf` | src/main/java/com/github/dbmdz/solrocr/iter/TagBreakLocator.java:57-61 | as written: a hit of the backward block search is the last occurrence in the text ending by the block end |
| `TagBreakLocator.PrecedingBlock` | src/main/java/com/github/dbmdz/solrocr/iter/TagBreakLocator.java:56-67 | as written: one block of `getPreceding`: a hit is the last occurrence ending by `end`; a miss in the first block means none exists; a miss later carries the search to the previous, overlapping block |
| `TagBreakLocator.Occurrences` | src/main/java/com/github/dbmdz/solrocr/iter/TagBreakLocator.java:32-49 | as written: the positions from `from` on where the tag occurs, in increasing order, each a real occurrence |
| `TagBreakLocator.OccurrencesComplete` | src/main/java/com/github/dbmdz/solrocr/iter/TagBreakLocator.java:32-49 | as written: every occurrence from `from` on is listed |
| `TagBreakLocator.TagBreaks` | src/main/java/com/github/dbmdz/solrocr/iter/TagBreakLocator.java:4 | as written: the breaks of a tag locator are the occurrences strictly inside the text, sorted, as the shared locator expects |
| `TagBreakLocator.FollowingIsNextBreak` | src/main/java/com/github/dbmdz/solrocr/iter/TagBreakLocator.java:32-49 | corrected: for offsets in the text, `getFollowing` is the shared locator's next break over the tag breaks |
| `TagBreakLocator.PrecedingIsShiftedPrevBreak` | src/main/java/com/github/dbmdz/solrocr/iter/TagBreakLocator.java:52-69 | as written: `getPreceding(offset)` is the previous break taken before `offset - 1 - |tag|` rather than before `offset`: a tag ending after `offset - 1` is not seen |
| `TagBreakLocator.FollowingLoopAsWritten` | src/main/java/com/github/dbmdz/solrocr/iter/TagBreakLocator.java:36-47 | as written: the loop's answer lies between the block start and the text length |
| `TagBreakLocator.FollowingAsWritten` | src/main/java/com/github/dbmdz/solrocr/iter/TagBreakLocator.java:32-49 | as written: an answer never exceeds the text length |
| `TagBreakLocator.FollowingStraddleAsWritten` | src/main/java/com/github/dbmdz/solrocr/iter/TagBreakLocator.java:42-46 | as written vs intended: "<w" at 3 in "aaa<wa" is missed with blocks of 4 (the answer is 6, the first occurrence is 3) |
| `TagBreakLocator.TagBreakLocator.constructor` | src/main/java/com/github/dbmdz/solrocr/iter/TagBreakLocator.java:20-29 | as written: keeps the text, the block size and the break tag built from the tag name |
| `TagBreakLocator.TagBreakLocator.GetFollowing` | src/main/java/com/github/dbmdz/solrocr/iter/TagBreakLocator.java:32-49 | corrected: each block after the first starts `|tag|` chars before the previous block's end; the answer is the first occurrence after the offset, or the text length; an offset below -1 raises the index error |
| `TagBreakLocator.TagBreakLocator.GetPreceding` | src/main/java/com/github/dbmdz/solrocr/iter/TagBreakLocator.java:52-69 | as written: the last occurrence ending by `offset - 1`, or 0; an offset beyond the text plus one raises the index error |
| `TagBreakLocator.TagBreakLocator.SearchBlockBackward` | src/main/java/com/github/dbmdz/solrocr/iter/TagBreakLocator.java:57-58 | as written: a hit is the last occurrence of the text ending by the block end; a miss in the first block means none exists |
| `FileBytesCharIterator.OpenErrorFirstByte` | src/main/java/de/digitalcollections/solrocr/iter/FileBytesCharIterator.java:45-59 | as written: a file opens in UTF-8 mode exactly when it has at least four bytes and its first byte is ASCII or the lead byte of a 2-, 3- or 4-byte sequence; the BOM test adds nothing |
| `FileBytesCharIterator.CharAt` | src/main/java/de/digitalcollections/solrocr/iter/FileBytesCharIterator.java:101-110 | as written: defined exactly for offsets inside the file; an ASCII byte reads as its char and any other byte as '?' |
| `FileBytesCharIterator.CurrentChar` | src/main/java/de/digitalcollections/solrocr/iter/FileBytesCharIterator.java:160-165 | as written: defined exactly for indexes 0 to the length, and DONE exactly at the end index |
| `FileBytesCharIterator.PreviousFromEndAsWritten` | src/main/java/de/digitalcollections/solrocr/iter/FileBytesCharIterator.java:184-194 | as written vs intended: stepping back from the end of "abc" lands on index 0 instead of 2, because DONE (U+FFFF) counts as a 3-byte char |
| `FileBytesCharIterator.Snap` | src/main/java/de/digitalcollections/solrocr/iter/FileBytesCharIterator.java:74-88 | as written: `adjustOffset`: the end index stays; any other offset moves left to the nearest byte at or before it that is not a continuation byte, skipping only continuation bytes; running off the front is an index error exactly when every byte up to the offset is a continuation byte |
| `FileBytesCharIterator.SnapMonotone` | src/main/java/de/digitalcollections/solrocr/iter/FileBytesCharIterator.java:74-88 | as written: snapping keeps the order of offsets, and an offset that fails makes every smaller one fail |
| `FileBytesCharIterator.SnapIdempotent` | src/main/java/de/digitalcollections/solrocr/iter/FileBytesCharIterator.java:82-88 | as written: a snapped offset is a boundary: snapping it again leaves it in place |
| `FileBytesCharIterator.FileBytesCharIterator.constructor` | src/main/java/de/digitalcollections/solrocr/iter/FileBytesCharIterator.java:38-61 | as written: a file that passes the encoding check opens with the cursor at 0 |
| `FileBytesCharIterator.FileBytesCharIterator.Copy` | src/main/java/de/digitalcollections/solrocr/iter/FileBytesCharIterator.java:63-66 | as written: the same bytes and charset, at the same cursor |
| `FileBytesCharIterator.FileBytesCharIterator.First` | src/main/java/de/digitalcollections/solrocr/iter/FileBytesCharIterator.java:148-151 | as written: the cursor goes to 0 and the char there is returned |
| `FileBytesCharIterator.FileBytesCharIterator.Last` | src/main/java/de/digitalcollections/solrocr/iter/FileBytesCharIterator.java:154-157 | as written: the cursor goes to the last byte; on an empty file that is -1 and an index error |
| `FileBytesCharIterator.FileBytesCharIterator.Next` | src/main/java/de/digitalcollections/solrocr/iter/FileBytesCharIterator.java:168-181 | as written: the cursor moves exactly one byte and never past the end, DONE comes back at the end, and an invalid cursor is an index error |
| `FileBytesCharIterator.FileBytesCharIterator.Previous` | src/main/java/de/digitalcollections/solrocr/iter/FileBytesCharIterator.java:184-198 | corrected: from any index in (0, length] the cursor moves exactly one byte back; at 0 or below it stays and DONE comes back |
| `FileBytesCharIterator.FileBytesCharIterator.SetIndex` | src/main/java/de/digitalcollections/solrocr/iter/FileBytesCharIterator.java:201-208 | as written: the cursor moves even to an invalid index, which is then reported as IllegalArgumentException; otherwise the char there is returned |
| `FileBytesCharIterator.FileBytesCharIterator.AdjustOffset` | src/main/java/de/digitalcollections/solrocr/iter/FileBytesCharIterator.java:74-88 | as written: the byte walk computes `Snap` |
| `FileBytesCharIterator.FileBytesCharIterator.SubSequence` | src/main/java/de/digitalcollections/solrocr/iter/FileBytesCharIterator.java:113-125 | as written: invalid bounds raise IndexOutOfBoundsException; without UTF-8 the bytes of the range come back; with UTF-8 both ends are first snapped to sequence starts |
| `FileBytesCharIterator.FileBytesCharIterator.SubSequenceAscii` | src/main/java/de/digitalcollections/solrocr/iter/FileBytesCharIterator.java:127-145 | as written: invalid bounds, or a range longer than the copy buffer, are an index error; otherwise each byte of the range becomes one char |
| `FileBytesCharIterator.Open` | src/main/java/de/digitalcollections/solrocr/iter/FileBytesCharIterator.java:38-61 | as written: the constructor either raises the encoding check's exception or yields a fresh iterator at index 0 over the bytes |
| `HocrClassBreakLocator.FindForwardMatch` | src/main/java/com/github/dbmdz/solrocr/formats/hocr/HocrClassBreakLocator.java:137-177 | corrected: a result other than -1 is the '<' of a tag at or after `fromOffset`, not a "meta" tag, holding a break-class occurrence before `toOffset`; a "meta" tag with no '>' after the class gives that class up instead of resuming at -1 |
| `HocrClassBreakLocator.ForwardStepAsWritten` | src/main/java/com/github/dbmdz/solrocr/formats/hocr/HocrClassBreakLocator.java:142-173 | as written: one pass of the inner loop; a match found lies at or after `fromOffset` |
| `HocrClassBreakLocator.ForwardMetaLoopAsWritten` | src/main/java/com/github/dbmdz/solrocr/formats/hocr/HocrClassBreakLocator.java:167-170 | as written vs intended: an unclosed "meta" tag holding a break class makes the pass resume at -1, and the pass from -1 resumes at -1 again, so the loop never ends |
| `HocrClassBreakLocator.UnclosedMetaStep` | src/main/java/com/github/dbmdz/solrocr/formats/hocr/HocrClassBreakLocator.java:142-170 | as written: a class inside a "meta" tag opened at 0 with no '>' and no later '<' makes the pass resume at -1 |
| `HocrClassBreakLocator.MetaSampleUnclosed` | src/main/java/com/github/dbmdz/solrocr/formats/hocr/HocrClassBreakLocator.java:167-170 | as written: "<meta ocr_line" is such a text: the loop as written never ends on it |
| `HocrClassBreakLocator.QualifiesOpensTag` | src/main/java/com/github/dbmdz/solrocr/formats/hocr/HocrClassBreakLocator.java:196-205 | as written: an occurrence `findBackwardMatch` accepts lies in the tag its '<' opens, with no '>' in between |
| `HocrClassBreakLocator.LastCharSame` | src/main/java/com/github/dbmdz/solrocr/formats/hocr/HocrClassBreakLocator.java:196-202 | as written: the last `ch` up to i is also the last up to j when it comes before j |
| `HocrClassBreakLocator.BackwardSkip` | src/main/java/com/github/dbmdz/solrocr/formats/hocr/HocrClassBreakLocator.java:198-203 | as written: when an occurrence is skipped, no occurrence between the skip target and the old cursor qualifies either, so the jump loses nothing |
| `HocrClassBreakLocator.FindBackwardMatch` | src/main/java/com/github/dbmdz/solrocr/formats/hocr/HocrClassBreakLocator.java:180-209 | corrected: each class is searched from `fromOffset` down to `toOffset` with its own cursor; a result is the '<' of the last qualifying occurrence of the first class that has one, and -1 comes back exactly when no class has a qualifying occurrence in the range |
| `HocrClassBreakLocator.BackwardSharedCursorAsWritten` | src/main/java/com/github/dbmdz/solrocr/formats/hocr/HocrClassBreakLocator.java:188-206 | as written vs intended: in "A<p B>" with classes A then B the tag at 1 carrying B qualifies, but the shared cursor left at -1 by A means the code as written answers -1 |
| `HocrClassBreakLocator.SectionStart` | src/main/java/com/github/dbmdz/solrocr/formats/hocr/HocrClassBreakLocator.java:30 | as written: the section holding an offset starts at or before it and ends after it |
| `HocrClassBreakLocator.SectionStartAligned` | src/main/java/com/github/dbmdz/solrocr/formats/hocr/HocrClassBreakLocator.java:30 | as written: a section start is a multiple of the section size |
| `HocrClassBreakLocator.AlignedIsStart` | src/main/java/com/github/dbmdz/solrocr/formats/hocr/HocrClassBreakLocator.java:71 | as written: a section boundary is the start of its own section, so `globalStart = section.end` reads the next section |
| `HocrClassBreakLocator.BeforeAlignedStart` | src/main/java/com/github/dbmdz/solrocr/formats/hocr/HocrClassBreakLocator.java:130 | as written: the offset just before a section boundary lies in the section that ends there, so `globalEnd = section.start - 1` reads the previous section |
| `HocrClassBreakLocator.AsciiSection` | src/main/java/com/github/dbmdz/solrocr/formats/hocr/HocrClassBreakLocator.java:30 | as written: `getAsciiSection(offset)`: the aligned section holding the offset, cut at the text end, with its text |
| `HocrClassBreakLocator.OverlapMatchIsClosedTag` | src/main/java/com/github/dbmdz/solrocr/formats/hocr/HocrClassBreakLocator.java:94-101 | as written: a break-class tag the backward search finds in the joined overlap is a closed break-class tag of the whole text that opens before the section end |
| `HocrClassBreakLocator.OpensClassTagInSlice` | src/main/java/com/github/dbmdz/solrocr/formats/hocr/HocrClassBreakLocator.java:125-127 | as written: a tag found in a block is a tag of the text, shifted by the block start |
| `HocrClassBreakLocator.HocrClassBreakLocator.constructor` | src/main/java/com/github/dbmdz/solrocr/formats/hocr/HocrClassBreakLocator.java:18-21 | as written: keeps the text, section size and break classes |
| `HocrClassBreakLocator.HocrClassBreakLocator.GetFollowing` | src/main/java/com/github/dbmdz/solrocr/formats/hocr/HocrClassBreakLocator.java:24-74 | corrected (it uses the corrected forward match): an offset below -1 is an index error; otherwise the text length or the '<' of a break-class tag after the offset |
| `HocrClassBreakLocator.HocrClassBreakLocator.FollowingInOverlap` | src/main/java/com/github/dbmdz/solrocr/formats/hocr/HocrClassBreakLocator.java:36-46 | as written: a match in the tag carried over from the previous section is the '<' of a break-class tag of the text, and the rest of the section starts after the first '>' |
| `HocrClassBreakLocator.HocrClassBreakLocator.FollowingInSection` | src/main/java/com/github/dbmdz/solrocr/formats/hocr/HocrClassBreakLocator.java:48-69 | as written: a match in the section's own part is a break-class tag of the text inside it, and a tag left open at the section end is carried over |
| `HocrClassBreakLocator.HocrClassBreakLocator.GetPreceding` | src/main/java/com/github/dbmdz/solrocr/formats/hocr/HocrClassBreakLocator.java:77-134 | corrected (it uses the corrected backward match): 0 for offsets at or below 0, IllegalArgumentException past the text, otherwise 0 or the '<' of a closed break-class tag before the offset; a cut tag with no '<' in its section raises the index error the code raises |
| `HocrClassBreakLocator.HocrClassBreakLocator.PrecedingInOverlap` | src/main/java/com/github/dbmdz/solrocr/formats/hocr/HocrClassBreakLocator.java:94-105 | as written: a match in the tag carried over from the following section is a closed break-class tag inside this section; no '<' before the block end raises StringIndexOutOfBoundsException |
| `HocrClassBreakLocator.HocrClassBreakLocator.PrecedingInSection` | src/main/java/com/github/dbmdz/solrocr/formats/hocr/HocrClassBreakLocator.java:107-128 | as written: a match in the section's own part is a closed break-class tag before the block end, and a tag cut by the section start is carried to the previous section |
| `ExternalUtf8ContentFilterFactory.ReadInto` | src/main/java/solrocr/ExternalUtf8ContentFilterFactory.java:146 | as written: the channel read into the three-byte buffer: as many leading bytes of the content as fit overwrite it, the rest keeps what it held |
| `ExternalUtf8ContentFilterFactory.FreshBufferSeesBom` | src/main/java/solrocr/ExternalUtf8ContentFilterFactory.java:133-149 | as written: a fresh buffer compares equal to the mark exactly when the content starts with it |
| `ExternalUtf8ContentFilterFactory.AdjustEach` | src/main/java/solrocr/ExternalUtf8ContentFilterFactory.java:155-161 | as written: every region of a source is adjusted, and the number of regions is kept |
| `ExternalUtf8ContentFilterFactory.TotalLengthSnoc` | src/main/java/solrocr/ExternalUtf8ContentFilterFactory.java:163 | as written: the running `outByteOffset` grows by each source's length |
| `ExternalUtf8ContentFilterFactory.TotalLengthPrefix` | src/main/java/solrocr/ExternalUtf8ContentFilterFactory.java:163 | as written: the sources before one hold no more bytes than all of them |
| `ExternalUtf8ContentFilterFactory.Concat` | src/main/java/solrocr/ExternalUtf8ContentFilterFactory.java:90-93 | as written: the reader over the pointer delivers the bytes of all sources, as many as they hold together |
| `ExternalUtf8ContentFilterFactory.AdjustAll` | src/main/java/solrocr/ExternalUtf8ContentFilterFactory.java:134-165 | as written: all sources adjusted, source k placed after the bytes of the sources before it; one adjusted source per source |
| `ExternalUtf8ContentFilterFactory.BomFlags` | src/main/java/solrocr/ExternalUtf8ContentFilterFactory.java:146-149 | corrected: with a buffer of its own, the comparison for each source says whether that source starts with the mark |
| `ExternalUtf8ContentFilterFactory.BomFlagsAsWritten` | src/main/java/solrocr/ExternalUtf8ContentFilterFactory.java:133-149 | as written: the comparison for each source is made with what the sources before left in the shared buffer |
| `ExternalUtf8ContentFilterFactory.NextBuffer` | src/main/java/solrocr/ExternalUtf8ContentFilterFactory.java:144-153 | as written: the shared buffer after a source keeps three bytes, overwritten only when the mark was looked for |
| `ExternalUtf8ContentFilterFactory.BufferAt` | src/main/java/solrocr/ExternalUtf8ContentFilterFactory.java:133-165 | as written: the shared buffer when source k is reached is always three bytes |
| `ExternalUtf8ContentFilterFactory.BufferAtNext` | src/main/java/solrocr/ExternalUtf8ContentFilterFactory.java:134-165 | as written: the shared buffer passes from one source to the next |
| `ExternalUtf8ContentFilterFactory.ReadBom` | src/main/java/solrocr/ExternalUtf8ContentFilterFactory.java:145-147 | as written: the buffer afterwards holds the content's first bytes over what it held |
| `ExternalUtf8ContentFilterFactory.AdjustOne` | src/main/java/solrocr/ExternalUtf8ContentFilterFactory.java:137-163 | as written: one loop turn adjusts the source as the region rules say, given what the buffer compares to, and leaves the buffer as `NextBuffer` says |
| `ExternalUtf8ContentFilterFactory.AdjustRegions` | src/main/java/solrocr/ExternalUtf8ContentFilterFactory.java:131-166 | corrected: the sources afterwards are all adjusted with each source's own mark test, each placed after the bytes of the sources before it |
| `ExternalUtf8ContentFilterFactory.Store` | src/main/java/solrocr/ExternalUtf8ContentFilterFactory.java:151-161 | as written: the source at k is replaced and no other changes |
| `ExternalUtf8ContentFilterFactory.AsWrittenStep` | src/main/java/solrocr/ExternalUtf8ContentFilterFactory.java:134-165 | as written: one loop turn with the shared buffer yields source k as the as-written adjustment says and passes the buffer on |
| `ExternalUtf8ContentFilterFactory.AdjustRegionsAsWritten` | src/main/java/solrocr/ExternalUtf8ContentFilterFactory.java:131-166 | as written: the sources afterwards are all adjusted with the shared buffer's comparisons |
| `ExternalUtf8ContentFilterFactory.DefaultRegionCoversSource` | src/main/java/solrocr/ExternalUtf8ContentFilterFactory.java:140-163 | as written: a source that names no regions is read whole: one region over all its bytes, past the mark if a non-ASCII source has one, moved by the bytes before |
| `ExternalUtf8ContentFilterFactory.AdjustedRegion` | src/main/java/solrocr/ExternalUtf8ContentFilterFactory.java:150-161 | as written: a region start at 0 of a non-ASCII source with the mark moves to 3, an end of -1 becomes the input's length, and both move by the bytes of the sources before |
| `ExternalUtf8ContentFilterFactory.AdjustedRegionsInBounds` | src/main/java/solrocr/ExternalUtf8ContentFilterFactory.java:131-166 | corrected: with a buffer per source, the adjusted regions of source k are well-formed byte ranges inside that source's span of the concatenation |
| `ExternalUtf8ContentFilterFactory.StaleBomBufferAsWritten` | src/main/java/solrocr/ExternalUtf8ContentFilterFactory.java:133-152 | as written vs intended: after a source starting with the mark (bytes EF BB BF 41), an empty non-ASCII source gets region (7, 4) instead of (4, 4) |
| `ExternalUtf8ContentFilterFactory.FlatRegionsFrom` | src/main/java/solrocr/ExternalUtf8ContentFilterFactory.java:91-92 | as written: every collected region comes from some source |
| `ExternalUtf8ContentFilterFactory.Contents` | src/main/java/solrocr/ExternalUtf8ContentFilterFactory.java:137-138 | as written: one content per source |
| `ExternalUtf8ContentFilterFactory.Create` | src/main/java/solrocr/ExternalUtf8ContentFilterFactory.java:60-100 | corrected (it uses `AdjustRegions`): an empty field gives an empty reader; the filter is built exactly when the pointer parses to a non-null pointer, and then holds the concatenated bytes and the adjusted regions of all sources in order |
| `ExternalUtf8ContentFilterFactory.CreatedRegionsInBounds` | src/main/java/solrocr/ExternalUtf8ContentFilterFactory.java:87-93 | corrected: every region the filter is given is a well-formed byte range of the concatenated sources, when each source's own regions are valid for its bytes |
| `SourcePointer.ParseRegion` | src/main/java/com/github/dbmdz/solrocr/model/SourcePointer.java:121-130 | as written: a parsed region has `int` bounds (an out-of-range or malformed number raises NumberFormatException, a missing second number ArrayIndexOutOfBoundsException) |
| `SourcePointer.ParseRegionForms` | src/main/java/com/github/dbmdz/solrocr/model/SourcePointer.java:122-128 | as written: the three forms: ":N" is (0, N), "N:" is (N, -1), "A:B" is (A, B) |
| `SourcePointer.RegionRoundTrip` | src/main/java/com/github/dbmdz/solrocr/model/SourcePointer.java:121-140 | as written: every region with `int` bounds survives `toString` and `parse` |
| `SourcePointer.NoColonInInt` | src/main/java/com/github/dbmdz/solrocr/model/SourcePointer.java:139 | as written: a printed integer holds no ':' and does not start with one |
| `SourcePointer.JoinedRegionSplits` | src/main/java/com/github/dbmdz/solrocr/model/SourcePointer.java:127 | as written: two non-empty pieces without ':' joined by ':' split back into the two |
| `SourcePointer.ParseTwoPieces` | src/main/java/com/github/dbmdz/solrocr/model/SourcePointer.java:126-128 | as written: a region text that neither starts nor ends with ':' and splits into two numbers parses to them |
| `SourcePointer.MatchSuffix` | src/main/java/com/github/dbmdz/solrocr/model/SourcePointer.java:144 | as written: the optional `{ascii}` and `[regions]` groups: a match reads the rest back exactly, and a regions group holds only `[0-9:,]` |
| `SourcePointer.MatchSuffixComplete` | src/main/java/com/github/dbmdz/solrocr/model/SourcePointer.java:144 | as written: whatever the optional groups stand for is matched back to them |
| `SourcePointer.MatchFromSound` | src/main/java/com/github/dbmdz/solrocr/model/SourcePointer.java:144 | as written: the lazy `.+?` search: a match found splits the token at the shortest workable target, and no match means no target length works |
| `SourcePointer.DecomposesSplits` | src/main/java/com/github/dbmdz/solrocr/model/SourcePointer.java:144 | as written: a reading of the token with a target of some length splits it there |
| `SourcePointer.MatchPointerCorrect` | src/main/java/com/github/dbmdz/solrocr/model/SourcePointer.java:143-144 | as written: the matcher is the pattern: its result is a reading of the token, every reading makes it succeed, and its target is the shortest one |
| `SourcePointer.DetermineType` | src/main/java/com/github/dbmdz/solrocr/model/SourcePointer.java:43-54 | as written: an absolute path is on the file system; S3 only for `s3://` targets |
| `SourcePointer.InsertByStart` | src/main/java/com/github/dbmdz/solrocr/model/SourcePointer.java:68 | as written: inserting keeps the regions sorted by start and is a permutation of the old regions plus the new one |
| `SourcePointer.InsertKeepsFirst` | src/main/java/com/github/dbmdz/solrocr/model/SourcePointer.java:68 | as written: inserting after a smaller first region keeps it first, sorted and a permutation |
| `SourcePointer.SortByStart` | src/main/java/com/github/dbmdz/solrocr/model/SourcePointer.java:68 | as written: the sort by start returns the regions sorted by start, as a permutation of the input |
| `SourcePointer.SortSorted` | src/main/java/com/github/dbmdz/solrocr/model/SourcePointer.java:68 | as written: sorting regions already in order keeps them as they are (the sort is stable) |
| `SourcePointer.ParseEach` | src/main/java/com/github/dbmdz/solrocr/model/SourcePointer.java:66-69 | as written: mapping a parser that may raise over a list: success gives one value per text, each the text's own parse; a failure is the first text's failure |
| `SourcePointer.ParseEachAll` | src/main/java/com/github/dbmdz/solrocr/model/SourcePointer.java:66-69 | as written: the list parses exactly to the values each text parses to on its own |
| `SourcePointer.ParseSource` | src/main/java/com/github/dbmdz/solrocr/model/SourcePointer.java:56-78 | as written: a parsed source has its regions sorted by start, and its target and ascii flag are the pattern's captures; an unmatched token raises |
| `SourcePointer.ParsePointer` | src/main/java/com/github/dbmdz/solrocr/model/SourcePointer.java:156-168 | as written: raises unless the string is a pointer; a non-null result lists at least one source, each with its regions sorted |
| `SourcePointer.SeparatorsOnlyGiveNull` | src/main/java/com/github/dbmdz/solrocr/model/SourcePointer.java:156-168 | as written: "+" splits into no token and parses to null; "" is not a pointer |
| `SourcePointer.SourceToString` | src/main/java/com/github/dbmdz/solrocr/model/SourcePointer.java:80-96 | as written: the builder code yields target, then `{ascii}` when flagged, then `[r1,r2,...]` when there are regions |
| `SourcePointer.AppendRegions` | src/main/java/com/github/dbmdz/solrocr/model/SourcePointer.java:87-92 | as written: the loop puts a comma before every region but the first, told by the `[` before it |
| `SourcePointer.RegionsTextSnoc` | src/main/java/com/github/dbmdz/solrocr/model/SourcePointer.java:87-92 | as written: one more region adds a comma and its text |
| `SourcePointer.RegionStringChars` | src/main/java/com/github/dbmdz/solrocr/model/SourcePointer.java:139 | as written: a printed region with non-negative bounds holds only the chars the regions group admits, and no comma |
| `SourcePointer.RegionsTextChars` | src/main/java/com/github/dbmdz/solrocr/model/SourcePointer.java:85-93 | as written: printed regions form a text the regions group admits |
| `SourcePointer.ParseRegionStrings` | src/main/java/com/github/dbmdz/solrocr/model/SourcePointer.java:121-140 | as written: the printed regions parse back to the regions |
| `SourcePointer.SuffixAfterTarget` | src/main/java/com/github/dbmdz/solrocr/model/SourcePointer.java:144 | as written: what follows the target of a reading starts with `{` or `[` |
| `SourcePointer.OpenRegionPrintsMinus` | src/main/java/com/github/dbmdz/solrocr/model/SourcePointer.java:124-125 | as written: a region read from "N:" ends at -1 and prints as "N:-1", whose '-' the regions group does not admit, so it does not survive printing and parsing again |
| `SourcePointer.SuffixStart` | src/main/java/com/github/dbmdz/solrocr/model/SourcePointer.java:144 | as written: any non-empty text the optional groups stand for starts with `{` or `[` |
| `SourcePointer.PrintedSourceMatches` | src/main/java/com/github/dbmdz/solrocr/model/SourcePointer.java:80-96 | as written: the pattern reads a printed source back as its target, flag and regions text |
| `SourcePointer.PrintedRegionsParse` | src/main/java/com/github/dbmdz/solrocr/model/SourcePointer.java:64-69 | as written: the regions text of printable regions splits on ',' and parses back to them |
| `SourcePointer.ParseSourceOf` | src/main/java/com/github/dbmdz/solrocr/model/SourcePointer.java:56-78 | as written: what `Source.parse` makes of a token whose capture and regions are known: the regions sorted by start |
| `SourcePointer.SourceRoundTrip` | src/main/java/com/github/dbmdz/solrocr/model/SourcePointer.java:56-96 | as written: printing a source and parsing the text gives the source back |
| `SourcePointer.SourceStringShape` | src/main/java/com/github/dbmdz/solrocr/model/SourcePointer.java:80-96 | as written: a printed source holds no '+' and starts with its target |
| `SourcePointer.ParsePrintedSources` | src/main/java/com/github/dbmdz/solrocr/model/SourcePointer.java:160-162 | as written: the printed sources parse back one by one |
| `SourcePointer.ParsePointerOf` | src/main/java/com/github/dbmdz/solrocr/model/SourcePointer.java:156-168 | as written: a pointer whose tokens all parse is parsed to those sources |
| `SourcePointer.PointerRoundTrip` | src/main/java/com/github/dbmdz/solrocr/model/SourcePointer.java:156-177 | as written: printing a non-empty list of sources and parsing the pointer gives the list back |
| `ByteOffsetPhraseHelper.InsertSortedIsUnion` | src/main/java/org/mdz/search/solrocr/lucene/byteoffset/ByteOffsetPhraseHelper.java:228-251 | as written: inserting into an increasing run keeps it increasing and adds exactly the new offset: a present offset changes nothing, a new one adds one element |
| `ByteOffsetPhraseHelper.AppendGreater` | src/main/java/org/mdz/search/solrocr/lucene/byteoffset/ByteOffsetPhraseHelper.java:249 | as written: appending a value above every element keeps a run increasing |
| `ByteOffsetPhraseHelper.InsertSortedAt` | src/main/java/org/mdz/search/solrocr/lucene/byteoffset/ByteOffsetPhraseHelper.java:232-249 | as written: where the backward scan stops: with every element from k on greater and the one before smaller, the offset goes in at k |
| `ByteOffsetPhraseHelper.InsertSortedFound` | src/main/java/org/mdz/search/solrocr/lucene/byteoffset/ByteOffsetPhraseHelper.java:236-237 | as written: finding the offset means `add` keeps the run as it is |
| `ByteOffsetPhraseHelper.SpanCollectedByteOffsetsEnum.constructor` | src/main/java/org/mdz/search/solrocr/lucene/byteoffset/ByteOffsetPhraseHelper.java:222-225 | as written: room for `postingsFreq` offsets, none collected, the cursor before the first |
| `ByteOffsetPhraseHelper.SpanCollectedByteOffsetsEnum.Add` | src/main/java/org/mdz/search/solrocr/lucene/byteoffset/ByteOffsetPhraseHelper.java:228-251 | as written: the collected offsets become the increasing run with the offset inserted; a present offset changes nothing at all, a new one raises `numPairs` by one |
| `ByteOffsetPhraseHelper.SpanCollectedByteOffsetsEnum.ShiftInsert` | src/main/java/org/mdz/search/solrocr/lucene/byteoffset/ByteOffsetPhraseHelper.java:244-250 | as written: the `arraycopy` shift and the store leave the stored run equal to the insertion |
| `ByteOffsetPhraseHelper.SpanCollectedByteOffsetsEnum.NextPosition` | src/main/java/org/mdz/search/solrocr/lucene/byteoffset/ByteOffsetPhraseHelper.java:254-256 | as written: the cursor moves one on, and true comes back exactly while it is on a stored offset |
| `ByteOffsetPhraseHelper.SpanCollectedByteOffsetsEnum.Freq` | src/main/java/org/mdz/search/solrocr/lucene/byteoffset/ByteOffsetPhraseHelper.java:259-261 | as written: the number of distinct offsets collected |
| `ByteOffsetPhraseHelper.SpanCollectedByteOffsetsEnum.ByteOffset` | src/main/java/org/mdz/search/solrocr/lucene/byteoffset/ByteOffsetPhraseHelper.java:269-271 | as written: on a stored offset, that offset, larger than all before it in the enumeration; outside the array an index error |
| `OcrFormat.NewPage` | src/main/java/com/github/dbmdz/solrocr/formats/hocr/HocrFormat.java:140 | as written: `new OcrPage(id, dims)`: a page exactly when there is an identifier, keeping id and dimensions; NullPointerException otherwise |
| `OcrFormat.DigitRun` | src/main/java/com/github/dbmdz/solrocr/formats/hocr/HocrFormat.java:29-31 | as written: the maximal run of ASCII digits at i, as `\d+` matches it |
| `OcrFormat.DigitRunOf` | src/main/java/com/github/dbmdz/solrocr/formats/hocr/HocrFormat.java:29-31 | as written: a run of digits that ends the string or is followed by a non-digit is the maximal run |
| `OcrFormat.QuoteFrom` | src/main/java/com/github/dbmdz/solrocr/formats/hocr/HocrFormat.java:29 | as written: the first quote at or after `from`, or -1 when there is none |
| `OcrFormat.LastContentStartIdx` | src/main/java/com/github/dbmdz/solrocr/formats/miniocr/MiniOcrFormat.java:75-77 | as written (shared by the hOCR and MiniOCR formats): just after the last '>', or 0 when there is none |
| `OcrFormat.FirstContentEndIdx` | src/main/java/com/github/dbmdz/solrocr/formats/miniocr/MiniOcrFormat.java:80-82 | as written (shared by the hOCR and MiniOCR formats): the first "</", or -1 when there is none |
| `OcrFormat.OccursAtOne` | src/main/java/com/github/dbmdz/solrocr/formats/hocr/HocrFormat.java:152 | as written: a single-char needle occurs exactly where that char is |
| `HocrFormat.ClassOfBlock` | src/main/java/com/github/dbmdz/solrocr/formats/hocr/HocrFormat.java:34-44 | as written: the class table and its inverse agree: a class is listed for a block type exactly when it marks it |
| `HocrFormat.PutIfAbsent` | src/main/java/com/github/dbmdz/solrocr/formats/hocr/HocrFormat.java:57-62 | as written: `Map.putIfAbsent`: the key is present afterwards, keeping an existing value and taking the new one otherwise; no other key changes |
| `HocrFormat.FillStep` | src/main/java/com/github/dbmdz/solrocr/formats/hocr/HocrFormat.java:57-62 | as written: one more `putIfAbsent` of a block type's default extends the filled set by that block type |
| `HocrFormat.FilledAll` | src/main/java/com/github/dbmdz/solrocr/formats/hocr/HocrFormat.java:57-63 | as written: after the six calls every block type has a read size: the configured one where given, its default otherwise |
| `HocrFormat.ClassesOf` | src/main/java/com/github/dbmdz/solrocr/formats/hocr/HocrFormat.java:68-71 | as written: the `flatMap` over the requested block types holds exactly the classes that mark one of them |
| `HocrFormat.MaxReadSize` | src/main/java/com/github/dbmdz/solrocr/formats/hocr/HocrFormat.java:72-76 | as written: the largest read size among the requested block types (at least each of theirs, and one of them), or 64 KiB when none is requested |
| `HocrFormat.HocrFormat.constructor` | src/main/java/com/github/dbmdz/solrocr/formats/hocr/HocrFormat.java:48-64 | as written: every block type gets a read size, the configured one where there is one, its default (16 KiB, 8 KiB, 8 KiB, 2 KiB, 1 KiB, 128) otherwise; no configuration stands for an empty one |
| `HocrFormat.HocrFormat.GetBreakLocator` | src/main/java/com/github/dbmdz/solrocr/formats/hocr/HocrFormat.java:67-78 | as written: the locator gets exactly the classes of the requested block types and the largest of their read sizes, or 64 KiB for none |
| `HocrFormat.FirstStop` | src/main/java/com/github/dbmdz/solrocr/formats/hocr/HocrFormat.java:109-119 | as written: the first match that ends the scan (an identifier, or no usable group), with none before it |
| `HocrFormat.PreferredPageIdNotEmpty` | src/main/java/com/github/dbmdz/solrocr/formats/hocr/HocrFormat.java:110-115 | as written: every identifier `parsePage` can choose is non-empty |
| `HocrFormat.FallbackNotEmpty` | src/main/java/com/github/dbmdz/solrocr/formats/hocr/HocrFormat.java:120-126 | as written: the last source and the first page number, when there are any, are non-empty |
| `HocrFormat.FallbackSnoc` | src/main/java/com/github/dbmdz/solrocr/formats/hocr/HocrFormat.java:120-126 | as written: one more match: a source replaces the fallback source, a page number is kept only when none came before |
| `HocrFormat.FirstStopIs` | src/main/java/com/github/dbmdz/solrocr/formats/hocr/HocrFormat.java:116-119 | as written: the stopping point is unique: the first stop after non-stops |
| `HocrFormat.PageId` | src/main/java/com/github/dbmdz/solrocr/formats/hocr/HocrFormat.java:107-130 | as written: the `while (idMatch.find())` loop yields the preferred identifier: the first `id=` value, else the last `x_source`, else the first `ppageno`; a match with no usable group before the first identifier, or no candidate, is an error |
| `HocrFormat.BboxMatchAt` | src/main/java/com/github/dbmdz/solrocr/formats/hocr/HocrFormat.java:30-31 | as written: the width and height the size pattern captures are non-empty digit runs |
| `HocrFormat.FirstBboxMatch` | src/main/java/com/github/dbmdz/solrocr/formats/hocr/HocrFormat.java:133-134 | as written: the first position where the size pattern matches, with no match before it, or -1 |
| `HocrFormat.PageDims` | src/main/java/com/github/dbmdz/solrocr/formats/hocr/HocrFormat.java:132-139 | as written: a size exactly when the size pattern matches somewhere; none when it does not |
| `HocrFormat.ParsePage` | src/main/java/com/github/dbmdz/solrocr/formats/hocr/HocrFormat.java:100-141 | as written: a page exactly when an identifier is found and the size parses; it carries the preferred identifier and the first bounding box's size; no identifier raises RuntimeException |
| `HocrFormat.ParsePageFragment` | src/main/java/com/github/dbmdz/solrocr/formats/hocr/HocrFormat.java:90-97 | as written: no page element gives no page; otherwise `parsePage` of its attributes |
| `HocrFormat.ParseBbox` | src/main/java/com/github/dbmdz/solrocr/formats/hocr/HocrFormat.java:132-139 | as written: "bbox 0 0 W H" at the start of the attributes gives back the size (W, H) |
| `HocrFormat.BboxAtStart` | src/main/java/com/github/dbmdz/solrocr/formats/hocr/HocrFormat.java:31 | as written: the size pattern matches at 0 when its pieces are where it expects them |
| `HocrFormat.BboxPieces` | src/main/java/com/github/dbmdz/solrocr/formats/hocr/HocrFormat.java:31 | as written: the captures of the size pattern at 0 are the width and height digits |
| `HocrFormat.HasFormatIff` | src/main/java/com/github/dbmdz/solrocr/formats/hocr/HocrFormat.java:144-148 | as written: `hasFormat` holds exactly when the chunk contains a class name that marks a block type |
| `HocrFormat.GetLastContentStartIdx` | src/main/java/com/github/dbmdz/solrocr/formats/hocr/HocrFormat.java:151-153 | as written: just after the last '>', or 0; no '>' follows it |
| `HocrFormat.GetFirstContentEndIdx` | src/main/java/com/github/dbmdz/solrocr/formats/hocr/HocrFormat.java:156-158 | as written: the first "</", or -1 when there is none |
| `AltoFormat.GetBreakLocator` | src/main/java/com/github/dbmdz/solrocr/formats/alto/AltoFormat.java:28-33 | as written: fails exactly on an empty block list; otherwise breaks on the element of the first block type, "<null" when that type has no ALTO element |
| `AltoFormat.BreakLocatorUsesFirstBlock` | src/main/java/com/github/dbmdz/solrocr/formats/alto/AltoFormat.java:29-31 | as written: only the first requested block type decides the locator |
| `AltoFormat.HasFormatIff` | src/main/java/com/github/dbmdz/solrocr/formats/alto/AltoFormat.java:81-87 | as written: recognised exactly when the root, page, block, line or word element is named after '<' or after a namespace prefix |
| `AltoFormat.GetLastContentStartIdx` | src/main/java/com/github/dbmdz/solrocr/formats/alto/AltoFormat.java:90-96 | as written: 9 past the start of the last `CONTENT=` (just after its quote), or -1 when there is no such attribute |
| `AltoFormat.GetFirstContentEndIdx` | src/main/java/com/github/dbmdz/solrocr/formats/alto/AltoFormat.java:99-108 | as written: the first quote of either kind, -1 when there is none |
| `AltoFormat.ClosedOpen` | src/main/java/com/github/dbmdz/solrocr/formats/alto/AltoFormat.java:124 | as written: `Range.closedOpen` succeeds exactly when the lower bound is not above the upper one, and fails with IllegalArgumentException otherwise |
| `AltoFormat.GetContainingWordLimitsAsWritten` | src/main/java/com/github/dbmdz/solrocr/formats/alto/AltoFormat.java:111-125 | as written: a word range, when there is one, never starts before 12, because a missing `<ALTERNATIVE>` counts as found at -1 and adds 13 |
| `AltoFormat.WordStart` | src/main/java/com/github/dbmdz/solrocr/formats/alto/AltoFormat.java:113-124 | corrected: the end of the opener that ends last among those found at or before the position, and the delimiter that closes it |
| `AltoFormat.GetContainingWordLimits` | src/main/java/com/github/dbmdz/solrocr/formats/alto/AltoFormat.java:111-125 | corrected: the range runs from the end of the last opener found to the next delimiter of its kind, and is never inverted |
| `AltoFormat.WordLimitsSentinelAsWritten` | src/main/java/com/github/dbmdz/solrocr/formats/alto/AltoFormat.java:113-115 | as written vs corrected: on `CONTENT="ab"<` at 10 the code gives the empty range at 12, the corrected version (9, 11) |
| `AltoFormat.WordLimitsAgreeFromTwelve` | src/main/java/com/github/dbmdz/solrocr/formats/alto/AltoFormat.java:111-125 | as written and corrected agree whenever the word starts at 12 or later |
| `AltoFormat.OccursAtEnds` | src/main/java/com/github/dbmdz/solrocr/formats/alto/AltoFormat.java:113-115 | as written: an occurrence begins with the needle's first character and ends with its last |
| `AltoFormat.ScanPart` | src/main/java/com/github/dbmdz/solrocr/formats/alto/AltoFormat.java:53-63 | as written: a part changes the attributes only when it splits at '=' and its name is WIDTH, HEIGHT or ID |
| `AltoFormat.ReadPart` | src/main/java/com/github/dbmdz/solrocr/formats/alto/AltoFormat.java:53-63 | as written: one turn of the loop, equal to `ScanPart` |
| `AltoFormat.ParsePageFragment` | src/main/java/com/github/dbmdz/solrocr/formats/alto/AltoFormat.java:45-78 | as written: the loop over the element's parts, with its early exit, computes `PageFragment` |
| `AltoFormat.CharNotInJoin` | src/main/java/com/github/dbmdz/solrocr/formats/alto/AltoFormat.java:48 | as written: a character in no part and not in the separator is not in the joined string |
| `AltoFormat.AttrSplits` | src/main/java/com/github/dbmdz/solrocr/formats/alto/AltoFormat.java:53 | as written: `NAME="value"` splits at '=' into the name and the quoted value |
| `AltoFormat.ScanAttr` | src/main/java/com/github/dbmdz/solrocr/formats/alto/AltoFormat.java:55-63 | as written: a WIDTH, HEIGHT or ID part records its value without the quotes |
| `AltoFormat.ScanPageTag` | src/main/java/com/github/dbmdz/solrocr/formats/alto/AltoFormat.java:47-68 | as written: the parts of a written page element scan to its identifier, width and height |
| `AltoFormat.ParsePageStartTag` | src/main/java/com/github/dbmdz/solrocr/formats/alto/AltoFormat.java:45-78 | as written, round trip: a fragment starting with a written `<Page ID WIDTH HEIGHT>` parses back to that page when the number conversion reads the digits back |
| `AltoFormat.PageStartTagHasFormat` | src/main/java/com/github/dbmdz/solrocr/formats/alto/AltoFormat.java:81-87 | as written: a fragment starting with a page element is recognised as ALTO |
| `MiniOcrFormat.GetBreakLocator` | src/main/java/com/github/dbmdz/solrocr/formats/miniocr/MiniOcrFormat.java:34-41 | as written: fails exactly on an empty block list; otherwise breaks on the tag of the first block type, "<null" for paragraphs |
| `MiniOcrFormat.BreakLocatorUsesFirstBlock` | src/main/java/com/github/dbmdz/solrocr/formats/miniocr/MiniOcrFormat.java:39 | as written: only the first requested block type decides the locator |
| `MiniOcrFormat.HasFormatIff` | src/main/java/com/github/dbmdz/solrocr/formats/miniocr/MiniOcrFormat.java:68-72 | as written: recognised exactly when a section, block, line or word tag opens (followed by a space or '>'); page tags are not looked at |
| `MiniOcrFormat.IdMatchAt` | src/main/java/com/github/dbmdz/solrocr/formats/miniocr/MiniOcrFormat.java:19-20 | as written: what `(?:xml)?:id=["'](.+?)["']` captures at a position is non-empty and holds no line terminator |
| `MiniOcrFormat.FirstIdMatch` | src/main/java/com/github/dbmdz/solrocr/formats/miniocr/MiniOcrFormat.java:56-59 | as written: `find()` gives the first position where the identifier pattern matches, or -1 |
| `MiniOcrFormat.DimsMatchAt` | src/main/java/com/github/dbmdz/solrocr/formats/miniocr/MiniOcrFormat.java:21-22 | as written: what `wh=["'](\d+) (\d+)["']` captures is two non-empty digit runs |
| `MiniOcrFormat.FirstDimsMatch` | src/main/java/com/github/dbmdz/solrocr/formats/miniocr/MiniOcrFormat.java:60-63 | as written: the first position where the size pattern matches, or -1 |
| `MiniOcrFormat.ParsePageFragment` | src/main/java/com/github/dbmdz/solrocr/formats/miniocr/MiniOcrFormat.java:53-65 | as written: a page carries the first identifier match and has a size exactly when the size pattern matches; no identifier means failure (NullPointerException when neither is found) |
| `MiniOcrFormat.GetLastContentStartIdx` | src/main/java/com/github/dbmdz/solrocr/formats/miniocr/MiniOcrFormat.java:75-77 | as written: just after the last '>', with no '>' after it; 0 when there is none |
| `MiniOcrFormat.GetFirstContentEndIdx` | src/main/java/com/github/dbmdz/solrocr/formats/miniocr/MiniOcrFormat.java:80-82 | as written: the first "</", or -1 |
| `MiniOcrFormat.PageStartTagLayout` | src/main/java/com/github/dbmdz/solrocr/formats/miniocr/MiniOcrFormat.java:19-22 | as written: where the identifier and the numbers sit in `<p xml:id="ID" wh="W H">` |
| `MiniOcrFormat.ParsePageStartTag` | src/main/java/com/github/dbmdz/solrocr/formats/miniocr/MiniOcrFormat.java:53-65 | as written, round trip: a written page start tag parses back to its identifier and size when both numbers fit in an `int` |
| `MiniOcrFormat.ParseLaidOutTag` | src/main/java/com/github/dbmdz/solrocr/formats/miniocr/MiniOcrFormat.java:53-65 | as written: a string laid out as a page start tag with parsable numbers describes that page |
| `MiniOcrFormat.ParseFoundPage` | src/main/java/com/github/dbmdz/solrocr/formats/miniocr/MiniOcrFormat.java:53-65 | as written: once both patterns match and both numbers parse, the fragment describes that page |
| `MiniOcrFormat.IdFoundAtSix` | src/main/java/com/github/dbmdz/solrocr/formats/miniocr/MiniOcrFormat.java:56-59 | as written: in a page start tag the identifier pattern first matches at the ':' of `xml:id` |
| `MiniOcrFormat.IdAtSix` | src/main/java/com/github/dbmdz/solrocr/formats/miniocr/MiniOcrFormat.java:19-20 | as written: the identifier pattern captures the identifier at the ':' of `xml:id` |
| `MiniOcrFormat.NoColonIdAt` | src/main/java/com/github/dbmdz/solrocr/formats/miniocr/MiniOcrFormat.java:19-20 | as written: ":id=" cannot start where there is no ':' |
| `MiniOcrFormat.FirstIdMatchIs` | src/main/java/com/github/dbmdz/solrocr/formats/miniocr/MiniOcrFormat.java:56-59 | as written: the identifier scan stops at the first position where the pattern matches |
| `MiniOcrFormat.FirstDimsMatchIs` | src/main/java/com/github/dbmdz/solrocr/formats/miniocr/MiniOcrFormat.java:60-63 | as written: the size scan stops at the first position where the pattern matches |
| `MiniOcrFormat.DimsFoundAfterId` | src/main/java/com/github/dbmdz/solrocr/formats/miniocr/MiniOcrFormat.java:60-63 | as written: in a page start tag the size pattern first matches at the `wh` attribute and captures its two numbers |
| `MiniOcrFormat.SizeAttributeMatches` | src/main/java/com/github/dbmdz/solrocr/formats/miniocr/MiniOcrFormat.java:21-22 | as written: the size pattern matches a `wh="W H"` attribute |
| `MiniOcrFormat.SizeAttributeStart` | src/main/java/com/github/dbmdz/solrocr/formats/miniocr/MiniOcrFormat.java:21-22 | as written: `" wh="` puts "wh=" two further on, followed by a quote |
| `MiniOcrFormat.DimsMatchAtIs` | src/main/java/com/github/dbmdz/solrocr/formats/miniocr/MiniOcrFormat.java:21-22 | as written: the size pattern matches where its pieces are in place |
| `MiniOcrFormat.NoWhAt` | src/main/java/com/github/dbmdz/solrocr/formats/miniocr/MiniOcrFormat.java:21-22 | as written: "wh=" cannot start where its first or third character is wrong |
| `MiniOcrFormat.NoSizeBeforeAttribute` | src/main/java/com/github/dbmdz/solrocr/formats/miniocr/MiniOcrFormat.java:60-63 | as written: before the `wh` attribute of a page start tag the size pattern matches nowhere |
| `HocrParser.Unquote` | src/main/java/com/github/dbmdz/solrocr/formats/hocr/HocrParser.java:129-134 | as written: a value in matching quotes loses two characters, any other value none; a lone quote character fails (`substring(1, 0)`) |
| `HocrParser.UnquoteQuoted` | src/main/java/com/github/dbmdz/solrocr/formats/hocr/HocrParser.java:129-134 | as written: quoting a value and unquoting it gives the value back |
| `HocrParser.TitleEntry` | src/main/java/com/github/dbmdz/solrocr/formats/hocr/HocrParser.java:126-135 | as written: a part fails exactly when it has no space from index 3 or its value is a lone quote; otherwise key and value are the trimmed text before and after that space |
| `HocrParser.PutEntries` | src/main/java/com/github/dbmdz/solrocr/formats/hocr/HocrParser.java:125-136 | as written: the entries go into the map in order and no key is lost |
| `HocrParser.ParseTitle` | src/main/java/com/github/dbmdz/solrocr/formats/hocr/HocrParser.java:119-138 | as written: no title gives the empty map |
| `HocrParser.TitleParts` | src/main/java/com/github/dbmdz/solrocr/formats/hocr/HocrParser.java:124 | as written: one part per written key-value pair |
| `HocrParser.KeyEnds` | src/main/java/com/github/dbmdz/solrocr/formats/hocr/HocrParser.java:126 | as written: in a written part the key ends at the first space from index 3 |
| `HocrParser.TrimKey` | src/main/java/com/github/dbmdz/solrocr/formats/hocr/HocrParser.java:127 | as written: a key led by at most one space trims to itself |
| `HocrParser.TitleEntryOfPart` | src/main/java/com/github/dbmdz/solrocr/formats/hocr/HocrParser.java:126-135 | as written: reading one written `key value` part gives the pair back |
| `HocrParser.PutEntriesOfParts` | src/main/java/com/github/dbmdz/solrocr/formats/hocr/HocrParser.java:125-136 | as written: parsing the parts of a written title puts its pairs in order |
| `HocrParser.FirstEntry` | src/main/java/com/github/dbmdz/solrocr/formats/hocr/HocrParser.java:125-136 | as written: the first written part puts the first pair |
| `HocrParser.TitlePartsFree` | src/main/java/com/github/dbmdz/solrocr/formats/hocr/HocrParser.java:124 | as written: no part of a written title holds a ';' or is empty, so splitting on ';' finds them again |
| `HocrParser.ParseFormattedTitle` | src/main/java/com/github/dbmdz/solrocr/formats/hocr/HocrParser.java:119-138 | as written, round trip: a title written from key-value pairs parses back to those pairs, a later key winning |
| `HocrParser.ParseCoordinates` | src/main/java/com/github/dbmdz/solrocr/formats/hocr/HocrParser.java:140-156 | as written: no bbox is a NullPointerException; otherwise as many of ulx, uly, lrx, lry are set as there are parts, up to four |
| `HocrParser.SplitBbox` | src/main/java/com/github/dbmdz/solrocr/formats/hocr/HocrParser.java:141 | as written: splitting a written bbox on ' ' gives its four numbers |
| `HocrParser.ParseFormattedBbox` | src/main/java/com/github/dbmdz/solrocr/formats/hocr/HocrParser.java:140-156 | as written, round trip: a bbox written from four `int`s sets exactly those four coordinates |
| `HocrParser.BboxSize` | src/main/java/com/github/dbmdz/solrocr/formats/hocr/HocrParser.java:263-267 | as written: the size is the third and fourth bbox number; fewer than four parts fail |
| `HocrParser.PageOf` | src/main/java/com/github/dbmdz/solrocr/formats/hocr/HocrParser.java:259-276 | as written: a page start gives a page known by its `id`, else `x_source`, else `ppageno`, and without bbox no size |
| `HocrParser.PageWithBbox` | src/main/java/com/github/dbmdz/solrocr/formats/hocr/HocrParser.java:259-276 | as written: a page with an `id` and a four-number bbox is known by that id and sized by the bbox |
| `HocrParser.Collect` | src/main/java/com/github/dbmdz/solrocr/formats/hocr/HocrParser.java:277-288 | as written: a blank text node adds one ' ' unless the collected text already ends in one; other text is appended |
| `HocrParser.GapStep` | src/main/java/com/github/dbmdz/solrocr/formats/hocr/HocrParser.java:248-276 | as written: an `ocr_line` start adds a space only when none was collected; only a tracked `ocr_page` start changes the current page |
| `HocrParser.BlankGap` | src/main/java/com/github/dbmdz/solrocr/formats/hocr/HocrParser.java:254-288 | as written: between two words with no visible text, at most a single ' ' is collected |
| `HocrParser.BlankRun` | src/main/java/com/github/dbmdz/solrocr/formats/hocr/HocrParser.java:281-285 | as written: a run of blank nodes adds exactly one ' ' when the text does not end in one |
| `HocrParser.NextWordFrom` | src/main/java/com/github/dbmdz/solrocr/formats/hocr/HocrParser.java:246-253 | as written: the first word start at or after a position, or the end of the stream, with no word start before it |
| `HocrParser.GapFailureSticks` | src/main/java/com/github/dbmdz/solrocr/formats/hocr/HocrParser.java:259-276 | as written: a failure between two words fails the whole seek |
| `HocrParser.HyphenCheck` | src/main/java/com/github/dbmdz/solrocr/formats/hocr/HocrParser.java:80-89 | as written: a word starts a split word exactly when its text (highlight ends aside) ends in a soft hyphen or the text after it starts with one; only in the first case is the text cleaned and the box marked |
| `HocrParser.JoinHalves` | src/main/java/com/github/dbmdz/solrocr/formats/hocr/HocrParser.java:90-104 | as written: with a second half both share the dehyphenated form, first text then second; without one the first half gets a '-' and loses its hyphenation info |
| `HocrParser.JoinedHalvesRead` | src/main/java/com/github/dbmdz/solrocr/formats/hocr/HocrParser.java:92-98 | as written: the two halves of a split word read back as the whole word |
| `HocrParser.JoinKeepsKept` | src/main/java/com/github/dbmdz/solrocr/formats/hocr/HocrParser.java:90-116 | as written: marking the halves leaves whether a box is skipped unchanged |
| `HocrParser.HocrParser.constructor` | src/main/java/de/digitalcollections/solrocr/formats/OcrParser.java:68-99 | as written: a parser at the start of the stream; no features means all of them |
| `HocrParser.HocrParser.Next` | src/main/java/de/digitalcollections/solrocr/formats/OcrParser.java:116-131 | as written: hands out the buffered box and reads the next one; an exhausted parser fails with IllegalStateException and changes nothing |
| `HocrParser.HocrParser.TrackHighlightSpan` | src/main/java/de/digitalcollections/solrocr/formats/OcrParser.java:149-167 | as written: the new highlight state and span id are those of `OcrParser.TrackHighlight` |
| `HocrParser.HocrParser.GapEvent` | src/main/java/com/github/dbmdz/solrocr/formats/hocr/HocrParser.java:248-288 | as written: one event between two words, as `GapStep` says |
| `HocrParser.HocrParser.SeekStep` | src/main/java/com/github/dbmdz/solrocr/formats/hocr/HocrParser.java:248-288 | as written: a word start ends the seek; any other event extends the gap as `GapOver` does |
| `HocrParser.HocrParser.SeekToNextWord` | src/main/java/com/github/dbmdz/solrocr/formats/hocr/HocrParser.java:242-292 | as written: consumes events up to and including the next word start, collecting what `GapOver` collects; `noMoreWords` when no word was found |
| `HocrParser.HocrParser.NextEvent` | src/main/java/com/github/dbmdz/solrocr/formats/hocr/HocrParser.java:247 | as written: the event at the cursor, consumed; NoSuchElementException at the end |
| `HocrParser.HocrParser.Expect` | src/main/java/com/github/dbmdz/solrocr/formats/hocr/HocrParser.java:212-220 | as written: the next event must be a text node (or an end tag), else IllegalStateException, or NoSuchElementException at the end |
| `HocrParser.HocrParser.TakeAlternative` | src/main/java/com/github/dbmdz/solrocr/formats/hocr/HocrParser.java:226-234 | as written: a `<del>` text becomes an alternative, with its offset when offsets are wanted, and opens or closes a span only when the box has none yet |
| `HocrParser.HocrParser.ReadEdit` | src/main/java/com/github/dbmdz/solrocr/formats/hocr/HocrParser.java:211-238 | as written: an `<ins>` or `<del>` element is exactly a text node and an end tag; a `<del>` text becomes an alternative |
| `HocrParser.HocrParser.FinishText` | src/main/java/com/github/dbmdz/solrocr/formats/hocr/HocrParser.java:176-200 | as written: the word takes its text and offset, is marked a first half when the text ends in a soft hyphen, and keeps a span tracked from an alternative |
| `HocrParser.HocrParser.ParseText` | src/main/java/com/github/dbmdz/solrocr/formats/hocr/HocrParser.java:158-240 | as written: reads up to the end of the word, taking the first text node or an `<ins>` text; alternatives only when asked for, and only added |
| `HocrParser.HocrParser.ReadWord` | src/main/java/com/github/dbmdz/solrocr/formats/hocr/HocrParser.java:55-73 | as written: title, text, coordinates, confidence and page of the word, each only when its feature is asked for |
| `HocrParser.HocrParser.ReadBox` | src/main/java/com/github/dbmdz/solrocr/formats/hocr/HocrParser.java:44-78 | as written: seek to the next word, read it, and collect the text to the following word; none when no word is left |
| `HocrParser.HocrParser.ReadNext` | src/main/java/com/github/dbmdz/solrocr/formats/hocr/HocrParser.java:31-117 | as written: a buffered second half is handed out first; an exhausted parser gives none; a returned box is never one to skip, and a first half's partner is buffered |
| `HocrParser.Open` | src/main/java/de/digitalcollections/solrocr/formats/OcrParser.java:68-99 | as written: opening a parser reads the first box into the buffer, never a box to skip; a failure there fails the construction |
| `OcrParser.AddAlternative` | src/main/java/de/digitalcollections/solrocr/model/OcrBox.java:228-233 | as written: the alternative is appended, its offset only when there is one, and nothing else of the box changes |
| `OcrParser.Without` | src/main/java/com/github/dbmdz/solrocr/formats/hocr/HocrParser.java:81 | as written: `replace(c, "")`: no `c` is left, every other character stays, and a string without `c` is unchanged |
| `OcrParser.TrackHighlight` | src/main/java/de/digitalcollections/solrocr/formats/OcrParser.java:149-167 | as written: a start marker opens a fresh span only when none is open; an end marker or a pending close closes it, delayed by one box when the end marker is on the first half of a split word; the invariant between calls is kept |
| `OcrParser.DelayedClose` | src/main/java/de/digitalcollections/solrocr/formats/OcrParser.java:153-160 | as written: a span ending on the first half of a split word also covers the second half, whatever its text, and closes after it |
| `OcrParser.SpansAreFresh` | src/main/java/de/digitalcollections/solrocr/formats/OcrParser.java:150-151 | as written: span ids are never reused: every box of a run belongs to the span open at its start or to one opened during the run with a fresh id |
| `OcrParser.TrackAll` | src/main/java/de/digitalcollections/solrocr/formats/OcrParser.java:149-167 | as written: one span id per box of a run |
| `OcrParser.HighlightedRun` | src/main/java/de/digitalcollections/solrocr/formats/OcrParser.java:149-167 | as written: a run from a start marker to an end marker puts every box in one fresh span and leaves no span open |
| `OcrParser.OpenRun` | src/main/java/de/digitalcollections/solrocr/formats/OcrParser.java:153-165 | as written: a run continuing an open span keeps every box in it until the end marker closes it |
| `OcrParser.Dashed` | src/main/java/de/digitalcollections/solrocr/formats/OcrParser.java:210-213 | as written: the trimmed text of an isolated first half, ending in a '-' and at most one character longer |
| `OcrParser.HighlightedAlternative` | src/main/java/de/digitalcollections/solrocr/formats/OcrParser.java:216-225 | as written: the first alternative with a highlight marker, present exactly when some alternative has one |
| `OcrParser.Carried` | src/main/java/de/digitalcollections/solrocr/formats/OcrParser.java:201-206 | as written: one box out for each box in |
| `OcrParser.BoxesToString` | src/main/java/de/digitalcollections/solrocr/formats/OcrParser.java:191-235 | as written: the trimmed `Joined` text of the boxes, and the boxes left as `Carried` says |
| `OcrParser.NextPiece` | src/main/java/de/digitalcollections/solrocr/formats/OcrParser.java:196-232 | as written: one round takes one box, or two for a complete split word, and contributes exactly its part of `Joined` and `Carried` |
| `OcrParser.CarriedPrefix` | src/main/java/de/digitalcollections/solrocr/formats/OcrParser.java:201-206 | as written: a round of the join extends the carried prefix by what it handed back |
| `OcrParser.JoinedFrom` | src/main/java/de/digitalcollections/solrocr/formats/OcrParser.java:196-232 | as written: `Joined` unfolded at one position of the run |
| `OcrParser.SplitWordJoins` | src/main/java/de/digitalcollections/solrocr/formats/OcrParser.java:201-206 | as written: a complete split word joins to its dehyphenated form once, followed by the second half's trailing chars |
| `OcrParser.IsolatedStartJoins` | src/main/java/de/digitalcollections/solrocr/formats/OcrParser.java:207-215 | as written: an isolated first half of a split word is shown with its hyphen |
| `OcrPassageFormatter.MeetsIffShared` | src/main/java/com/github/dbmdz/solrocr/lucene/OcrPassageFormatter.java:485-500 | as written: for proper intervals `overlaps` holds exactly when the two share an offset |
| `OcrPassageFormatter.MeetsSymmetric` | src/main/java/com/github/dbmdz/solrocr/lucene/OcrPassageFormatter.java:485-500 | as written: for proper intervals `overlaps` does not depend on the order of the two |
| `OcrPassageFormatter.MergedGrows` | src/main/java/com/github/dbmdz/solrocr/lucene/OcrPassageFormatter.java:502-508 | as written: `merge` only widens the interval, moving one end |
| `OcrPassageFormatter.MergedCovers` | src/main/java/com/github/dbmdz/solrocr/lucene/OcrPassageFormatter.java:502-508 | as written: merging with an overlapping interval that starts no earlier covers exactly the offsets of the two |
| `OcrPassageFormatter.PassageMatch.constructor` | src/main/java/com/github/dbmdz/solrocr/lucene/OcrPassageFormatter.java:480-483 | as written: a match with the given start and end |
| `OcrPassageFormatter.PassageMatch.Merge` | src/main/java/com/github/dbmdz/solrocr/lucene/OcrPassageFormatter.java:502-508 | as written: the match becomes `Merged` of its old value and the other's |
| `OcrPassageFormatter.Inputs` | src/main/java/com/github/dbmdz/solrocr/lucene/OcrPassageFormatter.java:70-73 | as written: one match per index below `numMatches`, from the two arrays |
| `OcrPassageFormatter.MergeAll` | src/main/java/com/github/dbmdz/solrocr/lucene/OcrPassageFormatter.java:74-85 | as written: merging a non-empty list gives a non-empty list |
| `OcrPassageFormatter.MergeAllSeparated` | src/main/java/com/github/dbmdz/solrocr/lucene/OcrPassageFormatter.java:69-87 | as written: matches sorted by start merge into proper matches, each ending before the next starts, none starting after the last input |
| `OcrPassageFormatter.StepCovers` | src/main/java/com/github/dbmdz/solrocr/lucene/OcrPassageFormatter.java:77-84 | as written: a merge step covers what the list and the candidate covered, nothing more |
| `OcrPassageFormatter.MergeAllCovers` | src/main/java/com/github/dbmdz/solrocr/lucene/OcrPassageFormatter.java:69-87 | as written: merging sorted matches keeps exactly the offsets they cover |
| `OcrPassageFormatter.MergeMatches` | src/main/java/com/github/dbmdz/solrocr/lucene/OcrPassageFormatter.java:69-87 | as written: fails with NoSuchElementException exactly when there are no matches; otherwise fresh matches whose values are `MergeAll` of the inputs |
| `OcrPassageFormatter.Absorb` | src/main/java/com/github/dbmdz/solrocr/lucene/OcrPassageFormatter.java:76-85 | as written: one turn of the loop does what `Step` does, merging into the last match or appending the candidate |
| `OcrPassageFormatter.MergeAllNext` | src/main/java/com/github/dbmdz/solrocr/lucene/OcrPassageFormatter.java:76-85 | as written: merging one more match is one more step |
| `OcrPassageFormatter.StepLast` | src/main/java/com/github/dbmdz/solrocr/lucene/OcrPassageFormatter.java:78-84 | as written: a step on the settled matches and the last one |
| `OcrPassageFormatter.EntityShiftKeepsAhead` | src/main/java/com/github/dbmdz/solrocr/lucene/OcrPassageFormatter.java:179-196 | as written: with every entity closed, the loop never moves the position back |
| `OcrPassageFormatter.EntityShiftGrows` | src/main/java/com/github/dbmdz/solrocr/lucene/OcrPassageFormatter.java:179-196 | as written: with every entity closed, the position never moves back, and each entity before it moves it on by the entity's length up to ';' |
| `OcrPassageFormatter.NoEntityKeeps` | src/main/java/com/github/dbmdz/solrocr/lucene/OcrPassageFormatter.java:182-187 | as written: without an '&' in the word before the position, the position stays |
| `OcrPassageFormatter.UnclosedEntityMovesBack` | src/main/java/com/github/dbmdz/solrocr/lucene/OcrPassageFormatter.java:188-191 | as written: an '&' with no ';' after it moves the position back (`"a&b"` at 3 gives 1) |
| `OcrPassageFormatter.AdjustPositionToCharacterEntities` | src/main/java/com/github/dbmdz/solrocr/lucene/OcrPassageFormatter.java:179-196 | as written: the loop computes `EntityShift` |
| `OcrPassageFormatter.Format` | src/main/java/com/github/dbmdz/solrocr/lucene/OcrPassageFormatter.java:97-116 | as written: one slot per passage; a passage whose formatting runs out of bounds leaves its slot empty, any other failure fails the call |
| `OcrPassageFormatter.DetermineStartPage` | src/main/java/com/github/dbmdz/solrocr/lucene/OcrPassageFormatter.java:212-223 | as written: no page for a start at or before 0; otherwise the fragment of at most 512 characters at the page start before the offset, parsed |
| `OcrPassageFormatter.PageStartUnique` | src/main/java/com/github/dbmdz/solrocr/lucene/OcrPassageFormatter.java:214 | as written: an offset has only one page start |
| `PageIndex.RecordSizeCounts` | src/main/java/com/github/dbmdz/solrocr/util/PageIndex.java:127-139 | as written: a record is 4 bytes plus 4 per feature, so between 4 and 16 |
| `PageIndex.HeaderSize` | src/main/java/com/github/dbmdz/solrocr/util/PageIndex.java:141-147 | as written: 10 bytes exactly when identifiers are stored, else 8 |
| `PageIndex.FeaturesOf` | src/main/java/com/github/dbmdz/solrocr/util/PageIndex.java:193-203 | as written: LENGTH, IDENTIFIER and DIMENSION are read from bits 0, 1 and 2 of the feature byte |
| `PageIndex.FeatureByteRoundTrip` | src/main/java/com/github/dbmdz/solrocr/util/PageIndex.java:158-167 | as written, round trip: the feature byte `compile` writes decodes to the features it was written from |
| `PageIndex.U16BE` | src/main/java/com/github/dbmdz/solrocr/util/PageIndex.java:174 | as written: `putShort` writes two bytes |
| `PageIndex.U32BE` | src/main/java/com/github/dbmdz/solrocr/util/PageIndex.java:321-323 | as written: `putInt` writes four bytes |
| `PageIndex.ReadU16BE` | src/main/java/com/github/dbmdz/solrocr/util/PageIndex.java:199 | as written: a written short reads back as the low 16 bits of the number |
| `PageIndex.ReadU32BE` | src/main/java/com/github/dbmdz/solrocr/util/PageIndex.java:421-422 | as written: a written int reads back as the low 32 bits of the number |
| `PageIndex.HeaderBytes` | src/main/java/com/github/dbmdz/solrocr/util/PageIndex.java:157-177 | as written: the compiled header is exactly `headerSize` bytes |
| `PageIndex.Compile` | src/main/java/com/github/dbmdz/solrocr/util/PageIndex.java:157-177 | as written: fills a buffer of `headerSize` bytes with magic, version, feature byte and, with identifiers, the record count |
| `PageIndex.Padded` | src/main/java/com/github/dbmdz/solrocr/util/PageIndex.java:180-181 | as written: a read of n bytes gives the file's bytes from the position, zeros past its end |
| `PageIndex.PaddedMagic` | src/main/java/com/github/dbmdz/solrocr/util/PageIndex.java:180-185 | as written: the first six bytes read are the magic exactly when the file starts with it |
| `PageIndex.WrapInt32` | src/main/java/com/github/dbmdz/solrocr/util/PageIndex.java:208 | as written: the `(int)` cast of a `long` is an `int`, and leaves an `int` unchanged |
| `PageIndex.ParseHeaderAsWritten` | src/main/java/com/github/dbmdz/solrocr/util/PageIndex.java:179-211 | as written: a file without the magic is an IOException; a header with identifiers never parses (`position(8)` on a 2-byte buffer) |
| `PageIndex.ParseHeader` | src/main/java/com/github/dbmdz/solrocr/util/PageIndex.java:179-211 | corrected: parses exactly when the magic is there, and with identifiers reads the record count from bytes 8 and 9 |
| `PageIndex.HeaderBytesLayout` | src/main/java/com/github/dbmdz/solrocr/util/PageIndex.java:169-175 | as written: where magic, version, feature byte and record count sit in a compiled header |
| `PageIndex.ParseCompiledHeaderAsWritten` | src/main/java/com/github/dbmdz/solrocr/util/PageIndex.java:204-209 | as written: without identifiers a compiled header parses back, counting the whole records after it |
| `PageIndex.ParseIdentifierHeaderAsWritten` | src/main/java/com/github/dbmdz/solrocr/util/PageIndex.java:196-199 | as written: with identifiers no compiled header parses (IllegalArgumentException) |
| `PageIndex.ParseCompiledHeader` | src/main/java/com/github/dbmdz/solrocr/util/PageIndex.java:179-211 | corrected: a compiled header with identifiers parses back, its record count modulo 2^16 |
| `PageIndex.OpenAsWritten` | src/main/java/com/github/dbmdz/solrocr/util/PageIndex.java:363-375 | as written: no file opens, since every index it accepts needs identifiers |
| `PageIndex.Open` | src/main/java/com/github/dbmdz/solrocr/util/PageIndex.java:363-375 | corrected: opens exactly when the header parses and has all three required features |
| `PageIndex.ChannelRead` | src/main/java/com/github/dbmdz/solrocr/util/PageIndex.java:388 | as written: `FileChannel.read(buf, at)` keeps the buffer's size and limit and only moves its position forward; a full buffer reads nothing |
| `PageIndex.Flip` | src/main/java/com/github/dbmdz/solrocr/util/PageIndex.java:389 | as written: `flip` keeps the buffer well formed |
| `PageIndex.Clear` | src/main/java/com/github/dbmdz/solrocr/util/PageIndex.java:382 | as written: `clear` gives a well-formed buffer |
| `PageIndex.GetInt` | src/main/java/com/github/dbmdz/solrocr/util/PageIndex.java:390 | as written: `getInt` succeeds exactly when four bytes remain before the limit, and moves the position by four |
| `PageIndex.LocateStep` | src/main/java/com/github/dbmdz/solrocr/util/PageIndex.java:386-408 | as written: a probe that goes on narrows the interval |
| `PageIndex.LocatePageAsWritten` | src/main/java/com/github/dbmdz/solrocr/util/PageIndex.java:377-411 | as written: no records give empty; otherwise the search with the buffer as each probe leaves it, never cleared |
| `PageIndex.ClearedProbeReadsRecord` | src/main/java/com/github/dbmdz/solrocr/util/PageIndex.java:388-389 | corrected: a probe from a cleared buffer reads the record's eight bytes |
| `PageIndex.SpentProbeRereads` | src/main/java/com/github/dbmdz/solrocr/util/PageIndex.java:388-389 | as written: a probe of a spent buffer rereads the bytes it already holds |
| `PageIndex.ProbeOfRecord` | src/main/java/com/github/dbmdz/solrocr/util/PageIndex.java:386-408 | as written and corrected alike: one probe that reads a record's start and length, and where the search goes next |
| `PageIndex.FivePagesHeader` | src/main/java/com/github/dbmdz/solrocr/util/PageIndex.java:179-211 | as written: the five-page sample index has a well-formed header |
| `PageIndex.StaleSearch` | src/main/java/com/github/dbmdz/solrocr/util/PageIndex.java:386-410 | as written: the search for offset 350 reads record 2 and then nothing new, and ends empty |
| `PageIndex.ClearedSearch` | src/main/java/com/github/dbmdz/solrocr/util/PageIndex.java:386-410 | corrected: with a cleared buffer the same search reads record 3 and finds page 3 |
| `PageIndex.StaleBufferMissesPage` | src/main/java/com/github/dbmdz/solrocr/util/PageIndex.java:377-411 | as written vs corrected: offset 350 lies in page 3, but the search as written finds nothing; with a cleared buffer it finds the page starting at 300 |
| `PageIndex.LocatePage` | src/main/java/com/github/dbmdz/solrocr/util/PageIndex.java:377-411 | corrected: nothing for no records; an answer is the index of a record holding the offset, and over ordered records any record holding it is found; it answers the record index rather than the page start, which `LocateRecord` turns into the record's offset |
| `PageIndex.LocateRecordAsWritten` | src/main/java/com/github/dbmdz/solrocr/util/PageIndex.java:407 | as written: the page start the search answers goes to `parsePage` as a record offset, so a record comes back only when the located page starts at OCR offset 10 |
| `PageIndex.PageStartIsNoRecordOffset` | src/main/java/com/github/dbmdz/solrocr/util/PageIndex.java:407 | as written vs corrected: on the five-page index, offset 250 locates the page starting at 200, which `parsePage` refuses as written and corrected; the record of that page lies at 10 + 2 · 16 |
| `PageIndex.LocateRecord` | src/main/java/com/github/dbmdz/solrocr/util/PageIndex.java:377-428 | corrected: the record found is read at `headerSize + k * recordSize`; an answer is a record of the index holding the offset, and over ordered records the record holding the offset is always returned |
| `PageIndex.Utf8String` | src/main/java/com/github/dbmdz/solrocr/util/PageIndex.java:331 | as written: the UTF-8 bytes of an identifier without NUL hold no zero byte |
| `PageIndex.SizeBytes` | src/main/java/com/github/dbmdz/solrocr/util/PageIndex.java:337-340 | as written: width and height take four bytes |
| `PageIndex.RecordBytes` | src/main/java/com/github/dbmdz/solrocr/util/PageIndex.java:318-340 | as written: a record is 16 bytes with sizes, 12 without |
| `PageIndex.IdPointers` | src/main/java/com/github/dbmdz/solrocr/util/PageIndex.java:324-335 | as written: one identifier pointer per page |
| `PageIndex.Put` | src/main/java/com/github/dbmdz/solrocr/util/PageIndex.java:320-340 | as written: a run of `put` calls writes the bytes at the position and leaves the rest of the buffer |
| `PageIndex.TableSnoc` | src/main/java/com/github/dbmdz/solrocr/util/PageIndex.java:316-342 | as written: one more page adds its record to the table, its entry to the tail and its pointer to the pointers |
| `PageIndex.AssembleRecord` | src/main/java/com/github/dbmdz/solrocr/util/PageIndex.java:318-340 | as written: the `put` calls for one page give `RecordBytes` |
| `PageIndex.PutRecord` | src/main/java/com/github/dbmdz/solrocr/util/PageIndex.java:316-342 | as written: one turn of the loop puts record `idx` right after the records before it and extends the identifier tail |
| `PageIndex.WriteRecords` | src/main/java/com/github/dbmdz/solrocr/util/PageIndex.java:315-347 | as written: fails (NullPointerException) exactly when sizes are stored and a page has none; otherwise header, table and tail |
| `PageIndex.WriteIndex` | src/main/java/com/github/dbmdz/solrocr/util/PageIndex.java:291-348 | as written: the bytes are `IndexBytes`: nothing for no pages, else header, one record per page and the identifiers |
| `PageIndex.ParsePageAsWritten` | src/main/java/com/github/dbmdz/solrocr/util/PageIndex.java:413-428 | as written: the alignment guard lets only offset 10 through |
| `PageIndex.ParsePage` | src/main/java/com/github/dbmdz/solrocr/util/PageIndex.java:413-428 | corrected: every record offset `10 + 16i` passes, and the record is read from the file's bytes there |
| `PageIndex.ParsePageRejectsLaterRecords` | src/main/java/com/github/dbmdz/solrocr/util/PageIndex.java:414 | as written vs corrected: the record of every page but the first is turned away by the guard as written and read by the corrected one |
| `PageIndex.ReadRecordBytes` | src/main/java/com/github/dbmdz/solrocr/util/PageIndex.java:321-340 | as written, round trip: a written record reads back as its page's offsets modulo 2^32 and its size modulo 2^16 |
| `PageIndex.TableLength` | src/main/java/com/github/dbmdz/solrocr/util/PageIndex.java:308 | as written: with sizes the table holds 16 bytes per page |
| `PageIndex.TableRecordAt` | src/main/java/com/github/dbmdz/solrocr/util/PageIndex.java:318 | as written: record i of the table sits at 16i and carries pointer i |
| `PageIndex.IdPointerAt` | src/main/java/com/github/dbmdz/solrocr/util/PageIndex.java:330-334 | as written: pointer i points past the identifier entries of the pages before it |
| `PageIndex.IdTailEntryAt` | src/main/java/com/github/dbmdz/solrocr/util/PageIndex.java:331-333 | as written: the tail entry of page i follows the entries of the pages before it |
| `PageIndex.IdTailPrefix` | src/main/java/com/github/dbmdz/solrocr/util/PageIndex.java:331-333 | as written: the tail written for the first j pages begins the tail of all of them |
| `PageIndex.IdEntryTerminated` | src/main/java/com/github/dbmdz/solrocr/util/PageIndex.java:331-333 | as written: an identifier's entry is its UTF-8 bytes ended by its only NUL |
| `PageIndex.WrittenIndexUnopenableAsWritten` | src/main/java/com/github/dbmdz/solrocr/util/PageIndex.java:291-375 | as written: no index `writeIndex` wrote can be opened |
| `PageIndex.TailStart` | src/main/java/com/github/dbmdz/solrocr/util/PageIndex.java:310 | as written: the tail of an index with sizes starts at 10 + 16 per page |
| `PageIndex.WrittenLayout` | src/main/java/com/github/dbmdz/solrocr/util/PageIndex.java:291-348 | as written: an index written for pages with sizes: a 10-byte header, 16 bytes per page, then the tail |
| `PageIndex.LayoutOf` | src/main/java/com/github/dbmdz/solrocr/util/PageIndex.java:307-347 | as written: the layout of a written index, given its tail start |
| `PageIndex.WrittenIndexOpens` | src/main/java/com/github/dbmdz/solrocr/util/PageIndex.java:291-375 | corrected, round trip: an index written for pages with sizes opens, with its page count modulo 2^16 |
| `PageIndex.WrittenRecordParses` | src/main/java/com/github/dbmdz/solrocr/util/PageIndex.java:413-428 | corrected, round trip: page i's record of a written index is read whole by `ParsePage` |
| `PageIndex.WrittenRecordBytes` | src/main/java/com/github/dbmdz/solrocr/util/PageIndex.java:318-340 | as written: in a written index the 16 bytes at 10 + 16i are page i's record |
| `PageIndex.ParseRecordAt` | src/main/java/com/github/dbmdz/solrocr/util/PageIndex.java:413-428 | corrected: the record at 10 + 16i is read whole |
| `PageIndex.WrittenTail` | src/main/java/com/github/dbmdz/solrocr/util/PageIndex.java:343-347 | as written: in a written index the identifier tail starts right after the table |
| `PageIndex.WrittenWithoutSizesUnopenable` | src/main/java/com/github/dbmdz/solrocr/util/PageIndex.java:357-375 | as written: an index written for pages without sizes lacks a required feature and is refused |
| `PeekingReader.LastN` | src/main/java/de/digitalcollections/solrocr/reader/PeekingReader.java:73-99 | as written: the last n chars delivered, all of them when fewer: a suffix of length `min(total, n)` |
| `PeekingReader.LastNAppend` | src/main/java/de/digitalcollections/solrocr/reader/PeekingReader.java:81-87 | as written: new chars that fit join the end of the kept window |
| `PeekingReader.LastNOfLastN` | src/main/java/de/digitalcollections/solrocr/reader/PeekingReader.java:76-80 | as written: the last m of the last n are the last m |
| `PeekingReader.LastNLongSuffix` | src/main/java/de/digitalcollections/solrocr/reader/PeekingReader.java:76-80 | as written: when at least n new chars arrive, the window is their last n |
| `PeekingReader.LastNCompose` | src/main/java/de/digitalcollections/solrocr/reader/PeekingReader.java:73-99 | as written: keeping only the last n before appending does not change the last n after it, so the bounded buffer loses nothing the window needs |
| `PeekingReader.PeekOfAnswer` | src/main/java/de/digitalcollections/solrocr/reader/PeekingReader.java:31-43 | corrected: the peek buffer is a beginning of the input no longer than `beginPeekSize`, empty only when either is; it agrees with the constructor as written exactly when the wrapped reader did not answer -1 |
| `PeekingReader.EmptyInputFailsAsWritten` | src/main/java/de/digitalcollections/solrocr/reader/PeekingReader.java:36-40 | as written vs corrected: on an empty input the constructor as written fails (`new char[-1]`), where the intended peek buffer is the empty one |
| `PeekingReader.ReadCount` | src/main/java/de/digitalcollections/solrocr/reader/PeekingReader.java:53-71 | corrected: -1 only when nothing was peeked and the wrapped reader is at its end; never more than `len`; otherwise the peeked chars plus what the wrapped reader gave |
| `PeekingReader.ReadCountAsWrittenMiscounts` | src/main/java/de/digitalcollections/solrocr/reader/PeekingReader.java:58-65 | as written vs corrected: two peeked chars and a wrapped reader at its end report 1 instead of 2; three peeked chars with `len` 1 report 3 |
| `PeekingReader.PeekingReader.constructor` | src/main/java/de/digitalcollections/solrocr/reader/PeekingReader.java:31-50 | corrected: a valid reader with an empty back context of the given capacity and the peek buffer of `PeekOfAnswer` |
| `PeekingReader.PeekingReader.PeekBeginning` | src/main/java/de/digitalcollections/solrocr/reader/PeekingReader.java:105-107 | as written: the buffered beginning of the input, at most `beginPeekSize` chars, whatever has been read since |
| `PeekingReader.PeekingReader.PeekBackContext` | src/main/java/de/digitalcollections/solrocr/reader/PeekingReader.java:110-112 | as written: the last chars delivered, at most the capacity, starting at the back-context start offset |
| `PeekingReader.PeekingReader.GetBackContextStartOffset` | src/main/java/de/digitalcollections/solrocr/reader/PeekingReader.java:115-117 | as written: `max(0, inputOffset - capacity)`, which plus the back-context size is the input offset |
| `PeekingReader.PeekingReader.Read` | src/main/java/de/digitalcollections/solrocr/reader/PeekingReader.java:53-102 | corrected: -1 exactly at the end of all input; otherwise the next chars of the input, at most `len`, all the peeked ones first; the back context then holds the last chars delivered; a read of nothing changes neither offset nor context |
| `PeekingReader.PeekingReader.Deliver` | src/main/java/de/digitalcollections/solrocr/reader/PeekingReader.java:67-100 | as written: the chars just read join the delivered chars, the offset moves by their number, and the back context is their last window |
| `PeekingReader.PeekingReader.Take` | src/main/java/de/digitalcollections/solrocr/reader/PeekingReader.java:54-66 | corrected: the chars come from the peek buffer first, then from the wrapped reader, and are taken off the remaining input |
| `PeekingReader.PeekingReader.TakeInput` | src/main/java/de/digitalcollections/solrocr/reader/PeekingReader.java:64-66 | as written: with the peek buffer used up, the rest of the request goes to the wrapped reader, whose -1 is reported only when nothing was peeked |
| `PeekingReader.PeekingReader.TakePeek` | src/main/java/de/digitalcollections/solrocr/reader/PeekingReader.java:57-63 | corrected: as many peeked chars as are left and asked for, taken off the front of the remaining input |
| `PeekingReader.PeekingReader.ReadInput` | src/main/java/de/digitalcollections/solrocr/reader/PeekingReader.java:65 | as written: the wrapped reader: -1 exactly at its end, otherwise between one and the asked number of its next chars |
| `PeekingReader.PeekingReader.UpdateBackContext` | src/main/java/de/digitalcollections/solrocr/reader/PeekingReader.java:73-99 | as written: the back context becomes the last window of the old context followed by the new chars |
| `PeekingReader.PeekingReader.Replace` | src/main/java/de/digitalcollections/solrocr/reader/PeekingReader.java:76-87 | as written: when at least a full context was read, its last chars replace the context |
| `PeekingReader.PeekingReader.Append` | src/main/java/de/digitalcollections/solrocr/reader/PeekingReader.java:76-87 | as written: new chars that fit go behind the old ones |
| `PeekingReader.PeekingReader.Shift` | src/main/java/de/digitalcollections/solrocr/reader/PeekingReader.java:88-98 | as written: the newest old chars that still fit, then the new ones, in a fresh buffer |
| `PeekingReader.Concat` | src/main/java/de/digitalcollections/solrocr/reader/PeekingReader.java:90-96 | as written: a fresh array holding the two slices one after the other |
| `PeekingReader.LastNShift` | src/main/java/de/digitalcollections/solrocr/reader/PeekingReader.java:92-96 | as written: when new chars push old ones out, the window is the newest old ones that fit, then the new ones |
| `BaseSourceReader.Latin1` | src/main/java/com/github/dbmdz/solrocr/reader/BaseSourceReader.java:227 | as written: `new String(bytes, 0, 0, n)` gives one char per byte |
| `BaseSourceReader.Latin1Chars` | src/main/java/com/github/dbmdz/solrocr/reader/BaseSourceReader.java:227 | as written: each char has its byte's value, so different bytes never give the same text |
| `BaseSourceReader.SectionOfOffset` | src/main/java/com/github/dbmdz/solrocr/reader/BaseSourceReader.java:209-218 | as written: the section `offset / sectionSize` exists, starts at or before the offset and ends after it |
| `BaseSourceReader.SectionStartInside` | src/main/java/com/github/dbmdz/solrocr/reader/BaseSourceReader.java:84 | as written: every one of the `ceil(length / sectionSize)` sections starts inside the source |
| `BaseSourceReader.SectionAt` | src/main/java/com/github/dbmdz/solrocr/reader/BaseSourceReader.java:217-227 | as written: section k starts at `k * sectionSize`, ends at the smaller of its full end and the length, and holds one char per byte |
| `BaseSourceReader.SectionInTable` | src/main/java/com/github/dbmdz/solrocr/reader/BaseSourceReader.java:209 | as written: every offset lies in the section `offset / sectionSize`, which holds its byte |
| `BaseSourceReader.SectionHoldingOffset` | src/main/java/com/github/dbmdz/solrocr/reader/BaseSourceReader.java:209 | as written: the section holding an offset is the one `offset / sectionSize` names |
| `BaseSourceReader.UsedBound` | src/main/java/com/github/dbmdz/solrocr/reader/BaseSourceReader.java:86-87 | as written: at most `maxCacheEntries` entries are in use, and one is free when fewer are |
| `BaseSourceReader.CacheInvBound` | src/main/java/com/github/dbmdz/solrocr/reader/BaseSourceReader.java:228-240 | as written: under the cache invariant at most `maxCacheEntries` sections are cached, and an entry is free when fewer are |
| `BaseSourceReader.CacheInvTouch` | src/main/java/com/github/dbmdz/solrocr/reader/BaseSourceReader.java:213-215 | as written: renewing a cached section's stamp keeps the invariant |
| `BaseSourceReader.CacheInvEvict` | src/main/java/com/github/dbmdz/solrocr/reader/BaseSourceReader.java:110-112 | as written: dropping a listed section from its slot and its entry keeps the invariant with one fewer in use |
| `BaseSourceReader.CacheInvInsert` | src/main/java/com/github/dbmdz/solrocr/reader/BaseSourceReader.java:231-240 | as written: caching section k in a free entry keeps the invariant with one more in use |
| `BaseSourceReader.BaseSourceReader.constructor` | src/main/java/com/github/dbmdz/solrocr/reader/BaseSourceReader.java:50-55 | as written, with `initializeCache` (lines 79-88): every slot empty, every entry unused, none counted |
| `BaseSourceReader.BaseSourceReader.ReadBytes` | src/main/java/com/github/dbmdz/solrocr/reader/BaseSourceReader.java:221 | as written: `readBytes`: copies between one and `len` bytes of the source to the destination and leaves the rest of it |
| `BaseSourceReader.BaseSourceReader.PurgeLeastRecentlyUsed` | src/main/java/com/github/dbmdz/solrocr/reader/BaseSourceReader.java:91-113 | as written: nothing changes unless the cache is full; then the section with the oldest stamp is dropped from its slot and its entry |
| `BaseSourceReader.BaseSourceReader.ReadFully` | src/main/java/com/github/dbmdz/solrocr/reader/BaseSourceReader.java:219-222 | as written: `readBytes` until the `len` bytes from `start` are in the buffer |
| `BaseSourceReader.BaseSourceReader.ReadSection` | src/main/java/com/github/dbmdz/solrocr/reader/BaseSourceReader.java:217-227 | as written: section k as `SectionAt` describes it |
| `BaseSourceReader.BaseSourceReader.CacheSection` | src/main/java/com/github/dbmdz/solrocr/reader/BaseSourceReader.java:231-240 | as written: the first free entry takes k and slot k the section with a fresh stamp; one more in use |
| `BaseSourceReader.BaseSourceReader.GetAsciiSection` | src/main/java/com/github/dbmdz/solrocr/reader/BaseSourceReader.java:202-243 | as written: fails exactly outside `[0, length)`; otherwise the section holding the offset, stamped now; a hit changes nothing else, a miss adds one entry, after evicting when the cache is full |
| `BaseSourceReader.BaseSourceReader.UseCached` | src/main/java/com/github/dbmdz/solrocr/reader/BaseSourceReader.java:213-216 | as written: a hit renews the stamp and returns the stored section without reading |
| `BaseSourceReader.BaseSourceReader.LoadSection` | src/main/java/com/github/dbmdz/solrocr/reader/BaseSourceReader.java:217-240 | as written: a miss reads the section and caches it, evicting first when the cache is full |
| `BaseSourceReader.BaseSourceReader.ReadAsciiString` | src/main/java/com/github/dbmdz/solrocr/reader/BaseSourceReader.java:116-133 | as written: fails exactly for a negative start or a start past the end; otherwise the bytes from `start`, clipped at the end, one char each |
| `BaseSourceReader.BaseSourceReader.ReadPart` | src/main/java/com/github/dbmdz/solrocr/reader/BaseSourceReader.java:126-130 | as written: one round gives a non-empty run of the bytes at the position, no longer than what is left |
| `BaseSourceReader.BaseSourceReader.ReadUtf8String` | src/main/java/com/github/dbmdz/solrocr/reader/BaseSourceReader.java:136-152 | corrected: fails for a negative start or one past the end; otherwise the clipped bytes trimmed by `Utf8Window`, the bytes the decoder gets |
| `BaseSourceReader.SectionSlice` | src/main/java/com/github/dbmdz/solrocr/reader/BaseSourceReader.java:129 | as written: cutting a section's text inside it gives the bytes there |
| `BaseSourceReader.Latin1Grow` | src/main/java/com/github/dbmdz/solrocr/reader/BaseSourceReader.java:125-131 | as written: the text read so far and the next part are the text of the longer run |
| `BaseSourceReader.NextBoundary` | src/main/java/com/github/dbmdz/solrocr/reader/BaseSourceReader.java:160-167 | as written: the first byte at or after i that is not a continuation byte, or -1 when only continuation bytes follow |
| `BaseSourceReader.BoundaryBefore` | src/main/java/com/github/dbmdz/solrocr/reader/BaseSourceReader.java:174-196 | as written: the last byte before i that is not a continuation byte, or -1 |
| `BaseSourceReader.AdjustOffset` | src/main/java/com/github/dbmdz/solrocr/reader/BaseSourceReader.java:158-200 | corrected: outside the buffer an index error; RIGHT is `NextBoundary`; LEFT is `AdjustLeft`, which drops a lead byte at the offset itself |
| `BaseSourceReader.Utf8WindowErrors` | src/main/java/com/github/dbmdz/solrocr/reader/BaseSourceReader.java:149-151 | corrected: an empty buffer and a LEFT scan that runs off the front are index errors |
| `BaseSourceReader.Utf8WindowSteps` | src/main/java/com/github/dbmdz/solrocr/reader/BaseSourceReader.java:149-151 | corrected: the window is the bytes between the first boundary and the adjusted last byte |
| `BaseSourceReader.AnnouncedLengthOfLead` | src/main/java/com/github/dbmdz/solrocr/reader/BaseSourceReader.java:180-188 | as written: the lead byte of an encoded code point announces its length under the three bit checks |
| `BaseSourceReader.AdjustLeftKeepsComplete` | src/main/java/com/github/dbmdz/solrocr/reader/BaseSourceReader.java:179-188 | corrected: a complete sequence at the end is kept: LEFT from its last byte stays |
| `BaseSourceReader.AdjustLeftDropsTruncated` | src/main/java/com/github/dbmdz/solrocr/reader/BaseSourceReader.java:189-191 | corrected: a sequence cut short at the end is dropped: LEFT from its last byte goes before its lead byte |
| `BaseSourceReader.BoundaryAt` | src/main/java/com/github/dbmdz/solrocr/reader/BaseSourceReader.java:175-196 | as written: the backward scan stops at the first byte that is not a continuation byte |
| `BaseSourceReader.LoneLeadAsWritten` | src/main/java/com/github/dbmdz/solrocr/reader/BaseSourceReader.java:169-173 | as written vs corrected: `C3 A9 C3` at 2 gives -1 as written, losing the complete é; the corrected scan gives 1 |
| `BaseSourceReader.Utf8WindowWhole` | src/main/java/com/github/dbmdz/solrocr/reader/BaseSourceReader.java:149-151 | corrected: text that is whole UTF-8 passes the window unchanged |
| `BaseSourceReader.Utf8WindowWellFormed` | src/main/java/com/github/dbmdz/solrocr/reader/BaseSourceReader.java:149-151 | corrected: the window of encoded text without surrogates is well-formed UTF-8 per section 3.9 of the Unicode Standard |
| `BaseSourceReader.Utf8WindowDropsTruncated` | src/main/java/com/github/dbmdz/solrocr/reader/BaseSourceReader.java:149-151 | corrected: text whose last character is cut short keeps exactly the whole characters before it |
| `BaseSourceReader.WindowKeepsWhole` | src/main/java/com/github/dbmdz/solrocr/reader/BaseSourceReader.java:149-151 | corrected: a buffer starting on a boundary and ending with a whole sequence is its own window |
| `SanitizingXmlFilter.FirstOf` | src/main/java/com/github/dbmdz/solrocr/lucene/filters/SanitizingXmlFilter.java:293-308 | as written: the first index at or after the start whose char is one of the values, or -1; no earlier index holds one |
| `SanitizingXmlFilter.MultiIndexOf` | src/main/java/com/github/dbmdz/solrocr/lucene/filters/SanitizingXmlFilter.java:293-308 | as written: the array search returns exactly `FirstOf` of the buffer's contents |
| `SanitizingXmlFilter.TagEquals` | src/main/java/com/github/dbmdz/solrocr/lucene/filters/SanitizingXmlFilter.java:55-65 | as written: true exactly when the tag length equals the checked name's and the buffer slice equals it char for char |
| `SanitizingXmlFilter.IsLegalComment` | src/main/java/com/github/dbmdz/solrocr/lucene/filters/SanitizingXmlFilter.java:358-363 | as written: a span is a legal comment exactly when it starts "<!--" and ends "-->" |
| `SanitizingXmlFilter.EmptyReferenceAsWritten` | src/main/java/com/github/dbmdz/solrocr/lucene/filters/SanitizingXmlFilter.java:310-356 | as written vs corrected: as written "&#x;" throws a NumberFormatException from parsing an empty hex run and "&#;" is accepted, while the corrected rule rejects both |
| `SanitizingXmlFilter.EntityAsWrittenAgrees` | src/main/java/com/github/dbmdz/solrocr/lucene/filters/SanitizingXmlFilter.java:310-356 | as written: wherever the as-written check returns without throwing and the digit run is not empty, it gives the corrected rule's answer |
| `SanitizingXmlFilter.IsLegalEntity` | src/main/java/com/github/dbmdz/solrocr/lucene/filters/SanitizingXmlFilter.java:310-356 | corrected: the scan answers exactly the entity rule (hex up to 0x10FFFF, decimal digits, or a letter followed by name chars, all non-empty) |
| `SanitizingXmlFilter.Spaces` | src/main/java/com/github/dbmdz/solrocr/lucene/filters/SanitizingXmlFilter.java:126-129 | as written: n spaces, used to mask an illegal entity or element |
| `SanitizingXmlFilter.BlankRange` | src/main/java/com/github/dbmdz/solrocr/lucene/filters/SanitizingXmlFilter.java:126-129 | as written: the buffer with exactly the chars of the closed range replaced by spaces, everything else unchanged |
| `SanitizingXmlFilter.Unbracket` | src/main/java/com/github/dbmdz/solrocr/lucene/filters/SanitizingXmlFilter.java:173-184 | as written: a bad declaration is overwritten with spaces and nothing outside the element changes |
| `SanitizingXmlFilter.FixPi` | src/main/java/com/github/dbmdz/solrocr/lucene/filters/SanitizingXmlFilter.java:168-171 | as written: an unterminated processing instruction gets its closing '?'; the element stays bracketed, and anything else is left unchanged |
| `SanitizingXmlFilter.StartTagOf` | src/main/java/com/github/dbmdz/solrocr/lucene/filters/SanitizingXmlFilter.java:204-206 | as written: the tag name starts after "<", "</" or "<?" and inside the element |
| `SanitizingXmlFilter.EndTagOf` | src/main/java/com/github/dbmdz/solrocr/lucene/filters/SanitizingXmlFilter.java:208-211 | as written: the tag name ends at the first blank, or before "/>" or ">", and holds no blank |
| `SanitizingXmlFilter.TagEffect` | src/main/java/com/github/dbmdz/solrocr/lucene/filters/SanitizingXmlFilter.java:214-257 | as written: checking and stacking a tag only masks chars inside the element and leaves the DOCTYPE flag alone |
| `SanitizingXmlFilter.StackEffect` | src/main/java/com/github/dbmdz/solrocr/lucene/filters/SanitizingXmlFilter.java:232-257 | as written: the stack update only masks chars inside the element and leaves the DOCTYPE flag alone |
| `SanitizingXmlFilter.MarkupEffect` | src/main/java/com/github/dbmdz/solrocr/lucene/filters/SanitizingXmlFilter.java:187-257 | as written: comments, DOCTYPEs and tags only mask chars inside the element |
| `SanitizingXmlFilter.ElementEffect` | src/main/java/com/github/dbmdz/solrocr/lucene/filters/SanitizingXmlFilter.java:166-257 | as written: the whole treatment of one element only masks chars inside it |
| `SanitizingXmlFilter.ClosingTagPopsOrBlanks` | src/main/java/com/github/dbmdz/solrocr/lucene/filters/SanitizingXmlFilter.java:232-245 | as written: a closing tag that matches the top of the stack pops it and keeps the text; any other closing tag is overwritten with spaces and the stack is kept |
| `SanitizingXmlFilter.OpeningTagPushes` | src/main/java/com/github/dbmdz/solrocr/lucene/filters/SanitizingXmlFilter.java:246-257 | as written: an opening tag pushes its name, except "br", which is overwritten with spaces |
| `SanitizingXmlFilter.DoctypeOnce` | src/main/java/com/github/dbmdz/solrocr/lucene/filters/SanitizingXmlFilter.java:192-202 | as written: the first DOCTYPE is kept and sets the flag; every later one is overwritten with spaces |
| `SanitizingXmlFilter.ClosingTag` | src/main/java/com/github/dbmdz/solrocr/lucene/filters/SanitizingXmlFilter.java:265-267 | as written: "</", the name, ">" |
| `SanitizingXmlFilter.ClosingTags` | src/main/java/com/github/dbmdz/solrocr/lucene/filters/SanitizingXmlFilter.java:264-268 | as written: the trailer is empty exactly when no element is open |
| `SanitizingXmlFilter.ClosingTagsAppend` | src/main/java/com/github/dbmdz/solrocr/lucene/filters/SanitizingXmlFilter.java:264-268 | as written: the trailer of a split stack is the trailers of the parts, top part first |
| `SanitizingXmlFilter.ClosingTagsAt` | src/main/java/com/github/dbmdz/solrocr/lucene/filters/SanitizingXmlFilter.java:264-268 | as written: the trailer holds the closing tag of every open element, in stack order |
| `SanitizingXmlFilter.ClosingTagPops` | src/main/java/com/github/dbmdz/solrocr/lucene/filters/SanitizingXmlFilter.java:232-245 | as written: fed back through the filter, the closing tag of the top element pops it and changes nothing else |
| `SanitizingXmlFilter.PushedNamesClosable` | src/main/java/com/github/dbmdz/solrocr/lucene/filters/SanitizingXmlFilter.java:214-257 | as written: under advanced fixing every pushed name is non-empty letters and ':' only, so every tag in the trailer closes its element |
| `SanitizingXmlFilter.CarryChunk` | src/main/java/com/github/dbmdz/solrocr/lucene/filters/SanitizingXmlFilter.java:71-83 | corrected: the carried chunk is the next `min(remaining, len)` chars from the carry-over's current index |
| `SanitizingXmlFilter.CarryRepeatedAsWritten` | src/main/java/com/github/dbmdz/solrocr/lucene/filters/SanitizingXmlFilter.java:74 | as written vs corrected: carrying "<abc" in reads of 2 hands out "<a<a" as written, "<abc" corrected |
| `SanitizingXmlFilter.ReadCount` | src/main/java/com/github/dbmdz/solrocr/lucene/filters/SanitizingXmlFilter.java:84-85 | corrected: -1 only when nothing was carried and the input is exhausted; otherwise the carried count plus what was read |
| `SanitizingXmlFilter.EndAfterCarryAsWritten` | src/main/java/com/github/dbmdz/solrocr/lucene/filters/SanitizingXmlFilter.java:85 | as written vs corrected: 3 carried chars with an exhausted input give 2 as written, 3 corrected |
| `SanitizingXmlFilter.StaleCloseAsWritten` | src/main/java/com/github/dbmdz/solrocr/lucene/filters/SanitizingXmlFilter.java:147 | as written: a stale '>' just past the data passes the bound check and "<ab" is pushed as an element, while the corrected check carries it over |
| `SanitizingXmlFilter.EntityCarrySize` | src/main/java/com/github/dbmdz/solrocr/lucene/filters/SanitizingXmlFilter.java:108 | corrected: the carry-over is the chars after the '&' up to the end of the data, fewer than were read |
| `SanitizingXmlFilter.EntityCarryAsWritten` | src/main/java/com/github/dbmdz/solrocr/lucene/filters/SanitizingXmlFilter.java:108 | as written vs corrected: with the data at offset 4, "&ab" gives the size -2 as written, 2 corrected |
| `SanitizingXmlFilter.SanitizingXmlFilter.constructor` | src/main/java/com/github/dbmdz/solrocr/lucene/filters/SanitizingXmlFilter.java:50-53 | as written: a fresh filter has the whole input pending, an empty stack, no DOCTYPE and no trailer |
| `SanitizingXmlFilter.SanitizingXmlFilter.ReadInput` | src/main/java/com/github/dbmdz/solrocr/lucene/filters/SanitizingXmlFilter.java:84-85 | as written: the wrapped read copies the next `min(n, available)` input chars after the buffer's prefix, or returns -1 at the end |
| `SanitizingXmlFilter.SanitizingXmlFilter.FixEntities` | src/main/java/com/github/dbmdz/solrocr/lucene/filters/SanitizingXmlFilter.java:92-131 | corrected: only masks chars of the data; resumes inside it or carries an entity over that is shorter than the data |
| `SanitizingXmlFilter.SanitizingXmlFilter.FixDeclaration` | src/main/java/com/github/dbmdz/solrocr/lucene/filters/SanitizingXmlFilter.java:168-184 | as written: applies `FixPi` and then overwrites a bad declaration with spaces |
| `SanitizingXmlFilter.SanitizingXmlFilter.HandleTag` | src/main/java/com/github/dbmdz/solrocr/lucene/filters/SanitizingXmlFilter.java:214-257 | as written: the buffer and stack become exactly `TagEffect` of the old ones |
| `SanitizingXmlFilter.SanitizingXmlFilter.HandleStack` | src/main/java/com/github/dbmdz/solrocr/lucene/filters/SanitizingXmlFilter.java:232-257 | as written: the buffer and stack become exactly `StackEffect` of the old ones |
| `SanitizingXmlFilter.SanitizingXmlFilter.CheckTagName` | src/main/java/com/github/dbmdz/solrocr/lucene/filters/SanitizingXmlFilter.java:214-230 | as written: reports an illegal tag exactly when the name is empty or holds a char other than a letter or ':' |
| `SanitizingXmlFilter.SanitizingXmlFilter.CloseTag` | src/main/java/com/github/dbmdz/solrocr/lucene/filters/SanitizingXmlFilter.java:232-245 | as written: pops on a matching closing tag, otherwise overwrites it with spaces |
| `SanitizingXmlFilter.SanitizingXmlFilter.OpenTag` | src/main/java/com/github/dbmdz/solrocr/lucene/filters/SanitizingXmlFilter.java:246-257 | as written: pushes the tag name, or overwrites a "br" with spaces |
| `SanitizingXmlFilter.SanitizingXmlFilter.HandleElement` | src/main/java/com/github/dbmdz/solrocr/lucene/filters/SanitizingXmlFilter.java:166-257 | as written: the buffer, stack and DOCTYPE flag become exactly `ElementEffect` of the old ones |
| `SanitizingXmlFilter.SanitizingXmlFilter.Step` | src/main/java/com/github/dbmdz/solrocr/lucene/filters/SanitizingXmlFilter.java:90-164 | corrected: one pass of the loop only masks chars of the data, advances inside it or carries a tail shorter than the data over |
| `SanitizingXmlFilter.SanitizingXmlFilter.Scan` | src/main/java/com/github/dbmdz/solrocr/lucene/filters/SanitizingXmlFilter.java:90-164 | corrected: the whole loop only masks chars of the data and keeps all of it unless an element or entity was cut |
| `SanitizingXmlFilter.SanitizingXmlFilter.Read` | src/main/java/com/github/dbmdz/solrocr/lucene/filters/SanitizingXmlFilter.java:68-287 | corrected: returns -1 only on a non-empty request at the end of everything; otherwise hands out the pending chars in order, masked, keeps the cut tail pending, then the closing-tags trailer; never writes before `off` |
| `SanitizingXmlFilter.SanitizingXmlFilter.ReadData` | src/main/java/com/github/dbmdz/solrocr/lucene/filters/SanitizingXmlFilter.java:69-164 | corrected: the data part of a read: the pending chars in order, masked, with the cut tail kept pending |
| `SanitizingXmlFilter.SanitizingXmlFilter.ScanAndCarry` | src/main/java/com/github/dbmdz/solrocr/lucene/filters/SanitizingXmlFilter.java:90-164 | corrected: a cut tail becomes the new carry-over, starting at index 0; nothing else of the buffer before `off` changes |
| `SanitizingXmlFilter.SanitizingXmlFilter.CopyCarry` | src/main/java/com/github/dbmdz/solrocr/lucene/filters/SanitizingXmlFilter.java:71-83 | corrected: copies the next `min(remaining, len)` carried chars and drops the carry-over once it is used up |
| `SanitizingXmlFilter.SanitizingXmlFilter.Fill` | src/main/java/com/github/dbmdz/solrocr/lucene/filters/SanitizingXmlFilter.java:69-85 | corrected: the buffer gets the next `min(len, pending)` chars, carry-over first, and the count is -1 only at the end of everything |
| `SanitizingXmlFilter.SanitizingXmlFilter.AppendTrailer` | src/main/java/com/github/dbmdz/solrocr/lucene/filters/SanitizingXmlFilter.java:259-285 | as written: the trailer is built once from the open elements; -1 once it is all handed out, otherwise the next part that fits, leaving the data before it alone |
| `SanitizingXmlFilter.SanitizingXmlFilter.CopyTrailer` | src/main/java/com/github/dbmdz/solrocr/lucene/filters/SanitizingXmlFilter.java:276-284 | as written: hands out the next part of the trailer that fits and advances its index by as much |
| `SanitizingXmlFilter.FillCount` | src/main/java/com/github/dbmdz/solrocr/lucene/filters/SanitizingXmlFilter.java:69-85 | corrected: the corrected count is -1 only on an exhausted source, otherwise `min(len, carried + input)` |
| `SanitizingXmlFilter.PendingPrefix` | src/main/java/com/github/dbmdz/solrocr/lucene/filters/SanitizingXmlFilter.java:69-85 | corrected: the carried chars followed by the input read are the first count chars of everything pending, and the rest stays pending |
| `SanitizingXmlFilter.Copy` | src/main/java/com/github/dbmdz/solrocr/lucene/filters/SanitizingXmlFilter.java:74 | as written: copies exactly the n chars into the array at the index and changes nothing else |
| `SanitizingXmlFilter.Blank` | src/main/java/com/github/dbmdz/solrocr/lucene/filters/SanitizingXmlFilter.java:126-129 | as written: the array becomes `BlankRange` of its old contents |
| `MiniOcr.FromHocrClassRecognises` | util/miniocr.py:56-66 | as written: exactly "ocr_page", "ocr_carea"/"ocr_par"/"ocrx_block", "ocr_line" and "ocrx_word" open a page, block, line or word box; every other class, or none, opens no box |
| `MiniOcr.FromAltoTagRecognises` | util/miniocr.py:68-80 | as written: exactly "Page", "PrintSpace"/"TextBlock", "TextLine" and "String" open a page, block, line or word box; every other element opens none |
| `MiniOcr.MiniOcrTagsMatchFormat` | util/miniocr.py:82-92 | as written: each box type is written with the one-letter tag the MiniOCR format reads for the same block type, and different box types get different tags |
| `MiniOcr.CharRef` | util/miniocr.py:121 | as written: a numeric reference is "&#", digits, ";" and contains no markup character |
| `MiniOcr.SpecialRefsAreCharRefs` | util/miniocr.py:110-119 | as written: the five fixed answers for lt, gt, amp, quot and apos are the numeric references of their characters |
| `MiniOcr.AsciiCharRefs` | util/miniocr.py:121 | as written: `encode("ascii", "xmlcharrefreplace")` leaves only ASCII characters |
| `MiniOcr.MarkupSafeConcat` | util/miniocr.py:127-130 | as written: markup-safe pieces joined stay markup-safe |
| `MiniOcr.CharPiece` | util/miniocr.py:121 | corrected: each character of an expansion is written markup-safe |
| `MiniOcr.MarkupCharRefs` | util/miniocr.py:121 | corrected: a whole expansion is written markup-safe |
| `MiniOcr.ConvertEntityAsWritten` | util/miniocr.py:107-121 | as written: the five lower-case markup names get their fixed references |
| `MiniOcr.UpperCaseLtLeaksMarkup` | util/miniocr.py:107-121 | as written vs corrected: "&LT;" becomes a raw "<", which is not markup-safe |
| `MiniOcr.ConvertEntity` | util/miniocr.py:107-121 | corrected: every converted entity is markup-safe |
| `MiniOcr.DecodeCharRef` | util/miniocr.py:121 | as written: a numeric reference is read back by the XML parser as its character |
| `MiniOcr.DecodePlain` | util/miniocr.py:121 | as written: a non-'&' character is read back as itself |
| `MiniOcr.DecodePiece` | util/miniocr.py:121 | as written: each written character of an expansion is read back as itself |
| `MiniOcr.DecodeMarkupCharRefs` | util/miniocr.py:121 | as written, round trip: the written expansion is read back as the expansion |
| `MiniOcr.ConvertEntityMeans` | util/miniocr.py:107-121 | corrected, round trip: the converted entity is read by the XML parser as what the HTML entity means |
| `MiniOcr.FirstEntityName` | util/miniocr.py:41 | as written: the alternation picks a name of the table that occurs as "&name;" here, and finds none only when no name does |
| `MiniOcr.FixEntitiesKeepsPlainText` | util/miniocr.py:127-130 | corrected: text without '&' passes the entity rewrite unchanged |
| `MiniOcr.FixEntitiesPreservesText` | util/miniocr.py:127-130 | corrected, round trip: the XML reading of the rewritten document is the HTML reading of the original, when every '&' opens a named entity |
| `MiniOcr.Escape` | util/miniocr.py:340 | corrected: `html.escape` leaves no '<', '>', '"' or "'" and never shortens |
| `MiniOcr.UnescapeChar` | util/miniocr.py:340 | corrected: an escaped character is read back as itself |
| `MiniOcr.UnescapeEscape` | util/miniocr.py:340 | as written, round trip: escaped word text is read back as the original text |
| `MiniOcr.FullExtentReadsAsZero` | util/miniocr.py:330 | as written vs corrected: the full extent "1.0000" is written ".0000" (zero) as written and kept corrected |
| `MiniOcr.Fraction` | util/miniocr.py:325-333 | corrected: a relative coordinate loses only a leading zero; anything else is kept |
| `MiniOcr.OpenTag` | util/miniocr.py:336 | as written: the start tag is "<", the box's tag, then a space and attributes or nothing, then ">" |
| `MiniOcr.WriteAllSnoc` | util/miniocr.py:294-345 | corrected: writing one more event appends exactly that event's chunks, given the hyphen flag so far |
| `MiniOcr.GenerateMiniOcr` | util/miniocr.py:288-346 | corrected: the loop writes "<ocr>", every event's chunks in order, then "</ocr>" |
| `MiniOcr.NameEnd` | util/miniocr.py:336 | as written: the end of a tag name lies within the chunk |
| `MiniOcr.TagsAppend` | util/miniocr.py:294-345 | as written: the tags of joined chunk sequences are the tags of each, in order |
| `MiniOcr.OpenTagRead` | util/miniocr.py:336 | as written: a written start tag reads as the opening of that box's tag |
| `MiniOcr.CloseTagRead` | util/miniocr.py:342 | as written: a written end tag reads as the closing of that box's tag |
| `MiniOcr.FrameTagsRead` | util/miniocr.py:289 | as written: "<ocr>" and "</ocr>" read as the document element |
| `MiniOcr.EscapedTextIsNoTag` | util/miniocr.py:340 | corrected: escaped text never reads as a tag |
| `MiniOcr.EventChunksTags` | util/miniocr.py:294-345 | corrected: the chunks of one event carry exactly its box's tag, and text carries none |
| `MiniOcr.WriteAllTags` | util/miniocr.py:294-345 | corrected: the tags of everything written are the box events' tags, in event order |
| `MiniOcr.GenerateMirrorsEvents` | util/miniocr.py:288-346 | corrected: the element structure of the output is "<ocr>", one start or end tag per box event in event order, then "</ocr>" |
| `MiniOcr.RawTextReadsAsTag` | util/miniocr.py:295-301 | as written vs corrected: the text event "<b>" is written unescaped and reads as a "<b>" tag that no box stands for; corrected it carries no tag |
| `MiniOcr.RelativeCoordinatesUnquoted` | util/miniocr.py:327-333 | as written vs corrected: relative word coordinates are written as an unquoted `x=` attribute; corrected they are quoted |
| `MiniOcr.BlankHasNoHyphen` | util/miniocr.py:297-300 | as written: whitespace-only text never ends in a soft hyphen |
| `MiniOcr.HyphenFlagIsLastText` | util/miniocr.py:292-339 | corrected: the writer's flag is exactly whether the last text carried ended in a soft hyphen |
| `MiniOcr.LineEndSpacing` | util/miniocr.py:341-345 | corrected: a line end writes "</l>" and then one space unless the last text ended in a soft hyphen |
| `MiniOcr.BlankAfterHyphenDropped` | util/miniocr.py:297-298 | corrected: whitespace-only text right after a soft hyphen writes nothing |
| `MiniOcr.PageTagReadBack` | util/miniocr.py:309-318 | as written, round trip: a page with a plain identifier and a pixel size opens with a tag the MiniOCR format parses back to that identifier and size |
| `MiniOcrParse.Get` | util/miniocr.py:141 | as written: `attrib.get(key)` is present exactly when the key is, and then holds its value |
| `MiniOcrParse.LocalName` | util/miniocr.py:143 | as written: the tag without its namespace holds no '}', and a tag without one is kept |
| `MiniOcrParse.DigitsEnd` | util/miniocr.py:36 | as written, for ASCII digits: the run of `\d+` is all digits and maximal |
| `MiniOcrParse.NonSemicolonEnd` | util/miniocr.py:38 | as written: the run of `[^;]+` holds no ';' and stops only at one or at the end |
| `MiniOcrParse.DigitsEndOf` | util/miniocr.py:36 | as written: a written number is matched up to the non-digit after it |
| `MiniOcrParse.NumberAt` | util/miniocr.py:36-37 | as written: a matched number ends after its start and within the title |
| `MiniOcrParse.SpacedNumberAt` | util/miniocr.py:36 | as written: a number and its space end after its start and within the title |
| `MiniOcrParse.XSource` | util/miniocr.py:38 | corrected: matches exactly where the as-written pattern does, and drops at most the closing quote |
| `MiniOcrParse.QuotedSourceKeepsQuote` | util/miniocr.py:38 | as written vs corrected: `x_source "p"` gives `p"` as written, `p` corrected |
| `MiniOcrParse.NoSemicolonRunsToEnd` | util/miniocr.py:38 | as written: a value without ';' runs to the end of the title |
| `MiniOcrParse.BboxTitleRead` | util/miniocr.py:192-195 | as written, round trip: the title "bbox l t r b" is read back as the corner (l, t), width r - l and height b - t |
| `MiniOcrParse.BboxTitleAt` | util/miniocr.py:36 | as written: the box pattern matches a box title at its start, with its four numbers |
| `MiniOcrParse.BboxFromParts` | util/miniocr.py:36 | as written: a string laid out as "bbox l t r b" matches with those numbers |
| `MiniOcrParse.BboxAtOf` | util/miniocr.py:36 | as written: four numbers read one after another make the box |
| `MiniOcrParse.BboxDigits` | util/miniocr.py:36 | as written: one number of a title is read where it was written |
| `MiniOcrParse.AlternativesOrder` | util/miniocr.py:152-160 | as written: inside the alternatives an `ins` reading goes first, a `del` reading last, and other elements add nothing |
| `MiniOcrParse.ParseHocr` | util/miniocr.py:124-203 | as written: the loop yields exactly the events of the step-by-step run over the XML events, or its first error |
| `MiniOcrParse.HocrHandle` | util/miniocr.py:139-203 | as written: one pass of the loop does exactly what `HocrStep` says |
| `MiniOcrParse.HocrStepsSnoc` | util/miniocr.py:138 | as written: the run over one more XML event is one more step |
| `MiniOcrParse.HocrErrorStays` | util/miniocr.py:138 | as written: once the reader raises, the whole run ends in that error |
| `MiniOcrParse.WordsClosedAppend` | util/miniocr.py:167-180 | as written: well-shaped streams joined at a non-text event stay well-shaped |
| `MiniOcrParse.WordEndShape` | util/miniocr.py:167-180 | as written: a word end appends the buffered word, the end and then the tail as text, in that shape |
| `MiniOcrParse.HocrWordsClosed` | util/miniocr.py:124-203 | as written: every word start is followed directly by its end, and every text event directly follows a word end |
| `MiniOcrParse.HocrEndShape` | util/miniocr.py:167-180 | as written: closing a box appends its end after the buffered word, and before the tail when it is a word |
| `MiniOcrParse.HocrInsDel` | util/miniocr.py:152-160 | as written: an `ins` or `del` inside the alternatives adds its reading to the word's text |
| `MiniOcrParse.HocrWordOpens` | util/miniocr.py:197-201 | as written: a word's start is held back with its text, page id and box until the word ends |
| `MiniOcrParse.HocrAlternativesOpen` | util/miniocr.py:145-150 | as written: an `alternatives` span inside a word switches to reading alternatives and keeps the word's text |
| `MiniOcrParse.HocrReadingInAlternatives` | util/miniocr.py:152-163 | as written: while alternatives are read, every element that is no box adds its reading to the word's text |
| `MiniOcrParse.HocrWordCloses` | util/miniocr.py:167-180 | as written: a word's end emits the word, its end, then its tail as text, and leaves the alternatives |
| `MiniOcrParse.AltoWordText` | util/miniocr.py:274-281 | as written: a word's text is its `CONTENT`, with a soft hyphen appended for `HypPart1` |
| `MiniOcrParse.AltoRunSnoc` | util/miniocr.py:216 | as written: the run over one more XML event is one more step |
| `MiniOcrParse.AltoErrorStays` | util/miniocr.py:216 | as written: once the reader raises, the whole run ends in that error |
| `MiniOcrParse.ParseAlto` | util/miniocr.py:206-285 | as written: the loop yields exactly the events of the step-by-step run, or its first error |
| `MiniOcrParse.AltoHandle` | util/miniocr.py:217-285 | as written: one pass of the loop does exactly what `AltoStep` says |
| `MiniOcrParse.AltoWordsBuffered` | util/miniocr.py:206-285 | as written: every word start is followed by its end and every text event is a space |
| `MiniOcrParse.AltoEndShape` | util/miniocr.py:238-246 | as written: closing a box appends its end, after the buffered word when it is a word |
| `MiniOcrParse.AltoOpenShape` | util/miniocr.py:248-285 | as written: opening a box buffers a word, or appends the start of any other box |
| `MiniOcrParse.AltoHyphenatedWordOpens` | util/miniocr.py:274-283 | as written: the first half of a hyphenated word is read with a soft hyphen after its content |
| `MiniOcrParse.AltoSpaceRead` | util/miniocr.py:223-224 | as written: an `SP` is read as a one-space text event |
| `MiniOcrParse.AltoHyphenJoinsLines` | util/miniocr.py:341-345 | as written: a line ending in the first half of a hyphenated word closes without the space, so the halves join |
| `MiniOcrParse.DialectFromHeader` | util/miniocr.py:350-351 | as written: the input is ALTO exactly when "<alto" lies wholly within its first 512 bytes |
| `MiniOcrParse.DialectIgnoresTail` | util/miniocr.py:350-351 | as written: nothing after the first 512 bytes changes the choice |
| `MiniOcrParse.Convert` | util/miniocr.py:349-361 | corrected: ALTO input is parsed from its bytes, anything else decoded and entity-fixed first; the output is "<ocr>", the events' chunks, "</ocr>", or the reader's error |
| `PatchBytecode.U16` | util/patch_solr78_bytecode.py:26 | as written: a big-endian unsigned short is below 65536 |
| `PatchBytecode.Be16` | util/patch_solr78_bytecode.py:183 | as written: `struct.pack(">H", v)` is two bytes that read back as v |
| `PatchBytecode.Be16OfU16` | util/patch_solr78_bytecode.py:183 | as written, round trip: two bytes read as a u16 and packed again are the same two bytes |
| `PatchBytecode.UnpackU16` | util/patch_solr78_bytecode.py:74 | as written: `unpack_from` succeeds exactly when the two bytes lie in the buffer (a negative offset counting from the end) and reads them big-endian |
| `PatchBytecode.PackU16` | util/patch_solr78_bytecode.py:81 | as written: `pack_into` succeeds exactly where `unpack_from` would |
| `PatchBytecode.PackThenUnpack` | util/patch_solr78_bytecode.py:81 | as written, round trip: a packed value reads back, the length stays and no other byte changes |
| `PatchBytecode.Utf8Size` | util/patch_solr78_bytecode.py:24-27 | as written: a Utf8 entry spans 3 plus its length field, and needs its length bytes |
| `PatchBytecode.FixedSizesMatchLayout` | util/patch_solr78_bytecode.py:32-51 | as written: each fixed size is the tag byte plus the fields of that entry's layout in section 4.4 of the Java Virtual Machine Specification |
| `PatchBytecode.EntrySize` | util/patch_solr78_bytecode.py:113-116 | as written: every known entry is at least 3 bytes |
| `PatchBytecode.EntrySizeKnown` | util/patch_solr78_bytecode.py:113-116 | as written: exactly the tags of table 4.4-A have a size; an unknown tag raises KeyError, a Utf8 entry without its length bytes struct.error |
| `PatchBytecode.CheckValidClassfile` | util/patch_solr78_bytecode.py:99-101 | as written: the check passes exactly when the file starts with CA FE BA BE, and raises ValueError otherwise |
| `PatchBytecode.SizeAt` | util/patch_solr78_bytecode.py:112-116 | as written: an entry's size is known only when its tag lies in the file, and is at least 3 |
| `PatchBytecode.Step` | util/patch_solr78_bytecode.py:111-120 | as written vs corrected: one entry at the cursor with its tag, offset and pool index; the next cursor is past its size and one index on as written, two for a Long or Double corrected |
| `PatchBytecode.WalkConstantPool` | util/patch_solr78_bytecode.py:104-120 | corrected: the generator yields exactly the walk with pool indexes per section 4.4.5 of the Java Virtual Machine Specification |
| `PatchBytecode.WalkStartsAt` | util/patch_solr78_bytecode.py:110-119 | as written and corrected alike: the first entry of a walk is at its start |
| `PatchBytecode.LinkedMeans` | util/patch_solr78_bytecode.py:111-120 | as written: consecutive entries: the tag at the offset, the value up to the size, the next entry where the size ends |
| `PatchBytecode.ChainedCons` | util/patch_solr78_bytecode.py:110-120 | as written: a linked entry in front of a chain is a chain |
| `PatchBytecode.WalkChained` | util/patch_solr78_bytecode.py:110-120 | as written and corrected alike: consecutive entries of a walk are linked |
| `PatchBytecode.WalkEntriesValid` | util/patch_solr78_bytecode.py:110-120 | as written and corrected alike: every entry of a walk is the generator's entry at its own position, with a pool index below the count |
| `PatchBytecode.WalkCoversPool` | util/patch_solr78_bytecode.py:110-120 | corrected: a walk that ends without an error reaches every usable pool index |
| `PatchBytecode.StepFrame` | util/patch_solr78_bytecode.py:111-118 | as written and corrected alike: a step reads nothing before its offset |
| `PatchBytecode.WalkFromFrame` | util/patch_solr78_bytecode.py:110-120 | as written and corrected alike: a walk reads nothing before its offset |
| `PatchBytecode.WalkPastEnd` | util/patch_solr78_bytecode.py:110-112 | as written and corrected alike: past the end of the file a walk yields nothing and raises IndexError if an entry is still due |
| `PatchBytecode.Latin1` | util/patch_solr78_bytecode.py:54-59 | as written: one byte per character |
| `PatchBytecode.PackageSubsValid` | util/patch_solr78_bytecode.py:54-59 | as written: the substitution's source is non-empty and its target fits a u16 length |
| `PatchBytecode.ReplaceAll` | util/patch_solr78_bytecode.py:80 | as written: text without the source comes back unchanged |
| `PatchBytecode.ReplaceAllSelf` | util/patch_solr78_bytecode.py:80 | as written: replacing a path by itself changes nothing |
| `PatchBytecode.ReplaceAllKeepsPrefix` | util/patch_solr78_bytecode.py:80 | as written: what precedes the first occurrence is kept and the target follows it |
| `PatchBytecode.PatchPathRewritesEntry` | util/patch_solr78_bytecode.py:66-82 | as written: when the path is the text of a Utf8 entry, the bytes before its length field are kept, the field holds the target's length and the target follows |
| `PatchBytecode.PatchPackagePaths` | util/patch_solr78_bytecode.py:62-83 | as written: the loop applies the substitutions in order and stops at the first exception |
| `PatchBytecode.Pack16` | util/patch_solr78_bytecode.py:183 | as written: `struct.pack` succeeds exactly for a value below 65536 and writes two bytes that read back as it |
| `PatchBytecode.Splice` | util/patch_solr78_bytecode.py:206-210 | as written: slice assignment keeps the prefix, puts in the new bytes and keeps the suffix |
| `PatchBytecode.CollectStringsFails` | util/patch_solr78_bytecode.py:141-145 | as written: the first pass fails exactly when some Utf8 entry's text is not well-formed UTF-8 |
| `PatchBytecode.CollectStringsKeys` | util/patch_solr78_bytecode.py:141-145 | as written: its keys are exactly the pool indexes of the Utf8 entries |
| `PatchBytecode.CollectStringsValues` | util/patch_solr78_bytecode.py:141-145 | as written: each index maps to the text of the last Utf8 entry with that index |
| `PatchBytecode.FindClassesFindsLast` | util/patch_solr78_bytecode.py:147-160 | as written: fails exactly when a class entry is not two bytes; otherwise reports an index for a name exactly when a class entry names it, that of the last one |
| `PatchBytecode.RetargetOne` | util/patch_solr78_bytecode.py:175-184 | as written: the end of the pool moves past the entry, and the patched flag is set exactly by a method reference to `java/lang/Object` |
| `PatchBytecode.RetargetOneKeepsTail` | util/patch_solr78_bytecode.py:183 | as written: the class index is written inside the entry, so the bytes after it are kept |
| `PatchBytecode.RetargetKeepsLength` | util/patch_solr78_bytecode.py:170-184 | as written: the third pass keeps the file's length and marks it patched exactly when some method reference's class is `java/lang/Object` |
| `PatchBytecode.RetargetChangesOnlyClassIndexes` | util/patch_solr78_bytecode.py:170-184 | as written: no byte changes except the class index of such a reference, which then names `CloseHook` |
| `PatchBytecode.DropInterfaceRewrites` | util/patch_solr78_bytecode.py:194-211 | as written: the bytes before `super_class` are kept, `super_class` names `CloseHook`, `interfaces_count` is 0, the interface index is removed and the rest follows unchanged |
| `PatchBytecode.PatchCloseHook` | util/patch_solr78_bytecode.py:123-211 | corrected: the whole patch is `CloseHookPatch` with pool indexes per the specification |
| `PatchBytecode.DropInterfacePass` | util/patch_solr78_bytecode.py:194-211 | as written: the end of the patch is exactly `DropInterface` |
| `PatchBytecode.FindTargetsPasses` | util/patch_solr78_bytecode.py:137-160 | corrected: the first two passes give `FindTargets`, over the entries of the walk of the unchanged file |
| `PatchBytecode.RetargetLive` | util/patch_solr78_bytecode.py:173-184 | corrected: the third pass, reading from the buffer it patches, gives exactly `Retarget` over the walk of the unchanged file |
| `PatchBytecode.RetargetLiveStep` | util/patch_solr78_bytecode.py:175 | corrected: each entry read from the buffer being patched is the next entry of the unchanged file's walk |
| `PatchBytecode.CollectStringsPass` | util/patch_solr78_bytecode.py:141-145 | as written: the first pass is exactly `CollectStrings` |
| `PatchBytecode.FindClassesPass` | util/patch_solr78_bytecode.py:149-160 | as written: the second pass is exactly `FindClasses` |
| `PatchBytecode.CollectStringsStopsAtError` | util/patch_solr78_bytecode.py:145 | as written: an exception in the first pass ends it |
| `PatchBytecode.FindClassesStopsAtError` | util/patch_solr78_bytecode.py:154 | as written: an exception in the second pass ends it |
| `PatchBytecode.RetargetStopsAtError` | util/patch_solr78_bytecode.py:179 | as written: an exception in the third pass ends it |
| `PatchBytecode.WalkRefsInside` | util/patch_solr78_bytecode.py:110-120 | as written and corrected alike: every entry a walk yields lies inside the file |
| `PatchBytecode.CloseHookPatchChanges` | util/patch_solr78_bytecode.py:123-211 | as written and corrected alike: the file changes only when its pool walks cleanly, names both classes and holds a method reference to `java/lang/Object`; it then loses at most two bytes |
| `PatchBytecode.PatchJarEntryDispatch` | util/patch_solr78_bytecode.py:218-224 | as written: members that are not class files are copied unchanged, and the component's anonymous class gets both patches |
| `PatchBytecode.LongEntryMisread` | util/patch_solr78_bytecode.py:110-120 | as written vs corrected: with one Long entry, one index per entry reads the next byte as a tag and raises KeyError; two per Long walk it cleanly and leave the file unchanged |

## Left out

- Solr and Lucene integration is left out because these classes are thin wrappers over Solr and Lucene APIs, reflection and version shims. This covers the highlighter and highlight components, field highlighter, offset strategies and enums, composite readers, `SolrVersionInfo`, the StAX-driven char filters and parsers (`AltoParser`, `MiniOcrParser`, the OCR char filters, `AltoStaxFilterFactory`), `OcrAlternativesFilterFactory` and `ExternalUtf8ContentFilter`.
- Concurrency and timeouts are left out: thread pools, futures, the page cache warmer, the exiting readers and iterators, and the time-allowed limits.
- Raw I/O (file, S3, multi-file and channel readers, path loaders) becomes byte sequences handed to the model, and messages printed to stderr are dropped.
- Legacy duplicates that share the logic of the modelled classes are not modelled separately. These are the `org.mdz` and older `de.digitalcollections` formatters, break iterators, source pointers and sanitizer, the regex-based passage formatters and byte-offset parsers, `ByteOffsetEncoder`, and `breaklocator/TagBreakLocator`.
- Tooling is left out: the example ingestion and web frontend, `util/update_repo.py`, the integration test script and the Rust offsets parser.
- The command-line front ends are left out: the `select` loop in util/miniocr.py:367-396 and the `__main__` block of util/patch_solr78_bytecode.py. The jar-file zip I/O of `patch_jar` is also out. `PatchBytecode.PatchJarEntry` models only how each member is dispatched.
- Floating point is replaced by functions supplied as parameters:
  - the relative-coordinate division in util/miniocr.py;
  - the `int(float(v))` rounding;
  - the geometry of `OcrPassageFormatter` (`mergeBoxes`, the column heuristics in `parseFragment`, `truncateFloat`, box containment).
- Foreign libraries become parameters: `ET.iterparse` (replaced by an event sequence), `html.escape`, the `html5` entity table, Woodstox's `isNameChar` and `Character.isLetter`. The hOCR page-element and page-id regular expressions are given as their match results. `getParser` is not part of this model because it needs the XML stream factory.
- `OcrPassageFormatter` `getHighlightedFragment` and `parseFragment` are not part of this model beyond the start-page and position helpers, because they assemble Solr response objects around the float geometry above.
- BaseSourceReader.BaseSourceReader.constructor requires `maxCacheEntries` ≥ 1, because with 0 the LRU purge indexes slot -1. `System.nanoTime` is replaced by a logical clock that ranks entries in the same order.
- BaseSourceReader.BaseSourceReader.ReadUtf8String returns the byte window it hands to the decoder. The JDK decoder's replacement of malformed input is not modelled; `Fastu` models the decoding of well-formed input.
- Utf8MappingCharFilter.Utf8MappingCharFilter.Read, Utf8MappingCharFilter.Utf8MappingCharFilter.ReadInput, SanitizingXmlFilter.SanitizingXmlFilter.ReadInput, SanitizingXmlFilter.SanitizingXmlFilter.Fill and SanitizingXmlFilter.SanitizingXmlFilter.Read assume that the wrapped reader returns as many characters as requested while input lasts. A Java reader may return fewer, so short reads from the wrapped reader are not modelled. The `PeekingReader` members do model them: the wrapped reader there may answer anything from one char up to the number asked for.
- Utf8MappingCharFilter offset properties are stated for BMP text only. Surrogate pairs, where `codePointAt` counts both halves, are not covered.
- HocrClassBreakLocator.FindForwardMatch states soundness only: an answer is a class-bearing tag at or after the start. It does not prove that the first such tag is found.
- TagBreakLocator.TagBreakLocator.constructor requires a block size larger than the tag, which the reading-in-blocks loop relies on.
- CharBufUtils.IndexOf requires `fromIndex` ≥ 0 and `toIndex` ≤ the buffer length, the ranges its callers pass. Java would throw outside them.
- BaseBreakLocator.OptimizedLastIndexOf requires a non-empty needle, because with an empty needle the source loop does not terminate.
- SourcePointer.SourceRoundTrip and SourcePointer.PrintableSource exclude regions parsed from an open end such as "N:". These print back as "N:-1", as SourcePointer.OpenRegionPrintsMinus shows.
- HocrParser.HocrParser.ReadNext follows the code. A word hyphenated across three lines loses its third part, because the outer call overwrites the hyphen end set by the inner one (HocrParser.java:90-104).
- PageIndex.LocatePage and PageIndex.LocatePageAsWritten omit the branch for an index without page lengths (PageIndex.java:398-403). The header parser adds LENGTH only when bit 0x01 of the feature byte is set (PageIndex.java:193-195), but the constructor refuses every index that lacks one of the required features LENGTH, IDENTIFIER and DIMENSION (PageIndex.java:357-373, modelled by `PageIndex.Open`). So `locatePage` only runs on an index with lengths, and the branch cannot be reached. `PageIndex.LocatePageAsWritten` states this as its precondition that LENGTH is among the header's features.
- MiniOcrParse.DigitsEnd accepts ASCII digits only. In miniocr.py:36-39 the patterns are str patterns, whose `\d` matches every Unicode decimal digit, and `int()` reads such digits. So a title such as "bbox ١ 2 3 4" gives a box in Python and none in the model. The same holds for `MiniOcrParse.NumberAt`, `MiniOcrParse.SpacedNumberAt`, `MiniOcrParse.BboxAt`, `MiniOcrParse.PpagenoAt` and `MiniOcrParse.ImageAt`, which are built on it.
- PageIndex `readIdentifier` and `close` are left out because they are channel I/O.
- PatchBytecode compares strings as their UTF-8 bytes, which is equivalent to comparing the decoded strings, since strict UTF-8 decoding is one-to-one.
- The Java `assert` in HocrClassBreakLocator `findBackwardMatch` is treated as disabled, as it is in production.

## Findings

| source | as written | input that shows it | evidently intended | confidence | as-written member | corrected member |
|---|---|---|---|---|---|---|
| src/main/java/com/github/dbmdz/solrocr/formats/alto/AltoFormat.java:113-115 | a missing `<ALTERNATIVE>` gives `lastIndexOf` -1, and adding 13 turns it into a start at 12; that 12 beats the real end of `CONTENT="` at 9, so the closing search `indexOf('<', 10)` finds the '<' at 12 and the range is empty | `CONTENT="ab"<` at 10 gives the empty range at 12 | the range (9, 11) covering "ab" | not executed | `AltoFormat.GetContainingWordLimitsAsWritten`, `AltoFormat.WordLimitsSentinelAsWritten` | `AltoFormat.GetContainingWordLimits` |
| src/main/java/de/digitalcollections/solrocr/iter/BaseBreakLocator.java:62-77 | `following(o)` caches the range [preceding, following) even when o is itself a break | breaks 10, 20, 30: after following(20) the cache holds [10,30)→30, so following(15) answers 30 | following(15) = 20 | not executed | `BaseBreakLocator.FollowingEntryAsWritten`, `BaseBreakLocator.FollowingOnBreakAsWritten` | `BaseBreakLocator.BaseBreakLocator.Following` |
| src/main/java/com/github/dbmdz/solrocr/reader/BaseSourceReader.java:169-173 | adjusting left is off by one when the last byte is a lead byte | bytes C3 A9 C3, offset 2 gives -1 | 1 | not executed | `BaseSourceReader.AdjustLeftAsWritten`, `BaseSourceReader.LoneLeadAsWritten` | `BaseSourceReader.AdjustLeft` |
| src/main/java/de/digitalcollections/solrocr/util/CharBufUtils.java:17-24 | the substring scan does not restart after a partial match | "ab" in "aab" is not found | index 1 | not executed | `CharBufUtils.NaiveScan`, `CharBufUtils.NaiveScanMissesOverlap` | `CharBufUtils.IndexOfRestarting` |
| src/main/java/solrocr/ExternalUtf8ContentFilterFactory.java:133-152 | one BOM buffer is shared across sources | after a source starting with EF BB BF 41, an empty non-ASCII source gets region (7, 4) | region (4, 4) | not executed | `ExternalUtf8ContentFilterFactory.AdjustRegionsAsWritten`, `ExternalUtf8ContentFilterFactory.StaleBomBufferAsWritten` | `ExternalUtf8ContentFilterFactory.AdjustRegions` |
| src/main/java/de/digitalcollections/solrocr/iter/FileBytesCharIterator.java:184-194 | `previous()` at the end counts the DONE character (U+FFFF) as a 3-byte character | stepping back from the end of "abc" lands on index 0 | index 2 | not executed | `FileBytesCharIterator.PreviousIndexAsWritten`, `FileBytesCharIterator.PreviousFromEndAsWritten` | `FileBytesCharIterator.FileBytesCharIterator.Previous` |
| src/main/java/com/github/dbmdz/solrocr/formats/hocr/HocrClassBreakLocator.java:167-170 | an unclosed `<meta` resets the cursor to -1 | "<meta ocr_line" loops forever | the search moves on | not executed | `HocrClassBreakLocator.ForwardStepAsWritten`, `HocrClassBreakLocator.ForwardMetaLoopAsWritten` | `HocrClassBreakLocator.FindForwardMatch` |
| src/main/java/com/github/dbmdz/solrocr/formats/hocr/HocrClassBreakLocator.java:188-206 | one backward cursor is shared across the searched classes | "A<p B>" with classes A then B | each class searched from the start offset | not executed | `HocrClassBreakLocator.FindBackwardMatchAsWritten`, `HocrClassBreakLocator.BackwardSharedCursorAsWritten` | `HocrClassBreakLocator.FindBackwardMatch` |
| src/main/java/com/github/dbmdz/solrocr/iter/TagBreakLocator.java:42-46 | a tag that straddles a block boundary is missed | "<w" at 3 with blocks of 4 | the tag at 3 is found | not executed | `TagBreakLocator.FollowingAsWritten`, `TagBreakLocator.FollowingStraddleAsWritten` | `TagBreakLocator.TagBreakLocator.GetFollowing` |
| src/main/java/com/github/dbmdz/solrocr/util/PageIndex.java:196-199 | the header parser positions a 2-byte buffer at 8 | any header with IDENTIFIER set throws IllegalArgumentException | the identifier offset is read | not executed | `PageIndex.ParseHeaderAsWritten`, `PageIndex.ParseIdentifierHeaderAsWritten` | `PageIndex.ParseHeader` |
| src/main/java/com/github/dbmdz/solrocr/util/PageIndex.java:363-375 | opening an index uses the as-written header parse | an index written with identifiers cannot be opened | it opens | not executed | `PageIndex.OpenAsWritten`, `PageIndex.WrittenIndexUnopenableAsWritten` | `PageIndex.Open` |
| src/main/java/com/github/dbmdz/solrocr/util/PageIndex.java:414 | the guard reads `pageOffset - headerSize % recordSize` | offset 10 + 16·i for i ≥ 1 is rejected | `(pageOffset - headerSize) % recordSize` | not executed | `PageIndex.ParsePageAsWritten`, `PageIndex.ParsePageRejectsLaterRecords` | `PageIndex.ParsePage` |
| src/main/java/com/github/dbmdz/solrocr/util/PageIndex.java:377-411 | the probe buffer is never cleared, and `left < right` never checks the last candidate | a five-page index with offset 350 gives nothing | the page starting at 300 | not executed | `PageIndex.LocatePageAsWritten`, `PageIndex.StaleBufferMissesPage` | `PageIndex.LocatePage` |
| src/main/java/com/github/dbmdz/solrocr/util/PageIndex.java:407 | `locatePage` hands `pageStart`, the page's offset in the OCR file, to `parsePage`, which reads the record at that offset of the index file | the five-page index with offset 250: the search finds page 2 starting at 200, and `parsePage(200)` throws IllegalArgumentException under the guard as written and under the corrected one | the record of page 2, read at 10 + 2 · 16 | not executed | `PageIndex.LocateRecordAsWritten`, `PageIndex.PageStartIsNoRecordOffset` | `PageIndex.LocateRecord` |
| src/main/java/de/digitalcollections/solrocr/reader/PeekingReader.java:36-40 | when the wrapped reader is already at its end, `read` returns -1 and the peek buffer is allocated with that size | empty input throws NegativeArraySizeException | an empty peek | not executed | `PeekingReader.InitialPeekAsWritten`, `PeekingReader.EmptyInputFailsAsWritten` | `PeekingReader.PeekingReader.constructor` |
| src/main/java/de/digitalcollections/solrocr/reader/PeekingReader.java:58-65 | -1 at end of input is added to the count, and the peek copy is bounded by the array rather than `len` | 2 peeked characters with the reader at end report 1; 3 peeked with len 1 report 3 | 2 and 1 | not executed | `PeekingReader.ReadCountAsWritten`, `PeekingReader.ReadCountAsWrittenMiscounts` | `PeekingReader.ReadCount` |
| src/main/java/com/github/dbmdz/solrocr/lucene/filters/SanitizingXmlFilter.java:74 | the carry-over is copied from 0 on every pass | "<abc" read in twos gives "<a<a" | "<abc" | not executed | `SanitizingXmlFilter.CarryChunkAsWritten`, `SanitizingXmlFilter.CarryRepeatedAsWritten` | `SanitizingXmlFilter.CarryChunk` |
| src/main/java/com/github/dbmdz/solrocr/lucene/filters/SanitizingXmlFilter.java:85 | -1 at end of input is added to the carried count | 3 carried with an exhausted reader give 2 | 3 | not executed | `SanitizingXmlFilter.ReadCountAsWritten`, `SanitizingXmlFilter.EndAfterCarryAsWritten` | `SanitizingXmlFilter.ReadCount` |
| src/main/java/com/github/dbmdz/solrocr/lucene/filters/SanitizingXmlFilter.java:147 | the bound check `endElem > off + numRead` lets a '>' just past the data count as a tag close | "<ab" followed by a stale '>' just past the data pushes "ab" as an element | the tag is carried over to the next read | not executed | `SanitizingXmlFilter.InDataAsWritten`, `SanitizingXmlFilter.StaleCloseAsWritten` | `SanitizingXmlFilter.InData` |
| src/main/java/com/github/dbmdz/solrocr/lucene/filters/SanitizingXmlFilter.java:310-356 | empty numeric references are not rejected | "&#x;" throws NumberFormatException and "&#;" is accepted | both are illegal | not executed | `SanitizingXmlFilter.IsLegalEntityAsWritten`, `SanitizingXmlFilter.EmptyReferenceAsWritten` | `SanitizingXmlFilter.IsLegalEntity` |
| src/main/java/com/github/dbmdz/solrocr/lucene/filters/SanitizingXmlFilter.java:108 | the entity carry size ignores `off` | "&ab" at offset 4 gives -2 | 2 | not executed | `SanitizingXmlFilter.EntityCarrySizeAsWritten`, `SanitizingXmlFilter.EntityCarryAsWritten` | `SanitizingXmlFilter.EntityCarrySize` |
| util/miniocr.py:107-121 | only the five lower-case markup names are turned into numeric references; other names expand through the html5 table, and `xmlcharrefreplace` leaves ASCII raw | "&LT;" becomes a raw "<" | the numeric reference "&#60;" | not executed | `MiniOcr.ConvertEntityAsWritten`, `MiniOcr.UpperCaseLtLeaksMarkup` | `MiniOcr.ConvertEntity` |
| util/miniocr.py:330 | `f"{x:.4f}"[1:]` drops the integer digit | a full extent "1.0000" becomes ".0000", which reads as zero | "1.0000" kept | not executed | `MiniOcr.FractionAsWritten`, `MiniOcr.FullExtentReadsAsZero` | `MiniOcr.Fraction` |
| util/miniocr.py:295-301 | text between words (TEXT events, i.e. hOCR tails) is written without escaping, while word text is escaped | the TEXT event "<b>" reads back as a tag | "&lt;b&gt;" | not executed | `MiniOcr.EventChunksAsWritten`, `MiniOcr.RawTextReadsAsTag` | `MiniOcr.GenerateMiniOcr` |
| util/miniocr.py:327-333 | relative coordinates are written without quotes around the attribute | a relative box is written `x=.1000 .2000 .3000 .4000`, without quotes | the quoted attribute `x=".1000 .2000 .3000 .4000"` | not executed | `MiniOcr.WordAttributesAsWritten`, `MiniOcr.RelativeCoordinatesUnquoted` | `MiniOcr.GenerateMiniOcr` |
| util/miniocr.py:38 | the `x_source` value keeps its closing quote | `x_source "p"` gives `p"` | `p` | not executed | `MiniOcrParse.XSourceAsWritten`, `MiniOcrParse.QuotedSourceKeepsQuote` | `MiniOcrParse.XSource` |
| util/patch_solr78_bytecode.py:110-120 | the constant-pool walk advances one index per Long or Double entry | a class whose pool holds one Long raises KeyError | Long and Double take two indexes (section 4.4.5 of the Java Virtual Machine Specification) | not executed | `PatchBytecode.Walk`, `PatchBytecode.LongEntryMisread` | `PatchBytecode.WalkConstantPool` |
