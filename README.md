# Document chunking and prompt helpers, modelled in Dafny

This project models the algorithmic core of a retrieval-augmented chat
service and proves properties of the model:

- **The document chunker** (`src/utils/document_chunker.py`). Its main entry is
  `chunk_document`. It splits a long text at Markdown header lines and packs
  the sections greedily into buffers, joined by blank lines, that aim at
  10000 characters at most. A buffer can pass that by the two characters of
  a blank line, and outside the precondition described under "Termination"
  a chunk can be longer. When a buffer is flushed, the next one starts with
  the last 250 characters of the old one. A buffer that is still too long is
  broken at blank lines by `_split_by_paragraphs`, which appends to the
  caller's chunk list. At the end, `total_chunks` is written into every
  chunk's metadata dictionary in place.
- **Token counting and conversation trimming** (`src/utils/text_utils.py`):
  - `TokenCounter.count`, with its length-based fallback;
  - `limit_conversation_context`, which keeps the longest run of closing lines
    that fits a token budget;
  - `build_user_context`, which builds a one-line description of the user.
- **Context assembly** (`src/services/rag.py`): `RAGService._build_context`.
- **Settings validation** (`src/config.py`): the three field validators of
  `Settings` and the defaults they check.

## Files

| File | Module | What it holds |
|---|---|---|
| `Wrappers.dfy` | `Wrappers` | `Option` and `Result` |
| `Strings.dfy` | `Strings` | Python string operations. `str.strip` uses Unicode whitespace. Also `split`, `join`, `s[:n]`, `s[-n:]` and `str(n)`, with their laws |
| `Chunker.dfy` | `DocumentChunker` | The chunker. The chunk list and the metadata dictionaries are classes updated in place; the packing is also given as pure functions |
| `TextUtils.dfy` | `TextUtils` | `count`, `limit_conversation_context`, `build_user_context` |
| `Rag.dfy` | `Rag` | `_build_context` |
| `Config.dfy` | `Config` | The three validators and the defaults |

### How the chunker is modelled

- `ChunkList` stands for the Python list. `Metadata` stands for a metadata
  dictionary, with `entries` as a map.
- The methods `ChunkDocument`, `ChunkLongContent`, `ChunkSections`,
  `AddSection`, `SettleLoop`, `SplitByParagraphs`, `PackUnit`,
  `EmitIfNonBlank` and `FillTotals` follow the source's loops statement by
  statement. `SettlePass`, `PackParagraph` and `EmitText` are the bodies of
  the `while` loop, of the paragraph loop and of the `append` branch.
- Each method is proved against pure functions that describe what it computes:
  - `PackStep` is one greedy step, and `Carry` is the buffer after it.
  - `PackParagraphs` and `ParagraphPacking` describe `_split_by_paragraphs`.
  - `Settle` describes the `while` loop.
  - `PackSections` and `PackedTexts` describe the section loop.
  - `ChunkTexts` gives the final chunk texts.
- The ghost predicate `Run` is the loop invariant. It links the chunk list to
  those texts: chunk `i` has id `"{doc_id}_chunk_{i}"`, `chunk_index == i`,
  its own dictionary, and the caller's keys. This gives `chunk_index == len(chunks)`.

**Termination.** The `while` loop at document_chunker.py:71-75 only ends if
`_split_by_paragraphs` makes progress. `ChunkDocument` therefore requires, for
content longer than the limit, a condition under which it always does: no
stretch without a blank line in the text that is packed (`SectionText`, the
stripped sections joined by blank lines) is longer than
`MaxChunkSize - ChunkOverlap - 2` characters (`StretchesWithin`).

- The condition is sufficient, not necessary. Content whose stretches are
  longer can still finish, for instance one 9800-character paragraph.
- All-whitespace content of any length meets it, since it has no sections
  (`BlankContentStretches`). So does content whose own stretches are at most
  `MaxChunkSize - ChunkOverlap - 4` characters (`ContentStretchesSuffice`).
- Under the condition, every buffer the section loop builds has paragraphs of
  at most `MaxChunkSize - ChunkOverlap - 2` characters. So one pass of
  `_split_by_paragraphs` leaves a remainder within the limit
  (`SectionStepSettles`), and the `while` loop runs at most once per section,
  which is how `Settle` models it.
- Two kinds of buffer make the `while` loop hang, since
  `_split_by_paragraphs` hands them back unchanged:
  - a blank-line-free buffer longer than the limit (`OversizedParagraphStays`),
    such as a section of 10001 letters with no blank line;
  - a whitespace-free overlap of at most 250 characters, a blank line and a
    blank-line-free paragraph, together longer than the limit
    (`OverlapFixpoint`). Each pass emits the overlap as one more chunk.
    `OverlapHang` shows the section loop building such a buffer. This case is
    why the bound subtracts the overlap and the blank line from the limit.

## Model

| member | source | states |
|---|---|---|
| `DocumentChunker.ChunkDocument` | src/utils/document_chunker.py:14-93 | Content of at most 10000 characters comes back as one chunk: `doc_id` as id, content unchanged, and the caller's own metadata object with no key added. Longer content, under the stretch condition on its sections' text (met by all-whitespace content of any length), gives the chunks of `ChunkTexts` in order. Chunk `i` has id `"{doc_id}_chunk_{i}"` and a fresh dictionary holding the caller's entries, `chunk_index == i` and `total_chunks == len(chunks)`. Every chunk text is non-empty, stripped, at most 10000 characters and a contiguous piece of the joined sections. The result is the ZeroDivisionError of the log line exactly when the content is all whitespace. The caller's dictionary is unchanged |
| `DocumentChunker.ChunkLongContent` | src/utils/document_chunker.py:38-86 | Under the stretch condition on the sections' text, the multi-chunk path yields the chunks of `ChunkTexts`, each with its own fresh dictionary, after `total_chunks` is back-filled |
| `DocumentChunker.ChunkSections` | src/utils/document_chunker.py:45-81 | The section loop and the final flush append exactly the chunks of `PackedTexts(sections)`, numbered from 0, each with a fresh dictionary. The caller's dictionary is untouched |
| `DocumentChunker.SettleLoop` | src/utils/document_chunker.py:71-75 | The `while` loop appends the chunks of `Settle` and leaves its buffer, with the index equal to `len(chunks)`, given that one pass brings a too-long buffer within the limit |
| `DocumentChunker.SettlePass` | src/utils/document_chunker.py:72-75 | One pass on a too-long buffer appends the chunks `_split_by_paragraphs` emits and leaves its remainder, as `Settle` says, and `chunk_index` becomes `len(chunks)` |
| `DocumentChunker.AddSection` | src/utils/document_chunker.py:49-75 | One section is packed (flush with overlap, or extend), then the buffer is broken at blank lines while too long. The chunks appended and the buffer left are those of `Settle(PackStep(...))`, and the index equals `len(chunks)` |
| `DocumentChunker.SectionPrefixStep` | src/utils/document_chunker.py:48-75 | Under the stretch condition a single `while` pass suffices, and the state after section `k` is the packing of the first `k+1` sections |
| `DocumentChunker.PackUnit` | src/utils/document_chunker.py:50-68 | The imperative greedy step. On overflow it flushes the stripped buffer, if non-blank, as the next chunk, and restarts from the overlap. Otherwise it appends the unit after a blank line. The chunk list and the buffer match `PackStep` |
| `DocumentChunker.EmitText` | src/utils/document_chunker.py:52-55 | Appending one chunk for a text extends the run by that text, with a fresh dictionary, and the index becomes `len(chunks)` |
| `DocumentChunker.EmitIfNonBlank` | src/utils/document_chunker.py:51-55 | A buffer is emitted stripped, and only if it is not blank. The returned index equals the new length of the chunk list |
| `DocumentChunker.AddChunk` | src/utils/document_chunker.py:52-55 | Appending the created chunk extends the run of chunks by one, with a fresh dictionary |
| `DocumentChunker.RunExtend` | src/utils/document_chunker.py:52-55 | A chunk numbered `len(chunks)` whose dictionary is distinct from all earlier ones extends the invariant `Run` |
| `DocumentChunker.ChunkList.constructor` | src/utils/document_chunker.py:38 | `chunks = []` starts an empty list |
| `DocumentChunker.ChunkList.Append` | src/utils/document_chunker.py:52-54 | `chunks.append(c)` adds `c` at the end |
| `DocumentChunker.PackParagraph` | src/utils/document_chunker.py:122-140 | One turn of the paragraph loop takes the chunk list and the buffer from the packing of the first `p` paragraphs to that of the first `p+1` |
| `DocumentChunker.SplitByParagraphs` | src/utils/document_chunker.py:111-142 | `_split_by_paragraphs` appends the chunks of `ParagraphPacking(text)`, numbered on from `chunk_index`, to the caller's list. It returns that packing's remaining buffer |
| `DocumentChunker.FillTotals` | src/utils/document_chunker.py:83-86 | After the back-fill, every chunk's dictionary holds `total_chunks == len(chunks)`. All else in it is unchanged |
| `DocumentChunker.FillTotal` | src/utils/document_chunker.py:86 | Setting `total_chunks` in a dictionary built by `_create_chunk` gives the final dictionary |
| `DocumentChunker.CreateChunk` | src/utils/document_chunker.py:96-108 | `_create_chunk` builds the id `"{doc_id}_chunk_{i}"` and keeps the content. It gives a fresh dictionary with the caller's entries, `chunk_index == i` and `total_chunks == None` |
| `DocumentChunker.Metadata.constructor` | src/utils/document_chunker.py:103-107 | A new dictionary holds exactly the given entries |
| `DocumentChunker.WithPosition` | src/utils/document_chunker.py:103-107 | `{**metadata, "chunk_index": i, "total_chunks": t}` has the caller's keys plus the two, with the two set to `i` and `t`. Every other caller key keeps its value |
| `DocumentChunker.ChunkIdParses` | src/utils/document_chunker.py:101 | A chunk id is the document id, `_chunk_`, then only digits, and those digits read back as the index |
| `DocumentChunker.ChunkIdInjective` | src/utils/document_chunker.py:101 | Chunk ids of one document differ for different indices, and none equals the bare document id of the fast path |
| `DocumentChunker.HashRun` | src/utils/document_chunker.py:40 | The length of the run of `#` a text starts with: all `#` up to it, and no `#` just after it |
| `DocumentChunker.HeaderPatternMeaning` | src/utils/document_chunker.py:40 | `StartsWithHeader` holds exactly when the lookahead `#{1,6}\s` matches: some count of 1 to 6 `#` followed by a whitespace character |
| `DocumentChunker.NextHeaderBreak` | src/utils/document_chunker.py:40 | Finds the leftmost newline, from a position on, that is followed by a header, or reports that there is none |
| `DocumentChunker.HeaderSplit` | src/utils/document_chunker.py:40 | `re.split` always returns at least one piece |
| `DocumentChunker.HeaderSplitJoin` | src/utils/document_chunker.py:40 | Joining the raw header split with `"\n"` gives back the content |
| `DocumentChunker.HeaderSplitBreaks` | src/utils/document_chunker.py:40 | The text from each piece after the first starts with a header. No piece holds a header break: the split is made at every break and only at breaks |
| `DocumentChunker.Sections` | src/utils/document_chunker.py:43 | The list comprehension keeps no more sections than pieces, and each section is non-empty and stripped |
| `DocumentChunker.SectionsEmpty` | src/utils/document_chunker.py:43 | There are no sections exactly when every piece is blank |
| `DocumentChunker.SectionsWithin` | src/utils/document_chunker.py:43 | Every section is a contiguous piece of the text the pieces come from |
| `DocumentChunker.SectionsOfContent` | src/utils/document_chunker.py:40-43 | Every section inherits the content's bound on blank-line-free stretches |
| `DocumentChunker.ContentStretchesSuffice` | src/utils/document_chunker.py:40-43 | A bound of `MaxChunkSize - ChunkOverlap - 4` on the content's own stretches gives the stretch condition on the sections' text |
| `DocumentChunker.BlankContentStretches` | src/utils/document_chunker.py:40-43 | All-whitespace content has empty sections' text, so it meets the stretch condition whatever its length |
| `DocumentChunker.NoSectionsIffBlank` | src/utils/document_chunker.py:40-43 | The content has no sections exactly when it is all whitespace |
| `DocumentChunker.StretchesOfJoin` | src/utils/document_chunker.py:60-66 | Joining sections with blank lines lengthens a blank-line-free stretch by at most the two newlines around it |
| `DocumentChunker.ParagraphsOfStretches` | src/utils/document_chunker.py:119 | A text with no long blank-line-free stretch has no long paragraph under `split("\n\n")` |
| `DocumentChunker.Flushed` | src/utils/document_chunker.py:51-55 | A flush emits nothing exactly when the buffer is blank, and otherwise one non-empty, stripped text cut from the buffer (the same rule at lines 78-81 and 124-128) |
| `DocumentChunker.SectionOverflow` | src/utils/document_chunker.py:50 | The section loop flushes only a non-empty buffer, and only when appending would pass the limit. Without a flush, appending leaves at most two characters past it |
| `DocumentChunker.ParagraphOverflow` | src/utils/document_chunker.py:123 | The paragraph loop flushes a non-empty buffer exactly when appending would pass the limit. From an empty buffer it still counts the two characters of a blank line |
| `DocumentChunker.PackStep` | src/utils/document_chunker.py:50-68 | One greedy step emits at most one text, and none without an overflow |
| `DocumentChunker.CarryGrowth` | src/utils/document_chunker.py:57-68 | After a flush the buffer is at most the 250-character overlap, a blank line and the unit. Without a flush it starts with the whole old buffer |
| `DocumentChunker.OverlapCarry` | src/utils/document_chunker.py:57-62 | After a flush, the buffer is exactly the last 250 characters of the untrimmed old buffer (all of it if shorter), then `"\n\n"`, then the section. After a flush of an empty buffer, it is the section alone |
| `DocumentChunker.CarryFacts` | src/utils/document_chunker.py:57-68 | After either rule, a buffer that ends a text ends that text, a blank line and the unit. It always ends with the unit, and it is the unit itself when the old buffer was empty |
| `DocumentChunker.CarryEnds` | src/utils/document_chunker.py:57-68 | After a section is packed, the buffer is non-empty, ends the joined sections, and ends with that section's last character, which is not a newline |
| `DocumentChunker.FlushedCut` | src/utils/document_chunker.py:51-55 | A flushed buffer yields nothing or one non-empty, stripped piece of it |
| `DocumentChunker.StepCut` | src/utils/document_chunker.py:50-55 | A greedy step emits only non-empty, stripped pieces of the text it packs. They are bounded when the buffer was |
| `DocumentChunker.PackParagraphs` | src/utils/document_chunker.py:120-140 | The paragraph loop emits fewer texts than it is given paragraphs |
| `DocumentChunker.ParagraphPacking` | src/utils/document_chunker.py:119-142 | `_split_by_paragraphs` emits fewer chunks than `text.split("\n\n")` has paragraphs |
| `DocumentChunker.PackParagraphsBuffer` | src/utils/document_chunker.py:119-142 | The paragraph loop's buffer ends the joined paragraphs and is at least as long as the last paragraph |
| `DocumentChunker.PackParagraphsBound` | src/utils/document_chunker.py:119-142 | With every paragraph at most `10000 - 250 - 2` characters, the paragraph loop's buffer stays within 10000 |
| `DocumentChunker.PackParagraphsCut` | src/utils/document_chunker.py:122-128 | What the paragraph loop emits is non-empty, stripped and cut from the joined paragraphs. It is within the limit when every paragraph is short enough |
| `DocumentChunker.ParagraphsAsUnits` | src/utils/document_chunker.py:119 | The paragraphs of `text.split("\n\n")` are all short exactly when the text has no long paragraph |
| `DocumentChunker.PackStepAfter` | src/utils/document_chunker.py:50-68 | A greedy step taken after earlier chunks emits the same chunks, after them, and leaves the same buffer |
| `DocumentChunker.ParagraphLoopStep` | src/utils/document_chunker.py:122-140 | One turn of the paragraph loop, after earlier chunks, takes the packing of the first `p` paragraphs to that of the first `p+1` |
| `DocumentChunker.ParagraphPackingFacts` | src/utils/document_chunker.py:111-142 | `_split_by_paragraphs` returns a suffix of its text, no shorter than the last paragraph. It emits pieces cut from the text. With short paragraphs, nothing it emits or returns exceeds the limit |
| `DocumentChunker.ParagraphRest` | src/utils/document_chunker.py:111-142 | For a text that does not end with a newline and has short paragraphs, the remainder is a non-empty suffix within the limit that ends with the text's last character |
| `DocumentChunker.OversizedParagraphStays` | src/utils/document_chunker.py:119-142 | A blank-line-free text longer than the limit comes back unchanged with nothing emitted, so the loop at lines 71-75 never ends on it |
| `DocumentChunker.Settle` | src/utils/document_chunker.py:71-75 | The `while` pass only adds chunks after those already emitted, and leaves a buffer within the limit untouched |
| `DocumentChunker.OversizedParagraphEmitted` | src/utils/document_chunker.py:119-142 | A whitespace-free paragraph longer than the limit, followed by a blank line and a short paragraph, is emitted whole as a chunk over the limit. What is left is its last 250 characters, a blank line and the short paragraph, within the limit |
| `DocumentChunker.PackOversizedPair` | src/utils/document_chunker.py:122-140 | A first paragraph over the limit becomes the whole buffer with nothing emitted; the next paragraph flushes it (emitting its stripped text unless blank) and starts from its last 250 characters, a blank line and the new paragraph |
| `DocumentChunker.SplitTwoParagraphs` | src/utils/document_chunker.py:119 | A whitespace-free paragraph, a blank line and a blank-line-free text split into exactly those two paragraphs |
| `DocumentChunker.LeadingStretch` | src/utils/document_chunker.py:119-142 | Text that starts with more than `n` characters free of whitespace breaks the stretch bound `n` |
| `DocumentChunker.LeadingSectionStretch` | src/utils/document_chunker.py:40-45 | Content that starts with more than `n` whitespace-free characters keeps them at the front of its first section, so its sections' text breaks the stretch bound `n`. With `n = MaxChunkSize - ChunkOverlap - 2`, such content longer than the limit, including the input of `OversizedParagraphEmitted`, is outside the precondition of `ChunkDocument` |
| `DocumentChunker.FirstPieceLead` | src/utils/document_chunker.py:40 | The header split never cuts inside a leading whitespace-free run, since each break is a newline |
| `Strings.StripKeepsLead` | src/utils/document_chunker.py:43 | `strip()` keeps a leading whitespace-free run of its argument at its front |
| `DocumentChunker.OverlapFixpoint` | src/utils/document_chunker.py:119-142 | A buffer of a whitespace-free overlap `t` (at most 250 characters), a blank line and a blank-line-free paragraph, longer than the limit together, gives the chunk `t` and comes back unchanged, so the loop at lines 71-75 adds `t` on every pass and never ends |
| `DocumentChunker.PackShortPair` | src/utils/document_chunker.py:122-140 | A first paragraph within the overlap becomes the buffer; the next one overflows, flushes it, and starts from all of it, a blank line and the new paragraph |
| `DocumentChunker.PackShortFirst` | src/utils/document_chunker.py:122-140 | A first paragraph that leaves room for a blank line does not overflow the empty buffer: it becomes the buffer, with nothing emitted |
| `DocumentChunker.OverlapHang` | src/utils/document_chunker.py:48-75 | A whitespace-free section `x` within the limit, then a blank-line-free section `s` that overflows with it: the first section is emitted and the buffer is `x[-250:] + "\n\n" + s`, longer than the limit, which `_split_by_paragraphs` gives back unchanged after emitting `x[-250:]`. The joined sections break the stretch bound of `ChunkDocument`, so its precondition excludes this hang |
| `DocumentChunker.PackFirstSection` | src/utils/document_chunker.py:48-68 | A first section within the limit is the whole buffer, with nothing emitted |
| `DocumentChunker.TrailingStretch` | src/utils/document_chunker.py:119 | Text that ends with more than `n` blank-line-free characters breaks the stretch bound `n` |
| `DocumentChunker.SettleBuffer` | src/utils/document_chunker.py:71-75 | A too-long buffer cut from text with short stretches is brought within the limit by one pass. What is left is a non-empty suffix of it, with the same last character |
| `DocumentChunker.SettleCut` | src/utils/document_chunker.py:71-75 | The chunks the `while` pass emits are cut from the text, and are within the limit |
| `DocumentChunker.SectionText` | src/utils/document_chunker.py:40-43 | The sections joined by blank lines, the text every chunk is cut from. Its facts are proved in `SectionsWithin`, `JoinLast`, `ContentStretchesSuffice`, `BlankContentStretches` and `ChunkTextsFacts` |
| `DocumentChunker.SectionStep` | src/utils/document_chunker.py:48-68 | The last section packed onto the state the earlier ones left, before the `while` pass. Its facts are proved in `SectionStepBefore`, `SectionStepBuffer` and `SectionStepSettles` |
| `DocumentChunker.PackSections` | src/utils/document_chunker.py:48-75 | The section loop from an empty buffer. Its facts are proved in `PackSectionsBuffer`, `PackSectionsCut` and `SectionPrefixStep` |
| `DocumentChunker.PackedTexts` | src/utils/document_chunker.py:45-81 | The section loop's texts followed by the final flush. Its facts are proved in `ChunkSections` and `ChunkTextsFacts` |
| `DocumentChunker.JoinLast` | src/utils/document_chunker.py:60-66 | The joined sections are the earlier ones joined, a blank line and the last section |
| `DocumentChunker.PackSectionsBuffer` | src/utils/document_chunker.py:48-75 | After each section, the buffer is non-empty, within the limit, a suffix of the joined sections, and ends with the section's last character |
| `DocumentChunker.SectionStepBefore` | src/utils/document_chunker.py:48-68 | The buffer the earlier sections leave ends their join, and the whole join is that join, a blank line and the last section |
| `DocumentChunker.SectionStepBuffer` | src/utils/document_chunker.py:48-68 | Before the `while` pass, the buffer ends the joined sections and ends with a character that is not a newline |
| `DocumentChunker.SectionStepSettles` | src/utils/document_chunker.py:71-75 | Under the stretch condition, one call of `_split_by_paragraphs` always leaves a remainder within the limit, so the `while` loop runs at most once per section |
| `DocumentChunker.PackSectionsCut` | src/utils/document_chunker.py:48-75 | Every text the section loop emits is non-empty, stripped, within 10000 characters and a contiguous piece of the joined sections |
| `DocumentChunker.ChunkTexts` | src/utils/document_chunker.py:38-81 | All-whitespace content yields no chunk text |
| `DocumentChunker.ChunkTextsFacts` | src/utils/document_chunker.py:38-81 | Under the stretch condition on the sections' text (met by all-whitespace content of any length): every chunk text is non-empty, stripped, within the limit and cut from the joined sections. There are none exactly when the content is all whitespace |
| `Strings.Strip` | src/utils/document_chunker.py:43 | `str.strip()` removes whitespace at the two ends and nothing else: the input is some whitespace, the result, then some whitespace. The result has no whitespace at either end and is empty exactly for all-whitespace input |
| `Strings.TrimBothEnds` | src/utils/document_chunker.py:43 | Removing leading, then trailing whitespace leaves the input's middle, between two runs of whitespace |
| `Strings.StripIsSubstring` | src/utils/document_chunker.py:43 | What `strip()` keeps is a contiguous piece of its input |
| `Strings.Tail` | src/utils/document_chunker.py:59 | `s[-n:]` is a suffix of `s` of length `min(n, len(s))` |
| `Strings.Split` | src/utils/document_chunker.py:119 | `s.split(sep)` always returns at least one piece; `SplitJoin`, `SplitPiecesFree` and `FindLeftmost` give its meaning |
| `Strings.SplitJoin` | src/utils/document_chunker.py:119 | `sep.join(s.split(sep)) == s` |
| `Strings.SplitPiecesFree` | src/utils/document_chunker.py:119 | No piece of `s.split(sep)` contains `sep` |
| `Strings.FindLeftmost` | src/utils/document_chunker.py:119 | The separator occurrence `split` cuts at is the leftmost one |
| `Strings.NatToString` | src/utils/document_chunker.py:101 | `str(n)` is a non-empty string of decimal digits |
| `Strings.NatToStringRoundTrip` | src/utils/document_chunker.py:101 | `int(str(n)) == n` |
| `Strings.NatToStringInjective` | src/utils/document_chunker.py:101 | Different indices give different `str(n)` |
| `Strings.Take` | src/services/rag.py:162 | `s[:n]` is a prefix of `s` of length `min(n, len(s))` |
| `Strings.JoinAppend` | src/services/rag.py:172 | `sep.join(parts + [p])` is `sep.join(parts)`, the separator, then `p` |
| `Strings.JoinPrefix` | src/services/rag.py:172 | Joining the first `k` parts gives a prefix of the whole join |
| `Strings.JoinSuffix` | src/utils/text_utils.py:308 | Joining the parts from some index on gives a suffix of the whole join |
| `Strings.JoinPartIsSubstring` | src/utils/text_utils.py:308 | Every part stands contiguously in the join |
| `TextUtils.Count` | src/utils/text_utils.py:21-30 | The empty text counts 0. With no encoder, or an encoder that raises, the count is `len(text) // 4`. Otherwise it is the encoder's count |
| `TextUtils.CountAllMonotone` | src/utils/text_utils.py:300-304 | A longer run of closing lines never counts fewer tokens |
| `TextUtils.KeptFrom` | src/utils/text_utils.py:300-306 | The backward scan starts the kept lines no later than where it already was |
| `TextUtils.KeptFromFits` | src/utils/text_utils.py:300-306 | The kept lines' counts add up to at most `max_tokens`. Every longer run of closing lines, including the one that adds the line where the scan stopped, exceeds it |
| `TextUtils.LimitConversationContext` | src/utils/text_utils.py:279-308 | The text is unchanged when its count fits the budget. Otherwise the result is the lines from `KeptFrom` on, in order, joined with `"\n"`. Either way the result is a suffix of the text |
| `TextUtils.RegistrationStatus` | src/utils/text_utils.py:261-265 | The registration status starts with `"registered"` exactly when `is_registered` |
| `TextUtils.WhitelistStatus` | src/utils/text_utils.py:266-270 | The whitelist status starts with `"whitelisted"` exactly when `is_whitelisted` |
| `TextUtils.BuildUserContext` | src/utils/text_utils.py:242-276 | `is_registered` defaults to true and `is_whitelisted` to false. A missing or empty phone number gives `""`, and only then is the result empty. Otherwise the line starts with `"User: {phone} ("` and ends with the sentence naming the phone as `user_phone` |
| `TextUtils.ClosingEnds` | src/utils/text_utils.py:272-276 | The statuses part of the line ends with the closing sentence |
| `TextUtils.RegistrationReadBack` | src/utils/text_utils.py:261-265 | The registration status can be read back: `"registered"` exactly when `is_registered`, the not-registered text otherwise |
| `TextUtils.WhitelistReadBack` | src/utils/text_utils.py:266-270 | The whitelist status can be read back: `"whitelisted"` exactly when `is_whitelisted`, the not-whitelisted text otherwise |
| `TextUtils.ReadStatusesOfContext` | src/utils/text_utils.py:258-276 | The line for a non-empty phone number names exactly the two statuses it was built with |
| `Rag.TitleOf` | src/services/rag.py:161 | `doc.get("title", "Untitled")` is the title when there is one, and `"Untitled"` otherwise |
| `Rag.ExcerptOf` | src/services/rag.py:162 | `doc.get("text", "")[:500]` is a prefix of the text of at most 500 characters: the whole text when that has at most 500 characters, exactly 500 characters otherwise, and `""` when there is no text |
| `Rag.Part` | src/services/rag.py:164 | `f"## {title}\n{content}\n"` is five characters longer than title and excerpt together |
| `Rag.Parts` | src/services/rag.py:157-165 | There is one part per document, in document order |
| `Rag.PartsExtend` | src/services/rag.py:165-167 | One more document appends its part and adds its length to the running total |
| `Rag.PartsLengthGrows` | src/services/rag.py:164-167 | Each part adds at least five characters, so the running total grows strictly |
| `Rag.TakenFrom` | src/services/rag.py:160-170 | Continuing from `k` documents, the loop takes documents while the running total stays below `max_tokens`. It stops right after the first that reaches it, or at the end |
| `Rag.Taken` | src/services/rag.py:160-170 | For a non-empty list, between 1 and all documents are taken. Every prefix before the last keeps the total below `max_tokens`, and the last reaches it unless all documents are taken |
| `Rag.TakenBound` | src/services/rag.py:160-170 | Once the loop stops, every longer run of documents also reaches `max_tokens`. Since each part adds at least five characters, taking more than one document means `5 * (taken - 1) < max_tokens`: for `max_tokens >= 0`, at most `max_tokens / 5 + 1` documents are taken, and one is taken whatever `max_tokens` is |
| `Rag.BuildContext` | src/services/rag.py:140-174 | `max_tokens` defaults to 2000. An empty list gives exactly `"No relevant documentation found."`. Otherwise the result is the parts of the first `Taken` documents, in order, joined with `"\n\n"` |
| `Config.ValidateBaseUrl` | src/config.py:79-85 | Accepts exactly the values that start with `http://` or `https://`, and returns them unchanged |
| `Config.ValidateEmail` | src/config.py:87-93 | Accepts exactly the values containing both `@` and `.`, and returns them unchanged |
| `Config.ValidateIndexKind` | src/config.py:95-102 | Accepts exactly `"basic"` and `"advanced"`, and returns them unchanged |
| `Config.DefaultsValid` | src/config.py:27-65 | The defaults `https://open.bigmodel.cn/api/paas/v4`, `test@example.com` and `basic` pass their validators unchanged, so the validation of defaults that `settings = Settings()` (line 112) runs at import succeeds |
| `Config.EmailOrderUnchecked` | src/config.py:91 | The email check ignores order: `".@"` passes |

## Left out

- `ChunkDocument` requires, for content longer than the limit, that no blank-line-free stretch of the sections' text exceed `MaxChunkSize - ChunkOverlap - 2` characters. This is sufficient for the `while` loop at document_chunker.py:71-75 to end, not necessary: long content with a longer paragraph that the loop still finishes on (one 9800-character paragraph) is not covered. Neither is long content on which the source emits a chunk longer than 10000 characters (`OversizedParagraphEmitted`, `LeadingSectionStretch`). So "at most 10000 characters" in the contracts of `ChunkDocument` and `ChunkTextsFacts` holds under the precondition, not for every input the source finishes on. The two kinds of content on which the loop never ends are excluded with it: a blank-line-free buffer over the limit (`OversizedParagraphStays`), and a short overlap, a blank line and a long blank-line-free section (`OverlapFixpoint`, `OverlapHang`). The second is why the bound is the limit less the overlap and the blank line. The same applies to `ChunkLongContent` and `ChunkTextsFacts`.
- `Settle` models the `while` loop at document_chunker.py:71-75 as a single pass. `SectionStepSettles` proves one pass is all the loop makes under the precondition above. The imperative `AddSection` keeps the `while` loop.
- Logging: the `logger.info` call at document_chunker.py:88-91 is left out. Only its division by zero is kept, as `Err(ZeroDivisionError)` when the multi-chunk path yields no chunk.
- Metadata values are limited to `None`, integers, strings and booleans (`Value`). Other Python objects the caller might put in the dictionary are not modelled. Dictionary order is not modelled either (a map).
- `TokenCounter.__init__` and the tiktoken encoding are left out. The encoding is a function parameter of `TokenCounter` that returns a token count or `None` when encoding raises; which counts it returns is not modelled.
- `TextSummarizer` and `clean_markdown` in text_utils.py are left out. They rely on an external compression model and float ratios, and on a chain of regular-expression substitutions.
- `Rag.BuildContext`: a document is reduced to its `title` and `text` entries, where `None` stands for a missing key. A key present with a non-string value is not modelled: a `None` text raises in the source, and a `None` title prints as `None`. The debug log line at rag.py:173 is left out.
- The pydantic machinery around the validators (environment loading, the `Field` declarations, the `ValidationError` wrapping) is left out. Each validator is a function returning `Ok(value)` or `Err(message)`.
- Strings are sequences of Unicode scalar values. The lone surrogates a Python `str` can hold are not modelled. Whitespace for `strip()` and for `\s` is the set Python's `str.isspace` uses.

## Code as written

Where the code differs from what the chunker is commonly described to do,
the model follows the code:

- The fast path (document_chunker.py:28-36) returns the caller's own metadata
  dictionary. It adds no `chunk_index` or `total_chunks`.
- A blank-line-free paragraph longer than the limit is not always cut down
  to size. When it is the whole buffer, `_split_by_paragraphs` returns it
  unchanged and the `while` loop at lines 71-75 never ends
  (`OversizedParagraphStays`). When another paragraph follows it in the
  buffer, the paragraph is flushed whole as a chunk longer than 10000
  characters (lines 123-128), and the loop goes on with the short remainder
  (`OversizedParagraphEmitted`). For example, `'a'*10500 + "\n\n" + 'b'*100`
  gives a chunk of 10500 characters.
- The overlap that starts a new buffer can make the `while` loop hang even
  though every section is within the limit. For
  `'x'*300 + "\n# " + 'y'*9800` (10103 characters), lines 40-43 give the
  sections `'x'*300` and `"# " + 'y'*9800`. The second overflows at line 50,
  so `'x'*300` is emitted and the buffer becomes `'x'*250 + "\n\n"` and the
  second section, 10054 characters. `_split_by_paragraphs` emits `'x'*250` and
  returns that same buffer, so each pass adds another 250-character chunk
  (`OverlapHang`, `OverlapFixpoint`).
- Content longer than the limit that is all whitespace does not give an empty
  list. The log line divides by zero (line 90), so the call raises. Short
  whitespace-only content takes the fast path and comes back as one chunk.
- The overlap is taken from the untrimmed buffer (lines 59 and 132), not from
  the stripped chunk that was emitted.
- `_build_context` compares a character count with its `max_tokens` parameter
  (rag.py:167-169).
- `validate_email` only checks that `@` and `.` occur, in any order.
- `Settings` is a pydantic-settings `BaseSettings`, which validates default
  values, and `class Config` (config.py:104-108) does not turn that off. So
  `settings = Settings()` at config.py:112 runs the three validators on the
  defaults at import. `DefaultsValid` shows that this validation passes.
