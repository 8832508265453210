/**
 * Model of src/utils/document_chunker.py: `chunk_document` splits a long text
 * at Markdown header lines, packs the sections greedily into buffers of at most
 * `MaxChunkSize` characters joined by blank lines, carries the last
 * `ChunkOverlap` characters of a flushed buffer into the next one, and breaks a
 * buffer that is still too long at blank lines (`_split_by_paragraphs`).
 *
 * The chunk list and the metadata dictionaries are objects, as in the source:
 * `_split_by_paragraphs` appends to the caller's list, and `total_chunks` is
 * written into each chunk's dictionary after the fact.
 */
module DocumentChunker {
  import opened Wrappers
  import opened Strings

  /** `MAX_CHUNK_SIZE` and `CHUNK_OVERLAP`, in characters. */
  const MaxChunkSize: nat := 10000
  const ChunkOverlap: nat := 250

  /** The blank line that joins sections and separates paragraphs. */
  const Blank: string := "\n\n"

  const ChunkIndexKey: string := "chunk_index"
  const TotalChunksKey: string := "total_chunks"

  /** The scalar values a metadata dictionary holds; `NoneValue` is Python's `None`. */
  datatype Value = NoneValue | IntValue(i: int) | StrValue(s: string) | BoolValue(b: bool)

  /** A metadata dictionary, updated in place during the back-fill of `total_chunks`. */
  class Metadata {
    var entries: map<string, Value>

    constructor (entries: map<string, Value>)
      ensures this.entries == entries
    {
      this.entries := entries;
    }
  }

  /** One chunk: the dictionary `{"id": ..., "content": ..., "metadata": ...}`. */
  datatype Chunk = Chunk(id: string, content: string, metadata: Metadata)

  /** The list of chunks that `chunk_document` and `_split_by_paragraphs` append to. */
  class ChunkList {
    var items: seq<Chunk>

    constructor ()
      ensures items == []
    {
      items := [];
    }

    method Append(c: Chunk)
      modifies this
      ensures items == old(items) + [c]
    {
      items := items + [c];
    }
  }

  /** The exception the closing log line raises when no chunk was produced. */
  datatype ChunkError = ZeroDivisionError

  // ---------------------------------------------------------------------------
  // Splitting at header lines: re.split(r"\n(?=#{1,6}\s)", content)
  // ---------------------------------------------------------------------------

  /** Length of the run of `#` that `s` starts with. */
  function HashRun(s: string): (n: nat)
    ensures n <= |s|
    ensures forall m | 0 <= m < n :: s[m] == '#'
    ensures n < |s| ==> s[n] != '#'
  {
    if s != [] && s[0] == '#' then 1 + HashRun(s[1..]) else 0
  }

  /** The lookahead `#{1,6}\s` matches at the start of `s`. */
  predicate StartsWithHeader(s: string) {
    var n := HashRun(s);
    1 <= n <= 6 && n < |s| && IsSpace(s[n])
  }

  /**
   * `StartsWithHeader` is the regular expression's meaning: some count of 1 to 6
   * `#` characters followed by a whitespace character. As `#` is not whitespace,
   * the only count that can work is the full run.
   */
  lemma HeaderPatternMeaning(s: string)
    ensures StartsWithHeader(s) <==>
      exists k | 1 <= k <= 6 && k < |s| :: IsSpace(s[k]) && forall m | 0 <= m < k :: s[m] == '#'
  {
    var n := HashRun(s);
    if StartsWithHeader(s) {
      assert IsSpace(s[n]) && forall m | 0 <= m < n :: s[m] == '#';
    }
    forall k | 1 <= k <= 6 && k < |s| && IsSpace(s[k]) && (forall m | 0 <= m < k :: s[m] == '#')
      ensures StartsWithHeader(s)
    {
      HashIsNotSpace();
      assert s[k] != '#';
      assert k <= n;
    }
  }

  /** `#` is not a whitespace character, so a `#` run ends before the whitespace after it. */
  lemma HashIsNotSpace()
    ensures !IsSpace('#')
  {
    NotInRanges('#' as int, SpaceRanges);
  }

  /** `s[i]` is a newline that the header pattern splits at. */
  predicate IsHeaderBreak(s: string, i: nat) {
    i < |s| && s[i] == '\n' && StartsWithHeader(s[i + 1..])
  }

  /** The leftmost header break at or after `start`, if any. */
  function NextHeaderBreak(s: string, start: nat): (r: Option<nat>)
    ensures r.Some? ==> start <= r.value < |s| && s[r.value] == '\n' && IsHeaderBreak(s, r.value)
    ensures r.Some? ==> forall j | start <= j < r.value :: !IsHeaderBreak(s, j)
    ensures r.None? ==> forall j | start <= j :: !IsHeaderBreak(s, j)
    decreases |s| - start
  {
    if start >= |s| then None
    else if IsHeaderBreak(s, start) then Some(start)
    else NextHeaderBreak(s, start + 1)
  }

  /** `re.split(r"\n(?=#{1,6}\s)", s)`: the newline of each break is dropped, the header stays. */
  function HeaderSplit(s: string): (pieces: seq<string>)
    ensures |pieces| >= 1
    decreases |s|
  {
    match NextHeaderBreak(s, 0)
    case None => [s]
    case Some(i) => [s[..i]] + HeaderSplit(s[i + 1..])
  }

  /** Joining the pieces with "\n" gives back the text. */
  lemma {:induction false} HeaderSplitJoin(s: string)
    ensures Join(HeaderSplit(s), "\n") == s
    decreases |s|
  {
    var found := NextHeaderBreak(s, 0);
    if found.Some? {
      var i := found.value;
      var rest := s[i + 1..];
      HeaderSplitJoin(rest);
      assert HeaderSplit(s) == [s[..i]] + HeaderSplit(rest);
      JoinAround(s, i, HeaderSplit(rest));
    }
  }

  /** Joining the text before a newline with the pieces of the text after it. */
  lemma JoinAround(s: string, i: nat, tail: seq<string>)
    requires i < |s| && s[i] == '\n' && |tail| >= 1 && Join(tail, "\n") == s[i + 1..]
    ensures Join([s[..i]] + tail, "\n") == s
  {
    JoinCons(s[..i], tail, "\n");
    assert s[i..i + 1] == "\n";
    SliceThree(s, i, i + 1);
  }

  /**
   * The text from every piece after the first on starts with a header, and no
   * piece holds a header break of that text: the split is at every break and
   * only at breaks.
   */
  lemma {:induction false} HeaderSplitBreaks(s: string)
    ensures forall k | 1 <= k < |HeaderSplit(s)| :: StartsWithHeader(Join(HeaderSplit(s)[k..], "\n"))
    ensures forall k, j | 0 <= k < |HeaderSplit(s)| && 0 <= j < |HeaderSplit(s)[k]| ::
      !IsHeaderBreak(Join(HeaderSplit(s)[k..], "\n"), j)
    decreases |s|
  {
    var pieces := HeaderSplit(s);
    HeaderSplitJoin(s);
    assert pieces[0..] == pieces;
    match NextHeaderBreak(s, 0)
    case None =>
    case Some(i) =>
      var rest := s[i + 1..];
      var tail := HeaderSplit(rest);
      HeaderSplitBreaks(rest);
      HeaderSplitJoin(rest);
      assert pieces == [s[..i]] + tail;
      assert tail[0..] == tail;
      forall k | 1 <= k < |pieces| ensures pieces[k..] == tail[k - 1..] {
      }
  }

  /** The units are the sections of a document: non-empty and stripped. */
  ghost predicate SectionLike(sections: seq<string>) {
    forall k | 0 <= k < |sections| :: sections[k] != [] && IsStripped(sections[k])
  }

  /**
   * The sections (document_chunker.py:43): the stripped pieces, with blank
   * ones dropped. There are at most as many as pieces, and each is non-empty
   * and stripped.
   */
  function Sections(pieces: seq<string>): (sections: seq<string>)
    ensures |sections| <= |pieces|
    ensures SectionLike(sections)
  {
    if pieces == [] then []
    else
      var s := Strip(pieces[0]);
      var rest := Sections(pieces[1..]);
      var all := (if s == [] then [] else [s]) + rest;
      assert SectionLike(all) by {
        forall k | 0 <= k < |all| ensures all[k] != [] && IsStripped(all[k]) {
          if s != [] && k > 0 {
            assert all[k] == rest[k - 1];
          }
        }
      }
      all
  }

  /** There is no section exactly when every piece is blank. */
  lemma {:induction false} SectionsEmpty(pieces: seq<string>)
    ensures Sections(pieces) == [] <==> forall k | 0 <= k < |pieces| :: AllSpace(pieces[k])
  {
    if pieces != [] {
      SectionsEmpty(pieces[1..]);
      forall k | 1 <= k < |pieces| ensures pieces[k] == pieces[1..][k - 1] {
      }
    }
  }

  /** A section is a stretch of the text its pieces come from. */
  lemma {:induction false} SectionsWithin(pieces: seq<string>, t: string)
    requires forall p | p in pieces :: IsSubstring(p, t)
    ensures forall s | s in Sections(pieces) :: IsSubstring(s, t)
  {
    if pieces != [] {
      SectionsWithin(pieces[1..], t);
      var first := Strip(pieces[0]);
      StripIsSubstring(pieces[0]);
      SubstringTransitive(first, pieces[0], t);
      assert Sections(pieces) == (if first == [] then [] else [first]) + Sections(pieces[1..]);
    }
  }

  // ---------------------------------------------------------------------------
  // Blank-line-free stretches: a condition under which the loop terminates
  // ---------------------------------------------------------------------------

  /** `w` holds no blank line ("\n\n"). */
  ghost predicate BlankFree(w: string) {
    forall j: nat :: !OccursAt(w, Blank, j)
  }

  /** Every stretch of `t` without a blank line is at most `n` characters. */
  ghost predicate StretchesWithin(t: string, n: nat) {
    forall i, j {:trigger BlankFree(t[i..j])} | 0 <= i <= j <= |t| && BlankFree(t[i..j]) :: j - i <= n
  }

  /** Every prefix of `t` without a blank line is at most `n` characters. */
  ghost predicate LeadWithin(t: string, n: nat) {
    forall j | 0 <= j <= |t| && BlankFree(t[..j]) :: j <= n
  }

  /** Every paragraph of `t`, in the sense of `t.split("\n\n")`, is at most `n` characters. */
  ghost predicate ParagraphsWithin(t: string, n: nat) {
    forall p | p in Split(t, Blank) :: |p| <= n
  }

  /** A blank line at `m` is two newlines there. */
  lemma BlankAt(w: string, m: nat)
    ensures OccursAt(w, Blank, m) <==> m + 2 <= |w| && w[m] == '\n' && w[m + 1] == '\n'
  {
    if m + 2 <= |w| && w[m] == '\n' && w[m + 1] == '\n' {
      assert w[m..m + 2] == Blank;
    }
    if OccursAt(w, Blank, m) {
      assert w[m] == w[m..m + 2][0] && w[m + 1] == w[m..m + 2][1];
    }
  }

  lemma BlankFreeSlice(t: string, i: nat, j: nat, x: nat, y: nat)
    requires i <= x <= y <= j <= |t| && BlankFree(t[i..j])
    ensures BlankFree(t[x..y])
  {
    forall m: nat ensures OccursAt(t[x..y], Blank, m) ==> OccursAt(t[i..j], Blank, m + x - i) {
      BlankAt(t[x..y], m);
      BlankAt(t[i..j], m + x - i);
    }
  }

  lemma BlankInside(t: string, i: nat, j: nat, k: nat)
    requires i <= k && k + 2 <= j <= |t| && t[k] == '\n' && t[k + 1] == '\n'
    ensures !BlankFree(t[i..j])
  {
    BlankAt(t[i..j], k - i);
  }

  lemma StretchesOfSubstring(u: string, t: string, n: nat)
    requires IsSubstring(u, t) && StretchesWithin(t, n)
    ensures StretchesWithin(u, n)
  {
    var a, b :| 0 <= a <= b <= |t| && t[a..b] == u;
    forall i, j | 0 <= i <= j <= |u| && BlankFree(u[i..j]) ensures j - i <= n {
      forall k | 0 <= k < j - i ensures u[i..j][k] == t[a + i..a + j][k] {
        assert u[i..j][k] == t[a + i + k];
      }
      assert u[i..j] == t[a + i..a + j];
    }
  }

  /** Two texts joined by a blank line: no stretch can run across the blank line. */
  lemma StretchesAcrossBlank(a: string, b: string, n: nat)
    requires StretchesWithin(a, n) && StretchesWithin(b, n + 2) && LeadWithin(b, n + 1)
    ensures StretchesWithin(a + Blank + b, n + 2) && LeadWithin(a + Blank + b, n + 1)
  {
    var t := a + Blank + b;
    forall i, j | 0 <= i <= j <= |t| ensures BlankFree(t[i..j]) ==> j - i <= n + 2 {
      StretchAcrossBlank(a, b, n, i, j);
    }
    forall j | 0 <= j <= |t| ensures BlankFree(t[..j]) ==> j <= n + 1 {
      LeadAcrossBlank(a, b, n, j);
    }
  }

  /** One stretch of `a + Blank + b`: it lies in `a`, in `b`, or holds the blank line. */
  lemma StretchAcrossBlank(a: string, b: string, n: nat, i: nat, j: nat)
    requires StretchesWithin(a, n) && StretchesWithin(b, n + 2) && LeadWithin(b, n + 1)
    requires i <= j <= |a + Blank + b|
    ensures BlankFree((a + Blank + b)[i..j]) ==> j - i <= n + 2
  {
    var t := a + Blank + b;
    var len := |a|;
    assert t[len] == '\n' && t[len + 1] == '\n';
    if j <= len {
      SliceLeft(a, Blank + b, i, j);
      assert t == a + (Blank + b);
    } else if i >= len + 2 {
      SliceRight(a + Blank, b, i, j);
    } else if i <= len && j >= len + 2 {
      BlankInside(t, i, j, len);
    } else if BlankFree(t[i..j]) {
      if i <= len {
        BlankFreeSlice(t, i, j, i, len);
        SliceLeft(a, Blank + b, i, len);
        assert t == a + (Blank + b);
      } else if j >= len + 2 {
        BlankFreeSlice(t, i, j, len + 2, j);
        SliceRight(a + Blank, b, len + 2, j);
        assert b[0..j - len - 2] == b[..j - len - 2];
      }
    }
  }

  /** One leading stretch of `a + Blank + b`: it lies in `a` or holds the blank line. */
  lemma LeadAcrossBlank(a: string, b: string, n: nat, j: nat)
    requires StretchesWithin(a, n)
    requires j <= |a + Blank + b|
    ensures BlankFree((a + Blank + b)[..j]) ==> j <= n + 1
  {
    var t := a + Blank + b;
    var len := |a|;
    assert t[len] == '\n' && t[len + 1] == '\n';
    assert t[..j] == t[0..j];
    if j <= len {
      assert t[0..j] == a[0..j];
    } else if j == len + 1 {
      if BlankFree(t[..j]) {
        BlankFreeSlice(t, 0, j, 0, len);
        assert t[0..len] == a[0..len];
      }
    } else {
      BlankInside(t, 0, j, len);
    }
  }

  /** Sections joined by blank lines: a stretch gains at most one newline on each side. */
  lemma {:induction false} StretchesOfJoin(parts: seq<string>, n: nat)
    requires forall k | 0 <= k < |parts| :: StretchesWithin(parts[k], n)
    ensures StretchesWithin(Join(parts, Blank), n + 2) && LeadWithin(Join(parts, Blank), n + 1)
  {
    if |parts| == 1 {
      var p := parts[0];
      forall j | 0 <= j <= |p| && BlankFree(p[..j]) ensures j <= n + 1 {
        assert p[..j] == p[0..j];
      }
    } else if |parts| > 1 {
      StretchesOfJoin(parts[1..], n);
      StretchesAcrossBlank(parts[0], Join(parts[1..], Blank), n);
    }
  }

  /** No stretch longer than `n` leaves no paragraph longer than `n`. */
  lemma ParagraphsOfStretches(t: string, n: nat)
    requires StretchesWithin(t, n)
    ensures ParagraphsWithin(t, n)
  {
    var parts := Split(t, Blank);
    SplitJoin(t, Blank);
    SplitPiecesFree(t, Blank);
    forall p | p in parts ensures |p| <= n {
      var k :| 0 <= k < |parts| && parts[k] == p;
      JoinPartIsSubstring(parts, k, Blank);
      var a, b :| 0 <= a <= b <= |t| && t[a..b] == p;
      assert BlankFree(t[a..b]);
    }
  }

  // ---------------------------------------------------------------------------
  // Chunk records
  // ---------------------------------------------------------------------------

  /** `f"{doc_id}_chunk_{chunk_index}"`: the id of chunk `index` of `docId`. */
  function ChunkId(docId: string, index: nat): string
  {
    docId + "_chunk_" + NatToString(index)
  }

  /**
   * A chunk id is the document id, `_chunk_`, then digits that read back as
   * the index.
   */
  lemma ChunkIdParses(docId: string, index: nat)
    ensures var id := ChunkId(docId, index);
      && |id| > |docId| + 7 && id[..|docId| + 7] == docId + "_chunk_"
      && (forall i | |docId| + 7 <= i < |id| :: IsDigit(id[i]))
      && DigitsValue(id[|docId| + 7..]) == index
  {
    var id := ChunkId(docId, index);
    assert id[|docId| + 7..] == NatToString(index);
    NatToStringRoundTrip(index);
  }

  /** Chunk ids of one document are all different, and none is the bare document id. */
  lemma ChunkIdInjective(docId: string, i: nat, j: nat)
    ensures ChunkId(docId, i) == ChunkId(docId, j) ==> i == j
    ensures ChunkId(docId, i) != docId
  {
    var prefix := docId + "_chunk_";
    if ChunkId(docId, i) == ChunkId(docId, j) {
      assert ChunkId(docId, i)[|prefix|..] == NatToString(i);
      assert ChunkId(docId, j)[|prefix|..] == NatToString(j);
      NatToStringInjective(i, j);
    }
  }

  /** `{**metadata, "chunk_index": index, "total_chunks": total}`: every caller key is kept unless it is one of the two. */
  function WithPosition(base: map<string, Value>, index: nat, total: Value): (entries: map<string, Value>)
    ensures entries.Keys == base.Keys + {ChunkIndexKey, TotalChunksKey}
    ensures entries[ChunkIndexKey] == IntValue(index) && entries[TotalChunksKey] == total
    ensures forall k | k in base && k != ChunkIndexKey && k != TotalChunksKey :: entries[k] == base[k]
  {
    base + map[ChunkIndexKey := IntValue(index), TotalChunksKey := total]
  }

  /** `_create_chunk`: a fresh metadata dictionary with `total_chunks` still `None`. */
  method CreateChunk(docId: string, content: string, metadata: Metadata, chunkIndex: nat) returns (chunk: Chunk)
    ensures chunk.id == ChunkId(docId, chunkIndex) && chunk.content == content
    ensures fresh(chunk.metadata) && chunk.metadata.entries == WithPosition(metadata.entries, chunkIndex, NoneValue)
  {
    var entries := metadata.entries + map[ChunkIndexKey := IntValue(chunkIndex), TotalChunksKey := NoneValue];
    var m := new Metadata(entries);
    chunk := Chunk(ChunkId(docId, chunkIndex), content, m);
  }

  // ---------------------------------------------------------------------------
  // The packing, as values
  // ---------------------------------------------------------------------------

  /** The chunk texts emitted so far and the current buffer. */
  datatype Packing = Packing(emitted: seq<string>, buffer: string)

  /**
   * What a flush emits: nothing for a blank buffer, otherwise one text, the
   * buffer with the whitespace at its ends removed.
   */
  function Flushed(buffer: string): (texts: seq<string>)
    ensures texts == [] <==> AllSpace(buffer)
    ensures |texts| <= 1
    ensures texts != [] ==> texts[0] != [] && IsStripped(texts[0]) && IsSubstring(texts[0], buffer)
  {
    StripIsSubstring(buffer);
    if Strip(buffer) == [] then [] else [Strip(buffer)]
  }

  /** The text with one more unit appended after a blank line, if it was not empty. */
  function Extend(buffer: string, unit: string): string {
    if buffer != [] then buffer + Blank + unit else unit
  }

  /**
   * The buffer after one step of the greedy packing (document_chunker.py:58-68
   * and 130-140): on `overflow` it restarts from the last `ChunkOverlap`
   * characters of the old buffer, a blank line and the unit (just the unit
   * when the old buffer was empty); otherwise the unit is appended.
   */
  function Carry(buffer: string, unit: string, overflow: bool): string
  {
    if overflow then
      (if ChunkOverlap > 0 && buffer != [] then Tail(buffer, ChunkOverlap) + Blank + unit else unit)
    else
      Extend(buffer, unit)
  }

  /**
   * One step of the greedy packing: on `overflow` the buffer is flushed first.
   * A step emits at most one text, and none without an overflow.
   */
  function PackStep(state: Packing, unit: string, overflow: bool): (next: Packing)
    ensures |state.emitted| <= |next.emitted| <= |state.emitted| + 1
    ensures !overflow ==> next.emitted == state.emitted
  {
    Packing(if overflow then state.emitted + Flushed(state.buffer) else state.emitted,
            Carry(state.buffer, unit, overflow))
  }

  /**
   * The flush test of `_split_by_paragraphs`, which counts the joining blank
   * line: a non-empty buffer is flushed exactly when appending would pass the
   * limit. It counts the blank line for an empty buffer too.
   */
  predicate ParagraphOverflow(buffer: string, unit: string)
    ensures buffer != [] ==> (ParagraphOverflow(buffer, unit) <==> |Extend(buffer, unit)| > MaxChunkSize)
    ensures buffer == [] ==> (ParagraphOverflow(buffer, unit) <==> |unit| + |Blank| > MaxChunkSize)
  {
    |buffer| + |unit| + 2 > MaxChunkSize
  }

  /**
   * The flush test of the section loop, which never flushes an empty buffer
   * and does not count the joining blank line: appending can leave the buffer
   * up to two characters past the limit without a flush.
   */
  predicate SectionOverflow(buffer: string, unit: string)
    ensures SectionOverflow(buffer, unit) ==> buffer != [] && |Extend(buffer, unit)| > MaxChunkSize
    ensures buffer != [] && !SectionOverflow(buffer, unit) ==> |Extend(buffer, unit)| <= MaxChunkSize + |Blank|
  {
    buffer != [] && |buffer| + |unit| > MaxChunkSize
  }

  /** The paragraph loop over `units`, from an empty buffer. */
  function PackParagraphs(units: seq<string>): (packing: Packing)
    ensures units != [] ==> |packing.emitted| < |units|
    decreases |units|
  {
    if units == [] then Packing([], [])
    else
      var state := PackParagraphs(units[..|units| - 1]);
      var unit := units[|units| - 1];
      PackStep(state, unit, ParagraphOverflow(state.buffer, unit))
  }

  /**
   * What `_split_by_paragraphs` emits for `text`, and the buffer it returns:
   * fewer texts than paragraphs, since the first paragraph never flushes.
   */
  function ParagraphPacking(text: string): (packing: Packing)
    ensures |packing.emitted| < |Split(text, Blank)|
  {
    PackParagraphs(Split(text, Blank))
  }

  /** The `while` loop at document_chunker.py:71-75, applied once: a too-long buffer is broken at blank lines. */
  function Settle(state: Packing): (settled: Packing)
    ensures state.emitted <= settled.emitted
    ensures |state.buffer| <= MaxChunkSize ==> settled == state
  {
    if |state.buffer| > MaxChunkSize then
      var split := ParagraphPacking(state.buffer);
      Packing(state.emitted + split.emitted, split.buffer)
    else
      state
  }

  /** The section loop over `sections`, from an empty buffer. */
  function PackSections(sections: seq<string>): Packing
    decreases |sections|, 1
  {
    if sections == [] then Packing([], []) else Settle(SectionStep(sections))
  }

  /** The last section packed onto the state the earlier ones left, before the `while` pass. */
  function SectionStep(sections: seq<string>): Packing
    requires sections != []
    decreases |sections|, 0
  {
    var state := PackSections(sections[..|sections| - 1]);
    var section := sections[|sections| - 1];
    PackStep(state, section, SectionOverflow(state.buffer, section))
  }

  /** The texts packed from `sections`, in order: the packing and the final flush. */
  function PackedTexts(sections: seq<string>): seq<string> {
    var state := PackSections(sections);
    state.emitted + Flushed(state.buffer)
  }

  /** The contents of the chunks of a long document, in order; none for all-whitespace content. */
  function ChunkTexts(content: string): (texts: seq<string>)
    ensures AllSpace(content) ==> texts == []
  {
    NoSectionsIffBlank(content);
    PackedTexts(Sections(HeaderSplit(content)))
  }

  /** The text the chunks are cut from: the sections joined by blank lines. */
  function SectionText(content: string): string {
    Join(Sections(HeaderSplit(content)), Blank)
  }

  // ---------------------------------------------------------------------------
  // Properties of the packing
  // ---------------------------------------------------------------------------

  /** Chunk texts: non-empty, stripped, cut from `source`, and at most `MaxChunkSize` long when `bounded`. */
  ghost predicate Cut(texts: seq<string>, source: string, bounded: bool) {
    forall i | 0 <= i < |texts| ::
      && texts[i] != [] && IsStripped(texts[i])
      && IsSubstring(texts[i], source)
      && (bounded ==> |texts[i]| <= MaxChunkSize)
  }

  lemma CutWiden(texts: seq<string>, source: string, wider: string, bounded: bool)
    requires Cut(texts, source, bounded) && IsSubstring(source, wider)
    ensures Cut(texts, wider, bounded)
  {
    forall i | 0 <= i < |texts| ensures IsSubstring(texts[i], wider) {
      SubstringTransitive(texts[i], source, wider);
    }
  }

  lemma CutAppend(a: seq<string>, b: seq<string>, source: string, bounded: bool)
    requires Cut(a, source, bounded) && Cut(b, source, bounded)
    ensures Cut(a + b, source, bounded)
  {
    forall i | 0 <= i < |a + b| ensures (a + b)[i] == if i < |a| then a[i] else b[i - |a|] {
    }
  }

  /** A flushed buffer cut from `source` is a chunk text cut from `source`. */
  lemma FlushedCut(buffer: string, source: string, bounded: bool)
    requires IsSubstring(buffer, source) && (bounded ==> |buffer| <= MaxChunkSize)
    ensures Cut(Flushed(buffer), source, bounded)
  {
    var stripped := Strip(buffer);
    if stripped != [] {
      StripIsSubstring(buffer);
      SubstringTransitive(stripped, buffer, source);
      CutSingle(stripped, source, bounded);
    }
  }

  lemma CutSingle(text: string, source: string, bounded: bool)
    requires text != [] && IsStripped(text) && IsSubstring(text, source)
    requires bounded ==> |text| <= MaxChunkSize
    ensures Cut([text], source, bounded)
  {
  }

  /** `t` ends with `u`, and appending the same text to both keeps that. */
  lemma SuffixExtend(u: string, t: string, x: string)
    requires IsSuffix(u, t)
    ensures IsSuffix(u + x, t + x)
  {
    assert (t + x)[|t + x| - |u + x|..] == t[|t| - |u|..] + x;
  }

  /**
   * A buffer that ends `done` ends `done`, a blank line and the unit after one
   * step, whichever rule applies; from an empty buffer it is the unit itself,
   * and it always ends with the unit.
   */
  lemma CarryFacts(buffer: string, unit: string, overflow: bool, done: string)
    requires IsSuffix(buffer, done)
    ensures IsSuffix(Carry(buffer, unit, overflow), done + Blank + unit)
    ensures buffer == [] ==> Carry(buffer, unit, overflow) == unit
    ensures IsSuffix(unit, Carry(buffer, unit, overflow))
  {
    var next := Carry(buffer, unit, overflow);
    SuffixOfConcat(done + Blank, unit);
    if buffer == [] {
      assert next == unit;
      assert next[|next| - |unit|..] == unit;
    } else {
      var front := if overflow then Tail(buffer, ChunkOverlap) else buffer;
      assert next == front + Blank + unit;
      SuffixOfConcat(front + Blank, unit);
      if overflow {
        SuffixTransitive(front, buffer, done);
      }
      SuffixExtend(front, done, Blank);
      SuffixExtend(front + Blank, done + Blank, unit);
    }
  }

  /**
   * After a flush the carried buffer is at most the overlap, a blank line and
   * the unit; without one it starts with the whole old buffer.
   */
  lemma CarryGrowth(buffer: string, unit: string, overflow: bool)
    ensures overflow ==> |Carry(buffer, unit, overflow)| <= ChunkOverlap + |Blank| + |unit|
    ensures !overflow && buffer != [] ==> buffer <= Carry(buffer, unit, overflow)
  {
    if !overflow && buffer != [] {
      assert Carry(buffer, unit, overflow) == buffer + (Blank + unit);
    }
  }

  /**
   * After a flush the buffer is exactly the last `ChunkOverlap` characters of
   * the untrimmed old buffer (all of it when it is shorter), a blank line and
   * the unit; after a flush of an empty buffer it is the unit alone.
   */
  lemma OverlapCarry(buffer: string, unit: string)
    ensures buffer == [] ==> Carry(buffer, unit, true) == unit
    ensures buffer != [] ==>
      var start := if |buffer| <= ChunkOverlap then 0 else |buffer| - ChunkOverlap;
      Carry(buffer, unit, true) == buffer[start..] + Blank + unit
  {
    if |buffer| <= ChunkOverlap {
      assert buffer[0..] == buffer;
    }
  }

  /** Every unit is at most `n` characters. */
  ghost predicate UnitsWithin(units: seq<string>, n: nat) {
    forall k | 0 <= k < |units| :: |units[k]| <= n
  }

  /** What one step emits is cut from any text that holds what was emitted and the buffer. */
  lemma StepCut(state: Packing, unit: string, overflow: bool, whole: string, bounded: bool)
    requires Cut(state.emitted, whole, bounded)
    requires IsSubstring(state.buffer, whole) && (bounded ==> |state.buffer| <= MaxChunkSize)
    ensures Cut(PackStep(state, unit, overflow).emitted, whole, bounded)
  {
    if overflow {
      FlushedCut(state.buffer, whole, bounded);
      CutAppend(state.emitted, Flushed(state.buffer), whole, bounded);
    }
  }

  /** The paragraph loop's buffer ends the joined units and is at least as long as the last unit. */
  lemma {:induction false} PackParagraphsBuffer(units: seq<string>)
    ensures units == [] ==> PackParagraphs(units) == Packing([], [])
    ensures units != [] ==>
      && IsSuffix(PackParagraphs(units).buffer, Join(units, Blank))
      && |PackParagraphs(units).buffer| >= |units[|units| - 1]|
    decreases |units|
  {
    if units != [] {
      var init := units[..|units| - 1];
      var unit := units[|units| - 1];
      var state := PackParagraphs(init);
      var overflow := ParagraphOverflow(state.buffer, unit);
      assert PackParagraphs(units).buffer == Carry(state.buffer, unit, overflow);
      PackParagraphsBuffer(init);
      assert units == init + [unit];
      if init == [] {
        assert Join(units, Blank) == unit;
        CarryFacts(state.buffer, unit, overflow, []);
      } else {
        JoinAppend(init, unit, Blank);
        CarryFacts(state.buffer, unit, overflow, Join(init, Blank));
      }
    }
  }

  /**
   * When no unit is longer than the limit less the overlap and the blank line,
   * the paragraph loop's buffer is never longer than the limit: an overflow
   * leaves at most the overlap, a blank line and the unit.
   */
  lemma {:induction false} PackParagraphsBound(units: seq<string>)
    requires UnitsWithin(units, MaxChunkSize - ChunkOverlap - 2)
    ensures |PackParagraphs(units).buffer| <= MaxChunkSize
    decreases |units|
  {
    if units != [] {
      var init := units[..|units| - 1];
      var unit := units[|units| - 1];
      var state := PackParagraphs(init);
      var overflow := ParagraphOverflow(state.buffer, unit);
      assert PackParagraphs(units).buffer == Carry(state.buffer, unit, overflow);
      assert |unit| <= MaxChunkSize - ChunkOverlap - 2;
      assert UnitsWithin(init, MaxChunkSize - ChunkOverlap - 2) by {
        forall k | 0 <= k < |init| ensures |init[k]| <= MaxChunkSize - ChunkOverlap - 2 {
          assert init[k] == units[k];
        }
      }
      PackParagraphsBound(init);
    }
  }

  /** What the paragraph loop emits is cut from the joined units, and within the limit when every unit is. */
  lemma {:induction false} PackParagraphsCut(units: seq<string>, bounded: bool)
    requires bounded ==> UnitsWithin(units, MaxChunkSize - ChunkOverlap - 2)
    ensures Cut(PackParagraphs(units).emitted, Join(units, Blank), bounded)
    decreases |units|
  {
    if units != [] {
      var init := units[..|units| - 1];
      var unit := units[|units| - 1];
      var state := PackParagraphs(init);
      var overflow := ParagraphOverflow(state.buffer, unit);
      assert PackParagraphs(units) == PackStep(state, unit, overflow);
      assert units == init + [unit];
      assert bounded ==> UnitsWithin(init, MaxChunkSize - ChunkOverlap - 2) by {
        forall k | 0 <= k < |init| ensures init[k] == units[k] {
        }
      }
      PackParagraphsCut(init, bounded);
      PackParagraphsBuffer(init);
      if bounded {
        PackParagraphsBound(init);
      }
      var whole := Join(units, Blank);
      if init != [] {
        var done := Join(init, Blank);
        JoinAppend(init, unit, Blank);
        assert done <= whole;
        PrefixIsSubstring(done, whole);
        CutWiden(state.emitted, done, whole, bounded);
        SuffixIsSubstring(state.buffer, done);
        SubstringTransitive(state.buffer, done, whole);
      } else {
        assert IsSubstring(state.buffer, whole) by {
          assert whole[0..0] == [];
        }
      }
      StepCut(state, unit, overflow, whole, bounded);
    }
  }

  /** `ParagraphsWithin` is `UnitsWithin` of the paragraphs. */
  lemma ParagraphsAsUnits(text: string, n: nat)
    ensures ParagraphsWithin(text, n) <==> UnitsWithin(Split(text, Blank), n)
  {
    var parts := Split(text, Blank);
    if UnitsWithin(parts, n) {
      forall p | p in parts ensures |p| <= n {
        var k :| 0 <= k < |parts| && parts[k] == p;
      }
    }
  }

  /**
   * `_split_by_paragraphs` returns a suffix of its text at least as long as the
   * last paragraph; what it emits is cut from the text; and with no paragraph
   * longer than the limit less the overlap and the blank line, nothing it
   * emits or returns is longer than the limit.
   */
  lemma ParagraphPackingFacts(text: string)
    ensures IsSuffix(ParagraphPacking(text).buffer, text)
    ensures |ParagraphPacking(text).buffer| >= |Split(text, Blank)[|Split(text, Blank)| - 1]|
    ensures Cut(ParagraphPacking(text).emitted, text, ParagraphsWithin(text, MaxChunkSize - ChunkOverlap - 2))
    ensures ParagraphsWithin(text, MaxChunkSize - ChunkOverlap - 2) ==> |ParagraphPacking(text).buffer| <= MaxChunkSize
  {
    var units := Split(text, Blank);
    var packing := PackParagraphs(units);
    assert ParagraphPacking(text) == packing;
    var bounded := ParagraphsWithin(text, MaxChunkSize - ChunkOverlap - 2);
    assert IsSuffix(packing.buffer, text) && |packing.buffer| >= |units[|units| - 1]| by {
      SplitJoin(text, Blank);
      PackParagraphsBuffer(units);
    }
    assert Cut(packing.emitted, text, bounded) by {
      SplitJoin(text, Blank);
      ParagraphsAsUnits(text, MaxChunkSize - ChunkOverlap - 2);
      PackParagraphsCut(units, bounded);
    }
    assert bounded ==> |packing.buffer| <= MaxChunkSize by {
      if bounded {
        ParagraphsAsUnits(text, MaxChunkSize - ChunkOverlap - 2);
        PackParagraphsBound(units);
      }
    }
  }

  /**
   * What `_split_by_paragraphs` leaves of a text that does not end with a
   * newline and has no paragraph too long: a non-empty suffix within the
   * limit, ending with the text's last character.
   */
  lemma ParagraphRest(b: string, rest: string)
    requires b != [] && b[|b| - 1] != '\n'
    requires ParagraphsWithin(b, MaxChunkSize - ChunkOverlap - 2)
    requires rest == ParagraphPacking(b).buffer
    ensures rest != [] && |rest| <= MaxChunkSize && IsSuffix(rest, b)
    ensures rest[|rest| - 1] == b[|b| - 1]
  {
    ParagraphPackingFacts(b);
    SplitLastPiece(b, Blank, Split(b, Blank));
    SplitLastEmpty(b, Blank, Split(b, Blank));
    assert b[|b| - |rest|..] == rest;
  }

  /**
   * Without the precondition the `while` pass makes no progress: a buffer
   * longer than the limit with no blank line comes back from
   * `_split_by_paragraphs` unchanged, and nothing is emitted.
   */
  lemma OversizedParagraphStays(t: string)
    requires |t| > MaxChunkSize && BlankFree(t)
    ensures ParagraphPacking(t) == Packing([], t)
  {
    var found := Find(t, Blank, 0);
    assert found.None?;
    assert Split(t, Blank) == [t];
    assert [t][..0] == [];
    assert PackParagraphs([]) == Packing([], []);
    assert Flushed([]) == [];
  }

  /** A text that starts with more than `n` characters free of whitespace has a stretch longer than `n`. */
  lemma LeadingStretch(p: string, rest: string, n: nat)
    requires |p| > n && forall i | 0 <= i < |p| :: !IsSpace(p[i])
    ensures !StretchesWithin(p + rest, n)
  {
    assert (p + rest)[0..|p|] == p;
    forall j: nat | j < |p| ensures !OccursAt(p, Blank, j) {
      assert !IsSpace(p[j]);
    }
    assert BlankFree((p + rest)[0..|p|]);
  }

  /**
   * Content that starts with more than `n` whitespace-free characters keeps
   * them at the front of its first section, so the sections' text has a
   * stretch longer than `n`. With `n` the bound of `ChunkDocument`, long such
   * content is outside its precondition.
   */
  lemma LeadingSectionStretch(p: string, rest: string, n: nat)
    requires |p| > n && forall i | 0 <= i < |p| :: !IsSpace(p[i])
    ensures !StretchesWithin(SectionText(p + rest), n)
  {
    var pieces := HeaderSplit(p + rest);
    FirstPieceLead(p, rest);
    StripKeepsLead(p, pieces[0]);
    var sections := Sections(pieces);
    assert sections[0] == Strip(pieces[0]);
    assert Join(sections[..1], Blank) == sections[0];
    JoinPrefix(sections, 1, Blank);
    var text := SectionText(p + rest);
    PrefixThrough(p, sections[0], text);
    LeadingStretch(p, text[|p|..], n);
  }

  /** A header break is a newline, so the first piece of the split keeps a leading whitespace-free `p`. */
  lemma FirstPieceLead(p: string, rest: string)
    requires p != [] && forall i | 0 <= i < |p| :: !IsSpace(p[i])
    ensures p <= HeaderSplit(p + rest)[0]
  {
    var w := p + rest;
    match NextHeaderBreak(w, 0)
    case None =>
    case Some(i) =>
      assert w[i] == '\n' && IsSpace('\n');
      assert forall j | 0 <= j < |p| :: !IsSpace(w[j]);
      assert |p| <= i;
      assert HeaderSplit(w)[0] == w[..i];
  }

  /** A text that ends with more than `n` characters free of blank lines has a stretch longer than `n`. */
  lemma TrailingStretch(r: string, q: string, n: nat)
    requires |q| > n && BlankFree(q)
    ensures !StretchesWithin(r + q, n)
  {
    assert (r + q)[|r|..|r| + |q|] == q;
  }

  /** A paragraph free of whitespace, a blank line and a blank-line-free text split into those two. */
  lemma SplitTwoParagraphs(p: string, q: string)
    requires forall i | 0 <= i < |p| :: !IsSpace(p[i])
    requires BlankFree(q)
    ensures Split(p + Blank + q, Blank) == [p, q]
  {
    var t := p + Blank + q;
    assert OccursAt(t, Blank, |p|) by { assert t[|p|..|p| + 2] == Blank; }
    forall j: nat | j < |p| ensures !OccursAt(t, Blank, j) {
      assert t[j..j + 2][0] == p[j] && !IsSpace(p[j]) && IsSpace(Blank[0]);
    }
    FindLeftmost(t, Blank, 0);
    assert Find(t, Blank, 0) == Some(|p|);
    assert t[..|p|] == p && t[|p| + 2..] == q;
    assert Find(q, Blank, 0).None?;
    assert Split(q, Blank) == [q];
  }

  /**
   * A paragraph over the limit is emitted whole when another paragraph
   * follows it: `p + "\n\n" + q`, with `p` free of whitespace, gives the
   * single chunk `p`, longer than `MaxChunkSize`, and leaves the overlap of
   * `p`, a blank line and `q`, which is within the limit.
   * `LeadingSectionStretch` shows such text breaks the stretch condition
   * `ChunkDocument` requires.
   */
  lemma OversizedParagraphEmitted(p: string, q: string)
    requires |p| > MaxChunkSize && forall i | 0 <= i < |p| :: !IsSpace(p[i])
    requires BlankFree(q) && |q| <= MaxChunkSize - ChunkOverlap - 2
    ensures ParagraphPacking(p + Blank + q) == Packing([p], Tail(p, ChunkOverlap) + Blank + q)
    ensures |ParagraphPacking(p + Blank + q).buffer| <= MaxChunkSize
  {
    SplitTwoParagraphs(p, q);
    PackOversizedPair(p, q);
    assert Flushed(p) == [p] by {
      StripWithoutSpace(p);
    }
  }

  /** A first paragraph over the limit flushes the empty buffer, which emits nothing, and becomes the buffer. */
  lemma PackOversizedFirst(p: string)
    requires |p| > MaxChunkSize
    ensures PackParagraphs([p]) == Packing([], p)
  {
    assert [p][..0] == [];
    assert PackParagraphs([]) == Packing([], []);
    assert PackParagraphs([p]) == PackStep(Packing([], []), p, ParagraphOverflow([], p));
    assert Flushed([]) == [] && Carry([], p, true) == p;
  }

  /** The paragraph after one over the limit flushes it and starts from its overlap. */
  lemma PackOversizedPair(p: string, q: string)
    requires |p| > MaxChunkSize
    ensures PackParagraphs([p, q]) == Packing(Flushed(p), Tail(p, ChunkOverlap) + Blank + q)
  {
    PackOversizedFirst(p);
    assert [p, q][..1] == [p];
    assert PackParagraphs([p, q]) == PackStep(Packing([], p), q, ParagraphOverflow(p, q));
    assert ParagraphOverflow(p, q);
    assert Carry(p, q, true) == Tail(p, ChunkOverlap) + Blank + q;
  }

  /**
   * The other buffer the `while` pass never shortens: a whitespace-free
   * overlap `t` within `ChunkOverlap`, a blank line and a blank-line-free
   * paragraph `p`, together over the limit. `_split_by_paragraphs` emits `t`
   * and gives the same buffer back, so every pass adds the chunk `t` again.
   */
  lemma OverlapFixpoint(t: string, p: string)
    requires 0 < |t| <= ChunkOverlap && forall i | 0 <= i < |t| :: !IsSpace(t[i])
    requires BlankFree(p) && |t| + |p| + 2 > MaxChunkSize
    ensures ParagraphPacking(t + Blank + p) == Packing([t], t + Blank + p)
  {
    SplitTwoParagraphs(t, p);
    PackShortPair(t, p);
    assert Flushed(t) == [t] by {
      StripWithoutSpace(t);
    }
  }

  /** A first paragraph within the overlap stays in the buffer; the next one flushes it and keeps all of it. */
  lemma PackShortPair(t: string, p: string)
    requires 0 < |t| <= ChunkOverlap && |t| + |p| + 2 > MaxChunkSize
    ensures PackParagraphs([t, p]) == Packing(Flushed(t), t + Blank + p)
  {
    PackShortFirst(t);
    assert [t, p][..1] == [t];
    assert PackParagraphs([t, p]) == PackStep(Packing([], t), p, ParagraphOverflow(t, p));
    assert Tail(t, ChunkOverlap) == t by {
      assert t[|t| - |t|..] == t;
    }
    assert Carry(t, p, true) == t + Blank + p;
  }

  /** A first paragraph that leaves room for a blank line is the whole buffer, with nothing emitted. */
  lemma PackShortFirst(t: string)
    requires |t| + 2 <= MaxChunkSize
    ensures PackParagraphs([t]) == Packing([], t)
  {
    assert [t][..0] == [];
    assert PackParagraphs([]) == Packing([], []);
    assert PackParagraphs([t]) == PackStep(Packing([], []), t, ParagraphOverflow([], t));
    assert !ParagraphOverflow([], t) && Extend([], t) == t;
  }

  /**
   * How the section loop reaches that buffer: a whitespace-free first section
   * within the limit, then a blank-line-free section that passes the limit
   * with it and with its overlap and a blank line. The first section is emitted, the buffer is
   * the overlap, a blank line and the second section, longer than the limit,
   * and `_split_by_paragraphs` hands it back unchanged. The joined sections
   * break the stretch bound `ChunkDocument` requires.
   */
  lemma OverlapHang(x: string, s: string)
    requires 0 < |x| <= MaxChunkSize && forall i | 0 <= i < |x| :: !IsSpace(x[i])
    requires BlankFree(s) && |x| + |s| > MaxChunkSize && |Tail(x, ChunkOverlap)| + |s| + 2 > MaxChunkSize
    ensures SectionStep([x, s]) == Packing([x], Tail(x, ChunkOverlap) + Blank + s)
    ensures |SectionStep([x, s]).buffer| > MaxChunkSize
    ensures ParagraphPacking(SectionStep([x, s]).buffer) == Packing([Tail(x, ChunkOverlap)], SectionStep([x, s]).buffer)
    ensures !StretchesWithin(Join([x, s], Blank), MaxChunkSize - ChunkOverlap - 2)
  {
    var t := Tail(x, ChunkOverlap);
    PackFirstSection(x);
    assert [x, s][..1] == [x];
    assert SectionStep([x, s]) == PackStep(Packing([], x), s, SectionOverflow(x, s));
    assert SectionOverflow(x, s);
    assert Flushed(x) == [x] by {
      StripWithoutSpace(x);
    }
    assert forall i | 0 <= i < |t| :: !IsSpace(t[i]) by {
      forall i | 0 <= i < |t| ensures t[i] == x[|x| - |t| + i] {
        assert t == x[|x| - |t|..];
      }
    }
    OverlapFixpoint(t, s);
    assert Join([x, s], Blank) == x + Blank + s by {
      JoinCons(x, [s], Blank);
    }
    TrailingStretch(x + Blank, s, MaxChunkSize - ChunkOverlap - 2);
  }

  /** A first section within the limit is the buffer the loop starts the next section with. */
  lemma PackFirstSection(x: string)
    requires |x| <= MaxChunkSize
    ensures PackSections([x]) == Packing([], x)
  {
    assert [x][..0] == [];
    assert PackSections([]) == Packing([], []);
    assert SectionStep([x]) == PackStep(Packing([], []), x, SectionOverflow([], x));
    assert !SectionOverflow([], x) && Extend([], x) == x;
  }

  /**
   * A too-long buffer cut from a text whose blank-line-free stretches are short
   * enough is broken by a single pass of `_split_by_paragraphs`: what is left
   * fits, still ends the buffer, and ends with the same character.
   */
  lemma SettleBuffer(state: Packing, source: string)
    requires state.buffer != [] && state.buffer[|state.buffer| - 1] != '\n'
    requires IsSubstring(state.buffer, source) && StretchesWithin(source, MaxChunkSize - ChunkOverlap - 2)
    ensures |state.buffer| > MaxChunkSize ==> |ParagraphPacking(state.buffer).buffer| <= MaxChunkSize
    ensures Settle(state).buffer != [] && |Settle(state).buffer| <= MaxChunkSize
    ensures IsSuffix(Settle(state).buffer, state.buffer)
    ensures Settle(state).buffer[|Settle(state).buffer| - 1] == state.buffer[|state.buffer| - 1]
  {
    var b := state.buffer;
    if |b| > MaxChunkSize {
      var limit := MaxChunkSize - ChunkOverlap - 2;
      StretchesOfSubstring(b, source, limit);
      ParagraphsOfStretches(b, limit);
      ParagraphRest(b, Settle(state).buffer);
    } else {
      assert b[|b| - |b|..] == b;
    }
  }

  /** What the `while` pass emits is cut from the buffer, so from any text holding it. */
  lemma SettleCut(state: Packing, source: string)
    requires Cut(state.emitted, source, true)
    requires IsSubstring(state.buffer, source) && StretchesWithin(source, MaxChunkSize - ChunkOverlap - 2)
    ensures Cut(Settle(state).emitted, source, true)
  {
    var b := state.buffer;
    if |b| > MaxChunkSize {
      var limit := MaxChunkSize - ChunkOverlap - 2;
      StretchesOfSubstring(b, source, limit);
      ParagraphsOfStretches(b, limit);
      ParagraphPackingFacts(b);
      CutWiden(ParagraphPacking(b).emitted, b, source, true);
      CutAppend(state.emitted, ParagraphPacking(b).emitted, source, true);
    }
  }

  /** The joined sections up to the last one, and the last one, make the whole join. */
  lemma JoinLast(sections: seq<string>)
    requires sections != []
    ensures
      var init := sections[..|sections| - 1];
      var last := sections[|sections| - 1];
      && Join(init, Blank) <= Join(sections, Blank)
      && (init == [] ==> Join(sections, Blank) == last)
      && (init != [] ==> Join(sections, Blank) == Join(init, Blank) + Blank + last)
  {
    var init := sections[..|sections| - 1];
    var last := sections[|sections| - 1];
    assert sections == init + [last];
    if init != [] {
      JoinAppend(init, last, Blank);
    }
  }

  /**
   * The section loop, for sections whose joined text has no blank-line-free
   * stretch longer than the limit less the overlap and the blank line: after
   * each section the buffer is non-empty, fits, ends the joined sections and
   * ends with the last section's last character.
   */
  lemma {:induction false} PackSectionsBuffer(sections: seq<string>)
    requires SectionLike(sections)
    requires StretchesWithin(Join(sections, Blank), MaxChunkSize - ChunkOverlap - 2)
    ensures sections == [] ==> PackSections(sections) == Packing([], [])
    ensures sections != [] ==>
      var buffer := PackSections(sections).buffer;
      var last := sections[|sections| - 1];
      && buffer != [] && |buffer| <= MaxChunkSize
      && IsSuffix(buffer, Join(sections, Blank))
      && buffer[|buffer| - 1] == last[|last| - 1]
    decreases |sections|, 2
  {
    if sections != [] {
      var whole := Join(sections, Blank);
      var stepped := SectionStep(sections);
      SectionStepBuffer(sections);
      SuffixIsSubstring(stepped.buffer, whole);
      SettleBuffer(stepped, whole);
      SuffixTransitive(Settle(stepped).buffer, stepped.buffer, whole);
    }
  }

  /**
   * The buffer after a section is packed ends the joined sections so far and
   * ends with the section's last character.
   */
  lemma CarryEnds(buffer: string, last: string, overflow: bool, done: string, whole: string, next: string)
    requires IsSuffix(buffer, done)
    requires last != [] && IsStripped(last)
    requires (buffer == [] && whole == last) || whole == done + Blank + last
    requires next == Carry(buffer, last, overflow)
    ensures next != [] && IsSuffix(next, whole)
    ensures next[|next| - 1] == last[|last| - 1] && next[|next| - 1] != '\n'
  {
    if buffer == [] && whole == last {
      CarryFacts(buffer, last, overflow, []);
      assert whole[|whole| - |whole|..] == whole;
    } else {
      CarryFacts(buffer, last, overflow, done);
    }
    assert next[|next| - |last|..] == last;
    assert next[|next| - 1] == last[|last| - 1];
    assert !IsSpace(last[|last| - 1]);
  }

  /**
   * The state the earlier sections leave: its buffer ends their join, and the
   * join of all sections is that join, a blank line and the last section (just
   * the last section when there is nothing before it).
   */
  lemma {:induction false} SectionStepBefore(sections: seq<string>)
    requires sections != [] && SectionLike(sections)
    requires StretchesWithin(Join(sections, Blank), MaxChunkSize - ChunkOverlap - 2)
    ensures
      var init := sections[..|sections| - 1];
      var last := sections[|sections| - 1];
      var buffer := PackSections(init).buffer;
      && IsSuffix(buffer, Join(init, Blank))
      && ((buffer == [] && Join(sections, Blank) == last) || Join(sections, Blank) == Join(init, Blank) + Blank + last)
    decreases |sections|, 0
  {
    var init := sections[..|sections| - 1];
    var whole := Join(sections, Blank);
    var done := Join(init, Blank);
    JoinLast(sections);
    PrefixIsSubstring(done, whole);
    StretchesOfSubstring(done, whole, MaxChunkSize - ChunkOverlap - 2);
    assert SectionLike(init) by {
      forall k | 0 <= k < |init| ensures init[k] == sections[k] {
      }
    }
    PackSectionsBuffer(init);
  }

  /**
   * Before the `while` pass the buffer ends the joined sections and ends with
   * the last section's last character, which is not whitespace.
   */
  lemma {:induction false} SectionStepBuffer(sections: seq<string>)
    requires sections != [] && SectionLike(sections)
    requires StretchesWithin(Join(sections, Blank), MaxChunkSize - ChunkOverlap - 2)
    ensures
      var buffer := SectionStep(sections).buffer;
      var last := sections[|sections| - 1];
      && buffer != [] && IsSuffix(buffer, Join(sections, Blank))
      && buffer[|buffer| - 1] == last[|last| - 1] && buffer[|buffer| - 1] != '\n'
    decreases |sections|, 1
  {
    var init := sections[..|sections| - 1];
    var last := sections[|sections| - 1];
    var whole := Join(sections, Blank);
    var next := SectionStep(sections).buffer;
    assert next != [] && IsSuffix(next, whole) && next[|next| - 1] == last[|last| - 1] && next[|next| - 1] != '\n' by {
      var state := PackSections(init);
      var overflow := SectionOverflow(state.buffer, last);
      SectionStepBefore(sections);
      assert next == Carry(state.buffer, last, overflow);
      CarryEnds(state.buffer, last, overflow, Join(init, Blank), whole, next);
    }
  }

  /** So a single `while` pass always leaves a buffer within the limit. */
  lemma SectionStepSettles(sections: seq<string>)
    requires sections != [] && SectionLike(sections)
    requires StretchesWithin(Join(sections, Blank), MaxChunkSize - ChunkOverlap - 2)
    ensures |SectionStep(sections).buffer| > MaxChunkSize ==> |ParagraphPacking(SectionStep(sections).buffer).buffer| <= MaxChunkSize
  {
    SectionStepBuffer(sections);
    SuffixIsSubstring(SectionStep(sections).buffer, Join(sections, Blank));
    SettleBuffer(SectionStep(sections), Join(sections, Blank));
  }

  /** Every text the section loop emits is a chunk text cut from the joined sections. */
  lemma {:induction false} PackSectionsCut(sections: seq<string>)
    requires SectionLike(sections)
    requires StretchesWithin(Join(sections, Blank), MaxChunkSize - ChunkOverlap - 2)
    ensures Cut(PackSections(sections).emitted, Join(sections, Blank), true)
    decreases |sections|
  {
    if sections != [] {
      var init := sections[..|sections| - 1];
      var last := sections[|sections| - 1];
      var whole := Join(sections, Blank);
      var done := Join(init, Blank);
      var limit := MaxChunkSize - ChunkOverlap - 2;
      JoinLast(sections);
      PrefixIsSubstring(done, whole);
      StretchesOfSubstring(done, whole, limit);
      assert SectionLike(init) by {
        forall k | 0 <= k < |init| ensures init[k] == sections[k] {
        }
      }
      PackSectionsCut(init);
      PackSectionsBuffer(init);
      var state := PackSections(init);
      var overflow := SectionOverflow(state.buffer, last);
      var stepped := SectionStep(sections);
      assert stepped == PackStep(state, last, overflow);
      CutWiden(state.emitted, done, whole, true);
      if init == [] {
        assert IsSubstring(state.buffer, whole) by {
          assert whole[0..0] == [];
        }
        CarryFacts(state.buffer, last, overflow, []);
        assert stepped.buffer == whole;
        assert whole[|whole| - |whole|..] == whole;
      } else {
        SuffixIsSubstring(state.buffer, done);
        SubstringTransitive(state.buffer, done, whole);
        CarryFacts(state.buffer, last, overflow, done);
      }
      StepCut(state, last, overflow, whole, true);
      SuffixIsSubstring(stepped.buffer, whole);
      SettleCut(stepped, whole);
    }
  }

  /**
   * For content whose sections' text has no blank-line-free stretch longer
   * than the limit less the overlap and a blank line: every chunk text is
   * non-empty, stripped, at most `MaxChunkSize` long and cut from the sections'
   * text, and there is none exactly when the content is all whitespace.
   */
  lemma ChunkTextsFacts(content: string)
    requires StretchesWithin(SectionText(content), MaxChunkSize - ChunkOverlap - 2)
    ensures Cut(ChunkTexts(content), SectionText(content), true)
    ensures ChunkTexts(content) == [] <==> AllSpace(content)
  {
    var sections := Sections(HeaderSplit(content));
    var whole := SectionText(content);
    var state := PackSections(sections);
    assert ChunkTexts(content) == state.emitted + Flushed(state.buffer);
    assert Cut(state.emitted, whole, true) by {
      PackSectionsCut(sections);
    }
    if sections != [] {
      assert Cut(Flushed(state.buffer), whole, true) && Flushed(state.buffer) != [] by {
        PackSectionsBuffer(sections);
        assert !IsSpace(state.buffer[|state.buffer| - 1]);
        SuffixIsSubstring(state.buffer, whole);
        FlushedCut(state.buffer, whole, true);
      }
      CutAppend(state.emitted, Flushed(state.buffer), whole, true);
    }
    NoSectionsIffBlank(content);
  }

  /** Every section is a stretch of the content, so it inherits the content's stretch bound. */
  lemma SectionsOfContent(content: string, n: nat)
    requires StretchesWithin(content, n)
    ensures forall i | 0 <= i < |Sections(HeaderSplit(content))| :: StretchesWithin(Sections(HeaderSplit(content))[i], n)
  {
    var pieces := HeaderSplit(content);
    HeaderSplitJoin(content);
    forall p | p in pieces ensures IsSubstring(p, content) {
      var k :| 0 <= k < |pieces| && pieces[k] == p;
      JoinPartIsSubstring(pieces, k, "\n");
    }
    SectionsWithin(pieces, content);
    forall i | 0 <= i < |Sections(pieces)| ensures StretchesWithin(Sections(pieces)[i], n) {
      assert Sections(pieces)[i] in Sections(pieces);
      StretchesOfSubstring(Sections(pieces)[i], content, n);
    }
  }

  /**
   * A bound on the content's blank-line-free stretches bounds those of the
   * sections' text, with room for the two newlines a join adds around a
   * section.
   */
  lemma ContentStretchesSuffice(content: string)
    requires StretchesWithin(content, MaxChunkSize - ChunkOverlap - 4)
    ensures StretchesWithin(SectionText(content), MaxChunkSize - ChunkOverlap - 2)
  {
    SectionsOfContent(content, MaxChunkSize - ChunkOverlap - 4);
    StretchesOfJoin(Sections(HeaderSplit(content)), MaxChunkSize - ChunkOverlap - 4);
  }

  /** All-whitespace content has no sections, so it meets the stretch bound whatever its length. */
  lemma BlankContentStretches(content: string)
    requires AllSpace(content)
    ensures SectionText(content) == []
    ensures StretchesWithin(SectionText(content), MaxChunkSize - ChunkOverlap - 2)
  {
    NoSectionsIffBlank(content);
  }

  /** There are no sections exactly when the content is all whitespace. */
  lemma NoSectionsIffBlank(content: string)
    ensures Sections(HeaderSplit(content)) == [] <==> AllSpace(content)
  {
    var pieces := HeaderSplit(content);
    HeaderSplitJoin(content);
    SectionsEmpty(pieces);
    JoinAllSpace(pieces, "\n");
  }

  // ---------------------------------------------------------------------------
  // The chunk list
  // ---------------------------------------------------------------------------

  /**
   * `items` are the chunks of `texts`, in order and numbered from 0, each with
   * a metadata dictionary of its own that holds the caller's entries and the
   * chunk's index, with `total_chunks` still `None`.
   */
  ghost predicate Run(items: seq<Chunk>, docId: string, base: map<string, Value>, texts: seq<string>)
    reads set j | 0 <= j < |items| :: items[j].metadata
  {
    && |texts| == |items|
    && (forall j | 0 <= j < |items| ::
      && items[j].content == texts[j]
      && items[j].id == ChunkId(docId, j)
      && items[j].metadata.entries == WithPosition(base, j, NoneValue))
    && (forall i, j | 0 <= i < j < |items| :: items[i].metadata != items[j].metadata)
  }

  /** A chunk for the next text, with a dictionary of its own, extends a run. */
  lemma RunExtend(items: seq<Chunk>, docId: string, base: map<string, Value>, texts: seq<string>, c: Chunk)
    requires Run(items, docId, base, texts)
    requires c.id == ChunkId(docId, |texts|)
    requires c.metadata.entries == WithPosition(base, |texts|, NoneValue)
    requires forall j | 0 <= j < |items| :: items[j].metadata != c.metadata
    ensures Run(items + [c], docId, base, texts + [c.content])
  {
    var all := items + [c];
    var more := texts + [c.content];
    forall j | 0 <= j < |all|
      ensures all[j].content == more[j] && all[j].id == ChunkId(docId, j)
      ensures all[j].metadata.entries == WithPosition(base, j, NoneValue)
    {
      if j < |items| {
        assert all[j] == items[j];
      }
    }
  }

  /**
   * `chunks.append(self._create_chunk(...))`: the chunk of the next text, with
   * a dictionary of its own, extends the run.
   */
  method AddChunk(chunks: ChunkList, docId: string, content: string, metadata: Metadata, index: nat,
                  ghost texts: seq<string>)
    returns (c: Chunk)
    requires Run(chunks.items, docId, metadata.entries, texts) && index == |texts|
    modifies chunks
    ensures chunks.items == old(chunks.items) + [c] && fresh(c.metadata)
    ensures Run(chunks.items, docId, metadata.entries, texts + [content])
  {
    ghost var items := chunks.items;
    c := CreateChunk(docId, content, metadata, index);
    forall j | 0 <= j < |items| ensures items[j].metadata != c.metadata {
      assert old(allocated(items[j].metadata));
    }
    RunExtend(items, docId, metadata.entries, texts, c);
    chunks.Append(c);
  }

  /**
   * The shared "finalize the buffer" step (document_chunker.py:51-55, 78-81,
   * 124-128): the stripped buffer becomes the next chunk unless it is empty.
   * The ghost parameters name the run of chunks the caller is building.
   */
  method EmitIfNonBlank(buffer: string, docId: string, metadata: Metadata, chunks: ChunkList, index: nat,
                        ghost texts: seq<string>)
    returns (next: nat)
    requires Run(chunks.items, docId, metadata.entries, texts) && index == |texts|
    modifies chunks
    ensures |old(chunks.items)| <= |chunks.items| && chunks.items[..|old(chunks.items)|] == old(chunks.items)
    ensures forall j | |old(chunks.items)| <= j < |chunks.items| :: fresh(chunks.items[j].metadata)
    ensures Run(chunks.items, docId, metadata.entries, texts + Flushed(buffer))
    ensures next == |chunks.items|
  {
    var stripped := Strip(buffer);
    next := index;
    if stripped != [] {
      next := EmitText(stripped, docId, metadata, chunks, index, texts);
      assert Flushed(buffer) == [stripped];
    } else {
      assert texts + Flushed(buffer) == texts;
    }
  }

  /** The imperative `PackStep`: flush or extend, appending to the chunk list. */
  method PackUnit(buffer: string, unit: string, overflow: bool,
                  docId: string, metadata: Metadata, chunks: ChunkList, index: nat,
                  ghost texts: seq<string>)
    returns (next: string, nextIndex: nat)
    requires Run(chunks.items, docId, metadata.entries, texts) && index == |texts|
    modifies chunks
    ensures |old(chunks.items)| <= |chunks.items| && chunks.items[..|old(chunks.items)|] == old(chunks.items)
    ensures forall j | |old(chunks.items)| <= j < |chunks.items| :: fresh(chunks.items[j].metadata)
    ensures Run(chunks.items, docId, metadata.entries, PackStep(Packing(texts, buffer), unit, overflow).emitted)
    ensures next == PackStep(Packing(texts, buffer), unit, overflow).buffer
    ensures nextIndex == |PackStep(Packing(texts, buffer), unit, overflow).emitted|
  {
    ghost var stepped := PackStep(Packing(texts, buffer), unit, overflow);
    assert stepped.buffer == Carry(buffer, unit, overflow);
    nextIndex := index;
    if overflow {
      assert stepped.emitted == texts + Flushed(buffer);
      nextIndex := EmitIfNonBlank(buffer, docId, metadata, chunks, index, texts);
      if ChunkOverlap > 0 && buffer != [] {
        var overlapText := Tail(buffer, ChunkOverlap);
        next := overlapText + Blank + unit;
      } else {
        next := unit;
      }
    } else {
      assert stepped.emitted == texts;
      assert chunks.items[..|chunks.items|] == chunks.items;
      if buffer != [] {
        next := buffer + Blank + unit;
      } else {
        next := unit;
      }
    }
  }

  /** A step after earlier texts emits what it emits on its own, after them. */
  lemma PackStepAfter(texts: seq<string>, state: Packing, unit: string, overflow: bool)
    ensures PackStep(Packing(texts + state.emitted, state.buffer), unit, overflow).emitted
      == texts + PackStep(state, unit, overflow).emitted
    ensures PackStep(Packing(texts + state.emitted, state.buffer), unit, overflow).buffer
      == PackStep(state, unit, overflow).buffer
  {
    var flushed := if overflow then Flushed(state.buffer) else [];
    FlushAfter(texts, state.emitted, flushed);
  }

  /** Texts emitted after earlier ones: concatenation regroups. */
  lemma FlushAfter(texts: seq<string>, emitted: seq<string>, flushed: seq<string>)
    ensures texts + emitted + flushed == texts + (emitted + flushed)
  {
  }

  // ---------------------------------------------------------------------------
  // _split_by_paragraphs
  // ---------------------------------------------------------------------------

  /** One more paragraph, after earlier texts: the step the paragraph loop takes. */
  lemma ParagraphLoopStep(texts: seq<string>, paragraphs: seq<string>, p: nat)
    requires p < |paragraphs|
    ensures
      var state := PackParagraphs(paragraphs[..p]);
      var next := PackParagraphs(paragraphs[..p + 1]);
      PackStep(Packing(texts + state.emitted, state.buffer), paragraphs[p], ParagraphOverflow(state.buffer, paragraphs[p]))
        == Packing(texts + next.emitted, next.buffer)
  {
    var state := PackParagraphs(paragraphs[..p]);
    var overflow := ParagraphOverflow(state.buffer, paragraphs[p]);
    assert paragraphs[..p + 1][..p] == paragraphs[..p];
    assert PackParagraphs(paragraphs[..p + 1]) == PackStep(state, paragraphs[p], overflow);
    PackStepAfter(texts, state, paragraphs[p], overflow);
  }

  /**
   * One pass of the paragraph loop (document_chunker.py:121-140): packs
   * paragraph `p` onto the buffer left by the paragraphs before it.
   */
  method PackParagraph(paragraphs: seq<string>, p: nat, buffer: string,
                       docId: string, metadata: Metadata, chunks: ChunkList, index: nat,
                       ghost texts: seq<string>)
    returns (next: string, nextIndex: nat)
    requires p < |paragraphs|
    requires Run(chunks.items, docId, metadata.entries, texts + PackParagraphs(paragraphs[..p]).emitted)
    requires buffer == PackParagraphs(paragraphs[..p]).buffer
    requires index == |texts + PackParagraphs(paragraphs[..p]).emitted|
    modifies chunks
    ensures |old(chunks.items)| <= |chunks.items| && chunks.items[..|old(chunks.items)|] == old(chunks.items)
    ensures forall j | |old(chunks.items)| <= j < |chunks.items| :: fresh(chunks.items[j].metadata)
    ensures Run(chunks.items, docId, metadata.entries, texts + PackParagraphs(paragraphs[..p + 1]).emitted)
    ensures next == PackParagraphs(paragraphs[..p + 1]).buffer
    ensures nextIndex == |texts + PackParagraphs(paragraphs[..p + 1]).emitted|
  {
    var overflow := |buffer| + |paragraphs[p]| + 2 > MaxChunkSize;
    ParagraphLoopStep(texts, paragraphs, p);
    next, nextIndex := PackUnit(buffer, paragraphs[p], overflow,
                                docId, metadata, chunks, index, texts + PackParagraphs(paragraphs[..p]).emitted);
  }

  /**
   * `_split_by_paragraphs`: packs the paragraphs of `text`, appends the chunks
   * it flushes to `chunks` numbered on from `chunkIndex`, and returns the last
   * buffer; both are as `ParagraphPacking` says.
   */
  method SplitByParagraphs(text: string, docId: string, metadata: Metadata, chunks: ChunkList, chunkIndex: nat,
                           ghost texts: seq<string>)
    returns (rest: string)
    requires Run(chunks.items, docId, metadata.entries, texts) && chunkIndex == |texts|
    modifies chunks
    ensures |old(chunks.items)| <= |chunks.items| && chunks.items[..|old(chunks.items)|] == old(chunks.items)
    ensures forall j | |old(chunks.items)| <= j < |chunks.items| :: fresh(chunks.items[j].metadata)
    ensures Run(chunks.items, docId, metadata.entries, texts + ParagraphPacking(text).emitted)
    ensures rest == ParagraphPacking(text).buffer
  {
    var paragraphs := Split(text, Blank);
    var tempChunk := "";
    var index := chunkIndex;
    assert texts + PackParagraphs(paragraphs[..0]).emitted == texts;
    for p := 0 to |paragraphs|
      invariant |old(chunks.items)| <= |chunks.items| && chunks.items[..|old(chunks.items)|] == old(chunks.items)
      invariant forall j | |old(chunks.items)| <= j < |chunks.items| :: fresh(chunks.items[j].metadata)
      invariant Run(chunks.items, docId, metadata.entries, texts + PackParagraphs(paragraphs[..p]).emitted)
      invariant tempChunk == PackParagraphs(paragraphs[..p]).buffer
      invariant index == |texts + PackParagraphs(paragraphs[..p]).emitted|
    {
      ghost var items := chunks.items;
      tempChunk, index := PackParagraph(paragraphs, p, tempChunk, docId, metadata, chunks, index, texts);
      PrefixCompose(old(chunks.items), items, chunks.items);
      forall j | |old(chunks.items)| <= j < |items| ensures chunks.items[j] == items[j] {
        assert chunks.items[..|items|][j] == chunks.items[j];
      }
    }
    assert paragraphs[..|paragraphs|] == paragraphs;
    rest := tempChunk;
  }

  // ---------------------------------------------------------------------------
  // chunk_document
  // ---------------------------------------------------------------------------

  /**
   * One pass of the `while` loop at document_chunker.py:71-75 on a buffer that
   * is too long: the chunks appended and the buffer left are those of `Settle`.
   */
  method SettlePass(buffer: string, docId: string, metadata: Metadata, chunks: ChunkList, chunkIndex: nat,
                    ghost state: Packing)
    returns (next: string, nextIndex: nat)
    requires Run(chunks.items, docId, metadata.entries, state.emitted) && chunkIndex == |state.emitted|
    requires buffer == state.buffer && |buffer| > MaxChunkSize
    modifies chunks
    ensures |old(chunks.items)| <= |chunks.items| && chunks.items[..|old(chunks.items)|] == old(chunks.items)
    ensures forall j | |old(chunks.items)| <= j < |chunks.items| :: fresh(chunks.items[j].metadata)
    ensures Run(chunks.items, docId, metadata.entries, Settle(state).emitted) && next == Settle(state).buffer
    ensures nextIndex == |chunks.items|
  {
    next := SplitByParagraphs(buffer, docId, metadata, chunks, chunkIndex, state.emitted);
    nextIndex := |chunks.items|;
  }

  /**
   * The `while` loop at document_chunker.py:71-75: the buffer is broken at
   * blank lines while it is too long. Given that one pass leaves it within the
   * limit, the chunks appended and the buffer left are those of `Settle`.
   */
  method SettleLoop(buffer: string, docId: string, metadata: Metadata, chunks: ChunkList, chunkIndex: nat,
                    ghost state: Packing)
    returns (next: string, nextIndex: nat)
    requires Run(chunks.items, docId, metadata.entries, state.emitted) && chunkIndex == |state.emitted|
    requires buffer == state.buffer
    requires |state.buffer| > MaxChunkSize ==> |ParagraphPacking(state.buffer).buffer| <= MaxChunkSize
    modifies chunks
    ensures |old(chunks.items)| <= |chunks.items| && chunks.items[..|old(chunks.items)|] == old(chunks.items)
    ensures forall j | |old(chunks.items)| <= j < |chunks.items| :: fresh(chunks.items[j].metadata)
    ensures Run(chunks.items, docId, metadata.entries, Settle(state).emitted) && next == Settle(state).buffer
    ensures nextIndex == |chunks.items|
  {
    next, nextIndex := buffer, chunkIndex;
    ghost var current := state;
    while |next| > MaxChunkSize
      invariant |old(chunks.items)| <= |chunks.items| && chunks.items[..|old(chunks.items)|] == old(chunks.items)
      invariant forall j | |old(chunks.items)| <= j < |chunks.items| :: fresh(chunks.items[j].metadata)
      invariant Run(chunks.items, docId, metadata.entries, current.emitted) && next == current.buffer
      invariant nextIndex == |chunks.items|
      invariant current == state || (current == Settle(state) && |current.buffer| <= MaxChunkSize)
      decreases |next|
    {
      next, nextIndex := SettlePass(next, docId, metadata, chunks, nextIndex, state);
      current := Settle(state);
    }
  }

  /**
   * The body of the loop over sections (document_chunker.py:49-75): flush or
   * extend, then break the buffer at blank lines while it is too long. The
   * precondition that one pass suffices is what `SectionStepSettles` proves.
   */
  method AddSection(current: string, section: string, docId: string, metadata: Metadata,
                    chunks: ChunkList, chunkIndex: nat, ghost texts: seq<string>)
    returns (next: string, nextIndex: nat)
    requires Run(chunks.items, docId, metadata.entries, texts) && chunkIndex == |texts|
    requires
      var stepped := PackStep(Packing(texts, current), section, SectionOverflow(current, section));
      |stepped.buffer| > MaxChunkSize ==> |ParagraphPacking(stepped.buffer).buffer| <= MaxChunkSize
    modifies chunks
    ensures |old(chunks.items)| <= |chunks.items| && chunks.items[..|old(chunks.items)|] == old(chunks.items)
    ensures forall j | |old(chunks.items)| <= j < |chunks.items| :: fresh(chunks.items[j].metadata)
    ensures
      var settled := Settle(PackStep(Packing(texts, current), section, SectionOverflow(current, section)));
      && Run(chunks.items, docId, metadata.entries, settled.emitted)
      && next == settled.buffer
      && nextIndex == |chunks.items|
  {
    ghost var stepped := PackStep(Packing(texts, current), section, SectionOverflow(current, section));
    next, nextIndex := PackUnit(current, section, SectionOverflow(current, section),
                                docId, metadata, chunks, chunkIndex, texts);
    ghost var items := chunks.items;
    next, nextIndex := SettleLoop(next, docId, metadata, chunks, nextIndex, stepped);
    forall j | |old(chunks.items)| <= j < |chunks.items| ensures fresh(chunks.items[j].metadata) {
      if j < |items| {
        assert chunks.items[j] == items[j];
      }
    }
    PrefixCompose(old(chunks.items), items, chunks.items);
  }

  /** Appends one chunk for `text` and returns the next chunk index. */
  method EmitText(text: string, docId: string, metadata: Metadata, chunks: ChunkList, index: nat,
                  ghost texts: seq<string>)
    returns (next: nat)
    requires Run(chunks.items, docId, metadata.entries, texts) && index == |texts|
    modifies chunks
    ensures |old(chunks.items)| <= |chunks.items| && chunks.items[..|old(chunks.items)|] == old(chunks.items)
    ensures forall j | |old(chunks.items)| <= j < |chunks.items| :: fresh(chunks.items[j].metadata)
    ensures Run(chunks.items, docId, metadata.entries, texts + [text])
    ensures next == |chunks.items|
  {
    ghost var items := chunks.items;
    var c := AddChunk(chunks, docId, text, metadata, index, texts);
    PrefixOfAppend(items, c);
    next := index + 1;
  }

  /** Appending one chunk keeps what was there as a prefix. */
  lemma PrefixOfAppend(a: seq<Chunk>, c: Chunk)
    ensures (a + [c])[..|a|] == a
  {
  }

  /** A prefix of a prefix is a prefix. */
  lemma PrefixCompose(a: seq<Chunk>, b: seq<Chunk>, c: seq<Chunk>)
    requires |a| <= |b| && b[..|a|] == a
    requires |b| <= |c| && c[..|b|] == b
    ensures |a| <= |c| && c[..|a|] == a
  {
    assert c[..|a|] == c[..|b|][..|a|];
  }

  /**
   * One turn of the section loop: a single `while` pass suffices, and the
   * state it leaves is the packing of one more section.
   */
  lemma SectionPrefixStep(sections: seq<string>, k: nat)
    requires k < |sections| && SectionLike(sections)
    requires StretchesWithin(Join(sections, Blank), MaxChunkSize - ChunkOverlap - 2)
    ensures
      var state := PackSections(sections[..k]);
      var stepped := PackStep(state, sections[k], SectionOverflow(state.buffer, sections[k]));
      && (|stepped.buffer| > MaxChunkSize ==> |ParagraphPacking(stepped.buffer).buffer| <= MaxChunkSize)
      && Settle(stepped) == PackSections(sections[..k + 1])
  {
    var prefix := sections[..k + 1];
    assert prefix[..k] == sections[..k];
    assert prefix[k] == sections[k];
    JoinPrefix(sections, k + 1, Blank);
    PrefixIsSubstring(Join(prefix, Blank), Join(sections, Blank));
    StretchesOfSubstring(Join(prefix, Blank), Join(sections, Blank), MaxChunkSize - ChunkOverlap - 2);
    assert SectionLike(prefix) by {
      forall j | 0 <= j < |prefix| ensures prefix[j] == sections[j] {
      }
    }
    SectionStepSettles(prefix);
  }

  /** Setting `total_chunks` in a record made by `_create_chunk` gives the final record. */
  lemma FillTotal(base: map<string, Value>, index: nat, total: Value)
    ensures WithPosition(base, index, NoneValue)[TotalChunksKey := total] == WithPosition(base, index, total)
  {
  }

  /**
   * The back-fill at document_chunker.py:84-86: every chunk's dictionary gets
   * the number of chunks, which turns a run of created chunks into the result.
   */
  method FillTotals(cs: seq<Chunk>, ghost docId: string, ghost base: map<string, Value>, ghost texts: seq<string>,
                    ghost owned: set<Metadata>)
    requires Run(cs, docId, base, texts)
    requires owned == set i | 0 <= i < |cs| :: cs[i].metadata
    modifies owned
    ensures Chunked(cs, docId, base, texts)
  {
    var totalChunks := |cs|;
    for i := 0 to |cs|
      invariant forall j | 0 <= j < i :: cs[j].metadata.entries == WithPosition(base, j, IntValue(totalChunks))
      invariant forall j | i <= j < |cs| :: cs[j].metadata.entries == WithPosition(base, j, NoneValue)
    {
      var m := cs[i].metadata;
      forall j | 0 <= j < |cs| && j != i ensures cs[j].metadata != m {
        if j < i {
          assert cs[j].metadata != cs[i].metadata;
        } else {
          assert cs[i].metadata != cs[j].metadata;
        }
      }
      FillTotal(base, i, IntValue(totalChunks));
      m.entries := m.entries[TotalChunksKey := IntValue(totalChunks)];
    }
  }

  /**
   * The loop over sections and the final flush (document_chunker.py:46-81),
   * appending to a chunk list that starts empty: the chunks it creates hold
   * `PackedTexts`, in order.
   */
  method ChunkSections(sections: seq<string>, docId: string, metadata: Metadata, chunks: ChunkList)
    requires SectionLike(sections) && StretchesWithin(Join(sections, Blank), MaxChunkSize - ChunkOverlap - 2)
    requires chunks.items == []
    modifies chunks
    ensures forall j | 0 <= j < |chunks.items| :: fresh(chunks.items[j].metadata)
    ensures Run(chunks.items, docId, metadata.entries, PackedTexts(sections))
    ensures metadata.entries == old(metadata.entries)
  {
    ghost var base := metadata.entries;
    var currentChunk := "";
    var chunkIndex := 0;
    for k := 0 to |sections|
      invariant forall j | 0 <= j < |chunks.items| :: fresh(chunks.items[j].metadata)
      invariant Run(chunks.items, docId, base, PackSections(sections[..k]).emitted)
      invariant currentChunk == PackSections(sections[..k]).buffer
      invariant chunkIndex == |chunks.items|
      invariant metadata.entries == base
    {
      SectionPrefixStep(sections, k);
      ghost var items := chunks.items;
      currentChunk, chunkIndex := AddSection(currentChunk, sections[k], docId, metadata, chunks, chunkIndex,
                                             PackSections(sections[..k]).emitted);
      forall j | 0 <= j < |chunks.items| ensures fresh(chunks.items[j].metadata) {
        if j < |items| {
          assert chunks.items[j] == items[j];
        }
      }
    }
    assert sections[..|sections|] == sections;
    ghost var items := chunks.items;
    chunkIndex := EmitIfNonBlank(currentChunk, docId, metadata, chunks, chunkIndex, PackSections(sections).emitted);
    forall j | 0 <= j < |chunks.items| ensures fresh(chunks.items[j].metadata) {
      if j < |items| {
        assert chunks.items[j] == items[j];
      }
    }
  }

  /** The result of the multi-chunk path, after the back-fill of `total_chunks`. */
  ghost predicate Chunked(cs: seq<Chunk>, docId: string, base: map<string, Value>, texts: seq<string>)
    reads set i | 0 <= i < |cs| :: cs[i].metadata
  {
    && |cs| == |texts|
    && (forall i | 0 <= i < |cs| ::
      && cs[i].content == texts[i]
      && cs[i].id == ChunkId(docId, i)
      && cs[i].metadata.entries == WithPosition(base, i, IntValue(|cs|)))
    && (forall i, j | 0 <= i < j < |cs| :: cs[i].metadata != cs[j].metadata)
  }

  /**
   * The multi-chunk path of `chunk_document` (document_chunker.py:38-86): the
   * sections are packed into a fresh chunk list, then `total_chunks` is
   * written into every chunk's own dictionary.
   */
  method ChunkLongContent(content: string, docId: string, metadata: Metadata) returns (cs: seq<Chunk>)
    requires StretchesWithin(SectionText(content), MaxChunkSize - ChunkOverlap - 2)
    ensures Chunked(cs, docId, metadata.entries, ChunkTexts(content))
    ensures forall i | 0 <= i < |cs| :: fresh(cs[i].metadata)
  {
    var chunks := new ChunkList();
    var sections := Sections(HeaderSplit(content));
    ghost var base := metadata.entries;
    ChunkSections(sections, docId, metadata, chunks);
    cs := chunks.items;
    ghost var owned := set i | 0 <= i < |cs| :: cs[i].metadata;
    assert metadata !in owned;
    assert forall o | o in owned :: fresh(o);
    FillTotals(cs, docId, base, ChunkTexts(content), owned);
    assert metadata.entries == base;
  }

  /**
   * `chunk_document`. Content within the limit comes back as it is, with the
   * caller's own metadata object. Longer content is chunked into `ChunkTexts`,
   * numbered from 0, each chunk with a fresh dictionary holding the caller's
   * entries, its index and the total. The precondition, that the sections'
   * text has no blank-line-free stretch too long to settle in one pass, is
   * what this model needs to know the loop at document_chunker.py:71-75 ends;
   * all-whitespace content meets it (`BlankContentStretches`), yields no chunk,
   * and the average in the log line then divides by zero.
   */
  method ChunkDocument(content: string, docId: string, metadata: Metadata)
    returns (r: Result<seq<Chunk>, ChunkError>)
    requires |content| <= MaxChunkSize || StretchesWithin(SectionText(content), MaxChunkSize - ChunkOverlap - 2)
    ensures metadata.entries == old(metadata.entries)
    ensures |content| <= MaxChunkSize ==> r == Ok([Chunk(docId, content, metadata)])
    ensures |content| > MaxChunkSize ==> (r.Err? <==> AllSpace(content))
    ensures |content| > MaxChunkSize && r.Ok? ==>
      && Chunked(r.value, docId, metadata.entries, ChunkTexts(content))
      && Cut(ChunkTexts(content), SectionText(content), true)
      && forall i | 0 <= i < |r.value| :: fresh(r.value[i].metadata)
  {
    if |content| <= MaxChunkSize {
      return Ok([Chunk(docId, content, metadata)]);
    }
    var cs := ChunkLongContent(content, docId, metadata);
    ChunkTextsFacts(content);
    if |cs| == 0 {
      return Err(ZeroDivisionError);
    }
    return Ok(cs);
  }
}
