/**
 * `chunk_text` of solution_micaela/build_index.py: split a document into
 * paragraphs at blank lines, merge neighbouring paragraphs greedily while the
 * merged text stays within `maxLen` characters, and cut a paragraph that is
 * longer than `maxLen` into fixed-size windows that overlap by `overlap`
 * characters.
 *
 * `Chunk` is the specification (a fold of `Feed` over the paragraphs);
 * `ChunkText` is the loop program, proved equal to it.
 */
module Chunking {
  import opened Common
  import opened Text

  // ---------------------------------------------------------------------------
  // Paragraphs

  /** `[p.strip() for p in parts if p.strip()]` */
  function NonBlank(parts: seq<string>): (ps: seq<string>)
    ensures |ps| <= |parts|
  {
    if parts == [] then []
    else
      var p := Strip(parts[0]);
      var rest := NonBlank(parts[1..]);
      if p != [] then [p] + rest else rest
  }

  /** No kept part is empty. */
  lemma {:induction false} NonBlankNonEmpty(parts: seq<string>)
    ensures forall i :: 0 <= i < |NonBlank(parts)| ==> NonBlank(parts)[i] != []
  {
    if parts != [] {
      NonBlankNonEmpty(parts[1..]);
    }
  }

  /** Every part is dropped exactly when every part is blank. */
  lemma {:induction false} NonBlankEmptyIff(parts: seq<string>)
    ensures NonBlank(parts) == [] <==> AllBlank(parts)
  {
    if parts != [] {
      StripSpec(parts[0]);
      NonBlankEmptyIff(parts[1..]);
      assert forall k :: 1 <= k < |parts| ==> parts[k] == parts[1..][k - 1];
    }
  }

  /** The stripped, non-blank paragraphs of a text, in order. */
  function Paragraphs(text: string): seq<string>
  {
    NonBlank(SplitBlankLines(text))
  }

  /** Paragraphs are never empty. */
  lemma ParagraphsNonEmpty(text: string)
    ensures forall i :: 0 <= i < |Paragraphs(text)| ==> Paragraphs(text)[i] != []
  {
    NonBlankNonEmpty(SplitBlankLines(text));
  }

  /** A text has no paragraphs exactly when it is empty or all whitespace. */
  lemma ParagraphsEmptyIff(text: string)
    ensures Paragraphs(text) == [] <==> AllSpace(text)
  {
    AllSpaceSplit(text);
    NonBlankEmptyIff(SplitBlankLines(text));
  }

  // ---------------------------------------------------------------------------
  // Windows over an oversized paragraph

  /** The window step: `maxLen - overlap`, or `maxLen` when that is not positive. */
  function StepOf(maxLen: int, overlap: int): (step: int)
    requires maxLen > 0
    ensures step > 0
    ensures overlap >= 0 ==> step <= maxLen
    ensures overlap < maxLen ==> step == maxLen - overlap
    ensures overlap >= maxLen ==> step == maxLen
    ensures overlap < 0 ==> step > maxLen
  {
    if maxLen - overlap > 0 then maxLen - overlap else maxLen
  }

  /** The windows `p[start:start+maxLen]` taken while `start < len(p)`,
      stopping after the window that reaches the end of `p`. */
  function Windows(p: string, maxLen: int, step: int, start: nat): (ws: seq<string>)
    requires maxLen > 0 && step > 0
    ensures ws == [] <==> start >= |p|
    ensures forall k :: 0 <= k < |ws| ==> 0 < |ws[k]| <= maxLen
    decreases |p| - start
  {
    if start >= |p| then []
    else
      var end := start + maxLen;
      [p[start..Min(end, |p|)]] + (if end >= |p| then [] else Windows(p, maxLen, step, start + step))
  }

  /** Glue windows back together, dropping from each but the last what the next one repeats. */
  function Reassemble(ws: seq<string>, step: nat): string
  {
    if ws == [] then ""
    else if |ws| == 1 then ws[0]
    else ws[0][..Min(step, |ws[0]|)] + Reassemble(ws[1..], step)
  }

  /** With `overlap >= 0` the windows cover the paragraph, in order, without gaps:
      removing the overlaps gives back the text from `start`. */
  lemma {:induction false} WindowsReassemble(p: string, maxLen: int, step: int, start: nat)
    requires 0 < step <= maxLen
    requires start < |p|
    ensures Reassemble(Windows(p, maxLen, step, start), step) == p[start..]
    decreases |p| - start
  {
    if start + maxLen < |p| {
      var w, rest := p[start..start + maxLen], Windows(p, maxLen, step, start + step);
      assert Windows(p, maxLen, step, start) == [w] + rest;
      WindowsReassemble(p, maxLen, step, start + step);
      ReassembleCons(w, rest, step);
      SplitSuffix(p, start, step, maxLen);
    }
  }

  lemma ReassembleCons(w: string, rest: seq<string>, step: nat)
    requires rest != []
    ensures Reassemble([w] + rest, step) == w[..Min(step, |w|)] + Reassemble(rest, step)
  {
    assert ([w] + rest)[1..] == rest;
  }

  lemma SplitSuffix(p: string, start: nat, step: nat, maxLen: nat)
    requires step <= maxLen && start + maxLen <= |p|
    ensures p[start..start + maxLen][..Min(step, maxLen)] + p[start + step..] == p[start..]
  {
    assert p[start..start + maxLen][..step] == p[start..start + step];
    assert p[start..] == p[start..start + step] + p[start + step..];
  }

  /** Window `k` is `p[start + k*step : start + k*step + maxLen]`, and every window
      but the last is full: consecutive windows start exactly `step` characters apart,
      so neighbours share `maxLen - step` characters. */
  lemma WindowsPositions(p: string, maxLen: int, step: int, start: nat)
    requires maxLen > 0 && step > 0
    ensures var ws := Windows(p, maxLen, step, start);
      forall k :: 0 <= k < |ws| ==>
        && start + k * step < |p|
        && ws[k] == p[start + k * step..Min(start + k * step + maxLen, |p|)]
        && (k < |ws| - 1 ==> start + k * step + maxLen < |p|)
  {
    var ws := Windows(p, maxLen, step, start);
    forall k | 0 <= k < |ws|
      ensures && start + k * step < |p|
              && ws[k] == p[start + k * step..Min(start + k * step + maxLen, |p|)]
              && (k < |ws| - 1 ==> start + k * step + maxLen < |p|)
    {
      WindowAt(p, maxLen, step, start, k);
    }
  }

  /** Window `k` on its own, by induction on `k`. */
  lemma {:induction false} WindowAt(p: string, maxLen: int, step: int, start: nat, k: nat)
    requires maxLen > 0 && step > 0
    requires k < |Windows(p, maxLen, step, start)|
    ensures var ws := Windows(p, maxLen, step, start);
      && start + k * step < |p|
      && ws[k] == p[start + k * step..Min(start + k * step + maxLen, |p|)]
      && (k < |ws| - 1 ==> start + k * step + maxLen < |p|)
    decreases k
  {
    var ws := Windows(p, maxLen, step, start);
    if k > 0 {
      assert start + maxLen < |p|;
      var rest := Windows(p, maxLen, step, start + step);
      assert ws[1..] == rest;
      WindowAt(p, maxLen, step, start + step, k - 1);
      assert ws[k] == rest[k - 1];
      ShiftStart(start, step, k);
    }
  }

  lemma ShiftStart(start: nat, step: int, k: nat)
    requires k > 0
    ensures start + k * step == (start + step) + (k - 1) * step
  {
  }

  /** The last window ends at the end of the paragraph. */
  lemma {:induction false} WindowsLast(p: string, maxLen: int, step: int, start: nat)
    requires 0 < step <= maxLen
    requires start < |p|
    ensures var ws := Windows(p, maxLen, step, start);
      var w := ws[|ws| - 1]; w == p[|p| - |w|..]
    decreases |p| - start
  {
    if start + maxLen < |p| {
      WindowsLast(p, maxLen, step, start + step);
    }
  }

  // ---------------------------------------------------------------------------
  // The specification of chunk_text

  /** The loop state of `chunk_text`: the chunks emitted so far and the buffer `cur`. */
  datatype ChunkState = ChunkState(chunks: seq<string>, cur: string)

  /** One iteration of the loop over paragraphs. */
  function Feed(st: ChunkState, p: string, maxLen: int, step: int): ChunkState
    requires maxLen > 0 && step > 0
  {
    if st.cur != [] && |st.cur| + 2 + |p| <= maxLen then
      ChunkState(st.chunks, st.cur + BlankLine + p)
    else
      var flushed := if st.cur != [] then st.chunks + [st.cur] else st.chunks;
      if |p| <= maxLen then ChunkState(flushed, p)
      else ChunkState(flushed + Windows(p, maxLen, step, 0), [])
  }

  function FeedAll(st: ChunkState, ps: seq<string>, maxLen: int, step: int): ChunkState
    requires maxLen > 0 && step > 0
    decreases |ps|
  {
    if ps == [] then st else FeedAll(Feed(st, ps[0], maxLen, step), ps[1..], maxLen, step)
  }

  /** The final `if cur: chunks.append(cur)`. */
  function Finish(st: ChunkState): seq<string>
  {
    if st.cur != [] then st.chunks + [st.cur] else st.chunks
  }

  /** What `chunk_text(text, maxLen, overlap)` returns. */
  function Chunk(text: string, maxLen: int, overlap: int): seq<string>
    requires maxLen > 0
  {
    Finish(FeedAll(ChunkState([], []), Paragraphs(text), maxLen, StepOf(maxLen, overlap)))
  }

  // ---------------------------------------------------------------------------
  // The loop program

  method ChunkText(text: string, maxLen: int, overlap: int) returns (chunks: seq<string>)
    requires maxLen > 0
    ensures chunks == Chunk(text, maxLen, overlap)
    ensures forall i :: 0 <= i < |chunks| ==> 0 < |chunks[i]| <= maxLen
  {
    var paras := Paragraphs(text);
    ghost var total := FeedAll(ChunkState([], []), paras, maxLen, StepOf(maxLen, overlap));
    chunks := [];
    var cur := "";
    for i := 0 to |paras|
      invariant FeedAll(ChunkState(chunks, cur), paras[i..], maxLen, StepOf(maxLen, overlap)) == total
    {
      assert paras[i..][1..] == paras[i + 1..];
      var p := paras[i];
      ghost var next := Feed(ChunkState(chunks, cur), p, maxLen, StepOf(maxLen, overlap));
      assert FeedAll(next, paras[i + 1..], maxLen, StepOf(maxLen, overlap)) == total;
      // merge while the buffer stays within maxLen
      if cur != "" && |cur| + 2 + |p| <= maxLen {
        cur := cur + "\n\n" + p;
        assert ChunkState(chunks, cur) == next;
        continue;
      }
      // emit the buffer
      if cur != "" {
        chunks := chunks + [cur];
        cur := "";
      }
      // a paragraph that fits opens a new buffer
      if |p| <= maxLen {
        cur := p;
        assert ChunkState(chunks, cur) == next;
        continue;
      }
      // a longer paragraph is cut into windows
      var step := if maxLen - overlap > 0 then maxLen - overlap else maxLen;
      chunks := AppendWindows(chunks, p, maxLen, step);
      assert ChunkState(chunks, cur) == next;
    }
    if cur != "" {
      chunks := chunks + [cur];
    }
    ChunkBounds(text, maxLen, overlap);
  }

  /** The inner `while start < len(p)` loop: append the windows of `p` to `chunks`. */
  method AppendWindows(chunks: seq<string>, p: string, maxLen: int, step: int) returns (out: seq<string>)
    requires maxLen > 0 && step > 0
    ensures out == chunks + Windows(p, maxLen, step, 0)
  {
    out := chunks;
    var start := 0;
    while start < |p|
      invariant 0 <= start
      invariant out + Windows(p, maxLen, step, start) == chunks + Windows(p, maxLen, step, 0)
      decreases |p| - start
    {
      var end := start + maxLen;
      var chunk := p[start..Min(end, |p|)];
      assert Windows(p, maxLen, step, start)
        == [chunk] + (if end >= |p| then [] else Windows(p, maxLen, step, start + step));
      out := out + [chunk];
      if end >= |p| {
        break;
      }
      start := start + step;
    }
  }

  // ---------------------------------------------------------------------------
  // Properties of Chunk

  ghost predicate Bounded(st: ChunkState, maxLen: int)
  {
    && (forall i :: 0 <= i < |st.chunks| ==> 0 < |st.chunks[i]| <= maxLen)
    && |st.cur| <= maxLen
  }

  lemma {:induction false} FeedAllBounded(st: ChunkState, ps: seq<string>, maxLen: int, step: int)
    requires maxLen > 0 && step > 0
    requires Bounded(st, maxLen)
    requires forall i :: 0 <= i < |ps| ==> ps[i] != []
    ensures Bounded(FeedAll(st, ps, maxLen, step), maxLen)
    decreases |ps|
  {
    if ps != [] {
      assert forall i :: 0 <= i < |ps| - 1 ==> ps[1..][i] == ps[i + 1];
      FeedAllBounded(Feed(st, ps[0], maxLen, step), ps[1..], maxLen, step);
    }
  }

  /** Every chunk is non-empty and at most `maxLen` characters long. */
  lemma ChunkBounds(text: string, maxLen: int, overlap: int)
    requires maxLen > 0
    ensures var cs := Chunk(text, maxLen, overlap);
      forall i :: 0 <= i < |cs| ==> 0 < |cs[i]| <= maxLen
  {
    ParagraphsNonEmpty(text);
    FeedAllBounded(ChunkState([], []), Paragraphs(text), maxLen, StepOf(maxLen, overlap));
  }

  lemma {:induction false} FeedAllProductive(st: ChunkState, ps: seq<string>, maxLen: int, step: int)
    requires maxLen > 0 && step > 0
    requires forall i :: 0 <= i < |ps| ==> ps[i] != []
    requires st.chunks != [] || st.cur != [] || ps != []
    ensures Finish(FeedAll(st, ps, maxLen, step)) != []
    decreases |ps|
  {
    if ps != [] {
      assert forall i :: 0 <= i < |ps| - 1 ==> ps[1..][i] == ps[i + 1];
      var next := Feed(st, ps[0], maxLen, step);
      assert next.chunks != [] || next.cur != [];
      FeedAllProductive(next, ps[1..], maxLen, step);
    }
  }

  /** A text yields no chunks exactly when it is empty or all whitespace. */
  lemma ChunkEmptyIff(text: string, maxLen: int, overlap: int)
    requires maxLen > 0
    ensures Chunk(text, maxLen, overlap) == [] <==> AllSpace(text)
  {
    var ps := Paragraphs(text);
    ParagraphsEmptyIff(text);
    ParagraphsNonEmpty(text);
    if ps != [] {
      FeedAllProductive(ChunkState([], []), ps, maxLen, StepOf(maxLen, overlap));
    }
  }

  // ---------------------------------------------------------------------------
  // Segmentation: how the chunks arise from the paragraphs

  /** A run of paragraphs merged into one chunk, or one oversized paragraph cut into windows. */
  datatype Segment = Merged(paras: seq<string>) | Oversized(para: string)

  function SegmentParas(seg: Segment): seq<string>
  {
    match seg
    case Merged(ps) => ps
    case Oversized(p) => [p]
  }

  function FirstPara(seg: Segment): string
  {
    match seg
    case Merged(ps) => if ps == [] then [] else ps[0]
    case Oversized(p) => p
  }

  /** The paragraphs of a segmentation, in order. */
  function AllParas(segs: seq<Segment>): seq<string>
    decreases |segs|
  {
    if segs == [] then [] else AllParas(segs[..|segs| - 1]) + SegmentParas(segs[|segs| - 1])
  }

  /** The chunks a segment produces. */
  function Emit(seg: Segment, maxLen: int, step: int): seq<string>
    requires maxLen > 0 && step > 0
  {
    match seg
    case Merged(ps) => [Join(ps, BlankLine)]
    case Oversized(p) => Windows(p, maxLen, step, 0)
  }

  function EmitAll(segs: seq<Segment>, maxLen: int, step: int): seq<string>
    requires maxLen > 0 && step > 0
    decreases |segs|
  {
    if segs == [] then [] else EmitAll(segs[..|segs| - 1], maxLen, step) + Emit(segs[|segs| - 1], maxLen, step)
  }

  ghost predicate WellFormedSegment(seg: Segment, maxLen: int)
  {
    match seg
    case Merged(ps) =>
      && ps != []
      && (forall i :: 0 <= i < |ps| ==> 0 < |ps[i]| <= maxLen)
      && |Join(ps, BlankLine)| <= maxLen
    case Oversized(p) => |p| > maxLen
  }

  /** A merged run ends only where the next paragraph would not fit after a separator. */
  ghost predicate Greedy(segs: seq<Segment>, maxLen: int)
  {
    forall k :: 0 <= k < |segs| - 1 && segs[k].Merged? ==>
      |Join(segs[k].paras, BlankLine)| + 2 + |FirstPara(segs[k + 1])| > maxLen
  }

  ghost predicate Segmentation(segs: seq<Segment>, ps: seq<string>, maxLen: int)
  {
    && AllParas(segs) == ps
    && (forall k :: 0 <= k < |segs| ==> WellFormedSegment(segs[k], maxLen))
    && Greedy(segs, maxLen)
  }

  lemma {:induction false} JoinSnoc(ps: seq<string>, p: string, sep: string)
    requires ps != []
    ensures Join(ps + [p], sep) == Join(ps, sep) + sep + p
    decreases |ps|
  {
    if |ps| > 1 {
      assert (ps + [p])[1..] == ps[1..] + [p];
      JoinSnoc(ps[1..], p, sep);
    }
  }

  /** The segments seen so far: the finished ones and the run still being merged. */
  function View(done: seq<Segment>, group: seq<string>): seq<Segment>
  {
    if group == [] then done else done + [Merged(group)]
  }

  ghost predicate AllWellFormed(segs: seq<Segment>, maxLen: int)
  {
    forall k :: 0 <= k < |segs| ==> WellFormedSegment(segs[k], maxLen)
  }

  /** The state `st` of the loop is what the segmentation (`done`, `group`) produces. */
  ghost predicate Tracks(st: ChunkState, done: seq<Segment>, group: seq<string>, maxLen: int, step: int)
    requires maxLen > 0 && step > 0
  {
    && st.chunks == EmitAll(done, maxLen, step)
    && st.cur == Join(group, BlankLine)
    && (group == [] <==> st.cur == [])
    && (group == [] ==> done == [] || done[|done| - 1].Oversized?)
    && AllWellFormed(View(done, group), maxLen)
    && Greedy(View(done, group), maxLen)
  }

  lemma AppendSegment(segs: seq<Segment>, seg: Segment, maxLen: int, step: int)
    requires maxLen > 0 && step > 0
    ensures AllParas(segs + [seg]) == AllParas(segs) + SegmentParas(seg)
    ensures EmitAll(segs + [seg], maxLen, step) == EmitAll(segs, maxLen, step) + Emit(seg, maxLen, step)
  {
    assert (segs + [seg])[..|segs|] == segs;
  }

  lemma ExtendWellFormed(segs: seq<Segment>, seg: Segment, maxLen: int)
    requires AllWellFormed(segs, maxLen) && WellFormedSegment(seg, maxLen)
    ensures AllWellFormed(segs + [seg], maxLen)
  {
    forall k | 0 <= k < |segs| + 1 ensures WellFormedSegment((segs + [seg])[k], maxLen) {
      if k < |segs| { assert (segs + [seg])[k] == segs[k]; }
    }
  }

  lemma ExtendGreedy(segs: seq<Segment>, seg: Segment, maxLen: int)
    requires Greedy(segs, maxLen)
    requires segs != [] && segs[|segs| - 1].Merged? ==>
      |Join(segs[|segs| - 1].paras, BlankLine)| + 2 + |FirstPara(seg)| > maxLen
    ensures Greedy(segs + [seg], maxLen)
  {
    var v := segs + [seg];
    forall k | 0 <= k < |v| - 1 && v[k].Merged?
      ensures |Join(v[k].paras, BlankLine)| + 2 + |FirstPara(v[k + 1])| > maxLen
    {
      assert v[k] == segs[k];
      if k + 1 < |segs| { assert v[k + 1] == segs[k + 1]; }
    }
  }

  /** Growing the open run keeps the segmentation well formed and greedy. */
  lemma GrowLast(done: seq<Segment>, g: seq<string>, g': seq<string>, maxLen: int)
    requires g != [] && g' != [] && g[0] == g'[0]
    requires AllWellFormed(done + [Merged(g)], maxLen) && WellFormedSegment(Merged(g'), maxLen)
    requires Greedy(done + [Merged(g)], maxLen)
    ensures AllWellFormed(done + [Merged(g')], maxLen)
    ensures Greedy(done + [Merged(g')], maxLen)
  {
    var v, v' := done + [Merged(g)], done + [Merged(g')];
    forall k | 0 <= k < |v'| ensures WellFormedSegment(v'[k], maxLen) {
      if k < |done| { assert v'[k] == v[k]; }
    }
    forall k | 0 <= k < |v'| - 1 && v'[k].Merged?
      ensures |Join(v'[k].paras, BlankLine)| + 2 + |FirstPara(v'[k + 1])| > maxLen
    {
      assert v'[k] == v[k];
      assert FirstPara(v'[k + 1]) == FirstPara(v[k + 1]);
    }
  }

  /** The paragraph fits after the buffer: it joins the open run. */
  lemma MergeTracks(st: ChunkState, done: seq<Segment>, group: seq<string>, p: string, maxLen: int, step: int)
    requires maxLen > 0 && step > 0 && p != []
    requires Tracks(st, done, group, maxLen, step)
    requires st.cur != [] && |st.cur| + 2 + |p| <= maxLen
    ensures Tracks(Feed(st, p, maxLen, step), done, group + [p], maxLen, step)
    ensures AllParas(View(done, group + [p])) == AllParas(View(done, group)) + [p]
  {
    var g' := group + [p];
    JoinSnoc(group, p, BlankLine);
    MergeShape(done, group, p, maxLen);
    TracksOpen(ChunkState(st.chunks, st.cur + BlankLine + p), done, g', maxLen, step);
    MergeParas(done, group, p);
  }

  /** A non-empty buffer that is the join of the open run, after the flushed segments. */
  lemma TracksOpen(st: ChunkState, done: seq<Segment>, group: seq<string>, maxLen: int, step: int)
    requires maxLen > 0 && step > 0 && group != [] && st.cur != []
    requires st.chunks == EmitAll(done, maxLen, step) && st.cur == Join(group, BlankLine)
    requires AllWellFormed(done + [Merged(group)], maxLen) && Greedy(done + [Merged(group)], maxLen)
    ensures Tracks(st, done, group, maxLen, step)
  {
  }

  lemma MergeParas(done: seq<Segment>, group: seq<string>, p: string)
    requires group != []
    ensures AllParas(View(done, group + [p])) == AllParas(View(done, group)) + [p]
  {
    AppendSegment(done, Merged(group), 1, 1);
    AppendSegment(done, Merged(group + [p]), 1, 1);
  }

  /** Adding a paragraph that fits to the open run keeps the segments well formed and greedy. */
  lemma MergeShape(done: seq<Segment>, group: seq<string>, p: string, maxLen: int)
    requires group != [] && 0 < |p|
    requires AllWellFormed(View(done, group), maxLen) && Greedy(View(done, group), maxLen)
    requires |Join(group + [p], BlankLine)| <= maxLen
    requires |Join(group, BlankLine)| + 2 + |p| <= maxLen
    ensures AllWellFormed(done + [Merged(group + [p])], maxLen)
    ensures Greedy(done + [Merged(group + [p])], maxLen)
  {
    var g' := group + [p];
    assert View(done, group) == done + [Merged(group)];
    assert WellFormedSegment(Merged(group), maxLen) by {
      assert View(done, group)[|done|] == Merged(group);
    }
    assert WellFormedSegment(Merged(g'), maxLen) by {
      forall i | 0 <= i < |g'| ensures 0 < |g'[i]| <= maxLen {
        if i < |group| { assert g'[i] == group[i]; }
      }
    }
    GrowLast(done, group, g', maxLen);
  }

  /** Flushing the buffer closes the open run: the flushed chunks are what the
      segments seen so far produce, and a closing run cannot take the next paragraph. */
  lemma Flushed(st: ChunkState, done: seq<Segment>, group: seq<string>, p: string, maxLen: int, step: int)
    requires maxLen > 0 && step > 0
    requires Tracks(st, done, group, maxLen, step)
    requires !(st.cur != [] && |st.cur| + 2 + |p| <= maxLen)
    ensures var v := View(done, group);
      && (if st.cur != [] then st.chunks + [st.cur] else st.chunks) == EmitAll(v, maxLen, step)
      && AllWellFormed(v, maxLen) && Greedy(v, maxLen)
      && (v != [] && v[|v| - 1].Merged? ==> |Join(v[|v| - 1].paras, BlankLine)| + 2 + |p| > maxLen)
  {
    AppendSegment(done, Merged(group), maxLen, step);
  }

  /** A paragraph that fits in `maxLen` opens a new run after the flushed segments. */
  lemma OpenRun(v: seq<Segment>, chunks: seq<string>, p: string, maxLen: int, step: int)
    requires maxLen > 0 && step > 0 && 0 < |p| <= maxLen
    requires chunks == EmitAll(v, maxLen, step) && AllWellFormed(v, maxLen) && Greedy(v, maxLen)
    requires v != [] && v[|v| - 1].Merged? ==> |Join(v[|v| - 1].paras, BlankLine)| + 2 + |p| > maxLen
    ensures Tracks(ChunkState(chunks, p), v, [p], maxLen, step)
    ensures AllParas(View(v, [p])) == AllParas(v) + [p]
  {
    ExtendWellFormed(v, Merged([p]), maxLen);
    ExtendGreedy(v, Merged([p]), maxLen);
    AppendSegment(v, Merged([p]), maxLen, step);
  }

  /** An oversized paragraph becomes its windows, as a segment of its own. */
  lemma CutRun(v: seq<Segment>, chunks: seq<string>, p: string, maxLen: int, step: int)
    requires maxLen > 0 && step > 0 && |p| > maxLen
    requires chunks == EmitAll(v, maxLen, step) && AllWellFormed(v, maxLen) && Greedy(v, maxLen)
    requires v != [] && v[|v| - 1].Merged? ==> |Join(v[|v| - 1].paras, BlankLine)| + 2 + |p| > maxLen
    ensures Tracks(ChunkState(chunks + Windows(p, maxLen, step, 0), []), v + [Oversized(p)], [], maxLen, step)
    ensures AllParas(View(v + [Oversized(p)], [])) == AllParas(v) + [p]
  {
    ExtendWellFormed(v, Oversized(p), maxLen);
    ExtendGreedy(v, Oversized(p), maxLen);
    AppendSegment(v, Oversized(p), maxLen, step);
  }

  /** The paragraph does not fit: the buffer is flushed, then the paragraph
      opens a new run or, if oversized, becomes windows. */
  lemma FlushTracks(st: ChunkState, done: seq<Segment>, group: seq<string>, p: string, maxLen: int, step: int)
    returns (done': seq<Segment>, group': seq<string>)
    requires maxLen > 0 && step > 0 && p != []
    requires Tracks(st, done, group, maxLen, step)
    requires !(st.cur != [] && |st.cur| + 2 + |p| <= maxLen)
    ensures Tracks(Feed(st, p, maxLen, step), done', group', maxLen, step)
    ensures AllParas(View(done', group')) == AllParas(View(done, group)) + [p]
  {
    var v := View(done, group);
    var chunks := if st.cur != [] then st.chunks + [st.cur] else st.chunks;
    Flushed(st, done, group, p, maxLen, step);
    if |p| <= maxLen {
      assert Feed(st, p, maxLen, step) == ChunkState(chunks, p);
      OpenRun(v, chunks, p, maxLen, step);
      done', group' := v, [p];
    } else {
      assert Feed(st, p, maxLen, step) == ChunkState(chunks + Windows(p, maxLen, step, 0), []);
      CutRun(v, chunks, p, maxLen, step);
      done', group' := v + [Oversized(p)], [];
    }
  }

  lemma FeedTracks(st: ChunkState, done: seq<Segment>, group: seq<string>, p: string, maxLen: int, step: int)
    returns (done': seq<Segment>, group': seq<string>)
    requires maxLen > 0 && step > 0 && p != []
    requires Tracks(st, done, group, maxLen, step)
    ensures Tracks(Feed(st, p, maxLen, step), done', group', maxLen, step)
    ensures AllParas(View(done', group')) == AllParas(View(done, group)) + [p]
  {
    if st.cur != [] && |st.cur| + 2 + |p| <= maxLen {
      MergeTracks(st, done, group, p, maxLen, step);
      done', group' := done, group + [p];
    } else {
      done', group' := FlushTracks(st, done, group, p, maxLen, step);
    }
  }

  lemma ConsStep(a: seq<string>, b: seq<string>, c: seq<string>, ps: seq<string>)
    requires ps != [] && b == a + [ps[0]] && c == b + ps[1..]
    ensures c == a + ps
  {
    assert ps == [ps[0]] + ps[1..];
  }

  /** Feeding a non-empty list of non-empty paragraphs feeds the first and then the rest. */
  lemma FeedAllCons(st: ChunkState, ps: seq<string>, maxLen: int, step: int)
    requires maxLen > 0 && step > 0
    requires ps != [] && forall i :: 0 <= i < |ps| ==> ps[i] != []
    ensures FeedAll(st, ps, maxLen, step) == FeedAll(Feed(st, ps[0], maxLen, step), ps[1..], maxLen, step)
    ensures forall i :: 0 <= i < |ps[1..]| ==> ps[1..][i] != []
  {
    assert forall i :: 0 <= i < |ps| - 1 ==> ps[1..][i] == ps[i + 1];
  }

  lemma {:induction false} FeedAllTracks(st: ChunkState, done: seq<Segment>, group: seq<string>, ps: seq<string>, maxLen: int, step: int)
    returns (done': seq<Segment>, group': seq<string>)
    requires maxLen > 0 && step > 0
    requires forall i :: 0 <= i < |ps| ==> ps[i] != []
    requires Tracks(st, done, group, maxLen, step)
    ensures Tracks(FeedAll(st, ps, maxLen, step), done', group', maxLen, step)
    ensures AllParas(View(done', group')) == AllParas(View(done, group)) + ps
    decreases |ps|
  {
    if ps == [] {
      done', group' := done, group;
    } else {
      var st1 := Feed(st, ps[0], maxLen, step);
      FeedAllCons(st, ps, maxLen, step);
      var d, g := FeedTracks(st, done, group, ps[0], maxLen, step);
      done', group' := FeedAllTracks(st1, d, g, ps[1..], maxLen, step);
      ConsStep(AllParas(View(done, group)), AllParas(View(d, g)), AllParas(View(done', group')), ps);
    }
  }

  /** The chunks are the output of a greedy segmentation of the paragraphs:
      the paragraphs are kept whole, in input order, none lost or repeated;
      a merged chunk is exactly its paragraphs joined by a blank line and fits
      in `maxLen`; a run is closed only when the next paragraph would not fit;
      and a paragraph longer than `maxLen` is never merged with its neighbours
      but becomes its own windows. */
  lemma ChunkSegmentation(text: string, maxLen: int, overlap: int)
    requires maxLen > 0
    ensures exists segs ::
              && Segmentation(segs, Paragraphs(text), maxLen)
              && EmitAll(segs, maxLen, StepOf(maxLen, overlap)) == Chunk(text, maxLen, overlap)
  {
    var step := StepOf(maxLen, overlap);
    var ps := Paragraphs(text);
    ParagraphsNonEmpty(text);
    var done, group := FeedAllTracks(ChunkState([], []), [], [], ps, maxLen, step);
    var st := FeedAll(ChunkState([], []), ps, maxLen, step);
    var segs := View(done, group);
    AppendSegment(done, Merged(group), maxLen, step);
    assert Finish(st) == EmitAll(segs, maxLen, step);
    assert Segmentation(segs, ps, maxLen);
  }
}
