/** core/filex/lookup.go: splitting a file into chunks of whole lines. */
module LineChunks {
  import opened Options
  import opened Arithmetic

  type Byte = b: int | 0 <= b < 256

  const CR: Byte := 13
  const LF: Byte := 10
  const BUF_SIZE: nat := 1024

  datatype File = File(name: string, bytes: seq<Byte>)

  datatype OffsetRange = OffsetRange(File: string, Start: nat, Stop: nat)

  datatype Error = NoSuchFile | EOF

  datatype Result<T> = Ok(value: T) | Err(error: Error)

  predicate IsBreak(b: Byte) {
    b == CR || b == LF
  }

  function Min(a: nat, b: nat): (r: nat) {
    if a < b then a else b
  }

  // ---- where a chunk that should stop at an offset stops -----------------------------------------

  /** The first line break from i on that is before hi, or hi. */
  ghost function FirstBreak(bytes: seq<Byte>, i: nat, hi: nat): (p: nat)
    ensures i <= hi <= |bytes| ==> i <= p <= hi && (p < hi ==> IsBreak(bytes[p]))
    decreases hi - i
  {
    if i >= hi || i >= |bytes| || IsBreak(bytes[i]) then i else FirstBreak(bytes, i + 1, hi)
  }

  /** Where the line breaks from i on end, or hi. */
  ghost function BreaksEnd(bytes: seq<Byte>, i: nat, hi: nat): (r: nat)
    ensures i <= hi <= |bytes| ==> i <= r <= hi && (r < hi ==> !IsBreak(bytes[r]))
    decreases hi - i
  {
    if i >= hi || i >= |bytes| || !IsBreak(bytes[i]) then i else BreaksEnd(bytes, i + 1, hi)
  }

  /** The offset after the line that goes on at `offset`, found one buffer at a time. */
  ghost function LineEnd(bytes: seq<Byte>, offset: nat): (r: Option<nat>)
    ensures r.Some? ==> offset < r.value <= |bytes|
    decreases |bytes| - offset
  {
    if offset >= |bytes| then None
    else
      var hi := Min(offset + BUF_SIZE, |bytes|);
      var p := FirstBreak(bytes, offset, hi);
      if p == hi then LineEnd(bytes, hi) else Some(BreaksEnd(bytes, p, hi))
  }

  ghost predicate NoBreaks(bytes: seq<Byte>, lo: nat, hi: nat) {
    hi <= |bytes| && forall k :: lo <= k < hi ==> !IsBreak(bytes[k])
  }

  ghost predicate OnlyBreaks(bytes: seq<Byte>, lo: nat, hi: nat) {
    hi <= |bytes| && forall k :: lo <= k < hi ==> IsBreak(bytes[k])
  }

  /** The end of the buffer that p is in, of those read from `offset` on. */
  ghost function BufferEnd(bytes: seq<Byte>, offset: nat, p: nat): (hi: nat)
    requires offset <= p < |bytes|
    ensures p < hi <= |bytes|
  {
    Min(offset + ((p - offset) / BUF_SIZE + 1) * BUF_SIZE, |bytes|)
  }

  /** p is the first line break at or after `offset`, and r follows it and all line breaks behind it in its buffer. */
  ghost predicate EndsLine(bytes: seq<Byte>, offset: nat, p: nat, r: nat) {
    && offset <= p < |bytes| && p < r <= BufferEnd(bytes, offset, p)
    && NoBreaks(bytes, offset, p) && OnlyBreaks(bytes, p, r)
    && (r == BufferEnd(bytes, offset, p) || !IsBreak(bytes[r]))
  }

  lemma {:induction false} FirstBreakIsFirst(bytes: seq<Byte>, i: nat, hi: nat)
    requires i <= hi <= |bytes|
    ensures NoBreaks(bytes, i, FirstBreak(bytes, i, hi))
    decreases hi - i
  {
    if i < hi && !IsBreak(bytes[i]) {
      FirstBreakIsFirst(bytes, i + 1, hi);
    }
  }

  lemma {:induction false} BreaksEndIsEnd(bytes: seq<Byte>, i: nat, hi: nat)
    requires i <= hi <= |bytes|
    ensures OnlyBreaks(bytes, i, BreaksEnd(bytes, i, hi))
    decreases hi - i
  {
    if i < hi && IsBreak(bytes[i]) {
      BreaksEndIsEnd(bytes, i + 1, hi);
    }
  }

  /** LineEnd finds the end of the line exactly if there is a line break to end it. */
  lemma {:induction false} LineEndIsEnd(bytes: seq<Byte>, offset: nat) returns (p: nat)
    requires offset <= |bytes|
    ensures LineEnd(bytes, offset).None? <==> NoBreaks(bytes, offset, |bytes|)
    ensures LineEnd(bytes, offset).Some? ==> EndsLine(bytes, offset, p, LineEnd(bytes, offset).value)
    decreases |bytes| - offset
  {
    p := 0;
    if offset < |bytes| {
      var hi := Min(offset + BUF_SIZE, |bytes|);
      p := FirstBreak(bytes, offset, hi);
      FirstBreakIsFirst(bytes, offset, hi);
      if p == hi {
        p := LineEndIsEnd(bytes, hi);
        if hi < |bytes| && p < |bytes| && hi <= p {
          NextBuffer(bytes, offset, p);
        }
      } else {
        BreaksEndIsEnd(bytes, p, hi);
        FirstBuffer(bytes, offset, p);
      }
      hide BufferEnd;
    }
  }

  lemma NextBuffer(bytes: seq<Byte>, offset: nat, p: nat)
    requires offset + BUF_SIZE <= p < |bytes|
    ensures BufferEnd(bytes, offset, p) == BufferEnd(bytes, offset + BUF_SIZE, p)
  {
  }

  lemma FirstBuffer(bytes: seq<Byte>, offset: nat, p: nat)
    requires offset <= p < |bytes| && p < offset + BUF_SIZE
    ensures BufferEnd(bytes, offset, p) == Min(offset + BUF_SIZE, |bytes|)
  {
  }

  /** And there is only one such end. */
  lemma LineEndIsUnique(bytes: seq<Byte>, offset: nat, p: nat, r: nat)
    requires EndsLine(bytes, offset, p, r)
    ensures LineEnd(bytes, offset) == Some(r)
  {
    hide LineEnd, BufferEnd;
    var q := LineEndIsEnd(bytes, offset);
    assert IsBreak(bytes[p]) && IsBreak(bytes[q]);
    assert p == q;
  }

  ghost predicate IsCrLf(bytes: seq<Byte>, r: nat) {
    0 < r < |bytes| && bytes[r - 1] == CR && bytes[r] == LF
  }

  /** The line that goes on at `offset` is ended by breaks that begin in the k-th buffer and run on to its last byte, a
      CR whose LF is the first byte of the next buffer. */
  ghost predicate BreaksAcross(bytes: seq<Byte>, offset: nat, k: nat, p: nat) {
    var r := offset + k * BUF_SIZE;
    k > 0 && IsCrLf(bytes, r) && r - BUF_SIZE <= p < r && NoBreaks(bytes, offset, p) && OnlyBreaks(bytes, p, r)
  }

  ghost predicate BreaksCross(bytes: seq<Byte>, offset: nat) {
    exists k: nat, p: nat :: BreaksAcross(bytes, offset, k, p)
  }

  /** The stop separates a CR from its LF if and only if the two lie in different buffers and the first line breaks from
      `offset` on run up to the CR within its buffer. */
  lemma CrLfIsCutWhen(bytes: seq<Byte>, offset: nat)
    requires offset <= |bytes|
    ensures (LineEnd(bytes, offset).Some? && IsCrLf(bytes, LineEnd(bytes, offset).value))
       <==> BreaksCross(bytes, offset)
  {
    hide LineEnd;
    if k: nat, p: nat :| BreaksAcross(bytes, offset, k, p) {
      assert (p - offset) / BUF_SIZE == k - 1;
      LineEndIsUnique(bytes, offset, p, offset + k * BUF_SIZE);
    }
    if LineEnd(bytes, offset).Some? && IsCrLf(bytes, LineEnd(bytes, offset).value) {
      var p := LineEndIsEnd(bytes, offset);
      assert BreaksAcross(bytes, offset, (p - offset) / BUF_SIZE + 1, p);
    }
  }

  // ---- the chunks ------------------------------------------------------------------------------

  /** What a chunk should hold at least. */
  function PreferSize(size: nat, chunks: int): (prefer: nat)
    requires chunks > 0
    ensures prefer > 0
  {
    size / chunks + 1
  }

  /** The stops of the chunks from `start` on, or nothing if some line cannot be ended. */
  ghost function Stops(bytes: seq<Byte>, prefer: nat, start: nat): (r: Option<seq<nat>>)
    requires start <= |bytes|
    ensures r.Some? ==> |r.value| > 0
    decreases |bytes| - start
  {
    if start + prefer >= |bytes| then Some([|bytes|])
    else
      var stop := LineEnd(bytes, start + prefer);
      if stop.None? then None
      else if stop.value == |bytes| then Some([|bytes|])
      else
        var rest := Stops(bytes, prefer, stop.value);
        if rest.None? then None else Some([stop.value] + rest.value)
  }

  ghost function StartOf(ranges: seq<OffsetRange>, i: nat): (r: nat)
    requires i <= |ranges|
  {
    if i == 0 then 0 else ranges[i - 1].Stop
  }

  /** Range i starts where the one before it stops. */
  ghost predicate Follows(name: string, ranges: seq<OffsetRange>, i: nat)
    requires i < |ranges|
  {
    ranges[i].File == name && ranges[i].Start == StartOf(ranges, i) <= ranges[i].Stop
  }

  ghost predicate Contiguous(name: string, ranges: seq<OffsetRange>) {
    forall i: nat :: i < |ranges| ==> Follows(name, ranges, i)
  }

  /** Contiguous from 0 to the end of the file, cut only behind line breaks. */
  ghost predicate Covers(file: File, ranges: seq<OffsetRange>) {
    && |ranges| > 0 && Contiguous(file.name, ranges) && ranges[|ranges| - 1].Stop == |file.bytes|
    && forall i :: 0 <= i < |ranges| - 1 ==>
                     0 < ranges[i].Stop < |file.bytes| && IsBreak(file.bytes[ranges[i].Stop - 1])
  }

  /** It is the least number of which `chunks` are more than the size. */
  lemma PreferIsLeast(size: nat, chunks: nat)
    requires chunks > 0
    ensures chunks * (PreferSize(size, chunks) - 1) <= size < chunks * PreferSize(size, chunks)
  {
    assert size == chunks * (size / chunks) + size % chunks;
  }

  /** Stops of chunks from `start` on: each but the last is more than `prefer` behind its start and follows a line
      break, and what the last one takes has none before its end that would cut it. */
  ghost predicate Chunked(bytes: seq<Byte>, prefer: nat, start: nat, stops: seq<nat>) {
    && |stops| > 0 && stops[|stops| - 1] == |bytes| && EndsUncut(bytes, prefer, start, stops)
    && forall i: nat :: i < |stops| - 1 ==> CutAt(bytes, prefer, start, stops, i)
  }

  ghost predicate EndsUncut(bytes: seq<Byte>, prefer: nat, start: nat, stops: seq<nat>)
    requires |stops| > 0
  {
    var from := (if |stops| == 1 then start else stops[|stops| - 2]) + prefer;
    from >= |bytes| || LineEnd(bytes, from) == Some(|bytes|)
  }

  ghost predicate CutAt(bytes: seq<Byte>, prefer: nat, start: nat, stops: seq<nat>, i: nat)
    requires i < |stops|
  {
    var from := (if i == 0 then start else stops[i - 1]) + prefer;
    from < stops[i] < |bytes| && IsBreak(bytes[stops[i] - 1]) && LineEnd(bytes, from) == Some(stops[i])
  }

  lemma ChunkedCons(bytes: seq<Byte>, prefer: nat, start: nat, stop: nat, rest: seq<nat>)
    requires Chunked(bytes, prefer, stop, rest) && start + prefer < stop < |bytes| && IsBreak(bytes[stop - 1])
    requires LineEnd(bytes, start + prefer) == Some(stop)
    ensures Chunked(bytes, prefer, start, [stop] + rest)
  {
    hide LineEnd;
    var stops := [stop] + rest;
    forall i: nat | i < |stops| - 1 ensures CutAt(bytes, prefer, start, stops, i) {
      assert i > 0 ==> CutAt(bytes, prefer, stop, rest, i - 1);
    }
  }

  lemma {:induction false} StopsAreChunked(bytes: seq<Byte>, prefer: nat, start: nat)
    requires start <= |bytes| && Stops(bytes, prefer, start).Some?
    ensures Chunked(bytes, prefer, start, Stops(bytes, prefer, start).value)
    decreases |bytes| - start
  {
    hide LineEnd, BufferEnd, NoBreaks, CutAt;
    if start + prefer < |bytes| {
      var stop := LineEnd(bytes, start + prefer).value;
      if stop < |bytes| {
        var _ := LineEndIsEnd(bytes, start + prefer);
        StopsAreChunked(bytes, prefer, stop);
        ChunkedCons(bytes, prefer, start, stop, Stops(bytes, prefer, stop).value);
      }
    }
  }

  lemma {:induction false} StopsAreFar(bytes: seq<Byte>, prefer: nat, stops: seq<nat>, i: nat)
    requires Chunked(bytes, prefer, 0, stops) && i < |stops| - 1
    ensures (i + 1) * prefer < stops[i]
  {
    assert CutAt(bytes, prefer, 0, stops, i);
    if i > 0 {
      StopsAreFar(bytes, prefer, stops, i - 1);
      assert (i + 1) * prefer == i * prefer + prefer;
    }
  }

  /** Chunks longer than the file's size divided by `chunks` are at most that many. */
  lemma AtMostChunks(bytes: seq<Byte>, chunks: nat, stops: seq<nat>)
    requires chunks > 0 && Chunked(bytes, PreferSize(|bytes|, chunks), 0, stops)
    ensures |stops| <= chunks
  {
    hide LineEnd;
    var prefer, n := PreferSize(|bytes|, chunks), |stops| - 1;
    PreferIsLeast(|bytes|, chunks);
    if n > 0 {
      StopsAreFar(bytes, prefer, stops, n - 1);
      assert CutAt(bytes, prefer, 0, stops, n - 1);
      if n >= chunks {
        ProductGrows(chunks, n, prefer);
      }
    }
  }

  // ---- when it fails ---------------------------------------------------------------------------

  /** Where the last chunk starts, or the one whose line does not end. That depends on the ends of all the lines before,
      so it follows the same recursion as Stops. */
  ghost function LastStart(bytes: seq<Byte>, prefer: nat, start: nat): (r: nat)
    requires start <= |bytes|
    ensures start <= r <= |bytes|
    decreases |bytes| - start
  {
    if start + prefer >= |bytes| then start
    else
      var stop := LineEnd(bytes, start + prefer);
      if stop.None? || stop.value == |bytes| then start else LastStart(bytes, prefer, stop.value)
  }

  /** Splitting fails exactly if the last chunk starts too far from the end to take the rest of the file, and no
      line break is left from its preferred stop on. */
  lemma {:induction false} FailsExactly(bytes: seq<Byte>, prefer: nat, start: nat)
    requires start <= |bytes|
    ensures Stops(bytes, prefer, start).None?
       <==> (LastStart(bytes, prefer, start) + prefer < |bytes| &&
             NoBreaks(bytes, LastStart(bytes, prefer, start) + prefer, |bytes|))
    decreases |bytes| - start
  {
    hide LineEnd, EndsLine;
    if start + prefer < |bytes| {
      var _ := LineEndIsEnd(bytes, start + prefer);
      var stop := LineEnd(bytes, start + prefer);
      if stop.Some? && stop.value < |bytes| {
        FailsExactly(bytes, prefer, stop.value);
      }
    }
  }

  /** A file that ends with a line break never fails. */
  lemma TerminatedNeverFails(bytes: seq<Byte>, prefer: nat)
    requires bytes == [] || IsBreak(bytes[|bytes| - 1])
    ensures Stops(bytes, prefer, 0).Some?
  {
    FailsExactly(bytes, prefer, 0);
    assert bytes == [] || !NoBreaks(bytes, LastStart(bytes, prefer, 0) + prefer, |bytes|)
           || LastStart(bytes, prefer, 0) + prefer >= |bytes|;
  }

  lemma {:induction false} StartsBehindBreaks(bytes: seq<Byte>, prefer: nat, start: nat)
    requires start <= |bytes| && (start == 0 || IsBreak(bytes[start - 1]))
    ensures var s := LastStart(bytes, prefer, start); s == 0 || IsBreak(bytes[s - 1])
    decreases |bytes| - start
  {
    if start + prefer < |bytes| {
      var _ := LineEndIsEnd(bytes, start + prefer);
      var stop := LineEnd(bytes, start + prefer);
      if stop.Some? && stop.value < |bytes| {
        StartsBehindBreaks(bytes, prefer, stop.value);
      }
    }
  }

  /** A last line without a line break always fails if it is longer than the preferred size. */
  lemma LongTailFails(bytes: seq<Byte>, prefer: nat, tail: nat)
    requires tail + prefer < |bytes| && NoBreaks(bytes, tail, |bytes|)
    ensures Stops(bytes, prefer, 0).None?
  {
    hide LineEnd, Stops;
    FailsExactly(bytes, prefer, 0);
    StartsBehindBreaks(bytes, prefer, 0);
    LastStartStops(bytes, prefer, 0);
    hide LastStart;
    var s := LastStart(bytes, prefer, 0);
    assert s <= tail;
    var p := LineEndIsEnd(bytes, s + prefer);
    assert IsBreak(bytes[|bytes| - 1]) ==> false;
  }

  /** For a file whose last line, from `tail` on, has no line break: splitting fails exactly if the preferred stop
      of the last chunk lies in that line. So it cannot be told from the length of the line alone if that is at most
      the preferred size; LongTailFails is the case of a longer one. */
  lemma FailsByTail(bytes: seq<Byte>, prefer: nat, tail: nat)
    requires tail < |bytes| && NoBreaks(bytes, tail, |bytes|) && (tail == 0 || IsBreak(bytes[tail - 1]))
    ensures Stops(bytes, prefer, 0).None? <==> tail <= LastStart(bytes, prefer, 0) + prefer < |bytes|
    ensures |bytes| - tail > prefer ==> Stops(bytes, prefer, 0).None?
  {
    FailsExactly(bytes, prefer, 0);
    if |bytes| - tail > prefer {
      LongTailFails(bytes, prefer, tail);
    }
  }

  lemma {:induction false} LastStartStops(bytes: seq<Byte>, prefer: nat, start: nat)
    requires start <= |bytes|
    ensures var s := LastStart(bytes, prefer, start);
            s + prefer < |bytes| ==> LineEnd(bytes, s + prefer).None? || LineEnd(bytes, s + prefer).value == |bytes|
    decreases |bytes| - start
  {
    if start + prefer < |bytes| {
      var stop := LineEnd(bytes, start + prefer);
      if stop.Some? && stop.value < |bytes| {
        LastStartStops(bytes, prefer, stop.value);
      }
    }
  }

  // ---- the program -----------------------------------------------------------------------------

  function ReadAt(bytes: seq<Byte>, offset: nat): (r: seq<Byte>) {
    if offset >= |bytes| then [] else bytes[offset..Min(offset + BUF_SIZE, |bytes|)]
  }

  /** One byte of the loop that looks for a line break. */
  lemma NextByte(bytes: seq<Byte>, i: nat, hi: nat)
    requires i <= hi <= |bytes|
    ensures FirstBreak(bytes, i, hi) == if i == hi || IsBreak(bytes[i]) then i else FirstBreak(bytes, i + 1, hi)
  {
  }

  /** One byte of the loop that skips line breaks. */
  lemma NextBreak(bytes: seq<Byte>, i: nat, hi: nat)
    requires i <= hi <= |bytes|
    ensures BreaksEnd(bytes, i, hi) == if i == hi || !IsBreak(bytes[i]) then i else BreaksEnd(bytes, i + 1, hi)
  {
  }

  lemma BufferByte(bytes: seq<Byte>, offset: nat, i: nat)
    requires i < |ReadAt(bytes, offset)|
    ensures offset + i < |bytes| && ReadAt(bytes, offset)[i] == bytes[offset + i]
  {
  }

  /** One buffer of the outer loop. */
  lemma LineEndOfBuffer(bytes: seq<Byte>, offset: nat)
    requires offset <= |bytes|
    ensures var hi := offset + |ReadAt(bytes, offset)|;
            && hi <= |bytes|
            && LineEnd(bytes, offset) ==
               if offset == hi then None
               else if FirstBreak(bytes, offset, hi) == hi then LineEnd(bytes, hi)
               else Some(BreaksEnd(bytes, FirstBreak(bytes, offset, hi), hi))
  {
  }

  method SkipPartialLine(bytes: seq<Byte>, start: nat) returns (stop: Option<nat>)
    requires start <= |bytes|
    ensures stop == LineEnd(bytes, start)
  {
    var offset := start;
    ghost var lineEnd := LineEnd(bytes, start);
    while true
      invariant offset <= |bytes| && LineEnd(bytes, offset) == lineEnd
      decreases |bytes| - offset
    {
      LineEndOfBuffer(bytes, offset);
      hide LineEnd, FirstBreak, BreaksEnd, IsBreak, ReadAt;
      var skipBuf := ReadAt(bytes, offset);
      var n := |skipBuf|;
      if n == 0 {
        return None;
      }
      ghost var lo, hi := offset, offset + n;
      NextByte(bytes, hi, hi);
      NextBreak(bytes, hi, hi);
      ghost var first := FirstBreak(bytes, lo, hi);
      ghost var end := BreaksEnd(bytes, first, hi);
      var i := 0;
      while i < n
        invariant i <= n && offset == lo + i && FirstBreak(bytes, offset, hi) == first
      {
        NextByte(bytes, offset, hi);
        BufferByte(bytes, lo, i);
        if !IsBreak(skipBuf[i]) {
          offset := offset + 1;
        } else {
          while i < n
            invariant i <= n && offset == lo + i && first < hi && BreaksEnd(bytes, offset, hi) == end
          {
            NextBreak(bytes, offset, hi);
            BufferByte(bytes, lo, i);
            if IsBreak(skipBuf[i]) {
              offset := offset + 1;
            } else {
              return Some(offset);
            }
            i := i + 1;
          }
          return Some(offset);
        }
        i := i + 1;
      }
    }
  }

  method NextRange(file: File, start: nat, stop: nat) returns (r: Result<OffsetRange>)
    requires stop <= |file.bytes|
    ensures r == match LineEnd(file.bytes, stop)
                 case None => Err(EOF)
                 case Some(end) => Ok(OffsetRange(file.name, start, end))
  {
    var offset := SkipPartialLine(file.bytes, stop);
    if offset == None {
      return Err(EOF);
    }
    r := Ok(OffsetRange(file.name, start, offset.value));
  }

  function StopsOf(ranges: seq<OffsetRange>): (r: seq<nat>) {
    seq(|ranges|, i requires 0 <= i < |ranges| => ranges[i].Stop)
  }

  ghost function Prepended(stops: seq<nat>, rest: Option<seq<nat>>): (r: Option<seq<nat>>) {
    if rest.None? then None else Some(stops + rest.value)
  }

  lemma Append(file: File, ranges: seq<OffsetRange>, start: nat, stop: nat)
    requires Contiguous(file.name, ranges) && start == StartOf(ranges, |ranges|) <= stop
    ensures var more := ranges + [OffsetRange(file.name, start, stop)];
            Contiguous(file.name, more) && StopsOf(more) == StopsOf(ranges) + [stop] && StartOf(more, |more|) == stop &&
            forall rest :: Prepended(StopsOf(ranges), Prepended([stop], rest)) == Prepended(StopsOf(more), rest)
  {
    var more := ranges + [OffsetRange(file.name, start, stop)];
    forall i: nat | i < |more| ensures Follows(file.name, more, i) {
      assert i < |ranges| ==> Follows(file.name, ranges, i);
    }
    assert StopsOf(more) == StopsOf(ranges) + [stop];
    forall rest ensures Prepended(StopsOf(ranges), Prepended([stop], rest)) == Prepended(StopsOf(more), rest) {
      if rest.Some? {
        assert StopsOf(ranges) + ([stop] + rest.value) == StopsOf(more) + rest.value;
      }
    }
  }

  /** One round of the loop that collects the stops. */
  lemma StopsStep(bytes: seq<Byte>, prefer: nat, start: nat)
    requires start <= |bytes|
    ensures start + prefer >= |bytes| ==> Stops(bytes, prefer, start) == Prepended([|bytes|], Some([]))
    ensures start + prefer < |bytes| ==>
              var stop := LineEnd(bytes, start + prefer);
              Stops(bytes, prefer, start) == if stop.None? then None
              else Prepended([stop.value], StopsFrom(bytes, prefer, stop.value))
  {
    assert [|bytes|] + [] == [|bytes|];
  }

  ghost function StopsFrom(bytes: seq<Byte>, prefer: nat, start: nat): (r: Option<seq<nat>>)
    requires start <= |bytes|
  {
    if start == |bytes| then Some([]) else Stops(bytes, prefer, start)
  }

  lemma NothingPrepended(stops: seq<nat>, rest: Option<seq<nat>>)
    ensures Prepended(stops, Some([])) == Some(stops) && Prepended([], rest) == rest && Prepended(stops, None) == None
  {
    assert rest.Some? ==> [] + rest.value == rest.value;
    assert stops + [] == stops;
  }

  lemma NoRanges(name: string)
    ensures Contiguous(name, []) && StopsOf([]) == [] && forall rest: seq<nat> :: [] + rest == rest
  {
  }

  lemma ChunksCover(file: File, prefer: nat, ranges: seq<OffsetRange>)
    requires Contiguous(file.name, ranges) && Chunked(file.bytes, prefer, 0, StopsOf(ranges))
    ensures Covers(file, ranges)
    ensures forall i :: 0 <= i < |ranges| - 1 ==> ranges[i].Stop - ranges[i].Start > prefer
  {
    var stops := StopsOf(ranges);
    assert forall i :: 0 <= i < |ranges| ==> ranges[i].Stop == stops[i];
    forall i: nat | i < |ranges| - 1
      ensures 0 < ranges[i].Stop < |file.bytes| && IsBreak(file.bytes[ranges[i].Stop - 1])
      ensures ranges[i].Stop - ranges[i].Start > prefer
    {
      assert CutAt(file.bytes, prefer, 0, stops, i) && Follows(file.name, ranges, i);
    }
  }

  /** One range for the whole file if at most one chunk is asked for; else ranges that cover the file, are cut only
      behind line breaks, are at most `chunks` and longer than a chunks-th of the file, but for the last. */
  ghost predicate Splits(file: File, chunks: int, ranges: seq<OffsetRange>) {
    if chunks <= 1 then ranges == [OffsetRange(file.name, 0, |file.bytes|)]
    else
      var prefer := PreferSize(|file.bytes|, chunks);
      && Covers(file, ranges) && |ranges| <= chunks && Stops(file.bytes, prefer, 0) == Some(StopsOf(ranges))
      && forall i :: 0 <= i < |ranges| - 1 ==> ranges[i].Stop - ranges[i].Start > prefer
  }

  /** Some line that has to be ended has no end, as FailsExactly says. */
  ghost predicate Fails(file: File, chunks: int) {
    chunks > 1 && Stops(file.bytes, PreferSize(|file.bytes|, chunks), 0).None?
  }

  lemma ChunksAreRight(file: File, chunks: int, ranges: seq<OffsetRange>)
    requires chunks > 1 && Contiguous(file.name, ranges)
    requires Stops(file.bytes, PreferSize(|file.bytes|, chunks), 0) == Some(StopsOf(ranges))
    ensures !Fails(file, chunks) && Splits(file, chunks, ranges)
  {
    hide Stops, Chunked, Covers, Contiguous;
    StopsAreChunked(file.bytes, PreferSize(|file.bytes|, chunks), 0);
    AtMostChunks(file.bytes, chunks, StopsOf(ranges));
    ChunksCover(file, PreferSize(|file.bytes|, chunks), ranges);
  }

  /** The chunk that is to hold all up to `from` stops behind the line that goes on there, or at the end of the file. */
  ghost predicate EndsAsked(bytes: seq<Byte>, from: nat, stop: nat) {
    if from >= |bytes| then stop == |bytes| else exists p: nat :: EndsLine(bytes, from, p, stop)
  }

  /** Each range ends the line that goes on at the preferred size behind its start, and only the last one starts so near
      the end that it takes the rest. So file and preferred size determine the ranges. */
  lemma RangesEndAsked(file: File, chunks: int, ranges: seq<OffsetRange>)
    requires chunks > 1 && Splits(file, chunks, ranges)
    ensures forall i: nat :: i < |ranges| ==>
                               EndsAsked(file.bytes, ranges[i].Start + PreferSize(|file.bytes|, chunks), ranges[i].Stop)
    ensures forall i: nat :: i < |ranges| - 1 ==> ranges[i].Start + PreferSize(|file.bytes|, chunks) < |file.bytes|
  {
    StopsOfSplit(file, chunks, ranges);
    hide *;
    ChunksEndAsked(file, PreferSize(|file.bytes|, chunks), ranges);
  }

  lemma ChunksEndAsked(file: File, prefer: nat, ranges: seq<OffsetRange>)
    requires Contiguous(file.name, ranges) && Stops(file.bytes, prefer, 0) == Some(StopsOf(ranges))
    ensures forall i: nat :: i < |ranges| ==> EndsAsked(file.bytes, ranges[i].Start + prefer, ranges[i].Stop)
    ensures forall i: nat :: i < |ranges| - 1 ==> ranges[i].Start + prefer < |file.bytes|
  {
    hide Stops, LineEnd, EndsLine, Chunked, Contiguous, StopsOf;
    StopsAreChunked(file.bytes, prefer, 0);
    forall i: nat | i < |ranges|
      ensures EndsAsked(file.bytes, ranges[i].Start + prefer, ranges[i].Stop)
      ensures i < |ranges| - 1 ==> ranges[i].Start + prefer < |file.bytes|
    {
      RangeEnds(file, prefer, ranges, i);
      if ranges[i].Start + prefer < |file.bytes| {
        var p := LineEndIsEnd(file.bytes, ranges[i].Start + prefer);
      }
    }
  }

  lemma RangeEnds(file: File, prefer: nat, ranges: seq<OffsetRange>, i: nat)
    requires Contiguous(file.name, ranges) && Chunked(file.bytes, prefer, 0, StopsOf(ranges)) && i < |ranges|
    ensures var from := ranges[i].Start + prefer;
            if from >= |file.bytes| then i == |ranges| - 1 && ranges[i].Stop == |file.bytes|
            else LineEnd(file.bytes, from) == Some(ranges[i].Stop)
  {
    var stops := StopsOf(ranges);
    assert Follows(file.name, ranges, i);
    assert i > 0 ==> stops[i - 1] == ranges[i - 1].Stop;
    assert stops[i] == ranges[i].Stop;
    if i < |ranges| - 1 {
      assert CutAt(file.bytes, prefer, 0, stops, i);
    }
    hide LineEnd;
  }

  /** A file that ends with a line break, or is empty, is always split. */
  lemma TerminatedIsSplit(file: File, chunks: int)
    requires file.bytes == [] || IsBreak(file.bytes[|file.bytes| - 1])
    ensures !Fails(file, chunks)
  {
    if chunks > 1 {
      TerminatedNeverFails(file.bytes, PreferSize(|file.bytes|, chunks));
    }
  }

  method SplitLineChunks(info: Option<File>, chunks: int) returns (r: Result<seq<OffsetRange>>)
    ensures info.None? ==> r == Err(NoSuchFile)
    ensures info.Some? && Fails(info.value, chunks) ==> r == Err(EOF)
    ensures info.Some? && !Fails(info.value, chunks) ==> r.Ok? && Splits(info.value, chunks, r.value)
    ensures r.Ok? && chunks > 1 ==>
              forall i: nat :: i < |r.value| ==>
                                 EndsAsked(info.value.bytes, r.value[i].Start + PreferSize(|info.value.bytes|, chunks),
                                           r.value[i].Stop)
  {
    if info == None {
      return Err(NoSuchFile);
    }
    var file := info.value;
    var size := |file.bytes|;
    if chunks <= 1 {
      return Ok([OffsetRange(file.name, 0, size)]);
    }
    var ranges: seq<OffsetRange> := [];
    var offset := 0;
    var preferSize := PreferSize(size, chunks);
    NoRanges(file.name);
    NothingPrepended([], Stops(file.bytes, preferSize, 0));
    hide LineEnd, Contiguous, Covers, StopsOf, Splits, Stops, Prepended, PreferSize, EndsAsked;
    while true
      invariant offset == StartOf(ranges, |ranges|) <= size && Contiguous(file.name, ranges)
      invariant Stops(file.bytes, preferSize, 0) == Prepended(StopsOf(ranges), Stops(file.bytes, preferSize, offset))
      decreases size - offset
    {
      StopsStep(file.bytes, preferSize, offset);
      if offset + preferSize >= size {
        Append(file, ranges, offset, size);
        ranges := ranges + [OffsetRange(file.name, offset, size)];
        break;
      }
      var offsetRange := NextRange(file, offset, offset + preferSize);
      if offsetRange.Err? {
        NothingPrepended(StopsOf(ranges), None);
        return Err(offsetRange.error);
      }
      Append(file, ranges, offset, offsetRange.value.Stop);
      ranges := ranges + [offsetRange.value];
      if offsetRange.value.Stop < size {
        offset := offsetRange.value.Stop;
      } else {
        break;
      }
    }
    NothingPrepended(StopsOf(ranges), None);
    ChunksAreRight(file, chunks, ranges);
    RangesEndAsked(file, chunks, ranges);
    r := Ok(ranges);
  }

  // ---- where a CR is separated from its LF -------------------------------------------------------

  /** Of the ranges that SplitLineChunks returns, one stops between a CR and its LF if and only if the line breaks
      behind its preferred stop run across the end of a buffer there. */
  lemma RangeCutsCrLfWhen(file: File, chunks: int, ranges: seq<OffsetRange>, i: nat)
    requires chunks > 1 && Splits(file, chunks, ranges) && i < |ranges| - 1
    ensures IsCrLf(file.bytes, ranges[i].Stop)
       <==> BreaksCross(file.bytes, ranges[i].Start + PreferSize(|file.bytes|, chunks))
  {
    StopsOfSplit(file, chunks, ranges);
    hide *;
    CutsCrLfWhen(file, PreferSize(|file.bytes|, chunks), ranges, i);
  }

  lemma StopsOfSplit(file: File, chunks: int, ranges: seq<OffsetRange>)
    requires chunks > 1 && Splits(file, chunks, ranges)
    ensures Contiguous(file.name, ranges)
    ensures Stops(file.bytes, PreferSize(|file.bytes|, chunks), 0) == Some(StopsOf(ranges))
  {
    hide Stops, Contiguous, StopsOf;
  }

  lemma CutsCrLfWhen(file: File, prefer: nat, ranges: seq<OffsetRange>, i: nat)
    requires Contiguous(file.name, ranges) && Stops(file.bytes, prefer, 0) == Some(StopsOf(ranges))
    requires i < |ranges| - 1
    ensures IsCrLf(file.bytes, ranges[i].Stop) <==> BreaksCross(file.bytes, ranges[i].Start + prefer)
  {
    hide Stops, LineEnd, BreaksCross, Chunked, CutAt;
    StopsAreChunked(file.bytes, prefer, 0);
    StopIsLineEnd(file, prefer, ranges, i);
    CrLfIsCutWhen(file.bytes, ranges[i].Start + prefer);
  }

  lemma StopIsLineEnd(file: File, prefer: nat, ranges: seq<OffsetRange>, i: nat)
    requires Contiguous(file.name, ranges) && Chunked(file.bytes, prefer, 0, StopsOf(ranges)) && i < |ranges| - 1
    ensures LineEnd(file.bytes, ranges[i].Start + prefer) == Some(ranges[i].Stop)
  {
    hide LineEnd;
    var stops := StopsOf(ranges);
    assert CutAt(file.bytes, prefer, 0, stops, i) && Follows(file.name, ranges, i);
    assert i > 0 ==> stops[i - 1] == ranges[i - 1].Stop;
  }

  /** 4096 bytes in two lines, of which the first ends with a CR and an LF. */
  function TwoLines(): (r: seq<Byte>) {
    seq(4096, i => if i == 3072 then CR else if i == 3073 || i == 4095 then LF else 65)
  }

  /** In two chunks, the first stops between the CR and the LF. */
  method SplitCanCutCrLf() returns (r: Result<seq<OffsetRange>>)
    ensures r.Ok? && |r.value| == 2 && r.value[0].Stop == 3073 && IsCrLf(TwoLines(), r.value[0].Stop)
  {
    var file := File("f", TwoLines());
    TerminatedIsSplit(file, 2);
    assert EndsLine(file.bytes, 2049, 3072, 3073);
    LineEndIsUnique(file.bytes, 2049, 3072, 3073);
    assert Stops(file.bytes, 2049, 3073) == Some([4096]);
    assert [3073] + [4096] == [3073, 4096];
    assert Stops(file.bytes, 2049, 0) == Some([3073, 4096]);
    hide Stops, Fails, TwoLines;
    r := SplitLineChunks(Some(file), 2);
    assert r.value[0].Stop == StopsOf(r.value)[0];
  }

  // ---- a file that cannot be split ---------------------------------------------------------------

  /** Three characters without a line break, to be split in two. */
  method SplitCanFail() returns (r: Result<seq<OffsetRange>>)
    ensures r == Err(EOF)
  {
    var file := File("f", [65, 65, 65]);
    LongTailFails(file.bytes, 2, 0);
    r := SplitLineChunks(Some(file), 2);
  }
}
