/** The decoder's output buffer: a window over the output produced so far, the
    dictionary in front of it, and draining into a sink that may refuse bytes. */
module DecodeBuffering {
  import opened Bits
  import opened Results
  import opened Ring

  // ----- copying matches -----

  /** Append `n` bytes, each one the byte `offset` positions back. */
  function LzCopy(h: seq<byte>, offset: nat, n: nat): (r: seq<byte>)
    requires 1 <= offset <= |h|
    ensures |r| == |h| + n
    decreases n
  {
    if n == 0 then h else LzCopy(h + [h[|h| - offset]], offset, n - 1)
  }

  lemma {:induction false} LzSplit(h: seq<byte>, offset: nat, a: nat, b: nat)
    requires 1 <= offset <= |h|
    ensures LzCopy(h, offset, a + b) == LzCopy(LzCopy(h, offset, a), offset, b)
    decreases a
  {
    if a > 0 {
      LzSplit(h + [h[|h| - offset]], offset, a - 1, b);
    }
  }

  /** Up to `offset` bytes can be copied at once. */
  lemma {:induction false} LzChunk(h: seq<byte>, offset: nat, n: nat)
    requires 1 <= offset <= |h| && n <= offset
    ensures LzCopy(h, offset, n) == h + h[|h| - offset..|h| - offset + n]
    decreases n
  {
    if n > 0 {
      LzChunk(h, offset, n - 1);
      LzSplit(h, offset, n - 1, 1);
      var g := LzCopy(h, offset, n - 1);
      assert g[|g| - offset] == h[|h| - offset + (n - 1)];
      assert LzCopy(g, offset, 1) == g + [g[|g| - offset]];
    }
  }

  /** What lies further back than the offset does not matter. */
  lemma {:induction false} LzPrefix(p: seq<byte>, h: seq<byte>, offset: nat, n: nat)
    requires 1 <= offset <= |h|
    ensures LzCopy(p + h, offset, n) == p + LzCopy(h, offset, n)
    decreases n
  {
    if n > 0 {
      var x := h[|h| - offset];
      assert (p + h) + [x] == p + (h + [x]);
      assert (p + h)[|p + h| - offset] == x;
      LzPrefix(p, h + [x], offset, n - 1);
    }
  }

  /** The copy repeats the last `offset` bytes. */
  lemma {:induction false} LzPeriodic(h: seq<byte>, offset: nat, n: nat, i: nat)
    requires 1 <= offset <= |h| && i < |h| + n
    ensures LzCopy(h, offset, n)[i] == if i < |h| then h[i] else LzCopy(h, offset, n)[i - offset]
    decreases n
  {
    if n > 0 {
      var g := h + [h[|h| - offset]];
      LzPeriodic(g, offset, n - 1, i);
      if i == |h| {
        LzPeriodic(g, offset, n - 1, i - offset);
      }
    }
  }

  // ----- sinks -----

  datatype SinkError = SinkError

  /** What the environment decides for one write: an error, or at most so many bytes. */
  datatype Answer = Refuse | Take(atMost: nat)

  /** An arbitrary writer: its answers are any sequence; without one it takes all. */
  class Sink {
    var received: seq<byte>
    var answers: seq<Answer>

    constructor (answers: seq<Answer>)
      ensures received == [] && this.answers == answers
    {
      received := [];
      this.answers := answers;
    }

    method Write(buf: seq<byte>) returns (r: Result<nat, SinkError>)
      modifies this
      ensures r.Ok? ==> r.value <= |buf| && received == old(received) + buf[..r.value]
      ensures r.Err? ==> received == old(received)
      ensures old(answers) == [] ==> r == Ok(|buf|) && answers == []
      ensures old(answers) != [] ==> answers == old(answers)[1..]
      ensures old(answers) != [] ==> match old(answers)[0]
        case Refuse => r.Err?
        case Take(n) => r == Ok(if n < |buf| then n else |buf|)
    {
      if answers == [] {
        received := received + buf;
        assert buf[..|buf|] == buf;
        return Ok(|buf|);
      }
      var a := answers[0];
      answers := answers[1..];
      if a.Refuse? {
        return Err(SinkError);
      }
      var n := if a.atMost < |buf| then a.atMost else |buf|;
      received := received + buf[..n];
      r := Ok(n);
    }
  }

  /** The answers left are those behind the first `n`. */
  ghost predicate Consumed(before: seq<Answer>, after: seq<Answer>, n: nat) {
    n <= |before| && after == before[n..]
  }

  /** The last answer consumed was an error, or that nothing more is taken. */
  ghost predicate Stopped(before: seq<Answer>, after: seq<Answer>, failed: bool) {
    exists n :: n > 0 && Consumed(before, after, n) && before[n - 1] == if failed then Refuse else Take(0)
  }

  lemma StoppedLater(a: seq<Answer>, b: seq<Answer>, c: seq<Answer>, m: nat, failed: bool)
    requires Consumed(a, b, m) && Stopped(b, c, failed)
    ensures Stopped(a, c, failed)
  {
    var n :| n > 0 && Consumed(b, c, n) && b[n - 1] == if failed then Refuse else Take(0);
    assert Consumed(a, c, m + n);
  }

  /** Write until everything is taken, nothing more is taken, or an error occurs;
      the number of bytes taken in any case. */
  method WriteAllBytes(sink: Sink, buf: seq<byte>) returns (written: nat, r: Result<(), SinkError>, ghost used: nat)
    modifies sink
    ensures written <= |buf| && sink.received == old(sink.received) + buf[..written]
    ensures old(sink.answers) == [] ==> written == |buf| && r.Ok? && sink.answers == []
    ensures r.Err? ==> written < |buf|
    ensures Consumed(old(sink.answers), sink.answers, used)
    ensures written < |buf| ==> Stopped(old(sink.answers), sink.answers, r.Err?)
  {
    written := 0;
    used := 0;
    ghost var answers := sink.answers;
    while written < |buf|
      invariant written <= |buf| && sink.received == old(sink.received) + buf[..written]
      invariant Consumed(answers, sink.answers, used)
      decreases |buf| - written
    {
      ghost var more := sink.answers != [];
      var w := sink.Write(buf[written..]);
      used := used + if more then 1 else 0;
      assert Consumed(answers, sink.answers, used);
      if w.Err? {
        return written, Err(w.error), used;
      }
      if w.value == 0 {
        return written, Ok(()), used;
      }
      assert buf[..written] + buf[written..][..w.value] == buf[..written + w.value];
      written := written + w.value;
    }
    r := Ok(());
  }

  /** Offer `amount` bytes in two pieces. The second piece is only offered when the
      first one was taken completely. */
  method OfferPieces(slice1: seq<byte>, slice2: seq<byte>, amount: nat, sink: Sink) returns (done: nat, failed: bool)
    requires slice1 == [] ==> slice2 == []
    modifies sink
    ensures done <= amount && done <= |slice1 + slice2|
    ensures sink.received == old(sink.received) + (slice1 + slice2)[..done]
    ensures old(sink.answers) == [] ==> !failed && sink.answers == [] && (done == amount || done == |slice1 + slice2|)
    ensures failed ==> done < amount && done < |slice1 + slice2|
    ensures done < amount && done < |slice1 + slice2| ==> Stopped(old(sink.answers), sink.answers, failed)
  {
    var n1 := if |slice1| < amount then |slice1| else amount;
    var n2 := if |slice2| < amount - n1 then |slice2| else amount - n1;
    done := 0;
    failed := false;
    if n1 != 0 {
      ghost var answers, used1, used2;
      var written1, res1;
      answers := sink.answers;
      written1, res1, used1 := WriteAllBytes(sink, slice1[..n1]);
      done := written1;
      TakenPrefix(slice1, slice2, n1, written1);
      if res1.Err? {
        failed := true;
      } else if written1 == n1 && n2 != 0 {
        ghost var between := sink.answers;
        var written2, res2;
        written2, res2, used2 := WriteAllBytes(sink, slice2[..n2]);
        TakenTwice(old(sink.received), slice1, slice2, n1, n2, written2);
        done := done + written2;
        failed := res2.Err?;
        if written2 < n2 {
          StoppedLater(answers, between, sink.answers, used1, failed);
        }
      }
    }
  }

  // ----- the buffer -----

  datatype DecodeBufferError =
    | NotEnoughBytesInDictionary(have: nat, need: nat)
    | OffsetTooBig(offset: nat, bufLen: nat)

  /** The match ends before the buffer begins: such a match is not counted. */
  predicate WhollyInDict(len: nat, offset: nat, matchLength: nat) {
    offset > len && offset - len >= matchLength
  }

  class DecodeBuffer {
    const buffer: RingBuffer
    var dictContent: seq<byte>
    var windowSize: nat
    var totalOutputCounter: nat
    ghost var drained: seq<byte>

    ghost predicate Valid()
      reads this, buffer
    {
      buffer.Valid()
    }

    ghost function Contents(): seq<byte>
      requires Valid()
      reads this, buffer, buffer.buf
    {
      buffer.Contents()
    }

    /** Everything produced so far, whether it still is in the buffer or not. */
    ghost function Output(): seq<byte>
      requires Valid()
      reads this, buffer, buffer.buf
    {
      drained + Contents()
    }

    /** The window is still there: as much of the output as the window size. */
    ghost predicate WindowKept()
      requires Valid()
      reads this, buffer, buffer.buf
    {
      |Contents()| >= windowSize || |Contents()| == |Output()|
    }

    constructor (windowSize: nat, word: nat)
      requires word > 0
      ensures Valid() && fresh(buffer) && fresh(buffer.buf) && this.windowSize == windowSize
      ensures Output() == [] && dictContent == [] && totalOutputCounter == 0
    {
      buffer := new RingBuffer(word);
      dictContent := [];
      this.windowSize := windowSize;
      totalOutputCounter := 0;
      drained := [];
    }

    method Reset(windowSize: nat)
      requires Valid()
      modifies this, buffer, buffer.buf
      ensures Valid() && (buffer.buf == old(buffer.buf) || fresh(buffer.buf))
      ensures this.windowSize == windowSize && Output() == [] && dictContent == [] && totalOutputCounter == 0
    {
      this.windowSize := windowSize;
      buffer.Clear();
      buffer.Reserve(windowSize);
      dictContent := [];
      totalOutputCounter := 0;
      drained := [];
    }

    method Push(data: seq<byte>)
      requires Valid()
      modifies this`totalOutputCounter, buffer, buffer.buf
      ensures Valid() && (buffer.buf == old(buffer.buf) || fresh(buffer.buf))
      ensures Contents() == old(Contents()) + data && Output() == old(Output()) + data
      ensures totalOutputCounter == old(totalOutputCounter) + |data|
      ensures old(WindowKept()) ==> WindowKept()
    {
      buffer.Extend(data);
      totalOutputCounter := totalOutputCounter + |data|;
    }

    /** Where a match may begin: in the buffer, or in the dictionary in front of it
        while the output is still within the window. */
    ghost predicate Reachable(offset: nat)
      requires Valid()
      reads this, buffer, buffer.buf
    {
      || offset <= |Contents()|
      || (totalOutputCounter <= windowSize && offset <= |dictContent| + |Contents()|)
    }

    /** Copy a match. Offset zero is excluded by all callers. */
    method Repeat(offset: nat, matchLength: nat) returns (r: Result<(), DecodeBufferError>)
      requires Valid() && offset >= 1
      modifies this`totalOutputCounter, buffer, buffer.buf
      ensures Valid() && (buffer.buf == old(buffer.buf) || fresh(buffer.buf))
      ensures r.Ok? <==> old(Reachable(offset))
      ensures r.Ok? ==> dictContent + Contents() == LzCopy(dictContent + old(Contents()), offset, matchLength)
      ensures offset <= old(|Contents()|) ==> Contents() == LzCopy(old(Contents()), offset, matchLength)
      ensures r.Ok? ==> totalOutputCounter == old(totalOutputCounter) + if WhollyInDict(old(|Contents()|), offset, matchLength) then 0 else matchLength
      ensures r.Err? ==> Contents() == old(Contents()) && totalOutputCounter == old(totalOutputCounter)
      ensures r.Err? ==> r.error == if totalOutputCounter > windowSize then OffsetTooBig(offset, |Contents()|)
        else NotEnoughBytesInDictionary(|dictContent|, offset - |Contents()|)
      decreases matchLength, 1
    {
      hide LzCopy, Bytes;
      if offset > buffer.Len() {
        r := RepeatFromDict(offset, matchLength);
      } else {
        var bufLen := buffer.Len();
        var startIdx := bufLen - offset;
        var endIdx := startIdx + matchLength;
        ghost var before := Contents();
        buffer.Reserve(matchLength);
        if endIdx > bufLen {
          RepeatInChunks(offset, matchLength, startIdx);
        } else {
          LzChunk(before, offset, matchLength);
          buffer.ExtendFromWithinUnchecked(startIdx, matchLength);
        }
        LzPrefix(dictContent, before, offset, matchLength);
        totalOutputCounter := totalOutputCounter + matchLength;
        r := Ok(());
      }
    }

    /** The match overlaps itself: copy `offset` bytes at a time. */
    method RepeatInChunks(offset: nat, matchLength: nat, startIdx: nat)
      requires Valid() && 1 <= offset <= |Contents()| && startIdx == |Contents()| - offset && buffer.Free() >= matchLength
      requires buffer.buf.Length > 0
      modifies buffer`tail, buffer.buf
      ensures Valid() && Contents() == LzCopy(old(Contents()), offset, matchLength)
    {
      hide LzCopy, Bytes;
      ghost var before := Contents();
      var start: nat := startIdx;
      var left: nat := matchLength;
      LzNothing(before, offset);
      while left > 0
        invariant Valid() && left <= matchLength && start == |Contents()| - offset && buffer.Free() >= left
        invariant Contents() == LzCopy(before, offset, matchLength - left)
      {
        var chunkSize := if offset < left then offset else left;
        LzChunk(Contents(), offset, chunkSize);
        LzSplit(before, offset, matchLength - left, chunkSize);
        buffer.ExtendFromWithinUnchecked(start, chunkSize);
        left := left - chunkSize;
        start := start + chunkSize;
      }
    }

    /** The match begins in the dictionary. */
    method RepeatFromDict(offset: nat, matchLength: nat) returns (r: Result<(), DecodeBufferError>)
      requires Valid() && offset > |Contents()|
      modifies this`totalOutputCounter, buffer, buffer.buf
      ensures Valid() && (buffer.buf == old(buffer.buf) || fresh(buffer.buf))
      ensures r.Ok? <==> old(Reachable(offset))
      ensures r.Ok? ==> dictContent + Contents() == LzCopy(dictContent + old(Contents()), offset, matchLength)
      ensures r.Ok? ==> totalOutputCounter == old(totalOutputCounter) + if WhollyInDict(old(|Contents()|), offset, matchLength) then 0 else matchLength
      ensures r.Err? ==> Contents() == old(Contents()) && totalOutputCounter == old(totalOutputCounter)
      ensures r.Err? ==> r.error == if totalOutputCounter > windowSize then OffsetTooBig(offset, |Contents()|)
        else NotEnoughBytesInDictionary(|dictContent|, offset - |Contents()|)
      decreases matchLength, 0
    {
      hide LzCopy, Bytes;
      if totalOutputCounter <= windowSize {
        ghost var before := Contents();
        var bytesFromDict := offset - buffer.Len();
        if bytesFromDict > |dictContent| {
          return Err(NotEnoughBytesInDictionary(|dictContent|, bytesFromDict));
        }
        var low := |dictContent| - bytesFromDict;
        if bytesFromDict < matchLength {
          DictPart(dictContent, before, offset, bytesFromDict);
          LzSplit(dictContent + before, offset, bytesFromDict, matchLength - bytesFromDict);
          buffer.Extend(dictContent[low..]);
          totalOutputCounter := totalOutputCounter + bytesFromDict;
          r := Repeat(buffer.Len(), matchLength - bytesFromDict);
        } else {
          DictPart(dictContent, before, offset, matchLength);
          buffer.Extend(dictContent[low..low + matchLength]);
          r := Ok(());
        }
      } else {
        r := Err(OffsetTooBig(offset, buffer.Len()));
      }
    }

    /** Copy a match, seen from everything produced: the bytes appended are those of
        a byte by byte copy over the whole output, with the dictionary in front of it
        as long as nothing has been drained. */
    method RepeatOutput(offset: nat, matchLength: nat) returns (r: Result<(), DecodeBufferError>)
      requires Valid() && offset >= 1
      modifies this`totalOutputCounter, buffer, buffer.buf
      ensures Valid() && (buffer.buf == old(buffer.buf) || fresh(buffer.buf))
      ensures r.Ok? <==> old(Reachable(offset))
      ensures offset <= old(|Contents()|) ==> Output() == LzCopy(old(Output()), offset, matchLength)
      ensures r.Ok? && drained == [] ==> dictContent + Output() == LzCopy(dictContent + old(Output()), offset, matchLength)
      ensures r.Err? ==> Output() == old(Output())
      ensures old(WindowKept()) ==> WindowKept()
    {
      hide LzCopy;
      ghost var before := Contents();
      if offset <= |before| {
        LzPrefix(drained, before, offset, matchLength);
      }
      r := Repeat(offset, matchLength);
      assert drained == [] ==> Output() == Contents() && drained + before == before;
    }

    // ----- draining -----

    /** Hand the first `amount` bytes to the sink and drop what it took: also when it
        takes less or fails. */
    method DrainTo(amount: nat, sink: Sink) returns (r: Result<nat, SinkError>, ghost taken: nat)
      requires Valid()
      modifies buffer`head, `drained, sink
      ensures Valid() && taken <= amount && taken <= old(|Contents()|)
      ensures Contents() == old(Contents())[taken..]
      ensures drained == old(drained) + old(Contents())[..taken]
      ensures sink.received == old(sink.received) + old(Contents())[..taken]
      ensures Output() == old(Output())
      ensures r.Ok? ==> r.value == taken
      ensures r.Err? ==> taken < amount && taken < old(|Contents()|)
      ensures taken < amount && taken < old(|Contents()|) ==> Stopped(old(sink.answers), sink.answers, r.Err?)
      ensures old(sink.answers) == [] ==> r.Ok? && sink.answers == [] && (taken == amount || taken == old(|Contents()|))
    {
      hide Bytes;
      taken := 0;
      if amount == 0 {
        return Ok(0), 0;
      }
      ghost var before := Contents();
      var (slice1, slice2) := buffer.AsSlices();
      var done, failed := OfferPieces(slice1, slice2, amount, sink);
      taken := done;
      drained := drained + before[..done];
      if done != 0 {
        buffer.DropFirstN(done);
      }
      r := if failed then Err(SinkError) else Ok(done);
    }

    /** How much more than the window the buffer holds. */
    function CanDrainToWindowSize(): (r: Option<nat>)
      requires Valid()
      reads this, buffer, buffer.buf
      ensures r.Some? <==> |Contents()| > windowSize
      ensures r.Some? ==> r.value + windowSize == |Contents()|
    {
      if buffer.Len() > windowSize then Some(buffer.Len() - windowSize) else None
    }

    /** Drain down to the window: whatever the sink does, the window is kept. */
    method DrainToWindowSizeWriter(sink: Sink) returns (r: Result<nat, SinkError>)
      requires Valid()
      modifies buffer`head, `drained, sink
      ensures Valid() && Output() == old(Output())
      ensures sink.received + Contents() == old(sink.received) + old(Contents())
      ensures |Contents()| >= (if old(|Contents()|) < windowSize then old(|Contents()|) else windowSize)
      ensures old(WindowKept()) ==> WindowKept()
      ensures r.Ok? ==> r.value == old(|Contents()|) - |Contents()|
      ensures r.Err? || |Contents()| > windowSize ==> Stopped(old(sink.answers), sink.answers, r.Err?)
      ensures old(sink.answers) == [] ==> r.Ok? && |Contents()| <= windowSize
    {
      match CanDrainToWindowSize()
      case None =>
        r := Ok(0);
      case Some(canDrain) =>
        ghost var before := Contents();
        ghost var taken;
        r, taken := DrainTo(canDrain, sink);
        Rejoin(old(sink.received), before, taken);
    }

    /** Drain everything into a writer. */
    method DrainToWriter(sink: Sink) returns (r: Result<nat, SinkError>)
      requires Valid()
      modifies buffer`head, `drained, sink
      ensures Valid() && Output() == old(Output())
      ensures sink.received + Contents() == old(sink.received) + old(Contents())
      ensures r.Ok? ==> r.value == old(|Contents()|) - |Contents()|
      ensures r.Err? || Contents() != [] ==> Stopped(old(sink.answers), sink.answers, r.Err?)
      ensures old(sink.answers) == [] ==> r.Ok? && Contents() == []
    {
      ghost var before := Contents();
      ghost var taken;
      r, taken := DrainTo(buffer.Len(), sink);
      Rejoin(old(sink.received), before, taken);
    }

    /** Take everything. */
    method Drain() returns (all: seq<byte>)
      requires Valid()
      modifies buffer`head, buffer`tail, `drained
      ensures Valid() && all == old(Contents()) && Contents() == [] && Output() == old(Output())
    {
      var (slice1, slice2) := buffer.AsSlices();
      all := slice1 + slice2;
      drained := drained + all;
      buffer.Clear();
    }

    /** Read at most `room` bytes of what exceeds the window. */
    method Read(room: nat) returns (target: seq<byte>)
      requires Valid()
      modifies buffer`head, `drained
      ensures Valid() && Output() == old(Output())
      ensures target + Contents() == old(Contents())
      ensures |target| == var extra := if old(|Contents()|) > windowSize then old(|Contents()|) - windowSize else 0;
        if extra < room then extra else room
      ensures old(WindowKept()) ==> WindowKept()
    {
      var maxAmount: nat := match CanDrainToWindowSize() case None => 0 case Some(n) => n;
      var amount := if maxAmount < room then maxAmount else room;
      ghost var before := Contents();
      var sink := new Sink([]);
      var r;
      ghost var taken;
      r, taken := DrainTo(amount, sink);
      target := sink.received;
      Rejoin([], before, taken);
    }
  }

  lemma LzNothing(h: seq<byte>, offset: nat)
    requires 1 <= offset <= |h|
    ensures LzCopy(h, offset, 0) == h
  {
  }

  /** The first bytes of a match into the dictionary are a slice of the dictionary. */
  lemma DictPart(dict: seq<byte>, h: seq<byte>, offset: nat, n: nat)
    requires |h| < offset <= |dict| + |h| && n <= offset - |h|
    ensures var low := |dict| + |h| - offset;
      dict + (h + dict[low..low + n]) == LzCopy(dict + h, offset, n)
    ensures n == offset - |h| ==> dict[|dict| + |h| - offset..] == dict[|dict| + |h| - offset..|dict| + |h| - offset + n]
  {
    LzChunk(dict + h, offset, n);
  }

  /** The bytes taken from two pieces are the first bytes of both together. */
  lemma TakenPrefix(a: seq<byte>, b: seq<byte>, n: nat, done: nat)
    requires n <= |a| && done <= n
    ensures a[..n][..done] == (a + b)[..done]
  {
  }

  lemma TakenTwice(s: seq<byte>, a: seq<byte>, b: seq<byte>, n1: nat, n2: nat, done: nat)
    requires n1 == |a| && n2 <= |b| && done <= n2
    ensures s + a[..n1] + b[..n2][..done] == s + (a + b)[..n1 + done]
  {
  }

  lemma Rejoin(s: seq<byte>, b: seq<byte>, n: nat)
    requires n <= |b|
    ensures s + b[..n] + b[n..] == s + b
  {
  }
}
