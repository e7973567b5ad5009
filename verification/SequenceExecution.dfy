/** Executing sequences: literals and matches into the output, offsets through the
    history of recent offsets (RFC 8878, sections 3.1.1.4 and 3.1.1.5). */
module SequenceExecution {
  import opened Bits
  import opened Results
  import opened DecodeBuffering
  import opened SequenceCodes

  // ----- the offset history -----

  /** The history as the standard describes it: three recent offsets, the latest first. */
  ghost predicate History(h: seq<nat>) {
    |h| == 3
  }

  ghost predicate NonZero(h: seq<nat>) {
    History(h) && forall i :: 0 <= i < 3 ==> h[i] >= 1
  }

  /** The element at position `i` moves to the front. */
  function ToFront(h: seq<nat>, i: nat): seq<nat>
    requires i < |h|
  {
    [h[i]] + h[..i] + h[i + 1..]
  }

  /** A new element in front, the oldest one is forgotten. */
  function NewFront(h: seq<nat>, x: nat): seq<nat>
    requires |h| > 0
  {
    [x] + h[..|h| - 1]
  }

  /** Values above three are new offsets. The others repeat a recent one, counted one
      further when there are no literals; one further than the last is the latest
      offset minus one. */
  function Resolve(h: seq<nat>, value: nat, ll: nat): (r: (nat, seq<nat>))
    requires |h| == 3 && h[0] >= 1 && value >= 1
    ensures |r.1| == 3 && r.1[0] == r.0
  {
    if value > 3 then (value - 3, NewFront(h, value - 3)) else
    var i := if ll > 0 then value - 1 else value;
    if i < 3 then (h[i], ToFront(h, i)) else (h[0] - 1, NewFront(h, h[0] - 1))
  }

  /** What each value means for the recent offsets `a`, `b`, `c`: the offset and the
      three recent offsets afterwards, case by case. */
  ghost predicate HistoryTable(a: nat, b: nat, c: nat, value: nat, literals: bool, offset: nat, a': nat, b': nat, c': nat) {
    if value > 3 then offset == value - 3 && (a', b', c') == (value - 3, a, b)
    else if value == 1 && literals then offset == a && (a', b', c') == (a, b, c)
    else if value == 2 && literals then offset == b && (a', b', c') == (b, a, c)
    else if value == 3 && literals then offset == c && (a', b', c') == (c, a, b)
    else if value == 1 then offset == b && (a', b', c') == (b, a, c)
    else if value == 2 then offset == c && (a', b', c') == (c, a, b)
    else value == 3 && offset == a - 1 && (a', b', c') == (a - 1, a, b)
  }

  /** The moves to the front are those of the table. */
  lemma RepeatCodes(a: nat, b: nat, c: nat, value: nat, ll: nat)
    requires a >= 1 && value >= 1
    ensures var (offset, h) := Resolve([a, b, c], value, ll);
      |h| == 3 && HistoryTable(a, b, c, value, ll > 0, offset, h[0], h[1], h[2])
  {
  }

  /** The history keeps its non-zero offsets as long as the offset itself is not zero. */
  lemma HistoryStays(h: seq<nat>, value: nat, ll: nat)
    requires NonZero(h) && value >= 1
    ensures NonZero(Resolve(h, value, ll).1) <==> Resolve(h, value, ll).0 != 0
    ensures Resolve(h, value, ll).0 == 0 <==> value == 3 && ll == 0 && h[0] == 1
  {
  }

  /** The history is rewritten in place. */
  method DoOffsetHistory(offsetValue: nat, litLen: nat, scratch: array<nat>) returns (actualOffset: nat)
    requires scratch.Length == 3 && scratch[0] >= 1 && offsetValue >= 1
    modifies scratch
    ensures (actualOffset, scratch[..]) == Resolve(old(scratch[..]), offsetValue, litLen)
    ensures HistoryTable(old(scratch[0]), old(scratch[1]), old(scratch[2]), offsetValue, litLen > 0,
      actualOffset, scratch[0], scratch[1], scratch[2])
  {
    ghost var h := scratch[..];
    RepeatCodes(scratch[0], scratch[1], scratch[2], offsetValue, litLen);
    assert [scratch[0], scratch[1], scratch[2]] == h;
    if litLen > 0 {
      if offsetValue <= 3 {
        actualOffset := scratch[offsetValue - 1];
      } else {
        actualOffset := offsetValue - 3;
      }
    } else {
      if offsetValue <= 2 {
        actualOffset := scratch[offsetValue];
      } else if offsetValue == 3 {
        actualOffset := scratch[0] - 1;
      } else {
        actualOffset := offsetValue - 3;
      }
    }
    if litLen > 0 {
      if offsetValue == 1 {
      } else if offsetValue == 2 {
        scratch[1] := scratch[0];
        scratch[0] := actualOffset;
      } else {
        scratch[2] := scratch[1];
        scratch[1] := scratch[0];
        scratch[0] := actualOffset;
      }
    } else {
      if offsetValue == 1 {
        scratch[1] := scratch[0];
        scratch[0] := actualOffset;
      } else {
        scratch[2] := scratch[1];
        scratch[1] := scratch[0];
        scratch[0] := actualOffset;
      }
    }
    assert scratch[..] == Resolve(h, offsetValue, litLen).1;
  }

  // ----- the reference -----

  /** Output, history and literals used. */
  datatype State = State(output: seq<byte>, history: seq<nat>, used: nat)

  /** One sequence: its literals, then its match. Nothing if there are not enough
      literals, or the match would begin before the output. */
  function ExecuteOne(st: State, literals: seq<byte>, s: Sequence): (r: Option<State>)
    requires |st.history| == 3 && st.history[0] >= 1 && s.of >= 1 && st.used <= |literals|
    ensures r.Some? ==> |r.value.history| == 3 && r.value.history[0] >= 1
    ensures r.Some? ==> |r.value.output| == |st.output| + s.ll + s.ml && r.value.used == st.used + s.ll <= |literals|
  {
    if s.ll > 0 && st.used + s.ll > |literals| then None else
    var output := if s.ll > 0 then st.output + literals[st.used..st.used + s.ll] else st.output;
    var (offset, history) := Resolve(st.history, s.of, s.ll);
    if offset == 0 then None
    else if s.ml == 0 then Some(State(output, history, st.used + s.ll))
    else if offset > |output| then None
    else Some(State(LzCopy(output, offset, s.ml), history, st.used + s.ll))
  }

  /** One sequence byte by byte: behind what was there the literals, behind them each
      byte equals the one the offset further back, and the offset is now the most
      recent one. It fails only for lack of literals, for the offset zero, or when the
      match would begin before the output. */
  lemma OneSequence(st: State, literals: seq<byte>, s: Sequence)
    requires |st.history| == 3 && st.history[0] >= 1 && s.of >= 1 && st.used <= |literals|
    ensures var r, h, (offset, h') := ExecuteOne(st, literals, s), st.history, Resolve(st.history, s.of, s.ll);
      && HistoryTable(h[0], h[1], h[2], s.of, s.ll > 0, offset, h'[0], h'[1], h'[2])
      && (r.None? <==> st.used + s.ll > |literals| || offset == 0 || (s.ml > 0 && offset > |st.output| + s.ll))
      && (r.Some? ==> r.value.history == h' && Appended(st.output, literals[st.used..st.used + s.ll], offset, s.ml, r.value.output))
  {
    hide Resolve, HistoryTable, LzCopy;
    var h := st.history;
    RepeatCodes(h[0], h[1], h[2], s.of, s.ll);
    assert [h[0], h[1], h[2]] == h;
    var r := ExecuteOne(st, literals, s);
    if r.Some? {
      var piece, offset := literals[st.used..st.used + s.ll], Resolve(h, s.of, s.ll).0;
      var before := st.output + piece;
      assert s.ll == 0 ==> before == st.output;
      if s.ml > 0 {
        LzAppends(before, offset, s.ml);
      }
    }
  }

  lemma LzAppends(h: seq<byte>, offset: nat, n: nat)
    requires 1 <= offset <= |h|
    ensures var all := LzCopy(h, offset, n);
      |all| == |h| + n && all[..|h|] == h && forall i :: |h| <= i < |all| ==> all[i] == all[i - offset]
  {
    hide LzCopy;
    var all := LzCopy(h, offset, n);
    forall i | 0 <= i < |h|
      ensures all[i] == h[i]
    {
      LzPeriodic(h, offset, n, i);
    }
    forall i | |h| <= i < |all|
      ensures all[i] == all[i - offset]
    {
      LzPeriodic(h, offset, n, i);
    }
  }

  /** `all` continues `output` with `piece` and a match of `n` bytes. */
  ghost predicate Appended(output: seq<byte>, piece: seq<byte>, offset: nat, n: nat, all: seq<byte>) {
    && |all| == |output| + |piece| + n
    && all[..|output| + |piece|] == output + piece
    && (n > 0 ==> offset <= |output| + |piece|)
    && forall i :: |output| + |piece| <= i < |all| ==> all[i] == all[i - offset]
  }

  ghost predicate Offsets(seqs: seq<Sequence>) {
    forall i :: 0 <= i < |seqs| ==> seqs[i].of >= 1
  }

  function MatchTotal(seqs: seq<Sequence>): nat {
    if seqs == [] then 0 else seqs[0].ml + MatchTotal(seqs[1..])
  }

  function ExecuteAll(st: State, literals: seq<byte>, seqs: seq<Sequence>): (r: Option<State>)
    requires |st.history| == 3 && st.history[0] >= 1 && Offsets(seqs) && st.used <= |literals|
    ensures r.Some? ==> |r.value.history| == 3 && r.value.history[0] >= 1 && r.value.used <= |literals|
    ensures r.Some? ==> |r.value.output| == |st.output| + (r.value.used - st.used) + MatchTotal(seqs)
    decreases |seqs|
  {
    if seqs == [] then Some(st) else
    var one := ExecuteOne(st, literals, seqs[0]);
    if one.None? then None else ExecuteAll(one.value, literals, seqs[1..])
  }

  /** All sequences, then the literals that are left. */
  function Reference(output: seq<byte>, history: seq<nat>, literals: seq<byte>, seqs: seq<Sequence>): (r: Option<(seq<byte>, seq<nat>)>)
    requires |history| == 3 && history[0] >= 1 && Offsets(seqs)
  {
    var st := ExecuteAll(State(output, history, 0), literals, seqs);
    if st.None? then None
    else if st.value.used < |literals| then Some((st.value.output + literals[st.value.used..], st.value.history))
    else Some((st.value.output, st.value.history))
  }

  /** The output grows by all literals and all match lengths. */
  lemma ReferenceLength(output: seq<byte>, history: seq<nat>, literals: seq<byte>, seqs: seq<Sequence>)
    requires |history| == 3 && history[0] >= 1 && Offsets(seqs)
    ensures var r := Reference(output, history, literals, seqs);
      r.Some? ==> |r.value.0| == |output| + |literals| + MatchTotal(seqs) && output <= r.value.0
  {
    var st := ExecuteAll(State(output, history, 0), literals, seqs);
    if st.Some? {
      OutputGrows(State(output, history, 0), literals, seqs);
    }
  }

  lemma {:induction false} OutputGrows(st: State, literals: seq<byte>, seqs: seq<Sequence>)
    requires |st.history| == 3 && st.history[0] >= 1 && Offsets(seqs) && st.used <= |literals|
    ensures var r := ExecuteAll(st, literals, seqs); r.Some? ==> st.output <= r.value.output
    decreases |seqs|
  {
    hide ExecuteOne;
    if seqs != [] {
      var one := ExecuteOne(st, literals, seqs[0]);
      if one.Some? {
        OneGrows(st, literals, seqs[0]);
        OutputGrows(one.value, literals, seqs[1..]);
      }
    }
  }

  lemma OneGrows(st: State, literals: seq<byte>, s: Sequence)
    requires |st.history| == 3 && st.history[0] >= 1 && s.of >= 1 && st.used <= |literals|
    ensures var r := ExecuteOne(st, literals, s); r.Some? ==> st.output <= r.value.output
  {
    hide Resolve, LzCopy;
    var output := if s.ll > 0 && st.used + s.ll <= |literals| then st.output + literals[st.used..st.used + s.ll] else st.output;
    var (offset, history) := Resolve(st.history, s.of, s.ll);
    if 1 <= offset <= |output| {
      LzGrows(output, offset, s.ml);
    }
  }

  lemma {:induction false} LzGrows(h: seq<byte>, offset: nat, n: nat)
    requires 1 <= offset <= |h|
    ensures h <= LzCopy(h, offset, n)
    decreases n
  {
    if n > 0 {
      LzGrows(h + [h[|h| - offset]], offset, n - 1);
    }
  }

  // ----- what lies before the output does not matter -----

  function Prefixed(p: seq<byte>, st: Option<State>): Option<State> {
    if st.None? then None else Some(st.value.(output := p + st.value.output))
  }

  lemma PrefixOne(p: seq<byte>, st: State, literals: seq<byte>, s: Sequence)
    requires |st.history| == 3 && st.history[0] >= 1 && s.of >= 1 && st.used <= |literals|
    requires ExecuteOne(st, literals, s).Some?
    ensures ExecuteOne(st.(output := p + st.output), literals, s) == Prefixed(p, ExecuteOne(st, literals, s))
  {
    hide Resolve, LzCopy;
    var output := if s.ll > 0 then st.output + literals[st.used..st.used + s.ll] else st.output;
    var offset := Resolve(st.history, s.of, s.ll).0;
    assert s.ll > 0 ==> p + st.output + literals[st.used..st.used + s.ll] == p + output;
    if s.ml > 0 {
      LzPrefix(p, output, offset, s.ml);
    }
  }

  lemma {:induction false} PrefixAll(p: seq<byte>, st: State, literals: seq<byte>, seqs: seq<Sequence>)
    requires |st.history| == 3 && st.history[0] >= 1 && Offsets(seqs) && st.used <= |literals|
    requires ExecuteAll(st, literals, seqs).Some?
    ensures ExecuteAll(st.(output := p + st.output), literals, seqs) == Prefixed(p, ExecuteAll(st, literals, seqs))
    decreases |seqs|
  {
    hide ExecuteOne;
    if seqs != [] {
      var one := ExecuteOne(st, literals, seqs[0]);
      PrefixOne(p, st, literals, seqs[0]);
      PrefixAll(p, one.value, literals, seqs[1..]);
    }
  }

  /** A run that stays inside a suffix of the output is a run on the whole output. */
  lemma ReferencePrefix(p: seq<byte>, output: seq<byte>, history: seq<nat>, literals: seq<byte>, seqs: seq<Sequence>)
    requires |history| == 3 && history[0] >= 1 && Offsets(seqs)
    requires Reference(output, history, literals, seqs).Some?
    ensures Reference(p + output, history, literals, seqs).Some?
    ensures var r, q := Reference(output, history, literals, seqs).value, Reference(p + output, history, literals, seqs).value;
      q == (p + r.0, r.1)
  {
    hide ExecuteAll;
    PrefixAll(p, State(output, history, 0), literals, seqs);
    var st := ExecuteAll(State(output, history, 0), literals, seqs).value;
    assert p + st.output + literals[st.used..] == p + (st.output + literals[st.used..]);
  }

  // ----- the execution -----

  datatype ExecuteSequencesError =
    | NotEnoughBytesForSequence(wanted: nat, have: nat)
    | ZeroOffset
    | BufferError(e: DecodeBufferError)

  /** What one round of the loop does to the state, dictionary in front. */
  method ExecuteSequence(buffer: DecodeBuffer, hist: array<nat>, literals: seq<byte>, used: nat, s: Sequence)
    returns (r: Result<nat, ExecuteSequencesError>)
    requires buffer.Valid() && hist.Length == 3 && NonZero(hist[..]) && s.of >= 1 && used <= |literals|
    modifies buffer`totalOutputCounter, buffer.buffer, buffer.buffer.buf, hist
    ensures buffer.Valid() && (buffer.buffer.buf == old(buffer.buffer.buf) || fresh(buffer.buffer.buf))
    ensures var one := ExecuteOne(State(buffer.dictContent + old(buffer.Contents()), old(hist[..]), used), literals, s);
      && (r.Ok? ==> NonZero(hist[..]) && one == Some(State(buffer.dictContent + buffer.Contents(), hist[..], r.value)))
      && (buffer.dictContent == [] ==> (r.Ok? <==> one.Some?))
    ensures r.Ok? ==> |buffer.Contents()| == old(|buffer.Contents()|) + s.ll + s.ml
    ensures r == Err(ZeroOffset) ==> s.of == 3 && s.ll == 0 && old(hist[0]) == 1
  {
    hide LzCopy, Resolve;
    ghost var dict, before, h := buffer.dictContent, buffer.Contents(), hist[..];
    HistoryStays(h, s.of, s.ll);
    if s.ll > 0 {
      var high := used + s.ll;
      if high > |literals| {
        return Err(NotEnoughBytesForSequence(high, |literals|));
      }
      buffer.Push(literals[used..high]);
      assert dict + (before + literals[used..high]) == (dict + before) + literals[used..high];
    }
    var actualOffset := DoOffsetHistory(s.of, s.ll, hist);
    if actualOffset == 0 {
      return Err(ZeroOffset);
    }
    if s.ml > 0 {
      var copied := buffer.Repeat(actualOffset, s.ml);
      if copied.Err? {
        return Err(BufferError(copied.error));
      }
    }
    r := Ok(used + s.ll);
  }

  lemma AllStep(st: State, literals: seq<byte>, seqs: seq<Sequence>, idx: nat)
    requires |st.history| == 3 && st.history[0] >= 1 && Offsets(seqs) && st.used <= |literals| && idx < |seqs|
    ensures Offsets(seqs[idx..]) && Offsets(seqs[idx + 1..]) && seqs[idx].of >= 1
    ensures ExecuteAll(st, literals, seqs[idx..]) == var one := ExecuteOne(st, literals, seqs[idx]);
      if one.None? then None else ExecuteAll(one.value, literals, seqs[idx + 1..])
  {
    hide ExecuteOne;
    assert seqs[idx..][0] == seqs[idx] && seqs[idx..][1..] == seqs[idx + 1..];
  }

  lemma AllOver(st: State, literals: seq<byte>, seqs: seq<Sequence>)
    requires |st.history| == 3 && st.history[0] >= 1 && Offsets(seqs) && st.used <= |literals|
    ensures ExecuteAll(st, literals, seqs[|seqs|..]) == Some(st) && seqs[0..] == seqs
  {
  }

  /** The loop over the sequences: literals used and bytes produced. */
  method RunSequences(buffer: DecodeBuffer, seqs: seq<Sequence>, literals: seq<byte>, hist: array<nat>)
    returns (r: Result<(nat, nat), ExecuteSequencesError>)
    requires buffer.Valid() && hist.Length == 3 && NonZero(hist[..]) && Offsets(seqs)
    modifies buffer`totalOutputCounter, buffer.buffer, buffer.buffer.buf, hist
    ensures buffer.Valid() && (buffer.buffer.buf == old(buffer.buffer.buf) || fresh(buffer.buffer.buf))
    ensures var all := ExecuteAll(State(buffer.dictContent + old(buffer.Contents()), old(hist[..]), 0), literals, seqs);
      && (r.Ok? ==> NonZero(hist[..]) && all == Some(State(buffer.dictContent + buffer.Contents(), hist[..], r.value.0)))
      && (buffer.dictContent == [] ==> (r.Ok? <==> all.Some?))
    ensures r.Ok? ==> r.value.0 <= |literals| && |buffer.Contents()| == old(|buffer.Contents()|) + r.value.1
  {
    hide ExecuteOne, LzCopy, ExecuteAll;
    var literalsCopyCounter: nat := 0;
    var seqSum: nat := 0;
    ghost var dict, first := buffer.dictContent, State(buffer.dictContent + buffer.Contents(), hist[..], 0);
    assert seqs[0..] == seqs;
    for idx := 0 to |seqs|
      invariant buffer.Valid() && (buffer.buffer.buf == old(buffer.buffer.buf) || fresh(buffer.buffer.buf))
      invariant NonZero(hist[..]) && literalsCopyCounter <= |literals| && Offsets(seqs[idx..])
      invariant ExecuteAll(first, literals, seqs) ==
        ExecuteAll(State(dict + buffer.Contents(), hist[..], literalsCopyCounter), literals, seqs[idx..])
      invariant |buffer.Contents()| == old(|buffer.Contents()|) + seqSum
    {
      AllStep(State(dict + buffer.Contents(), hist[..], literalsCopyCounter), literals, seqs, idx);
      var s := seqs[idx];
      var step := ExecuteSequence(buffer, hist, literals, literalsCopyCounter, s);
      if step.Err? {
        return Err(step.error);
      }
      literalsCopyCounter := step.value;
      seqSum := seqSum + s.ml + s.ll;
    }
    AllOver(State(dict + buffer.Contents(), hist[..], literalsCopyCounter), literals, seqs);
    r := Ok((literalsCopyCounter, seqSum));
  }

  /** Every successful run gives the reference output, keeps the history free of
      zeros and grows the output by all literals and matches; without a dictionary
      it succeeds exactly when the reference is defined. */
  method ExecuteSequences(buffer: DecodeBuffer, seqs: seq<Sequence>, literals: seq<byte>, hist: array<nat>)
    returns (r: Result<(), ExecuteSequencesError>)
    requires buffer.Valid() && hist.Length == 3 && NonZero(hist[..]) && Offsets(seqs)
    modifies buffer`totalOutputCounter, buffer.buffer, buffer.buffer.buf, hist
    ensures buffer.Valid() && (buffer.buffer.buf == old(buffer.buffer.buf) || fresh(buffer.buffer.buf))
    ensures var ref := Reference(buffer.dictContent + old(buffer.Contents()), old(hist[..]), literals, seqs);
      && (r.Ok? ==> NonZero(hist[..]) && ref == Some((buffer.dictContent + buffer.Contents(), hist[..])))
      && (buffer.dictContent == [] ==> (r.Ok? <==> ref.Some?))
    ensures r.Ok? ==> |buffer.Contents()| == old(|buffer.Contents()|) + |literals| + MatchTotal(seqs)
  {
    hide ExecuteAll;
    var oldBufferSize := buffer.buffer.Len();
    ghost var dict, before := buffer.dictContent, buffer.Contents();
    var run := RunSequences(buffer, seqs, literals, hist);
    if run.Err? {
      return Err(run.error);
    }
    var (literalsCopyCounter, seqSum) := run.value;
    ghost var done := buffer.Contents();
    if literalsCopyCounter < |literals| {
      var restLiterals := literals[literalsCopyCounter..];
      buffer.Push(restLiterals);
      assert dict + (done + restLiterals) == (dict + done) + restLiterals;
      seqSum := seqSum + |restLiterals|;
    }
    ReferenceLength(dict + before, old(hist[..]), literals, seqs);
    var diff := buffer.buffer.Len() - oldBufferSize;
    assert seqSum == diff;
    r := Ok(());
  }

  /** The same, seen from everything produced since the beginning of the frame. */
  method ExecuteOnOutput(buffer: DecodeBuffer, seqs: seq<Sequence>, literals: seq<byte>, hist: array<nat>)
    returns (r: Result<(), ExecuteSequencesError>)
    requires buffer.Valid() && hist.Length == 3 && NonZero(hist[..]) && Offsets(seqs)
    modifies buffer`totalOutputCounter, buffer.buffer, buffer.buffer.buf, hist
    ensures buffer.Valid() && (buffer.buffer.buf == old(buffer.buffer.buf) || fresh(buffer.buffer.buf))
    ensures r.Ok? && buffer.dictContent == [] ==>
      Reference(old(buffer.Output()), old(hist[..]), literals, seqs) == Some((buffer.Output(), hist[..]))
    ensures r.Ok? && buffer.drained == [] ==>
      Reference(buffer.dictContent + old(buffer.Output()), old(hist[..]), literals, seqs) == Some((buffer.dictContent + buffer.Output(), hist[..]))
  {
    hide Reference;
    ghost var before := buffer.Contents();
    r := ExecuteSequences(buffer, seqs, literals, hist);
    if r.Ok? {
      Seen(buffer.dictContent, buffer.drained, before, buffer.Contents());
      if buffer.dictContent == [] {
        ReferencePrefix(buffer.drained, before, old(hist[..]), literals, seqs);
      }
    }
  }

  lemma Seen(dict: seq<byte>, drained: seq<byte>, before: seq<byte>, after: seq<byte>)
    ensures dict == [] ==> dict + before == before && dict + after == after
    ensures drained == [] ==> drained + before == before && drained + after == after
  {
  }
}
