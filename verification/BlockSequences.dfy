/** A block as the encoder hands it on, literals and sequences, and what a decoder
    makes of a whole run of blocks. */
module BlockSequences {
  import opened Concatenation
  import opened Bits
  import opened Results
  import opened DecodeBuffering
  import opened SequenceCodes
  import opened SequenceStream
  import opened SequenceExecution
  import opened Matching

  // ----- emissions of one block -----

  /** How many bytes an emission stands for. */
  function Covered(s: Emitted): nat {
    match s
    case Literals(literals) => |literals|
    case Triple(literals, _, n) => |literals| + n
  }

  function CoveredAll(ss: seq<Emitted>): nat {
    if ss == [] then 0 else CoveredAll(ss[..|ss| - 1]) + Covered(ss[|ss| - 1])
  }

  /** Matches first, at most one run of literals at the end. */
  ghost predicate LiteralsLast(ss: seq<Emitted>) {
    forall i :: 0 <= i < |ss| - 1 ==> ss[i].Triple?
  }

  /** Every match lies in a window of the given size and does not overlap itself. */
  ghost predicate InWindow(ss: seq<Emitted>, size: nat) {
    forall i :: 0 <= i < |ss| && ss[i].Triple? ==>
      MIN_MATCH_LEN <= ss[i].matchLen <= ss[i].offset && ss[i].offset + ss[i].matchLen <= size
  }

  /** The emissions of a block whose positions begin at `from`: literals only where no
      match is remembered, matches always the best one remembered. */
  ghost predicate Greedy(hash: Hash, w: seq<WindowEntry>, from: nat, ss: seq<Emitted>)
    requires w != []
  {
    ss == [] || (
      && Greedy(hash, w, from, ss[..|ss| - 1])
      && EmittedBest(hash, w, ss[|ss| - 1], from + CoveredAll(ss[..|ss| - 1]), from + CoveredAll(ss)))
  }

  lemma NothingGreedy(hash: Hash, w: seq<WindowEntry>, from: nat)
    requires w != []
    ensures Greedy(hash, w, from, []) && CoveredAll([]) == 0
  {
  }

  lemma GreedySnoc(hash: Hash, w: seq<WindowEntry>, from: nat, ss: seq<Emitted>, s: Emitted)
    requires w != [] && Greedy(hash, w, from, ss) && EmittedBest(hash, w, s, from + CoveredAll(ss), from + CoveredAll(ss) + Covered(s))
    ensures Greedy(hash, w, from, ss + [s])
  {
    hide EmittedBest;
    assert (ss + [s])[..|ss|] == ss;
  }

  /** What was emitted stays the best when more is registered. */
  lemma {:induction false} StillGreedy(hash: Hash, v: seq<WindowEntry>, w: seq<WindowEntry>, at: nat, end: nat, from: nat, ss: seq<Emitted>)
    requires v != [] && LastRegistered(hash, v, w, at, end) && Greedy(hash, v, from, ss)
    ensures w != [] && Greedy(hash, w, from, ss)
    decreases |ss|
  {
    hide LastRegistered, EmittedBest;
    RegisteredLength(hash, v, w, at, end);
    if ss != [] {
      StillGreedy(hash, v, w, at, end, from, ss[..|ss| - 1]);
      StillEmittedBest(hash, v, w, at, end, ss[|ss| - 1], from + CoveredAll(ss[..|ss| - 1]), from + CoveredAll(ss));
    }
  }

  lemma StillEmittedBest(hash: Hash, v: seq<WindowEntry>, w: seq<WindowEntry>, at: nat, end: nat, s: Emitted, from: nat, to: nat)
    requires v != [] && LastRegistered(hash, v, w, at, end) && EmittedBest(hash, v, s, from, to)
    ensures w != [] && EmittedBest(hash, w, s, from, to)
  {
    hide LastRegistered, AllPassed, BestAt;
    match s
    case Literals(_) =>
      AllStillPassed(hash, v, w, from, to, at, end);
    case Triple(_, offset, n) =>
      AllStillPassed(hash, v, w, from, to - n, at, end);
      StillBest(hash, v, w, at, end, to - n, offset, n);
  }

  /** All emissions of the current block: replayed on the data before the block they
      give the data with the block. */
  method StartMatching(g: MatchGenerator) returns (ss: seq<Emitted>)
    requires g.Valid() && g.window != []
    modifies g`window, g`suffixIdx, g`lastIdxInSequence
    ensures g.Valid() && SameData(g.window, old(g.window)) && g.All() == old(g.All()) && g.Emission() == g.All()
    ensures ReplayAll(old(g.Emission()), ss) == Some(g.All())
    ensures LiteralsLast(ss) && InWindow(ss, |g.All()|)
    ensures CoveredAll(ss) == |g.All()| - old(|g.Emission()|)
    ensures old(g.suffixIdx == g.lastIdxInSequence) ==> Greedy(g.hash, g.window, old(g.suffixIdx), ss)
    ensures g.window != [] && g.suffixIdx == |g.window[|g.window| - 1].data|
  {
    hide Replay, Joined, Stored, Distance, ReplayAll, CoveredAll, LiteralsLast, InWindow, AllTriples, SameData,
      Greedy, EmittedBest, LastRegistered, MatchGenerator.Valid, MatchGenerator.All, MatchGenerator.Emission,
      MatchGenerator.LastStart;
    ss := [];
    ghost var start, from, flush := g.LastStart(), g.suffixIdx, g.suffixIdx == g.lastIdxInSequence;
    NothingGreedy(g.hash, g.window, from);
    ghost var first, all, w0 := g.Emission(), g.All(), g.window;
    ghost var ended := false;
    NothingYet(first, |all|, w0);
    EmissionLength(g);
    while true
      invariant g.Valid() && g.window != [] && SameData(g.window, w0) && g.All() == all
      invariant ReplayAll(first, ss) == Some(g.Emission()) && InWindow(ss, |all|)
      invariant if ended then LiteralsLast(ss) && g.Emission() == all else AllTriples(ss)
      invariant |first| + CoveredAll(ss) == |g.Emission()| <= |all|
      invariant g.LastStart() == start
      invariant flush ==> g.suffixIdx == g.lastIdxInSequence == from + CoveredAll(ss) && Greedy(g.hash, g.window, from, ss)
      decreases |all| - |g.Emission()|
    {
      ghost var before, w, at := g.Emission(), g.window, g.suffixIdx;
      EmissionLength(g);
      var s := g.NextSequence();
      StillSame(g.window, w, w0);
      if flush {
        StillGreedy(g.hash, w, g.window, at, g.suffixIdx, from, ss);
      }
      EmissionLength(g);
      if s.None? {
        EmittedAll(g);
        TriplesEnd(ss);
        return;
      }
      ReplayLength(before, s.value);
      ReplaySnoc(first, ss, s.value);
      OneMore(ss, s.value, |all|);
      if flush {
        GreedySnoc(g.hash, g.window, from, ss, s.value);
      }
      ended := s.value.Literals?;
      ss := ss + [s.value];
    }
  }

  lemma NothingYet(first: seq<byte>, size: nat, w: seq<WindowEntry>)
    ensures ReplayAll(first, []) == Some(first) && InWindow([], size) && AllTriples([]) && CoveredAll([]) == 0 && SameData(w, w)
  {
  }

  lemma TriplesEnd(ss: seq<Emitted>)
    ensures AllTriples(ss) ==> LiteralsLast(ss)
  {
  }

  lemma OneMore(ss: seq<Emitted>, s: Emitted, size: nat)
    requires AllTriples(ss) && InWindow(ss, size)
    requires s.Triple? ==> MIN_MATCH_LEN <= s.matchLen <= s.offset && s.offset + s.matchLen <= size
    ensures InWindow(ss + [s], size)
    ensures if s.Literals? then LiteralsLast(ss + [s]) else AllTriples(ss + [s])
  {
  }

  lemma StillSame(u: seq<WindowEntry>, v: seq<WindowEntry>, w: seq<WindowEntry>)
    requires SameData(u, v) && SameData(v, w)
    ensures SameData(u, w)
  {
  }

  lemma EmissionLength(g: MatchGenerator)
    requires g.Valid() && g.window != []
    ensures |g.Emission()| == g.LastStart() + g.lastIdxInSequence <= |g.All()|
    ensures g.Emission() == g.All() ==> g.lastIdxInSequence == |g.window[|g.window| - 1].data|
  {
    g.EmissionInside();
  }

  lemma EmittedAll(g: MatchGenerator)
    requires g.Valid() && g.window != [] && g.Emission() == g.All()
    ensures g.suffixIdx == |g.window[|g.window| - 1].data|
  {
    EmissionLength(g);
  }

  lemma ReplayLength(h: seq<byte>, s: Emitted)
    requires Replay(h, s).Some?
    ensures |Replay(h, s).value| == |h| + Covered(s)
  {
  }

  lemma ReplaySnoc(h: seq<byte>, ss: seq<Emitted>, s: Emitted)
    ensures ReplayAll(h, ss + [s]) == var one := ReplayAll(h, ss); if one.None? then None else Replay(one.value, s)
    ensures CoveredAll(ss + [s]) == CoveredAll(ss) + Covered(s)
  {
    hide Replay;
    assert (ss + [s])[..|ss|] == ss;
  }

  // ----- literals and sequences -----

  /** All literals of a block in one buffer. */
  function LiteralsOf(ss: seq<Emitted>): seq<byte> {
    if ss == [] then [] else LiteralsOf(ss[..|ss| - 1]) + ss[|ss| - 1].literals
  }

  /** A sequence per match; offsets are always sent as new ones. */
  function SequencesOf(ss: seq<Emitted>): seq<Sequence> {
    if ss == [] then [] else
    SequencesOf(ss[..|ss| - 1]) + match ss[|ss| - 1]
      case Literals(_) => []
      case Triple(literals, offset, n) => [Sequence(|literals|, n, offset + 3)]
  }

  method Collect(ss: seq<Emitted>) returns (literals: seq<byte>, sequences: seq<Sequence>)
    ensures literals == LiteralsOf(ss) && sequences == SequencesOf(ss)
  {
    literals, sequences := [], [];
    for i := 0 to |ss|
      invariant literals == LiteralsOf(ss[..i]) && sequences == SequencesOf(ss[..i])
    {
      assert ss[..i + 1][..i] == ss[..i];
      match ss[i]
      case Literals(l) =>
        literals := literals + l;
      case Triple(l, offset, matchLen) =>
        literals := literals + l;
        sequences := sequences + [Sequence(|l|, matchLen, offset + 3)];
    }
    assert ss[..|ss|] == ss;
  }

  // ----- executing them -----

  lemma {:induction false} ExecuteSnoc(st: State, literals: seq<byte>, seqs: seq<Sequence>, s: Sequence)
    requires |st.history| == 3 && st.history[0] >= 1 && Offsets(seqs) && s.of >= 1 && st.used <= |literals|
    ensures Offsets(seqs + [s])
    ensures ExecuteAll(st, literals, seqs + [s]) ==
      var all := ExecuteAll(st, literals, seqs); if all.None? then None else ExecuteOne(all.value, literals, s)
    decreases |seqs|
  {
    hide ExecuteOne;
    if seqs == [] {
      assert [] + [s] == [s];
      ExecuteEmpty(st, literals, [s]);
    } else {
      assert (seqs + [s])[1..] == seqs[1..] + [s] && (seqs + [s])[0] == seqs[0];
      var one := ExecuteOne(st, literals, seqs[0]);
      if one.Some? {
        ExecuteSnoc(one.value, literals, seqs[1..], s);
      }
    }
  }

  lemma ExecuteEmpty(st: State, literals: seq<byte>, seqs: seq<Sequence>)
    requires |st.history| == 3 && st.history[0] >= 1 && Offsets(seqs) && |seqs| == 1 && st.used <= |literals|
    ensures ExecuteAll(st, literals, seqs) == ExecuteOne(st, literals, seqs[0])
  {
    hide ExecuteOne;
    assert seqs[1..] == [];
  }

  lemma MoreLiteralsOne(st: State, literals: seq<byte>, more: seq<byte>, s: Sequence)
    requires |st.history| == 3 && st.history[0] >= 1 && s.of >= 1 && st.used <= |literals| && ExecuteOne(st, literals, s).Some?
    ensures ExecuteOne(st, literals + more, s) == ExecuteOne(st, literals, s)
  {
    hide Resolve, LzCopy;
    if s.ll > 0 {
      assert (literals + more)[st.used..st.used + s.ll] == literals[st.used..st.used + s.ll];
    }
  }

  /** Literals that are not needed do not matter. */
  lemma {:induction false} MoreLiterals(st: State, literals: seq<byte>, more: seq<byte>, seqs: seq<Sequence>)
    requires |st.history| == 3 && st.history[0] >= 1 && Offsets(seqs) && st.used <= |literals|
    requires ExecuteAll(st, literals, seqs).Some?
    ensures ExecuteAll(st, literals + more, seqs) == ExecuteAll(st, literals, seqs)
    decreases |seqs|
  {
    hide ExecuteOne;
    if seqs != [] {
      MoreLiteralsOne(st, literals, more, seqs[0]);
      MoreLiterals(ExecuteOne(st, literals, seqs[0]).value, literals, more, seqs[1..]);
    }
  }

  ghost predicate AllTriples(ss: seq<Emitted>) {
    forall i :: 0 <= i < |ss| ==> ss[i].Triple?
  }

  lemma {:induction false} SequencesAreOffsets(ss: seq<Emitted>)
    ensures Offsets(SequencesOf(ss))
  {
    if ss != [] {
      SequencesAreOffsets(ss[..|ss| - 1]);
    }
  }

  /** Executing the sequences of matches is replaying the matches. */
  lemma {:induction false} TriplesExecute(h: seq<byte>, history: seq<nat>, ss: seq<Emitted>)
    requires AllTriples(ss) && ReplayAll(h, ss).Some? && NonZero(history)
    ensures Offsets(SequencesOf(ss))
    ensures var r := ExecuteAll(State(h, history, 0), LiteralsOf(ss), SequencesOf(ss));
      r.Some? && r.value.output == ReplayAll(h, ss).value && r.value.used == |LiteralsOf(ss)| && NonZero(r.value.history)
  {
    hide ExecuteOne, Replay;
    SequencesAreOffsets(ss);
    if ss != [] {
      var init, s := ss[..|ss| - 1], ss[|ss| - 1];
      TriplesExecute(h, history, init);
      SequencesAreOffsets(init);
      var x := Sequence(|s.literals|, s.matchLen, s.offset + 3);
      MoreLiterals(State(h, history, 0), LiteralsOf(init), s.literals, SequencesOf(init));
      ExecuteSnoc(State(h, history, 0), LiteralsOf(ss), SequencesOf(init), x);
      TripleExecutes(ExecuteAll(State(h, history, 0), LiteralsOf(init), SequencesOf(init)).value, LiteralsOf(init), s);
    }
  }

  lemma TripleExecutes(st: State, literals: seq<byte>, s: Emitted)
    requires NonZero(st.history) && st.used == |literals| && s.Triple? && Replay(st.output, s).Some?
    ensures var r := ExecuteOne(st, literals + s.literals, Sequence(|s.literals|, s.matchLen, s.offset + 3));
      r.Some? && r.value.output == Replay(st.output, s).value && r.value.used == |literals + s.literals| && NonZero(r.value.history)
  {
    hide LzCopy, Resolve;
    HistoryStays(st.history, s.offset + 3, |s.literals|);
    NewOffset(st.history, s.offset, |s.literals|);
    assert (literals + s.literals)[st.used..st.used + |s.literals|] == s.literals;
    assert s.literals == [] ==> st.output + s.literals == st.output;
    LzNothing(st.output + s.literals, s.offset);
  }

  lemma NewOffset(history: seq<nat>, offset: nat, ll: nat)
    requires NonZero(history) && offset >= 1
    ensures Resolve(history, offset + 3, ll).0 == offset
  {
  }

  /** A decoder that executes the collected sequences on the collected literals
      rebuilds what the emissions stand for, whatever its history was. */
  lemma CollectedExecute(h: seq<byte>, history: seq<nat>, ss: seq<Emitted>)
    requires LiteralsLast(ss) && ReplayAll(h, ss).Some? && NonZero(history)
    ensures Offsets(SequencesOf(ss))
    ensures var r := Reference(h, history, LiteralsOf(ss), SequencesOf(ss));
      r.Some? && r.value.0 == ReplayAll(h, ss).value && NonZero(r.value.1)
  {
    hide ExecuteAll, Replay;
    SequencesAreOffsets(ss);
    if ss != [] && ss[|ss| - 1].Literals? {
      var init, l := ss[..|ss| - 1], ss[|ss| - 1].literals;
      assert ss[|ss| - 1] == Literals(l);
      TriplesExecute(h, history, init);
      SequencesAreOffsets(init);
      MoreLiterals(State(h, history, 0), LiteralsOf(init), l, SequencesOf(init));
      assert SequencesOf(ss) == SequencesOf(init) + [] == SequencesOf(init);
      LastLiterals(ReplayAll(h, init).value, LiteralsOf(init), l);
      RestAppended(h, history, LiteralsOf(init), l, SequencesOf(init));
    } else {
      TriplesExecute(h, history, ss);
    }
  }

  /** Literals behind the last sequence are appended. */
  lemma RestAppended(h: seq<byte>, history: seq<nat>, literals: seq<byte>, l: seq<byte>, seqs: seq<Sequence>)
    requires |history| == 3 && history[0] >= 1 && Offsets(seqs)
    requires var r := ExecuteAll(State(h, history, 0), literals + l, seqs); r.Some? && r.value.used == |literals|
    ensures var r := ExecuteAll(State(h, history, 0), literals + l, seqs);
      Reference(h, history, literals + l, seqs) == Some((r.value.output + l, r.value.history))
  {
    hide ExecuteAll;
    var r := ExecuteAll(State(h, history, 0), literals + l, seqs).value;
    LastLiterals(r.output, literals, l);
  }

  lemma LastLiterals(h: seq<byte>, literals: seq<byte>, l: seq<byte>)
    ensures (literals + l)[|literals|..] == l
    ensures Replay(h, Literals(l)) == Some(h + l) && (l == [] ==> h + l == h)
  {
  }

  // ----- the encoder stays in codable range -----

  lemma {:induction false} CoveredPart(ss: seq<Emitted>, i: nat)
    requires i < |ss|
    ensures Covered(ss[i]) <= CoveredAll(ss)
  {
    if i < |ss| - 1 {
      CoveredPart(ss[..|ss| - 1], i);
    }
  }

  lemma {:induction false} SequencesFromTriples(ss: seq<Emitted>, k: nat) returns (i: nat)
    requires k < |SequencesOf(ss)|
    ensures i < |ss| && ss[i].Triple? && SequencesOf(ss)[k] == Sequence(|ss[i].literals|, ss[i].matchLen, ss[i].offset + 3)
  {
    var init := ss[..|ss| - 1];
    if k < |SequencesOf(init)| {
      i := SequencesFromTriples(init, k);
    } else {
      i := |ss| - 1;
    }
  }

  lemma {:induction false} FewSequences(ss: seq<Emitted>, size: nat)
    requires InWindow(ss, size)
    ensures MIN_MATCH_LEN * |SequencesOf(ss)| <= CoveredAll(ss)
  {
    if ss != [] {
      var init := ss[..|ss| - 1];
      assert InWindow(init, size);
      FewSequences(init, size);
    }
  }

  /** What the encoder makes of one block. */
  ghost predicate InRange(seqs: seq<Sequence>) {
    |seqs| <= 26214 && forall k :: 0 <= k < |seqs| ==> Codable(seqs[k]) && 5 <= seqs[k].ml <= 65536 && seqs[k].of >= 8
  }

  /** A window of at most 128 KiB: every match has 5 to 65536 bytes, a block has at
      most 26214 sequences, and all of them can be coded. */
  lemma SequencesCodable(ss: seq<Emitted>, size: nat)
    requires InWindow(ss, size) && CoveredAll(ss) <= size <= 131072
    ensures InRange(SequencesOf(ss))
  {
    FewSequences(ss, size);
    forall k | 0 <= k < |SequencesOf(ss)|
      ensures Codable(SequencesOf(ss)[k]) && 5 <= SequencesOf(ss)[k].ml <= 65536 && SequencesOf(ss)[k].of >= 8
    {
      var i := SequencesFromTriples(ss, k);
      CoveredPart(ss, i);
    }
  }

  // ----- blocks without literals -----

  ghost predicate SomeLiterals(seqs: seq<Sequence>) {
    exists i :: 0 <= i < |seqs| && seqs[i].ll > 0
  }

  /** Matches cannot start from nothing: the first of them has literals. */
  lemma {:induction false} FirstHasLiterals(ss: seq<Emitted>)
    requires ss != [] && AllTriples(ss) && ReplayAll([], ss).Some?
    ensures SomeLiterals(SequencesOf(ss))
  {
    var init, s := ss[..|ss| - 1], ss[|ss| - 1];
    var seqs := SequencesOf(ss);
    assert seqs == SequencesOf(init) + [Sequence(|s.literals|, s.matchLen, s.offset + 3)];
    if init == [] {
      assert seqs[0].ll == |s.literals|;
    } else {
      FirstHasLiterals(init);
      var i :| 0 <= i < |SequencesOf(init)| && SequencesOf(init)[i].ll > 0;
      assert seqs[i] == SequencesOf(init)[i];
    }
  }

  /** In a window of one block every block with a match has literals in front of one. */
  lemma FirstMatchHasLiterals(ss: seq<Emitted>)
    requires LiteralsLast(ss) && ReplayAll([], ss).Some?
    ensures SomeLiterals(SequencesOf(ss)) <==> SequencesOf(ss) != []
  {
    hide SomeLiterals;
    SomeIsNotNone(SequencesOf(ss));
    if SequencesOf(ss) != [] {
      if AllTriples(ss) {
        FirstHasLiterals(ss);
      } else {
        var init := ss[..|ss| - 1];
        assert SequencesOf(ss) == SequencesOf(init);
        FirstHasLiterals(init);
      }
    }
  }

  lemma SomeIsNotNone(seqs: seq<Sequence>)
    ensures SomeLiterals(seqs) ==> seqs != []
  {
  }

  // ----- runs of blocks -----

  /** A block to encode. The encoder skips matching for blocks of one byte value;
      whether a coded block got too large and is stored raw is not decided here. */
  datatype Block = Block(data: seq<byte>, storeRaw: bool)

  datatype Unit =
    | Rle(value: byte, count: nat)
    | Raw(data: seq<byte>)
    | Compressed(literals: seq<byte>, sequences: seq<Sequence>)

  function Repeated(x: byte, n: nat): seq<byte> {
    seq(n, i => x)
  }

  /** What a decoder makes of one block. */
  ghost function DecodeUnit(st: (seq<byte>, seq<nat>), u: Unit): Option<(seq<byte>, seq<nat>)>
    requires NonZero(st.1)
  {
    match u
    case Rle(value, count) => Some((st.0 + Repeated(value, count), st.1))
    case Raw(data) => Some((st.0 + data, st.1))
    case Compressed(literals, sequences) => if Offsets(sequences) then Reference(st.0, st.1, literals, sequences) else None
  }

  ghost function DecodeUnits(st: (seq<byte>, seq<nat>), us: seq<Unit>): Option<(seq<byte>, seq<nat>)>
    requires NonZero(st.1)
  {
    if us == [] then Some(st) else
    var init := DecodeUnits(st, us[..|us| - 1]);
    if init.None? || !NonZero(init.value.1) then None else DecodeUnit(init.value, us[|us| - 1])
  }

  function Source(blocks: seq<Block>, n: nat): seq<byte>
    requires n <= |blocks|
  {
    if n == 0 then [] else Source(blocks, n - 1) + blocks[n - 1].data
  }

  predicate OneValue(data: seq<byte>) {
    forall i :: 0 <= i < |data| ==> data[i] == data[0]
  }

  /** Everything is codable when the window is one block of at most 128 KiB. */
  ghost predicate UnitCodable(u: Unit) {
    u.Compressed? ==> InRange(u.sequences)
  }

  /** There are no matches, or literals in front of one of them. */
  ghost predicate UnitHasLiterals(u: Unit) {
    u.Compressed? ==> u.sequences == [] || SomeLiterals(u.sequences)
  }

  /** The matches of a committed block, as a unit. */
  method EncodeMatches(g: MatchGenerator, block: Block, ghost front: seq<byte>, ghost kept: seq<byte>, ghost history: seq<nat>)
    returns (u: Unit, ghost history': seq<nat>)
    requires g.Valid() && g.window != [] && NonZero(history)
    requires g.All() == kept + block.data && g.Emission() == kept
    modifies g`window, g`suffixIdx, g`lastIdxInSequence
    ensures g.Valid() && g.window != [] && g.suffixIdx == |g.window[|g.window| - 1].data| && g.All() == old(g.All())
    ensures NonZero(history') && DecodeUnit((front + kept, history), u) == Some((front + (kept + block.data), history'))
    ensures g.maxWindowSize <= 131072 ==> UnitCodable(u)
    ensures kept == [] ==> UnitHasLiterals(u)
    ensures SameData(g.window, old(g.window))
  {
    hide Joined, Stored, Distance, ReplayAll, UnitCodable, DecodeUnit, LiteralsLast, InWindow, SameData, CoveredAll,
      SomeLiterals;
    history' := history;
    var ss := StartMatching(g);
    var literals, sequences := Collect(ss);
    if block.storeRaw {
      u := Raw(block.data);
      RawDecodes(front, kept, block.data, history);
    } else {
      u := Compressed(literals, sequences);
      history' := CompressedDecodes(front, kept, g.All(), history, ss);
      BlockCodable(g, ss);
      if kept == [] {
        FirstMatchHasLiterals(ss);
      }
    }
  }

  lemma CompressedDecodes(front: seq<byte>, kept: seq<byte>, all: seq<byte>, history: seq<nat>, ss: seq<Emitted>) returns (history': seq<nat>)
    requires LiteralsLast(ss) && ReplayAll(kept, ss) == Some(all) && NonZero(history)
    ensures NonZero(history')
    ensures DecodeUnit((front + kept, history), Compressed(LiteralsOf(ss), SequencesOf(ss))) == Some((front + all, history'))
  {
    hide Reference, ReplayAll, LiteralsLast, LiteralsOf, SequencesOf;
    CollectedExecute(kept, history, ss);
    ReferencePrefix(front, kept, history, LiteralsOf(ss), SequencesOf(ss));
    history' := Reference(kept, history, LiteralsOf(ss), SequencesOf(ss)).value.1;
  }

  lemma RawDecodes(front: seq<byte>, kept: seq<byte>, data: seq<byte>, history: seq<nat>)
    requires NonZero(history)
    ensures DecodeUnit((front + kept, history), Raw(data)) == Some((front + (kept + data), history)) && UnitCodable(Raw(data))
  {
    assert (front + kept) + data == front + (kept + data);
  }

  /** One block: commit it, match or skip, collect. `p` is what the window has lost. */
  method EncodeBlock(g: MatchGenerator, block: Block, ghost p: seq<byte>, ghost history: seq<nat>)
    returns (u: Unit, ghost p': seq<byte>, ghost history': seq<nat>)
    requires g.Valid() && 0 < |block.data| <= g.maxWindowSize && NonZero(history)
    requires g.window == [] || g.suffixIdx == |g.window[|g.window| - 1].data|
    modifies g`window, g`windowSize, g`suffixIdx, g`lastIdxInSequence
    ensures g.Valid() && g.window != [] && g.suffixIdx == |g.window[|g.window| - 1].data|
    ensures p' + g.All() == (p + old(g.All())) + block.data
    ensures NonZero(history') && DecodeUnit((p + old(g.All()), history), u) == Some(((p + old(g.All())) + block.data, history'))
    ensures g.maxWindowSize <= 131072 ==> UnitCodable(u)
    ensures old(FitsAlone(g, |block.data|)) ==> UnitHasLiterals(u) && |g.window| == 1 && g.windowSize == |block.data|
  {
    hide Joined, Stored, Distance, Reference, UnitCodable, UnitHasLiterals, SameData, DecodeUnit,
      MatchGenerator.Valid, MatchGenerator.All, MatchGenerator.Emission;
    ghost var before := g.All();
    g.AddData(block.data, |block.data|);
    ghost var dropped, kept :| dropped + kept == before && g.All() == kept + block.data && g.Emission() == kept;
    p' := p + dropped;
    Join4(p, dropped, kept, block.data);
    Join3(p, dropped, kept);
    if OneValue(block.data) {
      u := Rle(block.data[0], |block.data|);
      history' := history;
      RleDecodes((p + before, history), block.data);
      ghost var w := g.window;
      g.SkipMatching();
      SameLength(g.window, w);
    } else {
      ghost var w := g.window;
      u, history' := EncodeMatches(g, block, p', kept, history);
      SameLength(g.window, w);
    }
    g.SizeIs();
  }

  lemma SameLength(u: seq<WindowEntry>, v: seq<WindowEntry>)
    requires SameData(u, v)
    ensures |u| == |v|
  {
  }

  /** The window is empty, or holds one block that has to go. */
  ghost predicate FitsAlone(g: MatchGenerator, amount: nat)
    reads g
  {
    g.window == [] || (|g.window| == 1 && g.windowSize + amount > g.maxWindowSize)
  }

  lemma RleDecodes(st: (seq<byte>, seq<nat>), data: seq<byte>)
    requires NonZero(st.1) && data != [] && OneValue(data)
    ensures DecodeUnit(st, Rle(data[0], |data|)) == Some((st.0 + data, st.1))
    ensures UnitCodable(Rle(data[0], |data|)) && UnitHasLiterals(Rle(data[0], |data|))
  {
    assert Repeated(data[0], |data|) == data;
  }

  lemma BlockCodable(g: MatchGenerator, ss: seq<Emitted>)
    requires g.Valid() && InWindow(ss, |g.All()|) && CoveredAll(ss) <= |g.All()|
    ensures g.maxWindowSize <= 131072 ==> UnitCodable(Compressed(LiteralsOf(ss), SequencesOf(ss)))
  {
    if |g.All()| <= 131072 {
      SequencesCodable(ss, |g.All()|);
    }
  }

  /** The source cut into blocks as large as the window, a shorter one at the end. */
  ghost predicate CutFull(blocks: seq<Block>, size: nat) {
    forall i :: 0 <= i < |blocks| - 1 ==> |blocks[i].data| == size
  }

  /** Any run of blocks, whatever the hash: the decoder's output is the source. When
      each block fills the window, all units have literals in front of a match. */
  method EncodeBlocks(maxWindowSize: nat, hash: seq<byte> -> nat, blocks: seq<Block>) returns (us: seq<Unit>, ghost history: seq<nat>)
    requires forall i :: 0 <= i < |blocks| ==> 0 < |blocks[i].data| <= maxWindowSize
    ensures |us| == |blocks|
    ensures NonZero([1, 4, 8]) && DecodeUnits(([], [1, 4, 8]), us) == Some((Source(blocks, |blocks|), history))
    ensures maxWindowSize <= 131072 ==> forall i :: 0 <= i < |us| ==> UnitCodable(us[i])
    ensures CutFull(blocks, maxWindowSize) ==> forall i :: 0 <= i < |us| ==> UnitHasLiterals(us[i])
  {
    hide DecodeUnit, UnitCodable, UnitHasLiterals, Joined, Stored, Distance, MatchGenerator.All;
    var g := new MatchGenerator(maxWindowSize, hash);
    us := [];
    history := [1, 4, 8];
    ghost var lost: seq<byte> := [];
    NothingJoined(g);
    for n := 0 to |blocks|
      invariant g.Valid() && g.maxWindowSize == maxWindowSize && fresh(g)
      invariant g.window == [] || g.suffixIdx == |g.window[|g.window| - 1].data|
      invariant lost + g.All() == Source(blocks, n)
      invariant NonZero(history) && |us| == n
      invariant DecodeUnits(([], [1, 4, 8]), us) == Some((Source(blocks, n), history))
      invariant maxWindowSize <= 131072 ==> forall i :: 0 <= i < |us| ==> UnitCodable(us[i])
      invariant CutFull(blocks, maxWindowSize) ==> forall i :: 0 <= i < |us| ==> UnitHasLiterals(us[i])
      invariant CutFull(blocks, maxWindowSize) && n < |blocks| ==> FitsAlone(g, |blocks[n].data|)
    {
      var u;
      ghost var history';
      u, lost, history' := EncodeBlock(g, blocks[n], lost, history);
      UnitsSnoc(([], [1, 4, 8]), us, u);
      us := us + [u];
      history := history';
    }
  }

  lemma NothingJoined(g: MatchGenerator)
    requires g.Valid() && g.window == []
    ensures g.All() == []
  {
  }

  lemma UnitsSnoc(st: (seq<byte>, seq<nat>), us: seq<Unit>, u: Unit)
    requires NonZero(st.1)
    ensures DecodeUnits(st, us + [u]) == var init := DecodeUnits(st, us);
      if init.None? || !NonZero(init.value.1) then None else DecodeUnit(init.value, u)
  {
    hide DecodeUnit;
    assert (us + [u])[..|us|] == us;
  }

  // ----- a match that has to be found -----

  ghost predicate Different(x: seq<byte>) {
    forall i, j :: 0 <= i < j < |x| ==> x[i] != x[j]
  }

  /** A window of the one block `x` twice, after its first emission. */
  ghost predicate FirstOfDoubled(hash: Hash, x: seq<byte>, capacity: nat, w: seq<WindowEntry>, s: Emitted, end: nat) {
    && |x| >= MIN_MATCH_LEN && Different(x) && capacity > 0
    && LastRegistered(hash, [WindowEntry(x + x, seq(capacity, k => None), 0)], w, 0, end)
    && EmittedBest(hash, w, s, 0, end)
    && (s.Literals? ==> end == 2 * |x|)
  }

  /** The slot of the second copy holds the beginning of the first. */
  lemma CopyRemembered(hash: Hash, x: seq<byte>, capacity: nat, w: seq<WindowEntry>, end: nat)
    requires |x| >= MIN_MATCH_LEN && capacity > 0
    requires LastRegistered(hash, [WindowEntry(x + x, seq(capacity, k => None), 0)], w, 0, end)
    requires LookedUp(hash, w, 0, |x|)
    ensures Remembered(hash, w, 0, |x|) == Some(0) && Shared(w, 0, 0, |x|) == |x|
  {
    var data := x + x;
    assert data[|x|..|x| + MIN_MATCH_LEN] == data[0..MIN_MATCH_LEN];
    var k := SlotOf(hash, data, |x|, capacity);
    assert SlotOf(hash, data, 0, capacity) == k;
    assert FirstIn(hash, data, capacity, 0, end, k, w[0].slots[k]);
    assert data[0..|x|] == x && data[|x|..] == x;
  }

  lemma NoCommon(a: seq<byte>, b: seq<byte>)
    requires a != [] && b != [] && a[0] != b[0]
    ensures CommonPrefix(a, b) == 0
  {
  }

  /** Before the second copy nothing is found. */
  lemma NothingBefore(hash: Hash, x: seq<byte>, capacity: nat, w: seq<WindowEntry>, end: nat, q: nat, offset: nat, n: nat)
    requires |x| >= MIN_MATCH_LEN && Different(x) && capacity > 0
    requires LastRegistered(hash, [WindowEntry(x + x, seq(capacity, k => None), 0)], w, 0, end)
    requires q < |x| && n >= MIN_MATCH_LEN
    ensures !FoundIn(hash, w, 0, q, offset, n)
  {
    hide SlotOf, CommonPrefix;
    var data := x + x;
    forall p | 0 <= p < q
      ensures CommonPrefix(data[p..q], data[q..]) == 0
    {
      NoCommon(data[p..q], data[q..]);
    }
  }

  lemma DoubledFound(hash: Hash, x: seq<byte>, capacity: nat, w: seq<WindowEntry>, s: Emitted, end: nat)
    requires FirstOfDoubled(hash, x, capacity, w, s, end)
    ensures s.Triple? && s.offset == |x| && s.matchLen == |x| && end == 2 * |x|
  {
    hide LookedUp, Shared, SlotOf, LastRegistered, Remembered, Different;
    var n := |x|;
    OneEntry(hash, x, capacity, w, end);
    var q := if s.Literals? then end else end - s.matchLen;
    if q > n {
      assert Passed(hash, w, n);
      assert PassedIn(hash, w, 0, n);
      CopyRemembered(hash, x, capacity, w, end);
      assert false;
    } else if q < n {
      assert FoundIn(hash, w, 0, q, s.offset, s.matchLen);
      NothingBefore(hash, x, capacity, w, end, q, s.offset, s.matchLen);
    } else {
      assert FoundIn(hash, w, 0, q, s.offset, s.matchLen);
      CopyRemembered(hash, x, capacity, w, end);
    }
  }

  lemma OneEntry(hash: Hash, x: seq<byte>, capacity: nat, w: seq<WindowEntry>, end: nat)
    requires LastRegistered(hash, [WindowEntry(x + x, seq(capacity, k => None), 0)], w, 0, end)
    ensures |w| == 1 && w[0].data == x + x && w[0].baseOffset == 0
  {
  }

  /** A block that repeats a string of different bytes: its first emission is the string
      and the match that repeats it, whatever the hash. */
  method DoubledBlock(hash: Hash, x: seq<byte>, capacity: nat) returns (s: Option<Emitted>)
    requires |x| >= MIN_MATCH_LEN && Different(x) && capacity > 0
    ensures s == Some(Triple(x, |x|, |x|))
  {
    hide LastRegistered, EmittedBest, Different, Replay, DropsOldest, Pushed, MatchGenerator.Valid,
      MatchGenerator.All, MatchGenerator.Emission, MatchGenerator.LastStart;
    var g := new MatchGenerator(2 * |x|, hash);
    NothingJoined(g);
    g.AddData(x + x, capacity);
    FreshWindow(x + x, capacity, 2 * |x|, g.window);
    ghost var before := g.Emission();
    s := g.NextSequence();
    EmissionLength(g);
    assert g.window[|g.window| - 1].data == x + x;
    DoubledFound(hash, x, capacity, g.window, s.value, g.suffixIdx);
    g.AllEmitted();
    FirstLiterals(before, s.value, g.Emission(), x);
  }

  lemma FirstLiterals(before: seq<byte>, s: Emitted, all: seq<byte>, x: seq<byte>)
    requires before == [] && s.Triple? && s.offset == |x| == s.matchLen && all == x + x && Replay(before, s) == Some(all)
    ensures s.literals == x
  {
    hide LzCopy;
    assert [] + s.literals == s.literals;
    LzAppendsSame(s.literals, |x|, |x|);
    assert all[..|s.literals|] == s.literals && all[..|x|] == x;
  }

  lemma LzAppendsSame(h: seq<byte>, offset: nat, n: nat)
    requires 1 <= offset <= |h|
    ensures |LzCopy(h, offset, n)| == |h| + n && LzCopy(h, offset, n)[..|h|] == h
  {
    LzGrows(h, offset, n);
  }

  lemma FreshWindow(data: seq<byte>, capacity: nat, size: nat, w: seq<WindowEntry>)
    requires exists kept, d :: DropsOldest([], kept, d, |data|, size) && Pushed(kept, w, data, capacity)
    ensures w == [WindowEntry(data, seq(capacity, k => None), 0)]
  {
  }
}
