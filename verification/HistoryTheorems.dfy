/** What holds of the allocation-history writer over every schedule of its two threads. */
module HistoryTheorems {
  import opened Arithmetic
  import opened Bytes
  import opened SliceRing
  import opened HistoryRun

  lemma InitKeepsInv(k: nat, size: nat, memory: seq<seq<byte>>)
    requires IsMemory(k, size, memory)
    ensures Inv(Init(k, size, memory))
  {
    var s := Init(k, size, memory);
    assert s.ring.Stored() == [];
  }

  /** The bytes of the records a schedule gets past the wait check, in order. */
  function Accepted(s: State, schedule: seq<Action>): seq<byte>
    requires Inv(s)
    decreases |schedule|
  {
    if schedule == [] then []
    else
      StepKeepsInv(s, schedule[0]);
      var a := schedule[0];
      (if a.Log? && s.producer.Idle? && HasRoom(s.ring, |a.buf| + |a.more|) then a.buf + a.more else [])
      + Accepted(Step(s, a), schedule[1..])
  }

  lemma {:induction false} LoggedIsAccepted(s: State, schedule: seq<Action>)
    requires Inv(s)
    ensures Run(s, schedule).logged == s.logged + Accepted(s, schedule)
    decreases |schedule|
  {
    if schedule != [] {
      var a := schedule[0];
      StepKeepsInv(s, a);
      var taken := if a.Log? && s.producer.Idle? && HasRoom(s.ring, |a.buf| + |a.more|) then a.buf + a.more else [];
      assert Step(s, a).logged == s.logged + taken;
      LoggedIsAccepted(Step(s, a), schedule[1..]);
      ConcatAssociates(s.logged, taken, Accepted(Step(s, a), schedule[1..]));
    }
  }

  /** FIFO: until the saver leaves its loop, file, ring and producer buffers together are the records
      accepted so far, in order, with no byte lost or repeated; the file is always a prefix of them. */
  lemma LogIsKeptInOrder(k: nat, size: nat, memory: seq<seq<byte>>, schedule: seq<Action>)
    requires IsMemory(k, size, memory)
    ensures Inv(Init(k, size, memory))
    ensures var s := Run(Init(k, size, memory), schedule);
            InLoop(s.saver) ==>
              && Copied(s.saver) <= |s.ring.Stored()|
              && Stream(s) == Accepted(Init(k, size, memory), schedule)
              && s.file <= Accepted(Init(k, size, memory), schedule)
  {
    InitKeepsInv(k, size, memory);
    LoggedIsAccepted(Init(k, size, memory), schedule);
  }

  predicate IsProducers(a: Action) {
    !a.SaverStep?
  }

  /** Slice ownership: from the moment the saver knows its slice, no number of producer steps moves
      the head of the ring or changes one byte of that slice, though the saver holds no lock. */
  lemma {:induction false} SliceBelongsToSaver(s: State, schedule: seq<Action>)
    requires Inv(s) && s.saver.Writing? && forall a :: a in schedule ==> IsProducers(a)
    ensures var s' := Run(s, schedule);
            && s'.saver == s.saver && s'.ring.n >= s.ring.n && |s'.ring.slices| == |s.ring.slices|
            && s'.ring.Head() == s.saver.head
            && s'.ring.slices[s.saver.head] == s.ring.slices[s.saver.head]
    decreases |schedule|
  {
    if schedule != [] {
      assert IsProducers(schedule[0]);
      StepKeepsInv(s, schedule[0]);
      if s.producer.Filling? {
        FillKeepsCompletedSlices(s.ring, s.producer.rest);
        assert Slot(|s.ring.slices|, s.ring.Head(), 0) == s.saver.head;
      }
      SliceBelongsToSaver(Step(s, schedule[0]), schedule[1..]);
    }
  }

  /** Of the bytes that have entered the ring, the partial slice holds the remainder by the slice
      size, and the slices completed so far, retired or still waiting, are the quotient. */
  lemma RingArithmetic(s: State)
    requires Inv(s) && InLoop(s.saver)
    ensures |s.logged| >= |Outstanding(s.producer)|
    ensures var entered := |s.logged| - |Outstanding(s.producer)|;
            && s.ring.filled == entered % s.ring.size
            && s.retired + s.ring.n == entered / s.ring.size
  {
    var entered := |Stream(s)| - |Outstanding(s.producer)|;
    StoredLength(s.ring);
    assert entered == s.retired * s.ring.size + s.ring.n * s.ring.size + s.ring.filled;
    assert entered == (s.retired + s.ring.n) * s.ring.size + s.ring.filled;
    QuotientAndRemainder(entered, s.retired + s.ring.n, s.ring.size, s.ring.filled);
  }

  /** Saver steps left until it gives back a slice, when it is not about to leave its loop. */
  function RoundLength(saver: Saver, size: nat): int {
    match saver
    case Polling => size + 3
    case TakingHead => size + 2
    case Writing(_, done) => size - done + 1
    case SawEmpty => size + 4
    case _ => 0
  }

  function SaverSteps(m: nat): seq<Action> {
    seq(m, _ => SaverStep)
  }

  /** The saver will look at the ring again: it is in its loop and not about to leave it. */
  predicate WillReturn(s: State) {
    InLoop(s.saver) && !(s.saver.SawEmpty? && s.stopping)
  }

  /** A saver that will return gives back a slice within one round. */
  lemma {:induction false} FullRingDrains(s: State)
    requires Inv(s) && WillReturn(s) && s.ring.n > 0
    ensures 0 < RoundLength(s.saver, s.ring.size) <= s.ring.size + 4
    ensures var s' := Run(s, SaverSteps(RoundLength(s.saver, s.ring.size)));
            && s'.ring.n == s.ring.n - 1 && |s'.ring.slices| == |s.ring.slices|
            && s'.retired == s.retired + 1 && s'.producer == s.producer
    decreases RoundLength(s.saver, s.ring.size)
  {
    var m := RoundLength(s.saver, s.ring.size);
    StepKeepsInv(s, SaverStep);
    var s' := Step(s, SaverStep);
    assert SaverSteps(m)[1..] == SaverSteps(m - 1);
    if m > 1 {
      FullRingDrains(s');
    } else {
      assert SaverSteps(0) == [];
    }
  }

  /** The producer is at his_write's test of n, with bytes to write and no slice free. */
  predicate WaitsOnFullRing(s: State) {
    s.producer.Testing? && s.producer.rest != [] && s.ring.n >= |s.ring.slices|
  }

  /** A saver that will not return leaves the ring full and the producer waiting, whatever is scheduled. */
  lemma {:induction false} NoReturnNoDrain(s: State, schedule: seq<Action>)
    requires Inv(s) && !WillReturn(s) && WaitsOnFullRing(s)
    ensures var s' := Run(s, schedule); s'.producer == s.producer && s'.ring == s.ring && !WillReturn(s')
    decreases |schedule|
  {
    if schedule != [] {
      StepKeepsInv(s, schedule[0]);
      NoReturnNoDrain(Step(s, schedule[0]), schedule[1..]);
    }
  }

  /** A wait on a full ring can end if and only if the saver will return; then it ends after at most one
      round of the saver, and otherwise never. */
  lemma WaitEndsIffSaverReturns(s: State)
    requires Inv(s) && WaitsOnFullRing(s)
    ensures WillReturn(s) <==> exists schedule :: Run(s, schedule).producer != s.producer
    ensures WillReturn(s) ==>
      0 < RoundLength(s.saver, s.ring.size) <= s.ring.size + 4
      && Run(s, SaverSteps(RoundLength(s.saver, s.ring.size)) + [ProducerStep]).producer.Filling?
  {
    if WillReturn(s) {
      var round := SaverSteps(RoundLength(s.saver, s.ring.size));
      FullRingDrains(s);
      RunSnoc(s, round, ProducerStep);
      assert Run(s, round + [ProducerStep]).producer != s.producer;
    } else {
      forall schedule ensures Run(s, schedule).producer == s.producer {
        NoReturnNoDrain(s, schedule);
      }
    }
  }

  // Stopping. save_thread reads n and then stopping; between the two reads a slice may be completed.

  /** No record is logged, and a producer in the middle of one takes no step. */
  predicate Rests(p: Producer, a: Action) {
    !a.Log? && (a.ProducerStep? ==> p.Idle?)
  }

  /** The bytes the final flush will still write. */
  function Unflushed(s: State): seq<byte>
    requires s.ring.Valid() && s.saver.Flushing? && s.saver.done <= s.ring.filled
  {
    s.ring.slices[s.ring.wp][s.saver.done..s.ring.filled]
  }

  lemma TakeFirst(s: seq<byte>, i: nat, j: nat)
    requires i < j <= |s|
    ensures s[i..j] == [s[i]] + s[i + 1..j]
  {
  }

  /** One step during the flush: a byte moves from what is unflushed to the file, or the flush is over. */
  lemma FlushStep(s: State, a: Action)
    requires Inv(s) && s.saver.Flushing? && s.saver.done <= s.ring.filled && Rests(s.producer, a)
    ensures var s' := Step(s, a);
            && Inv(s') && s'.producer == s.producer
            && (if s'.saver.Finished? then s'.file == s.file + Unflushed(s)
                else && s'.saver.Flushing? && s'.saver.done <= s'.ring.filled
                     && s'.file + Unflushed(s') == s.file + Unflushed(s))
  {
    StepKeepsInv(s, a);
    if a.SaverStep? && s.saver.done < s.ring.filled {
      var slice, done := s.ring.slices[s.ring.wp], s.saver.done;
      TakeFirst(slice, done, s.ring.filled);
      ConcatAssociates(s.file, [slice[done]], slice[done + 1..s.ring.filled]);
    } else if a.SaverStep? {
      assert s.file + [] == s.file;
    }
  }

  /** Once past its loop, the saver writes the rest of the partial slice and nothing else. */
  lemma {:induction false} FlushWritesThePartialSlice(s: State, schedule: seq<Action>)
    requires Inv(s) && s.saver.Flushing? && s.saver.done <= s.ring.filled
    requires forall a :: a in schedule ==> Rests(s.producer, a)
    ensures var s' := Run(s, schedule);
            s'.file <= s.file + Unflushed(s) && (s'.saver.Finished? ==> s'.file == s.file + Unflushed(s))
    decreases |schedule|
  {
    if schedule != [] {
      assert Rests(s.producer, schedule[0]);
      FlushStep(s, schedule[0]);
      var s1 := Step(s, schedule[0]);
      if s1.saver.Finished? {
        FinishedIsFinal(s1, schedule[1..]);
      } else {
        FlushWritesThePartialSlice(s1, schedule[1..]);
      }
    }
  }

  lemma {:induction false} FinishedIsFinal(s: State, schedule: seq<Action>)
    requires Inv(s) && s.saver.Finished?
    ensures Run(s, schedule).file == s.file
    decreases |schedule|
  {
    if schedule != [] {
      StepKeepsInv(s, schedule[0]);
      FinishedIsFinal(Step(s, schedule[0]), schedule[1..]);
    }
  }

  /** The saver has seen an empty ring, and the ring is no longer empty. */
  predicate MissedSlice(s: State) {
    s.saver.SawEmpty? && s.ring.n > 0
  }

  lemma EmptyRingHoldsPartialSlice(s: State)
    requires Inv(s) && s.saver.SawEmpty? && s.ring.n == 0
    ensures s.file + Partial(s.ring) + Outstanding(s.producer) == s.logged
  {
    assert s.ring.Stored() == [] + Partial(s.ring) == Partial(s.ring);
  }

  /** After a clean stop the file is a prefix of the log at every moment, through the flush to the end, and
      at the end is all of it but what the producer has not put into the ring. */
  lemma {:induction false} CleanStopFlushesAll(s: State, schedule: seq<Action>)
    requires Inv(s) && InLoop(s.saver) && s.stopping && !MissedSlice(s)
    requires forall a :: a in schedule ==> Rests(s.producer, a)
    ensures var s' := Run(s, schedule);
            s'.file <= s.logged && (s'.saver.Finished? ==> s'.file + Outstanding(s.producer) == s.logged)
    decreases |schedule|
  {
    if schedule != [] {
      assert Rests(s.producer, schedule[0]);
      StepKeepsInv(s, schedule[0]);
      var s1 := Step(s, schedule[0]);
      if s1.saver.Flushing? {
        EmptyRingHoldsPartialSlice(s);
        FlushWritesThePartialSlice(s1, schedule[1..]);
        PrefixExtends(Run(s1, schedule[1..]).file, s.file + Partial(s.ring), Outstanding(s.producer));
      } else {
        CleanStopFlushesAll(s1, schedule[1..]);
      }
    } else {
      ConcatAssociates(s.file, s.ring.Stored()[Copied(s.saver)..], Outstanding(s.producer));
    }
  }

  lemma PrefixExtends(a: seq<byte>, b: seq<byte>, c: seq<byte>)
    requires a <= b
    ensures a <= b + c
  {
  }

  /** What the slice at wp holds so far. */
  function Partial(ring: Ring): seq<byte>
    requires ring.Valid()
  {
    ring.slices[ring.wp][..ring.filled]
  }

  /** The log with the ring's completed slices cut out of it. */
  function WithoutSlices(s: State): seq<byte>
    requires |s.file| + s.ring.n * s.ring.size <= |s.logged|
  {
    s.logged[..|s.file|] + s.logged[|s.file| + s.ring.n * s.ring.size..]
  }

  /** With a saver that is writing no slice, the log is the file, the completed slices, the partial slice and
      what the producer still has. */
  lemma LogIsFileAndRing(s: State)
    requires Inv(s) && s.saver.SawEmpty?
    ensures var completed := s.ring.n * s.ring.size;
            && |s.logged| == |s.file| + completed + s.ring.filled + |Outstanding(s.producer)|
            && s.logged[..|s.file|] == s.file
            && s.logged[|s.file| + completed..] == Partial(s.ring) + Outstanding(s.producer)
  {
    StoredLength(s.ring);
    var completed, stored := s.ring.n * s.ring.size, s.ring.Stored();
    assert s.logged == s.file + stored + Outstanding(s.producer);
    assert stored[completed..] == Partial(s.ring);
    DropFromConcat(stored, Outstanding(s.producer), completed);
    ConcatAssociates(s.file, stored, Outstanding(s.producer));
    DropFirst(s.file, stored + Outstanding(s.producer), completed);
  }

  lemma DropFirst(a: seq<byte>, b: seq<byte>, c: nat)
    requires c <= |b|
    ensures (a + b)[..|a|] == a && (a + b)[|a| + c..] == b[c..]
  {
  }

  lemma {:induction false} MissedSlicesAreLost(s: State, schedule: seq<Action>)
    requires Inv(s) && s.stopping && MissedSlice(s)
    requires forall a :: a in schedule ==> Rests(s.producer, a)
    ensures var s' := Run(s, schedule);
            && s'.file <= s.file + Partial(s.ring)
            && (s'.saver.Finished? ==> s'.file == s.file + Partial(s.ring))
    decreases |schedule|
  {
    if schedule != [] {
      assert Rests(s.producer, schedule[0]);
      StepKeepsInv(s, schedule[0]);
      var s1 := Step(s, schedule[0]);
      if s1.saver.Flushing? {
        FlushWritesThePartialSlice(s1, schedule[1..]);
      } else {
        MissedSlicesAreLost(s1, schedule[1..]);
      }
    }
  }

  lemma FileWithoutSlices(s: State)
    requires Inv(s) && MissedSlice(s)
    ensures |s.file| + s.ring.n * s.ring.size <= |s.logged|
    ensures s.file + Partial(s.ring) + Outstanding(s.producer) == WithoutSlices(s)
    ensures |WithoutSlices(s)| < |s.logged|
  {
    LogIsFileAndRing(s);
    MultipleIsAtLeastOne(s.ring.n, s.ring.size);
    ConcatAssociates(s.file, Partial(s.ring), Outstanding(s.producer));
  }

  /** Flush at stop, no record being logged after it. The file, with what the producer has not put into the
      ring, is the whole log exactly when the saver was not caught between reading n == 0 and reading
      stopping with a slice completed meanwhile; otherwise it is the log without the slices in the ring. */
  lemma StopFlushesUnlessSliceMissed(s: State, schedule: seq<Action>)
    requires Inv(s) && InLoop(s.saver)
    requires forall a :: a in schedule ==> Rests(s.producer, a)
    ensures Inv(Step(s, Stop))
    ensures MissedSlice(s) ==> |s.file| + s.ring.n * s.ring.size <= |s.logged|
    ensures var s' := Run(Step(s, Stop), schedule);
            s'.saver.Finished? ==>
              && (s'.file + Outstanding(s.producer) == s.logged <==> !MissedSlice(s))
              && (MissedSlice(s) ==> s'.file + Outstanding(s.producer) == WithoutSlices(s))
  {
    StepKeepsInv(s, Stop);
    if MissedSlice(s) {
      MissedSlicesAreLost(Step(s, Stop), schedule);
      FileWithoutSlices(s);
    } else {
      CleanStopFlushesAll(Step(s, Stop), schedule);
    }
  }

  lemma CleanStopLeavesLog(s: State, schedule: seq<Action>)
    requires Inv(s) && InLoop(s.saver) && s.producer.Idle? && !MissedSlice(s)
    requires forall a :: a in schedule ==> Rests(s.producer, a)
    ensures Inv(Step(s, Stop))
    ensures var s' := Run(Step(s, Stop), schedule); s'.saver.Finished? ==> s'.file == s.logged
  {
    StopFlushesUnlessSliceMissed(s, schedule);
    var file := Run(Step(s, Stop), schedule).file;
    assert file + [] == file;
  }

  /** What the partial slice holds is what the log has after the file. */
  predicate PartialContinuesFile(s: State)
    requires s.ring.Valid()
  {
    && |s.file| + s.ring.filled <= |s.logged|
    && Partial(s.ring) == s.logged[|s.file|..|s.file| + s.ring.filled]
  }

  /** From a stop call on the file stays a prefix of the log if no slice was missed, or if the partial slice
      happens to continue the file. */
  lemma StopKeepsPrefix(s: State, schedule: seq<Action>)
    requires Inv(s) && InLoop(s.saver) && (!MissedSlice(s) || PartialContinuesFile(s))
    requires forall a :: a in schedule ==> Rests(s.producer, a)
    ensures Inv(Step(s, Stop)) && Run(Step(s, Stop), schedule).file <= s.logged
  {
    StepKeepsInv(s, Stop);
    if MissedSlice(s) {
      MissedSlicesAreLost(Step(s, Stop), schedule);
      LogIsFileAndRing(s);
      assert s.file + Partial(s.ring) == s.logged[..|s.file| + s.ring.filled];
    } else {
      CleanStopFlushesAll(Step(s, Stop), schedule);
    }
  }

  /** ... and the file the saver leaves behind is a prefix of the log in no other case. */
  lemma StoppedFileIsPrefixIff(s: State, schedule: seq<Action>)
    requires Inv(s) && InLoop(s.saver)
    requires forall a :: a in schedule ==> Rests(s.producer, a)
    ensures Inv(Step(s, Stop))
    ensures var s' := Run(Step(s, Stop), schedule);
            s'.saver.Finished? ==> (s'.file <= s.logged <==> !MissedSlice(s) || PartialContinuesFile(s))
  {
    StepKeepsInv(s, Stop);
    if !MissedSlice(s) || PartialContinuesFile(s) {
      StopKeepsPrefix(s, schedule);
    } else {
      MissedSlicesAreLost(Step(s, Stop), schedule);
      LogIsFileAndRing(s);
      if s.file + Partial(s.ring) <= s.logged {
        PrefixParts(s.file, Partial(s.ring), s.logged);
      }
    }
  }

  lemma PrefixParts(a: seq<byte>, b: seq<byte>, whole: seq<byte>)
    requires a + b <= whole
    ensures b == whole[|a|..|a| + |b|]
  {
    assert (a + b)[|a|..] == b;
  }

  /** Saver steps left after the stop call: a bound for sync_mem_his's wait. */
  function StepsToFinish(s: State): int
    requires Inv(s)
  {
    var rounds := s.ring.n * (s.ring.size + 3);
    match s.saver
    case Polling => rounds + s.ring.filled + 3
    case TakingHead => rounds + s.ring.filled + 2
    case Writing(_, done) => rounds - done - 2 + s.ring.filled + 3
    case SawEmpty => rounds + s.ring.filled + 2
    case Flushing(done) => if done < s.ring.filled then s.ring.filled - done + 1 else 1
    case Finished => 0
  }

  lemma OneRound(n: nat, size: nat)
    requires n > 0
    ensures n * (size + 3) == (n - 1) * (size + 3) + size + 3 && (n - 1) * (size + 3) >= 0
  {
  }

  lemma SaverStepApproachesFinish(s: State)
    requires Inv(s) && s.stopping && !s.saver.Finished?
    ensures Inv(StepSaver(s)) && (StepSaver(s).stopping || StepSaver(s).saver.Finished?)
    ensures 0 <= StepsToFinish(StepSaver(s)) < StepsToFinish(s)
  {
    StepKeepsInv(s, SaverStep);
    if s.ring.n > 0 {
      OneRound(s.ring.n, s.ring.size);
    } else {
      assert s.ring.n * (s.ring.size + 3) == 0;
    }
  }

  /** Stopping ends: the saver alone reaches its exit. */
  lemma {:induction false} StopTerminates(s: State, m: nat)
    requires Inv(s) && (s.stopping || s.saver.Finished?) && m >= StepsToFinish(s)
    ensures Run(s, SaverSteps(m)).saver.Finished?
    decreases m
  {
    if m == 0 {
      if !s.saver.Finished? {
        SaverStepApproachesFinish(s);
      }
      assert SaverSteps(0) == [];
    } else {
      StepKeepsInv(s, SaverStep);
      if !s.saver.Finished? {
        SaverStepApproachesFinish(s);
      }
      assert SaverSteps(m)[0] == SaverStep && SaverSteps(m)[1..] == SaverSteps(m - 1);
      StopTerminates(Step(s, SaverStep), m - 1);
    }
  }

  lemma {:induction false} RunSnoc(s: State, schedule: seq<Action>, a: Action)
    requires Inv(s)
    ensures Run(s, schedule + [a]) == Step(Run(s, schedule), a)
    decreases |schedule|
  {
    if schedule == [] {
      assert ([] + [a])[1..] == [];
    } else {
      StepKeepsInv(s, schedule[0]);
      assert (schedule + [a])[1..] == schedule[1..] + [a];
      RunSnoc(Step(s, schedule[0]), schedule[1..], a);
    }
  }

  lemma OneMoreSaverStep(s: State, moves: nat)
    requires Inv(s)
    ensures Run(s, SaverSteps(moves + 1)) == StepSaver(Run(s, SaverSteps(moves)))
  {
    RunSnoc(s, SaverSteps(moves), SaverStep);
    assert SaverSteps(moves + 1) == SaverSteps(moves) + [SaverStep];
  }

  lemma Then(s0: State, schedule: seq<Action>, s: State, a: Action) returns (s': State)
    requires Inv(s0) && Inv(s) && Run(s0, schedule) == s
    ensures Inv(s') && s' == Step(s, a) && Run(s0, schedule + [a]) == s'
  {
    RunSnoc(s0, schedule, a);
    s' := Step(s, a);
    assert [] + [a] == [a];
  }
}
