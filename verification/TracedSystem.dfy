/** The tracer and its history writer together: every traced call updates the table and, with the
    history on, hands its record to the writer, whose two threads then move in any order. End to end: what can be read
    back, at any moment, and what it says about the table. */
module TracedSystem {
  import opened Wrappers
  import opened Bytes
  import opened SliceRing
  import opened HistoryRun
  import opened HistoryTheorems
  import opened HistoryExamples
  import opened HisRecord
  import opened TraceModel
  import opened Replay

  /** `ops` are the traced calls so far, `kept` the records that passed his_wait_for_enough. */
  datatype System = System(ops: seq<Op>, kept: seq<(Record, byte)>, his: State)

  datatype Event = Call(op: Op) | Producer | Saver | StopHistory

  /** One event. A call needs the tracer's mutex, so no other record may be on its way. */
  function Happen(p: nat, c: Config, s: System, e: Event): System
    requires Inv(s.his)
  {
    match e
    case Call(op) =>
      if !s.his.producer.Idle? then s
      else if !c.history then s.(ops := s.ops + [op])
      else
        var r := RecordOf(c, op);
        var (detail, frames) := (Detail(p, r, op.junk), Frames(p, r));
        if HasRoom(s.his.ring, |detail| + |frames|) then
          System(s.ops + [op], s.kept + [(r, op.junk)], Step(s.his, Log(detail, frames)))
        else s.(ops := s.ops + [op])
    case Producer => s.(his := Step(s.his, ProducerStep))
    case Saver => s.(his := Step(s.his, SaverStep))
    case StopHistory => s.(his := Step(s.his, Stop))
  }

  /** Frames a record can carry under a configuration. */
  function MaxFrames(c: Config): nat {
    if c.stackDepth >= MAX_STACK_DEPTH then MAX_STACK_DEPTH else c.stackDepth
  }

  /** The largest record fits a slice. */
  predicate RecordsFitSlice(p: nat, c: Config, size: nat) {
    8 + p + Extent(p, MaxFrames(c)) <= size
  }

  predicate EventFits(p: nat, e: Event) {
    e.Call? ==> OpFits(p, e.op)
  }

  ghost predicate Coupled(p: nat, c: Config, s: System) {
    && Inv(s.his)
    && (forall i :: 0 <= i < |s.ops| ==> OpFits(p, s.ops[i]))
    && AllFit(p, s.kept)
    && s.his.logged == EncodeAll(p, s.kept)
    && (!c.history ==> s.kept == [])
    && (c.history && RecordsFitSlice(p, c, s.his.ring.size) ==> Records(s.kept) == RecordsOf(c, s.ops))
  }

  lemma {:induction false} ExtentMonotone(p: nat, m: nat, n: nat)
    requires m <= n
    ensures Extent(p, m) <= Extent(p, n)
    decreases n
  {
    if m < n {
      ExtentMonotone(p, m, n - 1);
    }
  }

  lemma RecordOfFits(p: nat, c: Config, op: Op)
    requires OpFits(p, op)
    ensures Fits(p, RecordOf(c, op))
    ensures |Detail(p, RecordOf(c, op), op.junk)| + |Frames(p, RecordOf(c, op))| <= 8 + p + Extent(p, MaxFrames(c))
  {
    assert Pow256(4) == 256 * Pow256(3) && Pow256(3) == 256 * Pow256(2) && Pow256(2) == 256 * Pow256(1);
    assert Pow256(4) == U32_MODULUS;
    ExtentMonotone(p, 0, MaxFrames(c));
    if op.Add? {
      ExtentMonotone(p, |Captured(c, op.stack)|, MaxFrames(c));
    }
  }

  lemma LoggedRecord(p: nat, logged: seq<byte>, kept: seq<(Record, byte)>, r: Record, junk: byte)
    requires logged == EncodeAll(p, kept)
    ensures logged + Detail(p, r, junk) + Frames(p, r) == EncodeAll(p, kept + [(r, junk)])
  {
    EncodeAllSnoc(p, kept, (r, junk));
    ConcatAssociates(logged, Detail(p, r, junk), Frames(p, r));
  }

  lemma CallKeepsLog(p: nat, c: Config, s: System, op: Op)
    requires Coupled(p, c, s) && OpFits(p, op) && s.his.producer.Idle?
    ensures var s' := Happen(p, c, s, Call(op));
            && Inv(s'.his) && AllFit(p, s'.kept) && s'.his.logged == EncodeAll(p, s'.kept)
            && (!c.history ==> s'.kept == [])
  {
    var r := RecordOf(c, op);
    RecordOfFits(p, c, op);
    if !c.history {
      return;
    }
    StepKeepsInv(s.his, Log(Detail(p, r, op.junk), Frames(p, r)));
    LoggedRecord(p, s.his.logged, s.kept, r, op.junk);
  }

  lemma CallKeepsRecords(p: nat, c: Config, s: System, op: Op)
    requires Coupled(p, c, s) && OpFits(p, op) && s.his.producer.Idle?
    requires c.history && RecordsFitSlice(p, c, s.his.ring.size)
    ensures var s' := Happen(p, c, s, Call(op)); Records(s'.kept) == RecordsOf(c, s'.ops)
  {
    var r := RecordOf(c, op);
    RecordOfFits(p, c, op);
    RefusedOnlyWhenOversized(s.his.ring, |Detail(p, r, op.junk)| + |Frames(p, r)|);
    assert Records(s.kept + [(r, op.junk)]) == Records(s.kept) + [r];
    assert RecordsOf(c, s.ops + [op]) == RecordsOf(c, s.ops) + [r];
  }

  lemma CallKeepsCoupling(p: nat, c: Config, s: System, op: Op)
    requires Coupled(p, c, s) && OpFits(p, op) && s.his.producer.Idle?
    ensures var s' := Happen(p, c, s, Call(op)); Coupled(p, c, s') && s'.his.ring.size == s.his.ring.size
  {
    CallKeepsLog(p, c, s, op);
    if c.history && RecordsFitSlice(p, c, s.his.ring.size) {
      CallKeepsRecords(p, c, s, op);
    }
  }

  lemma StepKeepsShape(s: State, a: Action)
    requires Inv(s) && !a.Log?
    ensures Step(s, a).logged == s.logged && Step(s, a).ring.size == s.ring.size
  {
  }

  lemma HappenKeepsCoupling(p: nat, c: Config, s: System, e: Event)
    requires Coupled(p, c, s) && EventFits(p, e)
    ensures Coupled(p, c, Happen(p, c, s, e)) && Happen(p, c, s, e).his.ring.size == s.his.ring.size
  {
    match e
    case Call(op) =>
      if s.his.producer.Idle? {
        CallKeepsCoupling(p, c, s, op);
      }
    case Producer =>
      StepKeepsInv(s.his, ProducerStep);
      StepKeepsShape(s.his, ProducerStep);
    case Saver =>
      StepKeepsInv(s.his, SaverStep);
      StepKeepsShape(s.his, SaverStep);
    case StopHistory =>
      StepKeepsInv(s.his, Stop);
      StepKeepsShape(s.his, Stop);
  }

  /** The system after any events. */
  function History(p: nat, c: Config, s: System, events: seq<Event>): (s': System)
    requires Coupled(p, c, s) && forall e :: e in events ==> EventFits(p, e)
    ensures Coupled(p, c, s') && s'.his.ring.size == s.his.ring.size
    decreases |events|
  {
    if events == [] then s
    else
      assert events[0] in events;
      HappenKeepsCoupling(p, c, s, events[0]);
      History(p, c, Happen(p, c, s, events[0]), events[1..])
  }

  function Start(k: nat, size: nat, memory: seq<seq<byte>>): System {
    System([], [], Init(k, size, memory))
  }

  lemma StartIsCoupled(p: nat, c: Config, k: nat, size: nat, memory: seq<seq<byte>>)
    requires IsMemory(k, size, memory)
    ensures Coupled(p, c, Start(k, size, memory))
  {
    InitKeepsInv(k, size, memory);
  }

  /** Replay, end to end: in every run in which records fit a slice and the table never overflowed,
      decoding the file and what the ring still holds and replaying it gives the table. */
  lemma HistoryReplaysToTable(p: nat, c: Config, k: nat, size: nat, memory: seq<seq<byte>>, events: seq<Event>)
    requires IsMemory(k, size, memory) && c.history && RecordsFitSlice(p, c, size)
    requires forall e :: e in events ==> EventFits(p, e)
    ensures Coupled(p, c, Start(k, size, memory))
    ensures var s := History(p, c, Start(k, size, memory), events);
            InLoop(s.his.saver) ==>
              && Copied(s.his.saver) <= |s.his.ring.Stored()|
              && Decode(p, Stream(s.his)) == RecordsOf(c, s.ops)
              && ReplayAll(Some(c.recordNum), Decode(p, Stream(s.his))) == Entries(Trace(c, s.ops).table)
              && (NoOverflow(c, s.ops) ==>
                    ReplayAll(None, Decode(p, Stream(s.his))) == Entries(Trace(c, s.ops).table))
  {
    StartIsCoupled(p, c, k, size, memory);
    var s := History(p, c, Start(k, size, memory), events);
    LogRoundTrip(p, s.kept);
    ReplayGivesTable(p, c, s.ops, Some(c.recordNum));
    if NoOverflow(c, s.ops) {
      ReplayGivesTable(p, c, s.ops, None);
    }
  }

  /** With the history off nothing is ever written. */
  lemma NoHistoryNoRecords(p: nat, c: Config, k: nat, size: nat, memory: seq<seq<byte>>, events: seq<Event>)
    requires IsMemory(k, size, memory) && !c.history && forall e :: e in events ==> EventFits(p, e)
    ensures Coupled(p, c, Start(k, size, memory))
    ensures var s := History(p, c, Start(k, size, memory), events);
            s.his.logged == [] && (InLoop(s.his.saver) ==> s.his.file == [])
  {
    StartIsCoupled(p, c, k, size, memory);
    var s := History(p, c, Start(k, size, memory), events);
    if InLoop(s.his.saver) {
      assert s.his.file <= Stream(s.his);
    }
  }

  /** What can be read back says of every call what the call was, in order: one record for each, with its
      address, size, flag and first frames. */
  lemma HistoryDescribesCalls(p: nat, c: Config, k: nat, size: nat, memory: seq<seq<byte>>, events: seq<Event>)
    requires IsMemory(k, size, memory) && c.history && RecordsFitSlice(p, c, size)
    requires forall e :: e in events ==> EventFits(p, e)
    ensures Coupled(p, c, Start(k, size, memory))
    ensures var s := History(p, c, Start(k, size, memory), events);
            InLoop(s.his.saver) ==>
              && Copied(s.his.saver) <= |s.his.ring.Stored()|
              && var records := Decode(p, Stream(s.his));
                 && |records| == |s.ops|
                 && (forall i :: 0 <= i < |records| ==> Describes(c, records[i], s.ops[i]))
                 && (forall i :: 0 <= i < |records| && s.ops[i].Add? && c.stackDepth > 0 && s.ops[i].stack != [] ==>
                       records[i].stack != [] && records[i].stack[0] == s.ops[i].stack[0])
  {
    HistoryReplaysToTable(p, c, k, size, memory, events);
    var ops := History(p, c, Start(k, size, memory), events).ops;
    forall i | 0 <= i < |ops|
      ensures Describes(c, RecordsOf(c, ops)[i], ops[i])
      ensures ops[i].Add? && c.stackDepth > 0 && ops[i].stack != [] ==>
                RecordsOf(c, ops)[i].stack != [] && RecordsOf(c, ops)[i].stack[0] == ops[i].stack[0]
    {
      RecordDescribesCall(c, ops[i]);
    }
  }

  /** A prefix of the log decodes to the records of the first calls, and replays to the table as it was
      after them. */
  lemma PrefixReplaysToAnEarlierTable(p: nat, c: Config, s: System, file: seq<byte>) returns (calls: nat)
    requires Coupled(p, c, s) && c.history && RecordsFitSlice(p, c, s.his.ring.size) && file <= s.his.logged
    ensures calls <= |s.ops| && Decode(p, file) == RecordsOf(c, s.ops[..calls])
    ensures ReplayAll(Some(c.recordNum), Decode(p, file)) == Entries(Trace(c, s.ops[..calls]).table)
  {
    PrefixDecodes(p, s.kept, file);
    calls := |Decode(p, file)|;
    assert Decode(p, file) == RecordsOf(c, s.ops)[..calls];
    assert RecordsOf(c, s.ops)[..calls] == RecordsOf(c, s.ops[..calls]);
    ReplayGivesTable(p, c, s.ops[..calls], Some(c.recordNum));
  }

  /** Crash safety: until the saver leaves its loop, what has reached the file decodes to the records of
      the first calls, and replays to the table as it was after them. */
  lemma FileReplaysToAnEarlierTable(p: nat, c: Config, k: nat, size: nat, memory: seq<seq<byte>>, events: seq<Event>)
    returns (calls: nat)
    requires IsMemory(k, size, memory) && c.history && RecordsFitSlice(p, c, size)
    requires forall e :: e in events ==> EventFits(p, e)
    ensures Coupled(p, c, Start(k, size, memory))
    ensures var s := History(p, c, Start(k, size, memory), events);
            InLoop(s.his.saver) ==>
              && calls <= |s.ops|
              && Decode(p, s.his.file) == RecordsOf(c, s.ops[..calls])
              && ReplayAll(Some(c.recordNum), Decode(p, s.his.file)) == Entries(Trace(c, s.ops[..calls]).table)
  {
    StartIsCoupled(p, c, k, size, memory);
    var s := History(p, c, Start(k, size, memory), events);
    calls := 0;
    if InLoop(s.his.saver) {
      assert s.his.file <= Stream(s.his);
      calls := PrefixReplaysToAnEarlierTable(p, c, s, s.his.file);
    }
  }

  /** ... and from a stop call on, through the final flush and after it, if the saver was not caught between
      its two reads, or the partial slice happens to continue the file. */
  lemma StoppingFileReplaysToAnEarlierTable(p: nat, c: Config, s: System, schedule: seq<Action>)
    returns (calls: nat)
    requires Coupled(p, c, s) && c.history && RecordsFitSlice(p, c, s.his.ring.size)
    requires InLoop(s.his.saver) && (!MissedSlice(s.his) || PartialContinuesFile(s.his))
    requires forall a :: a in schedule ==> Rests(s.his.producer, a)
    ensures Inv(Step(s.his, Stop))
    ensures var file := Run(Step(s.his, Stop), schedule).file;
            && calls <= |s.ops|
            && Decode(p, file) == RecordsOf(c, s.ops[..calls])
            && ReplayAll(Some(c.recordNum), Decode(p, file)) == Entries(Trace(c, s.ops[..calls]).table)
  {
    StopKeepsPrefix(s.his, schedule);
    calls := PrefixReplaysToAnEarlierTable(p, c, s, Run(Step(s.his, Stop), schedule).file);
  }

  /** After a stop call made with no record on its way, and once the saver has left, the file alone
      replays to the table, unless the saver was caught between its two reads. */
  lemma StoppedFileReplaysToTable(p: nat, c: Config, s: System, schedule: seq<Action>)
    requires Coupled(p, c, s) && c.history && RecordsFitSlice(p, c, s.his.ring.size)
    requires InLoop(s.his.saver) && s.his.producer.Idle? && !MissedSlice(s.his)
    requires forall a :: a in schedule ==> Rests(s.his.producer, a)
    ensures Inv(Step(s.his, Stop))
    ensures var file := Run(Step(s.his, Stop), schedule).file;
            Run(Step(s.his, Stop), schedule).saver.Finished? ==>
              ReplayAll(Some(c.recordNum), Decode(p, file)) == Entries(Trace(c, s.ops).table)
  {
    CleanStopLeavesLog(s.his, schedule);
    LogRoundTrip(p, s.kept);
    ReplayGivesTable(p, c, s.ops, Some(c.recordNum));
  }

  // What a missed slice does to the records.

  lemma ThenEvent(p: nat, c: Config, s0: System, events: seq<Event>, s: System, e: Event) returns (s': System)
    requires Coupled(p, c, s0) && EventFits(p, e) && forall e :: e in events ==> EventFits(p, e)
    requires History(p, c, s0, events) == s
    ensures forall e' :: e' in events + [e] ==> EventFits(p, e')
    ensures s' == Happen(p, c, s, e) && History(p, c, s0, events + [e]) == s'
  {
    HistorySnoc(p, c, s0, events, e);
    s' := Happen(p, c, s, e);
  }

  lemma {:induction false} HistorySnoc(p: nat, c: Config, s: System, events: seq<Event>, e: Event)
    requires Coupled(p, c, s) && EventFits(p, e) && forall e :: e in events ==> EventFits(p, e)
    ensures forall e' :: e' in events + [e] ==> EventFits(p, e')
    ensures History(p, c, s, events + [e]) == Happen(p, c, History(p, c, s, events), e)
    decreases |events|
  {
    if events == [] {
      HappenKeepsCoupling(p, c, s, e);
      assert [] + [e] == [e] && [e][1..] == [];
    } else {
      assert events[0] in events;
      HappenKeepsCoupling(p, c, s, events[0]);
      assert (events + [e])[1..] == events[1..] + [e];
      HistorySnoc(p, c, Happen(p, c, s, events[0]), events[1..], e);
    }
  }

  /** A call, and its record put into the ring in one pass. */
  function CallAndWrite(op: Op): seq<Event> {
    [Call(op), Producer, Producer, Producer]
  }

  lemma CallHandsOver(p: nat, c: Config, s: System, op: Op)
    requires Inv(s.his) && c.history && Frames(p, RecordOf(c, op)) == []
    requires s.his.producer.Idle? && s.his.ring.n < |s.his.ring.slices|
    ensures var (t, detail) := (Happen(p, c, s, Call(op)), Detail(p, RecordOf(c, op), op.junk));
            && t.ops == s.ops + [op]
            && t.his == s.his.(producer := Testing(detail, []), logged := s.his.logged + detail)
  {
    var detail := Detail(p, RecordOf(c, op), op.junk);
    assert s.his.logged + detail + [] == s.his.logged + detail;
  }

  lemma WritesInOnePass(s: State, buf: seq<byte>)
    requires s.ring.Valid() && s.producer == Testing(buf, []) && buf != []
    requires s.ring.n < |s.ring.slices| && s.ring.filled == 0 && |buf| <= s.ring.size
    ensures StepProducer(s).ring == s.ring
    ensures StepProducer(StepProducer(s)) == s.(ring := s.ring.Fill(buf).0, producer := Testing([], []))
  {
    assert s.ring.Fill(buf).1 == [];
  }

  /** A record without frames that fits an empty slice. */
  lemma CallThenWrites(p: nat, c: Config, s0: System, events: seq<Event>, s: System, op: Op) returns (s': System)
    requires Coupled(p, c, s0) && OpFits(p, op) && forall e :: e in events ==> EventFits(p, e)
    requires History(p, c, s0, events) == s && c.history && Frames(p, RecordOf(c, op)) == []
    requires s.his.producer.Idle? && s.his.ring.n < |s.his.ring.slices| && s.his.ring.filled == 0
    requires |Detail(p, RecordOf(c, op), op.junk)| <= s.his.ring.size
    ensures forall e :: e in events + CallAndWrite(op) ==> EventFits(p, e)
    ensures History(p, c, s0, events + CallAndWrite(op)) == s' && s'.ops == s.ops + [op]
    ensures var detail := Detail(p, RecordOf(c, op), op.junk);
            s'.his == s.his.(ring := s.his.ring.Fill(detail).0, logged := s.his.logged + detail)
  {
    var detail := Detail(p, RecordOf(c, op), op.junk);
    var t1 := ThenEvent(p, c, s0, events, s, Call(op));
    CallHandsOver(p, c, s, op);
    WritesInOnePass(t1.his, detail);
    var t2 := ThenEvent(p, c, s0, events + [Call(op)], t1, Producer);
    var t3 := ThenEvent(p, c, s0, events + [Call(op)] + [Producer], t2, Producer);
    s' := ThenEvent(p, c, s0, events + [Call(op)] + [Producer] + [Producer], t3, Producer);
    assert events + [Call(op)] + [Producer] + [Producer] + [Producer] == events + CallAndWrite(op);
  }

  lemma DetailsOfDepthZero(p: nat, c: Config, add: Op, remove: Op)
    requires c.stackDepth == 0 && add.Add? && remove.Remove?
    ensures Frames(p, RecordOf(c, add)) == Frames(p, RecordOf(c, remove)) == []
    ensures |Detail(p, RecordOf(c, add), add.junk)| == 8 + p && |Detail(p, RecordOf(c, remove), remove.junk)| == 2 + p
    ensures RecordsFitSlice(p, c, 8 + p)
  {
  }

  function MissingEvents(add: Op, remove: Op): seq<Event> {
    [Saver] + CallAndWrite(add) + CallAndWrite(remove)
  }

  /** The saver finds the ring empty; an allocation's record fills a slice and a release's begins the next. */
  lemma MissedAllocation(p: nat, c: Config, k: nat, memory: seq<seq<byte>>, add: Op, remove: Op)
    returns (s: System)
    requires IsMemory(k, 8 + p, memory) && k > 1 && c.history && c.stackDepth == 0
    requires add.Add? && remove.Remove? && OpFits(p, add) && OpFits(p, remove)
    ensures Coupled(p, c, Start(k, 8 + p, memory))
    ensures forall e :: e in MissingEvents(add, remove) ==> EventFits(p, e)
    ensures s == History(p, c, Start(k, 8 + p, memory), MissingEvents(add, remove)) && s.ops == [add, remove]
    ensures InLoop(s.his.saver) && MissedSlice(s.his) && s.his.producer.Idle? && s.his.file == []
    ensures Partial(s.his.ring) == Detail(p, RecordOf(c, remove), remove.junk)
  {
    StartIsCoupled(p, c, k, 8 + p, memory);
    DetailsOfDepthZero(p, c, add, remove);
    var s0 := Start(k, 8 + p, memory);
    var s1 := ThenEvent(p, c, s0, [], s0, Saver);
    assert [] + [Saver] == [Saver];
    var s2 := CallThenWrites(p, c, s0, [Saver], s1, add);
    assert s2.his.ring.n == 1 && s2.his.ring.filled == 0;
    s := CallThenWrites(p, c, s0, [Saver] + CallAndWrite(add), s2, remove);
    var ring, detail := s2.his.ring, Detail(p, RecordOf(c, remove), remove.junk);
    assert Partial(ring.Fill(detail).0) == detail;
  }

  /** Stopped there, the file is the record of the release alone: it decodes to no earlier call's records,
      though every record fits a slice. */
  lemma MissedSliceBreaksReplay(p: nat, c: Config, k: nat, memory: seq<seq<byte>>, add: Op, remove: Op,
                                schedule: seq<Action>)
    requires IsMemory(k, 8 + p, memory) && k > 1 && c.history && c.stackDepth == 0
    requires add.Add? && remove.Remove? && OpFits(p, add) && OpFits(p, remove)
    requires forall a :: a in schedule ==> Rests(Idle, a)
    ensures Coupled(p, c, Start(k, 8 + p, memory)) && RecordsFitSlice(p, c, 8 + p)
    ensures forall e :: e in MissingEvents(add, remove) ==> EventFits(p, e)
    ensures var s := History(p, c, Start(k, 8 + p, memory), MissingEvents(add, remove));
            && s.ops == [add, remove] && Inv(Step(s.his, Stop))
            && var s' := Run(Step(s.his, Stop), schedule);
               s'.saver.Finished? ==>
                 && Decode(p, s'.file) == [Free(remove.addr)]
                 && forall calls :: 0 <= calls <= 2 ==> Decode(p, s'.file) != RecordsOf(c, s.ops[..calls])
  {
    DetailsOfDepthZero(p, c, add, remove);
    var s := MissedAllocation(p, c, k, memory, add, remove);
    StepKeepsInv(s.his, Stop);
    MissedSlicesAreLost(Step(s.his, Stop), schedule);
    var r := RecordOf(c, remove);
    RecordOfFits(p, c, remove);
    LogRoundTrip(p, [(r, remove.junk)]);
    assert EncodeAll(p, [(r, remove.junk)]) == Detail(p, r, remove.junk);
    assert [] + Detail(p, r, remove.junk) == Detail(p, r, remove.junk);
    assert Records([(r, remove.junk)]) == [r];
    forall calls | 0 <= calls <= 2 ensures [r] != RecordsOf(c, s.ops[..calls]) {
      assert calls > 0 ==> RecordsOf(c, s.ops[..calls])[0] == RecordOf(c, add);
    }
  }

  /** A record of the tracer that is lost by a stop: any release, logged into slices of its length (with
      4-byte pointers and four slices, a save_cache_size of 24). */
  lemma StopCanLoseARecord(p: nat, r: Record, junk: byte, k: nat, memory: seq<seq<byte>>)
    requires r.Free? && Fits(p, r) && IsMemory(k, 2 + p, memory)
    ensures Inv(Init(k, 2 + p, memory)) && |Encode(p, r, junk)| == 2 + p
    ensures var s := Run(Init(k, 2 + p, memory), [SaverStep] + LogOne(Encode(p, r, junk)));
            s.producer.Idle? && MissedSlice(s) && s.file == [] && Decode(p, s.logged) == [r]
  {
    StopCanLoseASlice(k, 2 + p, memory, Encode(p, r, junk));
    DecodeConsumesRecord(p, r, junk, []);
    assert Encode(p, r, junk) + [] == Encode(p, r, junk);
  }
}
