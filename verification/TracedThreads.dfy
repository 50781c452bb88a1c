/** Threads, tracer and history writer together: many threads allocate while the saver writes out what
    they traced. What can be read back says which blocks the threads' table holds. */
module TracedThreads {
  import opened Wrappers
  import opened Bytes
  import opened HisRecord
  import opened TraceModel
  import opened Replay
  import opened HistoryRun
  import opened HistoryTheorems
  import opened TracedSystem
  import opened TraceScript
  import TraceThreads

  datatype Joint = Joint(world: TraceThreads.World, system: System)

  datatype Move = Thread(t: nat, action: TraceThreads.Action) | Writer(event: Event)

  /** The moves made inside the tracer's mutex. */
  predicate NeedsMutex(a: TraceThreads.Action) {
    !(a.Malloc? || a.Release? || a.PlainRealloc?)
  }

  /** The mutex covers the writing of a record too, so a move inside it finds the writer's producer idle. */
  predicate CanMove(j: Joint, t: nat, a: TraceThreads.Action) {
    && t < |j.world.threads| && TraceThreads.Can(j.world, t, a)
    && (NeedsMutex(a) ==> j.system.his.producer.Idle?)
  }

  function StepJoint(p: nat, c: Config, j: Joint, m: Move): Joint
    requires HistoryRun.Inv(j.system.his)
  {
    match m
    case Thread(t, a) =>
      if !CanMove(j, t, a) then j
      else
        Joint(TraceThreads.Act(j.world, t, a),
              match TraceThreads.TracedBy(j.world, t, a)
              case None => j.system
              case Some(op) => Happen(p, c, j.system, Call(op)))
    case Writer(e) => if e.Call? then j else j.(system := Happen(p, c, j.system, e))
  }

  function AddressFits(p: nat, a: Option<nat>): bool {
    a.Some? ==> a.value < Pow256(p)
  }

  /** Addresses are p-byte pointers, the other arguments values of their types, and _realloc is not used. */
  predicate MoveFits(p: nat, m: Move) {
    m.Thread? ==>
      match m.action
      case Malloc(addr, _) => addr < Pow256(p)
      case AddTrace(op) => OpFits(p, op)
      case AddNew(op) => OpFits(p, op)
      case ModuleRealloc(_, got, _) => AddressFits(p, got)
      case PlainRealloc(_, _, _) => false
      case _ => true
  }

  ghost predicate AddressesFit(p: nat, w: TraceThreads.World) {
    && (forall a :: a in w.live ==> a < Pow256(p))
    && (forall t :: 0 <= t < |w.threads| && w.threads[t].Moving? ==> AddressFits(p, w.threads[t].buf))
  }

  ghost predicate JointInv(p: nat, c: Config, j: Joint) {
    && TraceThreads.Clean(c, j.world) && AddressesFit(p, j.world)
    && Coupled(p, c, j.system) && j.world.ops == j.system.ops
  }

  lemma ActKeepsFit(p: nat, c: Config, w: TraceThreads.World, t: nat, a: TraceThreads.Action)
    requires TraceThreads.Clean(c, w) && AddressesFit(p, w) && MoveFits(p, Thread(t, a))
    requires t < |w.threads| && TraceThreads.Can(w, t, a)
    ensures AddressesFit(p, TraceThreads.Act(w, t, a))
    ensures var op := TraceThreads.TracedBy(w, t, a); op.Some? ==> OpFits(p, op.value)
  {
  }

  lemma StepKeepsJointInv(p: nat, c: Config, j: Joint, m: Move)
    requires JointInv(p, c, j) && MoveFits(p, m)
    ensures JointInv(p, c, StepJoint(p, c, j, m))
    ensures StepJoint(p, c, j, m).system.his.ring.size == j.system.his.ring.size
  {
    match m
    case Thread(t, a) =>
      if CanMove(j, t, a) {
        ActKeepsFit(p, c, j.world, t, a);
        TraceThreads.StepKeepsClean(c, j.world, (t, a));
        TraceThreads.TableAfter(c, j.world, t, a);
        if TraceThreads.TracedBy(j.world, t, a).Some? {
          HappenKeepsCoupling(p, c, j.system, Call(TraceThreads.TracedBy(j.world, t, a).value));
        }
      }
    case Writer(e) =>
      if !e.Call? {
        HappenKeepsCoupling(p, c, j.system, e);
      }
  }

  function RunJoint(p: nat, c: Config, j: Joint, moves: seq<Move>): (j': Joint)
    requires JointInv(p, c, j) && forall m :: m in moves ==> MoveFits(p, m)
    ensures JointInv(p, c, j') && j'.system.his.ring.size == j.system.his.ring.size
    decreases |moves|
  {
    if moves == [] then j
    else
      assert moves[0] in moves;
      StepKeepsJointInv(p, c, j, moves[0]);
      RunJoint(p, c, StepJoint(p, c, j, moves[0]), moves[1..])
  }

  function StartJoint(n: nat, k: nat, size: nat, memory: seq<seq<byte>>): Joint {
    Joint(TraceThreads.Start(n), TracedSystem.Start(k, size, memory))
  }

  lemma StartKeepsJointInv(p: nat, c: Config, n: nat, k: nat, size: nat, memory: seq<seq<byte>>)
    requires IsMemory(k, size, memory)
    ensures JointInv(p, c, StartJoint(n, k, size, memory))
  {
    StartIsCoupled(p, c, k, size, memory);
  }

  /** For any number of threads that use malloc, free and media_lib_module_realloc, in every interleaving
      with the writer's two sides: what file, ring and buffers hold decodes to the leaks of the table. */
  lemma HistoryGivesThreadsLeaks(p: nat, c: Config, n: nat, k: nat, size: nat, memory: seq<seq<byte>>,
                                 moves: seq<Move>)
    requires IsMemory(k, size, memory) && c.history && RecordsFitSlice(p, c, size)
    requires forall m :: m in moves ==> MoveFits(p, m)
    ensures JointInv(p, c, StartJoint(n, k, size, memory))
    ensures var j := RunJoint(p, c, StartJoint(n, k, size, memory), moves);
            InLoop(j.system.his.saver) && NoOverflow(c, j.world.ops) ==>
              && Copied(j.system.his.saver) <= |j.system.his.ring.Stored()|
              && SameLeaks(Offline(Decode(p, Stream(j.system.his))), TraceThreads.Table(c, j.world))
  {
    StartKeepsJointInv(p, c, n, k, size, memory);
    var j := RunJoint(p, c, StartJoint(n, k, size, memory), moves);
    LogRoundTrip(p, j.system.kept);
    if NoOverflow(c, j.world.ops) {
      OfflineReportMatchesTable(c, j.world.ops);
    }
  }

  /** Device to script: when such a run is followed by a clean stop, mem_trace.pl prints from the file exactly
      the threads' table, if every allocation has a captured frame that can be found, and aborts
      otherwise. */
  lemma ScriptPrintsThreadsTable(sym: Symbols, c: Config, j: Joint, schedule: seq<HistoryRun.Action>)
    requires JointInv(WORD_SIZE, c, j) && c.history && RecordsFitSlice(WORD_SIZE, c, j.system.his.ring.size)
    requires NoOverflow(c, j.world.ops)
    requires InLoop(j.system.his.saver) && j.system.his.producer.Idle? && !MissedSlice(j.system.his)
    requires forall a :: a in schedule ==> Rests(j.system.his.producer, a)
    ensures HistoryRun.Inv(HistoryRun.Step(j.system.his, Stop))
    ensures var s' := HistoryRun.Run(HistoryRun.Step(j.system.his, Stop), schedule);
            s'.saver.Finished? ==>
              var report := ReportFrom(sym, map[], s'.file);
              && (report.Leaks? <==> AddsResolve(sym, c, j.world.ops))
              && (report.Leaks? ==> SameLeaks(report.leaks, TraceThreads.Table(c, j.world)))
  {
    CleanStopLeavesLog(j.system.his, schedule);
    ScriptReportMatchesTable(sym, c, j.system.kept, j.system.ops);
  }
}
