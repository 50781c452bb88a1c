/** Threads calling _malloc, _free, media_lib_module_realloc and _realloc over one allocator and one
    tracer (media_lib_mem_trace.c:245-327, 375-390). add_trace and remove_trace are atomic under the
    tracer's mutex; calls into the allocator are not covered by it, except where the code holds it. */
module TraceThreads {
  import opened Wrappers
  import opened Bytes
  import opened TraceModel
  import opened Replay

  /** How far a reallocation is: the block has moved but the mutex is not taken (_realloc only), the
      mutex is held, or the old address is out of the table. */
  datatype Stage = Waiting | Locked | Removed

  datatype Pc =
    | Ready
    | Allocated(addr: nat, size: int)                                       // before add_trace
    | Untraced(addr: nat)                                                   // before kept.free
    | Moving(buf: Option<nat>, got: Option<nat>, size: int, stage: Stage)   // after kept.realloc

  /** `live` is what the allocator has handed out, `owned` what finished calls have returned and no
      call has taken back. `ops` are the traced calls so far; they determine the table. */
  datatype World = World(threads: seq<Pc>, holder: Option<nat>, live: set<nat>, owned: set<nat>, ops: seq<Op>)

  datatype Action =
    | Malloc(addr: nat, size: int)
    | AddTrace(op: Op)
    | Free(addr: nat, junk: byte)
    | Release
    | ModuleRealloc(buf: Option<nat>, got: Option<nat>, size: int)
    | PlainRealloc(buf: Option<nat>, got: Option<nat>, size: int)
    | TakeMutex
    | RemoveOld(junk: byte)
    | AddNew(op: Op)
    | GiveUp

  /** kept.realloc: on success the old block is gone and a non-live address (perhaps the old one) is
      handed out; on failure nothing changes. */
  predicate CanRealloc(w: World, buf: Option<nat>, got: Option<nat>) {
    && (buf.Some? ==> buf.value in w.owned)
    && (got.Some? ==> got.value !in w.live || buf == got)
  }

  /** What the allocator, the mutex and the thread's own program allow. Clients free or reallocate only
      what they own. */
  predicate Can(w: World, t: nat, a: Action)
    requires t < |w.threads|
  {
    var pc := w.threads[t];
    match a
    case Malloc(addr, _) => pc.Ready? && addr !in w.live
    case AddTrace(op) => pc.Allocated? && w.holder.None? && op.Add? && op.addr == pc.addr && op.size == pc.size
    case Free(addr, _) => pc.Ready? && w.holder.None? && addr in w.owned
    case Release => pc.Untraced?
    case ModuleRealloc(buf, got, _) => pc.Ready? && w.holder.None? && CanRealloc(w, buf, got)
    case PlainRealloc(buf, got, _) => pc.Ready? && CanRealloc(w, buf, got)
    case TakeMutex => pc.Moving? && pc.stage.Waiting? && w.holder.None?
    case RemoveOld(_) => pc.Moving? && pc.stage.Locked?
    case AddNew(op) =>
      pc.Moving? && pc.stage.Removed? && pc.got.Some? && op.Add? && op.addr == pc.got.value && op.size == pc.size
    case GiveUp => pc.Moving? && pc.stage.Removed? && pc.got.None?
  }

  function SetOf(a: Option<nat>): set<nat> {
    if a.Some? then {a.value} else {}
  }

  function Realloc(w: World, t: nat, buf: Option<nat>, got: Option<nat>, size: int, stage: Stage): World
    requires t < |w.threads|
  {
    w.(threads := w.threads[t := Moving(buf, got, size, stage)],
       live := if got.Some? then w.live - SetOf(buf) + SetOf(got) else w.live,
       owned := w.owned - SetOf(buf))
  }

  function Act(w: World, t: nat, a: Action): World
    requires t < |w.threads| && Can(w, t, a)
  {
    var pc := w.threads[t];
    match a
    case Malloc(addr, size) => w.(threads := w.threads[t := Allocated(addr, size)], live := w.live + {addr})
    case AddTrace(op) =>
      w.(threads := w.threads[t := Ready], owned := w.owned + {pc.addr}, ops := w.ops + [op])
    case Free(addr, junk) =>
      w.(threads := w.threads[t := Untraced(addr)], owned := w.owned - {addr}, ops := w.ops + [Remove(addr, junk)])
    case Release => w.(threads := w.threads[t := Ready], live := w.live - {pc.addr})
    case ModuleRealloc(buf, got, size) => Realloc(w, t, buf, got, size, Locked).(holder := Some(t))
    case PlainRealloc(buf, got, size) => Realloc(w, t, buf, got, size, Waiting)
    case TakeMutex => w.(threads := w.threads[t := pc.(stage := Locked)], holder := Some(t))
    case RemoveOld(junk) =>
      w.(threads := w.threads[t := pc.(stage := Removed)],
         ops := if pc.buf.Some? then w.ops + [Remove(pc.buf.value, junk)] else w.ops)
    case AddNew(op) =>
      w.(threads := w.threads[t := Ready], holder := None, owned := w.owned + SetOf(pc.got), ops := w.ops + [op])
    case GiveUp =>
      w.(threads := w.threads[t := Ready], holder := None, owned := w.owned + SetOf(pc.buf))
  }

  /** One scheduled action; an impossible one does nothing. */
  function Step(w: World, move: (nat, Action)): World {
    if move.0 < |w.threads| && Can(w, move.0, move.1) then Act(w, move.0, move.1) else w
  }

  function Run(w: World, moves: seq<(nat, Action)>): World
    decreases |moves|
  {
    if moves == [] then w else Run(Step(w, moves[0]), moves[1..])
  }

  function Table(c: Config, w: World): seq<Item> {
    Trace(c, w.ops).table
  }

  /** The block a thread has in hand. */
  function Held(pc: Pc): set<nat> {
    match pc
    case Ready => {}
    case Allocated(addr, _) => {addr}
    case Untraced(addr) => {addr}
    case Moving(buf, got, _, _) => if got.Some? then SetOf(got) else SetOf(buf)
  }

  /** The address a thread has reallocated and not yet taken out of the table. */
  function Stale(pc: Pc): set<nat> {
    match pc
    case Moving(buf, _, _, stage) => if stage.Removed? then {} else SetOf(buf)
    case _ => {}
  }

  predicate IsStale(w: World, addr: nat) {
    exists t :: 0 <= t < |w.threads| && addr in Stale(w.threads[t])
  }

  predicate HasMutex(pc: Pc) {
    pc.Moving? && !pc.stage.Waiting?
  }

  /** Every block has one holder at most, and exactly the holder of the mutex is inside it. */
  ghost predicate Exclusive(w: World) {
    && w.owned <= w.live
    && (forall t :: 0 <= t < |w.threads| ==> Held(w.threads[t]) <= w.live && Held(w.threads[t]) !! w.owned)
    && (forall t, u :: 0 <= t < |w.threads| && 0 <= u < |w.threads| && t != u ==>
          Held(w.threads[t]) !! Held(w.threads[u]))
    && (forall t :: 0 <= t < |w.threads| ==> (HasMutex(w.threads[t]) <==> w.holder == Some(t)))
  }

  /** Every traced address is owned, or being reallocated. */
  ghost predicate Covered(c: Config, w: World) {
    forall a :: Holds(Table(c, w), a) ==> a in w.owned || IsStale(w, a)
  }

  ghost predicate Inv(c: Config, w: World) {
    Exclusive(w) && Covered(c, w) && Distinct(Table(c, w))
  }

  /** The move would trace an address whose earlier entry a reallocation has yet to remove. */
  predicate Clashes(c: Config, w: World, move: (nat, Action)) {
    && move.0 < |w.threads| && Can(w, move.0, move.1)
    && (move.1.AddTrace? || move.1.AddNew?)
    && |Table(c, w)| < c.recordNum
    && IsStale(w, move.1.op.addr) && Holds(Table(c, w), move.1.op.addr)
  }

  lemma ActKeepsExclusive(w: World, t: nat, a: Action)
    requires Exclusive(w) && t < |w.threads| && Can(w, t, a)
    ensures Exclusive(Act(w, t, a))
  {
    var w' := Act(w, t, a);
    assert HasMutex(w.threads[t]) <==> w.holder == Some(t);
    assert Held(w.threads[t]) <= w.live && Held(w.threads[t]) !! w.owned;
  }

  predicate IsHeld(w: World, a: nat) {
    exists t :: 0 <= t < |w.threads| && a in Held(w.threads[t])
  }

  /** No block is lost between its holders: what the allocator has handed out is owned or in a thread's hand. */
  ghost predicate NothingLeaks(w: World) {
    forall a :: a in w.live <==> a in w.owned || IsHeld(w, a)
  }

  lemma ActKeepsNothingLeaks(w: World, t: nat, a: Action)
    requires Exclusive(w) && NothingLeaks(w) && t < |w.threads| && Can(w, t, a)
    ensures NothingLeaks(Act(w, t, a))
  {
    var w' := Act(w, t, a);
    forall b ensures b in w'.live <==> b in w'.owned || IsHeld(w', b) {
      assert IsHeld(w, b) <==> b in Held(w.threads[t]) || HeldByOther(w, t, b);
      assert IsHeld(w', b) <==> b in Held(w'.threads[t]) || HeldByOther(w', t, b);
      assert HeldByOther(w', t, b) <==> HeldByOther(w, t, b) by {
        assert forall u :: 0 <= u < |w.threads| && u != t ==> w'.threads[u] == w.threads[u];
      }
      assert b in Held(w.threads[t]) ==> !HeldByOther(w, t, b) && b in w.live && b !in w.owned;
    }
  }

  predicate HeldByOther(w: World, t: nat, a: nat) {
    exists u :: 0 <= u < |w.threads| && u != t && a in Held(w.threads[u])
  }

  lemma {:induction false} RunKeepsNothingLeaks(w: World, moves: seq<(nat, Action)>)
    requires Exclusive(w) && NothingLeaks(w)
    ensures Exclusive(Run(w, moves)) && NothingLeaks(Run(w, moves))
    decreases |moves|
  {
    if moves != [] {
      var (t, a) := moves[0];
      if t < |w.threads| && Can(w, t, a) {
        ActKeepsExclusive(w, t, a);
        ActKeepsNothingLeaks(w, t, a);
      }
      RunKeepsNothingLeaks(Step(w, moves[0]), moves[1..]);
    }
  }

  /** Over every run, _realloc included: the live blocks are exactly those owned and those in the hands of a
      call under way; when no call is, exactly those owned. So a freed block is given back. */
  lemma LiveIsOwnedOrHeld(n: nat, moves: seq<(nat, Action)>)
    ensures var w := Run(Start(n), moves);
            && (forall a :: a in w.live <==> a in w.owned || IsHeld(w, a))
            && ((forall t :: 0 <= t < |w.threads| ==> w.threads[t].Ready?) ==> w.live == w.owned)
  {
    RunKeepsNothingLeaks(Start(n), moves);
  }

  /** Changing one thread's program counter affects only the addresses it made or makes stale. */
  lemma StaleAfter(w: World, w': World, t: nat)
    requires t < |w.threads| == |w'.threads|
    requires w'.threads == w.threads[t := w'.threads[t]]
    ensures forall a :: IsStale(w, a) && a !in Stale(w.threads[t]) ==> IsStale(w', a)
    ensures forall a :: a in Stale(w'.threads[t]) ==> IsStale(w', a)
  {
    forall a | IsStale(w, a) && a !in Stale(w.threads[t]) ensures IsStale(w', a) {
      var u :| 0 <= u < |w.threads| && a in Stale(w.threads[u]);
      assert a in Stale(w'.threads[u]);
    }
  }

  lemma HoldsAfterAdd(c: Config, t: Tracer, op: Op)
    requires op.Add?
    ensures var table' := Apply(c, t, op).table;
            && (forall a :: Holds(table', a) ==> Holds(t.table, a) || a == op.addr)
            && (|t.table| >= c.recordNum ==> table' == t.table)
            && (Distinct(t.table) && |t.table| < c.recordNum ==> (Distinct(table') <==> !Holds(t.table, op.addr)))
  {
    var table' := Apply(c, t, op).table;
    forall a | Holds(table', a) ensures Holds(t.table, a) || a == op.addr {
      var i :| 0 <= i < |table'| && table'[i].addr == a;
      assert i < |t.table| ==> t.table[i].addr == a;
    }
    if |t.table| < c.recordNum {
      assert table'[|t.table|].addr == op.addr;
      if Holds(t.table, op.addr) {
        var i :| 0 <= i < |t.table| && t.table[i].addr == op.addr;
        assert table'[i].addr == table'[|t.table|].addr;
      }
    }
  }

  lemma HoldsAfterRemove(c: Config, t: Tracer, op: Op)
    requires op.Remove? && Distinct(t.table)
    ensures var table' := Apply(c, t, op).table;
            Distinct(table') && !Holds(table', op.addr) && forall a :: Holds(table', a) ==> Holds(t.table, a)
  {
    var i, table' := IndexOfAddr(t.table, op.addr), Apply(c, t, op).table;
    if i < |t.table| {
      SwapRemoveMembers(t.table, i);
      forall a | Holds(table', a) ensures Holds(t.table, a) {
        var j :| 0 <= j < |table'| && table'[j].addr == a;
        assert table'[j] in t.table;
      }
    }
  }

  /** The bookkeeping of one move: owners, staleness and the table change together. */
  lemma ActKeepsCovered(c: Config, w: World, t: nat, a: Action)
    requires Inv(c, w) && t < |w.threads| && Can(w, t, a)
    ensures Covered(c, Act(w, t, a))
    ensures !a.AddTrace? && !a.AddNew? ==> Distinct(Table(c, Act(w, t, a)))
  {
    var w', tracer := Act(w, t, a), Trace(c, w.ops);
    StaleAfter(w, w', t);
    if a.AddTrace? || a.AddNew? {
      TraceSnoc(c, w.ops, a.op);
      HoldsAfterAdd(c, tracer, a.op);
    } else if a.Free? {
      TraceSnoc(c, w.ops, Remove(a.addr, a.junk));
      HoldsAfterRemove(c, tracer, Remove(a.addr, a.junk));
    } else if a.RemoveOld? && w.threads[t].buf.Some? {
      var op := Remove(w.threads[t].buf.value, a.junk);
      TraceSnoc(c, w.ops, op);
      HoldsAfterRemove(c, tracer, op);
    }
  }

  /** Uniqueness of traced addresses survives a move exactly when the move does not clash. */
  lemma UniqueUnlessClash(c: Config, w: World, move: (nat, Action))
    requires Inv(c, w)
    ensures Exclusive(Step(w, move)) && Covered(c, Step(w, move))
    ensures Distinct(Table(c, Step(w, move))) <==> !Clashes(c, w, move)
  {
    var (t, a) := move;
    if t < |w.threads| && Can(w, t, a) {
      ActKeepsExclusive(w, t, a);
      ActKeepsCovered(c, w, t, a);
      if a.AddTrace? || a.AddNew? {
        TraceSnoc(c, w.ops, a.op);
        HoldsAfterAdd(c, Trace(c, w.ops), a.op);
        assert a.op.addr in Held(w.threads[t]);
      }
    }
  }

  /** Every table along the run has distinct addresses. */
  predicate AlwaysDistinct(c: Config, w: World, moves: seq<(nat, Action)>)
    decreases |moves|
  {
    Distinct(Table(c, w)) && (moves != [] ==> AlwaysDistinct(c, Step(w, moves[0]), moves[1..]))
  }

  /** No move of the run traces an address inside another thread's reallocation window. */
  predicate NeverClashes(c: Config, w: World, moves: seq<(nat, Action)>)
    decreases |moves|
  {
    moves != [] ==> !Clashes(c, w, moves[0]) && NeverClashes(c, Step(w, moves[0]), moves[1..])
  }

  /** With _realloc in play, addresses stay unique throughout a run exactly when no add of it falls in
      such a window. */
  lemma {:induction false} RunIsUniqueUnlessClash(c: Config, w: World, moves: seq<(nat, Action)>)
    requires Inv(c, w)
    ensures AlwaysDistinct(c, w, moves) <==> NeverClashes(c, w, moves)
    decreases |moves|
  {
    if moves != [] {
      UniqueUnlessClash(c, w, moves[0]);
      if !Clashes(c, w, moves[0]) {
        RunIsUniqueUnlessClash(c, Step(w, moves[0]), moves[1..]);
      }
    }
  }

  lemma {:induction false} RunKeepsInvUnlessClash(c: Config, w: World, moves: seq<(nat, Action)>)
    requires Inv(c, w) && NeverClashes(c, w, moves)
    ensures Inv(c, Run(w, moves))
    decreases |moves|
  {
    if moves != [] {
      UniqueUnlessClash(c, w, moves[0]);
      RunKeepsInvUnlessClash(c, Step(w, moves[0]), moves[1..]);
    }
  }

  /** A thread has moved its block away from an address the table holds, not taken the mutex yet, and nobody
      has been given the address since. */
  predicate LeavesDeadEntry(c: Config, w: World, pc: Pc) {
    && pc.Moving? && pc.stage.Waiting? && pc.buf.Some?
    && pc.buf.value !in w.live && Holds(Table(c, w), pc.buf.value)
  }

  lemma TracedIsLiveUnlessMoved(c: Config, w: World)
    requires Inv(c, w) && w.holder.None?
    ensures (forall a :: Holds(Table(c, w), a) ==> a in w.live)
            <==> forall t :: 0 <= t < |w.threads| ==> !LeavesDeadEntry(c, w, w.threads[t])
    ensures forall t :: 0 <= t < |w.threads| && LeavesDeadEntry(c, w, w.threads[t]) ==>
              w.threads[t].got.Some? && w.threads[t].got != w.threads[t].buf
  {
    forall a | Holds(Table(c, w), a) && a !in w.live
      ensures exists t :: 0 <= t < |w.threads| && LeavesDeadEntry(c, w, w.threads[t])
    {
      var t :| 0 <= t < |w.threads| && a in Stale(w.threads[t]);
      assert HasMutex(w.threads[t]) <==> w.holder == Some(t);
      assert LeavesDeadEntry(c, w, w.threads[t]);
    }
    forall t | 0 <= t < |w.threads| && LeavesDeadEntry(c, w, w.threads[t])
      ensures w.threads[t].got.Some? && w.threads[t].got != w.threads[t].buf
    {
      assert Held(w.threads[t]) <= w.live;
    }
  }

  /** With _realloc in play, and no clash so far: whenever the mutex is free, every traced address is live if
      and only if no thread has moved a block away from a traced address that is still unused and not yet
      taken the mutex. */
  lemma RunTracedIsLiveUnlessMoved(c: Config, n: nat, moves: seq<(nat, Action)>)
    requires NeverClashes(c, Start(n), moves)
    ensures var w := Run(Start(n), moves);
            w.holder.None? ==>
              ((forall a :: Holds(Table(c, w), a) ==> a in w.live)
               <==> forall t :: 0 <= t < |w.threads| ==> !LeavesDeadEntry(c, w, w.threads[t]))
  {
    RunKeepsInvUnlessClash(c, Start(n), moves);
    var w := Run(Start(n), moves);
    if w.holder.None? {
      TracedIsLiveUnlessMoved(c, w);
    }
  }

  function MoveAway(op: Op, got: nat, size: int): seq<(nat, Action)>
    requires op.Add?
  {
    [(0, Malloc(op.addr, op.size))] + ([(0, AddTrace(op))]
    + ([(0, PlainRealloc(Some(op.addr), Some(got), size))] + []))
  }

  /** One thread, three moves, no clash: the table holds an address that is not live. */
  lemma PlainReallocLeavesDeadEntry(c: Config, op: Op, got: nat, size: int)
    requires c.recordNum >= 1 && op.Add? && op.addr != got
    ensures NeverClashes(c, Start(1), MoveAway(op, got, size))
    ensures var w := Run(Start(1), MoveAway(op, got, size));
            w.holder.None? && Holds(Table(c, w), op.addr) && op.addr !in w.live
  {
    var p := op.addr;
    var w1 := World([Allocated(p, op.size)], None, {p}, {}, []);
    var w2 := World([Ready], None, {p}, {p}, [op]);
    var w3 := World([Moving(Some(p), Some(got), size, Waiting)], None, {got}, {}, [op]);
    var m2 := [(0, PlainRealloc(Some(p), Some(got), size))] + [];
    var m1 := [(0, AddTrace(op))] + m2;
    assert Step(Start(1), (0, Malloc(p, op.size))) == w1;
    assert Step(w1, (0, AddTrace(op))) == w2;
    assert Step(w2, (0, PlainRealloc(Some(p), Some(got), size))) == w3;
    RunCons(Start(1), (0, Malloc(p, op.size)), m1);
    RunCons(w1, (0, AddTrace(op)), m2);
    RunCons(w2, (0, PlainRealloc(Some(p), Some(got), size)), []);
    assert MoveAway(op, got, size)[1..] == m1 && m1[1..] == m2 && m2[1..] == [];
    assert !IsStale(w1, p);
    assert NeverClashes(c, w3, []) && NeverClashes(c, w2, m2) && NeverClashes(c, w1, m1);
    TraceSnoc(c, [], op);
    assert [] + [op] == [op];
    assert Table(c, w3)[0].addr == p;
  }

  /** No thread is between _realloc's move of a block and its taking of the mutex. */
  predicate NoneWaiting(w: World) {
    forall t :: 0 <= t < |w.threads| ==> !(w.threads[t].Moving? && w.threads[t].stage.Waiting?)
  }

  /** Without _realloc, only the mutex holder makes an address stale. */
  lemma StaleNeedsMutex(w: World, a: nat)
    requires Exclusive(w) && NoneWaiting(w) && IsStale(w, a)
    ensures w.holder.Some? && w.holder.value < |w.threads| && a in Stale(w.threads[w.holder.value])
  {
    var u :| 0 <= u < |w.threads| && a in Stale(w.threads[u]);
    assert HasMutex(w.threads[u]) <==> w.holder == Some(u);
  }

  lemma NoWindowNoHeldAddress(c: Config, w: World, t: nat, a: Action)
    requires Inv(c, w) && NoneWaiting(w) && t < |w.threads| && Can(w, t, a) && (a.AddTrace? || a.AddNew?)
    ensures !Holds(Table(c, w), a.op.addr)
  {
    assert a.op.addr in Held(w.threads[t]);
    assert HasMutex(w.threads[t]) <==> w.holder == Some(t);
    if IsStale(w, a.op.addr) {
      StaleNeedsMutex(w, a.op.addr);
    }
  }

  predicate NoPlainRealloc(move: (nat, Action)) {
    !move.1.PlainRealloc?
  }

  ghost predicate Clean(c: Config, w: World) {
    && Inv(c, w) && NoneWaiting(w) && FreshAdds(c, w.ops)
  }

  lemma FreshAddsSnoc(c: Config, ops: seq<Op>, op: Op)
    requires FreshAdds(c, ops) && (op.Add? ==> !Holds(Trace(c, ops).table, op.addr))
    ensures FreshAdds(c, ops + [op])
  {
    var ops' := ops + [op];
    forall i | 0 <= i < |ops'| && ops'[i].Add? ensures !Holds(Trace(c, ops'[..i]).table, ops'[i].addr) {
      assert ops'[..i] == if i < |ops| then ops[..i] else ops;
    }
  }

  lemma StepKeepsClean(c: Config, w: World, move: (nat, Action))
    requires Clean(c, w) && NoPlainRealloc(move)
    ensures Clean(c, Step(w, move))
  {
    var (t, a) := move;
    UniqueUnlessClash(c, w, move);
    if t < |w.threads| && Can(w, t, a) {
      StepKeepsFresh(c, w, t, a);
    }
  }

  lemma StepKeepsFresh(c: Config, w: World, t: nat, a: Action)
    requires Clean(c, w) && t < |w.threads| && Can(w, t, a)
    ensures (a.AddTrace? || a.AddNew?) ==> !Holds(Table(c, w), a.op.addr)
    ensures FreshAdds(c, Act(w, t, a).ops)
  {
    if a.AddTrace? || a.AddNew? {
      NoWindowNoHeldAddress(c, w, t, a);
      FreshAddsSnoc(c, w.ops, a.op);
    } else if a.Free? {
      FreshAddsSnoc(c, w.ops, Remove(a.addr, a.junk));
    } else if a.RemoveOld? && w.threads[t].buf.Some? {
      FreshAddsSnoc(c, w.ops, Remove(w.threads[t].buf.value, a.junk));
    }
  }

  function Start(n: nat): World {
    World(seq(n, _ => Ready), None, {}, {}, [])
  }

  lemma {:induction false} RunKeepsClean(c: Config, w: World, moves: seq<(nat, Action)>)
    requires Clean(c, w) && forall m :: m in moves ==> NoPlainRealloc(m)
    ensures Clean(c, Run(w, moves))
    decreases |moves|
  {
    if moves != [] {
      assert NoPlainRealloc(moves[0]);
      StepKeepsClean(c, w, moves[0]);
      RunKeepsClean(c, Step(w, moves[0]), moves[1..]);
    }
  }

  /** Address uniqueness: in every interleaving of any number of threads that use malloc, free and
      media_lib_module_realloc, no two entries share an address, no address still in the table is added, and
      whenever the mutex is free every traced address is live and owned. */
  lemma TracedAddressesAreUnique(c: Config, n: nat, moves: seq<(nat, Action)>)
    requires forall m :: m in moves ==> NoPlainRealloc(m)
    ensures var w := Run(Start(n), moves);
            && Distinct(Table(c, w))
            && FreshAdds(c, w.ops)
            && (w.holder.None? ==> forall a :: Holds(Table(c, w), a) ==> a in w.owned && a in w.live)
  {
    RunKeepsClean(c, Start(n), moves);
    var w := Run(Start(n), moves);
    forall a | w.holder.None? && Holds(Table(c, w), a) ensures a in w.owned && a in w.live {
      if IsStale(w, a) {
        StaleNeedsMutex(w, a);
      }
    }
  }

  // The converse: which owned addresses the table misses.

  /** Addresses that became owned without an entry: added to a full table, or given back by a reallocation
      that failed after the old entry was removed. An address traced again is no longer lost. */
  function LostAfter(c: Config, w: World, lost: set<nat>, move: (nat, Action)): set<nat> {
    var (t, a) := move;
    if !(t < |w.threads| && Can(w, t, a)) then lost
    else if a.AddTrace? || a.AddNew? then
      if |Table(c, w)| >= c.recordNum then lost + {a.op.addr} else lost - {a.op.addr}
    else if a.GiveUp? then lost + SetOf(w.threads[t].buf)
    else lost
  }

  function Lost(c: Config, w: World, lost: set<nat>, moves: seq<(nat, Action)>): set<nat>
    decreases |moves|
  {
    if moves == [] then lost else Lost(c, Step(w, moves[0]), LostAfter(c, w, lost, moves[0]), moves[1..])
  }

  /** The old block of the thread inside the mutex is owned by nobody, and untraced once it is removed. */
  ghost predicate OldBlockIsOut(c: Config, w: World) {
    forall t :: 0 <= t < |w.threads| && HasMutex(w.threads[t]) ==>
      && SetOf(w.threads[t].buf) !! w.owned
      && (w.threads[t].stage.Removed? && w.threads[t].buf.Some? ==> !Holds(Table(c, w), w.threads[t].buf.value))
  }

  ghost predicate Known(c: Config, w: World, lost: set<nat>) {
    OldBlockIsOut(c, w) && forall a :: a in w.owned ==> (Holds(Table(c, w), a) <==> a !in lost)
  }

  lemma OthersHeld(c: Config, t: Tracer, op: Op, a: nat)
    requires a != op.addr && Distinct(t.table)
    ensures Holds(Apply(c, t, op).table, a) <==> Holds(t.table, a)
  {
    var table' := Apply(c, t, op).table;
    if op.Add? {
      HoldsAfterAdd(c, t, op);
      if Holds(t.table, a) {
        var i :| 0 <= i < |t.table| && t.table[i].addr == a;
        assert table'[i].addr == a;
      }
    } else {
      HoldsAfterRemove(c, t, op);
      if IndexOfAddr(t.table, op.addr) < |t.table| {
        SwapRemoveMembers(t.table, IndexOfAddr(t.table, op.addr));
      }
    }
  }

  lemma AddedIsHeld(c: Config, t: Tracer, op: Op)
    requires op.Add? && !Holds(t.table, op.addr)
    ensures Holds(Apply(c, t, op).table, op.addr) <==> |t.table| < c.recordNum
  {
    var table' := Apply(c, t, op).table;
    if |t.table| < c.recordNum {
      assert table'[|t.table|].addr == op.addr;
    }
  }

  /** The traced call of a move, if it makes one. */
  function TracedBy(w: World, t: nat, a: Action): Option<Op>
    requires t < |w.threads| && Can(w, t, a)
  {
    match a
    case AddTrace(op) => Some(op)
    case AddNew(op) => Some(op)
    case Free(addr, junk) => Some(Remove(addr, junk))
    case RemoveOld(junk) => if w.threads[t].buf.Some? then Some(Remove(w.threads[t].buf.value, junk)) else None
    case _ => None
  }

  lemma TableAfter(c: Config, w: World, t: nat, a: Action)
    requires t < |w.threads| && Can(w, t, a)
    ensures match TracedBy(w, t, a)
            case None => Act(w, t, a).ops == w.ops
            case Some(op) => && Act(w, t, a).ops == w.ops + [op]
                             && Table(c, Act(w, t, a)) == Apply(c, Trace(c, w.ops), op).table
  {
    match TracedBy(w, t, a)
    case None =>
    case Some(op) => TraceSnoc(c, w.ops, op);
  }

  lemma StepKeepsOldBlockOut(c: Config, w: World, t: nat, a: Action)
    requires Clean(c, w) && OldBlockIsOut(c, w) && t < |w.threads| && Can(w, t, a) && !a.PlainRealloc?
    ensures OldBlockIsOut(c, Act(w, t, a))
  {
    var w' := Act(w, t, a);
    TableAfter(c, w, t, a);
    if a.RemoveOld? && w.threads[t].buf.Some? {
      HoldsAfterRemove(c, Trace(c, w.ops), Remove(w.threads[t].buf.value, a.junk));
    }
    forall u | 0 <= u < |w'.threads| && HasMutex(w'.threads[u])
      ensures SetOf(w'.threads[u].buf) !! w'.owned
      ensures w'.threads[u].stage.Removed? && w'.threads[u].buf.Some? ==>
                !Holds(Table(c, w'), w'.threads[u].buf.value)
    {
      if u != t {
        assert HasMutex(w.threads[u]) <==> w.holder == Some(u);
        assert HasMutex(w.threads[t]) <==> w.holder == Some(t);
      }
    }
  }

  lemma StepKeepsKnown(c: Config, w: World, lost: set<nat>, t: nat, a: Action)
    requires Clean(c, w) && Known(c, w, lost) && t < |w.threads| && Can(w, t, a) && !a.PlainRealloc?
    ensures Known(c, Act(w, t, a), LostAfter(c, w, lost, (t, a)))
  {
    var w' := Act(w, t, a);
    StepKeepsOldBlockOut(c, w, t, a);
    TableAfter(c, w, t, a);
    assert HasMutex(w.threads[t]) <==> w.holder == Some(t);
    if a.AddTrace? || a.AddNew? {
      NoWindowNoHeldAddress(c, w, t, a);
      AddedIsHeld(c, Trace(c, w.ops), a.op);
    }
    forall b | b in w'.owned ensures Holds(Table(c, w'), b) <==> b !in LostAfter(c, w, lost, (t, a)) {
      if TracedBy(w, t, a).Some? && b != TracedBy(w, t, a).value.addr {
        OthersHeld(c, Trace(c, w.ops), TracedBy(w, t, a).value, b);
      }
    }
  }

  lemma {:induction false} RunKeepsKnown(c: Config, w: World, lost: set<nat>, moves: seq<(nat, Action)>)
    requires Clean(c, w) && Known(c, w, lost) && forall m :: m in moves ==> NoPlainRealloc(m)
    ensures Known(c, Run(w, moves), Lost(c, w, lost, moves))
    decreases |moves|
  {
    if moves != [] {
      var (t, a) := moves[0];
      assert NoPlainRealloc(moves[0]);
      StepKeepsClean(c, w, moves[0]);
      if t < |w.threads| && Can(w, t, a) {
        StepKeepsKnown(c, w, lost, t, a);
      }
      RunKeepsKnown(c, Step(w, moves[0]), LostAfter(c, w, lost, moves[0]), moves[1..]);
    }
  }

  /** No leak is missed but these: in every interleaving without _realloc an owned address is in the table
      if and only if it was not lost; with the mutex free the table lists exactly the owned addresses
      that were not. */
  lemma OwnedIsTracedUnlessLost(c: Config, n: nat, moves: seq<(nat, Action)>)
    requires forall m :: m in moves ==> NoPlainRealloc(m)
    ensures var (w, lost) := (Run(Start(n), moves), Lost(c, Start(n), {}, moves));
            && (forall a :: a in w.owned ==> (Holds(Table(c, w), a) <==> a !in lost))
            && (w.holder.None? ==> forall a :: Holds(Table(c, w), a) <==> a in w.owned && a !in lost)
  {
    RunKeepsKnown(c, Start(n), {}, moves);
    TracedAddressesAreUnique(c, n, moves);
  }

  function WholeLife(first: Op, second: Op, junk: byte): seq<(nat, Action)>
    requires first.Add? && second.Add?
  {
    [(0, Malloc(first.addr, first.size)), (0, AddTrace(first)),
     (0, ModuleRealloc(Some(first.addr), Some(second.addr), second.size)), (0, RemoveOld(junk)), (0, AddNew(second)),
     (0, Free(second.addr, junk)), (0, Release)]
  }

  /** A block allocated, reallocated elsewhere and freed leaves nothing live, owned or traced. */
  lemma WholeLifeLeavesNothing(c: Config, first: Op, second: Op, junk: byte)
    requires c.recordNum >= 1 && first.Add? && second.Add? && first.addr != second.addr
    ensures var w := Run(Start(1), WholeLife(first, second, junk));
            && w.live == w.owned == {} && w.holder.None? && w.threads == [Ready] && Table(c, w) == []
            && w.ops == [first, Remove(first.addr, junk), second, Remove(second.addr, junk)]
  {
    var p, q, moves := first.addr, second.addr, WholeLife(first, second, junk);
    var w0 := Start(1);
    var w1 := World([Allocated(p, first.size)], None, {p}, {}, []);
    var w2 := World([Ready], None, {p}, {p}, [first]);
    var w3 := World([Moving(Some(p), Some(q), second.size, Locked)], Some(0), {q}, {}, [first]);
    var w4 := World([Moving(Some(p), Some(q), second.size, Removed)], Some(0), {q}, {}, [first, Remove(p, junk)]);
    var w5 := World([Ready], None, {q}, {q}, [first, Remove(p, junk), second]);
    var w6 := World([Untraced(q)], None, {q}, {}, [first, Remove(p, junk), second, Remove(q, junk)]);
    var w7 := World([Ready], None, {}, {}, [first, Remove(p, junk), second, Remove(q, junk)]);
    assert Step(w0, moves[0]) == w1;
    assert Step(w1, moves[1]) == w2;
    assert Step(w2, moves[2]) == w3;
    assert Step(w3, moves[3]) == w4;
    assert Step(w4, moves[4]) == w5;
    assert Step(w5, moves[5]) == w6;
    assert Step(w6, moves[6]) == w7;
    RunTail(w6, moves, 6);
    RunTail(w5, moves, 5);
    RunTail(w4, moves, 4);
    RunTail(w3, moves, 3);
    RunTail(w2, moves, 2);
    RunTail(w1, moves, 1);
    RunTail(w0, moves, 0);
    assert moves[7..] == [] && moves[0..] == moves;
    TwoLives(c, first, Remove(p, junk), second, Remove(q, junk));
  }

  lemma TwoLives(c: Config, first: Op, gone: Op, second: Op, gone2: Op)
    requires c.recordNum >= 1 && first.Add? && gone.Remove? && gone.addr == first.addr
    requires second.Add? && gone2.Remove? && gone2.addr == second.addr
    ensures Trace(c, [first, gone, second, gone2]).table == []
  {
    AddThenRemove(c, first, gone);
    TraceSnoc(c, [first, gone], second);
    TraceSnoc(c, [first, gone, second], gone2);
    assert [first, gone] + [second] == [first, gone, second];
    assert [first, gone, second] + [gone2] == [first, gone, second, gone2];
  }

  lemma RunTail(w: World, moves: seq<(nat, Action)>, i: nat)
    requires i < |moves|
    ensures Run(w, moves[i..]) == Run(Step(w, moves[i]), moves[i + 1..])
  {
    assert moves[i..][1..] == moves[i + 1..];
  }

  function FailedRealloc(op: Op, size: int, junk: byte): seq<(nat, Action)>
    requires op.Add?
  {
    [(0, Malloc(op.addr, op.size))] + ([(0, AddTrace(op))]
    + ([(0, ModuleRealloc(Some(op.addr), None, size))] + ([(0, RemoveOld(junk))] + ([(0, GiveUp)] + []))))
  }

  /** A reallocation that fails drops the entry of a block that is still live and owned. */
  lemma FailedReallocLosesEntry(c: Config, op: Op, size: int, junk: byte)
    requires op.Add?
    ensures var w := Run(Start(1), FailedRealloc(op, size, junk));
            w.holder.None? && w.live == w.owned == {op.addr} && Table(c, w) == []
  {
    var p, gone := op.addr, Remove(op.addr, junk);
    var w1 := World([Allocated(p, op.size)], None, {p}, {}, []);
    var w2 := World([Ready], None, {p}, {p}, [op]);
    var w3 := World([Moving(Some(p), None, size, Locked)], Some(0), {p}, {}, [op]);
    var w4 := World([Moving(Some(p), None, size, Removed)], Some(0), {p}, {}, [op, gone]);
    var w5 := World([Ready], None, {p}, {p}, [op, gone]);
    assert Step(Start(1), (0, Malloc(p, op.size))) == w1;
    assert Step(w1, (0, AddTrace(op))) == w2;
    assert Step(w2, (0, ModuleRealloc(Some(p), None, size))) == w3;
    assert Step(w3, (0, RemoveOld(junk))) == w4;
    assert Step(w4, (0, GiveUp)) == w5;
    RunToLoss(op, size, junk, w1, w2, w3, w4, w5);
    AddThenRemove(c, op, gone);
  }

  lemma RunToLoss(op: Op, size: int, junk: byte, w1: World, w2: World, w3: World, w4: World, w5: World)
    requires op.Add?
    requires Step(Start(1), (0, Malloc(op.addr, op.size))) == w1 && Step(w1, (0, AddTrace(op))) == w2
    requires Step(w2, (0, ModuleRealloc(Some(op.addr), None, size))) == w3
    requires Step(w3, (0, RemoveOld(junk))) == w4 && Step(w4, (0, GiveUp)) == w5
    ensures Run(Start(1), FailedRealloc(op, size, junk)) == w5
  {
    var m4 := [(0, GiveUp)] + [];
    var m3 := [(0, RemoveOld(junk))] + m4;
    var m2 := [(0, ModuleRealloc(Some(op.addr), None, size))] + m3;
    var m1 := [(0, AddTrace(op))] + m2;
    RunCons(w4, (0, GiveUp), []);
    RunCons(w3, (0, RemoveOld(junk)), m4);
    RunCons(w2, (0, ModuleRealloc(Some(op.addr), None, size)), m3);
    RunCons(w1, (0, AddTrace(op)), m2);
    RunCons(Start(1), (0, Malloc(op.addr, op.size)), m1);
  }

  lemma AddThenRemove(c: Config, op: Op, gone: Op)
    requires op.Add? && gone.Remove? && gone.addr == op.addr
    ensures Trace(c, [op, gone]).table == []
  {
    TraceOfTwo(c, op, gone);
  }

  /** Hence, for such programs and a table that never overflowed, the history read as a map from address to
      size is the device's own table. */
  lemma ThreadsOfflineReportMatchesTable(c: Config, n: nat, moves: seq<(nat, Action)>)
    requires forall m :: m in moves ==> NoPlainRealloc(m)
    requires NoOverflow(c, Run(Start(n), moves).ops)
    ensures var w := Run(Start(n), moves); SameLeaks(Offline(RecordsOf(c, w.ops)), Table(c, w))
  {
    TracedAddressesAreUnique(c, n, moves);
    OfflineReportMatchesTable(c, Run(Start(n), moves).ops);
  }

  lemma RunCons(w: World, move: (nat, Action), moves: seq<(nat, Action)>)
    ensures Run(w, [move] + moves) == Run(Step(w, move), moves)
  {
    assert ([move] + moves)[1..] == moves;
  }

  function WindowMoves(first: Op, second: Op, got: nat, size: int): seq<(nat, Action)>
    requires first.Add? && second.Add?
  {
    [(0, Malloc(first.addr, first.size))] + ([(0, AddTrace(first))]
    + ([(0, PlainRealloc(Some(first.addr), Some(got), size))]
       + ([(1, Malloc(second.addr, second.size))] + ([(1, AddTrace(second))] + []))))
  }

  /** Why _realloc is excluded: it moves a block before it takes the mutex, and in that window another
      thread can be given the old address and trace it. */
  lemma PlainReallocBreaksUniqueness(c: Config, first: Op, second: Op, got: nat, size: int)
    requires c.recordNum >= 2 && first.Add? && second.Add? && first.addr == second.addr != got
    ensures var w := Run(Start(2), WindowMoves(first, second, got, size));
            w.holder.None? && !Distinct(Table(c, w))
  {
    var p := first.addr;
    var w1 := World([Allocated(p, first.size), Ready], None, {p}, {}, []);
    var w2 := World([Ready, Ready], None, {p}, {p}, [first]);
    var moving := Moving(Some(p), Some(got), size, Waiting);
    var w3 := World([moving, Ready], None, {got}, {}, [first]);
    var w4 := World([moving, Allocated(p, second.size)], None, {got, p}, {}, [first]);
    var w5 := World([moving, Ready], None, {got, p}, {p}, [first, second]);
    assert Step(Start(2), (0, Malloc(p, first.size))) == w1;
    assert Step(w1, (0, AddTrace(first))) == w2;
    assert Step(w2, (0, PlainRealloc(Some(p), Some(got), size))) == w3;
    assert Step(w3, (1, Malloc(p, second.size))) == w4;
    assert Step(w4, (1, AddTrace(second))) == w5;
    RunToWindow(first, second, got, size, w1, w2, w3, w4, w5);
    TwoAddsOfOneAddress(c, first, second);
  }

  lemma RunToWindow(first: Op, second: Op, got: nat, size: int, w1: World, w2: World, w3: World, w4: World, w5: World)
    requires first.Add? && second.Add?
    requires Step(Start(2), (0, Malloc(first.addr, first.size))) == w1 && Step(w1, (0, AddTrace(first))) == w2
    requires Step(w2, (0, PlainRealloc(Some(first.addr), Some(got), size))) == w3
    requires Step(w3, (1, Malloc(second.addr, second.size))) == w4 && Step(w4, (1, AddTrace(second))) == w5
    ensures Run(Start(2), WindowMoves(first, second, got, size)) == w5
  {
    var m4 := [(1, AddTrace(second))] + [];
    var m3 := [(1, Malloc(second.addr, second.size))] + m4;
    var m2 := [(0, PlainRealloc(Some(first.addr), Some(got), size))] + m3;
    var m1 := [(0, AddTrace(first))] + m2;
    RunCons(w4, (1, AddTrace(second)), []);
    RunCons(w3, (1, Malloc(second.addr, second.size)), m4);
    RunCons(w2, (0, PlainRealloc(Some(first.addr), Some(got), size)), m3);
    RunCons(w1, (0, AddTrace(first)), m2);
    RunCons(Start(2), (0, Malloc(first.addr, first.size)), m1);
  }

  lemma TwoAddsOfOneAddress(c: Config, first: Op, second: Op)
    requires c.recordNum >= 2 && first.Add? && second.Add? && first.addr == second.addr
    ensures !Distinct(Trace(c, [first, second]).table)
  {
    TraceOfTwo(c, first, second);
    var table := Trace(c, [first, second]).table;
    assert |table| == 2 && table[0].addr == table[1].addr;
  }
}
