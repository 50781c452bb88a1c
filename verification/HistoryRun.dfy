/** The allocation-history writer as a step system: one producer (the thread inside his_write,
    which the tracer's mutex keeps single) and the saver thread, one step per access to shared
    state (media_lib_mem_his.c:62-161). The saver copies its slice byte by byte, without the lock. */
module HistoryRun {
  import opened Arithmetic
  import opened Bytes
  import opened SliceRing

  /** Where the producer is: not logging, at his_write's unlocked test of n, or past it. A record
      is logged by two his_write calls; `more` is the second call's buffer. */
  datatype Producer =
    | Idle
    | Testing(rest: seq<byte>, more: seq<byte>)
    | Filling(rest: seq<byte>, more: seq<byte>)

  /** Where save_thread is: reading n, taking the lock for the head, writing a slice (the lock for
      n-- follows its last byte), between reading n == 0 and reading stopping, or past the loop. */
  datatype Saver =
    | Polling
    | TakingHead
    | Writing(head: nat, done: nat)
    | SawEmpty
    | Flushing(done: nat)
    | Finished

  /** `logged` and `retired` record history: every byte handed to his_write, and how many slices
      the saver has written and given back. */
  datatype State = State(ring: Ring, producer: Producer, saver: Saver, stopping: bool,
                         file: seq<byte>, logged: seq<byte>, retired: nat)

  datatype Action = Log(buf: seq<byte>, more: seq<byte>) | ProducerStep | SaverStep | Stop

  function Init(k: nat, size: nat, memory: seq<seq<byte>>): State {
    State(Ring(memory, size, 0, 0, 0), Idle, Polling, false, [], [], 0)
  }

  predicate IsMemory(k: nat, size: nat, memory: seq<seq<byte>>) {
    0 < k && 0 < size && |memory| == k && forall i :: 0 <= i < k ==> |memory[i]| == size
  }

  /** Bytes handed to his_write that are not in the ring yet. */
  function Outstanding(p: Producer): seq<byte> {
    match p
    case Idle => []
    case Testing(rest, more) => rest + more
    case Filling(rest, more) => rest + more
  }

  /** How much of the oldest slice the saver has already put in the file. */
  function Copied(s: Saver): nat {
    match s
    case Writing(_, done) => done
    case _ => 0
  }

  predicate InLoop(s: Saver) {
    !s.Flushing? && !s.Finished?
  }

  /** The bytes of the whole log, wherever they are: in the file, in the ring (less what the saver has
      already copied of the oldest slice), or still in the producer's buffers. */
  function Stream(s: State): seq<byte>
    requires s.ring.Valid() && Copied(s.saver) <= |s.ring.Stored()|
  {
    s.file + s.ring.Stored()[Copied(s.saver)..] + Outstanding(s.producer)
  }

  /** What keeps the two threads out of each other's way. */
  ghost predicate Separated(s: State) {
    && s.ring.Valid()
    && (s.producer.Filling? ==> s.ring.n < |s.ring.slices| && s.producer.rest != [])
    && (s.saver.TakingHead? ==> s.ring.n > 0)
    && (s.saver.Writing? ==> s.ring.n > 0 && s.saver.head == s.ring.Head() && s.saver.done <= s.ring.size)
  }

  ghost predicate Inv(s: State) {
    && Separated(s)
    && (InLoop(s.saver) ==>
          && Copied(s.saver) <= |s.ring.Stored()|
          && Stream(s) == s.logged
          && |s.file| == s.retired * s.ring.size + Copied(s.saver))
  }

  function StepProducer(s: State): State
    requires s.ring.Valid()
  {
    match s.producer
    case Idle => s
    case Testing(rest, more) =>
      if rest == [] then
        s.(producer := if more == [] then Idle else Testing(more, []))
      else if s.ring.n >= |s.ring.slices| then s  // sleep and test again
      else s.(producer := Filling(rest, more))
    case Filling(rest, more) =>
      var (ring, rest') := s.ring.Fill(rest);
      s.(ring := ring, producer := Testing(rest', more))
  }

  function StepSaver(s: State): State
    requires Inv(s)
  {
    match s.saver
    case Polling => s.(saver := if s.ring.n > 0 then TakingHead else SawEmpty)
    case TakingHead => s.(saver := Writing(s.ring.Head(), 0))
    case Writing(head, done) =>
      if done < s.ring.size then
        s.(file := s.file + [s.ring.slices[head][done]], saver := Writing(head, done + 1))
      else
        s.(ring := s.ring.Retire(), saver := Polling, retired := s.retired + 1)
    case SawEmpty => s.(saver := if s.stopping then Flushing(0) else Polling)
    case Flushing(done) =>
      if done < s.ring.filled then
        s.(file := s.file + [s.ring.slices[s.ring.wp][done]], saver := Flushing(done + 1))
      else
        s.(stopping := false, saver := Finished)
    case Finished => s
  }

  /** One step of one thread. Log is a record's entry to the writer: it needs an idle producer (the
      tracer's mutex) and a passing his_wait_for_enough. */
  function Step(s: State, a: Action): State
    requires Inv(s)
  {
    match a
    case Log(buf, more) =>
      if s.producer.Idle? && HasRoom(s.ring, |buf| + |more|) then
        s.(producer := Testing(buf, more), logged := s.logged + buf + more)
      else s
    case ProducerStep => StepProducer(s)
    case SaverStep => StepSaver(s)
    case Stop => s.(stopping := true)
  }

  lemma DropFromConcat(a: seq<byte>, b: seq<byte>, c: nat)
    requires c <= |a|
    ensures (a + b)[c..] == a[c..] + b
  {
  }

  lemma FillingKeepsInv(s: State)
    requires Inv(s) && s.producer.Filling?
    ensures Inv(StepProducer(s))
  {
    var s' := StepProducer(s);
    var rest, more, rest' := s.producer.rest, s.producer.more, s.ring.Fill(s.producer.rest).1;
    FillAppends(s.ring, rest);
    FillKeepsCompletedSlices(s.ring, rest);
    if InLoop(s.saver) {
      var c := Copied(s.saver);
      var stored, stored' := s.ring.Stored(), s'.ring.Stored();
      if s.saver.Writing? {
        RetireDropsOldest(s'.ring);
      }
      DropFromConcat(stored, rest, c);
      DropFromConcat(stored', rest', c);
      StreamIsRegrouped(s.file, stored[c..], rest, stored'[c..], rest', more);
    }
  }

  lemma StreamIsRegrouped(file: seq<byte>, a: seq<byte>, b: seq<byte>, a': seq<byte>, b': seq<byte>, more: seq<byte>)
    requires a + b == a' + b'
    ensures file + a + (b + more) == file + a' + (b' + more)
  {
    assert file + a + (b + more) == file + (a + b) + more;
    assert file + a' + (b' + more) == file + (a' + b') + more;
  }

  lemma TestingKeepsInv(s: State)
    requires Inv(s) && s.producer.Testing?
    ensures Inv(StepProducer(s))
  {
    var rest, more := s.producer.rest, s.producer.more;
    if rest == [] {
      assert rest + more == more + [];
    }
  }

  lemma WritingKeepsInv(s: State)
    requires Inv(s) && s.saver.Writing? && s.saver.done < s.ring.size
    ensures Inv(StepSaver(s))
  {
    var s', stored, done := StepSaver(s), s.ring.Stored(), s.saver.done;
    RetireDropsOldest(s.ring);
    assert stored[done..] == [stored[done]] + stored[done + 1..];
    assert stored[done] == s.ring.slices[s.saver.head][done];
    assert s.file + ([stored[done]] + stored[done + 1..]) == s'.file + stored[done + 1..];
  }

  lemma RetiringKeepsInv(s: State)
    requires Inv(s) && s.saver.Writing? && s.saver.done == s.ring.size
    ensures Inv(StepSaver(s))
  {
    var stored, left := s.ring.Stored(), s.ring.Retire().Stored();
    RetireDropsOldest(s.ring);
    OneMoreMultiple(s.retired, s.ring.size);
    assert stored[s.ring.size..] == left == left[0..];
  }

  lemma StepKeepsInv(s: State, a: Action)
    requires Inv(s)
    ensures Inv(Step(s, a))
  {
    match a
    case Log(buf, more) =>
      if s.producer.Idle? && InLoop(s.saver) {
        assert Stream(s) + buf + more == s.file + s.ring.Stored()[Copied(s.saver)..] + (buf + more);
      }
    case ProducerStep =>
      if s.producer.Filling? {
        FillingKeepsInv(s);
      } else if s.producer.Testing? {
        TestingKeepsInv(s);
      }
    case SaverStep =>
      if s.saver.Writing? && s.saver.done < s.ring.size {
        WritingKeepsInv(s);
      } else if s.saver.Writing? {
        RetiringKeepsInv(s);
      } else if s.saver.TakingHead? {
        RetireDropsOldest(s.ring);
      }
    case Stop =>
  }

  /** The state after a schedule; one that keeps Inv, whatever the schedule. */
  function Run(s: State, schedule: seq<Action>): (s': State)
    requires Inv(s)
    ensures Inv(s')
    decreases |schedule|
  {
    if schedule == [] then s
    else
      StepKeepsInv(s, schedule[0]);
      Run(Step(s, schedule[0]), schedule[1..])
  }
}
