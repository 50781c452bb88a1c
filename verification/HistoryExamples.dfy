/** Runs of the history writer in which it does not do what one expects: a stop that loses a slice, one
    that leaves a file that is no prefix of the log, one that leaves a producer waiting for ever. */
module HistoryExamples {
  import opened Bytes
  import opened SliceRing
  import opened HistoryRun
  import opened HistoryTheorems

  lemma Then(s0: State, schedule: seq<Action>, s: State, a: Action) returns (s': State)
    requires Inv(s0) && Inv(s) && Run(s0, schedule) == s
    ensures Inv(s') && s' == Step(s, a) && Run(s0, schedule + [a]) == s'
  {
    RunSnoc(s0, schedule, a);
    s' := Step(s, a);
    assert [] + [a] == [a];
  }

  /** One record of one buffer, logged and put into the ring in one pass. */
  function LogOne(buf: seq<byte>): seq<Action> {
    [Log(buf, []), ProducerStep, ProducerStep, ProducerStep]
  }

  /** A buffer that fits what is left of the current slice is in the ring after these steps. */
  lemma LogOneFills(s0: State, schedule: seq<Action>, s: State, buf: seq<byte>) returns (s': State)
    requires Inv(s0) && Inv(s) && Run(s0, schedule) == s
    requires s.producer.Idle? && s.ring.n < |s.ring.slices| && buf != [] && s.ring.filled == 0 && |buf| <= s.ring.size
    ensures Inv(s') && s' == Run(s0, schedule + LogOne(buf))
    ensures s'.ring == s.ring.Fill(buf).0
    ensures s' == s.(ring := s'.ring, logged := s.logged + buf)
  {
    var t1 := Then(s0, schedule, s, Log(buf, []));
    assert s.logged + buf + [] == s.logged + buf;
    var t2 := Then(s0, schedule + [Log(buf, [])], t1, ProducerStep);
    var t3 := Then(s0, schedule + [Log(buf, [])] + [ProducerStep], t2, ProducerStep);
    assert s.ring.Fill(buf).1 == [];
    s' := Then(s0, schedule + [Log(buf, [])] + [ProducerStep] + [ProducerStep], t3, ProducerStep);
    assert schedule + [Log(buf, [])] + [ProducerStep] + [ProducerStep] + [ProducerStep] == schedule + LogOne(buf);
  }

  /** The saver finds the ring empty and is not scheduled again; m records of a slice's length come in. */
  function PileUp(buf: seq<byte>, m: nat): seq<Action> {
    if m == 0 then [SaverStep] else PileUp(buf, m - 1) + LogOne(buf)
  }

  function Repeat(buf: seq<byte>, m: nat): seq<byte> {
    if m == 0 then [] else Repeat(buf, m - 1) + buf
  }

  lemma {:induction false} SlicesPileUp(k: nat, size: nat, memory: seq<seq<byte>>, buf: seq<byte>, m: nat)
    requires IsMemory(k, size, memory) && |buf| == size && m <= k
    ensures Inv(Init(k, size, memory))
    ensures var s := Run(Init(k, size, memory), PileUp(buf, m));
            && s.producer.Idle? && s.saver.SawEmpty? && !s.stopping
            && s.ring.n == m && |s.ring.slices| == k && s.ring.size == size && s.ring.filled == 0
            && s.file == [] && s.logged == Repeat(buf, m)
  {
    InitKeepsInv(k, size, memory);
    var s0 := Init(k, size, memory);
    if m == 0 {
      var s1 := Then(s0, [], s0, SaverStep);
      assert [] + [SaverStep] == [SaverStep];
    } else {
      SlicesPileUp(k, size, memory, buf, m - 1);
      var s' := LogOneFills(s0, PileUp(buf, m - 1), Run(s0, PileUp(buf, m - 1)), buf);
    }
  }

  /** A stop can lose a slice: the saver reads n == 0, then a record that fills a slice is logged and the
      producer goes idle. Stopping now leaves an empty file. */
  lemma StopCanLoseASlice(k: nat, size: nat, memory: seq<seq<byte>>, buf: seq<byte>)
    requires IsMemory(k, size, memory) && |buf| == size
    ensures Inv(Init(k, size, memory))
    ensures var s := Run(Init(k, size, memory), [SaverStep] + LogOne(buf));
            && s.producer.Idle? && MissedSlice(s) && s.logged == buf && s.file == [] && s.ring.filled == 0
  {
    SlicesPileUp(k, size, memory, buf, 1);
    assert PileUp(buf, 1) == PileUp(buf, 0) + LogOne(buf) == [SaverStep] + LogOne(buf);
    assert Repeat(buf, 1) == Repeat(buf, 0) + buf == buf;
  }

  /** A stop can leave a file that is no prefix of the log: after that, a record that does not begin as the
      first one did goes into the next slice and does not fill it. */
  lemma StopCanBreakThePrefix(k: nat, size: nat, memory: seq<seq<byte>>, first: seq<byte>, second: seq<byte>)
    requires IsMemory(k, size, memory) && k > 1 && |first| == size
    requires 0 < |second| < size && second[0] != first[0]
    ensures Inv(Init(k, size, memory))
    ensures var s := Run(Init(k, size, memory), [SaverStep] + LogOne(first) + LogOne(second));
            && s.producer.Idle? && MissedSlice(s) && !PartialContinuesFile(s)
            && s.logged == first + second && s.file == [] && Partial(s.ring) == second
  {
    StopCanLoseASlice(k, size, memory, first);
    SlicesPileUp(k, size, memory, first, 1);
    assert PileUp(first, 1) == PileUp(first, 0) + LogOne(first) == [SaverStep] + LogOne(first);
    var s0 := Init(k, size, memory);
    var s := LogOneFills(s0, [SaverStep] + LogOne(first), Run(s0, [SaverStep] + LogOne(first)), second);
    assert Partial(s.ring) == second;
    assert (first + second)[0] == first[0];
  }

  /** A stop can leave a producer waiting: the slices all fill up unseen, one more record passes the wait
      check, and the stop makes the saver leave without a look at the ring. */
  lemma StopCanHangAProducer(k: nat, size: nat, memory: seq<seq<byte>>, buf: seq<byte>, schedule: seq<Action>)
    requires IsMemory(k, size, memory) && |buf| == size
    ensures Inv(Init(k, size, memory))
    ensures var s := Run(Init(k, size, memory), PileUp(buf, k) + [Log(buf, [])] + [Stop]);
            && s.producer == Testing(buf, []) && WaitsOnFullRing(s) && !WillReturn(s)
            && Run(s, schedule).producer == s.producer
  {
    SlicesPileUp(k, size, memory, buf, k);
    var s0 := Init(k, size, memory);
    var t := Then(s0, PileUp(buf, k), Run(s0, PileUp(buf, k)), Log(buf, []));
    var s := Then(s0, PileUp(buf, k) + [Log(buf, [])], t, Stop);
    NoReturnNoDrain(s, schedule);
  }
}
