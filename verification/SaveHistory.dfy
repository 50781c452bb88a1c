/** save_his_t and its two threads' code over real slice buffers. Every access to the shared fields is
    proved to be a step of HistoryRun, so what HistoryTheorems says of schedules holds of this code. */
module SaveHistory {
  import opened Bytes
  import opened SliceRing
  import opened HistoryRun
  import opened HistoryTheorems

  const MAX_WRITE_RETRY: nat := 5

  class SaveHis {
    const saveCache: seq<array<byte>>
    const cacheSize: nat
    var cacheFilled: nat
    var wp: nat
    var n: nat
    var stopping: bool
    var running: bool
    var file: seq<byte>
    var saver: Saver            // save_thread's program counter and locals
    ghost var producer: Producer
    ghost var logged: seq<byte>
    ghost var retired: nat

    /** The slices are separate buffers of one size. */
    ghost predicate Buffers()
      reads this, saveCache
    {
      && (forall i, j :: 0 <= i < |saveCache| && 0 <= j < |saveCache| && i != j ==> saveCache[i] != saveCache[j])
      && (forall i :: 0 <= i < |saveCache| ==> saveCache[i].Length == cacheSize)
    }

    ghost function Slices(): (s: seq<seq<byte>>)
      reads saveCache
      ensures |s| == |saveCache| && forall i :: 0 <= i < |s| ==> s[i] == saveCache[i][..]
    {
      seq(|saveCache|, i requires 0 <= i < |saveCache| reads saveCache => saveCache[i][..])
    }

    ghost function View(): State
      reads this, saveCache
    {
      State(Ring(Slices(), cacheSize, cacheFilled, wp, n), producer, saver, stopping, file, logged, retired)
    }

    ghost predicate Valid()
      reads this, saveCache
    {
      Buffers() && running == !saver.Finished? && Inv(View())
    }

    /** memcpy into the slice at wp, after the bytes it holds. */
    method CopyIn(bytes: seq<byte>)
      requires Buffers() && wp < |saveCache| && cacheFilled + |bytes| <= cacheSize
      modifies saveCache[wp]
      ensures Slices() == old(Slices())[wp :=
                old(saveCache[wp][..])[..cacheFilled] + bytes + old(saveCache[wp][..])[cacheFilled + |bytes|..]]
    {
      var slice := saveCache[wp];
      ghost var copied := old(Slices())[wp := Overlaid(slice[..], cacheFilled, bytes)];
      Copy(slice, cacheFilled, bytes);
      forall i | 0 <= i < |saveCache| ensures Slices()[i] == copied[i] {
        assert i != wp ==> saveCache[i] != slice;
      }
    }

    /** The section of his_write under the write mutex. */
    method FillLocked(buffer: seq<byte>) returns (rest: seq<byte>)
      requires Valid() && producer.Filling? && producer.rest == buffer
      modifies this`cacheFilled, this`wp, this`n, this`producer, saveCache
      ensures Valid() && View() == StepProducer(old(View()))
      ensures producer == Testing(rest, old(producer.more)) && |rest| < |buffer|
    {
      ghost var before := View();
      StepKeepsInv(before, ProducerStep);
      FillAppends(before.ring, buffer);
      rest := FillSlice(buffer);
      producer := Testing(rest, producer.more);
    }

    method FillSlice(buffer: seq<byte>) returns (rest: seq<byte>)
      requires Buffers() && View().ring.Valid()
      modifies this`cacheFilled, this`wp, this`n, saveCache
      ensures (View().ring, rest) == old(View().ring).Fill(buffer)
    {
      var left := cacheSize - cacheFilled;
      var fill := if left > |buffer| then |buffer| else left;
      ghost var was := Slices()[wp];
      assert |was| == cacheSize && |buffer[..fill]| == fill;
      CopyIn(buffer[..fill]);
      cacheFilled := cacheFilled + fill;
      if left > fill {
        rest := [];
      } else {
        cacheFilled := 0;
        wp := Slot(|saveCache|, wp, 1);
        n := n + 1;
        rest := buffer[fill..];
      }
    }

    /** save_thread's next access to shared state. */
    method SaverMove()
      requires Valid()
      modifies this`saver, this`file, this`n, this`stopping, this`running, this`retired
      ensures Valid() && View() == StepSaver(old(View()))
    {
      StepKeepsInv(View(), SaverStep);
      if saver.Writing? {
        MoveWriting();
      } else if saver.Flushing? {
        MoveFlushing();
      } else {
        MovePolling();
      }
    }

    method MovePolling()
      requires Valid() && !saver.Writing? && !saver.Flushing?
      modifies this`saver
      ensures View() == StepSaver(old(View())) && (saver.Finished? <==> old(saver.Finished?))
    {
      match saver
      case Polling => saver := if n > 0 then TakingHead else SawEmpty;
      case TakingHead => saver := Writing(Slot(|saveCache|, wp, |saveCache| - n), 0);
      case SawEmpty => saver := if stopping then Flushing(0) else Polling;
      case Finished =>
    }

    method MoveWriting()
      requires Valid() && saver.Writing?
      modifies this`saver, this`file, this`n, this`retired
      ensures View() == StepSaver(old(View())) && !saver.Finished?
    {
      if saver.done < cacheSize {
        WriteByte(saver.head, saver.done);
        saver := Writing(saver.head, saver.done + 1);
      } else {
        n, retired := n - 1, retired + 1;
        saver := Polling;
      }
    }

    method MoveFlushing()
      requires Valid() && saver.Flushing?
      modifies this`saver, this`file, this`stopping, this`running
      ensures View() == StepSaver(old(View())) && running == !saver.Finished?
    {
      if saver.done < cacheFilled {
        WriteByte(wp, saver.done);
        saver := Flushing(saver.done + 1);
      } else {
        stopping, running := false, false;
        saver := Finished;
      }
    }

    /** write(): one more byte of a slice reaches the file. */
    method WriteByte(slice: nat, at: nat)
      requires Buffers() && slice < |saveCache| && at < cacheSize
      modifies this`file
      ensures file == old(file) + [Slices()[slice][at]]
    {
      file := file + [saveCache[slice][at]];
    }

    /** While history is being written, the saver's steps leave the producer's side alone. */
    twostate predicate OnlySaverMoved()
      reads this, saveCache
    {
      && Valid() && !stopping && InLoop(saver) && n <= old(n)
      && producer == old(producer) && logged == old(logged)
      && cacheFilled == old(cacheFilled) && wp == old(wp)
    }

    /** The saver thread runs for as long as the scheduler likes. */
    method Preempted()
      requires Valid() && !stopping && InLoop(saver)
      modifies this`saver, this`file, this`n, this`stopping, this`running, this`retired
      ensures OnlySaverMoved()
    {
      var moves :| moves >= 0;
      for i := 0 to moves
        invariant OnlySaverMoved()
      {
        SaverMove();
      }
    }

    /** media_lib_thread_sleep: the saver gets through at least one round. */
    method Sleep()
      requires Valid() && !stopping && InLoop(saver)
      modifies this`saver, this`file, this`n, this`stopping, this`running, this`retired
      ensures OnlySaverMoved() && (old(n) > 0 ==> n < old(n))
    {
      var full := n;
      while n > 0 && n == full
        invariant OnlySaverMoved()
        decreases n, RoundLength(saver, cacheSize)
      {
        SaverMove();
      }
      Preempted();
    }

    /** his_write, the saver running between any two of its accesses. */
    method HisWrite(buffer: seq<byte>)
      requires Valid() && !stopping && InLoop(saver) && producer.Testing? && producer.rest == buffer
      modifies this, saveCache
      ensures Valid() && !stopping && InLoop(saver)
      ensures producer == Testing([], old(producer.more)) && logged == old(logged)
    {
      var rest := buffer;
      while rest != []
        invariant Valid() && !stopping && InLoop(saver)
        invariant producer == Testing(rest, old(producer.more)) && logged == old(logged)
        decreases |rest|, n
      {
        if n >= |saveCache| {
          Sleep();
          continue;
        }
        StepKeepsInv(View(), ProducerStep);
        producer := Filling(rest, producer.more);
        Preempted();
        rest := FillLocked(rest);
        Preempted();
      }
    }

    /** his_wait_for_enough: it refuses only a record larger than a slice. */
    method WaitForEnough(size: nat) returns (ok: bool)
      requires Valid() && !stopping && InLoop(saver)
      modifies this`saver, this`file, this`n, this`stopping, this`running, this`retired
      ensures OnlySaverMoved()
      ensures ok ==> HasRoom(View().ring, size)
      ensures size <= cacheSize || old(HasRoom(View().ring, size)) ==> ok
    {
      var retry := MAX_WRITE_RETRY;
      while retry > 0
        invariant OnlySaverMoved()
        invariant retry < MAX_WRITE_RETRY ==> size > cacheSize && !old(HasRoom(View().ring, size))
        invariant retry == MAX_WRITE_RETRY ==> n == old(n)
      {
        if n < |saveCache| || cacheFilled + size <= cacheSize {
          return true;
        }
        RefusedOnlyWhenOversized(View().ring, size);
        retry := retry - 1;
        Sleep();
      }
      return false;
    }

    /** media_lib_add_mem_malloc_his and media_lib_add_mem_free_his (whose second buffer is empty): when
        the call returns, the whole record, or nothing, has been appended to the log, and every byte of
        the log is in the file or in the ring. */
    method AddRecord(detail: seq<byte>, stack: seq<byte>) returns (ok: bool)
      requires Valid() && !stopping && InLoop(saver) && producer.Idle?
      modifies this, saveCache
      ensures Valid() && !stopping && InLoop(saver) && producer.Idle?
      ensures |detail| + |stack| <= cacheSize || old(HasRoom(View().ring, |detail| + |stack|)) ==> ok
      ensures logged == if ok then old(logged) + detail + stack else old(logged)
      ensures file + View().ring.Stored()[Copied(saver)..] == logged
    {
      ok := WaitForEnough(|detail| + |stack|);
      if ok {
        BeginRecord(detail, stack);
        HisWrite(detail);
        FinishBuffer();
        if stack != [] {
          HisWrite(stack);
          FinishBuffer();
        }
      }
      NothingOutstanding(View());
    }

    /** The record passes the wait check: from here on it is part of the log. */
    ghost method BeginRecord(detail: seq<byte>, stack: seq<byte>)
      requires Valid() && producer.Idle? && HasRoom(View().ring, |detail| + |stack|)
      modifies this`producer, this`logged
      ensures Valid() && View() == Step(old(View()), Log(detail, stack))
    {
      StepKeepsInv(View(), Log(detail, stack));
      producer, logged := Testing(detail, stack), logged + detail + stack;
    }

    /** his_write returns; the record's second buffer, if any, is next. */
    method FinishBuffer()
      requires Valid() && producer.Testing? && producer.rest == []
      modifies this`producer
      ensures Valid() && View() == StepProducer(old(View()))
    {
      StepKeepsInv(View(), ProducerStep);
      producer := if producer.more == [] then Idle else Testing(producer.more, []);
    }

    /** sync_mem_his: ask the saver to stop and wait until it has; the file then holds the whole log, but
        for what a producer waiting in his_write has not put into the ring, unless the saver had just
        found the ring empty and it no longer was. */
    method SyncMemHis()
      requires Valid() && InLoop(saver)
      modifies this`saver, this`file, this`n, this`stopping, this`running, this`retired
      ensures Valid() && !running && !stopping
      ensures file + Outstanding(producer) == logged <==> !old(MissedSlice(View()))
    {
      ghost var start := View();
      StepKeepsInv(start, Stop);
      stopping := true;
      ghost var asked := View();
      ghost var moves := 0;
      assert SaverSteps(0) == [];
      while running
        invariant Valid() && running == stopping && logged == old(logged)
        invariant View() == Run(asked, SaverSteps(moves))
        decreases StepsToFinish(View())
      {
        OneMoreSaverStep(asked, moves);
        SaverStepApproachesFinish(View());
        SaverMove();
        moves := moves + 1;
      }
      StopFlushesUnlessSliceMissed(start, SaverSteps(moves));
    }
  }

  lemma NothingOutstanding(s: State)
    requires Inv(s) && s.producer.Idle? && InLoop(s.saver)
    ensures Copied(s.saver) <= |s.ring.Stored()|
    ensures s.file + s.ring.Stored()[Copied(s.saver)..] == s.logged
  {
    assert Stream(s) == s.file + s.ring.Stored()[Copied(s.saver)..] + [];
  }

  function Overlaid(was: seq<byte>, at: nat, bytes: seq<byte>): seq<byte>
    requires at + |bytes| <= |was|
  {
    was[..at] + bytes + was[at + |bytes|..]
  }

  lemma OverlaidNext(was: seq<byte>, at: nat, bytes: seq<byte>, i: nat)
    requires at + |bytes| <= |was| && i < |bytes|
    ensures Overlaid(was, at, bytes[..i])[at + i := bytes[i]] == Overlaid(was, at, bytes[..i + 1])
  {
  }

  method Copy(slice: array<byte>, at: nat, bytes: seq<byte>)
    requires at + |bytes| <= slice.Length
    modifies slice
    ensures slice[..] == Overlaid(old(slice[..]), at, bytes)
  {
    ghost var was := slice[..];
    assert Overlaid(was, at, bytes[..0]) == was;
    for i := 0 to |bytes|
      invariant slice[..] == Overlaid(was, at, bytes[..i])
    {
      OverlaidNext(was, at, bytes, i);
      slice[at + i] := bytes[i];
    }
    assert bytes[..|bytes|] == bytes;
  }
}
