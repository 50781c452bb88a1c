/** mem_trace.pl's parse_file as it is written: reads that may come up short unnoticed, frames looked up
    in the symbols of the program, an abort when none is found (mem_trace.pl:148-178, 198-249). The
    script reads 4-byte pointers. Its report against the records of the log and the device's table. */
module TraceScript {
  import opened Wrappers
  import opened Bytes
  import opened HisRecord
  import opened TraceModel
  import opened Replay

  const WORD_SIZE: nat := 4

  /** What addr2line says of an address: whether it has a place in the sources, and whether that is a
      file of the allocator layer. */
  datatype Symbols = Symbols(placed: nat -> bool, osFile: nat -> bool)

  /** The addresses and sizes printed at the end, or an abort that prints none. */
  datatype Report = Died | Leaks(leaks: map<nat, nat>)

  /** A frame the report can be filed under. */
  predicate Usable(sym: Symbols, stack: seq<nat>, i: nat)
    requires i < |stack|
  {
    sym.placed(stack[i]) && (stack[i] == stack[|stack| - 1] || !sym.osFile(stack[i]))
  }

  predicate Resolves(sym: Symbols, stack: seq<nat>) {
    exists i :: 0 <= i < |stack| && Usable(sym, stack, i)
  }

  predicate RecordResolves(sym: Symbols, r: Record) {
    r.Malloc? ==> Resolves(sym, r.stack)
  }

  predicate AllResolve(sym: Symbols, records: seq<Record>) {
    forall i :: 0 <= i < |records| ==> RecordResolves(sym, records[i])
  }

  /** unpack "I*": the whole words of a buffer. */
  function Words(b: seq<byte>): seq<nat> {
    if |b| < WORD_SIZE then [] else [FromLittleEndian(b[..WORD_SIZE])] + Words(b[WORD_SIZE..])
  }

  /** The frames of a '+' record at the end of a file, as far as they are there. */
  function CutStack(b: seq<byte>): seq<nat> {
    if |b| < 12 then [] else Words(b[12..])
  }

  /** What becomes of the bytes that start no whole record. */
  function TailReport(sym: Symbols, leaks: map<nat, nat>, b: seq<byte>): Report {
    if b == [] || b[0] != MALLOC_ACT then Leaks(leaks)
    else if |b| < 12 || !Resolves(sym, CutStack(b)) then Died
    else Leaks(leaks[FromLittleEndian(b[4..8]) := FromLittleEndian(b[8..12])])
  }

  /** The report on a file of which `leaks` has been read: record by record. */
  function ReportFrom(sym: Symbols, leaks: map<nat, nat>, b: seq<byte>): Report
    decreases |b|
  {
    match DecodeOne(WORD_SIZE, b)
    case Some((r, length)) =>
      if RecordResolves(sym, r) then ReportFrom(sym, OfflineOne(leaks, r), b[length..]) else Died
    case None => TailReport(sym, leaks, b)
  }

  /** The bytes after the last whole record. */
  function Rest(b: seq<byte>): seq<byte>
    decreases |b|
  {
    match DecodeOne(WORD_SIZE, b)
    case Some((_, length)) => Rest(b[length..])
    case None => b
  }

  lemma {:induction false} WordsAreFrames(count: nat, b: seq<byte>)
    requires |b| == count * WORD_SIZE
    ensures |b| == Extent(WORD_SIZE, count) && Words(b) == DecodeWords(WORD_SIZE, count, b)
  {
    ExtentIsProduct(WORD_SIZE, count);
    if count > 0 {
      WordsAreFrames(count - 1, b[WORD_SIZE..]);
    }
  }

  /** A '+' whose 11 and then 4 * num bytes were asked for, each read falling short only at the end. */
  lemma MallocRead(sym: Symbols, leaks: map<nat, nat>, buf: seq<byte>, frames: seq<byte>, left: seq<byte>)
    requires |buf| <= 11 && (|buf| < 11 ==> frames == [] && left == [])
    requires |buf| == 11 ==> |frames| <= 4 * (buf[0] as nat) && (|frames| < 4 * (buf[0] as nat) ==> left == [])
    ensures Resolves(sym, Words(frames)) ==> |buf| == 11
    ensures ReportFrom(sym, leaks, [MALLOC_ACT] + (buf + (frames + left)))
            == if !Resolves(sym, Words(frames)) then Died
               else ReportFrom(sym, leaks[FromLittleEndian(buf[3..7]) := FromLittleEndian(buf[7..11])], left)
  {
    var b := [MALLOC_ACT] + (buf + (frames + left));
    if |buf| == 11 {
      ExtentIsProduct(WORD_SIZE, buf[0]);
      var end := 12 + |frames|;
      assert b[4..8] == buf[3..7] && b[8..12] == buf[7..11];
      if |frames| == 4 * (buf[0] as nat) {
        WordsAreFrames(buf[0], frames);
        assert b[12..end] == frames && b[end..] == left;
      } else {
        assert b[12..] == frames;
      }
    }
  }

  lemma FreeRead(sym: Symbols, leaks: map<nat, nat>, buf: seq<byte>, left: seq<byte>)
    requires |buf| <= 5 && (|buf| < 5 ==> left == [])
    ensures ReportFrom(sym, leaks, [FREE_ACT] + (buf + left))
            == ReportFrom(sym, if |buf| < 5 then leaks else leaks - {FromLittleEndian(buf[1..5])}, left)
  {
    var b := [FREE_ACT] + (buf + left);
    if |buf| == 5 {
      assert b[2..6] == buf[1..5] && b[6..] == left;
    }
  }

  // What the report is, in terms of the records.

  /** Records applied one after the other to what is there. */
  function OfflineFrom(leaks: map<nat, nat>, records: seq<Record>): map<nat, nat>
    decreases |records|
  {
    if records == [] then leaks else OfflineFrom(OfflineOne(leaks, records[0]), records[1..])
  }

  lemma {:induction false} OfflineFromSnoc(leaks: map<nat, nat>, records: seq<Record>, r: Record)
    ensures OfflineFrom(leaks, records + [r]) == OfflineOne(OfflineFrom(leaks, records), r)
    decreases |records|
  {
    if records == [] {
      assert ([] + [r])[1..] == [];
    } else {
      assert (records + [r])[1..] == records[1..] + [r];
      OfflineFromSnoc(OfflineOne(leaks, records[0]), records[1..], r);
    }
  }

  lemma {:induction false} OfflineIsOfflineFrom(records: seq<Record>)
    ensures Offline(records) == OfflineFrom(map[], records)
    decreases |records|
  {
    if records != [] {
      var last := |records| - 1;
      OfflineIsOfflineFrom(records[..last]);
      OfflineFromSnoc(map[], records[..last], records[last]);
      assert records == records[..last] + [records[last]];
    }
  }

  lemma {:induction false} ReportFromIsTail(sym: Symbols, leaks: map<nat, nat>, b: seq<byte>)
    ensures ReportFrom(sym, leaks, b) ==
            if AllResolve(sym, Decode(WORD_SIZE, b))
            then TailReport(sym, OfflineFrom(leaks, Decode(WORD_SIZE, b)), Rest(b)) else Died
    decreases |b|
  {
    match DecodeOne(WORD_SIZE, b)
    case Some((r, length)) =>
      var later := Decode(WORD_SIZE, b[length..]);
      assert Decode(WORD_SIZE, b) == [r] + later;
      assert AllResolve(sym, [r] + later) ==> RecordResolves(sym, ([r] + later)[0]);
      assert AllResolve(sym, [r] + later) <==> RecordResolves(sym, r) && AllResolve(sym, later) by {
        if AllResolve(sym, [r] + later) {
          forall i | 0 <= i < |later| ensures RecordResolves(sym, later[i]) {
            assert RecordResolves(sym, ([r] + later)[i + 1]);
          }
        }
      }
      if RecordResolves(sym, r) {
        ReportFromIsTail(sym, OfflineOne(leaks, r), b[length..]);
      }
    case None =>
  }

  /** The script's report on any bytes: an abort at the first '+' none of whose frames can be found, and
      otherwise the records' leaks, changed at most by a '+' record cut at the end. */
  lemma ReportIsOffline(sym: Symbols, b: seq<byte>)
    ensures ReportFrom(sym, map[], b) ==
            if AllResolve(sym, Decode(WORD_SIZE, b))
            then TailReport(sym, Offline(Decode(WORD_SIZE, b)), Rest(b)) else Died
  {
    ReportFromIsTail(sym, map[], b);
    OfflineIsOfflineFrom(Decode(WORD_SIZE, b));
  }

  /** A '+' record cut at the end goes unnoticed only if it is complete to its size field, a frame left of
      it is found, and it repeats an entry that is there. */
  predicate Unnoticed(sym: Symbols, leaks: map<nat, nat>, b: seq<byte>) {
    && |b| >= 12 && Resolves(sym, CutStack(b))
    && var addr := FromLittleEndian(b[4..8]);
       addr in leaks && leaks[addr] == FromLittleEndian(b[8..12])
  }

  /** The report is the map of the whole records exactly when every '+' has a frame that can be found and
      the file does not end inside a '+' record, but for one that changes nothing. */
  lemma ReportIsOfflineIff(sym: Symbols, b: seq<byte>)
    ensures var (records, rest) := (Decode(WORD_SIZE, b), Rest(b));
            ReportFrom(sym, map[], b) == Leaks(Offline(records))
            <==> && AllResolve(sym, records)
                 && (rest != [] && rest[0] == MALLOC_ACT ==> Unnoticed(sym, Offline(records), rest))
  {
    ReportIsOffline(sym, b);
  }

  // Logs the device wrote, whole and cut.

  lemma {:induction false} LogThenCut(log: seq<(Record, byte)>, cut: seq<byte>)
    requires AllFit(WORD_SIZE, log) && DecodeOne(WORD_SIZE, cut).None?
    ensures Decode(WORD_SIZE, EncodeAll(WORD_SIZE, log) + cut) == Records(log)
    ensures Rest(EncodeAll(WORD_SIZE, log) + cut) == cut
    decreases |log|
  {
    if log == [] {
      assert [] + cut == cut;
    } else {
      var first, later := Encode(WORD_SIZE, log[0].0, log[0].1), EncodeAll(WORD_SIZE, log[1..]);
      ConcatAssociates(first, later, cut);
      RecordRoundTrip(WORD_SIZE, log[0].0, log[0].1, later + cut);
      assert (first + (later + cut))[|first|..] == later + cut;
      LogThenCut(log[1..], cut);
      assert Records(log) == [log[0].0] + Records(log[1..]);
    }
  }

  /** On a whole log the report is the records' map, or an abort if some '+' has no frame to be found. */
  lemma WholeLogReport(sym: Symbols, log: seq<(Record, byte)>)
    requires AllFit(WORD_SIZE, log)
    ensures ReportFrom(sym, map[], EncodeAll(WORD_SIZE, log))
            == if AllResolve(sym, Records(log)) then Leaks(Offline(Records(log))) else Died
  {
    LogThenCut(log, []);
    assert EncodeAll(WORD_SIZE, log) + [] == EncodeAll(WORD_SIZE, log);
    ReportIsOffline(sym, EncodeAll(WORD_SIZE, log));
  }

  /** On a log cut inside its last record, a cut '-' does no harm; a cut '+' aborts the script or is
      reported as a leak, though the record is not whole. */
  lemma CutLogReport(sym: Symbols, log: seq<(Record, byte)>, last: (Record, byte), cut: seq<byte>)
    requires AllFit(WORD_SIZE, log) && Fits(WORD_SIZE, last.0)
    requires cut < Encode(WORD_SIZE, last.0, last.1) && cut != []
    ensures ReportFrom(sym, map[], EncodeAll(WORD_SIZE, log) + cut) ==
            if !AllResolve(sym, Records(log)) then Died
            else if last.0.Free? then Leaks(Offline(Records(log)))
            else if |cut| < 12 || !Resolves(sym, CutStack(cut)) then Died
            else Leaks(OfflineOne(Offline(Records(log)), last.0))
  {
    CutRecordIsRejected(WORD_SIZE, last.0, last.1, cut);
    LogThenCut(log, cut);
    ReportIsOffline(sym, EncodeAll(WORD_SIZE, log) + cut);
    assert cut[0] == Encode(WORD_SIZE, last.0, last.1)[0];
    if last.0.Malloc? && |cut| >= 12 {
      CutFields(last.0, last.1, cut);
    }
  }

  lemma CutFields(r: Record, junk: byte, cut: seq<byte>)
    requires Fits(WORD_SIZE, r) && r.Malloc? && cut <= Encode(WORD_SIZE, r, junk) && |cut| >= 12
    ensures FromLittleEndian(cut[4..8]) == r.addr && FromLittleEndian(cut[8..12]) == r.size
  {
    var b := Encode(WORD_SIZE, r, junk);
    assert cut[4..8] == b[4..8] == LittleEndian(WORD_SIZE, r.addr);
    assert cut[8..12] == b[8..12] == LittleEndian(4, r.size);
    LittleEndianRoundTrip(WORD_SIZE, r.addr);
    LittleEndianRoundTrip(4, r.size);
  }

  /** With a stack depth of 0 no record has frames, and any '+' in the log aborts the script. */
  lemma NoFramesNoReport(sym: Symbols, c: Config, log: seq<(Record, byte)>, ops: seq<Op>)
    requires AllFit(WORD_SIZE, log) && Records(log) == RecordsOf(c, ops)
    requires c.stackDepth == 0 && exists i :: 0 <= i < |ops| && ops[i].Add?
    ensures ReportFrom(sym, map[], EncodeAll(WORD_SIZE, log)) == Died
  {
    var i :| 0 <= i < |ops| && ops[i].Add?;
    assert !RecordResolves(sym, RecordsOf(c, ops)[i]);
    WholeLogReport(sym, log);
  }

  /** A cut that is taken for a leak: one allocation with two frames, of which only the first was
      written. No record is whole. */
  lemma CutIsReportedAsLeak(sym: Symbols, r: Record, junk: byte)
    requires Fits(WORD_SIZE, r) && r.Malloc? && |r.stack| == 2 && sym.placed(r.stack[0])
    ensures var b := Encode(WORD_SIZE, r, junk)[..16];
            && |Encode(WORD_SIZE, r, junk)| == 20 && Decode(WORD_SIZE, b) == []
            && ReportFrom(sym, map[], b) == Leaks(map[r.addr := r.size])
  {
    var whole := Encode(WORD_SIZE, r, junk);
    ExtentIsProduct(WORD_SIZE, 2);
    var b := whole[..16];
    CutLogReport(sym, [], (r, junk), b);
    assert [] + b == b;
    CutRecordIsRejected(WORD_SIZE, r, junk, b);
    var word := LittleEndian(WORD_SIZE, r.stack[0]);
    assert Frames(WORD_SIZE, r)[..4] == word;
    assert b[12..] == word && word[..WORD_SIZE] == word && word[WORD_SIZE..] == [];
    LittleEndianRoundTrip(WORD_SIZE, r.stack[0]);
    assert Words(b[12..]) == [r.stack[0]];
    assert Usable(sym, [r.stack[0]], 0);
  }

  /** Every allocation of a run has a captured frame that can be found. */
  predicate AddsResolve(sym: Symbols, c: Config, ops: seq<Op>) {
    forall i :: 0 <= i < |ops| && ops[i].Add? ==> Resolves(sym, Captured(c, ops[i].stack))
  }

  /** The script against the device: on a log that holds the records of a run with fresh addresses and no
      overflow, the script prints the device's own table, if every allocation has a captured frame that
      can be found, and aborts otherwise. */
  lemma ScriptReportMatchesTable(sym: Symbols, c: Config, log: seq<(Record, byte)>, ops: seq<Op>)
    requires AllFit(WORD_SIZE, log) && Records(log) == RecordsOf(c, ops)
    requires NoOverflow(c, ops) && FreshAdds(c, ops)
    ensures var report := ReportFrom(sym, map[], EncodeAll(WORD_SIZE, log));
            && (report.Leaks? <==> AddsResolve(sym, c, ops))
            && (report.Leaks? ==> SameLeaks(report.leaks, Trace(c, ops).table))
  {
    WholeLogReport(sym, log);
    OfflineReportMatchesTable(c, ops);
    if AllResolve(sym, Records(log)) {
      forall i | 0 <= i < |ops| && ops[i].Add? ensures Resolves(sym, Captured(c, ops[i].stack)) {
        assert RecordResolves(sym, RecordsOf(c, ops)[i]);
      }
    }
  }

  /** What a usable frame amounts to: the last frame if it has a place, or any with a place outside the
      allocator layer. */
  lemma ResolvesIff(sym: Symbols, stack: seq<nat>)
    ensures Resolves(sym, stack) <==>
      stack != [] && (sym.placed(stack[|stack| - 1])
                      || exists i :: 0 <= i < |stack| && sym.placed(stack[i]) && !sym.osFile(stack[i]))
  {
    if stack != [] && sym.placed(stack[|stack| - 1]) {
      assert Usable(sym, stack, |stack| - 1);
    }
    if i :| 0 <= i < |stack| && sym.placed(stack[i]) && !sym.osFile(stack[i]) {
      assert Usable(sym, stack, i);
    }
  }

  /** In the caller's terms: with the history on and a stack depth, it is enough that the innermost frame of
      each allocation has a place outside the allocator layer. */
  lemma ScriptPrintsTableIfCallersAreKnown(sym: Symbols, c: Config, log: seq<(Record, byte)>, ops: seq<Op>)
    requires AllFit(WORD_SIZE, log) && Records(log) == RecordsOf(c, ops)
    requires NoOverflow(c, ops) && FreshAdds(c, ops)
    requires c.history && c.stackDepth > 0
    requires forall i :: 0 <= i < |ops| && ops[i].Add? ==>
               ops[i].stack != [] && sym.placed(ops[i].stack[0]) && !sym.osFile(ops[i].stack[0])
    ensures var report := ReportFrom(sym, map[], EncodeAll(WORD_SIZE, log));
            report.Leaks? && SameLeaks(report.leaks, Trace(c, ops).table)
  {
    forall i | 0 <= i < |ops| && ops[i].Add? ensures Resolves(sym, Captured(c, ops[i].stack)) {
      CapturedKeepsFrames(c, ops[i].stack);
      assert Usable(sym, Captured(c, ops[i].stack), 0);
    }
    ScriptReportMatchesTable(sym, c, log, ops);
  }

  // The script.

  class LogFile {
    const bytes: seq<byte>
    var pos: nat

    ghost predicate Valid()
      reads this
    {
      pos <= |bytes|
    }

    function Left(): seq<byte>
      reads this
      requires Valid()
    {
      bytes[pos..]
    }

    constructor (bytes: seq<byte>)
      ensures Valid() && Left() == bytes
    {
      this.bytes := bytes;
      pos := 0;
    }

    /** read: at the end of the file it returns less, and nobody looks. */
    method Read(size: nat) returns (buf: seq<byte>)
      requires Valid()
      modifies this
      ensures Valid() && old(Left()) == buf + Left()
      ensures |buf| == if size <= |old(Left())| then size else |old(Left())|
    {
      var end := if size <= |bytes| - pos then pos + size else |bytes|;
      buf := bytes[pos..end];
      pos := end;
    }
  }

  /** parse_all_pc: the first usable frame. */
  method ParseAllPc(sym: Symbols, stack: seq<nat>) returns (sel: Option<nat>)
    ensures sel.Some? <==> Resolves(sym, stack)
    ensures sel.Some? ==>
      exists i :: 0 <= i < |stack| && sel.value == stack[i] && Usable(sym, stack, i)
                  && forall j :: 0 <= j < i ==> !Usable(sym, stack, j)
  {
    sel := None;
    for i := 0 to |stack|
      invariant forall j :: 0 <= j < i ==> !Usable(sym, stack, j)
      invariant sel.None?
    {
      if sym.placed(stack[i]) {
        if stack[i] == stack[|stack| - 1] || !sym.osFile(stack[i]) {
          assert Usable(sym, stack, i);
          return Some(stack[i]);
        }
      }
    }
  }

  /** The '+' branch of parse_file. */
  method ParseMalloc(sym: Symbols, file: LogFile, leaks: map<nat, nat>) returns (report: Report)
    requires file.Valid()
    modifies file
    ensures file.Valid() && |file.Left()| <= old(|file.Left()|)
    ensures ReportFrom(sym, leaks, [MALLOC_ACT] + old(file.Left())) ==
            if report.Died? then Died else ReportFrom(sym, report.leaks, file.Left())
  {
    var buf := file.Read(11);
    var num: nat := if buf == [] then 0 else buf[0];
    var frames := file.Read(4 * num);
    MallocRead(sym, leaks, buf, frames, file.Left());
    var sel := ParseAllPc(sym, Words(frames));
    if sel.None? {
      return Died;
    }
    return Leaks(leaks[FromLittleEndian(buf[3..7]) := FromLittleEndian(buf[7..11])]);
  }

  /** The '-' branch. */
  method ParseFree(sym: Symbols, file: LogFile, leaks: map<nat, nat>) returns (leaks': map<nat, nat>)
    requires file.Valid()
    modifies file
    ensures file.Valid() && |file.Left()| <= old(|file.Left()|)
    ensures ReportFrom(sym, leaks, [FREE_ACT] + old(file.Left())) == ReportFrom(sym, leaks', file.Left())
  {
    var buf := file.Read(5);
    FreeRead(sym, leaks, buf, file.Left());
    leaks' := if |buf| < 5 then leaks else leaks - {FromLittleEndian(buf[1..5])};
  }

  /** parse_file without its filters. */
  method ParseFile(sym: Symbols, file: LogFile) returns (report: Report)
    requires file.Valid()
    modifies file
    ensures report == ReportFrom(sym, map[], old(file.Left()))
  {
    var leaks: map<nat, nat> := map[];
    ghost var whole := file.Left();
    var act := file.Read(1);
    while act != []
      invariant file.Valid() && |act| <= 1 && (act == [] ==> file.Left() == [])
      invariant ReportFrom(sym, leaks, act + file.Left()) == ReportFrom(sym, map[], whole)
      decreases |act + file.Left()|
    {
      if act[0] == MALLOC_ACT {
        assert act == [MALLOC_ACT];
        report := ParseMalloc(sym, file, leaks);
        if report.Died? {
          return;
        }
        leaks := report.leaks;
      } else if act[0] == FREE_ACT {
        assert act == [FREE_ACT];
        leaks := ParseFree(sym, file, leaks);
      } else {
        return Leaks(leaks);  // "File is truncated"
      }
      act := file.Read(1);
    }
    return Leaks(leaks);
  }
}
