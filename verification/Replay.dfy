/** From logged records back to the tracer's table. */
module Replay {
  import opened Wrappers
  import opened Bytes
  import opened HisRecord
  import opened TraceModel

  /** What a table entry and a history record have in common. */
  datatype Entry = Entry(addr: nat, size: int, stack: seq<nat>)

  /** The history record add_trace or remove_trace writes for a traced call. */
  function RecordOf(c: Config, op: Op): Record {
    match op
    case Add(_, addr, size, flag, stack, _, _) => Malloc(addr, ToU32(size), flag, Captured(c, stack))
    case Remove(addr, _) => Free(addr)
  }

  /** What a record says of a traced call, in the caller's terms. */
  predicate Describes(c: Config, r: Record, op: Op) {
    match op
    case Add(_, addr, size, flag, stack, _, _) =>
      && r.Malloc? && r.addr == addr && r.flag == flag && (r.size - size) % U32_MODULUS == 0
      && 0 <= r.size < U32_MODULUS && KeepsFrames(c, stack, r.stack)
    case Remove(addr, _) => r.Free? && r.addr == addr
  }

  /** Each call's record describes it: with its address, size, flag and the first frames it could see. */
  lemma RecordDescribesCall(c: Config, op: Op)
    ensures Describes(c, RecordOf(c, op), op)
    ensures op.Add? && c.history && c.stackDepth > 0 && op.stack != [] ==>
      var r := RecordOf(c, op); r.stack != [] && r.stack[0] == op.stack[0]
  {
    if op.Add? {
      CapturedKeepsFrames(c, op.stack);
    }
  }

  /** The arguments are values of their C types: p-byte pointers and a 32-bit int. */
  predicate OpFits(p: nat, op: Op) {
    && op.addr < Pow256(p)
    && (op.Add? ==>
          && -0x8000_0000 <= op.size < 0x8000_0000
          && forall i :: 0 <= i < |op.stack| ==> op.stack[i] < Pow256(p))
  }

  function RecordsOf(c: Config, ops: seq<Op>): seq<Record> {
    seq(|ops|, i requires 0 <= i < |ops| => RecordOf(c, ops[i]))
  }

  function EntryOf(item: Item): Entry {
    Entry(item.addr, item.size, item.stack)
  }

  function Entries(table: seq<Item>): seq<Entry> {
    seq(|table|, i requires 0 <= i < |table| => EntryOf(table[i]))
  }

  function IndexOfEntry(entries: seq<Entry>, addr: nat): (i: nat)
    ensures i <= |entries| && (i < |entries| ==> entries[i].addr == addr)
    ensures forall j :: 0 <= j < i ==> entries[j].addr != addr
  {
    IndexWhere(entries, (e: Entry) => e.addr == addr)
  }

  /** '+' appends while there is room, '-' swap-removes the first match. */
  function ReplayOne(limit: Option<nat>, entries: seq<Entry>, r: Record): seq<Entry> {
    match r
    case Malloc(addr, size, _, stack) =>
      if limit.Some? && |entries| >= limit.value then entries else entries + [Entry(addr, ToI32(size), stack)]
    case Free(addr) =>
      var i := IndexOfEntry(entries, addr);
      if i == |entries| then entries else SwapRemove(entries, i)
  }

  function ReplayAll(limit: Option<nat>, records: seq<Record>): seq<Entry> {
    if records == [] then []
    else ReplayOne(limit, ReplayAll(limit, records[..|records| - 1]), records[|records| - 1])
  }

  /** No add found the table full. */
  ghost predicate NoOverflow(c: Config, ops: seq<Op>) {
    forall i :: 0 <= i < |ops| && ops[i].Add? ==> |Trace(c, ops[..i]).table| < c.recordNum
  }

  predicate Holds(table: seq<Item>, addr: nat) {
    exists i :: 0 <= i < |table| && table[i].addr == addr
  }

  /** Every add is of an address the table does not hold: what address uniqueness provides. */
  ghost predicate FreshAdds(c: Config, ops: seq<Op>) {
    forall i :: 0 <= i < |ops| && ops[i].Add? ==> !Holds(Trace(c, ops[..i]).table, ops[i].addr)
  }

  lemma PrefixKeepsPremises(c: Config, ops: seq<Op>, n: nat)
    requires n <= |ops|
    ensures NoOverflow(c, ops) ==> NoOverflow(c, ops[..n])
    ensures FreshAdds(c, ops) ==> FreshAdds(c, ops[..n])
  {
    forall i | 0 <= i < n ensures ops[..n][..i] == ops[..i] && ops[..n][i] == ops[i] {
    }
  }

  lemma SizeRoundTrip(size: int)
    requires -0x8000_0000 <= size < 0x8000_0000
    ensures ToI32(ToU32(size)) == size
  {
  }

  lemma ReplayOneMatchesApply(p: nat, c: Config, t: Tracer, op: Op, limit: Option<nat>)
    requires OpFits(p, op)
    requires limit == Some(c.recordNum) || (limit.None? && (op.Add? ==> |t.table| < c.recordNum))
    ensures ReplayOne(limit, Entries(t.table), RecordOf(c, op)) == Entries(Apply(c, t, op).table)
  {
    match op
    case Add(_, addr, size, _, stack, _, _) =>
      SizeRoundTrip(size);
    case Remove(addr, _) =>
      var i, j := IndexOfAddr(t.table, addr), IndexOfEntry(Entries(t.table), addr);
      if i < |t.table| {
        assert Entries(t.table)[i].addr == addr;
      }
      if j < |t.table| {
        assert t.table[j].addr == addr;
      }
      assert i == j;
  }

  /** Replaying a run's records gives the table, entry for entry: with the table's limit always, and
      without it when the table never overflowed. */
  lemma {:induction false} ReplayGivesTable(p: nat, c: Config, ops: seq<Op>, limit: Option<nat>)
    requires forall i :: 0 <= i < |ops| ==> OpFits(p, ops[i])
    requires limit == Some(c.recordNum) || (limit.None? && NoOverflow(c, ops))
    ensures ReplayAll(limit, RecordsOf(c, ops)) == Entries(Trace(c, ops).table)
    decreases |ops|
  {
    if ops != [] {
      var last := |ops| - 1;
      var earlier := ops[..last];
      assert RecordsOf(c, ops)[..last] == RecordsOf(c, earlier);
      PrefixKeepsPremises(c, ops, last);
      ReplayGivesTable(p, c, earlier, limit);
      ReplayOneMatchesApply(p, c, Trace(c, earlier), ops[last], limit);
    }
  }

  // The records as a map from address to size, which is how mem_trace.pl keeps them (see TraceScript).

  function OfflineOne(leaks: map<nat, nat>, r: Record): map<nat, nat> {
    match r
    case Malloc(addr, size, _, _) => leaks[addr := size]
    case Free(addr) => leaks - {addr}
  }

  function Offline(records: seq<Record>): map<nat, nat> {
    if records == [] then map[] else OfflineOne(Offline(records[..|records| - 1]), records[|records| - 1])
  }

  predicate Distinct(table: seq<Item>) {
    forall i, j :: 0 <= i < j < |table| ==> table[i].addr != table[j].addr
  }

  /** The map lists exactly the table's addresses, each with its entry's size. */
  ghost predicate SameLeaks(leaks: map<nat, nat>, table: seq<Item>) {
    && (forall a :: a in leaks ==> Holds(table, a))
    && (forall i :: 0 <= i < |table| ==> table[i].addr in leaks && leaks[table[i].addr] == ToU32(table[i].size))
  }

  lemma SwapRemoveMembers(table: seq<Item>, i: nat)
    requires i < |table| && Distinct(table)
    ensures Distinct(SwapRemove(table, i))
    ensures !Holds(SwapRemove(table, i), table[i].addr)
    ensures forall a :: Holds(table, a) && a != table[i].addr ==> Holds(SwapRemove(table, i), a)
    ensures forall j :: 0 <= j < |table| - 1 ==> SwapRemove(table, i)[j] in table
  {
    var rest, last := SwapRemove(table, i), |table| - 1;
    forall a | Holds(table, a) && a != table[i].addr ensures Holds(rest, a) {
      var j :| 0 <= j < |table| && table[j].addr == a;
      assert rest[if j == last then i else j].addr == a;
    }
  }

  lemma OfflineAddMatches(leaks: map<nat, nat>, table: seq<Item>, item: Item)
    requires SameLeaks(leaks, table) && Distinct(table) && !Holds(table, item.addr)
    ensures SameLeaks(leaks[item.addr := ToU32(item.size)], table + [item]) && Distinct(table + [item])
  {
    var leaks', table' := leaks[item.addr := ToU32(item.size)], table + [item];
    forall a | a in leaks' ensures Holds(table', a) {
      if a == item.addr {
        assert table'[|table|].addr == a;
      } else {
        var i :| 0 <= i < |table| && table[i].addr == a;
        assert table'[i].addr == a;
      }
    }
  }

  lemma OfflineRemoveMatches(leaks: map<nat, nat>, table: seq<Item>, addr: nat)
    requires SameLeaks(leaks, table) && Distinct(table)
    ensures var i := IndexOfAddr(table, addr);
            var table' := if i == |table| then table else SwapRemove(table, i);
            SameLeaks(leaks - {addr}, table') && Distinct(table')
  {
    var i := IndexOfAddr(table, addr);
    if i < |table| {
      SwapRemoveMembers(table, i);
      var table' := SwapRemove(table, i);
      forall j | 0 <= j < |table'| ensures table'[j].addr in leaks - {addr} {
        assert Holds(table', table'[j].addr);
      }
    }
  }

  lemma OfflineOneMatchesApply(c: Config, t: Tracer, leaks: map<nat, nat>, op: Op)
    requires SameLeaks(leaks, t.table) && Distinct(t.table)
    requires op.Add? ==> |t.table| < c.recordNum && !Holds(t.table, op.addr)
    ensures SameLeaks(OfflineOne(leaks, RecordOf(c, op)), Apply(c, t, op).table)
    ensures Distinct(Apply(c, t, op).table)
  {
    match op
    case Add(name, addr, size, _, stack, allocOk, _) =>
      var id := AddUsage(c, t, name, size, allocOk).1;
      OfflineAddMatches(leaks, t.table, Item(addr, size, id, Captured(c, stack)));
    case Remove(addr, _) =>
      OfflineRemoveMatches(leaks, t.table, addr);
  }

  /** The records' map of leaks agrees with the device's own table, when no add was of an address still in
      the table and the table never overflowed. */
  lemma {:induction false} OfflineReportMatchesTable(c: Config, ops: seq<Op>)
    requires NoOverflow(c, ops) && FreshAdds(c, ops)
    ensures SameLeaks(Offline(RecordsOf(c, ops)), Trace(c, ops).table)
    ensures Distinct(Trace(c, ops).table)
    decreases |ops|
  {
    if ops != [] {
      var last := |ops| - 1;
      var earlier := ops[..last];
      assert RecordsOf(c, ops)[..last] == RecordsOf(c, earlier);
      PrefixKeepsPremises(c, ops, last);
      OfflineReportMatchesTable(c, earlier);
      OfflineOneMatchesApply(c, Trace(c, earlier), Offline(RecordsOf(c, earlier)), ops[last]);
    }
  }
}
