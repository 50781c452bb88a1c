/** The allocation tracer as a value: its table, its modules and its counters, and what one add_trace
    or remove_trace does to them (media_lib_mem_trace.c:49-280). */
module TraceModel {
  import opened Wrappers
  import opened Bytes

  const MAX_STACK_DEPTH: nat := 10
  const MAX_MODULES: nat := 0x100

  datatype Config = Config(moduleUsage: bool, leak: bool, history: bool, recordNum: nat, stackDepth: nat)

  datatype Item = Item(addr: nat, size: int, moduleId: byte, stack: seq<nat>)

  /** A uint32_t usage counter and its peak. */
  datatype Gauge = Gauge(usage: nat, peak: nat)
  {
    function Raise(size: int): Gauge {
      var u := ToU32(usage + size);
      Gauge(u, if peak < u then u else peak)
    }

    function Lower(size: int): Gauge {
      Gauge(ToU32(usage - size), peak)
    }
  }

  datatype Module = Module(name: string, id: byte, gauge: Gauge)

  datatype Tracer = Tracer(table: seq<Item>, modules: seq<Module>, gauge: Gauge, overflow: bool)

  const EMPTY: Tracer := Tracer([], [], Gauge(0, 0), false)

  /** One traced call. `stack` is what get_stack_frame could see; `allocOk` is whether alloc_module
      gets its memory; `junk` is the unset byte of the history record. */
  datatype Op =
    | Add(name: Option<string>, addr: nat, size: int, flag: byte, stack: seq<nat>, allocOk: bool, junk: byte)
    | Remove(addr: nat, junk: byte)

  /** get_module: the first module of that name, or the length. */
  function IndexOfName(modules: seq<Module>, name: string): (i: nat)
    ensures i <= |modules| && (i < |modules| ==> modules[i].name == name)
    ensures forall j :: 0 <= j < i ==> modules[j].name != name
  {
    IndexWhere(modules, (m: Module) => m.name == name)
  }

  /** get_module_by_id. */
  function IndexOfId(modules: seq<Module>, id: byte): (i: nat)
    ensures i <= |modules| && (i < |modules| ==> modules[i].id == id)
    ensures forall j :: 0 <= j < i ==> modules[j].id != id
  {
    IndexWhere(modules, (m: Module) => m.id == id)
  }

  /** get_trace_item: the first entry with that address, or the length. */
  function IndexOfAddr(table: seq<Item>, addr: nat): (i: nat)
    ensures i <= |table| && (i < |table| ==> table[i].addr == addr)
    ensures forall j :: 0 <= j < i ==> table[j].addr != addr
  {
    IndexWhere(table, (item: Item) => item.addr == addr)
  }

  /** remove_trace_item: the last entry takes the removed one's place. */
  function SwapRemove<T>(table: seq<T>, i: nat): seq<T>
    requires i < |table|
  {
    table[i := table[|table| - 1]][..|table| - 1]
  }

  /** The modules after alloc_module was tried for an unknown name. */
  function WithModule(modules: seq<Module>, name: string, allocOk: bool): seq<Module> {
    if IndexOfName(modules, name) < |modules| || !allocOk || |modules| >= MAX_MODULES then modules
    else modules + [Module(name, |modules|, Gauge(0, 0))]
  }

  /** The position of the module an allocation is charged to, if any. */
  function Charged(c: Config, t: Tracer, name: Option<string>, allocOk: bool): Option<nat> {
    if !c.moduleUsage || name.None? then None
    else
      var modules := WithModule(t.modules, name.value, allocOk);
      var i := IndexOfName(modules, name.value);
      if i < |modules| then Some(i) else None
  }

  /** add_mem_usage: the tracer, and the id to record; id 0 also when no module is charged. */
  function AddUsage(c: Config, t: Tracer, name: Option<string>, size: int, allocOk: bool): (Tracer, byte) {
    var t1 := t.(gauge := t.gauge.Raise(size));
    match Charged(c, t, name, allocOk)
    case None => (t1, 0)
    case Some(i) =>
      var modules := WithModule(t.modules, name.value, allocOk);
      (t1.(modules := modules[i := modules[i].(gauge := modules[i].gauge.Raise(size))]), modules[i].id)
  }

  function RemoveUsage(c: Config, t: Tracer, id: byte, size: int): Tracer {
    var t1 := t.(gauge := t.gauge.Lower(size));
    var i := IndexOfId(t.modules, id);
    if !c.moduleUsage || i == |t.modules| then t1
    else t1.(modules := t.modules[i := t.modules[i].(gauge := t.modules[i].gauge.Lower(size))])
  }

  function AddItem(c: Config, t: Tracer, item: Item): Tracer {
    if |t.table| >= c.recordNum then t.(overflow := true)
    else t.(overflow := false, table := t.table + [item])
  }

  /** The frames add_trace keeps: none unless history or leaks are traced, at most the clamped depth. */
  function Captured(c: Config, stack: seq<nat>): (s: seq<nat>)
    ensures |s| <= MAX_STACK_DEPTH
  {
    var depth := if c.stackDepth >= MAX_STACK_DEPTH then MAX_STACK_DEPTH else c.stackDepth;
    if !c.history && !c.leak then [] else if |stack| <= depth then stack else stack[..depth]
  }

  /** What an add should keep of the frames it can see: the first ones, as many as there are and the
      configuration allows, ten at most; none unless history or leaks are traced. */
  predicate KeepsFrames(c: Config, visible: seq<nat>, kept: seq<nat>) {
    && kept <= visible
    && (!c.history && !c.leak ==> kept == [])
    && (c.history || c.leak ==>
          && |kept| <= c.stackDepth && |kept| <= 10
          && (|kept| == |visible| || |kept| == c.stackDepth || |kept| == 10))
  }

  lemma CapturedKeepsFrames(c: Config, visible: seq<nat>)
    ensures KeepsFrames(c, visible, Captured(c, visible))
    ensures forall kept :: KeepsFrames(c, visible, kept) ==> kept == Captured(c, visible)
    ensures (c.history || c.leak) && c.stackDepth > 0 && visible != [] ==>
      Captured(c, visible) != [] && Captured(c, visible)[0] == visible[0]
  {
    forall kept | KeepsFrames(c, visible, kept) ensures kept == Captured(c, visible) {
      assert |kept| == |Captured(c, visible)|;
    }
  }

  /** An add's entry, in the caller's terms; its module id is not compared. */
  predicate EntryOfAdd(c: Config, item: Item, op: Op)
    requires op.Add?
  {
    item.addr == op.addr && item.size == op.size && KeepsFrames(c, op.stack, item.stack)
  }

  /** An add with room appends its own entry; without room it changes no entry, and overflow says which. */
  lemma AddEntersTable(c: Config, t: Tracer, op: Op)
    requires op.Add?
    ensures var t' := Apply(c, t, op);
            if |t.table| < c.recordNum
            then && |t'.table| == |t.table| + 1 && t'.table[..|t.table|] == t.table && !t'.overflow
                 && EntryOfAdd(c, t'.table[|t.table|], op)
            else t'.table == t.table && (c.recordNum > 0 ==> t'.overflow)
  {
    CapturedKeepsFrames(c, op.stack);
  }

  predicate StemsFromAdd(c: Config, item: Item, ops: seq<Op>) {
    exists j :: 0 <= j < |ops| && ops[j].Add? && EntryOfAdd(c, item, ops[j])
  }

  lemma StemsFromLonger(c: Config, item: Item, ops: seq<Op>, op: Op)
    ensures StemsFromAdd(c, item, ops) ==> StemsFromAdd(c, item, ops + [op])
    ensures op.Add? && EntryOfAdd(c, item, op) ==> StemsFromAdd(c, item, ops + [op])
  {
    if StemsFromAdd(c, item, ops) {
      var j :| 0 <= j < |ops| && ops[j].Add? && EntryOfAdd(c, item, ops[j]);
      assert (ops + [op])[j] == ops[j];
    }
    assert (ops + [op])[|ops|] == op;
  }

  lemma EntryIsOldOrNew(c: Config, t: Tracer, op: Op, i: nat)
    requires i < |Apply(c, t, op).table|
    ensures var item := Apply(c, t, op).table[i];
            (exists j :: 0 <= j < |t.table| && item == t.table[j]) || (op.Add? && EntryOfAdd(c, item, op))
  {
    if op.Add? {
      AddEntersTable(c, t, op);
      assert i < |t.table| ==> Apply(c, t, op).table[i] == Apply(c, t, op).table[..|t.table|][i];
    }
  }

  /** The table never holds more than the configured number of entries, and each is that of some add of the
      run, with the address, size and frames of that call. */
  lemma {:induction false} EntriesStemFromAdds(c: Config, ops: seq<Op>)
    ensures var table := Trace(c, ops).table;
            |table| <= c.recordNum && forall i :: 0 <= i < |table| ==> StemsFromAdd(c, table[i], ops)
    decreases |ops|
  {
    if ops != [] {
      var earlier, op := ops[..|ops| - 1], ops[|ops| - 1];
      var table, table' := Trace(c, earlier).table, Trace(c, ops).table;
      EntriesStemFromAdds(c, earlier);
      assert |table'| <= c.recordNum;
      assert ops == earlier + [op];
      forall i | 0 <= i < |table'| ensures StemsFromAdd(c, table'[i], ops) {
        StemsFromLonger(c, table'[i], earlier, op);
        EntryIsOldOrNew(c, Trace(c, earlier), op, i);
      }
    }
  }

  function Apply(c: Config, t: Tracer, op: Op): Tracer {
    match op
    case Add(name, addr, size, flag, stack, allocOk, junk) =>
      var (t1, id) := AddUsage(c, t, name, size, allocOk);
      if c.recordNum == 0 then t1 else AddItem(c, t1, Item(addr, size, id, Captured(c, stack)))
    case Remove(addr, junk) =>
      var i := IndexOfAddr(t.table, addr);
      if i == |t.table| then t
      else RemoveUsage(c, t, t.table[i].moduleId, t.table[i].size).(table := SwapRemove(t.table, i))
  }

  function Trace(c: Config, ops: seq<Op>): Tracer {
    if ops == [] then EMPTY else Apply(c, Trace(c, ops[..|ops| - 1]), ops[|ops| - 1])
  }

  lemma TraceSnoc(c: Config, ops: seq<Op>, op: Op)
    ensures Trace(c, ops + [op]) == Apply(c, Trace(c, ops), op)
  {
    assert (ops + [op])[..|ops|] == ops;
  }

  lemma TraceOfTwo(c: Config, first: Op, second: Op)
    ensures Trace(c, [first, second]) == Apply(c, Apply(c, EMPTY, first), second)
  {
    TraceSnoc(c, [], first);
    TraceSnoc(c, [first], second);
    assert [] + [first] == [first] && [first] + [second] == [first, second];
  }

  /** The bytes held by the entries of one module id, or of all. */
  function Total(table: seq<Item>, id: Option<byte>): int {
    if table == [] then 0
    else Total(table[..|table| - 1], id) + Weight(table[|table| - 1], id)
  }

  function Weight(item: Item, id: Option<byte>): int {
    if id.None? || id.value == item.moduleId then item.size else 0
  }

  lemma {:induction false} TotalUpdate(table: seq<Item>, i: nat, item: Item, id: Option<byte>)
    requires i < |table|
    ensures Total(table[i := item], id) == Total(table, id) - Weight(table[i], id) + Weight(item, id)
  {
    var n := |table| - 1;
    if i < n {
      assert table[i := item][..n] == table[..n][i := item];
      TotalUpdate(table[..n], i, item, id);
    } else {
      assert table[i := item][..n] == table[..n];
    }
  }

  /** Swap-removal takes exactly the removed entry's bytes out of every total. */
  lemma TotalSwapRemove(table: seq<Item>, i: nat, id: Option<byte>)
    requires i < |table|
    ensures Total(SwapRemove(table, i), id) == Total(table, id) - Weight(table[i], id)
  {
    TotalUpdate(table, i, table[|table| - 1], id);
  }

  lemma TotalAppend(table: seq<Item>, item: Item, id: Option<byte>)
    ensures Total(table + [item], id) == Total(table, id) + Weight(item, id)
  {
    assert (table + [item])[..|table|] == table;
  }
}
