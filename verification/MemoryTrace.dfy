/** mem_trace_t and the code that mutates it, each routine proved to be its TraceModel function. */
module MemoryTrace {
  import opened Wrappers
  import opened Bytes
  import opened TraceModel

  const MAX_ITEMS: nat := 0xFFFF  // trace_item_num is a uint16_t

  class MemTrace {
    const c: Config
    const traceItem: array<Item>
    var traceItemNum: nat
    var moduleLists: seq<Module>
    var memUsage: nat
    var peakMemUsage: nat
    var overflow: bool

    ghost predicate Valid()
      reads this
    {
      traceItem.Length == c.recordNum && traceItemNum <= c.recordNum <= MAX_ITEMS
    }

    ghost function View(): Tracer
      reads this, traceItem
      requires Valid()
    {
      Tracer(traceItem[..traceItemNum], moduleLists, Gauge(memUsage, peakMemUsage), overflow)
    }

    constructor (c: Config)
      requires c.recordNum <= MAX_ITEMS
      ensures Valid() && View() == EMPTY && this.c == c && fresh(traceItem)
    {
      this.c := c;
      traceItem := new Item[c.recordNum](_ => Item(0, 0, 0, []));
      traceItemNum, moduleLists, memUsage, peakMemUsage, overflow := 0, [], 0, 0, false;
    }

    method GetModule(name: string) returns (i: nat)
      ensures i == IndexOfName(moduleLists, name)
    {
      i := 0;
      while i < |moduleLists|
        invariant i <= |moduleLists| && forall j :: 0 <= j < i ==> moduleLists[j].name != name
      {
        if moduleLists[i].name == name {
          return;
        }
        i := i + 1;
      }
    }

    method GetModuleById(id: byte) returns (i: nat)
      ensures i == IndexOfId(moduleLists, id)
    {
      i := 0;
      while i < |moduleLists|
        invariant i <= |moduleLists| && forall j :: 0 <= j < i ==> moduleLists[j].id != id
      {
        if moduleLists[i].id == id {
          return;
        }
        i := i + 1;
      }
    }

    method GetTraceItem(addr: nat) returns (i: nat)
      requires Valid()
      ensures i == IndexOfAddr(View().table, addr)
    {
      i := 0;
      while i < traceItemNum
        invariant i <= traceItemNum && forall j :: 0 <= j < i ==> traceItem[j].addr != addr
      {
        if traceItem[i].addr == addr {
          return;
        }
        i := i + 1;
      }
    }

    method AddMemUsage(name: Option<string>, size: int, allocOk: bool) returns (id: byte)
      requires Valid()
      modifies this`memUsage, this`peakMemUsage, this`moduleLists
      ensures Valid() && (View(), id) == AddUsage(c, old(View()), name, size, allocOk)
    {
      memUsage := ToU32(memUsage + size);
      if peakMemUsage < memUsage {
        peakMemUsage := memUsage;
      }
      if !c.moduleUsage || name.None? {
        return 0;
      }
      var i := GetModule(name.value);
      if i == |moduleLists| {
        if !allocOk || |moduleLists| >= MAX_MODULES {
          return 0;
        }
        AppendedNameIsFound(moduleLists, Module(name.value, |moduleLists|, Gauge(0, 0)));
        moduleLists := moduleLists + [Module(name.value, |moduleLists|, Gauge(0, 0))];
      }
      moduleLists := moduleLists[i := moduleLists[i].(gauge := moduleLists[i].gauge.Raise(size))];
      return moduleLists[i].id;
    }

    method RemoveMemUsage(id: byte, size: int)
      requires Valid()
      modifies this`memUsage, this`moduleLists
      ensures Valid() && View() == RemoveUsage(c, old(View()), id, size)
    {
      memUsage := ToU32(memUsage - size);
      if !c.moduleUsage {
        return;
      }
      var i := GetModuleById(id);
      if i < |moduleLists| {
        moduleLists := moduleLists[i := moduleLists[i].(gauge := moduleLists[i].gauge.Lower(size))];
      }
    }

    method AddTraceItem(item: Item)
      requires Valid()
      modifies this`traceItemNum, this`overflow, traceItem
      ensures Valid() && View() == AddItem(c, old(View()), item)
    {
      if traceItemNum >= c.recordNum {
        overflow := true;
        return;
      }
      overflow := false;
      traceItem[traceItemNum] := item;
      traceItemNum := traceItemNum + 1;
    }

    /** The last entry is copied over the removed one, then its fixed fields are cleared. */
    method RemoveTraceItem(i: nat)
      requires Valid() && i < traceItemNum
      modifies this`traceItemNum, traceItem
      ensures Valid() && View() == old(View()).(table := SwapRemove(old(View()).table, i))
    {
      traceItemNum := traceItemNum - 1;
      traceItem[i] := traceItem[traceItemNum];
      traceItem[traceItemNum] := Item(0, 0, 0, traceItem[traceItemNum].stack);
    }

    /** add_trace, under the tracer's mutex. */
    method AddTrace(op: Op)
      requires Valid() && op.Add?
      modifies this, traceItem
      ensures Valid() && View() == Apply(c, old(View()), op)
    {
      var id := AddMemUsage(op.name, op.size, op.allocOk);
      if c.recordNum != 0 {
        AddTraceItem(Item(op.addr, op.size, id, Captured(c, op.stack)));
      }
    }

    /** remove_trace, under the tracer's mutex. */
    method RemoveTrace(op: Op)
      requires Valid() && op.Remove?
      modifies this, traceItem
      ensures Valid() && View() == Apply(c, old(View()), op)
    {
      var i := GetTraceItem(op.addr);
      if i < traceItemNum {
        RemoveMemUsage(traceItem[i].moduleId, traceItem[i].size);
        RemoveTraceItem(i);
      }
    }

    /** print_leak: the sizes of the entries of a known module's id, or of all entries, in an int that wraps. */
    method PrintLeak(name: Option<string>) returns (leakSize: int)
      requires Valid()
      ensures var m := if name.Some? then IndexOfName(moduleLists, name.value) else |moduleLists|;
              leakSize == ToI32(ToU32(Total(View().table, if m < |moduleLists| then Some(moduleLists[m].id) else None)))
    {
      var id: Option<byte> := None;
      if name.Some? {
        var m := GetModule(name.value);
        if m < |moduleLists| {
          id := Some(moduleLists[m].id);
        }
      }
      leakSize := 0;
      for i := 0 to traceItemNum
        invariant leakSize == ToI32(ToU32(Total(View().table[..i], id)))
      {
        assert View().table[..i + 1] == View().table[..i] + [traceItem[i]];
        TotalAppend(View().table[..i], traceItem[i], id);
        if id.None? || id.value == traceItem[i].moduleId {
          WrapSum(Total(View().table[..i], id), traceItem[i].size);
          leakSize := ToI32(ToU32(leakSize + traceItem[i].size));
        }
      }
      assert View().table[..traceItemNum] == View().table;
    }
  }

  lemma AppendedNameIsFound(modules: seq<Module>, m: Module)
    requires IndexOfName(modules, m.name) == |modules|
    ensures IndexOfName(modules + [m], m.name) == |modules|
  {
    var i := IndexOfName(modules + [m], m.name);
    assert forall j :: 0 <= j < |modules| ==> (modules + [m])[j] == modules[j];
    assert (modules + [m])[|modules|] == m;
  }
}
