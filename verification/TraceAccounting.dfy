/** What the tracer's 32-bit counters mean, against books kept in unbounded integers. */
module TraceAccounting {
  import opened Wrappers
  import opened Bytes
  import opened TraceModel

  /** Unbounded counterpart of a gauge. `exact` says that no size so far was negative and the true sum
      has stayed within 32 bits. */
  datatype Account = Account(sum: int, highest: int, exact: bool)
  {
    function Move(delta: int, sane: bool): Account {
      var s := sum + delta;
      Account(s, if highest < s then s else highest, exact && sane && 0 <= s < U32_MODULUS)
    }
  }

  ghost predicate Agrees(g: Gauge, a: Account) {
    && g.usage == ToU32(a.sum)
    && (a.exact ==> g.usage == a.sum && g.peak == a.highest && a.sum <= a.highest)
  }

  /** The books of a run: of everything, and of module id k. `unrecorded` counts adds the table did not
      take; `unrecordedOf` those of them charged to k. `stray` counts entries recorded under id k but
      charged to no module, less those of id k removed while no module had that id. */
  datatype Books = Books(all: Account, unrecorded: int, ofK: Account, unrecordedOf: int, stray: int)

  const NO_BOOKS: Books := Books(Account(0, 0, true), 0, Account(0, 0, true), 0, 0)

  function Record(c: Config, k: byte, t: Tracer, b: Books, op: Op): Books {
    match op
    case Add(name, addr, size, flag, stack, allocOk, junk) =>
      var charged := Charged(c, t, name, allocOk);
      var taken := c.recordNum > 0 && |t.table| < c.recordNum;
      var all := b.(all := b.all.Move(size, size >= 0), unrecorded := b.unrecorded + if taken then 0 else size);
      if charged == Some(k) then
        all.(ofK := b.ofK.Move(size, size >= 0), unrecordedOf := b.unrecordedOf + if taken then 0 else size)
      else if charged.None? && k == 0 && taken then all.(stray := b.stray + size)
      else all
    case Remove(addr, junk) =>
      var i := IndexOfAddr(t.table, addr);
      if i == |t.table| then b
      else
        var size := t.table[i].size;
        var all := b.(all := b.all.Move(-size, size >= 0));
        if t.table[i].moduleId != k then all
        else if c.moduleUsage && k < |t.modules| then all.(ofK := b.ofK.Move(-size, size >= 0))
        else all.(stray := b.stray - size)
  }

  function Keep(c: Config, k: byte, ops: seq<Op>): Books {
    if ops == [] then NO_BOOKS
    else Record(c, k, Trace(c, ops[..|ops| - 1]), Keep(c, k, ops[..|ops| - 1]), ops[|ops| - 1])
  }

  lemma RaiseAgrees(g: Gauge, a: Account, size: int)
    requires Agrees(g, a)
    ensures Agrees(g.Raise(size), a.Move(size, size >= 0))
  {
    WrapSum(a.sum, size);
  }

  lemma LowerAgrees(g: Gauge, a: Account, size: int)
    requires Agrees(g, a)
    ensures Agrees(g.Lower(size), a.Move(-size, size >= 0))
  {
    WrapSum(a.sum, -size);
  }

  ghost predicate Balanced(c: Config, k: byte, t: Tracer, b: Books) {
    && Numbered(t.modules)
    && (!c.moduleUsage ==> t.modules == [])
    && Agrees(t.gauge, b.all)
    && b.all.sum == Total(t.table, None) + b.unrecorded
    && b.ofK.sum == Total(t.table, Some(k)) + b.unrecordedOf - b.stray
    && (k > 0 ==> b.stray == 0 && (k >= |t.modules| ==> forall i :: 0 <= i < |t.table| ==> t.table[i].moduleId != k))
    && Agrees(GaugeOf(t.modules, k), b.ofK)
  }

  lemma IdIsPosition(modules: seq<Module>, id: byte)
    requires Numbered(modules)
    ensures IndexOfId(modules, id) == if id < |modules| then id else |modules|
  {
    assert id < |modules| ==> modules[id].id == id;
  }

  predicate Numbered(modules: seq<Module>) {
    |modules| <= MAX_MODULES && forall i :: 0 <= i < |modules| ==> modules[i].id == i
  }

  function GaugeOf(modules: seq<Module>, k: nat): Gauge {
    if k < |modules| then modules[k].gauge else Gauge(0, 0)
  }

  /** Charging touches the module charged and no other, and names it by its id. */
  lemma ChargeIsLocal(c: Config, k: byte, t: Tracer, name: Option<string>, size: int, allocOk: bool)
    requires Numbered(t.modules)
    ensures var (t1, id) := AddUsage(c, t, name, size, allocOk);
            var charged := Charged(c, t, name, allocOk);
            && t1.table == t.table && t1.gauge == t.gauge.Raise(size) && Numbered(t1.modules)
            && id == (if charged.Some? then charged.value else 0)
            && (charged == Some(k as nat) ==>
                  k < |t1.modules| && GaugeOf(t1.modules, k) == GaugeOf(t.modules, k).Raise(size))
            && (charged != Some(k as nat) ==>
                  (k < |t1.modules| <==> k < |t.modules|) && GaugeOf(t1.modules, k) == GaugeOf(t.modules, k))
            && (!c.moduleUsage ==> t1.modules == t.modules)
  {
  }

  /** Refunding touches the module of that id and no other. */
  lemma RefundIsLocal(c: Config, k: byte, t: Tracer, id: byte, size: int)
    requires Numbered(t.modules)
    ensures var t1 := RemoveUsage(c, t, id, size);
            && t1.table == t.table && t1.gauge == t.gauge.Lower(size) && Numbered(t1.modules)
            && |t1.modules| == |t.modules|
            && GaugeOf(t1.modules, k) ==
                 if id == k && c.moduleUsage && k < |t.modules| then GaugeOf(t.modules, k).Lower(size)
                 else GaugeOf(t.modules, k)
  {
    IdIsPosition(t.modules, id);
  }

  lemma ApplyKeepsBalance(c: Config, k: byte, t: Tracer, b: Books, op: Op)
    requires Balanced(c, k, t, b)
    ensures Balanced(c, k, Apply(c, t, op), Record(c, k, t, b, op))
  {
    if op.Add? {
      AddKeepsBalance(c, k, t, b, op);
    } else {
      RemoveKeepsBalance(c, k, t, b, op);
    }
  }

  /** An add puts its size into the totals if the table takes it, and leaves the counters to AddUsage. */
  lemma AddMovesTotals(c: Config, k: byte, t: Tracer, op: Op)
    requires op.Add?
    ensures var (t1, id) := AddUsage(c, t, op.name, op.size, op.allocOk);
            var t', taken := Apply(c, t, op), c.recordNum > 0 && |t.table| < c.recordNum;
            && t'.gauge == t1.gauge && t'.modules == t1.modules
            && Total(t'.table, None) == Total(t.table, None) + (if taken then op.size else 0)
            && Total(t'.table, Some(k)) == Total(t.table, Some(k)) + (if taken && id == k then op.size else 0)
            && (forall i :: 0 <= i < |t'.table| ==>
                  (i < |t.table| && t'.table[i] == t.table[i]) || t'.table[i].moduleId == id)
  {
    var id := AddUsage(c, t, op.name, op.size, op.allocOk).1;
    var item := Item(op.addr, op.size, id, Captured(c, op.stack));
    TotalAppend(t.table, item, None);
    TotalAppend(t.table, item, Some(k));
  }

  lemma AddKeepsBalance(c: Config, k: byte, t: Tracer, b: Books, op: Op)
    requires Balanced(c, k, t, b) && op.Add?
    ensures Balanced(c, k, Apply(c, t, op), Record(c, k, t, b, op))
  {
    RaiseAgrees(t.gauge, b.all, op.size);
    RaiseAgrees(GaugeOf(t.modules, k), b.ofK, op.size);
    ChargeIsLocal(c, k, t, op.name, op.size, op.allocOk);
    AddMovesTotals(c, k, t, op);
  }

  lemma RemoveKeepsBalance(c: Config, k: byte, t: Tracer, b: Books, op: Op)
    requires Balanced(c, k, t, b) && op.Remove?
    ensures Balanced(c, k, Apply(c, t, op), Record(c, k, t, b, op))
  {
    var i := IndexOfAddr(t.table, op.addr);
    if i < |t.table| {
      var item := t.table[i];
      RefundIsLocal(c, k, t, item.moduleId, item.size);
      LowerAgrees(t.gauge, b.all, item.size);
      LowerAgrees(GaugeOf(t.modules, k), b.ofK, item.size);
      TotalSwapRemove(t.table, i, None);
      TotalSwapRemove(t.table, i, Some(k));
    }
  }

  lemma {:induction false} RunsBalance(c: Config, k: byte, ops: seq<Op>)
    ensures Balanced(c, k, Trace(c, ops), Keep(c, k, ops))
    decreases |ops|
  {
    if ops != [] {
      RunsBalance(c, k, ops[..|ops| - 1]);
      ApplyKeepsBalance(c, k, Trace(c, ops[..|ops| - 1]), Keep(c, k, ops[..|ops| - 1]), ops[|ops| - 1]);
    }
  }

  /** mem_usage is the bytes in the table plus the bytes of adds the table did not take, modulo 2^32,
      and exactly that, with the peak its true maximum, while the books are exact. A module obeys the
      same law for the entries of its id; only id 0 has strays. */
  ghost predicate AccountedFor(k: byte, t: Tracer, b: Books) {
    && t.gauge.usage == ToU32(Total(t.table, None) + b.unrecorded)
    && b.all.sum == Total(t.table, None) + b.unrecorded
    && (b.all.exact ==> t.gauge.usage == b.all.sum && t.gauge.peak == b.all.highest)
    && b.ofK.sum == Total(t.table, Some(k)) + b.unrecordedOf - b.stray
    && (k > 0 ==> b.stray == 0)
    && (k < |t.modules| ==>
          var g := t.modules[k].gauge;
          && t.modules[k].id == k
          && g.usage == ToU32(Total(t.table, Some(k)) + b.unrecordedOf - b.stray)
          && (b.ofK.exact ==> g.usage == b.ofK.sum && g.peak == b.ofK.highest))
  }

  lemma BalancedMeansAccountedFor(c: Config, k: byte, t: Tracer, b: Books)
    requires Balanced(c, k, t, b)
    ensures AccountedFor(k, t, b)
  {
  }

  /** Accounting, over every run of traced calls and for every module id. */
  lemma UsageIsAccountedFor(c: Config, k: byte, ops: seq<Op>)
    ensures AccountedFor(k, Trace(c, ops), Keep(c, k, ops))
  {
    RunsBalance(c, k, ops);
    BalancedMeansAccountedFor(c, k, Trace(c, ops), Keep(c, k, ops));
  }

  lemma WrapHidesMultiples(x: int, d: int)
    ensures ToU32(x - d) == ToU32(x) <==> ToU32(d) == 0
  {
  }

  /** For a reader of module k's counter: it is what the table holds of id k and what the table did not take,
      modulo 2^32, if and only if the strays cancel out. */
  predicate ReadsAsTotal(k: byte, t: Tracer, b: Books) {
    k < |t.modules| ==>
      (t.modules[k].gauge.usage == ToU32(Total(t.table, Some(k)) + b.unrecordedOf) <==> ToU32(b.stray) == 0)
  }

  lemma StraysDecide(k: byte, t: Tracer, b: Books)
    requires AccountedFor(k, t, b)
    ensures ReadsAsTotal(k, t, b)
  {
    WrapHidesMultiples(Total(t.table, Some(k)) + b.unrecordedOf, b.stray);
  }

  lemma {:induction false} UsageReadsAsTotalIffNoStray(c: Config, k: byte, ops: seq<Op>)
    ensures ReadsAsTotal(k, Trace(c, ops), Keep(c, k, ops))
  {
    UsageIsAccountedFor(c, k, ops);
    StraysDecide(k, Trace(c, ops), Keep(c, k, ops));
  }

  /** Every add the table took was charged to a module. */
  ghost predicate RecordedAddsCharged(c: Config, ops: seq<Op>) {
    forall i :: 0 <= i < |ops| && ops[i].Add? && |Trace(c, ops[..i]).table| < c.recordNum ==>
      Charged(c, Trace(c, ops[..i]), ops[i].name, ops[i].allocOk).Some?
  }

  /** The ids in the table are those of modules, and without modules there are no entries. */
  predicate IdsOfModules(c: Config, t: Tracer) {
    forall i :: 0 <= i < |t.table| ==> c.moduleUsage && t.table[i].moduleId < |t.modules|
  }

  lemma AddKeepsIds(c: Config, t: Tracer, op: Op)
    requires Numbered(t.modules) && IdsOfModules(c, t) && op.Add?
    requires |t.table| < c.recordNum ==> Charged(c, t, op.name, op.allocOk).Some?
    ensures IdsOfModules(c, Apply(c, t, op))
  {
    AddMovesTotals(c, 0, t, op);
    assert |AddUsage(c, t, op.name, op.size, op.allocOk).0.modules| >= |t.modules|;
  }

  lemma RemoveKeepsIds(c: Config, t: Tracer, op: Op)
    requires Numbered(t.modules) && IdsOfModules(c, t) && op.Remove?
    ensures IdsOfModules(c, Apply(c, t, op))
  {
    var i := IndexOfAddr(t.table, op.addr);
    if i < |t.table| {
      RefundIsLocal(c, 0, t, t.table[i].moduleId, t.table[i].size);
    }
  }

  lemma NoNewStrays(c: Config, k: byte, t: Tracer, b: Books, op: Op)
    requires IdsOfModules(c, t)
    requires op.Add? && |t.table| < c.recordNum ==> Charged(c, t, op.name, op.allocOk).Some?
    ensures Record(c, k, t, b, op).stray == b.stray
  {
  }

  lemma KeepsIds(c: Config, k: byte, t: Tracer, b: Books, op: Op)
    requires Numbered(t.modules) && IdsOfModules(c, t)
    requires op.Add? && |t.table| < c.recordNum ==> Charged(c, t, op.name, op.allocOk).Some?
    ensures IdsOfModules(c, Apply(c, t, op)) && Record(c, k, t, b, op).stray == b.stray
  {
    NoNewStrays(c, k, t, b, op);
    if op.Add? {
      AddKeepsIds(c, t, op);
    } else {
      RemoveKeepsIds(c, t, op);
    }
  }

  /** As long as every add the table takes is charged, there are no strays, for id 0 either. */
  lemma {:induction false} ChargedAddsLeaveNoStrays(c: Config, k: byte, ops: seq<Op>)
    requires RecordedAddsCharged(c, ops)
    ensures Keep(c, k, ops).stray == 0 && IdsOfModules(c, Trace(c, ops))
    decreases |ops|
  {
    if ops != [] {
      var last := |ops| - 1;
      var earlier := ops[..last];
      forall i | 0 <= i < last ensures earlier[..i] == ops[..i] && earlier[i] == ops[i] {
      }
      ChargedAddsLeaveNoStrays(c, k, earlier);
      RunsBalance(c, k, earlier);
      KeepsIds(c, k, Trace(c, earlier), Keep(c, k, earlier), ops[last]);
    }
  }

  // The peaks, without the books.

  /** The last call of a run raised a counter: the total's with every add, module k's when it is charged. */
  predicate Raises(c: Config, ops: seq<Op>, k: Option<byte>)
    requires ops != []
  {
    var last := |ops| - 1;
    ops[last].Add?
    && (k.Some? ==> Charged(c, Trace(c, ops[..last]), ops[last].name, ops[last].allocOk) == Some(k.value as nat))
  }

  function GaugeAfter(c: Config, ops: seq<Op>, k: Option<byte>): Gauge {
    if k.None? then Trace(c, ops).gauge else GaugeOf(Trace(c, ops).modules, k.value)
  }

  /** The usages that the raising calls of a run left, one after the other. */
  function UsagesLeft(c: Config, ops: seq<Op>, k: Option<byte>): seq<nat> {
    if ops == [] then []
    else
      UsagesLeft(c, ops[..|ops| - 1], k) + if Raises(c, ops, k) then [GaugeAfter(c, ops, k).usage] else []
  }

  /** At least every one of the values and, unless it is 0, one of them. */
  predicate IsHighest(values: seq<nat>, peak: nat) {
    (forall i :: 0 <= i < |values| ==> values[i] <= peak) && (peak == 0 || peak in values)
  }

  lemma HighestWithOneMore(values: seq<nat>, peak: nat, value: nat)
    requires IsHighest(values, peak)
    ensures IsHighest(values + [value], if peak < value then value else peak)
  {
    assert (values + [value])[|values|] == value;
  }

  /** A gauge after an add that raises it or not, and after a removal. */
  lemma AddMovesGauge(c: Config, t: Tracer, op: Op, k: byte)
    requires Numbered(t.modules) && op.Add?
    ensures Apply(c, t, op).gauge == t.gauge.Raise(op.size)
    ensures var (before, after) := (GaugeOf(t.modules, k), GaugeOf(Apply(c, t, op).modules, k));
            if Charged(c, t, op.name, op.allocOk) == Some(k as nat) then after == before.Raise(op.size)
            else after == before
  {
    ChargeIsLocal(c, k, t, op.name, op.size, op.allocOk);
    AddMovesTotals(c, k, t, op);
  }

  lemma RemoveKeepsPeak(c: Config, t: Tracer, op: Op, k: byte)
    requires Numbered(t.modules) && op.Remove?
    ensures Apply(c, t, op).gauge.peak == t.gauge.peak
    ensures GaugeOf(Apply(c, t, op).modules, k).peak == GaugeOf(t.modules, k).peak
  {
    var i := IndexOfAddr(t.table, op.addr);
    if i < |t.table| {
      RefundIsLocal(c, k, t, t.table[i].moduleId, t.table[i].size);
    }
  }

  lemma {:induction false} LastCallMovesGauge(c: Config, ops: seq<Op>, k: Option<byte>)
    requires ops != []
    ensures var (before, after) := (GaugeAfter(c, ops[..|ops| - 1], k), GaugeAfter(c, ops, k));
            if Raises(c, ops, k) then after.peak == (if before.peak < after.usage then after.usage else before.peak)
            else after.peak == before.peak
  {
    var earlier, op, id: byte := ops[..|ops| - 1], ops[|ops| - 1], if k.Some? then k.value else 0;
    RunsBalance(c, id, earlier);
    if op.Add? {
      AddMovesGauge(c, Trace(c, earlier), op, id);
    } else {
      RemoveKeepsPeak(c, Trace(c, earlier), op, id);
    }
  }

  /** For the total and for every module: the peak is the highest usage that an add has left. */
  lemma {:induction false} PeakIsHighestUsage(c: Config, ops: seq<Op>, k: Option<byte>)
    ensures IsHighest(UsagesLeft(c, ops, k), GaugeAfter(c, ops, k).peak)
    decreases |ops|
  {
    if ops != [] {
      var earlier := ops[..|ops| - 1];
      PeakIsHighestUsage(c, earlier, k);
      LastCallMovesGauge(c, ops, k);
      if Raises(c, ops, k) {
        HighestWithOneMore(UsagesLeft(c, earlier, k), GaugeAfter(c, earlier, k).peak, GaugeAfter(c, ops, k).usage);
      } else {
        assert UsagesLeft(c, earlier, k) + [] == UsagesLeft(c, earlier, k);
      }
    }
  }

  lemma AnonymousAdd(c: Config, op: Op)
    requires c.recordNum >= 1 && op.Add? && op.name.None?
    ensures var t := Apply(c, EMPTY, op);
            t.modules == [] && |t.table| == 1 && Total(t.table, Some(0)) == op.size
  {
    var item := Item(op.addr, op.size, 0, Captured(c, op.stack));
    assert Apply(c, EMPTY, op).table == [] + [item];
    TotalAppend([], item, Some(0));
  }

  lemma FirstNamedAdd(c: Config, t: Tracer, op: Op)
    requires c.moduleUsage && t.modules == [] && |t.table| < c.recordNum
    requires op.Add? && op.name.Some? && op.allocOk
    ensures var t' := Apply(c, t, op);
            && t'.modules == [Module(op.name.value, 0, Gauge(0, 0).Raise(op.size))]
            && Total(t'.table, Some(0)) == Total(t.table, Some(0)) + op.size
  {
    var item := Item(op.addr, op.size, 0, Captured(c, op.stack));
    var modules := WithModule(t.modules, op.name.value, true);
    assert modules == [Module(op.name.value, 0, Gauge(0, 0))];
    assert AddUsage(c, t, op.name, op.size, true).1 == 0;
    TotalAppend(t.table, item, Some(0));
  }

  /** The first module's counter and the entries of its id disagree by `more` bytes. */
  predicate OffBy(t: Tracer, name: string, size: int, more: int) {
    && |t.modules| == 1 && t.modules[0].name == name
    && t.modules[0].gauge.usage == size
    && Total(t.table, Some(t.modules[0].id)) == size + more
  }

  lemma RaiseFromZero(size: nat)
    requires size < U32_MODULUS
    ensures Gauge(0, 0).Raise(size).usage == size
  {
  }

  lemma {:induction false} AnonymousThenNamed(c: Config, t: Tracer, named: Op)
    requires c.moduleUsage && t.modules == [] && |t.table| < c.recordNum
    requires named.Add? && named.name.Some? && named.allocOk && 0 <= named.size < U32_MODULUS
    ensures OffBy(Apply(c, t, named), named.name.value, named.size, Total(t.table, Some(0)))
  {
    FirstNamedAdd(c, t, named);
    RaiseFromZero(named.size);
  }

  /** Id 0 is both "no module" and the first module's id: once one anonymous allocation is in the
      table, the entries of the first module's id no longer add up to its usage. */
  lemma {:induction false} AnonymousEntriesShareIdZero(c: Config, anonymous: Op, named: Op)
    requires c.moduleUsage && c.recordNum >= 2
    requires anonymous.Add? && anonymous.name.None? && anonymous.size > 0
    requires named.Add? && named.name.Some? && named.allocOk && 0 <= named.size < U32_MODULUS
    ensures OffBy(Trace(c, [anonymous, named]), named.name.value, named.size, anonymous.size)
  {
    TraceOfTwo(c, anonymous, named);
    AnonymousAdd(c, anonymous);
    AnonymousThenNamed(c, Apply(c, EMPTY, anonymous), named);
  }
}
