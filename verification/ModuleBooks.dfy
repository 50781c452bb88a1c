/** What a module's counter means by the name the callers give: books kept per name, from the calls alone
    (media_lib_mem_trace.c:49-103, 159-192). */
module ModuleBooks {
  import opened Wrappers
  import opened Bytes
  import opened TraceModel
  import opened TraceAccounting

  predicate NamesDistinct(modules: seq<Module>) {
    forall i, j :: 0 <= i < j < |modules| ==> modules[i].name != modules[j].name
  }

  predicate KnowsName(modules: seq<Module>, name: string) {
    exists i :: 0 <= i < |modules| && modules[i].name == name
  }

  /** The same modules, except that those of this name have gained the size. */
  predicate OnlyNameGains(before: seq<Module>, after: seq<Module>, name: string, size: int) {
    && |after| == |before|
    && forall i :: 0 <= i < |before| ==>
         && after[i].name == before[i].name && after[i].id == before[i].id
         && (before[i].name == name ==>
               && after[i].gauge.usage == ToU32(before[i].gauge.usage + size)
               && after[i].gauge.peak == Max(before[i].gauge.peak, after[i].gauge.usage))
         && (before[i].name != name ==> after[i].gauge == before[i].gauge)
  }

  function Max(a: nat, b: nat): nat {
    if a < b then b else a
  }

  /** An add by a known name raises the module of that name and no other, and returns its id; an unknown
      name gets a module of its own, while ids last and memory can be had; otherwise, and without a name
      or without module usage, no module changes and the id is 0. */
  predicate ChargesByName(c: Config, before: seq<Module>, after: seq<Module>, id: byte,
                          name: Option<string>, size: int, allocOk: bool)
  {
    if c.moduleUsage && name.Some? && KnowsName(before, name.value) then
      && OnlyNameGains(before, after, name.value, size)
      && exists i :: 0 <= i < |after| && after[i].name == name.value && after[i].id == id
    else if c.moduleUsage && name.Some? && allocOk && |before| < 256 then
      var n := |before|;
      && |after| == n + 1 && after[..n] == before
      && after[n].name == name.value && after[n].id == id == n
      && after[n].gauge.usage == after[n].gauge.peak == ToU32(size)
    else after == before && id == 0
  }

  lemma KnownNameIsCharged(c: Config, t: Tracer, name: string, size: int, allocOk: bool)
    requires NamesDistinct(t.modules) && c.moduleUsage && KnowsName(t.modules, name)
    ensures var (t', id) := AddUsage(c, t, Some(name), size, allocOk);
            && OnlyNameGains(t.modules, t'.modules, name, size)
            && exists i :: 0 <= i < |t'.modules| && t'.modules[i].name == name && t'.modules[i].id == id
  {
    var i := IndexOfName(t.modules, name);
    var (t', id) := AddUsage(c, t, Some(name), size, allocOk);
    assert Charged(c, t, Some(name), allocOk) == Some(i);
    assert t'.modules[i].name == name && t'.modules[i].id == id;
  }

  lemma NewNameIsCharged(c: Config, t: Tracer, name: string, size: int)
    requires c.moduleUsage && !KnowsName(t.modules, name) && |t.modules| < 256
    ensures var (t', id) := AddUsage(c, t, Some(name), size, true);
            && t'.modules == t.modules + [Module(name, |t.modules|, Gauge(0, 0).Raise(size))] && id == |t.modules|
  {
    NewModuleIsFound(t.modules, name);
  }

  lemma AddChargesNamedModule(c: Config, t: Tracer, name: Option<string>, size: int, allocOk: bool)
    requires NamesDistinct(t.modules)
    ensures var (t', id) := AddUsage(c, t, name, size, allocOk);
            ChargesByName(c, t.modules, t'.modules, id, name, size, allocOk)
  {
    if c.moduleUsage && name.Some? {
      if KnowsName(t.modules, name.value) {
        KnownNameIsCharged(c, t, name.value, size, allocOk);
      } else if allocOk && |t.modules| < 256 {
        NewNameIsCharged(c, t, name.value, size);
      }
    }
  }

  lemma NewModuleIsFound(modules: seq<Module>, name: string)
    requires IndexOfName(modules, name) == |modules| < MAX_MODULES
    ensures var m := Module(name, |modules|, Gauge(0, 0)); IndexOfName(modules + [m], name) == |modules|
  {
    var m := Module(name, |modules|, Gauge(0, 0));
    var i := IndexOfName(modules + [m], name);
    assert forall j :: 0 <= j < |modules| ==> (modules + [m])[j] == modules[j];
    assert (modules + [m])[|modules|] == m;
  }

  /** Books by name: the names in order of their first charge, the true sum of each, and by whose name each
      entry of the table was charged. */
  datatype NameBooks = NameBooks(names: seq<string>, sums: map<string, int>, owners: seq<Option<string>>)

  const NO_NAMES: NameBooks := NameBooks([], map[], [])

  /** The name an add is charged to: its own, if it is on the books or can be entered. */
  function ChargedTo(c: Config, b: NameBooks, name: Option<string>, allocOk: bool): Option<string> {
    if c.moduleUsage && name.Some? && (name.value in b.names || (allocOk && |b.names| < 256)) then name else None
  }

  function SumOf(sums: map<string, int>, name: string): int {
    if name in sums then sums[name] else 0
  }

  /** A size entered under a name, or nowhere. */
  function Book(b: NameBooks, to: Option<string>, size: int): NameBooks {
    match to
    case None => b
    case Some(name) =>
      b.(names := if name in b.names then b.names else b.names + [name],
         sums := b.sums[name := SumOf(b.sums, name) + size])
  }

  function PayerOf(b: NameBooks, owner: Option<string>): Option<string> {
    if owner.Some? then owner else if b.names != [] then Some(b.names[0]) else None
  }

  /** An add goes to its caller's name. A removal comes off the name the entry was charged to; an entry
      charged to nobody comes off the first name of all, which shares its id. */
  function RecordByName(c: Config, t: Tracer, b: NameBooks, op: Op): NameBooks
    requires |b.owners| == |t.table|
  {
    match op
    case Add(name, _, size, _, _, allocOk, _) =>
      var to := ChargedTo(c, b, name, allocOk);
      Book(b, to, size).(owners := if |t.table| < c.recordNum then b.owners + [to] else b.owners)
    case Remove(addr, _) =>
      var i := IndexOfAddr(t.table, addr);
      if i == |t.table| then b
      else
        Book(b, PayerOf(b, b.owners[i]), -t.table[i].size).(owners := SwapRemove(b.owners, i))
  }

  /** The names of the modules are those of the books, in order; each counter is its name's sum, modulo 2^32. */
  ghost predicate ModulesAgree(modules: seq<Module>, names: seq<string>, sums: map<string, int>) {
    && |names| == |modules| && Numbered(modules) && NamesDistinct(modules)
    && (forall i :: 0 <= i < |modules| ==>
          modules[i].name == names[i] && modules[i].gauge.usage == ToU32(SumOf(sums, names[i])))
    && (forall name :: name in sums ==> name in names)
  }

  /** An entry has the id of the module it was charged to, or 0. */
  predicate OwnedBy(item: Item, owner: Option<string>, names: seq<string>) {
    HasIdOf(item.moduleId, owner, names)
  }

  predicate OwnersAgree(table: seq<Item>, owners: seq<Option<string>>, names: seq<string>) {
    |owners| == |table| && forall i :: 0 <= i < |table| ==> OwnedBy(table[i], owners[i], names)
  }

  ghost predicate BooksAgree(c: Config, t: Tracer, b: NameBooks) {
    && ModulesAgree(t.modules, b.names, b.sums) && OwnersAgree(t.table, b.owners, b.names)
    && (!c.moduleUsage ==> t.modules == [])
  }

  /** One name's sum and its module's counter move together. */
  lemma NameMoves(modules: seq<Module>, modules': seq<Module>, names: seq<string>, sums: map<string, int>,
                  name: string, size: int)
    requires ModulesAgree(modules, names, sums) && name in names && |modules'| == |modules|
    requires forall i :: 0 <= i < |modules| ==>
               && modules'[i].name == modules[i].name && modules'[i].id == modules[i].id
               && modules'[i].gauge.usage == if names[i] == name then ToU32(modules[i].gauge.usage + size)
                                             else modules[i].gauge.usage
    ensures ModulesAgree(modules', names, sums[name := SumOf(sums, name) + size])
  {
    WrapSum(SumOf(sums, name), size);
  }

  lemma NameEnters(modules: seq<Module>, m: Module, names: seq<string>, sums: map<string, int>, size: int)
    requires ModulesAgree(modules, names, sums) && m.name !in names && m.id == |modules| < 256
    requires m.gauge.usage == ToU32(size)
    ensures ModulesAgree(modules + [m], names + [m.name], sums[m.name := SumOf(sums, m.name) + size])
  {
    var names' := names + [m.name];
    forall name | name in sums ensures name in names' {
    }
    assert names'[|names|] == m.name && m.name !in sums;
    forall i | 0 <= i < |modules| ensures names'[i] != m.name {
      assert names[i] in names;
    }
  }

  predicate HasIdOf(id: byte, to: Option<string>, names: seq<string>) {
    match to
    case None => id == 0
    case Some(name) => id < |names| && names[id] == name
  }

  lemma KnownChargeKeepsModules(before: seq<Module>, after: seq<Module>, id: byte, b: NameBooks, name: string,
                                size: int)
    requires ModulesAgree(before, b.names, b.sums) && name in b.names
    requires OnlyNameGains(before, after, name, size)
    requires exists i :: 0 <= i < |after| && after[i].name == name && after[i].id == id
    ensures ModulesAgree(after, b.names, b.sums[name := SumOf(b.sums, name) + size])
    ensures HasIdOf(id, Some(name), b.names)
  {
    NameMoves(before, after, b.names, b.sums, name, size);
    var i :| 0 <= i < |after| && after[i].name == name && after[i].id == id;
    assert before[i].id == i;
  }

  /** The modules' part of an add, whatever computes it. */
  lemma ChargeKeepsModules(c: Config, before: seq<Module>, after: seq<Module>, id: byte, b: NameBooks,
                           name: Option<string>, size: int, allocOk: bool)
    requires ModulesAgree(before, b.names, b.sums)
    requires ChargesByName(c, before, after, id, name, size, allocOk)
    ensures var to := ChargedTo(c, b, name, allocOk);
            var b' := Book(b, to, size);
            ModulesAgree(after, b'.names, b'.sums) && b.names <= b'.names && HasIdOf(id, to, b'.names)
  {
    if name.Some? {
      KnownIsOnBooks(before, b.names, name.value);
      if ChargedTo(c, b, name, allocOk).Some? {
        if name.value in b.names {
          KnownChargeKeepsModules(before, after, id, b, name.value, size);
        } else {
          var n := |before|;
          NameEnters(before, after[n], b.names, b.sums, size);
          assert after == after[..n] + [after[n]];
        }
      }
    }
  }

  lemma KnownIsOnBooks(modules: seq<Module>, names: seq<string>, name: string)
    requires |names| == |modules| && forall i :: 0 <= i < |modules| ==> modules[i].name == names[i]
    ensures KnowsName(modules, name) <==> name in names
  {
    if name in names {
      var i :| 0 <= i < |names| && names[i] == name;
      assert modules[i].name == name;
    }
  }

  lemma AddKeepsBooks(c: Config, t: Tracer, b: NameBooks, op: Op)
    requires BooksAgree(c, t, b) && op.Add?
    ensures BooksAgree(c, Apply(c, t, op), RecordByName(c, t, b, op))
  {
    var (t1, id) := AddUsage(c, t, op.name, op.size, op.allocOk);
    AddChargesNamedModule(c, t, op.name, op.size, op.allocOk);
    ChargeKeepsModules(c, t.modules, t1.modules, id, b, op.name, op.size, op.allocOk);
    var to := ChargedTo(c, b, op.name, op.allocOk);
    var b' := Book(b, to, op.size);
    OwnersStay(t.table, b.owners, b.names, b'.names);
    var item := Item(op.addr, op.size, id, Captured(c, op.stack));
    assert OwnedBy(item, to, b'.names);
    OwnersSnoc(t.table, b.owners, b'.names, item, to);
  }

  lemma OwnersSnoc(table: seq<Item>, owners: seq<Option<string>>, names: seq<string>, item: Item,
                   owner: Option<string>)
    requires OwnersAgree(table, owners, names) && OwnedBy(item, owner, names)
    ensures OwnersAgree(table + [item], owners + [owner], names)
  {
  }

  lemma OwnersStay(table: seq<Item>, owners: seq<Option<string>>, names: seq<string>, names': seq<string>)
    requires OwnersAgree(table, owners, names) && names <= names'
    ensures OwnersAgree(table, owners, names')
  {
  }

  lemma OwnersAfterSwap(table: seq<Item>, owners: seq<Option<string>>, names: seq<string>, i: nat)
    requires OwnersAgree(table, owners, names) && i < |table|
    ensures OwnersAgree(SwapRemove(table, i), SwapRemove(owners, i), names)
  {
  }

  /** A removal lowers the counter of the name the entry belongs to, or of the first name. */
  lemma RefundKeepsModules(c: Config, t: Tracer, b: NameBooks, item: Item, owner: Option<string>)
    requires BooksAgree(c, t, b) && OwnedBy(item, owner, b.names)
    ensures var b' := Book(b, PayerOf(b, owner), -item.size);
            b'.names == b.names && ModulesAgree(RemoveUsage(c, t, item.moduleId, item.size).modules, b'.names, b'.sums)
  {
    if item.moduleId < |b.names| {
      RefundByName(c, t, b.names, b.sums, item.moduleId, item.size);
    } else {
      IdIsPosition(t.modules, item.moduleId);
    }
  }

  lemma RemoveKeepsBooks(c: Config, t: Tracer, b: NameBooks, op: Op)
    requires BooksAgree(c, t, b) && op.Remove?
    ensures BooksAgree(c, Apply(c, t, op), RecordByName(c, t, b, op))
  {
    var i := IndexOfAddr(t.table, op.addr);
    if i < |t.table| {
      var item := t.table[i];
      assert OwnedBy(item, b.owners[i], b.names);
      OwnersAfterSwap(t.table, b.owners, b.names, i);
      RefundKeepsModules(c, t, b, item, b.owners[i]);
      RefundIsLocal(c, 0, t, item.moduleId, item.size);
    }
  }

  lemma RefundByName(c: Config, t: Tracer, names: seq<string>, sums: map<string, int>, id: byte, size: int)
    requires ModulesAgree(t.modules, names, sums) && id < |names| && c.moduleUsage
    ensures ModulesAgree(RemoveUsage(c, t, id, size).modules, names, sums[names[id] := SumOf(sums, names[id]) - size])
  {
    IdIsPosition(t.modules, id);
    var after := RemoveUsage(c, t, id, size).modules;
    forall i | 0 <= i < |names| ensures names[i] == names[id] <==> i == id {
      assert t.modules[i].name == names[i] && t.modules[id].name == names[id];
    }
    NameMoves(t.modules, after, names, sums, names[id], -size);
  }

  function KeepNames(c: Config, ops: seq<Op>): (b: NameBooks)
    ensures BooksAgree(c, Trace(c, ops), b)
    decreases |ops|
  {
    if ops == [] then NO_NAMES
    else
      var last := |ops| - 1;
      var (t, b) := (Trace(c, ops[..last]), KeepNames(c, ops[..last]));
      BookingKeepsBooks(c, t, b, ops[last]);
      RecordByName(c, t, b, ops[last])
  }

  lemma BookingKeepsBooks(c: Config, t: Tracer, b: NameBooks, op: Op)
    requires BooksAgree(c, t, b)
    ensures BooksAgree(c, Apply(c, t, op), RecordByName(c, t, b, op))
  {
    if op.Add? {
      AddKeepsBooks(c, t, b, op);
    } else {
      RemoveKeepsBooks(c, t, b, op);
    }
  }

  /** Accounting by name, over every run: there is one module for each name on the books, with its id, and
      its counter is what was allocated under that name less what was released of it, modulo 2^32. */
  lemma UsageByName(c: Config, ops: seq<Op>, name: string)
    ensures var (modules, b) := (Trace(c, ops).modules, KeepNames(c, ops));
            && (KnowsName(modules, name) <==> name in b.names)
            && (forall i :: 0 <= i < |modules| && modules[i].name == name ==>
                  && modules[i].id == i && modules[i].gauge.usage == ToU32(SumOf(b.sums, name))
                  && forall j :: 0 <= j < |modules| && modules[j].name == name ==> i == j)
  {
    var modules, b := Trace(c, ops).modules, KeepNames(c, ops);
    KnownIsOnBooks(modules, b.names, name);
  }
}
