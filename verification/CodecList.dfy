/** The codec registry as a list, newest first: registration, removal, lookup, and what they amount to
    over any history of calls (esp_video_codec/src/video_codec_reg.c:43-138). */
module CodecList {
  import opened Wrappers

  const TYPE_NONE: nat := 0
  const NULL_OPS: nat := 0

  datatype Desc = Desc(codecType: nat, isHw: bool, cc: nat)

  datatype Entry = Entry(desc: Desc, ops: nat)

  datatype Error = Ok | InvalidArg | NoMemory | NotExisted

  predicate Matches(e: Entry, codecType: nat, cc: nat) {
    e.desc.codecType == codecType && e.desc.cc == cc
  }

  function FirstMatch(list: seq<Entry>, codecType: nat, cc: nat): (i: nat)
    ensures i <= |list| && (i < |list| ==> Matches(list[i], codecType, cc))
    ensures forall j :: 0 <= j < i ==> !Matches(list[j], codecType, cc)
  {
    IndexWhere(list, (e: Entry) => Matches(e, codecType, cc))
  }

  function FirstHardware(list: seq<Entry>, codecType: nat): (i: nat)
    ensures i <= |list| && (i < |list| ==> list[i].desc.codecType == codecType && list[i].desc.isHw)
    ensures forall j :: 0 <= j < i ==> !(list[j].desc.codecType == codecType && list[j].desc.isHw)
  {
    IndexWhere(list, (e: Entry) => e.desc.codecType == codecType && e.desc.isHw)
  }

  /** The last entry of a type, or the length. */
  function LastOfType(list: seq<Entry>, codecType: nat): (i: nat)
    ensures i <= |list| && (i < |list| ==> list[i].desc.codecType == codecType)
    ensures forall j :: 0 <= j < |list| && (i < j || i == |list|) ==> list[j].desc.codecType != codecType
  {
    if list == [] then 0
    else
      var last := |list| - 1;
      if list[last].desc.codecType == codecType then last
      else
        var i := LastOfType(list[..last], codecType);
        if i == last then |list| else i
  }

  lemma LastOfTypeIs(list: seq<Entry>, codecType: nat, i: nat)
    requires i <= |list| && (i < |list| ==> list[i].desc.codecType == codecType)
    requires forall j :: 0 <= j < |list| && (i < j || i == |list|) ==> list[j].desc.codecType != codecType
    ensures LastOfType(list, codecType) == i
  {
    var last := LastOfType(list, codecType);
    assert last < |list| ==> list[last].desc.codecType == codecType;
  }

  /** Where lib_exists finds a query, or the length: an exact match, or for cc 0 the first hardware codec
      of the type, failing that the last codec of the type. */
  function Lookup(list: seq<Entry>, codecType: nat, cc: nat): (i: nat)
    ensures i <= |list|
  {
    if cc != 0 then FirstMatch(list, codecType, cc)
    else if FirstHardware(list, codecType) < |list| then FirstHardware(list, codecType)
    else LastOfType(list, codecType)
  }

  function Register(list: seq<Entry>, desc: Desc, ops: nat, allocOk: bool): (Error, seq<Entry>) {
    if desc.codecType == TYPE_NONE || ops == NULL_OPS then (InvalidArg, list)
    else if Lookup(list, desc.codecType, desc.cc) < |list| then (Ok, list)
    else if !allocOk then (NoMemory, list)
    else (Ok, [Entry(desc, ops)] + list)
  }

  function FirstSame(list: seq<Entry>, desc: Desc): (i: nat)
    ensures i <= |list| && (i < |list| ==> list[i].desc == desc)
    ensures forall j :: 0 <= j < i ==> list[j].desc != desc
  {
    IndexWhere(list, (e: Entry) => e.desc == desc)
  }

  function Delete<T>(s: seq<T>, i: nat): seq<T>
    requires i < |s|
  {
    s[..i] + s[i + 1..]
  }

  function Unregister(list: seq<Entry>, desc: Desc): (Error, seq<Entry>) {
    if desc.codecType == TYPE_NONE then (InvalidArg, list)
    else
      var i := FirstSame(list, desc);
      if i == |list| then (NotExisted, list) else (Ok, Delete(list, i))
  }

  datatype Call = Add(desc: Desc, ops: nat, allocOk: bool) | Del(desc: Desc)

  /** The list after some calls, with the time each surviving entry was registered. */
  datatype History = History(list: seq<Entry>, born: seq<nat>, clock: nat)

  function After(h: History, call: Call): History
    requires |h.born| == |h.list|
  {
    match call
    case Add(desc, ops, allocOk) =>
      var list := Register(h.list, desc, ops, allocOk).1;
      History(list, if |list| > |h.list| then [h.clock] + h.born else h.born, h.clock + 1)
    case Del(desc) =>
      var i := FirstSame(h.list, desc);
      if desc.codecType == TYPE_NONE || i == |h.list| then h.(clock := h.clock + 1)
      else History(Unregister(h.list, desc).1, Delete(h.born, i), h.clock + 1)
  }

  function Run(calls: seq<Call>): (h: History)
    ensures |h.born| == |h.list|
  {
    if calls == [] then History([], [], 0) else After(Run(calls[..|calls| - 1]), calls[|calls| - 1])
  }

  predicate DistinctKeys(list: seq<Entry>) {
    forall i, j :: 0 <= i < j < |list| ==> !Matches(list[i], list[j].desc.codecType, list[j].desc.cc)
  }

  /** Every entry stems from the registration made at the time it was born. */
  predicate StemsFrom(h: History, calls: seq<Call>) {
    && |h.born| == |h.list| && h.clock == |calls|
    && forall i :: 0 <= i < |h.list| ==>
         h.born[i] < |calls| && calls[h.born[i]] == Add(h.list[i].desc, h.list[i].ops, true)
  }

  predicate NewestFirst(h: History) {
    && |h.born| == |h.list|
    && (forall i, j :: 0 <= i < j < |h.born| ==> h.born[i] > h.born[j])
    && (forall i :: 0 <= i < |h.born| ==> h.born[i] < h.clock)
  }

  lemma LookupFindsMatches(list: seq<Entry>, codecType: nat, cc: nat, i: nat)
    requires i < |list| && Matches(list[i], codecType, cc)
    ensures Lookup(list, codecType, cc) < |list|
  {
  }

  lemma AddKeepsOrder(h: History, call: Call)
    requires NewestFirst(h) && DistinctKeys(h.list) && call.Add?
    ensures NewestFirst(After(h, call)) && DistinctKeys(After(h, call).list)
  {
    if |After(h, call).list| > |h.list| {
      forall i | 0 <= i < |h.list| ensures !Matches(h.list[i], call.desc.codecType, call.desc.cc) {
        if Matches(h.list[i], call.desc.codecType, call.desc.cc) {
          LookupFindsMatches(h.list, call.desc.codecType, call.desc.cc, i);
        }
      }
    }
  }

  lemma DeleteKeepsOrder(h: History, i: nat, clock: nat)
    requires NewestFirst(h) && DistinctKeys(h.list) && i < |h.list| && h.clock <= clock
    ensures NewestFirst(History(Delete(h.list, i), Delete(h.born, i), clock)) && DistinctKeys(Delete(h.list, i))
  {
  }

  lemma AfterKeepsOrder(h: History, call: Call)
    requires NewestFirst(h) && DistinctKeys(h.list)
    ensures NewestFirst(After(h, call)) && DistinctKeys(After(h, call).list)
  {
    if call.Add? {
      AddKeepsOrder(h, call);
    } else if FirstSame(h.list, call.desc) < |h.list| {
      DeleteKeepsOrder(h, FirstSame(h.list, call.desc), h.clock + 1);
    }
  }

  lemma AddKeepsOrigin(h: History, calls: seq<Call>, call: Call)
    requires StemsFrom(h, calls) && call.Add?
    ensures StemsFrom(After(h, call), calls + [call])
  {
  }

  lemma DelKeepsOrigin(h: History, calls: seq<Call>, call: Call)
    requires StemsFrom(h, calls) && call.Del?
    ensures StemsFrom(After(h, call), calls + [call])
  {
  }

  lemma AfterKeepsOrigin(h: History, calls: seq<Call>, call: Call)
    requires StemsFrom(h, calls)
    ensures StemsFrom(After(h, call), calls + [call])
  {
    if call.Add? {
      AddKeepsOrigin(h, calls, call);
    } else {
      DelKeepsOrigin(h, calls, call);
    }
  }

  /** In every history, no two entries share type and cc, each stems from its registration, and the list
      is in order of registration, newest first. */
  lemma {:induction false} RunKeepsOrder(calls: seq<Call>)
    ensures NewestFirst(Run(calls)) && DistinctKeys(Run(calls).list) && StemsFrom(Run(calls), calls)
    decreases |calls|
  {
    if calls != [] {
      var last := |calls| - 1;
      RunKeepsOrder(calls[..last]);
      AfterKeepsOrder(Run(calls[..last]), calls[last]);
      AfterKeepsOrigin(Run(calls[..last]), calls[..last], calls[last]);
      assert calls[..last] + [calls[last]] == calls;
    }
  }

  /** A call adds or removes what it names and nothing else: afterwards an entry is there if it was and was
      not removed, or if it is the one added, which needs memory and a key no lookup answers. */
  lemma CallTouchesOnlyItsCodec(calls: seq<Call>, call: Call, e: Entry)
    ensures var (list, list') := (Run(calls).list, After(Run(calls), call).list);
            match call
            case Add(desc, ops, allocOk) =>
              e in list' <==>
                (e in list
                 || (e == Entry(desc, ops) && desc.codecType != TYPE_NONE && ops != NULL_OPS && allocOk
                     && Lookup(list, desc.codecType, desc.cc) == |list|))
            case Del(desc) =>
              e in list' <==> e in list && (e.desc != desc || desc.codecType == TYPE_NONE)
  {
    RunKeepsOrder(calls);
    var list := Run(calls).list;
    if call.Del? && FirstSame(list, call.desc) < |list| && call.desc.codecType != TYPE_NONE {
      DeletedMembers(list, FirstSame(list, call.desc), e);
    }
  }

  lemma DeletedMembers(list: seq<Entry>, i: nat, e: Entry)
    requires i < |list| && DistinctKeys(list)
    ensures e in Delete(list, i) <==> e in list && e.desc != list[i].desc
  {
    if e in list && e.desc != list[i].desc {
      var j :| 0 <= j < |list| && list[j] == e;
      assert Delete(list, i)[if j < i then j else j - 1] == e;
    }
    if e in Delete(list, i) {
      var j :| 0 <= j < |list| - 1 && Delete(list, i)[j] == e;
      assert list[if j < i then j else j + 1] == e;
    }
  }

  /** What a lookup returns, in terms of when the entries were registered: with a cc, the one codec of
      that type and cc; without, the most recently registered hardware codec of the type, and if there
      is none, the earliest registered codec of the type. It fails only if there is none. */
  lemma LookupByHistory(calls: seq<Call>, codecType: nat, cc: nat)
    ensures var (h, k) := (Run(calls), Lookup(Run(calls).list, codecType, cc));
            if k == |h.list| then
              forall i :: 0 <= i < |h.list| ==>
                h.list[i].desc.codecType != codecType || (cc != 0 && h.list[i].desc.cc != cc)
            else
              && h.list[k].desc.codecType == codecType
              && (cc != 0 ==> forall i :: 0 <= i < |h.list| ==> (Matches(h.list[i], codecType, cc) <==> i == k))
              && (cc == 0 ==> forall i :: 0 <= i < |h.list| && i != k && h.list[i].desc.codecType == codecType ==>
                    if h.list[k].desc.isHw then h.list[i].desc.isHw ==> h.born[i] < h.born[k]
                    else !h.list[i].desc.isHw && h.born[i] > h.born[k])
  {
    RunKeepsOrder(calls);
  }

  /** Registering a codec of a key not found, then removing it, restores the list. */
  lemma RegisterThenUnregister(list: seq<Entry>, desc: Desc, ops: nat)
    requires desc.codecType != TYPE_NONE && ops != NULL_OPS && Lookup(list, desc.codecType, desc.cc) == |list|
    ensures Register(list, desc, ops, true).0 == Ok
    ensures Unregister(Register(list, desc, ops, true).1, desc) == (Ok, list)
  {
    var list' := [Entry(desc, ops)] + list;
    assert list'[..0] + list'[1..] == list;
  }

  /** Some codec answers a query: the type, and the cc unless that is 0. */
  predicate Answered(list: seq<Entry>, codecType: nat, cc: nat) {
    exists i :: 0 <= i < |list| && list[i].desc.codecType == codecType && (cc == 0 || list[i].desc.cc == cc)
  }

  lemma LookupFindsIffAnswered(list: seq<Entry>, codecType: nat, cc: nat)
    ensures Lookup(list, codecType, cc) < |list| <==> Answered(list, codecType, cc)
  {
    var k := Lookup(list, codecType, cc);
    if k < |list| {
      assert list[k].desc.codecType == codecType && (cc == 0 || list[k].desc.cc == cc);
    }
  }

  /** The error of a registration, and that only a successful one of an unanswered query adds: its codec, in
      front. */
  lemma RegisterErrors(list: seq<Entry>, desc: Desc, ops: nat, allocOk: bool)
    ensures var (error, list') := Register(list, desc, ops, allocOk);
            && (error == InvalidArg <==> desc.codecType == 0 || ops == 0)
            && (error == NoMemory <==>
                  desc.codecType != 0 && ops != 0 && !Answered(list, desc.codecType, desc.cc) && !allocOk)
            && error != NotExisted
            && (if error == Ok && !Answered(list, desc.codecType, desc.cc)
                then |list'| == |list| + 1 && list'[0].desc == desc && list'[0].ops == ops && list'[1..] == list
                else list' == list)
  {
    LookupFindsIffAnswered(list, desc.codecType, desc.cc);
  }

  /** The error of a removal: success exactly when a codec of that very description was there, of which the
      first is taken out and no other. */
  lemma UnregisterErrors(list: seq<Entry>, desc: Desc)
    ensures var (error, list') := Unregister(list, desc);
            var there := exists i :: 0 <= i < |list| && list[i].desc == desc;
            && (error == InvalidArg <==> desc.codecType == 0)
            && (error == Ok <==> desc.codecType != 0 && there)
            && (error == NotExisted <==> desc.codecType != 0 && !there)
            && (error != Ok ==> list' == list)
            && (error == Ok ==> exists i :: 0 <= i < |list| && list[i].desc == desc
                                  && (forall j :: 0 <= j < i ==> list[j].desc != desc)
                                  && list' == list[..i] + list[i + 1..])
  {
    var i := FirstSame(list, desc);
    assert i < |list| ==> list[i].desc == desc;
  }

  /** Registration can report success without adding: exactly when a lookup already answers the key, which
      for cc 0 any codec of the type does. */
  lemma SuccessMeansPresent(list: seq<Entry>, desc: Desc, ops: nat, allocOk: bool)
    requires Register(list, desc, ops, allocOk).0 == Ok
    ensures var list' := Register(list, desc, ops, allocOk).1;
            FirstMatch(list', desc.codecType, desc.cc) < |list'|
            <==> desc.cc != 0 || LastOfType(list, desc.codecType) == |list|
                 || FirstMatch(list, desc.codecType, 0) < |list|
  {
    var list' := Register(list, desc, ops, allocOk).1;
    if list' != list {
      assert Matches(list'[0], desc.codecType, desc.cc);
    } else if desc.cc == 0 {
      FoundByTypeOnly(list, desc.codecType);
    }
  }

  /** Success without presence: once a codec of the type with a cc is there, cc 0 of that type registers with
      success and is not in the list. */
  lemma CcZeroIsNotRegistered(first: Desc, second: Desc, ops: nat)
    requires first.codecType == second.codecType != TYPE_NONE && first.cc != 0 && second.cc == 0
    requires ops != NULL_OPS
    ensures var (h1, h2) := (Run([Add(first, ops, true)]), Run([Add(first, ops, true), Add(second, ops, true)]));
            && Register(h1.list, second, ops, true).0 == Ok
            && h2.list == h1.list == [Entry(first, ops)]
            && FirstMatch(h2.list, second.codecType, second.cc) == |h2.list|
  {
    var calls := [Add(first, ops, true), Add(second, ops, true)];
    assert calls[..1] == [Add(first, ops, true)] && calls[..1][..0] == [];
    assert Run(calls[..1]).list == [Entry(first, ops)] + [];
    assert Matches(Entry(first, ops), first.codecType, first.cc);
  }

  lemma FoundByTypeOnly(list: seq<Entry>, codecType: nat)
    requires Lookup(list, codecType, 0) < |list|
    ensures LastOfType(list, codecType) < |list|
  {
    var hw := FirstHardware(list, codecType);
    assert hw < |list| ==> list[hw].desc.codecType == codecType;
  }
}
