/** The registry's linked list of heap nodes, each routine proved to be its CodecList function. */
module CodecRegistry {
  import opened Wrappers
  import opened CodecList

  class Node {
    var next: Node?
    const entry: Entry

    constructor (entry: Entry)
      ensures this.entry == entry && next == null
    {
      this.entry := entry;
      next := null;
    }
  }

  class Registry {
    var libs: Node?
    ghost var nodes: seq<Node>  // the list, in order

    static ghost predicate LinkedAt(nodes: seq<Node>, i: nat)
      requires i < |nodes|
      reads nodes[i]
    {
      nodes[i].next == if i + 1 < |nodes| then nodes[i + 1] else null
    }

    /** The nodes are linked in order, end in null, and none occurs twice: the list is acyclic. */
    ghost predicate Valid()
      reads this, nodes
    {
      && libs == (if nodes == [] then null else nodes[0])
      && (forall i :: 0 <= i < |nodes| ==> LinkedAt(nodes, i))
      && (forall i, j :: 0 <= i < j < |nodes| ==> nodes[i] != nodes[j])
    }

    ghost function View(): (list: seq<Entry>)
      reads this
      ensures |list| == |nodes| && forall i :: 0 <= i < |list| ==> list[i] == nodes[i].entry
    {
      seq(|nodes|, i requires 0 <= i < |nodes| reads this => nodes[i].entry)
    }

    constructor ()
      ensures Valid() && View() == []
    {
      libs, nodes := null, [];
    }

    ghost function NodeAt(i: nat): Node?
      reads this
      requires i <= |nodes|
    {
      if i < |nodes| then nodes[i] else null
    }

    /** lib_exists: one pass that remembers the latest entry of the type. */
    method LibExists(codecType: nat, cc: nat) returns (found: Node?)
      requires Valid()
      ensures found == NodeAt(Lookup(View(), codecType, cc))
    {
      var cur, valid := libs, null;
      ghost var i: nat := 0;
      ghost var v: nat := |nodes|;
      while cur != null
        invariant i <= |nodes| && cur == NodeAt(i) && v <= |nodes| && valid == NodeAt(v)
        invariant cc != 0 ==> FirstMatch(View(), codecType, cc) >= i
        invariant cc == 0 ==> FirstHardware(View(), codecType) >= i
        invariant v < |nodes| ==> v < i && View()[v].desc.codecType == codecType
        invariant cc == 0 ==>
          forall j :: 0 <= j < i && (v < j || v == |nodes|) ==> View()[j].desc.codecType != codecType
        decreases |nodes| - i
      {
        assert View()[i] == cur.entry && LinkedAt(nodes, i);
        if cur.entry.desc.codecType == codecType {
          if cc != 0 {
            if cc == cur.entry.desc.cc {
              return cur;
            }
          } else {
            valid, v := cur, i;
            if cur.entry.desc.isHw {
              return cur;
            }
          }
        }
        cur, i := cur.next, i + 1;
      }
      found := if cc == 0 then valid else null;
      if cc == 0 {
        LastOfTypeIs(View(), codecType, v);
      }
    }

    /** add_libs. */
    method AddLibs(desc: Desc, ops: nat, allocOk: bool) returns (err: Error)
      requires Valid()
      modifies this
      ensures Valid() && (err, View()) == Register(old(View()), desc, ops, allocOk)
      ensures fresh(set n | n in nodes && n !in old(nodes))
    {
      if desc.codecType == TYPE_NONE || ops == NULL_OPS {
        return InvalidArg;
      }
      var present := LibExists(desc.codecType, desc.cc);
      if present != null {
        return Ok;
      }
      if !allocOk {
        return NoMemory;
      }
      var item := new Node(Entry(desc, ops));
      item.next := libs;
      libs, nodes := item, [item] + nodes;
      forall i | 0 <= i < |nodes| ensures LinkedAt(nodes, i) {
        assert i > 0 ==> old(LinkedAt(nodes, i - 1)) && nodes[i] == old(nodes)[i - 1];
      }
      assert View() == [Entry(desc, ops)] + old(View());
      return Ok;
    }

    /** remove_libs. */
    method RemoveLibs(desc: Desc) returns (err: Error)
      requires Valid()
      modifies this, nodes
      ensures Valid() && (err, View()) == Unregister(old(View()), desc)
      ensures forall n :: n in nodes ==> n in old(nodes)
    {
      if desc.codecType == TYPE_NONE {
        return InvalidArg;
      }
      var pre: Node?, cur := null, libs;
      ghost var i: nat := 0;
      while cur != null && cur.entry.desc != desc
        invariant i <= |nodes| && cur == NodeAt(i) && pre == (if i == 0 then null else nodes[i - 1])
        invariant forall j :: 0 <= j < i ==> View()[j].desc != desc
        decreases |nodes| - i
      {
        assert View()[i] == cur.entry && LinkedAt(nodes, i);
        pre, cur, i := cur, cur.next, i + 1;
      }
      if cur == null {
        return NotExisted;
      }
      Unlink(pre, cur, i);
      return Ok;
    }

    method Unlink(pre: Node?, cur: Node, ghost i: nat)
      requires Valid() && i < |nodes| && cur == nodes[i] && pre == (if i == 0 then null else nodes[i - 1])
      modifies this, nodes
      ensures Valid() && nodes == Delete(old(nodes), i) && View() == Delete(old(View()), i)
    {
      ghost var was := nodes;
      assert LinkedAt(nodes, i);
      if pre == null {
        libs := cur.next;
      } else {
        pre.next := cur.next;
      }
      nodes := Delete(nodes, i);
      forall j | 0 <= j < |nodes| ensures LinkedAt(nodes, j) {
        assert old(LinkedAt(nodes, if j < i then j else j + 1));
      }
    }

    /** get_ops. */
    method GetOps(codecType: nat, cc: nat) returns (ops: nat)
      requires Valid()
      ensures var k := Lookup(View(), codecType, cc); ops == if k < |nodes| then View()[k].ops else NULL_OPS
    {
      var item := LibExists(codecType, cc);
      ops := if item == null then NULL_OPS else item.entry.ops;
    }

    /** get_codec_desc; the running index is a uint8_t. */
    method GetCodecDesc(idx: nat) returns (err: Error, desc: Option<Desc>)
      requires Valid() && idx < 256
      ensures if idx < |nodes| then err == Ok && desc == Some(View()[idx].desc) else err == NotExisted && desc == None
    {
      var item, curIdx := libs, 0;
      ghost var i: nat := 0;
      while item != null
        invariant i <= |nodes| && item == NodeAt(i) && i <= idx && curIdx == i
        decreases |nodes| - i
      {
        if curIdx == idx {
          return Ok, Some(item.entry.desc);
        }
        assert LinkedAt(nodes, i);
        curIdx := (curIdx + 1) % 256;
        item, i := item.next, i + 1;
      }
      return NotExisted, None;
    }
  }
}
