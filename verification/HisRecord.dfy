/** The byte format of the allocation history: malloc_detail_t with its stack frames, free_detail_t
    (media_lib_mem_his.c:27-40, 218-241), and a strict reader of it, which takes whole records only, for
    pointers of any width. What mem_trace.pl makes of the same bytes is in TraceScript. */
module HisRecord {
  import opened Wrappers
  import opened Bytes

  datatype Record = Malloc(addr: nat, size: nat, flag: byte, stack: seq<nat>) | Free(addr: nat)

  const MALLOC_ACT: byte := 43  // '+'
  const FREE_ACT: byte := 45    // '-'

  /** What the C types can hold: pointers of p bytes, a uint32_t size, a uint8_t frame count. */
  predicate Fits(p: nat, r: Record) {
    && r.addr < Pow256(p)
    && (r.Malloc? ==>
          && r.size < Pow256(4) && |r.stack| < 256
          && forall i :: 0 <= i < |r.stack| ==> r.stack[i] < Pow256(p))
  }

  /** count * p: the size of count pointers (see ExtentIsProduct). */
  function Extent(p: nat, count: nat): nat {
    if count == 0 then 0 else p + Extent(p, count - 1)
  }

  lemma {:induction false} ExtentIsProduct(p: nat, count: nat)
    ensures Extent(p, count) == count * p
  {
    if count > 0 {
      ExtentIsProduct(p, count - 1);
      assert count * p == p + (count - 1) * p;
    }
  }

  function EncodeWords(p: nat, words: seq<nat>): (b: seq<byte>)
    ensures |b| == Extent(p, |words|)
  {
    if words == [] then [] else LittleEndian(p, words[0]) + EncodeWords(p, words[1..])
  }

  function DecodeWords(p: nat, count: nat, b: seq<byte>): (words: seq<nat>)
    requires |b| == Extent(p, count)
    decreases count
  {
    if count == 0 then [] else [FromLittleEndian(b[..p])] + DecodeWords(p, count - 1, b[p..])
  }

  /** The fixed part of a record; `junk` is its reserved byte, which the code leaves unset. */
  function Detail(p: nat, r: Record, junk: byte): (b: seq<byte>)
    ensures |b| == if r.Malloc? then 8 + p else 2 + p
  {
    match r
    case Malloc(addr, size, flag, stack) =>
      [MALLOC_ACT, |stack| % 256, flag, junk] + LittleEndian(p, addr) + LittleEndian(4, size)
    case Free(addr) => [FREE_ACT, junk] + LittleEndian(p, addr)
  }

  function Frames(p: nat, r: Record): seq<byte> {
    match r
    case Malloc(_, _, _, stack) => EncodeWords(p, stack)
    case Free(_) => []
  }

  function Encode(p: nat, r: Record, junk: byte): seq<byte>
  {
    Detail(p, r, junk) + Frames(p, r)
  }

  /** The first record of b and its length, if b starts with a whole record. */
  function DecodeOne(p: nat, b: seq<byte>): Option<(Record, nat)> {
    if b != [] && b[0] == MALLOC_ACT && |b| >= 8 + p && |b| >= 8 + p + Extent(p, b[1]) then
      var end := 8 + p + Extent(p, b[1]);
      Some((Malloc(FromLittleEndian(b[4..4 + p]), FromLittleEndian(b[4 + p..8 + p]), b[2],
                   DecodeWords(p, b[1], b[8 + p..end])), end))
    else if b != [] && b[0] == FREE_ACT && |b| >= 2 + p then
      Some((Free(FromLittleEndian(b[2..2 + p])), 2 + p))
    else None
  }

  /** The records of a file, up to the first byte that starts no whole record. */
  function Decode(p: nat, b: seq<byte>): seq<Record>
    decreases |b|
  {
    match DecodeOne(p, b)
    case None => []
    case Some((r, length)) => [r] + Decode(p, b[length..])
  }

  /** Both records with 4-byte pointers, byte for byte. */
  lemma RecordLayout(junk: byte)
    ensures Encode(4, Malloc(0x3FFB1234, 0x0105, 7, [0x400D5678]), junk)
            == [43, 1, 7, junk] + [0x34, 0x12, 0xFB, 0x3F] + [5, 1, 0, 0] + [0x78, 0x56, 0x0D, 0x40]
    ensures Encode(4, Free(0x3FFB1234), junk) == [45, junk] + [0x34, 0x12, 0xFB, 0x3F]
  {
    var r := Malloc(0x3FFB1234, 0x0105, 7, [0x400D5678]);
    WordBytes(0x3FFB1234, 0x34, 0x12, 0xFB, 0x3F);
    WordBytes(0x0105, 5, 1, 0, 0);
    WordBytes(0x400D5678, 0x78, 0x56, 0x0D, 0x40);
    assert Detail(4, r, junk) == [43, 1, 7, junk] + [0x34, 0x12, 0xFB, 0x3F] + [5, 1, 0, 0];
    OneWord(4, 0x400D5678);
    var f: Record := Free(0x3FFB1234);
    assert Detail(4, f, junk) == [45, junk] + [0x34, 0x12, 0xFB, 0x3F];
    assert Detail(4, f, junk) + [] == Detail(4, f, junk);
  }

  lemma OneWord(p: nat, word: nat)
    ensures EncodeWords(p, [word]) == LittleEndian(p, word)
  {
    assert LittleEndian(p, word) + [] == LittleEndian(p, word);
  }

  /** A word lies in memory with its lowest byte first. */
  lemma WordBytes(x: nat, a: byte, b: byte, c: byte, d: byte)
    requires x == a + 256 * (b + 256 * (c + 256 * d))
    ensures LittleEndian(4, x) == [a, b, c, d] && FromLittleEndian([a, b, c, d]) == x
  {
    assert LittleEndian(1, d) == [d] + [];
    assert LittleEndian(2, c + 256 * d) == [c] + [d];
    assert LittleEndian(3, b + 256 * (c + 256 * d)) == [b] + [c, d];
    assert [c, d][1..] == [d] && [b, c, d][1..] == [c, d] && [a, b, c, d][1..] == [b, c, d];
    assert [d][1..] == [];
    assert FromLittleEndian([d]) == d + 256 * FromLittleEndian([]);
    assert FromLittleEndian([c, d]) == c + 256 * d;
    assert FromLittleEndian([b, c, d]) == b + 256 * (c + 256 * d);
  }

  predicate AllFit(p: nat, log: seq<(Record, byte)>) {
    forall i :: 0 <= i < |log| ==> Fits(p, log[i].0)
  }

  function EncodeAll(p: nat, log: seq<(Record, byte)>): seq<byte>
  {
    if log == [] then [] else Encode(p, log[0].0, log[0].1) + EncodeAll(p, log[1..])
  }

  function Records(log: seq<(Record, byte)>): seq<Record> {
    seq(|log|, i requires 0 <= i < |log| => log[i].0)
  }

  lemma {:induction false} WordsRoundTrip(p: nat, words: seq<nat>)
    requires forall i :: 0 <= i < |words| ==> words[i] < Pow256(p)
    ensures DecodeWords(p, |words|, EncodeWords(p, words)) == words
  {
    if words != [] {
      LittleEndianRoundTrip(p, words[0]);
      WordsRoundTrip(p, words[1..]);
      var b := EncodeWords(p, words);
      assert b[..p] == LittleEndian(p, words[0]);
      assert b[p..] == EncodeWords(p, words[1..]);
    }
  }

  lemma FieldsOf(head: seq<byte>, addr: seq<byte>, size: seq<byte>, words: seq<byte>, tail: seq<byte>)
    ensures var b, i := head + addr + size + words + tail, |head| + |addr|;
            && b[..|head|] == head && b[|head|..i] == addr && b[i..i + |size|] == size
            && b[i + |size|..i + |size| + |words|] == words
  {
  }

  lemma MallocRoundTrip(p: nat, r: Record, junk: byte, tail: seq<byte>)
    requires Fits(p, r) && r.Malloc?
    ensures DecodeOne(p, Encode(p, r, junk) + tail) == Some((r, |Encode(p, r, junk)|))
  {
    var b := Encode(p, r, junk) + tail;
    var addr, size, words := LittleEndian(p, r.addr), LittleEndian(4, r.size), EncodeWords(p, r.stack);
    var head: seq<byte> := [MALLOC_ACT, |r.stack| % 256, r.flag, junk];
    assert b == head + addr + size + words + tail;
    FieldsOf(head, addr, size, words, tail);
    assert b[0] == b[..4][0] && b[1] == b[..4][1] == |r.stack| && b[2] == b[..4][2];
    LittleEndianRoundTrip(p, r.addr);
    LittleEndianRoundTrip(4, r.size);
    WordsRoundTrip(p, r.stack);
  }

  lemma FreeRoundTrip(p: nat, r: Record, junk: byte, tail: seq<byte>)
    requires Fits(p, r) && r.Free?
    ensures DecodeOne(p, Encode(p, r, junk) + tail) == Some((r, |Encode(p, r, junk)|))
  {
    var b := Encode(p, r, junk) + tail;
    assert b[2..2 + p] == LittleEndian(p, r.addr);
    LittleEndianRoundTrip(p, r.addr);
  }

  /** A whole record is read back exactly, whatever follows it. */
  lemma RecordRoundTrip(p: nat, r: Record, junk: byte, tail: seq<byte>)
    requires Fits(p, r)
    ensures DecodeOne(p, Encode(p, r, junk) + tail) == Some((r, |Encode(p, r, junk)|))
  {
    if r.Malloc? {
      MallocRoundTrip(p, r, junk, tail);
    } else {
      FreeRoundTrip(p, r, junk, tail);
    }
  }

  /** A record cut short is not taken for a record. */
  lemma CutRecordIsRejected(p: nat, r: Record, junk: byte, b: seq<byte>)
    requires Fits(p, r) && b < Encode(p, r, junk)
    ensures DecodeOne(p, b) == None
  {
    if b != [] {
      assert b[0] == Encode(p, r, junk)[0];
      if r.Malloc? && |b| >= 8 + p {
        assert b[1] == Encode(p, r, junk)[1] == |r.stack|;
      }
    }
  }

  lemma DecodeConsumesRecord(p: nat, r: Record, junk: byte, tail: seq<byte>)
    requires Fits(p, r)
    ensures Decode(p, Encode(p, r, junk) + tail) == [r] + Decode(p, tail)
  {
    RecordRoundTrip(p, r, junk, tail);
    assert (Encode(p, r, junk) + tail)[|Encode(p, r, junk)|..] == tail;
  }

  lemma PrefixOfConcat(first: seq<byte>, later: seq<byte>, b: seq<byte>)
    requires b <= first + later
    ensures if |b| < |first| then b < first
            else b == first + b[|first|..] && b[|first|..] <= later
  {
    if |b| < |first| {
      assert b == (first + later)[..|b|] == first[..|b|];
    } else {
      assert b[..|first|] == first;
      assert b[|first|..] == later[..|b| - |first|];
    }
  }

  /** A prefix of a log ends inside its first record, or holds it whole and a prefix of the rest. */
  lemma PrefixCases(p: nat, log: seq<(Record, byte)>, b: seq<byte>) returns (tail: seq<byte>)
    requires AllFit(p, log) && log != [] && b <= EncodeAll(p, log)
    ensures var first := Encode(p, log[0].0, log[0].1);
            if |b| < |first| then Decode(p, b) == []
            else && b == first + tail && tail <= EncodeAll(p, log[1..])
                 && Decode(p, b) == [log[0].0] + Decode(p, tail)
  {
    var first := Encode(p, log[0].0, log[0].1);
    PrefixOfConcat(first, EncodeAll(p, log[1..]), b);
    if |b| < |first| {
      CutRecordIsRejected(p, log[0].0, log[0].1, b);
      tail := [];
    } else {
      tail := b[|first|..];
      DecodeConsumesRecord(p, log[0].0, log[0].1, tail);
    }
  }

  /** Unique decodability: the bytes of a log give back its records. */
  lemma {:induction false} LogRoundTrip(p: nat, log: seq<(Record, byte)>)
    requires AllFit(p, log)
    ensures Decode(p, EncodeAll(p, log)) == Records(log)
  {
    if log != [] {
      DecodeConsumesRecord(p, log[0].0, log[0].1, EncodeAll(p, log[1..]));
      LogRoundTrip(p, log[1..]);
      assert Records(log) == [log[0].0] + Records(log[1..]);
    }
  }

  /** Any prefix of a log, cut anywhere, decodes to the records it holds whole, in order. */
  lemma {:induction false} PrefixDecodes(p: nat, log: seq<(Record, byte)>, b: seq<byte>)
    requires AllFit(p, log) && b <= EncodeAll(p, log)
    ensures Decode(p, b) <= Records(log)
    decreases |log|
  {
    if log == [] {
      assert b == [];
    } else {
      var tail := PrefixCases(p, log, b);
      if |b| >= |Encode(p, log[0].0, log[0].1)| {
        PrefixDecodes(p, log[1..], tail);
        assert Records(log) == [log[0].0] + Records(log[1..]);
      }
    }
  }

  lemma EncodeAllCons(p: nat, log: seq<(Record, byte)>, n: nat)
    requires 0 < n <= |log|
    ensures EncodeAll(p, log[..n]) == Encode(p, log[0].0, log[0].1) + EncodeAll(p, log[1..][..n - 1])
  {
    assert log[..n][1..] == log[1..][..n - 1];
  }

  /** ... and misses none: the next record is not whole in the prefix. */
  lemma {:induction false} PrefixDecodesAllWholeRecords(p: nat, log: seq<(Record, byte)>, b: seq<byte>)
    requires AllFit(p, log) && b <= EncodeAll(p, log)
    ensures |Decode(p, b)| < |log| ==> |b| < |EncodeAll(p, log[..|Decode(p, b)| + 1])|
    decreases |log|
  {
    if log == [] {
      assert b == [];
    } else {
      var tail := PrefixCases(p, log, b);
      var whole := |Decode(p, b)|;
      if whole < |log| {
        EncodeAllCons(p, log, whole + 1);
        if |b| >= |Encode(p, log[0].0, log[0].1)| {
          PrefixDecodesAllWholeRecords(p, log[1..], tail);
        }
      }
    }
  }

  lemma EncodeAllOne(p: nat, only: (Record, byte))
    ensures EncodeAll(p, [only]) == Encode(p, only.0, only.1)
  {
    assert EncodeAll(p, [only][1..]) == [];
    assert Encode(p, only.0, only.1) + [] == Encode(p, only.0, only.1);
  }

  /** Logging one more record appends its bytes. */
  lemma {:induction false} EncodeAllSnoc(p: nat, log: seq<(Record, byte)>, last: (Record, byte))
    ensures EncodeAll(p, log + [last]) == EncodeAll(p, log) + Encode(p, last.0, last.1)
  {
    if log == [] {
      EncodeAllOne(p, last);
      assert log + [last] == [last];
      assert [] + Encode(p, last.0, last.1) == Encode(p, last.0, last.1);
    } else {
      EncodeAllSnoc(p, log[1..], last);
      assert (log + [last])[1..] == log[1..] + [last];
      ConcatAssociates(Encode(p, log[0].0, log[0].1), EncodeAll(p, log[1..]), Encode(p, last.0, last.1));
    }
  }
}
