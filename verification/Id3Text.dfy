/** Text and integers of ID3 tags as the parser reads them (esp_extractor_id3_parser.c:34-110). */
module Id3Text {
  import opened Bytes

  const NUL: byte := 0
  const SPACE: byte := 32

  function TrimEnd(b: seq<byte>, junk: set<byte>): seq<byte> {
    if b != [] && b[|b| - 1] in junk then TrimEnd(b[..|b| - 1], junk) else b
  }

  function TrimStart(b: seq<byte>, junk: set<byte>): seq<byte> {
    if b != [] && b[0] in junk then TrimStart(b[1..], junk) else b
  }

  function Trim(b: seq<byte>, junk: set<byte>): seq<byte> {
    TrimStart(TrimEnd(b, junk), junk)
  }

  function DropNuls(b: seq<byte>): seq<byte> {
    if b == [] then []
    else (if b[0] == NUL then [] else [b[0]]) + DropNuls(b[1..])
  }

  /** id3_copy_trim: NULs and spaces off both ends, then the remaining NULs out. */
  function CopyTrim(b: seq<byte>): seq<byte> {
    DropNuls(Trim(b, {NUL, SPACE}))
  }

  predicate AllIn(b: seq<byte>, junk: set<byte>) {
    forall i :: 0 <= i < |b| ==> b[i] in junk
  }

  /** Nothing left to trim at either end. */
  predicate Tight(b: seq<byte>, junk: set<byte>) {
    b != [] ==> b[0] !in junk && b[|b| - 1] !in junk
  }

  lemma {:induction false} TrimEndSplits(b: seq<byte>, junk: set<byte>) returns (tail: seq<byte>)
    ensures b == TrimEnd(b, junk) + tail && AllIn(tail, junk)
    ensures TrimEnd(b, junk) != [] ==> TrimEnd(b, junk)[|TrimEnd(b, junk)| - 1] !in junk
  {
    if b != [] && b[|b| - 1] in junk {
      var t := TrimEndSplits(b[..|b| - 1], junk);
      tail := t + [b[|b| - 1]];
      assert b == b[..|b| - 1] + [b[|b| - 1]];
    } else {
      tail := [];
    }
  }

  lemma {:induction false} TrimStartSplits(b: seq<byte>, junk: set<byte>) returns (head: seq<byte>)
    ensures b == head + TrimStart(b, junk) && AllIn(head, junk)
    ensures TrimStart(b, junk) != [] ==> TrimStart(b, junk)[0] !in junk
  {
    if b != [] && b[0] in junk {
      var h := TrimStartSplits(b[1..], junk);
      head := [b[0]] + h;
      assert b == [b[0]] + b[1..];
    } else {
      head := [];
    }
  }

  /** Trimming splits a string into junk, a tight middle, and junk. */
  lemma TrimSplits(b: seq<byte>, junk: set<byte>) returns (head: seq<byte>, tail: seq<byte>)
    ensures b == head + Trim(b, junk) + tail
    ensures AllIn(head, junk) && AllIn(tail, junk) && Tight(Trim(b, junk), junk)
  {
    tail := TrimEndSplits(b, junk);
    head := TrimStartSplits(TrimEnd(b, junk), junk);
  }

  lemma {:induction false} TrimEndOfPadded(m: seq<byte>, tail: seq<byte>, junk: set<byte>)
    requires AllIn(tail, junk) && (m != [] ==> m[|m| - 1] !in junk)
    ensures TrimEnd(m + tail, junk) == m
    decreases |tail|
  {
    if tail != [] {
      assert (m + tail)[..|m + tail| - 1] == m + tail[..|tail| - 1];
      TrimEndOfPadded(m, tail[..|tail| - 1], junk);
    } else {
      assert m + tail == m;
    }
  }

  lemma {:induction false} TrimStartOfPadded(head: seq<byte>, m: seq<byte>, junk: set<byte>)
    requires AllIn(head, junk) && (m != [] ==> m[0] !in junk)
    ensures TrimStart(head + m, junk) == m
    decreases |head|
  {
    if head != [] {
      assert (head + m)[1..] == head[1..] + m;
      TrimStartOfPadded(head[1..], m, junk);
    } else {
      assert head + m == m;
    }
  }

  /** ... and a string so split has that middle as its trim: the split determines it. */
  lemma TrimOfPadded(head: seq<byte>, m: seq<byte>, tail: seq<byte>, junk: set<byte>)
    requires AllIn(head, junk) && AllIn(tail, junk) && Tight(m, junk)
    ensures Trim(head + m + tail, junk) == m
  {
    if m == [] {
      assert head + m + tail == [] + (head + tail);
      TrimEndOfPadded([], head + tail, junk);
    } else {
      TrimEndOfPadded(head + m, tail, junk);
      TrimStartOfPadded(head, m, junk);
    }
  }

  lemma {:induction false} DropNulsConcat(a: seq<byte>, b: seq<byte>)
    ensures DropNuls(a + b) == DropNuls(a) + DropNuls(b)
    decreases |a|
  {
    if a == [] {
      assert a + b == b;
    } else {
      assert (a + b)[1..] == a[1..] + b;
      DropNulsConcat(a[1..], b);
    }
  }

  lemma {:induction false} DropNulsProperties(b: seq<byte>)
    ensures NUL !in DropNuls(b)
    ensures NUL !in b ==> DropNuls(b) == b
    ensures AllIn(b, {NUL, SPACE}) ==> AllIn(DropNuls(b), {SPACE})
  {
    if b != [] {
      DropNulsProperties(b[1..]);
      assert b == [b[0]] + b[1..];
    }
  }

  lemma DropNulsKeepsTight(m: seq<byte>)
    requires Tight(m, {NUL, SPACE})
    ensures Tight(DropNuls(m), {NUL, SPACE})
  {
    if m != [] {
      var last := |m| - 1;
      assert m == m[..last] + [m[last]];
      DropNulsConcat(m[..last], [m[last]]);
      assert DropNuls([m[last]]) == [m[last]];
    }
  }

  /** The trim-then-drop loops compute drop-then-strip: NULs out, then spaces off both ends. */
  lemma CopyTrimIsDropThenStrip(b: seq<byte>)
    ensures CopyTrim(b) == Trim(DropNuls(b), {SPACE})
  {
    var junk := {NUL, SPACE};
    var m := Trim(b, junk);
    var head, tail := TrimSplits(b, junk);
    DropNulsConcat(head + m, tail);
    DropNulsConcat(head, m);
    DropNulsProperties(head);
    DropNulsProperties(tail);
    DropNulsKeepsTight(m);
    TrimOfPadded(DropNuls(head), DropNuls(m), DropNuls(tail), {SPACE});
  }

  /** A kept text has no NUL, no space at either end, and trimming it again changes nothing. */
  lemma CopyTrimIsClean(b: seq<byte>)
    ensures NUL !in CopyTrim(b) && Tight(CopyTrim(b), {NUL, SPACE})
    ensures CopyTrim(CopyTrim(b)) == CopyTrim(b)
  {
    var m := Trim(b, {NUL, SPACE});
    var head, tail := TrimSplits(b, {NUL, SPACE});
    DropNulsProperties(m);
    DropNulsKeepsTight(m);
    var kept := CopyTrim(b);
    TrimOfPadded([], kept, [], {NUL, SPACE});
    assert [] + kept + [] == kept;
    DropNulsProperties(kept);
  }

  /** A text that keeping leaves as it is: no NUL inside, no space at either end. */
  predicate Plain(text: seq<byte>) {
    NUL !in text && Tight(text, {NUL, SPACE})
  }

  lemma PlainIsKept(text: seq<byte>)
    requires Plain(text)
    ensures CopyTrim(text) == text
  {
    TrimOfPadded([], text, [], {NUL, SPACE});
    assert [] + text + [] == text;
    DropNulsProperties(text);
  }

  // Integers.

  /** a, b, c, d as four digits of a base: shifted together, most significant first. */
  function Join256(a: int, b: int, c: int, d: int): int {
    ((a * 256 + b) * 256 + c) * 256 + d
  }

  function Join128(a: int, b: int, c: int, d: int): int {
    ((a * 128 + b) * 128 + c) * 128 + d
  }

  function Be32(d: seq<byte>): (n: nat)
    requires |d| == 4
  {
    Join256(d[0], d[1], d[2], d[3])
  }

  function Be24(d: seq<byte>): (n: nat)
    requires |d| == 3
  {
    Join256(0, d[0], d[1], d[2])
  }

  /** id3_read_syncsafe: the high bit of each byte is ignored. */
  function Syncsafe(d: seq<byte>): (n: nat)
    requires |d| == 4
    ensures n < 0x1000_0000
  {
    Join128(d[0] % 128, d[1] % 128, d[2] % 128, d[3] % 128)
  }

  function ToBe32(n: nat): seq<byte> {
    var (n1, n2, n3) := (n / 256, n / 256 / 256, n / 256 / 256 / 256);
    [n3 % 256, n2 % 256, n1 % 256, n % 256]
  }

  function ToBe24(n: nat): seq<byte> {
    ToBe32(n)[1..]
  }

  function ToSyncsafe(n: nat): seq<byte> {
    var (n1, n2, n3) := (n / 128, n / 128 / 128, n / 128 / 128 / 128);
    [n3 % 128, n2 % 128, n1 % 128, n % 128]
  }

  predicate SevenBit(d: seq<byte>) {
    |d| == 4 && forall i :: 0 <= i < 4 ==> d[i] < 128
  }

  /** Most significant byte first; seven bits of each for syncsafe integers. */
  lemma IntegerLayout()
    ensures Be32([0x12, 0x34, 0x56, 0x78]) == 0x12345678 && Be24([0x12, 0x34, 0x56]) == 0x123456
    ensures Syncsafe([0, 0, 2, 1]) == 257 && Syncsafe([0x80, 0x80, 0x82, 0x81]) == 257
    ensures ToBe32(0x12345678) == [0x12, 0x34, 0x56, 0x78] && ToBe24(0x123456) == [0x12, 0x34, 0x56]
    ensures ToSyncsafe(257) == [0, 0, 2, 1]
  {
  }

  /** On 7-bit bytes the mask does nothing. */
  lemma SyncsafeOfSevenBit(d: seq<byte>)
    requires SevenBit(d)
    ensures Syncsafe(d) == Join128(d[0], d[1], d[2], d[3])
  {
  }

  lemma DigitsJoin(n: nat)
    requires n < 0x1000_0000
    ensures var (n1, n2, n3) := (n / 128, n / 128 / 128, n / 128 / 128 / 128);
            Join128(n3 % 128, n2 % 128, n1 % 128, n % 128) == n
  {
    var n1, n2, n3 := n / 128, n / 128 / 128, n / 128 / 128 / 128;
    assert n == n1 * 128 + n % 128 && n1 == n2 * 128 + n1 % 128 && n2 == n3 * 128 + n2 % 128 && n3 < 128;
  }

  lemma SyncsafeWritesRead(n: nat)
    requires n < 0x1000_0000
    ensures SevenBit(ToSyncsafe(n)) && Syncsafe(ToSyncsafe(n)) == n
  {
    DigitsJoin(n);
    SyncsafeOfSevenBit(ToSyncsafe(n));
  }

  lemma SyncsafeReadsWritten(d: seq<byte>)
    requires SevenBit(d)
    ensures ToSyncsafe(Syncsafe(d)) == d
  {
    var n := Syncsafe(d);
    var n2 := d[0] as int * 128 + d[1];
    var n1 := n2 * 128 + d[2];
    assert n == n1 * 128 + d[3];
    assert n / 128 == n1 && n1 / 128 == n2 && n2 / 128 == d[0];
  }

  /** Syncsafe reading is a bijection from four 7-bit bytes onto [0, 2^28). */
  lemma SyncsafeBijection(n: nat, d: seq<byte>)
    ensures n < 0x1000_0000 ==> SevenBit(ToSyncsafe(n)) && Syncsafe(ToSyncsafe(n)) == n
    ensures SevenBit(d) ==> ToSyncsafe(Syncsafe(d)) == d
  {
    if n < 0x1000_0000 {
      SyncsafeWritesRead(n);
    }
    if SevenBit(d) {
      SyncsafeReadsWritten(d);
    }
  }

  lemma BytesJoin(n: nat)
    requires n < 0x1_0000_0000
    ensures var (n1, n2, n3) := (n / 256, n / 256 / 256, n / 256 / 256 / 256);
            Join256(n3 % 256, n2 % 256, n1 % 256, n % 256) == n && (n < 0x100_0000 ==> n3 == 0)
  {
    var n1, n2, n3 := n / 256, n / 256 / 256, n / 256 / 256 / 256;
    assert n == n1 * 256 + n % 256 && n1 == n2 * 256 + n1 % 256 && n2 == n3 * 256 + n2 % 256 && n3 < 256;
  }

  lemma Be32RoundTrip(n: nat)
    requires n < 0x1_0000_0000
    ensures Be32(ToBe32(n)) == n
  {
    BytesJoin(n);
  }

  lemma Be24RoundTrip(n: nat)
    requires n < 0x100_0000
    ensures Be24(ToBe24(n)) == n
  {
    BytesJoin(n);
  }
}
