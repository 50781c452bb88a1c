/** HLS chunks over the data bus: [header | payload] blocks written by the fetcher thread, taken apart
    by a reader that serves reads of any size (esp_hls_stream/src/hls_io.c:294-400, 426-479). */
module HlsFraming {
  import opened Bytes

  const META_SIZE: nat := 12            // sizeof(hls_meta_info_t)
  const READ_BLOCK_SIZE: nat := 512     // HLS_READ_BLOCK_SIZE

  /** One write: `pad` is the padding after bos, which the code leaves as it finds it. */
  datatype Chunk = Chunk(bos: bool, pad: seq<byte>, format: nat, payload: seq<byte>)

  datatype Meta = Meta(bos: bool, format: nat, validSize: nat)

  predicate ChunkOk(c: Chunk) {
    |c.pad| == 3 && c.format < Pow256(4) && |c.payload| <= READ_BLOCK_SIZE
  }

  predicate AllOk(chunks: seq<Chunk>) {
    forall i :: 0 <= i < |chunks| ==> ChunkOk(chunks[i])
  }

  function EncodeMeta(c: Chunk): seq<byte> {
    [if c.bos then 1 else 0] + c.pad + LittleEndian(4, c.format) + LittleEndian(4, |c.payload|)
  }

  function DecodeMeta(b: seq<byte>): Meta
    requires |b| == META_SIZE
  {
    Meta(b[0] != 0, FromLittleEndian(b[4..8]), FromLittleEndian(b[8..12]))
  }

  function EncodeChunks(chunks: seq<Chunk>): seq<byte> {
    if chunks == [] then [] else EncodeMeta(chunks[0]) + chunks[0].payload + EncodeChunks(chunks[1..])
  }

  function Payloads(chunks: seq<Chunk>): seq<byte> {
    if chunks == [] then [] else Payloads(chunks[..|chunks| - 1]) + chunks[|chunks| - 1].payload
  }

  /** The formats of the chunks that begin a file segment. */
  function Segments(chunks: seq<Chunk>): seq<nat> {
    if chunks == [] then []
    else Segments(chunks[..|chunks| - 1])
         + if chunks[|chunks| - 1].bos then [chunks[|chunks| - 1].format] else []
  }

  lemma MetaRoundTrip(c: Chunk)
    requires ChunkOk(c)
    ensures |EncodeMeta(c)| == META_SIZE
    ensures DecodeMeta(EncodeMeta(c)) == Meta(c.bos, c.format, |c.payload|)
  {
    var b := EncodeMeta(c);
    assert b[4..8] == LittleEndian(4, c.format);
    assert b[8..12] == LittleEndian(4, |c.payload|);
    assert Pow256(4) == 256 * Pow256(3) && Pow256(3) == 256 * Pow256(2) && Pow256(2) == 256 * Pow256(1);
    LittleEndianRoundTrip(4, c.format);
    LittleEndianRoundTrip(4, |c.payload|);
  }

  lemma {:induction false} PayloadsConcat(a: seq<Chunk>, b: seq<Chunk>)
    ensures Payloads(a + b) == Payloads(a) + Payloads(b)
    decreases |b|
  {
    if b == [] {
      assert a + b == a;
      assert Payloads(a) + [] == Payloads(a);
    } else {
      var last := |b| - 1;
      assert (a + b)[..|a + b| - 1] == a + b[..last];
      PayloadsConcat(a, b[..last]);
      ConcatAssociates(Payloads(a), Payloads(b[..last]), b[last].payload);
    }
  }

  lemma {:induction false} SegmentsConcat(a: seq<Chunk>, b: seq<Chunk>)
    ensures Segments(a + b) == Segments(a) + Segments(b)
    decreases |b|
  {
    if b == [] {
      assert a + b == a;
      assert Segments(a) + [] == Segments(a);
    } else {
      var most, c := b[..|b| - 1], b[|b| - 1];
      assert (a + b)[..|a + b| - 1] == a + most;
      SegmentsConcat(a, most);
      var format := if c.bos then [c.format] else [];
      assert Segments(a) + Segments(most) + format == Segments(a) + (Segments(most) + format);
    }
  }

  /** A header byte for byte: bos, three bytes of padding, format, payload size. */
  lemma HeaderLayout(pad: seq<byte>, payload: seq<byte>)
    requires |pad| == 3 && |payload| == 0x0102
    ensures EncodeMeta(Chunk(true, pad, 0x0304, payload)) == [1] + pad + [4, 3, 0, 0, 2, 1, 0, 0]
    ensures EncodeMeta(Chunk(false, pad, 0x0304, payload)) == [0] + pad + [4, 3, 0, 0, 2, 1, 0, 0]
  {
    assert LittleEndian(2, 0) == [0] + [0] && LittleEndian(1, 0) == [0] + [];
    assert LittleEndian(3, 3) == [3] + [0, 0] && LittleEndian(3, 1) == [1] + [0, 0];
    assert LittleEndian(4, 0x0304) == [4] + [3, 0, 0] && LittleEndian(4, 0x0102) == [2] + [1, 0, 0];
  }

  /** Where a reader is in a stream of chunks: `headers` of them have been read; `remain` bytes of the
      last of those are still to come, and lead what is unread; what was delivered, with them, is the
      payload of those chunks; every segment among them, and no other, has been announced. */
  ghost predicate Framed(written: seq<Chunk>, headers: nat, unread: seq<byte>, remain: nat,
                         delivered: seq<byte>, announced: seq<nat>)
  {
    && AllOk(written) && headers <= |written|
    && remain <= |unread|
    && (remain > 0 ==> headers > 0 && remain <= |written[headers - 1].payload|)
    && unread[remain..] == EncodeChunks(written[headers..])
    && delivered + unread[..remain] == Payloads(written[..headers])
    && announced == Segments(written[..headers])
  }

  /** What is delivered is always a prefix of the payloads, and no header byte; all of them when the
      unread stream is empty. The segments announced are those of the chunks begun. */
  lemma DeliveredIsPrefix(written: seq<Chunk>, headers: nat, unread: seq<byte>, remain: nat,
                          delivered: seq<byte>, announced: seq<nat>)
    requires Framed(written, headers, unread, remain, delivered, announced)
    ensures delivered <= Payloads(written)
    ensures |delivered| + remain == |Payloads(written[..headers])|
    ensures unread == [] ==> delivered == Payloads(written)
  {
    PayloadsConcat(written[..headers], written[headers..]);
    assert written[..headers] + written[headers..] == written;
    if unread == [] {
      ChunksHaveBytes(written[headers..]);
      assert delivered + [] == delivered;
    } else {
      assert delivered <= delivered + unread[..remain] <= Payloads(written);
    }
  }

  lemma ChunksHaveBytes(chunks: seq<Chunk>)
    ensures chunks != [] ==> |EncodeChunks(chunks)| > 0
  {
    if chunks != [] {
      assert |EncodeMeta(chunks[0])| > 0;
    }
  }

  lemma TakeAndDrop(a: seq<byte>, b: seq<byte>)
    ensures (a + b)[..|a|] == a && (a + b)[|a|..] == b
  {
  }

  lemma {:induction false} HeaderLeads(todo: seq<Chunk>, unread: seq<byte>)
    requires AllOk(todo) && todo != [] && unread == EncodeChunks(todo)
    ensures var c := todo[0];
            && |unread| >= META_SIZE
            && DecodeMeta(unread[..META_SIZE]) == Meta(c.bos, c.format, |c.payload|)
            && unread[META_SIZE..] == c.payload + EncodeChunks(todo[1..])
  {
    MetaRoundTrip(todo[0]);
    var meta, later := EncodeMeta(todo[0]), todo[0].payload + EncodeChunks(todo[1..]);
    ConcatAssociates(meta, todo[0].payload, EncodeChunks(todo[1..]));
    TakeAndDrop(meta, later);
  }

  /** Reading the twelve bytes at a chunk boundary yields the next chunk's header. */
  lemma HeaderStep(written: seq<Chunk>, headers: nat, unread: seq<byte>, delivered: seq<byte>, announced: seq<nat>)
    requires Framed(written, headers, unread, 0, delivered, announced) && |unread| >= META_SIZE
    ensures headers < |written|
    ensures var c := written[headers];
            && DecodeMeta(unread[..META_SIZE]) == Meta(c.bos, c.format, |c.payload|)
            && Framed(written, headers + 1, unread[META_SIZE..], |c.payload|, delivered,
                      if c.bos then announced + [c.format] else announced)
  {
    var todo := written[headers..];
    assert unread == unread[0..] == EncodeChunks(todo);
    var c := todo[0];
    HeaderLeads(todo, unread);
    assert todo[1..] == written[headers + 1..];
    var begun := written[..headers + 1];
    assert begun[..headers] == written[..headers] && begun[headers] == c;
    assert delivered == delivered + unread[..0];
    assert announced + [] == announced;
  }

  /** Delivering some of the current chunk's bytes. */
  lemma PieceStep(written: seq<Chunk>, headers: nat, unread: seq<byte>, remain: nat,
                  delivered: seq<byte>, announced: seq<nat>, got: nat)
    requires Framed(written, headers, unread, remain, delivered, announced) && got <= remain
    ensures Framed(written, headers, unread[got..], remain - got, delivered + unread[..got], announced)
  {
    assert unread[..remain] == unread[..got] + unread[got..][..remain - got];
    assert delivered + (unread[..got] + unread[got..][..remain - got])
        == (delivered + unread[..got]) + unread[got..][..remain - got];
    assert unread[got..][remain - got..] == unread[remain..];
  }
}
