/** The HLS reader and writer as they run, over a bus that may deliver any part of what is asked, or
    nothing (esp_hls_stream/src/hls_io.c:294-400, 426-479, 505-513). */
module HlsIo {
  import opened Bytes
  import opened HlsFraming

  const HLS_MAX_RETRY_COUNT: int := 200

  datatype Status = Ok | BusError | BadHeader

  /** The reading side of the data bus. `unread` is everything the writer has put or will put on it and
      the reader has not taken; what has not arrived yet shows as a failed or shorter acquire. */
  class DataBus {
    var unread: seq<byte>
    ghost var marks: nat      // how many pieces it has marked as last
    ghost var refusals: nat   // how many acquires it has refused

    constructor (stream: seq<byte>)
      ensures unread == stream && marks == refusals == 0
    {
      unread := stream;
      marks, refusals := 0, 0;
    }

    /** A non-empty prefix of at most `want` bytes, or an error that takes nothing. The bus marks as last
        only the block that ends a finished stream. */
    method AcquireRead(want: nat) returns (ok: bool, piece: seq<byte>, isLast: bool)
      requires want > 0
      modifies this
      ensures !ok ==> unread == old(unread)
      ensures ok ==> 0 < |piece| <= want && |piece| <= |old(unread)|
      ensures ok ==> piece == old(unread)[..|piece|] && unread == old(unread)[|piece|..]
      ensures ok && isLast ==> unread == []
      ensures marks == old(marks) + (if ok && isLast then 1 else 0)
      ensures refusals == old(refusals) + (if ok then 0 else 1)
    {
      ok, isLast := *, *;
      if !ok || unread == [] {
        refusals := refusals + 1;
        return false, [], false;
      }
      var n :| 1 <= n <= want && n <= |unread|;
      piece, unread := unread[..n], unread[n..];
      isLast := isLast && unread == [];
      marks := marks + if isLast then 1 else 0;
    }

    /** A header is returned whole or not at all. */
    method AcquireHeader() returns (ok: bool, header: seq<byte>)
      modifies this`unread, this`refusals
      ensures !ok ==> unread == old(unread)
      ensures ok ==> |old(unread)| >= META_SIZE
      ensures ok ==> header == old(unread)[..META_SIZE] && unread == old(unread)[META_SIZE..]
      ensures refusals == old(refusals) + (if ok then 0 else 1)
    {
      ok := *;
      if !ok || |unread| < META_SIZE {
        refusals := refusals + 1;
        return false, [];
      }
      header, unread := unread[..META_SIZE], unread[META_SIZE..];
    }

    method Reset(stream: seq<byte>)
      modifies this`unread
      ensures unread == stream
    {
      unread := stream;
    }
  }

  class HlsReader {
    const bus: DataBus
    var mediaRemain: nat
    var announced: seq<nat>         // formats passed to file_seg_cb
    ghost var written: seq<Chunk>   // every chunk of the stream
    ghost var headers: nat          // how many of their headers have been read
    ghost var delivered: seq<byte>

    ghost predicate Valid()
      reads this, bus
    {
      Framed(written, headers, bus.unread, mediaRemain, delivered, announced)
    }

    constructor (bus: DataBus, ghost stream: seq<Chunk>)
      requires AllOk(stream) && bus.unread == EncodeChunks(stream)
      ensures Valid() && this.bus == bus && written == stream && delivered == []
    {
      this.bus, mediaRemain, announced := bus, 0, [];
      written, headers, delivered := stream, 0, [];
    }

    /** One header off the bus, its segment announced; the chunk's payload is then next. */
    method TakeHeader() returns (ok: bool, meta: Meta)
      requires Valid() && mediaRemain == 0
      modifies this`announced, this`headers, bus`unread, bus`refusals
      ensures bus.refusals == old(bus.refusals) + (if ok then 0 else 1)
      ensures !ok ==> Valid() && headers == old(headers) && bus.unread == old(bus.unread)
      ensures ok ==> headers == old(headers) + 1 <= |written| && |bus.unread| < |old(bus.unread)|
      ensures ok ==> meta.validSize == |written[headers - 1].payload| <= READ_BLOCK_SIZE
      ensures ok ==> Framed(written, headers, bus.unread, meta.validSize, delivered, announced)
    {
      ghost var before := bus.unread;
      var head;
      ok, head := bus.AcquireHeader();
      if ok {
        meta := NoteHeader(head, before);
      } else {
        meta := Meta(false, 0, 0);
      }
    }

    /** Decodes a header and announces its segment, if it begins one. */
    method NoteHeader(head: seq<byte>, ghost before: seq<byte>) returns (meta: Meta)
      requires Framed(written, headers, before, 0, delivered, announced) && |before| >= META_SIZE
      requires head == before[..META_SIZE]
      modifies this`announced, this`headers
      ensures headers == old(headers) + 1 <= |written|
      ensures meta.validSize == |written[headers - 1].payload| <= READ_BLOCK_SIZE
      ensures Framed(written, headers, before[META_SIZE..], meta.validSize, delivered, announced)
    {
      HeaderStep(written, headers, before, delivered, announced);
      meta := DecodeMeta(head);
      headers := headers + 1;
      if meta.bos {
        announced := announced + [meta.format];
      }
    }

    /** _hls_pull_next_meta: headers are taken, and segments announced, up to the first chunk with a
        payload or a bus error. The oversize check never fires. */
    method PullNextMeta() returns (status: Status)
      requires Valid() && mediaRemain == 0
      modifies this`mediaRemain, this`announced, this`headers, bus`unread, bus`refusals
      ensures Valid() && headers >= old(headers) && status != BadHeader
      ensures bus.refusals == old(bus.refusals) + (if status == BusError then 1 else 0)
      ensures status == Ok <==> mediaRemain > 0
      ensures status == Ok ==> mediaRemain == |written[headers - 1].payload|
      ensures |bus.unread| <= |old(bus.unread)|
    {
      while true
        invariant Valid() && mediaRemain == 0 && headers >= old(headers) && |bus.unread| <= |old(bus.unread)|
        invariant bus.refusals == old(bus.refusals)
        decreases |bus.unread|
      {
        var ok, meta := TakeHeader();
        if !ok {
          return BusError;
        }
        if meta.validSize > READ_BLOCK_SIZE {
          return BadHeader;
        }
        if meta.validSize > 0 {
          mediaRemain := meta.validSize;
          return Ok;
        }
      }
    }

    /** One acquire of payload bytes. */
    method TakePiece(want: nat) returns (ok: bool, piece: seq<byte>, isLast: bool)
      requires Valid() && 0 < want <= mediaRemain
      modifies this`mediaRemain, this`delivered, bus
      ensures Valid() && delivered == old(delivered) + piece && |piece| <= want
      ensures if ok then piece != [] else piece == [] && !isLast
      ensures |bus.unread| == |old(bus.unread)| - |piece|
      ensures isLast ==> bus.unread == []
      ensures bus.marks == old(bus.marks) + (if isLast then 1 else 0)
      ensures bus.refusals == old(bus.refusals) + (if ok then 0 else 1)
    {
      ok, piece, isLast := bus.AcquireRead(want);
      if !ok {
        piece, isLast := [], false;
        return;
      }
      PieceStep(written, headers, old(bus.unread), mediaRemain, delivered, announced, |piece|);
      mediaRemain := mediaRemain - |piece|;
      delivered := delivered + piece;
    }

    /** One pass of the read loop: a header if the current chunk is used up, then some of its bytes. */
    method ReadSome(room: nat) returns (status: Status, piece: seq<byte>, segmentEnd: bool)
      requires Valid() && room > 0
      modifies this`mediaRemain, this`announced, this`headers, this`delivered, bus
      ensures Valid() && headers >= old(headers) && status != BadHeader
      ensures delivered == old(delivered) + piece && |piece| <= room
      ensures if status == Ok then piece != [] else piece == [] && !segmentEnd
      ensures |bus.unread| <= |old(bus.unread)| - |piece|
      ensures segmentEnd ==> bus.unread == []
      ensures bus.marks == old(bus.marks) + (if segmentEnd then 1 else 0)
      ensures bus.refusals == old(bus.refusals) + (if status == Ok then 0 else 1)
    {
      piece, segmentEnd := [], false;
      if mediaRemain == 0 {
        status := PullNextMeta();
        if status != Ok {
          return;
        }
      }
      var ok, isLast;
      ok, piece, isLast := TakePiece(if room > mediaRemain then mediaRemain else room);
      status := if ok then Ok else BusError;
      segmentEnd := mediaRemain == 0 && isLast;
    }

    /** _hls_user_read_filter in copy mode. Whatever the bus does, the bytes handed out continue the
        payload stream; an error hands out none and loses none. is_done is reported exactly when a piece
        was marked last, and means there are no more; a read falls short only then or when the bus
        refuses. */
    method UserRead(wanted: nat, bufLength: nat) returns (status: Status, out: seq<byte>, isDone: bool)
      requires Valid()
      modifies this`mediaRemain, this`announced, this`headers, this`delivered, bus
      ensures Valid() && headers >= old(headers) && status != BadHeader
      ensures delivered == old(delivered) + out && delivered <= Payloads(written)
      ensures |out| <= wanted && (bufLength > 0 ==> |out| <= bufLength)
      ensures status != Ok ==> out == []
      ensures status == Ok && wanted > 0 ==> out != []
      ensures isDone ==> delivered == Payloads(written)
      ensures isDone ==> bus.unread == []
      ensures |bus.unread| <= |old(bus.unread)|
      ensures isDone <==> bus.marks > old(bus.marks)
      ensures |out| < wanted && (bufLength == 0 || |out| < bufLength) ==> isDone || bus.refusals > old(bus.refusals)
      ensures bus.refusals >= old(bus.refusals) && bus.marks >= old(bus.marks)
      ensures status != Ok ==> bus.refusals > old(bus.refusals)
    {
      var maxCopy := if bufLength > 0 && wanted > bufLength then bufLength else wanted;
      status, out, isDone := ReadUpTo(maxCopy);
      PrefixDelivered();
      if out != [] {
        status := Ok;  // part of the read was served
      }
    }

    lemma PrefixDelivered()
      requires Valid()
      ensures delivered <= Payloads(written) && (bus.unread == [] ==> delivered == Payloads(written))
    {
      DeliveredIsPrefix(written, headers, bus.unread, mediaRemain, delivered, announced);
    }

    lemma AnnouncedIsPrefix()
      requires Valid()
      ensures announced <= Segments(written) && (bus.unread == [] ==> announced == Segments(written))
    {
      SegmentsConcat(written[..headers], written[headers..]);
      assert written[..headers] + written[headers..] == written;
      if bus.unread == [] {
        ChunksHaveBytes(written[headers..]);
        assert announced + [] == announced;
      }
    }

    method ReadUpTo(maxCopy: nat) returns (status: Status, out: seq<byte>, isDone: bool)
      requires Valid()
      modifies this`mediaRemain, this`announced, this`headers, this`delivered, bus
      ensures Valid() && headers >= old(headers) && status != BadHeader
      ensures delivered == old(delivered) + out && |out| <= maxCopy
      ensures isDone ==> bus.unread == []
      ensures |bus.unread| <= |old(bus.unread)|
      ensures status == Ok && out == [] ==> maxCopy == 0
      ensures bus.marks == old(bus.marks) + (if isDone then 1 else 0)
      ensures bus.refusals == old(bus.refusals) + (if status == Ok then 0 else 1)
      ensures |out| == maxCopy || isDone || status != Ok
    {
      status, out, isDone := Ok, [], false;
      while |out| < maxCopy && !isDone && status == Ok
        invariant Valid() && headers >= old(headers) && status != BadHeader
        invariant delivered == old(delivered) + out && |out| <= maxCopy
        invariant |bus.unread| <= |old(bus.unread)|
        invariant isDone ==> bus.unread == [] && (status == Ok ==> out != [])
        invariant bus.marks == old(bus.marks) + (if isDone then 1 else 0)
        invariant bus.refusals == old(bus.refusals) + (if status == Ok then 0 else 1)
        decreases |bus.unread|, if status == Ok then 1 else 0
      {
        var piece;
        status, piece, isDone := ReadSome(maxCopy - |out|);
        ConcatAssociates(old(delivered), out, piece);
        out := out + piece;
      }
    }

    /** _hls_reset: the bus is emptied and whatever is written next starts afresh. */
    method Reset(stream: seq<byte>, ghost next: seq<Chunk>)
      requires AllOk(next) && stream == EncodeChunks(next)
      modifies this, bus
      ensures Valid() && written == next && delivered == []
    {
      mediaRemain, announced := 0, [];
      written, headers, delivered := next, 0, [];
      bus.Reset(stream);
    }
  }

  datatype Fetched = Waiting | Eos | FetchError | Data(bos: bool, format: nat, bytes: seq<byte>)

  datatype Produced = Block(chunk: Chunk) | DoneWrite | Aborted

  predicate MayAnswer(f: Fetched, size: nat) {
    f.Data? ==> |f.bytes| <= size && f.format < Pow256(4)
  }

  /** hls_fetcher_read_data: any answer, but never more bytes than the buffer it was given. `answers`
      records them. */
  class Fetcher {
    ghost var answers: seq<Fetched>

    method ReadData(size: nat) returns (f: Fetched)
      modifies this
      ensures answers == old(answers) + [f] && MayAnswer(f, size)
    {
      f :| MayAnswer(f, size);
      answers := answers + [f];
    }
  }

  /** The block an answer ends in; `pad` is what the buffer held in the header's padding. */
  function BlockFor(f: Fetched, pad: seq<byte>): Produced {
    match f
    case Data(bos, format, bytes) => Block(Chunk(bos, pad, format, bytes))
    case Eos => DoneWrite
    case Waiting => Aborted
    case FetchError => Aborted
  }

  /** The answers got: the last decides, all before it were "waiting", and only the two-hundredth
      "waiting" gives up. */
  predicate EndsWith(got: seq<Fetched>, last: Fetched) {
    && 1 <= |got| <= 200 && got[|got| - 1] == last
    && (forall i :: 0 <= i < |got| - 1 ==> got[i].Waiting?)
    && (last.Waiting? ==> |got| == 200)
  }

  /** stream_data.size: what the fetcher is asked for, given a buffer that starts with a header. */
  function RequestSize(bufLength: nat): nat {
    if bufLength > META_SIZE && bufLength - META_SIZE < READ_BLOCK_SIZE then bufLength - META_SIZE
    else READ_BLOCK_SIZE
  }

  const IO_SIZE: nat := READ_BLOCK_SIZE + META_SIZE   // io_size as configured

  predicate FitsBuffer(f: Fetched, bufLength: nat) {
    f.Data? ==> META_SIZE + |f.bytes| <= bufLength
  }

  /** The limit protects a buffer exactly when it has room for more than a header. Without, the fetcher is
      asked for a whole block all the same. The buffer as configured takes whole blocks. */
  lemma AnswersFitIffRoom(bufLength: nat)
    ensures (forall f :: MayAnswer(f, RequestSize(bufLength)) ==> FitsBuffer(f, bufLength))
            <==> bufLength > META_SIZE
    ensures bufLength <= META_SIZE ==>
      exists f :: MayAnswer(f, RequestSize(bufLength)) && f.Data? && |f.bytes| == READ_BLOCK_SIZE
    ensures IO_SIZE == 524 && RequestSize(IO_SIZE) == 512
    ensures forall f :: MayAnswer(f, RequestSize(IO_SIZE)) ==> FitsBuffer(f, IO_SIZE)
  {
    var whole := Data(false, 0, seq(READ_BLOCK_SIZE, _ => 0));
    if bufLength <= META_SIZE {
      assert MayAnswer(whole, RequestSize(bufLength)) && !FitsBuffer(whole, bufLength);
    }
  }

  /** _hls_acquire_read: the next block for the bus carries exactly what the fetcher last answered. It
      satisfies what the reader relies on, and fits a buffer with room for more than a header. */
  method Produce(fetcher: Fetcher, bufLength: nat, pad: seq<byte>) returns (p: Produced, last: Fetched)
    requires |pad| == 3
    modifies fetcher
    ensures old(fetcher.answers) <= fetcher.answers
    ensures EndsWith(fetcher.answers[|old(fetcher.answers)|..], last) && p == BlockFor(last, pad)
    ensures p.DoneWrite? <==> last.Eos?
    ensures p.Block? <==> last.Data?
    ensures p.Block? ==> p.chunk.bos == last.bos && p.chunk.format == last.format && p.chunk.payload == last.bytes
    ensures p.Block? ==> ChunkOk(p.chunk) && |EncodeMeta(p.chunk)| == META_SIZE
    ensures MayAnswer(last, RequestSize(bufLength))
    ensures p.Block? && bufLength > META_SIZE ==> META_SIZE + |p.chunk.payload| <= bufLength
  {
    var size := READ_BLOCK_SIZE;
    if bufLength > META_SIZE && bufLength - META_SIZE < size {
      size := bufLength - META_SIZE;
    }
    var retryCount := HLS_MAX_RETRY_COUNT;
    ghost var start := |fetcher.answers|;
    last := fetcher.ReadData(size);
    while last.Waiting?
      invariant old(fetcher.answers) <= fetcher.answers
      invariant start < |fetcher.answers| && |fetcher.answers| - start - 1 == HLS_MAX_RETRY_COUNT - retryCount
      invariant 0 < retryCount && fetcher.answers[|fetcher.answers| - 1] == last
      invariant forall i :: start <= i < |fetcher.answers| - 1 ==> fetcher.answers[i].Waiting?
      invariant MayAnswer(last, size)
      decreases retryCount
    {
      retryCount := retryCount - 1;
      if retryCount <= 0 {
        return Aborted, last;
      }
      last := fetcher.ReadData(size);
    }
    p := BlockFor(last, pad);
    if p.Block? {
      MetaRoundTrip(p.chunk);
    }
  }

  // Writer and reader together.

  /** The media bytes of a run of answers. */
  function FetchedBytes(answers: seq<Fetched>): seq<byte> {
    if answers == [] then []
    else
      var last := answers[|answers| - 1];
      FetchedBytes(answers[..|answers| - 1]) + if last.Data? then last.bytes else []
  }

  /** The formats of the answers that begin a segment. */
  function FetchedFormats(answers: seq<Fetched>): seq<nat> {
    if answers == [] then []
    else
      var last := answers[|answers| - 1];
      FetchedFormats(answers[..|answers| - 1]) + if last.Data? && last.bos then [last.format] else []
  }

  lemma {:induction false} FormatsConcat(a: seq<Fetched>, b: seq<Fetched>)
    ensures FetchedFormats(a + b) == FetchedFormats(a) + FetchedFormats(b)
    decreases |b|
  {
    if b == [] {
      assert a + b == a;
      assert FetchedFormats(a) + [] == FetchedFormats(a);
    } else {
      var most, last := b[..|b| - 1], b[|b| - 1];
      assert (a + b)[..|a + b| - 1] == a + most;
      FormatsConcat(a, most);
      var format := if last.Data? && last.bos then [last.format] else [];
      assert FetchedFormats(a) + FetchedFormats(most) + format == FetchedFormats(a) + (FetchedFormats(most) + format);
    }
  }

  lemma {:induction false} FetchedConcat(a: seq<Fetched>, b: seq<Fetched>)
    ensures FetchedBytes(a + b) == FetchedBytes(a) + FetchedBytes(b)
    decreases |b|
  {
    if b == [] {
      assert a + b == a;
      assert FetchedBytes(a) + [] == FetchedBytes(a);
    } else {
      var most, last := b[..|b| - 1], if b[|b| - 1].Data? then b[|b| - 1].bytes else [];
      assert (a + b)[..|a + b| - 1] == a + most;
      FetchedConcat(a, most);
      ConcatAssociates(FetchedBytes(a), FetchedBytes(most), last);
    }
  }

  lemma {:induction false} WaitingFetchesNothing(got: seq<Fetched>)
    requires forall i :: 0 <= i < |got| ==> got[i].Waiting?
    ensures FetchedBytes(got) == [] && FetchedFormats(got) == []
    decreases |got|
  {
    if got != [] {
      WaitingFetchesNothing(got[..|got| - 1]);
    }
  }

  /** One call of Produce, as a change of what has been fetched and written. */
  lemma BlockCarriesFetched(before: seq<Fetched>, got: seq<Fetched>, last: Fetched, chunks: seq<Chunk>,
                            pad: seq<byte>)
    requires EndsWith(got, last) && Payloads(chunks) == FetchedBytes(before)
    requires Segments(chunks) == FetchedFormats(before)
    ensures var p := BlockFor(last, pad);
            var chunks' := if p.Block? then chunks + [p.chunk] else chunks;
            FetchedBytes(before + got) == Payloads(chunks') && FetchedFormats(before + got) == Segments(chunks')
  {
    FetchedConcat(before, got);
    FormatsConcat(before, got);
    WaitingFetchesNothing(got[..|got| - 1]);
    assert FetchedBytes(got) == if last.Data? then last.bytes else [];
    var p := BlockFor(last, pad);
    if p.Block? {
      assert (chunks + [p.chunk])[..|chunks|] == chunks;
    }
  }

  /** The writer's thread: blocks for the bus, as many as asked for or until the fetcher ends the stream.
      Their payloads are the bytes it fetched. */
  method WriteBlocks(fetcher: Fetcher, bufLength: nat, count: nat) returns (chunks: seq<Chunk>)
    modifies fetcher
    ensures old(fetcher.answers) <= fetcher.answers
    ensures AllOk(chunks) && Payloads(chunks) == FetchedBytes(fetcher.answers[|old(fetcher.answers)|..])
    ensures Segments(chunks) == FetchedFormats(fetcher.answers[|old(fetcher.answers)|..])
  {
    ghost var start := |fetcher.answers|;
    chunks := [];
    for i := 0 to count
      invariant old(fetcher.answers) <= fetcher.answers
      invariant AllOk(chunks) && Payloads(chunks) == FetchedBytes(fetcher.answers[start..])
      invariant Segments(chunks) == FetchedFormats(fetcher.answers[start..])
    {
      ghost var before := fetcher.answers;
      var pad1: byte, pad2: byte, pad3: byte := *, *, *;
      var pad := [pad1, pad2, pad3];
      var p, last := Produce(fetcher, bufLength, pad);
      assert fetcher.answers[start..] == before[start..] + fetcher.answers[|before|..];
      BlockCarriesFetched(before[start..], fetcher.answers[|before|..], last, chunks, pad);
      if !p.Block? {
        return;
      }
      chunks := chunks + [p.chunk];
    }
  }

  /** The bytes that a sequence of reads asks for at most. */
  function Asked(requests: seq<(nat, nat)>): nat {
    if requests == [] then 0
    else
      var (wanted, bufLength) := requests[|requests| - 1];
      Asked(requests[..|requests| - 1]) + if bufLength > 0 && wanted > bufLength then bufLength else wanted
  }

  /** End to end: over any run of fetcher answers, any bus behaviour and any requests, the reader hands out a
      prefix of the fetched bytes, and announces a prefix of the fetched segments' formats. It reports the
      end exactly when the bus has marked a piece as last, and has then handed out and announced all; it
      hands out less than asked for only then or if the bus has refused. */
  method Session(fetcher: Fetcher, bufLength: nat, count: nat, requests: seq<(nat, nat)>)
    returns (out: seq<byte>, ended: bool, announced: seq<nat>, bus: DataBus)
    modifies fetcher
    ensures old(fetcher.answers) <= fetcher.answers
    ensures var got := fetcher.answers[|old(fetcher.answers)|..];
            && out <= FetchedBytes(got) && announced <= FetchedFormats(got)
            && (ended ==> out == FetchedBytes(got) && announced == FetchedFormats(got))
    ensures ended <==> bus.marks > 0
    ensures |out| < Asked(requests) ==> ended || bus.refusals > 0
  {
    var chunks := WriteBlocks(fetcher, bufLength, count);
    bus := new DataBus(EncodeChunks(chunks));
    var reader := new HlsReader(bus, chunks);
    out, ended := ReadAll(reader, requests);
    announced := reader.announced;
  }

  /** Any sequence of reads, each of a number of bytes into a buffer of some length. */
  method ReadAll(reader: HlsReader, requests: seq<(nat, nat)>) returns (out: seq<byte>, ended: bool)
    requires reader.Valid() && reader.delivered == []
    modifies reader`mediaRemain, reader`announced, reader`headers, reader`delivered, reader.bus
    ensures out <= Payloads(reader.written) && (ended ==> out == Payloads(reader.written))
    ensures reader.announced <= Segments(reader.written)
    ensures ended ==> reader.announced == Segments(reader.written)
    ensures ended <==> reader.bus.marks > old(reader.bus.marks)
    ensures |out| < Asked(requests) ==> ended || reader.bus.refusals > old(reader.bus.refusals)
  {
    out, ended := [], false;
    for i := 0 to |requests|
      invariant reader.Valid() && out == reader.delivered
      invariant out <= Payloads(reader.written) && (ended ==> reader.bus.unread == [])
      invariant reader.bus.marks >= old(reader.bus.marks) && reader.bus.refusals >= old(reader.bus.refusals)
      invariant ended <==> reader.bus.marks > old(reader.bus.marks)
      invariant |out| < Asked(requests[..i]) ==> ended || reader.bus.refusals > old(reader.bus.refusals)
    {
      assert requests[..i + 1][..i] == requests[..i];
      var status, piece, isDone := reader.UserRead(requests[i].0, requests[i].1);
      out := out + piece;
      ended := ended || isDone;
    }
    assert requests[..|requests|] == requests;
    reader.AnnouncedIsPrefix();
    reader.PrefixDelivered();
  }
}
