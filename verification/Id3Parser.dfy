/** The ID3 parser as it runs: a reader that may fail or fall short, an allocator that may fail at any
    call, blocks owned through pointers (esp_extractor_id3_parser.c:50-368, 411-420). */
module Id3Parser {
  import opened Wrappers
  import opened Bytes
  import opened Id3Text
  import opened Id3Tag
  import opened Id3V1

  /** Who is responsible for a block: code outside the parser, a local variable of a running call, or a
      pointer the parser holds. */
  datatype Owner =
    | Outside | Local
    | Self | Text(field: Field) | Mime | Cover | ExtraArray | ExtraKey(i: nat) | ExtraValue(i: nat)

  /** media_lib_module_malloc and media_lib_free. Block names are never reused, so freeing a block twice
      would break Free's precondition. `failed` records that some allocation failed. */
  class Heap {
    var live: set<nat>
    var next: nat
    ghost var owner: map<nat, Owner>
    ghost var failed: bool

    ghost predicate Valid()
      reads this
    {
      owner.Keys == live && forall b :: b in live ==> b < next
    }

    method Malloc() returns (b: Option<nat>)
      requires Valid()
      modifies this
      ensures Valid() && failed == (old(failed) || b.None?)
      ensures b.Some? ==> b.value !in old(live) && owner == old(owner)[b.value := Local]
      ensures b.None? ==> owner == old(owner)
    {
      var ok: bool := *;
      if !ok {
        failed := true;
        return None;
      }
      b := Some(next);
      live, next := live + {next}, next + 1;
      owner := owner[b.value := Local];
    }

    method Free(b: Option<nat>)
      requires Valid() && (b.Some? ==> b.value in live)
      modifies this`live, this`owner
      ensures Valid() && owner == if b.Some? then old(owner) - {b.value} else old(owner)
    {
      if b.Some? {
        live := live - {b.value};
        owner := owner - {b.value};
      }
    }

    /** A block changes hands. */
    ghost method Give(b: nat, to: Owner)
      requires Valid() && b in live
      modifies this`owner
      ensures Valid() && owner == old(owner)[b := to]
    {
      owner := owner[b := to];
    }
  }

  /** The extractor's read callback and the two routines that check its answer. `faulted` records an error
      or a short count it had no need for; `shortfall` counts the bytes it was asked to skip and did not;
      `answer` is its last answer; `refused` counts the reads and skips reported as failed. */
  class Reader {
    const input: seq<byte>
    var pos: nat
    ghost var faulted: bool
    ghost var shortfall: nat
    ghost var answer: int
    ghost var refused: nat

    ghost predicate Valid()
      reads this
    {
      pos <= |input|
    }

    method Advance(size: nat) returns (got: int)
      requires Valid()
      modifies this`pos, this`faulted
      ensures Valid() && (old(faulted) ==> faulted)
      ensures got < 0 ==> pos == old(pos) && faulted
      ensures got >= 0 ==> got <= size && pos == old(pos) + got
      ensures got != size ==> faulted || old(pos) + size > |input|
    {
      var fault: bool := *;
      if fault {
        faulted := true;
        return -1;
      }
      var most := if size <= |input| - pos then size else |input| - pos;
      got :| 0 <= got <= most;
      faulted := faulted || got < most;
      pos := pos + got;
    }

    /** id3_read_full. */
    method ReadFull(size: nat) returns (ok: bool, data: seq<byte>)
      requires Valid()
      modifies this`pos, this`faulted, this`answer, this`refused
      ensures Valid() && (old(faulted) ==> faulted)
      ensures (ok <==> answer == size) && refused == old(refused) + (if ok then 0 else 1)
      ensures ok ==> pos == old(pos) + size && data == input[old(pos)..pos]
      ensures !ok ==> faulted || old(pos) + size > |input|
    {
      var start := pos;
      var got := Advance(size);
      answer := got;
      ok := got == size;
      refused := refused + if ok then 0 else 1;
      data := if ok then input[start..pos] else [];
    }

    /** id3_skip; a reader may report a skip as 0 bytes read, whether or not it moved. */
    method Skip(size: nat) returns (ok: bool)
      requires Valid()
      modifies this
      ensures Valid() && (old(faulted) ==> faulted)
      ensures (ok <==> answer == 0 || answer == size) && refused == old(refused) + (if ok then 0 else 1)
      ensures pos >= old(pos) && pos + shortfall == old(pos) + old(shortfall) + size
      ensures !faulted && old(pos) + size <= |input| ==> ok && pos == old(pos) + size
    {
      var start := pos;
      var got := Advance(size);
      shortfall := shortfall + (size - (pos - start));
      var quiet: bool := *;
      if got > 0 && quiet {
        got := 0;
      }
      answer := got;
      ok := got == 0 || got == size;
      refused := refused + if ok then 0 else 1;
    }
  }

  /** A char* or uint8_t* with the bytes behind it (a string's terminator left out). */
  datatype Ptr = Null | To(block: nat, bytes: seq<byte>)

  datatype KeyValue = KeyValue(key: Ptr, value: Ptr, encoding: byte)

  function BlockOf(p: Ptr): Option<nat> {
    if p.Null? then None else Some(p.block)
  }

  function Contents(p: Ptr): Option<seq<byte>> {
    if p.Null? then None else Some(p.bytes)
  }

  function BytesOf(p: Ptr): seq<byte> {
    if p.Null? then [] else p.bytes
  }

  function ViewExtra(kv: KeyValue): Extra {
    Extra(BytesOf(kv.key), BytesOf(kv.value), kv.encoding)
  }

  function ViewExtras(extras: seq<KeyValue>): seq<Extra> {
    seq(|extras|, i requires 0 <= i < |extras| => ViewExtra(extras[i]))
  }

  /** The first two loops of id3_copy_trim. */
  method TrimRange(data: seq<byte>) returns (m: seq<byte>)
    ensures m == Trim(data, {NUL, SPACE})
  {
    var size := |data|;
    assert data[..size] == data;
    while size > 0 && (data[size - 1] == NUL || data[size - 1] == SPACE)
      invariant 0 <= size <= |data|
      invariant TrimEnd(data[..size], {NUL, SPACE}) == TrimEnd(data, {NUL, SPACE})
    {
      assert data[..size][..size - 1] == data[..size - 1];
      size := size - 1;
    }
    m := data[..size];
    while m != [] && (m[0] == NUL || m[0] == SPACE)
      invariant TrimStart(m, {NUL, SPACE}) == TrimStart(data[..size], {NUL, SPACE})
    {
      m := m[1..];
    }
  }

  /** Its third loop. */
  method CopyNonNul(m: seq<byte>) returns (out: seq<byte>)
    ensures out == DropNuls(m)
  {
    out := [];
    for i := 0 to |m|
      invariant out == DropNuls(m[..i])
    {
      assert m[..i + 1] == m[..i] + [m[i]];
      DropNulsConcat(m[..i], [m[i]]);
      if m[i] != NUL {
        out := out + [m[i]];
      }
    }
    assert m[..|m|] == m;
  }

  /** id3_copy_trim. */
  method CopyTrimmed(heap: Heap, data: seq<byte>) returns (p: Ptr)
    requires heap.Valid()
    modifies heap
    ensures heap.Valid() && heap.failed == (old(heap.failed) || p.Null?)
    ensures p.To? ==> p.block !in old(heap.live) && heap.owner == old(heap.owner)[p.block := Local]
    ensures p.Null? ==> heap.owner == old(heap.owner)
    ensures p.To? ==> p.bytes == CopyTrim(data)
  {
    var m := TrimRange(data);
    var block := heap.Malloc();
    if block.None? {
      return Null;
    }
    var out := CopyNonNul(m);
    return To(block.value, out);
  }

  /** while (pos < size && data[pos]) pos++. */
  method SkipToNul(data: seq<byte>, from: nat) returns (pos: nat)
    requires from <= |data|
    ensures pos == FindNul(data, from)
  {
    pos := from;
    while pos < |data| && data[pos] != NUL
      invariant from <= pos <= |data| && FindNul(data, pos) == FindNul(data, from)
    {
      pos := pos + 1;
    }
  }

  /** id3_replace_string, `to` being the owner of *dst. */
  method ReplaceString(heap: Heap, dst: Ptr, value: Ptr, ghost to: Owner) returns (r: Ptr)
    requires heap.Valid() && (dst.To? ==> dst.block in heap.live)
    requires value.To? ==> value.block in heap.live && BlockOf(dst) != Some(value.block)
    modifies heap`live, heap`owner
    ensures heap.Valid() && r == if value.Null? then dst else value
    ensures heap.owner == if value.Null? then old(heap.owner)
                          else (old(heap.owner) - if dst.To? then {dst.block} else {})[value.block := to]
  {
    if value.Null? {
      return dst;
    }
    heap.Free(BlockOf(dst));
    heap.Give(value.block, to);
    return value;
  }

  /** How a pass of the frame loop ends: on to the next, out of the loop, out of the parser. */
  datatype Pass = Again | Stop | Fail

  function KeptFrame(info: Info, id: seq<byte>, payload: seq<byte>): Info {
    if IsText(id) then KeepText(info, id, payload) else KeepPicture(info, payload)
  }

  /** What a frame header means for the loop: padding or an impossible size ends it. */
  function Decide(version: nat, header: seq<byte>, left: nat): Pass
    requires |header| == HeaderSize(version)
  {
    if header[0] == 0 || FrameSize(version, header) == 0 || FrameSize(version, header) > left then Stop else Again
  }

  /** A tag with nothing for the loop to do. */
  predicate SmallTag(header: seq<byte>)
    requires |header| == 10
  {
    2 <= header[3] <= 4 && !HasExtendedHeader(header[5]) && Syncsafe(header[6..10]) < HeaderSize(header[3])
  }

  /** A pass of the loop is ParseFrames' step. */
  lemma PassIsStep(version: nat, body: seq<byte>, header: seq<byte>, info: Info)
    requires |body| >= HeaderSize(version) && header == body[..HeaderSize(version)]
    ensures var h, size := HeaderSize(version), FrameSize(version, header);
            ParseFrames(version, body, info) ==
            if Decide(version, header, |body| - h).Stop? then info
            else ParseFrames(version, body[h..][size..],
                             Keep(version, info, header[..IdSize(version)], body[h..][..size]))
  {
    var h, size := HeaderSize(version), FrameSize(version, header);
    assert body[..IdSize(version)] == header[..IdSize(version)];
    if size <= |body| - h {
      assert body[h..][..size] == body[h..h + size] && body[h..][size..] == body[h + size..];
    }
  }

  /** Each field has its value from before or from after. */
  predicate FieldsFrom(now: Info, before: Info, after: Info) {
    && now.title in {before.title, after.title} && now.author in {before.author, after.author}
    && now.album in {before.album, after.album} && now.date in {before.date, after.date}
    && now.genre in {before.genre, after.genre} && now.encoding in {before.encoding, after.encoding}
    && now.mime == before.mime && now.cover == before.cover && now.extra == before.extra
  }

  /** Every pointer the parser holds. */
  datatype Pointers = Pointers(
    self: nat, title: Ptr, author: Ptr, album: Ptr, date: Ptr, genre: Ptr, mime: Ptr, cover: Ptr,
    extraArray: Option<nat>, extra: seq<KeyValue>)

  /** The block an owner inside the parser points to. */
  function PointerOf(s: Pointers, o: Owner): Option<nat> {
    match o
    case Outside => None
    case Local => None
    case Self => Some(s.self)
    case Text(Title) => BlockOf(s.title)
    case Text(Author) => BlockOf(s.author)
    case Text(Album) => BlockOf(s.album)
    case Text(Date) => BlockOf(s.date)
    case Text(Genre) => BlockOf(s.genre)
    case Text(Other) => None
    case Mime => BlockOf(s.mime)
    case Cover => BlockOf(s.cover)
    case ExtraArray => s.extraArray
    case ExtraKey(i) => if i < |s.extra| then BlockOf(s.extra[i].key) else None
    case ExtraValue(i) => if i < |s.extra| then BlockOf(s.extra[i].value) else None
  }

  function WithoutText(s: Pointers, field: Field): Pointers {
    match field
    case Title => s.(title := Null)
    case Author => s.(author := Null)
    case Album => s.(album := Null)
    case Date => s.(date := Null)
    case Genre => s.(genre := Null)
    case Other => s
  }

  /** Every live block has one owner, which points to it; every pointer is to a live block that it owns. */
  ghost predicate OwnersAgree(s: Pointers, owner: map<nat, Owner>, others: set<nat>, locals: set<nat>) {
    && (forall o: Owner :: PointerOf(s, o).Some? ==>
          PointerOf(s, o).value in owner && owner[PointerOf(s, o).value] == o)
    && (forall b :: b in owner ==>
          if owner[b].Outside? then b in others
          else if owner[b].Local? then b in locals
          else PointerOf(s, owner[b]) == Some(b))
    && (forall b :: b in others ==> b in owner && owner[b].Outside?)
    && (forall b :: b in locals ==> b in owner && owner[b].Local?)
    && |s.extra| <= MAX_EXTRA && (s.extraArray.None? ==> s.extra == [])
  }

  /** In short: the live blocks are exactly the others, the locals and those reachable from the parser,
      and no two pointers reach the same block. */
  lemma LiveIsReachable(s: Pointers, owner: map<nat, Owner>, others: set<nat>, locals: set<nat>)
    requires OwnersAgree(s, owner, others, locals)
    ensures forall b :: b in owner <==> b in others || b in locals || exists o :: PointerOf(s, o) == Some(b)
    ensures forall o, o' :: PointerOf(s, o).Some? && PointerOf(s, o) == PointerOf(s, o') ==> o == o'
  {
    forall o, o' | PointerOf(s, o).Some? && PointerOf(s, o) == PointerOf(s, o') ensures o == o' {
      assert owner[PointerOf(s, o).value] == o;
    }
  }

  function SetOf(b: Option<nat>): set<nat> {
    if b.Some? then {b.value} else {}
  }

  /** A local block hung on a pointer of the parser, whose old block has been freed. */
  lemma Hung(s: Pointers, s': Pointers, owner: map<nat, Owner>, others: set<nat>, locals: set<nat>,
             o: Owner, moved: nat)
    requires OwnersAgree(s, owner, others, locals + {moved}) && moved !in locals
    requires PointerOf(s', o) == Some(moved) && forall p: Owner :: p != o ==> PointerOf(s', p) == PointerOf(s, p)
    requires |s'.extra| <= MAX_EXTRA && (s'.extraArray.None? ==> s'.extra == [])
    ensures OwnersAgree(s', (owner - SetOf(PointerOf(s, o)))[moved := o], others, locals)
  {
  }

  /** A pointer of the parser cleared, its block freed. */
  lemma Dropped(s: Pointers, s': Pointers, owner: map<nat, Owner>, others: set<nat>, locals: set<nat>, o: Owner)
    requires OwnersAgree(s, owner, others, locals)
    requires PointerOf(s', o) == None && forall p: Owner :: p != o ==> PointerOf(s', p) == PointerOf(s, p)
    requires |s'.extra| <= MAX_EXTRA && (s'.extraArray.None? ==> s'.extra == [])
    ensures OwnersAgree(s', owner - SetOf(PointerOf(s, o)), others, locals)
    ensures PointerOf(s, o).Some? ==> PointerOf(s, o).value in owner
  {
  }

  class Parser {
    const heap: Heap
    const reader: Reader
    const block: nat                  // the parser's own allocation
    ghost const others: set<nat>      // what was live before open
    var title: Ptr
    var author: Ptr
    var album: Ptr
    var date: Ptr
    var genre: Ptr
    var coverMime: Ptr
    var cover: Ptr
    var coverSize: nat
    var encoding: byte
    var extraArray: Option<nat>
    var extra: seq<KeyValue>
    var parsed: bool

    ghost function Shape(): Pointers
      reads this
    {
      Pointers(block, title, author, album, date, genre, coverMime, cover, extraArray, extra)
    }

    /** Ownership holds, `locals` being the blocks in the hands of running calls. */
    ghost predicate Balanced(locals: set<nat>)
      reads this, heap
    {
      heap.Valid() && OwnersAgree(Shape(), heap.owner, others, locals)
    }

    function View(): Info
      reads this
    {
      Info(Contents(title), Contents(author), Contents(album), Contents(date), Contents(genre),
           Contents(coverMime), Contents(cover), coverSize, encoding, ViewExtras(extra))
    }

    /** esp_extractor_id3_parser_open, its block just allocated. */
    constructor (heap: Heap, reader: Reader, block: nat)
      requires heap.Valid() && block in heap.live
      requires forall b :: b in heap.live ==> heap.owner[b] == if b == block then Self else Outside
      ensures this.heap == heap && this.reader == reader && this.block == block
      ensures Balanced({}) && others == heap.live - {block}
      ensures View() == Info(None, None, None, None, None, None, None, 0, ENCODING_NONE, []) && !parsed
    {
      this.heap, this.reader, this.block := heap, reader, block;
      others := heap.live - {block};
      title, author, album, date, genre, coverMime, cover := Null, Null, Null, Null, Null, Null, Null;
      coverSize, encoding, extraArray, extra, parsed := 0, ENCODING_NONE, None, [], false;
    }

    method ReplaceField(field: Field, value: Ptr)
      requires field != Other && value.To? && value.block in heap.live && heap.Valid()
      requires var was := PointerOf(Shape(), Text(field)); was != Some(value.block) && SetOf(was) <= heap.live
      modifies this`title, this`author, this`album, this`date, this`genre, heap`live, heap`owner
      ensures heap.Valid() && View() == WithField(old(View()), field, value.bytes)
      ensures PointerOf(Shape(), Text(field)) == Some(value.block)
      ensures forall o: Owner :: o != Text(field) ==> PointerOf(Shape(), o) == PointerOf(old(Shape()), o)
      ensures heap.owner == (old(heap.owner) - SetOf(PointerOf(old(Shape()), Text(field))))[value.block := Text(field)]
    {
      match field
      case Title => title := ReplaceString(heap, title, value, Text(field));
      case Author => author := ReplaceString(heap, author, value, Text(field));
      case Album => album := ReplaceString(heap, album, value, Text(field));
      case Date => date := ReplaceString(heap, date, value, Text(field));
      case Genre => genre := ReplaceString(heap, genre, value, Text(field));
    }

    /** Gives a text field its new value and frees the old one. */
    method SetField(field: Field, value: Ptr, ghost locals: set<nat>)
      requires field != Other && value.To? && value.block !in locals && Balanced(locals + {value.block})
      modifies this`title, this`author, this`album, this`date, this`genre, heap`live, heap`owner
      ensures Balanced(locals) && View() == WithField(old(View()), field, value.bytes)
    {
      ghost var s, owner := Shape(), heap.owner;
      ReplaceField(field, value);
      Hung(s, Shape(), owner, others, locals, Text(field), value.block);
    }

    /** The next free extra gets its key and its value. */
    method PushExtra(key: Ptr, value: Ptr, enc: byte, ghost locals: set<nat>)
      requires key.To? && value.To? && key.block != value.block && {key.block, value.block} !! locals
      requires Balanced(locals + {value.block} + {key.block}) && |extra| < MAX_EXTRA && extraArray.Some?
      modifies this`extra, heap`owner
      ensures Balanced(locals) && View().extra == old(View().extra) + [Extra(key.bytes, value.bytes, enc)]
    {
      ghost var n, s, owner := |extra|, Shape(), heap.owner;
      heap.Give(key.block, ExtraKey(n));
      heap.Give(value.block, ExtraValue(n));
      extra := extra + [KeyValue(key, value, enc)];
      ghost var half := s.(extra := s.extra + [KeyValue(key, Null, enc)]);
      Hung(s, half, owner, others, locals + {value.block}, ExtraKey(n), key.block);
      Hung(half, Shape(), owner[key.block := ExtraKey(n)], others, locals, ExtraValue(n), value.block);
    }

    method SetEncoding(enc: byte, ghost locals: set<nat>)
      requires Balanced(locals)
      modifies this`encoding
      ensures Balanced(locals) && View() == old(View()).(encoding := enc)
    {
      encoding := enc;
    }

    method NewExtraArray(ghost locals: set<nat>)
      requires Balanced(locals) && extraArray.None?
      modifies this`extraArray, heap
      ensures Balanced(locals) && heap.failed == (old(heap.failed) || extraArray.None?)
    {
      ghost var s, owner := Shape(), heap.owner;
      extraArray := heap.Malloc();
      if extraArray.Some? {
        heap.Give(extraArray.value, ExtraArray);
        Hung(s, Shape(), owner[extraArray.value := Local], others, locals, ExtraArray, extraArray.value);
      }
    }

    /** id3_add_extra: takes over `value`. */
    method AddExtra(id: seq<byte>, value: Ptr, enc: byte, ghost locals: set<nat>)
      requires value.To? && value.block !in locals && Balanced(locals + {value.block})
      modifies this`extra, this`extraArray, heap
      ensures Balanced(locals) && (old(heap.failed) ==> heap.failed)
      ensures !heap.failed && |old(extra)| < MAX_EXTRA ==> View().extra != old(View().extra)
      ensures View().extra == old(View().extra)
        || (|old(extra)| < MAX_EXTRA
            && View().extra == old(View().extra) + [Extra(CopyTrim(CString(id)), value.bytes, enc)])
    {
      if |extra| < MAX_EXTRA && extraArray.None? {
        NewExtraArray(locals + {value.block});
      }
      if |extra| >= MAX_EXTRA || extraArray.None? {
        DropLocal(value, locals);
        return;
      }
      var key := NewText(CString(id), locals + {value.block});
      if key.Null? {
        DropLocal(value, locals);
        return;
      }
      PushExtra(key, value, enc, locals);
    }

    /** id3_copy_trim, the new string in the caller's hands. */
    method NewText(data: seq<byte>, ghost locals: set<nat>) returns (p: Ptr)
      requires Balanced(locals)
      modifies heap
      ensures p.Null? ==> Balanced(locals) && heap.failed
      ensures p.To? ==> p.block !in locals && Balanced(locals + {p.block}) && heap.failed == old(heap.failed)
      ensures p.To? ==> p.bytes == CopyTrim(data)
    {
      p := CopyTrimmed(heap, data);
    }

    /** media_lib_free of a local. */
    method DropLocal(p: Ptr, ghost locals: set<nat>)
      requires SetOf(BlockOf(p)) !! locals && Balanced(locals + SetOf(BlockOf(p)))
      modifies heap`live, heap`owner
      ensures Balanced(locals)
    {
      heap.Free(BlockOf(p));
    }

    /** id3_keep_text_frame. */
    method KeepTextFrame(id: seq<byte>, data: seq<byte>, ghost locals: set<nat>)
      requires data != [] && Balanced(locals)
      modifies this, heap
      ensures Balanced(locals) && (old(heap.failed) ==> heap.failed) && parsed == old(parsed)
      ensures !heap.failed ==> View() == KeepText(old(View()), id, data)
      ensures View() == old(View()) || View() == old(View()).(encoding := TextEncoding(data))
              || View() == KeepText(old(View()), id, data)
    {
      var value := NewText(data[1..], locals);
      if value.Null? {
        return;
      }
      SetEncoding(TextEncoding(data), locals + {value.block});
      if FieldOf(id) == Other {
        AddExtra(id, value, TextEncoding(data), locals);
      } else {
        SetField(FieldOf(id), value, locals);
      }
    }

    /** The last lines of id3_keep_apic_frame: old picture out, new one in. The MIME type may be missing
        when its allocation failed. */
    method SetPicture(mime: Ptr, data: Ptr, size: nat, ghost locals: set<nat>)
      requires data.To? && data.block !in locals && BlockOf(mime) != Some(data.block) && SetOf(BlockOf(mime)) !! locals
      requires Balanced(locals + {data.block} + SetOf(BlockOf(mime)))
      modifies this`coverMime, this`cover, this`coverSize, heap`live, heap`owner
      ensures Balanced(locals)
      ensures View() == old(View()).(mime := Contents(mime), cover := Some(data.bytes), coverSize := size)
    {
      ghost var s := FreePicture(Shape(), locals + {data.block} + SetOf(BlockOf(mime)));
      HangPicture(mime, data, size, s, locals);
    }

    method FreePicture(ghost s: Pointers, ghost locals: set<nat>) returns (ghost after: Pointers)
      requires heap.Valid() && OwnersAgree(s, heap.owner, others, locals)
      requires s.mime == coverMime && s.cover == cover
      modifies heap`live, heap`owner
      ensures heap.Valid() && OwnersAgree(after, heap.owner, others, locals)
      ensures after == s.(mime := Null, cover := Null)
    {
      after := FreePointer(coverMime, s, s.(mime := Null), Mime, locals);
      after := FreePointer(cover, after, after.(cover := Null), Cover, locals);
    }

    ghost method HangMime(mime: Ptr, s: Pointers, locals: set<nat>)
      requires SetOf(BlockOf(mime)) !! locals && s.mime.Null?
      requires heap.Valid() && OwnersAgree(s, heap.owner, others, locals + SetOf(BlockOf(mime)))
      modifies heap`owner
      ensures heap.Valid() && OwnersAgree(s.(mime := mime), heap.owner, others, locals)
    {
      if mime.To? {
        Hung(s, s.(mime := mime), heap.owner, others, locals, Mime, mime.block);
        heap.Give(mime.block, Mime);
      } else {
        assert locals + SetOf(BlockOf(mime)) == locals && s.(mime := mime) == s;
      }
    }

    ghost method HangCover(data: Ptr, s: Pointers, locals: set<nat>)
      requires data.To? && data.block !in locals && s.cover.Null?
      requires heap.Valid() && OwnersAgree(s, heap.owner, others, locals + {data.block})
      modifies heap`owner
      ensures heap.Valid() && OwnersAgree(s.(cover := data), heap.owner, others, locals)
    {
      Hung(s, s.(cover := data), heap.owner, others, locals, Cover, data.block);
      heap.Give(data.block, Cover);
    }

    method HangPicture(mime: Ptr, data: Ptr, size: nat, ghost s: Pointers, ghost locals: set<nat>)
      requires data.To? && data.block !in locals && BlockOf(mime) != Some(data.block) && SetOf(BlockOf(mime)) !! locals
      requires heap.Valid() && OwnersAgree(s, heap.owner, others, locals + {data.block} + SetOf(BlockOf(mime)))
      requires s == Shape().(mime := Null, cover := Null)
      modifies this`coverMime, this`cover, this`coverSize, heap`owner
      ensures Balanced(locals)
      ensures View() == old(View()).(mime := Contents(mime), cover := Some(data.bytes), coverSize := size)
    {
      HangMime(mime, s, locals + {data.block});
      HangCover(data, s.(mime := mime), locals);
      coverMime, cover, coverSize := mime, data, size;
    }

    /** id3_keep_apic_frame up to the MIME type. */
    method KeepApicFrame(data: seq<byte>, ghost locals: set<nat>)
      requires Balanced(locals)
      modifies this`coverMime, this`cover, this`coverSize, heap
      ensures Balanced(locals) && (old(heap.failed) ==> heap.failed)
      ensures !heap.failed ==> View() == KeepPicture(old(View()), data)
      ensures PictureParts(data).None? ==> View() == old(View())
      ensures View() == old(View()) || View() == KeepPicture(old(View()), data)
              || View() == KeepPicture(old(View()), data).(mime := None)
    {
      if |data| < 5 {
        return;
      }
      var pos := SkipToNul(data, 1);
      if pos >= |data| {
        return;
      }
      var mime := NewText(data[1..pos], locals);
      KeepPictureAfterMime(data, pos, mime, locals);
    }

    /** ... and from there on, whatever became of the MIME type's allocation. */
    method KeepPictureAfterMime(data: seq<byte>, mimeEnd: nat, mime: Ptr, ghost locals: set<nat>)
      requires |data| >= 5 && mimeEnd < |data| && mimeEnd == FindNul(data, 1)
      requires SetOf(BlockOf(mime)) !! locals && Balanced(locals + SetOf(BlockOf(mime)))
      requires if mime.Null? then heap.failed else mime.bytes == CopyTrim(data[1..mimeEnd])
      modifies this`coverMime, this`cover, this`coverSize, heap
      ensures Balanced(locals) && (old(heap.failed) ==> heap.failed)
      ensures !heap.failed ==> View() == KeepPicture(old(View()), data)
      ensures PictureParts(data).None? ==> View() == old(View())
      ensures View() == old(View()) || View() == KeepPicture(old(View()), data).(mime := Contents(mime))
    {
      var pos := mimeEnd + 1;
      if pos >= |data| {
        DropLocal(mime, locals);
        return;
      }
      pos := SkipToNul(data, pos + 1);
      if pos >= |data| {
        DropLocal(mime, locals);
        return;
      }
      pos := pos + 1;
      var picture := NewPicture(data[pos..], locals + SetOf(BlockOf(mime)));
      if picture.Null? {
        DropLocal(mime, locals);
        return;
      }
      assert locals + SetOf(BlockOf(mime)) + {picture.block} == locals + {picture.block} + SetOf(BlockOf(mime));
      SetPicture(mime, picture, |data| - pos, locals);
    }

    /** malloc and memcpy of the picture bytes. */
    method NewPicture(data: seq<byte>, ghost locals: set<nat>) returns (p: Ptr)
      requires Balanced(locals)
      modifies heap
      ensures heap.failed == (old(heap.failed) || p.Null?)
      ensures p.Null? ==> Balanced(locals)
      ensures p.To? ==> p.block !in locals && Balanced(locals + {p.block}) && p.bytes == data
    {
      var block := heap.Malloc();
      p := if block.None? then Null else To(block.value, data);
    }

    // Reading. `Rest` is what a fault-free reader still has of a tag of which `left` bytes are left.

    ghost predicate Sound(left: nat)
      reads reader
    {
      reader.Valid() && !reader.faulted && reader.pos + left <= |reader.input|
    }

    ghost function Rest(left: nat): seq<byte>
      reads reader
      requires Sound(left)
    {
      reader.input[reader.pos..reader.pos + left]
    }

    /** The extended header of id3_parse_v2. */
    method SkipExtendedHeader(version: nat, flags: byte, left: nat) returns (ok: bool, left': nat)
      requires reader.Valid()
      modifies reader
      ensures reader.Valid() && (old(reader.faulted) ==> reader.faulted) && left' <= left
      ensures ok ==> reader.pos + reader.shortfall + left' == old(reader.pos) + old(reader.shortfall) + left
      ensures ok ==> reader.refused == old(reader.refused)
      ensures !HasExtendedHeader(flags) ==> ok && left' == left && reader.pos == old(reader.pos)
      ensures old(Sound(left)) && !reader.faulted ==>
        var after := AfterExtendedHeader(version, flags, old(Rest(left)));
        && (ok <==> after.Some?)
        && (ok ==> Sound(left') && reader.pos + left' == old(reader.pos) + left && Rest(left') == after.value)
    {
      left' := left;
      ok := true;
      if HasExtendedHeader(flags) && left >= 4 {
        var read, ext := ReadSome(4, left);
        if !read {
          return false, left;
        }
        ok, left' := SkipExtension(version, if version == 4 then Syncsafe(ext) else Be32(ext), left - 4);
      }
    }

    /** ... once its size has been read; only version 4 counts the four bytes of the size itself. */
    method SkipExtension(version: nat, size: nat, left: nat) returns (ok: bool, left': nat)
      requires reader.Valid()
      modifies reader
      ensures reader.Valid() && (old(reader.faulted) ==> reader.faulted) && left' <= left
      ensures ok ==> reader.pos + reader.shortfall + left' == old(reader.pos) + old(reader.shortfall) + left
      ensures ok ==> reader.refused == old(reader.refused)
      ensures old(Sound(left)) && !reader.faulted ==>
        var skip := if version == 4 then size - 4 else size;
        && (ok <==> 0 <= skip <= left)
        && (ok ==> Sound(left') && reader.pos + left' == old(reader.pos) + left
                   && Rest(left') == old(Rest(left))[skip..])
    {
      left' := left;
      if version == 4 {
        if size < 4 || size > 4 + left {
          return false, left;
        }
        ok := reader.Skip(size - 4);
        left' := left - (size - 4);
      } else {
        if size > left {
          return false, left;
        }
        ok := reader.Skip(size);
        left' := left - size;
      }
    }

    /** One pass of the frame loop. */
    method ParseOneFrame(version: nat, left: nat) returns (pass: Pass, left': nat)
      requires 2 <= version <= 4 && left >= HeaderSize(version) && Balanced({}) && reader.Valid()
      modifies this, heap, reader
      ensures Balanced({}) && reader.Valid() && parsed == old(parsed)
      ensures (old(heap.failed) ==> heap.failed) && (old(reader.faulted) ==> reader.faulted) && left' < left
      ensures if pass.Fail? then heap.failed || reader.refused == old(reader.refused) + 1
              else reader.refused == old(reader.refused)
      ensures !pass.Fail? ==>
        reader.pos + reader.shortfall + left' == old(reader.pos) + old(reader.shortfall) + left
      ensures old(Sound(left)) && !reader.faulted && !pass.Fail? ==>
        Sound(left') && reader.pos + left' == old(reader.pos) + left
      ensures old(Sound(left)) && !reader.faulted && !heap.failed ==>
        !pass.Fail? && ParseFrames(version, old(Rest(left)), old(View()))
                    == if pass.Stop? then View() else ParseFrames(version, Rest(left'), View())
    {
      var ok, header := ReadHeader(version, left, View());
      left' := left - HeaderSize(version);
      if !ok {
        return Fail, left';
      }
      pass, left' := PassAfterHeader(version, header, left');
    }

    /** The rest of the pass: out of the loop, or the frame taken. */
    method PassAfterHeader(version: nat, header: seq<byte>, left: nat) returns (pass: Pass, left': nat)
      requires 2 <= version <= 4 && |header| == HeaderSize(version) && Balanced({}) && reader.Valid()
      modifies this, heap, reader
      ensures Balanced({}) && reader.Valid() && parsed == old(parsed)
      ensures (old(heap.failed) ==> heap.failed) && (old(reader.faulted) ==> reader.faulted) && left' <= left
      ensures if pass.Fail? then heap.failed || reader.refused == old(reader.refused) + 1
              else reader.refused == old(reader.refused)
      ensures !pass.Fail? ==>
        reader.pos + reader.shortfall + left' == old(reader.pos) + old(reader.shortfall) + left
      ensures pass.Stop? <==> Decide(version, header, left).Stop?
      ensures pass.Stop? ==> View() == old(View()) && left' == left && reader.pos == old(reader.pos)
      ensures pass.Stop? ==> reader.faulted == old(reader.faulted)
      ensures old(Sound(left)) && !reader.faulted && pass.Again? ==>
        && Sound(left') && reader.pos + left' == old(reader.pos) + left
        && Rest(left') == old(Rest(left))[FrameSize(version, header)..]
      ensures old(Sound(left)) && !reader.faulted && !heap.failed && !pass.Stop? ==>
        pass.Again? && View() == Keep(version, old(View()), header[..IdSize(version)],
                                      old(Rest(left))[..FrameSize(version, header)])
    {
      pass, left' := Decide(version, header, left), left;
      if pass.Again? {
        var size := FrameSize(version, header);
        var ok := TakeFrame(version, header[..IdSize(version)], size, left);
        left' := left - size;
        pass := if ok then Again else Fail;
      }
    }

    /** id3_read_full, `left` bytes of the tag being left. */
    method ReadSome(size: nat, left: nat) returns (ok: bool, data: seq<byte>)
      requires size <= left && reader.Valid()
      modifies reader`pos, reader`faulted, reader`answer, reader`refused
      ensures reader.Valid() && (old(reader.faulted) ==> reader.faulted)
      ensures ok ==> |data| == size && reader.pos == old(reader.pos) + size
      ensures reader.refused == old(reader.refused) + (if ok then 0 else 1)
      ensures old(Sound(left)) && !reader.faulted ==>
        && ok && Sound(left - size) && reader.pos == old(reader.pos) + size
        && data == old(Rest(left))[..size] && Rest(left - size) == old(Rest(left))[size..]
    {
      ok, data := reader.ReadFull(size);
    }

    /** The header of the next frame, and what the pass does with it. */
    method ReadHeader(version: nat, left: nat, ghost info: Info) returns (ok: bool, header: seq<byte>)
      requires left >= HeaderSize(version) && reader.Valid()
      modifies reader`pos, reader`faulted, reader`answer, reader`refused
      ensures reader.Valid() && (old(reader.faulted) ==> reader.faulted)
      ensures ok ==> |header| == HeaderSize(version) && reader.pos == old(reader.pos) + HeaderSize(version)
      ensures reader.refused == old(reader.refused) + (if ok then 0 else 1)
      ensures old(Sound(left)) && !reader.faulted ==> ok
      ensures old(Sound(left)) && !reader.faulted && ok ==>
        var rest, size := left - HeaderSize(version), FrameSize(version, header);
        && Sound(rest) && reader.pos + rest == old(reader.pos) + left
        && ParseFrames(version, old(Rest(left)), info)
           == if Decide(version, header, rest).Stop? then info
              else ParseFrames(version, Rest(rest)[size..],
                               Keep(version, info, header[..IdSize(version)], Rest(rest)[..size]))
    {
      ghost var body := if Sound(left) then Rest(left) else [];
      ok, header := ReadSome(HeaderSize(version), left);
      if |body| == left && ok && header == body[..HeaderSize(version)] {
        PassIsStep(version, body, header, info);
      }
    }

    /** Keeps or skips the frame whose `size` payload bytes are next. */
    method TakeFrame(version: nat, id: seq<byte>, size: nat, left: nat) returns (ok: bool)
      requires 2 <= version <= 4 && 0 < size <= left && id != [] && Balanced({}) && reader.Valid()
      modifies this, heap, reader
      ensures Balanced({}) && reader.Valid() && parsed == old(parsed)
      ensures (old(heap.failed) ==> heap.failed) && (old(reader.faulted) ==> reader.faulted)
      ensures ok ==> reader.pos + reader.shortfall == old(reader.pos) + old(reader.shortfall) + size
      ensures if ok then reader.refused == old(reader.refused)
              else heap.failed || reader.refused == old(reader.refused) + 1
      ensures old(Sound(left)) && !reader.faulted && ok ==>
        && Sound(left - size) && reader.pos == old(reader.pos) + size
        && Rest(left - size) == old(Rest(left))[size..]
      ensures old(Sound(left)) && !reader.faulted && !heap.failed ==>
        ok && View() == Keep(version, old(View()), id, old(Rest(left))[..size])
    {
      ghost var payload := if Sound(left) then Rest(left)[..size] else [];
      assert Sound(left) ==> payload == Rest(size);
      ok := KeepOrSkip(version, id, size);
    }

    /** The frame buffer: allocated, read, kept and freed, or the frame skipped. */
    method KeepOrSkip(version: nat, id: seq<byte>, size: nat) returns (ok: bool)
      requires 2 <= version <= 4 && size > 0 && id != [] && Balanced({}) && reader.Valid()
      modifies this, heap, reader
      ensures Balanced({}) && reader.Valid() && parsed == old(parsed)
      ensures (old(heap.failed) ==> heap.failed) && (old(reader.faulted) ==> reader.faulted)
      ensures ok ==> reader.pos + reader.shortfall == old(reader.pos) + old(reader.shortfall) + size
      ensures if ok then reader.refused == old(reader.refused)
              else heap.failed || reader.refused == old(reader.refused) + 1
      ensures old(Sound(size)) && !reader.faulted && ok ==> reader.pos == old(reader.pos) + size
      ensures old(Sound(size)) && !reader.faulted && !heap.failed ==>
        ok && View() == Keep(version, old(View()), id, old(Rest(size)))
    {
      if IsText(id) || IsPicture(version, id) {
        ok := ReadAndKeep(id, size);
      } else {
        ok := reader.Skip(size);
      }
    }

    method ReadAndKeep(id: seq<byte>, size: nat) returns (ok: bool)
      requires size > 0 && id != [] && Balanced({}) && reader.Valid()
      modifies this, heap, reader`pos, reader`faulted, reader`answer, reader`refused
      ensures Balanced({}) && reader.Valid() && parsed == old(parsed)
      ensures (old(heap.failed) ==> heap.failed) && (old(reader.faulted) ==> reader.faulted)
      ensures ok ==> reader.pos == old(reader.pos) + size
      ensures if ok then reader.refused == old(reader.refused)
              else heap.failed || reader.refused == old(reader.refused) + 1
      ensures !ok ==> heap.failed || reader.faulted || !old(Sound(size))
      ensures ok && !heap.failed ==>
        View() == KeptFrame(old(View()), id, reader.input[old(reader.pos)..old(reader.pos) + size])
    {
      var frame := NewPicture([], {});
      if frame.Null? {
        return false;
      }
      var data;
      ok, data := reader.ReadFull(size);
      if ok {
        KeepAndFree(frame, id, data);
      } else {
        FreeFrame(frame);
      }
    }

    method KeepAndFree(frame: Ptr, id: seq<byte>, data: seq<byte>)
      requires id != [] && data != [] && frame.To? && Balanced({frame.block})
      modifies this, heap
      ensures Balanced({}) && (old(heap.failed) ==> heap.failed) && parsed == old(parsed)
      ensures !heap.failed ==> View() == KeptFrame(old(View()), id, data)
    {
      KeepFrame(id, data, {frame.block});
      FreeFrame(frame);
    }

    method FreeFrame(frame: Ptr)
      requires frame.To? && Balanced({frame.block})
      modifies heap`live, heap`owner
      ensures Balanced({})
    {
      assert {} + SetOf(BlockOf(frame)) == {frame.block};
      DropLocal(frame, {});
    }

    method KeepFrame(id: seq<byte>, data: seq<byte>, ghost locals: set<nat>)
      requires id != [] && data != [] && Balanced(locals)
      modifies this, heap
      ensures Balanced(locals) && (old(heap.failed) ==> heap.failed) && parsed == old(parsed)
      ensures !heap.failed ==>
        View() == KeptFrame(old(View()), id, data)
    {
      if IsText(id) {
        KeepTextFrame(id, data, locals);
      } else {
        KeepApicFrame(data, locals);
      }
    }

    /** The frame loop. */
    method ParseAllFrames(version: nat, left: nat) returns (ok: bool, left': nat)
      requires 2 <= version <= 4 && Balanced({}) && reader.Valid()
      modifies this, heap, reader
      ensures Balanced({}) && reader.Valid() && parsed == old(parsed)
      ensures (old(heap.failed) ==> heap.failed) && (old(reader.faulted) ==> reader.faulted)
      ensures ok ==> reader.pos + reader.shortfall + left' == old(reader.pos) + old(reader.shortfall) + left
      ensures ok ==> reader.refused == old(reader.refused)
      ensures !ok ==> heap.failed || reader.refused == old(reader.refused) + 1
      ensures left < HeaderSize(version) ==> ok && left' == left && reader.pos == old(reader.pos)
      ensures ok && old(Sound(left)) && !reader.faulted ==>
        Sound(left') && reader.pos + left' == old(reader.pos) + left
      ensures old(Sound(left)) && !reader.faulted && !heap.failed ==>
        ok && View() == ParseFrames(version, old(Rest(left)), old(View()))
    {
      ghost var start, short, sound := reader.pos, reader.shortfall, Sound(left);
      ghost var result := if Sound(left) then ParseFrames(version, Rest(left), View()) else View();
      left' := left;
      var pass := Again;
      while pass.Again? && left' >= HeaderSize(version)
        invariant Balanced({}) && reader.Valid() && parsed == old(parsed) && !pass.Fail?
        invariant (old(heap.failed) ==> heap.failed) && (old(reader.faulted) ==> reader.faulted)
        invariant reader.pos + reader.shortfall + left' == start + short + left
        invariant reader.refused == old(reader.refused)
        invariant left < HeaderSize(version) ==> left' == left && reader.pos == start
        invariant sound && !reader.faulted ==> Sound(left') && reader.pos + left' == start + left
        invariant sound && !reader.faulted && !heap.failed ==>
          result == if pass.Stop? then View() else ParseFrames(version, Rest(left'), View())
        decreases left'
      {
        pass, left' := ParseOneFrame(version, left');
        if pass.Fail? {
          return false, left';
        }
      }
      ok := true;
    }

    /** id3_parse_v2, the ten header bytes already read. Ownership holds on every return. A successful parse
        has consumed exactly the announced size if and only if every skip moved as far as it was asked to,
        as it does when the reader has the whole tag and does not fail; if no allocation failed either, the
        result is ParseTag's. No failed read or skip is overlooked but that of the last skip. A tag of less
        than a frame header always succeeds. */
    method ParseV2(header: seq<byte>) returns (ok: bool)
      requires |header| == 10 && Balanced({}) && reader.Valid()
      modifies this, heap, reader
      ensures Balanced({}) && reader.Valid() && parsed == (ok || old(parsed))
      ensures (old(heap.failed) ==> heap.failed) && (old(reader.faulted) ==> reader.faulted)
      ensures ok ==> (reader.pos == old(reader.pos) + Syncsafe(header[6..10])
                      <==> reader.shortfall == old(reader.shortfall))
      ensures ok ==> reader.pos + reader.shortfall
                     == old(reader.pos) + old(reader.shortfall) + Syncsafe(header[6..10])
      ensures ok ==> reader.refused <= old(reader.refused) + 1
      ensures SmallTag(header) ==> ok && reader.pos >= old(reader.pos)
      ensures ok && old(Sound(Syncsafe(header[6..10]))) && !reader.faulted ==>
        reader.pos == old(reader.pos) + Syncsafe(header[6..10])
      ensures old(Sound(Syncsafe(header[6..10]))) && !reader.faulted && !heap.failed ==>
        var parse := ParseTag(header, old(Rest(Syncsafe(header[6..10]))), old(View()));
        if ok then parse == Some(View()) else parse.None? && View() == old(View())
    {
      var version: nat := header[3];
      var left: nat := Syncsafe(header[6..10]);
      if version < 2 || version > 4 {
        return false;
      }
      ok, left := SkipExtendedHeader(version, header[5], left);
      if !ok {
        return;
      }
      ok, left := ParseAllFrames(version, left);
      if !ok {
        return;
      }
      if left > 0 {
        var skipped := reader.Skip(left);  // the result is not looked at
      }
      parsed := true;
    }

    /** Exact consumption fails: a version 3 tag of five bytes of padding, cut off after its header, parses
        although the reader has not moved. */
    method ParseCutPadding() returns (ok: bool)
      requires Balanced({}) && reader.Valid() && reader.pos == |reader.input|
      modifies this, heap, reader
      ensures Balanced({}) && ok && parsed && reader.pos == old(reader.pos)
      ensures reader.shortfall == old(reader.shortfall) + 5
    {
      var header: seq<byte> := [73, 68, 51, 3, 0, 0, 0, 0, 0, 5];
      assert header[6..10] == [0, 0, 0, 5];
      ok := ParseV2(header);
    }

    /** End to end: when what the reader has next is the body of a written tag, and neither it nor the
        allocator fails, parsing leaves the meaning of the tag's frames and the reader just past it. */
    method ParseWrittenTag(version: byte, revision: byte, flags: byte, ghost ext: Option<seq<byte>>,
                           ghost frames: seq<Frame>, ghost padding: nat, header: seq<byte>) returns (ok: bool)
      requires Balanced({}) && reader.Valid() && !heap.failed && !reader.faulted
      requires 2 <= version <= 4 && (HasExtendedHeader(flags) <==> ext.Some?)
      requires forall i :: 0 <= i < |frames| ==> FrameOk(version, frames[i])
      requires var body := EncodeBody(version, ext, frames, padding);
               && |body| < 0x1000_0000 && header == EncodeHeader(version, revision, flags, |body|)
               && Sound(|body|) && Rest(|body|) == body
      modifies this, heap, reader
      ensures Balanced({})
      ensures !heap.failed && !reader.faulted ==>
        && ok && parsed && View() == Fold(version, frames, old(View()))
        && reader.pos == old(reader.pos) + |EncodeBody(version, ext, frames, padding)|
    {
      TagRoundTrip(version, revision, flags, ext, frames, padding, View());
      ok := ParseV2(header);
    }

    /** id3_copy_v1_genre. */
    method NewGenre(genre: byte, ghost locals: set<nat>) returns (p: Ptr)
      requires Balanced(locals)
      modifies heap
      ensures p.Null? ==> Balanced(locals) && heap.failed
      ensures p.To? ==> p.block !in locals && Balanced(locals + {p.block}) && heap.failed == old(heap.failed)
      ensures p.To? ==> p.bytes == Decimal(genre)
    {
      var block := heap.Malloc();
      if block.None? {
        return Null;
      }
      var str: seq<byte> := [];
      if genre >= 100 {
        str := str + [DIGIT_0 + genre / 100];
      }
      if genre >= 10 {
        str := str + [DIGIT_0 + genre / 10 % 10];
      }
      str := str + [DIGIT_0 + genre % 10];
      return To(block.value, str);
    }

    /** id3_replace_string on a field of the info, for a string that may be missing. */
    method ReplaceText(field: Field, value: Ptr)
      requires field != Other && Balanced(SetOf(BlockOf(value))) && (value.Null? ==> heap.failed)
      modifies this`title, this`author, this`album, this`date, this`genre, heap`live, heap`owner
      ensures Balanced({})
      ensures View() == if value.To? then WithField(old(View()), field, value.bytes) else old(View())
    {
      if value.To? {
        assert {} + {value.block} == SetOf(BlockOf(value));
        SetField(field, value, {});
      }
    }

    /** One of the text fields of an ID3v1 tag. */
    method KeepV1Text(field: Field, data: seq<byte>)
      requires field != Other && Balanced({})
      modifies this`title, this`author, this`album, this`date, this`genre, heap
      ensures Balanced({}) && (old(heap.failed) ==> heap.failed)
      ensures View() == WithField(old(View()), field, CopyTrim(data)) || (heap.failed && View() == old(View()))
    {
      var value := NewText(data, {});
      assert value.To? ==> {} + {value.block} == SetOf(BlockOf(value));
      ReplaceText(field, value);
    }

    method KeepV1Genre(genre: byte)
      requires Balanced({})
      modifies this`title, this`author, this`album, this`date, this`genre, heap
      ensures Balanced({}) && (old(heap.failed) ==> heap.failed)
      ensures View() == WithField(old(View()), Genre, Decimal(genre)) || (heap.failed && View() == old(View()))
    {
      var value := NewGenre(genre, {});
      assert value.To? ==> {} + {value.block} == SetOf(BlockOf(value));
      ReplaceText(Genre, value);
    }

    /** id3_parse_v1. A field whose allocation failed keeps its old value. */
    method ParseV1(first: seq<byte>) returns (ok: bool)
      requires |first| == 10 && Balanced({}) && reader.Valid()
      modifies this, heap, reader`pos, reader`faulted, reader`answer, reader`refused
      ensures Balanced({}) && reader.Valid() && parsed == (ok || old(parsed))
      ensures (old(heap.failed) ==> heap.failed) && (old(reader.faulted) ==> reader.faulted)
      ensures !ok ==> View() == old(View())
                      && (first[..3] == TAG ==> reader.faulted || old(reader.pos) + 118 > |reader.input|)
      ensures ok ==>
        && first[..3] == TAG && reader.pos == old(reader.pos) + 118
        && var after := ParseTagV1(first + reader.input[old(reader.pos)..reader.pos], old(View()));
           && FieldsFrom(View(), old(View()), after)
           && (!heap.failed ==> View() == after)
    {
      var rest;
      ok, rest := reader.ReadFull(V1_SIZE - 10);
      if !ok {
        return;
      }
      var tag := first + rest;
      assert tag[..3] == first[..3];
      if tag[..3] != TAG {
        return false;
      }
      KeepV1Fields(tag);
      parsed := true;
    }

    method KeepV1Fields(tag: seq<byte>)
      requires |tag| == V1_SIZE && Balanced({})
      modifies this`title, this`author, this`album, this`date, this`genre, this`encoding, heap
      ensures Balanced({}) && (old(heap.failed) ==> heap.failed)
      ensures FieldsFrom(View(), old(View()), ParseTagV1(tag, old(View())))
      ensures !heap.failed ==> View() == ParseTagV1(tag, old(View()))
    {
      KeepV1Text(Title, tag[3..33]);
      KeepV1Text(Author, tag[33..63]);
      KeepV1Text(Album, tag[63..93]);
      KeepV1Text(Date, tag[93..97]);
      KeepV1Genre(tag[127]);
      SetEncoding(ENCODING_ISO_8859_1, {});
    }

    /** id3_parse: ownership on every return; when the reader has the whole tag and neither it nor the
        allocator fails, the result is ParseAny's. */
    method Parse() returns (ok: bool)
      requires Balanced({}) && reader.Valid()
      modifies this, heap, reader
      ensures Balanced({}) && reader.Valid() && parsed == (ok || old(parsed))
      ensures (old(heap.failed) ==> heap.failed) && (old(reader.faulted) ==> reader.faulted)
      ensures ok ==>
        && old(reader.pos) + 10 <= |reader.input|
        && var size := TagSize(reader.input[old(reader.pos)..old(reader.pos) + 10]);
           size.Some? && reader.pos + reader.shortfall == old(reader.pos) + old(reader.shortfall) + size.value
      ensures !old(reader.faulted) && HasWholeTag(old(Ahead())) && !reader.faulted && !heap.failed ==>
        var parse := ParseAny(old(Ahead()), old(View()));
        if ok then parse == Some(View()) else parse.None? && View() == old(View())
    {
      ghost var ahead := Ahead();
      var header;
      ok, header := reader.ReadFull(10);
      if !ok {
        return;
      }
      assert header == ahead[..10];
      ok := ParseAfterHeader(header, ahead);
    }

    /** ... its ten bytes read, `ahead` being those and what follows. */
    method ParseAfterHeader(header: seq<byte>, ghost ahead: seq<byte>) returns (ok: bool)
      requires Balanced({}) && reader.Valid()
      requires |header| == 10 <= |ahead| && header == ahead[..10] && Ahead() == ahead[10..]
      modifies this, heap, reader
      ensures Balanced({}) && reader.Valid() && parsed == (ok || old(parsed))
      ensures (old(heap.failed) ==> heap.failed) && (old(reader.faulted) ==> reader.faulted)
      ensures ok ==>
        && TagSize(header).Some?
        && reader.pos + reader.shortfall + 10 == old(reader.pos) + old(reader.shortfall) + TagSize(header).value
      ensures !old(reader.faulted) && HasWholeTag(ahead) && !reader.faulted && !heap.failed ==>
        var parse := ParseAny(ahead, old(View()));
        if ok then parse == Some(View()) else parse.None? && View() == old(View())
    {
      if header[..3] == ID3 {
        ghost var size := Syncsafe(header[6..10]);
        assert Sound(size) ==> Rest(size) == ahead[10..10 + size];
        ok := ParseV2(header);
      } else if header[..3] == TAG {
        ghost var start := reader.pos;
        ok := ParseV1(header);
        assert ok ==> header + reader.input[start..reader.pos] == ahead[..V1_SIZE];
      } else {
        ok := false;
      }
    }

    /** End to end, either kind: when what the reader has next is a written ID3v1 tag, and neither it nor the
        allocator fails, its fields are read ... */
    method ParseWrittenV1(ghost title: seq<byte>, ghost author: seq<byte>, ghost album: seq<byte>,
                          ghost date: seq<byte>, ghost comment: seq<byte>, ghost genre: byte, ghost pad: byte,
                          ghost tail: seq<byte>) returns (ok: bool)
      requires Balanced({}) && reader.Valid() && !heap.failed && !reader.faulted
      requires |title| <= 30 && |author| <= 30 && |album| <= 30 && |date| <= 4 && |comment| <= 30
      requires Plain(title) && Plain(author) && Plain(album) && Plain(date) && pad in {NUL, SPACE}
      requires Ahead() == EncodeV1(title, author, album, date, comment, genre, pad) + tail
      modifies this, heap, reader
      ensures Balanced({})
      ensures !heap.failed && !reader.faulted ==>
        && ok && parsed
        && View() == old(View()).(title := Some(title), author := Some(author), album := Some(album),
                                  date := Some(date), genre := Some(Decimal(genre)), encoding := 0)
    {
      WrittenV1IsRead(title, author, album, date, comment, genre, pad, View(), tail);
      ok := Parse();
    }

    /** ... and when it is a written ID3v2 tag, the meaning of its frames. */
    method ParseWrittenV2(ghost version: byte, ghost revision: byte, ghost flags: byte, ghost ext: Option<seq<byte>>,
                          ghost frames: seq<Frame>, ghost padding: nat, ghost tail: seq<byte>) returns (ok: bool)
      requires Balanced({}) && reader.Valid() && !heap.failed && !reader.faulted
      requires 2 <= version <= 4 && (HasExtendedHeader(flags) <==> ext.Some?)
      requires forall i :: 0 <= i < |frames| ==> FrameOk(version, frames[i])
      requires var body := EncodeBody(version, ext, frames, padding);
               |body| < 0x1000_0000 && Ahead() == EncodeHeader(version, revision, flags, |body|) + body + tail
      modifies this, heap, reader
      ensures Balanced({})
      ensures !heap.failed && !reader.faulted ==> ok && parsed && View() == Fold(version, frames, old(View()))
    {
      WrittenV2IsRead(version, revision, flags, ext, frames, padding, View(), tail);
      ok := Parse();
    }

    /** What the reader's input still has. */
    ghost function Ahead(): seq<byte>
      reads reader
      requires reader.Valid()
    {
      reader.input[reader.pos..]
    }

    method FreeText(p: Ptr, ghost s: Pointers, ghost field: Field, ghost locals: set<nat>)
      returns (ghost after: Pointers)
      requires heap.Valid() && OwnersAgree(s, heap.owner, others, locals)
      requires field != Other && PointerOf(s, Text(field)) == BlockOf(p)
      modifies heap`live, heap`owner
      ensures heap.Valid() && OwnersAgree(after, heap.owner, others, locals)
      ensures after == WithoutText(s, field)
    {
      after := FreePointer(p, s, WithoutText(s, field), Text(field), locals);
    }

    method FreeTexts(ghost s: Pointers, ghost locals: set<nat>) returns (ghost after: Pointers)
      requires Balanced(locals) && s == Shape()
      modifies heap`live, heap`owner
      ensures heap.Valid() && OwnersAgree(after, heap.owner, others, locals)
      ensures after == s.(title := Null, author := Null, album := Null, date := Null, genre := Null)
    {
      after := FreeText(title, s, Title, locals);
      after := FreeText(author, after, Author, locals);
      after := FreeText(album, after, Album, locals);
      after := FreeText(date, after, Date, locals);
      after := FreeText(genre, after, Genre, locals);
    }

    /** id3_free_info. */
    method FreeInfo(ghost locals: set<nat>)
      requires Balanced(locals)
      modifies this, heap`live, heap`owner
      ensures Balanced(locals) && parsed == old(parsed)
      ensures View() == Info(None, None, None, None, None, None, None, 0, 0, [])
      ensures forall o: Owner :: o != Self ==> PointerOf(Shape(), o) == None
    {
      ghost var s := FreeTexts(Shape(), locals);
      s := FreePicture(s, locals);
      if extraArray.Some? {
        s := FreeExtras(s, locals);
      }
      ClearInfo(s, locals);
    }

    /** The memset at the end of id3_free_info. */
    method ClearInfo(ghost s: Pointers, ghost locals: set<nat>)
      requires heap.Valid() && OwnersAgree(s, heap.owner, others, locals)
      requires s == Pointers(block, Null, Null, Null, Null, Null, Null, Null, None, [])
      modifies this
      ensures Balanced(locals) && parsed == old(parsed)
      ensures View() == Info(None, None, None, None, None, None, None, 0, 0, [])
      ensures forall o: Owner :: o != Self ==> PointerOf(Shape(), o) == None
    {
      title, author, album, date, genre, coverMime, cover := Null, Null, Null, Null, Null, Null, Null;
      coverSize, encoding, extraArray, extra := 0, 0, None, [];
    }

    /** media_lib_free(p), `s'` being what the parser points to without p. */
    method FreePointer(p: Ptr, ghost s: Pointers, ghost s': Pointers, ghost o: Owner, ghost locals: set<nat>)
      returns (ghost after: Pointers)
      requires heap.Valid() && OwnersAgree(s, heap.owner, others, locals)
      requires PointerOf(s, o) == BlockOf(p)
      requires PointerOf(s', o) == None && forall p: Owner :: p != o ==> PointerOf(s', p) == PointerOf(s, p)
      requires s'.extraArray == s.extraArray && |s'.extra| == |s.extra|
      modifies heap`live, heap`owner
      ensures heap.Valid() && OwnersAgree(s', heap.owner, others, locals) && after == s'
    {
      Dropped(s, s', heap.owner, others, locals, o);
      heap.Free(BlockOf(p));
      after := s';
    }

    method FreeExtra(i: nat, ghost s: Pointers, ghost locals: set<nat>) returns (ghost after: Pointers)
      requires heap.Valid() && OwnersAgree(s, heap.owner, others, locals)
      requires i < |extra| == |s.extra| && s.extra[i] == extra[i]
      modifies heap`live, heap`owner
      ensures heap.Valid() && OwnersAgree(after, heap.owner, others, locals)
      ensures after == s.(extra := s.extra[i := KeyValue(Null, Null, 0)])
    {
      var kv := extra[i];
      after := FreePointer(kv.key, s, s.(extra := s.extra[i := kv.(key := Null)]), ExtraKey(i), locals);
      ghost var bare := after.(extra := after.extra[i := KeyValue(Null, Null, 0)]);
      after := FreePointer(kv.value, after, bare, ExtraValue(i), locals);
    }

    method FreeExtras(ghost s: Pointers, ghost locals: set<nat>) returns (ghost after: Pointers)
      requires heap.Valid() && OwnersAgree(s, heap.owner, others, locals)
      requires s.extra == extra && s.extraArray == extraArray && extraArray.Some?
      modifies heap`live, heap`owner
      ensures heap.Valid() && OwnersAgree(after, heap.owner, others, locals)
      ensures after == s.(extraArray := None, extra := [])
    {
      after := s;
      for i := 0 to |extra|
        invariant heap.Valid() && OwnersAgree(after, heap.owner, others, locals)
        invariant after == s.(extra := after.extra) && |after.extra| == |extra| && after.extra[i..] == extra[i..]
        invariant forall j :: 0 <= j < i ==> after.extra[j].key.Null? && after.extra[j].value.Null?
      {
        assert after.extra[i] == after.extra[i..][0] == extra[i];
        after := FreeExtra(i, after, locals);
      }
      Dropped(after, s.(extraArray := None, extra := []), heap.owner, others, locals, ExtraArray);
      heap.Free(extraArray);
      after := s.(extraArray := None, extra := []);
    }

    /** esp_extractor_id3_parser_close: exactly the blocks live before open are live again. */
    method Close()
      requires Balanced({})
      modifies this, heap`live, heap`owner
      ensures heap.Valid() && heap.live == others
    {
      FreeInfo({});
      assert PointerOf(Shape(), Self) == Some(block);
      assert forall b :: b in heap.owner && heap.owner[b] == Self ==> b == block;
      assert forall b :: b in heap.owner ==> b in others || heap.owner[b] == Self;
      heap.Free(Some(block));
    }
  }
}
