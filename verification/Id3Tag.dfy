/** ID3v2 tags: how frames are written, how id3_parse_v2 reads a tag, and what a list of frames means
    (esp_extractor_id3_parser.c:121-234, 275-349; ID3v2.4.0 Main Structure sections 3 and 4). */
module Id3Tag {
  import opened Wrappers
  import opened Bytes
  import opened Id3Text

  const MAX_EXTRA: nat := 8
  const ENCODING_NONE: byte := 255
  const ENCODING_UTF_8: byte := 3

  datatype Extra = Extra(key: seq<byte>, value: seq<byte>, encoding: byte)

  datatype Info = Info(
    title: Option<seq<byte>>, author: Option<seq<byte>>, album: Option<seq<byte>>,
    date: Option<seq<byte>>, genre: Option<seq<byte>>,
    mime: Option<seq<byte>>, cover: Option<seq<byte>>, coverSize: nat,
    encoding: byte, extra: seq<Extra>)

  datatype Field = Title | Author | Album | Date | Genre | Other

  // Frame ids, as bytes.
  const TIT2: seq<byte> := [84, 73, 84, 50]
  const TT2: seq<byte> := [84, 84, 50]
  const TPE1: seq<byte> := [84, 80, 69, 49]
  const TP1: seq<byte> := [84, 80, 49]
  const TALB: seq<byte> := [84, 65, 76, 66]
  const TAL: seq<byte> := [84, 65, 76]
  const TDRC: seq<byte> := [84, 68, 82, 67]
  const TYER: seq<byte> := [84, 89, 69, 82]
  const TYE: seq<byte> := [84, 89, 69]
  const TCON: seq<byte> := [84, 67, 79, 78]
  const TCO: seq<byte> := [84, 67, 79]
  const APIC: seq<byte> := [65, 80, 73, 67]
  const PIC: seq<byte> := [80, 73, 67]
  const ID3: seq<byte> := [73, 68, 51]

  /** id3_is_same_key: the key is a prefix of the frame id. */
  predicate SameKey(id: seq<byte>, key: seq<byte>) {
    |key| <= |id| && forall i :: 0 <= i < |key| ==> id[i] == key[i]
  }

  function FieldOf(id: seq<byte>): Field {
    if SameKey(id, TIT2) || SameKey(id, TT2) then Title
    else if SameKey(id, TPE1) || SameKey(id, TP1) then Author
    else if SameKey(id, TALB) || SameKey(id, TAL) then Album
    else if SameKey(id, TDRC) || SameKey(id, TYER) || SameKey(id, TYE) then Date
    else if SameKey(id, TCON) || SameKey(id, TCO) then Genre
    else Other
  }

  function TextValue(payload: seq<byte>): seq<byte>
    requires payload != []
  {
    CopyTrim(payload[1..])
  }

  function TextEncoding(payload: seq<byte>): byte {
    if payload == [] || payload[0] > ENCODING_UTF_8 then ENCODING_NONE else payload[0]
  }

  /** A frame id as the C string the extra's key is copied from. */
  function CString(id: seq<byte>): seq<byte> {
    if id == [] || id[0] == NUL then [] else [id[0]] + CString(id[1..])
  }

  function ExtraOf(id: seq<byte>, payload: seq<byte>): Extra
    requires payload != []
  {
    Extra(CopyTrim(CString(id)), TextValue(payload), TextEncoding(payload))
  }

  function WithField(info: Info, field: Field, value: seq<byte>): Info {
    match field
    case Title => info.(title := Some(value))
    case Author => info.(author := Some(value))
    case Album => info.(album := Some(value))
    case Date => info.(date := Some(value))
    case Genre => info.(genre := Some(value))
    case Other => info
  }

  function KeepText(info: Info, id: seq<byte>, payload: seq<byte>): Info {
    if payload == [] then info
    else
      var kept := info.(encoding := TextEncoding(payload));
      if FieldOf(id) != Other then WithField(kept, FieldOf(id), TextValue(payload))
      else if |info.extra| >= MAX_EXTRA then kept
      else kept.(extra := info.extra + [ExtraOf(id, payload)])
  }

  /** The first NUL at or after a position, or the length. */
  function FindNul(p: seq<byte>, from: nat): (i: nat)
    requires from <= |p|
    ensures from <= i <= |p| && (i < |p| ==> p[i] == NUL)
    ensures forall j :: from <= j < i ==> p[j] != NUL
    decreases |p| - from
  {
    if from == |p| || p[from] == NUL then from else FindNul(p, from + 1)
  }

  /** The MIME type and the picture of an attached-picture frame, if it has them. */
  function PictureParts(p: seq<byte>): Option<(seq<byte>, seq<byte>)> {
    if |p| < 5 then None
    else
      var mimeEnd := FindNul(p, 1);
      if mimeEnd + 1 >= |p| then None
      else
        var end := FindNul(p, mimeEnd + 2);
        if end >= |p| then None else Some((CopyTrim(p[1..mimeEnd]), p[end + 1..]))
  }

  function KeepPicture(info: Info, payload: seq<byte>): Info {
    match PictureParts(payload)
    case None => info
    case Some((mime, cover)) => info.(mime := Some(mime), cover := Some(cover), coverSize := |cover|)
  }

  predicate IsText(id: seq<byte>) {
    id != [] && id[0] == 84  // 'T'
  }

  predicate IsPicture(version: nat, id: seq<byte>) {
    if version == 2 then SameKey(id, PIC) else SameKey(id, APIC)
  }

  function Keep(version: nat, info: Info, id: seq<byte>, payload: seq<byte>): Info {
    if IsText(id) then KeepText(info, id, payload)
    else if IsPicture(version, id) then KeepPicture(info, payload)
    else info
  }

  // Reading.

  function HeaderSize(version: nat): nat {
    if version == 2 then 6 else 10
  }

  function IdSize(version: nat): nat {
    if version == 2 then 3 else 4
  }

  function FrameSize(version: nat, header: seq<byte>): nat
    requires |header| == HeaderSize(version)
  {
    if version == 2 then Be24(header[3..6])
    else if version == 4 then Syncsafe(header[4..8])
    else Be32(header[4..8])
  }

  /** The frame loop over the bytes that are left. */
  function ParseFrames(version: nat, left: seq<byte>, info: Info): Info
    decreases |left|
  {
    var h := HeaderSize(version);
    if |left| < h || left[0] == 0 then info
    else
      var size := FrameSize(version, left[..h]);
      if size == 0 || size > |left| - h then info
      else ParseFrames(version, left[h + size..],
                       Keep(version, info, left[..IdSize(version)], left[h..h + size]))
  }

  /** Flag 0x40. */
  predicate HasExtendedHeader(flags: byte) {
    flags / 64 % 2 == 1
  }

  /** What is left after the extended header, unless its size is out of range. */
  function AfterExtendedHeader(version: nat, flags: byte, body: seq<byte>): Option<seq<byte>> {
    if !HasExtendedHeader(flags) || |body| < 4 then Some(body)
    else if version == 4 then
      var size := Syncsafe(body[..4]);
      if size < 4 || size > |body| then None else Some(body[size..])
    else
      var size := Be32(body[..4]);
      if size > |body| - 4 then None else Some(body[4 + size..])
  }

  /** id3_parse_v2, its header already read and its body at hand; None is the error return. */
  function ParseTag(header: seq<byte>, body: seq<byte>, info: Info): Option<Info>
    requires |header| == 10
  {
    var version := header[3];
    if version < 2 || version > 4 then None
    else
      match AfterExtendedHeader(version, header[5], body)
      case None => None
      case Some(left) => Some(ParseFrames(version, left, info))
  }

  // Writing.

  /** A frame; `flags` are the two flag bytes of versions 3 and 4, which the parser ignores. */
  datatype Frame = Frame(id: seq<byte>, flags: seq<byte>, payload: seq<byte>)

  /** What its header can express. */
  predicate HasShape(version: nat, f: Frame) {
    && |f.id| == IdSize(version) && |f.flags| == 2
    && |f.payload| < if version == 2 then 0x100_0000 else 0x1000_0000
  }

  predicate FrameOk(version: nat, f: Frame) {
    HasShape(version, f) && f.id[0] != 0 && f.payload != []
  }

  function EncodeFrameHeader(version: nat, f: Frame): seq<byte> {
    if version == 2 then f.id + ToBe24(|f.payload|)
    else if version == 4 then f.id + ToSyncsafe(|f.payload|) + f.flags
    else f.id + ToBe32(|f.payload|) + f.flags
  }

  function EncodeFrames(version: nat, frames: seq<Frame>): seq<byte> {
    if frames == [] then []
    else EncodeFrameHeader(version, frames[0]) + frames[0].payload + EncodeFrames(version, frames[1..])
  }

  /** Version 4 counts the size field itself, versions 2 and 3 do not. */
  function EncodeExtendedHeader(version: nat, ext: Option<seq<byte>>): seq<byte> {
    match ext
    case None => []
    case Some(e) => (if version == 4 then ToSyncsafe(4 + |e|) else ToBe32(|e|)) + e
  }

  function Zeros(n: nat): seq<byte> {
    seq(n, _ => 0)
  }

  function EncodeBody(version: nat, ext: Option<seq<byte>>, frames: seq<Frame>, padding: nat): seq<byte> {
    EncodeExtendedHeader(version, ext) + (EncodeFrames(version, frames) + Zeros(padding))
  }

  function EncodeHeader(version: byte, revision: byte, flags: byte, size: nat): (h: seq<byte>)
    ensures |h| == 10
  {
    ID3 + [version, revision, flags] + ToSyncsafe(size)
  }

  /** What a list of frames means: each is kept in turn. */
  function Fold(version: nat, frames: seq<Frame>, info: Info): Info {
    if frames == [] then info
    else Fold(version, frames[1..], Keep(version, info, frames[0].id, frames[0].payload))
  }

  lemma SizeField(version: nat, f: Frame)
    requires 2 <= version <= 4 && HasShape(version, f)
    ensures var h := EncodeFrameHeader(version, f);
            && |h| == HeaderSize(version) && h[..IdSize(version)] == f.id
            && FrameSize(version, h) == |f.payload|
  {
    var h := EncodeFrameHeader(version, f);
    if version == 2 {
      assert h[3..6] == ToBe24(|f.payload|);
      Be24RoundTrip(|f.payload|);
    } else if version == 4 {
      assert h[4..8] == ToSyncsafe(|f.payload|);
      SyncsafeWritesRead(|f.payload|);
    } else {
      assert h[4..8] == ToBe32(|f.payload|);
      Be32RoundTrip(|f.payload|);
    }
  }

  lemma FrameHeaderReads(version: nat, f: Frame)
    requires 2 <= version <= 4 && FrameOk(version, f)
    ensures var h := EncodeFrameHeader(version, f);
            && |h| == HeaderSize(version) && h[0] != 0
            && h[..IdSize(version)] == f.id
            && FrameSize(version, h) == |f.payload|
  {
    SizeField(version, f);
    assert EncodeFrameHeader(version, f)[0] == f.id[0];
  }

  lemma EncodedFrameIsKept(version: nat, f: Frame, tail: seq<byte>, info: Info)
    requires 2 <= version <= 4 && FrameOk(version, f)
    ensures ParseFrames(version, EncodeFrameHeader(version, f) + f.payload + tail, info)
         == ParseFrames(version, tail, Keep(version, info, f.id, f.payload))
  {
    var head := EncodeFrameHeader(version, f);
    var left, h, size := head + f.payload + tail, HeaderSize(version), |f.payload|;
    FrameHeaderReads(version, f);
    assert left[..h] == head;
    assert left[..IdSize(version)] == head[..IdSize(version)];
    assert left[h..h + size] == f.payload;
    assert left[h + size..] == tail;
  }

  lemma {:induction false} EncodedFramesFold(version: nat, frames: seq<Frame>, padding: nat, info: Info)
    requires 2 <= version <= 4 && forall i :: 0 <= i < |frames| ==> FrameOk(version, frames[i])
    ensures ParseFrames(version, EncodeFrames(version, frames) + Zeros(padding), info) == Fold(version, frames, info)
    decreases |frames|
  {
    if frames == [] {
      assert [] + Zeros(padding) == Zeros(padding);
    } else {
      var f, later := frames[0], EncodeFrames(version, frames[1..]);
      assert EncodeFrameHeader(version, f) + f.payload + later + Zeros(padding)
          == EncodeFrameHeader(version, f) + f.payload + (later + Zeros(padding));
      EncodedFrameIsKept(version, f, later + Zeros(padding), info);
      EncodedFramesFold(version, frames[1..], padding, Keep(version, info, f.id, f.payload));
    }
  }

  lemma ExtendedHeaderIsSkipped(version: nat, flags: byte, ext: Option<seq<byte>>, rest: seq<byte>)
    requires 2 <= version <= 4 && (HasExtendedHeader(flags) <==> ext.Some?)
    requires ext.Some? ==> |ext.value| + 4 < 0x1000_0000
    ensures AfterExtendedHeader(version, flags, EncodeExtendedHeader(version, ext) + rest) == Some(rest)
  {
    var body := EncodeExtendedHeader(version, ext) + rest;
    if ext.Some? {
      var e := ext.value;
      if version == 4 {
        SyncsafeWritesRead(4 + |e|);
        assert body[..4] == ToSyncsafe(4 + |e|);
      } else {
        Be32RoundTrip(|e|);
        assert body[..4] == ToBe32(|e|);
      }
      assert body[4 + |e|..] == rest;
    } else {
      assert body == rest;
    }
  }

  /** Round trip: a tag of any of the three versions, with or without an extended header, with any
      frames and any zero padding, announces its size and parses to the meaning of its frames. */
  lemma TagRoundTrip(version: byte, revision: byte, flags: byte, ext: Option<seq<byte>>,
                     frames: seq<Frame>, padding: nat, info: Info)
    requires 2 <= version <= 4 && (HasExtendedHeader(flags) <==> ext.Some?)
    requires forall i :: 0 <= i < |frames| ==> FrameOk(version, frames[i])
    requires |EncodeBody(version, ext, frames, padding)| < 0x1000_0000
    ensures var body := EncodeBody(version, ext, frames, padding);
            var header := EncodeHeader(version, revision, flags, |body|);
            && Syncsafe(header[6..10]) == |body|
            && ParseTag(header, body, info) == Some(Fold(version, frames, info))
  {
    var body := EncodeBody(version, ext, frames, padding);
    var header := EncodeHeader(version, revision, flags, |body|);
    assert header[6..10] == ToSyncsafe(|body|);
    SyncsafeWritesRead(|body|);
    ExtendedHeaderIsSkipped(version, flags, ext, EncodeFrames(version, frames) + Zeros(padding));
    EncodedFramesFold(version, frames, padding, info);
  }

  /** What the loop does not read past: an empty frame, one longer than what is left, and a zero byte, whatever
      follows. */
  lemma LoopStops(version: nat, f: Frame, tail: seq<byte>, info: Info)
    requires 2 <= version <= 4 && HasShape(version, f)
    requires f.payload == [] || |tail| < |f.payload| || f.id[0] == 0
    ensures ParseFrames(version, EncodeFrameHeader(version, f) + tail, info) == info
  {
    var head := EncodeFrameHeader(version, f);
    var left, h := head + tail, HeaderSize(version);
    SizeField(version, f);
    assert left[..h] == head && left[0] == head[0] == f.id[0];
  }

  /** Which tags are refused: those of another version, and those whose extended header is longer than the tag
      or, in version 4, shorter than its own size field. */
  lemma RefusedTags(header: seq<byte>, body: seq<byte>, info: Info)
    requires |header| == 10
    ensures ParseTag(header, body, info).None? <==>
      || header[3] !in {2, 3, 4}
      || (HasExtendedHeader(header[5]) && |body| >= 4
          && if header[3] == 4 then Syncsafe(body[..4]) < 4 || Syncsafe(body[..4]) > |body|
             else Be32(body[..4]) + 4 > |body|)
  {
  }

  // What the fold amounts to.

  function Get(info: Info, field: Field): Option<seq<byte>> {
    match field
    case Title => info.title
    case Author => info.author
    case Album => info.album
    case Date => info.date
    case Genre => info.genre
    case Other => None
  }

  /** What one frame gives a field, the extras, the picture: at most one value. */
  function ValueOf(f: Frame, field: Field): seq<seq<byte>> {
    if IsText(f.id) && f.payload != [] && FieldOf(f.id) == field then [TextValue(f.payload)] else []
  }

  function UnmatchedOf(f: Frame): seq<Extra> {
    if IsText(f.id) && f.payload != [] && FieldOf(f.id) == Other then [ExtraOf(f.id, f.payload)] else []
  }

  function PictureOf(version: nat, f: Frame): seq<(seq<byte>, seq<byte>)> {
    if !IsText(f.id) && IsPicture(version, f.id) && PictureParts(f.payload).Some?
    then [PictureParts(f.payload).value] else []
  }

  function Values(frames: seq<Frame>, field: Field): seq<seq<byte>> {
    if frames == [] then [] else ValueOf(frames[0], field) + Values(frames[1..], field)
  }

  function Unmatched(frames: seq<Frame>): seq<Extra> {
    if frames == [] then [] else UnmatchedOf(frames[0]) + Unmatched(frames[1..])
  }

  function Pictures(version: nat, frames: seq<Frame>): seq<(seq<byte>, seq<byte>)> {
    if frames == [] then [] else PictureOf(version, frames[0]) + Pictures(version, frames[1..])
  }

  function LastOr<T>(s: seq<T>, otherwise: Option<T>): Option<T> {
    if s == [] then otherwise else Some(s[|s| - 1])
  }

  lemma LastOrConcat<T>(a: seq<T>, b: seq<T>, otherwise: Option<T>)
    ensures LastOr(a + b, otherwise) == LastOr(b, LastOr(a, otherwise))
  {
  }

  lemma KeepSetsField(version: nat, f: Frame, info: Info, field: Field)
    requires field != Other
    ensures Get(Keep(version, info, f.id, f.payload), field) == LastOr(ValueOf(f, field), Get(info, field))
  {
  }

  /** Of the frames that name a field, the last one wins. */
  lemma {:induction false} LastFrameWins(version: nat, frames: seq<Frame>, info: Info, field: Field)
    requires field != Other
    ensures Get(Fold(version, frames, info), field) == LastOr(Values(frames, field), Get(info, field))
    decreases |frames|
  {
    if frames != [] {
      var f := frames[0];
      KeepSetsField(version, f, info, field);
      LastFrameWins(version, frames[1..], Keep(version, info, f.id, f.payload), field);
      LastOrConcat(ValueOf(f, field), Values(frames[1..], field), Get(info, field));
    }
  }

  function FirstEight(extras: seq<Extra>): seq<Extra> {
    if |extras| <= 8 then extras else extras[..8]
  }

  lemma FirstEightOfConcat(a: seq<Extra>, b: seq<Extra>, c: seq<Extra>)
    ensures FirstEight(FirstEight(a + b) + c) == FirstEight(a + (b + c))
  {
    assert a + b + c == a + (b + c);
    if |a + b| > MAX_EXTRA {
      assert (a + b + c)[..MAX_EXTRA] == (a + b)[..MAX_EXTRA];
    }
  }

  lemma KeepsFirstEight(version: nat, f: Frame, info: Info)
    requires |info.extra| <= MAX_EXTRA
    ensures Keep(version, info, f.id, f.payload).extra == FirstEight(info.extra + UnmatchedOf(f))
  {
    assert UnmatchedOf(f) == [] ==> info.extra + [] == info.extra;
  }

  /** The extras are the first eight unmatched text frames, in order. */
  lemma {:induction false} FirstUnmatchedAreKept(version: nat, frames: seq<Frame>, info: Info)
    requires |info.extra| <= MAX_EXTRA
    ensures Fold(version, frames, info).extra == FirstEight(info.extra + Unmatched(frames))
    decreases |frames|
  {
    if frames == [] {
      assert info.extra + [] == info.extra;
    } else {
      var f := frames[0];
      KeepsFirstEight(version, f, info);
      FirstUnmatchedAreKept(version, frames[1..], Keep(version, info, f.id, f.payload));
      FirstEightOfConcat(info.extra, UnmatchedOf(f), Unmatched(frames[1..]));
    }
  }

  function EncodingsOf(frames: seq<Frame>): seq<byte> {
    if frames == [] then []
    else
      (if IsText(frames[0].id) && frames[0].payload != [] then [TextEncoding(frames[0].payload)] else [])
      + EncodingsOf(frames[1..])
  }

  /** The info's encoding is that of the last text frame, unmatched ones and those past the eighth included. */
  lemma {:induction false} LastTextSetsEncoding(version: nat, frames: seq<Frame>, info: Info)
    ensures Some(Fold(version, frames, info).encoding) == LastOr(EncodingsOf(frames), Some(info.encoding))
    decreases |frames|
  {
    if frames != [] {
      var f := frames[0];
      LastTextSetsEncoding(version, frames[1..], Keep(version, info, f.id, f.payload));
      var first := if IsText(f.id) && f.payload != [] then [TextEncoding(f.payload)] else [];
      LastOrConcat(first, EncodingsOf(frames[1..]), Some(info.encoding));
    }
  }

  /** The picture fields of an info that last took `p`, or still has those of `otherwise`. */
  predicate HasPicture(info: Info, p: Option<(seq<byte>, seq<byte>)>, otherwise: Info) {
    match p
    case None => info.mime == otherwise.mime && info.cover == otherwise.cover && info.coverSize == otherwise.coverSize
    case Some((mime, cover)) => info.mime == Some(mime) && info.cover == Some(cover) && info.coverSize == |cover|
  }

  lemma KeepSetsPicture(version: nat, f: Frame, info: Info)
    ensures HasPicture(Keep(version, info, f.id, f.payload), LastOr(PictureOf(version, f), None), info)
  {
  }

  /** Of the accepted pictures, the last one wins, with its MIME type and size. */
  lemma {:induction false} LastPictureWins(version: nat, frames: seq<Frame>, info: Info)
    ensures HasPicture(Fold(version, frames, info), LastOr(Pictures(version, frames), None), info)
    decreases |frames|
  {
    if frames != [] {
      var f := frames[0];
      KeepSetsPicture(version, f, info);
      LastPictureWins(version, frames[1..], Keep(version, info, f.id, f.payload));
      LastOrConcat(PictureOf(version, f), Pictures(version, frames[1..]), None);
      LastOrWithDefault(Pictures(version, frames[1..]), LastOr(PictureOf(version, f), None));
    }
  }

  lemma LastOrWithDefault<T>(s: seq<T>, otherwise: Option<T>)
    ensures LastOr(s, otherwise) == if LastOr(s, None).Some? then LastOr(s, None) else otherwise
  {
  }

  lemma ThreeLetterKey(id: seq<byte>, key: seq<byte>)
    requires |key| == 3
    ensures SameKey(id, key) <==> |id| >= 3 && id[0] == key[0] && id[1] == key[1] && id[2] == key[2]
  {
  }

  lemma LongKeyNeedsSecondLetter(id: seq<byte>, key: seq<byte>)
    requires |key| >= 3 && SameKey(id, key)
    ensures |id| >= 3 && id[0] == key[0] && id[1] == key[1] && id[2] == key[2]
  {
  }

  /** Prefix matching: every id that begins TAL is an album, so TALB adds nothing to it; and every id
      that begins TCO, composer (TCOM) and copyright (TCOP) included, is a genre. */
  lemma AlbumAndGenreByPrefix(id: seq<byte>)
    ensures FieldOf(id) == Album <==> SameKey(id, TAL)
    ensures FieldOf(id) == Genre <==> SameKey(id, TCO)
  {
    forall key | key in [TIT2, TT2, TPE1, TP1, TALB, TAL, TDRC, TYER, TYE, TCON, TCO] && SameKey(id, key)
      ensures |id| >= 3 && id[1] == key[1] && id[2] == key[2]
    {
      LongKeyNeedsSecondLetter(id, key);
    }
    ThreeLetterKey(id, TAL);
    ThreeLetterKey(id, TCO);
  }

  // The same in letters.

  predicate Begins(id: seq<byte>, letters: string) {
    |letters| <= |id| && forall i :: 0 <= i < |letters| ==> id[i] == letters[i] as int
  }

  lemma KeyLetters(id: seq<byte>)
    ensures SameKey(id, TIT2) <==> Begins(id, "TIT2")
    ensures SameKey(id, TT2) <==> Begins(id, "TT2")
    ensures SameKey(id, TPE1) <==> Begins(id, "TPE1")
    ensures SameKey(id, TP1) <==> Begins(id, "TP1")
    ensures SameKey(id, TAL) <==> Begins(id, "TAL")
    ensures SameKey(id, TDRC) <==> Begins(id, "TDRC")
    ensures SameKey(id, TYER) <==> Begins(id, "TYER")
    ensures SameKey(id, TYE) <==> Begins(id, "TYE")
    ensures SameKey(id, TCO) <==> Begins(id, "TCO")
    ensures SameKey(id, APIC) <==> Begins(id, "APIC")
    ensures SameKey(id, PIC) <==> Begins(id, "PIC")
  {
    KeyIs(id, TIT2, "TIT2");
    KeyIs(id, TT2, "TT2");
    KeyIs(id, TPE1, "TPE1");
    KeyIs(id, TP1, "TP1");
    KeyIs(id, TAL, "TAL");
    KeyIs(id, TDRC, "TDRC");
    KeyIs(id, TYER, "TYER");
    KeyIs(id, TYE, "TYE");
    KeyIs(id, TCO, "TCO");
    KeyIs(id, APIC, "APIC");
    KeyIs(id, PIC, "PIC");
  }

  lemma KeyIs(id: seq<byte>, key: seq<byte>, letters: string)
    requires |key| == |letters| && forall i :: 0 <= i < |letters| ==> key[i] == letters[i] as int
    ensures SameKey(id, key) <==> Begins(id, letters)
  {
  }

  /** The second letter tells the fields' keys apart. */
  lemma SecondLetter(id: seq<byte>, key: seq<byte>)
    requires |key| >= 2 && SameKey(id, key)
    ensures |id| >= 2 && id[1] == key[1]
  {
  }

  lemma FieldByKeys(id: seq<byte>)
    ensures FieldOf(id) == Title <==> SameKey(id, TIT2) || SameKey(id, TT2)
    ensures FieldOf(id) == Author <==> SameKey(id, TPE1) || SameKey(id, TP1)
    ensures FieldOf(id) == Date <==> SameKey(id, TDRC) || SameKey(id, TYER) || SameKey(id, TYE)
  {
    forall key | key in [TIT2, TT2, TPE1, TP1, TALB, TAL, TDRC, TYER, TYE, TCON, TCO] && SameKey(id, key)
      ensures |id| >= 2 && id[1] == key[1]
    {
      SecondLetter(id, key);
    }
  }

  /** Which ids name which field: the key that an id begins with decides, and no id begins with two. */
  lemma FieldByLetters(id: seq<byte>)
    ensures FieldOf(id) == Title <==> Begins(id, "TIT2") || Begins(id, "TT2")
    ensures FieldOf(id) == Author <==> Begins(id, "TPE1") || Begins(id, "TP1")
    ensures FieldOf(id) == Album <==> Begins(id, "TAL")
    ensures FieldOf(id) == Date <==> Begins(id, "TDRC") || Begins(id, "TYER") || Begins(id, "TYE")
    ensures FieldOf(id) == Genre <==> Begins(id, "TCO")
  {
    KeyLetters(id);
    FieldByKeys(id);
    AlbumAndGenreByPrefix(id);
  }

  lemma PictureByLetters(version: nat, id: seq<byte>)
    ensures IsPicture(version, id) <==> if version == 2 then Begins(id, "PIC") else Begins(id, "APIC")
    ensures IsText(id) <==> Begins(id, "T")
  {
    KeyLetters(id);
  }

  /** A plain text after its encoding byte is read back, with its encoding if that is one of the four; for an
      unmatched frame it becomes an extra under the frame's id. */
  lemma TextRoundTrip(id: seq<byte>, encoding: byte, text: seq<byte>)
    requires Plain(text) && Plain(id)
    ensures TextValue([encoding] + text) == text
    ensures TextEncoding([encoding] + text) == if encoding in {0, 1, 2, 3} then encoding else 255
    ensures ExtraOf(id, [encoding] + text)
            == Extra(id, text, if encoding in {0, 1, 2, 3} then encoding else 255)
  {
    assert ([encoding] + text)[1..] == text;
    PlainIsKept(text);
    PlainIsKept(id);
    CStringOfPlain(id);
  }

  lemma {:induction false} CStringOfPlain(id: seq<byte>)
    requires NUL !in id
    ensures CString(id) == id
  {
    if id != [] {
      CStringOfPlain(id[1..]);
      assert id == [id[0]] + id[1..];
    }
  }

  /** The flag byte announces an extended header by its bit 6. */
  lemma ExtendedHeaderFlag(flags: byte)
    ensures HasExtendedHeader(flags) <==> 64 <= flags < 128 || 192 <= flags
  {
  }

  /** A version 2, 3 and 4 frame header and a tag header, byte for byte. */
  lemma HeaderLayout(payload: seq<byte>)
    requires |payload| == 257
    ensures EncodeFrameHeader(2, Frame([84, 84, 50], [8, 9], payload)) == [84, 84, 50, 0, 1, 1]
    ensures EncodeFrameHeader(3, Frame([84, 73, 84, 50], [8, 9], payload)) == [84, 73, 84, 50, 0, 0, 1, 1, 8, 9]
    ensures EncodeFrameHeader(4, Frame([84, 73, 84, 50], [8, 9], payload)) == [84, 73, 84, 50, 0, 0, 2, 1, 8, 9]
    ensures EncodeHeader(4, 5, 64, 257) == [73, 68, 51, 4, 5, 64, 0, 0, 2, 1]
    ensures EncodeExtendedHeader(3, Some([7])) == [0, 0, 0, 1, 7]
    ensures EncodeExtendedHeader(4, Some([7])) == [0, 0, 0, 5, 7]
  {
  }

  // Pictures.

  /** An attached-picture payload: encoding, MIME type, picture type, description, picture data. */
  function EncodePicture(encoding: byte, mime: seq<byte>, kind: byte, description: seq<byte>, data: seq<byte>)
    : seq<byte>
  {
    [encoding] + mime + [NUL] + [kind] + description + [NUL] + data
  }

  /** Round trip: NUL-free MIME type and description and a non-empty picture come back, the picture
      byte for byte and the MIME type trimmed. */
  lemma PictureRoundTrip(encoding: byte, mime: seq<byte>, kind: byte, description: seq<byte>, data: seq<byte>)
    requires NUL !in mime && NUL !in description && data != []
    ensures PictureParts(EncodePicture(encoding, mime, kind, description, data)) == Some((CopyTrim(mime), data))
  {
    var p := EncodePicture(encoding, mime, kind, description, data);
    var m := 1 + |mime|;
    assert p[1..m] == mime && p[m] == NUL;
    forall j | 1 <= j < m ensures p[j] != NUL {
      assert p[j] == mime[j - 1];
    }
    assert FindNul(p, 1) == m;
    var d := m + 2 + |description|;
    assert p[m + 2..d] == description && p[d] == NUL;
    forall j | m + 2 <= j < d ensures p[j] != NUL {
      assert p[j] == description[j - m - 2];
    }
    assert FindNul(p, m + 2) == d;
    assert p[d + 1..] == data;
  }

  /** ... and nothing else is accepted: whatever the parser takes for a picture is such a payload. */
  lemma AcceptedPictureHasParts(p: seq<byte>)
    returns (mime: seq<byte>, kind: byte, description: seq<byte>, data: seq<byte>)
    requires PictureParts(p).Some?
    ensures |p| >= 5 && NUL !in mime && NUL !in description
    ensures p == EncodePicture(p[0], mime, kind, description, data)
    ensures PictureParts(p).value == (CopyTrim(mime), data)
  {
    var m := FindNul(p, 1);
    var d := FindNul(p, m + 2);
    mime, kind, description, data := p[1..m], p[m + 1], p[m + 2..d], p[d + 1..];
    assert p[d] == NUL && p[m] == NUL;
    FourCuts(p, m, d);
  }

  /** A sequence is its pieces around three single elements. */
  lemma FourCuts(p: seq<byte>, m: nat, d: nat)
    requires 1 <= m && m + 2 <= d < |p|
    ensures p == [p[0]] + p[1..m] + [p[m]] + [p[m + 1]] + p[m + 2..d] + [p[d]] + p[d + 1..]
  {
    assert p[..m] == [p[0]] + p[1..m];
    assert p[..m + 2] == p[..m] + [p[m]] + [p[m + 1]];
    assert p[..d] == p[..m + 2] + p[m + 2..d];
    assert p[..d + 1] == p[..d] + [p[d]];
    assert p == p[..d + 1] + p[d + 1..];
  }
}
