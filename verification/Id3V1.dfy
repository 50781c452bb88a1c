/** ID3v1 tags: 128 bytes of fixed fields (esp_extractor_id3_parser.c:177-193, 255-273). */
module Id3V1 {
  import opened Wrappers
  import opened Bytes
  import opened Id3Text
  import opened Id3Tag

  const V1_SIZE: nat := 128
  const TAG: seq<byte> := [84, 65, 71]
  const ENCODING_ISO_8859_1: byte := 0
  const DIGIT_0: byte := 48

  /** id3_copy_v1_genre: a byte in decimal. */
  function Decimal(n: byte): seq<byte> {
    (if n >= 100 then [DIGIT_0 + n / 100] else [])
    + (if n >= 10 then [DIGIT_0 + n / 10 % 10] else [])
    + [DIGIT_0 + n % 10]
  }

  function FromDecimal(d: seq<byte>): int {
    if d == [] then 0 else FromDecimal(d[..|d| - 1]) * 10 + (d[|d| - 1] - DIGIT_0)
  }

  /** The digits are those of the number, at most three and without leading zeros. */
  lemma DecimalRoundTrip(n: byte)
    ensures FromDecimal(Decimal(n)) == n
    ensures forall i :: 0 <= i < |Decimal(n)| ==> DIGIT_0 <= Decimal(n)[i] < DIGIT_0 + 10
    ensures |Decimal(n)| <= 3 && (|Decimal(n)| > 1 ==> Decimal(n)[0] != DIGIT_0)
  {
    var d := Decimal(n);
    FromDecimalStep(d);
    if |d| > 1 {
      FromDecimalStep(d[..|d| - 1]);
      assert d[|d| - 2] == DIGIT_0 + n / 10 % 10;
    }
    if |d| > 2 {
      FromDecimalStep(d[..|d| - 2]);
      assert d[..|d| - 1][..|d| - 2] == d[..|d| - 2] == [DIGIT_0 + n / 100];
    }
  }

  lemma FromDecimalStep(d: seq<byte>)
    requires d != []
    ensures FromDecimal(d) == FromDecimal(d[..|d| - 1]) * 10 + (d[|d| - 1] - DIGIT_0)
  {
  }

  /** The fields of a whole tag, as the parser keeps them. */
  function ParseTagV1(tag: seq<byte>, info: Info): Info
    requires |tag| == V1_SIZE
  {
    info.(title := Some(CopyTrim(tag[3..33])), author := Some(CopyTrim(tag[33..63])),
          album := Some(CopyTrim(tag[63..93])), date := Some(CopyTrim(tag[93..97])),
          genre := Some(Decimal(tag[127])), encoding := ENCODING_ISO_8859_1)
  }

  function Padded(text: seq<byte>, width: nat, pad: byte): (b: seq<byte>)
    requires |text| <= width
    ensures |b| == width
  {
    text + seq(width - |text|, _ => pad)
  }

  function EncodeV1(title: seq<byte>, author: seq<byte>, album: seq<byte>, date: seq<byte>,
                    comment: seq<byte>, genre: byte, pad: byte): (b: seq<byte>)
    requires |title| <= 30 && |author| <= 30 && |album| <= 30 && |date| <= 4 && |comment| <= 30
    ensures |b| == V1_SIZE && b[..3] == TAG
  {
    TAG + Padded(title, 30, pad) + Padded(author, 30, pad) + Padded(album, 30, pad) + Padded(date, 4, pad)
    + Padded(comment, 30, pad) + [genre]
  }

  lemma PaddingIsTrimmed(text: seq<byte>, width: nat, pad: byte)
    requires |text| <= width && Plain(text) && pad in {NUL, SPACE}
    ensures CopyTrim(Padded(text, width, pad)) == text
  {
    var tail := seq(width - |text|, _ => pad);
    TrimOfPadded([], text, tail, {NUL, SPACE});
    assert [] + text + tail == Padded(text, width, pad);
    DropNulsProperties(text);
  }

  lemma V1RoundTrip(title: seq<byte>, author: seq<byte>, album: seq<byte>, date: seq<byte>,
                    comment: seq<byte>, genre: byte, pad: byte, info: Info)
    requires |title| <= 30 && |author| <= 30 && |album| <= 30 && |date| <= 4 && |comment| <= 30
    requires Plain(title) && Plain(author) && Plain(album) && Plain(date) && pad in {NUL, SPACE}
    ensures ParseTagV1(EncodeV1(title, author, album, date, comment, genre, pad), info)
            == info.(title := Some(title), author := Some(author), album := Some(album), date := Some(date),
                     genre := Some(Decimal(genre)), encoding := ENCODING_ISO_8859_1)
  {
    var b := EncodeV1(title, author, album, date, comment, genre, pad);
    assert b[3..33] == Padded(title, 30, pad) && b[33..63] == Padded(author, 30, pad);
    assert b[63..93] == Padded(album, 30, pad) && b[93..97] == Padded(date, 4, pad);
    PaddingIsTrimmed(title, 30, pad);
    PaddingIsTrimmed(author, 30, pad);
    PaddingIsTrimmed(album, 30, pad);
    PaddingIsTrimmed(date, 4, pad);
  }

  // Either kind of tag.

  /** id3_parse's dispatch: the bytes of the tag, when there is one. */
  function TagSize(b: seq<byte>): Option<nat>
    requires |b| == 10
  {
    if b[..3] == ID3 then Some(10 + Syncsafe(b[6..10]))
    else if b[..3] == TAG then Some(V1_SIZE)
    else None
  }

  predicate HasWholeTag(b: seq<byte>) {
    |b| >= 10 && (TagSize(b[..10]).Some? ==> |b| >= TagSize(b[..10]).value)
  }

  /** id3_parse; None is the error return. */
  function ParseAny(b: seq<byte>, info: Info): Option<Info>
    requires HasWholeTag(b)
  {
    match TagSize(b[..10])
    case None => None
    case Some(size) =>
      if b[..3] == ID3 then ParseTag(b[..10], b[10..size], info) else Some(ParseTagV1(b[..size], info))
  }

  /** Reading a written ID3v1 tag, whatever follows it. */
  lemma WrittenV1IsRead(title: seq<byte>, author: seq<byte>, album: seq<byte>, date: seq<byte>,
                        comment: seq<byte>, genre: byte, pad: byte, info: Info, tail: seq<byte>)
    requires |title| <= 30 && |author| <= 30 && |album| <= 30 && |date| <= 4 && |comment| <= 30
    requires Plain(title) && Plain(author) && Plain(album) && Plain(date) && pad in {NUL, SPACE}
    ensures var b := EncodeV1(title, author, album, date, comment, genre, pad) + tail;
            && HasWholeTag(b) && TagSize(b[..10]) == Some(128)
            && ParseAny(b, info)
               == Some(info.(title := Some(title), author := Some(author), album := Some(album), date := Some(date),
                             genre := Some(Decimal(genre)), encoding := 0))
  {
    var tag := EncodeV1(title, author, album, date, comment, genre, pad);
    var b := tag + tail;
    assert b[..128] == tag;
    assert b[..10][..3] == b[..3] == tag[..3] == TAG;
    V1RoundTrip(title, author, album, date, comment, genre, pad, info);
  }

  /** Reading a written ID3v2 tag, whatever follows it. */
  lemma WrittenV2IsRead(version: byte, revision: byte, flags: byte, ext: Option<seq<byte>>,
                        frames: seq<Frame>, padding: nat, info: Info, tail: seq<byte>)
    requires 2 <= version <= 4 && (HasExtendedHeader(flags) <==> ext.Some?)
    requires forall i :: 0 <= i < |frames| ==> FrameOk(version, frames[i])
    requires |EncodeBody(version, ext, frames, padding)| < 0x1000_0000
    ensures var body := EncodeBody(version, ext, frames, padding);
            var b := EncodeHeader(version, revision, flags, |body|) + body + tail;
            && HasWholeTag(b) && TagSize(b[..10]) == Some(10 + |body|)
            && ParseAny(b, info) == Some(Fold(version, frames, info))
  {
    var body := EncodeBody(version, ext, frames, padding);
    var header := EncodeHeader(version, revision, flags, |body|);
    TagRoundTrip(version, revision, flags, ext, frames, padding, info);
    var b := header + body + tail;
    assert b[..10] == header && b[10..10 + |body|] == body;
    assert b[..3] == header[..3] == ID3;
  }

  /** Anything else is refused. */
  lemma OtherBytesAreRefused(b: seq<byte>, info: Info)
    requires |b| >= 10 && b[..3] != [73, 68, 51] && b[..3] != [84, 65, 71]
    ensures HasWholeTag(b) && ParseAny(b, info) == None
  {
    assert b[..10][..3] == b[..3];
  }
}
