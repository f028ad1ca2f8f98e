/** The fixed-offset layout of a Halo 3: ODST screen.shot: the signature that
    identifies it, the three header text slots, the three redundant big-endian
    copies of the embedded image's size, the image itself at 0x2B8 and the
    17-byte footer that always follows it. The functions here say what reading
    and writing the container yields; the class in Halo3Odst performs the same
    reads and writes step by step on a stream. */
module ScreenshotLayout {
  import opened EndianStreams

  const MAGIC: string := "_blf"
  const TYPE_TAG_OFFSET: nat := 0x0E
  const TYPE_TAG: string := "halo 3 saved screenshot"
  /** The bytes of MAGIC and TYPE_TAG as they sit in the file. */
  const MAGIC_BYTES: seq<byte> := [0x5F, 0x62, 0x6C, 0x66]
  const TYPE_TAG_BYTES: seq<byte> :=
    [0x68, 0x61, 0x6C, 0x6F, 0x20, 0x33, 0x20, 0x73, 0x61, 0x76, 0x65, 0x64,
     0x20, 0x73, 0x63, 0x72, 0x65, 0x65, 0x6E, 0x73, 0x68, 0x6F, 0x74]
  /** One past the last byte the signature check looks at (0x0E + 0x17). */
  const SIGNATURE_END: nat := 0x25

  const NAME_OFFSET: nat := 0x48
  const DESCRIPTION_OFFSET: nat := 0x67
  const AUTHOR_OFFSET: nat := 0xE8

  const SIZE_COPY_OFFSET_1: nat := 0x10C
  const SIZE_COPY_OFFSET_2: nat := 0x144
  /** The size slot a load reads; the image starts right after it. */
  const SIZE_OFFSET: nat := 0x2B4
  const IMAGE_OFFSET: nat := 0x2B8

  const FOOTER: seq<byte> :=
    [0x5F, 0x65, 0x6F, 0x66, 0x00, 0x00, 0x00, 0x11, 0x00,
     0x01, 0x00, 0x01, 0x00, 0x02, 0xB8, 0x01, 0x00]

  /** The largest image size whose new stream length 0x2B8 + size + 17 still
      fits in an Int32. */
  const MAX_IMAGE_SIZE: nat := 0x7FFF_FFFF - 0x2B8 - 17

  datatype Option<T> = None | Some(value: T)

  /** The exceptions a container operation can end in. */
  datatype Error =
    | InvalidScreen   // the signature check failed during construction
    | EndOfStream     // the stream ends before the size slot at 0x2B4 does
    | NegativeSize    // the size read is negative, so the image array cannot be allocated
    | Truncated       // the stream ends before the size bytes of the image do
    | InvalidLength   // the new stream length, computed in Int32, is negative
    | NullImage       // the record's byte list is null

  datatype Result<T> = Success(value: T) | Failure(error: Error)

  datatype Header = Header(name: string, description: string, author: string)

  /** The in-memory Screenshot record: the size field and the byte list, None
      where the list is null (as a failed load leaves it). */
  datatype Screenshot = Screenshot(size: int32, image: Option<seq<byte>>)

  /** The size field agrees with the byte list. */
  predicate Consistent(shot: Screenshot) {
    shot.image.Some? ==> shot.size == |shot.image.value|
  }

  /** The text readers and writers of the big-endian stream that the header
      slots go through: a reader gets the bytes from its slot's offset to the
      end of the stream, a writer gives the bytes it puts at that offset. */
  datatype TextCodec = TextCodec(
    readUtf16: seq<byte> -> string,
    readAscii: seq<byte> -> string,
    writeUtf16: string -> seq<byte>,
    writeAscii: string -> seq<byte>)

  // ---------------------------------------------------------------------------
  // The signature

  /** The file starts with "_blf" and holds "halo 3 saved screenshot" at 0x0E. */
  predicate HasSignature(s: seq<byte>) {
    && |s| >= SIGNATURE_END
    && s[..4] == MAGIC_BYTES
    && s[TYPE_TAG_OFFSET..SIGNATURE_END] == TYPE_TAG_BYTES
  }

  /** Comparing the ASCII text read at off with a literal made of ASCII
      characters other than '?' is comparing the bytes there with the
      literal's bytes. */
  lemma AsciiTextMatches(s: seq<byte>, off: nat, text: string, bytes: seq<byte>)
    requires 0 < |text| == |bytes|
    requires forall i | 0 <= i < |text| :: bytes[i] < 0x80 && text[i] == bytes[i] as char && text[i] != '?'
    ensures ReadAscii(s, off, |text|) == text <==> off + |text| <= |s| && s[off..off + |text|] == bytes
  {
    var n := |text|;
    var r := ReadAscii(s, off, n);
    if r == text {
      assert off + n <= |s|;
      forall i | 0 <= i < n ensures s[off..off + n][i] == bytes[i] {
        assert r[i] == AsciiChar(s[off + i]);
      }
    }
    if off + n <= |s| && s[off..off + n] == bytes {
      forall i | 0 <= i < n ensures r[i] == text[i] {
        assert s[off + i] == s[off..off + n][i];
      }
    }
  }

  /** The string comparison of the validity check is the byte comparison of
      HasSignature: it succeeds exactly when both literals are in place. */
  lemma SignatureAsText(s: seq<byte>)
    ensures (ReadAscii(s, 0, 4) == MAGIC && ReadAscii(s, TYPE_TAG_OFFSET, 0x17) == TYPE_TAG)
            <==> HasSignature(s)
  {
    AsciiTextMatches(s, 0, MAGIC, MAGIC_BYTES);
    AsciiTextMatches(s, TYPE_TAG_OFFSET, TYPE_TAG, TYPE_TAG_BYTES);
  }

  /** Changing any one byte of the magic or of the type tag breaks the signature. */
  lemma SignatureDetectsByteChange(s: seq<byte>, i: nat, v: byte)
    requires HasSignature(s)
    requires i < 4 || TYPE_TAG_OFFSET <= i < SIGNATURE_END
    requires v != s[i]
    ensures !HasSignature(s[i := v])
  {
    var t := s[i := v];
    if i < 4 {
      assert t[..4][i] != MAGIC_BYTES[i];
    } else {
      assert t[TYPE_TAG_OFFSET..SIGNATURE_END][i - TYPE_TAG_OFFSET] != TYPE_TAG_BYTES[i - TYPE_TAG_OFFSET];
    }
  }

  /** Only the first 0x25 bytes decide the signature: the header slots, the
      size slots and the image region play no part. */
  lemma SignatureOnlyReadsPrefix(s: seq<byte>, t: seq<byte>)
    requires |s| >= SIGNATURE_END && |t| >= SIGNATURE_END
    requires s[..SIGNATURE_END] == t[..SIGNATURE_END]
    ensures HasSignature(s) <==> HasSignature(t)
  {
    assert s[..4] == s[..SIGNATURE_END][..4];
    assert t[..4] == t[..SIGNATURE_END][..4];
    assert s[TYPE_TAG_OFFSET..SIGNATURE_END] == s[..SIGNATURE_END][TYPE_TAG_OFFSET..];
    assert t[TYPE_TAG_OFFSET..SIGNATURE_END] == t[..SIGNATURE_END][TYPE_TAG_OFFSET..];
  }

  // ---------------------------------------------------------------------------
  // The header slots

  /** The header as the reads at 0x48 (UTF-16), 0x67 (UTF-16) and 0xE8 (ASCII) give it. */
  function ReadHeader(s: seq<byte>, codec: TextCodec): Header {
    Header(
      codec.readUtf16(Tail(s, NAME_OFFSET)),
      codec.readUtf16(Tail(s, DESCRIPTION_OFFSET)),
      codec.readAscii(Tail(s, AUTHOR_OFFSET)))
  }

  /** The stream after the header is written: name, description, author, each
      at its own offset, in that order, with nothing stopping a long field
      from running into the next. */
  function WriteHeader(s: seq<byte>, codec: TextCodec, h: Header): (r: seq<byte>)
    ensures |r| >= |s|
    ensures forall i | 0 <= i < NAME_OFFSET && i < |s| :: r[i] == s[i]
    ensures AUTHOR_OFFSET + |codec.writeAscii(h.author)| <= |r|
    ensures r[AUTHOR_OFFSET..AUTHOR_OFFSET + |codec.writeAscii(h.author)|] == codec.writeAscii(h.author)
  {
    var withName := Overwrite(s, NAME_OFFSET, codec.writeUtf16(h.name));
    var withDescription := Overwrite(withName, DESCRIPTION_OFFSET, codec.writeUtf16(h.description));
    Overwrite(withDescription, AUTHOR_OFFSET, codec.writeAscii(h.author))
  }

  /** Every encoded header field ends before the first size copy at 0x10C. */
  predicate HeaderFits(codec: TextCodec, h: Header) {
    && NAME_OFFSET + |codec.writeUtf16(h.name)| <= SIZE_COPY_OFFSET_1
    && DESCRIPTION_OFFSET + |codec.writeUtf16(h.description)| <= SIZE_COPY_OFFSET_1
    && AUTHOR_OFFSET + |codec.writeAscii(h.author)| <= SIZE_COPY_OFFSET_1
  }

  // ---------------------------------------------------------------------------
  // The size slots and the image region

  predicate InSizeSlot(i: int) {
    || SIZE_COPY_OFFSET_1 <= i < SIZE_COPY_OFFSET_1 + 4
    || SIZE_COPY_OFFSET_2 <= i < SIZE_COPY_OFFSET_2 + 4
    || SIZE_OFFSET <= i < SIZE_OFFSET + 4
  }

  /** The byte a size slot holds once size has been written to all three. */
  function SizeSlotByte(size: int32, i: int): byte
    requires InSizeSlot(i)
  {
    var e := EncodeInt32(size);
    if i < SIZE_COPY_OFFSET_1 + 4 then e[i - SIZE_COPY_OFFSET_1]
    else if i < SIZE_COPY_OFFSET_2 + 4 then e[i - SIZE_COPY_OFFSET_2]
    else e[i - SIZE_OFFSET]
  }

  /** The Int32 stored at off. */
  function SlotValue(s: seq<byte>, off: nat): int32
    requires off + 4 <= |s|
  {
    DecodeInt32(s[off..off + 4])
  }

  /** The stream after size is written at 0x2B4, 0x10C and 0x144, in that order. */
  function WriteSizeSlots(s: seq<byte>, size: int32): (r: seq<byte>)
    ensures |r| == Max(|s|, IMAGE_OFFSET)
  {
    var e := EncodeInt32(size);
    Overwrite(Overwrite(Overwrite(s, SIZE_OFFSET, e), SIZE_COPY_OFFSET_1, e), SIZE_COPY_OFFSET_2, e)
  }

  /** Byte by byte, writing the size slots puts the size's bytes in the three
      slots and leaves every other byte as it was (zero where the stream grew). */
  lemma WriteSizeSlotsAt(s: seq<byte>, size: int32, i: nat)
    ensures At(WriteSizeSlots(s, size), i) == if InSizeSlot(i) then SizeSlotByte(size, i) else At(s, i)
  {
    var e := EncodeInt32(size);
    var r1 := Overwrite(s, SIZE_OFFSET, e);
    var r2 := Overwrite(r1, SIZE_COPY_OFFSET_1, e);
    OverwriteAt(s, SIZE_OFFSET, e, i);
    OverwriteAt(r1, SIZE_COPY_OFFSET_1, e, i);
    OverwriteAt(r2, SIZE_COPY_OFFSET_2, e, i);
  }

  /** The length UpdateScreenshot gives the stream, 0x2B8 + size + 17, as
      unchecked Int32 arithmetic computes it: negative, and so refused by
      SetLength, exactly when the true value is negative or does not fit. */
  function NewStreamLength(size: int32): (n: int32)
    ensures n >= 0 <==> -(IMAGE_OFFSET + |FOOTER|) <= size <= MAX_IMAGE_SIZE
    ensures n >= 0 ==> n == IMAGE_OFFSET + size + |FOOTER|
  {
    WrapInt32(IMAGE_OFFSET + size + |FOOTER|)
  }

  /** The container a successful UpdateScreenshot leaves behind: the first
      0x2B8 bytes of the old stream with the three size slots set to |image|,
      then the image, then the footer. */
  function ScreenFile(s: seq<byte>, image: seq<byte>): seq<byte>
    requires |image| <= MAX_IMAGE_SIZE
  {
    Resized(WriteSizeSlots(s, |image|), IMAGE_OFFSET) + image + FOOTER
  }

  /** Byte by byte, an updated container is: below 0x2B8 the old stream with
      the size slots replaced, then the image, then the footer. */
  lemma ScreenFileAt(s: seq<byte>, image: seq<byte>, i: nat)
    requires |image| <= MAX_IMAGE_SIZE
    requires i < IMAGE_OFFSET + |image| + |FOOTER|
    ensures |ScreenFile(s, image)| == IMAGE_OFFSET + |image| + |FOOTER|
    ensures ScreenFile(s, image)[i] ==
      if i < IMAGE_OFFSET then (if InSizeSlot(i) then SizeSlotByte(|image|, i) else At(s, i))
      else if i < IMAGE_OFFSET + |image| then image[i - IMAGE_OFFSET]
      else FOOTER[i - IMAGE_OFFSET - |image|]
  {
    if i < IMAGE_OFFSET {
      WriteSizeSlotsAt(s, |image|, i);
    }
  }

  /** UpdateScreenshot's steps — size slots, SetLength, image at 0x2B8, footer
      at 0x2B8 + size — build exactly ScreenFile. */
  lemma UpdateStepsBuildScreenFile(s: seq<byte>, image: seq<byte>)
    requires |image| <= MAX_IMAGE_SIZE
    ensures
      var k := |image|;
      var sized := Resized(WriteSizeSlots(s, k), IMAGE_OFFSET + k + |FOOTER|);
      Overwrite(Overwrite(sized, IMAGE_OFFSET, image), IMAGE_OFFSET + k, FOOTER) == ScreenFile(s, image)
  {
    var k := |image|;
    var slots := WriteSizeSlots(s, k);
    var sized := Resized(slots, IMAGE_OFFSET + k + |FOOTER|);
    var withImage := Overwrite(sized, IMAGE_OFFSET, image);
    var d := Overwrite(withImage, IMAGE_OFFSET + k, FOOTER);
    var f := ScreenFile(s, image);
    ScreenFileAt(s, image, 0);
    assert |d| == |f|;
    forall i | 0 <= i < |d| ensures d[i] == f[i] {
      ScreenFileAt(s, image, i);
      OverwriteAt(sized, IMAGE_OFFSET, image, i);
      OverwriteAt(withImage, IMAGE_OFFSET + k, FOOTER, i);
      if i < IMAGE_OFFSET {
        WriteSizeSlotsAt(s, k, i);
      }
    }
  }

  /** Each of the three size slots of an updated container holds the image length. */
  lemma ScreenFileSlot(s: seq<byte>, image: seq<byte>, off: nat)
    requires |image| <= MAX_IMAGE_SIZE
    requires off == SIZE_OFFSET || off == SIZE_COPY_OFFSET_1 || off == SIZE_COPY_OFFSET_2
    ensures off + 4 <= |ScreenFile(s, image)|
    ensures SlotValue(ScreenFile(s, image), off) == |image|
  {
    var f := ScreenFile(s, image);
    ScreenFileAt(s, image, off);
    forall j | 0 <= j < 4 ensures f[off..off + 4][j] == EncodeInt32(|image|)[j] {
      ScreenFileAt(s, image, off + j);
    }
    assert f[off..off + 4] == EncodeInt32(|image|);
    DecodeEncodeInt32(|image|);
  }

  /** After an update the three size fields agree with the image length, the
      stream is 0x2B8 + size + 17 bytes long, the image sits at 0x2B8, the
      footer follows it, and every other byte below 0x2B8 is what it was. */
  lemma ScreenFileLayout(s: seq<byte>, image: seq<byte>)
    requires |image| <= MAX_IMAGE_SIZE
    ensures
      var f := ScreenFile(s, image);
      var k := |image|;
      && |f| == IMAGE_OFFSET + k + |FOOTER|
      && SlotValue(f, SIZE_OFFSET) == k
      && SlotValue(f, SIZE_COPY_OFFSET_1) == k
      && SlotValue(f, SIZE_COPY_OFFSET_2) == k
      && f[IMAGE_OFFSET..IMAGE_OFFSET + k] == image
      && f[IMAGE_OFFSET + k..] == FOOTER
      && forall i | 0 <= i < IMAGE_OFFSET && i < |s| && !InSizeSlot(i) :: f[i] == s[i]
  {
    var k := |image|;
    var f := ScreenFile(s, image);
    ScreenFileSlot(s, image, SIZE_OFFSET);
    ScreenFileSlot(s, image, SIZE_COPY_OFFSET_1);
    ScreenFileSlot(s, image, SIZE_COPY_OFFSET_2);
    forall i | 0 <= i < IMAGE_OFFSET && i < |s| && !InSizeSlot(i) ensures f[i] == s[i] {
      ScreenFileAt(s, image, i);
    }
    assert f[IMAGE_OFFSET..IMAGE_OFFSET + k] == image;
    assert f[IMAGE_OFFSET + k..] == FOOTER;
  }

  /** An update keeps a valid container valid. */
  lemma ScreenFileKeepsSignature(s: seq<byte>, image: seq<byte>)
    requires |image| <= MAX_IMAGE_SIZE
    requires HasSignature(s)
    ensures HasSignature(ScreenFile(s, image))
  {
    var f := ScreenFile(s, image);
    ScreenFileLayout(s, image);
    assert f[..SIGNATURE_END] == s[..SIGNATURE_END];
    SignatureOnlyReadsPrefix(s, f);
  }

  /** A second update replaces the first one entirely. */
  lemma ScreenFileReplaces(s: seq<byte>, first: seq<byte>, second: seq<byte>)
    requires |first| <= MAX_IMAGE_SIZE && |second| <= MAX_IMAGE_SIZE
    ensures ScreenFile(ScreenFile(s, first), second) == ScreenFile(s, second)
  {
    var once := ScreenFile(s, second);
    var twice := ScreenFile(ScreenFile(s, first), second);
    ScreenFileAt(s, second, 0);
    ScreenFileAt(ScreenFile(s, first), second, 0);
    forall i | 0 <= i < |once| ensures twice[i] == once[i] {
      ScreenFileAt(s, second, i);
      ScreenFileAt(ScreenFile(s, first), second, i);
      if i < IMAGE_OFFSET {
        ScreenFileAt(s, first, i);
      }
    }
  }

  // ---------------------------------------------------------------------------
  // Loading the image

  /** What LoadScreenshot leaves in the record, and the exception it ends in, if any. */
  datatype Loaded = Loaded(record: Screenshot, error: Option<Error>)

  /** Loading reads the size at 0x2B4 and then exactly that many bytes from 0x2B8. */
  function LoadedScreenshot(s: seq<byte>): (r: Loaded)
    ensures Consistent(r.record)
    ensures r.error.None? <==> r.record.image.Some?
    ensures |s| >= IMAGE_OFFSET ==> r.record.size == SlotValue(s, SIZE_OFFSET)
    ensures r.error.None? <==>
              |s| >= IMAGE_OFFSET && 0 <= SlotValue(s, SIZE_OFFSET) && IMAGE_OFFSET + SlotValue(s, SIZE_OFFSET) <= |s|
    ensures r.error.None? ==>
              && IMAGE_OFFSET + r.record.size <= |s|
              && s[IMAGE_OFFSET..IMAGE_OFFSET + r.record.size] == r.record.image.value
  {
    if |s| < IMAGE_OFFSET then
      Loaded(Screenshot(0, None), Some(EndOfStream))
    else
      var size := SlotValue(s, SIZE_OFFSET);
      if size < 0 then Loaded(Screenshot(size, None), Some(NegativeSize))
      else if IMAGE_OFFSET + size > |s| then Loaded(Screenshot(size, None), Some(Truncated))
      else Loaded(Screenshot(size, Some(s[IMAGE_OFFSET..IMAGE_OFFSET + size])), None)
  }

  /** Loading what an update wrote gives back the image that was written. */
  lemma LoadScreenFile(s: seq<byte>, image: seq<byte>)
    requires |image| <= MAX_IMAGE_SIZE
    ensures LoadedScreenshot(ScreenFile(s, image)) == Loaded(Screenshot(|image|, Some(image)), None)
  {
    ScreenFileLayout(s, image);
  }

  /** A stream already laid out the way an update lays it out is left as it is
      by loading it and writing the loaded image back. */
  lemma UpdateAfterLoadIsIdentity(s: seq<byte>)
    requires |s| <= 0x7FFF_FFFF
    requires LoadedScreenshot(s).error.None?
    requires
      var size := SlotValue(s, SIZE_OFFSET);
      && |s| == IMAGE_OFFSET + size + |FOOTER|
      && s[IMAGE_OFFSET + size..] == FOOTER
      && s[SIZE_COPY_OFFSET_1..SIZE_COPY_OFFSET_1 + 4] == s[SIZE_OFFSET..SIZE_OFFSET + 4]
      && s[SIZE_COPY_OFFSET_2..SIZE_COPY_OFFSET_2 + 4] == s[SIZE_OFFSET..SIZE_OFFSET + 4]
    ensures
      var image := LoadedScreenshot(s).record.image.value;
      |image| <= MAX_IMAGE_SIZE && ScreenFile(s, image) == s
  {
    var size := SlotValue(s, SIZE_OFFSET);
    var image := LoadedScreenshot(s).record.image.value;
    assert |image| == size;
    var f := ScreenFile(s, image);
    ScreenFileAt(s, image, 0);
    forall i | 0 <= i < |s| ensures f[i] == s[i] {
      ScreenFileAt(s, image, i);
      if i < IMAGE_OFFSET {
        if InSizeSlot(i) {
          SizeSlotHoldsSize(s, i);
        }
      } else if IMAGE_OFFSET + size <= i {
        assert s[i] == s[IMAGE_OFFSET + size..][i - IMAGE_OFFSET - size];
      } else {
        assert s[i] == s[IMAGE_OFFSET..IMAGE_OFFSET + size][i - IMAGE_OFFSET];
      }
    }
  }

  /** In a stream whose two size copies equal the size slot at 0x2B4, every
      size-slot byte is the byte writing that size puts there. */
  lemma SizeSlotHoldsSize(s: seq<byte>, i: nat)
    requires IMAGE_OFFSET <= |s| && InSizeSlot(i)
    requires s[SIZE_COPY_OFFSET_1..SIZE_COPY_OFFSET_1 + 4] == s[SIZE_OFFSET..SIZE_OFFSET + 4]
    requires s[SIZE_COPY_OFFSET_2..SIZE_COPY_OFFSET_2 + 4] == s[SIZE_OFFSET..SIZE_OFFSET + 4]
    ensures SizeSlotByte(SlotValue(s, SIZE_OFFSET), i) == s[i]
  {
    var slot := s[SIZE_OFFSET..SIZE_OFFSET + 4];
    EncodeDecodeInt32(slot);
    if i < SIZE_COPY_OFFSET_1 + 4 {
      assert s[i] == s[SIZE_COPY_OFFSET_1..SIZE_COPY_OFFSET_1 + 4][i - SIZE_COPY_OFFSET_1];
    } else if i < SIZE_COPY_OFFSET_2 + 4 {
      assert s[i] == s[SIZE_COPY_OFFSET_2..SIZE_COPY_OFFSET_2 + 4][i - SIZE_COPY_OFFSET_2];
    } else {
      assert s[i] == slot[i - SIZE_OFFSET];
    }
  }

  /** A container with any 0x2B4 leading bytes, the size 4 at 0x2B4, the
      image AA BB CC DD at 0x2B8 and the footer after it loads as size 4 with
      exactly those four bytes. */
  lemma LoadMinimalContainer(front: seq<byte>)
    requires |front| == SIZE_OFFSET
    ensures
      var s := front + [0x00, 0x00, 0x00, 0x04] + [0xAA, 0xBB, 0xCC, 0xDD] + FOOTER;
      LoadedScreenshot(s) == Loaded(Screenshot(4, Some([0xAA, 0xBB, 0xCC, 0xDD])), None)
  {
    var s := front + [0x00, 0x00, 0x00, 0x04] + [0xAA, 0xBB, 0xCC, 0xDD] + FOOTER;
    assert s[SIZE_OFFSET..SIZE_OFFSET + 4] == [0x00, 0x00, 0x00, 0x04];
    assert s[IMAGE_OFFSET..IMAGE_OFFSET + 4] == [0xAA, 0xBB, 0xCC, 0xDD];
  }

  // ---------------------------------------------------------------------------
  // Header and image together

  /** Update (header, then image) keeps a valid container valid, whatever the
      header's text. */
  lemma UpdateKeepsSignature(s: seq<byte>, codec: TextCodec, h: Header, image: seq<byte>)
    requires |image| <= MAX_IMAGE_SIZE
    requires HasSignature(s)
    ensures HasSignature(ScreenFile(WriteHeader(s, codec, h), image))
  {
    var w := WriteHeader(s, codec, h);
    assert w[..SIGNATURE_END] == s[..SIGNATURE_END];
    SignatureOnlyReadsPrefix(s, w);
    ScreenFileKeepsSignature(w, image);
  }

  /** The byte a header write leaves at i: the last field written over i, or
      what was there before. */
  function HeaderByteOr(codec: TextCodec, h: Header, i: nat, before: byte): byte {
    var name := codec.writeUtf16(h.name);
    var description := codec.writeUtf16(h.description);
    var author := codec.writeAscii(h.author);
    if AUTHOR_OFFSET <= i < AUTHOR_OFFSET + |author| then author[i - AUTHOR_OFFSET]
    else if DESCRIPTION_OFFSET <= i < DESCRIPTION_OFFSET + |description| then description[i - DESCRIPTION_OFFSET]
    else if NAME_OFFSET <= i < NAME_OFFSET + |name| then name[i - NAME_OFFSET]
    else before
  }

  lemma WriteHeaderAt(s: seq<byte>, codec: TextCodec, h: Header, i: nat)
    ensures At(WriteHeader(s, codec, h), i) == HeaderByteOr(codec, h, i, At(s, i))
  {
    var withName := Overwrite(s, NAME_OFFSET, codec.writeUtf16(h.name));
    var withDescription := Overwrite(withName, DESCRIPTION_OFFSET, codec.writeUtf16(h.description));
    OverwriteAt(s, NAME_OFFSET, codec.writeUtf16(h.name), i);
    OverwriteAt(withName, DESCRIPTION_OFFSET, codec.writeUtf16(h.description), i);
    OverwriteAt(withDescription, AUTHOR_OFFSET, codec.writeAscii(h.author), i);
  }

  /** When every header field ends before 0x10C, writing the header and
      writing the image do not interfere, so their order does not matter. */
  lemma HeaderAndImageCommute(s: seq<byte>, codec: TextCodec, h: Header, image: seq<byte>)
    requires |image| <= MAX_IMAGE_SIZE
    requires HeaderFits(codec, h)
    ensures ScreenFile(WriteHeader(s, codec, h), image) == WriteHeader(ScreenFile(s, image), codec, h)
  {
    var w := WriteHeader(s, codec, h);
    var f := ScreenFile(s, image);
    var headerFirst := ScreenFile(w, image);
    var imageFirst := WriteHeader(f, codec, h);
    ScreenFileAt(s, image, 0);
    ScreenFileAt(w, image, 0);
    assert |imageFirst| == |f|;
    forall i | 0 <= i < |f| ensures headerFirst[i] == imageFirst[i] {
      ScreenFileAt(s, image, i);
      ScreenFileAt(w, image, i);
      WriteHeaderAt(s, codec, h, i);
      WriteHeaderAt(f, codec, h, i);
    }
  }
}
