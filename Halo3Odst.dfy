/** The Halo 3: ODST screenshot container: an object that owns a big-endian
    stream over a screen.shot and keeps, beside it, the header text and the
    embedded-image record it loaded from the stream or was given. */
module Halo3Odst {
  import opened EndianStreams
  import opened ScreenshotLayout

  class ScreenShot {
    /** The stream the container reads and writes; the caller's object, so
        every change is visible to it. */
    const stream: MemoryStream
    var header: Header
    var shot: Screenshot

    /** The record's size field agrees with its byte list. */
    ghost predicate Valid()
      reads this
    {
      Consistent(shot)
    }

    /** The object before anything is loaded: an empty header and a record
        with size 0 and no byte list. */
    constructor Wrap(s: MemoryStream)
      ensures stream == s && header == Header("", "", "") && shot == Screenshot(0, None)
    {
      stream := s;
      header := Header("", "", "");
      shot := Screenshot(0, None);
    }

    /** Construction from a stream: check the signature; when it is missing,
        close the stream and fail; otherwise load the header, then the image. */
    static method FromStream(s: MemoryStream, codec: TextCodec) returns (r: Result<ScreenShot>)
      requires s.isOpen
      modifies s
      ensures s.data == old(s.data)
      ensures !HasSignature(s.data) ==> r == Failure(InvalidScreen) && !s.isOpen
      ensures HasSignature(s.data) ==>
                && s.isOpen
                && (r.Success? <==> LoadedScreenshot(s.data).error.None?)
                && (r.Failure? ==> r.error == LoadedScreenshot(s.data).error.value)
      ensures r.Success? ==>
                && fresh(r.value)
                && r.value.stream == s
                && r.value.Valid()
                && r.value.header == ReadHeader(s.data, codec)
                && r.value.shot == LoadedScreenshot(s.data).record
    {
      var shotFile := new ScreenShot.Wrap(s);
      var valid := shotFile.IsValidScreen();
      if !valid {
        shotFile.Close();
        return Failure(InvalidScreen);
      }
      shotFile.LoadHeader(codec);
      var err := shotFile.LoadScreenshot();
      if err.Some? {
        return Failure(err.value);
      }
      r := Success(shotFile);
    }

    /** Reads the header slots: name (UTF-16) at 0x48, description (UTF-16)
        at 0x67, author (ASCII) at 0xE8. */
    method LoadHeader(codec: TextCodec)
      requires stream.isOpen
      modifies this
      ensures header == ReadHeader(stream.data, codec) && shot == old(shot)
    {
      var data := stream.data;
      var name := codec.readUtf16(Tail(data, NAME_OFFSET));
      var description := codec.readUtf16(Tail(data, DESCRIPTION_OFFSET));
      var author := codec.readAscii(Tail(data, AUTHOR_OFFSET));
      header := Header(name, description, author);
    }

    /** Reads the Int32 size at 0x2B4, then that many bytes from where that
        read ended, 0x2B8, and copies them one by one into a new byte list. The record is replaced
        first, so an exception leaves it with the size read so far and no list. */
    method LoadScreenshot() returns (err: Option<Error>)
      requires stream.isOpen
      modifies this
      ensures Valid()
      ensures Loaded(shot, err) == LoadedScreenshot(stream.data)
      ensures header == old(header)
    {
      shot := Screenshot(0, None);
      var data := stream.data;
      if |data| < IMAGE_OFFSET {
        return Some(EndOfStream);
      }
      var size := DecodeInt32(data[SIZE_OFFSET..SIZE_OFFSET + 4]);
      shot := Screenshot(size, None);
      if size < 0 {
        return Some(NegativeSize);
      }
      if IMAGE_OFFSET + size > |data| {
        return Some(Truncated);
      }
      var screenshot := data[IMAGE_OFFSET..IMAGE_OFFSET + size];
      var embedded: seq<byte> := [];
      for i := 0 to |screenshot|
        invariant embedded == screenshot[..i]
      {
        embedded := embedded + [screenshot[i]];
      }
      assert embedded == screenshot;
      shot := Screenshot(size, Some(embedded));
      err := None;
    }

    /** Writes the header (UpdateHeader), then the image (UpdateScreenshot). */
    method Update(codec: TextCodec) returns (err: Option<Error>)
      requires Valid() && stream.isOpen
      modifies stream
      ensures stream.isOpen
      ensures
        var written := WriteHeader(old(stream.data), codec, header);
        var newLength := NewStreamLength(shot.size);
        && (newLength < 0 ==>
              err == Some(InvalidLength) && stream.data == WriteSizeSlots(written, shot.size))
        && (newLength >= 0 && shot.image.None? ==>
              err == Some(NullImage) && stream.data == Resized(WriteSizeSlots(written, shot.size), newLength))
        && (newLength >= 0 && shot.image.Some? ==>
              err == None && stream.data == ScreenFile(written, shot.image.value))
    {
      UpdateHeader(codec);
      err := UpdateScreenshot();
    }

    /** Writes name and description (UTF-16) and author (ASCII) back to their
        offsets, in that order. */
    method UpdateHeader(codec: TextCodec)
      requires stream.isOpen
      modifies stream
      ensures stream.isOpen && stream.data == WriteHeader(old(stream.data), codec, header)
    {
      stream.WriteBlock(NAME_OFFSET, codec.writeUtf16(header.name));
      stream.WriteBlock(DESCRIPTION_OFFSET, codec.writeUtf16(header.description));
      stream.WriteBlock(AUTHOR_OFFSET, codec.writeAscii(header.author));
    }

    /** Writes the size to the three size slots, sets the stream length to
        0x2B8 + size + 17 (computed in Int32), writes the image at 0x2B8 and
        the footer at 0x2B8 + size. The writes done before an exception stay. */
    method UpdateScreenshot() returns (err: Option<Error>)
      requires Valid() && stream.isOpen
      modifies stream
      ensures stream.isOpen
      ensures
        var newLength := NewStreamLength(shot.size);
        && (newLength < 0 ==>
              err == Some(InvalidLength) && stream.data == WriteSizeSlots(old(stream.data), shot.size))
        && (newLength >= 0 && shot.image.None? ==>
              err == Some(NullImage) && stream.data == Resized(WriteSizeSlots(old(stream.data), shot.size), newLength))
        && (newLength >= 0 && shot.image.Some? ==>
              err == None && stream.data == ScreenFile(old(stream.data), shot.image.value))
    {
      var size := shot.size;
      stream.WriteInt32(SIZE_OFFSET, size);
      stream.WriteInt32(SIZE_COPY_OFFSET_1, size);
      stream.WriteInt32(SIZE_COPY_OFFSET_2, size);
      var newLength := NewStreamLength(size);
      if newLength < 0 {
        return Some(InvalidLength);
      }
      stream.SetLength(newLength);
      if shot.image.None? {
        return Some(NullImage);
      }
      stream.WriteBlock(IMAGE_OFFSET, shot.image.value);
      stream.WriteBlock(IMAGE_OFFSET + size, FOOTER);
      UpdateStepsBuildScreenFile(old(stream.data), shot.image.value);
      err := None;
    }

    /** Replaces the record's byte list with a copy of the given bytes, built
        one byte at a time, and its size with their count. The stream is not
        touched. */
    method InjectScreenshot(newScreenshot: array<byte>)
      requires newScreenshot.Length < 0x8000_0000
      modifies this
      ensures Valid()
      ensures shot == Screenshot(newScreenshot.Length, Some(newScreenshot[..]))
      ensures header == old(header)
    {
      var newShot: seq<byte> := [];
      for i := 0 to newScreenshot.Length
        invariant newShot == newScreenshot[..i]
      {
        newShot := newShot + [newScreenshot[i]];
      }
      assert newShot == newScreenshot[..];
      shot := Screenshot(|newShot|, Some(newShot));
    }

    /** A fresh array holding the record's bytes; fails when there is no byte list. */
    method ExtractScreenshot() returns (r: Result<array<byte>>)
      ensures shot.image.None? ==> r == Failure(NullImage)
      ensures shot.image.Some? ==> r.Success? && fresh(r.value) && r.value[..] == shot.image.value
    {
      if shot.image.None? {
        return Failure(NullImage);
      }
      var image := shot.image.value;
      var screenshot := new byte[|image|](i requires 0 <= i < |image| => image[i]);
      r := Success(screenshot);
    }

    /** Compares the 4 ASCII characters at 0x00 with "_blf" and the 23 at 0x0E
        with "halo 3 saved screenshot". */
    method IsValidScreen() returns (valid: bool)
      requires stream.isOpen
      ensures valid <==> HasSignature(stream.data)
    {
      var data := stream.data;
      var magic := ReadAscii(data, 0x00, 0x04);
      var blfType := ReadAscii(data, TYPE_TAG_OFFSET, 0x17);
      valid := magic == MAGIC && blfType == TYPE_TAG;
      SignatureAsText(data);
    }

    method Close()
      modifies stream
      ensures !stream.isOpen && stream.data == old(stream.data)
    {
      stream.Close();
    }
  }

  /** A new image injected, written, loaded back and extracted comes out as it
      went in, and the container keeps its signature throughout. */
  method InjectUpdateLoadExtract(shotFile: ScreenShot, image: array<byte>) returns (r: Result<array<byte>>)
    requires shotFile.Valid() && shotFile.stream.isOpen
    requires HasSignature(shotFile.stream.data)
    requires image.Length <= MAX_IMAGE_SIZE
    modifies shotFile, shotFile.stream
    ensures HasSignature(shotFile.stream.data)
    ensures shotFile.stream.data == ScreenFile(old(shotFile.stream.data), image[..])
    ensures shotFile.shot == Screenshot(image.Length, Some(image[..]))
    ensures r.Success? && r.value[..] == image[..]
  {
    ghost var before := shotFile.stream.data;
    shotFile.InjectScreenshot(image);
    var err := shotFile.UpdateScreenshot();
    ScreenFileKeepsSignature(before, image[..]);
    var loadErr := shotFile.LoadScreenshot();
    LoadScreenFile(before, image[..]);
    r := shotFile.ExtractScreenshot();
  }
}
