# Halo 3: ODST screen.shot container, modelled in Dafny

A Halo 3: ODST `screen.shot` is a BLF file holding a JPEG screenshot plus
three lines of header text. The `ScreenShot` class in
`PartyBlam/Blam/Halo3ODST/Screenshot.cs` wraps a big-endian stream over the
file. It does five things:

- checks the signature: `"_blf"` at 0x00 and `"halo 3 saved screenshot"` at 0x0E;
- loads the header text at 0x48, 0x67 and 0xE8;
- loads the embedded image: an Int32 size at 0x2B4, then that many bytes from 0x2B8;
- writes both back;
- swaps the image in memory (inject) or copies it out (extract).

When it writes the image back, it puts the size into three redundant slots
(0x2B4, 0x10C, 0x144). It then resizes the stream to 0x2B8 + size + 17 bytes
and writes the image followed by a fixed 17-byte footer.

The project has three modules:

- `EndianStreams` (EndianStreams.dfy) holds the byte level. `byte` and `int32`
  mirror .NET's types, with big-endian two's-complement Int32 encoding and
  decoding and unchecked Int32 wrap-around. The `MemoryStream` class holds the
  stream's contents (`seq<byte>`) and an open flag. Its `WriteBlock`,
  `WriteInt32`, `SetLength` and `Close` behave as .NET's MemoryStream does: a
  write past the end grows the stream, and any gap is zero-filled. Each access
  is given the absolute offset it starts at. Most accesses in the source seek
  first, and that seek is folded into the offset argument. The image read
  (line 101) has no seek of its own: it continues where the size read at
  0x2B4 ended, so the model reads the image from 0x2B8.
- `ScreenshotLayout` (ScreenshotLayout.dfy) holds the layout constants and the
  `Screenshot` and `Header` records. Its pure functions say what loading and
  writing produce. `HasSignature` is the signature. `LoadedScreenshot` gives
  the record and the error a load ends in. `WriteSizeSlots` writes the three
  size slots, `WriteHeader` writes the header text, and `ScreenFile` is the
  container a successful image update leaves. The lemmas prove the layout
  invariants and round trips about these functions.
- `Halo3Odst` (Halo3Odst.dfy) holds the `ScreenShot` class, with the source's
  fields `stream`, `header` and `shot`. Its methods perform the source's steps
  in the source's order, and each method's `ensures` ties the new state to the
  functions above. `LoadScreenshot` and `InjectScreenshot` copy the bytes in a
  loop, as the source does with its `foreach` loops.

Exceptions become `Error` values. Where the source has already changed state
before it throws, the model keeps that partial state:

- `LoadScreenshot` replaces the record first. A failed load therefore leaves a
  record with the size read so far and a null byte list (`None`).
- `UpdateScreenshot` writes the three size slots before `SetLength` can refuse
  a negative length. It also calls `SetLength` before it touches a null byte
  list.

The Int32 sum `0x2B8 + size + 17` is computed with wrap-around, so a size
close to Int32.MaxValue gives a negative length. `SetLength` rejects that
length.

## Model

| member | source | states |
|---|---|---|
| `EndianStreams.DecodeEncodeInt32` | PartyBlam/Blam/Halo3ODST/Screenshot.cs:143-148 | a size written by the big-endian WriteInt32 reads back as the same Int32 |
| `EndianStreams.EncodeDecodeInt32` | PartyBlam/Blam/Halo3ODST/Screenshot.cs:97-98 | four bytes read as a big-endian Int32 and written back are the same four bytes |
| `EndianStreams.DecodeInt32` | PartyBlam/Blam/Halo3ODST/Screenshot.cs:98 | the Int32 read at 0x2B4 is negative exactly when its first (most significant) byte has the top bit set |
| `EndianStreams.EncodeInt32` | PartyBlam/Blam/Halo3ODST/Screenshot.cs:144 | WriteInt32 emits four bytes, the first with its top bit set exactly for a negative value |
| `EndianStreams.WrapInt32` | PartyBlam/Blam/Halo3ODST/Screenshot.cs:151 | unchecked Int32 arithmetic: equal to the true value modulo 2^32, and to the value itself when it fits |
| `EndianStreams.Resized` | PartyBlam/Blam/Halo3ODST/Screenshot.cs:151 | SetLength gives exactly n bytes: the old byte where there was one, zero after the old end |
| `EndianStreams.Overwrite` | PartyBlam/Blam/Halo3ODST/Screenshot.cs:154-159 | after a seek and a block write the block sits at the offset, the bytes before and after it are unchanged, and a write past the end grows the stream |
| `EndianStreams.OverwriteAt` | PartyBlam/Blam/Halo3ODST/Screenshot.cs:154-159 | byte by byte, a block write changes exactly the bytes it covers |
| `EndianStreams.Tail` | PartyBlam/Blam/Halo3ODST/Screenshot.cs:80-87 | a text reader at an offset sees the bytes from there to the end of the stream, none past the end |
| `EndianStreams.AsciiChar` | PartyBlam/Blam/Halo3ODST/Screenshot.cs:201 | ASCII decoding keeps bytes below 0x80 and turns every other byte into '?' |
| `EndianStreams.ReadAscii` | PartyBlam/Blam/Halo3ODST/Screenshot.cs:200-203 | ReadAscii(n) yields n characters, one per byte from the offset, or fewer where the stream ends first |
| `EndianStreams.MemoryStream.WriteBlock` | PartyBlam/Blam/Halo3ODST/Screenshot.cs:154-155 | the stream's new contents are the old ones with the block written at the offset |
| `EndianStreams.MemoryStream.WriteInt32` | PartyBlam/Blam/Halo3ODST/Screenshot.cs:143-148 | the stream's new contents are the old ones with the big-endian encoding of the value at the offset |
| `EndianStreams.MemoryStream.SetLength` | PartyBlam/Blam/Halo3ODST/Screenshot.cs:151 | the stream's new contents are the old ones cut or zero-extended to the given length |
| `EndianStreams.MemoryStream.Close` | PartyBlam/Blam/Halo3ODST/Screenshot.cs:210-213 | the stream is closed and its contents are kept |
| `ScreenshotLayout.AsciiTextMatches` | PartyBlam/Blam/Halo3ODST/Screenshot.cs:201-205 | comparing the ASCII text read at an offset with a literal equals comparing the bytes there with the literal's bytes |
| `ScreenshotLayout.SignatureAsText` | PartyBlam/Blam/Halo3ODST/Screenshot.cs:198-209 | the validity test is true exactly when bytes [0x00,0x04) are "_blf" and bytes [0x0E,0x25) are "halo 3 saved screenshot" |
| `ScreenshotLayout.SignatureDetectsByteChange` | PartyBlam/Blam/Halo3ODST/Screenshot.cs:205 | changing any single byte of the magic or the type tag makes a valid file invalid |
| `ScreenshotLayout.SignatureOnlyReadsPrefix` | PartyBlam/Blam/Halo3ODST/Screenshot.cs:198-209 | validity depends on the first 0x25 bytes alone, so never on the header text, the size slots or the image |
| `ScreenshotLayout.WriteHeader` | PartyBlam/Blam/Halo3ODST/Screenshot.cs:122-132 | writing the header never shrinks the stream, leaves every byte below 0x48 unchanged, and leaves the encoded author at 0xE8 |
| `ScreenshotLayout.WriteHeaderAt` | PartyBlam/Blam/Halo3ODST/Screenshot.cs:122-132 | byte by byte, after the header is written each byte comes from the last field written over it, or is the old byte |
| `ScreenshotLayout.WriteSizeSlots` | PartyBlam/Blam/Halo3ODST/Screenshot.cs:142-148 | after the three size writes the stream reaches at least 0x2B8 bytes |
| `ScreenshotLayout.WriteSizeSlotsAt` | PartyBlam/Blam/Halo3ODST/Screenshot.cs:142-148 | byte by byte, the three size writes put the size's bytes into 0x2B4, 0x10C and 0x144 and change nothing else |
| `ScreenshotLayout.NewStreamLength` | PartyBlam/Blam/Halo3ODST/Screenshot.cs:151 | the Int32 length 0x2B8 + size + 17 is non-negative exactly when -0x2C9 <= size <= 0x7FFFFD36, and then it is the true sum |
| `ScreenshotLayout.ScreenFileAt` | PartyBlam/Blam/Halo3ODST/Screenshot.cs:137-160 | byte by byte, an updated container is the old first 0x2B8 bytes with the size slots replaced, then the image, then the footer |
| `ScreenshotLayout.UpdateStepsBuildScreenFile` | PartyBlam/Blam/Halo3ODST/Screenshot.cs:142-159 | the four steps (size slots, SetLength, image write, footer write) produce exactly that container |
| `ScreenshotLayout.ScreenFileSlot` | PartyBlam/Blam/Halo3ODST/Screenshot.cs:142-148 | after an update, each of the three size slots decodes to the image length |
| `ScreenshotLayout.ScreenFileLayout` | PartyBlam/Blam/Halo3ODST/Screenshot.cs:137-160 | after an update: length 0x2B8 + size + 17, the three slots agree with the size, the image is at [0x2B8, 0x2B8+size), the footer follows it, and every other byte below 0x2B8 is unchanged |
| `ScreenshotLayout.ScreenFileKeepsSignature` | PartyBlam/Blam/Halo3ODST/Screenshot.cs:137-160 | an image update keeps a valid file valid |
| `ScreenshotLayout.ScreenFileReplaces` | PartyBlam/Blam/Halo3ODST/Screenshot.cs:137-160 | a second update erases every trace of the first: the result is as if only the second had been done |
| `ScreenshotLayout.LoadedScreenshot` | PartyBlam/Blam/Halo3ODST/Screenshot.cs:93-106 | the size is the Int32 at 0x2B4 whenever the stream reaches 0x2B8; a load succeeds exactly when the stream reaches 0x2B8, that size is non-negative and the stream holds 0x2B8 + size bytes, and exactly then it yields a byte list, which has `size` bytes and equals the bytes at [0x2B8, 0x2B8+size) |
| `ScreenshotLayout.LoadScreenFile` | PartyBlam/Blam/Halo3ODST/Screenshot.cs:93-160 | loading an updated container gives back exactly the image that was written, with size equal to its length |
| `ScreenshotLayout.UpdateAfterLoadIsIdentity` | PartyBlam/Blam/Halo3ODST/Screenshot.cs:93-160 | if a file already has agreeing size slots and the footer right after the image, loading it and writing the image back leaves it byte-for-byte unchanged |
| `ScreenshotLayout.SizeSlotHoldsSize` | PartyBlam/Blam/Halo3ODST/Screenshot.cs:143-148 | when the two copies equal the slot at 0x2B4, every slot byte is the byte that writing that size would put there |
| `ScreenshotLayout.LoadMinimalContainer` | PartyBlam/Blam/Halo3ODST/Screenshot.cs:93-106 | a file with size 4 at 0x2B4, the bytes AA BB CC DD at 0x2B8 and the footer after them loads as size 4 with those four bytes |
| `ScreenshotLayout.UpdateKeepsSignature` | PartyBlam/Blam/Halo3ODST/Screenshot.cs:113-117 | Update (header, then image) keeps a valid file valid, whatever the header text |
| `ScreenshotLayout.HeaderAndImageCommute` | PartyBlam/Blam/Halo3ODST/Screenshot.cs:113-117 | when every encoded header field ends before 0x10C, writing the header before or after the image gives the same bytes |
| `Halo3Odst.ScreenShot.Wrap` | PartyBlam/Blam/Halo3ODST/Screenshot.cs:59 | the container wraps the caller's stream, and nothing is loaded yet |
| `Halo3Odst.ScreenShot.FromStream` | PartyBlam/Blam/Halo3ODST/Screenshot.cs:56-70 | if the signature is missing, construction closes the stream and fails; otherwise it loads the header and the image and fails exactly when the image load fails, and the stream's contents are unchanged either way |
| `Halo3Odst.ScreenShot.LoadHeader` | PartyBlam/Blam/Halo3ODST/Screenshot.cs:76-88 | the header becomes the text read at 0x48, 0x67 and 0xE8, and the image record is unchanged |
| `Halo3Odst.ScreenShot.LoadScreenshot` | PartyBlam/Blam/Halo3ODST/Screenshot.cs:93-106 | the record and the error are those of LoadedScreenshot on the stream, so size and byte list agree afterwards; the header is unchanged |
| `Halo3Odst.ScreenShot.Update` | PartyBlam/Blam/Halo3ODST/Screenshot.cs:113-117 | the stream ends as the image update applied to the header-written stream, error by error |
| `Halo3Odst.ScreenShot.UpdateHeader` | PartyBlam/Blam/Halo3ODST/Screenshot.cs:122-132 | the stream becomes WriteHeader of the old stream |
| `Halo3Odst.ScreenShot.UpdateScreenshot` | PartyBlam/Blam/Halo3ODST/Screenshot.cs:137-160 | three outcomes. A negative Int32 length leaves only the size slots written. A null byte list leaves the slots written and the stream resized. Otherwise the stream becomes ScreenFile of the old stream and the image. |
| `Halo3Odst.ScreenShot.InjectScreenshot` | PartyBlam/Blam/Halo3ODST/Screenshot.cs:167-175 | the record becomes a copy of the given bytes with size equal to their count; the stream and header are not touched |
| `Halo3Odst.ScreenShot.ExtractScreenshot` | PartyBlam/Blam/Halo3ODST/Screenshot.cs:190-196 | returns a new array holding exactly the record's bytes, and fails when the byte list is null |
| `Halo3Odst.ScreenShot.IsValidScreen` | PartyBlam/Blam/Halo3ODST/Screenshot.cs:198-209 | true exactly when the signature bytes are in place; the stream is not changed |
| `Halo3Odst.ScreenShot.Close` | PartyBlam/Blam/Halo3ODST/Screenshot.cs:210-213 | the stream is closed and its contents are kept |
| `Halo3Odst.InjectUpdateLoadExtract` | PartyBlam/Blam/Halo3ODST/Screenshot.cs:93-196 | inject, then UpdateScreenshot, then LoadScreenshot, then ExtractScreenshot returns exactly the injected bytes; the stream ends as ScreenFile of the old stream and the image, the record holds the image and its length, and the file stays valid |

## Left out

- The path constructor (line 51) is left out because it reads a file. The model builds the container from a stream (`FromStream`), as line 56 does.
- The `ShotStream`, `ShotHeader` and `ShotScreenshot` accessors (lines 17-29) only hand out fields. The model reads those fields directly.
- The public setters of the `Screenshot` record (lines 42-43) are not modelled. So the record's size always equals its byte count, a fact that `Valid()` records. A caller who sets the size to anything else would make `UpdateScreenshot` put the footer inside the image, or after a gap. The model does not cover that.
- The model treats `Header` and `Screenshot` as values. In the source they are mutable objects that callers can share through the accessors. That sharing is not modelled.
- `InjectScreenshot(Stream)` (lines 180-185) is not modelled. It only converts a `MemoryStream` to an array and calls the array overload.
- Both `InjectScreenshot` overloads are `private` in the source. The model gives the array overload to callers as a method of the class.
- The UTF-16 and ASCII text codecs of `EndianStream` are not part of this model. `LoadHeader`, `UpdateHeader` and `Update` take them as a `TextCodec` parameter. Reading the header back after writing it is not claimed to give the same text.
- `EndianStream` is not part of this model. Its `ReadAscii(n)` is assumed to return fewer characters when the stream ends early. It is also assumed to map bytes at or above 0x80 to '?'. Under either assumption, a short stream fails the signature check.
- Halo3Odst.ScreenShot.LoadScreenshot: `ReadBlock` is not part of this model. So a size that runs past the end of the stream is reported as a `Truncated` error. The model does not guess at a short read.
- Halo3Odst.ScreenShot.IsValidScreen: like every method that touches the stream, it requires the stream to be open. In .NET, using a closed stream raises ObjectDisposedException, and that error path is not modelled.
- Halo3Odst.ScreenShot.FromStream: only an expandable `MemoryStream` is modelled. The path constructor (line 51) wraps `new MemoryStream(byte[])`, which has a fixed capacity. On a file opened by path, `SetLength` at line 151 therefore throws, after the three size writes, whenever the new length exceeds the file's length, and a write past the end throws too. The model's streams always grow, so it does not capture that failure.
- The stream position and the `SeekTo` calls are not modelled separately. Each access takes the absolute offset it starts at instead.
- Halo3Odst.ScreenShot.LoadScreenshot: `ReadBlock` at line 101 has no seek of its own and reads from the current position. `EndianStream.ReadInt32` is assumed to advance the position by exactly four bytes, so the image read starts at 0x2B4 + 4 = 0x2B8.
- The JPEG payload is an opaque byte sequence.
