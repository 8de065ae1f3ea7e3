# lambda-image-processing, modelled in Dafny

The repository is one AWS Lambda function, `lambda_function.py`. Each run lists
the objects under the folder `image/` of a bucket. Every object whose key does
not end in `_processed.jpg` is downloaded and resized into a 100 by 100 bound.
The result is uploaded under `<key>_processed.jpg`. The original is then
"marked as processed" by copying it onto that same key and deleting it, and
one notification is published per image.

The resizer reads the source's width and height from bytes 16..24 of the input
as two big-endian signed 32-bit integers. It picks an aspect-preserving target
size and writes a 54-byte Windows bitmap header (a BITMAPFILEHEADER followed
by a BITMAPINFOHEADER, fields little-endian). It then appends one 3-byte pixel
per output position, row by row: a copy of the centred source pixel, or white
when that position fails the loop's bounds test.

The model has five modules:

- `Failures` (`failures.dfy`): the exceptions a run can end with, and a `Result` type.
- `Bytes` (`bytes.dfy`): `struct.pack`/`unpack` for the integer formats the program
  uses, and Python's slice semantics (`PySlice`).
- `Bmp` (`bmp.dfy`): the header writer and the dimension reader.
- `Resize` (`resize.dfy`): the size rule, `crop_or_pad_image` as a nested-loop method
  proved against a row-by-row specification, and `process_image`.
- `Handler` (`handler.dfy`): the bucket protocol. The bucket is a
  `map<string, seq<Byte>>` and the topic is a sequence of messages; both are
  handed to `LambdaHandler` and handed back with the run's outcome.

Behaviour the code has and the model keeps:

- The reader and the writer disagree on byte order and offset. A header written
  for 200 by 100 reads back as 51200 by 25600 (`Bmp.ReadBackExample`).
- The pixel loop tests only upper bounds. When enlarging, output pixels at
  negative source coordinates take the copy branch too. Their buffer offset
  can land in the input's header (`Resize.UpscaleReadsHeader`). It can also
  fall below zero. Python's slice then counts from the end of the input, or
  comes back empty, and the output falls short of the file size its header
  announces (`Resize.EnlargeWrapsNegativeOffsets`, `Resize.OutputShortfall`).
- A truncated input is not rejected. Python slicing just yields fewer bytes
  (`Resize.TruncatedInputExample`).
- The copy in `mark_image_as_processed` overwrites the resized upload. After a
  run, `<key>_processed.jpg` holds the original bytes (`Handler.RunMovesPending`).

Other behaviour of the code that the model keeps:

- Only an input shorter than 24 bytes (`struct.error`) and a zero height
  (`ZeroDivisionError`) are errors while reading the dimensions. A short pixel
  area and negative dimensions are not rejected.
- Any exception ends the whole run. Earlier images stay processed, and no later
  image is looked at. Nothing catches an exception, including one raised
  while publishing.
- The size rule tests `width / height > 1`, so a square source takes the
  height-pinned branch.
- A header field that does not fit its `struct.pack` format makes the write
  raise `struct.error`. Examples are a file size of 2^31 or more, and the
  image size of a negative target width, which `pack('<I', …)` refuses at
  line 125. This is modelled as the error `PackOutOfRange`.

## Model

| member | source | states |
|---|---|---|
| Bytes.PackI32LE | lambda_function.py:115 | `pack('<i', v)` is 4 bytes; `Bytes.I32LERoundTrip` reads it back |
| Bytes.PackU32LE | lambda_function.py:118-119 | `pack('<I', v)` is 4 bytes; `Bytes.U32LERoundTrip` reads it back |
| Bytes.PackU16LE | lambda_function.py:116-117 | `pack('<H', v)` is 2 bytes; `Bytes.U16LERoundTrip` reads it back |
| Bytes.I32LERoundTrip | lambda_function.py:120-121 | unpacking a packed signed 32-bit little-endian value gives the value back |
| Bytes.U32LERoundTrip | lambda_function.py:118-119 | the same for `<I` fields |
| Bytes.U16LERoundTrip | lambda_function.py:116-117 | the same for `<H` fields |
| Bytes.UnpackPackLE | lambda_function.py:115-129 | little-endian packing of any in-range width is inverted by little-endian unpacking |
| Bytes.UnpackI32BE | lambda_function.py:85 | `unpack('>i', …)` yields a signed 32-bit value |
| Bytes.PySlice | lambda_function.py:136-137 | a Python slice equals the Dafny slice when in range, is clamped at the end, counts negative bounds from the end (`s[-k:-j]` is `s[|s|-k..|s|-j]`), is empty when its end lies at or before `-|s|`, and is never longer than `b - a` |
| Bmp.FileHeader | lambda_function.py:114-118 | the file header is 14 bytes |
| Bmp.InfoHeader | lambda_function.py:119-129 | the info header is 40 bytes |
| Bmp.Header | lambda_function.py:114-129 | the header is written exactly when every field fits its format (file size, width and height as int32, image size as uint32); then it is 54 bytes, otherwise `struct.error` |
| Bmp.FileHeaderLayout | lambda_function.py:114-118 | 'B' 'M', file size, two zero words, pixel offset 54 decode back from their offsets |
| Bmp.InfoDimsLayout | lambda_function.py:119-121 | info size 40, width and height decode back |
| Bmp.InfoFormatLayout | lambda_function.py:122-125 | planes 1, 24 bits per pixel, compression 0 and the image size decode back |
| Bmp.InfoTailIsZero | lambda_function.py:126-129 | the resolution and palette fields are 16 zero bytes |
| Bmp.InfoHeaderLayout | lambda_function.py:119-129 | every info-header field decodes back from its offset |
| Bmp.HeadersLayout | lambda_function.py:114-129 | every field of the 54 bytes decodes back from its offset |
| Bmp.HeaderLayout | lambda_function.py:114-129 | a written header has 'BM', file size 54 + 3·nw·nh, pixel offset 54, info size 40, nw at 18..22, nh at 22..26, planes 1, 24 bpp, no compression, image size 3·nw·nh and zeros at 38..54 |
| Bmp.HeaderDims | lambda_function.py:119-121 | bytes 14..26 of a header are the size, width and height fields |
| Bmp.ReadDims | lambda_function.py:85 | reading the dimensions fails exactly when the input is shorter than 24 bytes |
| Bmp.ReadDimsBigEndian | lambda_function.py:85 | width and height are the big-endian two's-complement values of bytes 16..20 and 20..24 |
| Bmp.PackSmallI32 | lambda_function.py:120 | a value below 65536 packs as its low byte, its second byte and two zeros |
| Bmp.SmallInfoDims | lambda_function.py:119-121 | for dimensions below 65536 the size and dimension fields are these 12 bytes |
| Bmp.ReadBackSwapsBytes | lambda_function.py:119-121 | for dimensions below 65536, the dimensions that line 85 reads from a header written here are the written ones with their two low bytes swapped, which changes every dimension whose two low bytes differ (`Bmp.Swap16`) |
| Bmp.ReadBackExample | lambda_function.py:119-121 | a 200 by 100 header reads back as 51200 by 25600 |
| Resize.TruncDiv | lambda_function.py:92 | `int(a / b)` on exact rationals for a positive divisor: the Euclidean quotient for a non-negative numerator, the negated quotient of the magnitude for a negative one |
| Resize.TruncDivTowardZero | lambda_function.py:92 | for every non-zero divisor, `int(a / b)` has the largest magnitude q with q·b fitting into a, and the sign of the exact quotient |
| Resize.WiderThanTall | lambda_function.py:89-90 | `width / height > 1` holds exactly when (w − h)·h > 0, for either sign of the height |
| Resize.TargetSize | lambda_function.py:88-95 | a source wider than tall gets width tw and a height whose magnitude is that of tw·h/w truncated; any other source gets height th and a width whose magnitude is that of th·w/h truncated |
| Resize.TargetSizeWide | lambda_function.py:90-92 | a landscape source gets width tw and the largest height nh with nh·w ≤ tw·h, at most tw |
| Resize.TargetSizeTall | lambda_function.py:93-95 | a portrait or square source gets height th and the largest width nw with nw·h ≤ th·w, at most th |
| Resize.TargetSizeSquare | lambda_function.py:93-95 | a square source gets (th, th) |
| Resize.TargetFitsSource | lambda_function.py:88-95 | when the pinned side does not exceed the source, the target fits inside the source |
| Resize.CroppedOrPadded | lambda_function.py:102-142 | crop-or-pad writes its output exactly when the header fits, otherwise it raises `struct.error`; an output is at least 54 bytes long (`Resize.OutputStartsWithHeader` shows it begins with the header) |
| Resize.OutputStartsWithHeader | lambda_function.py:113-129 | whatever the pixels, every output begins with the 54-byte header for its target size |
| Resize.CropOrPad | lambda_function.py:102-142 | the nested loop returns the header followed by every output row, or the header's `struct.error` |
| Resize.WriteRow | lambda_function.py:133-140 | the inner loop appends output row y's pixels, left to right, each copied or white by the upper-bounds test |
| Resize.RowLength | lambda_function.py:133-140 | a row of n 3-byte pixels is 3·n bytes |
| Resize.PixelInRow | lambda_function.py:133-140 | pixel x of a row sits at bytes 3x..3x+3 |
| Resize.RowsLength | lambda_function.py:132-140 | the first m rows fill m row widths |
| Resize.RowInRows | lambda_function.py:132-140 | row y sits at its row offset among the pixel bytes |
| Resize.PixelInRows | lambda_function.py:132-140 | output pixel (x, y) sits at 3·(y·nw + x) among the pixel bytes |
| Resize.RowsLengthIsPixelBytes | lambda_function.py:132-140 | the pixel bytes are 3·nw·nh long |
| Resize.PixelAfterHeader | lambda_function.py:132-140 | after a 54-byte header, pixel (x, y) is at offset 54 + 3·(y·nw + x) |
| Resize.PixelsAfterHeader | lambda_function.py:132-140 | the same for all pixels, and the total length is 54 + 3·nw·nh |
| Resize.OutputLayout | lambda_function.py:131-142 | with full 3-byte pixels the output is the header followed by nw·nh pixels; pixel (x, y) is the source slice when `x+left < ow` and `y+top < oh`, and white exactly otherwise, with no lower-bound test |
| Resize.PixelAtMostThree | lambda_function.py:134-140 | no write in the loop is longer than 3 bytes |
| Resize.RowAtMost | lambda_function.py:133-140 | a row of n pixels is at most 3·n bytes |
| Resize.RowShort | lambda_function.py:133-140 | a row is shorter than 3·n bytes when one of its pixels is |
| Resize.RowsAtMost | lambda_function.py:132-140 | the first m rows are at most m row widths |
| Resize.RowsShort | lambda_function.py:132-140 | the first m rows fall short of m row widths when one of their pixels is short |
| Resize.OutputShortfall | lambda_function.py:115-140 | the output is never longer than the 54 + 3·nw·nh bytes its header announces, and is shorter as soon as one written pixel is |
| Resize.CropPixel | lambda_function.py:134-137 | in the crop case each output pixel lies inside the source and is its 3 bytes at the centred position |
| Resize.CropOutput | lambda_function.py:132-142 | in the crop case the output is exactly 54 + 3·nw·nh bytes, each pixel copied from the centred window and none white |
| Resize.Resized | lambda_function.py:79-100 | `process_image` fails on the dimension read (`ShortHeader`) exactly for inputs under 24 bytes; it raises `ZeroDivisionError` exactly when the height read is 0; otherwise it raises `struct.error` (`PackOutOfRange`) exactly when the target size's header fields do not fit; a result is at least 54 bytes long (`Resize.ResizedStartsWithHeader` shows it begins with the header) |
| Resize.ResizedStartsWithHeader | lambda_function.py:85-129 | a resized image came from an input of at least 24 bytes with a non-zero height, its target size fits the header, and it begins with the header for that size |
| Resize.ProcessImage | lambda_function.py:79-100 | reading the dimensions, applying `TargetSize` and running the `CropOrPad` loop returns `Resized` |
| Resize.ResizedCrops | lambda_function.py:85-98 | a well-formed input whose pinned side fits is resized by pure cropping, and the output exists |
| Resize.LandscapeExample | lambda_function.py:88-108 | 200 by 100 into (100, 100) gives 100 by 50 with left 50 and top 25 |
| Resize.BlackImageExample | lambda_function.py:85-142 | an all-black 200 by 100 input yields a 100 by 50 output of 54 + 15000 bytes, every pixel black |
| Resize.UpscaleReadsHeader | lambda_function.py:134-140 | padding 1 by 1 to 3 by 3 gives all nine pixels: the four with x < 2 and y < 2 copy input bytes 54 + 3·(x + y − 2) onward, so the top-left one copies header bytes 48..51 and only (1, 1) the source pixel; the right column and the bottom row are white |
| Resize.EnlargeWrapsNegativeOffsets | lambda_function.py:85-140 | a complete 2 by 1 input resized into 100 by 100 becomes 100 by 50 with left −49 and top −25; pixel (29, 25) reads the 6th to 4th bytes from the end of the input, pixel (30, 25) writes nothing, and the output is shorter than its header announces |
| Resize.TruncatedInputExample | lambda_function.py:136-137 | a 54-byte input for a 1 by 1 image gives a 54-byte output whose header announces 3 pixel bytes |
| Handler.ProcessedKey | lambda_function.py:33 | the processed key ends with `_processed.jpg` and starts with the original key |
| Handler.OriginalKey | lambda_function.py:152 | stripping the suffix leaves a key |suffix| shorter |
| Handler.ProcessedKeyRoundTrip | lambda_function.py:152 | appending and stripping the suffix are inverse to each other |
| Handler.ProcessedKeyInjective | lambda_function.py:152 | distinct originals get distinct processed keys, and no processed key equals its original |
| Handler.Notification | lambda_function.py:51 | the message is the fixed prefix followed by the processed key |
| Handler.NotifiedKey | lambda_function.py:51 | a message has a key exactly when it starts with the prefix |
| Handler.NotificationRoundTrip | lambda_function.py:51 | every message names exactly the key it was sent for |
| Handler.Download | lambda_function.py:70-77 | `get_object` returns the stored bytes, or fails for a missing key |
| Handler.Marked | lambda_function.py:150-162 | marking removes the original and puts its bytes under the processed key, replacing what was there; all other keys keep their objects; a missing original fails |
| Handler.MarkImageAsProcessed | lambda_function.py:150-162 | copy then delete computes `Marked` |
| Handler.HandleKey | lambda_function.py:21-40 | a listed key ending in the suffix changes nothing; any other key fails if missing, succeeds exactly when its image resizes, and then the store holds the original under the processed key, the original is gone, and one message is appended |
| Handler.EndsWith | lambda_function.py:23 | `str.endswith`: the last characters of the key are those of the suffix, one by one |
| Handler.Run | lambda_function.py:21-45 | a run completes only with status 200 and the fixed body, and it only appends to the topic, at most one message per listed key |
| Handler.LambdaHandler | lambda_function.py:13-45 | the loop computes `Run` over the listing: keys in order, the first exception ending the run |
| Handler.Pending | lambda_function.py:21-24 | the keys processed are exactly the listed keys without the suffix |
| Handler.Messages | lambda_function.py:40 | one message per processed key, in order |
| Handler.StepKeepsProcessable | lambda_function.py:21-40 | handling one key of a processable listing succeeds and leaves the rest processable |
| Handler.RunCompletes | lambda_function.py:21-45 | a processable run returns status 200 and appends one message per pending key in listing order |
| Handler.RunKeepsUntouched | lambda_function.py:21-40 | keys a run neither processes nor writes keep their objects |
| Handler.RunMovesPending | lambda_function.py:33-37 | after a run every pending original is gone and its processed key holds the original's bytes, not the resized image |
| Handler.RunEffect | lambda_function.py:13-45 | the whole effect of one successful run |
| Handler.RunSkipsProcessed | lambda_function.py:23-24 | a listing of processed keys only changes nothing and publishes nothing |
| Handler.RunComposes | lambda_function.py:21-40 | work done before a later failure is kept: a run over two listings is the second run from where the first ended |
| Handler.AfterRunAllProcessed | lambda_function.py:18-40 | after a run over a complete listing, every key left under `image/` ends with the suffix |
| Handler.SecondRunIsNoop | lambda_function.py:13-45 | a second run over a complete listing of what the first left behind processes nothing, publishes nothing and leaves the bucket unchanged |
| Handler.ImageWithEarlierOutput | lambda_function.py:21-40 | an image listed with its earlier output ends up renamed onto the output's key, replacing it, with one message |

## Left out

- The boto3 clients are not modelled. `get_object`, `put_object`, `copy_object`
  and `delete_object` become map operations, and their network, permission
  and throttling failures are not modelled.
- `get_object_keys_in_folder` (lines 56-68) is not modelled as an operation.
  The listing is a parameter of `LambdaHandler`. `ListsExactly` says when it is
  a complete listing of the folder. The 1000-key page limit, the missing
  pagination and the listing order are not modelled.
- SNS `publish` (lines 54 and 169) is modelled as appending the message to a
  sequence, and its failures are not modelled. The function is defined twice,
  identically, and is modelled once.
- `upload_image` (lines 144-148) is the map update inside `LambdaHandler`.
- `Resize.TargetSize`: uses exact rational arithmetic truncated toward zero.
  The source computes `width / height` and the scaled side in floating point,
  so for some inputs float rounding can give a result one smaller.
- `Resize.OutputLayout`: pins each pixel's offset only when every written
  pixel is 3 bytes. A copy-branch slice comes back shorter when it runs past
  the end of a truncated input, and when enlarging gives it a negative offset
  that Python's slice wraps to the end of the input or leaves empty. Such a
  pixel shifts the offsets of all later ones. That case is described by
  `CroppedOrPadded` itself, by `Resize.OutputShortfall`, and by
  `Resize.EnlargeWrapsNegativeOffsets` and `Resize.TruncatedInputExample`.
- The `BytesIO` buffer is a sequence that the loops extend.
- The hard-coded bucket name and topic ARN, the `event` and `context`
  arguments, and the module-level clients are not modelled.
- No JPEG encoding exists in the source: the output is bitmap bytes stored
  under a `.jpg` key.
- When an exception ends a run, the model reports it as `Raised`. The Lambda
  runtime's handling of that exception is not modelled.
