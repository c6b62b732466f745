# Netpbm codec, modelled in Dafny

This project models the core of a small C# Netpbm library: the codec that loads
and saves P1–P6 images. The plain (text) formats P1, P2 and P3 go through
`LoadPlain`, `SavePlain` and the `FileWordsReader` tokenizer. The binary formats
P4, P5 and P6 go through `LoadBin`, `ReadHeader` and `SaveBin`. `Load` reads the
tag at the start of the file and picks one of the two loaders.

The model follows the C# code, including its quirks:

- `IsPbm` holds for P1 and P2, not P4, so a P2 file carries no max colour and loading it divides by zero;
- `normalize` wraps at 32 bits and truncates toward zero;
- the P4 saver skips one pixel after every byte (nine pixels per byte);
- the P4 saver packs the most significant bit first, while `BitArray` unpacks the least significant bit first;
- the P4 loader turns all 8192 bits of its buffer into pixels, whatever the read returned;
- the P6 loader reads a partial last pixel from stale buffer bytes;
- `ReadHeader` keeps a `'\r'` inside a word;
- `Pop` skips a `'#'` inside a word: the span it returns ends at the word's end and holds as many characters as the word has characters other than `'#'`, so it starts one character late for each `'#'`;
- an image with no cells saved with the newline "\r\n" does not load back.

One quirk is not carried into the model. The P1 loader compares each word with `"1"` as a span, by reference, so as written every P1 pixel loads white. The model records that comparison as a finding (see Findings) and then uses the intended character comparison.

Files, one module each:

- `common.dfy` (`Common`): bytes, colours, exceptions as an `Error` datatype, 32-bit wrap-around, truncating division, decimal parse and format.
- `format.dfy` (`NetpbmFormat`): the `Format` tags and their classes, `BytesPerPixel`, the header record, and the lambdas `x`, `y`, `normalize`, `colorFromGrayscale` and `avg`.
- `grid.dfy` (`Grid`): `Color[,]` as `array2<Color>` filled in row-major order.
- `words_reader.dfy` (`WordsReader`): the `FileWordsReader` class and `PopSpec`, the specification of `Pop`.
- `plain.dfy` (`NetpbmPlain`): `LoadPlain` and `SavePlain` as methods, each proved against a specification function (`DecodePlain`, `EncodePlain`).
- `plain_roundtrip.dfy` (`PlainRoundTrip`): what `LoadPlain` makes of the text `SavePlain` writes.
- `header.dfy` (`BinaryHeader`): the byte stream, `ReadHeader` as a byte-by-byte state machine, and its word-level specification `HeaderFields`.
- `binary.dfy` (`NetpbmBinary`): `LoadBin` and `SaveBin` with their buffers, proved against `DecodeBin` and `EncodeBin`.
- `binary_roundtrip.dfy` (`BinaryRoundTrip`): P5 and P6 loads, and the save-then-load round trip.
- `p4_codec.dfy` (`P4Codec`): the P4 byte packing and what the P4 loader reads.
- `netpbm.dfy` (`Netpbm`): `Load` and its dispatch on the tag.

## Model

| member | source | states |
|---|---|---|
| Common.FromArgb | Netpbm_Plain.cs:43-46 | succeeds exactly when all three channels are in 0..255, giving an opaque colour with those channels; ArgumentException otherwise |
| Common.Wrap32 | Netpbm_Plain.cs:31 | the result is a 32-bit int congruent to the input modulo 2^32, and equals it when it already fits |
| Common.TruncDiv | Netpbm_Binary.cs:26 | C# int division: the remainder lies in [0, d) for a non-negative dividend and in (-d, 0] for a negative one |
| Common.ParseInt | Netpbm_Plain.cs:24-27 | succeeds exactly on non-empty digit text whose value is at most Int32.MaxValue, and returns that value; FormatException exactly for empty or non-digit text, OverflowException otherwise |
| Common.ParseByte | Netpbm_Binary.cs:103 | succeeds exactly on non-empty digit text whose value is at most 255, and returns that value; FormatException exactly for empty or non-digit text |
| Common.FormatNat | Netpbm_Plain.cs:62-63 | ToString writes at least one digit, only digits, and no leading zero |
| Common.DigitsValueFormatNat | Netpbm_Plain.cs:62-63 | the digits ToString writes denote the number written |
| Common.ParseIntFormatNat | Netpbm_Plain.cs:24-25 | int.Parse reads back every non-negative int that ToString writes |
| Common.ParseByteFormatNat | Netpbm_Binary.cs:103 | byte.Parse reads back every byte that ToString writes |
| NetpbmFormat.BytesPerPixel | Netpbm.cs:43-49 | 3 exactly for P6; 2 exactly for P5 with a max colour above 255; 1 otherwise |
| NetpbmFormat.FormatClasses | Netpbm.cs:35-41 | IsPlain is exactly P1–P3, IsBin exactly P4–P6 and its negation, IsPbm exactly P1 and P2 (so never a binary tag) |
| NetpbmFormat.BytesPerPixelDefault | Netpbm.cs:43-49 | with the default max colour a pixel takes 1 or 3 bytes, and 3 exactly for P6 |
| NetpbmFormat.FormatName | Netpbm.cs:28 | Format.ToString is two characters starting with 'P' |
| NetpbmFormat.ParseFormat | Netpbm.cs:24 | Enum.Parse succeeds exactly on a tag's own name, and returns that tag; otherwise it fails with an unknown format |
| NetpbmFormat.ParseFormatName | Netpbm_Plain.cs:23 | Enum.Parse reads back every tag that ToString writes |
| NetpbmFormat.Coords | Netpbm_Plain.cs:29-30 | x(i) and y(i) fail exactly when SizeX is 0; otherwise x < SizeX and y * SizeX + x == i |
| NetpbmFormat.CoordsOfCell | Netpbm_Binary.cs:24-25 | cell (x, y) of a row is reached from pixel y * SizeX + x |
| NetpbmFormat.RowMajorBound | Netpbm_Plain.cs:34 | the row-major number of every cell of a SizeX by SizeY grid is below SizeX * SizeY |
| NetpbmFormat.Normalize | Netpbm_Plain.cs:31 | a max colour of 0 is exactly the DivideByZero case |
| NetpbmFormat.NormalizeEnds | Netpbm_Binary.cs:26 | 0 maps to 0; the max colour maps to 255 while max * 255 fits an int |
| NetpbmFormat.NormalizeRange | Netpbm_Plain.cs:31 | without overflow the result is floor(v * 255 / max), and it is a valid channel exactly when v * 255 < 256 * max |
| NetpbmFormat.NormalizeIdentity | Netpbm_Binary.cs:26 | with max colour 255 every byte maps to itself |
| NetpbmFormat.NormalizeWrapsAtLargeMax | Netpbm_Plain.cs:31 | for every max colour with max * 255 above Int32.MaxValue, the product wraps and the max colour maps below 255 |
| NetpbmFormat.Gray | Netpbm_Plain.cs:32 | colorFromGrayscale succeeds exactly on a valid channel v, and gives the opaque grey Color(255, v, v, v) |
| NetpbmFormat.Avg | Netpbm_Binary.cs:134 | avg is the floor of a third of the channel sum |
| Grid.Place | Netpbm_Plain.cs:39 | storing pixel i at (i % SizeX, i / SizeX) extends the filled prefix by that pixel and leaves other cells as they were |
| Grid.CellIndex | Netpbm_Binary.cs:132-133 | (i % w, i / w) is the only cell whose row-major number is i |
| Grid.CellsRowMajor | Netpbm_Binary.cs:132-133 | the savers visit cell (x, y) as pixel y * SizeX + x |
| WordsReader.NewlineOffsetFirst | Netpbm_Plain.cs:114-116 | IndexOf('\n') is -1 exactly when no newline follows, and otherwise finds the first one |
| WordsReader.PopSpec | Netpbm_Plain.cs:106-128 | Pop leaves idx at the end of the text or on a blank, returns an empty word exactly when only blanks and comments remain, and always advances when text remains |
| WordsReader.PopTokenHasNoBlank | Netpbm_Plain.cs:119-125 | no word Pop returns contains a space, tab, '\n' or '\r' |
| WordsReader.PopSkipsComment | Netpbm_Plain.cs:111-117 | before a word, a '#' skips up to and past the end of its line |
| WordsReader.PopHashWithoutNewline | Netpbm_Plain.cs:113-117 | a '#' with no newline after it is skipped as one character |
| WordsReader.PopAllBlank | Netpbm_Plain.cs:119-122 | on blanks only, Pop returns the empty word at the end of the text |
| WordsReader.PopHashInsideWord | Netpbm_Plain.cs:111-127 | for every word that does not start with '#', Pop returns the span that ends where the word ends and starts one character late for each '#' in it |
| WordsReader.FileWordsReader.Load | Netpbm_Plain.cs:90-97 | the reader holds the file's text with idx at 0 |
| WordsReader.FileWordsReader.IsEmpty | Netpbm_Plain.cs:130-131 | empty exactly when idx reaches the last character, one before the end of the text |
| WordsReader.FileWordsReader.Pop | Netpbm_Plain.cs:106-128 | the loop returns the word PopSpec gives and leaves idx where PopSpec says |
| NetpbmPlain.P1ColorAsWritten | Netpbm_Plain.cs:41 | the span comparison gives black only for the literal's own storage |
| NetpbmPlain.P1AsWrittenIsWhite | Netpbm_Plain.cs:41 | every span taken from the file compares unequal, so the pixel is white |
| NetpbmPlain.P1Color | Netpbm_Plain.cs:41 | the intended comparison: black exactly for the word "1", white for every other word |
| NetpbmPlain.P1SpanMismatch | Netpbm_Plain.cs:41 | for the text "1", Pop returns "1", the intended colour is black, and the code as written gives white |
| NetpbmPlain.PlainHeader | Netpbm_Plain.cs:22-27 | a header that reads has sizes and max colour that fit an int, and max colour 0 when IsPbm |
| NetpbmPlain.Channel | Netpbm_Plain.cs:42-46 | a channel read moves the reader forward within the text, and always fails with max colour 0 |
| NetpbmPlain.PixelAt | Netpbm_Plain.cs:39-48 | a pixel read moves forward; it throws for a binary tag; a P1 pixel is black for the word "1" and white otherwise (the corrected comparison; see Findings); P2 and P3 pixels are opaque; P2 with max 0 fails |
| NetpbmPlain.PixelsFrom | Netpbm_Plain.cs:35-50 | the pixels read never overrun SizeX * SizeY, and only a plain tag reads any |
| NetpbmPlain.DecodePlain | Netpbm_Plain.cs:11-54 | a successful load yields exactly SizeX * SizeY pixels, and a plain tag when there are any |
| NetpbmPlain.ReadPlainHeader | Netpbm_Plain.cs:22-27 | the four Pop/Parse calls give PlainHeader's record or its error, with the reader after the header |
| NetpbmPlain.ReadPixel | Netpbm_Plain.cs:39-48 | the switch gives PixelAt's colour or its error, and moves the reader as PixelAt says |
| NetpbmPlain.ReadChannel | Netpbm_Plain.cs:44-46 | normalize(int.Parse(Pop())) gives Channel's value or its error |
| NetpbmPlain.ReadPixels | Netpbm_Plain.cs:33-53 | the loop fills a fresh SizeX by SizeY grid with exactly the pixels the specification reads, in row-major order, or fails with its error |
| NetpbmPlain.LoadPlain | Netpbm_Plain.cs:11-54 | returns DecodePlain's header and a grid holding its pixels in row-major order, or DecodePlain's error |
| NetpbmPlain.FailureStays | Netpbm_Plain.cs:70-80 | once a switch throws, the save writes nothing more |
| NetpbmPlain.SaveNoArm | Netpbm_Plain.cs:74-79 | for a binary tag on a non-empty bitmap, the save writes the header and one newline, then throws |
| NetpbmPlain.SavePlain | Netpbm_Plain.cs:57-81 | the method writes exactly EncodePlain's text and ends as EncodePlain says |
| PlainRoundTrip.EncodeLayout | Netpbm_Plain.cs:61-80 | for a plain tag, the saved text is the header words and pixel words, each with its separators, in order |
| PlainRoundTrip.LayoutReads | Netpbm_Plain.cs:106-128 | Pop returns the words of that layout one by one, and IsEmpty is false before each word and true after the last |
| PlainRoundTrip.DecodeRead | Netpbm_Plain.cs:22-53 | text read as a P1 or P3 header and pixel words loads as that header and the reading of each pixel (a P1 "1" as black, under the corrected comparison) |
| PlainRoundTrip.PlainRoundTrip | Netpbm_Plain.cs:57-81 | for a non-empty bitmap, or an empty one saved with a one-character newline, saving P1 or P3 completes, and loading the text gives the same tag and sizes (max 0 for P1, 255 for P3); each cell comes back as its reading: P1 by R > 127 (under the corrected P1 comparison), P3 with its channels made opaque |
| PlainRoundTrip.EmptyImageLongNewline | Netpbm_Plain.cs:35-38 | an image with no cells saved with a newline of two or more characters ("\r\n") never loads back: the reader is not IsEmpty after the header, so y(0) divides by a zero SizeX, or row 0 is past SizeY = 0 |
| PlainRoundTrip.PlainP2Fails | Netpbm_Plain.cs:26-31 | a saved non-empty P2 bitmap never loads: with no max colour field, normalize divides by zero |
| PlainRoundTrip.P2Reads | Netpbm_Plain.cs:42 | a P2 file whose header reads and whose first word is a number fails with DivideByZero |
| BinaryHeader.ByteStream.Open | Netpbm_Binary.cs:21 | the stream starts at byte 0 of the file |
| BinaryHeader.ByteStream.ReadByte | Netpbm_Binary.cs:80 | the next byte, advancing by one, or -1 at the end without moving |
| BinaryHeader.ByteStream.Read | Netpbm_Binary.cs:33 | copies min(buffer size, bytes left) bytes to the front of the buffer, keeps the rest of the buffer, and returns the count |
| BinaryHeader.Assign | Netpbm_Binary.cs:98-104 | stage 0 sets only Format, and succeeds exactly when the word is a tag's name; stages 1, 2 and 3 set only SizeX, SizeY or ColorMaxValue to the number the word spells, and succeed exactly on non-empty digit text whose value fits int (stages 1, 2) or byte (stage 3) |
| BinaryHeader.AssignKeeps | Netpbm_Binary.cs:98-107 | after one field the record is either complete and in range, or still partial for the next stage |
| BinaryHeader.FieldsShape | Netpbm_Binary.cs:93-120 | a header that reads has fields in range, max colour 0 when IsPbm, and leaves the stream just past a newline |
| BinaryHeader.HeaderInside | Netpbm_Binary.cs:106-117 | a header that reads ends inside the file |
| BinaryHeader.CarriageReturnKept | Netpbm_Binary.cs:86-91 | a tag line ended by "\r\n" keeps the '\r' in its word; with the model's exact ParseFormat the header then fails with an unknown format (the source trims it, see Left out) |
| BinaryHeader.HeaderRoundTrip | Netpbm_Binary.cs:129-130 | ReadHeader reads back SaveBin's header: tag and sizes, max 255 (0 when IsPbm), and the stream at the first pixel byte |
| BinaryHeader.HeaderLength | Netpbm_Binary.cs:129 | the reader stops at the end of the written header, or one byte before it for P1 and P2 |
| BinaryHeader.FieldsScan | Netpbm_Binary.cs:78-122 | the byte-by-byte state machine reads the same header as the word-level specification |
| BinaryHeader.SkipLine | Netpbm_Binary.cs:110-116 | the stream is left just past the next newline |
| BinaryHeader.AssignField | Netpbm_Binary.cs:98-104 | the switch statement computes Assign |
| BinaryHeader.ReadHeader | Netpbm_Binary.cs:71-123 | returns HeaderFields' record, or its error, and leaves the stream where HeaderFields ends |
| NetpbmBinary.Refill | Netpbm_Binary.cs:61-62 | a read returns min(buffer size, bytes left) and keeps the buffer's size |
| NetpbmBinary.Bits | Netpbm_Binary.cs:39 | new BitArray has 8 bits per byte; bit ii is bit ii % 8 of byte ii / 8, least significant first |
| NetpbmBinary.PassValues | Netpbm_Binary.cs:36-59 | one turn assigns 8 * buffer pixels for P4, byteCount for P5, ceil(byteCount / 3) for P6, and none for a plain tag |
| NetpbmBinary.Stored | Netpbm_Binary.cs:46-47 | a store succeeds exactly when SizeX > 0, the value exists and the row is below SizeY; otherwise DivideByZero, the value's error, or IndexOutOfRange |
| NetpbmBinary.StoreBits | Netpbm_Binary.cs:38-43 | the P4 inner loop stores the turn's values in order, or stops with the error the specification reaches first |
| NetpbmBinary.StoreBytes | Netpbm_Binary.cs:44-59 | the P5/P6 inner loop stores the turn's values in order, or stops with the error the specification reaches first |
| NetpbmBinary.ReadPixels | Netpbm_Binary.cs:28-63 | the do-while fills a fresh SizeX by SizeY grid with the stored values in row-major order and leaves other cells default, or fails with the first store error |
| NetpbmBinary.LoadBin | Netpbm_Binary.cs:12-66 | returns DecodeBin's header and a grid holding its pixels as a prefix, or DecodeBin's error |
| NetpbmBinary.Chunk | Netpbm_Binary.cs:147-163 | one turn of the save writes 3 bytes for P6, 1 for P4 and P5, and none for a plain tag |
| NetpbmBinary.Whole | Netpbm_Binary.cs:140-145 | the flushed length is the largest multiple of the buffer size up to n |
| NetpbmBinary.SaveTurn | Netpbm_Binary.cs:147-163 | one turn appends Chunk's bytes to the buffer and moves i as the P4 inner loop or the plain ++ does |
| NetpbmBinary.PackByte | Netpbm_Binary.cs:149-151 | the P4 inner loop ORs up to 8 pixels from bit 7 down, and moves i past them |
| NetpbmBinary.PackedBits | Netpbm_Binary.cs:149-151 | the packed value fits a byte, and the bits the loop did not reach stay 0 |
| NetpbmBinary.KeptFlush | Netpbm_Binary.cs:140-145 | writing out a full buffer keeps the output equal to the header plus every byte placed so far |
| NetpbmBinary.EncodeFailed | Netpbm_Binary.cs:140-145 | a save stopped by an exception has written the header and only the buffers already flushed |
| NetpbmBinary.EncodeDone | Netpbm_Binary.cs:165-166 | a completed save writes the header and every byte placed |
| NetpbmBinary.SaveBin | Netpbm_Binary.cs:125-167 | the method writes exactly EncodeBin's bytes and ends as EncodeBin says |
| BinaryRoundTrip.StoreAll | Netpbm_Binary.cs:46-47 | values that all exist and fit the grid are stored as they are |
| BinaryRoundTrip.StoreOverflow | Netpbm_Binary.cs:46-47 | a value past SizeX * SizeY, on row SizeY, fails with IndexOutOfRange |
| BinaryRoundTrip.ValuesAreSamples | Netpbm_Binary.cs:34-63 | for whole pixels, the turns from any refill assign the pixel values of the rest of the payload |
| BinaryRoundTrip.AllValuesAreSamples | Netpbm_Binary.cs:33-63 | however many buffers a P5/P6 payload of whole pixels takes, the loop assigns exactly its pixel values |
| BinaryRoundTrip.LoadBinSamples | Netpbm_Binary.cs:12-66 | a P5/P6 file of whole pixels loads as its header and the payload's pixels stored in row-major order |
| BinaryRoundTrip.P5PixelCount | Netpbm_Binary.cs:44-59 | a P5 file with max 255 loads its bytes as greys when they fit SizeX * SizeY (the rest stays default), and otherwise fails out of range |
| BinaryRoundTrip.EncodeBinData | Netpbm_Binary.cs:154-163 | a P5/P6 save completes and writes the header, then each cell's average (P5) or R, G, B (P6) in row-major order |
| BinaryRoundTrip.DecodeData | Netpbm_Binary.cs:44-59 | the bytes SaveBin writes for P5/P6 load as the header with max 255 and the reading of every cell |
| BinaryRoundTrip.BinaryRoundTrip | Netpbm_Binary.cs:125-167 | saving P5/P6 then loading gives the tag and sizes with max 255, and each cell (x, y) back as its grey average (P5) or its opaque colour (P6) |
| P4Codec.PackOf | Netpbm_Binary.cs:149-151 | a packed byte of m pixels leaves its low 8 - m bits free |
| P4Codec.EncodeP4 | Netpbm_Binary.cs:147-153 | a P4 save completes and writes the header, then the packed bytes |
| P4Codec.P4Length | Netpbm_Binary.cs:138-153 | with the outer i++ skipping a pixel after each byte, n pixels take ceil(n / 9) bytes |
| P4Codec.P4Bit | Netpbm_Binary.cs:150-151 | bit 7 - j of byte k is set exactly when pixel 9k + j exists and has R <= 127 |
| P4Codec.P4BitOrder | Netpbm_Binary.cs:39-41 | BitArray index 8k + 7 - j reads back pixel 9k + j: the loader reverses the saver's bit order |
| P4Codec.PackPolarity | Netpbm_Binary.cs:151 | light pixels pack to 0, and eight dark pixels pack to 255 |
| P4Codec.PackWhite | Netpbm_Binary.cs:151 | pixels with R > 127 set no bit |
| P4Codec.PackBlack | Netpbm_Binary.cs:151 | m pixels with R <= 127 set the top m bits |
| P4Codec.BitInBuffer | Netpbm_Binary.cs:39 | inside the bytes a read returned, a buffer bit is the payload bit |
| P4Codec.BitPastBuffer | Netpbm_Binary.cs:39-41 | after a full 1024-byte buffer, bit numbering starts again from the next bytes |
| P4Codec.P4Values | Netpbm_Binary.cs:38-43 | the P4 loop assigns, for every bit of the payload, black exactly when the bit is set |
| P4Codec.P4Load | Netpbm_Binary.cs:38-43 | a P4 load succeeds exactly when the assigned pixels fit SizeX * SizeY, and then pixel ii is black exactly when payload bit ii is set |
| P4Codec.P4SmallImage | Netpbm_Binary.cs:39-41 | a P4 image of fewer than 8192 pixels never loads: the store on row SizeY is out of range |
| Netpbm.ReadAllText | Netpbm_Plain.cs:92 | one character per byte, with the byte's value |
| Netpbm.LeadingTag | Netpbm.cs:24 | First() fails exactly on an empty file; otherwise the result is at most two characters of the first line |
| Netpbm.TagFormat | Netpbm.cs:24 | a tag that parses is the first two bytes, and a binary header read from the same bytes has the same format |
| Netpbm.Decode | Netpbm.cs:15-26 | a tag error is the load's error, and a binary load keeps the tag's format |
| Netpbm.LoadDispatch | Netpbm.cs:25 | a binary tag takes the binary loader, any other tag the plain one |
| Netpbm.BinTagAgrees | Netpbm_Binary.cs:100 | ReadHeader parses the same tag that Load read from the first line |
| Netpbm.TagOfFirstBytes | Netpbm.cs:24 | a file that starts with a tag name has that format; one that starts "PX" fails before either loader runs |
| Netpbm.Load | Netpbm.cs:15-26 | returns Decode's header and a fresh grid of the declared size holding its pixels, or Decode's error |

## Left out

- The user interface (Main.cs, Main.Designer.cs) is not part of this model.
- File.Exists, FileInfo and the extension guard (Netpbm.cs:17-22 and its copies) are file-system checks, so they are left out. The loaders take the file's bytes or text instead of a path, and the savers return the bytes or text they write.
- Dispose and Flush (Netpbm_Plain.cs:99-104) only release the text, so they are left out.
- Netpbm.ReadAllText reads each byte as one character. File.ReadAllText and File.ReadLines decode UTF-8 in the source, so the two agree only for ASCII files.
- Common.ParseInt and Common.ParseByte accept only unsigned decimal digits. int.Parse and byte.Parse also accept a leading sign and white space before and after the digits, '\r' included. A word from Pop never holds ' ', '\t', '\n' or '\r', but a word from ReadHeader can end in '\r'.
- NetpbmFormat.ParseFormat accepts only the six names. Enum.Parse also accepts names with white space around them and any integer text, including values that name no tag. Such a value is not IsPlain, so Load (Netpbm.cs:24-25) would send a file starting "7" or "42" to the binary loader.
- BinaryHeader.Assign: a binary header with CRLF line ends, such as "P5\r\n3 2\r\n255\r\n", loads in the source, because Enum.Parse, int.Parse and byte.Parse ignore the '\r' that ReadHeader leaves at the end of each word. In the model it fails with UnknownFormat, and so do ReadHeader, LoadBin and Load.
- BinaryHeader.CarriageReturnKept states the model's failure on a CRLF tag line, not the source's behaviour, which reads the tag.
- NetpbmPlain.PixelAt decodes a P1 word with the corrected comparison: "1" is black, every other word white. As written (Netpbm_Plain.cs:41) every P1 cell loads white; see Findings.
- NetpbmPlain.ReadPixel follows PixelAt, so its P1 cells are the corrected ones, not the all-white cells of the code as written.
- NetpbmPlain.PixelsFrom follows PixelAt, so its P1 cells are the corrected ones, not the all-white cells of the code as written.
- NetpbmPlain.DecodePlain follows PixelAt, so its P1 cells are the corrected ones, not the all-white cells of the code as written.
- NetpbmPlain.ReadPixels follows PixelAt, so its P1 cells are the corrected ones, not the all-white cells of the code as written.
- NetpbmPlain.LoadPlain follows PixelAt, so its P1 cells are the corrected ones, not the all-white cells of the code as written.
- PlainRoundTrip.DecodeRead states the corrected P1 reading (black for a dark cell). As written every P1 cell loads white.
- PlainRoundTrip.PlainRoundTrip states the corrected P1 reading (black for a dark cell). As written every P1 cell loads white.
- Netpbm.Decode follows DecodePlain for P1–P3, so its P1 cells are the corrected ones, not the all-white cells of the code as written.
- Netpbm.Load follows Decode, so its P1 cells are the corrected ones, not the all-white cells of the code as written.
- Common.Color keeps only the alpha and the three channels. System.Drawing.Color also tracks named colours, so its equality is not modelled.
- BinaryHeader.ReadHeader ends with EndOfInput when the stream runs out before the header is complete. In the source, ReadByte keeps returning -1, which becomes the character U+FFFF and is added to the word forever.
- BinaryHeader.SkipLine ends with EndOfInput at the end of the stream. The source loops forever there.
- BinaryHeader.ByteStream.Read always returns as many bytes as are left, up to the buffer size. A FileStream may return fewer; the source treats a short read like any other.
- NetpbmBinary.LoadBin requires a header that names a binary tag. On P1–P3 the source's do-while never sets byteCount to 0, so once a read returns bytes it never ends. Load only calls LoadBin for P4–P6.
- The P5 two-byte path (Netpbm_Binary.cs:50) is not modelled. BytesPerPixel is called without a max colour, so pixelSize is never 2.
- Array allocation limits are not modelled: `new Color[SizeX, SizeY]` with large sizes and the stack allocation of the buffer can throw OutOfMemory or overflow the stack.
- The line terminator StreamWriter writes (Environment.NewLine) is the parameter `nl` of SavePlain.
- Nothing is written to disk: a save whose switch throws is modelled as the text or bytes written up to that point plus the error.

## Findings

| source | as written | input that shows it | evidently intended | confidence | as-written member | corrected member |
|---|---|---|---|---|---|---|
| Netpbm_Plain.cs:41 | `reader.Pop() == "1"` compares a ReadOnlySpan<char> taken from the file with the literal's span by reference, which is never equal, so every P1 pixel loads white | a P1 file whose pixel word is "1", e.g. "P1 1 1 1" | compare the characters: "1" loads black, anything else white | not executed | NetpbmPlain.P1SpanMismatch | NetpbmPlain.P1Color |
