# Verification of klib

A Dafny model of the parts of klib that do their own work with buffers, indices and text, and proofs about it:

- `QrImage.dfy`, `QrText.dfy`: the two QR renderers of `src/qr_code.cpp`. The module matrix that the qrencode library
  returns is a parameter, or missing when the library returns null. The int32 arithmetic is modelled with a 32-bit type,
  so that every operation is proved to stay in range.
- `Modes.dfy`, `CipherCtx.dfy`, `Crypto.dfy`: the AES driver of `src/crypto.cpp`. The block cipher is any permutation of
  16-byte blocks, the GCM key stream and tag are any functions (sections 7.1 and 7.2 of NIST SP 800-38D say what goes
  into them); CBC follows section 6.2 of NIST SP 800-38A and its padding section 6.3 of RFC 5652. The cipher context is
  an object that takes input in pieces, keeps incomplete blocks, and when decrypting CBC keeps back the last block.
  Random IVs are parameters.
- `Utf8.dfy`, `Utf16.dfy`, `Trim.dfy`, `Transcode.dfy`: `src/unicode.cpp` on bytes, against its meaning on code points.
  UTF-8 is that of sections 3 and 4 of RFC 3629 and UTF-16 that of sections 2.1 and 2.2 of RFC 2781. `utf8::next` and
  `utf8::prior` are modelled as utf8cpp implements them, on malformed bytes too, and `erase_head` and `erase_tail` as
  boost documents them, negative counts included.
- `Split.dfy`, `PercentCoding.dfy`, `Query.dfy`: `split_str`, percent coding (sections 2.1 and 2.3 of RFC 3986), the form
  fields of `src/http.cpp` and the query of `klib::URL`. The order in which a hash map is walked is a parameter. libcurl
  is modelled as documented: `curl_easy_escape` reads a C string, `CURLU_URLDECODE` turns plus signs of a query into
  spaces and rejects bytes below 32, `CURLU_APPENDQUERY` leaves the first equals sign alone. The version assumed is one
  before 8.8.0, which reports an empty query as empty; later ones report it as missing unless asked.
- `Archive.dfy`: the top-level directory of a path and the outermost folder of an archive in `src/archive.cpp`.
- `Prelude.dfy`: shared types and arithmetic.

An exception of class `klib::RuntimeError` is the result `RuntimeError`. Loops and objects that the source changes in
place are methods and classes; each is proved equal to a function, and the lemmas are about that function.

Results that a reader of the code may not expect:

- The RGB image works up to a side of 26754 pixels and overflows int32 from 26755 on (`QrImage.OverflowLimit`).
- A margin of -1 makes the RGB renderer write in front of its buffer (`QrImage.WriteInFrontOfTheBuffer`). For a QR code
  it stays inside exactly when the zoom is not positive, or the margin is not negative, or it is at most -width
  (`QrImage.WritesInsideExactly`); in the last case the picture is upside down (`QrImage.FarNegativeMarginMirrors`).
- The text form shows the zoom-1 image without its first and last row when the margin is odd (`QrText.RenderersAgree`).
- Decryption accepts a message exactly when it is an encryption under the IV it begins with (`Crypto.DecryptionExactly`).
- A message shorter than IV and tag gets a size that wraps around below zero, and spans outside the message
  (`Crypto.SpansInsideExactly`, `Crypto.EmptyMessage`).
- `trim_right` erases stray trail bytes behind white space instead of throwing (`Trim.BlankUnitNeedNotBeUtf8`,
  `Trim.RightErasesUtf8Exactly`), so on malformed text the order of the two scans can matter (`Trim.OrdersAgreeExactly`).
- `trim_left` leaves 2^31 bytes of white space standing, because their count turns negative (`Trim.LongBlankStays`,
  `Trim.ErasedExactly`).
- A query survives `to_string` and parsing exactly when keys hold neither `&` nor `=`, values no `&`, and nothing holds a
  control character (`Query.UrlQueryRoundTrip`), because `URL` decodes before it splits. For a receiver that splits first
  it survives exactly when keys hold no `=` and nothing holds a NUL byte (`Query.QueryReadBack`).
- A query item without `=` is key and value at once (`Query.WordAsQuery`); `url_encode` cuts at the first NUL byte
  (`PercentCoding.DecodeOfEncode`).
- `get_top_level_dir` never ends on an absolute path (`Archive.RecursionEndsExactly`).

## Model

| member | source | states |
|---|---|---|
| QrImage.QrCodeToRgb | src/qr_code.cpp:28-72 | for every margin and zoom that keeps the offsets inside, the four nested loops leave the buffer equal to the description of the image (black where a dot of a dark module lies, white elsewhere), with the side width * zoom + 2 * margin * zoom, without int32 overflow and with every write in bounds; a null code throws |
| QrImage.SetXY | src/qr_code.cpp:47-57 | writes three zero bytes at the pixel's offset and changes no other byte; past the last pixel it changes nothing |
| QrImage.PaintModule | src/qr_code.cpp:62-66 | the inner loops advance the buffer from "before this module" to "after this module" |
| QrImage.DotHasPixel | src/qr_code.cpp:48-51 | with a margin that is not negative, every dot of every module has an offset inside the image, so the bounds test never skips one, and the offset determines the dot |
| QrImage.PixelHasOneDot | src/qr_code.cpp:48-48 | with a margin that is not negative, every pixel inside the border is addressed by exactly one iteration |
| QrImage.OffsetInside | src/qr_code.cpp:47-51 | every offset is inside the image, also with a margin of at most -width |
| QrImage.OffsetsDiffer | src/qr_code.cpp:48-48 | and no two iterations of the four loops address the same pixel |
| QrImage.WriteInFrontOfTheBuffer | src/qr_code.cpp:47-56 | with margin -1 and zoom 1 a dark upper left corner is written width - 1 pixels in front of the buffer |
| QrImage.WritesInsideExactly | src/qr_code.cpp:47-69 | with dark corners at the upper and lower left every write is inside the buffer iff zoom <= 0, margin >= 0 or margin <= -width |
| QrImage.ImagePixel | src/qr_code.cpp:37-69 | a pixel's three bytes are 0 iff it lies inside the margins on a module whose byte is odd, else 255 |
| QrImage.FarNegativeMarginMirrors | src/qr_code.cpp:37-69 | a margin of at most -width gives the picture of the margin -margin - width upside down, and a negative width and height |
| QrImage.ZerosOfStage | src/qr_code.cpp:59-69 | at every point of the loops the number of zero bytes is three times the number of dots painted so far |
| QrImage.PixelConservation | src/qr_code.cpp:44-69 | the finished image has 3 * zoom * zoom zero bytes per dark module and no others, none if the zoom is negative |
| QrImage.OverflowLimit | src/qr_code.cpp:37-53 | when the writes stay inside, all int32 results are in range iff the side is between -26754 and 26754 |
| QrText.QrCodeToUtf8 | src/qr_code.cpp:74-126 | the text is the UTF-8 encoding of the closed description of its characters, for any margin, also a negative one; a null code throws |
| QrText.PrintMargin | src/qr_code.cpp:16-24 | prints margin / 2 full lines, above and below the matrix |
| QrText.PrintRows | src/qr_code.cpp:94-121 | two matrix rows per line, and one line for an odd last row |
| QrText.PrintLine | src/qr_code.cpp:95-120 | one line: margin, glyphs, margin, line end |
| QrText.PrintGlyph | src/qr_code.cpp:103-113 | the glyph paints exactly the light halves, and the second row is read only where the matrix has one |
| QrText.LinesAreEquallyLong | src/qr_code.cpp:90-120 | line ends stand after every width + 2 * margin glyphs and nowhere else |
| QrText.RenderersAgree | src/qr_code.cpp:90-123 | half glyph by half glyph the text shows the zoom-1 RGB image; beyond the image it is light |
| QrText.RowsOfText | src/qr_code.cpp:92-123 | the text has all image rows but two when the margin is odd, and one more when the matrix is odd |
| QrText.OddMarginRowsAreWhite | src/qr_code.cpp:18-18 | the two image rows that an odd margin leaves out are white |
| QrText.TextOfModules | src/qr_code.cpp:94-113 | the character over two modules is a space, a half block or a full block: empty where the byte of the module is odd, painted where it is even and below the last row |
| QrText.TextOfMargins | src/qr_code.cpp:16-123 | number of lines and columns, full blocks all around the matrix, a line end behind each line |
| QrText.TextKeepsEveryModule | src/qr_code.cpp:74-126 | decoding the UTF-8 text recovers every module of the matrix, dark iff its byte is odd |
| CipherCtx.Ctx.Update | src/crypto.cpp:109-114 | writes exactly the output that has become final, behind what is already there; what it touches, for CBC decryption also the block then kept back, is inside the room left; fails iff GCM would exceed its limit |
| CipherCtx.Ctx.Final | src/crypto.cpp:118-123 | completes the output to that of the one-shot mode, or fails exactly where that fails |
| CipherCtx.Ctx.GetTag | src/crypto.cpp:126-131 | the tag is that of the one-shot mode |
| Crypto.FeedAll | src/crypto.cpp:104-116 | for any piece size the buffer holds what one-shot processing has emitted, and no write leaves it; it fails iff the data exceed the limit of GCM |
| Crypto.Aes256Crypt | src/crypto.cpp:40-134 | for any positive piece size, output and tag are those of the one-shot mode; wrong IV, tag or key lengths, padding or tag, and too much data for GCM throw |
| Crypto.OutputSize | src/crypto.cpp:95-124 | CBC encryption fills the buffer, GCM encryption leaves one byte, CBC decryption drops 1 to 16 |
| Crypto.CryptSucceeds | src/crypto.cpp:40-134 | encryption, and GCM decryption, succeed iff the key has 32 bytes, the IV a permitted length, GCM gets at most 2^36 - 32 bytes, and (decrypting) the given tag is a leading part of the right one |
| Crypto.Aes256Encrypt | src/crypto.cpp:138-149 | returns the IV, the ciphertext and, for GCM, the tag |
| Crypto.Aes256Decrypt | src/crypto.cpp:151-173 | with size arithmetic modulo 2^64, whenever the spans lie inside the message it is sliced back into its parts and decrypted |
| Crypto.SpansInsideExactly | src/crypto.cpp:155-170 | IV, ciphertext and tag spans lie inside the message iff it is at least as long as IV and tag |
| Crypto.EmptyMessage | src/crypto.cpp:155-170 | for the empty message the ciphertext span is nearly 2^64 bytes long |
| Crypto.Aes256CbcDecryptNoIv | src/crypto.cpp:175-179 | CBC decryption with whatever IV the context holds |
| Crypto.CbcMessage | src/crypto.cpp:145-147 | a CBC message is the IV followed by the CBC ciphertext of the padded data |
| Crypto.GcmMessage | src/crypto.cpp:141-143 | a GCM message is the IV, the ciphertext and a 16-byte tag over additional data and ciphertext; beyond 2^36 - 32 bytes there is none |
| Crypto.GcmBytes | src/crypto.cpp:104-143 | byte k of the ciphertext is byte k of the data combined bit by bit with byte k of the key stream; the tag covers the additional data and this ciphertext |
| Crypto.CbcBytes | src/crypto.cpp:104-147 | each block of the ciphertext is the cipher of the data bytes, or of the count of those missing, combined bit by bit with the block before, the IV being in front |
| Crypto.RoundTrip | src/crypto.cpp:138-173 | encryption succeeds iff the key has 32 bytes and the mode takes that much data, has the stated size, and decryption returns the data |
| Crypto.DecryptionExactly | src/crypto.cpp:151-173 | decryption returns given data iff the message is its encryption under the IV it begins with |
| Crypto.NoIvIsDecryption | src/crypto.cpp:175-179 | decryption without IV is decryption of the message with the context's IV in front |
| Crypto.NoIvResynchronises | src/crypto.cpp:175-179 | a whole CBC message decrypted without IV gives one garbled block and then exactly the plaintext |
| Utf8.EncodingLayout | src/unicode.cpp:187-188 | lengths, byte ranges and carried bits of the encoding of every code point that has one |
| Utf8.NextExactly | src/unicode.cpp:22-22 | on any bytes: a forward step reads a code point iff the bytes begin with its encoding |
| Utf8.PriorExactly | src/unicode.cpp:46-46 | on any bytes: a backward step reads a code point iff the bytes end with its encoding and stray trail bytes |
| Utf8.PriorOfEncodeOne | src/unicode.cpp:46-46 | a backward step lands on the boundary that the forward steps visit |
| Trim.TrimLeftEraseNum | src/unicode.cpp:14-36 | the forward loop computes the specified count, narrowed to int32, or throws |
| Trim.TrimRightEraseNum | src/unicode.cpp:38-60 | the backward loop computes the specified count, narrowed to int32, or throws |
| Trim.TrimLeftCopy | src/unicode.cpp:77-79 | erases what the narrowed count of the forward scan says, or throws |
| Trim.TrimRightCopy | src/unicode.cpp:81-83 | erases what the narrowed count of the backward scan says, or throws |
| Trim.TrimCopy | src/unicode.cpp:85-87 | left erasing followed by right erasing, which trims every string of less than 2^31 bytes |
| Trim.Text.TrimLeft | src/unicode.cpp:64-66 | leaves in place what the copying form returns, and the string untouched when it throws |
| Trim.Text.TrimRight | src/unicode.cpp:68-70 | leaves in place what the copying form returns, and the string untouched when it throws |
| Trim.Text.Trim | src/unicode.cpp:72-75 | the in-place form gives the same text; when only the second scan throws, the left side is already gone |
| Trim.ErasedExactly | src/unicode.cpp:35-83 | when the scan does not throw, erasing is trimming iff the count is below 2^31, or the size is a multiple of 2^32 with 1 to 2^31 bytes to be left |
| Trim.ErasedIsTrimmed | src/unicode.cpp:64-87 | so below 2^31 bytes left, right and both-sided erasing is trimming |
| Trim.LongBlankStays | src/unicode.cpp:35-66 | of n bytes of white space, 2^31 <= n < 2^32, the last 2^32 - n stay |
| Trim.WhitespaceCharacters | include/klib/unicode.h:139-148 | the ranges make up exactly the 25 characters with the Unicode property White_Space |
| Trim.LeftEraseNumOfEncode | src/unicode.cpp:64-66 | left trimming of encoded text drops exactly the leading white space |
| Trim.RightEraseNumOfEncode | src/unicode.cpp:68-70 | right trimming of encoded text drops exactly the trailing white space |
| Trim.TrimRefinesCodePoints | src/unicode.cpp:14-87 | on well-formed text trimming bytes is decoding, dropping white space at both ends, and encoding |
| Trim.TrimRemovesTheSurroundings | src/unicode.cpp:72-87 | white space around a tight text goes and nothing else; the two sides commute on well-formed text; trimming is idempotent |
| Trim.OrdersAgreeExactly | src/unicode.cpp:72-87 | on any bytes: both orders of the scans give the same text or exception iff the text is well-formed or the backward scan does not erase all of it; where they differ, the source's order throws and the other leaves nothing |
| Trim.EveryTextHasATightMiddle | src/unicode.cpp:72-87 | every well-formed text is white space, a tight text, and white space |
| Trim.LeftEraseNumExactly | src/unicode.cpp:14-36 | on any bytes: n bytes are erased iff they are encoded white space and what follows is the end or readable and not white space |
| Trim.RightTrimmedOf | src/unicode.cpp:38-60 | on any bytes: white-space units go until the beginning or something readable that is not white space |
| Trim.RightTrimmedUnits | src/unicode.cpp:38-60 | and every input on which the scan does not throw has that form |
| Trim.BlankUnitNeedNotBeUtf8 | src/unicode.cpp:46-50 | stray trail bytes behind white space are erased although they are no UTF-8 |
| Trim.RightErasesUtf8Exactly | src/unicode.cpp:38-60 | on any bytes: what the backward scan erases is UTF-8 iff it is encoded white space behind the beginning or something readable that is not white space |
| Trim.FirstCodePointExactly | src/unicode.cpp:89-100 | on any bytes: the code point whose encoding the bytes begin with, and an exception iff there is none |
| Trim.LastCodePointExactly | src/unicode.cpp:102-113 | on any bytes: the code point whose encoding the bytes end with, up to stray trail bytes, and an exception iff there is none |
| Trim.FirstAndLastCodePoint | src/unicode.cpp:89-113 | the two ends of the decoded text |
| Transcode.LengthsFromUtf8 | src/unicode.cpp:128-142 | counting lead bytes gives the number of code points and of UTF-16 units |
| Transcode.LengthFromUtf16 | src/unicode.cpp:145-160 | counting by unit, half a pair each, gives the number of UTF-8 bytes |
| Transcode.LengthFromUtf32 | src/unicode.cpp:179-194 | counting by code point gives the number of UTF-8 bytes |
| Transcode.ConvertValidUtf8ToUtf16 | src/unicode.cpp:136-137 | the conversion writes the UTF-16 text of the same code points, code point by code point, inside a buffer that holds it |
| Transcode.ConvertValidUtf16ToUtf8 | src/unicode.cpp:153-154 | the conversion writes the UTF-8 text of the same code points inside a buffer that holds it |
| Transcode.ConvertValidUtf8ToUtf32 | src/unicode.cpp:170-171 | the conversion writes the code points inside a buffer that holds them |
| Transcode.ConvertValidUtf32ToUtf8 | src/unicode.cpp:187-188 | the conversion writes the UTF-8 text of the code points inside a buffer that holds it |
| Transcode.Utf8ToUtf16 | src/unicode.cpp:128-143 | returns the UTF-16 text of the same code points; the buffer is exactly filled and the mismatch is unreachable |
| Transcode.Utf16ToUtf8 | src/unicode.cpp:145-160 | returns the UTF-8 text of the same code points; the buffer is exactly filled and the mismatch is unreachable |
| Transcode.Utf8ToUtf32 | src/unicode.cpp:162-177 | returns the code points; the buffer is exactly filled and the mismatch is unreachable |
| Transcode.Utf32ToUtf8 | src/unicode.cpp:179-194 | returns the UTF-8 text of the code points; the buffer is exactly filled and the mismatch is unreachable |
| Transcode.Utf8Utf16RoundTrip | src/unicode.cpp:128-160 | UTF-8 to UTF-16 and back is the identity, and both carry the code points of the UTF-32 route |
| Transcode.Utf16Utf8RoundTrip | src/unicode.cpp:128-160 | UTF-16 to UTF-8 and back is the identity |
| Transcode.Utf8Utf32RoundTrips | src/unicode.cpp:162-194 | UTF-8 and UTF-32 convert into each other without loss |
| Transcode.ConversionsConcatenate | src/unicode.cpp:128-177 | text that is put together is converted part by part |
| Transcode.ConversionOfOne | src/unicode.cpp:128-177 | one code point becomes itself, one unit, or a high and a low surrogate with its upper and lower ten bits |
| Transcode.CodePointToUtf8 | src/unicode.cpp:196-200 | returns the UTF-8 text of one code point |
| Transcode.CodePointRoundTrip | src/unicode.cpp:196-200 | the text of one code point begins and ends with it |
| Split.SplitStr | src/util.cpp:60-79 | the tokens, or with removal those that are not empty after trimming, in order |
| Split.TokensSplit | src/util.cpp:66-67 | every string is its tokens with one non-empty separator run between neighbours; tokens hold no separator and only the first and last may be empty |
| Split.TokensOfJoin | src/util.cpp:66-67 | and there is no other way to split it |
| Split.TokensHoldTheRest | src/util.cpp:66-67 | the tokens, concatenated, are the input with the separators deleted, and there is one more of them than maximal separator runs |
| Split.TrimSpacesExactly | src/util.cpp:70-72 | trimming a token takes away the spaces around it and nothing else |
| Split.SplitDistributes | src/util.cpp:60-79 | with removal, splitting two texts joined by separators is splitting each |
| Split.SplitOfOne | src/util.cpp:60-79 | with removal, a text without separators gives its middle when the blanks around it are gone, or nothing if that is empty |
| PercentCoding.UnreservedStays | src/url.cpp:21-29 | letters, digits and `-._~` are left as they are |
| PercentCoding.EncodedByteByByte | src/url.cpp:21-29 | every other byte becomes a percent sign and two upper-case digits; a NUL byte ends the text |
| PercentCoding.DecodesTriplets | src/url.cpp:31-40 | a percent sign and two hexadecimal digits of either case are decoded wherever they stand; a NUL byte ends the text |
| PercentCoding.KeepsWhatIsNoTriplet | src/url.cpp:31-40 | everything else is kept, also a percent sign without two digits behind it |
| PercentCoding.DecodeOfEncode | src/url.cpp:21-40 | decoding undoes encoding iff the string has no NUL byte; otherwise it is cut there |
| Query.SplicingPostFields | src/http.cpp:450-466 | the encoded fields joined by ampersands, none at the end |
| Query.FormGrows | src/http.cpp:454-463 | a form grows by an ampersand if it is not empty, the encoded key, an equals sign and the encoded value |
| Query.FormRoundTrip | src/http.cpp:450-466 | splitting, then decoding gives the map back for every order iff nothing holds a NUL byte |
| Query.Url.ParseQuery | src/url.cpp:93-106 | the loop emplaces the pairs of the decoded query, the first one for a key staying |
| Query.ParsedExactly | src/url.cpp:93-106 | parsing throws iff the decoded query holds a control character; else the keys are those of the items between the ampersands, each with the value of its first item, an item without equals sign being key and value |
| Query.WordAsQuery | src/url.cpp:102-103 | a query that is one word maps the word to itself |
| Query.Url.BuildQuery | src/url.cpp:168-175 | the loop appends every entry to the query of the handle |
| Query.QueryGrows | src/url.cpp:168-175 | the query grows by an ampersand if there is one, the printed key, an equals sign and the printed value |
| Query.PrintedByteByByte | src/url.cpp:169-174 | in a printed key or value a space is a plus sign, letters, digits and `-._~` stand for themselves, and every other byte is a percent sign and two lower-case digits |
| Query.PlainEntry | src/url.cpp:168-175 | an entry of such characters is printed as key, equals sign and value |
| Query.QueryReadBack | src/url.cpp:168-175 | a receiver that splits before decoding gets the map back for every order iff no key holds an equals sign and nothing holds a NUL byte |
| Query.ParsedIsClean | src/url.cpp:93-106 | no parsed map has `&` or `=` in a key, `&` in a value, or a control character |
| Query.AppendAllJoins | src/url.cpp:168-175 | appending puts one ampersand between neighbouring entries |
| Query.UrlQueryRoundTrip | src/url.cpp:93-175 | printing and parsing a query gives the map back for every order iff the map is clean |
| Query.FormAsUrlQuery | src/url.cpp:93-106 | form fields parsed by `URL` give the map back iff it is clean and not empty (libcurl before 8.8.0) |
| Archive.TopLevelDirExactly | src/archive.cpp:173-179 | the top-level directory is the text before the first slash |
| Archive.ParentPathExactly | src/archive.cpp:173-176 | the parent is what stands before the last run of slashes, or the root, or nothing |
| Archive.RecursionEndsExactly | src/archive.cpp:173-179 | a path without parent is reached iff the path is relative |
| Archive.OutermostFolderName | src/archive.cpp:374-395 | returns a name iff all entries share it as first component and the first entry lies below it or is a directory; an unreadable archive throws |
| Archive.OutermostFolderExactly | src/archive.cpp:386-394 | that is: every path is the name or the name, a slash and more, and the first is longer than the name or a directory |

## Left out

- QrImage.QrCodeToRgb: with a positive zoom, margins between -width and 0, for which the source writes outside its buffer (`QrImage.WritesInsideExactly`), and sides beyond 26754 pixels, where its arithmetic overflows (`QrImage.OverflowLimit`), are excluded.
- QrText.QrCodeToUtf8: margins for which the width of a line overflows int32 are excluded.
- Crypto.Aes256Decrypt: messages shorter than IV and tag, for which the source reads outside the message (`Crypto.SpansInsideExactly`), are excluded.
- Crypto.Aes256Crypt: keys, IVs and additional data of 2^31 bytes or more, whose sizes the source narrows, are excluded.
- Transcode.ConvertValidUtf8ToUtf16: the conversion functions of simdutf are loops over single code points, not over vectors; the same holds for the other three.
- Trim.EraseHead: at a count of exactly -2^31, from 2^31 bytes of white space, boost negates an `int`, which C++ does not define; the model does what boost documents there, as for every other negative count. The same holds for Trim.EraseTail.
- Transcode.Utf8ToUtf16: invalid input, for which the conversion functions of simdutf promise nothing, is excluded, as for the other transcoders.
- Archive.TopLevelDir: absolute paths are excluded because the recursion does not end on them.
- The error messages of exceptions; the model has one error.
- The QR encoder, the AES block function, GHASH, random numbers: parameters or functions known only by their effect.
- The class predicates of `include/klib/unicode.h` other than white space, `make_file_name_legal` and the hexadecimal printers: they would only add easy members.
- Scheme, host, port, path, fragment and user of `klib::URL`, and how libcurl finds the query in a URL.
- HTTP requests, SQL, hashes, base64, fonts, images, HTML, Markdown, MIME types, compression, files and processes: thin wrappers over libraries that are not part of this model.
