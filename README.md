# Apache XML Graphics Commons: the PNG decoder and five smaller classes, modelled in Dafny

This project models the PNG decoder `PNGRed` of Apache XML Graphics
Commons and proves properties of it. The decoder reads a PNG stream,
which the model takes as a sequence of bytes. The steps are:

- check the eight-byte signature;
- read the chunks one by one;
- parse the critical and ancillary chunks into the decoder's fields;
- on IEND, inflate the concatenated IDAT data;
- undo each row's filter;
- unpack the samples, one or seven (Adam7) passes;
- post-process each pixel into the tile raster: gamma and gray tables, palette expansion, added or removed alpha.

Five smaller classes of the same library are modelled as well:

- `PSGenerator` writes PostScript. Its string escaping and DSC comment lines are modelled, and so is its graphics-state stack.
- `TIFFField` reads typed TIFF field values and compares and equates fields.
- `DefaultEdgeDirectory` is the edge store of the Dijkstra router. It keeps penalties per edge and finds the best edge.
- `DataURIResolver` splits and decodes `data:` URLs.
- `DSCCommentBeginDocument` parses and generates the `%%BeginDocument` comment.

## Layout

- **Shared:** `wrappers.dfy` (Option and Result) and `java_int.dfy` (Java's `byte`, `short` and `int` widths and shift semantics, plus a few arithmetic facts).
- **Chunk layer:** `png_chunk.dfy`. The signature, `readChunk`, `getChunkType`, and the `PNGChunk` accessors with their big-endian reading.
- **IHDR layer:** `png_header.dfy`. The IHDR checks with the `1 << bitDepth` mask, the post-processing mode and band layout chosen by colour type and options, and the bytes per pixel.
- **Ancillary chunks:** `png_ancillary.dfy`. The values the parsers read from bKGD, cHRM, gAMA, hIST, pHYs, sBIT, sRGB, tIME, tEXt and zTXt, and the `expandBits` table.
- **Filters:** `png_filter.dfy`. Reconstruction as specification functions on sequences, the in-place array methods `decodeSubFilter` … `decodePaethFilter` proved against them, and the PNG row filters of section 6 of RFC 2083 as partners.
- **Interlacing:** `png_interlace.dfy`. The seven Adam7 passes with the source's integer formulas, and the proof that every pixel falls in exactly one pass.
- **Pixels:** `png_pixels.dfy`. `processPixels` for one pixel in every mode, the rasters `createRaster` makes (their sample truncation included), `setPixel` and `getPixel`, and unpacking a reconstructed row into samples.
- **Passes:** `png_pass.dfy`. `decodePass` and `decodeImage` as specification functions: row reads from the inflated stream, filters, rows into the tile.
- **Decoder:** `png_decoder.dfy`. The class `PNGRed`: its fields, the constructor's chunk loop, each `parse_*` method, `initGammaLut` and `initGrayLut`, and the IEND work, which creates the tile and runs `decodeImage`. It also holds the imperative methods that run the passes on arrays against the specifications above.
- **Smaller cores:** `ps_generator.dfy`, `tiff_field.dfy`, `edge_directory.dfy`, `data_uri.dfy` and `dsc_begin_document.dfy`.

## How the model follows the code

Where the two differ, the model follows the source code rather than its documentation. There is one exception: the four defects listed under "## Findings" (the bKGD colour, the sRGB chromaticities, the tEXt characters and the zTXt keyword). For each, the model states the code as written in a member of its own and proves the discrepancy. The decoder's parsers then use the corrected definition, as listed under "## Left out".

- **Chunk errors.** A chunk parser that throws makes the constructor rethrow, and that decoder object is never used. The model's parsers check first and change the decoder's fields only on success. Every error carries its cause (`ChunkFailed(cause)`), and a bad signature is `BadSignature`.
- **Java bytes.** Byte arrays are sequences of `uint8`. The Java sign is applied explicitly wherever it leaks out: `getByte`, `(char)` of a byte, the `expandBits` table, palette entries and the sRGB intent.
- **IHDR bit depth.** The check `1 << bitDepth & validMask` tests the shift modulo 32. A bit depth of 33 or 48 is therefore accepted as 1 or 16. `PngHeader.BitDepthQuirk` states this, and the model keeps it.
- **IHDR colour type.** The IHDR checks let colour types 1 and 5 through. No layout is then set, as in the source (lines 655-730).
- **Properties always run.** `emitProperties` is a final `true` field (PNGRed.java:225). The checks in the property code therefore always run: the `new Color` of bKGD and the pHYs unit check. In the model the pHYs check can fail. The bKGD check cannot, because the corrected colour `BackgroundColor` always has components in 0..255. Only the as-written colour `BackgroundColorAsWritten` can fail it.
- **Order of the final steps.**
  - The IEND work is done after the chunk loop.
  - The default significant bits are set after IEND, as in the source (lines 489-499).
- **readFully at the end of the data.** An exception from `readFully` is only logged (lines 1761-1767). A row read past the end of the inflated data keeps the bytes of the row buffer as they were. A filter byte read at the clean end of the stream is -1, so that row then fails with "unknown filter".
- **Raster storage.** `setPixel` stores a sample in the raster's buffer type. That buffer is a packed byte, a byte or an unsigned short, so a signed palette byte reads back as its unsigned value (`PngPixels.Store`).

## Model

| member | source | states |
|---|---|---|
| DataUri.IndexOf | src/main/java/org/apache/xmlgraphics/util/uri/DataURIResolver.java:64 | `indexOf(c)`: -1 exactly when `c` does not occur; otherwise the first index holding `c` |
| DataUri.IndexOfFrom | src/main/java/org/apache/xmlgraphics/util/uri/DataURIResolver.java:77 | `indexOf(p, from)`: -1 exactly when `p` does not occur at or after `from`; otherwise the first such occurrence |
| DataUri.SplitHeader | src/main/java/org/apache/xmlgraphics/util/uri/DataURIResolver.java:64-67 | fails exactly when the URL has no comma (the source's `substring(0, -1)`); otherwise header, comma and data put back together give the URL, and the header holds no comma |
| DataUri.Encoding | src/main/java/org/apache/xmlgraphics/util/uri/DataURIResolver.java:76-80 | the charset is whatever follows `;charset=` when it occurs after index 0, and "UTF-8" otherwise |
| DataUri.ParseDataUri | src/main/java/org/apache/xmlgraphics/util/uri/DataURIResolver.java:63-93 | fails exactly when there is no comma; the data is base64-decoded exactly when the header ends with `;base64`, and URL-decoded text otherwise |
| DataUri.Resolve | src/main/java/org/apache/xmlgraphics/util/uri/DataURIResolver.java:48-55 | a URL not starting with `data:` resolves to nothing; a `data:` URL fails exactly when it has no comma |
| DataUri.DataHeaderHonoursCharset | src/main/java/org/apache/xmlgraphics/util/uri/DataURIResolver.java:77-79 | a `;charset=` in the header after its first character decides the encoding of the data |
| DscBeginDocument.Parse | src/main/java/org/apache/xmlgraphics/ps/dsc/events/DSCCommentBeginDocument.java:120-132 | no parameters: state unchanged and NoSuchElement; the first names a file resource; a second sets the version when it parses as a float and is a number-format error otherwise; a third sets the type |
| DscBeginDocument.GenerateParams | src/main/java/org/apache/xmlgraphics/ps/dsc/events/DSCCommentBeginDocument.java:136-146 | fails exactly without a resource; the name, then the version when there is one, then the type only when there is also a version; every parameter formats |
| DscBeginDocument.ParseThenGenerate | src/main/java/org/apache/xmlgraphics/ps/dsc/events/DSCCommentBeginDocument.java:120-146 | parsing name, version and type and generating again gives back the same three parameters |
| DscBeginDocument.ParseNameOnlyKeepsVersion | src/main/java/org/apache/xmlgraphics/ps/dsc/events/DSCCommentBeginDocument.java:125-131 | parsing only a name keeps the old version and type, and generation starts with that name |
| DscBeginDocument.TypeNeedsVersion | src/main/java/org/apache/xmlgraphics/ps/dsc/events/DSCCommentBeginDocument.java:139-144 | a type without a version is not generated: only the name is written |
| DscBeginDocument.DSCCommentBeginDocument.constructor | src/main/java/org/apache/xmlgraphics/ps/dsc/events/DSCCommentBeginDocument.java:43-45 | the default constructor leaves resource, version and type unset |
| DscBeginDocument.DSCCommentBeginDocument.Create | src/main/java/org/apache/xmlgraphics/ps/dsc/events/DSCCommentBeginDocument.java:53-77 | fails exactly when the resource is not of type file; otherwise a fresh comment holding the resource, version and type |
| DscBeginDocument.DSCCommentBeginDocument.ParseValue | src/main/java/org/apache/xmlgraphics/ps/dsc/events/DSCCommentBeginDocument.java:120-132 | the new state and the error are those of `Parse` on the old state |
| DscBeginDocument.DSCCommentBeginDocument.Generate | src/main/java/org/apache/xmlgraphics/ps/dsc/events/DSCCommentBeginDocument.java:136-146 | fails without a resource and writes nothing; otherwise appends the `%%BeginDocument:` line of the generated parameters and a line feed |
| DscBeginDocument.NameAndValues | src/main/java/org/apache/xmlgraphics/ps/dsc/events/DSCCommentBeginDocument.java:99-116 | the comment's name is "BeginDocument" and it has values |
| EdgeDirectory.DefaultEdgeDirectory.constructor | src/main/java/org/apache/xmlgraphics/util/dijkstra/DefaultEdgeDirectory.java:34 | a new directory holds no edge |
| EdgeDirectory.DefaultEdgeDirectory.AddEdge | src/main/java/org/apache/xmlgraphics/util/dijkstra/DefaultEdgeDirectory.java:42-49 | afterwards the edge is the one stored for its start and end, and every other pair is unchanged |
| EdgeDirectory.DefaultEdgeDirectory.GetPenalty | src/main/java/org/apache/xmlgraphics/util/dijkstra/DefaultEdgeDirectory.java:53-67 | 0 for a missing edge; the stored edge's penalty otherwise; fails exactly when that penalty is negative |
| EdgeDirectory.DefaultEdgeDirectory.GetDestinations | src/main/java/org/apache/xmlgraphics/util/dijkstra/DefaultEdgeDirectory.java:71-78 | exactly the vertices with a stored edge from the origin |
| EdgeDirectory.DefaultEdgeDirectory.GetEdges | src/main/java/org/apache/xmlgraphics/util/dijkstra/DefaultEdgeDirectory.java:87-94 | exactly the stored edges that start at the origin |
| EdgeDirectory.DefaultEdgeDirectory.GetBestEdge | src/main/java/org/apache/xmlgraphics/util/dijkstra/DefaultEdgeDirectory.java:106-118 | none exactly when no edge from start reaches end; otherwise an edge from start to end whose penalty is no larger than that of any other such edge |
| TiffField.TIFFField.GetAsInt | src/main/java/org/apache/xmlgraphics/image/codec/tiff/TIFFField.java:303-319 | a ClassCastException for the types without an int reading; for the others, success exactly when `data` is an array of the cast's class holding the index, a NullPointerException exactly for null data, a ClassCastException exactly for an array of another class, and an out-of-bounds error exactly for an index outside the right array; bytes unsigned for BYTE and UNDEFINED, signed for SBYTE; chars for SHORT, shorts for SSHORT, ints for SLONG |
| TiffField.TIFFField.GetAsLong | src/main/java/org/apache/xmlgraphics/image/codec/tiff/TIFFField.java:336-354 | LONG reads the long array and succeeds exactly when it holds the index; every other type reads as `getAsInt` widened |
| TiffField.TIFFField.CompareTo | src/main/java/org/apache/xmlgraphics/image/codec/tiff/TIFFField.java:481-495 | null is a NullPointerException; otherwise -1, 0 or 1 by tag order |
| TiffField.ConstructorStores | src/main/java/org/apache/xmlgraphics/image/codec/tiff/TIFFField.java:152-182 | the getters return what the constructor was given |
| TiffField.LongOnlyAsLong | src/main/java/org/apache/xmlgraphics/image/codec/tiff/TIFFField.java:316-353 | a LONG field cannot be read as int, but reads as long where the array holds the index |
| TiffField.GetAsIntInBounds | src/main/java/org/apache/xmlgraphics/image/codec/tiff/TIFFField.java:305-309 | a byte field reads exactly at the indices in its array, and the unsigned value gives back the stored byte |
| TiffField.CompareToIsOrder | src/main/java/org/apache/xmlgraphics/image/codec/tiff/TIFFField.java:481-495 | `compareTo` is antisymmetric, transitive and reflexive |
| TiffField.EqualsImpliesCompareZero | src/main/java/org/apache/xmlgraphics/image/codec/tiff/TIFFField.java:481-538 | equal fields compare as 0 |
| TiffField.CompareZeroDoesNotImplyEquals | src/main/java/org/apache/xmlgraphics/image/codec/tiff/TIFFField.java:481-538 | two fields with the same tag but different types compare as 0 and are not equal |
| TiffField.EqualsIsEquivalence | src/main/java/org/apache/xmlgraphics/image/codec/tiff/TIFFField.java:510-538 | `equals` is reflexive, symmetric and transitive, and nothing equals null |
| TiffField.EqualFieldsReadAlike | src/main/java/org/apache/xmlgraphics/image/codec/tiff/TIFFField.java:510-538 | equal fields read the same int and long values at every index |
| PSGen.AsciiBytes | src/main/java/org/apache/xmlgraphics/ps/PSGenerator.java:232-240 | one byte per character: the character's code below 128, `?` otherwise |
| PSGen.AsciiBytesExact | src/main/java/org/apache/xmlgraphics/ps/PSGenerator.java:239 | an ASCII string is written byte for byte |
| PSGen.EscapeChar | src/main/java/org/apache/xmlgraphics/ps/PSGenerator.java:324-365 | always ASCII; a backslash pair for the special characters; a backslash and three octal digits for control and Latin-1 characters; `?` above 255; `??` outside the 16-bit range; printable ASCII as itself |
| PSGen.UnescapeSpecial | src/main/java/org/apache/xmlgraphics/ps/PSGenerator.java:325-349 | a PostScript reader turns the escape of a special character back into that character |
| PSGen.UnescapeOctal | src/main/java/org/apache/xmlgraphics/ps/PSGenerator.java:354-360 | the same for an octal escape |
| PSGen.UnescapePlain | src/main/java/org/apache/xmlgraphics/ps/PSGenerator.java:361-363 | the same for a plain character |
| PSGen.UnescapeEscapeChar | src/main/java/org/apache/xmlgraphics/ps/PSGenerator.java:324-365 | every character up to 255 is read back from its escape |
| PSGen.EscapeRoundTrip | src/main/java/org/apache/xmlgraphics/ps/PSGenerator.java:324-365 | the escaped text of a Latin-1 string reads back as that string |
| PSGen.EscapeAllLength | src/main/java/org/apache/xmlgraphics/ps/PSGenerator.java:324-365 | escaping at most quadruples the length |
| PSGen.EscapeAll | src/main/java/org/apache/xmlgraphics/ps/PSGenerator.java:408-418 | the escaped string is ASCII |
| PSGen.EscapeAllPlain | src/main/java/org/apache/xmlgraphics/ps/PSGenerator.java:361-363 | a string of plain printable characters escapes to itself |
| PSGen.EscapeAllAppend | src/main/java/org/apache/xmlgraphics/ps/PSGenerator.java:408-418 | escaping distributes over concatenation |
| PSGen.DscTextShape | src/main/java/org/apache/xmlgraphics/ps/PSGenerator.java:398-422 | text with a space, or when parentheses are forced, is written as `(` escaped `)`; other text is written escaped; null and empty text are `()`; the result is ASCII |
| PSGen.ConvertStringToDSC | src/main/java/org/apache/xmlgraphics/ps/PSGenerator.java:398-422 | the loop of `convertStringToDSC` builds exactly the DSC text of its argument |
| PSGen.FormatParam | src/main/java/org/apache/xmlgraphics/ps/PSGenerator.java:481-503 | fails exactly for null and for parameters of an unsupported class; a string is written as DSC text |
| PSGen.JoinParams | src/main/java/org/apache/xmlgraphics/ps/PSGenerator.java:474-505 | succeeds exactly when every parameter formats |
| PSGen.DscLineSingleString | src/main/java/org/apache/xmlgraphics/ps/PSGenerator.java:450-453 | the one-string form writes `%%name: ` and the string as DSC text |
| PSGen.DscLineAscii | src/main/java/org/apache/xmlgraphics/ps/PSGenerator.java:469-506 | a DSC line of an ASCII name and ASCII-formatting parameters is ASCII |
| PSGen.JoinParamsAscii | src/main/java/org/apache/xmlgraphics/ps/PSGenerator.java:474-505 | joined ASCII-formatting parameters stay ASCII |
| PSGen.DscLinePlainString | src/main/java/org/apache/xmlgraphics/ps/PSGenerator.java:469-506 | a plain string without spaces is written verbatim after `%%name: ` |
| PSGen.IdentityHIsPlain | src/main/java/org/apache/xmlgraphics/ps/PSGenerator.java:62 | the Identity-H resource name is plain, non-empty and has no space |
| PSGen.PSGenerator.constructor | src/main/java/org/apache/xmlgraphics/ps/PSGenerator.java:64-92 | empty output, comments and compact mode on, an empty graphics-state stack, the initial state current, Identity-H not yet embedded |
| PSGen.PSGenerator.MapCommand | src/main/java/org/apache/xmlgraphics/ps/PSGenerator.java:284-290 | the command map is used exactly in compact mode |
| PSGen.PSGenerator.Write | src/main/java/org/apache/xmlgraphics/ps/PSGenerator.java:232-240 | appends the command's ASCII bytes |
| PSGen.PSGenerator.Writeln | src/main/java/org/apache/xmlgraphics/ps/PSGenerator.java:262-265 | appends the bytes and a line feed |
| PSGen.PSGenerator.Commentln | src/main/java/org/apache/xmlgraphics/ps/PSGenerator.java:276-280 | writes the comment line only when comments are enabled |
| PSGen.PSGenerator.WriteDSCComment | src/main/java/org/apache/xmlgraphics/ps/PSGenerator.java:469-507 | succeeds exactly when the line formats; then appends it with a line feed; on failure writes nothing |
| PSGen.PSGenerator.SaveGraphicsState | src/main/java/org/apache/xmlgraphics/ps/PSGenerator.java:515-521 | writes `gsave`, pushes the old state and makes a copy of it current |
| PSGen.PSGenerator.RestoreGraphicsState | src/main/java/org/apache/xmlgraphics/ps/PSGenerator.java:531-539 | restores exactly when the stack is not empty: pops the top into the current state and writes `grestore`; otherwise changes nothing |
| PSGen.PSGenerator.ResetGraphicsState | src/main/java/org/apache/xmlgraphics/ps/PSGenerator.java:139-145 | fails with an illegal-state error exactly when states are still saved; otherwise the initial state is current |
| PSGen.PSGenerator.ShowPage | src/main/java/org/apache/xmlgraphics/ps/PSGenerator.java:556-559 | writes `showpage`, then resets the graphics state with the same outcome as `ResetGraphicsState` |
| PSGen.PSGenerator.EmbedIdentityH | src/main/java/org/apache/xmlgraphics/ps/PSGenerator.java:948-967 | embeds exactly once: the first call writes the `%%BeginDocument: Identity-H` line, later calls write nothing |
| PSGen.AppendParams | src/main/java/org/apache/xmlgraphics/ps/PSGenerator.java:474-505 | the loop over the parameters appends exactly their joined text, or fails with the first parameter's error |
| PSGen.JoinParamsStep | src/main/java/org/apache/xmlgraphics/ps/PSGenerator.java:476-503 | one more parameter adds a space and its text, or fails with its error |
| PSGen.PrefixFailure | src/main/java/org/apache/xmlgraphics/ps/PSGenerator.java:499-503 | a failing prefix makes the whole line fail with that error |
| PngChunk.BigEndianOfBytes | src/main/java/org/apache/xmlgraphics/image/codec/png/PNGRed.java:127-132 | reading back the big-endian bytes of a value gives the value |
| PngChunk.BytesOfBigEndian | src/main/java/org/apache/xmlgraphics/image/codec/png/PNGRed.java:127-132 | writing the value of big-endian bytes gives back the bytes |
| PngChunk.BigEndianInjective | src/main/java/org/apache/xmlgraphics/image/codec/png/PNGRed.java:127-132 | byte strings of the same length with the same value are equal |
| PngChunk.Bits32 | src/main/java/org/apache/xmlgraphics/image/codec/png/PNGRed.java:127-132 | every Java int has a 32-bit pattern that reads back as it |
| PngChunk.ByteChar | src/main/java/org/apache/xmlgraphics/image/codec/png/PNGRed.java:136 | `(char)` of a byte is the byte for non-negative bytes and the byte plus 65536 for negative ones |
| PngChunk.ChunkTypeNameBytes | src/main/java/org/apache/xmlgraphics/image/codec/png/PNGRed.java:513-515 | the four characters of a chunk type are its four big-endian bytes |
| PngChunk.TypeStringsAgree | src/main/java/org/apache/xmlgraphics/image/codec/png/PNGRed.java:91-95 | the constructor's type string equals the chunk type's name for non-negative types; a negative type turns the first character into one above U+FF80 |
| PngChunk.ChunkTypeNameOfCode | src/main/java/org/apache/xmlgraphics/image/codec/png/PNGRed.java:506-521 | a four-letter Latin-1 name turned into a type code reads back as the same name |
| PngChunk.PNGChunk.GetByte | src/main/java/org/apache/xmlgraphics/image/codec/png/PNGRed.java:114-116 | succeeds exactly in bounds; the byte read is the stored byte as a Java byte |
| PngChunk.PNGChunk.GetInt1 | src/main/java/org/apache/xmlgraphics/image/codec/png/PNGRed.java:118-120 | in bounds exactly; the unsigned value of `getByte` |
| PngChunk.PNGChunk.GetInt2 | src/main/java/org/apache/xmlgraphics/image/codec/png/PNGRed.java:122-125 | in bounds exactly; the big-endian 16-bit value of the two bytes |
| PngChunk.PNGChunk.GetInt4 | src/main/java/org/apache/xmlgraphics/image/codec/png/PNGRed.java:127-132 | in bounds exactly; the Java int whose big-endian bytes are the four bytes, negative exactly when the first byte has its top bit set |
| PngChunk.PNGChunk.GetString4 | src/main/java/org/apache/xmlgraphics/image/codec/png/PNGRed.java:134-141 | in bounds exactly; four characters, each equal to its byte below 0x80 and above U+FF80 otherwise |
| PngChunk.ReadInt | src/main/java/org/apache/xmlgraphics/image/codec/png/PNGRed.java:525-526 | `readInt` succeeds exactly when four bytes remain, and reads them big-endian |
| PngChunk.MagicBytes | src/main/java/org/apache/xmlgraphics/image/codec/png/PNGRed.java:397-398 | the signature bytes are the magic number 0x89504e470d0a1a0a |
| PngChunk.SignatureOkIff | src/main/java/org/apache/xmlgraphics/image/codec/png/PNGRed.java:396-407 | the signature check passes exactly when the stream starts with those eight bytes |
| PngChunk.GetChunkType | src/main/java/org/apache/xmlgraphics/image/codec/png/PNGRed.java:506-521 | a type exactly when eight bytes remain; its characters are the four type bytes |
| PngChunk.ReadChunk | src/main/java/org/apache/xmlgraphics/image/codec/png/PNGRed.java:523-536 | a chunk exactly when the length is non-negative and length, type, data and CRC all fit; the data is the bytes after the type, and the next chunk starts after the CRC |
| PngChunk.ReadIntOfBytes | src/main/java/org/apache/xmlgraphics/image/codec/png/PNGRed.java:525 | `readInt` reads back the big-endian encoding of any int |
| PngChunk.ReadChunkOfEncoded | src/main/java/org/apache/xmlgraphics/image/codec/png/PNGRed.java:523-536 | a chunk written in PNG chunk layout, followed by anything, reads back as the same chunk and ends where its encoding does |
| PngHeader.BitDepthAcceptedIff | src/main/java/org/apache/xmlgraphics/image/codec/png/PNGRed.java:546-551 | the bit-depth check accepts exactly the depths that are 1, 2, 4, 8 or 16 modulo 32 |
| PngHeader.BitDepthQuirk | src/main/java/org/apache/xmlgraphics/image/codec/png/PNGRed.java:546-547 | below 32 exactly 1, 2, 4, 8 and 16 are accepted; 33 and 48 are accepted too, 17 and 3 are not |
| PngHeader.MaxOpacity | src/main/java/org/apache/xmlgraphics/image/codec/png/PNGRed.java:552 | `maxOpacity` plus one is 2 to the bit depth (the shift taken modulo 32) |
| PngHeader.HeaderValidIff | src/main/java/org/apache/xmlgraphics/image/codec/png/PNGRed.java:546-653 | for depths below 32 the IHDR checks accept exactly: depth 1, 2, 4, 8 or 16; colour type at most 6; RGB and the alpha types only at 8 or 16 bits; palettes at most 8 bits; compression 0, filter 0, interlace 0 or 1 |
| PngHeader.StepCode | src/main/java/org/apache/xmlgraphics/image/codec/png/PNGRed.java:243-287 | every post-processing step has one of the source's codes 0 to 9 |
| PngHeader.CodeInjective | src/main/java/org/apache/xmlgraphics/image/codec/png/PNGRed.java:243-287 | distinct modes have distinct codes (the expand variants included) |
| PngHeader.LayoutBands | src/main/java/org/apache/xmlgraphics/image/codec/png/PNGRed.java:655-730 | a layout exactly for colour types 0, 2, 3, 4 and 6; input bands 1, 3, 1, 2 and 4; bytes per pixel one per sample, two at 16 bits, always one for palettes |
| PngHeader.LayoutModeFits | src/main/java/org/apache/xmlgraphics/image/codec/png/PNGRed.java:657-730 | the chosen mode writes exactly as many samples as the layout's output bands |
| PngHeader.InitialMode | src/main/java/org/apache/xmlgraphics/image/codec/png/PNGRed.java:657-730 | alpha removed exactly when suppressed on an image with alpha; gray expansion exactly for gray-alpha with expansion on; the gray table exactly for gray below 8 bits with 8-bit output; palette expansion exactly for palettes with the option; gamma only when gamma correction is on |
| PngAncillary.ExpandBits | src/main/java/org/apache/xmlgraphics/image/codec/png/PNGRed.java:331-339 | `expandBits[bits]` exists for 0 to 4 and is a table exactly for 1, 2 and 4, with 2 to the bits entries |
| PngAncillary.ExpandBitsScale | src/main/java/org/apache/xmlgraphics/image/codec/png/PNGRed.java:331-339 | each entry, unsigned, is the sample scaled to 0..255: `v * 255 / (2^bits - 1)` |
| PngAncillary.ExpandFourBits | src/main/java/org/apache/xmlgraphics/image/codec/png/PNGRed.java:331-339 | at 4 bits an entry is the sample times 0x11 |
| PngAncillary.ExpandSigned | src/main/java/org/apache/xmlgraphics/image/codec/png/PNGRed.java:1038-1040 | an `expandBits` lookup succeeds exactly for depths 1, 2, 4 and samples below 2 to the depth |
| PngAncillary.ExpandUnsigned | src/main/java/org/apache/xmlgraphics/image/codec/png/PNGRed.java:1038-1040 | the same lookup read unsigned lies in 0..255 |
| PngAncillary.BkgdSamples | src/main/java/org/apache/xmlgraphics/image/codec/png/PNGRed.java:990-1029 | palette: one index byte and a built palette needed, giving the palette's colour unsigned; gray: one 16-bit sample used three times; RGB: three 16-bit samples; other colour types keep the previous background |
| PngAncillary.BackgroundColor | src/main/java/org/apache/xmlgraphics/image/codec/png/PNGRed.java:1031-1047 | the corrected background colour, when it exists, is a valid `Color` (every component in 0..255) |
| PngAncillary.BackgroundWhiteOneBit | src/main/java/org/apache/xmlgraphics/image/codec/png/PNGRed.java:1033-1046 | a white background in a 1-bit gray image fails as written and is white once corrected |
| PngAncillary.BackgroundAgreesFrom8Bits | src/main/java/org/apache/xmlgraphics/image/codec/png/PNGRed.java:1033-1046 | for palettes and depths of 8 and more the source and the corrected colour agree |
| PngAncillary.BackgroundGrayScaled | src/main/java/org/apache/xmlgraphics/image/codec/png/PNGRed.java:1033-1046 | a gray background is scaled to 8 bits: expanded below 8 bits, kept at 8, high byte at 16 |
| PngAncillary.BackgroundGrayWide | src/main/java/org/apache/xmlgraphics/image/codec/png/PNGRed.java:1042-1046 | a 16-bit gray background keeps its high byte |
| PngAncillary.BackgroundGrayExpanded | src/main/java/org/apache/xmlgraphics/image/codec/png/PNGRed.java:1037-1041 | a gray background below 8 bits is scaled by 255 / (2^bits - 1) |
| PngAncillary.Fixed5 | src/main/java/org/apache/xmlgraphics/image/codec/png/PNGRed.java:1057 | a cHRM value exists exactly where four bytes can be read |
| PngAncillary.ChunkChromaticity | src/main/java/org/apache/xmlgraphics/image/codec/png/PNGRed.java:1056-1064 | the eight chromaticity values exist exactly for 32 bytes of data; value i is read at offset 4i |
| PngAncillary.ChunkGamma | src/main/java/org/apache/xmlgraphics/image/codec/png/PNGRed.java:1089 | the gamma value exists exactly for four bytes of data |
| PngAncillary.SrgbAsWrittenOutOfRange | src/main/java/org/apache/xmlgraphics/image/codec/png/PNGRed.java:1187-1194 | as written, sRGB's white point x is 3.127; the first seven chromaticity values exceed 1, and the last is 0.6 |
| PngAncillary.SrgbInUnitRange | src/main/java/org/apache/xmlgraphics/image/codec/png/PNGRed.java:1187-1194 | the corrected sRGB values lie strictly between 0 and 1, and are a tenth of the written ones |
| PngAncillary.SrgbMatchesChrm | src/main/java/org/apache/xmlgraphics/image/codec/png/PNGRed.java:1050-1064 | a cHRM chunk holding the sRGB points gives exactly the corrected sRGB chromaticity (the sRGB constants are in lines 1186-1194) |
| PngAncillary.DefaultSignificantBits | src/main/java/org/apache/xmlgraphics/image/codec/png/PNGRed.java:489-494 | one default entry per input band |
| PngAncillary.DefaultIsFullPrecision | src/main/java/org/apache/xmlgraphics/image/codec/png/PNGRed.java:489-494 | an sBIT chunk stating the full bit depth for every band passes the sBIT checks (lines 1152-1169) and gives the same values as the default |
| PngAncillary.HistCheck | src/main/java/org/apache/xmlgraphics/image/codec/png/PNGRed.java:1101-1111 | hIST succeeds exactly after PLTE with two bytes per palette entry; before PLTE it is the palette error |
| PngAncillary.ChunkPhysical | src/main/java/org/apache/xmlgraphics/image/codec/png/PNGRed.java:1128-1148 | pHYs succeeds exactly for nine bytes with unit 0 or 1; the two ints are the first eight bytes |
| PngAncillary.TimeCheck | src/main/java/org/apache/xmlgraphics/image/codec/png/PNGRed.java:1238-1244 | tIME succeeds exactly for seven bytes of data |
| PngAncillary.FirstNul | src/main/java/org/apache/xmlgraphics/image/codec/png/PNGRed.java:1225-1228 | the first zero byte from a position, or none when none follows |
| PngAncillary.JavaChars | src/main/java/org/apache/xmlgraphics/image/codec/png/PNGRed.java:1227 | `(char)` of each byte gives one character per byte |
| PngAncillary.Latin1 | src/main/java/org/apache/xmlgraphics/image/codec/png/PNGRed.java:1220-1235 | Latin-1 decoding: one character per byte, with the byte's value |
| PngAncillary.Latin1Bytes | src/main/java/org/apache/xmlgraphics/image/codec/png/PNGRed.java:1220-1235 | Latin-1 encoding: one byte per character |
| PngAncillary.Latin1RoundTrip | src/main/java/org/apache/xmlgraphics/image/codec/png/PNGRed.java:1220-1235 | Latin-1 decoding and encoding are inverse both ways |
| PngAncillary.JavaCharsVersusLatin1 | src/main/java/org/apache/xmlgraphics/image/codec/png/PNGRed.java:1220-1235 | `(char)` of bytes equals Latin-1 exactly when every byte is below 0x80; the byte 0xE9 gives U+FFE9 instead of é |
| PngAncillary.TextEntryAsWritten | src/main/java/org/apache/xmlgraphics/image/codec/png/PNGRed.java:1220-1235 | tEXt as written succeeds exactly when the data holds a zero byte |
| PngAncillary.TextEntry | src/main/java/org/apache/xmlgraphics/image/codec/png/PNGRed.java:1220-1235 | the corrected tEXt succeeds exactly when the data holds a zero byte |
| PngAncillary.TextEntryRoundTrip | src/main/java/org/apache/xmlgraphics/image/codec/png/PNGRed.java:1220-1235 | the corrected keyword and text, encoded again with the zero byte between them, give back the chunk data, and the keyword holds no zero |
| PngAncillary.TextAsWrittenFinding | src/main/java/org/apache/xmlgraphics/image/codec/png/PNGRed.java:1227-1231 | the tEXt data `a`, 0, 0xE9 reads as ("a", U+FFE9) as written and as ("a", "é") corrected |
| PngAncillary.ZtxtEntry | src/main/java/org/apache/xmlgraphics/image/codec/png/PNGRed.java:1338-1366 | the corrected zTXt entry: succeeds exactly when a zero byte is followed by a compression byte; an entry holds the Latin-1 keyword and the inflated text; an inflater error records nothing |
| PngAncillary.ZtxtEntryAsWritten | src/main/java/org/apache/xmlgraphics/image/codec/png/PNGRed.java:1338-1366 | zTXt as written: fails and records nothing exactly where the corrected entry does; the keyword is `(char)` of each signed byte and the text is the inflated Latin-1 text |
| PngAncillary.ZtxtAsWrittenFinding | src/main/java/org/apache/xmlgraphics/image/codec/png/PNGRed.java:1344-1345 | the zTXt data 0xE9, 0, 0 gives the keyword U+FFE9 as written and "é" corrected |
| PngAncillary.ZtxtKeywordRoundTrip | src/main/java/org/apache/xmlgraphics/image/codec/png/PNGRed.java:1343-1346 | the corrected keyword, encoded again as Latin-1 and followed by a zero byte, is a prefix of the chunk data, and it holds no zero |
| PngFilter.PaethNearest | src/main/java/org/apache/xmlgraphics/image/codec/png/PNGRed.java:1433-1446 | the Paeth predictor is one of its three neighbours, the one nearest to a + b - c, with ties broken to a, then b |
| PngFilter.ReconstructDifference | src/main/java/org/apache/xmlgraphics/image/codec/png/PNGRed.java:1393-1468 | reconstructing a byte and filtering it are inverse modulo 256, both ways, for each filter type |
| PngFilter.DecodeFiltered | src/main/java/org/apache/xmlgraphics/image/codec/png/PNGRed.java:1393-1468 | decoding the PNG filter of a row gives back the row |
| PngFilter.FilterDecoded | src/main/java/org/apache/xmlgraphics/image/codec/png/PNGRed.java:1393-1468 | filtering a decoded row gives back the raw row |
| PngFilter.DecodedPrefix | src/main/java/org/apache/xmlgraphics/image/codec/png/PNGRed.java:1393-1468 | each byte depends only on the bytes before it: a shorter reconstruction is a prefix of a longer one |
| PngFilter.NoneKeepsRow | src/main/java/org/apache/xmlgraphics/image/codec/png/PNGRed.java:1770-1771 | filter None leaves the row as read |
| PngFilter.SubKeepsFirstPixel | src/main/java/org/apache/xmlgraphics/image/codec/png/PNGRed.java:1395 | Sub leaves the first pixel's bytes unchanged |
| PngFilter.ZeroPriorRow | src/main/java/org/apache/xmlgraphics/image/codec/png/PNGRed.java:1741-1742 | on the first row, whose prior row is zeros, Up keeps the row and Paeth acts as Sub |
| PngFilter.ZeroPriorUp | src/main/java/org/apache/xmlgraphics/image/codec/png/PNGRed.java:1741-1742 | with a zero prior row Up keeps the row |
| PngFilter.ZeroPriorPaeth | src/main/java/org/apache/xmlgraphics/image/codec/png/PNGRed.java:1741-1742 | with a zero prior row Paeth reconstructs as Sub does |
| PngFilter.StepKeepsRow | src/main/java/org/apache/xmlgraphics/image/codec/png/PNGRed.java:1393-1468 | reconstructing byte i in place extends the reconstructed prefix by one and leaves the rest of the row as read |
| PngFilter.PaethAsSub | src/main/java/org/apache/xmlgraphics/image/codec/png/PNGRed.java:1459-1466 | with no upper neighbours a Paeth byte is reconstructed as a Sub byte |
| PngFilter.PaethOfUp | src/main/java/org/apache/xmlgraphics/image/codec/png/PNGRed.java:1452-1457 | for the first pixel the Paeth predictor is the byte above |
| PngFilter.DecodeSubFilter | src/main/java/org/apache/xmlgraphics/image/codec/png/PNGRed.java:1393-1403 | the array afterwards is the Sub reconstruction of its old contents |
| PngFilter.DecodeUpFilter | src/main/java/org/apache/xmlgraphics/image/codec/png/PNGRed.java:1405-1413 | the array afterwards is the Up reconstruction against the prior row |
| PngFilter.DecodeAverageFilter | src/main/java/org/apache/xmlgraphics/image/codec/png/PNGRed.java:1415-1431 | the array afterwards is the Average reconstruction |
| PngFilter.AverageFirstPixel | src/main/java/org/apache/xmlgraphics/image/codec/png/PNGRed.java:1417-1422 | the first loop reconstructs the first pixel's bytes |
| PngFilter.AverageRest | src/main/java/org/apache/xmlgraphics/image/codec/png/PNGRed.java:1424-1430 | the second loop reconstructs the remaining bytes |
| PngFilter.DecodePaethFilter | src/main/java/org/apache/xmlgraphics/image/codec/png/PNGRed.java:1448-1468 | the array afterwards is the Paeth reconstruction |
| PngFilter.PaethFirstPixel | src/main/java/org/apache/xmlgraphics/image/codec/png/PNGRed.java:1452-1457 | the first loop reconstructs the first pixel's bytes |
| PngFilter.PaethRest | src/main/java/org/apache/xmlgraphics/image/codec/png/PNGRed.java:1459-1467 | the second loop reconstructs the remaining bytes |
| PngFilter.UnfilterStep | src/main/java/org/apache/xmlgraphics/image/codec/png/PNGRed.java:1393-1468 | before byte i is reconstructed in place, it still holds the byte read, and its left neighbours are already reconstructed |
| PngFilter.AverageStep | src/main/java/org/apache/xmlgraphics/image/codec/png/PNGRed.java:1415-1431 | one step of the Average loop adds the floor of the mean of left and up, modulo 256 |
| PngFilter.PaethStep | src/main/java/org/apache/xmlgraphics/image/codec/png/PNGRed.java:1448-1468 | one step of the Paeth loop adds the predictor, modulo 256 |
| PngInterlace.PositionsExact | src/main/java/org/apache/xmlgraphics/image/codec/png/PNGRed.java:1819-1830 | the pass dimension `(n - off + step - 1) / step` counts exactly the positions off + k·step below n |
| PngInterlace.PassesExact | src/main/java/org/apache/xmlgraphics/image/codec/png/PNGRed.java:1816-1831 | seven passes when interlaced and one otherwise, each with offsets below its steps and dimensions counting its positions |
| PngInterlace.PassInBounds | src/main/java/org/apache/xmlgraphics/image/codec/png/PNGRed.java:1816-1831 | every pixel of a pass lands inside the image |
| PngInterlace.Adam7Pass | src/main/java/org/apache/xmlgraphics/image/codec/png/PNGRed.java:1819-1830 | the Adam7 pass number of a pixel is below 7 |
| PngInterlace.CoversStep | src/main/java/org/apache/xmlgraphics/image/codec/png/PNGRed.java:1759 | a pass covers a pixel exactly when the pixel lies on its offset grid |
| PngInterlace.OnGrid | src/main/java/org/apache/xmlgraphics/image/codec/png/PNGRed.java:1819-1830 | being on a grid of step 1, 2, 4 or 8 depends only on the coordinate modulo 8 |
| PngInterlace.CoversByRemainder | src/main/java/org/apache/xmlgraphics/image/codec/png/PNGRed.java:1819-1830 | whether an Adam7 pass covers a pixel depends only on its position in its 8 by 8 block |
| PngInterlace.CoversInBlock | src/main/java/org/apache/xmlgraphics/image/codec/png/PNGRed.java:1819-1830 | the same for any pass with steps 1, 2, 4 or 8 |
| PngInterlace.Adam7Steps | src/main/java/org/apache/xmlgraphics/image/codec/png/PNGRed.java:1819-1830 | the Adam7 steps are 1, 2, 4 or 8 |
| PngInterlace.Adam7Table | src/main/java/org/apache/xmlgraphics/image/codec/png/PNGRed.java:1819-1830 | within an 8 by 8 block, pass k's grid holds a position exactly when k is its Adam7 pass number |
| PngInterlace.Adam7Remainders | src/main/java/org/apache/xmlgraphics/image/codec/png/PNGRed.java:1819-1830 | the Adam7 pass number in closed form, one remainder condition per pass |
| PngInterlace.Adam7PassOfBlock | src/main/java/org/apache/xmlgraphics/image/codec/png/PNGRed.java:1819-1830 | the pass number is periodic with period 8 in both coordinates |
| PngInterlace.Adam7Grid | src/main/java/org/apache/xmlgraphics/image/codec/png/PNGRed.java:1819-1830 | the Adam7 offsets and steps do not depend on the image size |
| PngInterlace.Adam7CoversOnce | src/main/java/org/apache/xmlgraphics/image/codec/png/PNGRed.java:1816-1831 | every pixel of an interlaced image is decoded by exactly one of the seven passes |
| PngInterlace.PlainCoversAll | src/main/java/org/apache/xmlgraphics/image/codec/png/PNGRed.java:1817 | the single pass of a plain image covers every pixel |
| PngPixels.Lookup | src/main/java/org/apache/xmlgraphics/image/codec/png/PNGRed.java:1489-1529 | a table lookup succeeds exactly for a built table and an index in range; a table never built is a NullPointerException |
| PngPixels.GammaAll | src/main/java/org/apache/xmlgraphics/image/codec/png/PNGRed.java:1489-1501 | POST_GAMMA replaces every sample with its gamma-table entry |
| PngPixels.CaseIffBands | src/main/java/org/apache/xmlgraphics/image/codec/png/PNGRed.java:1479-1724 | `processPixels` writes nothing exactly for the modes without a case, which are the modes without a band count |
| PngPixels.GrayTransparency | src/main/java/org/apache/xmlgraphics/image/codec/png/PNGRed.java:1514-1578 | the gray add-transparency modes give alpha 0 exactly for the key and full opacity otherwise; the gray-table mode compares the raw sample, POST_ADD_GRAY_TRANS the gamma-corrected one |
| PngPixels.RgbTransparency | src/main/java/org/apache/xmlgraphics/image/codec/png/PNGRed.java:1580-1611 | POST_ADD_RGB_TRANS writes the gamma-corrected colour and alpha 0 exactly when the raw colour is the key |
| PngPixels.GammaHidesGrayKey | src/main/java/org/apache/xmlgraphics/image/codec/png/PNGRed.java:1565-1569 | a gray sample equal to the key stays opaque when gamma correction changes it before the comparison |
| PngPixels.ExpandWritesGrayThrice | src/main/java/org/apache/xmlgraphics/image/codec/png/PNGRed.java:1651-1724 | the expand modes write the gray value (raw, gamma-corrected or through the gray table) three times, then the alpha |
| PngPixels.RemoveDropsAlpha | src/main/java/org/apache/xmlgraphics/image/codec/png/PNGRed.java:1613-1649 | the remove modes write only the corrected colour bands; the alpha sample has no effect on the output |
| PngPixels.PixelOutBands | src/main/java/org/apache/xmlgraphics/image/codec/png/PNGRed.java:1479-1724 | for a mode with a band count each pixel is written, the buffer keeps its length, and as many samples are written as the mode's output bands |
| PngPixels.PlainOutBands | src/main/java/org/apache/xmlgraphics/image/codec/png/PNGRed.java:1481-1649 | the same for the modes that do not expand gray |
| PngPixels.ExpandOutBands | src/main/java/org/apache/xmlgraphics/image/codec/png/PNGRed.java:1651-1724 | the same for the expand modes |
| PngPixels.Store | src/main/java/org/apache/xmlgraphics/image/codec/png/PNGRed.java:1368-1389 | a stored sample reads back truncated to the raster's buffer: below 2 to the depth when packed, 8 bits up to depth 8, 16 bits above, congruent to the value written |
| PngPixels.StoreInRange | src/main/java/org/apache/xmlgraphics/image/codec/png/PNGRed.java:1368-1389 | a sample already in range is stored unchanged |
| PngPixels.CreateRaster | src/main/java/org/apache/xmlgraphics/image/codec/png/PNGRed.java:1368-1389 | a raster exactly for positive dimensions and 1 to 4 bands (`bandOffsets[bands]`), all samples zero |
| PngPixels.SetPixel | src/main/java/org/apache/xmlgraphics/image/codec/png/PNGRed.java:1482-1486 | `setPixel` succeeds exactly inside the raster with enough samples in the pixel array |
| PngPixels.SetPixelReadBack | src/main/java/org/apache/xmlgraphics/image/codec/png/PNGRed.java:1482-1486 | after `setPixel` the pixel reads back as the stored samples, and every other pixel is unchanged |
| PngPixels.PackedSample | src/main/java/org/apache/xmlgraphics/image/codec/png/PNGRed.java:1745-1746 | a packed sample lies below 2 to the depth |
| PngPixels.Sample16 | src/main/java/org/apache/xmlgraphics/image/codec/png/PNGRed.java:1797 | the 16-bit sample has the first byte as its high byte and the second as its low byte |
| PngPixels.RowPixels | src/main/java/org/apache/xmlgraphics/image/codec/png/PNGRed.java:1791-1800 | the pass row has one pixel per column and one sample per band |
| PngPixels.Row8IsBytes | src/main/java/org/apache/xmlgraphics/image/codec/png/PNGRed.java:1792-1793 | at 8 bits the samples are the row's bytes in order |
| PngPixels.Row16IsBigEndian | src/main/java/org/apache/xmlgraphics/image/codec/png/PNGRed.java:1794-1800 | at 16 bits each sample is a big-endian byte pair |
| PngPixels.PackedInRange | src/main/java/org/apache/xmlgraphics/image/codec/png/PNGRed.java:1745-1746 | below 8 bits every sample fits the packed raster |
| PngPixels.OddDepthFails | src/main/java/org/apache/xmlgraphics/image/codec/png/PNGRed.java:1745-1800 | depths other than 1, 2, 4, 8 and 16 cannot be copied into the pass row |
| PngPass.Zeros | src/main/java/org/apache/xmlgraphics/image/codec/png/PNGRed.java:1741-1742 | the new row buffers are zero-filled |
| PngPass.ReadRow | src/main/java/org/apache/xmlgraphics/image/codec/png/PNGRed.java:1761-1767 | a row read keeps the buffer's length and stops where `ReadEnd` says |
| PngPass.ReadEnd | src/main/java/org/apache/xmlgraphics/image/codec/png/PNGRed.java:1761-1767 | a read never moves back and never passes the end of the data |
| PngPass.RowsEndExact | src/main/java/org/apache/xmlgraphics/image/codec/png/PNGRed.java:1759-1767 | while the data lasts, each row consumes its filter byte and its row bytes |
| PngPass.ReadRowComplete | src/main/java/org/apache/xmlgraphics/image/codec/png/PNGRed.java:1763-1764 | a full row read gives the filter byte and exactly the next row bytes |
| PngPass.ReadRowAtEnd | src/main/java/org/apache/xmlgraphics/image/codec/png/PNGRed.java:1761-1767 | at the end of the data the filter reads as -1 (0 for a corrupt stream), and the row keeps its stale bytes |
| PngPass.DefilterCases | src/main/java/org/apache/xmlgraphics/image/codec/png/PNGRed.java:1769-1789 | a row reconstructs exactly for filter types 0 to 4 whose previous-row reads stay in bounds; any other type is the unknown-filter error |
| PngPass.DefilterInvertsFilter | src/main/java/org/apache/xmlgraphics/image/codec/png/PNGRed.java:1769-1789 | the filter switch undoes the PNG row filter of the same type |
| PngPass.RowPrefixOk | src/main/java/org/apache/xmlgraphics/image/codec/png/PNGRed.java:1479-1724 | a row that succeeds succeeded at every earlier pixel |
| PngPass.RowFailStays | src/main/java/org/apache/xmlgraphics/image/codec/png/PNGRed.java:1479-1724 | a failure at one pixel fails the row |
| PngPass.RowFrame | src/main/java/org/apache/xmlgraphics/image/codec/png/PNGRed.java:1479-1724 | a row touches only the destination pixels xOffset + k·step of its line |
| PngPass.RowValues | src/main/java/org/apache/xmlgraphics/image/codec/png/PNGRed.java:1479-1724 | after the row, destination pixel xOffset + k·step holds what the mode wrote for source pixel k |
| PngPass.PixelStored | src/main/java/org/apache/xmlgraphics/image/codec/png/PNGRed.java:1479-1724 | right after source pixel k its destination pixel holds the stored samples |
| PngPass.LaterPixelKeeps | src/main/java/org/apache/xmlgraphics/image/codec/png/PNGRed.java:1479-1724 | later pixels of the row leave that destination pixel alone |
| PngPass.EmitRow | src/main/java/org/apache/xmlgraphics/image/codec/png/PNGRed.java:1791-1803 | copying the row into the pass raster and processing it keeps the tile's size |
| PngPass.RowStep | src/main/java/org/apache/xmlgraphics/image/codec/png/PNGRed.java:1759-1809 | one row keeps the two row buffers the same length |
| PngPass.RowStepOf | src/main/java/org/apache/xmlgraphics/image/codec/png/PNGRed.java:1761-1808 | a reconstructed row ends with the buffers swapped and the tile as the emitter leaves it, or with the emitter's error |
| PngPass.RowStepFails | src/main/java/org/apache/xmlgraphics/image/codec/png/PNGRed.java:1769-1789 | a row that cannot be reconstructed fails |
| PngPass.PassUpTo | src/main/java/org/apache/xmlgraphics/image/codec/png/PNGRed.java:1741-1809 | after any number of rows both buffers have `bytesPerRow` bytes |
| PngPass.DecodePassSpec | src/main/java/org/apache/xmlgraphics/image/codec/png/PNGRed.java:1731-1810 | a pass without pixels changes nothing; one with pixels fails when the pass raster cannot have its bands |
| PngPass.PassSpecOfRows | src/main/java/org/apache/xmlgraphics/image/codec/png/PNGRed.java:1734-1809 | a pass with pixels ends as its rows end |
| PngPass.PassPrefixOk | src/main/java/org/apache/xmlgraphics/image/codec/png/PNGRed.java:1759-1809 | a pass that gets through j rows got through every earlier row |
| PngPass.PassFailStays | src/main/java/org/apache/xmlgraphics/image/codec/png/PNGRed.java:1759-1809 | a pass that fails at a row fails as a whole |
| PngPass.PassesFailStay | src/main/java/org/apache/xmlgraphics/image/codec/png/PNGRed.java:1812-1831 | `decodeImage` fails once any pass fails |
| PngPass.RowFailsPass | src/main/java/org/apache/xmlgraphics/image/codec/png/PNGRed.java:1785-1788 | a failing row fails the whole pass |
| PngPass.PassConsumes | src/main/java/org/apache/xmlgraphics/image/codec/png/PNGRed.java:1759-1767 | while the data lasts, j rows consume j times (`bytesPerRow` + 1) bytes |
| PngPass.PassReads | src/main/java/org/apache/xmlgraphics/image/codec/png/PNGRed.java:1759-1767 | a pass stops where its row reads stop |
| PngPass.RowStepPos | src/main/java/org/apache/xmlgraphics/image/codec/png/PNGRed.java:1761-1767 | a row ends where its read ended |
| PngPass.CleanEndFails | src/main/java/org/apache/xmlgraphics/image/codec/png/PNGRed.java:1761-1788 | a row started at the clean end of the inflated data fails with the unknown-filter error |
| PngPass.UnknownFilterFails | src/main/java/org/apache/xmlgraphics/image/codec/png/PNGRed.java:1785-1788 | a filter type above 4 fails the row |
| PngDecoder.GammaTable | src/main/java/org/apache/xmlgraphics/image/codec/png/PNGRed.java:313-329 | 2 to the bits entries (the shift modulo 32), each the curve's value capped at the largest output sample (65535 at 16 bits, 255 otherwise) |
| PngDecoder.GrayTable | src/main/java/org/apache/xmlgraphics/image/codec/png/PNGRed.java:343-354 | with gamma correction: the first 2^bits gamma entries, failing when the gamma table is missing or short; without: a table exactly for 1, 2 and 4 bits |
| PngDecoder.GrayTableScales | src/main/java/org/apache/xmlgraphics/image/codec/png/PNGRed.java:343-354 | stored in an 8-bit raster, an uncorrected gray-table entry is the sample scaled by 255 / (2^bits - 1), as `expandBits` (lines 331-339) |
| PngDecoder.HeaderCheck | src/main/java/org/apache/xmlgraphics/image/codec/png/PNGRed.java:538-653 | IHDR parses exactly for 13 bytes of valid fields; the fields are width, height and the five single bytes |
| PngDecoder.PlteChannel | src/main/java/org/apache/xmlgraphics/image/codec/png/PNGRed.java:958-988 | one entry per three bytes; entry i comes from byte 3i + k, through the gamma table when correction is on, the raw byte otherwise |
| PngDecoder.ReadPalette | src/main/java/org/apache/xmlgraphics/image/codec/png/PNGRed.java:958-988 | the PLTE loop succeeds exactly when no gamma lookup is out of range, and then yields the three channels |
| PngDecoder.StorePixel | src/main/java/org/apache/xmlgraphics/image/codec/png/PNGRed.java:1482-1486 | the array afterwards is `SetPixel` of its old contents, and the method fails exactly when `SetPixel` does |
| PngDecoder.ProcessRowInto | src/main/java/org/apache/xmlgraphics/image/codec/png/PNGRed.java:1470-1726 | the `processPixels` loop leaves the tile as `ProcessRow` specifies, and fails exactly when it does |
| PngDecoder.DefilterInto | src/main/java/org/apache/xmlgraphics/image/codec/png/PNGRed.java:1769-1789 | the filter switch leaves the row as `Defilter` specifies, and fails exactly when it does |
| PngDecoder.ReadRowInto | src/main/java/org/apache/xmlgraphics/image/codec/png/PNGRed.java:1761-1767 | the filter byte, the row buffer and the position are those of `ReadRow` |
| PngDecoder.EmitInto | src/main/java/org/apache/xmlgraphics/image/codec/png/PNGRed.java:1791-1803 | the tile afterwards is what the emitter specifies, failing exactly when it does |
| PngDecoder.PassRow | src/main/java/org/apache/xmlgraphics/image/codec/png/PNGRed.java:1759-1809 | one loop iteration does what `RowStep` specifies; the prior row buffer is untouched |
| PngDecoder.PassRows | src/main/java/org/apache/xmlgraphics/image/codec/png/PNGRed.java:1759-1809 | the row loop ends with the position and tile of all the pass's rows, failing exactly when one row fails |
| PngDecoder.PassInto | src/main/java/org/apache/xmlgraphics/image/codec/png/PNGRed.java:1731-1810 | `decodePass` on arrays does exactly what `DecodePassSpec` specifies |
| PngDecoder.AlphaTable | src/main/java/org/apache/xmlgraphics/image/codec/png/PNGRed.java:1270-1278 | one alpha per palette entry: the chunk's bytes, then 255 |
| PngDecoder.ConcatLength | src/main/java/org/apache/xmlgraphics/image/codec/png/PNGRed.java:769-770 | the IDAT stream grows by exactly each chunk's data |
| PngDecoder.SkipPosition | src/main/java/org/apache/xmlgraphics/image/codec/png/PNGRed.java:523-536 | reading the next chunk always moves forward and stays inside the stream |
| PngDecoder.ReadKeyword | src/main/java/org/apache/xmlgraphics/image/codec/png/PNGRed.java:1225-1228 | the keyword loop succeeds exactly when there is a zero byte; it yields the index after it and the keyword before it, read as corrected Latin-1 |
| PngDecoder.PNGRed.constructor | src/main/java/org/apache/xmlgraphics/image/codec/png/PNGRed.java:360-390 | the decode options are copied from the parameters, and every other field has its Java default |
| PngDecoder.PNGRed.InitGammaLut | src/main/java/org/apache/xmlgraphics/image/codec/png/PNGRed.java:313-329 | the gamma table becomes `GammaTable` of the curve and file gamma |
| PngDecoder.PNGRed.InitGrayLut | src/main/java/org/apache/xmlgraphics/image/codec/png/PNGRed.java:343-354 | the gray table is built exactly when `GrayTable` succeeds, and otherwise left alone |
| PngDecoder.PNGRed.SetHeader | src/main/java/org/apache/xmlgraphics/image/codec/png/PNGRed.java:539-655 | the header fields, the largest opacity and the bytes per pixel are set |
| PngDecoder.PNGRed.SetLayout | src/main/java/org/apache/xmlgraphics/image/codec/png/PNGRed.java:657-730 | the bands and mode are those of the colour type's layout; a colour type without one leaves them alone |
| PngDecoder.PNGRed.ApplyHeader | src/main/java/org/apache/xmlgraphics/image/codec/png/PNGRed.java:539-730 | the header fields and the layout together |
| PngDecoder.PNGRed.ParseIHDR | src/main/java/org/apache/xmlgraphics/image/codec/png/PNGRed.java:538-731 | succeeds exactly for a valid header; then stores its fields and the colour type's layout; on failure changes nothing |
| PngDecoder.PNGRed.SetPalette | src/main/java/org/apache/xmlgraphics/image/codec/png/PNGRed.java:959-962 | stores the entry count and the three channels |
| PngDecoder.PNGRed.ParsePLTE | src/main/java/org/apache/xmlgraphics/image/codec/png/PNGRed.java:958-988 | builds the gamma table first when correction is on and none exists; succeeds exactly when every palette byte has a gamma entry; then stores the channels |
| PngDecoder.PNGRed.ParseBKGD | src/main/java/org/apache/xmlgraphics/image/codec/png/PNGRed.java:990-1048 | succeeds exactly when the samples can be read (`BkgdSamples`) and the corrected background colour is valid; then stores both |
| PngDecoder.PNGRed.ParseCHRM | src/main/java/org/apache/xmlgraphics/image/codec/png/PNGRed.java:1050-1081 | ignored after sRGB; otherwise succeeds exactly for a full chunk and stores its eight values |
| PngDecoder.PNGRed.ParseGAMA | src/main/java/org/apache/xmlgraphics/image/codec/png/PNGRed.java:1083-1099 | ignored after sRGB; otherwise succeeds exactly for four bytes and stores the file gamma |
| PngDecoder.PNGRed.ParseHIST | src/main/java/org/apache/xmlgraphics/image/codec/png/PNGRed.java:1101-1116 | the outcome of the histogram checks |
| PngDecoder.PNGRed.ParseICCP | src/main/java/org/apache/xmlgraphics/image/codec/png/PNGRed.java:1118-1126 | succeeds exactly when the profile name ends in a zero byte |
| PngDecoder.PNGRed.ParsePHYS | src/main/java/org/apache/xmlgraphics/image/codec/png/PNGRed.java:1128-1150 | succeeds exactly for a valid pHYs and stores its values |
| PngDecoder.PNGRed.ParseSBIT | src/main/java/org/apache/xmlgraphics/image/codec/png/PNGRed.java:1152-1177 | succeeds exactly when each value lies between 1 and the depth limit (8 for palettes); then stores them |
| PngDecoder.PNGRed.ParseSRGB | src/main/java/org/apache/xmlgraphics/image/codec/png/PNGRed.java:1179-1218 | succeeds exactly for one byte; stores the intent as a signed byte, the sRGB gamma and the corrected sRGB chromaticity |
| PngDecoder.PNGRed.ParseTEXt | src/main/java/org/apache/xmlgraphics/image/codec/png/PNGRed.java:1220-1236 | succeeds exactly when the data holds a zero byte, and appends the corrected Latin-1 keyword and text of `TextEntry` |
| PngDecoder.PNGRed.ParseTIME | src/main/java/org/apache/xmlgraphics/image/codec/png/PNGRed.java:1238-1258 | the outcome of the tIME length check |
| PngDecoder.PNGRed.TrnsPalette | src/main/java/org/apache/xmlgraphics/image/codec/png/PNGRed.java:1261-1287 | succeeds exactly when no more alphas than palette entries are given; stores the alpha table; unless alpha is suppressed, switches to RGBA palette expansion or marks the palette as having alpha |
| PngDecoder.PNGRed.TrnsGray | src/main/java/org/apache/xmlgraphics/image/codec/png/PNGRed.java:1288-1311 | succeeds exactly for two bytes, stores the gray key and, unless alpha is suppressed, switches to an add-transparency mode (the gray-table one below 8 bits) |
| PngDecoder.PNGRed.TrnsRgb | src/main/java/org/apache/xmlgraphics/image/codec/png/PNGRed.java:1312-1329 | succeeds exactly for six bytes, stores the RGB key and, unless alpha is suppressed, switches to POST_ADD_RGB_TRANS with four output bands |
| PngDecoder.PNGRed.ParseTRNS | src/main/java/org/apache/xmlgraphics/image/codec/png/PNGRed.java:1260-1336 | types with an alpha band refuse tRNS and unknown colour types ignore it; a palette image fails exactly with more alpha entries than palette entries and otherwise gets the alpha table and its mode; a gray or RGB image fails exactly without two or six bytes and otherwise stores the key and switches to the alpha-adding mode and bands; suppressed alpha or a failure keeps the mode and bands |
| PngDecoder.PNGRed.ParseZTXt | src/main/java/org/apache/xmlgraphics/image/codec/png/PNGRed.java:1338-1366 | succeeds exactly for a keyword followed by a compression byte; appends the corrected Latin-1 keyword and the inflated text, and nothing on an inflater error |
| PngDecoder.PNGRed.AddImageData | src/main/java/org/apache/xmlgraphics/image/codec/png/PNGRed.java:420-423 | an IDAT chunk's data is appended to the image stream |
| PngDecoder.PNGRed.AddPrivateChunk | src/main/java/org/apache/xmlgraphics/image/codec/png/PNGRed.java:464-478 | an unknown chunk is kept with its type and data |
| PngDecoder.PNGRed.DecodePass | src/main/java/org/apache/xmlgraphics/image/codec/png/PNGRed.java:1731-1810 | the position and tile afterwards are `DecodePassSpec`'s, failing exactly when it does |
| PngDecoder.PNGRed.DecodePassOf | src/main/java/org/apache/xmlgraphics/image/codec/png/PNGRed.java:1812-1831 | after pass k the state is that of the first k + 1 passes; a failure fails the whole image |
| PngDecoder.PNGRed.DecodeImage | src/main/java/org/apache/xmlgraphics/image/codec/png/PNGRed.java:1812-1832 | the tile is decoded pass by pass (seven Adam7 passes or one), exactly as `DecodePasses` specifies |
| PngDecoder.PNGRed.GetTile | src/main/java/org/apache/xmlgraphics/image/codec/png/PNGRed.java:1842-1849 | only tile (0, 0) exists; any other is an error |
| PngDecoder.PNGRed.PrepareTables | src/main/java/org/apache/xmlgraphics/image/codec/png/PNGRed.java:793-800 | the gamma table is built when correction needs it; the gray table is built when the mode needs one, and fails exactly when `GrayTable` does |
| PngDecoder.PNGRed.DecodeTile | src/main/java/org/apache/xmlgraphics/image/codec/png/PNGRed.java:793-831 | the tables are prepared, the image data is decoded into the zeroed tile exactly as `DecodePasses` specifies, and success needs a colour model |
| PngDecoder.PNGRed.ParseIEND | src/main/java/org/apache/xmlgraphics/image/codec/png/PNGRed.java:768-791 | the image stream is the inflated IDAT data; without IHDR it is the missing-header error; the tile is created exactly when its raster can be |
| PngDecoder.PNGRed.CreateTile | src/main/java/org/apache/xmlgraphics/image/codec/png/PNGRed.java:775-791 | without IHDR the missing-header error; otherwise a fresh tile exactly when `createRaster` succeeds |
| PngDecoder.PNGRed.FinishSignificantBits | src/main/java/org/apache/xmlgraphics/image/codec/png/PNGRed.java:489-499 | without sBIT the significant bits default to the bit depth for every input band; with sBIT they are kept |
| PngDecoder.PNGRed.ParseCriticalChunk | src/main/java/org/apache/xmlgraphics/image/codec/png/PNGRed.java:414-423 | IDAT appends its data to the image stream; other chunks leave it alone |
| PngDecoder.PNGRed.ParseOtherChunk | src/main/java/org/apache/xmlgraphics/image/codec/png/PNGRed.java:440-478 | an unknown chunk is kept as a private chunk; known ones are not |
| PngDecoder.PNGRed.ParseChunkData | src/main/java/org/apache/xmlgraphics/image/codec/png/PNGRed.java:409-485 | the dispatcher keeps IDAT data and unknown chunks exactly for their types |
| PngDecoder.PNGRed.ParseChunk | src/main/java/org/apache/xmlgraphics/image/codec/png/PNGRed.java:409-485 | a missing chunk is the null-chunk error for every parser that reads its chunk; IDAT and unknown chunks are kept as above |
| PngDecoder.PNGRed.ReadChunks | src/main/java/org/apache/xmlgraphics/image/codec/png/PNGRed.java:409-485 | the decoder stays well formed, and no tile exists before IEND |
| PngDecoder.PNGRed.FinishImage | src/main/java/org/apache/xmlgraphics/image/codec/png/PNGRed.java:424-427 | success leaves a tile and a colour model (the IEND work is in lines 733-832) |
| PngDecoder.PNGRed.Decode | src/main/java/org/apache/xmlgraphics/image/codec/png/PNGRed.java:360-504 | a bad signature is reported exactly when the stream does not start with the PNG signature; a decoded image has a tile, significant bits and a colour model |

The specification functions that only compute are stated by the lemmas above, so they have no row of their own. These are:

- `Decoded`, `Unfilter` and `Filtered` (by `DecodeFiltered` and `FilterDecoded`);
- `Defilter` (by `DefilterCases`);
- `PixelOut` (by `CaseIffBands` and the transparency and band lemmas);
- `GetPixel` (by `SetPixelReadBack`).

## Left out

- **I/O and streams.** File and stream I/O are not modelled, and neither is the closing of streams. The PNG stream is a byte sequence, and `PSGenerator`'s output is a byte sequence field.
- **Inflater.** The zlib inflater is a parameter of the decoder: a function from bytes to the inflated bytes and a corruption flag. Inflation itself is not modelled.
- **Gamma curve.** The floating-point gamma curve of `initGammaLut` is a parameter that maps a sample to an integer. The table built from it is modelled, including the cap at the largest sample.
- **Floating point.** The float values of cHRM, gAMA and sRGB are kept as the integer read or as a real number, with no float rounding.
- **CRC.** The CRC is read and kept, but not checked, as in the source.
- **Java limits.** Integer overflow of `bytesPerRow` and of raster sizes, and running out of memory, are out of scope. The model's integers are unbounded except where the source's widths are explicit: bytes, the 32-bit `getInt4`, and the shift modulo 32.
- **Properties and colour models.** The image properties map and the text arrays as properties (lines 734-766) are not modelled. `createComponentColorModel` and the IndexColorModel construction (lines 822-826, 903-955) are modelled only as the predicate `ColorModelOk`.
- **tIME.** The calendar value of tIME is not built; only its length check is modelled.
- **Stream reference.** `streamVec = null` after IEND is not modelled.
- **Order of the IEND work.** IEND is handled after the chunk loop instead of inside it. This is equivalent, because IEND ends the loop.
- **`decodeImage`'s seven calls.** They are a loop over the pass table.
- PngDecoder.PNGRed.ReadChunks: states only that the decoder stays well formed and has no tile yet. The effect of each chunk is stated by `ParseChunk` and the parsers it calls.
- PngDecoder.PNGRed.FinishImage: states only that success leaves a tile and a colour model. The exact tile is stated by `DecodeTile`, `CreateTile` and `ParseIEND`, which it calls.
- PngDecoder.PNGRed.Decode: states the signature outcome and the shape of a decoded image only. The contents follow from the contracts of the methods it calls, not from one contract of its own.
- **Encode parameters.** The model is the decoder with `generateEncodeParam` false, so `encodeParam` stays null. The option is not in `Options`. When it is set, the source builds a `PNGEncodeParam` (lines 590-600) and calls its setters as chunks are parsed. Those setters can throw, which would fail the decode, and the model does not capture that.
- PngDecoder.PNGRed.ParseBKGD: deliberately uses the corrected `BackgroundColor`. A gray image below 8 bits whose expanded background reads negative as a signed byte therefore succeeds in the model. The source fails there (`new Color` throws, lines 1037-1046), as `BackgroundColorAsWritten` and `BackgroundWhiteOneBit` state.
- PngDecoder.PNGRed.ParseSRGB: deliberately stores the corrected `SrgbChromaticity` (white point x 0.3127). The source stores the values of `SrgbChromaticityAsWritten` (3.127, lines 1187-1194).
- PngDecoder.PNGRed.ParseTEXt: deliberately reads keyword and text as Latin-1 (`TextEntry`). The source gives U+FF80-U+FFFF for bytes from 0x80 (lines 1227, 1231), as `TextEntryAsWritten` states.
- PngDecoder.ReadKeyword: deliberately yields the Latin-1 keyword. The source appends `(char)` of the signed byte (`JavaChars`, lines 1123-1124, 1226-1227, 1344-1345). For iCCP the name is discarded, so nothing differs there.
- PngDecoder.PNGRed.ParseZTXt: deliberately appends the Latin-1 keyword of `ZtxtEntry`. The source's keyword is that of `ZtxtEntryAsWritten` (lines 1344-1345). The inflated text is the same in both.
- PngAncillary.ZtxtEntry: the corrected zTXt entry. Its keyword is Latin-1 where the source's is `(char)` of a signed byte; `ZtxtEntryAsWritten` is the code as written.
- **PSGenerator:**
  - `formatDouble` and the matrix and colour methods are not modelled (floating-point formatting).
  - The `OutputStream` and the `ResourceTracker` calls in `embedIdentityH` are not modelled.
  - `PSState` is opaque; `copyState` is a parameter.
  - The date format, `psLevel` and `resolveURI` are not modelled.
- **TIFFField:**
  - `getAsFloat` and `getAsDouble` are not modelled (floating point), nor `getAsRational` and `getAsSRational`.
  - `getAsString`, the array getters, `hashCode` and the default constructor are not modelled.
- **DefaultEdgeDirectory.** Its iterators are modelled as sets, so iteration order is not captured. `GetBestEdge` returns the single stored edge for a (start, end) pair.
- **DSCCommentBeginDocument.** `splitParams` and `Float.valueOf` are parameters. `getVersion`, `getType` and `getResource` are plain field reads.
- **DataURIResolver.** Base64 and URL decoding are parameters.

## Findings

| source | as written | input that shows it | evidently intended | confidence | as-written member | corrected member |
|---|---|---|---|---|---|---|
| src/main/java/org/apache/xmlgraphics/image/codec/png/PNGRed.java:1037-1041 | the bKGD colour below 8 bits uses the signed byte from `expandBits`, so `new Color` gets -1 for white | a 1-bit gray image whose bKGD gray is 1: `new Color(-1, -1, -1)` throws, and the whole decode fails | the expanded sample read unsigned (`& 0xff`), giving white (255, 255, 255) | not executed | PngAncillary.BackgroundWhiteOneBit | PngAncillary.BackgroundColor |
| src/main/java/org/apache/xmlgraphics/image/codec/png/PNGRed.java:1227-1231 | tEXt keyword and text characters are `(char)` of a signed byte, so bytes 0x80-0xFF become U+FF80-U+FFFF | tEXt data `a`, 0, 0xE9 reads as ("a", U+FFE9) | Latin-1 characters (the tEXt encoding by section 4.2.3.1 of RFC 2083), giving ("a", "é") | not executed | PngAncillary.TextAsWrittenFinding | PngAncillary.TextEntryRoundTrip |
| src/main/java/org/apache/xmlgraphics/image/codec/png/PNGRed.java:1187-1194 | the sRGB chromaticity constants are divided by 10000 instead of 100000 | any sRGB chunk: white point x becomes 3.127, seven of the eight values exceed 1, and blue y is 0.6 instead of 0.06 | the cHRM scale of 100000 (lines 1056-1064), white point x 0.3127 | not executed | PngAncillary.SrgbAsWrittenOutOfRange | PngAncillary.SrgbInUnitRange |
| src/main/java/org/apache/xmlgraphics/image/codec/png/PNGRed.java:1344-1345 | the zTXt keyword characters are `(char)` of a signed byte, as in tEXt, so bytes 0x80-0xFF become U+FF80-U+FFFF | zTXt data 0xE9, 0, 0 gives the keyword U+FFE9 | the Latin-1 keyword (section 4.2.3.2 of RFC 2083), giving "é" | not executed | PngAncillary.ZtxtAsWrittenFinding | PngAncillary.ZtxtKeywordRoundTrip |
