# Verified models of a T.38 fax gateway

This project models five parts of a T.38 fax gateway and of the image library that it carries, and proves
what they promise.  `dafny verify dfyconfig.toml` checks all of it.

**The fax codec** (`tif_fax3.c`, `tif_fax3.h`, `mkg3states.c`, `t4.h`).  The encoder looks at pixels: it
searches packed bytes for changing elements and writes code words.  The decoder never looks at a pixel: it
walks two arrays of run lengths and looks codes up in generated tables.  That they undo each other is a
simulation between the two representations.

- `Bits`, `BitWriter`, `BitReader`: bit strings, the encoder's bit packer, the decoder's accumulator.
- `CodeTables`, `DecodeTables`, `TableBuilder`: the code tables, the generator's reversed prototypes, and what
  a lookup in the generated tables yields.
- `Pixels`, `Spans`, `FillRuns`: packed rows, the fast search for runs, the painter.
- `FaxRules`: the rules of T.4 and T.6 that this coding keeps, on pixels and bits alone.
- `FaxCoding`, `Changes`: the two coding schemes as functions from rows to bit strings; the changing elements
  of a row as prefix sums of its runs, and the relation that keeps encoder and decoder in step.
- `FaxEncoder`, `RowDecoder`, `FaxDecoder`: the encoder and decoder of one row.
- `Strips`, `Group4`, `LineSync`, `Group3`, `Group3Strips`: strips, end of line codes, and the round trips.

Decoder methods accept any data.  Their contracts speak about data that carries a row: the ghost parameters
`row`, `ref` and `rest` name the row, the reference line and whatever follows, and `Follows` says that the
data carries them, perhaps with zeros behind.

**UDPTL** (`udptl.c`).  `LengthCoding` and `UdptlReading` are the packet syntax, `UdptlPackets` says what packet
n of a session carries, `UdptlWire` which octets that is, `Parity` is forward error correction on messages of
different lengths, `UdptlRing` says what a receiver's ring of sixteen slots becomes, and the class
`Udptl.Endpoint` has the code itself, proved against these.  `UdptlFec`, `UdptlBursts` and `UdptlRuns` are about
whole runs with losses and repetitions, `UdptlDisorder` and `UdptlLate` about packets that arrive in any order;
there `rx_seq_no`, which every packet sets, lets messages be delivered twice, and it is said exactly when.
`UdptlTransfer` joins two endpoints.

**The LogLuv coder** (`tif_luv.c`).  `LogLuvPackets` has the packets and which of them are well chosen, `LogLuv`
the search for runs with its flushes in the middle of a row, `LogLuvDecoder` the decoder and the round trip.  In
the high octets of 16-bit pixels the encoder compares with a signed number, so that octets from 128 on never form
runs; the model does the same.

**The session table** (`session.c`, `app.c`).  `Allocators` and `Sessions`: heap objects with links to each
other, two arrays, two allocators, and the compaction of the table.  One thing is not as it should be: a call
takes two entries of the table, but `proc_setup` checks for one.  `Setup` says exactly when that matters, and
`FortiethCall` shows that it can happen.

**Signalling messages** (`msg_proc.c`).  `TextScan` and `Messages`: printing and parsing, and exactly which
messages survive both.  `MessageTexts` has the texts themselves and what is read from them.

Sequences of `bool` are bits or pixels, `true` being a set bit or a black pixel.  Octets are numbers below 256 or
bit vectors, as the code at hand treats them.  Fixed widths are written out where they matter: sixteen-bit
sequence numbers, the 32-bit signed port number that `strtoul` is cut down to, unsigned run lengths.

What comes from outside is a parameter: the alignment of buffers (`addr`), what goes wrong while a call is set
up (`Luck`), which packets arrive, the raw buffer's size, and the resolution that decides on K.

## Model

| member | source | states |
|---|---|---|
| `Group4.RoundTrip` | libtiff/tiff-4.0.3/libtiff/tif_fax3.c:1380-1464 | Group 4: decoding what was encoded gives back the same pixels, for every width, every sequence of rows, every size of the raw buffer, every alignment and every initial content of the output buffer |
| `Group3Strips.RoundTrip` | libtiff/tiff-4.0.3/libtiff/tif_fax3.c:226-332 | Group 3: the same for one-dimensional and for mixed coding, with and without fill bits, for both values of K, every width, every sequence of rows and every initial content of the output buffer |
| `Group4.Group4Encoder.Encode` | libtiff/tiff-4.0.3/libtiff/tif_fax3.c:1433-1451 | a whole number of rows is coded, each with respect to the one before it, and the last one becomes the reference line; a fraction of a row is refused and nothing changes |
| `Group4.Group4Encoder.EncodeRow` | libtiff/tiff-4.0.3/libtiff/tif_fax3.c:1443-1449 | one row is coded with respect to the reference line, and becomes it |
| `Group4.Group4Encoder.EncodeRows` | libtiff/tiff-4.0.3/libtiff/tif_fax3.c:1443-1449 | the loop over rows writes the coding of the whole strip |
| `Group4.Group4Encoder.PostEncode` | libtiff/tiff-4.0.3/libtiff/tif_fax3.c:1454-1464 | two end of line codes are written, and the last octet is completed with zeros only |
| `FaxRules.Group4Rule` | libtiff/tiff-4.0.3/libtiff/tif_fax3.c:1443-1449 | each row of a Group 4 strip is coded with respect to the one before it |
| `FaxRules.RowsAre` | libtiff/tiff-4.0.3/libtiff/tif_fax3.c:995-995 | which bit of the packed bytes pixel j of row i is |
| `Group4.Group4Decoder.Decode` | libtiff/tiff-4.0.3/libtiff/tif_fax3.c:1381-1426 | a strip that carries as many rows as there is room for is decoded to exactly these rows, whatever follows; bytes and bits outside the rows do not change, and the last row is the reference line |
| `Group4.Group4Decoder.DecodeRows` | libtiff/tiff-4.0.3/libtiff/tif_fax3.c:1391-1425 | at each row boundary what is decoded so far is in the buffer, and encoder and decoder have the same reference line |
| `Group4.Group4Decoder.DecodeRow` | libtiff/tiff-4.0.3/libtiff/tif_fax3.c:1391-1411 | the row that the data carries is painted at its place, becomes the reference line, and just its codes are used up |
| `Group4.DecodedStep` | libtiff/tiff-4.0.3/libtiff/tif_fax3.c:1405-1409 | painting one more row extends the decoded part by that row and leaves everything else alone |
| `Group3.Group3Encoder.Encode` | libtiff/tiff-4.0.3/libtiff/tif_fax3.c:1038-1074 | the strip is written as `G3Bits` says: which rows are coded on their own, what is in front of each row, and with respect to what it is coded; a fraction of a row is refused |
| `Group3.Group3Encoder.EncodeRow` | libtiff/tiff-4.0.3/libtiff/tif_fax3.c:1048-1073 | one row with its end of line code; whenever the next row is due to be coded with respect to the reference line, that line is this row, though it is not copied when `k` reaches 0 |
| `Group3.Group3Encoder.EncodeRows` | libtiff/tiff-4.0.3/libtiff/tif_fax3.c:1048-1073 | the phase of the strip and its last row are kept over any number of rows |
| `Group3.Group3Encoder.PutEOL` | libtiff/tiff-4.0.3/libtiff/tif_fax3.c:679-711 | fill bits, end of line code and tag are written as the specification of the strip demands |
| `Group3.Group3Encoder.PutFill` | libtiff/tiff-4.0.3/libtiff/tif_fax3.c:687-703 | just as many zeros are written as make the code end on an octet boundary, if fill bits are used |
| `Group3.Group3Encoder.constructor` | libtiff/tiff-4.0.3/libtiff/tif_fax3.c:717-756 | a strip begins with a row coded on its own, with K of 2 or 4 |
| `Group3.EolPlaces` | libtiff/tiff-4.0.3/libtiff/tif_fax3.c:679-711 | each row has its end of line code; the tag behind it tells how the row is coded; with fill bits every code ends on an octet boundary |
| `FaxRules.Group3Rule` | libtiff/tiff-4.0.3/libtiff/tif_fax3.c:679-711 | the bits in front of and of each row of a Group 3 strip: fewer than eight fill bits, eleven zeros and a one, a one or a zero as the tag, and the row in the coding that the tag announces |
| `FaxRules.EolRule` | libtiff/tiff-4.0.3/libtiff/tif_fax3.c:1459-1460 | the end of line code, bit by bit, and the end of a Group 4 strip |
| `Group3.Refreshed` | libtiff/tiff-4.0.3/libtiff/tif_fax3.c:1051-1066 | exactly the rows whose number is a multiple of K are coded on their own, so that at most K - 1 consecutive rows are not |
| `Group3.LineAnyReference` | libtiff/tiff-4.0.3/libtiff/tif_fax3.c:1052-1055 | a row coded on its own does not depend on the reference line |
| `LineSync.SyncEol` | libtiff/tiff-4.0.3/libtiff/tif_fax3.h:259-278 | whatever the data: everything is skipped up to the first eleven zeros in it, unless they have been seen already, and decoding goes on just behind the next one bit; it fails exactly if nothing is left or no such bit comes; so an end of line code with any number of fill bits in front of it is skipped, and nothing else |
| `LineSync.FindZeros` | libtiff/tiff-4.0.3/libtiff/tif_fax3.h:260-267 | whatever the data: the scan stops at the first place with eleven zeros, and fails only on no data at all |
| `LineSync.SkipOctets` | libtiff/tiff-4.0.3/libtiff/tif_fax3.h:268-273 | only zeros are skipped; if the data runs out, only zeros were left |
| `LineSync.SkipMark` | libtiff/tiff-4.0.3/libtiff/tif_fax3.h:268-277 | the bits up to and including the next one bit are used up; it fails exactly if there is none |
| `LineSync.SkipToOne` | libtiff/tiff-4.0.3/libtiff/tif_fax3.h:274-276 | the same for the last step, when a one bit is at hand |
| `Group3Strips.Group3Decoder.Line1D` | libtiff/tiff-4.0.3/libtiff/tif_fax3.c:237-253 | the row that the data carries behind its end of line code is painted, and just its codes are used up |
| `Group3Strips.Group3Decoder.Line2D` | libtiff/tiff-4.0.3/libtiff/tif_fax3.c:281-313 | the same for mixed coding, where the row also becomes the reference line |
| `Group3Strips.Group3Decoder.SyncTag` | libtiff/tiff-4.0.3/libtiff/tif_fax3.c:289-291 | the tag that follows the end of line code tells how the row is coded |
| `Group3Strips.Group3Decoder.Decode1D` | libtiff/tiff-4.0.3/libtiff/tif_fax3.c:227-263 | a strip of rows coded on their own is decoded to exactly these rows, and everything else in the buffer stays |
| `Group3Strips.Group3Decoder.Decode2D` | libtiff/tiff-4.0.3/libtiff/tif_fax3.c:270-322 | a strip of mixed coding is decoded to exactly its rows, and its last row is the reference line |
| `Group3Strips.Group3Decoder.DecodeRows` | libtiff/tiff-4.0.3/libtiff/tif_fax3.c:237-263 | after every row, what is decoded so far is in the buffer and the rest of the strip comes next |
| `RowDecoder.RowState.Expand2D` | libtiff/tiff-4.0.3/libtiff/tif_fax3.h:388-530 | a row coded with respect to a reference line is expanded to exactly its runs, and just its codes are used up |
| `RowDecoder.RowState.ExpandMode` | libtiff/tiff-4.0.3/libtiff/tif_fax3.h:390-517 | one mode code takes the decoder from the encoder's position to its next one |
| `RowDecoder.RowState.PassMode` | libtiff/tiff-4.0.3/libtiff/tif_fax3.h:392-398 | pass mode moves a0 to b2 and b1 to the change after it, as in the encoder |
| `RowDecoder.RowState.VerticalMode` | libtiff/tiff-4.0.3/libtiff/tif_fax3.h:469-489 | a vertical mode code ends the run at b1 - d, and moves one run on or back on the reference line |
| `RowDecoder.RowState.HorizontalMode` | libtiff/tiff-4.0.3/libtiff/tif_fax3.h:399-468 | horizontal mode stores the two runs up to a1 and a2, whichever colour is due |
| `RowDecoder.RowState.CheckB1` | libtiff/tiff-4.0.3/libtiff/tif_fax3.h:378-383 | after the correction b1 is the first change of the right colour beyond a0 |
| `RowDecoder.RowState.Expand1D` | libtiff/tiff-4.0.3/libtiff/tif_fax3.h:317-372 | a row coded on its own is expanded to exactly its runs, and just its codes are used up |
| `RowDecoder.RowState.Expand1DRuns` | libtiff/tiff-4.0.3/libtiff/tif_fax3.h:318-366 | white and black runs in turn, until the row is complete |
| `RowDecoder.RowState.Expand1DRun` | libtiff/tiff-4.0.3/libtiff/tif_fax3.h:319-341 | one run is stored; but for the first one it is not empty |
| `RowDecoder.RowState.ReadRun` | libtiff/tiff-4.0.3/libtiff/tif_fax3.h:319-341 | the codes of a run of any length add up to that length, and are all that is used up |
| `RowDecoder.RowState.Lookup` | libtiff/tiff-4.0.3/libtiff/tif_fax3.h:227-236 | the table entry found is that of the code that comes next, and its bits are used up |
| `RowDecoder.RowState.SetValue` | libtiff/tiff-4.0.3/libtiff/tif_fax3.h:242-246 | a run is stored, a0 moves on, and a new run begins; without room for it nothing changes, which is reported (`Expand1D` and `Expand2D` say that there is always room for an encoded row) |
| `RowDecoder.RowState.CleanupRuns` | libtiff/tiff-4.0.3/libtiff/tif_fax3.h:285-303 | whatever the runs, if they add up to a0: they are made to fill the row, so that the painter gets to its end; a complete row is left as it is |
| `RowDecoder.RowState.FinishRow2D` | libtiff/tiff-4.0.3/libtiff/tif_fax3.h:518-529 | a final one bit is expected and used up exactly if the last run has not been ended and does not fill the row; whatever comes, the runs fill the row then; a complete row is left as it is |
| `RowDecoder.AfterLookup` | libtiff/tiff-4.0.3/libtiff/tif_fax3.h:227-236 | a code followed by anything is looked up as itself, and what remains is what followed it |
| `FaxCoding.NextOk` | libtiff/tiff-4.0.3/libtiff/tif_fax3.c:1000-1028 | each mode code moves a0 to the right, but that it may stay at the first pixel of a row that begins black; so the encoder stops |
| `FaxCoding.SpanStep` | libtiff/tiff-4.0.3/libtiff/tif_fax3.c:642-668 | how the codes of a run begin |
| `Changes.B1IsChange` | libtiff/tiff-4.0.3/libtiff/tif_fax3.h:374-383 | b1 is a change of the reference line: the first one of the right colour beyond a0 |
| `Changes.InStepAtStart` | libtiff/tiff-4.0.3/libtiff/tif_fax3.h:388-390 | encoder and decoder start in step |
| `Changes.InStepAdvance` | libtiff/tiff-4.0.3/libtiff/tif_fax3.h:378-383 | moving b1 on by two runs keeps them in step |
| `Changes.InStepChecked` | libtiff/tiff-4.0.3/libtiff/tif_fax3.h:378-383 | when the correction stops, b1 and b2 of decoder and encoder are the same |
| `Changes.InStepPass` | libtiff/tiff-4.0.3/libtiff/tif_fax3.h:392-398 | they are in step after pass mode |
| `Changes.InStepVertical` | libtiff/tiff-4.0.3/libtiff/tif_fax3.h:469-489 | they are in step after vertical mode |
| `Changes.InStepHorizontal` | libtiff/tiff-4.0.3/libtiff/tif_fax3.h:399-468 | they are in step after horizontal mode |
| `Changes.InStepBounds` | libtiff/tiff-4.0.3/libtiff/tif_fax3.c:499-523 | neither pointer into the arrays of runs gets further than the arrays are long |
| `Changes.PixelInRun` | libtiff/tiff-4.0.3/libtiff/tif_fax3.c:365-366 | the pixels between two changes have the colour of the run |
| `FaxDecoder.StripState.constructor` | libtiff/tiff-4.0.3/libtiff/tif_fax3.c:147-172 | the arrays of runs are set up, and the reference line is white |
| `FaxDecoder.StripState.ExpandRow` | libtiff/tiff-4.0.3/libtiff/tif_fax3.c:300-303 | the row is expanded into the current runs |
| `FaxDecoder.StripState.PaintRow` | libtiff/tiff-4.0.3/libtiff/tif_fax3.c:304-304 | exactly the pixels of the row are painted |
| `FaxDecoder.StripState.SwapRuns` | libtiff/tiff-4.0.3/libtiff/tif_fax3.c:305-306 | with the imaginary change appended, the row becomes the reference line |
| `FaxDecoder.RunsPaintRow` | libtiff/tiff-4.0.3/libtiff/tif_fax3.c:367-453 | the runs of a row paint that row, and none of them is cut |
| `FillRuns.FillRow` | libtiff/tiff-4.0.3/libtiff/tif_fax3.c:368-451 | the pixels painted are those of the runs, clipped at the end of the row; all others stay; the clipped lengths are stored back; painting ends at the end of the row if the runs amount to that much, and otherwise where they end |
| `FillRuns.PaintedEnd` | libtiff/tiff-4.0.3/libtiff/tif_fax3.c:451-451 | for every list of runs, how many pixels are painted: the sum of the runs or the whole row, whichever is less; a run too long for a signed number fills the row |
| `FillRuns.PaintedPixel` | libtiff/tiff-4.0.3/libtiff/tif_fax3.c:382-449 | for every list of runs, each pixel has the colour of the run that contains it |
| `FillRuns.ClippedRun` | libtiff/tiff-4.0.3/libtiff/tif_fax3.c:381-383 | for every list of runs, what is stored back for each: as much of it as is within the row |
| `FillRuns.FillPairs` | libtiff/tiff-4.0.3/libtiff/tif_fax3.c:382-449 | the same for the loop |
| `FillRuns.FillSpan` | libtiff/tiff-4.0.3/libtiff/tif_fax3.c:386-415 | exactly the pixels of one run are set, by masks, bytes and words |
| `FillRuns.FillBytes` | libtiff/tiff-4.0.3/libtiff/tif_fax3.c:393-409 | whole bytes, after aligning to a word, word by word |
| `FillRuns.FilledByte` | libtiff/tiff-4.0.3/libtiff/tif_fax3.c:390-390 | changing the masked bits of a byte changes just these pixels |
| `FaxEncoder.Encoder.Encode2DRow` | libtiff/tiff-4.0.3/libtiff/tif_fax3.c:992-1030 | a row is coded as section 4.2 of ITU-T T.4 says, with respect to the reference line |
| `FaxRules.ModeRule` | libtiff/tiff-4.0.3/libtiff/tif_fax3.c:1000-1028 | which code the bits of a row go on with, for a1, a2, b1 and b2 as section 4.2.1 of T.4 defines them on the pixels: the bits of pass mode if b2 is to the left of a1; otherwise those of vertical mode, for each of the seven distances, if a1 and b1 are at most three pixels apart; otherwise those of horizontal mode and the two runs; and where the coding goes on |
| `FaxRules.ModeOnly` | libtiff/tiff-4.0.3/libtiff/tif_fax3.c:1002-1023 | and only then: the zeros in front of the first one bit tell the mode |
| `FaxRules.RunRule` | libtiff/tiff-4.0.3/libtiff/tif_fax3.c:945-963 | one-dimensional coding goes on with the run up to the next pixel of the other colour, in the codes of its own colour |
| `FaxEncoder.Encoder.PutMode` | libtiff/tiff-4.0.3/libtiff/tif_fax3.c:1002-1023 | the mode is chosen by a1, b1 and b2, and a0 moves to where that mode puts it |
| `FaxEncoder.Encoder.PutHorizontal` | libtiff/tiff-4.0.3/libtiff/tif_fax3.c:1006-1015 | the runs from a0 to a1 and from a1 to a2 are put, in the colours that are due |
| `FaxEncoder.Encoder.Encode1DRow` | libtiff/tiff-4.0.3/libtiff/tif_fax3.c:945-971 | a row is coded as section 4.1 of ITU-T T.4 says |
| `FaxEncoder.Encoder.Put1DRun` | libtiff/tiff-4.0.3/libtiff/tif_fax3.c:952-955 | one run up to the next change |
| `FaxEncoder.Encoder.PutSpan` | libtiff/tiff-4.0.3/libtiff/tif_fax3.c:636-671 | a run of any length: make-up codes for 2560, at most one more, and a terminating code |
| `FaxRules.SpanRule` | libtiff/tiff-4.0.3/libtiff/tif_fax3.c:636-671 | a run of less than 64 pixels is one terminating code; a longer one is just as many codes for 2560 as leave less than 2624 pixels, one make-up code for the multiple of 64 in the rest, and a terminating code |
| `FaxRules.CodeForLength` | libtiff/tiff-4.0.3/libtiff/t4.h:58-276 | the code taken from the white or the black table is the one listed for that length |
| `FaxEncoder.Encoder.PutRunCode` | libtiff/tiff-4.0.3/libtiff/tif_fax3.c:643-664 | a code of the table, and how many pixels it stands for |
| `FaxEncoder.FindDiff` | libtiff/tiff-4.0.3/libtiff/tif_fax3.c:931-932 | the next pixel of the other colour |
| `FaxEncoder.FindDiff2` | libtiff/tiff-4.0.3/libtiff/tif_fax3.c:937-938 | the next change, or the end |
| `Spans.FindSpan` | libtiff/tiff-4.0.3/libtiff/tif_fax3.c:807-923 | how many pixels from bs on have the colour, up to be: neither fewer nor more, by table, byte and word |
| `Spans.LeftByte` | libtiff/tiff-4.0.3/libtiff/tif_fax3.c:816-829 | the same within the first, partial byte |
| `Spans.SkipWords` | libtiff/tiff-4.0.3/libtiff/tif_fax3.c:831-848 | bytes up to a word boundary and whole words are skipped only if all their pixels have the colour |
| `Spans.LastBytes` | libtiff/tiff-4.0.3/libtiff/tif_fax3.c:849-865 | the remaining bytes, and the bits of the last one |
| `Spans.LeadingRunBits` | libtiff/tiff-4.0.3/libtiff/tif_fax3.c:760-795 | the tables of leading zeros and ones |
| `Pixels.BitIsPixel` | libtiff/tiff-4.0.3/libtiff/tif_fax3.c:995-995 | a pixel is the bit that the macro PIXEL extracts |
| `Strips.RowsAppend` | libtiff/tiff-4.0.3/libtiff/tif_fax3.c:1447-1448 | the rows of a strip with one more row |
| `Strips.OverlaidBytes` | libtiff/tiff-4.0.3/libtiff/tif_fax3.c:1405-1409 | painting a row leaves all bytes before and after it alone |
| `BitWriter.Writer.PutBits` | libtiff/tiff-4.0.3/libtiff/tif_fax3.c:583-612 | what is written grows by the low bits of the code, first bit first, through any number of octets and flushes |
| `BitWriter.Writer.PutLast` | libtiff/tiff-4.0.3/libtiff/tif_fax3.c:589-594 | the last bits of a code go into the open octet |
| `BitWriter.Writer.CompleteOctet` | libtiff/tiff-4.0.3/libtiff/tif_fax3.c:584-588 | the first bits of a code complete the open octet |
| `BitWriter.Writer.FlushOctet` | libtiff/tiff-4.0.3/libtiff/tif_fax3.c:567-573 | an octet goes to the raw buffer, which is emptied into the file before it overflows |
| `BitWriter.Writer.PostEncode` | libtiff/tiff-4.0.3/libtiff/tif_fax3.c:1078-1085 | the open octet is completed with zeros |
| `BitReader.Reader.NeedBits8` | libtiff/tiff-4.0.3/libtiff/tif_fax3.h:137-148 | the bits ahead stay the same, but for zeros made up at the end; end of data is reported exactly if nothing is left |
| `BitReader.Reader.NeedBits16` | libtiff/tiff-4.0.3/libtiff/tif_fax3.h:151-170 | the same with up to two octets |
| `BitReader.Reader.LoadOctet` | libtiff/tiff-4.0.3/libtiff/tif_fax3.h:144-145 | the next octet, bit-reversed, joins the accumulator |
| `BitReader.Reader.ClrBits` | libtiff/tiff-4.0.3/libtiff/tif_fax3.h:173-176 | just the next n bits are used up |
| `BitReader.Reader.GetBitsAhead` | libtiff/tiff-4.0.3/libtiff/tif_fax3.h:172-172 | what the accumulator shows are the next n bits |
| `Bits.ReverseBits` | libtiff/tiff-4.0.3/libtiff/tif_fax3.h:144-145 | reading a reversed octet from its low end is reading the octet from its high end |
| `Bits.FollowsDrop` | libtiff/tiff-4.0.3/libtiff/tif_fax3.h:173-176 | reading a code off a stream leaves what followed it |
| `Bits.MsbFill` | libtiff/tiff-4.0.3/libtiff/tif_fax3.c:585-592 | oring into the free low bits appends |
| `TableBuilder.FillCode` | libtiff/tiff-4.0.3/libtiff/mkg3states.c:324-335 | all windows that begin with the code get its entry, all others stay |
| `TableBuilder.FillTable` | libtiff/tiff-4.0.3/libtiff/mkg3states.c:319-337 | the same for a list of codes |
| `TableBuilder.BuildTable` | libtiff/tiff-4.0.3/libtiff/mkg3states.c:417-431 | the three tables are built by the generator's calls |
| `TableBuilder.TableLookup` | libtiff/tiff-4.0.3/libtiff/mkg3states.c:417-431 | in each of the three tables a window that begins with a code holds the entry of that code, which is the only one, and all others are null |
| `TableBuilder.CallOrder` | libtiff/tiff-4.0.3/libtiff/mkg3states.c:417-431 | whatever the order of the generator's calls, the tables are the same |
| `TableBuilder.FilledPrefixFree` | libtiff/tiff-4.0.3/libtiff/mkg3states.c:319-337 | for all prefix-free prototypes: a window that begins with one of them holds its entry, and a window that begins with none keeps what it held |
| `TableBuilder.FillOrder` | libtiff/tiff-4.0.3/libtiff/mkg3states.c:319-337 | for all prefix-free prototypes: the order in which they are filled in, and how often, makes no difference |
| `TableBuilder.RowsPrefixFree` | libtiff/tiff-4.0.3/libtiff/mkg3states.c:60-314 | no prototype of a table is the beginning of another one |
| `TableBuilder.LookupDecodes` | libtiff/tiff-4.0.3/libtiff/t4.h:58-276 | a code of the encoder, followed by any bits at all, is looked up as itself |
| `TableBuilder.LookupProgress` | libtiff/tiff-4.0.3/libtiff/mkg3states.c:417-431 | every entry but the null one and end of line uses up a set bit, so that decoding stops |
| `DecodeTables.RowReversed` | libtiff/tiff-4.0.3/libtiff/mkg3states.c:55-317 | each prototype of the generator is the code of the encoder with its bits reversed, of the same length and for the same run |
| `DecodeTables.OnlyMatch` | libtiff/tiff-4.0.3/libtiff/mkg3states.c:55-317 | no window begins with two of the codes: they are prefix-free |
| `DecodeTables.MatchIsPrefix` | libtiff/tiff-4.0.3/libtiff/mkg3states.c:329-331 | a window with the low bits of a prototype begins with the code |
| `FaxCoding.RunCodeRow` | libtiff/tiff-4.0.3/libtiff/t4.h:58-276 | code i stands for a run of i, or of 64 times i - 63 |
| `UdptlTransfer.Transfer` | src/udptl.c:152-486 | one endpoint sends all messages, any of the packets reach another one in any order: what it delivers is what the run says; without parities nothing is delivered twice if and only if no two arrivals bring the same message, and just what they bring is delivered, unchanged; if they come in order, all is delivered if and only if no gap is too long; with parities, if they come in order, nothing is delivered twice, the message of every packet that arrives is delivered, and all messages are if bursts are short |
| `UdptlRuns.RedundancyRun` | src/udptl.c:231-257 | without parities: all messages up to the last packet received are delivered exactly once, in order and under their own numbers, if and only if no more consecutive packets are lost than there are redundant entries; in every run of packets in order they are delivered in order and unchanged |
| `UdptlDisorder.AnyOrder` | src/udptl.c:231-257 | without parities, for every order of arrivals: no message is delivered twice if and only if no two of the arrivals that are not earlier than expected bring the same message, which can be seen from the numbers of the packets; a message is delivered if and only if one of them brings it; what is delivered is what was sent |
| `UdptlDisorder.RedundancyRing` | src/udptl.c:240-249 | without parities: each of the last sixteen slots holds exactly the message of its number if it was delivered, and is marked missing otherwise |
| `UdptlRuns.FecRun` | src/udptl.c:192-361 | in every run each slot of the ring is marked missing or holds the message of its number, zeros added; nothing is delivered twice; what is delivered agrees with what is held |
| `UdptlRuns.FecComplete` | src/udptl.c:306-361 | if before no packet n have more than the lesser of n / span and the number of entries been lost in a row, all messages are delivered exactly once and in order |
| `UdptlDisorder.OwnTwice` | src/udptl.c:351-361 | whatever the scheme and the order: two packets of the same number, neither earlier than expected, deliver their message twice |
| `UdptlDisorder.SetBack` | src/udptl.c:361-361 | a packet that arrives after a later one sets the receiver back, so that the later one, repeated, delivers its message twice, whatever the scheme |
| `UdptlDisorder.NumbersOnly` | src/udptl.c:306-361 | with parities, for every order of arrivals: which numbers are delivered, and whether one is delivered twice, depends on the arrivals only, not on the messages |
| `UdptlLate.LateExactly` | src/udptl.c:192-361 | with parities: after packets in order with short bursts, and then late packets, another packet makes nothing be delivered twice if and only if it is late, too, or none was late before, or it comes so much later that its parities cannot win back any message delivered before the late packets |
| `UdptlLate.LateRun` | src/udptl.c:192-361 | late packets themselves deliver nothing then |
| `UdptlLate.LaterWins` | src/udptl.c:308-335 | what a packet behind late ones wins back: exactly those messages of which it has a parity with nothing else missing |
| `UdptlRuns.PacketBrings` | src/udptl.c:231-257 | what one packet without parities brings, whatever the receiver expects: the messages from the oldest one that it covers and that is still wanted up to its own, or nothing if it is earlier than expected |
| `UdptlTransfer.SendAll` | src/udptl.c:366-485 | the n-th packet built is packet n |
| `UdptlTransfer.ReceiveAll` | src/udptl.c:152-363 | the receiver is where the run says, for every order of arrivals |
| `UdptlBursts.BurstRecovered` | src/udptl.c:308-347 | the first packet after a short burst repairs all messages lost, each with zeros up to the longest of its group, delivered in order under their own numbers before its own message |
| `UdptlBursts.BurstRepaired` | src/udptl.c:312-334 | each parity of that packet repairs the message it ends with |
| `UdptlBursts.GroupOfBurst` | src/udptl.c:314-320 | of the members of a parity's group only the newest can be in a short burst |
| `UdptlFec.InvariantKept` | src/udptl.c:192-361 | taking in a packet, for the first time or again, keeps what holds in every run |
| `UdptlFec.PacketHolds` | src/udptl.c:192-335 | once a packet has been taken in and used for repairs, every slot is marked missing or holds the message it should |
| `UdptlFec.EveryRepair` | src/udptl.c:308-334 | at every step of the repair loops: the parity used is one of a packet of the last sixteen; the slots looked at are those of the messages it covers, also among the last sixteen, and each is marked missing or holds its message; and so it is after the step |
| `UdptlBursts.EveryParity` | src/udptl.c:308-335 | no parity at hand is left out: a message that is the only one missing of a group, of which one of the packets looked at brought a parity, is there afterwards |
| `UdptlFec.GroupRepaired` | src/udptl.c:312-333 | a repaired slot holds the message sent under its number |
| `UdptlFec.GroupPlaces` | src/udptl.c:314-320 | the slots visited modulo 16 are those of the group's members |
| `UdptlFec.MarkedHolds` | src/udptl.c:192-200 | marking skipped slots keeps the ring good |
| `UdptlFec.DepthMonotone` | src/udptl.c:438-444 | while parities wind up, later packets reach back no less than earlier ones, and never before the first message |
| `UdptlFec.RegainedLogged` | src/udptl.c:336-347 | what is repaired is delivered once |
| `Parity.Repairs` | src/udptl.c:321-331 | the parity and all messages of a group but one give that one, zeros added up to the longest |
| `Parity.ParityIs` | src/udptl.c:456-474 | a parity is as long as the longest message, and its octets are the exclusive or of theirs |
| `Udptl.Endpoint.constructor` | src/udptl.c:549-582 | both rings are empty |
| `Udptl.Endpoint.BuildPacket` | src/udptl.c:366-485 | the packet built is packet n of the messages sent, under each of the three schemes; messages of the wrong length are refused |
| `Udptl.Endpoint.BuildParity` | src/udptl.c:456-474 | the loop modulo 16 combines exactly the messages in the slots of the group |
| `Udptl.Endpoint.PutSecondaries` | src/udptl.c:418-433 | the last messages, the latest first |
| `Udptl.Endpoint.PutParities` | src/udptl.c:436-477 | span, number of parities, and parities, fewer of them in the beginning |
| `Udptl.MergeInto` | src/udptl.c:459-473 | octet by octet, the buffer becomes the exclusive or of what it held and the message |
| `Udptl.ParitiesSent` | src/udptl.c:438-477 | the parities taken from the ring are those of the messages they should cover; no slot that was never written is used |
| `Udptl.SecondariesSent` | src/udptl.c:428-433 | the secondaries taken from the ring are the last messages |
| `Udptl.Endpoint.RxPacket` | src/udptl.c:152-363 | every packet that carries what it should is accepted, with the parser just at its end; what is kept and delivered is stated outright; a refused packet delivers nothing |
| `Udptl.Endpoint.TakeRecovery` | src/udptl.c:209-348 | secondaries or parities are taken in |
| `Udptl.Endpoint.TakeParities` | src/udptl.c:259-347 | parities are kept, what they repair is repaired, and delivered forwards in time |
| `Udptl.Endpoint.ReadParities` | src/udptl.c:264-305 | span and parities read are those sent |
| `Udptl.Endpoint.MarkMissed` | src/udptl.c:192-200 | the slots of all skipped numbers, and no others, are marked |
| `Udptl.Endpoint.PlaySecondaries` | src/udptl.c:235-256 | secondaries not seen before are kept and delivered, the oldest first |
| `Udptl.Endpoint.FindMissing` | src/udptl.c:314-320 | which member of a group is missing, if it is just one |
| `Udptl.Endpoint.Rebuild` | src/udptl.c:324-330 | the exclusive or of the parity and of the members that are there |
| `Udptl.Endpoint.UseParity` | src/udptl.c:314-333 | one parity repairs what it can, and that is flagged |
| `Udptl.Endpoint.UseSlot` | src/udptl.c:310-334 | all parities of one slot |
| `Udptl.Endpoint.UseAll` | src/udptl.c:308-335 | the slots from the packet itself back, as far as the ring reaches |
| `Udptl.Endpoint.PlayRepaired` | src/udptl.c:337-347 | just the messages repaired are delivered, in order, under their own numbers |
| `Udptl.RecoveryAhead` | src/udptl.c:209-286 | how the part behind the message begins |
| `UdptlReading.ReadHeader` | src/udptl.c:177-191 | sequence number and message read are those sent |
| `UdptlReading.ReadSecondaries` | src/udptl.c:215-230 | the secondaries read are those sent, and end with the packet |
| `UdptlReading.ReadObjects` | src/udptl.c:220-224 | a number of open types read one after the other |
| `UdptlPackets.ContentAt` | src/udptl.c:405-479 | what packet n carries is something that can be sent |
| `UdptlPackets.WindUp` | src/udptl.c:438-444 | parities reach back no further than the first message, and never more than span times entries |
| `UdptlPackets.EntriesMeans` | src/udptl.c:438-444 | packet n has one parity for each span of messages sent, n / span of them but no more than there are entries, and a span of zero until there have been that many messages |
| `UdptlWire.ContentRule` | src/udptl.c:405-478 | what packet n carries under each scheme: which messages, how many parities, which span |
| `UdptlWire.ParityRule` | src/udptl.c:446-476 | which messages each parity covers |
| `UdptlWire.OddBits` | src/udptl.c:456-474 | a parity is as long as the longest message, and has a bit set just where an odd number of messages have |
| `UdptlWire.PacketRule` | src/udptl.c:405-479 | the octets of a packet, in order |
| `UdptlWire.ObjectRule` | src/udptl.c:121-149 | a message or parity: its length in one or two octets, and itself |
| `UdptlWire.FragmentRule` | src/udptl.c:121-149 | a longer object: a fragment of up to four times 16384 octets, and what is left, if anything |
| `UdptlWire.LengthRule` | src/udptl.c:95-119 | a length determinant is one octet, the length itself, below 128; two octets below 16384; and else one that says how many times 16384 follow |
| `LengthCoding.EncodeLength` | src/udptl.c:95-119 | a length determinant, and how many octets it announces |
| `LengthCoding.EncodeOpenType` | src/udptl.c:121-149 | an object with its determinants, in fragments if it is long; nothing becomes one zero octet |
| `LengthCoding.DecodeLength` | src/udptl.c:42-63 | for all octets: which of the three forms is read, what it says, and when it is cut short; an encoded length below 16384 is read back |
| `LengthCoding.DecodeOpenType` | src/udptl.c:65-92 | an object of 1 to 16383 octets is read back, and the position is just behind it |
| `LogLuvDecoder.RoundTrip` | libtiff/tiff-4.0.3/libtiff/tif_luv.c:377-666 | decoding what was encoded gives back all pixels of a strip, for rows of any length and pixels of 16 as of 32 bits, whatever follows the strip |
| `LogLuvDecoder.DecodeStrip` | libtiff/tiff-4.0.3/libtiff/tif_luv.c:377-386 | each row is decoded from just its own codes; everything else in the output stays |
| `LogLuvDecoder.DecodeRow` | libtiff/tiff-4.0.3/libtiff/tif_luv.c:336-369 | if the codes of a row come next, the row comes back and exactly its codes are used up |
| `LogLuvDecoder.DecodePlane` | libtiff/tiff-4.0.3/libtiff/tif_luv.c:337-348 | each pixel gets its octet of one significance; the loop stops just at the end of the codes |
| `LogLuvDecoder.TakeRun` | libtiff/tiff-4.0.3/libtiff/tif_luv.c:338-343 | as many pixels as the run says get its octet |
| `LogLuvDecoder.TakeLiteral` | libtiff/tiff-4.0.3/libtiff/tif_luv.c:344-348 | as many pixels as the string is long get its octets, and both counters end up right |
| `LogLuvDecoder.OctetIn` | libtiff/tiff-4.0.3/libtiff/tif_luv.c:336-348 | oring an octet into its place makes a pixel right from that bit up |
| `LogLuv.EncodeStrip` | libtiff/tiff-4.0.3/libtiff/tif_luv.c:643-651 | each row has codes of its own |
| `LogLuv.EncodeRow` | libtiff/tiff-4.0.3/libtiff/tif_luv.c:577-635 | the octets of each significance are coded, the highest first, in well chosen packets; only in the high octets of 16-bit pixels those from 128 on never form runs |
| `LogLuv.EncodePlane` | libtiff/tiff-4.0.3/libtiff/tif_luv.c:436-490 | the packets written stand for the plane, and take at most n + (n + 126) / 127 octets; no write needs room that a raw buffer of 130 octets does not have; and they are well chosen: a run of four or more octets is always a run packet, which goes on to where the next octet differs; two or three octets in front of one or of the end are a run packet exactly if they are equal; all else goes out as literal strings, as long as can be |
| `LogLuvPackets.OneCode` | libtiff/tiff-4.0.3/libtiff/tif_luv.c:436-490 | that choice leaves no choice: there is only one such code for a plane |
| `LogLuvPackets.EqualOctets` | libtiff/tiff-4.0.3/libtiff/tif_luv.c:484-487 | n equal octets (below 128 in the high octets of 16-bit pixels) take two octets for each 129 of them, or part of 129 |
| `LogLuv.OctetsAre` | libtiff/tiff-4.0.3/libtiff/tif_luv.c:447-487 | which octets of a pixel are coded |
| `LogLuv.PutSegment` | libtiff/tiff-4.0.3/libtiff/tif_luv.c:437-490 | what precedes the next long run, and that run, in well chosen packets |
| `LogLuv.PutBeforeRun` | libtiff/tiff-4.0.3/libtiff/tif_luv.c:456-483 | as a short run, or as literal strings |
| `LogLuv.PutLiterals` | libtiff/tiff-4.0.3/libtiff/tif_luv.c:468-483 | literal strings of at most 127 octets; the buffer is flushed whenever the next one would not fit |
| `LogLuv.FindRun` | libtiff/tiff-4.0.3/libtiff/tif_luv.c:447-455 | the next run of four or more equal octets, as far as it goes, and no such run begins before it |
| `LogLuv.IsShortRun` | libtiff/tiff-4.0.3/libtiff/tif_luv.c:456-467 | exactly if two or three octets are equal they make a short run |
| `LogLuv.RawWriter.Put` | libtiff/tiff-4.0.3/libtiff/tif_luv.c:461-462 | an octet is written only where there is room |
| `LogLuv.RawWriter.Flush` | libtiff/tiff-4.0.3/libtiff/tif_luv.c:438-445 | flushed chunks and buffer together are the stream |
| `LogLuvPackets.StandsJoin` | libtiff/tiff-4.0.3/libtiff/tif_luv.c:437-490 | codes of consecutive parts of a plane stand for both |
| `Sessions.Rounds` | src/app.c:263-273 | after any number of rounds of closing gaps and carrying out commands the table is valid: mutual peers side by side, each session at its index, numbers and ports in use exactly those of live sessions, all different, IN numbers below 1024 and OUT numbers from there; the calls in it are exactly those set up and not taken down since, in their order; all this if and only if no call was to be set up with 79 sessions in the table |
| `Sessions.Round` | src/app.c:263-273 | the same for one round |
| `Sessions.CallGone` | src/session.c:662-679 | taking a call out of the table takes just the first call of that name out of the list of calls |
| `Sessions.FirstGoes` | src/session.c:662-679 | of several calls of one name it is the first one, and the others keep their order |
| `Sessions.Table.Setup` | src/session.c:505-612 | a call is set up exactly if nothing goes wrong and there is room for both legs; otherwise nothing is left of it; with 79 sessions the check for room is not enough |
| `Sessions.FortiethCall` | src/session.c:516-520 | thirty-nine calls later, setting up another one writes behind the end of the table |
| `Sessions.Table.NewPair` | src/session.c:534-598 | both legs with their numbers and ports, or neither |
| `Sessions.Table.NewLeg` | src/session.c:159-195 | there are always a number and a port left for a leg |
| `Sessions.Table.NewSession` | src/session.c:79-133 | number and port are the next free ones, and the cursors move on behind them |
| `Sessions.Table.Destroy` | src/session.c:199-216 | number and port are given back |
| `Sessions.Table.Release` | src/session.c:652-688 | the first call of that name goes, with both of its entries, numbers and ports; without one nothing changes |
| `Sessions.Table.RemoveCall` | src/session.c:668-675 | a leg and its peer are taken out of the table |
| `Sessions.Table.ProcSessions` | src/app.c:209-242 | the table becomes the live sessions in their old order, each knowing its new place |
| `Sessions.Table.CloseGaps` | src/app.c:217-237 | the loop that moves sessions up |
| `Sessions.Table.InitControl` | src/app.c:102-141 | the control session is alone in the table |
| `Sessions.LivePaired` | src/app.c:217-237 | closing gaps keeps the two legs of a call side by side |
| `Sessions.LiveExact` | src/app.c:217-237 | closing gaps keeps numbers and ports in use exact |
| `Allocators.TakeNext` | src/session.c:79-133 | if an entry at or behind the cursor is free, the first such one is taken; otherwise the first free one in front of it; the cursor moves behind the one taken |
| `Allocators.TakeFree` | src/app.c:315-335 | the first free entry of a range |
| `Allocators.GiveBack` | src/session.c:137-155 | an entry is free again |
| `Allocators.NotExhausted` | src/app.c:311-340 | with fewer owners than entries there is always a free one |
| `Messages.RoundTrip` | src/msg_proc.c:200-591 | parsing a composed message gives it back if and only if the call has a name of one word, no port is 0 or 65535, and no address is the broadcast address |
| `MessageTexts.SetupGGText` | src/msg_proc.c:200-215 | the text of a SETUP between gateways, the source first |
| `MessageTexts.SetupGTText` | src/msg_proc.c:217-223 | the text of a SETUP for a terminal |
| `MessageTexts.OkText` | src/msg_proc.c:248-257 | the text of an OK |
| `MessageTexts.ReleaseText` | src/msg_proc.c:261-269 | the text of a RELEASE |
| `MessageTexts.ErrorText` | src/msg_proc.c:234-244 | the texts of the three ERRORs |
| `MessageTexts.SetupGGParsed` | src/msg_proc.c:322-409 | what becomes of that text: which fields are read, or with which code it is refused |
| `MessageTexts.SetupGTParsed` | src/msg_proc.c:322-409 | the same for a terminal |
| `MessageTexts.OkParsed` | src/msg_proc.c:418-467 | the same for an OK |
| `MessageTexts.ReleaseParsed` | src/msg_proc.c:476-494 | the same for a RELEASE |
| `MessageTexts.ErrorParsed` | src/msg_proc.c:501-536 | the same for the three ERRORs |
| `MessageTexts.AnyNumber` | src/msg_proc.c:451-456 | what is read for a number of any size in place of a port: 32 bits of it, the negative ones passing for ports |
| `MessageTexts.KindRefused` | src/msg_proc.c:564-580 | of a text with at least two words, the first one must be one of four, or it is refused with -3 |
| `MessageTexts.TooShort` | src/msg_proc.c:555-559 | a text with less than two words is refused with -2 |
| `MessageTexts.DecimalText` | src/msg_proc.c:208-213 | numbers are printed in decimal without zeros in front |
| `MessageTexts.AddressIs` | src/msg_proc.c:60-75 | addresses are printed as four numbers, that of the highest octet first |
| `Messages.NotGotAcross` | src/msg_proc.c:359-363 | a port of 65535, the broadcast address and a name of two words are printed but not read back |
| `Messages.SetupBack` | src/msg_proc.c:322-409 | for SETUP messages of both modes |
| `Messages.OkBack` | src/msg_proc.c:418-467 | for OK messages |
| `Messages.ErrorBack` | src/msg_proc.c:501-536 | for ERROR messages |
| `Messages.FrontBack` | src/msg_proc.c:555-562 | kind and name are read back, and the payload begins where it should |
| `Messages.NotCut` | src/msg_proc.c:200-269 | no message is too long for the buffer |
| `TextScan.AddressBack` | src/msg_proc.c:60-75 | printing an address and reading it again |
| `TextScan.DecimalBack` | src/msg_proc.c:358-363 | printing a number and reading it again |
| `TextScan.ScanFirst` | src/msg_proc.c:555-559 | a word in front of a blank is scanned as itself |

## Left out

- Group4.Group4Decoder.EndOfBlock: what is painted when a strip ends early is best effort in the original, and no property is stated of it; asking for 13 bits at the very end of the data, the original clears bits it does not have, which the model leaves out.
- RowDecoder.RowState.CleanupRuns: that the runs of damaged data add up to a0 is assumed there and not carried through the row expanders; which runs a damaged row ends up with is only modelled.
- RowDecoder.RowState.EndOfLine2D: an end of line or an uncompressed extension in place of a mode code ends the row; no property is stated of it.
- Group3Strips.Group3Decoder.NoRow: the white row painted when the data ends before a row is not specified.
- Group3Strips.Group3Decoder.Line1D: one state type serves all decoders, so there is a second array of runs that one-dimensional decoding does not use; the original has none then.
- Data that does not come from the encoder: a decoder that runs out of an array of runs reports `Overrun` in the model, while the original does not notice; run lengths do not wrap around at 32 bits.
- Byte- and word-aligned run-length coding without end of line codes (`Fax3DecodeRLE`, FAXMODE_NOEOL), and the return-to-control codes that `Fax3Close` writes; the round trips hold whatever follows a strip.
- Rows of zero width, and widths whose run arrays would overflow the address space.
- The reference line of `Fax3PreEncode` and its floating point resolution: the model takes the outcome of the comparison.
- `find0span` and `find1span` differ only in the colour, which is a parameter of one method; the same holds for the white and black halves of the painter and of the row expanders.
- Fill orders other than the default one; the reversal of octets is modelled, its table is not.
- Udptl.Endpoint.RxPacket: of a malformed packet only that it delivers nothing and leaves the expected number; numbers of secondaries and parities beyond the original's fixed arrays, which it does not check, are read into sequences; what a refused packet with parities leaves in the ring differs from the original in stale parities.
- LengthCoding.DecodeOpenType: objects of 16384 octets or more are encoded with the original's quirk (no closing determinant behind a last full fragment) and are not read back; the pointers to later fragments, which the original stores behind its array, are left out.
- UDPTL sessions longer than one round of the sequence numbers, and changes of the scheme during a session.
- UdptlLate.LateExactly: with parities, late packets after bursts too long to be made up for, and what comes after the packet behind the late ones; there `NumbersOnly` says that the arrivals alone decide, and `OwnTwice` when something is certainly delivered twice.
- UdptlRuns.FecComplete: longer bursts can be repaired, too, by later packets, in whole or in part; which ones is not stated.
- A slot that holds no message is an empty sequence, where the original has lengths of 0 and -1.
- LogLuvDecoder.TakePacket: in a run that the data breaks off in, the original reads one octet behind its data; the model takes nothing.
- LogLuv colour conversions, 24-bit pixels and tiles (which are strips of another row length).
- Sessions.Table.NewSession: creating a session and the beginning of its initialisation are one step; sockets, threads, the answer to a SETUP, and the dangling pointer that is answered with when the IN leg cannot be initialised are left out.
- Sessions.Table.Setup: when the second leg would be written behind the end of the table, the model stops and reports it.
- Messages.Parse: addresses in other notations than four plain decimal numbers, which `inet_addr` also takes, are refused; words longer than the original's buffers are not noticed there and, but for the call's name, are not here; a missing second address is taken to have no colon.
- Messages.Compose: SETUP messages of an unknown mode, for which the original sends an uninitialised buffer.
- The TIFF directory, other codecs, the gateway to SpanDSP, the command line and logging.
