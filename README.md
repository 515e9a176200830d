# vbit-pi-stream in Dafny

A model of the core of vbit-pi-stream. This program makes a teletext
packet stream for a Raspberry Pi. It reads teletext page files from a
page directory and runs one thread per magazine. Each magazine thread
turns the page files into 45-byte packets and queues them in that
magazine's ring buffer. One stream thread picks the magazines in priority
order and moves their packets into the output stream buffer. As it does,
it fills the header template into each header packet. The packet formats
follow ETSI EN 300 706:

- Hamming 8/4: section 8.2.
- Hamming 24/18: section 8.3.
- Page headers: section 9.3.1.
- X/27 Fastext links: section 9.6.1.
- X/28 enhancement data: section 9.4.2.1.
- Packet 8/30: section 9.8.

The model has twelve modules, one per source file or concern:

| module | file | models |
|---|---|---|
| `Tables` | tables.dfy | The tables the code uses, defined concretely. This covers `HamTab`, `DehamTable` and `ParTab` from hamm.h and tables.h, plus `vbi_unham8` and `vbi_ham24p`. |
| `CString` | cstring.dfy | C strings (the bytes before the first NUL), `strtol`, `strstr`, and `int32_t` wrap-around. |
| `Files` | files.dfy | `fopen`, `fgets` and `fseek` on a page file. The file is held as bytes, with a read position and an end-of-file flag. |
| `Settings` | settings.dfy | settings.c: the header-template default and the configuration file reader. |
| `Page` | page.dfy | page.c: the PAGE record and `ParseLine`. |
| `Packet` | packet.dfy | packet.c: every packet builder. |
| `Buffer` | buffer.dfy | buffer.c: the ring buffer as a class with a ghost FIFO, and `bufferMove` with header formatting. |
| `Carousels` | carousel.dfy | mag.c: carousel registration and `pageToTransmit`. |
| `Mag` | mag.dfy | mag.c: `magInit`, `getMag` and `getList`. |
| `Domag` | domag.dfy | mag.c: the `domag` magazine thread as a state machine. |
| `Streams` | stream.dfy | stream.c: the stream scheduler. |
| `Nu4` | nu4.dfy | nu4.c: the Newfor subtitle protocol. |

How the model is written:

- Code that changes state in place is written as methods:
  - the packet arrays;
  - the ring buffer, the PAGE and the configuration globals;
  - the thread states of `domag` and `Stream`;
  - the subtitle cache.
- Each such method is proved against a function that specifies it.
- The pure arithmetic is written as functions with lemmas.
- The clock, the date and the directory listing are parameters.
- The operations do what the code does. Where the code departs from
  what it evidently intends, the intended behaviour is a separate
  function with its own lemmas, and "## Findings" pairs the two. Where a
  reading of the system's design differs from the code, the model
  follows the code:
  - `bufferMove` tests the destination for room before it takes a packet
    (buffer.c:166-169), so a full destination loses nothing.
  - `STREAMS` is 8 (stream.c:20). The initialiser of the priority table
    has nine values; C drops the ninth. The subtitle source is switched
    off with `&& FALSE`, so eight magazines are scheduled.
  - The injection of service packets (8/30) into the stream is commented
    out (stream.c:89-103), so it is not in the scheduler.
  - The header template is copied into a header by `bufferMove`
    (buffer.c:370-380), not when the header is built. `domag` leaves
    bytes 13..44 of its header as the packet held them.
  - `domag` has a path that would set the state to BEGIN when a magazine
    has no pages. The opening step that follows overwrites it, so a pass
    of the IDLE state ends in IDLE or HEADER.
  - `holdCount` is reset on every pass that serves a magazine not on
    hold (stream.c:104-106), but the release of all holds at the end of
    a field (stream.c:78-83) leaves it as it was. While it stays at 8 or
    more, every held pass emits a quiet packet (stream.c:133-148).

## Model

| member | source | states |
|---|---|---|
| Tables.HamIsCodeword | packet.c:221-222 | Every Hamming 8/4 codeword passes the four parity checks of section 8.2, and its data bits are the nibble it codes. |
| Tables.HamTabValues | packet.c:221-222 | The sixteen codewords are 0x15, 0x02, 0x49, 0x5E, 0x64, 0x73, 0x38, 0x2F, 0xD0, 0xC7, 0x8C, 0x9B, 0xA1, 0xB6, 0xFD and 0xEA, as in the standard's table. |
| Tables.DehamHam | buffer.c:181-197 | DehamTable inverts HamTab, even with bit 7 of the codeword masked off. |
| Tables.Deham | buffer.c:181-197 | A DehamTable entry is 0xFF or a nibble. |
| Tables.ParTab | packet.c:182 | ParTab keeps the low seven bits of its index and gives the byte odd parity. |
| Tables.Unham8 | nu4.c:46-57 | vbi_unham8 returns −1 or a nibble 0..15. |
| Tables.Unham8Fails | nu4.c:46-57 | vbi_unham8 fails exactly when no codeword is within one bit of the byte. |
| Tables.UnhamHam | nu4.c:46-57 | vbi_unham8 recovers the nibble from its codeword with any one bit flipped, or none. |
| Tables.CodewordsFarApart | nu4.c:46-57 | Any two codewords differ in at least three bits, so single-error correction is unambiguous. |
| Tables.Ham24RoundTrip | packet.c:293-297 | A Hamming 24/18 triplet carries the low 18 bits of its value: the data bits read back are value & 0x3FFFF. |
| CString.I32 | page.c:52-74 | The conversion to int32_t lies in the int32_t range and is congruent to its argument modulo 2^32. |
| CString.Strtol | page.c:72-74 | strtol's result lies in the range of long. |
| CString.StrtolReadsDigits | page.c:72-74 | strtol reads back the printed decimal or hexadecimal digits of any natural number, whatever follows them. |
| CString.StrtolPlainDigits | page.c:72-74 | With no white space, sign or prefix, strtol reads the leading run of digits. |
| CString.StrtolHexPrefix | page.c:72-74 | With base 0, a "0x" prefix makes strtol read the rest as hexadecimal. |
| CString.FindFrom | buffer.c:282-353 | The index returned holds an occurrence of the token, and no earlier index from the start point does; −1 when there is none before a NUL. |
| CString.Find | buffer.c:282-353 | strstr in a buffer finds the first occurrence of the token before any NUL, or gives −1. |
| Files.Gets | mag.c:453-518 | At end of file, fgets keeps the line buffer and sets the flag. Otherwise the read position moves forward. |
| Files.PageFile.Fgets | mag.c:453-518 | The file's position and flag, and the caller's buffer, become what Gets gives. |
| Files.PageFile.Rewind | mag.c:182 | fseek to 0 puts the position back at the start and clears the end-of-file flag. |
| Files.GetsWholeLine | mag.c:518 | A line of up to MAXLINE − 1 bytes, its newline included, is read whole by one fgets: the buffer holds it and a NUL, and the flag stays clear. |
| Files.Fopen | mag.c:146-147 | fopen gives null exactly when the directory has no file of that name. Otherwise it gives a fresh file at position 0. |
| Files.PageFile.Open | mag.c:447 | A freshly opened file holds the named content, at position 0, with the flag clear. |
| Settings.DefaultTemplate | settings.c:17 | The default header template is 32 bytes long, with the alpha-yellow control code 0x83 at index 23. |
| Settings.Config.constructor | settings.c:4-11 | The globals start as the C runtime zero-initialises them. |
| Settings.Config.InitConfigDefaults | settings.c:13-26 | The header template becomes the default template. The initial page is magazine 1, page 0, subcode 0x3F7F, and the flag and network code are 0. |
| Settings.TokenCut | settings.c:58-59 | strtok finds no token exactly when the line holds only CR and LF bytes. Otherwise the NUL it writes lies within the line, after its first byte. |
| Settings.JunkError | settings.c:79-82 | A line under 30 bytes is quoted whole. A longer line gives its first 29 bytes and "...", in quotes. |
| Settings.Judge | settings.c:58-83 | A template verdict always carries 32 bytes. A line is ignored only when it holds nothing but line ends or its token starts with ';'. |
| Settings.LineVerdict | settings.c:58-83 | A line starting with ';' is a comment, and only such a line is ignored. |
| Settings.TemplateLineAccepted | settings.c:64-68 | A header_template line whose value is exactly 32 bytes is accepted and sets the template to those bytes. |
| Settings.TemplateLengthRejected | settings.c:66-72 | A header_template value of any other length is rejected with the fixed message. |
| Settings.Config.ParseConfigLine | settings.c:54-84 | The return code and the template are the verdict on the line's first token. Only an accepted template changes the template. |
| Settings.Config.CopyTemplate | settings.c:67 | strncpy of 32 bytes makes the template equal to the source and keeps its NUL. |
| Settings.Config.ParseBufferedLine | settings.c:39-41 | A line as fgets leaves it in the buffer is judged as the C string the buffer holds. |
| Settings.Config.ReadConfigFile | settings.c:28-50 | A missing file gives NoConfig. Otherwise the defaults are set first. The lines are then judged in order until the first rejected one, and the result is ReadOutcome. |
| Settings.ReadOutcomeStep | settings.c:36-46 | An accepted line passes its template on to the rest of the reading. |
| Settings.ReadOutcomeStops | settings.c:42-44 | The first rejected line ends the reading with BadConfig. |
| Settings.ReadOutcomeCode | settings.c:28-50 | readConfigFile returns 0 exactly when every line is accepted, and BadConfig otherwise. |
| Page.HexForm | page.c:72-73 | The rewrite puts "0x" in bytes 1..2 and keeps every other byte. |
| Page.LineAfterParse | page.c:72-137 | PN, PS and RD lines keep the "0x" rewrite in the caller's buffer. Every other line is left as it was. |
| Page.Page.constructor | page.c:219-232 | A new PAGE has every field at its "no page" value. |
| Page.Page.ClearPage | page.c:219-232 | Every field returns to its "no page" value. |
| Page.Page.Of | mag.c:300-302 | The copy has every field of the original. |
| Page.Page.ParseLine | page.c:50-154 | The fields and the return code are what each page-file command specifies. An empty line is accepted with no effect. A line without a comma after its command is rejected with no effect. |
| Page.Page.Switch | page.c:62-152 | Each command letter updates only its own fields. An unknown command gives the error code. |
| Page.Page.ParseC | page.c:103-107 | A C command makes the page timed and stores its cycle time, read in base 0, and changes no other field. |
| Page.Page.ParseS | page.c:108-117 | SC stores the subcode read as hex. |
| Page.Page.ParseP | page.c:67-102 | PN stores the page number. PS sets the status bits, with transmit set and serial clear. |
| Page.Page.StorePageNumber | page.c:76-89 | A value above 0x8FF splits into magazine, page and subpage. A smaller value gives subpage 0. A magazine above 8 is stored and reported with return code 1. |
| Page.Page.ParseR | page.c:127-151 | RD stores the redirect page read as hex, RE stores the region read in base 0, and RT is accepted and changes nothing. Any other R command is an error. |
| Page.ParseGuards | page.c:55-61 | An empty line is accepted without effect. A line whose third byte is not a comma is rejected without effect. |
| Page.StatusBits | page.c:93-101 | PS always leaves the transmit bit set and the serial bit clear, and changes no other field. |
| Page.ReparseKeepsFields | page.c:72-137 | Parsing again the buffer a parse left behind stores nothing new. |
| Page.ParseKeepsFilename | page.c:50-154 | No page-file command changes the name of the file the PAGE came from. |
| Page.ParsePn | page.c:68-90 | A PN line stores what the page-number arithmetic makes of its argument read as hex. |
| Page.PageNumberLong | page.c:76-84 | A PN value above 0x8FF stores the magazine, the page and the subpage it is made of. |
| Page.PageNumberShort | page.c:85-89 | A PN value of at most 0x8FF stores no subpage. |
| Page.PnLine | page.c:68-90 | A PN line whose value is printed in hex stores what the page-number arithmetic makes of that value. |
| Page.PageNumberRoundTrip | page.c:68-90 | "PN,1A205" stores exactly magazine, page and subpage. The return code is 1 exactly when the magazine is above 8. |
| Page.ShortPageNumberRoundTrip | page.c:68-90 | "PN,1A2" stores the magazine and page with subpage 0. |
| Page.ParseCt | page.c:103-107 | A CT line stores a timed page, with its argument read in base 0. |
| Page.CycleTimeOctal | page.c:106 | Base 0 makes "CT,010" a cycle time of 8, not 10. |
| Packet.MragRoundTrip | packet.c:213-223 | The MRAG bytes decode back to the magazine modulo 8 and the row modulo 32. |
| Packet.PacketClear | packet.c:199-204 | Every byte of the packet becomes the value. |
| Packet.PacketQuiet | packet.c:207-210 | The packet becomes all zeros. |
| Packet.PacketPrefixValue | packet.c:213-223 | Bytes 0..4 are clock run-in, framing code and MRAG. A value below 256 fills bytes 5..44; otherwise those bytes are kept. |
| Packet.PacketPrefix | packet.c:226-229 | Only bytes 0..4 change, and they become the prefix. |
| Packet.PacketFiller | packet.c:232-235 | The filler packet is row 25 of magazine 8, with spaces in bytes 5..44. |
| Packet.Parity | packet.c:176-183 | Bytes below the offset are kept. From the offset on, each byte keeps its low seven bits and gets odd parity. |
| Packet.ParityIdempotent | packet.c:176-183 | Applying Parity a second time changes nothing. |
| Packet.OddParityDetermined | packet.c:176-183 | Two odd-parity bytes with the same low seven bits are equal. |
| Packet.CommaAfterFirst | packet.c:71-76 | The scan stops just after the first comma in its window. It fails exactly when the window has no comma. |
| Packet.OLDecodeEncode | packet.c:78-106 | Decoding undoes the 7-bit escape form of an OL line: a row of up to n bytes comes back whole. |
| Packet.OLDecodeEscape | packet.c:83-87 | An escaped byte decodes to itself, and decoding continues after it. |
| Packet.CopyOL | packet.c:58-108 | Row 0 gives 0 and leaves the packet unchanged. A line without a comma gives 0xFF and leaves it unchanged. Otherwise the row number comes back as a byte, bytes 5..44 hold the decoded row padded with spaces, and bytes 0..4 are kept. |
| Packet.CopyOLBody | packet.c:77-106 | The copy loops write the decoded row padded with spaces into bytes 5..44, and keep bytes 0..4. |
| Packet.SpaceFill | packet.c:77 | Bytes 5..44 become spaces and bytes 0..4 are kept. |
| Packet.OLFillDecodes | packet.c:78-106 | Over spaces, the copy loop leaves the bytes before its start alone and writes the padded decoding after it. |
| Packet.OLFillRow | packet.c:77-106 | After the space fill, the copy loop from byte 5 produces the OL row. |
| Packet.LinkRoundTrip | packet.c:156-162 | A Fastext link decodes back to its page number and, once the relative coding is undone, to its magazine. |
| Packet.LinkValue | packet.c:151-153 | The link value used is never 0: a link read as 0 is replaced. |
| Packet.LinkFieldsStep | packet.c:135-167 | Finding link i writes its six bytes at 6 + 6i, and the search goes on with link i + 1. |
| Packet.CopyFL | packet.c:116-168 | The packet becomes FLPacket: the link frame, and the links found in the line written in order from byte 6. |
| Packet.FLPacketLayout | packet.c:123-132 | A link packet keeps bytes 0..4. Byte 5 is Ham(0), the links run from byte 6, byte 42 is Ham(0xF), and bytes 43..44 are Ham(0). |
| Packet.PutLink | packet.c:156-162 | Link i takes bytes 6 + 6i..11 + 6i and every other byte is kept. |
| Packet.HeaderNibbles | packet.c:246-275 | The nibbles of header bytes 5..12 are the fields they were written from. |
| Packet.HeaderPageRoundTrip | packet.c:244-245 | A header decodes back to its page number, with the subcode cut as written or per hex digit. |
| Packet.HeaderSubcodeRoundTrip | packet.c:246-258 | With the corrected cut, a header decodes back to any subcode under mask 0x3F7F, whatever the control bits. |
| Packet.HeaderControlRoundTrip | packet.c:253-275 | A header decodes back to exactly the control bits C4..C14 that the control word maps, under mask 0x43FF, with the subcode cut as written or per hex digit. |
| Packet.HeaderSubcodeMisplaced | packet.c:246-258 | As written, subcode 0x0100 reaches a receiver as 0x0200. |
| Packet.HeaderSubcodeAsWritten | packet.c:246-258 | As written, a receiver reads subcode bits 0..6 in place, bits 7..10 as the third hex digit and bits 11..12 as the fourth; bits 7, 14 and 15 of what it reads are clear. |
| Packet.HeaderCutsAgree | packet.c:246-258 | When bits 7..13 of the subcode are clear (every subcode below 0x80), the header as written is the corrected one and decodes back to the subcode. |
| Packet.PacketHeader | packet.c:239-276 | Bytes 0..4 are the row-0 prefix, bytes 5..12 carry the page, the subcode cut into 4-, 3-, 4- and 2-bit fields as written, and the control bits, and bytes 13..44 are kept. |
| Packet.PageEnhancementDataPacket | packet.c:278-284 | Bytes 0..4 are the prefix and byte 5 is the coded designation code. Every other payload byte is zero. |
| Packet.SetTriplet | packet.c:289-298 | Triplet ix of 1..13 takes bytes 3ix+3..3ix+5, Hamming 24/18 coded, and every other byte is kept. An index below 1 changes nothing. |
| Packet.InitialPageRoundTrip | packet.c:327-335 | The 8/30 initial page decodes back to page, magazine modulo 8, and subcode under mask 0x3F7F. |
| Packet.Reverse8Mirror | packet.c:341-350 | Bit i of the reversed byte is bit 7 − i of the input. Reversing twice gives back the byte. |
| Packet.OffsetByteRoundTrip | packet.c:361 | The UTC offset byte decodes back to any offset of up to 31 half hours either way. |
| Packet.ModifiedJulianDay | packet.c:393-400 | The corrected Modified Julian Date is the Gregorian calendar's Julian day number less 2400001. |
| Packet.MJDOf | packet.c:372 | Storing a day number less 2400000.5 in a long truncates toward zero, giving the day number less 2400001. |
| Packet.MJDReferenceDays | packet.c:393-400 | 1858-11-17 is day 0 and 2000-01-01 is day 51544, both as written and corrected. |
| Packet.CalculateMJDRepeatsDay | packet.c:393-400 | As written, 2000-03-31 and 2000-04-01 both give 51634. |
| Packet.CalculateMJDOffByOne | packet.c:393-400 | As written, the day number is one short in February, April and September, and right in every other month. |
| Packet.MJDNextDay | packet.c:393-400 | The corrected day number rises by exactly one from each date from 1858-11-17 on to the next date. |
| Packet.JulianDayNextDay | packet.c:393-400 | The Julian day number rises by exactly one from each date to the next, across months, years and leap days. |
| Packet.MJDBytesRoundTrip | packet.c:376-378 | The three MJD bytes carry the day number modulo 100000, one digit plus one per nibble. |
| Packet.Packet830Layout | packet.c:320-388 | Packet 8/30 carries MRAG 8/30, the designation code, the initial page, the network code and the UTC offset. Format 1 adds the bit-reversed network code, the UTC offset and the MJD digits in bytes 12..17. Bytes 25..28 hold "VBIT" and the rest are spaces. |
| Packet.Packet30 | packet.c:303-391 | A format other than 1 or 2 gives zeros. Otherwise the result is packet 8/30 with the day number calculateMJD gives as written, and the initial page's subcode shifted right by 12. |
| Buffer.NextIsMod | buffer.c:83-105 | Advancing head or tail is (x + 1) % count. |
| Buffer.HoldsPut | buffer.c:77-83 | Writing the head slot and advancing head appends the packet to the queue the ring holds. |
| Buffer.HoldsGet | buffer.c:99-105 | The tail slot holds the oldest packet, and advancing tail drops it. |
| Buffer.LevelAsWritten | buffer.c:134-140 | As written, the wrapped case gives count − head + tail, truncated to a byte. |
| Buffer.LevelAsWrittenMiscounts | buffer.c:134-140 | A 17-slot buffer with head 1 and tail 16 holds 2 packets, but as written the level is 32. |
| Buffer.LevelAsWrittenDistance | buffer.c:134-140 | As written, the level is the number of packets held, as a byte, while head is not below tail; after a wrap it is that number plus twice the gap from head to tail, as a byte. |
| Buffer.DistanceCountsPackets | buffer.c:134-140 | The corrected level goes up by one when head steps on, down by one when tail steps on, and is 0 when they meet, so it counts the packets held. |
| Buffer.PacketBuffer.Init | buffer.c:54-63 | A new buffer over the caller's storage of len slots holds no packets. |
| Buffer.PacketBuffer.IsEmpty | buffer.c:114-118 | The result is BUFFER_EMPTY exactly when no packet is held. |
| Buffer.PacketBuffer.IsFull | buffer.c:125-129 | The result is BUFFER_FULL exactly when count − 1 packets are held. |
| Buffer.PacketBuffer.Level | buffer.c:134-140 | The level is bufferLevel as written: the number of packets held, as a byte, while head is not below tail, and that number plus twice the gap from head to tail, as a byte, after a wrap. |
| Buffer.PacketBuffer.Put | buffer.c:71-85 | A full buffer gives BUFFER_FULL and does not change. Otherwise a copy of the packet joins the end of the queue. |
| Buffer.PacketBuffer.Get | buffer.c:93-107 | An empty buffer gives BUFFER_EMPTY and does not change. Otherwise the oldest packet is copied out and leaves the queue. |
| Buffer.IsHeaderPrefix | buffer.c:174-203 | A framed packet is taken for a header exactly when its row is 0 modulo 32. |
| Buffer.HeaderPageDigits | buffer.c:235-266 | In a header, "%%#" becomes the magazine (0 shown as 8) and the page number in hex. |
| Buffer.SubstituteWrites | buffer.c:282-359 | A substitution writes its replacement over the first occurrence of the token and keeps every other byte. It changes nothing when the token is absent. |
| Buffer.SubstituteNoField | buffer.c:282-359 | A window without a % sign holds no template field, so no substitution touches it. |
| Buffer.PlainTemplateKept | buffer.c:224-380 | A template without % signs reaches the header unchanged except for parity. |
| Buffer.HeaderText | buffer.c:370-380 | Every byte of the header text has odd parity. |
| Buffer.WithParity | buffer.c:370-380 | Each byte keeps its low seven bits and gets odd parity. |
| Buffer.Delivered | buffer.c:370-380 | The packet passed on keeps bytes 0..12, and a packet that is not a header passes unchanged. |
| Buffer.SubstituteField | buffer.c:282-359 | One strstr substitution in bytes 13..44 keeps bytes 0..12. |
| Buffer.FormatHeader | buffer.c:224-380 | Bytes 0..12 are kept, and bytes 13..44 become the header text of the template. |
| Buffer.SubstituteFields | buffer.c:235-359 | The ten substitutions keep bytes 0..12 and fill the fields of bytes 13..44. |
| Buffer.FormatIfHeader | buffer.c:203-380 | The code is BUFFER_HEADER exactly for a header, and the packet becomes its delivered form. |
| Buffer.Move | buffer.c:151-189 | A full destination gives BUFFER_FULL and nothing changes. An empty source gives BUFFER_EMPTY. Otherwise the oldest packet leaves the source, and its delivered form joins the destination. The code is BUFFER_HEADER for a header and BUFFER_OK otherwise. |
| Carousels.AddCarousel | mag.c:78-111 | A page already in the table, or a full table, gives 1 and changes nothing. Otherwise the lowest free slot gets the page. |
| Carousels.AddKeepsDistinct | mag.c:83-90 | Adding a page not yet in the table keeps every page in at most one slot. |
| Carousels.DueFromFirst | mag.c:137-139 | No slot before the one DueFrom finds is due, so it is the lowest-index due slot. |
| Carousels.NextChangeFromLeast | mag.c:211-229 | The scan keeps the least positive time it has seen. |
| Carousels.NextChangeIsLeast | mag.c:211-229 | The next-change time is the earliest positive due time of a registered carousel. |
| Carousels.ScanStops | mag.c:156-171 | The parse loop ends at end of file or at a subcode above the current one. |
| Carousels.ScanKeepsInterval | mag.c:165-170 | Once the interval is set, later CT lines do not change it: the first CT wins. |
| Carousels.ScanKeepsFilename | mag.c:156-171 | The parse loop keeps the page's file name. |
| Carousels.ScanCarousel | mag.c:156-171 | The file and the page end as Scan gives them. |
| Carousels.ScanOnce | mag.c:158-170 | One pass of the parse loop is one ScanStep. |
| Carousels.Service | mag.c:145-207 | The due slot's file is null exactly when the directory has no such file, and then nothing but the page's file name changes. Otherwise the page is parsed to its next subpage and the slot is rescheduled. |
| Carousels.Advance | mag.c:154-206 | From the start of the file, the page is parsed to the subpage after the current one, and the slot is rescheduled from what the parse found. |
| Carousels.FindDue | mag.c:137-140 | The selection loop finds the first due slot, or MaxCarousel when none is due. |
| Carousels.NextChangeLoop | mag.c:211-229 | The loop gives the least positive due time. |
| Carousels.PageToTransmit | mag.c:119-241 | An empty table gives 0. So does a table with nothing due, a missing file (with a null file), or an empty file name. Otherwise the first due carousel is serviced, and the next change time comes back. |
| Mag.Magazines.MagInit | mag.c:558-568 | The counter starts at 1, and nine empty buffers of PacketCount slots are set up. |
| Mag.Magazines.GetMag | mag.c:245-253 | getMag returns the counter, and the counter moves on modulo 8. |
| Mag.EightThreads | mag.c:558-571 | The eight threads started after magInit get magazines 1 to 7 and then 0: each magazine exactly once. |
| Mag.PlainTableStep | mag.c:295-316 | A kept page that is not a carousel replaces the entry at its page number. |
| Mag.GetList | mag.c:258-329 | A directory that cannot be opened gives 1, keeps txList, and empties the carousel table. Otherwise txList and the carousel table are what the directory's pages for this magazine make them. |
| Mag.ReadDirectory | mag.c:281-321 | The directory loop fills txList and the carousel table from the entries in order. |
| Mag.Keep | mag.c:285-318 | A kept page goes to the carousel table when its subcode is above 1, and to txList otherwise. |
| Mag.KeepCarousel | mag.c:310-313 | The page takes the next free carousel slot, if there is one. |
| Domag.Emit | mag.c:469 | The packet joins the magazine queue. |
| Domag.ParityFrom5 | mag.c:512 | Every byte after the prefix gets odd parity, and bytes 0..4 are kept. |
| Domag.RowSentCarriesText | mag.c:520-529 | A row that copyOL decodes (not 0, not 0xFF) came with its text and is sent as the row packet of its text and row number, the same as written and as intended. |
| Domag.IntendedRowsOnly | mag.c:509-529 | With the intended test, a decoded row queues its row packet, and copyOL's 0 or 0xFF queues nothing. |
| Domag.MalformedRowSentAsWritten | mag.c:522-528 | As written, "OL,5" with no comma is sent as a row-31 packet. |
| Domag.SendRow | mag.c:520-529 | The packet and the queue become what RowStep gives, with the test `if (row)` as written: any nonzero copyOL result queues a packet, the error value 0xFF included. |
| Domag.LinkStepRow27 | mag.c:530-536 | An FL line goes out as row 27 of the page's magazine, with odd parity after the prefix. |
| Domag.LinkStepCarriesLinks | mag.c:530-536 | The links copyFL found are in bytes 6.., seven bits each under the parity bit. |
| Domag.SendLinks | mag.c:530-536 | The packet and the queue become what LinkStep gives. |
| Domag.EnhancementCarriesRegion | mag.c:481-506 | The X/28 packet decodes as row 28 of the magazine, with triplet 1 carrying the region and triplets 2..13 zero. |
| Domag.SendEnhancement | mag.c:481-506 | The X/28 packet for the page's region joins the queue. |
| Domag.ZeroTripletsFrom | mag.c:497-500 | Triplets 2..13 become Hamming codes of 0, and the other bytes are kept. |
| Domag.HeaderPacketRow0 | mag.c:466-469 | The header goes out as row 0 of the page's magazine. |
| Domag.ParallelHeaderFields | mag.c:466-469 | The header decodes as the page number and the control bits of the page, with C11 clear. The subcode decodes as the 4/3/4/2-bit cut gives it, which is the subcode itself when it is below 0x80. |
| Domag.HeaderPacketParts | mag.c:466-469 | The header packet is the row-0 prefix, the page's header bytes as PacketHeader writes them, and the rest of the packet as it was. |
| Domag.SendHeader | mag.c:466-469 | The header packet for the page, as PacketHeader writes it, joins the queue. |
| Domag.SendLine | mag.c:520-536 | The OL and FL branches together queue what LineStep gives, with the row test as written. |
| Domag.LastRowSentTwice | mag.c:518-545 | A page file whose last line is a row ending in a newline has that row sent twice, because fgets at end of file keeps the buffer. |
| Domag.SkipToOL | mag.c:452-453 | The scan stops at a line that starts "OL," or at end of file. |
| Domag.SkipFindsRow | mag.c:452-453 | The scan stops at the next whole line that starts "OL,", with the flag clear. |
| Domag.SkipRows | mag.c:452-453 | The file and the line buffer end as SkipToOL gives them. |
| Domag.NextListedIsNext | mag.c:420-435 | The search takes the first page after the start in circular order: every slot it passes is empty. |
| Domag.NextInList | mag.c:420-435 | The loop stops at NextListed, and it reports a wrap exactly when it came back to the start. |
| Domag.HeaderPassQueues | mag.c:477-515 | A page with a region starts with its X/28 packet. A page without one queues at most its first row. As written, the first row is missing from the queue exactly when copyOL returns 0. |
| Domag.SendFirst | mag.c:477-515 | The queue grows by what HeaderPass gives: the X/28 packet when there is a region, then the first row under the test as written. |
| Domag.CheckCarousels | mag.c:399-415 | Before the wait has passed nothing changes. After it, a served carousel opens a fresh file and reschedules its slot; when none is served the wait becomes ten seconds later. In every case the table, the line buffer, the file, the PAGE and the wait are what CarouselOutcome gives: an empty table or no due slot keeps the file (no due slot hands back a cleared PAGE), a missing file gives a null pointer, and a parsed page that pageToTransmit still reports as 0 leaves its file open and its slot rescheduled. |
| Domag.Magazine.Start | mag.c:381-384 | The thread starts in BEGIN, at page 0, with no file open and no carousel wait. |
| Domag.Magazine.Sending | mag.c:517-547 | One SENDING pass reads a line and queues what its OL or FL branch gives, with the row test as written. When the file is done the state becomes IDLE and the file is dropped. |
| Domag.Magazine.Header | mag.c:477-516 | The X/28 packet and the first row (under the test as written) are queued, and the state becomes SENDING. |
| Domag.Magazine.CarouselCheck | mag.c:399-415 | The carousel table, pageToTransmit's line buffer, the file, the carousel PAGE, the wait and the carousel flag become what CarouselOutcome gives for the state before the check, served or not. |
| Domag.Magazine.PickPage | mag.c:416-441 | The page is the carousel page or, failing that, the next page of txList after the current one. The state becomes BEGIN exactly when the search wrapped. |
| Domag.Magazine.Open | mag.c:443-474 | The page file is opened unless the carousel left one open (ScanStart), the line buffer is emptied and the file scanned to the first OL line (Opened, through SkipToOL), which is left in the line buffer with the file just past it. A page with rows goes to HEADER with its header, as PacketHeader writes it, queued; otherwise the state is IDLE and the file is closed. |
| Domag.Magazine.Step | mag.c:387-551 | BEGIN moves to IDLE and queues nothing. IDLE picks the carousel page or the next page of txList, then stays IDLE with nothing queued and the packet unchanged, or moves to HEADER with the page's header queued. HEADER queues its X/28 packet and first row, then falls through into a SENDING pass. SENDING queues what its pass gives and moves to IDLE when the file is done. Rows use the test as written. Every pass states the line buffer and the file it leaves (IDLE through CarouselOutcome and Opened, HEADER and SENDING through SendingPass), and only IDLE changes the carousel table, the page index, the wait and the carousel PAGE. |
| Domag.Magazine.HeaderThenSending | mag.c:477-547 | The HEADER state falls through into SENDING; both use the row test as written. The line buffer and the file end as the SENDING pass leaves them (the file closed when the page is done), and the page index, the wait and the carousel PAGE are kept. |
| Domag.Magazine.Idle | mag.c:397-476 | The carousel check, the page choice and the file opening happen in that order. The carousel table, its line buffer, the carousel PAGE, the wait and the flag are what CarouselOutcome gives; the page is the carousel page or the next page of txList; the file and the line buffer end as Opened gives them, from the file the check left or the page's file. The state ends as IDLE, with nothing queued and the packet unchanged, or as HEADER with the header, as PacketHeader writes it, queued. |
| Domag.Magazine.ScanToRows | mag.c:452-471 | The file is scanned to its rows, and a header, as PacketHeader writes it, is queued exactly when a row was found. |
| Domag.ThreadStart | mag.c:357-386 | No thread starts when the directory cannot be opened. Otherwise the thread has the magazine getMag gave and starts in BEGIN, and its txList and carousel table hold that magazine's pages from the directory. |
| Streams.CountdownPicksFirstDue | stream.c:67-70 | The selection stops at the magazine whose countdown runs out first, scanning from the current one. |
| Streams.RunDown | stream.c:67-70 | The loop stops at the first magazine whose countdown is 0 and leaves the countdowns as Countdown gives them. |
| Streams.Rearmed | stream.c:151-152 | A countdown is reset to its priority, and a priority of 0 counts as 1. |
| Streams.FirstEmpty | stream.c:50 | The poll loop stops at the first magazine whose buffer is empty. |
| Streams.PollSpinsAsWritten | stream.c:49-50 | As written, once every magazine buffer holds packets the poll stands after k passes at magazine k mod 8, whose buffer is not empty, so it never ends. |
| Streams.FirstReady | stream.c:49-50 | The poll as its comment intends: it stops at the first magazine whose buffer holds a packet, every earlier one being empty. |
| Streams.SubtitlesStallAsWritten | stream.c:59-70 | As written, the selection never serves the subtitle buffer; from empty, k puts leave min(k, 16) packets in its 17 slots, after which a put changes nothing and there is no room for a header and a row. |
| Streams.FilledCaps | stream.c:59-70 | Puts into a buffer nothing drains stop adding once it is full. |
| Streams.SubtitlesDrainIntended | stream.c:59-64 | With the subtitle branch on, a subtitle buffer holding packets and not on hold is served next with magazine 8's countdown at 32, and a pass with room takes its oldest packet. |
| Streams.QuietPacket | stream.c:146 | The quiet packet is all zeros. |
| Streams.Scheduler.Start | stream.c:41-47 | Every hold is clear, every countdown is at its priority, and the stream buffer is empty. |
| Streams.Scheduler.Poll | stream.c:50 | The poll stops at the first empty magazine buffer. |
| Streams.Scheduler.Select | stream.c:67-70 | The served magazine and the countdowns become what Countdown gives. |
| Streams.Scheduler.NewField | stream.c:78-83 | After FieldLines lines the line count restarts, every hold is released, and the field count moves on. |
| Streams.Scheduler.Serve | stream.c:104-149 | A magazine not on hold gets one bufferMove. A header puts it on hold. A magazine on hold counts a held pass. |
| Streams.Scheduler.Forward | stream.c:104-131 | One bufferMove, then the hold and the line count that its result calls for. |
| Streams.Scheduler.MoveFrom | stream.c:109 | The served magazine's buffer and the stream buffer change as Buffer.Move says. |
| Streams.Scheduler.HeldPass | stream.c:135-148 | A held pass is counted, and from the eighth in a row on a quiet packet is queued and a line counted. |
| Streams.Scheduler.Rearm | stream.c:151-152 | The served magazine's countdown is reset as Rearmed gives it. |
| Streams.Scheduler.Step | stream.c:51-155 | One pass is the selection, the end-of-field test, the serve and the rearm, in that order. |
| Streams.Scheduler.Prepare | stream.c:59-83 | The selection is followed by the end-of-field test. |
| Streams.Scheduler.Finish | stream.c:104-152 | The serve is followed by the rearm. |
| Nu4.PageNumberDigits | nu4.c:39-62 | A page is accepted exactly when every byte decodes and the hundreds digit is 1..8. Its hex digits are then the decoded nibbles. |
| Nu4.PageNumberRoundTrip | nu4.c:39-62 | A Page Init command for a page, even with one bit in error per byte, yields that page. |
| Nu4.PageNumberRefusesHundreds | nu4.c:49-50 | A hundreds digit outside 1..8 is refused with 0x901. |
| Nu4.SubtitleMagAsWrittenIgnoresHundreds | nu4.c:69-90 | As written, every page's header goes to magazine 0, except a page numbered xFF. |
| Nu4.SubtitleMagAsWrittenLoses188 | nu4.c:19-90 | As written, page 188 is sent in magazine 8 instead of magazine 1. |
| Nu4.PageFields | nu4.c:39-62 | The page with hex digits h, t and u has magazine h (8 as 0) and page number tu. |
| Nu4.RowCountAsWrittenNegative | nu4.c:104-108 | As written, byte 0x01 gives a row count of −1, outside the documented 0..7, and 255 is kept. |
| Nu4.RowCount | nu4.h:63-67 | The corrected row count is 1..7, or 0 for an invalid byte. |
| Nu4.RowCountCorrects | nu4.c:102-109 | The corrected count differs from the written one only where the written one is negative. |
| Nu4.RowCountRoundTrip | nu4.c:102-109 | A row count sent Hamming coded, even with one bit in error, is read back. |
| Nu4.StrnFieldCStr | nu4.c:119 | The field reads back as the C string it was copied from, cut at n bytes. |
| Nu4.StrnCopy | nu4.c:119 | strncpy writes StrnField into its n bytes and keeps every other byte. |
| Nu4.SubtitleRowReads | nu4.c:114-124 | A receiver finds the row's magazine and row number, and each text byte with odd parity over its seven bits. |
| Nu4.SubtitleHeaderReads | nu4.c:64-94 | With the page number kept whole, a subtitle header would decode as row 0 of the page a Page Init command selects, even with one bit in error. |
| Nu4.SubtitleHeaderAsWrittenReads | nu4.c:64-94 | As written, the header decodes as row 0 of the kept page byte, subcode 0, erase and subtitle bits, in magazine 8 (sent as 0), or magazine 1 for page byte FF. |
| Nu4.SubtitleMagazineAsWritten | nu4.c:39-94 | As written, the header of a Page Init page names its tens and units, but its magazine is the page's hundreds digit only for pages 800..8FE and 1FF. |
| Nu4.HeaderOfPage | nu4.c:69-94 | With the page number kept whole, the header for the page with hex digits h, t and u would decode as magazine h (8 as 0) and page number tu. |
| Nu4.DeliveredRows | nu4.c:78-81 | Rows pass through On Air unchanged. |
| Nu4.Newfor.InitNu4 | nu4.c:26-29 | The eight-slot cache starts empty, and the page, row count and header packet start at zero. |
| Nu4.Newfor.SoftelPageInit | nu4.c:39-62 | The command's page number is returned and, when it is not an error code, kept in the 8-bit page byte, which loses the hundreds digit. |
| Nu4.Newfor.GetRowCount | nu4.c:102-109 | The row count as written is returned, −1 for an undecodable byte, and kept as a byte (255 for −1). When it is not negative it is the documented count. |
| Nu4.Newfor.SaveSubtitleRow | nu4.c:114-125 | The row's packet joins the cache, or is dropped when the cache is full. |
| Nu4.Newfor.BuildHeader | nu4.c:66-74 | The header packet becomes the header of the kept page byte in magazine (page / 0xff) & 7, with subcode 0 and the erase and subtitle bits. |
| Nu4.Newfor.SubtitleOffair | nu4.c:84-97 | An erasing header for the kept page byte, in magazine (page / 0xff) & 7, with parity from byte 13 on, goes to the subtitle buffer unless it is full. |
| Nu4.Newfor.SubtitleOnair | nu4.c:64-83 | A header without parity for the kept page byte, in magazine (page / 0xff) & 7, goes to the subtitle buffer, then the cache follows it packet by packet in delivered form, and the cache ends empty. |
| Nu4.MoveAll | nu4.c:78-81 | The loop moves every cached packet, in order and in delivered form, and leaves the source empty. |
| Nu4.MoveNext | nu4.c:80 | One bufferMove delivers the next cached packet. |

## Left out

- Threads, `piLock`, `delay` and the retry loops around `bufferPut`: the
  model has no concurrency. A method that queues packets requires room in
  its buffer rather than waiting for it (`Domag.Magazine.Step`, `Open`,
  `Sending`, and `Nu4.Newfor.SubtitleOnair`, which never returns while
  the buffer is full; nothing drains that buffer, as "## Findings"
  records).
- Streams.Scheduler.Poll: requires that some magazine buffer is empty,
  because the source spins until one is; when every buffer holds packets
  it never ends, as "## Findings" records.
- `ParsePage` (page.c:160-214) and the opening of the directory with
  `opendir`/`readdir`. The directory is given as parsed entries. Overflow
  of the path built with `strcat` is not modelled.
- `time`, `strftime`, `localtime`, `gmtime`, `mktime` and `difftime`: the
  clock, the current time, the UTC offset and the date are parameters
  (`Clock`, `now`, `later`, `offsetHalfHours`).
- Tables.Deham: hamm.h is not part of this model. The DehamTable entries
  that are not masked codewords are taken to be 0xFF, so the contract
  says only "0xFF or a nibble" for them.
- The `fopen` result passed to `feof` without a test (mag.c:447-452): a
  null file is taken to have no rows, so the state stays IDLE with no
  file open.
- mag.c:466 calls `PacketHeader` with six arguments, but packet.h:82
  declares five parameters. The extra argument is ignored.
- Buffers the source leaves uninitialised are taken to hold zeros.
  pageToTransmit's local `str` (mag.c:127) is the exception: it is
  `Magazine.scratch`, which keeps its contents between calls, so after
  the first call it holds the previous call's last line.
- Buffer.SubstituteField: each `strstr` on the header text (buffer.c:235-358)
  is bounded to bytes 13..44. The template's 32 bytes hold no NUL, so
  where a token is missing the source's search runs past the end of the
  45-byte packet; the model stops at its end.
- The `REVERSE` conditional compilation.
- The skip counter in stream.c. The disabled `&& FALSE` subtitle branch
  is not in `Streams.Scheduler`, which serves the eight magazines only;
  it appears in `SelectAsWritten` and `SelectIntended`, which
  "## Findings" uses. The commented-out 8/30 schedule is also left out,
  and so is the ninth value of the priority initialiser.
- The response text `SubtitleOnair` formats with `sprintf`.
- Diagnostics: `printf`, `fprintf` and `dumpPacket`.
- vbit.c, HandleTCPClient.c, outputstream.c, delay.c, thread.h and pins.h
  are not part of this model.
- `STREAMBUFFERSIZE` is redefined as 50 in outputstream.h. The model
  uses the value 20 that stream.h gives and stream.c assumes.
- The `double` arithmetic of `calculateMJD` is modelled on integers,
  with the truncation to `long` that MJDOf gives.

## Findings

| source | as written | input that shows it | evidently intended | confidence | as-written member | corrected member |
|---|---|---|---|---|---|---|
| packet.c:393-400 | `calculateMJD` uses `(153 * m + 1) / 5` | 2000-03-31 and 2000-04-01 both give 51634 | `(153 * m + 2) / 5`, giving 51635 for 2000-04-01 | high (proved; not executed) | Packet.CalculateMJDRepeatsDay | Packet.MJDNextDay |
| packet.c:246-258 | the header subcode is cut into 4-, 3-, 4- and 2-bit fields | SC 0x0100 reaches a receiver as 0x0200 | one hexadecimal digit per field, as packet 8/30 cuts it at packet.c:329-335 | high (proved; not executed) | Packet.HeaderSubcodeMisplaced | Packet.HeaderSubcodeRoundTrip |
| buffer.c:139 | the wrapped level is `count - head + tail` | 17 slots with head 1 and tail 16 give 32 instead of 2 | `count - tail + head` | high (proved; not executed) | Buffer.LevelAsWrittenMiscounts | Buffer.DistanceCountsPackets |
| mag.c:509-523 | `if (row)` lets copyOL's 0xFF error code through | "OL,5" with no comma is sent as a row-31 packet with stale text | only rows 1..31 decoded from a well-formed line are sent | high (proved; not executed) | Domag.MalformedRowSentAsWritten | Domag.IntendedRowsOnly |
| nu4.c:19-90 | `_page` is 8 bits and the magazine is `_page / 0xff` | page 0x188 is sent in magazine 8 instead of 1 | the hundreds digit is kept and is the magazine | high (proved; not executed) | Nu4.SubtitleMagAsWrittenLoses188 | Nu4.SubtitleHeaderReads |
| nu4.c:104-108 | `vbi_unham8`'s −1 is returned as the row count | byte 0x01 gives −1 | 0 for an invalid byte, as nu4.h:63-67 documents | high (proved; not executed) | Nu4.RowCountAsWrittenNegative | Nu4.RowCount |
| stream.c:49-50 | the poll loop runs while `!bufferIsEmpty` and stops at the first empty buffer | pages in all eight magazines fill every buffer during `delay(500)`, and the loop never ends | hold back until some buffer holds data: stop at the first buffer that is not empty | medium (proved; not executed) | Streams.PollSpinsAsWritten | Streams.FirstReady |
| stream.c:59-70 | the subtitle branch carries `&& FALSE`, so nothing takes packets out of magBuffer[8] | sixteen Off Air commands fill its 17 slots; every later Off Air header is dropped and every later On Air with a cached row never returns | the subtitle buffer is served ahead of the countdown when it holds packets and is not on hold | medium (proved; not executed) | Streams.SubtitlesStallAsWritten | Streams.SubtitlesDrainIntended |
