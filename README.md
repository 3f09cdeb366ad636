# freesat channel list: transport-packet synchroniser and BAT decoder

This project models the two algorithms of `freesat.cpp`, a tool that reads an
MPEG transport stream from standard input. It collects the Freesat bouquet
data carried on PID 3002 and writes it out as one JSON document.

- **Packet synchroniser** (`tsreader`). A 1 MiB byte buffer sits over the input
  stream, with a read cursor and a fill mark. It is refilled in bulk and
  compacted once the cursor passes half the buffer. The cursor skips forward to
  the sync byte `'G'` (0x47), and each call hands out the 188-byte window that
  starts there. That window is the transport packet of section 2.4.3.2 of
  ISO/IEC 13818-1. In the model this is `TsReader`:
  - the classes `ByteSource` (the stream) and `Reader` (the buffer);
  - the pure functions `NextPacket` and `Packets`, which say what the reader
    delivers from the bytes not yet consumed.
- **PID filter** in `main`. It extracts the 13-bit PID from bytes 1–2 of every
  packet and forwards only PID 3002 packets to the section decoder. In the model
  this is `PidFilter`.
- **BAT decoder** (`bat::put_bat`). It applies a decoded Bouquet Association
  Table (ETSI EN 300 468 section 5.2.2) to the document, which maps bouquet ids
  to bouquets. A table is ignored unless its version is newer than the stored
  one. Otherwise it replaces that bouquet wholesale with the decoded contents of
  three descriptors:
  - the bouquet_name_descriptor (tag 0x47, section 6.2.4);
  - a private region descriptor (tag 0xd4);
  - a private channel-number descriptor (tag 0xd3).

  Each of the two private descriptors is a run of records, and a record that
  does not fit ends the parse silently. In the model:
  - `BatDescriptors` holds the record grammars, the folds into the bouquet's
    maps, and the byte walks proved against them;
  - `BatDecoding` holds the table, the version gate and the `BatDecoder` class
    whose `PutBat` updates the document in place.

Modelling choices:
- Bytes are `uint8` and identifiers are `uint16`, both subset types of `int`.
- The source's masks `& 0x1f` and `& 0xfff` are written as `% 0x20` and
  `% 0x1000`.
- JSON object keys are the decimal renderings of 16-bit numbers. Decimal
  rendering is injective, so the document and its inner objects are modelled as
  maps keyed by the numbers themselves.
- Each JSON `channelnumbers` array is a `seq<ChannelNumber>`.
- The input stream is a `ByteSource`: a sequence of bytes still to come, plus
  the `eof` and `bad` flags. A read that comes up short sets `eof`, or `bad`
  when the source is one that fails at its end.

## Model

| member | source | states |
|---|---|---|
| TsReader.FirstSync | freesat.cpp:75-81 | the position where the skip scan stops: no byte before it is 'G', and it is a 'G' unless it is the end |
| TsReader.NextPacket | freesat.cpp:53-89 | the next packet is absent exactly when no sync byte has 188 bytes behind it; otherwise it is 188 bytes starting with 'G', and only non-'G' bytes before it are dropped |
| TsReader.EndOfPackets | freesat.cpp:57-61 | the reader reports the end exactly when every 'G' in the unconsumed bytes is less than 188 bytes from their end |
| TsReader.Packets | freesat.cpp:247 | every packet the reader loop ever receives is 188 bytes long and starts with 'G' |
| TsReader.PacketsFit | freesat.cpp:83-87 | every packet delivered takes 188 bytes of the stream, so no more packets come out than a 188th of the stream length |
| TsReader.ResyncAfterGarbage | freesat.cpp:75-87 | a stream of non-'G' garbage followed by N well-formed packets yields exactly those N packets, aligned |
| TsReader.DropsGarbageTrans | freesat.cpp:75-81 | two successive skips together drop only non-'G' bytes |
| TsReader.PacketAtCursor | freesat.cpp:83-87 | after skipping non-'G' bytes, a 'G' with 188 bytes behind it is exactly the next packet |
| TsReader.EndOfStream | freesat.cpp:57-61 | after skipping non-'G' bytes, fewer than 188 bytes left means no packet |
| TsReader.ByteSource.constructor | freesat.cpp:45-46 | a fresh stream holds its whole contents and has neither flag set |
| TsReader.ByteSource.Read | freesat.cpp:71-72 | a bulk read copies min(n, remaining) bytes to the destination offset, leaves the rest of the array alone, consumes them from the stream, and sets eof or bad exactly when it came up short |
| TsReader.ReadKeepsPending | freesat.cpp:71-72 | appending the bytes read behind the fill mark leaves the unconsumed bytes (buffered plus still in the stream) unchanged |
| TsReader.Reader.constructor | freesat.cpp:45-51 | a 1 MiB buffer, both cursors 0, the unconsumed bytes are the stream's |
| TsReader.Reader.Compact | freesat.cpp:64-69 | the unread bytes buffer[readpos..filled) move unchanged to the front, readpos becomes 0, filled drops by the old readpos |
| TsReader.Reader.Refill | freesat.cpp:62-72 | one refill (with compaction past half the buffer) keeps readpos <= filled <= size and the unconsumed bytes unchanged, and consumes stream bytes or sets a flag |
| TsReader.Reader.EnsureBuffered | freesat.cpp:57-73 | the refill loop ends with 188 bytes buffered, or with the stream drained and eof or bad set; the unconsumed bytes are unchanged |
| TsReader.Reader.SkipToSync | freesat.cpp:75-81 | the scan drops only non-'G' bytes, never passes the fill mark, moves forward when the cursor byte is not 'G', and stops at the fill mark or at the first 'G' |
| TsReader.Reader.SeekSync | freesat.cpp:55-81 | the outer loop of get_packet drops only non-'G' bytes and ends either with a 'G' at the cursor and 188 bytes buffered from it, or with the stream drained, eof or bad set and fewer than 188 bytes left |
| TsReader.Reader.GetPacket | freesat.cpp:53-89 | a returned packet starts at the first 'G' at or after the cursor, is what NextPacket gives, starts with 'G', and the cursor ends exactly 188 past it; null only when NextPacket is absent, fewer than 188 bytes remain and the stream is at eof or bad |
| PidFilter.Pid | freesat.cpp:249 | the PID from the low 5 bits of byte 1 and byte 2 is below 8192 |
| PidFilter.PidOfHeader | freesat.cpp:249 | the three flag bits of byte 1 are masked off: any 13-bit PID written into a header is read back |
| PidFilter.BatPackets | freesat.cpp:251-255 | the forwarded packets are 188 bytes long and carry PID 3002 |
| PidFilter.BatPacketsMembers | freesat.cpp:251-255 | a packet is forwarded if and only if it is received and its PID is 3002 |
| PidFilter.ForwardBatPackets | freesat.cpp:247-256 | the packet loop forwards, in order, exactly the PID-3002 packets of the stream's packet sequence |
| BatDescriptors.RegionRecords | freesat.cpp:162-175 | every decoded region name is shorter than 256 bytes |
| BatDescriptors.RegionRecordsRoundTrip | freesat.cpp:162-175 | a record is a big-endian number, 3 skipped bytes, a length L and L name bytes, and takes 6+L bytes: encoded records decode back whatever their skipped bytes hold, and the parse resumes after them |
| BatDescriptors.TruncatedRegionDropped | freesat.cpp:162-170 | a trailing record cut short anywhere is dropped silently, and all records before it are kept, whatever any skipped bytes hold |
| BatDescriptors.ApplyRegions | freesat.cpp:172 | inserting records adds exactly their numbers to the region keys |
| BatDescriptors.ApplyRegionsConcat | freesat.cpp:146-176 | inserting two runs of records is inserting their concatenation |
| BatDescriptors.ApplyRegionsKeeps | freesat.cpp:172 | a region no record names keeps its name |
| BatDescriptors.LastRegionRecordWins | freesat.cpp:172 | a later record with the same number overwrites: the last one decides the name |
| BatDescriptors.DecodeRegionDescriptor | freesat.cpp:155-176 | the cursor walk over a 0xd4 payload inserts exactly the records of RegionRecords, in order |
| BatDescriptors.ChannelPairs | freesat.cpp:214-220 | a block of L bytes yields exactly floor(L/4) pairs, each number below 4096 |
| BatDescriptors.ChannelPairsValues | freesat.cpp:214-217 | for any bytes, pair k has as number the k-th record's first big-endian word masked to its low 12 bits, and as region its second word |
| BatDescriptors.ChannelPairsRoundTrip | freesat.cpp:214-220 | encoded channel records decode back whatever the top 4 bits of their number word hold; 1 to 3 leftover bytes are ignored |
| BatDescriptors.ServiceBlocksBounds | freesat.cpp:192-202 | for every payload, every decoded block has at most 63 channels (a one-byte length holds at most 63 four-byte records), each number below 4096 |
| BatDescriptors.ServiceBlocksRoundTrip | freesat.cpp:192-222 | a block is a service id, two flag bytes, a length L and L bytes: encoded blocks decode back whatever their flag bytes and leftover bytes hold, and the cursor advances by L past the leftover bytes |
| BatDescriptors.TruncatedBlockDropped | freesat.cpp:192-201 | a block whose header or L bytes overrun the payload is dropped silently, and all blocks before it are kept, whatever any skipped bytes hold |
| BatDescriptors.AppendBlock | freesat.cpp:204-220 | one block keeps every service and its old list as a prefix, and lengthens its own service's list (created empty if absent) by as many entries as the block has channels |
| BatDescriptors.AppendBlockChannels | freesat.cpp:204-220 | after one block, every service's list is exactly its old list, with the block's channels appended in order when the block is for that service and nothing appended otherwise |
| BatDescriptors.AppendServices | freesat.cpp:204-209 | appending blocks adds exactly their service ids to the service keys, creating absent services, and never removes a service or shortens a list |
| BatDescriptors.AppendServicesChannels | freesat.cpp:204-220 | a service's list becomes its old list followed by the channels of every block for it, in order: nothing removed, nothing deduplicated |
| BatDescriptors.AppendServicesConcat | freesat.cpp:183-225 | appending two runs of blocks is appending their concatenation |
| BatDescriptors.PushChannelNumbers | freesat.cpp:212-220 | the inner loop appends the ChannelPairs of the block's L bytes to the service's list |
| BatDescriptors.DecodeChannelDescriptor | freesat.cpp:185-224 | the cursor walk over a 0xd3 payload appends exactly the blocks of ServiceBlocks, in order |
| BatDescriptors.RegionDescriptorExample | freesat.cpp:162-175 | records (1, "A") and (2, "BB") decode to regions {1: "A", 2: "BB"} |
| BatDescriptors.ChannelDescriptorExample | freesat.cpp:192-222 | service 100 with record (0x1234, 0x0007) gets channel number 0x234 in region 7 |
| BatDecoding.ApplyDescriptor | freesat.cpp:148-176 | a name or region descriptor changes neither the version nor the services |
| BatDecoding.ApplyDescriptors | freesat.cpp:146-177 | the bouquet loop changes neither the version nor the services |
| BatDecoding.ApplyDescriptorsFlat | freesat.cpp:146-177 | the bouquet loop keeps the last name descriptor's payload, and inserts all region records of all 0xd4 descriptors in order |
| BatDecoding.ApplyTsDescriptor | freesat.cpp:185-224 | a descriptor of a transport-stream entry never removes a service or shortens a list, and changes nothing unless its tag is 0xd3 |
| BatDecoding.TsServices | freesat.cpp:183-225 | one entry's descriptor loop never removes a service or shortens a list |
| BatDecoding.EntriesServices | freesat.cpp:179-226 | the transport-stream loop never removes a service or shortens a list |
| BatDecoding.TsServicesFlat | freesat.cpp:183-225 | one entry's descriptor loop appends the blocks of all its 0xd3 descriptors in order |
| BatDecoding.EntriesServicesFlat | freesat.cpp:179-226 | the transport-stream loop appends the blocks of all entries in order |
| BatDecoding.DecodeBouquet | freesat.cpp:141-226 | the decoded bouquet carries the table's version |
| BatDecoding.DecodeBouquetFlat | freesat.cpp:141-226 | a decoded bouquet is the version, the last name, every region record and every service block of the table, nothing carried over from an older version |
| BatDecoding.ServiceChannelList | freesat.cpp:204-220 | a service's channel list concatenates its blocks across descriptors and transport-stream entries |
| BatDecoding.RegionNameFromLastRecord | freesat.cpp:172 | a region's name comes from the last record for it in the table |
| BatDecoding.ApplyBat | freesat.cpp:129-144 | a stored version >= the incoming one leaves the document unchanged; otherwise the entry is replaced wholesale by the decoded table; no other bouquet is touched; the stored version becomes the max of old and new |
| BatDecoding.ApplyTables | freesat.cpp:129-144 | over a run of tables, no bouquet ever leaves the document |
| BatDecoding.ApplyBatIdempotent | freesat.cpp:129-135 | feeding the same table twice has the effect of feeding it once |
| BatDecoding.VersionsNeverDecrease | freesat.cpp:129-144 | over any run of tables, no bouquet disappears and no stored version goes down |
| BatDecoding.OtherTablesIgnored | freesat.cpp:110-113 | a run of tables none of which has table id 0x4a leaves the document unchanged |
| BatDecoding.VersionSequence | freesat.cpp:129-144 | versions 3, 2, 5, 5 of a bouquet leave it as the first version-5 table decodes |
| BatDecoding.DecodeTsDescriptors | freesat.cpp:183-225 | the walk over one entry's descriptors appends the blocks of its 0xd3 descriptors |
| BatDecoding.BatDecoder.constructor | freesat.cpp:101-104 | the document starts empty |
| BatDecoding.BatDecoder.PutBat | freesat.cpp:127-227 | the document after one table is ApplyBat of the document before |
| BatDecoding.BatDecoder.HandleTable | freesat.cpp:106-114 | the document after one table instance is OnTable of the document before |

## Left out

- The libdvbpsi demultiplexer is not modelled. These are foreign library calls:
  `dvbpsi_AttachDemux` (freesat.cpp:244), `dvbpsi_AttachBAT` (freesat.cpp:112),
  `dvbpsi_PushPacket` (freesat.cpp:254), which reassembles table sections from
  packets and checks their CRCs, and `dvbpsi_DetachDemux` (freesat.cpp:258).
  - `ForwardBatPackets` returns the forwarded packets instead of pushing them.
  - Decoded tables are model input (`BatTable`), together with the table id
    that `new_subtable` tests.
- `dvbpsi_DecodeBouquetNameDr` (freesat.cpp:151) is not modelled: the name is
  the descriptor's payload taken verbatim, and a failed decode is not modelled.
- JSON construction and `write_json` (freesat.cpp:260) are left out, as is
  `boost::lexical_cast`. Keys are the numbers themselves, since decimal
  rendering is injective.
- The argument check and usage message of `main` (freesat.cpp:236-240) are left
  out; they are I/O.
- The `epg` value (freesat.cpp:195) is read, narrowed to its low byte and never
  used. The model skips its two bytes.
- The model keeps the plain `>=` version comparison (freesat.cpp:132). Wrap-around
  of the 5-bit version counter is not handled, as in the source.
- iostream's `read`, `gcount`, `eof` and `bad` are modelled by `ByteSource`.
  - Like `istream::read`, a model read delivers every byte requested unless
    the stream ends first.
  - A stream that fails part-way is modelled as one whose remaining bytes are
    lost at its end.
- TsReader.Reader.GetPacket: when it returns null, the bytes left in the buffer
  depend on how the reads were chunked, so the contract states only that:
  - they are a suffix of the unconsumed bytes;
  - fewer than 188 of them remain;
  - only non-'G' bytes were dropped.
- TsReader.Reader.GetPacket returns the buffer offset of the packet rather than
  a pointer into the buffer.
- The `while (true)` / `continue` loop of `get_packet` is written as a loop
  whose condition is "a full packet is buffered and the cursor byte is not 'G'".
  Its iterations are the same: refill, skip, refill.
- The synchroniser does not look ahead to check that the next packet also starts
  with 'G'. The model keeps that behaviour, and `ResyncAfterGarbage` is stated
  for garbage without 'G' bytes.
- BatDecoding.BatDecoder.PutBat builds the new bouquet in a local value and
  stores it once at the end. The source writes through a reference into the
  document, and no one reads the document in between.
- Bouquet ids of table instances are not checked against the sub-table
  extension; the model takes `bouquetId` from the table.
